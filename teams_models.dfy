/** The entities of teams/models.py: teams with an invite code and a seat
    limit, and the memberships that fill the seats. */
module TeamsModels {
  import opened Wrappers
  import opened PyStr
  import opened AccountsModels

  type TeamId = nat

  /** A team of one event. `leader` becomes None if the leader's user is deleted. */
  datatype Team = Team(
    event: EventId,
    teamName: string,
    teamCode: string,
    leader: Option<UserId>,
    maxSize: nat)

  /** A `TeamMember` row: which participant sits in which team. */
  type Membership = (TeamId, UserId)

  const TeamNameMaxLength := 100
  const TeamCodeMaxLength := 20
  const TeamCodeLength := 6

  predicate IsLowerHexDigit(c: char)
  {
    '0' <= c <= '9' || 'a' <= c <= 'f'
  }

  predicate IsUpperHexDigit(c: char)
  {
    '0' <= c <= '9' || 'A' <= c <= 'F'
  }

  /** The text of `uuid.uuid4().hex`: 32 lower-case hexadecimal digits. */
  predicate IsUuidHex(h: string)
  {
    |h| == 32 && forall i :: 0 <= i < |h| ==> IsLowerHexDigit(h[i])
  }

  /** `generate_unique_code`, given the random uuid's hex text: six upper-case
      hexadecimal digits that spell the uuid's first six digits. */
  function GenerateUniqueCode(uuidHex: string): (code: string)
    requires IsUuidHex(uuidHex)
    ensures |code| == TeamCodeLength <= TeamCodeMaxLength
    ensures forall i :: 0 <= i < |code| ==> IsUpperHexDigit(code[i])
    ensures ToLower(code) == uuidHex[..TeamCodeLength]
  {
    var prefix := uuidHex[..TeamCodeLength];
    LowerOfUpper(prefix);
    ToUpper(prefix)
  }

  /** A team as the create view saves it, with the form's name and size. */
  function NewTeam(event: EventId, teamName: string, teamCode: string, leader: UserId, maxSize: nat): Team
  {
    Team(event, teamName, teamCode, Some(leader), maxSize)
  }
}
