/** The team views of teams/views.py: creating a team, joining one by its
    invite code, and leaving one. Each runs as one transaction; the row lock
    the join view takes is why the model runs requests one at a time. */
module TeamsViews {
  import opened Wrappers
  import opened PyStr
  import opened AccountsModels
  import opened EventsModels
  import opened TeamsModels
  import opened SubmissionsModels
  import opened Store

  /** Why the create and join views turn a user away before the form. */
  datatype Barrier = EventNotFound | NotRegistered | AlreadyInTeam

  /** The checks both views make first, in this order: the event exists, the
      user holds a registration for it (of either status), and sits in no
      team of it. */
  function CheckEntry(d: Db, user: UserId, event: EventId): (r: Option<Barrier>)
    ensures r == Some(EventNotFound) <==> event !in d.events
    ensures r == Some(NotRegistered) <==> event in d.events && !IsRegistered(d, user, event)
    ensures r == Some(AlreadyInTeam) <==>
      event in d.events && IsRegistered(d, user, event) && InTeamFor(d.teams, user, event)
    ensures r == None <==>
      event in d.events && IsRegistered(d, user, event) && !InTeamFor(d.teams, user, event)
  {
    if event !in d.events then Some(EventNotFound)
    else if !IsRegistered(d, user, event) then Some(NotRegistered)
    else if InTeamFor(d.teams, user, event) then Some(AlreadyInTeam)
    else None
  }

  predicate NameTaken(rows: map<TeamId, Team>, event: EventId, name: string)
  {
    exists s :: s in rows && rows[s].event == event && rows[s].teamName == name
  }

  predicate CodeTaken(rows: map<TeamId, Team>, code: string)
  {
    exists s :: s in rows && rows[s].teamCode == code
  }

  // ---------------------------------------------------------------------
  // Table updates, each with the constraints it keeps

  /** A new team under the next id, with its creator's seat. */
  function Establish(t: TeamsTables, team: Team, creator: UserId): TeamsTables
  {
    TeamsTables(t.rows[t.nextId := team], t.nextId + 1, t.members + {(t.nextId, creator)})
  }

  lemma EstablishKeepsValid(t: TeamsTables, team: Team, creator: UserId)
    requires TeamTablesValid(t)
    requires !NameTaken(t.rows, team.event, team.teamName) && !CodeTaken(t.rows, team.teamCode)
    requires team.leader == Some(creator) && !InTeamFor(t, creator, team.event)
    ensures t.nextId !in t.rows
    ensures TeamTablesValid(Establish(t, team, creator))
    ensures MembersOf(Establish(t, team, creator).members, t.nextId) == {creator}
  {
    MembersOfFresh(t.members, t.nextId);
    MembersAfterAdd(t.members, t.nextId, creator);
    EstablishOneTeam(t, team, creator);
  }

  /** The creator's seat is their only one in the event, because they had none. */
  lemma EstablishOneTeam(t: TeamsTables, team: Team, creator: UserId)
    requires OneTeamPerEvent(t.rows, t.members) && t.nextId !in t.rows
    requires forall m :: m in t.members ==> m.0 in t.rows
    requires !InTeamFor(t, creator, team.event)
    ensures OneTeamPerEvent(t.rows[t.nextId := team], t.members + {(t.nextId, creator)})
  {
  }

  /** One more seat in team `team`. */
  function Seat(t: TeamsTables, team: TeamId, user: UserId): TeamsTables
  {
    t.(members := t.members + {(team, user)})
  }

  lemma SeatKeepsValid(t: TeamsTables, team: TeamId, user: UserId)
    requires TeamTablesValid(t) && team in t.rows
    requires |MembersOf(t.members, team)| < t.rows[team].maxSize
    requires !InTeamFor(t, user, t.rows[team].event)
    ensures (team, user) !in t.members
    ensures TeamTablesValid(Seat(t, team, user))
    ensures |MembersOf(Seat(t, team, user).members, team)| == |MembersOf(t.members, team)| + 1 <= t.rows[team].maxSize
  {
    SeatOneTeam(t, team, user);
    MembersAfterAdd(t.members, team, user);
  }

  /** The joiner's seat is their only one in the event, because they had none. */
  lemma SeatOneTeam(t: TeamsTables, team: TeamId, user: UserId)
    requires OneTeamPerEvent(t.rows, t.members) && team in t.rows
    requires !InTeamFor(t, user, t.rows[team].event)
    ensures (team, user) !in t.members
    ensures OneTeamPerEvent(t.rows, t.members + {(team, user)})
  {
  }

  /** One seat fewer in team `team`. */
  function Unseat(t: TeamsTables, team: TeamId, user: UserId): TeamsTables
  {
    t.(members := t.members - {(team, user)})
  }

  lemma UnseatKeepsValid(t: TeamsTables, team: TeamId, user: UserId)
    requires TeamTablesValid(t) && team in t.rows && t.rows[team].leader != Some(user)
    ensures TeamTablesValid(Unseat(t, team, user))
  {
    forall s | s in t.rows
      ensures |MembersOf(t.members - {(team, user)}, s)| <= |MembersOf(t.members, s)|
    {
      MembersAfterRemove(t.members, {(team, user)}, s);
    }
  }

  /** The team deleted together with its membership rows (`on_delete=CASCADE`). */
  function Disband(t: TeamsTables, team: TeamId): TeamsTables
  {
    TeamsTables(t.rows - {team}, t.nextId, set m | m in t.members && m.0 != team)
  }

  lemma DisbandKeepsValid(t: TeamsTables, team: TeamId)
    requires TeamTablesValid(t)
    ensures TeamTablesValid(Disband(t, team))
  {
    var after := Disband(t, team);
    forall s | s in after.rows
      ensures MembersOf(after.members, s) == MembersOf(t.members, s)
    {
    }
  }

  /** The team's submission deleted with the team, and the judgings of that
      submission with it (both foreign keys cascade). */
  function DropSubmissions(s: SubmissionsTables, team: TeamId): SubmissionsTables
  {
    var rows := map k | k in s.rows && s.rows[k].team != team :: s.rows[k];
    SubmissionsTables(rows, s.nextId, set j | j in s.judgings && j.submission in rows)
  }

  lemma DropSubmissionsKeepsValid(rows: map<TeamId, Team>, s: SubmissionsTables, team: TeamId)
    requires SubmissionTablesValid(rows, s)
    ensures SubmissionTablesValid(rows - {team}, DropSubmissions(s, team))
  {
  }

  /** A team whose only member is `user` loses exactly that seat when the
      team's rows are deleted. */
  lemma SoleMemberSeat(members: set<Membership>, team: TeamId, user: UserId)
    requires (team, user) in members && |MembersOf(members, team)| <= 1
    ensures (set m | m in members && m.0 != team) == members - {(team, user)}
  {
    var seated := MembersOf(members, team);
    assert user in seated;
    assert |seated - {user}| == |seated| - 1;
    assert seated == {user} by {
      assert seated - {user} == {};
    }
    forall m | m in members && m.0 == team
      ensures m == (team, user)
    {
      assert m.1 in seated;
    }
  }

  // ---------------------------------------------------------------------
  // team_create_view

  /** The posted `TeamCreateForm`. `maxSize` is the integer the field parses,
      None when blank or not a number. */
  datatype CreateRequest = CreateRequest(isPost: bool, teamName: string, maxSize: Option<int>)

  /** The form validates: a name of 1 to 100 characters after stripping, and a
      size that is a non-negative integer. The (event, name) and code
      constraints are not checked here, as their columns are not on the form. */
  predicate CreateFormIsValid(req: CreateRequest)
  {
    && Strip(req.teamName) != [] && |Strip(req.teamName)| <= TeamNameMaxLength
    && req.maxSize.Some? && req.maxSize.value >= 0
  }

  /** The team the view saves: the form's name and size, the event of the
      URL, the invite code generated from the uuid, and the creator as leader. */
  function TeamOf(req: CreateRequest, event: EventId, uuidHex: string, creator: UserId): Team
    requires CreateFormIsValid(req) && IsUuidHex(uuidHex)
  {
    NewTeam(event, Strip(req.teamName), GenerateUniqueCode(uuidHex), creator, req.maxSize.value as nat)
  }

  datatype CreateOutcome =
    | CreateRefused(barrier: Barrier)
    | CreateFormShown
    | CreateFormInvalid
    | NotSaved
    | Created(team: TeamId)

  /** `team_create_view` for `user` and the event of the URL; `uuidHex` is the
      random uuid behind the new team's default code. */
  function Create(d: Db, user: UserId, event: EventId, req: CreateRequest, uuidHex: string): (r: Transition<CreateOutcome>)
    requires ValidDb(d) && IsUuidHex(uuidHex)
    ensures ValidDb(r.db)
    ensures r.db == d.(teams := r.db.teams)
    ensures !r.outcome.Created? ==> r.db == d
    ensures r.outcome.CreateRefused? <==> CheckEntry(d, user, event).Some?
    ensures r.outcome.CreateRefused? ==> r.outcome.barrier == CheckEntry(d, user, event).value
    ensures r.outcome == CreateFormShown <==> CheckEntry(d, user, event) == None && !req.isPost
    ensures r.outcome == CreateFormInvalid <==>
      CheckEntry(d, user, event) == None && req.isPost && !CreateFormIsValid(req)
    // a clash on (event, name) or on the code aborts both inserts
    ensures r.outcome == NotSaved <==>
      && CheckEntry(d, user, event) == None && req.isPost && CreateFormIsValid(req)
      && (NameTaken(d.teams.rows, event, Strip(req.teamName)) || CodeTaken(d.teams.rows, GenerateUniqueCode(uuidHex)))
    // a new team of this event, led by its creator, whose only member is the creator
    ensures r.outcome.Created? ==>
      && CreateFormIsValid(req)
      && r.outcome.team !in d.teams.rows
      && r.db.teams.rows == d.teams.rows[r.outcome.team := TeamOf(req, event, uuidHex, user)]
      && r.db.teams.members == d.teams.members + {(r.outcome.team, user)}
      && MembersOf(r.db.teams.members, r.outcome.team) == {user}
  {
    var entry := CheckEntry(d, user, event);
    if entry.Some? then Transition(d, CreateRefused(entry.value))
    else if !req.isPost then Transition(d, CreateFormShown)
    else if !CreateFormIsValid(req) then Transition(d, CreateFormInvalid)
    else
      var team := TeamOf(req, event, uuidHex, user);
      if NameTaken(d.teams.rows, event, team.teamName) || CodeTaken(d.teams.rows, team.teamCode) then
        Transition(d, NotSaved)
      else
        EstablishKeepsValid(d.teams, team, user);
        Transition(d.(teams := Establish(d.teams, team, user)), Created(d.teams.nextId))
  }

  method CreateTeam(db: Database, user: UserId, event: EventId, req: CreateRequest, uuidHex: string)
    returns (outcome: CreateOutcome)
    requires db.Valid() && IsUuidHex(uuidHex)
    modifies db
    ensures Transition(db.Snapshot(), outcome) == Create(old(db.Snapshot()), user, event, req, uuidHex)
    ensures db.Valid()
  {
    var entry := CheckEntry(db.Snapshot(), user, event);
    if entry.Some? {
      return CreateRefused(entry.value);
    }
    if !req.isPost {
      return CreateFormShown;
    }
    if !CreateFormIsValid(req) {
      return CreateFormInvalid;
    }
    var teams := db.teams;
    var team := TeamOf(req, event, uuidHex, user);
    if NameTaken(teams.rows, event, team.teamName) || CodeTaken(teams.rows, team.teamCode) {
      return NotSaved;
    }
    db.teams := Establish(teams, team, user);
    outcome := Created(teams.nextId);
  }

  // ---------------------------------------------------------------------
  // team_join_view

  /** The team of `event` whose code is `code`; the code is unique over all
      teams, so there is at most one. */
  function FindTeam(rows: map<TeamId, Team>, code: string, event: EventId): (r: Option<TeamId>)
    requires TeamCodesUnique(rows)
    ensures r.Some? ==> r.value in rows && rows[r.value].teamCode == code && rows[r.value].event == event
    ensures r.Some? ==> forall t :: t in rows && rows[t].teamCode == code ==> t == r.value
    ensures r.None? ==> forall t :: t in rows && rows[t].teamCode == code ==> rows[t].event != event
  {
    if exists t :: t in rows && rows[t].teamCode == code && rows[t].event == event then
      var t :| t in rows && rows[t].teamCode == code && rows[t].event == event;
      Some(t)
    else
      None
  }

  /** The posted `TeamJoinForm`. */
  datatype JoinRequest = JoinRequest(isPost: bool, teamCode: string)

  /** A code of 1 to 20 characters after stripping. */
  predicate JoinFormIsValid(req: JoinRequest)
  {
    Strip(req.teamCode) != [] && |Strip(req.teamCode)| <= TeamCodeMaxLength
  }

  /** The code looked up: the cleaned field, upper-cased. */
  function TypedCode(req: JoinRequest): string
  {
    ToUpper(Strip(req.teamCode))
  }

  datatype JoinOutcome =
    | JoinRefused(barrier: Barrier)
    | JoinFormShown
    | JoinFormInvalid
    | NoSuchTeam
    | TeamFull(team: TeamId)
    | Joined(team: TeamId)

  /** `team_join_view` for `user` and the event of the URL. */
  function Join(d: Db, user: UserId, event: EventId, req: JoinRequest): (r: Transition<JoinOutcome>)
    requires ValidDb(d)
    ensures ValidDb(r.db)
    ensures r.db == d.(teams := d.teams.(members := r.db.teams.members))
    ensures !r.outcome.Joined? ==> r.db == d
    ensures r.outcome.JoinRefused? <==> CheckEntry(d, user, event).Some?
    ensures r.outcome.JoinRefused? ==> r.outcome.barrier == CheckEntry(d, user, event).value
    ensures r.outcome == JoinFormShown <==> CheckEntry(d, user, event) == None && !req.isPost
    ensures r.outcome == JoinFormInvalid <==>
      CheckEntry(d, user, event) == None && req.isPost && !JoinFormIsValid(req)
    // the upper-cased code is looked up among this event's teams only
    ensures r.outcome == NoSuchTeam <==>
      && CheckEntry(d, user, event) == None && req.isPost && JoinFormIsValid(req)
      && FindTeam(d.teams.rows, TypedCode(req), event) == None
    ensures r.outcome.TeamFull? || r.outcome.Joined? ==>
      && CheckEntry(d, user, event) == None && req.isPost && JoinFormIsValid(req)
      && FindTeam(d.teams.rows, TypedCode(req), event) == Some(r.outcome.team)
    // a full team takes nobody; otherwise the user fills exactly one more seat
    ensures r.outcome.TeamFull? ==>
      |MembersOf(d.teams.members, r.outcome.team)| >= d.teams.rows[r.outcome.team].maxSize
    ensures r.outcome.Joined? ==>
      && |MembersOf(d.teams.members, r.outcome.team)| < d.teams.rows[r.outcome.team].maxSize
      && (r.outcome.team, user) !in d.teams.members
      && r.db.teams.members == d.teams.members + {(r.outcome.team, user)}
      && |MembersOf(r.db.teams.members, r.outcome.team)| <= d.teams.rows[r.outcome.team].maxSize
  {
    var entry := CheckEntry(d, user, event);
    if entry.Some? then Transition(d, JoinRefused(entry.value))
    else if !req.isPost then Transition(d, JoinFormShown)
    else if !JoinFormIsValid(req) then Transition(d, JoinFormInvalid)
    else
      var found := FindTeam(d.teams.rows, TypedCode(req), event);
      if found.None? then Transition(d, NoSuchTeam)
      else
        var team := found.value;
        if |MembersOf(d.teams.members, team)| >= d.teams.rows[team].maxSize then Transition(d, TeamFull(team))
        else
          SeatKeepsValid(d.teams, team, user);
          Transition(d.(teams := Seat(d.teams, team, user)), Joined(team))
  }

  method JoinTeam(db: Database, user: UserId, event: EventId, req: JoinRequest) returns (outcome: JoinOutcome)
    requires db.Valid()
    modifies db
    ensures Transition(db.Snapshot(), outcome) == Join(old(db.Snapshot()), user, event, req)
    ensures db.Valid()
  {
    var entry := CheckEntry(db.Snapshot(), user, event);
    if entry.Some? {
      return JoinRefused(entry.value);
    }
    if !req.isPost {
      return JoinFormShown;
    }
    if !JoinFormIsValid(req) {
      return JoinFormInvalid;
    }
    var teams := db.teams;
    var found := FindTeam(teams.rows, TypedCode(req), event);
    if found.None? {
      return NoSuchTeam;
    }
    var team := found.value;
    if |MembersOf(teams.members, team)| >= teams.rows[team].maxSize {
      return TeamFull(team);
    }
    db.teams := Seat(teams, team, user);
    outcome := Joined(team);
  }

  // ---------------------------------------------------------------------
  // team_leave_view

  datatype LeaveOutcome =
    | TeamNotFound
    | NotAMember
    | LeaveConfirmShown
    | LeaderMustStay
    | Disbanded
    | Left

  /** `team_leave_view` for `user` and the team of the URL. */
  function Leave(d: Db, user: UserId, team: TeamId, isPost: bool): (r: Transition<LeaveOutcome>)
    requires ValidDb(d)
    ensures ValidDb(r.db)
    ensures r.db == d.(teams := r.db.teams, submissions := r.db.submissions)
    ensures !r.outcome.Disbanded? && !r.outcome.Left? ==> r.db == d
    ensures r.outcome == TeamNotFound <==> team !in d.teams.rows
    ensures r.outcome == NotAMember <==> team in d.teams.rows && (team, user) !in d.teams.members
    ensures r.outcome == LeaveConfirmShown <==> team in d.teams.rows && (team, user) in d.teams.members && !isPost
    // the leader leaves only as the last member, and that deletes the team
    ensures r.outcome == LeaderMustStay <==>
      && team in d.teams.rows && (team, user) in d.teams.members && isPost
      && d.teams.rows[team].leader == Some(user) && |MembersOf(d.teams.members, team)| > 1
    ensures r.outcome == Disbanded <==>
      && team in d.teams.rows && (team, user) in d.teams.members && isPost
      && d.teams.rows[team].leader == Some(user) && |MembersOf(d.teams.members, team)| <= 1
    ensures r.outcome == Disbanded ==>
      && r.db.teams.rows == d.teams.rows - {team}
      && r.db.teams.members == d.teams.members - {(team, user)}
      && (forall s :: s in r.db.submissions.rows ==> r.db.submissions.rows[s].team != team)
      && (forall s :: s in d.submissions.rows && d.submissions.rows[s].team != team ==>
            s in r.db.submissions.rows && r.db.submissions.rows[s] == d.submissions.rows[s])
      && r.db.submissions.rows == (map k | k in d.submissions.rows && d.submissions.rows[k].team != team :: d.submissions.rows[k])
      // only the judgings of the deleted submission go with it
      && r.db.submissions.judgings == (set j | j in d.submissions.judgings && j.submission in r.db.submissions.rows)
      && r.db.teams.nextId == d.teams.nextId && r.db.submissions.nextId == d.submissions.nextId
    // anyone else gives up their own seat and nothing more
    ensures r.outcome == Left <==>
      team in d.teams.rows && (team, user) in d.teams.members && isPost && d.teams.rows[team].leader != Some(user)
    ensures r.outcome == Left ==>
      r.db == d.(teams := d.teams.(members := d.teams.members - {(team, user)}))
  {
    if team !in d.teams.rows then Transition(d, TeamNotFound)
    else if (team, user) !in d.teams.members then Transition(d, NotAMember)
    else if !isPost then Transition(d, LeaveConfirmShown)
    else if d.teams.rows[team].leader == Some(user) then
      if |MembersOf(d.teams.members, team)| > 1 then Transition(d, LeaderMustStay)
      else
        DisbandKeepsValid(d.teams, team);
        DropSubmissionsKeepsValid(d.teams.rows, d.submissions, team);
        SoleMemberSeat(d.teams.members, team, user);
        Transition(d.(teams := Disband(d.teams, team), submissions := DropSubmissions(d.submissions, team)), Disbanded)
    else
      UnseatKeepsValid(d.teams, team, user);
      Transition(d.(teams := Unseat(d.teams, team, user)), Left)
  }

  method LeaveTeam(db: Database, user: UserId, team: TeamId, isPost: bool) returns (outcome: LeaveOutcome)
    requires db.Valid()
    modifies db
    ensures Transition(db.Snapshot(), outcome) == Leave(old(db.Snapshot()), user, team, isPost)
    ensures db.Valid()
  {
    var teams := db.teams;
    if team !in teams.rows {
      return TeamNotFound;
    }
    if (team, user) !in teams.members {
      return NotAMember;
    }
    if !isPost {
      return LeaveConfirmShown;
    }
    if teams.rows[team].leader == Some(user) {
      if |MembersOf(teams.members, team)| > 1 {
        return LeaderMustStay;
      }
      db.teams, db.submissions := Disband(teams, team), DropSubmissions(db.submissions, team);
      return Disbanded;
    }
    db.teams := Unseat(teams, team, user);
    outcome := Left;
  }

  // ---------------------------------------------------------------------
  // Properties across views

  /** Joining and then leaving gives the seat back: the database is as it was. */
  lemma JoinThenLeave(d: Db, user: UserId, event: EventId, req: JoinRequest)
    requires ValidDb(d) && Join(d, user, event, req).outcome.Joined?
    ensures
      var j := Join(d, user, event, req);
      Leave(j.db, user, j.outcome.team, true) == Transition(d, Left)
  {
    var j := Join(d, user, event, req);
    var team := j.outcome.team;
    var leader := d.teams.rows[team].leader;
    assert leader != Some(user);
    assert d.teams.members + {(team, user)} - {(team, user)} == d.teams.members;
  }

  /** A creator who leaves their new team straight away disbands it, and the
      teams, seats and submissions are as before. */
  lemma CreateThenLeave(d: Db, user: UserId, event: EventId, req: CreateRequest, uuidHex: string)
    requires ValidDb(d) && IsUuidHex(uuidHex) && Create(d, user, event, req, uuidHex).outcome.Created?
    ensures
      var c := Create(d, user, event, req, uuidHex);
      var l := Leave(c.db, user, c.outcome.team, true);
      && l.outcome == Disbanded
      && l.db.teams.rows == d.teams.rows
      && l.db.teams.members == d.teams.members
      && l.db.submissions == d.submissions
  {
    var c := Create(d, user, event, req, uuidHex);
    var team := c.outcome.team;
    assert (team, user) !in d.teams.members;
    assert d.teams.members + {(team, user)} - {(team, user)} == d.teams.members;
    assert d.teams.rows[team := TeamOf(req, event, uuidHex, user)] - {team} == d.teams.rows;
    NothingToDrop(d.submissions, team);
  }

  /** A team without a submission cascades to nothing. */
  lemma NothingToDrop(s: SubmissionsTables, team: TeamId)
    requires JudgingsValid(s.rows, s.judgings)
    requires forall k :: k in s.rows ==> s.rows[k].team != team
    ensures DropSubmissions(s, team) == s
  {
    var rows := map k | k in s.rows && s.rows[k].team != team :: s.rows[k];
    assert rows == s.rows;
    assert (set j | j in s.judgings && j.submission in rows) == s.judgings;
  }

  /** A seat in a team of the event bars both creating and joining there. */
  lemma OneTeamPerEventGuard(d: Db, user: UserId, event: EventId, c: CreateRequest, uuidHex: string, j: JoinRequest)
    requires ValidDb(d) && IsUuidHex(uuidHex) && InTeamFor(d.teams, user, event)
    ensures Create(d, user, event, c, uuidHex).db == d
    ensures Join(d, user, event, j).db == d
    ensures event in d.events && IsRegistered(d, user, event) ==>
      && Create(d, user, event, c, uuidHex).outcome == CreateRefused(AlreadyInTeam)
      && Join(d, user, event, j).outcome == JoinRefused(AlreadyInTeam)
  {
  }

  /** The code a team is created with, typed back in lower case as the uuid
      spelled it, finds that team. */
  lemma InviteCodeIgnoresCase(rows: map<TeamId, Team>, t: TeamId, uuidHex: string, event: EventId)
    requires TeamCodesUnique(rows) && IsUuidHex(uuidHex)
    requires t in rows && rows[t].event == event && rows[t].teamCode == GenerateUniqueCode(uuidHex)
    ensures FindTeam(rows, TypedCode(JoinRequest(true, uuidHex[..TeamCodeLength])), event) == Some(t)
  {
    var typed := uuidHex[..TeamCodeLength];
    assert Trimmed(typed);
    assert [] + typed + [] == typed;
    StripKeepsText([], typed, []);
  }
}
