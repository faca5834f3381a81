/** The entities of accounts/models.py: users and their profiles, registration
    codes, event registrations and the registration log. Primary keys are
    natural numbers; times are integers on one clock. */
module AccountsModels {
  import opened Wrappers

  type UserId = nat
  type EventId = nat

  /** The fields of the custom user model the registration view sets:
      `is_staff` false marks a participant. */
  datatype User = User(
    username: string,
    email: string,
    firstName: string,
    lastName: string,
    password: string,
    isStaff: bool,
    isActive: bool)

  /** A user's one-to-one profile; `student_roll_number` is unique when set. */
  datatype UserProfile = UserProfile(
    user: UserId,
    rollNumber: Option<string>,
    branch: Option<string>,
    yearOfStudy: Option<int>)

  /** A code that gates sign-up. `event == None` is a campus-wide code;
      `expiresAt == None` never expires. */
  datatype RegistrationCode = RegistrationCode(
    code: string,
    event: Option<EventId>,
    createdBy: UserId,
    maxUses: nat,
    usesCount: nat,
    expiresAt: Option<int>,
    isActive: bool)

  const CodeMaxLength := 50
  const DefaultMaxUses := 1

  /** A code as the model's defaults create it: one use, none spent, active, no expiry. */
  function NewRegistrationCode(code: string, event: Option<EventId>, createdBy: UserId): RegistrationCode
  {
    RegistrationCode(code, event, createdBy, DefaultMaxUses, 0, None, true)
  }

  /** The code after one more successful redemption. */
  function SpendUse(c: RegistrationCode): RegistrationCode
  {
    c.(usesCount := c.usesCount + 1)
  }

  /** A set expiry that lies strictly before `now`. */
  predicate IsExpired(c: RegistrationCode, now: int)
  {
    c.expiresAt.Some? && c.expiresAt.value < now
  }

  /** The two values of `EventRegistration.status`. */
  datatype RegistrationStatus = Registered | Cancelled

  const DefaultRegistrationStatus := Registered

  /** The two values of `ParticipantRegistrationLog.status`. */
  datatype LogStatus = LogSuccess | LogFail

  /** One row of the registration log. */
  datatype RegistrationLog = RegistrationLog(
    emailAttempt: string,
    codeUsed: string,
    ipAddress: Option<string>,
    status: LogStatus,
    reason: string,
    timestamp: int)
}
