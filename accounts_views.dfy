/** `register_participant_view` of accounts/views.py: a code-gated sign-up that
    runs in one transaction, with the code row locked, and logs every attempt
    whose form validates. */
module AccountsViews {
  import opened Wrappers
  import opened PyStr
  import opened AccountsModels
  import opened AccountsForms
  import opened Store

  /** The parts of the request the view reads. */
  datatype RegistrationRequest = RegistrationRequest(
    isPost: bool,
    form: RegistrationForm,
    remoteAddr: Option<string>)

  /** A unique column whose violation aborts the transaction. */
  datatype Constraint = UniqueUsername | UniqueRollNumber

  /** Why an attempt with a valid form is turned away. */
  datatype Rejection =
    | CodeDoesNotExist
    | CodeNotActive
    | CodeExpired
    | CodeExhausted
    | IntegrityError(constraint: Constraint)

  /** The log reason: the view's own texts for the code checks, the database
      driver's message (in SQLite's wording) for an integrity error. */
  function Reason(why: Rejection): string
  {
    match why
    case CodeDoesNotExist => "Code does not exist"
    case CodeNotActive => "This code is not active."
    case CodeExpired => "This code is expired."
    case CodeExhausted => "This code has reached its maximum uses."
    case IntegrityError(UniqueUsername) => "UNIQUE constraint failed: accounts_user.username"
    case IntegrityError(UniqueRollNumber) => "UNIQUE constraint failed: accounts_userprofile.student_roll_number"
  }

  const SuccessReason := "Registration successful"

  /** What the view answers: the blank form (GET), the form with its errors,
      a redirect to login for the new user, or the form with a refusal. */
  datatype RegisterOutcome =
    | FormShown
    | FormInvalid
    | SignedUp(user: UserId)
    | Refused(why: Rejection)

  /** What the view reads off one POST besides the form: the stripped raw
      email and code fields, the client address, and the time. */
  datatype Attempt = Attempt(emailAttempt: string, code: string, ipAddress: Option<string>, now: int)

  function AttemptOf(req: RegistrationRequest, now: int): Attempt
  {
    Attempt(Strip(req.form.email), CodeKey(req), req.remoteAddr, now)
  }

  /** A POST whose form validates: the only attempts that reach the code. */
  predicate Attempted(acc: AccountsTables, req: RegistrationRequest)
  {
    req.isPost && FormIsValid(acc.users, req.form)
  }

  /** The code string the view looks up (stripped). */
  function CodeKey(req: RegistrationRequest): string
  {
    Strip(req.form.registrationCode)
  }

  /** A code row that passes all three checks of the view at time `now`. */
  predicate CodeAccepts(codes: map<string, RegistrationCode>, key: string, now: int)
  {
    key in codes && codes[key].isActive && !IsExpired(codes[key], now)
    && codes[key].usesCount < codes[key].maxUses
  }

  predicate UsernameTaken(users: map<UserId, User>, username: string)
  {
    exists u :: u in users && users[u].username == username
  }

  predicate RollNumberTaken(profiles: map<UserId, UserProfile>, roll: string)
  {
    exists u :: u in profiles && profiles[u].rollNumber == Some(roll)
  }

  /** The first check that fails, in the order the view runs them: the lookup,
      the three code checks, then the inserts of the user and of the profile. */
  function Refusal(acc: AccountsTables, key: string, now: int, username: string, roll: string): (r: Option<Rejection>)
    ensures r == Some(CodeDoesNotExist) <==> key !in acc.codes
    ensures r == Some(CodeNotActive) <==> key in acc.codes && !acc.codes[key].isActive
    ensures r == Some(CodeExpired) <==>
      key in acc.codes && acc.codes[key].isActive && IsExpired(acc.codes[key], now)
    ensures r == Some(CodeExhausted) <==>
      key in acc.codes && acc.codes[key].isActive && !IsExpired(acc.codes[key], now)
      && acc.codes[key].usesCount >= acc.codes[key].maxUses
    ensures r == Some(IntegrityError(UniqueUsername)) <==>
      CodeAccepts(acc.codes, key, now) && UsernameTaken(acc.users, username)
    ensures r == Some(IntegrityError(UniqueRollNumber)) <==>
      CodeAccepts(acc.codes, key, now) && !UsernameTaken(acc.users, username) && RollNumberTaken(acc.profiles, roll)
    ensures r == None <==>
      CodeAccepts(acc.codes, key, now) && !UsernameTaken(acc.users, username) && !RollNumberTaken(acc.profiles, roll)
  {
    if key !in acc.codes then Some(CodeDoesNotExist)
    else if !acc.codes[key].isActive then Some(CodeNotActive)
    else if IsExpired(acc.codes[key], now) then Some(CodeExpired)
    else if acc.codes[key].usesCount >= acc.codes[key].maxUses then Some(CodeExhausted)
    else if UsernameTaken(acc.users, username) then Some(IntegrityError(UniqueUsername))
    else if RollNumberTaken(acc.profiles, roll) then Some(IntegrityError(UniqueRollNumber))
    else None
  }

  /** The user `form.save(commit=False)` builds: the form's fields, a participant
      (not staff) and inactive until activation. */
  function NewParticipant(c: CleanedData, username: string): User
  {
    User(username, c.email, c.firstName, c.lastName, c.password, false, false)
  }

  function NewProfile(uid: UserId, c: CleanedData): UserProfile
  {
    UserProfile(uid, Some(c.rollNumber), Some(c.branch), c.yearOfStudy)
  }

  /** A log row for one attempt. */
  function LogRow(attempt: Attempt, status: LogStatus, reason: string): RegistrationLog
  {
    RegistrationLog(attempt.emailAttempt, attempt.code, attempt.ipAddress, status, reason, attempt.now)
  }

  /** The writes of a successful sign-up: a fresh participant, its profile,
      one more use of the code, the event registration for an event code, and
      a success row in the log; no other table changes. */
  function Admit(acc: AccountsTables, c: CleanedData, a: Attempt, username: string): (r: AccountsTables)
    requires UsersAllocated(acc.users, acc.nextUser) && ProfilesValid(acc.users, acc.profiles)
    requires RegistrationsValid(acc.users, acc.registrations)
    requires CodeAccepts(acc.codes, a.code, a.now)
    ensures acc.nextUser !in acc.users && acc.nextUser !in acc.profiles
    ensures r.users == acc.users[acc.nextUser := NewParticipant(c, username)]
    ensures !r.users[acc.nextUser].isStaff && !r.users[acc.nextUser].isActive
    ensures r.profiles == acc.profiles[acc.nextUser := NewProfile(acc.nextUser, c)]
    ensures r.codes == acc.codes[a.code := SpendUse(acc.codes[a.code])]
    ensures acc.codes[a.code].event.Some? ==>
      var e := acc.codes[a.code].event.value;
      (acc.nextUser, e) !in acc.registrations && r.registrations == acc.registrations[(acc.nextUser, e) := RegistrationStatus.Registered]
    ensures acc.codes[a.code].event.None? ==> r.registrations == acc.registrations
    ensures r.log == acc.log + [LogRow(a, LogSuccess, SuccessReason)]
    ensures r == acc.(users := r.users, nextUser := acc.nextUser + 1, profiles := r.profiles,
                    codes := r.codes, registrations := r.registrations, log := r.log)
  {
    var uid := acc.nextUser;
    var code := acc.codes[a.code];
    var registrations :=
      if code.event.Some? then acc.registrations[(uid, code.event.value) := DefaultRegistrationStatus]
      else acc.registrations;
    acc.(users := acc.users[uid := NewParticipant(c, username)],
       nextUser := uid + 1,
       profiles := acc.profiles[uid := NewProfile(uid, c)],
       codes := acc.codes[a.code := SpendUse(code)],
       registrations := registrations,
       log := acc.log + [LogRow(a, LogSuccess, SuccessReason)])
  }

  lemma AdmitKeepsValid(acc: AccountsTables, c: CleanedData, a: Attempt, username: string)
    requires AccountsValid(acc)
    requires CodeAccepts(acc.codes, a.code, a.now)
    requires !UsernameTaken(acc.users, username)
    requires !RollNumberTaken(acc.profiles, c.rollNumber)
    ensures AccountsValid(Admit(acc, c, a, username))
  {
    var r := Admit(acc, c, a, username);
    assert CodesKeyed(r.codes);
    assert UsersAllocated(r.users, r.nextUser);
    assert ProfilesValid(r.users, r.profiles);
    assert RegistrationsValid(r.users, r.registrations);
  }

  /** One request to the view at time `now`; `username` is the username the
      new user row is saved with. */
  function Register(d: Db, req: RegistrationRequest, now: int, username: string): (r: Transition<RegisterOutcome>)
    requires ValidDb(d)
    ensures ValidDb(r.db)
    ensures r.db == d.(accounts := r.db.accounts)
    ensures r.outcome == FormShown <==> !req.isPost
    ensures r.outcome == FormInvalid <==> req.isPost && !FormIsValid(d.accounts.users, req.form)
    ensures !Attempted(d.accounts, req) ==> r.db == d
    // a validated attempt is refused exactly when one of the checks fails
    ensures Attempted(d.accounts, req) ==>
      (r.outcome.SignedUp? <==> Refusal(d.accounts, CodeKey(req), now, username, Cleaned(req.form).rollNumber) == None)
    ensures r.outcome.Refused? ==>
      && Attempted(d.accounts, req)
      && Refusal(d.accounts, CodeKey(req), now, username, Cleaned(req.form).rollNumber) == Some(r.outcome.why)
    // a refusal rolls the transaction back and only the failure is logged
    ensures r.outcome.Refused? ==>
      r.db.accounts == d.accounts.(log := d.accounts.log + [LogRow(AttemptOf(req, now), LogFail, Reason(r.outcome.why))])
    // a success makes the writes `Admit` describes for the next user id
    ensures r.outcome.SignedUp? ==>
      && r.outcome.user == d.accounts.nextUser
      && r.db.accounts == Admit(d.accounts, Cleaned(req.form), AttemptOf(req, now), username)
  {
    var acc := d.accounts;
    if !req.isPost then Transition(d, FormShown)
    else if !FormIsValid(acc.users, req.form) then Transition(d, FormInvalid)
    else
      var a := AttemptOf(req, now);
      var c := Cleaned(req.form);
      var why := Refusal(acc, a.code, now, username, c.rollNumber);
      if why.Some? then
        Transition(d.(accounts := acc.(log := acc.log + [LogRow(a, LogFail, Reason(why.value))])), Refused(why.value))
      else
        AdmitKeepsValid(acc, c, a, username);
        Transition(d.(accounts := Admit(acc, c, a, username)), SignedUp(acc.nextUser))
  }

  /** The registration as it is evidently meant to save the user: with a
      username no other account holds. The cleaned email serves, because
      `clean_email` has already refused an address any account holds. */
  function RegisterByEmail(d: Db, req: RegistrationRequest, now: int): (r: Transition<RegisterOutcome>)
    requires ValidDb(d)
    ensures ValidDb(r.db)
    ensures UsernamesAreEmails(d.accounts.users) ==>
      r.outcome != Refused(IntegrityError(UniqueUsername)) && UsernamesAreEmails(r.db.accounts.users)
  {
    EmailUsernameFree(d.accounts, req);
    Register(d, req, now, Cleaned(req.form).email)
  }

  /** Where every username is its account's email, the email of a form that
      validates is nobody's username. */
  lemma EmailUsernameFree(acc: AccountsTables, req: RegistrationRequest)
    ensures Attempted(acc, req) && UsernamesAreEmails(acc.users) ==> !UsernameTaken(acc.users, Cleaned(req.form).email)
  {
  }

  /** Every account is named by its email address, as the accounts this view
      creates under `RegisterByEmail` are. */
  predicate UsernamesAreEmails(users: map<UserId, User>)
  {
    forall u :: u in users ==> users[u].username == users[u].email
  }

  /** The view as a method on the database: the code checks run against the
      locked row before anything is written, so a refusal writes only its log
      row and needs no rollback. */
  method RegisterParticipant(db: Database, req: RegistrationRequest, now: int) returns (outcome: RegisterOutcome)
    requires db.Valid()
    modifies db
    ensures Transition(db.Snapshot(), outcome) == RegisterByEmail(old(db.Snapshot()), req, now)
    ensures db.Valid()
  {
    var acc := db.accounts;
    if !req.isPost {
      return FormShown;
    }
    if !FormIsValid(acc.users, req.form) {
      return FormInvalid;
    }
    var a := AttemptOf(req, now);
    var c := Cleaned(req.form);
    var username := c.email;
    var why := Refusal(acc, a.code, now, username, c.rollNumber);
    if why.Some? {
      db.accounts := acc.(log := acc.log + [LogRow(a, LogFail, Reason(why.value))]);
      return Refused(why.value);
    }
    db.accounts := Admit(acc, c, a, username);
    outcome := SignedUp(acc.nextUser);
  }

  /** A sequence of requests to the view, each with its time and the username
      its user row is saved with. */
  datatype Step = Step(request: RegistrationRequest, now: int, username: string)

  /** The database after the requests of `steps`, in order. */
  function Replay(d: Db, steps: seq<Step>): (r: Db)
    requires ValidDb(d)
    ensures ValidDb(r)
    decreases |steps|
  {
    if steps == [] then d
    else
      var last := steps[|steps| - 1];
      Register(Replay(d, steps[..|steps| - 1]), last.request, last.now, last.username).db
  }

  /** The success rows of the log that name `code`. */
  function SuccessCount(log: seq<RegistrationLog>, code: string): nat
  {
    if log == [] then 0
    else
      var row := log[|log| - 1];
      SuccessCount(log[..|log| - 1], code) + (if row.status == LogSuccess && row.codeUsed == code then 1 else 0)
  }

  lemma SuccessCountAppend(log: seq<RegistrationLog>, row: RegistrationLog, code: string)
    ensures SuccessCount(log + [row], code) ==
      SuccessCount(log, code) + (if row.status == LogSuccess && row.codeUsed == code then 1 else 0)
  {
    assert (log + [row])[..|log|] == log;
  }

  /** A sign-up spends one use of its own code and logs one success for it;
      every other code keeps its uses and its success count. */
  lemma AdmitAccounting(acc: AccountsTables, c: CleanedData, a: Attempt, username: string, code: string)
    requires UsersAllocated(acc.users, acc.nextUser) && ProfilesValid(acc.users, acc.profiles)
    requires RegistrationsValid(acc.users, acc.registrations)
    requires CodeAccepts(acc.codes, a.code, a.now) && code in acc.codes
    ensures
      var after := Admit(acc, c, a, username);
      && after.codes.Keys == acc.codes.Keys
      && after.codes[code].maxUses == acc.codes[code].maxUses
      && after.codes[code].usesCount - acc.codes[code].usesCount
         == SuccessCount(after.log, code) - SuccessCount(acc.log, code)
      && (acc.codes[code].usesCount <= acc.codes[code].maxUses ==>
            after.codes[code].usesCount <= after.codes[code].maxUses)
  {
    SuccessCountAppend(acc.log, LogRow(a, LogSuccess, SuccessReason), code);
  }

  /** One request spends a use of `code` exactly when it logs a success for
      it, and never spends one the code does not have. */
  lemma RegisterAccounting(d: Db, req: RegistrationRequest, now: int, username: string, code: string)
    requires ValidDb(d) && code in d.accounts.codes
    ensures
      var before := d.accounts;
      var after := Register(d, req, now, username).db.accounts;
      && after.codes.Keys == before.codes.Keys
      && after.codes[code].maxUses == before.codes[code].maxUses
      && after.codes[code].usesCount - before.codes[code].usesCount
         == SuccessCount(after.log, code) - SuccessCount(before.log, code)
      && (before.codes[code].usesCount <= before.codes[code].maxUses ==>
            after.codes[code].usesCount <= after.codes[code].maxUses)
  {
    var t := Register(d, req, now, username);
    if t.outcome.SignedUp? {
      AdmitAccounting(d.accounts, Cleaned(req.form), AttemptOf(req, now), username, code);
    } else if t.outcome.Refused? {
      SuccessCountAppend(d.accounts.log, LogRow(AttemptOf(req, now), LogFail, Reason(t.outcome.why)), code);
    }
  }

  /** Over any sequence of requests, the uses a code gains equal the success
      rows logged for it, and a code within its limit stays within it. */
  lemma {:induction false} ReplayAccounting(d: Db, steps: seq<Step>, code: string)
    requires ValidDb(d) && code in d.accounts.codes
    ensures
      var before := d.accounts;
      var after := Replay(d, steps).accounts;
      && code in after.codes
      && after.codes[code].maxUses == before.codes[code].maxUses
      && after.codes[code].usesCount - before.codes[code].usesCount
         == SuccessCount(after.log, code) - SuccessCount(before.log, code)
      && (before.codes[code].usesCount <= before.codes[code].maxUses ==>
            after.codes[code].usesCount <= after.codes[code].maxUses)
    decreases |steps|
  {
    if steps != [] {
      var prefix := steps[..|steps| - 1];
      var last := steps[|steps| - 1];
      ReplayAccounting(d, prefix, code);
      RegisterAccounting(Replay(d, prefix), last.request, last.now, last.username, code);
    }
  }

  /** Over any sequence of requests, a code admits no more sign-ups than it
      has uses left. */
  lemma CodeCapacity(d: Db, steps: seq<Step>, code: string)
    requires ValidDb(d) && code in d.accounts.codes
    requires d.accounts.codes[code].usesCount <= d.accounts.codes[code].maxUses
    ensures SuccessCount(Replay(d, steps).accounts.log, code) - SuccessCount(d.accounts.log, code)
      <= d.accounts.codes[code].maxUses - d.accounts.codes[code].usesCount
  {
    ReplayAccounting(d, steps, code);
  }

  /** A code created with the defaults signs up at most one participant. */
  lemma SingleUseCode(d: Db, steps: seq<Step>, code: string, event: Option<EventId>, creator: UserId)
    requires ValidDb(d) && code in d.accounts.codes
    requires d.accounts.codes[code] == NewRegistrationCode(code, event, creator)
    ensures SuccessCount(Replay(d, steps).accounts.log, code) <= SuccessCount(d.accounts.log, code) + 1
  {
    CodeCapacity(d, steps, code);
  }

  /** The code is looked up by the typed text with only the surrounding
      whitespace removed: its letters keep their case, so a code stored in
      another case is not found. */
  lemma CodeLookupExact(acc: AccountsTables, req: RegistrationRequest, a: string, k: string, b: string,
                        now: int, username: string, roll: string)
    requires req.form.registrationCode == a + k + b && AllSpace(a) && AllSpace(b) && Trimmed(k)
    ensures CodeKey(req) == k
    ensures k !in acc.codes ==> Refusal(acc, CodeKey(req), now, username, roll) == Some(CodeDoesNotExist)
  {
    StripKeepsText(a, k, b);
  }

  /** The log is append-only: over any sequence of requests every earlier
      row stays where it was, and each request adds at most one row. */
  lemma {:induction false} LogAppendOnly(d: Db, steps: seq<Step>)
    requires ValidDb(d)
    ensures
      var log := Replay(d, steps).accounts.log;
      && |d.accounts.log| <= |log| <= |d.accounts.log| + |steps|
      && log[..|d.accounts.log|] == d.accounts.log
    decreases |steps|
  {
    if steps != [] {
      var prefix := steps[..|steps| - 1];
      LogAppendOnly(d, prefix);
      var mid := Replay(d, prefix).accounts.log;
      var log := Replay(d, steps).accounts.log;
      assert log[..|mid|] == mid;
      assert log[..|d.accounts.log|] == mid[..|d.accounts.log|];
    }
  }

  /** No two accounts share an email address. */
  predicate EmailsUnique(users: map<UserId, User>)
  {
    forall u, v | u in users && v in users :: users[u].email == users[v].email ==> u == v
  }

  lemma AdmitKeepsEmailsUnique(acc: AccountsTables, c: CleanedData, a: Attempt, username: string)
    requires UsersAllocated(acc.users, acc.nextUser) && ProfilesValid(acc.users, acc.profiles)
    requires RegistrationsValid(acc.users, acc.registrations)
    requires CodeAccepts(acc.codes, a.code, a.now)
    requires EmailsUnique(acc.users) && !EmailTaken(acc.users, c.email)
    ensures EmailsUnique(Admit(acc, c, a, username).users)
  {
  }

  /** Sign-up keeps email addresses unique, because the form refuses one that
      an account already holds. */
  lemma RegisterKeepsEmailsUnique(d: Db, req: RegistrationRequest, now: int, username: string)
    requires ValidDb(d) && EmailsUnique(d.accounts.users)
    ensures EmailsUnique(Register(d, req, now, username).db.accounts.users)
  {
    if Register(d, req, now, username).outcome.SignedUp? {
      AdmitKeepsEmailsUnique(d.accounts, Cleaned(req.form), AttemptOf(req, now), username);
    }
  }

  /** Once an address has signed up, the form refuses it in any letter case. */
  lemma SameAddressRefusedLater(d: Db, req: RegistrationRequest, now: int, username: string, later: RegistrationForm)
    requires ValidDb(d)
    requires Register(d, req, now, username).outcome.SignedUp?
    requires EqualsIgnoreCase(Strip(later.email), Strip(req.form.email))
    ensures !FormIsValid(Register(d, req, now, username).db.accounts.users, later)
  {
    var users := Register(d, req, now, username).db.accounts.users;
    var uid := d.accounts.nextUser;
    assert users[uid].email == ToLower(Strip(later.email));
    assert EmailTaken(users, ToLower(Strip(later.email)));
  }

  /** As written, the user row gets the empty username, which is unique: once
      one participant has signed up, every later attempt whose code checks
      pass fails on that constraint. */
  lemma BlankUsernameRegistersOnce(d: Db, first: RegistrationRequest, now1: int, second: RegistrationRequest, now2: int)
    requires ValidDb(d)
    requires Register(d, first, now1, "").outcome.SignedUp?
    ensures
      var d1 := Register(d, first, now1, "").db;
      && !Register(d1, second, now2, "").outcome.SignedUp?
      && (Attempted(d1.accounts, second) && CodeAccepts(d1.accounts.codes, CodeKey(second), now2) ==>
            Register(d1, second, now2, "").outcome == Refused(IntegrityError(UniqueUsername)))
  {
    var d1 := Register(d, first, now1, "").db;
    var uid := d.accounts.nextUser;
    assert d1.accounts.users[uid].username == "";
    assert UsernameTaken(d1.accounts.users, "");
  }

  /** With the email as username, a second sign-up whose code checks pass and
      whose roll number is free succeeds. */
  lemma EmailUsernameRegistersAgain(d: Db, first: RegistrationRequest, now1: int, second: RegistrationRequest, now2: int)
    requires ValidDb(d) && UsernamesAreEmails(d.accounts.users)
    requires RegisterByEmail(d, first, now1).outcome.SignedUp?
    ensures
      var d1 := RegisterByEmail(d, first, now1).db;
      Attempted(d1.accounts, second) && CodeAccepts(d1.accounts.codes, CodeKey(second), now2)
      && !RollNumberTaken(d1.accounts.profiles, Cleaned(second.form).rollNumber) ==>
        RegisterByEmail(d1, second, now2).outcome.SignedUp?
  {
    var d1 := RegisterByEmail(d, first, now1).db;
    EmailUsernameFree(d1.accounts, second);
  }
}
