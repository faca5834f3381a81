/** The database the views share: every table the core reads or writes, the
    constraints the schema declares, and the ones the views keep between them.
    A view runs as one atomic step on it (row locks serialise concurrent
    requests on the same rows). */
module Store {
  import opened Wrappers
  import opened AccountsModels
  import opened EventsModels
  import opened TeamsModels
  import opened TrackingModels
  import opened SubmissionsModels
  import opened CommunicationsModels

  /** The tables of the accounts app. `nextUser` is the next user id. */
  datatype AccountsTables = AccountsTables(
    users: map<UserId, User>,
    nextUser: nat,
    profiles: map<UserId, UserProfile>,
    codes: map<string, RegistrationCode>,
    registrations: map<(UserId, EventId), RegistrationStatus>,
    log: seq<RegistrationLog>)

  /** The tables of the teams app: teams by id and the membership rows. */
  datatype TeamsTables = TeamsTables(
    rows: map<TeamId, Team>,
    nextId: nat,
    members: set<Membership>)

  /** The submissions by id and the judge assignments. */
  datatype SubmissionsTables = SubmissionsTables(
    rows: map<SubmissionId, Submission>,
    nextId: nat,
    judgings: set<Judging>)

  /** A snapshot of all tables, grouped by app; the event catalogue and the
      staff roles are read-only here. */
  datatype Db = Db(
    events: map<EventId, Event>,
    staff: set<EventStaff>,
    accounts: AccountsTables,
    teams: TeamsTables,
    feedback: set<Feedback>,
    submissions: SubmissionsTables,
    notifications: seq<Notification>)

  /** The state after one view and what the view answered. */
  datatype Transition<O> = Transition(db: Db, outcome: O)

  /** Registration codes are looked up by their unique code string. */
  predicate CodesKeyed(codes: map<string, RegistrationCode>)
  {
    forall c :: c in codes ==> codes[c].code == c
  }

  predicate UsersAllocated(users: map<UserId, User>, nextUser: nat)
  {
    forall u :: u in users ==> u < nextUser
  }

  /** One profile per user, and no roll number on two profiles. */
  predicate ProfilesValid(users: map<UserId, User>, profiles: map<UserId, UserProfile>)
  {
    && (forall u :: u in profiles ==> u in users && profiles[u].user == u)
    && (forall u, v | u in profiles && v in profiles ::
          profiles[u].rollNumber.Some? && profiles[u].rollNumber == profiles[v].rollNumber ==> u == v)
  }

  /** An event registration belongs to an existing user; the key makes
      (participant, event) unique. */
  predicate RegistrationsValid(users: map<UserId, User>, registrations: map<(UserId, EventId), RegistrationStatus>)
  {
    forall k :: k in registrations ==> k.0 in users
  }

  /** No two teams share an invite code. */
  predicate TeamCodesUnique(teams: map<TeamId, Team>)
  {
    forall t, s :: t in teams && s in teams && teams[t].teamCode == teams[s].teamCode ==> t == s
  }

  /** Team names are unique within an event and team codes across all teams. */
  predicate TeamsValid(teams: map<TeamId, Team>, nextTeam: nat)
  {
    && (forall t :: t in teams ==> t < nextTeam)
    && (forall t, s | t in teams && s in teams ::
          teams[t].event == teams[s].event && teams[t].teamName == teams[s].teamName ==> t == s)
    && TeamCodesUnique(teams)
  }

  /** The participants seated in team `t`. */
  function MembersOf(members: set<Membership>, t: TeamId): set<UserId>
  {
    set m | m in members && m.0 == t :: m.1
  }

  /** A participant is in at most one team per event (the views keep this; the
      schema only makes (team, participant) unique). */
  predicate OneTeamPerEvent(teams: map<TeamId, Team>, members: set<Membership>)
  {
    forall m, n | m in members && n in members && m.0 in teams && n.0 in teams ::
      m.1 == n.1 && teams[m.0].event == teams[n.0].event ==> m.0 == n.0
  }

  /** Memberships point at existing teams, a leader sits in the team, and a
      team never has more members than its size, except that its creator is
      seated even when the size is below one. */
  predicate MembersValid(teams: map<TeamId, Team>, members: set<Membership>)
  {
    && (forall m :: m in members ==> m.0 in teams)
    && OneTeamPerEvent(teams, members)
    && (forall t :: t in teams && teams[t].leader.Some? ==> (t, teams[t].leader.value) in members)
    && (forall t :: t in teams ==> |MembersOf(members, t)| <= Max(1, teams[t].maxSize))
  }

  /** At most one feedback per (event, participant). */
  predicate FeedbackValid(feedback: set<Feedback>)
  {
    forall f, g | f in feedback && g in feedback ::
      f.event == g.event && f.participant == g.participant ==> f == g
  }

  /** A submission belongs to an existing team, at most one per team. */
  predicate SubmissionsValid(teams: map<TeamId, Team>, submissions: map<SubmissionId, Submission>, nextSubmission: nat)
  {
    && (forall s :: s in submissions ==> s < nextSubmission && submissions[s].team in teams)
    && (forall s, r | s in submissions && r in submissions ::
          submissions[s].team == submissions[r].team ==> s == r)
  }

  predicate JudgingsValid(submissions: map<SubmissionId, Submission>, judgings: set<Judging>)
  {
    forall j :: j in judgings ==> j.submission in submissions
  }

  predicate AccountsValid(a: AccountsTables)
  {
    && CodesKeyed(a.codes) && UsersAllocated(a.users, a.nextUser)
    && ProfilesValid(a.users, a.profiles) && RegistrationsValid(a.users, a.registrations)
  }

  predicate TeamTablesValid(t: TeamsTables)
  {
    TeamsValid(t.rows, t.nextId) && MembersValid(t.rows, t.members)
  }

  predicate SubmissionTablesValid(teams: map<TeamId, Team>, s: SubmissionsTables)
  {
    SubmissionsValid(teams, s.rows, s.nextId) && JudgingsValid(s.rows, s.judgings)
  }

  /** Every constraint, each stated over the tables it concerns. */
  predicate ValidDb(d: Db)
  {
    && AccountsValid(d.accounts)
    && TeamTablesValid(d.teams)
    && FeedbackValid(d.feedback)
    && SubmissionTablesValid(d.teams.rows, d.submissions)
  }

  /** Whether `user` has an event registration (of either status) for `event`. */
  predicate IsRegistered(d: Db, user: UserId, event: EventId)
  {
    (user, event) in d.accounts.registrations
  }

  /** Whether `user` sits in some team of `event`. */
  predicate InTeamFor(t: TeamsTables, user: UserId, event: EventId)
  {
    exists m :: m in t.members && m.1 == user && m.0 in t.rows && t.rows[m.0].event == event
  }

  /** Seating one more participant grows that team's member set by exactly
      that participant and leaves every other team's members alone. */
  lemma MembersAfterAdd(members: set<Membership>, t: TeamId, u: UserId)
    requires (t, u) !in members
    ensures MembersOf(members + {(t, u)}, t) == MembersOf(members, t) + {u}
    ensures u !in MembersOf(members, t)
    ensures |MembersOf(members + {(t, u)}, t)| == |MembersOf(members, t)| + 1
    ensures forall s :: s != t ==> MembersOf(members + {(t, u)}, s) == MembersOf(members, s)
  {
    assert MembersOf(members + {(t, u)}, t) == MembersOf(members, t) + {u};
  }

  /** Removing a seat never grows a team. */
  lemma MembersAfterRemove(members: set<Membership>, gone: set<Membership>, t: TeamId)
    ensures MembersOf(members - gone, t) <= MembersOf(members, t)
    ensures |MembersOf(members - gone, t)| <= |MembersOf(members, t)|
  {
    var a, b := MembersOf(members - gone, t), MembersOf(members, t);
    assert a <= b;
    assert b == a + (b - a);
    assert |b| == |a| + |b - a|;
  }

  /** A team with no membership rows has no members. */
  lemma MembersOfFresh(members: set<Membership>, t: TeamId)
    requires forall m :: m in members ==> m.0 != t
    ensures MembersOf(members, t) == {}
  {
  }

  /** The whole database, one field per app's tables. */
  class Database {
    var events: map<EventId, Event>
    var staff: set<EventStaff>
    var accounts: AccountsTables
    var teams: TeamsTables
    var feedback: set<Feedback>
    var submissions: SubmissionsTables
    var notifications: seq<Notification>

    function Snapshot(): Db
      reads this
    {
      Db(events, staff, accounts, teams, feedback, submissions, notifications)
    }

    predicate Valid()
      reads this
    {
      ValidDb(Snapshot())
    }

    /** A database holding the tables of `initial`. */
    constructor (initial: Db)
      requires ValidDb(initial)
      ensures Valid() && Snapshot() == initial
    {
      events, staff, accounts, teams := initial.events, initial.staff, initial.accounts, initial.teams;
      feedback, submissions, notifications := initial.feedback, initial.submissions, initial.notifications;
    }
  }
}
