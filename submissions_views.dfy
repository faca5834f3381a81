/** The views of submissions/views.py: a team leader's create-or-edit of the
    team's one submission, the judge check, the judge's dashboard and the
    scoring page that gets or creates the judge's row for a submission. */
module SubmissionsViews {
  import opened Wrappers
  import opened PyStr
  import opened AccountsModels
  import opened EventsModels
  import opened TeamsModels
  import opened SubmissionsModels
  import opened Store

  // ---------------------------------------------------------------------
  // submission_create_edit_view

  /** The team of `event` in which `user` holds a seat, if any; a participant
      sits in at most one team per event, so there is no choice to make. */
  function TeamOfUser(t: TeamsTables, user: UserId, event: EventId): (r: Option<TeamId>)
    requires OneTeamPerEvent(t.rows, t.members)
    ensures r.Some? <==> InTeamFor(t, user, event)
    ensures r.Some? ==> r.value in t.rows && t.rows[r.value].event == event && (r.value, user) in t.members
    ensures r.Some? ==> forall s :: s in t.rows && t.rows[s].event == event && (s, user) in t.members ==> s == r.value
  {
    if InTeamFor(t, user, event) then
      var m :| m in t.members && m.1 == user && m.0 in t.rows && t.rows[m.0].event == event;
      Some(m.0)
    else
      None
  }

  /** The submission of team `team`, if it has one; there is at most one. */
  function SubmissionOf(s: SubmissionsTables, team: TeamId): (r: Option<SubmissionId>)
    requires forall k, j | k in s.rows && j in s.rows :: s.rows[k].team == s.rows[j].team ==> k == j
    ensures r.Some? ==> r.value in s.rows && s.rows[r.value].team == team
    ensures r.None? ==> forall k :: k in s.rows ==> s.rows[k].team != team
  {
    if exists k :: k in s.rows && s.rows[k].team == team then
      var k :| k in s.rows && s.rows[k].team == team;
      Some(k)
    else
      None
  }

  /** The posted `SubmissionForm`, as typed; the image upload is not modelled. */
  datatype SubmissionRequest = SubmissionRequest(
    isPost: bool,
    projectTitle: string,
    projectDescription: string,
    repoLink: string,
    demoLink: string,
    problemStatement: Option<nat>)

  const TitleMaxLength := 255
  const UrlMaxLength := 200

  /** An optional link field: blank becomes None. */
  function OptionalText(raw: string): Option<string>
  {
    if Strip(raw) == "" then None else Some(Strip(raw))
  }

  /** The form validates: a title of 1 to 255 characters and a non-blank
      description, links within the URL length, and a problem statement, if
      chosen, among those of the event. */
  predicate SubmissionFormIsValid(e: Event, req: SubmissionRequest)
  {
    && Strip(req.projectTitle) != "" && |Strip(req.projectTitle)| <= TitleMaxLength
    && Strip(req.projectDescription) != ""
    && |Strip(req.repoLink)| <= UrlMaxLength && |Strip(req.demoLink)| <= UrlMaxLength
    && (req.problemStatement.None? || req.problemStatement.value in e.problemStatements)
  }

  /** The form's cleaned fields. */
  function FieldsOf(req: SubmissionRequest): SubmissionFields
  {
    SubmissionFields(Strip(req.projectTitle), Strip(req.projectDescription),
                     OptionalText(req.repoLink), OptionalText(req.demoLink), req.problemStatement)
  }

  /** The team's submission saved with `fields`: the existing row edited in
      place, or a new row under the next id. */
  function Upsert(s: SubmissionsTables, team: TeamId, fields: SubmissionFields): (r: (SubmissionsTables, SubmissionId))
    requires forall k, j | k in s.rows && j in s.rows :: s.rows[k].team == s.rows[j].team ==> k == j
    requires forall k :: k in s.rows ==> k < s.nextId
  {
    match SubmissionOf(s, team)
    case Some(k) => (s.(rows := s.rows[k := Submission(team, fields)]), k)
    case None => (s.(rows := s.rows[s.nextId := Submission(team, fields)], nextId := s.nextId + 1), s.nextId)
  }

  /** An upsert leaves the team with exactly one submission, the saved one;
      it keeps the id of the team's earlier row, touches no other team's
      row, and keeps every constraint. */
  lemma UpsertSpec(teams: map<TeamId, Team>, s: SubmissionsTables, team: TeamId, fields: SubmissionFields)
    requires SubmissionTablesValid(teams, s) && team in teams
    ensures
      var (after, k) := Upsert(s, team, fields);
      && SubmissionTablesValid(teams, after)
      && k in after.rows && after.rows[k] == Submission(team, fields)
      && (forall j :: j in after.rows && after.rows[j].team == team ==> j == k)
      && (SubmissionOf(s, team).Some? ==> k == SubmissionOf(s, team).value && after.rows.Keys == s.rows.Keys)
      && (SubmissionOf(s, team).None? ==> k !in s.rows && after.rows.Keys == s.rows.Keys + {k})
      && (forall j :: j in s.rows && j != k ==> j in after.rows && after.rows[j] == s.rows[j])
      && after.judgings == s.judgings
  {
  }

  datatype SubmissionOutcome =
    | SubmissionEventNotFound
    | NoTeam
    | NotLeader
    | SubmissionFormShown(existing: Option<SubmissionId>)
    | SubmissionFormInvalid
    | SubmissionSaved(id: SubmissionId)
    | ServerError

  /** `submission_create_edit_view` as it is evidently meant to look up the
      team: the team of this event in which the user holds a seat. */
  function SaveSubmission(d: Db, user: UserId, event: EventId, req: SubmissionRequest): (r: Transition<SubmissionOutcome>)
    requires ValidDb(d)
    ensures ValidDb(r.db)
    ensures r.db == d.(submissions := r.db.submissions)
    ensures !r.outcome.SubmissionSaved? ==> r.db == d
    ensures r.outcome == SubmissionEventNotFound <==> event !in d.events
    // without a seat in a team of the event there is nothing to submit for
    ensures r.outcome == NoTeam <==> event in d.events && !InTeamFor(d.teams, user, event)
    // only the leader of that team gets further
    ensures r.outcome == NotLeader <==>
      event in d.events && InTeamFor(d.teams, user, event)
      && d.teams.rows[TeamOfUser(d.teams, user, event).value].leader != Some(user)
    ensures r.outcome.SubmissionFormShown? || r.outcome == SubmissionFormInvalid || r.outcome.SubmissionSaved? ==>
      event in d.events && InTeamFor(d.teams, user, event)
      && d.teams.rows[TeamOfUser(d.teams, user, event).value].leader == Some(user)
    ensures r.outcome != ServerError
    ensures r.outcome.SubmissionFormShown? ==> !req.isPost
    // the form is shown bound to the team's submission, if it has one
    ensures r.outcome.SubmissionFormShown? ==>
      r.outcome.existing == SubmissionOf(d.submissions, TeamOfUser(d.teams, user, event).value)
    ensures r.outcome == SubmissionFormInvalid ==> req.isPost && !SubmissionFormIsValid(d.events[event], req)
    ensures r.outcome.SubmissionSaved? <==>
      && event in d.events && InTeamFor(d.teams, user, event)
      && d.teams.rows[TeamOfUser(d.teams, user, event).value].leader == Some(user)
      && req.isPost && SubmissionFormIsValid(d.events[event], req)
    // the saved row is the leader's team's only submission, with the form's fields
    ensures r.outcome.SubmissionSaved? ==>
      var team := TeamOfUser(d.teams, user, event).value;
      var k := r.outcome.id;
      && k in r.db.submissions.rows && r.db.submissions.rows[k] == Submission(team, FieldsOf(req))
      && (forall j :: j in r.db.submissions.rows && r.db.submissions.rows[j].team == team ==> j == k)
      && (forall j :: j in d.submissions.rows && d.submissions.rows[j].team == team ==> j == k)
      && (forall j :: j in d.submissions.rows && j != k ==>
            j in r.db.submissions.rows && r.db.submissions.rows[j] == d.submissions.rows[j])
      && r.db.submissions.judgings == d.submissions.judgings
    // a team's first save adds a row under an id no row held before
    ensures r.outcome.SubmissionSaved? && SubmissionOf(d.submissions, TeamOfUser(d.teams, user, event).value).None? ==>
      && r.outcome.id !in d.submissions.rows
      && r.db.submissions.rows.Keys == d.submissions.rows.Keys + {r.outcome.id}
    // a later save keeps the id of the team's row and adds none
    ensures r.outcome.SubmissionSaved? && SubmissionOf(d.submissions, TeamOfUser(d.teams, user, event).value).Some? ==>
      && r.outcome.id == SubmissionOf(d.submissions, TeamOfUser(d.teams, user, event).value).value
      && r.db.submissions.rows.Keys == d.submissions.rows.Keys
  {
    if event !in d.events then Transition(d, SubmissionEventNotFound)
    else
      var found := TeamOfUser(d.teams, user, event);
      if found.None? then Transition(d, NoTeam)
      else
        var team := found.value;
        if d.teams.rows[team].leader != Some(user) then Transition(d, NotLeader)
        else if !req.isPost then Transition(d, SubmissionFormShown(SubmissionOf(d.submissions, team)))
        else if !SubmissionFormIsValid(d.events[event], req) then Transition(d, SubmissionFormInvalid)
        else
          UpsertSpec(d.teams.rows, d.submissions, team, FieldsOf(req));
          var (after, k) := Upsert(d.submissions, team, FieldsOf(req));
          Transition(d.(submissions := after), SubmissionSaved(k))
  }

  method SubmissionCreateEdit(db: Database, user: UserId, event: EventId, req: SubmissionRequest)
    returns (outcome: SubmissionOutcome)
    requires db.Valid()
    modifies db
    ensures Transition(db.Snapshot(), outcome) == SaveSubmission(old(db.Snapshot()), user, event, req)
    ensures db.Valid()
  {
    if event !in db.events {
      return SubmissionEventNotFound;
    }
    var found := TeamOfUser(db.teams, user, event);
    if found.None? {
      return NoTeam;
    }
    var team := found.value;
    if db.teams.rows[team].leader != Some(user) {
      return NotLeader;
    }
    if !req.isPost {
      return SubmissionFormShown(SubmissionOf(db.submissions, team));
    }
    if !SubmissionFormIsValid(db.events[event], req) {
      return SubmissionFormInvalid;
    }
    var (after, k) := Upsert(db.submissions, team, FieldsOf(req));
    db.submissions := after;
    outcome := SubmissionSaved(k);
  }

  /** The view as written: it filters teams on their reverse `members`
      relation, whose rows are `TeamMember`s, with a `User`. The ORM refuses a
      value of the wrong model with an error the view does not catch, so
      every request for an existing event fails and changes nothing. */
  function SaveSubmissionAsWritten(d: Db, user: UserId, event: EventId, req: SubmissionRequest): (r: Transition<SubmissionOutcome>)
    ensures r.db == d
    ensures !r.outcome.SubmissionSaved?
    ensures r.outcome == SubmissionEventNotFound <==> event !in d.events
  {
    if event !in d.events then Transition(d, SubmissionEventNotFound)
    else Transition(d, ServerError)
  }

  /** As written, even the leader of a team of the event, posting a valid
      form, saves nothing; the evidently intended lookup saves it. */
  lemma LeaderCannotSubmitAsWritten(d: Db, user: UserId, event: EventId, req: SubmissionRequest)
    requires ValidDb(d) && event in d.events && InTeamFor(d.teams, user, event)
    requires d.teams.rows[TeamOfUser(d.teams, user, event).value].leader == Some(user)
    requires req.isPost && SubmissionFormIsValid(d.events[event], req)
    ensures SaveSubmissionAsWritten(d, user, event, req) == Transition(d, ServerError)
    ensures SaveSubmission(d, user, event, req).outcome.SubmissionSaved?
  {
  }

  /** Saving twice keeps one submission for the team: the second save edits
      the row the first one made. */
  lemma SaveTwiceEditsInPlace(d: Db, user: UserId, event: EventId, req: SubmissionRequest, req2: SubmissionRequest)
    requires ValidDb(d) && SaveSubmission(d, user, event, req).outcome.SubmissionSaved?
    requires req2.isPost && SubmissionFormIsValid(d.events[event], req2)
    ensures
      var first := SaveSubmission(d, user, event, req);
      var second := SaveSubmission(first.db, user, event, req2);
      && second.outcome == first.outcome
      && second.db.submissions.rows.Keys == first.db.submissions.rows.Keys
      && second.db.submissions.rows[first.outcome.id].fields == FieldsOf(req2)
  {
    var first := SaveSubmission(d, user, event, req);
    var team := TeamOfUser(d.teams, user, event).value;
    assert first.db.teams == d.teams;
    assert SubmissionOf(first.db.submissions, team) == Some(first.outcome.id);
  }

  // ---------------------------------------------------------------------
  // is_judge_for_event, judging_dashboard_view, submission_score_view

  const JudgeRole := "judge"

  /** `is_judge_for_event`: a staff user with a role at the event that reads
      "judge" in any letter case. */
  predicate IsJudgeFor(d: Db, user: UserId, event: EventId)
  {
    && user in d.accounts.users && d.accounts.users[user].isStaff
    && exists s :: s in d.staff && s.user == user && s.event == event && EqualsIgnoreCase(s.role, JudgeRole)
  }

  /** A role that reads "judge" in some letter case: five letters, each the
      small or the capital form of the letter of "judge" at its place. */
  predicate SpellsJudge(role: string)
  {
    |role| == |JudgeRole|
    && forall i :: 0 <= i < |role| ==> role[i] == JudgeRole[i] || role[i] == UpperChar(JudgeRole[i])
  }

  /** The case-insensitive comparison accepts exactly the spellings of
      "judge": "Judge", "JUDGE" or "jUdGe", but not "judges", "Judge panel"
      or " judge". */
  lemma {:induction false} JudgeSpelling(role: string)
    ensures EqualsIgnoreCase(role, JudgeRole) <==> SpellsJudge(role)
  {
    var low := ToLower(JudgeRole);
    assert low == JudgeRole by {
      forall i | 0 <= i < |JudgeRole|
        ensures low[i] == JudgeRole[i]
      {
        assert IsLower(JudgeRole[i]);
      }
    }
    if |role| == |JudgeRole| {
      var r := ToLower(role);
      forall i | 0 <= i < |role|
        ensures r[i] == JudgeRole[i] <==> role[i] == JudgeRole[i] || role[i] == UpperChar(JudgeRole[i])
      {
        assert IsLower(JudgeRole[i]);
      }
      if SpellsJudge(role) {
        assert r == JudgeRole;
      }
    }
  }

  /** `is_judge_for_event` over every role: a user is a judge of the event
      if and only if they are staff and one of their roles at that event
      spells "judge" in some letter case; a user who is not staff never is. */
  lemma JudgeCheck(d: Db, user: UserId, event: EventId)
    ensures IsJudgeFor(d, user, event) <==>
      && user in d.accounts.users && d.accounts.users[user].isStaff
      && exists s :: s in d.staff && s.user == user && s.event == event && SpellsJudge(s.role)
    ensures user in d.accounts.users && !d.accounts.users[user].isStaff ==> !IsJudgeFor(d, user, event)
  {
    forall s | s in d.staff
      ensures EqualsIgnoreCase(s.role, JudgeRole) <==> SpellsJudge(s.role)
    {
      JudgeSpelling(s.role);
    }
  }

  /** The submissions of `event`'s teams. */
  function EventSubmissions(d: Db, event: EventId): set<SubmissionId>
  {
    set k | k in d.submissions.rows && d.submissions.rows[k].team in d.teams.rows
            && d.teams.rows[d.submissions.rows[k].team].event == event
  }

  /** The ids of the submissions of `event` that `judge` has a row for. */
  function ScoredBy(d: Db, judge: UserId, event: EventId): set<SubmissionId>
  {
    set j | j in d.submissions.judgings && j.judge == judge && j.submission in EventSubmissions(d, event) :: j.submission
  }

  datatype DashboardOutcome =
    | DashboardEventNotFound
    | NotAJudge
    | Dashboard(submissions: set<SubmissionId>, scored: set<SubmissionId>)

  /** `judging_dashboard_view`: only reads. */
  function JudgingDashboard(d: Db, user: UserId, event: EventId): (r: DashboardOutcome)
    ensures r == DashboardEventNotFound <==> event !in d.events
    ensures r == NotAJudge <==> event in d.events && !IsJudgeFor(d, user, event)
    ensures r.Dashboard? ==>
      && r.submissions == EventSubmissions(d, event)
      && r.scored <= r.submissions
      && (forall k :: k in r.scored <==> k in r.submissions && Judging(user, k) in d.submissions.judgings)
  {
    if event !in d.events then DashboardEventNotFound
    else if !IsJudgeFor(d, user, event) then NotAJudge
    else
      var r := Dashboard(EventSubmissions(d, event), ScoredBy(d, user, event));
      assert forall k :: k in r.submissions && Judging(user, k) in d.submissions.judgings ==> k in r.scored by {
        forall k | k in r.submissions && Judging(user, k) in d.submissions.judgings
          ensures k in r.scored
        {
          var j := Judging(user, k);
          assert j.submission == k;
        }
      }
      r
  }

  /** The posted `JudgingForm`; whether its score parses and lies in 0..100
      is the one thing the model takes from it. */
  datatype ScoreRequest = ScoreRequest(isPost: bool, scoreValid: bool)

  datatype ScoreOutcome =
    | SubmissionNotFound
    | NotJudgeOfEvent
    | ScoreFormShown(created: bool)
    | ScoreSaved(created: bool)
    | ScoringFailed

  /** The event of a submission, through its team. */
  function EventOf(d: Db, k: SubmissionId): EventId
    requires ValidDb(d) && k in d.submissions.rows
  {
    d.teams.rows[d.submissions.rows[k].team].event
  }

  /** `submission_score_view` as it is evidently meant to get or create the
      judge's row for the submission (the score itself is not modelled). */
  function Score(d: Db, user: UserId, k: SubmissionId, req: ScoreRequest): (r: Transition<ScoreOutcome>)
    requires ValidDb(d)
    ensures ValidDb(r.db)
    ensures r.db == d.(submissions := d.submissions.(judgings := r.db.submissions.judgings))
    ensures r.outcome == SubmissionNotFound <==> k !in d.submissions.rows
    // a user who does not judge the submission's event changes nothing
    ensures r.outcome == NotJudgeOfEvent <==> k in d.submissions.rows && !IsJudgeFor(d, user, EventOf(d, k))
    ensures r.outcome == SubmissionNotFound || r.outcome == NotJudgeOfEvent ==> r.db == d
    // a judge leaves with exactly one row for (judge, submission), created
    // only if it was missing
    ensures r.outcome.ScoreFormShown? || r.outcome.ScoreSaved? ==>
      && k in d.submissions.rows && IsJudgeFor(d, user, EventOf(d, k))
      && r.db.submissions.judgings == d.submissions.judgings + {Judging(user, k)}
      && (r.outcome.created <==> Judging(user, k) !in d.submissions.judgings)
    ensures r.outcome.ScoreSaved? <==>
      k in d.submissions.rows && IsJudgeFor(d, user, EventOf(d, k)) && req.isPost && req.scoreValid
    ensures r.outcome != ScoringFailed
  {
    if k !in d.submissions.rows then Transition(d, SubmissionNotFound)
    else if !IsJudgeFor(d, user, EventOf(d, k)) then Transition(d, NotJudgeOfEvent)
    else
      var row := Judging(user, k);
      var created := row !in d.submissions.judgings;
      var d1 := d.(submissions := d.submissions.(judgings := d.submissions.judgings + {row}));
      if req.isPost && req.scoreValid then Transition(d1, ScoreSaved(created))
      else Transition(d1, ScoreFormShown(created))
  }

  method SubmissionScore(db: Database, user: UserId, k: SubmissionId, req: ScoreRequest) returns (outcome: ScoreOutcome)
    requires db.Valid()
    modifies db
    ensures Transition(db.Snapshot(), outcome) == Score(old(db.Snapshot()), user, k, req)
    ensures db.Valid()
  {
    if k !in db.submissions.rows {
      return SubmissionNotFound;
    }
    if !IsJudgeFor(db.Snapshot(), user, EventOf(db.Snapshot(), k)) {
      return NotJudgeOfEvent;
    }
    var row := Judging(user, k);
    var created := row !in db.submissions.judgings;
    db.submissions := db.submissions.(judgings := db.submissions.judgings + {row});
    if req.isPost && req.scoreValid {
      return ScoreSaved(created);
    }
    outcome := ScoreFormShown(created);
  }

  /** A second visit by the same judge creates nothing: the row the first
      visit left is found again. */
  lemma ScoreIdempotent(d: Db, user: UserId, k: SubmissionId, req: ScoreRequest, req2: ScoreRequest)
    requires ValidDb(d)
    ensures
      var first := Score(d, user, k, req);
      var second := Score(first.db, user, k, req2);
      && second.db == first.db
      && (second.outcome.ScoreFormShown? || second.outcome.ScoreSaved? ==> !second.outcome.created)
  {
    var first := Score(d, user, k, req);
    if k in d.submissions.rows {
      assert first.db.teams == d.teams && first.db.accounts == d.accounts && first.db.staff == d.staff;
      assert first.db.submissions.rows == d.submissions.rows;
      assert EventOf(first.db, k) == EventOf(d, k);
      if IsJudgeFor(d, user, EventOf(d, k)) {
        assert Judging(user, k) in first.db.submissions.judgings;
      }
    }
  }

  /** The view as written: `get_or_create` inserts the row without a score,
      which the score column (a float that may not be null) refuses, so a
      judge's first visit to a submission fails and changes nothing; only a
      row that already exists is ever shown. */
  function ScoreAsWritten(d: Db, user: UserId, k: SubmissionId, req: ScoreRequest): (r: Transition<ScoreOutcome>)
    requires ValidDb(d)
    ensures r.db == d
    ensures r.outcome == ScoringFailed <==>
      k in d.submissions.rows && IsJudgeFor(d, user, EventOf(d, k)) && Judging(user, k) !in d.submissions.judgings
  {
    if k !in d.submissions.rows then Transition(d, SubmissionNotFound)
    else if !IsJudgeFor(d, user, EventOf(d, k)) then Transition(d, NotJudgeOfEvent)
    else if Judging(user, k) !in d.submissions.judgings then Transition(d, ScoringFailed)
    else if req.isPost && req.scoreValid then Transition(d, ScoreSaved(false))
    else Transition(d, ScoreFormShown(false))
  }

  /** As written, a judge without a row for a submission can never open its
      scoring page, however often they try; with the row created, the first
      visit opens it. */
  lemma JudgeLockedOutAsWritten(d: Db, user: UserId, k: SubmissionId, req: ScoreRequest, req2: ScoreRequest)
    requires ValidDb(d) && k in d.submissions.rows && IsJudgeFor(d, user, EventOf(d, k))
    requires Judging(user, k) !in d.submissions.judgings
    ensures ScoreAsWritten(d, user, k, req).outcome == ScoringFailed
    ensures ScoreAsWritten(ScoreAsWritten(d, user, k, req).db, user, k, req2).outcome == ScoringFailed
    ensures Score(d, user, k, req).outcome != ScoringFailed && Score(d, user, k, req).outcome.created
  {
  }
}
