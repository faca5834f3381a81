# CampusInnovate: code-gated sign-up, team seats and the small gated actions

This project models, in Dafny, the rules that change state in CampusInnovate's
Django views. The system is a campus event-registration platform. Participants
sign up with a registration code that has a bounded number of uses. They form
teams with a bounded number of seats, and give feedback once per event. Team
leaders submit one project per team, judges open one scoring row per
submission, and users read their notifications.

The whole database is one value, `Store.Db`, grouped by app. Alongside it,
`Store.Database` is a class with one field per app's tables. Each view is
modelled twice:

- as a function `View(d, …): Transition<Outcome>`, which returns the new
  database and the answer (a closed outcome type in place of messages,
  redirects and exceptions), with every per-call property in its `ensures`;
- as a method on a `Database` whose `ensures` equate the new snapshot and
  the answer with that function, and state that the constraints still hold.

A transaction is therefore all-or-nothing: a refusal leaves every table as
in `old()`, except the one log row the registration view writes for it.
The model runs requests one at a time. The row locks the views take
(`select_for_update`) make that exact for requests on the same code or the
same team, but not for every invariant; "## Left out" says which ones hold
only for requests run one at a time.
Time is an integer parameter. The random uuid behind a team code is an input.

`Store.ValidDb` gathers two kinds of constraint:

- the schema's own: unique code strings, one registration per (participant,
  event), unique team codes, unique team names per event, unique (team,
  participant), one submission per team, unique (judge, submission) and
  unique (event, participant) feedback;
- the ones only the views keep: one team per event per participant, the
  leader sits in the team, and a team holds at most max(1, `max_size`)
  members: the creator is seated even when the size is 0, which the form
  accepts.

Every view is proved to keep `ValidDb`.

The team views and the feedback view import `EventRegistration` from
`events.models`, which does not define it. The model reads the one relation
that does exist, at accounts/models.py:61-75. It counts a registration of
either status, as the views' filters do.

## Model

| member | source | states |
|---|---|---|
| `PyStr.StripKeepsText` | accounts/views.py:15-16 | `strip()` removes exactly the surrounding whitespace and keeps the text between, letter case included |
| `PyStr.StripIdempotent` | accounts/views.py:16 | stripping an already stripped code changes nothing |
| `PyStr.ToLower` | accounts/forms.py:26 | lower-casing keeps the length, maps each character and leaves no capital |
| `PyStr.ToUpper` | teams/views.py:83 | upper-casing keeps the length, maps each character and leaves no small letter |
| `TeamsModels.GenerateUniqueCode` | teams/models.py:6-8 | a team code is 6 characters, all in 0-9A-F, and spells the uuid's first six hex digits |
| `AccountsForms.CleanEmailVerdict` | accounts/forms.py:25-34 | `clean_email` accepts exactly the addresses no user holds in lower case, gives the same verdict for any letter case and returns the lower-cased address |
| `AccountsForms.PasswordConfirmVerdict` | accounts/forms.py:36-41 | the confirmation fails if and only if both entries are non-empty and differ, and otherwise returns the confirmation |
| `AccountsForms.ValidFormFacts` | accounts/forms.py:7-19 | a valid form has equal passwords, a year of study in 1..5, a code of 1 to 50 characters and an email no account holds |
| `AccountsViews.Refusal` | accounts/views.py:23-31 | the first failing check, in the view's order: unknown code, inactive, expired (expiry set and strictly before now), `uses_count >= max_uses`, then the unique username and roll number; each case is an if-and-only-if |
| `AccountsViews.Admit` | accounts/views.py:34-63 | a sign-up adds an inactive non-staff user and its profile under a fresh id, adds 1 to the code's `uses_count`, adds a 'registered' event registration if and only if the code has an event, and appends one success row; nothing else changes |
| `AccountsViews.Register` | accounts/views.py:9-93 | GET and an invalid form change nothing; a valid form gives a sign-up if and only if no check fails; a refusal rolls every table back and appends exactly one fail row with that check's reason; a success is `Admit`; constraints are kept |
| `AccountsViews.RegisterByEmail` | accounts/views.py:34-37 | with the email as username, the username constraint never refuses a sign-up when every username is an email, and stays so |
| `AccountsViews.RegisterParticipant` | accounts/views.py:9-93 | the view on the database: its new state and answer are those of `RegisterByEmail`, and the constraints still hold |
| `AccountsViews.CodeLookupExact` | accounts/views.py:16-23 | the code is looked up as typed minus surrounding whitespace, case intact; a text not stored as a code is refused as "Code does not exist" |
| `AccountsViews.AdmitAccounting` | accounts/views.py:48-63 | a sign-up adds exactly one use to its code and one success row naming it; other codes keep their uses and success counts |
| `AccountsViews.RegisterAccounting` | accounts/views.py:21-88 | for every code, the uses one request adds equal the success rows it logs, and a code within its limit stays within it |
| `AccountsViews.ReplayAccounting` | accounts/views.py:21-88 | over any sequence of requests, a code's added uses equal its added success rows, and `uses_count <= max_uses` is kept |
| `AccountsViews.CodeCapacity` | accounts/views.py:30-49 | over any sequence of requests, a code admits at most `max_uses - uses_count` sign-ups |
| `AccountsViews.SingleUseCode` | accounts/models.py:47-51 | a code created with the defaults (one use, none spent, active, no expiry) admits at most one sign-up ever |
| `AccountsViews.LogAppendOnly` | accounts/views.py:60-88 | over any sequence of requests the log keeps every earlier row in place and grows by at most one row per request |
| `AccountsViews.RegisterKeepsEmailsUnique` | accounts/forms.py:25-28 | because the form refuses a known email, sign-up never gives two accounts the same email |
| `AccountsViews.SameAddressRefusedLater` | accounts/forms.py:26-28 | after a sign-up, the same address in any letter case fails the form |
| `AccountsViews.BlankUsernameRegistersOnce` | accounts/views.py:34-37 | as written (username ""), after one sign-up every later attempt fails, and one whose code checks pass is refused on the username constraint |
| `AccountsViews.EmailUsernameRegistersAgain` | accounts/views.py:34-37 | with the email as username, a second sign-up whose code checks pass and whose roll number is free succeeds |
| `TeamsViews.CheckEntry` | teams/views.py:12-23 | the create and join views check, in order, that the event exists, the user is registered for it, and the user sits in no team of it; each case is an if-and-only-if |
| `TeamsViews.EstablishKeepsValid` | teams/views.py:29-35 | a new team and its creator's seat keep every constraint, and the creator is the team's only member |
| `TeamsViews.SeatKeepsValid` | teams/views.py:88-92 | seating a user in a team below its size adds exactly one member, and the count stays within `max_size` |
| `TeamsViews.UnseatKeepsValid` | teams/views.py:121-122 | removing a non-leader's seat keeps every constraint |
| `TeamsViews.DisbandKeepsValid` | teams/models.py:28 | deleting a team together with its memberships keeps every constraint |
| `TeamsViews.DropSubmissionsKeepsValid` | submissions/models.py:11 | deleting a team's submission and that submission's judgings along with the team keeps every constraint |
| `TeamsViews.Create` | teams/views.py:9-48 | refusals and the form's verdict are exact if-and-only-ifs; a clash on (event, name) or on the code creates neither row; a success adds a team of this event led by the creator, whose only member is the creator |
| `TeamsViews.CreateTeam` | teams/views.py:9-48 | the view on the database: the new state and answer are those of `Create` |
| `TeamsViews.FindTeam` | teams/views.py:86 | the lookup finds the team with this code in this event, and the only team with that code anywhere; a miss means no team of this event has the code |
| `TeamsViews.Join` | teams/views.py:66-104 | the upper-cased code is looked up in this event only; a miss or a full team (`count >= max_size`) changes nothing; a join adds exactly the user's seat and the count stays within `max_size` |
| `TeamsViews.JoinTeam` | teams/views.py:66-104 | the view on the database: the new state and answer are those of `Join` |
| `TeamsViews.Leave` | teams/views.py:106-126 | no team or no membership or GET changes nothing; a leader with other members cannot leave; a sole-member leader deletes the team, its seat, its submission and exactly that submission's judgings; every other submission and judging is kept, none is added, and both id counters are unchanged; anyone else loses only their own seat |
| `TeamsViews.LeaveTeam` | teams/views.py:106-126 | the view on the database: the new state and answer are those of `Leave` |
| `TeamsViews.JoinThenLeave` | teams/views.py:88-124 | joining and then leaving restores the database exactly |
| `TeamsViews.CreateThenLeave` | teams/views.py:113-120 | a creator who leaves at once disbands the team, and teams, seats and submissions are as before |
| `TeamsViews.OneTeamPerEventGuard` | teams/views.py:20-23 | a user seated in a team of the event can neither create nor join a team there, and nothing changes |
| `TeamsViews.InviteCodeIgnoresCase` | teams/views.py:83-86 | a team code typed in lower case, as the uuid spells it, finds its team |
| `TrackingViews.Eligibility` | tracking/views.py:14-30 | the checks in order: event exists, user registered, event not still running (`event_end > now`), no feedback yet; each case is an if-and-only-if |
| `TrackingViews.SubmitFeedback` | tracking/views.py:9-48 | a failed check, GET or an invalid form creates nothing; otherwise exactly one row is added, and every new row carries the requesting user and the requested event |
| `TrackingViews.SubmitFeedbackView` | tracking/views.py:9-48 | the view on the database: the new state and answer are those of `SubmitFeedback` |
| `TrackingViews.FeedbackOpensAtEnd` | tracking/views.py:22-24 | feedback is allowed when `event_end == now` and refused one instant earlier |
| `TrackingViews.FeedbackOnlyOnce` | tracking/views.py:27-30 | after one saved feedback, every later request by the same user for the event is refused and changes nothing |
| `SubmissionsViews.TeamOfUser` | submissions/views.py:19-23 | the team lookup finds the one team of the event in which the user holds a seat, if and only if there is one |
| `SubmissionsViews.SubmissionOf` | submissions/views.py:31 | the team's existing submission, or none when no row belongs to the team |
| `SubmissionsViews.UpsertSpec` | submissions/views.py:35-39 | saving edits the team's existing row in place or else adds one, leaves the team with exactly one submission, and changes no other row |
| `SubmissionsViews.SaveSubmission` | submissions/views.py:11-51 | no seat gives NoTeam and a non-leader gives NotLeader, both unchanged; a leader's GET shows the form bound to the team's submission, if any, and no request ends in a server error; a valid POST by the leader saves the form's fields as the team's only submission, forced to the user's team; a team's first save adds one row under an id no row held, a later save edits the team's row under its id; no other row and no judging changes |
| `SubmissionsViews.SubmissionCreateEdit` | submissions/views.py:11-51 | the view on the database: the new state and answer are those of `SaveSubmission` |
| `SubmissionsViews.SaveSubmissionAsWritten` | submissions/views.py:18-23 | as written, no request ever saves a submission or changes anything; only a missing event is answered as such |
| `SubmissionsViews.LeaderCannotSubmitAsWritten` | submissions/views.py:20 | a leader posting a valid form saves nothing as written, but saves with the intended lookup |
| `SubmissionsViews.SaveTwiceEditsInPlace` | submissions/views.py:31-39 | a second save by the leader edits the row the first created and adds no row |
| `SubmissionsViews.JudgeCheck` | submissions/views.py:55-57 | for every user and event: a judge is exactly a staff user with a role at that event that spells "judge" letter by letter in small or capital letters; a non-staff user never is |
| `SubmissionsViews.JudgeSpelling` | submissions/views.py:57 | the case-insensitive comparison with "judge" accepts a role if and only if it has five letters, each the small or capital letter of "judge" at its place, so "judges" or "Judge panel" are refused |
| `SubmissionsViews.JudgingDashboard` | submissions/views.py:59-75 | non-judges are refused; a judge sees the event's submissions, and the scored list holds exactly those with a row of this judge |
| `SubmissionsViews.Score` | submissions/views.py:77-101 | unknown submission or non-judge changes nothing; a judge ends with exactly one row for (judge, submission), created only if missing |
| `SubmissionsViews.SubmissionScore` | submissions/views.py:77-101 | the view on the database: the new state and answer are those of `Score` |
| `SubmissionsViews.ScoreIdempotent` | submissions/views.py:86 | a second visit creates no row and changes nothing |
| `SubmissionsViews.ScoreAsWritten` | submissions/views.py:86 | as written, a judge with no row gets a failure and nothing changes |
| `SubmissionsViews.JudgeLockedOutAsWritten` | submissions/models.py:45 | as written, a judge without a row fails on every visit; with the row created, the first visit opens the page |
| `CommunicationsViews.InboxOf` | communications/views.py:15-17 | the listing holds only the user's rows, all of them, and no row more often than the table |
| `CommunicationsViews.InboxCounts` | communications/views.py:15-17 | the filter keeps each of the user's rows exactly as often as the table holds it, and no row of another user |
| `CommunicationsViews.NewestFirstSpec` | communications/models.py:17 | the ordering sorts rows newest first and is a permutation of its input |
| `CommunicationsViews.ListingRows` | communications/views.py:15-17 | the sorted listing holds exactly the user's notifications, newest first |
| `CommunicationsViews.PageCount` | communications/views.py:13 | the page count is the ceiling of rows / 15, and exactly 1 when there are no rows |
| `CommunicationsViews.PageRows` | communications/views.py:13 | the first page always exists; a page holds at most 15 of the user's rows, newest first |
| `CommunicationsViews.PagesCoverInbox` | communications/views.py:13 | every notification of the user is on some page |
| `CommunicationsViews.MarkAllRead` | communications/views.py:22 | every row of the user becomes read with its other fields kept; other users' rows are unchanged |
| `CommunicationsViews.MarkAllReadSpec` | communications/context_processors.py:3-7 | after the update the user's unread count is 0, other users' counts are unchanged, and a second update changes nothing |
| `CommunicationsViews.ListedRowsRead` | communications/views.py:19-23 | every row the visit lists is read |
| `CommunicationsViews.ViewNotifications` | communications/views.py:19-23 | the visit marks the user's rows read, changes no other table, and shows the page of the updated listing |

## Left out

- Rendering, templates, `messages` and redirects are outcome tags. `get_object_or_404` is a not-found outcome.
- Django's ORM and transactions are not modelled. Each view is one atomic step that keeps all or none of its writes. Interleavings under the `select_for_update` locks are not modelled, because the lock is what makes requests on one code or team sequential.
- `timezone.now()` is an integer parameter, and so is the `uuid4` hex behind a team code.
- Password hashing and the activation email are left out. The model stores the cleaned password as the form saves it.
- Email syntax, URL syntax and URL scheme normalisation in form fields are left out. Only presence and length are checked.
- The image upload of a submission and the HTML-only bounds on `max_size` are left out.
- The model default `max_size=5` (teams/models.py:15) is not modelled. The create form's `max_size` field is required, so every created team takes the posted size and the default is never used.
- A team created with `max_size` 0 still seats its creator (teams/views.py:29-35 checks no size), so its one member exceeds its size. Only joins are bounded by `max_size`; the bound the model keeps for every team is max(1, `max_size`).
- `SubmissionsViews.Score`: the judging score and feedback are floats and are not modelled. `ScoreRequest.scoreValid` stands for "the score parses and lies in 0..100".
- `AccountsViews.Register`: among unexpected failures, only the two unique-constraint violations a fresh user can hit are modelled. Other datastore faults are out of scope.
- Deleting a user is not an operation here. `Team.leader` is an `Option`, so the `SET_NULL` it causes can be represented.
- Creating, editing and deactivating registration codes, events and staff roles happen in the admin site. There is no view for them, and only the registration view changes `uses_count`.
- `TeamsViews.Create`: the "already in a team" redirect target (teams/views.py:22) is not modelled. The one-team-per-event invariant makes that lookup unique.
- `CommunicationsViews.Page`: the `last` page keyword and non-numeric page numbers are not modelled. Rows with the same `created_at` keep table order, which the database leaves unspecified.
- `TrackingViews.SubmitFeedback`: blank comments are stored as stripped text, not NULL.
- The judging app duplicates the submissions views and is not mounted. Its `is_judge_for_event` (judging/views.py:13) omits the staff check. It is not part of this model.
- teams/views.py:50-64 (`team_detail_view`) only reads and is not part of this model.
- The code has no per-user "already used" check on codes and never gives a code's use back. It has no lock-timeout outcome. It commits the success row inside the sign-up transaction, while the fail row is written after the rollback. Team seats are given back only through the leave view. The model follows the code.
- Concurrent requests: two invariants cross rows that no lock covers, so they hold only for requests run one at a time.
  - One team per event: teams/views.py:20 and teams/views.py:75 check for an existing team outside any lock. The create view takes no lock, and the join view locks only the team it joins. Two concurrent create or join requests by one user for two teams of one event can both succeed. `TeamsViews.OneTeamPerEventGuard` and the one-team-per-event part of `Store.ValidDb` hold only for sequential requests.
  - Unique emails: `clean_email` (accounts/forms.py:25-28) runs before the transaction. Two concurrent sign-ups with one email on two different codes can both pass. `AccountsViews.RegisterKeepsEmailsUnique` holds only for sequential requests.
- PyStr.ToLower: only ASCII A-Z are lowered; every other character passes through unchanged. Python's `str.lower()` maps every cased Unicode letter and can change the length, which matters for internationalised email domains.
- PyStr.ToUpper: only ASCII a-z are raised; every other character passes through unchanged. Python's `str.upper()` is Unicode-wide and can change the length (a sharp s becomes "SS").
- `AccountsViews.Reason`: the integrity-error reason texts are SQLite's constraint-failure messages. The text the log receives depends on the database backend.

## Findings

| source | as written | input that shows it | evidently intended | confidence | as-written member | corrected member |
|---|---|---|---|---|---|---|
| accounts/views.py:34-37 | the form's fields exclude `username`, so every new user is saved with username "", which is unique | two sign-ups with different emails and valid codes: the second fails on the username constraint and only a fail row is logged | each user saved with a username of its own (the email serves) | not executed; medium | `AccountsViews.BlankUsernameRegistersOnce` (on `AccountsViews.Register` with username "") | `AccountsViews.EmailUsernameRegistersAgain` (on `AccountsViews.RegisterByEmail`) |
| submissions/views.py:20 | `Team.objects.get(event=event, members=request.user)` filters the reverse `TeamMember` relation with a `User`, which the ORM rejects with an uncaught `ValueError` | a team leader of the event posting a valid submission form: a server error, nothing saved | the team of the event in which the user holds a `TeamMember` row | not executed; high | `SubmissionsViews.LeaderCannotSubmitAsWritten` (on `SubmissionsViews.SaveSubmissionAsWritten`) | `SubmissionsViews.SaveSubmission` (with `SubmissionsViews.SaveTwiceEditsInPlace`) |
| submissions/views.py:86 | `get_or_create(judge=…, submission=…)` inserts a `Judging` row without `score`, a non-null float column, so the insert fails | a judge of the event opening a submission they have not scored: integrity error, no row | the judge's row created (or found) so the form can edit it | not executed; medium | `SubmissionsViews.JudgeLockedOutAsWritten` (on `SubmissionsViews.ScoreAsWritten`) | `SubmissionsViews.Score` (with `SubmissionsViews.ScoreIdempotent`) |
