/** `submit_feedback_view` of tracking/views.py: three eligibility checks on
    the requesting participant, in a fixed order, and then one insert of a
    feedback row that the view itself ties to that participant and event. */
module TrackingViews {
  import opened Wrappers
  import opened PyStr
  import opened AccountsModels
  import opened EventsModels
  import opened TrackingModels
  import opened Store

  /** Why the view sends a participant back to the dashboard. */
  datatype FeedbackBarrier = EventMissing | NotRegistered | EventNotOver | AlreadyGiven

  /** Whether `user` has already given feedback on `event`. */
  predicate HasFeedback(feedback: set<Feedback>, user: UserId, event: EventId)
  {
    exists f :: f in feedback && f.participant == user && f.event == event
  }

  /** An event whose end lies strictly after `now` is still running. */
  predicate Running(e: Event, now: int)
  {
    e.eventEnd > now
  }

  /** The checks in the order the view makes them: the event exists, the user
      holds a registration for it, it has ended, and no feedback was given. */
  function Eligibility(d: Db, user: UserId, event: EventId, now: int): (r: Option<FeedbackBarrier>)
    ensures r == Some(EventMissing) <==> event !in d.events
    ensures r == Some(NotRegistered) <==> event in d.events && !IsRegistered(d, user, event)
    ensures r == Some(EventNotOver) <==>
      event in d.events && IsRegistered(d, user, event) && Running(d.events[event], now)
    ensures r == Some(AlreadyGiven) <==>
      event in d.events && IsRegistered(d, user, event) && !Running(d.events[event], now)
      && HasFeedback(d.feedback, user, event)
    ensures r == None <==>
      event in d.events && IsRegistered(d, user, event) && !Running(d.events[event], now)
      && !HasFeedback(d.feedback, user, event)
  {
    if event !in d.events then Some(EventMissing)
    else if !IsRegistered(d, user, event) then Some(NotRegistered)
    else if Running(d.events[event], now) then Some(EventNotOver)
    else if HasFeedback(d.feedback, user, event) then Some(AlreadyGiven)
    else None
  }

  /** The posted `FeedbackForm`: the rating the field parses (None when blank
      or not a number) and the comments text. */
  datatype FeedbackRequest = FeedbackRequest(isPost: bool, rating: Option<int>, comments: string)

  /** The rating field of a positive-integer column accepts any integer from
      0 up (the radio choices 1 to 5 are only the widget's); comments are
      optional. */
  predicate FeedbackFormIsValid(req: FeedbackRequest)
  {
    req.rating.Some? && req.rating.value >= 0
  }

  /** The row the view saves: the form's rating and comments, with the event
      and participant set by the view and not by the form. */
  function FeedbackOf(req: FeedbackRequest, user: UserId, event: EventId): Feedback
    requires FeedbackFormIsValid(req)
  {
    Feedback(event, user, req.rating.value as nat, Some(Strip(req.comments)))
  }

  datatype FeedbackOutcome =
    | FeedbackRefused(barrier: FeedbackBarrier)
    | FeedbackFormShown
    | FeedbackFormInvalid
    | FeedbackSaved

  /** `submit_feedback_view` for `user` and the event of the URL at time `now`. */
  function SubmitFeedback(d: Db, user: UserId, event: EventId, req: FeedbackRequest, now: int): (r: Transition<FeedbackOutcome>)
    requires ValidDb(d)
    ensures ValidDb(r.db)
    ensures r.db == d.(feedback := r.db.feedback)
    ensures !r.outcome.FeedbackSaved? ==> r.db == d
    // a failed check turns the user away, and it is the first that fails
    ensures r.outcome.FeedbackRefused? <==> Eligibility(d, user, event, now).Some?
    ensures r.outcome.FeedbackRefused? ==> r.outcome.barrier == Eligibility(d, user, event, now).value
    ensures r.outcome == FeedbackFormShown <==> Eligibility(d, user, event, now) == None && !req.isPost
    ensures r.outcome == FeedbackFormInvalid <==>
      Eligibility(d, user, event, now) == None && req.isPost && !FeedbackFormIsValid(req)
    // exactly one new row, for this participant and this event
    ensures r.outcome == FeedbackSaved <==>
      Eligibility(d, user, event, now) == None && req.isPost && FeedbackFormIsValid(req)
    ensures r.outcome == FeedbackSaved ==>
      && !HasFeedback(d.feedback, user, event)
      && r.db.feedback == d.feedback + {FeedbackOf(req, user, event)}
    ensures forall f :: f in r.db.feedback && f !in d.feedback ==> f.participant == user && f.event == event
  {
    var barrier := Eligibility(d, user, event, now);
    if barrier.Some? then Transition(d, FeedbackRefused(barrier.value))
    else if !req.isPost then Transition(d, FeedbackFormShown)
    else if !FeedbackFormIsValid(req) then Transition(d, FeedbackFormInvalid)
    else Transition(d.(feedback := d.feedback + {FeedbackOf(req, user, event)}), FeedbackSaved)
  }

  method SubmitFeedbackView(db: Database, user: UserId, event: EventId, req: FeedbackRequest, now: int)
    returns (outcome: FeedbackOutcome)
    requires db.Valid()
    modifies db
    ensures Transition(db.Snapshot(), outcome) == SubmitFeedback(old(db.Snapshot()), user, event, req, now)
    ensures db.Valid()
  {
    var barrier := Eligibility(db.Snapshot(), user, event, now);
    if barrier.Some? {
      return FeedbackRefused(barrier.value);
    }
    if !req.isPost {
      return FeedbackFormShown;
    }
    if !FeedbackFormIsValid(req) {
      return FeedbackFormInvalid;
    }
    db.feedback := db.feedback + {FeedbackOf(req, user, event)};
    outcome := FeedbackSaved;
  }

  /** Feedback opens at the very instant the event ends. */
  lemma FeedbackOpensAtEnd(d: Db, user: UserId, event: EventId, now: int)
    requires event in d.events && d.events[event].eventEnd == now
    ensures Eligibility(d, user, event, now) != Some(EventNotOver)
    ensures Eligibility(d, user, event, now - 1) == Some(EventNotOver) <==> IsRegistered(d, user, event)
  {
  }

  /** Once a participant's feedback is saved, every later visit, at any time,
      is turned away and saves nothing. */
  lemma FeedbackOnlyOnce(d: Db, user: UserId, event: EventId, req: FeedbackRequest, now: int, later: FeedbackRequest, now2: int)
    requires ValidDb(d) && SubmitFeedback(d, user, event, req, now).outcome == FeedbackSaved
    ensures
      var d1 := SubmitFeedback(d, user, event, req, now).db;
      var again := SubmitFeedback(d1, user, event, later, now2);
      && again.outcome.FeedbackRefused?
      && again.db == d1
      && (d.events[event].eventEnd <= now2 ==> again.outcome == FeedbackRefused(AlreadyGiven))
  {
    var d1 := SubmitFeedback(d, user, event, req, now).db;
    assert FeedbackOf(req, user, event) in d1.feedback;
    assert HasFeedback(d1.feedback, user, event);
  }
}
