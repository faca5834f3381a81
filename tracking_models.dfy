/** The feedback entity of tracking/models.py; (event, participant) is unique. */
module TrackingModels {
  import opened Wrappers
  import opened AccountsModels

  datatype Feedback = Feedback(event: EventId, participant: UserId, rating: nat, comments: Option<string>)
}
