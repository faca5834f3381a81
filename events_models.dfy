/** The parts of events/models.py the core reads: an event's end time, the
    problem statements a submission may choose from, and the staff roles
    assigned per event. */
module EventsModels {
  import opened AccountsModels

  /** An event; `problemStatements` holds the ids of its `ProblemStatement` rows. */
  datatype Event = Event(eventName: string, eventEnd: int, problemStatements: set<nat>)

  /** A staff user's role at an event; (event, user, role) is unique. */
  datatype EventStaff = EventStaff(event: EventId, user: UserId, role: string)
}
