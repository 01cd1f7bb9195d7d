/** `Option1.kt`: one command handler per command type, each checking the state
    itself and applying at most one event, plus an event-sourcing handler that
    overwrites the identifier on every event.

    `AggregateLifecycle.apply(event)` is modelled as appending the event to
    `applied` and then running `on` on it. */
module Option1 {
  import opened Outcomes
  import opened Flight
  import opened FlightDecider

  datatype Aggregate = Aggregate(state: FlightState, aggregateId: Option<string>, applied: seq<FlightEvent>)

  /** A freshly constructed aggregate. */
  const New: Aggregate := Aggregate(Empty, None, [])

  /** `on(event)`, with the clock reading `now`. */
  function On(a: Aggregate, e: FlightEvent, now: int): (r: Aggregate)
    ensures r.aggregateId == Some(e.flightId)
    ensures r.state == Evolve(a.state, e, now)
    ensures r.applied == a.applied
  {
    Aggregate(Evolve(a.state, e, now), Some(e.flightId), a.applied)
  }

  /** `AggregateLifecycle.apply(event)`: publish the event, then handle it. */
  function Apply(a: Aggregate, e: FlightEvent, now: int): (r: Aggregate)
    ensures r.applied == a.applied + [e]
    ensures r.state == Evolve(a.state, e, now)
  {
    On(a.(applied := a.applied + [e]), e, now)
  }

  /** The schedule handler: schedule an empty flight, otherwise only say so again. */
  function HandleSchedule(a: Aggregate, c: FlightCommand, now: int): (r: (Aggregate, string))
    requires c.ScheduleFlightCommand?
    ensures a.state.EmptyFlight? ==>
      && r.0.applied == a.applied + [ScheduledEventFor(c)]
      && r.1 == "Flight scheduled with id: " + c.flightId
    ensures !a.state.EmptyFlight? ==> r.0 == a && r.1 == "Flight scheduled with id: " + c.flightId + " again"
  {
    if a.state.EmptyFlight? then
      (Apply(a, ScheduledEventFor(c), now), "Flight scheduled with id: " + c.flightId)
    else
      (a, "Flight scheduled with id: " + c.flightId + " again")
  }

  /** The cancel handler: refuse a cancelled flight, otherwise cancel it with the command's reason. */
  function HandleCancel(a: Aggregate, c: FlightCommand, now: int): (r: Result<(Aggregate, string)>)
    requires c.CancelFlightCommand?
    ensures r.Failure? <==> a.state.CancelledFlight?
    ensures r.Failure? ==> r.error == IllegalState(AlreadyCancelled)
    ensures r.Success? ==>
      && r.value.0.applied == a.applied + [FlightCancelledEvent(c.flightId, c.reason)]
      && r.value.1 == "Flight cancelled with id: " + c.flightId
  {
    if a.state.CancelledFlight? then Failure(IllegalState(AlreadyCancelled))
    else Success((Apply(a, FlightCancelledEvent(c.flightId, c.reason), now), "Flight cancelled with id: " + c.flightId))
  }

  /** The delay handler: refuse a cancelled flight, otherwise delay it with the command's reason. */
  function HandleDelay(a: Aggregate, c: FlightCommand, now: int): (r: Result<(Aggregate, string)>)
    requires c.DelayFlightCommand?
    ensures r.Failure? <==> a.state.CancelledFlight?
    ensures r.Failure? ==> r.error == IllegalState(AlreadyCancelled)
    ensures r.Success? ==>
      && r.value.0.applied == a.applied + [FlightDelayedEvent(c.flightId, c.reason)]
      && r.value.1 == "Flight delayed with id: " + c.flightId
  {
    if a.state.CancelledFlight? then Failure(IllegalState(AlreadyCancelled))
    else Success((Apply(a, FlightDelayedEvent(c.flightId, c.reason), now), "Flight delayed with id: " + c.flightId))
  }

  /** The framework's routing of a command to the handler for its type. */
  function Handle(a: Aggregate, c: FlightCommand, now: int): Result<(Aggregate, string)> {
    match c
    case ScheduleFlightCommand(_, _, _, _) => Success(HandleSchedule(a, c, now))
    case CancelFlightCommand(_, _) => HandleCancel(a, c, now)
    case DelayFlightCommand(_, _) => HandleDelay(a, c, now)
  }

  /** The handlers apply exactly the events the flight decider decides, and refuse exactly what it refuses. */
  lemma AgreesWithDecider(a: Aggregate, c: FlightCommand, now: int)
    ensures Handle(a, c, now).Failure? <==> Decide(a.state, c).Failure?
    ensures Handle(a, c, now).Failure? ==> Handle(a, c, now).error == Decide(a.state, c).error
    ensures Handle(a, c, now).Success? ==>
      var es := Decide(a.state, c).value;
      && Handle(a, c, now).value.0.applied == a.applied + es
      && Handle(a, c, now).value.0.state == EvolveAll(a.state, es, Clock(now, |es|))
  {
    var d := Decide(a.state, c);
    if d.Success? && d.value != [] {
      EvolveAllOne(a.state, d.value[0], now);
      assert d.value == [d.value[0]];
    }
  }
}
