/** `FlightAggregate` and `FlightAggregate2`: the first, schedule-only
    aggregate, with its own one-field command and event. Its only state is the
    nullable identifier, which doubles as the "already scheduled" flag.

    The two classes have the same handler and event-sourcing handler; the
    second only takes the identifier as a constructor parameter defaulting to
    null, so both are modelled by one datatype, built by `Create`. */
module ScheduleOnce {
  import opened Outcomes

  datatype ScheduleFlightCommand = ScheduleFlightCommand(id: string)

  datatype FlightScheduledEvent = FlightScheduledEvent(flightId: string)

  datatype FlightAggregate = FlightAggregate(aggregateId: Option<string>, applied: seq<FlightScheduledEvent>)

  /** A new aggregate with the given identifier (`FlightAggregate2`'s constructor; null by default). */
  function Create(aggregateId: Option<string>): FlightAggregate {
    FlightAggregate(aggregateId, [])
  }

  /** What the framework builds before the first command: no identifier, nothing published. */
  const New: FlightAggregate := Create(None)

  /** The event-sourcing handler `on(event)`. */
  function On(a: FlightAggregate, e: FlightScheduledEvent): (r: FlightAggregate)
    ensures r.aggregateId == Some(e.flightId)
    ensures r.applied == a.applied
  {
    a.(aggregateId := Some(e.flightId))
  }

  /** `AggregateLifecycle.apply(event)`: publish the event, then handle it. */
  function Apply(a: FlightAggregate, e: FlightScheduledEvent): FlightAggregate {
    On(a.(applied := a.applied + [e]), e)
  }

  /** `handle(command)`: schedule once; afterwards only report it again. */
  function Handle(a: FlightAggregate, c: ScheduleFlightCommand): (r: (FlightAggregate, string))
    ensures a.aggregateId.None? ==>
      && r.0.applied == a.applied + [FlightScheduledEvent(c.id)]
      && r.0.aggregateId == Some(c.id)
      && r.1 == "Flight scheduled with id: " + c.id
    ensures a.aggregateId.Some? ==> r.0 == a && r.1 == "Flight scheduled with id: " + c.id + " again"
  {
    if a.aggregateId.None? then
      (Apply(a, FlightScheduledEvent(c.id)), "Flight scheduled with id: " + c.id)
    else
      (a, "Flight scheduled with id: " + c.id + " again")
  }

  /** Commands handled one after another. */
  function HandleAll(a: FlightAggregate, cs: seq<ScheduleFlightCommand>): FlightAggregate
    decreases |cs|
  {
    if cs == [] then a
    else Handle(HandleAll(a, cs[..|cs| - 1]), cs[|cs| - 1]).0
  }

  /** However many schedule commands reach a new aggregate, exactly one event is
      published, for the first of them. */
  lemma {:induction false} ScheduledOnce(cs: seq<ScheduleFlightCommand>)
    requires cs != []
    ensures HandleAll(New, cs).applied == [FlightScheduledEvent(cs[0].id)]
    ensures HandleAll(New, cs).aggregateId == Some(cs[0].id)
  {
    var n := |cs| - 1;
    if n > 0 {
      ScheduledOnce(cs[..n]);
      assert cs[..n][0] == cs[0];
    }
  }

  /** Sending the same command twice: one event, and the second reply says "again". */
  lemma ScheduleTwice(c: ScheduleFlightCommand)
    ensures var (a1, reply1) := Handle(New, c);
      var (a2, reply2) := Handle(a1, c);
      && a2.applied == [FlightScheduledEvent(c.id)]
      && reply1 == "Flight scheduled with id: " + c.id
      && reply2 == "Flight scheduled with id: " + c.id + " again"
  {
  }
}
