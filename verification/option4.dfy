/** `DeciderAggregate`, instantiated by `FlightAggregateOption4`: a non-null
    state that starts empty and an aggregate identifier taken from the first
    event only. Its private `decide` is the flight decider's, line for line,
    and is modelled by `FlightDecider.Decide`.

    `AggregateLifecycle.apply(event)` is modelled as appending the event to
    `applied` and then running the event-sourcing handler on it. */
module Option4 {
  import opened Outcomes
  import opened Flight
  import opened FlightDecider

  datatype Aggregate = Aggregate(state: FlightState, aggregateId: Option<string>, applied: seq<FlightEvent>)

  /** A freshly constructed aggregate. */
  const New: Aggregate := Aggregate(Empty, None, [])

  /** `handleEvent(event)`, with the clock reading `now`. */
  function HandleEvent(a: Aggregate, e: FlightEvent, now: int): (r: Aggregate)
    // the identifier comes from the first event and is never overwritten
    ensures r.aggregateId == (if a.aggregateId.None? then Some(e.flightId) else a.aggregateId)
    ensures r.state == Evolve(a.state, e, now)
    ensures r.applied == a.applied
  {
    var id := if a.aggregateId.None? then Some(e.flightId) else a.aggregateId;
    Aggregate(Evolve(a.state, e, now), id, a.applied)
  }

  /** `AggregateLifecycle.apply(event)`: publish the event, then handle it. */
  function Apply(a: Aggregate, e: FlightEvent, now: int): Aggregate {
    HandleEvent(a.(applied := a.applied + [e]), e, now)
  }

  /** `processCommand(command)`: decide on the current state, then apply each decided event in order. */
  method ProcessCommand(a: Aggregate, c: FlightCommand, now: int) returns (r: Result<Aggregate>)
    ensures Decide(a.state, c).Failure? ==> r == Failure(Decide(a.state, c).error)
    // exactly the decided events are published, in order, and folded into the state
    ensures Decide(a.state, c).Success? ==>
      var es := Decide(a.state, c).value;
      && r.Success?
      && r.value.applied == a.applied + es
      && r.value.state == EvolveAll(a.state, es, Clock(now, |es|))
      && r.value.aggregateId == (if a.aggregateId.None? && es != [] then Some(c.flightId) else a.aggregateId)
  {
    var d := Decide(a.state, c);
    if d.Failure? {
      return Failure(d.error);
    }
    var es := d.value;
    var agg := a;
    var i := 0;
    while i < |es|
      invariant 0 <= i <= |es|
      invariant agg.applied == a.applied + es[..i]
      invariant agg.state == EvolveAll(a.state, es[..i], Clock(now, i))
      invariant agg.aggregateId == (if a.aggregateId.None? && i > 0 then Some(es[0].flightId) else a.aggregateId)
    {
      EvolveAllSnoc(a.state, es[..i], Clock(now, i), es[i], now);
      assert es[..i] + [es[i]] == es[..i + 1];
      assert Clock(now, i) + [now] == Clock(now, i + 1);
      agg := Apply(agg, es[i], now);
      i := i + 1;
    }
    assert es[..|es|] == es;
    if es != [] {
      assert es[0] in es;
    }
    return Success(agg);
  }

  /** The event-sourcing handler run over `es`, event `es[i]` at clock `ts[i]`. */
  function HandleEvents(a: Aggregate, es: seq<FlightEvent>, ts: seq<int>): Aggregate
    requires |ts| == |es|
    decreases |es|
  {
    if es == [] then a
    else
      var n := |es| - 1;
      HandleEvent(HandleEvents(a, es[..n], ts[..n]), es[n], ts[n])
  }

  /** Sourcing from any history: the state is the fold of the history, and the
      identifier, once set, is kept; if unset, the first event sets it. */
  lemma {:induction false} Replay(a: Aggregate, es: seq<FlightEvent>, ts: seq<int>)
    requires |ts| == |es|
    ensures HandleEvents(a, es, ts).state == EvolveAll(a.state, es, ts)
    ensures HandleEvents(a, es, ts).aggregateId ==
      if a.aggregateId.Some? || es == [] then a.aggregateId else Some(es[0].flightId)
    ensures HandleEvents(a, es, ts).applied == a.applied
  {
    if es != [] {
      var n := |es| - 1;
      Replay(a, es[..n], ts[..n]);
      if n > 0 {
        assert es[..n][0] == es[0];
      }
    }
  }

  /** A new aggregate sourced from a history ends in the history's fold from `Empty`. */
  lemma ReplayFromNew(es: seq<FlightEvent>, ts: seq<int>)
    requires |ts| == |es|
    ensures HandleEvents(New, es, ts) ==
      Aggregate(EvolveAll(Empty, es, ts), if es == [] then None else Some(es[0].flightId), [])
  {
    Replay(New, es, ts);
  }
}
