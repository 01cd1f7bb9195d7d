/** `DeciderAggregate2`, instantiated by `FlightAggregateOption3` with the flight
    decider: an aggregate with a nullable state and a nullable stream
    identifier that hands commands to `decide` and events to `evolve`.

    `AggregateLifecycle.apply(event)` is modelled as appending the event to
    `applied` (the events published so far) and then running the aggregate's
    event-sourcing handler on it. */
module Option3 {
  import opened Outcomes
  import opened Flight
  import opened FlightDecider

  datatype Aggregate = Aggregate(state: Option<FlightState>, streamId: Option<string>, applied: seq<FlightEvent>)

  /** A freshly constructed aggregate: no state, no stream identifier, nothing published. */
  const New: Aggregate := Aggregate(None, None, [])

  /** `handleEvent(event)`, the event-sourcing handler, with the clock reading `now`. */
  function HandleEvent(a: Aggregate, e: FlightEvent, now: int): (r: Result<Aggregate>)
    // `state!!` throws only when a stream identifier is set but the state is not
    ensures r.Failure? <==> a.streamId.Some? && a.state.None?
    // the first event names the stream; later events never rename it
    ensures r.Success? ==> r.value.streamId == (if a.streamId.None? then Some(e.flightId) else a.streamId)
    // the first event is folded into a fresh initial state, later ones into the current state
    ensures r.Success? ==>
      r.value.state == Some(Evolve(if a.streamId.None? then InitialState() else a.state.value, e, now))
    ensures r.Success? ==> r.value.applied == a.applied
  {
    var state := if a.streamId.None? then Some(InitialState()) else a.state;
    var streamId := if a.streamId.None? then Some(StreamId(e)) else a.streamId;
    if state.None? then Failure(NullState)
    else Success(Aggregate(Some(Evolve(state.value, e, now)), streamId, a.applied))
  }

  /** `AggregateLifecycle.apply(event)`: publish the event, then handle it. */
  function Apply(a: Aggregate, e: FlightEvent, now: int): Result<Aggregate> {
    HandleEvent(a.(applied := a.applied + [e]), e, now)
  }

  /** `processCommand(command)`: initialise a null state, decide, apply each decided event in order. */
  method ProcessCommand(a: Aggregate, c: FlightCommand, now: int) returns (r: Result<Aggregate>)
    // a refused command throws: nothing is applied
    ensures var d := Decide(a.state.GetOr(InitialState()), c);
      d.Failure? ==> r == Failure(d.error)
    // an accepted one publishes exactly the decided events, in order, and folds them in
    ensures var d := Decide(a.state.GetOr(InitialState()), c);
      d.Success? ==>
        var es := d.value;
        var renamed := a.streamId.None? && es != [];
        var base := if renamed then InitialState() else a.state.GetOr(InitialState());
        && r.Success?
        && r.value.applied == a.applied + es
        && r.value.state == Some(EvolveAll(base, es, Clock(now, |es|)))
        && r.value.streamId == (if renamed then Some(c.flightId) else a.streamId)
  {
    var agg := a;
    if agg.state.None? {
      agg := agg.(state := Some(InitialState()));
    }
    var d := Decide(agg.state.value, c);
    if d.Failure? {
      return Failure(d.error);
    }
    var es := d.value;
    ghost var start := a.state.GetOr(InitialState());
    var i := 0;
    while i < |es|
      invariant 0 <= i <= |es|
      invariant agg == Applying(a, start, es, i, now)
    {
      ApplyingStep(a, start, es, i, now);
      agg := Apply(agg, es[i], now).value;
      i := i + 1;
    }
    assert es[..|es|] == es;
    if es != [] {
      assert es[0] in es;
    }
    return Success(agg);
  }

  /** The aggregate once `processCommand` has applied the first `i` decided events
      `es`, starting from its fields `a` with the (initialised) state `start`. */
  ghost function Applying(a: Aggregate, start: FlightState, es: seq<FlightEvent>, i: nat, now: int): Aggregate
    requires i <= |es|
  {
    if i == 0 then a.(state := Some(start))
    else
      var base := if a.streamId.None? then InitialState() else start;
      Aggregate(
        Some(EvolveAll(base, es[..i], Clock(now, i))),
        if a.streamId.None? then Some(es[0].flightId) else a.streamId,
        a.applied + es[..i])
  }

  lemma ApplyingStep(a: Aggregate, start: FlightState, es: seq<FlightEvent>, i: nat, now: int)
    requires i < |es|
    ensures Apply(Applying(a, start, es, i, now), es[i], now) == Success(Applying(a, start, es, i + 1, now))
  {
    var base := if a.streamId.None? then InitialState() else start;
    assert es[..i + 1] == es[..i] + [es[i]];
    if i == 0 {
      EvolveAllOne(base, es[0], now);
      assert es[..1] == [es[0]];
    } else {
      EvolveAllSnoc(base, es[..i], Clock(now, i), es[i], now);
      assert Clock(now, i) + [now] == Clock(now, i + 1);
      assert EvolveAll(base, es[..i + 1], Clock(now, i + 1))
        == Evolve(EvolveAll(base, es[..i], Clock(now, i)), es[i], now);
      assert (a.applied + es[..i]) + [es[i]] == a.applied + es[..i + 1];
    }
  }

  /** `applySnapshot(snapshot)`: take the snapshot's stream identifier and state. */
  function ApplySnapshot(a: Aggregate, snapshot: Aggregate): (r: Aggregate)
    ensures r.streamId == snapshot.streamId && r.state == snapshot.state
    // nothing is published and nothing else changes
    ensures r.applied == a.applied
  {
    a.(streamId := snapshot.streamId, state := snapshot.state)
  }

  /** The event-sourcing handler run over `es`, event `es[i]` at clock `ts[i]`, stopping at the first exception. */
  function HandleEvents(a: Aggregate, es: seq<FlightEvent>, ts: seq<int>): Result<Aggregate>
    requires |ts| == |es|
    decreases |es|
  {
    if es == [] then Success(a)
    else
      var n := |es| - 1;
      match HandleEvents(a, es[..n], ts[..n])
      case Failure(err) => Failure(err)
      case Success(b) => HandleEvent(b, es[n], ts[n])
  }

  /** Sourcing a new aggregate from a history: the stream is named after the first
      event and the state is the fold of the whole history from the initial state. */
  lemma {:induction false} ReplayFromNew(es: seq<FlightEvent>, ts: seq<int>)
    requires |ts| == |es|
    ensures es == [] ==> HandleEvents(New, es, ts) == Success(New)
    ensures es != [] ==>
      HandleEvents(New, es, ts) == Success(Aggregate(Some(EvolveAll(InitialState(), es, ts)), Some(es[0].flightId), []))
  {
    if es != [] {
      var n := |es| - 1;
      ReplayFromNew(es[..n], ts[..n]);
      if n > 0 {
        assert es[..n][0] == es[0];
      }
    }
  }
}
