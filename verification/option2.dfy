/** `FlightAggregateOption2`: a non-null state that starts empty and an
    aggregate identifier that every event overwrites. Its private `decide` is
    the flight decider's, line for line, and is modelled by
    `FlightDecider.Decide`.

    `AggregateLifecycle.apply(event)` is modelled as appending the event to
    `applied` and then running the event-sourcing handler on it. */
module Option2 {
  import opened Outcomes
  import opened Flight
  import opened FlightDecider
  import Option1

  // The fields, the constructor and `on(event)` are those of `Option1.kt`'s
  // aggregate, so they are `Option1`'s definitions.
  type Aggregate = Option1.Aggregate
  const New: Aggregate := Option1.New

  /** `handle(command)`: decide on the current state, then apply each decided event in order. */
  method Handle(a: Aggregate, c: FlightCommand, now: int) returns (r: Result<Aggregate>)
    ensures Decide(a.state, c).Failure? ==> r == Failure(Decide(a.state, c).error)
    // at most one event is published per command
    ensures r.Success? ==> |a.applied| <= |r.value.applied| <= |a.applied| + 1
    // exactly the decided events are published, in order, and folded into the state
    ensures Decide(a.state, c).Success? ==>
      var es := Decide(a.state, c).value;
      && r.Success?
      && r.value.applied == a.applied + es
      && r.value.state == EvolveAll(a.state, es, Clock(now, |es|))
      && r.value.aggregateId == (if es == [] then a.aggregateId else Some(c.flightId))
  {
    var d := Decide(a.state, c);
    if d.Failure? {
      return Failure(d.error);
    }
    var es := d.value;
    var agg := a;
    var i := 0;
    while i < |es|
      invariant 0 <= i <= |es|
      invariant agg.applied == a.applied + es[..i]
      invariant agg.state == EvolveAll(a.state, es[..i], Clock(now, i))
      invariant agg.aggregateId == (if i == 0 then a.aggregateId else Some(es[i - 1].flightId))
    {
      EvolveAllSnoc(a.state, es[..i], Clock(now, i), es[i], now);
      assert es[..i] + [es[i]] == es[..i + 1];
      assert Clock(now, i) + [now] == Clock(now, i + 1);
      agg := Option1.Apply(agg, es[i], now);
      i := i + 1;
    }
    assert es[..|es|] == es;
    if es != [] {
      assert es[|es| - 1] in es;
    }
    return Success(agg);
  }

  /** The event-sourcing handler run over `es`, event `es[i]` at clock `ts[i]`. */
  function OnAll(a: Aggregate, es: seq<FlightEvent>, ts: seq<int>): Aggregate
    requires |ts| == |es|
    decreases |es|
  {
    if es == [] then a
    else
      var n := |es| - 1;
      Option1.On(OnAll(a, es[..n], ts[..n]), es[n], ts[n])
  }

  /** Sourcing from any history: the state is the fold of the history and the
      identifier is the most recent event's. */
  lemma {:induction false} Replay(a: Aggregate, es: seq<FlightEvent>, ts: seq<int>)
    requires |ts| == |es|
    ensures OnAll(a, es, ts).state == EvolveAll(a.state, es, ts)
    ensures OnAll(a, es, ts).aggregateId == if es == [] then a.aggregateId else Some(es[|es| - 1].flightId)
    ensures OnAll(a, es, ts).applied == a.applied
  {
    if es != [] {
      var n := |es| - 1;
      Replay(a, es[..n], ts[..n]);
    }
  }
}
