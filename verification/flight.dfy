/** The flight domain: commands, events, the four flight states and the
    event fold `evolve` that moves a flight between them.

    The wall clock that stamps a delay reason is an input (`now`), so a fold
    over a history takes one timestamp per event. */
module Flight {
  import opened Outcomes

  datatype FlightCommand =
    | ScheduleFlightCommand(flightId: string, flightNumber: string, origin: string, destination: string)
    | DelayFlightCommand(flightId: string, reason: string)
    | CancelFlightCommand(flightId: string, reason: string)

  /** The scheduled event is declared with four fields; every decider builds it
      from a schedule command (see `FlightDecider.ScheduledEventFor`). */
  datatype FlightEvent =
    | FlightScheduledEvent(flightId: string, flightNumber: string, origin: string, destination: string)
    | FlightDelayedEvent(flightId: string, reason: string)
    | FlightCancelledEvent(flightId: string, reason: string)

  /** A delay reason with the time (milliseconds) at which it was folded in. */
  datatype DelayReason = DelayReason(reason: string, timestamp: int)

  datatype FlightState =
    | EmptyFlight(flightId: string)
    | ScheduledFlight(flightId: string, origin: string, destination: string)
    | DelayedFlight(flightId: string, origin: string, destination: string, delayReasons: seq<DelayReason>)
    | CancelledFlight(flightId: string, cancelledReason: string)

  /** The state of a flight nothing has happened to yet. */
  const Empty: FlightState := EmptyFlight("")

  /** `DelayReason.fromEvent`, reading the clock value `now`. */
  function FromEvent(e: FlightEvent, now: int): DelayReason
    requires e.FlightDelayedEvent?
  {
    DelayReason(e.reason, now)
  }

  /** `FlightState.evolve`: the state after one more event. */
  function Evolve(s: FlightState, e: FlightEvent, now: int): (r: FlightState)
    // only a scheduled event changes the flight's identifier, and it always sets it
    ensures r.flightId == (if e.FlightScheduledEvent? then e.flightId else s.flightId)
    // an empty or cancelled flight is left alone by everything but a new schedule
    ensures !e.FlightScheduledEvent? && (s.EmptyFlight? || s.CancelledFlight?) ==> r == s
    // no event empties a flight again
    ensures !s.EmptyFlight? ==> !r.EmptyFlight?
    // delay reasons only grow: the old list is a prefix of the new one
    ensures s.DelayedFlight? && r.DelayedFlight? ==> s.delayReasons <= r.delayReasons
    // no event produces a delayed flight without a reason
    ensures r.DelayedFlight? && r != s ==> |r.delayReasons| > 0
  {
    match e
    case FlightScheduledEvent(id, _, origin, destination) =>
      ScheduledFlight(id, origin, destination)
    case FlightDelayedEvent(_, _) =>
      (match s
       case ScheduledFlight(id, origin, destination) =>
         DelayedFlight(id, origin, destination, [FromEvent(e, now)])
       case DelayedFlight(id, origin, destination, reasons) =>
         DelayedFlight(id, origin, destination, reasons + [FromEvent(e, now)])
       case _ => s)
    case FlightCancelledEvent(_, reason) =>
      if s.ScheduledFlight? || s.DelayedFlight? then CancelledFlight(s.flightId, reason) else s
  }

  lemma EvolveScheduled(s: FlightState, e: FlightEvent, now: int)
    requires e.FlightScheduledEvent?
    ensures Evolve(s, e, now) == ScheduledFlight(e.flightId, e.origin, e.destination)
  {
  }

  lemma EvolveFirstDelay(s: FlightState, e: FlightEvent, now: int)
    requires s.ScheduledFlight? && e.FlightDelayedEvent?
    ensures Evolve(s, e, now) == DelayedFlight(s.flightId, s.origin, s.destination, [DelayReason(e.reason, now)])
  {
  }

  lemma EvolveNextDelay(s: FlightState, e: FlightEvent, now: int)
    requires s.DelayedFlight? && e.FlightDelayedEvent?
    ensures var r := Evolve(s, e, now);
      && r == DelayedFlight(s.flightId, s.origin, s.destination, r.delayReasons)
      && |r.delayReasons| == |s.delayReasons| + 1
      && r.delayReasons[..|s.delayReasons|] == s.delayReasons
      && r.delayReasons[|s.delayReasons|] == DelayReason(e.reason, now)
  {
  }

  lemma EvolveCancel(s: FlightState, e: FlightEvent, now: int)
    requires s.ScheduledFlight? || s.DelayedFlight?
    requires e.FlightCancelledEvent?
    ensures Evolve(s, e, now) == CancelledFlight(s.flightId, e.reason)
  {
  }

  /** True when no event of `es` is a scheduled event. */
  predicate Unscheduled(es: seq<FlightEvent>) {
    forall i | 0 <= i < |es| :: !es[i].FlightScheduledEvent?
  }

  /** The state after folding `evolve` over `es` from `s`, event `es[i]` read at clock `ts[i]`. */
  function EvolveAll(s: FlightState, es: seq<FlightEvent>, ts: seq<int>): (r: FlightState)
    requires |ts| == |es|
    ensures Unscheduled(es) ==> r.flightId == s.flightId
    ensures Unscheduled(es) && (s.EmptyFlight? || s.CancelledFlight?) ==> r == s
    ensures !s.EmptyFlight? ==> !r.EmptyFlight?
    decreases |es|
  {
    if es == [] then s
    else
      var n := |es| - 1;
      assert Unscheduled(es) ==> Unscheduled(es[..n]);
      Evolve(EvolveAll(s, es[..n], ts[..n]), es[n], ts[n])
  }

  /** `n` readings of a clock that shows `now` throughout. */
  function Clock(now: int, n: nat): (ts: seq<int>)
    ensures |ts| == n
  {
    seq(n, _ => now)
  }

  lemma EvolveAllOne(s: FlightState, e: FlightEvent, now: int)
    ensures EvolveAll(s, [e], Clock(now, 1)) == Evolve(s, e, now)
  {
    var ts := Clock(now, 1);
    assert [e][..0] == [] && ts[..0] == [] && ts[0] == now;
  }

  lemma EvolveAllSnoc(s: FlightState, es: seq<FlightEvent>, ts: seq<int>, e: FlightEvent, t: int)
    requires |ts| == |es|
    ensures EvolveAll(s, es + [e], ts + [t]) == Evolve(EvolveAll(s, es, ts), e, t)
  {
    assert (es + [e])[..|es|] == es;
    assert (ts + [t])[..|ts|] == ts;
  }

  // ---------------------------------------------------------------------------
  // A history, summarised without folding: the last schedule decides identity
  // and route, the first cancellation after it ends the flight, and the delays
  // after it are its delay reasons in order.

  /** Index of the last scheduled event of `es`, if any. */
  function LastSchedule(es: seq<FlightEvent>): (r: Option<nat>)
    ensures r.None? ==> Unscheduled(es)
    ensures r.Some? ==> r.value < |es| && es[r.value].FlightScheduledEvent? && Unscheduled(es[r.value + 1..])
  {
    if es == [] then None
    else if es[|es| - 1].FlightScheduledEvent? then Some(|es| - 1)
    else
      var r := LastSchedule(es[..|es| - 1]);
      assert r.Some? ==> es[r.value + 1..] == es[..|es| - 1][r.value + 1..] + [es[|es| - 1]];
      r
  }

  /** Reason of the first cancelled event of `es`, if any. */
  function FirstCancel(es: seq<FlightEvent>): Option<string> {
    if es == [] then None
    else if es[0].FlightCancelledEvent? then Some(es[0].reason)
    else FirstCancel(es[1..])
  }

  /** Reasons of the delayed events of `es`, in order. */
  function DelaysIn(es: seq<FlightEvent>): seq<string> {
    if es == [] then []
    else (if es[0].FlightDelayedEvent? then [es[0].reason] else []) + DelaysIn(es[1..])
  }

  /** Delay reasons with the given texts, all stamped 0. */
  function AtZero(texts: seq<string>): seq<DelayReason> {
    seq(|texts|, i requires 0 <= i < |texts| => DelayReason(texts[i], 0))
  }

  /** `s` with every delay timestamp replaced by 0. */
  function Erase(s: FlightState): FlightState {
    match s
    case DelayedFlight(id, origin, destination, reasons) =>
      DelayedFlight(id, origin, destination, AtZero(seq(|reasons|, i requires 0 <= i < |reasons| => reasons[i].reason)))
    case _ => s
  }

  /** The state a history leads to, up to delay timestamps, read off the history directly. */
  function Summary(es: seq<FlightEvent>): FlightState {
    match LastSchedule(es)
    case None => Empty
    case Some(k) => SummaryAfter(es[k], es[k + 1..])
  }

  /** The state after the schedule event `sched` followed by the unscheduled events `after`. */
  function SummaryAfter(sched: FlightEvent, after: seq<FlightEvent>): FlightState
    requires sched.FlightScheduledEvent?
  {
    match FirstCancel(after)
    case Some(reason) => CancelledFlight(sched.flightId, reason)
    case None =>
      if DelaysIn(after) == [] then ScheduledFlight(sched.flightId, sched.origin, sched.destination)
      else DelayedFlight(sched.flightId, sched.origin, sched.destination, AtZero(DelaysIn(after)))
  }

  lemma {:induction false} FirstCancelSnoc(es: seq<FlightEvent>, e: FlightEvent)
    ensures FirstCancel(es + [e]) ==
      if FirstCancel(es).Some? then FirstCancel(es)
      else if e.FlightCancelledEvent? then Some(e.reason)
      else None
  {
    if es != [] {
      assert (es + [e])[1..] == es[1..] + [e];
      FirstCancelSnoc(es[1..], e);
    }
  }

  lemma {:induction false} DelaysInSnoc(es: seq<FlightEvent>, e: FlightEvent)
    ensures DelaysIn(es + [e]) == DelaysIn(es) + (if e.FlightDelayedEvent? then [e.reason] else [])
  {
    var es' := es + [e];
    if es == [] {
      assert es' == [e] && es'[1..] == [];
    } else {
      assert es'[0] == es[0];
      assert es'[1..] == es[1..] + [e];
      DelaysInSnoc(es[1..], e);
    }
  }

  lemma EraseEvolve(s: FlightState, e: FlightEvent, now: int)
    ensures Erase(Evolve(s, e, now)) == Evolve(Erase(s), e, 0)
  {
    if s.DelayedFlight? && e.FlightDelayedEvent? {
      var rs := s.delayReasons;
      var rs' := rs + [DelayReason(e.reason, now)];
      var texts := seq(|rs|, i requires 0 <= i < |rs| => rs[i].reason);
      var texts' := seq(|rs'|, i requires 0 <= i < |rs'| => rs'[i].reason);
      assert texts' == texts + [e.reason];
      assert AtZero(texts') == AtZero(texts) + [DelayReason(e.reason, 0)];
    } else if s.ScheduledFlight? && e.FlightDelayedEvent? {
      assert AtZero([e.reason]) == [DelayReason(e.reason, 0)];
    }
  }

  lemma SummaryAfterSnoc(sched: FlightEvent, after: seq<FlightEvent>, e: FlightEvent)
    requires sched.FlightScheduledEvent? && !e.FlightScheduledEvent?
    ensures SummaryAfter(sched, after + [e]) == Evolve(SummaryAfter(sched, after), e, 0)
  {
    FirstCancelSnoc(after, e);
    DelaysInSnoc(after, e);
    if FirstCancel(after).None? && e.FlightDelayedEvent? {
      var d := DelaysIn(after);
      assert AtZero(d + [e.reason]) == AtZero(d) + [DelayReason(e.reason, 0)];
      if d == [] {
        assert AtZero([e.reason]) == [DelayReason(e.reason, 0)];
      }
    }
  }

  /** One more event moves the summary exactly as `evolve` moves a state. */
  lemma SummarySnoc(es: seq<FlightEvent>, e: FlightEvent)
    ensures Summary(es + [e]) == Evolve(Summary(es), e, 0)
  {
    var es' := es + [e];
    assert es'[..|es|] == es;
    if e.FlightScheduledEvent? {
      assert es'[|es| + 1..] == [];
    } else {
      assert LastSchedule(es') == LastSchedule(es);
      if LastSchedule(es).Some? {
        var k := LastSchedule(es).value;
        assert es'[k + 1..] == es[k + 1..] + [e];
        assert es'[k] == es[k];
        SummaryAfterSnoc(es[k], es[k + 1..], e);
      }
    }
  }

  /** The replay invariant survives one more event. */
  lemma ReplayStep(s: FlightState, init: seq<FlightEvent>, e: FlightEvent, t: int)
    requires Erase(s) == Summary(init)
    ensures Erase(Evolve(s, e, t)) == Summary(init + [e])
  {
    EraseEvolve(s, e, t);
    SummarySnoc(init, e);
  }

  /** Replaying a history from `Empty` gives its summary, whatever the clock read. */
  lemma {:induction false} ReplayMatchesSummary(es: seq<FlightEvent>, ts: seq<int>)
    requires |ts| == |es|
    ensures Erase(EvolveAll(Empty, es, ts)) == Summary(es)
  {
    if es != [] {
      var n := |es| - 1;
      var s := EvolveAll(Empty, es[..n], ts[..n]);
      ReplayMatchesSummary(es[..n], ts[..n]);
      ReplayStep(s, es[..n], es[n], ts[n]);
      assert EvolveAll(Empty, es, ts) == Evolve(s, es[n], ts[n]);
      assert es[..n] + [es[n]] == es;
    }
  }

  /** Every delayed flight reachable from `Empty` has at least one reason, one per
      delay since the last schedule, with those delays' texts in order. */
  lemma DelayedReasonsCountDelays(es: seq<FlightEvent>, ts: seq<int>)
    requires |ts| == |es|
    ensures var r := EvolveAll(Empty, es, ts);
      r.DelayedFlight? ==>
        && LastSchedule(es).Some?
        && var since := DelaysIn(es[LastSchedule(es).value + 1..]);
        && |r.delayReasons| == |since| > 0
        && forall i | 0 <= i < |since| :: r.delayReasons[i].reason == since[i]
  {
    ReplayMatchesSummary(es, ts);
    var r := EvolveAll(Empty, es, ts);
    if r.DelayedFlight? {
      var since := DelaysIn(es[LastSchedule(es).value + 1..]);
      assert Erase(r).delayReasons == AtZero(since);
      assert |r.delayReasons| == |Erase(r).delayReasons| == |since|;
      forall i | 0 <= i < |since|
        ensures r.delayReasons[i].reason == since[i]
      {
        assert Erase(r).delayReasons[i] == DelayReason(since[i], 0);
      }
    }
  }

  /** A replay's outcome does not depend on the clock, except for the stamps themselves. */
  lemma ReplayIgnoresClock(es: seq<FlightEvent>, ts1: seq<int>, ts2: seq<int>)
    requires |ts1| == |es| && |ts2| == |es|
    ensures Erase(EvolveAll(Empty, es, ts1)) == Erase(EvolveAll(Empty, es, ts2))
  {
    ReplayMatchesSummary(es, ts1);
    ReplayMatchesSummary(es, ts2);
  }
}
