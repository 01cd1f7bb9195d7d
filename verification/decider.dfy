/** `FlightDecider2`: the flight's implementation of the `Decider` interface
    (decide, evolve, initial state, stream identifier).

    The interface is declared twice in the same package with the same four
    members; it is modelled once, by the functions of this module. The private
    `decide` functions of `FlightAggregateOption2` and `FlightAggregateOption4`
    are line-for-line copies of the one here and are modelled by it too. */
module FlightDecider {
  import opened Outcomes
  import opened Flight

  /** Message of the exception a delay or cancel of a cancelled flight throws. */
  const AlreadyCancelled: string := "Flight already cancelled"

  /** `initialState()`: a flight with nothing scheduled and a blank identifier. */
  function InitialState(): (r: FlightState)
    ensures r.EmptyFlight? && r.flightId == ""
  {
    Empty
  }

  /** `streamId(event)`: the stream an event belongs to. */
  function StreamId(e: FlightEvent): string {
    e.flightId
  }

  /** The scheduled event a schedule command produces.

      Every decider calls the four-field constructor with three arguments
      (flight id, origin, destination), so which command field lands in which
      event field is not fixed by the code. This model fills the fields by name;
      no contract relies on anything but the flight id. */
  function ScheduledEventFor(c: FlightCommand): (e: FlightEvent)
    requires c.ScheduleFlightCommand?
    ensures e.FlightScheduledEvent? && e.flightId == c.flightId
  {
    FlightScheduledEvent(c.flightId, c.flightNumber, c.origin, c.destination)
  }

  function HandleSchedule(s: FlightState, c: FlightCommand): seq<FlightEvent>
    requires c.ScheduleFlightCommand?
  {
    if s.EmptyFlight? then [ScheduledEventFor(c)] else []
  }

  function HandleDelay(s: FlightState, c: FlightCommand): Result<seq<FlightEvent>>
    requires c.DelayFlightCommand?
  {
    if s.CancelledFlight? then Failure(IllegalState(AlreadyCancelled))
    else Success([FlightDelayedEvent(c.flightId, c.reason)])
  }

  function HandleCancel(s: FlightState, c: FlightCommand): Result<seq<FlightEvent>>
    requires c.CancelFlightCommand?
  {
    if s.CancelledFlight? then Failure(IllegalState(AlreadyCancelled))
    else Success([FlightCancelledEvent(c.flightId, c.reason)])
  }

  /** `decide(state, command)`: the events a command produces, or the exception it throws. */
  function Decide(s: FlightState, c: FlightCommand): (r: Result<seq<FlightEvent>>)
    // only delays and cancels can be refused, and exactly when the flight is cancelled
    ensures r.Failure? <==> !c.ScheduleFlightCommand? && s.CancelledFlight?
    ensures r.Failure? ==> r.error == IllegalState(AlreadyCancelled)
    // at most one event per command, and it belongs to the command's flight
    ensures r.Success? ==> |r.value| <= 1
    ensures r.Success? ==> forall e | e in r.value :: e.flightId == c.flightId
    // an accepted command stays silent only when it re-schedules an existing flight
    ensures r.Success? ==> (r.value == [] <==> c.ScheduleFlightCommand? && !s.EmptyFlight?)
  {
    match c
    case ScheduleFlightCommand(_, _, _, _) => Success(HandleSchedule(s, c))
    case DelayFlightCommand(_, _) => HandleDelay(s, c)
    case CancelFlightCommand(_, _) => HandleCancel(s, c)
  }

  lemma ScheduleDecision(s: FlightState, c: FlightCommand)
    requires c.ScheduleFlightCommand?
    ensures s.EmptyFlight? ==>
      && Decide(s, c).Success? && |Decide(s, c).value| == 1
      && Decide(s, c).value[0].FlightScheduledEvent?
      && Decide(s, c).value[0].flightId == c.flightId
    ensures !s.EmptyFlight? ==> Decide(s, c) == Success([])
  {
  }

  lemma DelayDecision(s: FlightState, c: FlightCommand)
    requires c.DelayFlightCommand?
    ensures s.CancelledFlight? ==> Decide(s, c) == Failure(IllegalState(AlreadyCancelled))
    ensures !s.CancelledFlight? ==> Decide(s, c) == Success([FlightDelayedEvent(c.flightId, c.reason)])
  {
  }

  lemma CancelDecision(s: FlightState, c: FlightCommand)
    requires c.CancelFlightCommand?
    ensures s.CancelledFlight? ==> Decide(s, c) == Failure(IllegalState(AlreadyCancelled))
    ensures !s.CancelledFlight? ==> Decide(s, c) == Success([FlightCancelledEvent(c.flightId, c.reason)])
  {
  }

  /** A command end to end: decide, then fold the decided events in, each read at
      clock `now`. A refused command throws before any event is applied, so it
      leaves the state as it was. */
  function Step(s: FlightState, c: FlightCommand, now: int): (r: FlightState)
    // a cancelled flight stays cancelled, whatever the command
    ensures s.CancelledFlight? ==> r == s
    // once a flight has been scheduled its identifier never changes
    ensures !s.EmptyFlight? ==> !r.EmptyFlight? && r.flightId == s.flightId
    ensures s.EmptyFlight? ==> r == s || r.flightId == c.flightId
  {
    match Decide(s, c)
    case Failure(_) => s
    case Success(es) => EvolveAll(s, es, Clock(now, |es|))
  }

  /** Commands `cs` run one after another, command `cs[i]` at clock `ts[i]`. */
  function Run(s: FlightState, cs: seq<FlightCommand>, ts: seq<int>): FlightState
    requires |ts| == |cs|
    decreases |cs|
  {
    if cs == [] then s
    else
      var n := |cs| - 1;
      Step(Run(s, cs[..n], ts[..n]), cs[n], ts[n])
  }

  /** A successful cancellation of a live flight, folded in, cancels it with the command's reason. */
  lemma CancelThenEvolve(s: FlightState, c: FlightCommand, now: int)
    requires s.ScheduledFlight? || s.DelayedFlight?
    requires c.CancelFlightCommand?
    ensures Decide(s, c).Success?
    ensures Step(s, c, now) == CancelledFlight(s.flightId, c.reason)
  {
    var es := Decide(s, c).value;
    assert es == [FlightCancelledEvent(c.flightId, c.reason)];
    EvolveAllOne(s, es[0], now);
  }

  /** Sending the same schedule command twice produces one event in all: the
      second send is silent. */
  lemma ScheduleIsIdempotent(s: FlightState, c: FlightCommand, now: int)
    requires c.ScheduleFlightCommand?
    ensures |Decide(s, c).value| + |Decide(Step(s, c, now), c).value| <= 1
    ensures Decide(Step(s, c, now), c) == Success([])
    ensures Decide(Step(Step(s, c, now), c, now), c) == Success([])
  {
    var es := Decide(s, c).value;
    if s.EmptyFlight? {
      EvolveAllOne(s, es[0], now);
    }
  }

  /** The same schedule command sent any number of times acts as one send:
      every send after the first changes nothing, and one more would be silent too. */
  lemma {:induction false} RepeatedScheduleIsSilent(s: FlightState, c: FlightCommand, cs: seq<FlightCommand>, ts: seq<int>)
    requires c.ScheduleFlightCommand?
    requires |ts| == |cs| && cs != []
    requires forall i | 0 <= i < |cs| :: cs[i] == c
    ensures Run(s, cs, ts) == Step(s, c, ts[0])
    ensures Decide(Run(s, cs, ts), c) == Success([])
  {
    var n := |cs| - 1;
    ScheduleIsIdempotent(s, c, ts[0]);
    if n == 0 {
      assert cs[..0] == [] && ts[..0] == [];
    } else {
      RepeatedScheduleIsSilent(s, c, cs[..n], ts[..n]);
      assert cs[n] == c;
    }
  }

  /** No command sequence brings a cancelled flight back. */
  lemma {:induction false} CancelledIsTerminal(s: FlightState, cs: seq<FlightCommand>, ts: seq<int>)
    requires |ts| == |cs|
    requires s.CancelledFlight?
    ensures Run(s, cs, ts) == s
  {
    if cs != [] {
      var n := |cs| - 1;
      CancelledIsTerminal(s, cs[..n], ts[..n]);
    }
  }

  /** An aggregate only ever receives commands for its own flight; its state's
      identifier is then blank or that flight's, and once set never changes. */
  lemma {:induction false} IdentifierSetOnce(s: FlightState, id: string, cs: seq<FlightCommand>, ts: seq<int>)
    requires |ts| == |cs|
    requires forall i | 0 <= i < |cs| :: cs[i].flightId == id
    ensures !s.EmptyFlight? ==> !Run(s, cs, ts).EmptyFlight? && Run(s, cs, ts).flightId == s.flightId
    ensures Run(s, cs, ts).flightId in {s.flightId, id}
  {
    if cs != [] {
      var n := |cs| - 1;
      IdentifierSetOnce(s, id, cs[..n], ts[..n]);
    }
  }
}
