/** The defaulting done by `FlightController` before it dispatches a command:
    every field missing from a request is filled in, then the command is sent
    and a response echoing it is returned.

    The random choices (a fresh UUID, airport indices, a flight number, a
    reason index) are inputs, bounded as `Random.nextInt` bounds them. Each
    operation returns the command it sends together with the response. A
    delay or cancel is sent to a flight whose state is an input, and fails,
    without a response, when the flight decider refuses it. */
module Controller {
  import opened Outcomes
  import opened Flight
  import opened FlightDecider
  import Decimal

  const Airports: seq<string> := ["JFK", "LAX", "LHR", "CDG", "SYD", "DXB", "HND", "PEK"]

  const DelayReasons: seq<string> := [
    "Weather conditions",
    "Technical issues",
    "Air traffic congestion",
    "Crew scheduling",
    "Late arriving aircraft"
  ]

  const CancelReasons: seq<string> := [
    "Severe weather conditions",
    "Mechanical failure",
    "Security concern",
    "Insufficient bookings",
    "Operational constraints"
  ]

  datatype ScheduleFlightRequest = ScheduleFlightRequest(
    flightId: Option<string>, flightNumber: Option<string>, origin: Option<string>, destination: Option<string>)

  datatype DelayFlightRequest = DelayFlightRequest(reason: Option<string>)

  datatype CancelFlightRequest = CancelFlightRequest(reason: Option<string>)

  datatype FlightDetailsResponse = FlightDetailsResponse(
    flightId: string, flightNumber: string, status: string,
    origin: Option<string>, destination: Option<string>,
    cancelReason: Option<string>, delayReasons: seq<string>)

  datatype DelayFlightResponse = DelayFlightResponse(flightId: string, status: string, delayReasons: seq<string>)

  datatype CancelFlightResponse = CancelFlightResponse(flightId: string, status: string, cancelReason: string)

  /** The random values a schedule request may consume: a UUID, two
      `Random.nextInt(airports.size)` draws and one `Random.nextInt(1000, 9999)`. */
  datatype ScheduleDraws = ScheduleDraws(uuid: string, originIndex: nat, destinationIndex: nat, flightNumber: int)

  predicate ValidDraws(d: ScheduleDraws) {
    && d.originIndex < |Airports|
    && d.destinationIndex < |Airports|
    && 1000 <= d.flightNumber < 9999
  }

  /** `randomFlightNumber()`, given the drawn number: "FL" and then the number's digits. */
  function RandomFlightNumber(n: int): (r: string)
    requires 1000 <= n < 9999
    ensures |r| == 6 && r[..2] == "FL"
    ensures forall i | 2 <= i < |r| :: Decimal.IsDigit(r[i])
    ensures Decimal.Parse(r[2..]) == n
  {
    Decimal.ShowFourDigits(n);
    Decimal.ParseShow(n);
    var r := "FL" + Decimal.Show(n);
    assert r[2..] == Decimal.Show(n);
    r
  }

  /** Index of the first airport other than `origin` (`airports.first { it != origin }`):
      the first two airports differ, so it is one of them. */
  function FirstOtherAirport(origin: string): (k: nat)
    ensures k < |Airports| && Airports[k] != origin
    ensures forall j | 0 <= j < k :: Airports[j] == origin
  {
    if Airports[0] != origin then 0 else 1
  }

  /** The destination used when the request has none: the drawn airport, or, if
      that is the origin, the first airport that is not. */
  function DefaultDestination(origin: string, drawn: nat): (r: string)
    requires drawn < |Airports|
    ensures r in Airports && r != origin
    ensures Airports[drawn] != origin ==> r == Airports[drawn]
  {
    var it := Airports[drawn];
    if it == origin then Airports[FirstOtherAirport(origin)] else it
  }

  /** `scheduleFlight(request)`: the command dispatched and the response returned. */
  function ScheduleFlight(req: ScheduleFlightRequest, d: ScheduleDraws): (r: (FlightCommand, FlightDetailsResponse))
    requires ValidDraws(d)
    ensures var (cmd, resp) := r;
      && cmd.ScheduleFlightCommand?
      // what the request gives is used unchanged
      && (req.flightId.Some? ==> cmd.flightId == req.flightId.value)
      && (req.flightNumber.Some? ==> cmd.flightNumber == req.flightNumber.value)
      && (req.origin.Some? ==> cmd.origin == req.origin.value)
      && (req.destination.Some? ==> cmd.destination == req.destination.value)
      // what it leaves out is generated
      && (req.flightId.None? ==> cmd.flightId == d.uuid)
      && (req.origin.None? ==> cmd.origin in Airports)
      && (req.destination.None? ==> cmd.destination in Airports && cmd.destination != cmd.origin)
      && (req.flightNumber.None? ==> cmd.flightNumber == RandomFlightNumber(d.flightNumber))
      // the response echoes the command
      && resp == FlightDetailsResponse(cmd.flightId, cmd.flightNumber, "SCHEDULED",
                                       Some(cmd.origin), Some(cmd.destination), None, [])
  {
    var flightId := req.flightId.GetOr(d.uuid);
    var origin := req.origin.GetOr(Airports[d.originIndex]);
    var destination := if req.destination.Some? then req.destination.value else DefaultDestination(origin, d.destinationIndex);
    var flightNumber := if req.flightNumber.Some? then req.flightNumber.value else RandomFlightNumber(d.flightNumber);
    var cmd := ScheduleFlightCommand(flightId, flightNumber, origin, destination);
    (cmd, FlightDetailsResponse(flightId, flightNumber, "SCHEDULED", Some(origin), Some(destination), None, []))
  }

  /** No flight state refuses a schedule command, so `scheduleFlight` always
      answers with its response. */
  lemma ScheduleFlightAccepted(req: ScheduleFlightRequest, d: ScheduleDraws, target: FlightState)
    requires ValidDraws(d)
    ensures Decide(target, ScheduleFlight(req, d).0).Success?
  {
  }

  /** The command `delayFlight` sends: the request's reason, or the drawn one. */
  function DelayCommand(flightId: string, req: DelayFlightRequest, drawn: nat): (cmd: FlightCommand)
    requires drawn < |DelayReasons|
    ensures cmd.DelayFlightCommand? && cmd.flightId == flightId
    ensures req.reason.Some? ==> cmd.reason == req.reason.value
    ensures req.reason.None? ==> cmd.reason in DelayReasons
  {
    DelayFlightCommand(flightId, req.reason.GetOr(DelayReasons[drawn]))
  }

  /** `delayFlight(flightId, request)`, with the drawn reason index, sent to a
      flight in state `target`. `sendAndWait` rethrows the handler's refusal, so
      a refused command produces no response. */
  function DelayFlight(flightId: string, req: DelayFlightRequest, drawn: nat, target: FlightState): (r: Result<(FlightCommand, DelayFlightResponse)>)
    requires drawn < |DelayReasons|
    // the request fails exactly when the flight is already cancelled
    ensures r.Failure? <==> target.CancelledFlight?
    ensures r.Failure? ==> r.error == IllegalState(AlreadyCancelled)
    ensures r.Success? ==> var (cmd, resp) := r.value;
      && cmd.DelayFlightCommand? && cmd.flightId == flightId
      && (req.reason.Some? ==> cmd.reason == req.reason.value)
      && (req.reason.None? ==> cmd.reason in DelayReasons)
      // the response lists exactly the one reason sent
      && resp == DelayFlightResponse(flightId, "DELAYED", [cmd.reason])
  {
    var cmd := DelayCommand(flightId, req, drawn);
    match Decide(target, cmd)
    case Failure(e) => Failure(e)
    case Success(_) => Success((cmd, DelayFlightResponse(flightId, "DELAYED", [cmd.reason])))
  }

  /** The command `cancelFlight` sends: the request's reason, or the drawn one. */
  function CancelCommand(flightId: string, req: CancelFlightRequest, drawn: nat): (cmd: FlightCommand)
    requires drawn < |CancelReasons|
    ensures cmd.CancelFlightCommand? && cmd.flightId == flightId
    ensures req.reason.Some? ==> cmd.reason == req.reason.value
    ensures req.reason.None? ==> cmd.reason in CancelReasons
  {
    CancelFlightCommand(flightId, req.reason.GetOr(CancelReasons[drawn]))
  }

  /** `cancelFlight(flightId, request)`, with the drawn reason index, sent to a
      flight in state `target`. A refused command produces no response. */
  function CancelFlight(flightId: string, req: CancelFlightRequest, drawn: nat, target: FlightState): (r: Result<(FlightCommand, CancelFlightResponse)>)
    requires drawn < |CancelReasons|
    // the request fails exactly when the flight is already cancelled
    ensures r.Failure? <==> target.CancelledFlight?
    ensures r.Failure? ==> r.error == IllegalState(AlreadyCancelled)
    ensures r.Success? ==> var (cmd, resp) := r.value;
      && cmd.CancelFlightCommand? && cmd.flightId == flightId
      && (req.reason.Some? ==> cmd.reason == req.reason.value)
      && (req.reason.None? ==> cmd.reason in CancelReasons)
      // the response carries the reason sent
      && resp == CancelFlightResponse(flightId, "CANCELLED", cmd.reason)
  {
    var cmd := CancelCommand(flightId, req, drawn);
    match Decide(target, cmd)
    case Failure(e) => Failure(e)
    case Success(_) => Success((cmd, CancelFlightResponse(flightId, "CANCELLED", cmd.reason)))
  }
}
