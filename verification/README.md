# Flight lifecycle decider

A Dafny model of the event-sourced flight aggregate of the Micronaut/Axon
playground. A flight is scheduled, may be delayed any number of times, and may
be cancelled. Commands are turned into events by a `decide` function. Events are
folded into one of four states (`EmptyFlight`, `ScheduledFlight`,
`DelayedFlight`, `CancelledFlight`) by `evolve`. The repository writes the
aggregate around this decider in four ways ("Option1" to "Option4") and
keeps an older schedule-only aggregate. All of them are modelled here, along
with the request defaulting of the HTTP controller.

Modules, one per source unit:

- `Outcomes` (`outcomes.dfy`): Kotlin nullables as `Option`, and thrown
  exceptions as `Result` failures.
- `Flight` (`flight.dfy`): `Domain.kt`. It holds the command, event and state
  families, `evolve`, and the fold of `evolve` over a history. It also gives a
  direct summary of a history: the last schedule fixes identity and route, the
  first cancellation after it ends the flight, and the delays after it are
  its reasons. The fold is proved equal to that summary.
- `FlightDecider` (`decider.dfy`): `FlightDecider2` with `decide`, `evolve`,
  `initialState` and `streamId`. It also has `Step`, which is decide followed
  by evolve, and `Run`, which steps through a command sequence. The properties
  proved over these are idempotent scheduling, cancellation as a terminal
  state, and an identifier that is set once.
- `Option3`, `Option4`, `Option2`, `Option1` (`option*.dfy`): the aggregate
  wrappers. `AggregateLifecycle.apply(event)` is modelled as two steps. The
  event is appended to `applied`, the list of events published so far. Then
  the aggregate's event-sourcing handler runs on it. `FlightAggregateOption2`
  has the same fields and the same `on` as `Option1.kt`'s aggregate, so
  `Option2` reuses `Option1`'s definitions of both.
- `ScheduleOnce` (`schedule_once.dfy`): `FlightAggregate` and
  `FlightAggregate2` from `Application.kt`.
- `Controller` and `Decimal` (`controller.dfy`, `decimal.dfy`): how
  `FlightController` fills in missing request fields, and the decimal text
  behind `"FL" + number`.

Inputs that the code reads from the environment are parameters here:

- The clock that `DelayReason.fromEvent` reads is a `now: int`. A fold over a
  history takes one timestamp per event.
- The UUID and the `Random.nextInt` draws of the controller are inputs,
  bounded as `nextInt` bounds them.

Points where the model follows the code rather than tidying it:

- `FlightScheduledEvent` is declared with four fields. Every decider calls its
  constructor with three arguments: flight id, origin and destination. The
  mapping from command fields to event fields is therefore not fixed by the
  code. `FlightDecider.ScheduledEventFor` fills the fields by name, and no
  contract relies on anything but the flight id.
- The `Decider` interface is declared twice, in `aggregate/Decider.kt` and
  `aggregate/FlightAggregateOption3.kt`. It is modelled once, as the four
  functions of `FlightDecider`.
- The private `decide` functions of `FlightAggregateOption2` and
  `FlightAggregateOption4` are line-for-line copies of `FlightDecider2.decide`.
  All three are modelled by the single `FlightDecider.Decide`, so they agree by
  construction. `Option1`'s per-command handlers have a different shape. They
  are modelled separately, and `Option1.AgreesWithDecider` proves that they
  agree with `Decide`.
- `DeciderAggregate2.handleEvent` resets the state to the initial state
  whenever the stream id is null. This happens even if a state is present,
  which can follow a snapshot without a stream id. Its `state!!` throws when a
  stream id is set but the state is null. Both behaviours are kept, the second
  as `Failure(NullState)`.
- A delay reason is stamped when `evolve` runs, and the event carries no time.
  Re-sourcing an aggregate therefore re-stamps every reason with the time of
  the replay. `Flight.ReplayIgnoresClock` shows that nothing else about the
  state depends on the clock.

## Model

| member | source | states |
|---|---|---|
| `Flight.Evolve` | src/main/kotlin/com/playground/Domain.kt:43-63 | Only a scheduled event changes the flight id, and it sets it to the event's. Delay and cancel events leave an empty or cancelled flight unchanged. Delay reasons only grow, with the old list a prefix of the new one. A live flight is never emptied again, and no event produces a delayed flight without a reason. |
| `Flight.EvolveScheduled` | src/main/kotlin/com/playground/Domain.kt:45 | From any prior state, including a cancelled one, a scheduled event gives `ScheduledFlight` with the event's id, origin and destination. |
| `Flight.EvolveFirstDelay` | src/main/kotlin/com/playground/Domain.kt:48-49 | A delay on a scheduled flight gives a delayed flight with the same id and route and exactly one reason, stamped `now`. |
| `Flight.EvolveNextDelay` | src/main/kotlin/com/playground/Domain.kt:50-51 | A delay on a delayed flight keeps id and route and appends exactly one reason at the end. Earlier reasons keep their order. |
| `Flight.EvolveCancel` | src/main/kotlin/com/playground/Domain.kt:55-57 | A cancel on a scheduled or delayed flight gives `CancelledFlight` with the state's id (not the event's) and the event's reason. |
| `Flight.EvolveAll` | src/main/kotlin/com/playground/Domain.kt:43-63 | The fold of `evolve` over a history. A history with no schedule keeps the flight id and leaves an empty or cancelled flight unchanged. A live flight never becomes empty. |
| `Flight.ReplayMatchesSummary` | src/main/kotlin/com/playground/Domain.kt:43-81 | Folding any history from `Empty` gives, up to timestamps, the summary read directly off the history. The summary uses the last schedule, the first cancel after it, and the delays after it. |
| `Flight.DelayedReasonsCountDelays` | src/main/kotlin/com/playground/Domain.kt:46-54 | A delayed flight reachable from `Empty` has a non-empty reason list. It holds one reason per delay since the last schedule, with those delays' texts in order. |
| `Flight.ReplayIgnoresClock` | src/main/kotlin/com/playground/Domain.kt:71-77 | Two replays of one history under different clocks differ only in the delay timestamps. |
| `FlightDecider.InitialState` | src/main/kotlin/com/playground/aggregate/FlightAggregateOption3.kt:34-36 | The initial state is an empty flight with the blank id, which is `FlightState.Empty`. |
| `FlightDecider.ScheduledEventFor` | src/main/kotlin/com/playground/aggregate/FlightAggregateOption3.kt:48 | The scheduled event built from a schedule command carries the command's flight id. The other fields are not claimed. |
| `FlightDecider.Decide` | src/main/kotlin/com/playground/aggregate/FlightAggregateOption3.kt:22-72 | A command is refused ("Flight already cancelled") exactly when it is a delay or cancel of a cancelled flight. Otherwise it yields at most one event, always with the command's flight id. It yields none exactly when it re-schedules a flight that is not empty. |
| `FlightDecider.ScheduleDecision` | src/main/kotlin/com/playground/aggregate/FlightAggregateOption3.kt:43-52 | Scheduling an empty flight emits one scheduled event with the command's id. Scheduling any other state emits nothing. |
| `FlightDecider.DelayDecision` | src/main/kotlin/com/playground/aggregate/FlightAggregateOption3.kt:54-62 | Delaying a cancelled flight fails. Delaying any other state emits exactly one delayed event with the command's id and reason. |
| `FlightDecider.CancelDecision` | src/main/kotlin/com/playground/aggregate/FlightAggregateOption3.kt:64-72 | Cancelling a cancelled flight fails. Cancelling any other state emits exactly one cancelled event with the command's id and reason. |
| `FlightDecider.Step` | src/main/kotlin/com/playground/aggregate/FlightAggregateOption3.kt:22-40 | Decide followed by evolve leaves a cancelled flight unchanged. It never changes the id of a flight that is not empty and never empties it. An empty flight either stays as it is or takes the command's id. |
| `FlightDecider.CancelThenEvolve` | src/main/kotlin/com/playground/aggregate/FlightAggregateOption3.kt:64-72 | A cancel of a scheduled or delayed flight is accepted. Folding its event in gives `CancelledFlight` with the flight's id and the command's reason. |
| `FlightDecider.ScheduleIsIdempotent` | src/main/kotlin/com/playground/aggregate/FlightAggregateOption3.kt:43-52 | The same schedule command, sent twice, produces at most one event in total, and the second send produces none. |
| `FlightDecider.RepeatedScheduleIsSilent` | src/main/kotlin/com/playground/aggregate/FlightAggregateOption3.kt:43-52 | Sending one schedule command any number of times leaves the flight as the first send left it. One more send would produce no event. |
| `FlightDecider.CancelledIsTerminal` | src/main/kotlin/com/playground/aggregate/FlightAggregateOption3.kt:54-72 | No sequence of commands changes a cancelled flight. |
| `FlightDecider.IdentifierSetOnce` | src/main/kotlin/com/playground/aggregate/FlightAggregateOption3.kt:43-72 | Under commands for one flight, the state's id stays the starting id or becomes that flight's id. Once a flight is not empty, its id never changes. |
| `Option3.HandleEvent` | src/main/kotlin/com/playground/aggregate/FlightAggregateOption3.kt:103-109 | The first event sets the stream id and is folded into a fresh initial state. Later events never change the stream id. The handler fails exactly when a stream id is set but the state is null. |
| `Option3.ProcessCommand` | src/main/kotlin/com/playground/aggregate/FlightAggregateOption3.kt:91-100 | A null state is replaced by the initial state before deciding. A refused command applies nothing. An accepted one publishes exactly the decided events, in order, and folds them into the state. |
| `Option3.ApplySnapshot` | src/main/kotlin/com/playground/aggregate/FlightAggregateOption3.kt:111-115 | The stream id and state are copied from the snapshot. Nothing is published. |
| `Option3.ReplayFromNew` | src/main/kotlin/com/playground/aggregate/FlightAggregateOption3.kt:103-109 | Sourcing a new aggregate from a non-empty history names the stream after the first event. The state becomes the fold of the history from the initial state. |
| `Option4.HandleEvent` | src/main/kotlin/com/playground/aggregate/FlightAggregateOption4.kt:33-38 | The aggregate id is taken from the first event only and is never overwritten. The state is evolved by the event. |
| `Option4.ProcessCommand` | src/main/kotlin/com/playground/aggregate/FlightAggregateOption4.kt:24-30 | A refused command applies nothing. An accepted one publishes exactly the events `decide` returns, in order, and nothing else. It folds them into the state. |
| `Option4.Replay` | src/main/kotlin/com/playground/aggregate/FlightAggregateOption4.kt:33-38 | After any sequence of handled events, the state is the fold of those events. An id already set is kept, and an unset id comes from the first event. |
| `Option4.ReplayFromNew` | src/main/kotlin/com/playground/aggregate/FlightAggregateOption4.kt:41-55 | A new aggregate starts empty with a null id. Sourced from a history, it ends at the history's fold from `Empty`, with the first event's id. |
| `Option2.Handle` | src/main/kotlin/com/playground/aggregate/FlightAggregateOption2.kt:20-28 | A refused command applies nothing. An accepted one applies at most one event, and exactly the decided events, in order, folded into the state. |
| `Option2.Replay` | src/main/kotlin/com/playground/aggregate/FlightAggregateOption2.kt:69-73 | Every event overwrites the aggregate id with its own flight id. After any sequence of events, the state is their fold and the id is the most recent event's. |
| `Option1.On` | src/main/kotlin/com/playground/aggregate/Option1.kt.kt:57-61 | The aggregate id becomes the event's flight id. The state becomes `state.evolve(event)`. |
| `Option1.HandleSchedule` | src/main/kotlin/com/playground/aggregate/Option1.kt.kt:26-35 | On an empty flight, one scheduled event is applied and the reply is "Flight scheduled with id: ...". On any other state, nothing changes and the reply ends in " again". |
| `Option1.HandleCancel` | src/main/kotlin/com/playground/aggregate/Option1.kt.kt:37-45 | Cancelling a cancelled flight throws and applies nothing. Otherwise one cancelled event with the command's reason is applied. |
| `Option1.HandleDelay` | src/main/kotlin/com/playground/aggregate/Option1.kt.kt:47-55 | Delaying a cancelled flight throws and applies nothing. Otherwise one delayed event with the command's reason is applied. |
| `Option1.AgreesWithDecider` | src/main/kotlin/com/playground/aggregate/Option1.kt.kt:26-55 | For every state and command, the handlers refuse exactly what `Decide` refuses, with the same error. Otherwise they apply exactly the events `Decide` returns. |
| `ScheduleOnce.On` | src/main/kotlin/com/playground/Application.kt:128-132 | The event-sourcing handler sets the aggregate id to the event's flight id. |
| `ScheduleOnce.Handle` | src/main/kotlin/com/playground/Application.kt:116-126 | With a null id, exactly one `FlightScheduledEvent(command.id)` is applied. With an id already set, nothing changes and the reply ends in " again". |
| `ScheduleOnce.ScheduledOnce` | src/main/kotlin/com/playground/Application.kt:111-133 | However many schedule commands a new aggregate receives, exactly one event is published in total, for the first command. |
| `ScheduleOnce.ScheduleTwice` | src/main/kotlin/com/playground/Application.kt:136-156 | Sending the same command twice publishes one event. The second reply is the "again" message. |
| `Decimal.ParseShow` | src/main/kotlin/com/playground/FlightController.kt:40 | Reading back the decimal text of a number gives that number. |
| `Decimal.ShowFourDigits` | src/main/kotlin/com/playground/FlightController.kt:40 | A number in [1000, 10000) is written with four digits. |
| `Controller.RandomFlightNumber` | src/main/kotlin/com/playground/FlightController.kt:40 | A generated flight number is "FL" followed by four digits that read back as the drawn number, which lies in [1000, 9999). |
| `Controller.FirstOtherAirport` | src/main/kotlin/com/playground/FlightController.kt:89 | Gives the first airport in the list that differs from the origin. |
| `Controller.DefaultDestination` | src/main/kotlin/com/playground/FlightController.kt:88-90 | A defaulted destination is an airport from the list, always different from the origin. It is the drawn airport whenever that one differs. |
| `Controller.ScheduleFlight` | src/main/kotlin/com/playground/FlightController.kt:85-108 | Request fields that are present are used unchanged. Missing ones are generated: a UUID, airports, and a valid flight number, with the destination different from the origin. The response has status "SCHEDULED" and the dispatched command's four fields. |
| `Controller.ScheduleFlightAccepted` | src/main/kotlin/com/playground/FlightController.kt:99-107 | No flight state refuses the dispatched schedule command, so the request always gets its "SCHEDULED" response. |
| `Controller.DelayCommand` | src/main/kotlin/com/playground/FlightController.kt:114-118 | The delay command carries the path's flight id, and the request's reason when present, otherwise one of the delay reasons. |
| `Controller.DelayFlight` | src/main/kotlin/com/playground/FlightController.kt:113-124 | The request fails with "Flight already cancelled" and no response exactly when the target flight is cancelled. Otherwise the command's reason is the request's when present, or one of the delay reasons, and the response lists exactly that one reason. |
| `Controller.CancelCommand` | src/main/kotlin/com/playground/FlightController.kt:130-134 | The cancel command carries the path's flight id, and the request's reason when present, otherwise one of the cancel reasons. |
| `Controller.CancelFlight` | src/main/kotlin/com/playground/FlightController.kt:129-140 | The request fails with "Flight already cancelled" and no response exactly when the target flight is cancelled. Otherwise the command's reason is the request's when present, or one of the cancel reasons, and the response's `cancelReason` is that reason. |

## Left out

- Axon and Micronaut wiring, which only configures the framework: bean factories, aggregate factories, the command dispatcher, transaction managers, connection providers and dead-letter queues.
- Projections, query handlers, the projections controller and the saga. They are SQL against Postgres, asynchronous segment management, or a saga whose event types do not match the domain.
- Sending commands and answering queries. The controller operations return the command they send. The target flight's state is an input, standing for the aggregate that `sendAndWait` reaches. A refusal propagates as a failure with no response, as `sendAndWait` rethrows it. The string the gateway returns on success is ignored, as in the code.
- `Random`, `UUID.randomUUID()` and `System.currentTimeMillis()` are inputs, not modelled sources of randomness or time. Kotlin's `Long` timestamp is an unbounded `int`, because it is only stored, never computed with.
- The `String` results of `processCommand` and `handle` in Option2, Option3 and Option4 are `events.toString()`. They are not modelled: the published events themselves are the result.
- The `println` calls in `FlightAggregate`/`FlightAggregate2`, the Jackson annotations on `FlightState`, and the injected `Thing` in `Option1.kt`.
- Axon's creation policies (`CREATE_IF_MISSING`, `NEVER`) and the loading of an aggregate by its target id are framework behaviour. Every operation takes the aggregate as given.
- When a handler throws, the unit of work is rolled back. Refused commands are modelled as returning the failure without an aggregate. No modelled handler applies an event before it throws.
- `FlightDecider.ScheduledEventFor`: does not claim which command field fills the event's `flightNumber`, `origin` and `destination`, because the three-argument call against a four-field constructor leaves the mapping unspecified.
- `FlightDecider.StreamId` and `Flight.FromEvent` are one-line accessors, covered through `Option3.HandleEvent` and `Flight.EvolveFirstDelay`. The `handle`/`on` overrides of `FlightAggregateOption3` and `FlightAggregateOption4` only delegate to `processCommand`/`handleEvent`.
