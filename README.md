# Seat inventory of a flight-booking server, in Dafny

This project models the sequential core of a remote seat-booking server:
the seat inventory of one flight (`Flight`) and the decision logic of the
booking service on top of it (`SeatManagerServiceImpl`). Locks, remote
calls and notifications are not part of the model; every call runs alone.

A flight holds an array of rows (each a category and a sequence of seat
slots), a counter of free seats per category (`int[3]`, indexed by the
category ordinal: business 0, premium economy 1, economy 2) and a map from
passenger to ticket. The model keeps that shape:

- `wrappers.dfy` — `Option`, `Result` and `Outcome`, standing for Java's
  `null` and for the exceptions the server throws.
- `seating.dfy` (module `Seating`) — row categories, rows, tickets, seats,
  the error kinds, and the slot operations of a row.
- `flight_spec.dfy` (module `FlightSpec`) — a flight's state as a value
  (`View`), the flight invariant, each seat transition as a function of the
  old state, lemmas proving every transition keeps the invariant, and the
  initial layout the constructor builds.
- `flight.dfy` (module `Flights`) — class `Flight`, with `const` arrays
  `rows` and `availableSeats` and a `tickets` map field. Each method updates
  them in place and is proved to perform exactly the `FlightSpec`
  transition and to keep the invariant.
- `seat_manager.dfy` (module `SeatManager`) — the store of flights as a
  registry (code to state, and per state the flights by code), the two
  lookup gates, and the service operations.

The flight invariant (`FlightSpec.Valid`) is:

1. free seats plus occupied seats equal the capacity, for each category;
2. a ticket holds a seat exactly when that seat's slot holds its passenger
   (both directions);
3. nobody sits in a row of a category less premium than the one they bought
   (row ordinal at most ticket ordinal);
4. rows are grouped by category, most premium first, and each ticket is
   filed under its own passenger.

The constructor establishes it. `assignSeat`, `changeSeat` and the source
side of `changeFlight` keep it. The target side of `changeFlight` keeps it
exactly when the passenger holds no seated ticket on the target flight
(`FlightSpec.ReceiveValid`, both directions). If the passenger already holds
a seated ticket there, that ticket is overwritten by the unseated one. Its
old slot stays occupied while no ticket points at it any more.

Across the store, the service keeps a second invariant,
`SeatManager.OneTicketEach`: a passenger holds a ticket on at most one
flight. When it holds before `changeFlight`, it holds afterwards, and then
every flight of the store is still valid. It rules out the overwrite above.

In these places the model follows the code:

- Both lookup gates fail with `IllegalFlightStateException`. The pending gate
  fails that way for any code that is not pending, unknown codes included.
  There is no separate "not pending" or "confirmed" error.
- `changeSeat` on an unseated ticket has no explicit check. It fails on a null
  row (`NullPointer`) after the target has been validated. In the service,
  `changeSeat` and `listAlternativeFlights` read the ticket of an unknown
  passenger right after the flight lookup and fail on the null ticket.
  `changeFlight` does so after both lookups.
- `listAlternativeFlights` does not drop flights with no free seats. A
  candidate is listed exactly when the ticket category is not business. The
  source flight is listed too when it is pending.
- `getAvailableCategory` scans ordinals from the given category down to 0
  inclusive.

## Model

| member | source | states |
|---|---|---|
| Seating.CategoryAt | server/src/main/java/ar/edu/itba/pod/server/service/SeatManagerServiceImpl.java:155-157 | `RowCategory.values()[i]` is the category whose ordinal is `i` |
| Seating.CheckValidRow | server/src/main/java/ar/edu/itba/pod/server/models/Flight.java:125-129 | passes exactly when `0 <= row < rows.length`, otherwise fails `IllegalRow(row)` |
| Seating.CheckValidSeat | server/src/main/java/ar/edu/itba/pod/server/models/Flight.java:100-101 | passes exactly when the column names a seat of the row, otherwise fails `InvalidSeat` |
| Seating.IsAvailable | server/src/main/java/ar/edu/itba/pod/server/models/Flight.java:102-103 | an unknown column fails `InvalidSeat`; otherwise the answer is true exactly when the slot is empty |
| Seating.AssignSeat | server/src/main/java/ar/edu/itba/pod/server/models/Flight.java:119-120 | the chosen slot holds the passenger; every other slot, the category and the width are unchanged |
| Seating.RemovePassenger | server/src/main/java/ar/edu/itba/pod/server/models/Flight.java:135 | every slot holding the passenger is emptied, every other slot is unchanged |
| FlightSpec.SeatPassengerValid | server/src/main/java/ar/edu/itba/pod/server/models/Flight.java:118-123 | seating an unseated passenger in a free seat of an allowed row keeps the whole invariant |
| FlightSpec.VacateValid | server/src/main/java/ar/edu/itba/pod/server/models/Flight.java:158-161 | freeing the seat keeps the invariant, leaves the ticket unseated and gives the row's category one seat back |
| FlightSpec.VacateFreesPassenger | server/src/main/java/ar/edu/itba/pod/server/models/Flight.java:135 | after vacating, no slot of any row holds the passenger |
| FlightSpec.AssignSeatValid | server/src/main/java/ar/edu/itba/pod/server/models/Flight.java:95-116 | succeeds exactly when the ticket exists, row and seat are valid, the seat is free, the passenger is unseated and the row is allowed; then the slot holds the passenger, the ticket holds the seat, the row's category counter drops by 1 and the other two are unchanged, and the invariant holds |
| FlightSpec.ChangeSeatValid | server/src/main/java/ar/edu/itba/pod/server/models/Flight.java:143-163 | succeeds exactly when the ticket exists, the row and seat are valid, the seat is free, the passenger is seated and the row is allowed; on success the invariant holds, the old slot is free, the new one holds the passenger, the old category's counter rises by 1 and the new one's drops by 1 (unchanged when both share a category) |
| FlightSpec.ChangeSeatToOwnSeat | server/src/main/java/ar/edu/itba/pod/server/models/Flight.java:150-151 | moving a passenger to their own current seat fails `SeatAlreadyTaken` |
| FlightSpec.ReleaseValid | server/src/main/java/ar/edu/itba/pod/server/models/Flight.java:132-138 | the source side of `changeFlight` keeps the invariant, drops the ticket, frees its seat and gives that category one seat back |
| FlightSpec.ReceiveValid | server/src/main/java/ar/edu/itba/pod/server/models/Flight.java:140 | filing the unseated ticket keeps the target's invariant exactly when the passenger held no seated ticket there |
| FlightSpec.TicketMap | server/src/main/java/ar/edu/itba/pod/server/models/Flight.java:38 | the map holds each ticket of the list under its own passenger and nothing else |
| FlightSpec.LayoutRanges | server/src/main/java/ar/edu/itba/pod/server/models/Flight.java:44-58 | rows `[0, b)` are business, `[b, b + p)` premium economy, the rest economy, all empty |
| FlightSpec.InitialValid | server/src/main/java/ar/edu/itba/pod/server/models/Flight.java:35-63 | the initial flight has `b + p + e` rows and satisfies the invariant; each category's capacity is row count times seats per row, with no seat occupied |
| Flights.Flight.constructor | server/src/main/java/ar/edu/itba/pod/server/models/Flight.java:35-63 | the three loops lay out the rows and the counters hold each category's capacity; the flight starts valid |
| Flights.Flight.GetTicket | server/src/main/java/ar/edu/itba/pod/server/models/Flight.java:189-196 | the ticket filed under the passenger, which names that passenger, or none exactly when there is no ticket |
| Flights.Flight.CheckSeat | server/src/main/java/ar/edu/itba/pod/server/models/Flight.java:85-93 | the row is checked before the seat; on success, true exactly when the slot is empty |
| Flights.Flight.SeatPassenger | server/src/main/java/ar/edu/itba/pod/server/models/Flight.java:118-123 | the new state is the seating transition of the old one |
| Flights.Flight.AssignSeat | server/src/main/java/ar/edu/itba/pod/server/models/Flight.java:95-116 | on failure the error is the first failing check and nothing changes; on success the state is the assign transition; the invariant is kept |
| Flights.Flight.ChangeSeat | server/src/main/java/ar/edu/itba/pod/server/models/Flight.java:143-163 | on failure nothing changes; an unseated passenger fails on the null row after the target checks; on success the state is vacate then seat; the invariant is kept |
| Flights.Flight.ReleaseTicket | server/src/main/java/ar/edu/itba/pod/server/models/Flight.java:132-138 | the ticket is removed, its seat freed and counted back, and the unseated ticket is returned; the invariant is kept |
| Flights.Flight.ChangeFlight | server/src/main/java/ar/edu/itba/pod/server/models/Flight.java:131-141 | this flight loses the ticket and keeps the invariant; the other flight files the same ticket, unseated, under the passenger and stays valid exactly when the passenger held no seated ticket there |
| Flights.Flight.GetAvailableByCategory | server/src/main/java/ar/edu/itba/pod/server/models/Flight.java:165-174 | the counter read is the category's free seats: capacity minus occupied seats |
| Flights.Flight.GetAvailableCategory | server/src/main/java/ar/edu/itba/pod/server/models/Flight.java:176-187 | the largest ordinal at most the category's whose counter is positive, or -1 when there is none |
| SeatManager.Registry.GetPendingFlight | server/src/main/java/ar/edu/itba/pod/server/service/SeatManagerServiceImpl.java:29-39 | the pending flight under the code, or `IllegalFlightState` exactly when the code is not pending |
| SeatManager.Registry.GetNonConfirmedFlight | server/src/main/java/ar/edu/itba/pod/server/service/SeatManagerServiceImpl.java:41-57 | `FlightNotFound` exactly for an unknown code, `IllegalFlightState` exactly for a confirmed one, success exactly otherwise, with the flight from the map of its state |
| SeatManager.PendingIsNonConfirmed | server/src/main/java/ar/edu/itba/pod/server/service/SeatManagerServiceImpl.java:29-57 | a flight that passes the pending gate passes the non-confirmed gate as the same flight |
| SeatManager.ConfirmedIsRejected | server/src/main/java/ar/edu/itba/pod/server/service/SeatManagerServiceImpl.java:29-47 | a confirmed flight fails both gates with `IllegalFlightState` |
| SeatManager.IsAvailable | server/src/main/java/ar/edu/itba/pod/server/service/SeatManagerServiceImpl.java:59-68 | fails `IllegalFlightState` off the pending map, otherwise exactly `checkSeat` |
| SeatManager.Assign | server/src/main/java/ar/edu/itba/pod/server/service/SeatManagerServiceImpl.java:70-78 | fails `IllegalFlightState` off the pending map, otherwise exactly the flight's `assignSeat` |
| SeatManager.ChangeSeat | server/src/main/java/ar/edu/itba/pod/server/service/SeatManagerServiceImpl.java:95-108 | fails off the pending map; a passenger without a ticket fails on the null ticket; otherwise exactly the flight's `changeSeat`; failures change nothing |
| SeatManager.AvailabilityKeys | server/src/main/java/ar/edu/itba/pod/server/service/SeatManagerServiceImpl.java:153-159 | the map's keys are the categories of ordinal 1 up to the ticket's, each mapped to its counter; business never appears |
| SeatManager.AlternativesListed | server/src/main/java/ar/edu/itba/pod/server/service/SeatManagerServiceImpl.java:162-163 | every candidate is listed, zero availability included, exactly when the ticket is not business |
| SeatManager.CollectAvailability | server/src/main/java/ar/edu/itba/pod/server/service/SeatManagerServiceImpl.java:153-159 | the descending loop builds exactly the availability map of the candidate |
| SeatManager.AlternativesInsert | server/src/main/java/ar/edu/itba/pod/server/service/SeatManagerServiceImpl.java:151-164 | one more candidate adds its own entry, unless the ticket is business, and nothing else |
| SeatManager.CollectEntry | server/src/main/java/ar/edu/itba/pod/server/service/SeatManagerServiceImpl.java:152-163 | one pass of the `forEach` yields the candidate's entry, with its code, the destination and its availability map, exactly when the ticket is not business |
| SeatManager.CollectedStep | server/src/main/java/ar/edu/itba/pod/server/service/SeatManagerServiceImpl.java:151-164 | adding one candidate's entry, if any, keeps the list equal to the entries of the candidates seen so far, one per candidate |
| SeatManager.CollectAlternatives | server/src/main/java/ar/edu/itba/pod/server/service/SeatManagerServiceImpl.java:149-164 | the list holds exactly the entries of the candidates with a non-empty map; it has one entry per candidate, or none for a business ticket |
| SeatManager.ListAlternativeFlights | server/src/main/java/ar/edu/itba/pod/server/service/SeatManagerServiceImpl.java:129-167 | gate failures pass through, a passenger without a ticket fails on the null ticket, otherwise the entries are exactly those of the same-destination pending flights, one per flight, or none for a business ticket |
| SeatManager.ChangeFlightGate | server/src/main/java/ar/edu/itba/pod/server/service/SeatManagerServiceImpl.java:170-177 | passes exactly when the old flight is not confirmed, the new one is pending, the passenger holds a ticket and the new flight reports seats for its category; an old-flight failure passes through; a new flight that is not pending fails `IllegalFlightState`; a missing ticket fails `NullPointer`; `NoAvailableSeats` exactly when the report is 0 |
| SeatManager.StoreKept | server/src/main/java/ar/edu/itba/pod/server/service/SeatManagerServiceImpl.java:178 | moving one passenger from one flight to another, all other flights untouched, keeps one ticket per passenger across the store |
| SeatManager.Transfer | server/src/main/java/ar/edu/itba/pod/server/service/SeatManagerServiceImpl.java:178 | the two flights change as the flight's `changeFlight` says; every other flight keeps its passengers and stays valid; the passenger leaves the old flight's passengers and joins the new one's |
| SeatManager.TransferInStore | server/src/main/java/ar/edu/itba/pod/server/service/SeatManagerServiceImpl.java:178 | the flight's `changeFlight` inside the store keeps one ticket per passenger and every flight valid, when every passenger held at most one ticket before |
| SeatManager.ChangeFlight | server/src/main/java/ar/edu/itba/pod/server/service/SeatManagerServiceImpl.java:169-186 | any failed check changes no flight; otherwise the effect is exactly the old flight's `changeFlight` onto the new one, and one ticket per passenger with every flight valid is kept |

## Left out

- Locks and `synchronized` blocks: the model is sequential, so lock order, deadlock freedom and unlock-in-finally paths are not captured. This includes the locks `listAlternativeFlights` leaves held when it fails on a null ticket.
- Notifications (`syncNotify`, `submitNotificationTask`, `changeTicketsNotification`) and logging: they are asynchronous delivery and output, and they do not affect seat state.
- The client, the notification service and the API data holders are not part of this model; they are I/O plumbing or plain records.
- `Flight.state`, `setState` and the getters for code, destination, rows and locks: the registry's state map stands for the flight's state.
- `Row`, `Ticket`, `PlaneModel` and the store are not shown in the source, so they are modelled abstractly. The column of letter `col` is taken to be `col - 'A'`. `isAvailable` on an unknown column is taken to fail like `checkValidSeat`.
- `getAllAvailableByCategory` is not shown in the source. `SeatManager.ChangeFlight` and `SeatManager.ChangeFlightGate` take it as a parameter over the new flight's counters and say nothing about its value.
- SeatManager.ListAlternativeFlights: the order of the returned list is not modelled (the candidates come from a hash map); the result is stated as a set of entries.
- Flights.Flight.ChangeFlight: tickets are values, so the Java aliasing of one `Ticket` object between the service and the flight is not captured. The moved ticket is stated by value.
- Flights.Flight.constructor: requires distinct passengers (Java's `toMap` throws on a duplicate key) and unseated tickets (the seed data's tickets carry no seat). A negative row count makes the Java constructor throw; natural-number counts exclude it.
- Flights.Flight.SeatPassenger: counters are unbounded integers; Java's 32-bit `int` overflow, unreachable with real plane sizes, is not modelled.
- Null-pointer failures are a single `NullPointer` error with no state change; the model does not tell apart which reference was null.
- SeatManager.FlightState: the Java enum is not shown, and the code names only `PENDING` and `CONFIRMED`. The model adds a third state, `Cancelled`, as an assumption. Its flights pass the non-confirmed gate and fail the pending gate, like any state other than the two the code names.
- The store is not shown in the source. `SeatManager.Registry.Consistent` assumes its state map and its per-state maps agree. `SeatManager.Registry.Separate` assumes distinct flights share no arrays. `store.getPendingFlights()` is taken to be the map of flights in the pending state.
- SeatManager.ChangeFlight: keeping one ticket per passenger is proved only when it held before the call. The service itself does not check it. A passenger holding tickets on both flights keeps the overwrite described above.
