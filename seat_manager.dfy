/**
 * The booking service (`SeatManagerServiceImpl`) over the server's store of
 * flights. Locks are not modelled (every call runs alone) and neither are
 * the notifications sent after a change.
 */
module SeatManager {
  import opened Wrappers
  import opened Seating
  import opened FlightSpec
  import opened Flights

  /** A flight's lifecycle state; only pending flights can be booked. */
  datatype FlightState = Pending | Confirmed | Cancelled

  /** One entry of `listAlternativeFlights`: a flight, its destination and free seats per category. */
  datatype AlternativeFlight = AlternativeFlight(code: string, destination: string, availableSeats: map<RowCategory, int>)

  /**
   * The server's store: each flight code's state, and for each state the
   * flights in it by code.
   */
  datatype Registry = Registry(flightCodes: map<string, FlightState>, flightsByState: map<FlightState, map<string, Flight>>) {

    function FlightsByState(s: FlightState): map<string, Flight> {
      if s in flightsByState then flightsByState[s] else map[]
    }

    function PendingFlights(): map<string, Flight> {
      FlightsByState(Pending)
    }

    function AllFlights(): set<Flight> {
      FlightsByState(Pending).Values + FlightsByState(Confirmed).Values + FlightsByState(Cancelled).Values
    }

    /**
     * The store's bookkeeping: a code's state names the map that holds it,
     * every filed flight's code is recorded with that state, under its own code.
     */
    predicate Consistent() {
      && (forall code | code in flightCodes :: code in FlightsByState(flightCodes[code]))
      && (forall s, code | code in FlightsByState(s) :: code in flightCodes && flightCodes[code] == s)
      && (forall s, code | code in FlightsByState(s) :: FlightsByState(s)[code].code == code)
    }

    /** Distinct flights keep their state in distinct objects (each constructor allocates its own arrays). */
    predicate Separate() {
      forall f, g | f in AllFlights() && g in AllFlights() && f != g :: f.Footprint() !! g.Footprint()
    }

    /** `getPendingFlight`: a flight absent from the pending map is in an illegal state. */
    function GetPendingFlight(code: string): (r: Result<Flight, Error>)
      ensures r.Success? <==> code in PendingFlights()
      ensures r.Success? ==> r.value == PendingFlights()[code]
      ensures r.Failure? ==> r.error == IllegalFlightState
    {
      if code in PendingFlights() then Success(PendingFlights()[code]) else Failure(IllegalFlightState)
    }

    /**
     * `getNonConfirmedFlight`: an unknown code is not found, a confirmed
     * flight is in an illegal state; otherwise the flight is taken from the
     * map of its current state.
     */
    function GetNonConfirmedFlight(code: string): (r: Result<Flight, Error>)
      requires Consistent()
      ensures r == Failure(FlightNotFound) <==> code !in flightCodes
      ensures r == Failure(IllegalFlightState) <==> code in flightCodes && flightCodes[code] == Confirmed
      ensures r.Success? <==> code in flightCodes && flightCodes[code] != Confirmed
      ensures r.Success? ==>
        && code in flightCodes && flightCodes[code] != Confirmed
        && r.value in AllFlights() && r.value.code == code
        && r.value == FlightsByState(flightCodes[code])[code]
    {
      if code !in flightCodes then Failure(FlightNotFound)
      else
        var state := flightCodes[code];
        if state == Confirmed then Failure(IllegalFlightState)
        else Success(FlightsByState(state)[code])
    }

    function PendingFootprint(code: string): set<object> {
      if code in PendingFlights() then PendingFlights()[code].Footprint() else {}
    }

    function NonConfirmedFootprint(code: string): set<object>
      requires Consistent()
    {
      var r := GetNonConfirmedFlight(code);
      if r.Success? then r.value.Footprint() else {}
    }
  }

  /** In a consistent store, a flight that passes the pending gate passes the non-confirmed gate as the same flight. */
  lemma PendingIsNonConfirmed(reg: Registry, code: string)
    requires reg.Consistent() && reg.GetPendingFlight(code).Success?
    ensures reg.GetNonConfirmedFlight(code) == reg.GetPendingFlight(code)
  {
    assert code in reg.FlightsByState(Pending);
  }

  /** A confirmed flight fails both gates with an illegal state, so no booking operation reaches it. */
  lemma ConfirmedIsRejected(reg: Registry, code: string)
    requires reg.Consistent() && code in reg.flightCodes && reg.flightCodes[code] == Confirmed
    ensures reg.GetPendingFlight(code) == Failure(IllegalFlightState)
    ensures reg.GetNonConfirmedFlight(code) == Failure(IllegalFlightState)
  {
  }

  // ---------------------------------------------------------------------------
  // Seat operations on a pending flight

  /** `isAvailable`: on a pending flight, exactly `checkSeat`. */
  method IsAvailable(reg: Registry, code: string, row: int, seat: char) returns (r: Result<bool, Error>)
    ensures code !in reg.PendingFlights() ==> r == Failure(IllegalFlightState)
    ensures code in reg.PendingFlights() ==> r == reg.PendingFlights()[code].CheckSeat(row, seat)
  {
    var lookup := reg.GetPendingFlight(code);
    if lookup.Failure? {
      return Failure(lookup.error);
    }
    r := lookup.value.CheckSeat(row, seat);
  }

  /** `assign`: on a pending flight, exactly `Flight.assignSeat`; elsewhere nothing changes. */
  method Assign(reg: Registry, code: string, passenger: string, row: int, seat: char) returns (o: Outcome<Error>)
    requires code in reg.PendingFlights() ==> reg.PendingFlights()[code].Valid()
    modifies reg.PendingFootprint(code)
    ensures code !in reg.PendingFlights() ==> o == Fail(IllegalFlightState)
    ensures code in reg.PendingFlights() ==>
      var f := reg.PendingFlights()[code];
      var res := FlightSpec.AssignSeat(old(f.Snapshot()), row, seat, passenger);
      && f.Valid()
      && (res.Failure? ==> o == Fail(res.error) && f.Snapshot() == old(f.Snapshot()))
      && (res.Success? ==> o == Pass && f.Snapshot() == res.value)
  {
    var lookup := reg.GetPendingFlight(code);
    if lookup.Failure? {
      return Fail(lookup.error);
    }
    o := lookup.value.AssignSeat(row, seat, passenger);
  }

  /**
   * `changeSeat`: on a pending flight, the passenger's ticket is read first,
   * so a passenger without a ticket fails on the null ticket before the
   * flight is asked; otherwise exactly `Flight.changeSeat`. Whenever it
   * fails, nothing changes.
   */
  method ChangeSeat(reg: Registry, code: string, passenger: string, freeRow: int, freeSeat: char) returns (o: Outcome<Error>)
    requires code in reg.PendingFlights() ==> reg.PendingFlights()[code].Valid()
    modifies reg.PendingFootprint(code)
    ensures code !in reg.PendingFlights() ==> o == Fail(IllegalFlightState)
    ensures code in reg.PendingFlights() ==>
      var f := reg.PendingFlights()[code];
      var res := FlightSpec.ChangeSeat(old(f.Snapshot()), freeRow, freeSeat, passenger);
      && f.Valid()
      && (passenger !in old(f.tickets) ==> o == Fail(NullPointer) && f.Snapshot() == old(f.Snapshot()))
      && (passenger in old(f.tickets) && res.Failure? ==> o == Fail(res.error) && f.Snapshot() == old(f.Snapshot()))
      && (passenger in old(f.tickets) && res.Success? ==> o == Pass && f.Snapshot() == res.value)
  {
    var lookup := reg.GetPendingFlight(code);
    if lookup.Failure? {
      return Fail(lookup.error);
    }
    var flight := lookup.value;
    var ticket := flight.GetTicket(passenger);
    if ticket.None? {
      return Fail(NullPointer);
    }
    o := flight.ChangeSeat(freeRow, freeSeat, passenger);
  }

  // ---------------------------------------------------------------------------
  // Alternative flights

  /**
   * The per-category map built for one candidate: every category of ordinal
   * 1 up to the ticket's, mapped to the candidate's counter for it.
   */
  function Availability(available: seq<int>, c: RowCategory): map<RowCategory, int>
    requires |available| == 3
  {
    map k | k in ALL_CATEGORIES && 1 <= k.Ordinal() <= c.Ordinal() :: available[k.Ordinal()]
  }

  /**
   * The map's keys are exactly the categories of ordinal 1 to the ticket's,
   * never business; so it is empty exactly when the ticket is business,
   * whatever the counters say.
   */
  lemma AvailabilityKeys(available: seq<int>, c: RowCategory)
    requires |available| == 3
    ensures forall k :: k in Availability(available, c) <==> 1 <= k.Ordinal() <= c.Ordinal()
    ensures forall k | k in Availability(available, c) :: Availability(available, c)[k] == available[k.Ordinal()]
    ensures Business !in Availability(available, c)
    ensures |Availability(available, c)| > 0 <==> c != Business
  {
    var m := Availability(available, c);
    if c != Business {
      assert PremiumEconomy in m;
    } else {
      assert m == map[];
    }
  }

  /** The pending flights that fly to `destination` (the stream filter of `listAlternativeFlights`). */
  function SameDestination(pending: map<string, Flight>, destination: string): (r: set<Flight>)
    ensures r <= pending.Values
  {
    set f | f in pending.Values && f.destination == destination
  }

  /** The entries `listAlternativeFlights` returns for `candidates`: one per candidate whose map is not empty. */
  ghost function Alternatives(candidates: set<Flight>, destination: string, c: RowCategory): set<AlternativeFlight>
    reads set f | f in candidates :: f.availableSeats
  {
    set f | f in candidates && f.availableSeats.Length == 3 && |Availability(f.availableSeats[..], c)| > 0 ::
      AlternativeFlight(f.code, destination, Availability(f.availableSeats[..], c))
  }

  /**
   * Every candidate is listed, zero availability included, exactly when the
   * ticket is not business; a business ticket gets an empty list.
   */
  lemma AlternativesListed(candidates: set<Flight>, destination: string, c: RowCategory)
    requires forall f | f in candidates :: f.availableSeats.Length == 3
    ensures forall f | f in candidates ::
      (AlternativeFlight(f.code, destination, Availability(f.availableSeats[..], c)) in Alternatives(candidates, destination, c))
        <==> c != Business
    ensures c == Business ==> Alternatives(candidates, destination, c) == {}
  {
    forall f | f in candidates {
      AvailabilityKeys(f.availableSeats[..], c);
    }
  }

  /** Adding one candidate adds its entry, when the ticket is not business, and nothing else. */
  lemma AlternativesInsert(done: set<Flight>, f: Flight, destination: string, c: RowCategory)
    requires f.availableSeats.Length == 3
    ensures var entry := AlternativeFlight(f.code, destination, Availability(f.availableSeats[..], c));
      Alternatives(done + {f}, destination, c)
        == Alternatives(done, destination, c) + (if c != Business then {entry} else {})
  {
    AvailabilityKeys(f.availableSeats[..], c);
  }

  /** The descending loop of `listAlternativeFlights` that reads one candidate's counters into a map. */
  method CollectAvailability(alternative: Flight, category: RowCategory) returns (m: map<RowCategory, int>)
    requires alternative.Valid()
    ensures m == Availability(alternative.availableSeats[..], category)
  {
    m := map[];
    var i := category.Ordinal();
    while i >= 0
      invariant -1 <= i <= category.Ordinal()
      invariant m == map k | k in ALL_CATEGORIES && 1 <= k.Ordinal() && i < k.Ordinal() <= category.Ordinal() ::
                       alternative.availableSeats[k.Ordinal()]
    {
      var available := alternative.GetAvailableByCategory(CategoryAt(i));
      if i > 0 {
        m := m[CategoryAt(i) := available];
      }
      i := i - 1;
    }
  }

  /** Moving one element from `remaining` to `done` keeps the two a partition of `all`. */
  lemma MoveOne<T>(done: set<T>, remaining: set<T>, all: set<T>, x: T)
    requires done !! remaining && done + remaining == all && x in remaining
    ensures (done + {x}) !! (remaining - {x}) && (done + {x}) + (remaining - {x}) == all
    ensures |done + {x}| == |done| + 1
  {
  }

  /**
   * One pass of the `forEach` of `listAlternativeFlights`: the candidate's
   * entry, present exactly when its map is not empty, that is, when the
   * ticket is not business.
   */
  method CollectEntry(alternative: Flight, destination: string, category: RowCategory)
    returns (entry: Option<AlternativeFlight>)
    requires alternative.Valid()
    ensures entry.Some? <==> category != Business
    ensures entry.Some? ==>
      entry.value == AlternativeFlight(alternative.code, destination, Availability(alternative.availableSeats[..], category))
  {
    var availableSeats := CollectAvailability(alternative, category);
    AvailabilityKeys(alternative.availableSeats[..], category);
    if |availableSeats| > 0 {
      return Some(AlternativeFlight(alternative.code, destination, availableSeats));
    }
    return None;
  }

  /**
   * The loop invariant of `CollectAlternatives`: the candidates split into
   * `done` and `remaining`, and `toReturn` holds one entry per candidate in
   * `done`, exactly the entries of `Alternatives(done, ...)`.
   */
  ghost predicate Collected(candidates: set<Flight>, done: set<Flight>, remaining: set<Flight>,
                            toReturn: seq<AlternativeFlight>, destination: string, category: RowCategory)
    reads set f | f in done :: f.availableSeats
  {
    && done !! remaining && done + remaining == candidates
    && (forall a :: a in toReturn <==> a in Alternatives(done, destination, category))
    && |toReturn| == if category == Business then 0 else |done|
  }

  /** Appending one candidate's entry (if any) and moving it to `done` keeps `Collected`. */
  lemma CollectedStep(candidates: set<Flight>, done: set<Flight>, remaining: set<Flight>,
                      toReturn: seq<AlternativeFlight>, destination: string, category: RowCategory,
                      x: Flight, entry: Option<AlternativeFlight>)
    requires Collected(candidates, done, remaining, toReturn, destination, category)
    requires x in remaining && x.availableSeats.Length == 3
    requires entry.Some? <==> category != Business
    requires entry.Some? ==>
      entry.value == AlternativeFlight(x.code, destination, Availability(x.availableSeats[..], category))
    ensures Collected(candidates, done + {x}, remaining - {x},
                      if entry.Some? then toReturn + [entry.value] else toReturn, destination, category)
  {
    AlternativesInsert(done, x, destination, category);
    MoveOne(done, remaining, candidates, x);
  }

  /** The `forEach` of `listAlternativeFlights`: one entry per candidate whose availability map is not empty. */
  method CollectAlternatives(candidates: set<Flight>, destination: string, category: RowCategory)
    returns (toReturn: seq<AlternativeFlight>)
    requires forall f | f in candidates :: f.Valid()
    ensures forall a :: a in toReturn <==> a in Alternatives(candidates, destination, category)
    ensures |toReturn| == if category == Business then 0 else |candidates|
  {
    toReturn := [];
    var remaining := candidates;
    ghost var done: set<Flight> := {};
    assert Alternatives(done, destination, category) == {};
    while remaining != {}
      invariant Collected(candidates, done, remaining, toReturn, destination, category)
      decreases remaining
    {
      var alternative :| alternative in remaining;
      var entry := CollectEntry(alternative, destination, category);
      CollectedStep(candidates, done, remaining, toReturn, destination, category, alternative, entry);
      toReturn := if entry.Some? then toReturn + [entry.value] else toReturn;
      done := done + {alternative};
      remaining := remaining - {alternative};
    }
    assert done == candidates;
  }

  /**
   * `listAlternativeFlights`: the source flight must not be confirmed and
   * must hold the passenger's ticket; the answer lists every pending flight
   * to the same destination (the source flight included) whose availability
   * map is not empty. The order of the list is not modelled.
   */
  method ListAlternativeFlights(reg: Registry, code: string, passenger: string)
    returns (r: Result<seq<AlternativeFlight>, Error>)
    requires reg.Consistent()
    requires forall f | f in reg.AllFlights() :: f.Valid()
    ensures reg.GetNonConfirmedFlight(code).Failure? ==> r == Failure(reg.GetNonConfirmedFlight(code).error)
    ensures reg.GetNonConfirmedFlight(code).Success? ==>
      var flight := reg.GetNonConfirmedFlight(code).value;
      && (passenger !in flight.tickets ==> r == Failure(NullPointer))
      && (passenger in flight.tickets ==>
            && r.Success?
            && (forall a :: a in r.value <==>
                  a in Alternatives(SameDestination(reg.PendingFlights(), flight.destination),
                                    flight.destination, flight.tickets[passenger].category))
            && |r.value| == if flight.tickets[passenger].category == Business then 0
                            else |SameDestination(reg.PendingFlights(), flight.destination)|)
  {
    var lookup := reg.GetNonConfirmedFlight(code);
    if lookup.Failure? {
      return Failure(lookup.error);
    }
    var flight := lookup.value;
    var ticket := flight.GetTicket(passenger);
    if ticket.None? {
      return Failure(NullPointer);
    }
    var category := ticket.value.category;
    var destination := flight.destination;
    var alternativeFlights := SameDestination(reg.PendingFlights(), destination);

    forall f | f in alternativeFlights
      ensures f.Valid()
    {
      assert f in reg.AllFlights();
    }
    var toReturn := CollectAlternatives(alternativeFlights, destination, category);
    r := Success(toReturn);
  }

  // ---------------------------------------------------------------------------
  // Moving a passenger to another flight

  /** The store's ticket invariant: a passenger holds a ticket on at most one flight. */
  ghost predicate OneTicketEach(flights: set<Flight>)
    reads flights
  {
    forall f, g, p | f in flights && g in flights && p in f.tickets && p in g.tickets :: f == g
  }

  /**
   * The checks of `changeFlight`, in order: the old flight must not be
   * confirmed, the new one must be pending, the passenger must hold a ticket
   * on the old flight, and the new flight must report seats for the ticket's
   * category. `allAvailableByCategory` stands for `getAllAvailableByCategory`,
   * whose definition is not part of this model.
   */
  function ChangeFlightGate(reg: Registry, passenger: string, oldCode: string, newCode: string,
                            allAvailableByCategory: (seq<int>, RowCategory) -> int): (r: Result<(Flight, Flight), Error>)
    requires reg.Consistent()
    reads reg.AllFlights(), set f | f in reg.AllFlights() :: f.availableSeats
    ensures r.Success? <==>
      && reg.GetNonConfirmedFlight(oldCode).Success?
      && newCode in reg.PendingFlights()
      && passenger in reg.GetNonConfirmedFlight(oldCode).value.tickets
      && allAvailableByCategory(reg.PendingFlights()[newCode].availableSeats[..],
                                reg.GetNonConfirmedFlight(oldCode).value.tickets[passenger].category) != 0
    ensures r.Success? ==>
      && r.value == (reg.GetNonConfirmedFlight(oldCode).value, reg.PendingFlights()[newCode])
      && r.value.0 in reg.AllFlights() && r.value.1 in reg.AllFlights()
      && passenger in r.value.0.tickets
    ensures reg.GetNonConfirmedFlight(oldCode).Failure? ==> r == Failure(reg.GetNonConfirmedFlight(oldCode).error)
    ensures reg.GetNonConfirmedFlight(oldCode).Success? && newCode !in reg.PendingFlights() ==>
      r == Failure(IllegalFlightState)
    ensures reg.GetNonConfirmedFlight(oldCode).Success? && newCode in reg.PendingFlights()
            && passenger !in reg.GetNonConfirmedFlight(oldCode).value.tickets ==>
      r == Failure(NullPointer)
    ensures r == Failure(NoAvailableSeats) <==>
      && reg.GetNonConfirmedFlight(oldCode).Success? && newCode in reg.PendingFlights()
      && passenger in reg.GetNonConfirmedFlight(oldCode).value.tickets
      && allAvailableByCategory(reg.PendingFlights()[newCode].availableSeats[..],
                                reg.GetNonConfirmedFlight(oldCode).value.tickets[passenger].category) == 0
  {
    var oldLookup := reg.GetNonConfirmedFlight(oldCode);
    if oldLookup.Failure? then Failure(oldLookup.error)
    else
      var newLookup := reg.GetPendingFlight(newCode);
      if newLookup.Failure? then Failure(newLookup.error)
      else
        var oldFlight, newFlight := oldLookup.value, newLookup.value;
        if passenger !in oldFlight.tickets then Failure(NullPointer)
        else if allAvailableByCategory(newFlight.availableSeats[..], oldFlight.tickets[passenger].category) == 0
        then Failure(NoAvailableSeats)
        else
          assert newFlight in reg.PendingFlights().Values;
          Success((oldFlight, newFlight))
  }

  /**
   * Moving passenger `p` from flight `a` to flight `b`, with every other
   * flight's passengers as they were in `before`, keeps one ticket per
   * passenger when `before` had one.
   */
  lemma StoreKept(flights: set<Flight>, before: map<Flight, set<string>>, a: Flight, b: Flight, p: string)
    requires a in flights && b in flights && flights <= before.Keys
    requires forall f, g, q | f in flights && g in flights && q in before[f] && q in before[g] :: f == g
    requires p in before[a]
    requires forall g | g in flights && g != a && g != b :: g.tickets.Keys == before[g]
    requires a != b ==> a.tickets.Keys == before[a] - {p} && b.tickets.Keys == before[b] + {p}
    requires a == b ==> a.tickets.Keys == before[a]
    ensures OneTicketEach(flights)
  {
    forall f, h, q | f in flights && h in flights && q in f.tickets && q in h.tickets
      ensures f == h
    {
      if q == p {
        assert f == b && h == b;
      } else {
        assert q in before[f] && q in before[h];
      }
    }
  }

  /**
   * The call `oldFlight.changeFlight(passenger, newFlight)` seen from the
   * store: the two flights change as `Flight.ChangeFlight` says, every other
   * flight keeps its passengers and stays valid, and, against the passenger
   * sets recorded beforehand in `before`, `passenger` moves from `oldFlight`
   * to `newFlight`.
   */
  method Transfer(flights: set<Flight>, ghost before: map<Flight, set<string>>,
                  oldFlight: Flight, newFlight: Flight, passenger: string)
    requires oldFlight in flights && newFlight in flights
    requires oldFlight.Valid() && newFlight.Valid()
    requires forall f | f in flights :: f.Valid()
    requires forall f | f in flights :: f in before && before[f] == f.tickets.Keys
    requires oldFlight == newFlight || oldFlight.Footprint() !! newFlight.Footprint()
    requires forall g | g in flights && g != oldFlight && g != newFlight ::
      g.Footprint() !! oldFlight.Footprint() + newFlight.Footprint()
    requires passenger in oldFlight.tickets
    modifies oldFlight.Footprint(), newFlight.Footprint()
    ensures newFlight != oldFlight ==>
      && oldFlight.Snapshot() == Release(old(oldFlight.Snapshot()), passenger)
      && newFlight.Snapshot() == Receive(old(newFlight.Snapshot()), passenger, Moved(old(oldFlight.Snapshot()), passenger))
      && (newFlight.Valid() <==> !old(passenger in newFlight.tickets && newFlight.tickets[passenger].IsSeated()))
    ensures newFlight == oldFlight ==>
      oldFlight.Snapshot() == Receive(Release(old(oldFlight.Snapshot()), passenger), passenger,
                                      Moved(old(oldFlight.Snapshot()), passenger))
    ensures oldFlight.Valid()
    ensures newFlight != oldFlight ==>
      oldFlight.tickets.Keys == before[oldFlight] - {passenger} && newFlight.tickets.Keys == before[newFlight] + {passenger}
    ensures newFlight == oldFlight ==> oldFlight.tickets.Keys == before[oldFlight]
    ensures forall g | g in flights && g != oldFlight && g != newFlight :: g.tickets.Keys == before[g] && g.Valid()
  {
    oldFlight.ChangeFlight(passenger, newFlight);
    forall g | g in flights && g != oldFlight && g != newFlight
      ensures g.tickets.Keys == before[g] && g.Valid()
    {
      assert unchanged(g, g.rows, g.availableSeats);
    }
  }

  /**
   * `oldFlight.changeFlight(passenger, newFlight)` inside the store: the
   * two flights change as `Flight.ChangeFlight` says, and when every
   * passenger held at most one ticket, that remains so and every flight of
   * the store stays valid.
   */
  method TransferInStore(flights: set<Flight>, oldFlight: Flight, newFlight: Flight, passenger: string)
    requires oldFlight in flights && newFlight in flights
    requires oldFlight.Valid() && newFlight.Valid()
    requires forall f | f in flights :: f.Valid()
    requires oldFlight == newFlight || oldFlight.Footprint() !! newFlight.Footprint()
    requires forall g | g in flights && g != oldFlight && g != newFlight ::
      g.Footprint() !! oldFlight.Footprint() + newFlight.Footprint()
    requires passenger in oldFlight.tickets
    modifies oldFlight.Footprint(), newFlight.Footprint()
    ensures newFlight != oldFlight ==>
      && oldFlight.Snapshot() == Release(old(oldFlight.Snapshot()), passenger)
      && newFlight.Snapshot() == Receive(old(newFlight.Snapshot()), passenger, Moved(old(oldFlight.Snapshot()), passenger))
      && (newFlight.Valid() <==> !old(passenger in newFlight.tickets && newFlight.tickets[passenger].IsSeated()))
    ensures newFlight == oldFlight ==>
      oldFlight.Snapshot() == Receive(Release(old(oldFlight.Snapshot()), passenger), passenger,
                                      Moved(old(oldFlight.Snapshot()), passenger))
    ensures oldFlight.Valid()
    ensures old(OneTicketEach(flights)) ==> OneTicketEach(flights) && forall f | f in flights :: f.Valid()
  {
    ghost var before := map f | f in flights :: f.tickets.Keys;
    ghost var one := OneTicketEach(flights);
    if one {
      assert oldFlight == newFlight || passenger !in before[newFlight];
    }
    Transfer(flights, before, oldFlight, newFlight, passenger);
    if one {
      StoreKept(flights, before, oldFlight, newFlight, passenger);
      assert newFlight.Valid();
    }
  }

  /**
   * `changeFlight`: when every check passes, exactly `oldFlight.changeFlight(passenger, newFlight)`;
   * when one fails, no flight changes.
   */
  method ChangeFlight(reg: Registry, passenger: string, oldCode: string, newCode: string,
                      allAvailableByCategory: (seq<int>, RowCategory) -> int) returns (o: Outcome<Error>)
    requires reg.Consistent() && reg.Separate()
    requires forall f | f in reg.AllFlights() :: f.Valid()
    modifies reg.NonConfirmedFootprint(oldCode), reg.PendingFootprint(newCode)
    ensures var gate := old(ChangeFlightGate(reg, passenger, oldCode, newCode, allAvailableByCategory));
      && (gate.Failure? ==> o == Fail(gate.error))
      && (gate.Success? ==> o == Pass)
    ensures o.Fail? ==> unchanged(reg.NonConfirmedFootprint(oldCode)) && unchanged(reg.PendingFootprint(newCode))
    ensures o.Pass? ==>
      var gate := old(ChangeFlightGate(reg, passenger, oldCode, newCode, allAvailableByCategory));
      var oldFlight, newFlight := gate.value.0, gate.value.1;
      && old(oldFlight.Valid() && newFlight.Valid())
      && oldFlight.Valid()
      && (newFlight != oldFlight ==>
            && oldFlight.Snapshot() == Release(old(oldFlight.Snapshot()), passenger)
            && newFlight.Snapshot() == Receive(old(newFlight.Snapshot()), passenger, Moved(old(oldFlight.Snapshot()), passenger))
            && (newFlight.Valid() <==> !old(passenger in newFlight.tickets && newFlight.tickets[passenger].IsSeated())))
      && (newFlight == oldFlight ==>
            oldFlight.Snapshot() == Receive(Release(old(oldFlight.Snapshot()), passenger), passenger,
                                            Moved(old(oldFlight.Snapshot()), passenger)))
    ensures old(OneTicketEach(reg.AllFlights())) ==>
      && OneTicketEach(reg.AllFlights())
      && forall f | f in reg.AllFlights() :: f.Valid()
  {
    var oldLookup := reg.GetNonConfirmedFlight(oldCode);
    if oldLookup.Failure? {
      return Fail(oldLookup.error);
    }
    var oldFlight := oldLookup.value;
    var newLookup := reg.GetPendingFlight(newCode);
    if newLookup.Failure? {
      return Fail(newLookup.error);
    }
    var newFlight := newLookup.value;
    var ticket := oldFlight.GetTicket(passenger);
    if ticket.None? {
      return Fail(NullPointer);
    }
    if allAvailableByCategory(newFlight.availableSeats[..], ticket.value.category) == 0 {
      return Fail(NoAvailableSeats);
    }
    assert oldFlight in reg.AllFlights() && newFlight in reg.AllFlights() by {
      assert newFlight in reg.PendingFlights().Values;
    }
    forall g | g in reg.AllFlights() && g != oldFlight && g != newFlight
      ensures g.Footprint() !! oldFlight.Footprint() + newFlight.Footprint()
    {
    }
    TransferInStore(reg.AllFlights(), oldFlight, newFlight, passenger);
    o := Pass;
  }
}
