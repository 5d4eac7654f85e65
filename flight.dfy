/**
 * `Flight`: one flight's rows, free-seat counters and tickets, updated in
 * place. Every mutating method is proved to perform the corresponding
 * transition of `FlightSpec` on the flight's `Snapshot()` and to keep
 * `Valid()`. Locking is not modelled: every method runs alone.
 */
module Flights {
  import opened Wrappers
  import opened Seating
  import opened FlightSpec

  class Flight {
    const code: string
    const destination: string
    const rows: array<Row>
    const availableSeats: array<int>
    var tickets: map<string, Ticket>

    /** The objects a flight's state lives in. */
    function Footprint(): set<object> {
      {this, rows, availableSeats}
    }

    /** The flight's state as a value. */
    function Snapshot(): View
      reads this, rows, availableSeats
    {
      View(rows[..], availableSeats[..], tickets)
    }

    ghost predicate Valid()
      reads this, rows, availableSeats
    {
      availableSeats.Length == 3 && FlightSpec.Valid(Snapshot())
    }

    /**
     * Lays the rows out business first, then premium economy, then economy,
     * and seeds each counter with the capacity of its category.
     */
    constructor (model: PlaneModel, code: string, destination: string, ts: seq<Ticket>)
      requires DistinctPassengers(ts)
      requires forall i | 0 <= i < |ts| :: ts[i].seat.None?
      ensures this.code == code && this.destination == destination
      ensures fresh(rows) && fresh(availableSeats)
      ensures Snapshot() == InitialView(model, ts)
      ensures Valid()
    {
      this.code := code;
      this.destination := destination;
      this.tickets := TicketMap(ts);

      var business := model.Config(Business);
      var premium := model.Config(PremiumEconomy);
      var economy := model.Config(Economy);
      var b, p := business.rowCount, premium.rowCount;
      var totRows := business.rowCount + premium.rowCount + economy.rowCount;

      var a := new Row[totRows];
      var iter := 0;
      for i := 0 to business.rowCount
        invariant iter == i
        invariant forall j | 0 <= j < iter :: a[j] == EmptyRow(Business, business.seatsPerRow)
      {
        a[iter] := EmptyRow(Business, business.seatsPerRow);
        iter := iter + 1;
      }
      for i := 0 to premium.rowCount
        invariant iter == b + i
        invariant forall j | 0 <= j < b :: a[j] == EmptyRow(Business, business.seatsPerRow)
        invariant forall j | b <= j < iter :: a[j] == EmptyRow(PremiumEconomy, premium.seatsPerRow)
      {
        a[iter] := EmptyRow(PremiumEconomy, premium.seatsPerRow);
        iter := iter + 1;
      }
      for i := 0 to economy.rowCount
        invariant iter == b + p + i
        invariant forall j | 0 <= j < b :: a[j] == EmptyRow(Business, business.seatsPerRow)
        invariant forall j | b <= j < b + p :: a[j] == EmptyRow(PremiumEconomy, premium.seatsPerRow)
        invariant forall j | b + p <= j < iter :: a[j] == EmptyRow(Economy, economy.seatsPerRow)
      {
        a[iter] := EmptyRow(Economy, economy.seatsPerRow);
        iter := iter + 1;
      }
      this.rows := a;

      var counts := new int[3](_ => 0);
      counts[Business.Ordinal()] := business.rowCount * business.seatsPerRow;
      counts[PremiumEconomy.Ordinal()] := premium.rowCount * premium.seatsPerRow;
      counts[Economy.Ordinal()] := economy.rowCount * economy.seatsPerRow;
      this.availableSeats := counts;
      new;
      forall j | 0 <= j < totRows ensures rows[j] == Layout(model)[j] {
        LayoutRanges(model, j);
      }
      assert rows[..] == Layout(model);
      assert availableSeats[..] == InitialCounters(model);
      InitialValid(model, ts);
    }

    /** `getTicket`: the passenger's ticket on this flight, or null. */
    function GetTicket(passenger: string): (t: Option<Ticket>)
      requires Valid()
      reads this, rows, availableSeats
      ensures t.Some? <==> passenger in tickets
      ensures t.Some? ==> t.value == tickets[passenger] && t.value.passenger == passenger
    {
      if passenger in tickets then Some(tickets[passenger]) else None
    }

    /** `checkSeat`: the row is checked first, then the seat; the answer is whether the seat is free. */
    function CheckSeat(row: int, seat: char): (r: Result<bool, Error>)
      reads rows
      ensures r.Success? <==> 0 <= row < rows.Length && ValidSeat(rows[row], seat)
      ensures r.Failure? ==> r.error == if 0 <= row < rows.Length then InvalidSeat(seat) else IllegalRow(row)
      ensures r.Success? ==> (r.value <==> rows[row].slots[Column(seat)].None?)
    {
      var check := CheckValidRow(rows.Length, row);
      if check.Fail? then Failure(check.error) else IsAvailable(rows[row], seat)
    }

    /** `seatPassenger`: occupy the seat, record it on the ticket, take one seat from the row's category. */
    method SeatPassenger(rowNumber: int, seat: char, passenger: string)
      requires WellFormed(Snapshot()) && passenger in tickets
      requires 0 <= rowNumber < rows.Length && ValidSeat(rows[rowNumber], seat)
      modifies this, rows, availableSeats
      ensures Snapshot() == FlightSpec.SeatPassenger(old(Snapshot()), rowNumber, seat, passenger)
    {
      var row := rows[rowNumber];
      var ticket := tickets[passenger];
      rows[rowNumber] := Seating.AssignSeat(row, seat, ticket.passenger);
      tickets := tickets[passenger := ticket.(seat := Some(Seat(rowNumber, seat)))];
      var k := row.category.Ordinal();
      availableSeats[k] := availableSeats[k] - 1;
    }

    /**
     * `assignSeat`: fails, changing nothing, at the first of: no ticket, bad
     * row, bad seat, seat taken, passenger already seated, row less premium
     * than the ticket; otherwise seats the passenger.
     */
    method AssignSeat(rowNumber: int, seat: char, passenger: string) returns (o: Outcome<Error>)
      requires Valid()
      modifies this, rows, availableSeats
      ensures Valid()
      ensures var res := FlightSpec.AssignSeat(old(Snapshot()), rowNumber, seat, passenger);
        && (res.Failure? ==> o == Fail(res.error) && Snapshot() == old(Snapshot()))
        && (res.Success? ==> o == Pass && Snapshot() == res.value)
    {
      if passenger !in tickets {
        return Fail(TicketNotFound);
      }
      var rowCheck := CheckValidRow(rows.Length, rowNumber);
      if rowCheck.Fail? {
        return rowCheck;
      }
      var row := rows[rowNumber];
      var seatCheck := CheckValidSeat(row, seat);
      if seatCheck.Fail? {
        return seatCheck;
      }
      if !IsAvailable(row, seat).value {
        return Fail(SeatAlreadyTaken(rowNumber, seat));
      }
      var ticket := tickets[passenger];
      if ticket.IsSeated() {
        return Fail(PassengerAlreadySeated);
      }
      if rows[rowNumber].category.Ordinal() > ticket.category.Ordinal() {
        return Fail(IllegalPassengerCategory);
      }
      ghost var v := Snapshot();
      SeatPassenger(rowNumber, seat, passenger);
      AssignSeatValid(v, rowNumber, seat, passenger);
      o := Pass;
    }

    /**
     * `changeSeat`: validates the target exactly as `assignSeat` does (less
     * the already-seated check) before touching anything, then frees the old
     * seat and seats the passenger in the new one. An unseated passenger
     * fails with a null dereference, changing nothing.
     */
    method ChangeSeat(freeRow: int, freeSeat: char, passenger: string) returns (o: Outcome<Error>)
      requires Valid()
      modifies this, rows, availableSeats
      ensures Valid()
      ensures var res := FlightSpec.ChangeSeat(old(Snapshot()), freeRow, freeSeat, passenger);
        && (res.Failure? ==> o == Fail(res.error) && Snapshot() == old(Snapshot()))
        && (res.Success? ==> o == Pass && Snapshot() == res.value)
    {
      if passenger !in tickets {
        return Fail(TicketNotFound);
      }
      var rowCheck := CheckValidRow(rows.Length, freeRow);
      if rowCheck.Fail? {
        return rowCheck;
      }
      var newRow := rows[freeRow];
      var seatCheck := CheckValidSeat(newRow, freeSeat);
      if seatCheck.Fail? {
        return seatCheck;
      }
      if !IsAvailable(newRow, freeSeat).value {
        return Fail(SeatAlreadyTaken(freeRow, freeSeat));
      }
      var ticket := GetTicket(passenger).value;
      if rows[freeRow].category.Ordinal() > ticket.category.Ordinal() {
        return Fail(IllegalPassengerCategory);
      }
      if ticket.seat.None? {
        return Fail(NullPointer);
      }
      ghost var v := Snapshot();
      var oldRowNumber := ticket.seat.value.row;
      var oldRow := rows[oldRowNumber];
      rows[oldRowNumber] := RemovePassenger(oldRow, passenger);
      tickets := tickets[passenger := ticket.(seat := None)];
      var k := oldRow.category.Ordinal();
      availableSeats[k] := availableSeats[k] + 1;
      assert Snapshot() == Vacate(v, passenger);
      SeatPassenger(freeRow, freeSeat, passenger);
      ChangeSeatValid(v, freeRow, freeSeat, passenger);
      o := Pass;
    }

    /**
     * `changeFlight`: removes the passenger's ticket, frees its seat if it
     * had one, clears the seat and files the ticket under the passenger in
     * `other`. The other flight keeps its invariant exactly when the
     * passenger held no seated ticket there.
     */
    method ChangeFlight(passenger: string, other: Flight)
      requires Valid() && other.Valid() && passenger in tickets
      requires other == this || other.Footprint() !! Footprint()
      modifies this, rows, availableSeats, other
      ensures other != this ==>
        && Snapshot() == Release(old(Snapshot()), passenger)
        && other.Snapshot() == Receive(old(other.Snapshot()), passenger, Moved(old(Snapshot()), passenger))
      ensures other == this ==>
        Snapshot() == Receive(Release(old(Snapshot()), passenger), passenger, Moved(old(Snapshot()), passenger))
      ensures Valid()
      ensures other != this ==>
        (other.Valid() <==> !old(passenger in other.tickets && other.tickets[passenger].IsSeated()))
      ensures other != this ==>
        tickets.Keys == old(tickets.Keys) - {passenger} && other.tickets.Keys == old(other.tickets.Keys) + {passenger}
      ensures other == this ==> tickets.Keys == old(tickets.Keys)
    {
      ghost var v := Snapshot();
      ghost var w := other.Snapshot();
      var ticket := ReleaseTicket(passenger);
      assert other != this ==> other.Snapshot() == w;
      other.tickets := other.tickets[passenger := ticket];
      if other == this {
        ReceiveValid(Release(v, passenger), passenger, ticket);
      } else {
        ReceiveValid(w, passenger, ticket);
      }
    }

    /** The first half of `changeFlight`: drop the passenger's ticket, free its seat, and hand back the unseated ticket. */
    method ReleaseTicket(passenger: string) returns (ticket: Ticket)
      requires Valid() && passenger in tickets
      modifies this, rows, availableSeats
      ensures Snapshot() == Release(old(Snapshot()), passenger)
      ensures ticket == Moved(old(Snapshot()), passenger) && ticket.passenger == passenger
      ensures tickets == old(tickets) - {passenger}
      ensures Valid()
    {
      ghost var v := Snapshot();
      ticket := tickets[passenger];
      tickets := tickets - {passenger};
      if ticket.IsSeated() {
        var row := ticket.seat.value.row;
        rows[row] := RemovePassenger(rows[row], passenger);
        var k := rows[row].category.Ordinal();
        availableSeats[k] := availableSeats[k] + 1;
      }
      ticket := ticket.(seat := None);
      assert Snapshot() == Release(v, passenger);
      ReleaseValid(v, passenger);
    }

    /** `getAvailableByCategory`: the category's counter, which is its free seats. */
    function GetAvailableByCategory(category: RowCategory): (n: int)
      requires Valid()
      reads this, rows, availableSeats
      ensures n + OccupiedIn(rows[..], category) == CapacityIn(rows[..], category)
    {
      assert Balanced(Snapshot(), category);
      availableSeats[category.Ordinal()]
    }

    /**
     * `getAvailableCategory`: the most basic category at or above `category`
     * (by ordinal, at most `category`'s) that still has a free seat, or -1.
     */
    method GetAvailableCategory(category: RowCategory) returns (r: int)
      requires Valid()
      ensures -1 <= r <= category.Ordinal()
      ensures r >= 0 ==> availableSeats[r] > 0
      ensures forall i | r < i <= category.Ordinal() && 0 <= i :: availableSeats[i] <= 0
    {
      r := -1;
      var i := category.Ordinal();
      while i >= 0
        invariant -1 <= i <= category.Ordinal() && r == -1
        invariant forall j | i < j <= category.Ordinal() :: availableSeats[j] <= 0
      {
        if availableSeats[i] > 0 {
          r := i;
          break;
        }
        i := i - 1;
      }
    }
  }
}
