/**
 * The seating vocabulary shared by a flight and the booking service:
 * row categories, rows of seat slots, tickets and the failures the
 * operations report.
 */
module Seating {
  import opened Wrappers

  /** A seating class. Its ordinal ranks it: business is the most premium. */
  datatype RowCategory = Business | PremiumEconomy | Economy {
    function Ordinal(): (n: nat)
      ensures n < 3
    {
      match this
      case Business => 0
      case PremiumEconomy => 1
      case Economy => 2
    }
  }

  const ALL_CATEGORIES: set<RowCategory> := {Business, PremiumEconomy, Economy}

  /** `RowCategory.values()[i]`: the category whose ordinal is `i`. */
  function CategoryAt(i: nat): (c: RowCategory)
    requires i < 3
    ensures c.Ordinal() == i
  {
    if i == 0 then Business else if i == 1 then PremiumEconomy else Economy
  }

  /** The failures of the seat operations, one per exception the server throws. */
  datatype Error =
    | TicketNotFound
    | IllegalRow(row: int)
    | InvalidSeat(col: char)
    | SeatAlreadyTaken(row: int, col: char)
    | PassengerAlreadySeated
    | IllegalPassengerCategory
    | IllegalFlightState
    | FlightNotFound
    | NoAvailableSeats
      // The server dereferences a null ticket or a null seat row here.
    | NullPointer

  /** A seat position: row number and column letter. */
  datatype Seat = Seat(row: int, col: char)

  /** A passenger's booking on one flight, with the seat it holds, if any. */
  datatype Ticket = Ticket(passenger: string, category: RowCategory, seat: Option<Seat>) {
    predicate IsSeated() {
      seat.Some?
    }
  }

  /** One row: its category and one slot per seat, holding the seated passenger. */
  datatype Row = Row(category: RowCategory, slots: seq<Option<string>>)

  /** The index of a column letter within a row: 'A' is the first seat. */
  function Column(col: char): int {
    col as int - 'A' as int
  }

  predicate ValidSeat(row: Row, col: char) {
    0 <= Column(col) < |row.slots|
  }

  /** A freshly built row of `seats` free seats. */
  function EmptyRow(category: RowCategory, seats: nat): (r: Row)
    ensures r.category == category && |r.slots| == seats
    ensures forall i | 0 <= i < seats :: r.slots[i].None?
  {
    Row(category, seq(seats, _ => None))
  }

  /** `Flight.checkValidRow`: a row number must index the row array. */
  function CheckValidRow(rowCount: nat, row: int): (o: Outcome<Error>)
    ensures o.Pass? <==> 0 <= row < rowCount
    ensures o.Fail? ==> o.error == IllegalRow(row)
  {
    if row < 0 || row >= rowCount then Fail(IllegalRow(row)) else Pass
  }

  /** `Row.checkValidSeat`: the column letter must name a seat of the row. */
  function CheckValidSeat(row: Row, col: char): (o: Outcome<Error>)
    ensures o.Pass? <==> ValidSeat(row, col)
    ensures o.Fail? ==> o.error == InvalidSeat(col)
  {
    if ValidSeat(row, col) then Pass else Fail(InvalidSeat(col))
  }

  /** `Row.isAvailable`: whether the seat is free; an unknown column fails. */
  function IsAvailable(row: Row, col: char): (r: Result<bool, Error>)
    ensures r.Success? <==> ValidSeat(row, col)
    ensures r.Failure? ==> r.error == InvalidSeat(col)
    ensures r.Success? ==> (r.value <==> row.slots[Column(col)] == None)
  {
    if !ValidSeat(row, col) then Failure(InvalidSeat(col))
    else Success(row.slots[Column(col)].None?)
  }

  /** `Row.assignSeat`: the seat now holds the passenger; every other seat is unchanged. */
  function AssignSeat(row: Row, col: char, passenger: string): (r: Row)
    requires ValidSeat(row, col)
    ensures r.category == row.category && |r.slots| == |row.slots|
    ensures r.slots[Column(col)] == Some(passenger)
    ensures forall i | 0 <= i < |row.slots| && i != Column(col) :: r.slots[i] == row.slots[i]
  {
    row.(slots := row.slots[Column(col) := Some(passenger)])
  }

  /** `Row.removePassenger`: every seat holding the passenger is freed. */
  function RemovePassenger(row: Row, passenger: string): (r: Row)
    ensures r.category == row.category && |r.slots| == |row.slots|
    ensures forall i | 0 <= i < |row.slots| ::
              r.slots[i] == if row.slots[i] == Some(passenger) then None else row.slots[i]
  {
    var s := row.slots;
    row.(slots := seq(|s|, i requires 0 <= i < |s| => if s[i] == Some(passenger) then None else s[i]))
  }

  /** The number of occupied seats among `slots`. */
  function Occupied(slots: seq<Option<string>>): (n: nat)
    ensures n <= |slots|
  {
    if slots == [] then 0
    else Occupied(slots[..|slots| - 1]) + (if slots[|slots| - 1].Some? then 1 else 0)
  }

  /** A row of free seats has no occupied seat. */
  lemma {:induction false} OccupiedNone(slots: seq<Option<string>>)
    requires forall i | 0 <= i < |slots| :: slots[i].None?
    ensures Occupied(slots) == 0
  {
    if slots != [] {
      OccupiedNone(slots[..|slots| - 1]);
    }
  }

  /** Replacing one slot changes the occupied count by the difference of the two slots. */
  lemma {:induction false} OccupiedUpdate(slots: seq<Option<string>>, i: nat, x: Option<string>)
    requires i < |slots|
    ensures Occupied(slots[i := x]) + (if slots[i].Some? then 1 else 0)
         == Occupied(slots) + (if x.Some? then 1 else 0)
  {
    var n := |slots| - 1;
    var s' := slots[i := x];
    assert s'[..n] == if i == n then slots[..n] else slots[..n][i := x];
    if i < n {
      OccupiedUpdate(slots[..n], i, x);
    }
  }

  /** Freeing a passenger's only seat in a row frees exactly that slot. */
  lemma RemoveSoleOccupant(row: Row, passenger: string, i: nat)
    requires i < |row.slots| && row.slots[i] == Some(passenger)
    requires forall j | 0 <= j < |row.slots| && row.slots[j] == Some(passenger) :: j == i
    ensures RemovePassenger(row, passenger) == row.(slots := row.slots[i := None])
  {
    var r := RemovePassenger(row, passenger);
    assert r.slots == row.slots[i := None];
  }
}
