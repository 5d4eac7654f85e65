/**
 * The state of one flight as a value, the invariant that ties its rows,
 * counters and tickets together, and the seat transitions of `Flight`
 * as functions of the old state. The class `Flights.Flight` is proved to
 * perform exactly these transitions; the lemmas here prove that each one
 * keeps the invariant.
 */
module FlightSpec {
  import opened Wrappers
  import opened Seating

  /** A flight's mutable state: its rows, one free-seat counter per category, its tickets. */
  datatype View = View(rows: seq<Row>, available: seq<int>, tickets: map<string, Ticket>)

  // ---------------------------------------------------------------------------
  // Seat counting

  /** The number of occupied seats over the rows of category `c`. */
  function OccupiedIn(rows: seq<Row>, c: RowCategory): nat {
    if rows == [] then 0
    else
      var last := rows[|rows| - 1];
      OccupiedIn(rows[..|rows| - 1], c) + (if last.category == c then Occupied(last.slots) else 0)
  }

  /** The number of seats over the rows of category `c`. */
  function CapacityIn(rows: seq<Row>, c: RowCategory): nat {
    if rows == [] then 0
    else
      var last := rows[|rows| - 1];
      CapacityIn(rows[..|rows| - 1], c) + (if last.category == c then |last.slots| else 0)
  }

  /**
   * Replacing one row by a row of the same category and width keeps every
   * capacity and changes the occupied count of that category by the
   * difference between the two rows.
   */
  lemma {:induction false} RowsUpdate(rows: seq<Row>, r: nat, row: Row, c: RowCategory)
    requires r < |rows| && row.category == rows[r].category && |row.slots| == |rows[r].slots|
    ensures CapacityIn(rows[r := row], c) == CapacityIn(rows, c)
    ensures OccupiedIn(rows[r := row], c) + (if row.category == c then Occupied(rows[r].slots) else 0)
         == OccupiedIn(rows, c) + (if row.category == c then Occupied(row.slots) else 0)
  {
    var n := |rows| - 1;
    var rows' := rows[r := row];
    assert rows'[..n] == if r == n then rows[..n] else rows[..n][r := row];
    if r < n {
      RowsUpdate(rows[..n], r, row, c);
    }
  }

  lemma {:induction false} CountsAppend(a: seq<Row>, b: seq<Row>, c: RowCategory)
    ensures CapacityIn(a + b, c) == CapacityIn(a, c) + CapacityIn(b, c)
    ensures OccupiedIn(a + b, c) == OccupiedIn(a, c) + OccupiedIn(b, c)
  {
    if b != [] {
      var n := |b| - 1;
      assert (a + b)[..|a + b| - 1] == a + b[..n];
      CountsAppend(a, b[..n], c);
    } else {
      assert a + b == a;
    }
  }

  // ---------------------------------------------------------------------------
  // The flight invariant

  /** Invariant 1: free seats plus occupied seats make up the capacity of the category. */
  predicate Balanced(v: View, c: RowCategory)
    requires |v.available| == 3
  {
    v.available[c.Ordinal()] + OccupiedIn(v.rows, c) == CapacityIn(v.rows, c)
  }

  /** Rows are grouped by category, most premium first. */
  predicate Grouped(rows: seq<Row>) {
    forall i, j | 0 <= i < j < |rows| :: rows[i].category.Ordinal() <= rows[j].category.Ordinal()
  }

  /** Each ticket is filed under its own passenger. */
  predicate TicketsKeyed(v: View) {
    forall p | p in v.tickets :: v.tickets[p].passenger == p
  }

  /** The seat `s` exists and holds passenger `p`. */
  predicate SeatHolds(v: View, s: Seat, p: string) {
    0 <= s.row < |v.rows| && ValidSeat(v.rows[s.row], s.col) && v.rows[s.row].slots[Column(s.col)] == Some(p)
  }

  /** Passenger `p` has a ticket whose seat is row `r`, column index `i`. */
  predicate SeatedAt(v: View, p: string, r: int, i: int) {
    p in v.tickets && v.tickets[p].seat.Some? &&
    v.tickets[p].seat.value.row == r && Column(v.tickets[p].seat.value.col) == i
  }

  /** Invariant 2, ticket to row: a seated ticket's seat holds its passenger. */
  predicate TicketsSeated(v: View) {
    forall p | p in v.tickets && v.tickets[p].seat.Some? :: SeatHolds(v, v.tickets[p].seat.value, p)
  }

  /** Invariant 2, row to ticket: an occupied seat is the seat of its passenger's ticket. */
  predicate SlotsTicketed(v: View) {
    forall r, i | 0 <= r < |v.rows| && 0 <= i < |v.rows[r].slots| && v.rows[r].slots[i].Some? ::
      SeatedAt(v, v.rows[r].slots[i].value, r, i)
  }

  /** Invariant 4: nobody sits in a row less premium than the category they bought. */
  predicate CategoriesAllowed(v: View) {
    forall p | p in v.tickets && v.tickets[p].seat.Some? && 0 <= v.tickets[p].seat.value.row < |v.rows| ::
      v.rows[v.tickets[p].seat.value.row].category.Ordinal() <= v.tickets[p].category.Ordinal()
  }

  /** The shape every transition needs: three counters and seated tickets that name real rows. */
  predicate WellFormed(v: View) {
    |v.available| == 3 &&
    forall p | p in v.tickets && v.tickets[p].seat.Some? :: 0 <= v.tickets[p].seat.value.row < |v.rows|
  }

  predicate Valid(v: View) {
    && WellFormed(v)
    && (forall c :: Balanced(v, c))
    && Grouped(v.rows)
    && TicketsKeyed(v)
    && TicketsSeated(v)
    && SlotsTicketed(v)
    && CategoriesAllowed(v)
  }

  // ---------------------------------------------------------------------------
  // Transitions

  /** `Flight.seatPassenger`: occupy the seat, record it on the ticket, count it. */
  function SeatPassenger(v: View, r: int, col: char, p: string): (w: View)
    requires WellFormed(v) && p in v.tickets && 0 <= r < |v.rows| && ValidSeat(v.rows[r], col)
    ensures |w.rows| == |v.rows| && |w.available| == 3
  {
    var k := v.rows[r].category.Ordinal();
    View(v.rows[r := Seating.AssignSeat(v.rows[r], col, v.tickets[p].passenger)],
         v.available[k := v.available[k] - 1],
         v.tickets[p := v.tickets[p].(seat := Some(Seat(r, col)))])
  }

  /** `Flight.assignSeat`: the six checks in the server's order, then `seatPassenger`. */
  function AssignSeat(v: View, r: int, col: char, p: string): Result<View, Error>
    requires WellFormed(v)
  {
    if p !in v.tickets then Failure(TicketNotFound)
    else if CheckValidRow(|v.rows|, r).Fail? then Failure(CheckValidRow(|v.rows|, r).error)
    else if CheckValidSeat(v.rows[r], col).Fail? then Failure(CheckValidSeat(v.rows[r], col).error)
    else if !IsAvailable(v.rows[r], col).value then Failure(SeatAlreadyTaken(r, col))
    else if v.tickets[p].IsSeated() then Failure(PassengerAlreadySeated)
    else if v.rows[r].category.Ordinal() > v.tickets[p].category.Ordinal() then Failure(IllegalPassengerCategory)
    else Success(SeatPassenger(v, r, col, p))
  }

  /**
   * The first half of `changeSeat` and `changeFlight`: free the passenger's
   * seat, if any, give its category the seat back, and clear the ticket's seat.
   */
  function Vacate(v: View, p: string): (w: View)
    requires WellFormed(v) && p in v.tickets
    ensures WellFormed(w) && p in w.tickets && |w.rows| == |v.rows|
    ensures forall i | 0 <= i < |v.rows| ::
              w.rows[i].category == v.rows[i].category && |w.rows[i].slots| == |v.rows[i].slots|
  {
    var t := v.tickets[p];
    var unseated := v.(tickets := v.tickets[p := t.(seat := None)]);
    if t.seat.None? then unseated
    else
      var r := t.seat.value.row;
      var k := v.rows[r].category.Ordinal();
      unseated.(rows := v.rows[r := RemovePassenger(v.rows[r], p)],
                available := v.available[k := v.available[k] + 1])
  }

  /**
   * `Flight.changeSeat`: the target is validated first (ticket, row, seat,
   * free, category); the server then reads the old seat's row, which is
   * null for an unseated ticket; then vacate and seat again.
   */
  function ChangeSeat(v: View, r: int, col: char, p: string): Result<View, Error>
    requires WellFormed(v)
  {
    if p !in v.tickets then Failure(TicketNotFound)
    else if CheckValidRow(|v.rows|, r).Fail? then Failure(CheckValidRow(|v.rows|, r).error)
    else if CheckValidSeat(v.rows[r], col).Fail? then Failure(CheckValidSeat(v.rows[r], col).error)
    else if !IsAvailable(v.rows[r], col).value then Failure(SeatAlreadyTaken(r, col))
    else if v.rows[r].category.Ordinal() > v.tickets[p].category.Ordinal() then Failure(IllegalPassengerCategory)
    else if !v.tickets[p].IsSeated() then Failure(NullPointer)
    else Success(SeatPassenger(Vacate(v, p), r, col, p))
  }

  /** The ticket `changeFlight` carries to the other flight: the same ticket, unseated. */
  function Moved(v: View, p: string): Ticket
    requires p in v.tickets
  {
    v.tickets[p].(seat := None)
  }

  /** The source side of `Flight.changeFlight`: vacate, then drop the ticket. */
  function Release(v: View, p: string): View
    requires WellFormed(v) && p in v.tickets
  {
    var w := Vacate(v, p);
    w.(tickets := w.tickets - {p})
  }

  /** The target side of `Flight.changeFlight`: `put` the ticket under the passenger. */
  function Receive(v: View, p: string, t: Ticket): View {
    v.(tickets := v.tickets[p := t])
  }

  // ---------------------------------------------------------------------------
  // The transitions keep the invariant

  /** Seating an unseated passenger in a free seat of an allowed row keeps the invariant. */
  lemma SeatPassengerValid(v: View, r: int, col: char, p: string)
    requires Valid(v) && p in v.tickets && !v.tickets[p].IsSeated()
    requires 0 <= r < |v.rows| && ValidSeat(v.rows[r], col) && v.rows[r].slots[Column(col)].None?
    requires v.rows[r].category.Ordinal() <= v.tickets[p].category.Ordinal()
    ensures Valid(SeatPassenger(v, r, col, p))
  {
    var w := SeatPassenger(v, r, col, p);
    var i0 := Column(col);
    var row := w.rows[r];
    forall c ensures Balanced(w, c) {
      assert Balanced(v, c);
      RowsUpdate(v.rows, r, row, c);
      OccupiedUpdate(v.rows[r].slots, i0, Some(p));
    }
    assert forall i | 0 <= i < |w.rows| :: w.rows[i].category == v.rows[i].category;
    forall q | q in w.tickets && w.tickets[q].seat.Some?
      ensures SeatHolds(w, w.tickets[q].seat.value, q)
    {
      if q != p {
        var s := v.tickets[q].seat.value;
        assert SeatHolds(v, s, q);
        assert s.row != r || Column(s.col) != i0;
      }
    }
    forall rr, i | 0 <= rr < |w.rows| && 0 <= i < |w.rows[rr].slots| && w.rows[rr].slots[i].Some?
      ensures SeatedAt(w, w.rows[rr].slots[i].value, rr, i)
    {
      if rr != r || i != i0 {
        var q := v.rows[rr].slots[i].value;
        assert SeatedAt(v, q, rr, i);
      }
    }
  }

  /** Vacating keeps the invariant, unseats the ticket and gives back exactly one seat of its category. */
  lemma VacateValid(v: View, p: string)
    requires Valid(v) && p in v.tickets
    ensures var w := Vacate(v, p);
      && Valid(w)
      && w.tickets == v.tickets[p := v.tickets[p].(seat := None)]
      && (v.tickets[p].seat.None? ==> w == v.(tickets := w.tickets))
      && (v.tickets[p].seat.Some? ==>
            var s := v.tickets[p].seat.value;
            && w.rows == v.rows[s.row := v.rows[s.row].(slots := v.rows[s.row].slots[Column(s.col) := None])]
            && forall k | 0 <= k < 3 ::
                 w.available[k] == v.available[k] + (if k == v.rows[s.row].category.Ordinal() then 1 else 0))
  {
    var w := Vacate(v, p);
    var t := v.tickets[p];
    if t.seat.Some? {
      var s := t.seat.value;
      var i0 := Column(s.col);
      assert SeatHolds(v, s, p);
      forall j | 0 <= j < |v.rows[s.row].slots| && v.rows[s.row].slots[j] == Some(p) ensures j == i0 {
        assert SeatedAt(v, p, s.row, j);
      }
      RemoveSoleOccupant(v.rows[s.row], p, i0);
      var row := w.rows[s.row];
      forall c ensures Balanced(w, c) {
        assert Balanced(v, c);
        RowsUpdate(v.rows, s.row, row, c);
        OccupiedUpdate(v.rows[s.row].slots, i0, None);
      }
      assert forall i | 0 <= i < |w.rows| :: w.rows[i].category == v.rows[i].category;
      forall q | q in w.tickets && w.tickets[q].seat.Some?
        ensures SeatHolds(w, w.tickets[q].seat.value, q)
      {
        var sq := v.tickets[q].seat.value;
        assert SeatHolds(v, sq, q);
      }
      forall rr, i | 0 <= rr < |w.rows| && 0 <= i < |w.rows[rr].slots| && w.rows[rr].slots[i].Some?
        ensures SeatedAt(w, w.rows[rr].slots[i].value, rr, i)
      {
        var q := v.rows[rr].slots[i].value;
        assert SeatedAt(v, q, rr, i);
      }
    } else {
      forall rr, i | 0 <= rr < |w.rows| && 0 <= i < |w.rows[rr].slots| && w.rows[rr].slots[i].Some?
        ensures SeatedAt(w, w.rows[rr].slots[i].value, rr, i)
      {
        var q := v.rows[rr].slots[i].value;
        assert SeatedAt(v, q, rr, i);
      }
      assert forall c :: Balanced(v, c) ==> Balanced(w, c);
    }
  }

  /** A successful assignment keeps the invariant, seats the passenger and takes one seat of the row's category. */
  lemma AssignSeatValid(v: View, r: int, col: char, p: string)
    requires Valid(v)
    ensures AssignSeat(v, r, col, p).Success? <==>
      && p in v.tickets && 0 <= r < |v.rows| && ValidSeat(v.rows[r], col)
      && v.rows[r].slots[Column(col)].None? && !v.tickets[p].IsSeated()
      && v.rows[r].category.Ordinal() <= v.tickets[p].category.Ordinal()
    ensures AssignSeat(v, r, col, p).Success? ==>
      var w := AssignSeat(v, r, col, p).value;
      && Valid(w)
      && SeatHolds(w, Seat(r, col), p)
      && w.tickets == v.tickets[p := v.tickets[p].(seat := Some(Seat(r, col)))]
      && forall k | 0 <= k < 3 ::
           w.available[k] == v.available[k] - (if k == v.rows[r].category.Ordinal() then 1 else 0)
  {
    if AssignSeat(v, r, col, p).Success? {
      SeatPassengerValid(v, r, col, p);
    }
  }

  /**
   * A successful seat change keeps the invariant, needs a seated passenger,
   * frees the old seat and occupies the new one: the old category gains a
   * seat and the new one loses a seat, so a move within one category leaves
   * every counter as it was.
   */
  lemma ChangeSeatValid(v: View, r: int, col: char, p: string)
    requires Valid(v)
    ensures ChangeSeat(v, r, col, p).Success? <==>
      && p in v.tickets && 0 <= r < |v.rows| && ValidSeat(v.rows[r], col)
      && v.rows[r].slots[Column(col)].None? && v.tickets[p].IsSeated()
      && v.rows[r].category.Ordinal() <= v.tickets[p].category.Ordinal()
    ensures ChangeSeat(v, r, col, p).Success? ==>
      && p in v.tickets && v.tickets[p].IsSeated()
      && var s := v.tickets[p].seat.value;
      && var w := ChangeSeat(v, r, col, p).value;
      && Valid(w)
      && SeatHolds(w, Seat(r, col), p)
      && w.tickets == v.tickets[p := v.tickets[p].(seat := Some(Seat(r, col)))]
      && w.rows[s.row].slots[Column(s.col)].None?
      && (forall k | 0 <= k < 3 ::
            w.available[k] == v.available[k]
                              + (if k == v.rows[s.row].category.Ordinal() then 1 else 0)
                              - (if k == v.rows[r].category.Ordinal() then 1 else 0))
      && (v.rows[s.row].category == v.rows[r].category ==> w.available == v.available)
  {
    if ChangeSeat(v, r, col, p).Success? {
      var s := v.tickets[p].seat.value;
      var u := Vacate(v, p);
      VacateValid(v, p);
      assert SeatHolds(v, s, p);
      assert s.row != r || Column(s.col) != Column(col);
      SeatPassengerValid(u, r, col, p);
      var w := ChangeSeat(v, r, col, p).value;
      if v.rows[s.row].category == v.rows[r].category {
        assert forall k | 0 <= k < 3 :: w.available[k] == v.available[k];
      }
    }
  }

  /** Moving a passenger to the seat they already hold fails: that seat is taken. */
  lemma ChangeSeatToOwnSeat(v: View, p: string)
    requires Valid(v) && p in v.tickets && v.tickets[p].IsSeated()
    ensures var s := v.tickets[p].seat.value;
      ChangeSeat(v, s.row, s.col, p) == Failure(SeatAlreadyTaken(s.row, s.col))
  {
    assert SeatHolds(v, v.tickets[p].seat.value, p);
  }

  /** After a vacate nobody's seat holds the vacating passenger. */
  lemma VacateFreesPassenger(v: View, p: string)
    requires Valid(v) && p in v.tickets
    ensures forall r, i | 0 <= r < |Vacate(v, p).rows| && 0 <= i < |Vacate(v, p).rows[r].slots| ::
              Vacate(v, p).rows[r].slots[i] != Some(p)
  {
    var w := Vacate(v, p);
    VacateValid(v, p);
    forall r, i | 0 <= r < |w.rows| && 0 <= i < |w.rows[r].slots|
      ensures w.rows[r].slots[i] != Some(p)
    {
      if w.rows[r].slots[i].Some? {
        assert SeatedAt(w, w.rows[r].slots[i].value, r, i);
      }
    }
  }

  /**
   * The source side of `changeFlight` keeps the invariant: the ticket is gone,
   * its seat is free and its category has that seat back.
   */
  lemma ReleaseValid(v: View, p: string)
    requires Valid(v) && p in v.tickets
    ensures var w := Release(v, p);
      && Valid(w)
      && w.tickets == v.tickets - {p}
      && (v.tickets[p].seat.None? ==> w.rows == v.rows && w.available == v.available)
      && (v.tickets[p].seat.Some? ==>
            var s := v.tickets[p].seat.value;
            && w.rows[s.row].slots[Column(s.col)].None?
            && forall k | 0 <= k < 3 ::
                 w.available[k] == v.available[k] + (if k == v.rows[s.row].category.Ordinal() then 1 else 0))
  {
    var u := Vacate(v, p);
    var w := Release(v, p);
    VacateValid(v, p);
    VacateFreesPassenger(v, p);
    assert w.tickets == v.tickets - {p};
    assert forall c :: Balanced(u, c) ==> Balanced(w, c);
    forall rr, i | 0 <= rr < |w.rows| && 0 <= i < |w.rows[rr].slots| && w.rows[rr].slots[i].Some?
      ensures SeatedAt(w, w.rows[rr].slots[i].value, rr, i)
    {
      assert SeatedAt(u, u.rows[rr].slots[i].value, rr, i);
    }
  }

  /**
   * The target side of `changeFlight` keeps the invariant exactly when the
   * passenger does not already hold a seated ticket there: `put` replaces
   * such a ticket and leaves its seat occupied by nobody's ticket.
   */
  lemma ReceiveValid(v: View, p: string, t: Ticket)
    requires Valid(v) && t.passenger == p && t.seat.None?
    ensures Valid(Receive(v, p, t)) <==> !(p in v.tickets && v.tickets[p].IsSeated())
  {
    var w := Receive(v, p, t);
    if p in v.tickets && v.tickets[p].IsSeated() {
      var s := v.tickets[p].seat.value;
      assert SeatHolds(v, s, p);
      assert !SeatedAt(w, p, s.row, Column(s.col));
    } else {
      forall rr, i | 0 <= rr < |w.rows| && 0 <= i < |w.rows[rr].slots| && w.rows[rr].slots[i].Some?
        ensures SeatedAt(w, w.rows[rr].slots[i].value, rr, i)
      {
        assert SeatedAt(v, v.rows[rr].slots[i].value, rr, i);
      }
      assert forall c :: Balanced(v, c) ==> Balanced(w, c);
    }
  }

  // ---------------------------------------------------------------------------
  // Construction

  /** Row count and seats per row of one category (`PlaneModel.getCategoryConfig`). */
  datatype CategoryConfig = CategoryConfig(rowCount: nat, seatsPerRow: nat)

  /** A plane model: one configuration per category. */
  datatype PlaneModel = PlaneModel(business: CategoryConfig, premiumEconomy: CategoryConfig, economy: CategoryConfig) {
    function Config(c: RowCategory): CategoryConfig {
      match c
      case Business => business
      case PremiumEconomy => premiumEconomy
      case Economy => economy
    }
  }

  /** `count` rows of category `c`, each with `seats` free seats. */
  function Block(c: RowCategory, count: nat, seats: nat): seq<Row> {
    seq(count, _ => EmptyRow(c, seats))
  }

  /** The row array the constructor builds: business rows, then premium economy, then economy. */
  function Layout(m: PlaneModel): seq<Row> {
    Block(Business, m.business.rowCount, m.business.seatsPerRow)
    + Block(PremiumEconomy, m.premiumEconomy.rowCount, m.premiumEconomy.seatsPerRow)
    + Block(Economy, m.economy.rowCount, m.economy.seatsPerRow)
  }

  /** The counters the constructor seeds: row count times seats per row, per category. */
  function InitialCounters(m: PlaneModel): seq<int> {
    [m.business.rowCount * m.business.seatsPerRow,
     m.premiumEconomy.rowCount * m.premiumEconomy.seatsPerRow,
     m.economy.rowCount * m.economy.seatsPerRow]
  }

  predicate DistinctPassengers(ts: seq<Ticket>) {
    forall i, j | 0 <= i < j < |ts| :: ts[i].passenger != ts[j].passenger
  }

  /** `Collectors.toMap(Ticket::getPassenger, t -> t)` over duplicate-free tickets. */
  function TicketMap(ts: seq<Ticket>): (m: map<string, Ticket>)
    requires DistinctPassengers(ts)
    ensures forall i | 0 <= i < |ts| :: ts[i].passenger in m && m[ts[i].passenger] == ts[i]
    ensures forall p | p in m :: m[p].passenger == p && m[p] in ts
  {
    map i | 0 <= i < |ts| :: ts[i].passenger := ts[i]
  }

  function InitialView(m: PlaneModel, ts: seq<Ticket>): View
    requires DistinctPassengers(ts)
  {
    View(Layout(m), InitialCounters(m), TicketMap(ts))
  }

  lemma {:induction false} BlockCounts(b: RowCategory, count: nat, seats: nat, c: RowCategory)
    ensures CapacityIn(Block(b, count, seats), c) == if b == c then count * seats else 0
    ensures OccupiedIn(Block(b, count, seats), c) == 0
  {
    var rows := Block(b, count, seats);
    if count > 0 {
      assert rows[..count - 1] == Block(b, count - 1, seats);
      BlockCounts(b, count - 1, seats, c);
      OccupiedNone(rows[count - 1].slots);
      assert count * seats == (count - 1) * seats + seats;
    }
  }

  /** Rows `[0, b)` are business, `[b, b + p)` premium economy and the rest economy. */
  lemma LayoutRanges(m: PlaneModel, j: int)
    requires 0 <= j < |Layout(m)|
    ensures var b, p := m.business.rowCount, m.premiumEconomy.rowCount;
      Layout(m)[j] == if j < b then EmptyRow(Business, m.business.seatsPerRow)
                      else if j < b + p then EmptyRow(PremiumEconomy, m.premiumEconomy.seatsPerRow)
                      else EmptyRow(Economy, m.economy.seatsPerRow)
  {
  }

  /**
   * A new flight with unseated tickets satisfies the invariant: each counter
   * equals the capacity of its category and no seat is occupied.
   */
  lemma InitialValid(m: PlaneModel, ts: seq<Ticket>)
    requires DistinctPassengers(ts) && forall i | 0 <= i < |ts| :: ts[i].seat.None?
    ensures Valid(InitialView(m, ts))
    ensures |Layout(m)| == m.business.rowCount + m.premiumEconomy.rowCount + m.economy.rowCount
    ensures forall c :: CapacityIn(Layout(m), c) == m.Config(c).rowCount * m.Config(c).seatsPerRow
    ensures forall c :: OccupiedIn(Layout(m), c) == 0
  {
    var v := InitialView(m, ts);
    var bs := Block(Business, m.business.rowCount, m.business.seatsPerRow);
    var ps := Block(PremiumEconomy, m.premiumEconomy.rowCount, m.premiumEconomy.seatsPerRow);
    var es := Block(Economy, m.economy.rowCount, m.economy.seatsPerRow);
    forall c
      ensures CapacityIn(Layout(m), c) == m.Config(c).rowCount * m.Config(c).seatsPerRow
      ensures OccupiedIn(Layout(m), c) == 0
    {
      CountsAppend(bs + ps, es, c);
      CountsAppend(bs, ps, c);
      BlockCounts(Business, m.business.rowCount, m.business.seatsPerRow, c);
      BlockCounts(PremiumEconomy, m.premiumEconomy.rowCount, m.premiumEconomy.seatsPerRow, c);
      BlockCounts(Economy, m.economy.rowCount, m.economy.seatsPerRow, c);
    }
    forall i, j | 0 <= i < j < |v.rows|
      ensures v.rows[i].category.Ordinal() <= v.rows[j].category.Ordinal()
    {
      LayoutRanges(m, i);
      LayoutRanges(m, j);
    }
    forall p | p in v.tickets ensures v.tickets[p].seat.None? {
      var i :| 0 <= i < |ts| && ts[i] == v.tickets[p];
    }
    forall r, i | 0 <= r < |v.rows| && 0 <= i < |v.rows[r].slots|
      ensures v.rows[r].slots[i].None?
    {
      LayoutRanges(m, r);
    }
  }
}
