/**
 * The budget ledger's stored state and what one committed transaction does to it.
 *
 * The three tables are a sequence of reservation rows (the auto-increment id is the index, rows
 * are never deleted), two per-day totals, and the control row of the circuit breaker. Each
 * transaction is a function of the committed state; `BudgetLedger` implements them statement by
 * statement and `Sidecars` runs them interleaved.
 */
module Ledger {
  import opened Wrappers
  import opened Budget

  /** Microseconds; the origin is a midnight, so calendar days are whole multiples. */
  type Time = int
  const DAY: int := 86_400_000_000
  const RESERVATION_EXPIRY: int := 600_000_000
  const MODEL_NAME_LIMIT: nat := 64

  /** Floor division: a moment before the origin belongs to the day that contains it. */
  function UtcDay(now: Time): int { now / DAY }

  /** A calendar day is twenty-four hours, from its midnight up to the next. */
  lemma DayIsTwentyFourHours(now: Time, day: int)
    ensures UtcDay(now) == day <==> day * 86_400_000_000 <= now < (day + 1) * 86_400_000_000
  {
    assert now == UtcDay(now) * DAY + now % DAY;
    if UtcDay(now) < day { assert (UtcDay(now) + 1) * 86_400_000_000 <= day * 86_400_000_000; }
    if UtcDay(now) > day { assert (day + 1) * 86_400_000_000 <= UtcDay(now) * 86_400_000_000; }
  }

  datatype RowState = Reserved | Completed(cost: nat, settledAt: Time) | Released | Expired

  /** `lane` is what the producer asked for; the column it would go in stores only "unspecified". */
  datatype Row = Row(
    day: int, kind: RequestKind, model: string, lane: Priority, maxCost: nat, expiresAt: Time, state: RowState)

  /** What the breaker records: the reported overrun, the discarded amount, and when. */
  datatype Trip = Trip(overrun: Option<int>, discarded: Option<nat>, openedAt: Time)

  datatype Db = Db(rows: seq<Row>, spent: map<int, nat>, reservedUsd: map<int, nat>, circuit: Option<Trip>)

  const EMPTY := Db([], map[], map[], None)

  datatype Reservation = Reservation(id: nat, day: int, maxCost: nat)

  datatype Receipt = Receipt(completed: bool, stored: Option<nat>, breach: bool, saturated: bool)

  datatype ReserveResult = Refused(decision: Decision) | Granted(reservation: Reservation) | BadModelName

  /** Reservations are only minted by an admission, so a live one names its own row. */
  predicate Issued(db: Db, r: Reservation) {
    r.id < |db.rows| && db.rows[r.id].day == r.day && db.rows[r.id].maxCost == r.maxCost
  }

  // ---- Sums over rows ----

  function Sum(rows: seq<Row>, w: Row -> int): int {
    if rows == [] then 0 else Sum(rows[..|rows| - 1], w) + w(rows[|rows| - 1])
  }

  function ReservedOn(day: int): Row -> int {
    (r: Row) => if r.day == day && r.state.Reserved? then r.maxCost else 0
  }

  function StoredOn(day: int): Row -> int {
    (r: Row) => if r.day == day && r.state.Completed? then r.state.cost else 0
  }

  function Overrun(r: Row): nat {
    if r.state.Completed? && r.state.cost > r.maxCost then r.state.cost - r.maxCost else 0
  }

  function OverrunOn(day: int): Row -> int {
    (r: Row) => if r.day == day then Overrun(r) else 0
  }

  /** What a row holds against the day: its maximum while reserved, its stored cost once completed. */
  function Charge(r: Row): nat {
    match r.state
    case Reserved => r.maxCost
    case Completed(cost, _) => cost
    case Released => 0
    case Expired => 0
  }

  function LaneChargeOn(day: int, lane: Priority): Row -> int {
    (r: Row) => if r.day == day && r.lane == lane then Charge(r) else 0
  }

  function LaneOverrunOn(day: int, lane: Priority): Row -> int {
    (r: Row) => if r.day == day && r.lane == lane then Overrun(r) else 0
  }

  lemma SumAppend(rows: seq<Row>, r: Row, w: Row -> int)
    ensures Sum(rows + [r], w) == Sum(rows, w) + w(r)
  {
    assert (rows + [r])[..|rows|] == rows;
  }

  lemma {:induction false} SumUpdate(rows: seq<Row>, i: nat, r: Row, w: Row -> int)
    requires i < |rows|
    ensures Sum(rows[i := r], w) == Sum(rows, w) - w(rows[i]) + w(r)
  {
    var n := |rows| - 1;
    if i == n {
      assert rows[i := r][..n] == rows[..n];
    } else {
      assert rows[i := r][..n] == rows[..n][i := r];
      SumUpdate(rows[..n], i, r, w);
    }
  }

  lemma {:induction false} SumLe(a: seq<Row>, b: seq<Row>, v: Row -> int, w: Row -> int)
    requires |a| == |b| && forall i | 0 <= i < |a| :: v(a[i]) <= w(b[i])
    ensures Sum(a, v) <= Sum(b, w)
  {
    if a != [] { SumLe(a[..|a| - 1], b[..|b| - 1], v, w); }
  }

  lemma {:induction false} SumSplit(rows: seq<Row>, whole: Row -> int, left: Row -> int, right: Row -> int)
    requires forall i | 0 <= i < |rows| :: whole(rows[i]) == left(rows[i]) + right(rows[i])
    ensures Sum(rows, whole) == Sum(rows, left) + Sum(rows, right)
  {
    if rows != [] { SumSplit(rows[..|rows| - 1], whole, left, right); }
  }

  lemma {:induction false} SumNonNegative(rows: seq<Row>, w: Row -> int)
    requires forall i | 0 <= i < |rows| :: 0 <= w(rows[i])
    ensures 0 <= Sum(rows, w)
    ensures forall i | 0 <= i < |rows| :: w(rows[i]) <= Sum(rows, w)
  {
    if rows != [] {
      var front := rows[..|rows| - 1];
      SumNonNegative(front, w);
      forall i | 0 <= i < |rows| ensures w(rows[i]) <= Sum(rows, w) {
        if i < |front| { assert front[i] == rows[i]; }
      }
    }
  }

  /** A positive sum has a positive summand. */
  lemma {:induction false} SumWitness(rows: seq<Row>, w: Row -> int) returns (i: nat)
    requires Sum(rows, w) > 0
    ensures i < |rows| && w(rows[i]) > 0
  {
    i := |rows| - 1;
    if w(rows[i]) <= 0 { i := SumWitness(rows[..|rows| - 1], w); }
  }

  // ---- The statements transactions are made of ----

  function SpentOn(db: Db, day: int): nat { if day in db.spent then db.spent[day] else 0 }

  /** The upsert of the day row: a missing one is created with both totals at zero. */
  function EnsureDay(db: Db, day: int): Db {
    if day in db.spent then db
    else db.(spent := db.spent[day := 0], reservedUsd := db.reservedUsd[day := 0])
  }

  function SweptRow(r: Row, day: int, now: Time): Row {
    if r.day == day && r.state.Reserved? && r.expiresAt <= now then r.(state := Expired) else r
  }

  function Sweep(rows: seq<Row>, day: int, now: Time): (swept: seq<Row>)
    ensures |swept| == |rows|
    ensures forall i | 0 <= i < |rows| :: swept[i] == SweptRow(rows[i], day, now)
  {
    seq(|rows|, i requires 0 <= i < |rows| => SweptRow(rows[i], day, now))
  }

  function SweepDay(db: Db, day: int, now: Time): Db { db.(rows := Sweep(db.rows, day, now)) }

  function Outstanding(rows: seq<Row>, day: int): int { Sum(rows, ReservedOn(day)) }

  lemma OutstandingNonNegative(rows: seq<Row>, day: int)
    ensures 0 <= Outstanding(rows, day)
  {
    SumNonNegative(rows, ReservedOn(day));
  }

  function RefreshReserved(db: Db, day: int): Db {
    OutstandingNonNegative(db.rows, day);
    db.(reservedUsd := db.reservedUsd[day := Outstanding(db.rows, day)])
  }

  function Quantized(maxCost: Option<int>): Option<int> {
    if maxCost.Some? && maxCost.value > 0 then Some(QuantizeStorable(maxCost.value)) else maxCost
  }

  function StateAt(db: Db, day: int): BudgetState {
    BudgetState(SpentOn(db, day), Outstanding(db.rows, day), db.circuit.Some?)
  }

  // ---- Transactions ----

  predicate ModelNameFits(model: string) { 0 < |model| <= MODEL_NAME_LIMIT }

  /** The state a reservation is decided on: the day row present, its expired rows swept. */
  function Locked(db: Db, day: int, now: Time): Db { SweepDay(EnsureDay(db, day), day, now) }

  function Reserve(policy: Policy, db: Db, kind: RequestKind, model: string, maxCost: Option<int>,
                   priority: Priority, now: Time): (Db, ReserveResult)
  {
    if !ModelNameFits(model) then (db, BadModelName)
    else
      var day := UtcDay(now);
      var quantized := Quantized(maxCost);
      var locked := Locked(db, day, now);
      var decision := Admit(policy, StateAt(locked, day), quantized, priority);
      if !decision.Admitted? then (RefreshReserved(locked, day), Refused(decision))
      else
        var row := Row(day, kind, model, priority, quantized.value, now + RESERVATION_EXPIRY, Reserved);
        (RefreshReserved(locked.(rows := locked.rows + [row]), day),
         Granted(Reservation(|locked.rows|, day, quantized.value)))
  }

  function Headroom(spent: int): int { MAX_STORABLE_NANO - spent }

  /** How much of a storable cost the day's total can still take. */
  function Added(storable: nat, spent: nat): nat { Max(0, Min(storable, Headroom(spent))) }

  function TripFor(r: Reservation, actual: int, storable: nat, added: nat, now: Time): Trip {
    Trip(if CircuitShouldOpen(r.maxCost, actual) then Some(actual) else None,
         if added < storable then Some(storable - added) else None, now)
  }

  function Settle(db: Db, r: Reservation, actual: int, now: Time): (Db, Receipt) {
    var breach := CircuitShouldOpen(r.maxCost, actual);
    var storable := StorableActualCost(actual);
    var locked := EnsureDay(db, r.day);
    if !(r.id < |locked.rows| && locked.rows[r.id].state.Reserved?) then (locked, Receipt(false, None, false, false))
    else
      var added := Added(storable, SpentOn(locked, r.day));
      var saturated := added < storable;
      var charged := locked.(rows := locked.rows[r.id := locked.rows[r.id].(state := Completed(storable, now))],
                             spent := locked.spent[r.day := SpentOn(locked, r.day) + added]);
      var refreshed := RefreshReserved(charged, r.day);
      (if breach || saturated then refreshed.(circuit := Some(TripFor(r, actual, storable, added, now))) else refreshed,
       Receipt(true, Some(storable), breach, saturated))
  }

  function Release(db: Db, r: Reservation): (Db, bool) {
    var locked := EnsureDay(db, r.day);
    if !(r.id < |locked.rows| && locked.rows[r.id].state.Reserved?) then (locked, false)
    else
      (RefreshReserved(locked.(rows := locked.rows[r.id := locked.rows[r.id].(state := Released)]), r.day), true)
  }

  /** Only live reservations: an expiry nobody has swept yet is already excluded. */
  function LiveOn(day: int, now: Time): Row -> int {
    (r: Row) => if r.day == day && r.state.Reserved? && r.expiresAt > now then r.maxCost else 0
  }

  function Snapshot(db: Db, now: Time): BudgetState {
    var day := UtcDay(now);
    BudgetState(SpentOn(db, day), Sum(db.rows, LiveOn(day, now)), db.circuit.Some?)
  }

  // ---- Runs ----

  datatype Txn =
    | ReserveTxn(kind: RequestKind, model: string, maxCost: Option<int>, priority: Priority, now: Time)
    | SettleTxn(reservation: Reservation, actual: int, now: Time)
    | ReleaseTxn(reservation: Reservation)

  function Apply(policy: Policy, db: Db, txn: Txn): Db {
    match txn
    case ReserveTxn(kind, model, maxCost, priority, now) => Reserve(policy, db, kind, model, maxCost, priority, now).0
    case SettleTxn(r, actual, now) => Settle(db, r, actual, now).0
    case ReleaseTxn(r) => Release(db, r).0
  }

  ghost predicate Enabled(db: Db, txn: Txn) {
    match txn
    case ReserveTxn(_, _, _, _, _) => true
    case SettleTxn(r, _, _) => Issued(db, r)
    case ReleaseTxn(r) => Issued(db, r)
  }

  /** A run in the order its transactions committed. */
  ghost predicate Runs(policy: Policy, start: Db, txns: seq<Txn>, end: Db)
    decreases |txns|
  {
    if txns == [] then end == start
    else Enabled(start, txns[0]) && Runs(policy, Apply(policy, start, txns[0]), txns[1..], end)
  }
}
