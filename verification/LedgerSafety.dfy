/**
 * What every committed transaction keeps, and what follows over whole runs: the money bound,
 * the protected human reserve, exact totals, and rows that leave `reserved` at most once.
 */
module LedgerSafety {
  import opened Wrappers
  import opened Budget
  import opened Ledger

  // ---- The invariant ----

  /** The day's running total is the exact sum of its completed rows, clamped to what the column holds. */
  ghost predicate SpentExact(db: Db, d: int) {
    d in db.spent && db.spent[d] == Min(MAX_STORABLE_NANO, Sum(db.rows, StoredOn(d)))
  }

  ghost predicate ReservedExact(db: Db, d: int) {
    d in db.reservedUsd && db.reservedUsd[d] == Outstanding(db.rows, d)
  }

  /** Every row's day has a day row, and every total is exact except reserved figures listed as stale. */
  ghost predicate TotalsExact(db: Db, stale: set<int>) {
    && db.spent.Keys == db.reservedUsd.Keys
    && (forall i | 0 <= i < |db.rows| :: db.rows[i].day in db.spent)
    && (forall d | d in db.spent :: SpentExact(db, d))
    && (forall d | d in db.spent && d !in stale :: ReservedExact(db, d))
  }

  /** Stored costs are not clamped here, so the bound is on the money, not on the column. */
  ghost predicate WithinCeiling(policy: Policy, rows: seq<Row>, d: int) {
    Sum(rows, StoredOn(d)) + Outstanding(rows, d) <= policy.ceiling + Sum(rows, OverrunOn(d))
  }

  ghost predicate BackgroundWithin(policy: Policy, rows: seq<Row>, d: int) {
    Sum(rows, LaneChargeOn(d, Background)) <= policy.ceiling - policy.Floor() + Sum(rows, LaneOverrunOn(d, Background))
  }

  ghost predicate Bounded(policy: Policy, rows: seq<Row>, d: int) {
    WithinCeiling(policy, rows, d) && BackgroundWithin(policy, rows, d)
  }

  ghost predicate OverrunsTripped(db: Db) {
    forall i | 0 <= i < |db.rows| :: Overrun(db.rows[i]) > 0 ==> db.circuit.Some?
  }

  ghost predicate RowsQuantized(rows: seq<Row>) {
    forall i | 0 <= i < |rows| ::
      && rows[i].maxCost % STORAGE_SCALE_NANO == 0
      && (rows[i].state.Completed? ==>
            rows[i].state.cost % STORAGE_SCALE_NANO == 0 && rows[i].state.cost <= MAX_STORABLE_NANO)
  }

  /** The invariant while the reserved figures of the stale days are still to be rewritten. */
  ghost predicate InvBut(policy: Policy, db: Db, stale: set<int>) {
    && TotalsExact(db, stale)
    && (forall d :: Bounded(policy, db.rows, d))
    && OverrunsTripped(db)
    && RowsQuantized(db.rows)
  }

  ghost predicate Inv(policy: Policy, db: Db) { InvBut(policy, db, {}) }

  lemma RefreshRestores(policy: Policy, db: Db, day: int)
    requires InvBut(policy, db, {day}) && day in db.spent
    ensures Inv(policy, RefreshReserved(db, day))
  {
    var refreshed := RefreshReserved(db, day);
    forall d | d in refreshed.spent ensures SpentExact(refreshed, d) && ReservedExact(refreshed, d) {
      assert SpentExact(db, d);
      if d != day { assert ReservedExact(db, d); }
    }
  }

  // ---- Sums that do not see a day ----

  lemma NoRowsNoSum(rows: seq<Row>, d: int)
    requires forall i | 0 <= i < |rows| :: rows[i].day != d
    ensures Sum(rows, StoredOn(d)) == 0 && Outstanding(rows, d) == 0
  {
    SumSplit(rows, StoredOn(d), StoredOn(d), StoredOn(d));
    SumSplit(rows, ReservedOn(d), ReservedOn(d), ReservedOn(d));
  }

  lemma EnsureDayKeeps(policy: Policy, db: Db, day: int)
    requires Inv(policy, db)
    ensures Inv(policy, EnsureDay(db, day)) && day in EnsureDay(db, day).spent
  {
    var ensured := EnsureDay(db, day);
    if day !in db.spent { NoRowsNoSum(db.rows, day); }
    forall d | d in ensured.spent ensures SpentExact(ensured, d) && ReservedExact(ensured, d) {
      if d in db.spent { assert SpentExact(db, d) && ReservedExact(db, d); }
    }
  }

  // ---- Sweeping ----

  lemma SweepSums(rows: seq<Row>, day: int, now: Time, d: int, lane: Priority)
    ensures var swept := Sweep(rows, day, now);
      && Sum(swept, StoredOn(d)) == Sum(rows, StoredOn(d))
      && Outstanding(swept, d) <= Outstanding(rows, d)
      && Sum(swept, OverrunOn(d)) == Sum(rows, OverrunOn(d))
      && Sum(swept, LaneOverrunOn(d, lane)) == Sum(rows, LaneOverrunOn(d, lane))
      && Sum(swept, LaneChargeOn(d, lane)) <= Sum(rows, LaneChargeOn(d, lane))
  {
    var swept := Sweep(rows, day, now);
    SumLe(swept, rows, StoredOn(d), StoredOn(d));
    SumLe(rows, swept, StoredOn(d), StoredOn(d));
    SumLe(swept, rows, ReservedOn(d), ReservedOn(d));
    SumLe(swept, rows, OverrunOn(d), OverrunOn(d));
    SumLe(rows, swept, OverrunOn(d), OverrunOn(d));
    SumLe(swept, rows, LaneOverrunOn(d, lane), LaneOverrunOn(d, lane));
    SumLe(rows, swept, LaneOverrunOn(d, lane), LaneOverrunOn(d, lane));
    SumLe(swept, rows, LaneChargeOn(d, lane), LaneChargeOn(d, lane));
  }

  lemma SweepOtherDay(rows: seq<Row>, day: int, now: Time, d: int)
    requires d != day
    ensures Outstanding(Sweep(rows, day, now), d) == Outstanding(rows, d)
  {
    var swept := Sweep(rows, day, now);
    SumLe(swept, rows, ReservedOn(d), ReservedOn(d));
    SumLe(rows, swept, ReservedOn(d), ReservedOn(d));
  }

  lemma LockedKeeps(policy: Policy, db: Db, day: int, now: Time)
    requires Inv(policy, db)
    ensures InvBut(policy, Locked(db, day, now), {day}) && day in Locked(db, day, now).spent
  {
    hide QuantizeStorable, ReserveFloor, Sum;
    EnsureDayKeeps(policy, db, day);
    var ensured := EnsureDay(db, day);
    var locked := Locked(db, day, now);
    forall d ensures Bounded(policy, locked.rows, d) {
      assert Bounded(policy, ensured.rows, d);
      SweepSums(ensured.rows, day, now, d, Background);
    }
    forall d | d in locked.spent ensures SpentExact(locked, d) && (d != day ==> ReservedExact(locked, d)) {
      assert SpentExact(ensured, d) && ReservedExact(ensured, d);
      SweepSums(ensured.rows, day, now, d, Background);
      if d != day { SweepOtherDay(ensured.rows, day, now, d); }
    }
  }

  // ---- Reserving ----

  /** Every charge of a day is a stored cost or a live maximum, so a lane's charge is at most their sum. */
  lemma LaneChargeWithinTotal(rows: seq<Row>, d: int, lane: Priority)
    ensures Sum(rows, LaneChargeOn(d, lane)) <= Sum(rows, StoredOn(d)) + Outstanding(rows, d)
  {
    var total := (r: Row) => StoredOn(d)(r) + ReservedOn(d)(r);
    SumSplit(rows, total, StoredOn(d), ReservedOn(d));
    SumLe(rows, rows, LaneChargeOn(d, lane), total);
  }

  lemma OverrunsNonNegative(rows: seq<Row>, d: int, lane: Priority)
    ensures 0 <= Sum(rows, OverrunOn(d)) && 0 <= Sum(rows, LaneOverrunOn(d, lane))
  {
    SumNonNegative(rows, OverrunOn(d));
    SumNonNegative(rows, LaneOverrunOn(d, lane));
  }

  /** An admitted row fits: even on a day whose total saturated, the unclamped sums stay bounded. */
  lemma AdmittedRowFits(policy: Policy, db: Db, day: int, row: Row)
    requires policy.Valid() && SpentExact(db, day) && Bounded(policy, db.rows, day)
    requires row.day == day && row.state.Reserved?
    requires Admit(policy, StateAt(db, day), Some(row.maxCost), row.lane) == Admitted
    ensures Bounded(policy, db.rows + [row], day)
  {
    ReserveFloorProtects(policy.ceiling, policy.ratio);
    AppendSums(db.rows, row, day);
    OverrunsNonNegative(db.rows, day, Background);
    OutstandingNonNegative(db.rows, day);
    LaneChargeWithinTotal(db.rows, day, Background);
  }

  lemma AppendSums(rows: seq<Row>, row: Row, d: int)
    requires row.state.Reserved?
    ensures var more := rows + [row];
      && Sum(more, StoredOn(d)) == Sum(rows, StoredOn(d))
      && Outstanding(more, d) == Outstanding(rows, d) + (if row.day == d then row.maxCost else 0)
      && Sum(more, OverrunOn(d)) == Sum(rows, OverrunOn(d))
      && Sum(more, LaneChargeOn(d, Background)) == Sum(rows, LaneChargeOn(d, Background))
           + (if row.day == d && row.lane.Background? then row.maxCost else 0)
      && Sum(more, LaneOverrunOn(d, Background)) == Sum(rows, LaneOverrunOn(d, Background))
  {
    SumAppend(rows, row, StoredOn(d));
    SumAppend(rows, row, ReservedOn(d));
    SumAppend(rows, row, OverrunOn(d));
    SumAppend(rows, row, LaneChargeOn(d, Background));
    SumAppend(rows, row, LaneOverrunOn(d, Background));
  }

  lemma AppendKeeps(policy: Policy, db: Db, day: int, row: Row)
    requires policy.Valid() && InvBut(policy, db, {day}) && day in db.spent
    requires row.day == day && row.state.Reserved? && row.maxCost % STORAGE_SCALE_NANO == 0
    requires Admit(policy, StateAt(db, day), Some(row.maxCost), row.lane) == Admitted
    ensures InvBut(policy, db.(rows := db.rows + [row]), {day})
  {
    var after := db.(rows := db.rows + [row]);
    forall d ensures Bounded(policy, after.rows, d) {
      assert Bounded(policy, db.rows, d);
      if d == day {
        assert SpentExact(db, day);
        AdmittedRowFits(policy, db, day, row);
      } else {
        AppendSums(db.rows, row, d);
      }
    }
    forall d | d in after.spent ensures SpentExact(after, d) && (d != day ==> ReservedExact(after, d)) {
      assert SpentExact(db, d) && (d != day ==> ReservedExact(db, d));
      AppendSums(db.rows, row, d);
    }
  }

  lemma QuantizedIsStorable(maxCost: Option<int>)
    requires Quantized(maxCost).Some? && 0 <= Quantized(maxCost).value
    ensures Quantized(maxCost).value % STORAGE_SCALE_NANO == 0
  {
    QuantizeIsLeast(maxCost.value, 0);
  }

  lemma ReserveKeeps(policy: Policy, db: Db, kind: RequestKind, model: string, maxCost: Option<int>,
                     priority: Priority, now: Time)
    requires policy.Valid() && Inv(policy, db)
    ensures Inv(policy, Reserve(policy, db, kind, model, maxCost, priority, now).0)
  {
    if ModelNameFits(model) {
      var day := UtcDay(now);
      var locked := Locked(db, day, now);
      LockedKeeps(policy, db, day, now);
      var quantized := Quantized(maxCost);
      if Admit(policy, StateAt(locked, day), quantized, priority).Admitted? {
        QuantizedIsStorable(maxCost);
        var row := Row(day, kind, model, priority, quantized.value, now + RESERVATION_EXPIRY, Reserved);
        AppendKeeps(policy, locked, day, row);
        RefreshRestores(policy, locked.(rows := locked.rows + [row]), day);
      } else {
        RefreshRestores(policy, locked, day);
      }
    }
  }

  // ---- Settling and releasing ----

  /** Replacing one reserved row's state moves each sum by exactly that row. */
  lemma ReplaceSums(rows: seq<Row>, i: nat, state: RowState, d: int, lane: Priority)
    requires i < |rows| && rows[i].state.Reserved? && !state.Reserved?
    ensures var r := rows[i]; var r' := r.(state := state); var rows' := rows[i := r'];
      && Sum(rows', StoredOn(d)) == Sum(rows, StoredOn(d)) + (if r.day == d then Charge(r') else 0)
      && Outstanding(rows', d) == Outstanding(rows, d) - (if r.day == d then r.maxCost else 0)
      && Sum(rows', OverrunOn(d)) == Sum(rows, OverrunOn(d)) + (if r.day == d then Overrun(r') else 0)
      && Sum(rows', LaneChargeOn(d, lane)) ==
           Sum(rows, LaneChargeOn(d, lane)) + (if r.day == d && r.lane == lane then Charge(r') - r.maxCost else 0)
      && Sum(rows', LaneOverrunOn(d, lane)) ==
           Sum(rows, LaneOverrunOn(d, lane)) + (if r.day == d && r.lane == lane then Overrun(r') else 0)
  {
    var r' := rows[i].(state := state);
    SumUpdate(rows, i, r', StoredOn(d));
    SumUpdate(rows, i, r', ReservedOn(d));
    SumUpdate(rows, i, r', OverrunOn(d));
    SumUpdate(rows, i, r', LaneChargeOn(d, lane));
    SumUpdate(rows, i, r', LaneOverrunOn(d, lane));
  }

  lemma ReplaceKeepsBounds(policy: Policy, rows: seq<Row>, i: nat, state: RowState, d: int)
    requires i < |rows| && rows[i].state.Reserved? && !state.Reserved?
    requires Bounded(policy, rows, d)
    ensures Bounded(policy, rows[i := rows[i].(state := state)], d)
  {
    ReplaceSums(rows, i, state, d, Background);
  }

  /** Clamping the running total commutes with adding: the column always holds the clamped exact sum. */
  lemma ClampedTotal(total: nat, storable: nat)
    ensures var spent := Min(MAX_STORABLE_NANO, total);
      spent + Added(storable, spent) == Min(MAX_STORABLE_NANO, total + storable)
  {
  }

  lemma StoredNonNegative(rows: seq<Row>, d: int)
    ensures 0 <= Sum(rows, StoredOn(d))
  {
    SumNonNegative(rows, StoredOn(d));
  }

  lemma ReleaseKeeps(policy: Policy, db: Db, r: Reservation)
    requires Inv(policy, db) && Issued(db, r)
    ensures Inv(policy, Release(db, r).0)
  {
    EnsureDayKeeps(policy, db, r.day);
    var locked := EnsureDay(db, r.day);
    if locked.rows[r.id].state.Reserved? {
      var written := locked.(rows := locked.rows[r.id := locked.rows[r.id].(state := Released)]);
      forall d ensures Bounded(policy, written.rows, d) {
        assert Bounded(policy, locked.rows, d);
        ReplaceKeepsBounds(policy, locked.rows, r.id, Released, d);
      }
      forall d | d in written.spent ensures SpentExact(written, d) && (d != r.day ==> ReservedExact(written, d)) {
        assert SpentExact(locked, d) && ReservedExact(locked, d);
        ReplaceSums(locked.rows, r.id, Released, d, Background);
      }
      RefreshRestores(policy, written, r.day);
    }
  }

  /** The rows and the day's total after a charge; the reserved figure and the breaker are still as they were. */
  ghost function Charged(locked: Db, r: Reservation, storable: nat, now: Time): Db
    requires r.id < |locked.rows|
  {
    locked.(rows := locked.rows[r.id := locked.rows[r.id].(state := Completed(storable, now))],
            spent := locked.spent[r.day := SpentOn(locked, r.day) + Added(storable, SpentOn(locked, r.day))])
  }

  lemma ChargeKeepsTotals(policy: Policy, locked: Db, r: Reservation, storable: nat, now: Time)
    requires Inv(policy, locked) && Issued(locked, r) && r.day in locked.spent
    requires locked.rows[r.id].state.Reserved?
    ensures TotalsExact(Charged(locked, r, storable, now), {r.day})
  {
    var charged := Charged(locked, r, storable, now);
    forall d | d in charged.spent ensures SpentExact(charged, d) && (d != r.day ==> ReservedExact(charged, d)) {
      assert SpentExact(locked, d) && ReservedExact(locked, d);
      ReplaceSums(locked.rows, r.id, Completed(storable, now), d, Background);
      StoredNonNegative(locked.rows, d);
      ClampedTotal(Sum(locked.rows, StoredOn(d)), storable);
    }
  }

  lemma SettleKeeps(policy: Policy, db: Db, r: Reservation, actual: int, now: Time)
    requires Inv(policy, db) && Issued(db, r)
    ensures Inv(policy, Settle(db, r, actual, now).0)
  {
    hide QuantizeStorable, StorableActualCost, Sum;
    EnsureDayKeeps(policy, db, r.day);
    var locked := EnsureDay(db, r.day);
    if locked.rows[r.id].state.Reserved? {
      var storable := StorableActualCost(actual);
      StorableIsStorable(actual);
      StoredOverrunIsBreach(r.maxCost, actual);
      ChargeKeepsTotals(policy, locked, r, storable, now);
      var after := Settle(db, r, actual, now).0;
      // Tripping the breaker and rewriting the reserved figure touch different columns.
      var charged := Charged(locked, r, storable, now).(circuit := after.circuit);
      forall d | d in charged.spent ensures SpentExact(charged, d) && (d != r.day ==> ReservedExact(charged, d)) {
        assert SpentExact(Charged(locked, r, storable, now), d);
        assert d != r.day ==> ReservedExact(Charged(locked, r, storable, now), d);
      }
      forall d ensures Bounded(policy, charged.rows, d) {
        assert Bounded(policy, locked.rows, d);
        ReplaceKeepsBounds(policy, locked.rows, r.id, Completed(storable, now), d);
      }
      RefreshRestores(policy, charged, r.day);
      assert after == RefreshReserved(charged, r.day);
    }
  }

  lemma ApplyKeeps(policy: Policy, db: Db, txn: Txn)
    requires policy.Valid() && Inv(policy, db) && Enabled(db, txn)
    ensures Inv(policy, Apply(policy, db, txn))
  {
    match txn
    case ReserveTxn(kind, model, maxCost, priority, now) =>
      ReserveKeeps(policy, db, kind, model, maxCost, priority, now);
    case SettleTxn(r, actual, now) => SettleKeeps(policy, db, r, actual, now);
    case ReleaseTxn(r) => ReleaseKeeps(policy, db, r);
  }

  lemma EmptyInv(policy: Policy)
    requires policy.Valid()
    ensures Inv(policy, EMPTY)
  {
    ReserveFloorProtects(policy.ceiling, policy.ratio);
    forall d ensures Bounded(policy, EMPTY.rows, d) {
    }
  }

  /** Every state a run of committed transactions can reach satisfies the invariant. */
  lemma {:induction false} RunKeeps(policy: Policy, start: Db, txns: seq<Txn>, end: Db)
    requires policy.Valid() && Inv(policy, start) && Runs(policy, start, txns, end)
    ensures Inv(policy, end)
    decreases |txns|
  {
    if txns != [] {
      ApplyKeeps(policy, start, txns[0]);
      RunKeeps(policy, Apply(policy, start, txns[0]), txns[1..], end);
    }
  }
}
