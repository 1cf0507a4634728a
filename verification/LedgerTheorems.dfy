/** The ledger's promises, over every run of committed transactions from an empty database. */
module LedgerTheorems {
  import opened Wrappers
  import opened Budget
  import opened Ledger
  import opened LedgerSafety

  ghost predicate Reachable(policy: Policy, db: Db) {
    exists txns :: Runs(policy, EMPTY, txns, db)
  }

  lemma ReachableInv(policy: Policy, db: Db)
    requires policy.Valid() && Reachable(policy, db)
    ensures Inv(policy, db)
  {
    var txns :| Runs(policy, EMPTY, txns, db);
    EmptyInv(policy);
    RunKeeps(policy, EMPTY, txns, db);
  }

  ghost predicate BreachFreeDay(db: Db, d: int) {
    forall i | 0 <= i < |db.rows| && db.rows[i].day == d :: Overrun(db.rows[i]) == 0
  }

  lemma BreachFreeSums(db: Db, d: int)
    requires BreachFreeDay(db, d)
    ensures Sum(db.rows, OverrunOn(d)) == 0 && Sum(db.rows, LaneOverrunOn(d, Background)) == 0
  {
    var zero: Row -> int := (r: Row) => 0;
    SumSplit(db.rows, zero, zero, zero);
    SumLe(db.rows, db.rows, OverrunOn(d), zero);
    SumLe(db.rows, db.rows, LaneOverrunOn(d, Background), zero);
    OverrunsNonNegative(db.rows, d, Background);
  }

  // ---- Money ----

  /** Charged plus reserved money never exceeds the ceiling by more than what completions overran. */
  lemma MoneyBound(policy: Policy, db: Db, d: int)
    requires policy.Valid() && Reachable(policy, db)
    ensures SpentOn(db, d) + Outstanding(db.rows, d) <= policy.ceiling + Sum(db.rows, OverrunOn(d))
    ensures BreachFreeDay(db, d) ==> Sum(db.rows, StoredOn(d)) + Outstanding(db.rows, d) <= policy.ceiling
  {
    ReachableInv(policy, db);
    assert Bounded(policy, db.rows, d);
    StoredNonNegative(db.rows, d);
    if d in db.spent { assert SpentExact(db, d); }
    if BreachFreeDay(db, d) { BreachFreeSums(db, d); }
  }

  /** Totals are never approximations: the day row always agrees with the rows it summarizes. */
  lemma TotalsAreExact(policy: Policy, db: Db, d: int)
    requires policy.Valid() && Reachable(policy, db)
    ensures SpentOn(db, d) == Min(MAX_STORABLE_NANO, Sum(db.rows, StoredOn(d)))
    ensures (if d in db.reservedUsd then db.reservedUsd[d] else 0) == Outstanding(db.rows, d)
  {
    ReachableInv(policy, db);
    if d in db.spent {
      assert SpentExact(db, d) && ReservedExact(db, d);
    } else {
      NoRowsNoSum(db.rows, d);
    }
  }

  // ---- The protected reserve ----

  lemma BackgroundStaysOutOfReserve(policy: Policy, db: Db, d: int)
    requires policy.Valid() && Reachable(policy, db) && BreachFreeDay(db, d)
    ensures Sum(db.rows, LaneChargeOn(d, Background)) <= policy.ceiling - policy.Floor()
  {
    ReachableInv(policy, db);
    assert Bounded(policy, db.rows, d);
    BreachFreeSums(db, d);
  }

  lemma ChargesSplitByLane(rows: seq<Row>, d: int)
    ensures Sum(rows, StoredOn(d)) + Outstanding(rows, d)
         == Sum(rows, LaneChargeOn(d, ImmediateHuman)) + Sum(rows, LaneChargeOn(d, Background))
  {
    var total := (r: Row) => StoredOn(d)(r) + ReservedOn(d)(r);
    SumSplit(rows, total, StoredOn(d), ReservedOn(d));
    SumSplit(rows, total, LaneChargeOn(d, ImmediateHuman), LaneChargeOn(d, Background));
  }

  /** Whatever the day holds beyond what humans hold stays clear of the reserve. */
  lemma RoomForHumans(policy: Policy, db: Db, day: int, now: Time)
    requires policy.Valid() && Inv(policy, db) && db.circuit.None?
    ensures var locked := Locked(db, day, now);
      && locked.circuit.None?
      && StateAt(locked, day).Committed()
           <= policy.ceiling - policy.Floor() + Sum(locked.rows, LaneChargeOn(day, ImmediateHuman))
  {
    LockedKeeps(policy, db, day, now);
    var locked := Locked(db, day, now);
    hide Locked, SweepDay;
    assert Bounded(policy, locked.rows, day) && SpentExact(locked, day);
    assert BreachFreeDay(locked, day);
    BreachFreeSums(locked, day);
    ChargesSplitByLane(locked.rows, day);
  }

  /**
   * While the breaker is closed, a human request that fits in the reserve less what humans already
   * hold today is always granted, whatever background work the day has run.
   */
  lemma HumanReserveIsGuaranteed(policy: Policy, db: Db, kind: RequestKind, model: string, maxCost: int, now: Time)
    requires policy.Valid() && Reachable(policy, db) && db.circuit.None? && ModelNameFits(model)
    requires var day := UtcDay(now);
      0 <= maxCost && QuantizeStorable(maxCost)
        <= policy.Floor() - Sum(Sweep(db.rows, day, now), LaneChargeOn(day, ImmediateHuman))
    ensures var (after, result) := Reserve(policy, db, kind, model, Some(maxCost), ImmediateHuman, now);
      && result.Granted?
      && result.reservation == Reservation(|db.rows|, UtcDay(now), QuantizeStorable(maxCost))
      && Issued(after, result.reservation) && after.rows[|db.rows|].state.Reserved?
  {
    hide Inv, Sum, QuantizeStorable, ReserveFloor, Outstanding;
    ReachableInv(policy, db);
    RoomForHumans(policy, db, UtcDay(now), now);
    QuantizeIsLeast(maxCost, 0);
    ReserveFloorProtects(policy.ceiling, policy.ratio);
  }

  /** What the day holds for both lanes together: what its rows charge. */
  ghost function HeldOn(rows: seq<Row>, d: int): int {
    Sum(rows, LaneChargeOn(d, ImmediateHuman)) + Sum(rows, LaneChargeOn(d, Background))
  }

  /** With the breaker closed, what a reservation is decided on is what the unexpired rows of its day really hold. */
  lemma CommittedIsHeld(policy: Policy, db: Db, day: int, now: Time)
    requires policy.Valid() && Reachable(policy, db) && db.circuit.None?
    ensures var locked := Locked(db, day, now);
      && locked.circuit.None? && locked.rows == Sweep(db.rows, day, now)
      && StateAt(locked, day).Committed() == HeldOn(locked.rows, day)
  {
    ReachableInv(policy, db);
    LockedKeeps(policy, db, day, now);
    var locked := Locked(db, day, now);
    hide Sum, Sweep;
    assert Bounded(policy, locked.rows, day) && SpentExact(locked, day);
    assert BreachFreeDay(locked, day);
    BreachFreeSums(locked, day);
    ChargesSplitByLane(locked.rows, day);
    OutstandingNonNegative(locked.rows, day);
  }

  /**
   * Exactly who is let in while the breaker is closed, in every reachable state: whoever fits under the ceiling on top
   * of what the day holds, and of those, background work only if the exact protected share stays untouched.
   */
  lemma GrantedIffItFits(policy: Policy, db: Db, kind: RequestKind, model: string, maxCost: Option<int>,
                         lane: Priority, now: Time)
    requires policy.Valid() && Reachable(policy, db) && db.circuit.None?
    ensures var result := Reserve(policy, db, kind, model, maxCost, lane, now).1;
      result.BadModelName? <==> |model| == 0 || |model| > 64
    ensures 0 < |model| <= 64 ==>
      var result := Reserve(policy, db, kind, model, maxCost, lane, now).1;
      && (result == Refused(DeniedUnknownPricing) <==> maxCost.None?)
      && (result == Refused(DeniedInvalidRequest) <==> maxCost.Some? && maxCost.value < 0)
    ensures 0 < |model| <= 64 && maxCost.Some? && 0 <= maxCost.value ==>
      var result := Reserve(policy, db, kind, model, maxCost, lane, now).1;
      var held := HeldOn(Sweep(db.rows, UtcDay(now), now), UtcDay(now)) + QuantizeStorable(maxCost.value);
      var intoShare := policy.ceiling as real * policy.ratio > (policy.ceiling - held) as real;
      && (result.Granted? <==> held <= policy.ceiling && (lane == Background ==> !intoShare))
      && (result == Refused(DeniedCeiling) <==> held > policy.ceiling)
      && (result == Refused(DeniedReserve) <==> held <= policy.ceiling && lane == Background && intoShare)
  {
    var day := UtcDay(now);
    var locked := Locked(db, day, now);
    CommittedIsHeld(policy, db, day, now);
    if maxCost.Some? { QuantizeIsLeast(maxCost.value, 0); }
    hide Locked, QuantizeStorable, Admit, HeldOn, Reachable, Sweep;
    AdmissionByTheNumbers(policy, StateAt(locked, day), Quantized(maxCost), lane);
  }

  // ---- One life per row ----

  ghost predicate RowEvolves(before: Row, after: Row) {
    && after == before.(state := after.state)
    && (!before.state.Reserved? ==> after == before)
  }

  ghost predicate Evolves(before: Db, after: Db) {
    && |before.rows| <= |after.rows|
    && (forall i | 0 <= i < |before.rows| :: RowEvolves(before.rows[i], after.rows[i]))
    && (before.circuit.Some? ==> after.circuit.Some?)
    && before.spent.Keys <= after.spent.Keys
  }

  lemma ApplyEvolves(policy: Policy, db: Db, txn: Txn)
    requires Enabled(db, txn)
    ensures Evolves(db, Apply(policy, db, txn))
  {
    hide Sum, QuantizeStorable, StorableActualCost, ReserveFloor;
  }

  /** Over any run a row keeps its identity and leaves `reserved` at most once; the breaker never closes. */
  lemma {:induction false} RunEvolves(policy: Policy, start: Db, txns: seq<Txn>, end: Db)
    requires Runs(policy, start, txns, end)
    ensures Evolves(start, end)
    decreases |txns|
  {
    if txns != [] {
      var next := Apply(policy, start, txns[0]);
      ApplyEvolves(policy, start, txns[0]);
      RunEvolves(policy, next, txns[1..], end);
    }
  }

  /** Once a row left `reserved`, no later settlement or release of it touches any row or any total. */
  lemma LeftReservedIsFinal(policy: Policy, start: Db, txns: seq<Txn>, end: Db, r: Reservation, actual: int, now: Time)
    requires Runs(policy, start, txns, end)
    requires Issued(start, r) && !start.rows[r.id].state.Reserved? && r.day in start.spent
    ensures Settle(end, r, actual, now) == (end, Receipt(false, None, false, false))
    ensures Release(end, r) == (end, false)
  {
    RunEvolves(policy, start, txns, end);
  }

  /** A settlement charges the day exactly when it completes its own row, and only by that row's stored cost. */
  lemma SettleChargesOnlyItsRow(policy: Policy, db: Db, r: Reservation, actual: int, now: Time)
    requires policy.Valid() && Reachable(policy, db) && Issued(db, r)
    ensures var (after, receipt) := Settle(db, r, actual, now);
      && receipt.completed == db.rows[r.id].state.Reserved?
      && (!receipt.completed ==> after.rows == db.rows && forall d :: SpentOn(after, d) == SpentOn(db, d))
      && (receipt.completed ==>
            && receipt.stored == Some(StorableActualCost(actual))
            && after.rows[r.id] == db.rows[r.id].(state := Completed(StorableActualCost(actual), now))
            && (forall i | 0 <= i < |db.rows| && i != r.id :: after.rows[i] == db.rows[i])
            && SpentOn(after, r.day)
              == Min(MAX_STORABLE_NANO, Sum(db.rows, StoredOn(r.day)) + StorableActualCost(actual))
            && forall d | d != r.day :: SpentOn(after, d) == SpentOn(db, d))
  {
    TotalsAreExact(policy, db, r.day);
    StoredNonNegative(db.rows, r.day);
    ClampedTotal(Sum(db.rows, StoredOn(r.day)), StorableActualCost(actual));
  }

  /** Sweeping twice at one instant is sweeping once, and a row that expires later is not swept at all. */
  lemma SweptStaysSwept(rows: seq<Row>, row: Row, day: int, now: Time)
    requires row.expiresAt > now
    ensures var swept := Sweep(rows, day, now);
      Sweep(swept, day, now) == swept && Sweep(swept + [row], day, now) == swept + [row]
  {
  }

  /** One more row for ten minutes, within the ceiling on top of what the swept day already owes. */
  ghost predicate Appended(policy: Policy, db: Db, after: Db, row: Row, now: Time) {
    var day, swept := UtcDay(now), Sweep(db.rows, UtcDay(now), now);
    && after.rows == swept + [row] && row.day == day && row.state.Reserved? && row.expiresAt == now + 600_000_000
    && SpentOn(db, day) + Outstanding(swept, day) + row.maxCost <= policy.ceiling
  }

  /** A granted reservation is one more row of what was asked for; a refused one only sweeps. */
  lemma ReserveAppendsOneRow(policy: Policy, db: Db, kind: RequestKind, model: string, maxCost: Option<int>,
                             lane: Priority, now: Time)
    requires ModelNameFits(model)
    ensures var (after, result) := Reserve(policy, db, kind, model, maxCost, lane, now);
      && (forall d :: SpentOn(after, d) == SpentOn(db, d)) && after.circuit == db.circuit
      && if result.Granted? then
           && |after.rows| == |db.rows| + 1 && Appended(policy, db, after, after.rows[|db.rows|], now)
           && after.rows[|db.rows|].kind == kind && after.rows[|db.rows|].lane == lane
           && result.reservation == Reservation(|db.rows|, UtcDay(now), after.rows[|db.rows|].maxCost)
         else after.rows == Sweep(db.rows, UtcDay(now), now)
  {
    hide Sum, ReserveFloor;
  }

  /**
   * A granted reservation is one more row for ten minutes, and what is owed grows by exactly its maximum and stays
   * within the ceiling; a refusal only sweeps and owes nothing new.
   */
  lemma ReserveHoldsItsMaximum(policy: Policy, db: Db, kind: RequestKind, model: string, maxCost: Option<int>,
                               lane: Priority, now: Time)
    requires ModelNameFits(model)
    ensures var (after, result) := Reserve(policy, db, kind, model, maxCost, lane, now);
      && (if result.Granted? then
            |after.rows| == |db.rows| + 1 && Appended(policy, db, after, after.rows[|db.rows|], now)
          else after.rows == Sweep(db.rows, UtcDay(now), now))
      && Snapshot(after, now).settled == Snapshot(db, now).settled
      && Snapshot(after, now).outstanding
           == Snapshot(db, now).outstanding + (if result.Granted? then result.reservation.maxCost else 0)
      && (result.Granted? ==> Snapshot(after, now).Committed() <= policy.ceiling)
  {
    hide Reserve, Sweep, Sum;
    var day := UtcDay(now);
    var (after, result) := Reserve(policy, db, kind, model, maxCost, lane, now);
    var swept := Sweep(db.rows, day, now);
    ReserveAppendsOneRow(policy, db, kind, model, maxCost, lane, now);
    LiveIsSweptReserved(db.rows, day, now);
    LiveIsSweptReserved(after.rows, day, now);
    var row := if result.Granted? then after.rows[|db.rows|] else Row(day, kind, model, lane, 0, now + 1, Reserved);
    SweptStaysSwept(db.rows, row, day, now);
    SumAppend(swept, row, ReservedOn(day));
  }

  /** A release frees exactly its row's maximum and touches no other row, no total of money spent, and no breaker. */
  lemma ReleaseFreesItsMaximum(policy: Policy, db: Db, r: Reservation)
    requires Issued(db, r)
    ensures var (after, released) := Release(db, r);
      && released == db.rows[r.id].state.Reserved?
      && (forall d :: SpentOn(after, d) == SpentOn(db, d)) && after.circuit == db.circuit
      && |after.rows| == |db.rows| && (forall i | 0 <= i < |db.rows| && i != r.id :: after.rows[i] == db.rows[i])
      && after.rows[r.id] == (if released then db.rows[r.id].(state := Released) else db.rows[r.id])
      && Outstanding(after.rows, r.day) == Outstanding(db.rows, r.day) - (if released then r.maxCost else 0)
  {
    if db.rows[r.id].state.Reserved? {
      SumUpdate(db.rows, r.id, db.rows[r.id].(state := Released), ReservedOn(r.day));
    }
  }

  // ---- Saturation ----

  /** A day's total can only saturate on a day where some completion overran its reservation. */
  lemma SaturationImpliesOverrun(policy: Policy, db: Db, r: Reservation, actual: int, now: Time) returns (i: nat)
    requires policy.Valid() && Reachable(policy, db) && Issued(db, r)
    requires Settle(db, r, actual, now).1.saturated
    ensures var after := Settle(db, r, actual, now).0;
      i < |after.rows| && after.rows[i].day == r.day && Overrun(after.rows[i]) > 0
  {
    ReachableInv(policy, db);
    SettleKeeps(policy, db, r, actual, now);
    var after := Settle(db, r, actual, now).0;
    TotalsAreExact(policy, db, r.day);
    ReplaceSums(db.rows, r.id, Completed(StorableActualCost(actual), now), r.day, Background);
    OutstandingNonNegative(after.rows, r.day);
    assert Bounded(policy, after.rows, r.day);
    i := SumWitness(after.rows, OverrunOn(r.day));
  }

  /**
   * A settlement opens the breaker exactly when the report is impossible or the day cannot take it, and then the
   * breaker says which, by how much, and when; otherwise the breaker stays as it was.
   */
  lemma BreakerSaysWhy(policy: Policy, db: Db, r: Reservation, actual: int, now: Time)
    requires policy.Valid() && Reachable(policy, db) && Issued(db, r)
    ensures var (after, receipt) := Settle(db, r, actual, now);
      var stored := StorableActualCost(actual);
      var impossible := actual < 0 || actual > r.maxCost;
      var tooMuch := 0 < stored && Sum(db.rows, StoredOn(r.day)) + stored > MAX_STORABLE_NANO;
      if !receipt.completed || (!impossible && !tooMuch) then after.circuit == db.circuit
      else
        after.circuit == Some(Trip(
          if impossible then Some(actual) else None,
          if tooMuch then Some(stored - (SpentOn(after, r.day) - SpentOn(db, r.day))) else None, now))
  {
    TotalsAreExact(policy, db, r.day);
    StoredNonNegative(db.rows, r.day);
    hide Sum, StorableActualCost, Reachable;
  }

  /**
   * A completion priced from counts within the limits its reservation was priced at never breaches,
   * and if no completion of its day ever overran, it never saturates either.
   */
  lemma HonestSettlementIsOrdinary(policy: Policy, db: Db, r: Reservation, counted: int, limit: int, usedIn: int,
                                   usedOut: int, p: Option<real>, q: Option<real>, now: Time)
    requires policy.Valid() && Reachable(policy, db) && Issued(db, r)
    requires 0 <= usedIn <= counted && 0 <= usedOut <= limit && TokenCost(counted, limit, p, q).Some?
    requires r.maxCost == QuantizeStorable(TokenCost(counted, limit, p, q).value)
    ensures TokenCost(usedIn, usedOut, p, q).Some?
    ensures var (after, receipt) := Settle(db, r, TokenCost(usedIn, usedOut, p, q).value, now);
      && !receipt.breach
      && (BreachFreeDay(db, r.day) ==> !receipt.saturated && BreachFreeDay(after, r.day) && after.circuit == db.circuit)
  {
    HonestUsageNeverBreaches(counted, limit, usedIn, usedOut, p, q);
    var actual := TokenCost(usedIn, usedOut, p, q).value;
    ReachableInv(policy, db);
    StoredOverrunIsBreach(r.maxCost, actual);
    var (after, receipt) := Settle(db, r, actual, now);
    if BreachFreeDay(db, r.day) {
      assert BreachFreeDay(after, r.day);
      if receipt.saturated {
        var i := SaturationImpliesOverrun(policy, db, r, actual, now);
      }
    }
  }

  // ---- Reading without the lock ----

  /** Excluding unswept expiries from the read is the same as sweeping first. */
  lemma {:induction false} LiveIsSweptReserved(rows: seq<Row>, day: int, now: Time)
    ensures Sum(rows, LiveOn(day, now)) == Outstanding(Sweep(rows, day, now), day)
  {
    var swept := Sweep(rows, day, now);
    SumLe(rows, swept, LiveOn(day, now), ReservedOn(day));
    SumLe(swept, rows, ReservedOn(day), LiveOn(day, now));
  }

  /** The unlocked snapshot is exactly what a reservation at the same instant would be decided on. */
  lemma SnapshotAgreesWithReserve(policy: Policy, db: Db, kind: RequestKind, model: string, maxCost: Option<int>,
                                  priority: Priority, now: Time)
    requires ModelNameFits(model)
    ensures Snapshot(db, now) == StateAt(Locked(db, UtcDay(now), now), UtcDay(now))
    ensures var predicted := Admit(policy, Snapshot(db, now), Quantized(maxCost), priority);
      var result := Reserve(policy, db, kind, model, maxCost, priority, now).1;
      if predicted.Admitted? then result.Granted? else result == Refused(predicted)
  {
    LiveIsSweptReserved(db.rows, UtcDay(now), now);
  }
}
