/**
 * The ledger as the program runs it: one object whose methods change rows, totals, and the
 * breaker statement by statement, each method one committed transaction. Every method is proved to
 * leave exactly the state its transaction in `Ledger` describes, and to keep the invariant.
 */
module BudgetLedgerClass {
  import opened Wrappers
  import opened Budget
  import opened Ledger
  import opened LedgerSafety
  import opened LedgerTheorems

  class BudgetLedger {
    const policy: Policy
    var rows: seq<Row>
    var spent: map<int, nat>
    var reservedUsd: map<int, nat>
    var circuit: Option<Trip>

    function View(): Db
      reads this
    {
      Db(rows, spent, reservedUsd, circuit)
    }

    ghost predicate Valid()
      reads this
    {
      policy.Valid() && Inv(policy, View())
    }

    constructor (policy: Policy)
      requires policy.Valid()
      ensures Valid() && this.policy == policy && View() == EMPTY
    {
      this.policy := policy;
      rows, spent, reservedUsd, circuit := [], map[], map[], None;
      new;
      EmptyInv(policy);
    }

    /** Takes the day row, creating it when missing, and reads its total and the breaker. */
    method LockDay(day: int) returns (spentNano: nat, circuitOpen: bool)
      modifies this`spent, this`reservedUsd
      ensures View() == EnsureDay(old(View()), day)
      ensures day in spent && spentNano == spent[day] == SpentOn(View(), day) && circuitOpen == circuit.Some?
    {
      if day !in spent {
        spent := spent[day := 0];
        reservedUsd := reservedUsd[day := 0];
      }
      spentNano := spent[day];
      circuitOpen := circuit.Some?;
    }

    /** Reclaims the day's expired rows, then sums what is still reserved. */
    method OutstandingNano(day: int, now: Time) returns (total: int)
      modifies this`rows
      ensures View() == SweepDay(old(View()), day, now)
      ensures total == Outstanding(rows, day)
    {
      ghost var before := rows;
      for i := 0 to |rows|
        invariant |rows| == |before|
        invariant rows[..i] == Sweep(before, day, now)[..i] && rows[i..] == before[i..]
      {
        var r := rows[i];
        assert r == before[i];
        if r.day == day && r.state.Reserved? && r.expiresAt <= now {
          rows := rows[i := r.(state := Expired)];
        }
      }
      assert rows == Sweep(before, day, now);
      total := SumReserved(day);
    }

    method SumReserved(day: int) returns (total: int)
      ensures total == Outstanding(rows, day)
    {
      total := 0;
      assert rows[..0] == [];
      for i := 0 to |rows|
        invariant total == Outstanding(rows[..i], day)
      {
        SumAppend(rows[..i], rows[i], ReservedOn(day));
        assert rows[..i + 1] == rows[..i] + [rows[i]];
        if rows[i].day == day && rows[i].state.Reserved? { total := total + rows[i].maxCost; }
      }
      assert rows[..|rows|] == rows;
    }

    /** Derived from the rows rather than adjusted, so it cannot drift. */
    method RewriteReserved(day: int)
      modifies this`reservedUsd
      ensures View() == RefreshReserved(old(View()), day)
    {
      var total := SumReserved(day);
      OutstandingNonNegative(rows, day);
      reservedUsd := reservedUsd[day := total];
    }

    method Reserve(kind: RequestKind, model: string, maxCost: Option<int>, priority: Priority, now: Time)
      returns (result: ReserveResult)
      requires Valid()
      modifies this
      ensures Valid() && (View(), result) == Ledger.Reserve(policy, old(View()), kind, model, maxCost, priority, now)
      ensures result.Granted? ==>
        && Issued(View(), result.reservation) && rows[result.reservation.id].state.Reserved?
        && result.reservation.id == |old(rows)| && result.reservation.day == UtcDay(now)
        && circuit.None?
    {
      ReserveKeeps(policy, View(), kind, model, maxCost, priority, now);
      if |model| == 0 || |model| > MODEL_NAME_LIMIT { return BadModelName; }
      var quantized := maxCost;
      if quantized.Some? && quantized.value > 0 {
        quantized := Some(QuantizeStorable(quantized.value));
      }
      var day := UtcDay(now);
      var spentNano, circuitOpen := LockDay(day);
      var outstanding := OutstandingNano(day, now);
      var decision := Admit(policy, BudgetState(spentNano, outstanding, circuitOpen), quantized, priority);
      if !decision.Admitted? {
        // The sweep may have reclaimed rows although nothing was admitted.
        RewriteReserved(day);
        return Refused(decision);
      }
      var id := |rows|;
      rows := rows + [Row(day, kind, model, priority, quantized.value, now + RESERVATION_EXPIRY, Reserved)];
      RewriteReserved(day);
      result := Granted(Reservation(id, day, quantized.value));
    }

    method Settle(reservation: Reservation, actual: int, now: Time) returns (receipt: Receipt)
      requires Valid() && Issued(View(), reservation)
      modifies this
      ensures Valid() && (View(), receipt) == Ledger.Settle(old(View()), reservation, actual, now)
      ensures receipt.completed ==> rows[reservation.id].state == Completed(StorableActualCost(actual), now)
      ensures !receipt.completed ==> rows == old(rows) && circuit == old(circuit)
      ensures receipt.breach || receipt.saturated ==> circuit.Some?
    {
      SettleKeeps(policy, View(), reservation, actual, now);
      receipt := SettleRow(reservation, actual, now);
    }

    /** The statements of a settlement, in order. */
    method SettleRow(reservation: Reservation, actual: int, now: Time) returns (receipt: Receipt)
      requires Issued(View(), reservation)
      modifies this
      ensures (View(), receipt) == Ledger.Settle(old(View()), reservation, actual, now)
    {
      var breach := CircuitShouldOpen(reservation.maxCost, actual);
      var storable := StorableActualCost(actual);
      var spentBefore, _ := LockDay(reservation.day);
      ghost var locked := View();
      if !rows[reservation.id].state.Reserved? { return Receipt(false, None, false, false); }
      rows := rows[reservation.id := rows[reservation.id].(state := Completed(storable, now))];
      var headroom := MAX_STORABLE_NANO - spentBefore;
      var added := Max(0, Min(storable, headroom));
      var saturated := added < storable;
      spent := spent[reservation.day := spentBefore + added];
      assert View() == Charged(locked, reservation, storable, now);
      RewriteReserved(reservation.day);
      if breach || saturated {
        circuit := Some(TripFor(reservation, actual, storable, added, now));
      }
      receipt := Receipt(true, Some(storable), breach, saturated);
    }

    method Release(reservation: Reservation) returns (released: bool)
      requires Valid() && Issued(View(), reservation)
      modifies this
      ensures Valid() && (View(), released) == Ledger.Release(old(View()), reservation)
      ensures released ==> rows[reservation.id].state == Released
      ensures !released ==> rows == old(rows)
      ensures circuit == old(circuit)
    {
      ReleaseKeeps(policy, View(), reservation);
      var _, _ := LockDay(reservation.day);
      released := rows[reservation.id].state.Reserved?;
      if released {
        rows := rows[reservation.id := rows[reservation.id].(state := Released)];
        RewriteReserved(reservation.day);
      }
    }

    /** Takes no lock and writes nothing. */
    method ReadSnapshot(now: Time) returns (state: BudgetState)
      ensures state == Snapshot(View(), now)
      ensures state == StateAt(Locked(View(), UtcDay(now), now), UtcDay(now))
    {
      var day := UtcDay(now);
      var spentNano := if day in spent then spent[day] else 0;
      var live := 0;
      assert rows[..0] == [];
      for i := 0 to |rows|
        invariant live == Sum(rows[..i], LiveOn(day, now))
      {
        SumAppend(rows[..i], rows[i], LiveOn(day, now));
        assert rows[..i + 1] == rows[..i] + [rows[i]];
        if rows[i].day == day && rows[i].state.Reserved? && rows[i].expiresAt > now {
          live := live + rows[i].maxCost;
        }
      }
      assert rows[..|rows|] == rows;
      LiveIsSweptReserved(rows, day, now);
      state := BudgetState(spentNano, live, circuit.Some?);
    }
  }
}
