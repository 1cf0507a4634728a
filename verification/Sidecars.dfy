/**
 * Any number of sidecar processes sharing one database, interleaved one statement at a time.
 *
 * A transaction begins, waits for the named `budget_day` lock, runs its statements, and commits;
 * it may also roll back or die between any two of them. Statements read the committed state
 * under the transaction's own pending writes, and nothing pending is visible to anyone else. The lock is
 * exclusive until commit or rollback. The whole system is proved to refine the atomic transactions
 * of `Ledger`: what a process decides from rows it read several statements ago is still true when it commits.
 */
module Sidecars {
  import opened Wrappers
  import opened Budget
  import opened Ledger
  import opened LedgerSafety
  import opened LedgerTheorems

  // ---- Pending writes ----

  datatype Write =
    | PutDay(day: int)
    | ExpireRows(day: int, now: Time)
    | InsertRow(row: Row)
    | SetRowState(id: nat, state: RowState)
    | AddSpent(day: int, amount: nat)
    | SetReserved(day: int, amount: nat)
    | OpenCircuit(trip: Trip)

  function ApplyWrite(db: Db, w: Write): Db {
    match w
    case PutDay(day) => EnsureDay(db, day)
    case ExpireRows(day, now) => SweepDay(db, day, now)
    case InsertRow(row) => db.(rows := db.rows + [row])
    case SetRowState(id, state) =>
      if id < |db.rows| then db.(rows := db.rows[id := db.rows[id].(state := state)]) else db
    case AddSpent(day, amount) => db.(spent := db.spent[day := SpentOn(db, day) + amount])
    case SetReserved(day, amount) => db.(reservedUsd := db.reservedUsd[day := amount])
    case OpenCircuit(trip) => db.(circuit := Some(trip))
  }

  /** What a transaction sees: the committed state with its own writes on top. */
  function Seen(committed: Db, pending: seq<Write>): Db {
    if pending == [] then committed
    else ApplyWrite(Seen(committed, pending[..|pending| - 1]), pending[|pending| - 1])
  }

  lemma SeenOne(committed: Db, pending: seq<Write>, w: Write)
    ensures Seen(committed, pending + [w]) == ApplyWrite(Seen(committed, pending), w)
  {
    assert (pending + [w])[..|pending|] == pending;
  }

  // ---- One process ----

  datatype Outcome = Reserving(result: ReserveResult) | Settling(receipt: Receipt) | Releasing(released: bool)

  /** Where a transaction stands, with the values its statements have read into memory so far. */
  datatype Phase =
    | Waiting
    | Locked0
    | DayPut
    | SpentRead(spent: nat)
    | CircuitRead(spent: nat, open: bool)
    | Swept(spent: nat, open: bool)
    | Summed(spent: nat, open: bool, outstanding: int)
    | Decided(result: ReserveResult)
    | RowCompleted(spent: nat)
    | DayCharged(added: nat)
    | ChargeRefreshed(added: nat)
    | RowReleased
    | Ready(outcome: Outcome)

  datatype Process = Process(txn: Txn, phase: Phase, pending: seq<Write>)

  function DayOf(txn: Txn): int {
    match txn
    case ReserveTxn(_, _, _, _, now) => UtcDay(now)
    case SettleTxn(r, _, _) => r.day
    case ReleaseTxn(r) => r.day
  }

  function Refresh(seen: Db, day: int): Write {
    OutstandingNonNegative(seen.rows, day);
    SetReserved(day, Outstanding(seen.rows, day))
  }

  predicate StillReserved(seen: Db, id: nat) { id < |seen.rows| && seen.rows[id].state.Reserved? }

  /** A lock holder with a statement left to run, in a phase its kind of transaction goes through. */
  predicate HasStatement(p: Process) {
    match p.phase
    case Waiting => false
    case Ready(_) => false
    case Swept(_, _) => p.txn.ReserveTxn?
    case Summed(_, _, _) => p.txn.ReserveTxn?
    case Decided(_) => p.txn.ReserveTxn?
    case RowCompleted(_) => p.txn.SettleTxn?
    case DayCharged(_) => p.txn.SettleTxn?
    case ChargeRefreshed(_) => p.txn.SettleTxn?
    case RowReleased => p.txn.ReleaseTxn?
    case _ => true
  }

  /** The next statement of a transaction that holds the lock: at most one write, and a new phase. */
  function Statement(policy: Policy, p: Process, seen: Db): (Option<Write>, Phase)
    requires HasStatement(p)
  {
    var day := DayOf(p.txn);
    match p.phase
    case Locked0 => (Some(PutDay(day)), DayPut)
    case DayPut => (None, SpentRead(SpentOn(seen, day)))
    case SpentRead(spent) => (None, CircuitRead(spent, seen.circuit.Some?))
    case CircuitRead(spent, open) => AfterLockDay(p.txn, spent, open, seen)
    case Swept(spent, open) => (None, Summed(spent, open, Outstanding(seen.rows, day)))
    case Summed(spent, open, outstanding) => Decide(policy, p.txn, BudgetState(spent, outstanding, open), seen)
    case Decided(result) => (Some(Refresh(seen, day)), Ready(Reserving(result)))
    case RowCompleted(spent) => Charge(p.txn, spent)
    case DayCharged(added) => (Some(Refresh(seen, day)), ChargeRefreshed(added))
    case ChargeRefreshed(added) => Conclude(p.txn, added)
    case RowReleased => (Some(Refresh(seen, day)), Ready(Releasing(true)))
  }

  /** The statement after the day lock: a reservation sweeps, the other two move their row if it is still reserved. */
  function AfterLockDay(txn: Txn, spent: nat, open: bool, seen: Db): (Option<Write>, Phase) {
    match txn
    case ReserveTxn(_, _, _, _, now) => (Some(ExpireRows(UtcDay(now), now)), Swept(spent, open))
    case SettleTxn(r, actual, now) =>
      if StillReserved(seen, r.id) then
        (Some(SetRowState(r.id, Completed(StorableActualCost(actual), now))), RowCompleted(spent))
      else (None, Ready(Settling(Receipt(false, None, false, false))))
    case ReleaseTxn(r) =>
      if StillReserved(seen, r.id) then (Some(SetRowState(r.id, Released)), RowReleased)
      else (None, Ready(Releasing(false)))
  }

  /** The decision is made from memory; only the insert touches the database. */
  function Decide(policy: Policy, txn: Txn, state: BudgetState, seen: Db): (Option<Write>, Phase)
    requires txn.ReserveTxn?
  {
    var day := UtcDay(txn.now);
    var quantized := Quantized(txn.maxCost);
    var decision := Admit(policy, state, quantized, txn.priority);
    if !decision.Admitted? then (None, Decided(Refused(decision)))
    else
      var expiry := txn.now + RESERVATION_EXPIRY;
      (Some(InsertRow(Row(day, txn.kind, txn.model, txn.priority, quantized.value, expiry, Reserved))),
       Decided(Granted(Reservation(|seen.rows|, day, quantized.value))))
  }

  /** The amount is clamped by the total read under the lock, in memory. */
  function Charge(txn: Txn, spent: nat): (Option<Write>, Phase)
    requires txn.SettleTxn?
  {
    var added := Added(StorableActualCost(txn.actual), spent);
    (Some(AddSpent(txn.reservation.day, added)), DayCharged(added))
  }

  function Conclude(txn: Txn, added: nat): (Option<Write>, Phase)
    requires txn.SettleTxn?
  {
    var r := txn.reservation;
    var storable := StorableActualCost(txn.actual);
    var breach := CircuitShouldOpen(r.maxCost, txn.actual);
    var trip := OpenCircuit(TripFor(r, txn.actual, storable, added, txn.now));
    (if breach || added < storable then Some(trip) else None,
     Ready(Settling(Receipt(true, Some(storable), breach, added < storable))))
  }

  // ---- The system ----

  datatype Committed = Committed(txn: Txn, outcome: Outcome)

  datatype System = System(db: Db, processes: map<nat, Process>, holder: Option<nat>, history: seq<Committed>)

  const START := System(EMPTY, map[], None, [])

  datatype Step =
    | Begin(pid: nat, txn: Txn)
    | Acquire(pid: nat)
    | Execute(pid: nat)
    | Commit(pid: nat)
    | Vanish(pid: nat)  // rollback, crash, or cancelled deadline: the same thing to the database

  /** An over-long model name is refused before a transaction is opened. */
  ghost predicate MayBegin(db: Db, txn: Txn) {
    Enabled(db, txn) && (txn.ReserveTxn? ==> ModelNameFits(txn.model))
  }

  ghost predicate CanStep(policy: Policy, s: System, step: Step) {
    match step
    case Begin(pid, txn) => pid !in s.processes && MayBegin(s.db, txn)
    case Acquire(pid) => pid in s.processes && s.processes[pid].phase.Waiting? && s.holder.None?
    case Execute(pid) => pid in s.processes && HasStatement(s.processes[pid])
    case Commit(pid) => pid in s.processes && s.processes[pid].phase.Ready?
    case Vanish(pid) => pid in s.processes
  }

  function Without(s: System, pid: nat): System {
    s.(processes := s.processes - {pid}, holder := if s.holder == Some(pid) then None else s.holder)
  }

  ghost function Take(policy: Policy, s: System, step: Step): System
    requires CanStep(policy, s, step)
  {
    match step
    case Begin(pid, txn) => s.(processes := s.processes[pid := Process(txn, Waiting, [])])
    case Acquire(pid) =>
      s.(processes := s.processes[pid := s.processes[pid].(phase := Locked0)], holder := Some(pid))
    case Execute(pid) => s.(processes := s.processes[pid := Executed(policy, s.processes[pid], s.db)])
    case Commit(pid) =>
      var p := s.processes[pid];
      Without(s, pid).(db := Seen(s.db, p.pending), history := s.history + [Committed(p.txn, p.phase.outcome)])
    case Vanish(pid) => Without(s, pid)
  }

  function Executed(policy: Policy, p: Process, db: Db): Process
    requires HasStatement(p)
  {
    var (write, phase) := Statement(policy, p, Seen(db, p.pending));
    p.(phase := phase, pending := if write.Some? then p.pending + [write.value] else p.pending)
  }

  ghost predicate Execution(policy: Policy, s: System, steps: seq<Step>, end: System)
    decreases |steps|
  {
    if steps == [] then end == s
    else CanStep(policy, s, steps[0]) && Execution(policy, Take(policy, s, steps[0]), steps[1..], end)
  }

  // ---- Refinement ----

  function AtomicOutcome(policy: Policy, db: Db, txn: Txn): Outcome {
    match txn
    case ReserveTxn(kind, model, maxCost, priority, now) =>
      Reserving(Reserve(policy, db, kind, model, maxCost, priority, now).1)
    case SettleTxn(r, actual, now) => Settling(Settle(db, r, actual, now).1)
    case ReleaseTxn(r) => Releasing(Release(db, r).1)
  }

  /** What a lock holder's memory and pending writes amount to, measured against the committed state now. */
  ghost predicate InStep(policy: Policy, db: Db, p: Process) {
    var seen := Seen(db, p.pending);
    var day := DayOf(p.txn);
    var ensured := EnsureDay(db, day);
    match p.phase
    case Waiting => p.pending == []
    case Locked0 => seen == db
    case DayPut => seen == ensured
    case SpentRead(spent) => seen == ensured && spent == SpentOn(ensured, day)
    case CircuitRead(spent, open) => seen == ensured && spent == SpentOn(ensured, day) && open == db.circuit.Some?
    case Swept(spent, open) =>
      && p.txn.ReserveTxn? && seen == Locked(db, day, p.txn.now)
      && spent == SpentOn(seen, day) && open == seen.circuit.Some?
    case Summed(spent, open, outstanding) =>
      && p.txn.ReserveTxn? && seen == Locked(db, day, p.txn.now)
      && BudgetState(spent, outstanding, open) == StateAt(seen, day)
    case Decided(result) =>
      && p.txn.ReserveTxn? && AtomicOutcome(policy, db, p.txn) == Reserving(result)
      && Apply(policy, db, p.txn) == RefreshReserved(seen, day)
    case RowCompleted(spent) =>
      Completing(ensured, p.txn) && spent == SpentOn(ensured, day) && seen == Marked(ensured, p.txn)
    case DayCharged(added) =>
      Completing(ensured, p.txn) && IsCharge(ensured, p.txn, added) && seen == ChargedBy(ensured, p.txn)
    case ChargeRefreshed(added) =>
      && Completing(ensured, p.txn) && IsCharge(ensured, p.txn, added)
      && seen == RefreshReserved(ChargedBy(ensured, p.txn), day)
    case RowReleased =>
      && p.txn.ReleaseTxn? && AtomicOutcome(policy, db, p.txn) == Releasing(true)
      && Apply(policy, db, p.txn) == RefreshReserved(seen, day)
    case Ready(outcome) => seen == Apply(policy, db, p.txn) && outcome == AtomicOutcome(policy, db, p.txn)
  }

  ghost predicate Completing(ensured: Db, txn: Txn) {
    txn.SettleTxn? && StillReserved(ensured, txn.reservation.id)
  }

  ghost function Marked(ensured: Db, txn: Txn): Db
    requires Completing(ensured, txn)
  {
    var id := txn.reservation.id;
    var completed := ensured.rows[id].(state := Completed(StorableActualCost(txn.actual), txn.now));
    ensured.(rows := ensured.rows[id := completed])
  }

  ghost function ChargedBy(ensured: Db, txn: Txn): Db
    requires Completing(ensured, txn)
  {
    Charged(ensured, txn.reservation, StorableActualCost(txn.actual), txn.now)
  }

  ghost predicate IsCharge(ensured: Db, txn: Txn, added: nat)
    requires Completing(ensured, txn)
  {
    added == Added(StorableActualCost(txn.actual), SpentOn(ensured, txn.reservation.day))
  }

  /** At most one process is past the lock, and every process is in step with the committed state. */
  ghost predicate SystemInv(policy: Policy, s: System) {
    && (forall pid | pid in s.processes ::
          && MayBegin(s.db, s.processes[pid].txn)
          && InStep(policy, s.db, s.processes[pid])
          && (!s.processes[pid].phase.Waiting? <==> s.holder == Some(pid)))
    && (s.holder.Some? ==> s.holder.value in s.processes)
    && Replays(policy, EMPTY, s.history, s.db)
  }

  /** Running the committed transactions one after another gives this database and told every caller the same. */
  ghost predicate Replays(policy: Policy, start: Db, history: seq<Committed>, end: Db)
    decreases |history|
  {
    if history == [] then end == start
    else
      && Enabled(start, history[0].txn)
      && history[0].outcome == AtomicOutcome(policy, start, history[0].txn)
      && Replays(policy, Apply(policy, start, history[0].txn), history[1..], end)
  }

  lemma {:induction false} ReplaysAppend(policy: Policy, start: Db, history: seq<Committed>, middle: Db, txn: Txn)
    requires Replays(policy, start, history, middle) && Enabled(middle, txn)
    ensures Replays(policy, start, history + [Committed(txn, AtomicOutcome(policy, middle, txn))],
                    Apply(policy, middle, txn))
    decreases |history|
  {
    var last := Committed(txn, AtomicOutcome(policy, middle, txn));
    if history == [] {
      assert [] + [last] == [last];
    } else {
      ReplaysAppend(policy, Apply(policy, start, history[0].txn), history[1..], middle, txn);
      assert (history + [last])[1..] == history[1..] + [last];
    }
  }

  lemma {:induction false} ReplayIsRun(policy: Policy, start: Db, history: seq<Committed>, end: Db)
    requires Replays(policy, start, history, end)
    ensures Runs(policy, start, Transactions(history), end)
    decreases |history|
  {
    if history != [] {
      ReplayIsRun(policy, Apply(policy, start, history[0].txn), history[1..], end);
      assert Transactions(history)[1..] == Transactions(history[1..]);
    }
  }

  function Transactions(history: seq<Committed>): seq<Txn> {
    seq(|history|, i requires 0 <= i < |history| => history[i].txn)
  }

  lemma LockStatements(policy: Policy, db: Db, p: Process)
    requires p.phase.Locked0? || p.phase.DayPut? || p.phase.SpentRead?
    requires MayBegin(db, p.txn) && InStep(policy, db, p)
    ensures InStep(policy, db, Executed(policy, p, db))
  {
    SeenOne(db, p.pending, PutDay(DayOf(p.txn)));
  }

  lemma SweepStatements(policy: Policy, db: Db, p: Process)
    requires p.txn.ReserveTxn? && (p.phase.CircuitRead? || p.phase.Swept?)
    requires MayBegin(db, p.txn) && InStep(policy, db, p)
    ensures InStep(policy, db, Executed(policy, p, db))
  {
    var (write, _) := Statement(policy, p, Seen(db, p.pending));
    if write.Some? { SeenOne(db, p.pending, write.value); }
  }

  lemma ReserveStatements(policy: Policy, db: Db, p: Process)
    requires p.txn.ReserveTxn? && (p.phase.Summed? || p.phase.Decided?)
    requires MayBegin(db, p.txn) && InStep(policy, db, p)
    ensures InStep(policy, db, Executed(policy, p, db))
  {
    var (write, _) := Statement(policy, p, Seen(db, p.pending));
    if write.Some? { SeenOne(db, p.pending, write.value); }
  }

  lemma SettleStatements(policy: Policy, db: Db, p: Process)
    requires p.txn.SettleTxn?
    requires p.phase.CircuitRead? || p.phase.RowCompleted? || p.phase.DayCharged?
    requires MayBegin(db, p.txn) && InStep(policy, db, p)
    ensures InStep(policy, db, Executed(policy, p, db))
  {
    var (write, _) := Statement(policy, p, Seen(db, p.pending));
    if write.Some? { SeenOne(db, p.pending, write.value); }
  }

  lemma SettleConcludes(policy: Policy, db: Db, p: Process)
    requires p.txn.SettleTxn? && p.phase.ChargeRefreshed?
    requires MayBegin(db, p.txn) && InStep(policy, db, p)
    ensures InStep(policy, db, Executed(policy, p, db))
  {
    var (write, _) := Statement(policy, p, Seen(db, p.pending));
    if write.Some? { SeenOne(db, p.pending, write.value); }
  }

  lemma ReleaseStatements(policy: Policy, db: Db, p: Process)
    requires p.txn.ReleaseTxn? && (p.phase.CircuitRead? || p.phase.RowReleased?)
    requires MayBegin(db, p.txn) && InStep(policy, db, p)
    ensures InStep(policy, db, Executed(policy, p, db))
  {
    var (write, _) := Statement(policy, p, Seen(db, p.pending));
    if write.Some? { SeenOne(db, p.pending, write.value); }
  }

  /** One statement keeps a lock holder in step, because nothing it read can have changed under the lock. */
  lemma StatementKeepsInStep(policy: Policy, db: Db, p: Process)
    requires HasStatement(p) && MayBegin(db, p.txn) && InStep(policy, db, p)
    ensures InStep(policy, db, Executed(policy, p, db))
  {
    if p.phase.Locked0? || p.phase.DayPut? || p.phase.SpentRead? {
      LockStatements(policy, db, p);
    } else if p.phase.ChargeRefreshed? {
      SettleConcludes(policy, db, p);
    } else {
      match p.txn
      case ReserveTxn(_, _, _, _, _) =>
        if p.phase.CircuitRead? || p.phase.Swept? {
          SweepStatements(policy, db, p);
        } else {
          ReserveStatements(policy, db, p);
        }
      case SettleTxn(_, _, _) => SettleStatements(policy, db, p);
      case ReleaseTxn(_) => ReleaseStatements(policy, db, p);
    }
  }

  /** A transaction that is still waiting only needs its reservation to exist, and reservations are never deleted. */
  lemma WaitingSurvivesCommit(policy: Policy, before: Db, txn: Txn, waiting: Process)
    requires Enabled(before, txn) && MayBegin(before, waiting.txn)
    requires waiting.phase.Waiting? && InStep(policy, before, waiting)
    ensures MayBegin(Apply(policy, before, txn), waiting.txn)
    ensures InStep(policy, Apply(policy, before, txn), waiting)
  {
    ApplyEvolves(policy, before, txn);
  }

  /** Committing is the only step that changes the database, and it does what the atomic transaction does. */
  lemma CommitRefines(policy: Policy, s: System, pid: nat)
    requires SystemInv(policy, s) && CanStep(policy, s, Commit(pid))
    ensures var after := Take(policy, s, Commit(pid)); var p := s.processes[pid];
      && after.db == Apply(policy, s.db, p.txn)
      && after.history == s.history + [Committed(p.txn, AtomicOutcome(policy, s.db, p.txn))]
      && SystemInv(policy, after)
  {
    var p := s.processes[pid];
    var after := Take(policy, s, Commit(pid));
    forall q | q in after.processes
      ensures MayBegin(after.db, after.processes[q].txn) && InStep(policy, after.db, after.processes[q])
    {
      WaitingSurvivesCommit(policy, s.db, p.txn, s.processes[q]);
    }
    ReplaysAppend(policy, EMPTY, s.history, s.db, p.txn);
  }

  lemma StepRefines(policy: Policy, s: System, step: Step)
    requires SystemInv(policy, s) && CanStep(policy, s, step)
    ensures SystemInv(policy, Take(policy, s, step))
    ensures !step.Commit? ==> Take(policy, s, step).db == s.db && Take(policy, s, step).history == s.history
  {
    match step
    case Begin(_, _) =>
    case Acquire(_) =>
    case Execute(pid) => StatementKeepsInStep(policy, s.db, s.processes[pid]);
    case Commit(pid) => CommitRefines(policy, s, pid);
    case Vanish(_) =>
  }

  lemma {:induction false} ExecutionKeepsInv(policy: Policy, s: System, steps: seq<Step>, end: System)
    requires SystemInv(policy, s) && Execution(policy, s, steps, end)
    ensures SystemInv(policy, end)
    decreases |steps|
  {
    if steps != [] {
      StepRefines(policy, s, steps[0]);
      ExecutionKeepsInv(policy, Take(policy, s, steps[0]), steps[1..], end);
    }
  }

  /**
   * Whatever the interleaving, and wherever processes roll back or die, the database is what some
   * sequence of atomic transactions makes it: the ones in the history, in commit order. Each
   * caller was told what its atomic transaction would have told it.
   */
  lemma InterleavingRefinesAtomicLedger(policy: Policy, steps: seq<Step>, end: System)
    requires Execution(policy, START, steps, end)
    ensures Replays(policy, EMPTY, end.history, end.db)
    ensures Reachable(policy, end.db)
  {
    ExecutionKeepsInv(policy, START, steps, end);
    ReplayIsRun(policy, EMPTY, end.history, end.db);
  }

  /** Two processes are never both past the lock, so no two can decide on the same remaining budget. */
  lemma LockExcludes(policy: Policy, steps: seq<Step>, end: System, p: nat, q: nat)
    requires Execution(policy, START, steps, end)
    requires p in end.processes && q in end.processes
    requires !end.processes[p].phase.Waiting? && !end.processes[q].phase.Waiting?
    ensures p == q
  {
    ExecutionKeepsInv(policy, START, steps, end);
  }

  /** The ceiling and the human reserve hold in every database any number of sidecars can produce. */
  lemma ConcurrentBudgetSafety(policy: Policy, steps: seq<Step>, end: System, d: int)
    requires policy.Valid() && Execution(policy, START, steps, end)
    ensures SpentOn(end.db, d) + Outstanding(end.db.rows, d) <= policy.ceiling + Sum(end.db.rows, OverrunOn(d))
    ensures BreachFreeDay(end.db, d) ==>
      && Sum(end.db.rows, StoredOn(d)) + Outstanding(end.db.rows, d) <= policy.ceiling
      && Sum(end.db.rows, LaneChargeOn(d, Background)) <= policy.ceiling - policy.Floor()
  {
    InterleavingRefinesAtomicLedger(policy, steps, end);
    MoneyBound(policy, end.db, d);
    if BreachFreeDay(end.db, d) { BackgroundStaysOutOfReserve(policy, end.db, d); }
  }
}
