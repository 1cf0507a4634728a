/**
 * Any number of sidecars asking for an ambient slot at once. Each reads its clock, then waits for the `ambient` lock,
 * purges, counts, and inserts, and may roll back or die between any two statements. Clocks are read before the
 * lock is held, so committed calls need not be in clock order.
 */
module AmbientSidecars {
  import opened Wrappers
  import opened Ambient

  datatype Write = Purge(cutoff: int) | Insert(attempt: int)

  function ApplyWrite(table: seq<int>, w: Write): seq<int> {
    match w
    case Purge(cutoff) => Later(table, cutoff)
    case Insert(attempt) => table + [attempt]
  }

  /** What a transaction sees: the committed attempts under its own pending writes. */
  function Seen(table: seq<int>, pending: seq<Write>): seq<int> {
    if pending == [] then table else ApplyWrite(Seen(table, pending[..|pending| - 1]), pending[|pending| - 1])
  }

  lemma SeenOne(table: seq<int>, pending: seq<Write>, w: Write)
    ensures Seen(table, pending + [w]) == ApplyWrite(Seen(table, pending), w)
  {
    assert (pending + [w])[..|pending|] == pending;
  }

  datatype Phase = Waiting | Locked | Purged | Counted(count: nat) | Ready(admitted: bool)
  datatype Process = Process(call: Call, phase: Phase, pending: seq<Write>)
  datatype Committed = Committed(call: Call, admitted: bool)
  datatype System = System(table: seq<int>, processes: map<nat, Process>, holder: Option<nat>, history: seq<Committed>)

  const START := System([], map[], None, [])

  datatype Step =
    Begin(pid: nat, call: Call) | Acquire(pid: nat) | Execute(pid: nat) | Commit(pid: nat) | Vanish(pid: nat)

  predicate HasStatement(p: Process) { p.phase.Locked? || p.phase.Purged? || p.phase.Counted? }

  /** The statement a process is at, over what it sees. A full hour is committed too, with its purge. */
  function Executed(p: Process, table: seq<int>): Process
    requires HasStatement(p)
  {
    var cutoff := p.call.now - AMBIENT_WINDOW;
    match p.phase
    case Locked => p.(phase := Purged, pending := p.pending + [Purge(cutoff)])
    case Purged => p.(phase := Counted(|Later(Seen(table, p.pending), cutoff)|))
    case Counted(count) =>
      if count >= p.call.rate then p.(phase := Ready(false))
      else p.(phase := Ready(true), pending := p.pending + [Insert(p.call.now)])
  }

  /** A rate out of range is refused before a transaction is opened. */
  ghost predicate CanStep(s: System, step: Step) {
    match step
    case Begin(pid, call) => pid !in s.processes && RateOk(call.rate)
    case Acquire(pid) => pid in s.processes && s.processes[pid].phase.Waiting? && s.holder.None?
    case Execute(pid) => pid in s.processes && HasStatement(s.processes[pid])
    case Commit(pid) => pid in s.processes && s.processes[pid].phase.Ready?
    case Vanish(pid) => pid in s.processes
  }

  function Without(s: System, pid: nat): System {
    s.(processes := s.processes - {pid}, holder := if s.holder == Some(pid) then None else s.holder)
  }

  ghost function Take(s: System, step: Step): System
    requires CanStep(s, step)
  {
    match step
    case Begin(pid, call) => s.(processes := s.processes[pid := Process(call, Waiting, [])])
    case Acquire(pid) => s.(processes := s.processes[pid := s.processes[pid].(phase := Locked)], holder := Some(pid))
    case Execute(pid) => s.(processes := s.processes[pid := Executed(s.processes[pid], s.table)])
    case Commit(pid) =>
      var p := s.processes[pid];
      Without(s, pid).(table := Seen(s.table, p.pending), history := s.history + [Committed(p.call, p.phase.admitted)])
    case Vanish(pid) => Without(s, pid)
  }

  ghost predicate Execution(s: System, steps: seq<Step>, end: System)
    decreases |steps|
  {
    if steps == [] then end == s else CanStep(s, steps[0]) && Execution(Take(s, steps[0]), steps[1..], end)
  }

  // ---- Refinement ----

  function Calls(history: seq<Committed>): (calls: seq<Call>)
    ensures |calls| == |history| && forall i | 0 <= i < |history| :: calls[i] == history[i].call
  {
    seq(|history|, i requires 0 <= i < |history| => history[i].call)
  }

  /** The clock readings that were told yes, in the order they committed. */
  function Admitted(history: seq<Committed>): seq<int> {
    if history == [] then []
    else
      var front, last := Admitted(history[..|history| - 1]), history[|history| - 1];
      if last.admitted then front + [last.call.now] else front
  }

  ghost predicate InStep(table: seq<int>, p: Process) {
    RateOk(p.call.rate)
    && match p.phase
       case Waiting => p.pending == []
       case Locked => p.pending == []
       case Purged => p.pending == [Purge(p.call.now - AMBIENT_WINDOW)]
       case Counted(count) =>
         && p.pending == [Purge(p.call.now - AMBIENT_WINDOW)]
         && count == |Later(table, p.call.now - AMBIENT_WINDOW)|
       case Ready(admitted) => Seen(table, p.pending) == Begun(table, p.call) && admitted == HasRoom(table, p.call)
  }

  ghost predicate SystemInv(s: System) {
    && s.table == TableAfter(Calls(s.history)) && Admitted(s.history) == Admissions(Calls(s.history))
    && (forall pid | pid in s.processes :: InStep(s.table, s.processes[pid]))
    && (forall pid | pid in s.processes && !s.processes[pid].phase.Waiting? :: s.holder == Some(pid))
  }

  lemma StatementKeepsInStep(table: seq<int>, p: Process)
    requires HasStatement(p) && InStep(table, p)
    ensures InStep(table, Executed(p, table))
  {
    var cutoff := p.call.now - AMBIENT_WINDOW;
    SeenOne(table, [], Purge(cutoff));
    assert [] + [Purge(cutoff)] == [Purge(cutoff)];
    LaterTwice(table, cutoff, cutoff);
    SeenOne(table, [Purge(cutoff)], Insert(p.call.now));
  }

  lemma HistoryExtends(history: seq<Committed>, call: Call, admitted: bool)
    requires Admitted(history) == Admissions(Calls(history)) && admitted == HasRoom(TableAfter(Calls(history)), call)
    ensures var more := history + [Committed(call, admitted)];
      && TableAfter(Calls(more)) == Begun(TableAfter(Calls(history)), call) && Admitted(more) == Admissions(Calls(more))
  {
    var more := history + [Committed(call, admitted)];
    assert more[..|history|] == history;
    assert Calls(more) == Calls(history) + [call];
    RunSnoc(Calls(history), call);
    hide TableAfter, Admissions, Begun, HasRoom, Calls;
  }

  lemma CommitExtends(s: System, pid: nat)
    requires SystemInv(s) && CanStep(s, Commit(pid))
    ensures SystemInv(Take(s, Commit(pid)))
  {
    hide HasRoom, Begun, TableAfter, Admissions, Admitted, Calls, Seen;
    var p := s.processes[pid];
    assert InStep(s.table, p) && s.holder == Some(pid);
    HistoryExtends(s.history, p.call, p.phase.admitted);
  }

  lemma StepKeepsInv(s: System, step: Step)
    requires SystemInv(s) && CanStep(s, step)
    ensures SystemInv(Take(s, step))
  {
    hide Later, HasRoom, Begun, TableAfter, Admissions, Seen, Executed;
    match step {
      case Execute(pid) =>
        StatementKeepsInStep(s.table, s.processes[pid]);
        ExecutedKeepsCall(s.processes[pid], s.table);
      case Commit(pid) => CommitExtends(s, pid);
      case _ =>
    }
  }

  lemma ExecutedKeepsCall(p: Process, table: seq<int>)
    requires HasStatement(p)
    ensures !Executed(p, table).phase.Waiting? && Executed(p, table).call == p.call
  {
  }

  lemma {:induction false} ExecutionKeepsInv(s: System, steps: seq<Step>, end: System)
    requires SystemInv(s) && Execution(s, steps, end)
    ensures SystemInv(end)
    decreases |steps|
  {
    hide SystemInv, CanStep;
    if steps != [] {
      StepKeepsInv(s, steps[0]);
      ExecutionKeepsInv(Take(s, steps[0]), steps[1..], end);
    }
  }

  /** Whatever the interleaving, the slots granted are those of a single run of the limiter in commit order. */
  lemma InterleavingRefinesLimiter(steps: seq<Step>, end: System)
    requires Execution(START, steps, end)
    ensures end.table == TableAfter(Calls(end.history)) && Admitted(end.history) == Admissions(Calls(end.history))
  {
    assert Calls([]) == [];
    ExecutionKeepsInv(START, steps, end);
  }

  /** So no hour is oversubscribed, as long as no commit comes back into an hour already purged from. */
  lemma ConcurrentHoursWithinRate(steps: seq<Step>, end: System, rate: nat, hour: int)
    requires Execution(START, steps, end) && HoursKept(Calls(end.history))
    requires forall i | 0 <= i < |end.history| && end.history[i].call.rate <= 6 :: end.history[i].call.rate <= rate
    ensures InWindow(Admitted(end.history), hour) <= rate
  {
    InterleavingRefinesLimiter(steps, end);
    EveryHourWithinRate(Calls(end.history), rate, hour);
  }
}
