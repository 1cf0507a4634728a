/** The rolling-hour limiter for unprompted messages, which forgets old attempts as it goes. Times are integers. */
module Ambient {
  const MAX_AMBIENT_MESSAGES_PER_HOUR: int := 6
  const AMBIENT_WINDOW: int := 3_600_000_000

  datatype Call = Call(rate: int, now: int)

  /** The attempts later than a cutoff, in order. */
  function Later(attempts: seq<int>, cutoff: int): (kept: seq<int>)
    ensures |kept| <= |attempts|
  {
    if attempts == [] then []
    else
      var front, last := Later(attempts[..|attempts| - 1], cutoff), attempts[|attempts| - 1];
      if last > cutoff then front + [last] else front
  }

  predicate RateOk(rate: int) { 1 <= rate <= MAX_AMBIENT_MESSAGES_PER_HOUR }

  predicate HasRoom(attempts: seq<int>, call: Call) {
    RateOk(call.rate) && |Later(attempts, call.now - AMBIENT_WINDOW)| < call.rate
  }

  /** The table after a call: purged, and extended when the hour had room. */
  function Begun(attempts: seq<int>, call: Call): seq<int> {
    if !RateOk(call.rate) then attempts
    else
      var kept := Later(attempts, call.now - AMBIENT_WINDOW);
      if |kept| < call.rate then kept + [call.now] else kept
  }

  class AttemptTable {
    var attempts: seq<int>

    constructor ()
      ensures attempts == []
    {
      attempts := [];
    }

    method TryBeginAmbient(call: Call) returns (admitted: bool)
      modifies this
      ensures admitted == old(HasRoom(attempts, call)) && attempts == old(Begun(attempts, call))
    {
      if !RateOk(call.rate) { return false; }
      var cutoff := call.now - AMBIENT_WINDOW;
      attempts := Later(attempts, cutoff);
      LaterTwice(old(attempts), cutoff, cutoff);
      var count := |Later(attempts, cutoff)|;
      if count >= call.rate { return false; }
      attempts := attempts + [call.now];
      return true;
    }
  }

  lemma LaterSnoc(attempts: seq<int>, t: int, cutoff: int)
    ensures Later(attempts + [t], cutoff)
         == if t > cutoff then Later(attempts, cutoff) + [t] else Later(attempts, cutoff)
  {
    assert (attempts + [t])[..|attempts|] == attempts;
  }

  /** Purging first with an earlier cutoff changes nothing for a later one. */
  lemma {:induction false} LaterTwice(attempts: seq<int>, early: int, late: int)
    requires early <= late
    ensures Later(Later(attempts, early), late) == Later(attempts, late)
  {
    if attempts != [] {
      var front, last := attempts[..|attempts| - 1], attempts[|attempts| - 1];
      LaterTwice(front, early, late);
      if last > early { LaterSnoc(Later(front, early), last, late); }
    }
  }

  // ---- Runs ----

  function TableAfter(calls: seq<Call>): seq<int> {
    if calls == [] then [] else Begun(TableAfter(calls[..|calls| - 1]), calls[|calls| - 1])
  }

  /** Every admission of a run, none of them forgotten. */
  function Admissions(calls: seq<Call>): seq<int> {
    if calls == [] then []
    else
      var front, last := calls[..|calls| - 1], calls[|calls| - 1];
      if HasRoom(TableAfter(front), last) then Admissions(front) + [last.now] else Admissions(front)
  }

  predicate NoneAfter(calls: seq<Call>, t: int) { forall i | 0 <= i < |calls| :: calls[i].now <= t }

  /** Whatever some call was late enough to purge lies before the cutoff anyway. */
  predicate PurgesOnlyBefore(calls: seq<Call>, cutoff: int) {
    forall i, k | 0 <= i < k < |calls| :: calls[i].now <= calls[k].now - AMBIENT_WINDOW ==> calls[i].now <= cutoff
  }

  /** An hour that is over for one call is over for every call after it. A clock that never steps back keeps this. */
  predicate HoursKept(calls: seq<Call>) {
    forall i, k, j | 0 <= i < k < j < |calls| ::
      calls[i].now <= calls[k].now - 3_600_000_000 ==> calls[i].now <= calls[j].now - 3_600_000_000
  }

  /** How many of the times, in microseconds, lie in the sixty minutes up to an end. */
  function InWindow(times: seq<int>, end: int): nat {
    if times == [] then 0
    else InWindow(times[..|times| - 1], end) + (if end - 3_600_000_000 < times[|times| - 1] <= end then 1 else 0)
  }

  lemma RunSnoc(calls: seq<Call>, next: Call)
    ensures TableAfter(calls + [next]) == Begun(TableAfter(calls), next)
    ensures Admissions(calls + [next])
         == if HasRoom(TableAfter(calls), next) then Admissions(calls) + [next.now] else Admissions(calls)
  {
    assert (calls + [next])[..|calls|] == calls;
  }

  /** Only call times get into the table. */
  lemma {:induction false} TableHoldsCallTimes(calls: seq<Call>, t: int)
    requires t in TableAfter(calls)
    ensures exists i :: 0 <= i < |calls| && calls[i].now == t
  {
    var front, last := calls[..|calls| - 1], calls[|calls| - 1];
    assert calls == front + [last];
    RunSnoc(front, last);
    hide TableAfter;
    LaterMembers(TableAfter(front), last.now - AMBIENT_WINDOW, t);
    if t in TableAfter(front) {
      TableHoldsCallTimes(front, t);
      var i :| 0 <= i < |front| && front[i].now == t;
      assert calls[i].now == t;
    } else {
      assert calls[|calls| - 1].now == t;
    }
  }

  lemma {:induction false} LaterMembers(attempts: seq<int>, cutoff: int, t: int)
    ensures t in Later(attempts, cutoff) <==> t in attempts && t > cutoff
  {
    if attempts != [] {
      assert attempts == attempts[..|attempts| - 1] + [attempts[|attempts| - 1]];
      LaterMembers(attempts[..|attempts| - 1], cutoff, t);
    }
  }

  /** Purging what is before a cutoff, or nothing past it, changes nothing for that cutoff. */
  lemma {:induction false} LaterAfterPurge(attempts: seq<int>, early: int, cutoff: int)
    requires forall i | 0 <= i < |attempts| :: attempts[i] <= early ==> attempts[i] <= cutoff
    ensures Later(Later(attempts, early), cutoff) == Later(attempts, cutoff)
  {
    if attempts != [] {
      var front, last := attempts[..|attempts| - 1], attempts[|attempts| - 1];
      LaterAfterPurge(front, early, cutoff);
      if last > early { LaterSnoc(Later(front, early), last, cutoff); }
    }
  }

  lemma LastPurgesOnlyBefore(front: seq<Call>, last: Call, cutoff: int)
    requires PurgesOnlyBefore(front + [last], cutoff)
    ensures PurgesOnlyBefore(front, cutoff)
    ensures forall i | 0 <= i < |TableAfter(front)| ::
      TableAfter(front)[i] <= last.now - AMBIENT_WINDOW ==> TableAfter(front)[i] <= cutoff
  {
    var calls := front + [last];
    assert forall i | 0 <= i < |front| :: calls[i] == front[i];
    forall i | 0 <= i < |TableAfter(front)| && TableAfter(front)[i] <= last.now - AMBIENT_WINDOW
      ensures TableAfter(front)[i] <= cutoff
    {
      TableHoldsCallTimes(front, TableAfter(front)[i]);
      var k :| 0 <= k < |front| && front[k].now == TableAfter(front)[i];
      assert calls[k].now <= calls[|front|].now - AMBIENT_WINDOW;
    }
  }

  /** As long as purges only forget what the cutoff excludes, the table answers like the full record. */
  lemma {:induction false} TableForgetsNothingThatMatters(calls: seq<Call>, cutoff: int)
    requires PurgesOnlyBefore(calls, cutoff)
    ensures Later(TableAfter(calls), cutoff) == Later(Admissions(calls), cutoff)
  {
    if calls != [] {
      var front, last := calls[..|calls| - 1], calls[|calls| - 1];
      var early := last.now - AMBIENT_WINDOW;
      assert calls == front + [last];
      RunSnoc(front, last);
      LastPurgesOnlyBefore(front, last, cutoff);
      hide TableAfter, Admissions, Later, PurgesOnlyBefore;
      TableForgetsNothingThatMatters(front, cutoff);
      LaterAfterPurge(TableAfter(front), early, cutoff);
      LaterSnoc(Later(TableAfter(front), early), last.now, cutoff);
      LaterSnoc(Admissions(front), last.now, cutoff);
    }
  }

  lemma {:induction false} AdmissionsBounded(calls: seq<Call>, bound: int)
    requires NoneAfter(calls, bound)
    ensures forall i | 0 <= i < |Admissions(calls)| :: Admissions(calls)[i] <= bound
  {
    if calls != [] { AdmissionsBounded(calls[..|calls| - 1], bound); }
  }

  lemma {:induction false} WindowWithinLater(times: seq<int>, end: int)
    ensures InWindow(times, end) <= |Later(times, end - AMBIENT_WINDOW)|
    ensures (forall i | 0 <= i < |times| :: times[i] <= end) ==>
      InWindow(times, end) == |Later(times, end - AMBIENT_WINDOW)|
  {
    if times != [] { WindowWithinLater(times[..|times| - 1], end); }
  }

  lemma {:induction false} LaterShrinks(times: seq<int>, early: int, late: int)
    requires early <= late
    ensures |Later(times, late)| <= |Later(times, early)|
  {
    if times != [] { LaterShrinks(times[..|times| - 1], early, late); }
  }

  lemma InWindowSnoc(times: seq<int>, t: int, end: int)
    ensures InWindow(times + [t], end) == InWindow(times, end) + (if end - AMBIENT_WINDOW < t <= end then 1 else 0)
  {
    assert (times + [t])[..|times|] == times;
  }

  lemma RoomMeansFewInWindow(calls: seq<Call>, next: Call, end: int)
    requires PurgesOnlyBefore(calls, next.now - AMBIENT_WINDOW) && HasRoom(TableAfter(calls), next)
    requires end - AMBIENT_WINDOW < next.now <= end
    ensures InWindow(Admissions(calls), end) < next.rate
  {
    hide Later, InWindow, TableAfter, Admissions, PurgesOnlyBefore;
    TableForgetsNothingThatMatters(calls, next.now - AMBIENT_WINDOW);
    WindowWithinLater(Admissions(calls), end);
    LaterShrinks(Admissions(calls), next.now - AMBIENT_WINDOW, end - AMBIENT_WINDOW);
  }

  lemma KeptUpTo(calls: seq<Call>, j: nat)
    requires HoursKept(calls) && j < |calls|
    ensures HoursKept(calls[..j]) && PurgesOnlyBefore(calls[..j], calls[j].now - AMBIENT_WINDOW)
  {
    assert forall i | 0 <= i < j :: calls[..j][i] == calls[i];
  }

  /**
   * While hours once over stay over, no window of an hour holds more admissions than the highest rate asked for, where
   * a rate above six counts for nothing: so six are never exceeded.
   */
  lemma {:induction false} EveryHourWithinRate(calls: seq<Call>, rate: nat, end: int)
    requires HoursKept(calls) && forall i | 0 <= i < |calls| && calls[i].rate <= 6 :: calls[i].rate <= rate
    ensures InWindow(Admissions(calls), end) <= rate
  {
    if calls != [] {
      var front, last := calls[..|calls| - 1], calls[|calls| - 1];
      KeptUpTo(calls, |calls| - 1);
      hide HoursKept, PurgesOnlyBefore;
      EveryHourWithinRate(front, rate, end);
      hide InWindow, TableAfter;
      if HasRoom(TableAfter(front), last) {
        InWindowSnoc(Admissions(front), last.now, end);
        if end - AMBIENT_WINDOW < last.now <= end { RoomMeansFewInWindow(front, last, end); }
      }
    }
  }

  /** What the full record of admissions would decide. */
  predicate RecordHasRoom(calls: seq<Call>, next: Call) {
    |Later(Admissions(calls), next.now - AMBIENT_WINDOW)| < next.rate
  }

  /**
   * And nothing is refused for an hour that had room: the decision is the count over all admissions since an hour
   * before the call, which is that hour itself when no earlier call was later.
   */
  lemma RefusedOnlyWhenFull(calls: seq<Call>, next: Call)
    requires PurgesOnlyBefore(calls, next.now - AMBIENT_WINDOW)
    ensures HasRoom(TableAfter(calls), next) <==> 1 <= next.rate <= 6 && RecordHasRoom(calls, next)
    ensures NoneAfter(calls, next.now) ==>
      (HasRoom(TableAfter(calls), next) <==> 1 <= next.rate <= 6 && InWindow(Admissions(calls), next.now) < next.rate)
  {
    hide Later, InWindow, TableAfter, Admissions, PurgesOnlyBefore, NoneAfter;
    TableForgetsNothingThatMatters(calls, next.now - AMBIENT_WINDOW);
    if NoneAfter(calls, next.now) {
      AdmissionsBounded(calls, next.now);
      WindowWithinLater(Admissions(calls), next.now);
    }
  }

  lemma AdmittedNext(calls: seq<Call>, next: Call, kept: seq<int>)
    requires RateOk(next.rate) && Later(TableAfter(calls), next.now - AMBIENT_WINDOW) == kept && |kept| < next.rate
    ensures TableAfter(calls + [next]) == kept + [next.now]
    ensures Admissions(calls + [next]) == Admissions(calls) + [next.now]
  {
    RunSnoc(calls, next);
  }

  lemma LaterOfFew(t: int, u: int, cutoff: int)
    ensures Later([t], cutoff) == if t > cutoff then [t] else []
    ensures Later([t] + [u], cutoff)
         == (if t > cutoff then [t] else []) + (if u > cutoff then [u] else [])
  {
    assert [] + [t] == [t];
    LaterSnoc([], t, cutoff);
    LaterSnoc([t], u, cutoff);
  }

  // ---- Exactly when the purge is harmless ----

  function WithRates(calls: seq<Call>, rates: seq<int>): (rated: seq<Call>)
    requires |rates| == |calls|
    ensures |rated| == |calls| && forall i | 0 <= i < |calls| :: rated[i] == Call(rates[i], calls[i].now)
  {
    seq(|calls|, i requires 0 <= i < |calls| => Call(rates[i], calls[i].now))
  }

  /** Every decision of a run is the one the full record would have taken. */
  predicate DecidesLikeTheRecord(calls: seq<Call>) {
    forall j | 0 <= j < |calls| && RateOk(calls[j].rate) ::
      HasRoom(TableAfter(calls[..j]), calls[j]) <==> RecordHasRoom(calls[..j], calls[j])
  }

  /** A call with a rate out of range is refused before it touches the table. */
  lemma {:induction false} InertStretch(calls: seq<Call>, m: nat, n: nat)
    requires m <= n <= |calls| && forall i | m <= i < n :: !RateOk(calls[i].rate)
    ensures TableAfter(calls[..n]) == TableAfter(calls[..m]) && Admissions(calls[..n]) == Admissions(calls[..m])
    decreases n - m
  {
    if m < n {
      InertStretch(calls, m, n - 1);
      assert calls[..n] == calls[..n - 1] + [calls[n - 1]];
      RunSnoc(calls[..n - 1], calls[n - 1]);
    }
  }

  lemma AdmittedAt(calls: seq<Call>, n: nat, kept: seq<int>)
    requires n < |calls| && RateOk(calls[n].rate) && |kept| < calls[n].rate
    requires Later(TableAfter(calls[..n]), calls[n].now - AMBIENT_WINDOW) == kept
    ensures TableAfter(calls[..n + 1]) == kept + [calls[n].now]
    ensures Admissions(calls[..n + 1]) == Admissions(calls[..n]) + [calls[n].now]
  {
    assert calls[..n + 1] == calls[..n] + [calls[n]];
    AdmittedNext(calls[..n], calls[n], kept);
  }

  /** One admission, then another that purges it; every other call up to j is inert. */
  lemma PurgedByTheSecond(calls: seq<Call>, i: nat, k: nat, j: nat)
    requires i < k < j < |calls| && calls[i].rate == 1 && calls[k].rate == 1
    requires forall x | 0 <= x < j && x != i && x != k :: !RateOk(calls[x].rate)
    requires calls[i].now <= calls[k].now - AMBIENT_WINDOW
    ensures TableAfter(calls[..j]) == [calls[k].now] && Admissions(calls[..j]) == [calls[i].now] + [calls[k].now]
  {
    var first, purge := calls[i].now, calls[k].now;
    assert calls[..0] == [] && TableAfter([]) == [] && Admissions([]) == [] && Later([], first - AMBIENT_WINDOW) == [];
    hide TableAfter, Admissions, Later;
    InertStretch(calls, 0, i);
    AdmittedAt(calls, i, []);
    assert [] + [first] == [first];
    InertStretch(calls, i + 1, k);
    LaterOfFew(first, first, purge - AMBIENT_WINDOW);
    AdmittedAt(calls, k, []);
    assert [] + [purge] == [purge];
    InertStretch(calls, k + 1, j);
  }

  /** And a call that comes back into the hour the purged admission was in. */
  lemma ForgottenAdmission(calls: seq<Call>, i: nat, k: nat, j: nat)
    requires i < k < j < |calls| && calls[i].rate == 1 && calls[k].rate == 1 && calls[j].rate == 2
    requires forall x | 0 <= x < j && x != i && x != k :: !RateOk(calls[x].rate)
    requires calls[i].now <= calls[k].now - AMBIENT_WINDOW && calls[i].now > calls[j].now - AMBIENT_WINDOW
    ensures HasRoom(TableAfter(calls[..j]), calls[j]) && !RecordHasRoom(calls[..j], calls[j])
  {
    PurgedByTheSecond(calls, i, k, j);
    FewLeft(calls[i].now, calls[k].now, calls[j].now - AMBIENT_WINDOW);
    hide TableAfter, Admissions, Later;
  }

  lemma FewLeft(t: int, u: int, cutoff: int)
    ensures |Later([u], cutoff)| < 2
    ensures t > cutoff && u > cutoff ==> |Later([t] + [u], cutoff)| >= 2
  {
    LaterOfFew(u, u, cutoff);
    LaterOfFew(t, u, cutoff);
    hide Later;
    if t > cutoff && u > cutoff { assert |[t] + [u]| == 2; }
  }

  lemma KeptHoursDecide(calls: seq<Call>)
    requires HoursKept(calls)
    ensures DecidesLikeTheRecord(calls)
  {
    forall j | 0 <= j < |calls| && RateOk(calls[j].rate)
      ensures HasRoom(TableAfter(calls[..j]), calls[j]) <==> RecordHasRoom(calls[..j], calls[j])
    {
      KeptUpTo(calls, j);
      hide HoursKept, HasRoom, RecordHasRoom, TableAfter, PurgesOnlyBefore;
      RefusedOnlyWhenFull(calls[..j], calls[j]);
    }
  }

  lemma LostHoursMisjudge(calls: seq<Call>) returns (rates: seq<int>)
    requires !HoursKept(calls)
    ensures |rates| == |calls| && !DecidesLikeTheRecord(WithRates(calls, rates))
  {
    var i, k, j :| 0 <= i < k < j < |calls| && calls[i].now <= calls[k].now - AMBIENT_WINDOW
      && calls[i].now > calls[j].now - AMBIENT_WINDOW;
    hide HasRoom, RecordHasRoom, TableAfter, HoursKept;
    rates := seq(|calls|, x => if x == i || x == k then 1 else if x == j then 2 else 0);
    var rated := WithRates(calls, rates);
    ForgottenAdmission(rated, i, k, j);
    assert RateOk(rated[j].rate);
  }

  /**
   * For given call times, the purging table decides like the full record whatever rates are asked for if and only if
   * no call comes back into an hour that an earlier call had already purged from.
   */
  lemma DecidesLikeTheRecordIff(calls: seq<Call>)
    ensures HoursKept(calls) <==>
      forall rates: seq<int> | |rates| == |calls| :: DecidesLikeTheRecord(WithRates(calls, rates))
  {
    hide DecidesLikeTheRecord;
    if HoursKept(calls) {
      forall rates: seq<int> | |rates| == |calls| ensures DecidesLikeTheRecord(WithRates(calls, rates)) {
        assert HoursKept(WithRates(calls, rates));
        KeptHoursDecide(WithRates(calls, rates));
      }
    } else {
      var rates := LostHoursMisjudge(calls);
    }
  }

  /** Two admissions in one hour, then one ten hours later that purges them. */
  lemma PurgedByALaterCall(first: Call, later: Call) returns (calls: seq<Call>)
    requires first.rate == later.rate == 2 && later.now == first.now + 10 * AMBIENT_WINDOW
    ensures forall i | 0 <= i < |calls| :: calls[i].rate == 2
    ensures TableAfter(calls) == [] + [later.now] && Admissions(calls) == [] + [first.now] + [first.now] + [later.now]
  {
    AdmittedNext([], first, []);
    hide TableAfter, Admissions, Later;
    calls := [] + [first];
    assert TableAfter(calls) == [] + [first.now] == [first.now];
    LaterOfFew(first.now, first.now, first.now - AMBIENT_WINDOW);
    AdmittedNext(calls, first, [first.now]);
    calls := calls + [first];
    LaterOfFew(first.now, first.now, later.now - AMBIENT_WINDOW);
    AdmittedNext(calls, later, []);
    calls := calls + [later];
  }

  /** A clock that steps back breaks it: a purge at a later time forgets attempts an earlier hour still holds. */
  lemma SteppingBackAdmitsTooMany() returns (calls: seq<Call>, end: int)
    ensures forall i | 0 <= i < |calls| :: calls[i].rate == 2
    ensures InWindow(Admissions(calls), end) == 3
  {
    var first, later, back := Call(2, 0), Call(2, 10 * AMBIENT_WINDOW), Call(2, 1);
    var before := PurgedByALaterCall(first, later);
    hide TableAfter, Admissions, Later;
    calls, end := before + [back], back.now;
    assert [] + [later.now] == [later.now];
    LaterOfFew(later.now, later.now, back.now - AMBIENT_WINDOW);
    AdmittedNext(before, back, [later.now]);
    InWindowSnoc([] + [first.now] + [first.now] + [later.now], back.now, end);
    InWindowSnoc([] + [first.now] + [first.now], later.now, end);
    InWindowSnoc([] + [first.now], first.now, end);
    InWindowSnoc([], first.now, end);
  }
}
