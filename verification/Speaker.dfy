/**
 * Choosing who speaks: candidates sorted by identity, a roll derived from the event and the sorted
 * identities, and a walk along the cumulative weights. Weights are summed without 64-bit wrap.
 */
module Speaker {
  import opened Wrappers

  datatype Candidate = Candidate(guid: nat, sociability: nat) {
    function Weight(): nat { 1 + sociability }
  }

  // ---- Sorting, as the library promises it: some permutation in order of guid ----

  predicate InOrder(s: seq<Candidate>) { forall i, j | 0 <= i < j < |s| :: s[i].guid <= s[j].guid }

  predicate SortOf(candidates: seq<Candidate>, sorted: seq<Candidate>) {
    InOrder(sorted) && multiset(sorted) == multiset(candidates)
  }

  lemma SnocInOrder(front: seq<Candidate>, last: Candidate)
    requires InOrder(front) && forall c | c in front :: c.guid <= last.guid
    ensures InOrder(front + [last])
  {
  }

  /** One more candidate put where it belongs. */
  function Inserted(sorted: seq<Candidate>, c: Candidate): (longer: seq<Candidate>)
    requires InOrder(sorted)
    ensures InOrder(longer) && multiset(longer) == multiset(sorted) + multiset{c}
  {
    if sorted == [] then [c]
    else
      var front, last := sorted[..|sorted| - 1], sorted[|sorted| - 1];
      assert sorted == front + [last];
      if last.guid <= c.guid then
        SnocInOrder(sorted, c);
        sorted + [c]
      else
        var longer := Inserted(front, c);
        assert forall x | x in longer :: x in multiset(longer) && (x == c || x in front);
        SnocInOrder(longer, last);
        longer + [last]
  }

  /** That some sort of every list exists is all that is needed to let the library pick one. */
  lemma {:induction false} ASortExists(candidates: seq<Candidate>)
    ensures exists sorted :: SortOf(candidates, sorted)
    decreases |candidates|
  {
    if candidates == [] {
      assert SortOf([], []);
    } else {
      var front, last := candidates[..|candidates| - 1], candidates[|candidates| - 1];
      ASortExists(front);
      var sorted: seq<Candidate> :| SortOf(front, sorted);
      assert candidates == front + [last];
      assert SortOf(candidates, Inserted(sorted, last));
    }
  }

  // ---- The selection ----

  function Total(s: seq<Candidate>): nat { if s == [] then 0 else Total(s[..|s| - 1]) + s[|s| - 1].Weight() }

  /** The seed chain: mix(seed, x) stands for SplitMix64 of the seed combined with x by exclusive or. */
  function Seed(mix: (nat, nat) -> nat, start: nat, guids: seq<nat>): nat {
    if guids == [] then start else mix(Seed(mix, start, guids[..|guids| - 1]), guids[|guids| - 1])
  }

  function Guids(s: seq<Candidate>): (guids: seq<nat>)
    ensures |guids| == |s| && forall i | 0 <= i < |s| :: guids[i] == s[i].guid
  {
    seq(|s|, i requires 0 <= i < |s| => s[i].guid)
  }

  /** The walk from position i: the first candidate whose cumulative weight passes the roll. */
  function Walk(s: seq<Candidate>, i: nat, cumulative: nat, roll: nat): Option<nat>
    requires i <= |s|
    decreases |s| - i
  {
    if i == |s| then None
    else if cumulative + s[i].Weight() > roll then Some(s[i].guid)
    else Walk(s, i + 1, cumulative + s[i].Weight(), roll)
  }

  /** With the program's fallback to the last candidate. */
  function Choice(s: seq<Candidate>, roll: nat): nat
    requires s != []
  {
    var walked := Walk(s, 0, 0, roll);
    if walked.Some? then walked.value else s[|s| - 1].guid
  }

  lemma TotalPositive(s: seq<Candidate>)
    requires s != []
    ensures Total(s) > 0
  {
  }

  function Selected(mix: (nat, nat) -> nat, start: nat, s: seq<Candidate>): nat
    requires s != []
  {
    TotalPositive(s);
    Choice(s, Seed(mix, start, Guids(s)) % Total(s))
  }

  /** The identities of a list in ascending order. */
  ghost predicate AscendingGuids(candidates: seq<Candidate>, guids: seq<nat>) {
    Ascending(guids) && multiset(guids) == multiset(Guids(candidates))
  }

  /**
   * On the list as it came: the event's seed, stirred with every identity in ascending order, falls by its remainder
   * into the interval of weight that belongs to g.
   */
  ghost predicate Speaks(mix: (nat, nat) -> nat, start: nat, candidates: seq<Candidate>, g: nat) {
    exists guids: seq<nat> :: AscendingGuids(candidates, guids) && Total(candidates) > 0
      && Below(candidates, g) <= Seed(mix, start, guids) % Total(candidates) < Below(candidates, g + 1)
  }

  method SelectSpeaker(mix: (nat, nat) -> nat, start: nat, candidates: seq<Candidate>) returns (speaker: Option<nat>)
    ensures candidates == [] ==> speaker == None
    ensures candidates != [] ==> speaker.Some? && Speaks(mix, start, candidates, speaker.value)
    ensures candidates != [] ==> forall sorted | SortOf(candidates, sorted) ::
      sorted != [] && speaker == Some(Selected(mix, start, sorted))
  {
    if candidates == [] { return None; }
    ASortExists(candidates);
    var sorted: seq<Candidate> :| SortOf(candidates, sorted);
    assert sorted != [] by { assert candidates[0] in multiset(sorted); }
    var seed := start;
    for i := 0 to |sorted|
      invariant seed == Seed(mix, start, Guids(sorted)[..i])
    {
      assert Guids(sorted)[..i + 1][..i] == Guids(sorted)[..i];
      seed := mix(seed, sorted[i].guid);
    }
    assert Guids(sorted)[..|sorted|] == Guids(sorted);
    var totalWeight := 0;
    for i := 0 to |sorted|
      invariant totalWeight == Total(sorted[..i])
    {
      assert sorted[..i + 1][..i] == sorted[..i];
      totalWeight := totalWeight + (1 + sorted[i].sociability);
    }
    assert sorted[..|sorted|] == sorted;
    TotalPositive(sorted);
    var chosen := WalkWeights(sorted, seed % totalWeight);
    speaker := Some(chosen);
    forall other | SortOf(candidates, other) ensures other != [] && speaker == Some(Selected(mix, start, other)) {
      assert candidates[0] in multiset(other);
      SelectionIsOrderBlind(mix, start, sorted, other);
    }
    SelectedSpeaks(mix, start, candidates, sorted);
  }

  method WalkWeights(sorted: seq<Candidate>, roll: nat) returns (guid: nat)
    requires sorted != []
    ensures guid == Choice(sorted, roll)
  {
    var cumulative: nat := 0;
    for i := 0 to |sorted|
      invariant Walk(sorted, 0, 0, roll) == Walk(sorted, i, cumulative, roll)
    {
      cumulative := cumulative + (1 + sorted[i].sociability);
      if cumulative > roll { return sorted[i].guid; }
    }
    return sorted[|sorted| - 1].guid;
  }

  // ---- Weights below a guid: what the order cannot change ----

  function Below(s: seq<Candidate>, g: nat): nat {
    if s == [] then 0 else Below(s[..|s| - 1], g) + (if s[|s| - 1].guid < g then s[|s| - 1].Weight() else 0)
  }

  /** The weight of one guid, summed over its repetitions. */
  function WeightOf(s: seq<Candidate>, g: nat): nat {
    if s == [] then 0 else WeightOf(s[..|s| - 1], g) + (if s[|s| - 1].guid == g then s[|s| - 1].Weight() else 0)
  }

  lemma {:induction false} BelowNext(s: seq<Candidate>, g: nat)
    ensures Below(s, g + 1) == Below(s, g) + WeightOf(s, g)
  {
    if s != [] { BelowNext(s[..|s| - 1], g); }
  }

  lemma {:induction false} BelowMonotone(s: seq<Candidate>, g: nat, h: nat)
    requires g <= h
    ensures Below(s, g) <= Below(s, h) <= Total(s)
  {
    if s != [] { BelowMonotone(s[..|s| - 1], g, h); }
  }

  function Without(s: seq<Candidate>, i: nat): seq<Candidate>
    requires i < |s|
  {
    s[..i] + s[i + 1..]
  }

  lemma {:induction false} BelowRemove(s: seq<Candidate>, i: nat, g: nat)
    requires i < |s|
    ensures Below(s, g) == Below(Without(s, i), g) + (if s[i].guid < g then s[i].Weight() else 0)
    ensures Total(s) == Total(Without(s, i)) + s[i].Weight()
  {
    var n := |s| - 1;
    if i == n {
      assert Without(s, i) == s[..n];
    } else {
      BelowRemove(s[..n], i, g);
      assert Without(s, i) == Without(s[..n], i) + [s[n]];
      assert Without(s, i)[..n - 1] == Without(s[..n], i);
    }
  }

  /** Sums over a permutation agree. */
  lemma {:induction false} BelowPermutes(a: seq<Candidate>, b: seq<Candidate>, g: nat)
    requires multiset(a) == multiset(b)
    ensures Below(a, g) == Below(b, g) && Total(a) == Total(b)
    decreases |a|
  {
    if a == [] {
      assert |multiset(b)| == 0;
    } else {
      var front, last := a[..|a| - 1], a[|a| - 1];
      assert a == front + [last];
      assert last in multiset(b);
      var i: nat :| i < |b| && b[i] == last;
      assert b == b[..i] + [last] + b[i + 1..];
      assert multiset(Without(b, i)) == multiset(b) - multiset{last};
      BelowPermutes(front, Without(b, i), g);
      BelowRemove(b, i, g);
    }
  }

  lemma AllSmallerBelow(s: seq<Candidate>, g: nat)
    requires forall i | 0 <= i < |s| :: s[i].guid < g
    ensures Below(s, g) == Total(s)
  {
    if s != [] { AllSmallerBelow(s[..|s| - 1], g); }
  }

  lemma {:induction false} PrefixBelow(s: seq<Candidate>, i: nat, g: nat)
    requires i <= |s|
    ensures Below(s[..i], g) <= Below(s, g)
    ensures (forall j | i <= j < |s| :: s[j].guid >= g) ==> Below(s[..i], g) == Below(s, g)
  {
    if i < |s| {
      PrefixBelow(s[..|s| - 1], i, g);
      assert s[..|s| - 1][..i] == s[..i];
    } else {
      assert s[..i] == s;
    }
  }

  /** On sorted candidates the walk stops at the guid whose interval of cumulative weight holds the roll. */
  lemma {:induction false} WalkFindsInterval(s: seq<Candidate>, i: nat, roll: nat)
    requires InOrder(s) && i < |s| && Total(s[..i]) <= roll < Total(s)
    ensures var walked := Walk(s, i, Total(s[..i]), roll);
      walked.Some? && Below(s, walked.value) <= roll < Below(s, walked.value + 1)
    decreases |s| - i
  {
    assert s[..i + 1][..i] == s[..i];
    if Total(s[..i]) + s[i].Weight() > roll {
      UpTo(s, i, s[i].guid);
    } else {
      WholeTotal(s, i + 1);
      WalkFindsInterval(s, i + 1, roll);
    }
  }

  lemma WholeTotal(s: seq<Candidate>, i: nat)
    requires i <= |s|
    ensures i == |s| ==> Total(s[..i]) == Total(s)
  {
    if i == |s| { assert s[..i] == s; }
  }

  lemma UpTo(s: seq<Candidate>, i: nat, g: nat)
    requires InOrder(s) && i < |s| && s[i].guid == g
    ensures Below(s, g) <= Total(s[..i])
    ensures Total(s[..i]) + s[i].Weight() <= Below(s, g + 1)
  {
    SameGuidBelow(s, i, g);
    assert s[..i + 1][..i] == s[..i];
    AllSmallerBelow(s[..i + 1], g + 1);
    PrefixBelow(s, i + 1, g + 1);
  }

  /** Everything below g lies before position i when position i already holds g. */
  lemma SameGuidBelow(s: seq<Candidate>, i: nat, g: nat)
    requires InOrder(s) && i < |s| && s[i].guid == g
    ensures Below(s, g) <= Total(s[..i])
  {
    PrefixBelow(s, i, g);
    BelowMonotone(s[..i], g, g);
  }

  lemma IntervalIsUnique(s: seq<Candidate>, roll: nat, g: nat, h: nat)
    requires Below(s, g) <= roll < Below(s, g + 1) && Below(s, h) <= roll < Below(s, h + 1)
    ensures g == h
  {
    if g < h { BelowMonotone(s, g + 1, h); }
    if h < g { BelowMonotone(s, h + 1, g); }
  }

  // ---- What selection promises ----

  /** The fallback is never reached: every roll the program makes stops the walk. */
  lemma ChoiceIsByInterval(s: seq<Candidate>, roll: nat, g: nat)
    requires InOrder(s) && roll < Total(s)
    ensures Walk(s, 0, 0, roll).Some?
    ensures s != [] && (Choice(s, roll) == g <==> Below(s, g) <= roll < Below(s, g + 1))
  {
    assert s[..0] == [];
    WalkFindsInterval(s, 0, roll);
    if Below(s, g) <= roll < Below(s, g + 1) { IntervalIsUnique(s, roll, g, Choice(s, roll)); }
  }

  /** The same event and the same candidates, in any order and with any repetitions, select the same speaker. */
  lemma SelectionIsOrderBlind(mix: (nat, nat) -> nat, start: nat, a: seq<Candidate>, b: seq<Candidate>)
    requires InOrder(a) && InOrder(b) && multiset(a) == multiset(b) && a != [] && b != []
    ensures Selected(mix, start, a) == Selected(mix, start, b)
  {
    SameGuids(a, b);
    BelowPermutes(a, b, 0);
    TotalPositive(a);
    var roll := Seed(mix, start, Guids(a)) % Total(a);
    var g := Choice(a, roll);
    ChoiceIsByInterval(a, roll, g);
    BelowPermutes(a, b, g);
    BelowPermutes(a, b, g + 1);
    ChoiceIsByInterval(b, roll, g);
  }

  /** Sorting fixes the order of the identities, though not of candidates that share one. */
  lemma {:induction false} SameGuids(a: seq<Candidate>, b: seq<Candidate>)
    requires InOrder(a) && InOrder(b) && multiset(a) == multiset(b)
    ensures Guids(a) == Guids(b)
  {
    assert |a| == |multiset(a)| == |multiset(b)| == |b|;
    GuidMultisets(a, b);
    SortedNumbersAgree(Guids(a), Guids(b));
  }

  lemma GuidsWithout(s: seq<Candidate>, i: nat)
    requires i < |s|
    ensures multiset(Guids(s)) == multiset(Guids(Without(s, i))) + multiset{s[i].guid}
  {
    var guids := Guids(s);
    assert guids == guids[..i] + [guids[i]] + guids[i + 1..];
    assert Guids(Without(s, i)) == guids[..i] + guids[i + 1..];
  }

  lemma MultisetWithout(s: seq<Candidate>, i: nat)
    requires i < |s|
    ensures multiset(Without(s, i)) == multiset(s) - multiset{s[i]}
  {
    assert s == s[..i] + [s[i]] + s[i + 1..];
  }

  lemma {:induction false} GuidMultisets(a: seq<Candidate>, b: seq<Candidate>)
    requires multiset(a) == multiset(b)
    ensures multiset(Guids(a)) == multiset(Guids(b))
    decreases |a|
  {
    if a == [] {
      assert |multiset(b)| == 0;
    } else {
      var n := |a| - 1;
      assert a[n] in multiset(b);
      var i: nat :| i < |b| && b[i] == a[n];
      MultisetWithout(a, n);
      MultisetWithout(b, i);
      GuidsWithout(a, n);
      GuidsWithout(b, i);
      hide Without, Guids;
      GuidMultisets(Without(a, n), Without(b, i));
    }
  }

  predicate Ascending(a: seq<nat>) { forall i, j | 0 <= i < j < |a| :: a[i] <= a[j] }

  lemma LastBounds(a: seq<nat>, x: nat)
    requires Ascending(a) && x in multiset(a)
    ensures a != [] && x <= a[|a| - 1]
  {
    var i: nat :| i < |a| && a[i] == x;
  }

  lemma FrontOf(a: seq<nat>)
    requires a != [] && Ascending(a)
    ensures var n := |a| - 1;
      && a[n] in multiset(a) && a == a[..n] + [a[n]] && multiset(a[..n]) == multiset(a) - multiset{a[n]}
      && Ascending(a[..n])
  {
    assert a == a[..|a| - 1] + [a[|a| - 1]];
  }

  lemma SameLast(a: seq<nat>, b: seq<nat>)
    requires a != [] && multiset(a) == multiset(b) && Ascending(a) && Ascending(b)
    ensures b != [] && a[|a| - 1] == b[|b| - 1]
  {
    FrontOf(a);
    LastBounds(b, a[|a| - 1]);
    FrontOf(b);
    LastBounds(a, b[|b| - 1]);
  }

  lemma {:induction false} SortedNumbersAgree(a: seq<nat>, b: seq<nat>)
    requires multiset(a) == multiset(b) && Ascending(a) && Ascending(b)
    ensures a == b
    decreases |a|
  {
    hide Ascending;
    if a == [] {
      assert |multiset(b)| == 0;
    } else {
      SameLast(a, b);
      FrontOf(a);
      FrontOf(b);
      SortedNumbersAgree(a[..|a| - 1], b[..|b| - 1]);
    }
  }

  /** The seed a list is decided by, whatever order it came in. */
  lemma GuidsInOrder(candidates: seq<Candidate>, sorted: seq<Candidate>)
    requires SortOf(candidates, sorted)
    ensures AscendingGuids(candidates, Guids(sorted))
    ensures forall guids: seq<nat> | AscendingGuids(candidates, guids) :: guids == Guids(sorted)
  {
    GuidMultisets(sorted, candidates);
    forall guids: seq<nat> | AscendingGuids(candidates, guids) ensures guids == Guids(sorted) {
      SortedNumbersAgree(guids, Guids(sorted));
    }
  }

  lemma SelectedSpeaks(mix: (nat, nat) -> nat, start: nat, candidates: seq<Candidate>, sorted: seq<Candidate>)
    requires SortOf(candidates, sorted) && sorted != []
    ensures Speaks(mix, start, candidates, Selected(mix, start, sorted))
  {
    var g := Selected(mix, start, sorted);
    TotalPositive(sorted);
    GuidsInOrder(candidates, sorted);
    BelowPermutes(candidates, sorted, g);
    BelowPermutes(candidates, sorted, g + 1);
    hide Choice, Below, Seed;
    ChoiceIsByInterval(sorted, Seed(mix, start, Guids(sorted)) % Total(sorted), g);
  }

  /** One candidate and no other is the speaker. */
  lemma OneSpeaks(mix: (nat, nat) -> nat, start: nat, candidates: seq<Candidate>, g: nat, h: nat)
    requires Speaks(mix, start, candidates, g) && Speaks(mix, start, candidates, h)
    ensures g == h
  {
    ASortExists(candidates);
    var sorted: seq<Candidate> :| SortOf(candidates, sorted);
    GuidsInOrder(candidates, sorted);
    hide Below, Seed;
    IntervalIsUnique(candidates, Seed(mix, start, Guids(sorted)) % Total(candidates), g, h);
  }

  /** A mixer that loses nothing of its two inputs loses nothing of the event or of who was there. */
  lemma {:induction false} SeedForgetsNothing(mix: (nat, nat) -> nat, s: nat, a: seq<nat>, t: nat, b: seq<nat>)
    requires forall p, x, q, y :: mix(p, x) == mix(q, y) ==> p == q && x == y
    requires |a| == |b| && Seed(mix, s, a) == Seed(mix, t, b)
    ensures s == t && a == b
    decreases |a|
  {
    if a != [] {
      SeedForgetsNothing(mix, s, a[..|a| - 1], t, b[..|b| - 1]);
      assert a == a[..|a| - 1] + [a[|a| - 1]] && b == b[..|b| - 1] + [b[|b| - 1]];
    }
  }

  /** A mixer that keeps the seed as it is, so that every start is its own seed. */
  const KEEP: (nat, nat) -> nat := (seed: nat, guid: nat) => seed

  lemma {:induction false} KeptSeed(start: nat, guids: seq<nat>)
    ensures Seed(KEEP, start, guids) == start
  {
    if guids != [] { KeptSeed(start, guids[..|guids| - 1]); }
  }

  ghost predicate MakesSpeak(start: nat, candidates: seq<Candidate>, g: nat) { Speaks(KEEP, start, candidates, g) }

  lemma StartInInterval(start: nat, candidates: seq<Candidate>, g: nat)
    requires start < Total(candidates)
    ensures MakesSpeak(start, candidates, g) <==> Below(candidates, g) <= start < Below(candidates, g + 1)
  {
    ASortExists(candidates);
    var sorted: seq<Candidate> :| SortOf(candidates, sorted);
    GuidsInOrder(candidates, sorted);
    KeptSeed(start, Guids(sorted));
    hide Below, Total, Seed;
    assert start % Total(candidates) == start;
  }

  /** The events that make g speak, among those the weights tell apart. */
  ghost function StartsFor(candidates: seq<Candidate>, g: nat): set<nat> {
    set start: nat | start < Total(candidates) && MakesSpeak(start, candidates, g)
  }

  /**
   * Chances are weights: of all events the weights can tell apart, exactly as many make g speak as one plus its
   * sociability, summed over every time it stands in the list.
   */
  lemma ChancesAreWeights(candidates: seq<Candidate>, g: nat)
    ensures |StartsFor(candidates, g)| == WeightOf(candidates, g)
  {
    BelowNext(candidates, g);
    BelowMonotone(candidates, g, g + 1);
    BelowMonotone(candidates, g + 1, g + 1);
    hide Below, Total, MakesSpeak;
    forall start: nat
      ensures start in StartsFor(candidates, g) <==> Below(candidates, g) <= start < Below(candidates, g + 1)
    {
      if start < Total(candidates) { StartInInterval(start, candidates, g); }
    }
    assert StartsFor(candidates, g) == Interval(Below(candidates, g), Below(candidates, g + 1));
  }

  lemma {:induction false} WeightOfOne(candidates: seq<Candidate>, i: nat)
    requires i < |candidates|
    requires forall j | 0 <= j < |candidates| && j != i :: candidates[j].guid != candidates[i].guid
    ensures WeightOf(candidates, candidates[i].guid) == 1 + candidates[i].sociability
  {
    var n, g := |candidates| - 1, candidates[i].guid;
    if i == n { NoWeight(candidates[..n], g); } else { WeightOfOne(candidates[..n], i); }
  }

  lemma {:induction false} NoWeight(candidates: seq<Candidate>, g: nat)
    requires forall j | 0 <= j < |candidates| :: candidates[j].guid != g
    ensures WeightOf(candidates, g) == 0
  {
    if candidates != [] { NoWeight(candidates[..|candidates| - 1], g); }
  }

  function RollsFor(s: seq<Candidate>, g: nat): set<nat>
    requires s != []
  {
    set roll | 0 <= roll < Total(s) && Choice(s, roll) == g
  }

  function Interval(lo: nat, hi: nat): (s: set<nat>)
    requires lo <= hi
    ensures |s| == hi - lo && forall x :: x in s <==> lo <= x < hi
    decreases hi - lo
  {
    if lo == hi then {} else Interval(lo, hi - 1) + {hi - 1}
  }

  /** Every guid is chosen by exactly as many rolls as its weight, one plus its sociability for each time it stands. */
  lemma RollsMatchWeights(s: seq<Candidate>, g: nat)
    requires InOrder(s) && s != []
    ensures |RollsFor(s, g)| == WeightOf(s, g)
  {
    BelowNext(s, g);
    BelowMonotone(s, g, g + 1);
    BelowMonotone(s, g + 1, g + 1);
    forall roll: nat ensures roll in RollsFor(s, g) <==> Below(s, g) <= roll < Below(s, g + 1) {
      if roll < Total(s) { ChoiceIsByInterval(s, roll, g); }
    }
    assert RollsFor(s, g) == Interval(Below(s, g), Below(s, g + 1));
  }
}
