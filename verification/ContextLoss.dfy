/** Exactly which contexts with something to say are sent empty: the shedding can take the last block with it. */
module SocialContextLoss {
  import opened Bytes
  import opened Wrappers
  import opened FlatJson
  import opened JsonWriter
  import opened Utf8Text
  import opened SocialContextEncoder

  /** Longer than any name the worldserver mints: m and a decimal number. */
  const MAX_MEMORY_NAME_BYTES: nat := 64

  /** Nothing but memories is left to say. */
  predicate OnlyMemories(c: Context, roster: set<bytes>) {
    Scalars(c, roster) == [] && c.nearby == [] && c.thread == []
  }

  predicate SaysNothing(c: Context, roster: set<bytes>) { OnlyMemories(c, roster) && Offered(c.memories) == [] }

  /** The same context with the first memory it would offer and no other. */
  function FirstMemoryAlone(c: Context): Context
    requires Offered(c.memories) != []
  {
    c.(memories := [Offered(c.memories)[0]])
  }

  /** Checkable before the call: there is something to say, it is memories only, and not even the first one fits. */
  predicate LosesEverything(c: Context, roster: set<bytes>)
    requires AuthorityValid(c)
  {
    && OnlyMemories(c, roster) && Offered(c.memories) != []
    && |OnePass(FirstMemoryAlone(c), roster)| > MAX_SOCIAL_CONTEXT_BYTES
  }

  lemma EmptyPass(c: Context, roster: set<bytes>)
    requires AuthorityValid(c)
    ensures OnePass(c, roster) == [] <==> SaysNothing(c, roster)
  {
    hide Scalars, Authority, Join, Offered, MemoryObjects;
  }

  // ---- Offered memories of a shortened list ----

  lemma {:induction false} OfferedOfPrefix(memories: seq<ContextMemory>, n: nat)
    requires n <= |memories|
    ensures Offered(memories[..n]) <= Offered(memories)
    decreases |memories|
  {
    if n < |memories| {
      var front := memories[..|memories| - 1];
      OfferedOfPrefix(front, n);
      assert front[..n] == memories[..n];
    } else {
      assert memories[..n] == memories;
    }
  }

  lemma {:induction false} OfferedAreUsable(memories: seq<ContextMemory>)
    ensures forall i | 0 <= i < |Offered(memories)| ::
      Offered(memories)[i] in memories && Offered(memories)[i].text != [] && Offered(memories)[i].id != []
  {
    if memories != [] {
      var front := memories[..|memories| - 1];
      OfferedAreUsable(front);
      assert forall m | m in front :: m in memories;
    }
  }

  lemma OfferedAlone(m: ContextMemory)
    requires m.text != [] && m.id != []
    ensures Offered([m]) == [m]
  {
    assert [m][..0] == [] && Offered([]) == [];
  }

  // ---- Lengths ----

  lemma LoneBlock(c: Context, roster: set<bytes>, block: bytes)
    requires AuthorityValid(c) && Scalars(c, roster) + Lists(c) == [block]
    ensures |OnePass(c, roster)| == 1 + |block| + |Authority(c)|
  {
    hide Scalars, Lists, Authority;
  }

  lemma ClippedLength(text: bytes)
    ensures |Quoted(Clip(text))| <= 3074
  {
    QuotedLength(Clip(text));
  }

  lemma EntryLength(key: bytes, text: bytes)
    ensures forall i | 0 <= i < |Entry(key, text)| :: |Entry(key, text)[i]| <= |key| + 3077
  {
    ClippedLength(text);
    hide Quoted, Clip;
  }

  lemma SingleStringLength(key: bytes, text: bytes)
    ensures |StringList(key, [text])| == 1 && |StringList(key, [text])[0]| <= |key| + 3079
  {
    ClippedLength(text);
    hide Quoted, Clip;
    assert Kept([text]) == [text];
    assert Strings([text]) == [Quoted(Clip(text))];
  }

  /** One last entry, list item, starter, or relationship always fits. */
  lemma LastEntryFits(c: Context, roster: set<bytes>)
    requires AuthorityValid(c) && c.memories == [] && Shorter(c).Some?
    requires SaysNothing(Shorter(c).value, roster)
    ensures |OnePass(c, roster)| <= MAX_SOCIAL_CONTEXT_BYTES
  {
    hide Quoted, Authority, IdentityCoherent, IdentityFields, Clip;
    AuthorityLength(c);
    if c.thread != [] {
      assert c.thread == [c.thread[0]];
      SingleStringLength("thread", c.thread[0]);
      LoneBlock(c, roster, StringList("thread", c.thread)[0]);
    } else if c.nearby != [] {
      assert c.nearby == [c.nearby[0]];
      SingleStringLength("nearby", c.nearby[0]);
      LoneBlock(c, roster, StringList("nearby", c.nearby)[0]);
    } else if c.starter != [] {
      EntryLength("starter", c.starter);
      LoneBlock(c, roster, Entry("starter", c.starter)[0]);
    } else {
      EntryLength("relationship", c.relationship);
      LoneBlock(c, roster, Entry("relationship", c.relationship)[0]);
    }
  }

  lemma SameButMemories(c: Context, d: Context, roster: set<bytes>)
    requires d == c.(memories := d.memories)
    ensures Scalars(c, roster) == Scalars(d, roster) && (OnlyMemories(c, roster) <==> OnlyMemories(d, roster))
  {
  }

  /** With only memories to say, a pass is never shorter than the one with its first memory alone. */
  lemma FirstMemoryIsShortest(c: Context, d: Context, roster: set<bytes>)
    requires AuthorityValid(c) && OnlyMemories(c, roster) && Offered(c.memories) != []
    requires d == c.(memories := d.memories) && Offered(d.memories) != []
    requires Offered(d.memories) <= Offered(c.memories)
    ensures |OnePass(d, roster)| >= |OnePass(FirstMemoryAlone(c), roster)|
    ensures |Offered(d.memories)| == 1 ==> |OnePass(d, roster)| == |OnePass(FirstMemoryAlone(c), roster)|
  {
    hide Scalars, Offered, Authority, OnePass, MemoryObject;
    var first, alone := Offered(c.memories)[0], FirstMemoryAlone(c);
    OfferedAreUsable(c.memories);
    OfferedAlone(first);
    SameButMemories(c, d, roster);
    SameButMemories(c, alone, roster);
    assert Authority(d) == Authority(c) == Authority(alone) by { AuthorityOnly(c, d); AuthorityOnly(c, alone); }
    MemoriesPass(d, roster);
    MemoriesPass(alone, roster);
    assert MemoryObjects([first]) == [MemoryObject(first)];
    assert MemoryObjects(Offered(d.memories))[0] == MemoryObject(first);
    JoinStartsWithFirst(MemoryObjects(Offered(d.memories)));
    if |Offered(d.memories)| == 1 { assert Offered(d.memories) == [first]; }
  }

  lemma AuthorityOnly(c: Context, d: Context)
    requires AuthorityValid(c) && d == c.(memories := d.memories)
    ensures Authority(d) == Authority(c)
  {
  }

  lemma MemoriesPass(c: Context, roster: set<bytes>)
    requires AuthorityValid(c) && OnlyMemories(c, roster) && Offered(c.memories) != []
    ensures |OnePass(c, roster)| == |Join(MemoryObjects(Offered(c.memories)))| + |Authority(c)| + |"{\"memories\":[]"|
  {
    hide Scalars, Authority, Offered, MemoryObjects;
    LoneBlock(c, roster, MemoryList(c.memories)[0]);
  }

  // ---- The condition ----

  /** While memories are being shed, everything else is still there. */
  lemma SheddingMemories(c: Context, k: nat)
    requires k <= |c.memories|
    ensures Shed(c, k) == c.(memories := c.memories[..|c.memories| - k])
  {
  }

  /** The step that empties the context took its only memory. */
  lemma LastStepWasAMemory(c: Context, roster: set<bytes>, k: nat)
    requires AuthorityValid(c) && RosterBounded(roster) && k < Sheddable(c)
    requires |OnePass(Shed(c, k), roster)| > MAX_SOCIAL_CONTEXT_BYTES && SaysNothing(Shed(c, k + 1), roster)
    ensures LosesEverything(c, roster)
  {
    hide OnePass, Scalars, Offered;
    var d := Shed(c, k);
    ShedStep(c, k);
    if d.memories == [] {
      LastEntryFits(d, roster);
      assert false;
    }
    MemoriesFirst(c, k);
    SheddingMemories(c, k);
    SheddingMemories(c, k + 1);
    SameButMemories(c, Shed(c, k + 1), roster);
    EmptyPass(d, roster);
    SameButMemories(c, d, roster);
    OfferedOfPrefix(c.memories, |d.memories|);
    OneMoreOffered(d.memories);
    FirstMemoryIsShortest(c, d, roster);
  }

  lemma MemoriesFirst(c: Context, k: nat)
    requires Shed(c, k).memories != []
    ensures k < |c.memories|
  {
  }

  lemma OneMoreOffered(memories: seq<ContextMemory>)
    requires memories != [] && Offered(memories[..|memories| - 1]) == []
    ensures |Offered(memories)| <= 1
  {
  }

  lemma NothingFitsBefore(c: Context, roster: set<bytes>, k: nat)
    requires AuthorityValid(c) && LosesEverything(c, roster) && k <= Sheddable(c)
    ensures |OnePass(Shed(c, k), roster)| > MAX_SOCIAL_CONTEXT_BYTES || SaysNothing(Shed(c, k), roster)
  {
    hide OnePass, Offered;
    assert k <= |c.memories|;
    var d := Shed(c, k);
    SheddingMemories(c, k);
    hide Scalars;
    SameButMemories(c, d, roster);
    OfferedOfPrefix(c.memories, |d.memories|);
    if Offered(d.memories) != [] { FirstMemoryIsShortest(c, d, roster); }
  }

  /** Nothing is sent if and only if there is nothing to say, or there are only memories and not even the first fits. */
  lemma NothingIsSentIff(c: Context, roster: set<bytes>)
    requires AuthorityValid(c) && RosterBounded(roster)
    ensures Encode(c, roster) == Some([]) <==> SaysNothing(c, roster) || LosesEverything(c, roster)
  {
    hide OnePass, SaysNothing, LosesEverything, Encode, Sheddable;
    EncodesTheFirstThatFits(c, roster);
    var k: nat :| FirstFits(c, roster, k) && Encode(c, roster) == Some(OnePass(Shed(c, k), roster));
    EmptyPass(Shed(c, k), roster);
    if SaysNothing(c, roster) {
      EmptyPass(c, roster);
      EncodeSheds(c, roster);
    }
    if LosesEverything(c, roster) { NothingFitsBefore(c, roster, k); }
    if SaysNothing(Shed(c, k), roster) && k > 0 {
      assert |OnePass(Shed(c, k - 1), roster)| > MAX_SOCIAL_CONTEXT_BYTES;
      LastStepWasAMemory(c, roster, k - 1);
    }
  }

  lemma NamedMemoryFits(m: ContextMemory)
    requires |m.id| <= MAX_MEMORY_NAME_BYTES
    ensures |MemoryObject(m)| <= 3600
  {
    QuotedLength(m.id);
    ClippedLength(m.text);
    hide Quoted, Clip;
    assert |ScopeName(m.scope)| <= 7;
  }

  /** With names of the length the worldserver mints, a context that says anything is never sent empty. */
  lemma BoundedNamesLoseNothing(c: Context, roster: set<bytes>)
    requires AuthorityValid(c) && RosterBounded(roster)
    requires forall m | m in c.memories :: |m.id| <= MAX_MEMORY_NAME_BYTES
    ensures Encode(c, roster) == Some([]) <==> SaysNothing(c, roster)
  {
    hide OnePass, Encode, Scalars, Authority;
    NothingIsSentIff(c, roster);
    if LosesEverything(c, roster) {
      var first, alone := Offered(c.memories)[0], FirstMemoryAlone(c);
      OfferedAreUsable(c.memories);
      OfferedAlone(first);
      NamedMemoryFits(first);
      SameButMemories(c, alone, roster);
      MemoriesPass(alone, roster);
      assert MemoryObjects([first]) == [MemoryObject(first)];
      AuthorityLength(alone);
    }
  }

  /** One memory, named past the frame bound and nothing else: an input outside what the worldserver mints. */
  lemma OversizedMemoryNameLosesTheContext(id: bytes, roster: set<bytes>)
    requires |id| > MAX_SOCIAL_CONTEXT_BYTES && RosterBounded(roster)
    ensures !SaysNothing(LoneMemory(id), roster) && Encode(LoneMemory(id), roster) == Some([])
  {
    hide MemoryObject, Authority;
    var c := LoneMemory(id);
    var memory := c.memories[0];
    OfferedAlone(memory);
    MemoryObjectIsLonger(memory);
    MemoriesPass(c, roster);
    assert MemoryObjects([memory]) == [MemoryObject(memory)];
    assert FirstMemoryAlone(c) == c;
    NothingIsSentIff(c, roster);
  }

  lemma MemoryObjectIsLonger(m: ContextMemory)
    ensures |m.id| < |MemoryObject(m)|
  {
    EscapedLength(m.id);
  }

  function LoneMemory(id: bytes): Context {
    Context([], Identity(NoFacts, None, None), [], [], [], [], [ContextMemory(id, "x", Public)], 0, 0)
  }
}
