/**
 * What becomes of a context on the far side, in neither side's own words: a bounded one arrives whole, and no memory
 * comes out less private than it went in, all the way to what a reply may cite.
 */
module ContextCrossing {
  import opened Bytes
  import opened Wrappers
  import opened FlatJson
  import opened JsonWriter
  import opened Utf8Text
  import opened SocialContextEncoder
  import opened SocialContextLoss
  import opened NestedJson
  import opened SidecarContextReader
  import Reply = SocialReplyRules

  // ---- Bounds that keep everything ----

  /** A text is cut to the longest beginning of whole characters within 512 bytes. */
  lemma LongestBeginningIsKept(text: bytes, k: nat)
    ensures Clip(text) <= text && Whole(Clip(text)) && |Clip(text)| <= 512
    ensures k <= |text| && k <= 512 && Whole(text[..k]) ==> k <= |Clip(text)|
  {
    CutIsWhole(text, 512);
    if k <= |text| && k <= 512 && Whole(text[..k]) { CutIsLongest(text, 512, k); }
  }

  /** A list is cut to its first twelve. */
  lemma FirstTwelveAreKept(values: seq<bytes>)
    ensures Kept(values) <= values && |Kept(values)| == (if |values| <= 12 then |values| else 12)
  {
  }

  lemma WholeTextIsKept(text: bytes)
    requires Whole(text) && |text| <= 512
    ensures Clip(text) == text
  {
    assert text[..|text|] == text;
    CutIsLongest(text, 512, |text|);
  }

  /** The memories that have both a name and a text. */
  function Named(memories: seq<ContextMemory>): seq<ContextMemory> {
    if memories == [] then []
    else
      var front, last := Named(memories[..|memories| - 1]), memories[|memories| - 1];
      if last.id != [] && last.text != [] then front + [last] else front
  }

  /** Of the memories that can be named and told, the first twelve are offered. */
  lemma {:induction false} FirstTwelveAreOffered(memories: seq<ContextMemory>)
    ensures Offered(memories) == if |Named(memories)| <= 12 then Named(memories) else Named(memories)[..12]
  {
    if memories != [] { FirstTwelveAreOffered(memories[..|memories| - 1]); }
  }

  lemma {:induction false} AllNamed(memories: seq<ContextMemory>)
    requires forall i | 0 <= i < |memories| :: memories[i].id != [] && memories[i].text != []
    ensures Named(memories) == memories
  {
    if memories != [] {
      AllNamed(memories[..|memories| - 1]);
      assert memories == memories[..|memories| - 1] + [memories[|memories| - 1]];
    }
  }

  predicate TextFits(text: bytes) { Whole(text) && |text| <= 512 }

  predicate TextsFit(texts: seq<bytes>) { |texts| <= 12 && forall i | 0 <= i < |texts| :: TextFits(texts[i]) }

  /** A name like m1 or m27. */
  predicate Minted(id: bytes) { |id| > 1 && id[0] == 'm' && '1' <= id[1] <= '9' && AllDigits(id[2..]) }

  lemma MintedIsNameOk(id: bytes)
    requires Minted(id)
    ensures NameOk(id)
  {
    assert forall i | 2 <= i < |id| :: id[i] == id[2..][i - 2];
  }

  predicate MemoriesFit(memories: seq<ContextMemory>) {
    && |memories| <= 12
    && (forall i | 0 <= i < |memories| ::
          Minted(memories[i].id) && memories[i].text != [] && TextFits(memories[i].text))
    && (forall i, j | 0 <= i < j < |memories| :: memories[i].id != memories[j].id)
  }

  /** Facts within range and on the roster, each under a request that asks for it. */
  predicate FactsFit(identity: Identity, roster: set<bytes>) {
    && (identity.age.Some? ==>
          (identity.request.Age? || identity.request.AgeAndHomeCountry?) && 18 <= identity.age.value <= 65)
    && (identity.country.Some? ==>
          (identity.request.HomeCountry? || identity.request.AgeAndHomeCountry?) && identity.country.value in roster)
    && !identity.request.UnknownRequest?
  }

  // ---- Both sides' words for the same things ----

  function ModeWord(mode: nat): bytes {
    if mode == 0 then "ordinary" else if mode == 1 then "decline_roleplay"
    else if mode == 2 then "acknowledge_roleplay" else "authorized_roleplay"
  }

  function RequestWord(request: IdentityRequest): Option<bytes> {
    if request.Age? then Some("age") else if request.HomeCountry? then Some("home_country")
    else if request.AgeAndHomeCountry? then Some("age_and_home_country") else None
  }

  /** How private the worldserver means a memory to be; what nobody wrote counts as a whisper. */
  function Privacy(scope: PrivacyScope): nat {
    match scope
    case Public => 0
    case Party => 1
    case Whisper => 2
    case UnknownScope => 2
  }

  const SCOPES: seq<bytes> := ["public", "party", "whisper"]

  /** How private the sidecar takes a name to be: its place among the three. */
  function Rank(name: bytes): Option<nat> {
    if name == SCOPES[0] then Some(0) else if name == SCOPES[1] then Some(1)
    else if name == SCOPES[2] then Some(2) else None
  }

  predicate SameMemory(read: SidecarMemory, written: ContextMemory) {
    read.id == written.id && read.text == written.text && Rank(read.scope) == Some(Privacy(written.scope))
  }

  // ---- What goes first ----

  /** Of each kind a beginning is left, and nothing of a kind goes while a less useful one is left. */
  predicate LeastUsefulWentFirst(c: Context, d: Context) {
    && d == c.(memories := d.memories, thread := d.thread, nearby := d.nearby, starter := d.starter,
               relationship := d.relationship)
    && d.memories <= c.memories && d.thread <= c.thread && d.nearby <= c.nearby
    && (d.thread != c.thread ==> d.memories == []) && (d.nearby != c.nearby ==> d.thread == [])
    && (d.starter != c.starter ==> d.nearby == [] && d.starter == [])
    && (d.relationship != c.relationship ==> d.starter == [] && d.relationship == [])
    && (d.nearby != c.nearby || d.starter != c.starter || d.relationship != c.relationship ==> d.memories == [])
    && (d.starter != c.starter || d.relationship != c.relationship ==> d.thread == [])
    && (d.relationship != c.relationship ==> d.nearby == [])
  }

  lemma ShedGoesInOrder(c: Context, k: nat)
    ensures LeastUsefulWentFirst(c, Shed(c, k))
  {
  }

  /** What is sent is everything but the least useful: memories go first, then the thread, who is near, and so on. */
  lemma SentWithoutTheLeastUseful(c: Context, roster: set<bytes>)
    requires AuthorityValid(c) && RosterBounded(roster)
    ensures exists d | AuthorityValid(d) && LeastUsefulWentFirst(c, d) :: Encode(c, roster) == Some(OnePass(d, roster))
  {
    hide OnePass, Encode, LeastUsefulWentFirst;
    EncodesTheFirstThatFits(c, roster);
    var k: nat :| FirstFits(c, roster, k) && Encode(c, roster) == Some(OnePass(Shed(c, k), roster));
    ShedGoesInOrder(c, k);
  }

  // ---- A bounded context arrives whole ----

  lemma NothingIsShed(c: Context, roster: set<bytes>, k: nat)
    requires AuthorityValid(c) && |OnePass(c, roster)| <= 4096 && FirstFits(c, roster, k)
    ensures Shed(c, k) == c
  {
    assert Shed(c, 0) == c;
  }

  lemma TextsAreKept(texts: seq<bytes>)
    requires TextsFit(texts)
    ensures Clipped(Kept(texts)) == texts
  {
    forall i | 0 <= i < |texts| ensures Clip(texts[i]) == texts[i] { WholeTextIsKept(texts[i]); }
  }

  lemma MemoriesAreKept(memories: seq<ContextMemory>)
    requires MemoriesFit(memories)
    ensures Offered(memories) == memories && MemoriesTaken(memories)
    ensures forall i | 0 <= i < |memories| :: Clip(memories[i].text) == memories[i].text
  {
    AllNamed(memories);
    FirstTwelveAreOffered(memories);
    forall i | 0 <= i < |memories| ensures Clip(memories[i].text) == memories[i].text && MemoryTaken(memories[i]) {
      WholeTextIsKept(memories[i].text);
      MintedIsNameOk(memories[i].id);
    }
  }

  lemma FactsAreTold(identity: Identity, roster: set<bytes>)
    requires FactsFit(identity, roster)
    ensures IdentityCoherent(identity, roster) <==> !identity.request.NoFacts?
    ensures IdentityCoherent(identity, roster) ==> RequestWord(identity.request) == Some(RequestName(identity.request))
    ensures identity.request.NoFacts? ==>
      RequestWord(identity.request) == None && identity.age.None? && identity.country.None?
  {
  }

  /** Everything within both sides' bounds, and some of it: it is sent, and read word for word as what it was. */
  lemma BoundedContextArrivesWhole(c: Context, roster: set<bytes>)
    requires AuthorityValid(c) && RosterNamed(roster) && 0 < |OnePass(c, roster)| <= 4096
    requires TextFits(c.persona) && TextFits(c.relationship) && TextFits(c.starter)
    requires TextsFit(c.nearby) && TextsFit(c.thread) && MemoriesFit(c.memories) && FactsFit(c.identity, roster)
    requires c.mode == 3 ==> c.identity.request.NoFacts?
    ensures var sent := Encode(c, roster);
      && sent.Some?
      && var read := ParseSocialContext(sent.value, roster);
         && read.Some?
         && read.value == SidecarContext(c.persona, RequestWord(c.identity.request), c.identity.age, c.identity.country,
                                         c.relationship, c.starter, c.nearby, c.thread, read.value.memories,
                                         ModeWord(c.mode), c.expansion)
         && |read.value.memories| == |c.memories|
         && forall i | 0 <= i < |c.memories| :: SameMemory(read.value.memories[i], c.memories[i])
  {
    hide OnePass, Encode, ParseSocialContext, TextFits, TextsFit, MemoriesFit, FactsFit, Usable, RosterNamed;
    BoundedContextIsSent(c, roster);
    BoundedContextIsSeenWhole(c, roster);
  }

  lemma BoundedContextIsSent(c: Context, roster: set<bytes>)
    requires AuthorityValid(c) && RosterNamed(roster) && 0 < |OnePass(c, roster)| <= 4096
    ensures Encode(c, roster).Some?
    ensures ParseSocialContext(Encode(c, roster).value, roster)
         == if Usable(c, roster) then Some(View(c, roster)) else None
  {
    hide Encode, ParseSocialContext, Usable, View;
    EncodesTheFirstThatFits(c, roster);
    var k: nat :| FirstFits(c, roster, k) && Encode(c, roster) == Some(OnePass(Shed(c, k), roster));
    NothingIsShed(c, roster, k);
    hide OnePass;
    PassIsTheDocument(c, roster);
    DocumentIsRead(c, roster);
  }

  lemma BoundedContextIsSeenWhole(c: Context, roster: set<bytes>)
    requires AuthorityValid(c)
    requires TextFits(c.persona) && TextFits(c.relationship) && TextFits(c.starter)
    requires TextsFit(c.nearby) && TextsFit(c.thread) && MemoriesFit(c.memories) && FactsFit(c.identity, roster)
    requires c.mode == 3 ==> c.identity.request.NoFacts?
    ensures Usable(c, roster)
    ensures var read := View(c, roster);
      && read == SidecarContext(c.persona, RequestWord(c.identity.request), c.identity.age, c.identity.country,
                                c.relationship, c.starter, c.nearby, c.thread, read.memories, ModeWord(c.mode),
                                c.expansion)
      && |read.memories| == |c.memories|
      && forall i | 0 <= i < |c.memories| :: SameMemory(read.memories[i], c.memories[i])
  {
    hide Clip, Offered, Whole, FactsFit, MemoriesFit, IdentityCoherent, RequestWord, RequestName;
    WholeTextIsKept(c.persona);
    WholeTextIsKept(c.relationship);
    WholeTextIsKept(c.starter);
    TextsAreKept(c.nearby);
    TextsAreKept(c.thread);
    MemoriesAreKept(c.memories);
    FactsAreTold(c.identity, roster);
    assert PROMPT_MODES[c.mode] == ModeWord(c.mode);
  }

  // ---- And nothing else is read ----

  predicate Told(text: bytes) { Characters(text) <= 512 }

  /** What a structured context is, on whatever text: within every bound, with no premise mixed with facts. */
  predicate ProperContext(read: SidecarContext, roster: set<bytes>) {
    && Told(read.persona) && Told(read.relationship) && Told(read.starter)
    && |read.nearby| <= 12 && (forall i | 0 <= i < |read.nearby| :: Told(read.nearby[i]))
    && |read.thread| <= 12 && (forall i | 0 <= i < |read.thread| :: Told(read.thread[i]))
    && |read.memories| <= 12
    && (forall i | 0 <= i < |read.memories| ::
          && Minted(read.memories[i].id) && read.memories[i].text != [] && Told(read.memories[i].text)
          && Rank(read.memories[i].scope).Some?)
    && (forall i, j | 0 <= i < j < |read.memories| :: read.memories[i].id != read.memories[j].id)
    && (exists mode: nat | mode < 4 :: read.mode == ModeWord(mode)) && read.expansion <= 2
    && ProperFacts(read.mode, read.request, read.age, read.country, roster)
  }

  /** Facts only under a request for them, in range or on the roster, and none under authorized roleplay. */
  predicate ProperFacts(mode: bytes, request: Option<bytes>, age: Option<nat>, country: Option<bytes>,
                        roster: set<bytes>) {
    && (request == None || request == Some("age") || request == Some("home_country")
        || request == Some("age_and_home_country"))
    && (mode == "authorized_roleplay" ==> request == None)
    && (age.Some? ==> 18 <= age.value <= 65 && (request == Some("age") || request == Some("age_and_home_country")))
    && (country.Some? ==>
          country.value in roster && (request == Some("home_country") || request == Some("age_and_home_country")))
  }

  lemma FactsAre(mode: bytes, request: Option<Json>, age: Option<Json>, country: Option<Json>, roster: set<bytes>)
    requires IdentityFieldsOk(request, age, country)
    requires IdentityTogether(mode, TextIn(request), NumberIn(age), TextIn(country), roster)
    ensures ProperFacts(mode, TextIn(request), NumberIn(age), TextIn(country), roster)
  {
    hide Characters;
  }

  lemma {:induction false} TextsInAre(items: seq<Json>)
    requires TextsIn(items).Some?
    ensures |TextsIn(items).value| == |items|
    ensures forall i | 0 <= i < |items| :: Told(TextsIn(items).value[i])
  {
    if items != [] { TextsInAre(items[..|items| - 1]); }
  }

  lemma MemoryOfIs(item: Json)
    requires MemoryOf(item).Some?
    ensures var m := MemoryOf(item).value; Minted(m.id) && m.text != [] && Told(m.text) && Rank(m.scope).Some?
  {
    hide Lookup, Characters;
  }

  lemma {:induction false} MemoriesInAre(items: seq<Json>)
    requires MemoriesIn(items).Some?
    ensures |MemoriesIn(items).value| == |items|
    ensures forall i | 0 <= i < |items| ::
      var m := MemoriesIn(items).value[i]; Minted(m.id) && m.text != [] && Told(m.text) && Rank(m.scope).Some?
  {
    if items != [] {
      hide MemoryOf, Minted, Told, Rank;
      MemoriesInAre(items[..|items| - 1]);
      MemoryOfIs(items[|items| - 1]);
    }
  }

  lemma TextListIs(slot: Option<Json>)
    requires TextListOf(slot).Some?
    ensures var texts := TextListOf(slot).value; |texts| <= 12 && forall i | 0 <= i < |texts| :: Told(texts[i])
  {
    hide TextsIn, Told;
    if slot.Some? { TextsInAre(slot.value.items); }
  }

  lemma MemoryListIs(slot: Option<Json>)
    requires MemoryListOf(slot).Some?
    ensures var memories := MemoryListOf(slot).value;
      && |memories| <= 12
      && (forall i | 0 <= i < |memories| ::
            && Minted(memories[i].id) && memories[i].text != [] && Told(memories[i].text)
            && Rank(memories[i].scope).Some?)
      && (forall i, j | 0 <= i < j < |memories| :: memories[i].id != memories[j].id)
  {
    hide MemoriesIn, Minted, Told, Rank;
    if slot.Some? { MemoriesInAre(slot.value.items); }
  }

  lemma ModeIsAWord(mode: bytes)
    requires mode in PROMPT_MODES
    ensures exists m: nat | m < 4 :: mode == ModeWord(m)
  {
    var m: nat :| m < 4 && PROMPT_MODES[m] == mode;
    assert ModeWord(m) == mode;
  }

  /** Whatever text the sidecar is sent as a context: if it reads one at all, it is a proper one. */
  lemma ReadContextIsProper(text: bytes, roster: set<bytes>)
    requires ParseSocialContext(text, roster).Some?
    ensures ProperContext(ParseSocialContext(text, roster).value, roster)
  {
    var slots := SlotsIn(ReadDocument(text).value.members);
    hide ReadDocument, SlotsIn;
    ReadSlotsAreProper(slots, roster);
  }

  lemma ReadSlotsAreProper(slots: seq<Option<Json>>, roster: set<bytes>)
    requires |slots| == 11 && ReadSlots(slots, roster).Some?
    ensures ProperContext(ReadSlots(slots, roster).value, roster)
  {
    assert Told([]);
    hide TextListOf, MemoryListOf, Minted, Rank, Characters, IdentityFieldsOk, IdentityTogether, ProperFacts, ModeWord;
    TextListIs(slots[6]);
    TextListIs(slots[7]);
    MemoryListIs(slots[8]);
    ModeIsAWord(TextIn(slots[9]).value);
    FactsAre(TextIn(slots[9]).value, slots[1], slots[2], slots[3], roster);
  }

  // ---- No memory becomes less private ----

  /** Its name, the beginning of its text, and exactly its privacy. */
  predicate CameFrom(read: SidecarMemory, written: ContextMemory) {
    read.id == written.id && read.text <= written.text && Rank(read.scope) == Some(Privacy(written.scope))
  }

  lemma ReadMemoryCameFrom(c: Context, d: Context, roster: set<bytes>, i: nat)
    requires AuthorityValid(d) && (forall m | m in d.memories :: m in c.memories)
    requires i < |View(d, roster).memories|
    ensures exists written | written in c.memories :: CameFrom(View(d, roster).memories[i], written)
  {
    hide Clip, Offered;
    OfferedAreUsable(d.memories);
    var written := Offered(d.memories)[i];
    ClipIsABeginning(written.text);
    assert CameFrom(View(d, roster).memories[i], written);
  }

  lemma ClipIsABeginning(text: bytes)
    ensures Clip(text) <= text
  {
  }

  lemma ShedMemoriesWereThere(c: Context)
    requires AuthorityValid(c)
    ensures forall k: nat :: AuthorityValid(Shed(c, k)) && forall m | m in Shed(c, k).memories :: m in c.memories
  {
  }

  lemma NothingIsNoContext(roster: set<bytes>)
    ensures ParseSocialContext([], roster) == None
  {
    assert ReadJson([]) == Bad;
  }

  /** Every memory the sidecar reads out of what was sent is one of the context's own, exactly as private as it was. */
  lemma ReadMemoriesKeepTheirPrivacy(c: Context, roster: set<bytes>, read: SidecarContext, i: nat)
    requires AuthorityValid(c) && RosterNamed(roster) && Encode(c, roster).Some?
    requires ParseSocialContext(Encode(c, roster).value, roster) == Some(read) && i < |read.memories|
    ensures exists written | written in c.memories :: CameFrom(read.memories[i], written)
  {
    NothingIsNoContext(roster);
    ShedMemoriesWereThere(c);
    hide OnePass, Encode, ParseSocialContext, Usable, View, CameFrom, FirstFits, Shed, RosterNamed;
    SentContextIsTakenIff(c, roster);
    var k: nat :| FirstFits(c, roster, k) && TakenAs(Encode(c, roster), Shed(c, k), roster);
    ReadMemoryCameFrom(c, Shed(c, k), roster, i);
  }

  // ---- All the way to a citation ----

  /** General and say are heard by anyone, a party by the party, a whisper by one. */
  function MostPrivateOn(channel: nat): nat { if channel <= 1 then 0 else if channel == 2 then 1 else 2 }

  /** The memories a request brings: those read out of its context, ranked by their names. */
  predicate Brings(request: Reply.SocialRequest, read: SidecarContext) {
    && |request.memories| == |read.memories|
    && forall i | 0 <= i < |read.memories| ::
         && request.memories[i].id == read.memories[i].id
         && Rank(read.memories[i].scope) == Some(request.memories[i].scope)
  }

  /**
   * From the worldserver's memory to the sidecar's reply: what a validated reply cites is a memory of the context, and
   * by the worldserver's own account it is not more private than the channel the reply is spoken on.
   */
  lemma CitedMemoryWasNeverMorePrivate(c: Context, roster: set<bytes>, read: SidecarContext,
                                       request: Reply.SocialRequest, r: Reply.SocialReply, f: Reply.Filters, i: nat)
    requires AuthorityValid(c) && RosterNamed(roster) && Encode(c, roster).Some?
    requires ParseSocialContext(Encode(c, roster).value, roster) == Some(read) && Brings(request, read)
    requires Reply.OneCoherentAnswer(r, f) && Reply.ValidateSocialReply(r, request, f).Some? && i < |r.memories|
    ensures request.channel < 4
    ensures exists written | written in c.memories ::
      written.id == r.memories[i] && Privacy(written.scope) <= MostPrivateOn(request.channel)
  {
    hide Encode, ParseSocialContext, RosterNamed, Reply.OneCoherentAnswer, Reply.ValidateSocialReply, Rank, Privacy;
    Reply.CitedMemoryIsWithinChannel(r, request, f, i);
    var m :| m in request.memories && m.id == r.memories[i]
      && m.scope <= Reply.CHANNEL_MEMORY_SCOPE[request.channel];
    var j: nat :| j < |request.memories| && request.memories[j] == m;
    ReadMemoriesKeepTheirPrivacy(c, roster, read, j);
    var written :| written in c.memories && CameFrom(read.memories[j], written);
    assert Reply.CHANNEL_MEMORY_SCOPE[request.channel] <= MostPrivateOn(request.channel);
  }
}
