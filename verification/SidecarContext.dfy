/**
 * The other end of the request context: the document the worldserver's assembly writes, the sidecar's structured
 * reader of it, and exactly which assembled contexts it takes. A context it does not take is treated as opaque text.
 */
module SidecarContextReader {
  import opened Bytes
  import opened Wrappers
  import opened FlatJson
  import opened JsonWriter
  import opened Utf8Text
  import opened SocialContextEncoder
  import opened SocialContextLoss
  import opened NestedJson

  const AUTHORIZED_ROLEPLAY: nat := 3

  /** In the order they are written. */
  const KEYS: seq<bytes> := ["persona", "fictional_identity_request", "fictional_age", "fictional_home_country",
    "relationship", "starter", "nearby", "thread", "memories", "prompt_mode", "active_expansion"]

  // ---- The document an assembly is ----

  function TextSlot(text: bytes): Option<Json> { if text == [] then None else Some(JText(Clip(text))) }

  function Texts(values: seq<bytes>): (items: seq<Json>)
    ensures |items| == |values| && forall i | 0 <= i < |values| :: items[i] == JText(Clip(values[i]))
  {
    seq(|values|, i requires 0 <= i < |values| => JText(Clip(values[i])))
  }

  function ListSlot(values: seq<bytes>): Option<Json> {
    if values == [] then None else Some(JList(Texts(Kept(values))))
  }

  function MemoryDocument(m: ContextMemory): Json {
    JObject([JMember("id", JText(m.id)), JMember("text", JText(Clip(m.text))),
             JMember("scope", JText(ScopeName(m.scope)))])
  }

  function MemoryDocuments(offered: seq<ContextMemory>): (items: seq<Json>)
    ensures |items| == |offered| && forall i | 0 <= i < |offered| :: items[i] == MemoryDocument(offered[i])
  {
    seq(|offered|, i requires 0 <= i < |offered| => MemoryDocument(offered[i]))
  }

  function MemorySlot(memories: seq<ContextMemory>): Option<Json> {
    if Offered(memories) == [] then None else Some(JList(MemoryDocuments(Offered(memories))))
  }

  function IdentitySlots(identity: Identity, roster: set<bytes>): (slots: seq<Option<Json>>)
    ensures |slots| == 3
  {
    if !IdentityCoherent(identity, roster) then [None, None, None]
    else
      [Some(JText(RequestName(identity.request))),
       if identity.age.Some? then Some(JNumber(identity.age.value)) else None,
       if identity.country.Some? then Some(JText(identity.country.value)) else None]
  }

  function Slots(c: Context, roster: set<bytes>): (slots: seq<Option<Json>>)
    requires AuthorityValid(c)
    ensures |slots| == 11
  {
    [TextSlot(c.persona)] + IdentitySlots(c.identity, roster)
    + [TextSlot(c.relationship), TextSlot(c.starter), ListSlot(c.nearby), ListSlot(c.thread), MemorySlot(c.memories),
       Some(JText(PROMPT_MODES[c.mode])), Some(JNumber(c.expansion))]
  }

  /** The members whose slot is filled. */
  function Present(keys: seq<bytes>, slots: seq<Option<Json>>): seq<JMember>
    requires |keys| == |slots|
  {
    if keys == [] then []
    else (if slots[0].Some? then [JMember(keys[0], slots[0].value)] else []) + Present(keys[1..], slots[1..])
  }

  function ContextDocument(c: Context, roster: set<bytes>): Json
    requires AuthorityValid(c)
  {
    JObject(Present(KEYS, Slots(c, roster)))
  }

  // ---- The sidecar's reading ----

  datatype SidecarMemory = SidecarMemory(id: bytes, text: bytes, scope: bytes)
  datatype SidecarContext = SidecarContext(
    persona: bytes, request: Option<bytes>, age: Option<nat>, country: Option<bytes>, relationship: bytes,
    starter: bytes, nearby: seq<bytes>, thread: seq<bytes>, memories: seq<SidecarMemory>, mode: bytes, expansion: nat)

  function Lookup(members: seq<JMember>, key: bytes): Option<Json> {
    if members == [] then None
    else if members[0].key == key then Some(members[0].value)
    else Lookup(members[1..], key)
  }

  /** Length in characters: every byte that does not continue one. */
  function Characters(text: bytes): nat {
    if text == [] then 0 else (if IsContinuation(text[0]) then 0 else 1) + Characters(text[1..])
  }

  /** A text within a bound; an absent one is the empty text. */
  function TextOf(slot: Option<Json>): Option<bytes> {
    match slot
    case None => Some([])
    case Some(JText(s)) => if Characters(s) <= MAX_SOCIAL_CONTEXT_ENTRY_BYTES then Some(s) else None
    case _ => None
  }

  function TextsIn(items: seq<Json>): Option<seq<bytes>> {
    if items == [] then Some([])
    else
      var front, last := TextsIn(items[..|items| - 1]), TextOf(Some(items[|items| - 1]));
      if front.None? || last.None? then None else Some(front.value + [last.value])
  }

  function TextListOf(slot: Option<Json>): Option<seq<bytes>> {
    match slot
    case None => Some([])
    case Some(JList(items)) => if |items| <= MAX_SOCIAL_CONTEXT_ENTRIES then TextsIn(items) else None
    case _ => None
  }

  predicate NameOk(id: bytes) { |id| >= 2 && id[0] == 'm' && id[1] != '0' && AllDigits(id[1..]) }

  predicate ScopeOk(scope: bytes) { scope == "public" || scope == "party" || scope == "whisper" }

  /** Exactly the three fields, in any order. */
  function MemoryOf(item: Json): Option<SidecarMemory> {
    if !item.JObject? || |item.members| != 3 then None
    else
      var id, text, scope := Lookup(item.members, "id"), Lookup(item.members, "text"), Lookup(item.members, "scope");
      if id.None? || text.None? || scope.None? || !id.value.JText? || !text.value.JText? || !scope.value.JText?
        then None
      else if !NameOk(id.value.s) || text.value.s == [] || Characters(text.value.s) > MAX_SOCIAL_CONTEXT_ENTRY_BYTES
        then None
      else if !ScopeOk(scope.value.s) then None
      else Some(SidecarMemory(id.value.s, text.value.s, scope.value.s))
  }

  function MemoriesIn(items: seq<Json>): Option<seq<SidecarMemory>> {
    if items == [] then Some([])
    else
      var front, last := MemoriesIn(items[..|items| - 1]), MemoryOf(items[|items| - 1]);
      if front.None? || last.None? then None else Some(front.value + [last.value])
  }

  predicate NamesDiffer(memories: seq<SidecarMemory>) {
    forall i, j | 0 <= i < j < |memories| :: memories[i].id != memories[j].id
  }

  function MemoryListOf(slot: Option<Json>): Option<seq<SidecarMemory>> {
    match slot
    case None => Some([])
    case Some(JList(items)) =>
      if |items| > MAX_SOCIAL_CONTEXT_ENTRIES || MemoriesIn(items).None? || !NamesDiffer(MemoriesIn(items).value)
        then None
      else MemoriesIn(items)
    case _ => None
  }

  predicate KnownRequest(name: bytes) { name == "age" || name == "home_country" || name == "age_and_home_country" }

  /** Each identity field on its own; whether they go together is checked after. */
  predicate IdentityFieldsOk(request: Option<Json>, age: Option<Json>, country: Option<Json>) {
    && (request.Some? ==> request.value.JText? && KnownRequest(request.value.s))
    && (age.Some? ==> age.value.JNumber? && FICTIONAL_IDENTITY_MIN_AGE <= age.value.n <= FICTIONAL_IDENTITY_MAX_AGE)
    && (country.Some? ==> country.value.JText? && 1 <= Characters(country.value.s) <= MAX_COUNTRY_BYTES)
  }

  /** Facts only under a request that asked for them, and never under an in-character premise. */
  predicate IdentityTogether(mode: bytes, request: Option<bytes>, age: Option<nat>, country: Option<bytes>,
                             roster: set<bytes>) {
    && (mode == "authorized_roleplay" ==> request.None? && age.None? && country.None?)
    && (request.None? ==> age.None? && country.None?)
    && (age.Some? ==> request != Some("home_country"))
    && (country.Some? ==> request != Some("age") && country.value in roster)
  }

  function TextIn(slot: Option<Json>): Option<bytes> {
    if slot.Some? && slot.value.JText? then Some(slot.value.s) else None
  }

  function NumberIn(slot: Option<Json>): Option<nat> {
    if slot.Some? && slot.value.JNumber? then Some(slot.value.n) else None
  }

  /** The eleven fields, read out of their slots. */
  function ReadSlots(slots: seq<Option<Json>>, roster: set<bytes>): Option<SidecarContext>
    requires |slots| == 11
  {
    var persona, relationship, starter := TextOf(slots[0]), TextOf(slots[4]), TextOf(slots[5]);
    var nearby, thread, memories := TextListOf(slots[6]), TextListOf(slots[7]), MemoryListOf(slots[8]);
    var mode, expansion := TextIn(slots[9]), NumberIn(slots[10]);
    if persona.None? || relationship.None? || starter.None? || nearby.None? || thread.None? || memories.None? then None
    else if mode.None? || mode.value !in PROMPT_MODES || expansion.None?
      || expansion.value > MAX_SOCIAL_ACTIVE_EXPANSION then None
    else if !IdentityFieldsOk(slots[1], slots[2], slots[3]) then None
    else
      var request, age, country := TextIn(slots[1]), NumberIn(slots[2]), TextIn(slots[3]);
      if !IdentityTogether(mode.value, request, age, country, roster) then None
      else Some(SidecarContext(persona.value, request, age, country, relationship.value, starter.value, nearby.value,
                               thread.value, memories.value, mode.value, expansion.value))
  }

  function SlotsIn(members: seq<JMember>): (slots: seq<Option<Json>>)
    ensures |slots| == 11 && forall i | 0 <= i < 11 :: slots[i] == Lookup(members, KEYS[i])
  {
    seq(11, i requires 0 <= i < 11 => Lookup(members, KEYS[i]))
  }

  /** A structured context has no key it does not know; anything else is not one. */
  function ParseSocialContext(text: bytes, roster: set<bytes>): Option<SidecarContext> {
    var document := ReadDocument(text);
    if document.None? || !document.value.JObject? then None
    else if exists i | 0 <= i < |document.value.members| :: document.value.members[i].key !in KEYS then None
    else ReadSlots(SlotsIn(document.value.members), roster)
  }

  // ---- Which contexts are taken, and as what ----

  predicate MemoryTaken(m: ContextMemory) { NameOk(m.id) && Clip(m.text) != [] }

  predicate MemoriesTaken(offered: seq<ContextMemory>) {
    && (forall i | 0 <= i < |offered| :: MemoryTaken(offered[i]))
    && (forall i, j | 0 <= i < j < |offered| :: offered[i].id != offered[j].id)
  }

  /** Every offered memory has a name the reader knows and a text left, no name twice, and no mixed premises. */
  predicate Usable(c: Context, roster: set<bytes>) {
    && MemoriesTaken(Offered(c.memories))
    && (IdentityCoherent(c.identity, roster) ==> c.mode != AUTHORIZED_ROLEPLAY)
  }

  function Clipped(values: seq<bytes>): (texts: seq<bytes>)
    ensures |texts| == |values| && forall i | 0 <= i < |values| :: texts[i] == Clip(values[i])
  {
    seq(|values|, i requires 0 <= i < |values| => Clip(values[i]))
  }

  function Remembered(offered: seq<ContextMemory>): (memories: seq<SidecarMemory>)
    ensures |memories| == |offered|
    ensures forall i | 0 <= i < |offered| ::
      memories[i] == SidecarMemory(offered[i].id, Clip(offered[i].text), ScopeName(offered[i].scope))
  {
    seq(|offered|, i requires 0 <= i < |offered| =>
      SidecarMemory(offered[i].id, Clip(offered[i].text), ScopeName(offered[i].scope)))
  }

  /** What the sidecar is meant to see of a context. */
  function View(c: Context, roster: set<bytes>): SidecarContext
    requires AuthorityValid(c)
  {
    var told := IdentityCoherent(c.identity, roster);
    SidecarContext(
      Clip(c.persona), if told then Some(RequestName(c.identity.request)) else None,
      if told then c.identity.age else None, if told then c.identity.country else None,
      Clip(c.relationship), Clip(c.starter), Clipped(Kept(c.nearby)), Clipped(Kept(c.thread)),
      Remembered(Offered(c.memories)), PROMPT_MODES[c.mode], c.expansion)
  }

  // ---- Slots survive the member list ----

  predicate KeysApart(keys: seq<bytes>) { forall i, j | 0 <= i < j < |keys| :: keys[i] != keys[j] }

  lemma KnownKeysApart()
    ensures KeysApart(KEYS)
  {
    assert forall i, j | 0 <= i < j < 11 && (i, j) != (6, 7) :: |KEYS[i]| != |KEYS[j]| || KEYS[i][0] != KEYS[j][0];
  }

  lemma {:induction false} LookupPresent(keys: seq<bytes>, slots: seq<Option<Json>>, key: bytes)
    requires |keys| == |slots| && KeysApart(keys)
    ensures key !in keys ==> Lookup(Present(keys, slots), key) == None
    ensures forall i | 0 <= i < |keys| && keys[i] == key :: Lookup(Present(keys, slots), key) == slots[i]
    decreases |keys|
  {
    if keys != [] {
      LookupPresent(keys[1..], slots[1..], key);
      var rest := Present(keys[1..], slots[1..]);
      if slots[0].Some? {
        assert ([JMember(keys[0], slots[0].value)] + rest)[1..] == rest;
      } else {
        assert [] + rest == rest;
      }
      if key == keys[0] { assert key !in keys[1..]; }
    }
  }

  lemma {:induction false} PresentKeys(keys: seq<bytes>, slots: seq<Option<Json>>)
    requires |keys| == |slots| && KeysApart(keys)
    ensures forall i | 0 <= i < |Present(keys, slots)| ::
      Present(keys, slots)[i].key in keys && Some(Present(keys, slots)[i].value) in slots
    ensures forall i, j | 0 <= i < j < |Present(keys, slots)| ::
      Present(keys, slots)[i].key != Present(keys, slots)[j].key
    decreases |keys|
  {
    if keys != [] {
      PresentKeys(keys[1..], slots[1..]);
      assert forall k | k in keys[1..] :: k in keys && k != keys[0];
      assert forall v | v in slots[1..] :: v in slots;
    }
  }

  // ---- Each slot is read as it was meant ----

  lemma {:induction false} FewCharacters(text: bytes)
    ensures Characters(text) <= |text|
  {
    if text != [] { FewCharacters(text[1..]); }
  }

  lemma TextSlotRead(text: bytes)
    ensures TextOf(TextSlot(text)) == Some(Clip(text))
  {
    FewCharacters(Clip(text));
  }

  lemma {:induction false} TextsRead(values: seq<bytes>)
    ensures TextsIn(Texts(values)) == Some(Clipped(values))
  {
    if values != [] {
      var front := values[..|values| - 1];
      TextsRead(front);
      assert Texts(values)[..|values| - 1] == Texts(front);
      FewCharacters(Clip(values[|values| - 1]));
      assert Clipped(values) == Clipped(front) + [Clip(values[|values| - 1])];
    }
  }

  lemma ListSlotRead(values: seq<bytes>)
    ensures TextListOf(ListSlot(values)) == Some(Clipped(Kept(values)))
  {
    TextsRead(Kept(values));
  }

  lemma MemoryRead(m: ContextMemory)
    ensures MemoryOf(MemoryDocument(m))
         == if MemoryTaken(m) then Some(SidecarMemory(m.id, Clip(m.text), ScopeName(m.scope))) else None
  {
    FewCharacters(Clip(m.text));
    assert Characters(Clip(m.text)) <= MAX_SOCIAL_CONTEXT_ENTRY_BYTES;
    hide Clip, Characters, NameOk;
    var members := MemoryDocument(m).members;
    var text, scope := JMember("text", JText(Clip(m.text))), JMember("scope", JText(ScopeName(m.scope)));
    assert members[1..] == [text, scope] && members[1..][1..] == [scope];
    assert Lookup([scope], "scope") == Some(scope.value);
    assert Lookup([text, scope], "scope") == Some(scope.value) && Lookup([text, scope], "text") == Some(text.value);
  }

  lemma {:induction false} MemoriesRead(offered: seq<ContextMemory>)
    ensures MemoriesIn(MemoryDocuments(offered))
         == if forall i | 0 <= i < |offered| :: MemoryTaken(offered[i]) then Some(Remembered(offered)) else None
  {
    hide MemoryOf, MemoryTaken, Clip;
    if offered != [] {
      var front, last := offered[..|offered| - 1], offered[|offered| - 1];
      MemoriesRead(front);
      MemoryRead(last);
      assert MemoryDocuments(offered)[..|offered| - 1] == MemoryDocuments(front);
      assert forall i | 0 <= i < |front| :: front[i] == offered[i];
      if forall i | 0 <= i < |offered| :: MemoryTaken(offered[i]) {
        assert Remembered(offered)
          == Remembered(front) + [SidecarMemory(last.id, Clip(last.text), ScopeName(last.scope))];
      }
    }
  }

  lemma MemorySlotRead(memories: seq<ContextMemory>)
    ensures var offered := Offered(memories);
      MemoryListOf(MemorySlot(memories)) == if MemoriesTaken(offered) then Some(Remembered(offered)) else None
  {
    hide Offered, MemoryTaken, MemoriesIn;
    MemoriesRead(Offered(memories));
  }

  /** The roster both sides share: every name has one to thirty-two characters in as many bytes. */
  predicate RosterNamed(roster: set<bytes>) {
    RosterBounded(roster) && forall name | name in roster :: Characters(name) >= 1
  }

  lemma IdentityRead(c: Context, roster: set<bytes>)
    requires AuthorityValid(c) && RosterNamed(roster)
    ensures var slots, view := IdentitySlots(c.identity, roster), View(c, roster);
      && IdentityFieldsOk(slots[0], slots[1], slots[2])
      && TextIn(slots[0]) == view.request && NumberIn(slots[1]) == view.age && TextIn(slots[2]) == view.country
      && (IdentityTogether(view.mode, view.request, view.age, view.country, roster)
          <==> (IdentityCoherent(c.identity, roster) ==> c.mode != AUTHORIZED_ROLEPLAY))
  {
    hide Clip, Offered, Characters;
    if c.identity.country.Some? { FewCharacters(c.identity.country.value); }
    assert PROMPT_MODES[c.mode] == "authorized_roleplay" <==> c.mode == AUTHORIZED_ROLEPLAY;
  }

  lemma SlotsRead(c: Context, roster: set<bytes>)
    requires AuthorityValid(c) && RosterNamed(roster)
    ensures ReadSlots(Slots(c, roster), roster) == if Usable(c, roster) then Some(View(c, roster)) else None
  {
    hide TextOf, TextListOf, MemoryListOf, TextSlot, ListSlot, MemorySlot, IdentitySlots, IdentityFieldsOk,
      IdentityTogether, Clip, Offered, IdentityCoherent, MemoriesTaken;
    var slots := Slots(c, roster);
    var identity := IdentitySlots(c.identity, roster);
    assert slots[1] == identity[0] && slots[2] == identity[1] && slots[3] == identity[2];
    TextSlotRead(c.persona);
    TextSlotRead(c.relationship);
    TextSlotRead(c.starter);
    ListSlotRead(c.nearby);
    ListSlotRead(c.thread);
    MemorySlotRead(c.memories);
    IdentityRead(c, roster);
    assert PROMPT_MODES[c.mode] in PROMPT_MODES;
  }

  // ---- The assembly writes that document ----

  function WrittenItems(items: seq<Json>): (parts: seq<bytes>)
    ensures |parts| == |items| && forall i | 0 <= i < |items| :: parts[i] == Write(items[i])
  {
    seq(|items|, i requires 0 <= i < |items| => Write(items[i]))
  }

  function WrittenMembers(members: seq<JMember>): (parts: seq<bytes>)
    ensures |parts| == |members| && forall i | 0 <= i < |members| :: parts[i] == WriteMember(members[i])
  {
    seq(|members|, i requires 0 <= i < |members| => WriteMember(members[i]))
  }

  lemma JoinCons(first: bytes, rest: seq<bytes>)
    ensures Join([first] + rest) == first + (if rest == [] then [] else [','] + Join(rest))
  {
    LedIsJoined([first], rest);
    if rest != [] { LedAloneIsJoined(rest); }
  }

  lemma {:induction false} ItemsJoined(items: seq<Json>)
    ensures Join(WrittenItems(items)) == WriteItems(items)
  {
    if items != [] {
      hide Write;
      var parts := WrittenItems(items);
      ItemsJoined(items[1..]);
      assert parts[1..] == WrittenItems(items[1..]);
      assert parts == [parts[0]] + parts[1..];
      JoinCons(parts[0], parts[1..]);
    }
  }

  lemma {:induction false} MembersJoined(members: seq<JMember>)
    ensures Join(WrittenMembers(members)) == WriteMembers(members)
  {
    if members != [] {
      hide WriteMember;
      var parts := WrittenMembers(members);
      MembersJoined(members[1..]);
      assert parts[1..] == WrittenMembers(members[1..]);
      assert parts == [parts[0]] + parts[1..];
      JoinCons(parts[0], parts[1..]);
    }
  }

  /** A key without anything to escape is written raw, which is how the assembly writes its own keys. */
  lemma LabelledIsWritten(key: bytes, value: Json)
    requires PlainKey(key)
    ensures Labelled(key, Write(value)) == WriteMember(JMember(key, value))
  {
    PlainKeyIsWrittenRaw(key);
    QuotedIsEscaped(key);
    hide Write, Escaped, Quoted;
    GluedLabel(key, Write(value));
  }

  lemma GluedLabel(key: bytes, value: bytes)
    ensures ['"'] + (key + (['"', ':'] + value)) == (['"'] + key + ['"']) + ([':'] + value)
  {
  }

  lemma QuotedIsEscaped(text: bytes)
    ensures Quoted(text) == ['"'] + Escaped(text) + ['"']
  {
  }

  lemma KnownKeysPlain(i: nat)
    requires i < 11
    ensures PlainKey(KEYS[i])
  {
  }

  lemma EntryIsWritten(i: nat, text: bytes)
    requires i < 11
    ensures Entry(KEYS[i], text) == WrittenMembers(Present([KEYS[i]], [TextSlot(text)]))
  {
    hide Quoted, Clip;
    KnownKeysPlain(i);
    OneSlot(KEYS[i], TextSlot(text));
    if text != [] {
      LabelledIsWritten(KEYS[i], JText(Clip(text)));
      assert Write(JText(Clip(text))) == Quoted(Clip(text));
    }
  }

  lemma OneSlot(key: bytes, slot: Option<Json>)
    ensures Present([key], [slot]) == if slot.Some? then [JMember(key, slot.value)] else []
  {
    assert [key][1..] == [] && [slot][1..] == [];
  }

  lemma StringListIsWritten(i: nat, values: seq<bytes>)
    requires i < 11
    ensures StringList(KEYS[i], values) == WrittenMembers(Present([KEYS[i]], [ListSlot(values)]))
  {
    hide Quoted, Clip, Kept;
    KnownKeysPlain(i);
    OneSlot(KEYS[i], ListSlot(values));
    if values != [] {
      var items := Texts(Kept(values));
      assert Strings(Kept(values)) == WrittenItems(items);
      ItemsJoined(items);
      LabelledIsWritten(KEYS[i], JList(items));
    }
  }

  /** The quoted pieces of a memory, glued as the assembly glues them and as an object is written. */
  lemma GluedMemory(id: bytes, text: bytes, scope: bytes)
    ensures "{\"id\":" + id + ",\"text\":" + text + ",\"scope\":\"" + scope + "\"}"
         == ['{'] + (WrittenMemory(['"'] + "id" + ['"'], ['"'] + "text" + ['"'], ['"'] + "scope" + ['"'],
                                   id, text, ['"'] + scope + ['"']) + ['}'])
  {
  }

  /** Three members, with their keys and values already written. */
  function WrittenMemory(k1: bytes, k2: bytes, k3: bytes, id: bytes, text: bytes, scope: bytes): bytes {
    (k1 + ([':'] + id)) + ([','] + ((k2 + ([':'] + text)) + ([','] + (k3 + ([':'] + scope)))))
  }

  lemma PlainTextIsWrittenRaw(text: bytes)
    requires PlainKey(text)
    ensures Quoted(text) == ['"'] + text + ['"']
  {
    PlainKeyIsWrittenRaw(text);
    QuotedIsEscaped(text);
  }

  lemma ObjectIsGlued(m: ContextMemory)
    ensures MemoryObject(m)
         == ['{'] + (WrittenMemory(['"'] + "id" + ['"'], ['"'] + "text" + ['"'], ['"'] + "scope" + ['"'],
                                   Quoted(m.id), Quoted(Clip(m.text)), ['"'] + ScopeName(m.scope) + ['"']) + ['}'])
  {
    hide Quoted, Clip, ScopeName, WrittenMemory;
    GluedMemory(Quoted(m.id), Quoted(Clip(m.text)), ScopeName(m.scope));
  }

  lemma MemoryIsWritten(m: ContextMemory)
    ensures MemoryObject(m) == Write(MemoryDocument(m))
  {
    assert PlainKey(ScopeName(m.scope));
    hide Quoted, Clip, ScopeName, WrittenMemory, Write, MemoryObject, MemoryDocument;
    PlainTextIsWrittenRaw("id");
    PlainTextIsWrittenRaw("text");
    PlainTextIsWrittenRaw("scope");
    PlainTextIsWrittenRaw(ScopeName(m.scope));
    ObjectIsGlued(m);
    MemoryMembers(m);
  }

  lemma MemoryMembers(m: ContextMemory)
    ensures Write(MemoryDocument(m))
         == ['{'] + (WrittenMemory(Quoted("id"), Quoted("text"), Quoted("scope"),
                                   Quoted(m.id), Quoted(Clip(m.text)), Quoted(ScopeName(m.scope))) + ['}'])
  {
    hide Quoted, Clip, ScopeName;
    var id, text, scope := JMember("id", JText(m.id)), JMember("text", JText(Clip(m.text))),
      JMember("scope", JText(ScopeName(m.scope)));
    ThreeMembers(id, text, scope);
    assert MemoryDocument(m) == JObject([id, text, scope]);
  }

  lemma ThreeMembers(a: JMember, b: JMember, c: JMember)
    ensures WriteMembers([a, b, c]) == WriteMember(a) + ([','] + (WriteMember(b) + ([','] + WriteMember(c))))
  {
    hide WriteMember;
    assert [a, b, c][1..] == [b, c] && [b, c][1..] == [c];
    assert WriteMember(c) + [] == WriteMember(c);
    assert WriteMembers([c]) == WriteMember(c);
    assert WriteMembers([b, c]) == WriteMember(b) + ([','] + WriteMember(c));
  }

  lemma MemoryListIsWritten(memories: seq<ContextMemory>)
    ensures MemoryList(memories) == WrittenMembers(Present([KEYS[8]], [MemorySlot(memories)]))
  {
    hide MemoryObject, MemoryDocument, Offered;
    KnownKeysPlain(8);
    OneSlot(KEYS[8], MemorySlot(memories));
    var offered := Offered(memories);
    if offered != [] {
      var items := MemoryDocuments(offered);
      forall i | 0 <= i < |offered| ensures MemoryObjects(offered)[i] == WrittenItems(items)[i] {
        MemoryIsWritten(offered[i]);
      }
      assert MemoryObjects(offered) == WrittenItems(items);
      ItemsJoined(items);
      LabelledIsWritten(KEYS[8], JList(items));
    }
  }

  lemma IdentityIsWritten(identity: Identity, roster: set<bytes>)
    ensures var members := Present(KEYS[1..4], IdentitySlots(identity, roster));
      && IdentityBlock(identity, roster) == (if members == [] then [] else [Join(WrittenMembers(members))])
      && (members != [] <==> IdentityCoherent(identity, roster))
  {
    hide Quoted;
    var slots := IdentitySlots(identity, roster);
    assert KEYS[1..4] == [KEYS[1], KEYS[2], KEYS[3]];
    assert slots == [slots[0], slots[1], slots[2]];
    ThreeSlots(KEYS[1], KEYS[2], KEYS[3], slots[0], slots[1], slots[2]);
    if IdentityCoherent(identity, roster) {
      IdentityMembers(identity, roster);
    }
  }

  lemma ThreeSlots(k1: bytes, k2: bytes, k3: bytes, a: Option<Json>, b: Option<Json>, c: Option<Json>)
    ensures Present([k1, k2, k3], [a, b, c])
         == (if a.Some? then [JMember(k1, a.value)] else []) + (if b.Some? then [JMember(k2, b.value)] else [])
            + (if c.Some? then [JMember(k3, c.value)] else [])
  {
    assert [k1, k2, k3][1..] == [k2, k3] && [k2, k3][1..] == [k3];
    assert [a, b, c][1..] == [b, c] && [b, c][1..] == [c];
    OneSlot(k3, c);
  }

  lemma IdentityMembers(identity: Identity, roster: set<bytes>)
    requires IdentityCoherent(identity, roster)
    ensures var members := [JMember(KEYS[1], JText(RequestName(identity.request)))]
        + (if identity.age.Some? then [JMember(KEYS[2], JNumber(identity.age.value))] else [])
        + (if identity.country.Some? then [JMember(KEYS[3], JText(identity.country.value))] else []);
      IdentityFields(identity) == WrittenMembers(members)
  {
    hide Quoted, RequestName;
    KnownKeysPlain(1);
    KnownKeysPlain(2);
    KnownKeysPlain(3);
    LabelledIsWritten(KEYS[1], JText(RequestName(identity.request)));
    if identity.age.Some? { LabelledIsWritten(KEYS[2], JNumber(identity.age.value)); }
    if identity.country.Some? { LabelledIsWritten(KEYS[3], JText(identity.country.value)); }
  }

  lemma {:induction false} PresentConcat(k1: seq<bytes>, k2: seq<bytes>, s1: seq<Option<Json>>, s2: seq<Option<Json>>)
    requires |k1| == |s1| && |k2| == |s2|
    ensures Present(k1 + k2, s1 + s2) == Present(k1, s1) + Present(k2, s2)
    decreases |k1|
  {
    if k1 == [] {
      assert k1 + k2 == k2 && s1 + s2 == s2;
    } else {
      assert (k1 + k2)[1..] == k1[1..] + k2 && (s1 + s2)[1..] == s1[1..] + s2;
      PresentConcat(k1[1..], k2, s1[1..], s2);
      var head := if s1[0].Some? then [JMember(k1[0], s1[0].value)] else [];
      assert (head + Present(k1[1..], s1[1..])) + Present(k2, s2)
        == head + (Present(k1[1..], s1[1..]) + Present(k2, s2));
    }
  }

  lemma WrittenConcat(a: seq<JMember>, b: seq<JMember>)
    ensures WrittenMembers(a + b) == WrittenMembers(a) + WrittenMembers(b)
  {
  }

  /** A block that is itself a joined list joins like its parts. */
  lemma JoinFlattens(a: seq<bytes>, b: seq<bytes>, c: seq<bytes>)
    requires b != []
    ensures Join(a + [Join(b)] + c) == Join(a + b + c)
  {
    var whole := [Join(b)];
    LedOne(Join(b));
    LedAloneIsJoined(b);
    assert Led(whole) == Led(b);
    if a == [] {
      assert a + whole + c == whole + c && a + b + c == b + c;
      LedIsJoined(whole, c);
      LedIsJoined(b, c);
    } else {
      assert a + whole + c == a + (whole + c) && a + b + c == a + (b + c);
      LedIsJoined(a, whole + c);
      LedIsJoined(a, b + c);
      LedStarts(whole, c);
      LedStarts(b, c);
    }
  }

  function Before(c: Context): seq<JMember> { Present([KEYS[0]], [TextSlot(c.persona)]) }

  function Told(c: Context, roster: set<bytes>): seq<JMember> { Present(KEYS[1..4], IdentitySlots(c.identity, roster)) }

  function After(c: Context): seq<JMember> {
    Present([KEYS[4]], [TextSlot(c.relationship)]) + Present([KEYS[5]], [TextSlot(c.starter)])
    + Present([KEYS[6]], [ListSlot(c.nearby)]) + Present([KEYS[7]], [ListSlot(c.thread)])
    + Present([KEYS[8]], [MemorySlot(c.memories)])
  }

  function AuthorityMembers(c: Context): seq<JMember>
    requires AuthorityValid(c)
  {
    [JMember(KEYS[9], JText(PROMPT_MODES[c.mode])), JMember(KEYS[10], JNumber(c.expansion))]
  }

  lemma MembersInOrder(c: Context, roster: set<bytes>)
    requires AuthorityValid(c)
    ensures Present(KEYS, Slots(c, roster)) == Before(c) + Told(c, roster) + After(c) + AuthorityMembers(c)
  {
    hide Present, TextSlot, ListSlot, MemorySlot, IdentitySlots;
    var mode, expansion := Some(JText(PROMPT_MODES[c.mode])), Some(JNumber(c.expansion));
    var k, s := KEYS, Slots(c, roster);
    var identity := IdentitySlots(c.identity, roster);
    PresentConcat([k[0]], k[1..4], [TextSlot(c.persona)], identity);
    PresentConcat([k[4]], [k[5]], [TextSlot(c.relationship)], [TextSlot(c.starter)]);
    PresentConcat([k[4]] + [k[5]], [k[6]], [TextSlot(c.relationship)] + [TextSlot(c.starter)], [ListSlot(c.nearby)]);
    PresentConcat([k[4]] + [k[5]] + [k[6]], [k[7]],
                  [TextSlot(c.relationship)] + [TextSlot(c.starter)] + [ListSlot(c.nearby)], [ListSlot(c.thread)]);
    var front := [TextSlot(c.relationship)] + [TextSlot(c.starter)] + [ListSlot(c.nearby)] + [ListSlot(c.thread)];
    var frontKeys := [k[4]] + [k[5]] + [k[6]] + [k[7]];
    PresentConcat(frontKeys, [k[8]], front, [MemorySlot(c.memories)]);
    PresentConcat([k[0]] + k[1..4], frontKeys + [k[8]], [TextSlot(c.persona)] + identity,
                  front + [MemorySlot(c.memories)]);
    PresentConcat([k[0]] + k[1..4] + (frontKeys + [k[8]]), [k[9], k[10]],
                  [TextSlot(c.persona)] + identity + (front + [MemorySlot(c.memories)]), [mode, expansion]);
    assert k == [k[0]] + k[1..4] + (frontKeys + [k[8]]) + [k[9], k[10]];
    assert s == [TextSlot(c.persona)] + identity + (front + [MemorySlot(c.memories)]) + [mode, expansion];
    AuthoritySlots(c);
    assert Before(c) + Told(c, roster) + After(c) == (Before(c) + Told(c, roster)) + After(c);
  }

  lemma AuthoritySlots(c: Context)
    requires AuthorityValid(c)
    ensures Present([KEYS[9], KEYS[10]], [Some(JText(PROMPT_MODES[c.mode])), Some(JNumber(c.expansion))])
      == AuthorityMembers(c)
  {
    var keys, slots := [KEYS[9], KEYS[10]], [Some(JText(PROMPT_MODES[c.mode])), Some(JNumber(c.expansion))];
    assert keys[1..] == [KEYS[10]] && slots[1..] == [slots[1]];
    OneSlot(KEYS[10], slots[1]);
  }

  lemma AfterIsWritten(c: Context)
    ensures WrittenMembers(After(c)) == Entry("relationship", c.relationship) + Entry("starter", c.starter) + Lists(c)
  {
    EntryIsWritten(4, c.relationship);
    EntryIsWritten(5, c.starter);
    StringListIsWritten(6, c.nearby);
    StringListIsWritten(7, c.thread);
    MemoryListIsWritten(c.memories);
    hide Entry, StringList, MemoryList, Present, TextSlot, ListSlot, MemorySlot, WriteMember;
    var r, s := Present([KEYS[4]], [TextSlot(c.relationship)]), Present([KEYS[5]], [TextSlot(c.starter)]);
    var n, t := Present([KEYS[6]], [ListSlot(c.nearby)]), Present([KEYS[7]], [ListSlot(c.thread)]);
    var m := Present([KEYS[8]], [MemorySlot(c.memories)]);
    WrittenConcat(r, s);
    WrittenConcat(r + s, n);
    WrittenConcat(r + s + n, t);
    WrittenConcat(r + s + n + t, m);
    RegroupLists(WrittenMembers(r), WrittenMembers(s), WrittenMembers(n), WrittenMembers(t), WrittenMembers(m));
  }

  lemma RegroupLists(r: seq<bytes>, s: seq<bytes>, n: seq<bytes>, t: seq<bytes>, m: seq<bytes>)
    ensures r + s + n + t + m == r + s + (n + t + m)
  {
  }

  lemma BlocksAreWritten(c: Context, roster: set<bytes>)
    requires AuthorityValid(c)
    ensures Join(Scalars(c, roster) + Lists(c)) == Join(WrittenMembers(Before(c) + Told(c, roster) + After(c)))
    ensures Scalars(c, roster) + Lists(c) == [] <==> Before(c) + Told(c, roster) + After(c) == []
  {
    EntryIsWritten(0, c.persona);
    IdentityIsWritten(c.identity, roster);
    AfterIsWritten(c);
    hide Entry, Lists, Present, TextSlot, After, IdentityBlock, IdentitySlots, IdentityCoherent, Join, WriteMember;
    var before, told, after := WrittenMembers(Before(c)), WrittenMembers(Told(c, roster)), WrittenMembers(After(c));
    var identity := IdentityBlock(c.identity, roster);
    RegroupBlocks(Entry("persona", c.persona), identity, Entry("relationship", c.relationship),
                  Entry("starter", c.starter), Lists(c));
    WrittenConcat(Before(c), Told(c, roster));
    WrittenConcat(Before(c) + Told(c, roster), After(c));
    if Told(c, roster) != [] { JoinFlattens(before, told, after); }
  }

  lemma RegroupBlocks(p: seq<bytes>, i: seq<bytes>, r: seq<bytes>, s: seq<bytes>, l: seq<bytes>)
    ensures p + i + r + s + l == p + i + (r + s + l)
  {
  }

  /** What a pass writes is the document, whole. */
  lemma PassIsTheDocument(c: Context, roster: set<bytes>)
    requires AuthorityValid(c) && OnePass(c, roster) != []
    ensures OnePass(c, roster) == Write(ContextDocument(c, roster))
  {
    hide Scalars, Lists, Quoted, Before, Told, After, Present;
    var members := Before(c) + Told(c, roster) + After(c);
    var authority := AuthorityMembers(c);
    BlocksAreWritten(c, roster);
    MembersInOrder(c, roster);
    MembersJoined(members + authority);
    WrittenConcat(members, authority);
    AuthorityIsWritten(WrittenMembers(members), c);
  }

  lemma AuthorityIsWritten(parts: seq<bytes>, c: Context)
    requires AuthorityValid(c) && parts != []
    ensures Join(parts) + Authority(c) == Join(parts + WrittenMembers(AuthorityMembers(c))) + ['}']
  {
    hide Quoted;
    KnownKeysPlain(9);
    KnownKeysPlain(10);
    LabelledIsWritten(KEYS[9], JText(PROMPT_MODES[c.mode]));
    LabelledIsWritten(KEYS[10], JNumber(c.expansion));
    var members := WrittenMembers(AuthorityMembers(c));
    var mode, expansion := members[0], members[1];
    hide WriteMember, Labelled, Write;
    assert Authority(c) == [','] + (mode + ([','] + (expansion + ['}'])));
    assert parts + members == (parts + [mode]) + [expansion];
    JoinSnoc(parts, mode);
    JoinSnoc(parts + [mode], expansion);
    GluedTail(Join(parts), mode, expansion);
  }

  lemma GluedTail(a: bytes, b: bytes, c: bytes)
    ensures a + ([','] + (b + ([','] + (c + ['}'])))) == ((a + ([','] + b)) + ([','] + c)) + ['}']
  {
  }

  // ---- End to end ----

  lemma DocumentIsRead(c: Context, roster: set<bytes>)
    requires AuthorityValid(c) && RosterNamed(roster)
    ensures ParseSocialContext(Write(ContextDocument(c, roster)), roster)
         == if Usable(c, roster) then Some(View(c, roster)) else None
  {
    hide Write, ReadDocument, ReadSlots, Usable, View, TextSlot, ListSlot, MemorySlot, IdentitySlots;
    var slots := Slots(c, roster);
    var members := Present(KEYS, slots);
    KnownKeysApart();
    PresentKeys(KEYS, slots);
    SlotsAreFlat(c, roster);
    WrittenDocumentIsReadBack(JObject(members));
    forall i | 0 <= i < 11 ensures SlotsIn(members)[i] == slots[i] { LookupPresent(KEYS, slots, KEYS[i]); }
    assert SlotsIn(members) == slots;
    SlotsRead(c, roster);
  }

  lemma MemoryIsFlat(m: ContextMemory)
    ensures NoRepeats(MemoryDocument(m))
  {
    hide Clip;
    var members := MemoryDocument(m).members;
    assert |members| == 3 && |members[0].key| == 2 && |members[1].key| == 4 && |members[2].key| == 5;
  }

  lemma MemorySlotIsFlat(memories: seq<ContextMemory>)
    ensures MemorySlot(memories).Some? ==> NoRepeats(MemorySlot(memories).value)
  {
    hide Offered, MemoryDocument;
    var items := MemoryDocuments(Offered(memories));
    forall i | 0 <= i < |items| ensures NoRepeats(items[i]) { MemoryIsFlat(Offered(memories)[i]); }
  }

  lemma SlotsAreFlat(c: Context, roster: set<bytes>)
    requires AuthorityValid(c)
    ensures forall i | 0 <= i < 11 && Slots(c, roster)[i].Some? :: NoRepeats(Slots(c, roster)[i].value)
  {
    var slots, identity := Slots(c, roster), IdentitySlots(c.identity, roster);
    assert slots[1] == identity[0] && slots[2] == identity[1] && slots[3] == identity[2];
    MemorySlotIsFlat(c.memories);
    hide Clip, IdentityCoherent, MemorySlot;
  }

  /** What was sent is read as exactly this context, or not at all when it is not usable. */
  predicate TakenAs(sent: Option<bytes>, c: Context, roster: set<bytes>)
    requires AuthorityValid(c)
  {
    sent.Some? && ParseSocialContext(sent.value, roster) == if Usable(c, roster) then Some(View(c, roster)) else None
  }

  /**
   * Whatever the worldserver sends of a context, the sidecar takes it as exactly what was meant by the first
   * context that fits, if and only if the memories it offers have the names and texts the reader asks for and no
   * fictional identity travels under an in-character premise; otherwise it takes it as opaque text.
   */
  lemma SentContextIsTakenIff(c: Context, roster: set<bytes>)
    requires AuthorityValid(c) && RosterNamed(roster) && Encode(c, roster) != Some([])
    ensures exists k: nat :: FirstFits(c, roster, k) && TakenAs(Encode(c, roster), Shed(c, k), roster)
  {
    hide OnePass, Encode, Usable, View, ParseSocialContext, Write;
    EncodesTheFirstThatFits(c, roster);
    var k: nat :| FirstFits(c, roster, k) && Encode(c, roster) == Some(OnePass(Shed(c, k), roster));
    PassIsTheDocument(Shed(c, k), roster);
    DocumentIsRead(Shed(c, k), roster);
  }
  /** An age to tell under an authorized roleplay premise: encoded, and then taken as opaque text. */
  lemma RoleplayIdentityIsNotTaken(roster: set<bytes>)
    requires RosterNamed(roster)
    ensures Encode(RoleplayIdentity(), roster).Some? && Encode(RoleplayIdentity(), roster) != Some([])
    ensures ParseSocialContext(Encode(RoleplayIdentity(), roster).value, roster) == None
  {
    var c := RoleplayIdentity();
    assert !SaysNothing(c, roster) && !Usable(c, roster);
    hide OnePass, Encode, Usable, ParseSocialContext, SaysNothing, View;
    NothingIsSentIff(c, roster);
    SentContextIsTakenIff(c, roster);
    assert forall k: nat | FirstFits(c, roster, k) :: k == 0 && Shed(c, k) == c;
  }

  function RoleplayIdentity(): Context {
    Context([], Identity(Age, Some(20), None), [], [], [], [], [], AUTHORIZED_ROLEPLAY, 0)
  }
}
