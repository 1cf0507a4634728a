/**
 * What the worldserver tells the sidecar about one social line: a nested object assembled block by
 * block and shortened, least useful block first, until it fits the frame.
 */
module SocialContextEncoder {
  import opened Bytes
  import opened Wrappers
  import opened FlatJson
  import opened JsonWriter
  import opened Utf8Text

  const MAX_SOCIAL_CONTEXT_BYTES: nat := 4096
  const MAX_SOCIAL_CONTEXT_ENTRY_BYTES: nat := 512
  const MAX_SOCIAL_CONTEXT_ENTRIES: nat := 12
  const MAX_SOCIAL_ACTIVE_EXPANSION: nat := 2
  const FICTIONAL_IDENTITY_MIN_AGE: nat := 18
  const FICTIONAL_IDENTITY_MAX_AGE: nat := 65
  const MAX_COUNTRY_BYTES: nat := 32

  /** Enumerations keep a value for bytes nobody wrote, because the encoder has a branch for them. */
  datatype IdentityRequest = NoFacts | Age | HomeCountry | AgeAndHomeCountry | UnknownRequest
  datatype PrivacyScope = Public | Party | Whisper | UnknownScope
  datatype Identity = Identity(request: IdentityRequest, age: Option<nat>, country: Option<bytes>)
  datatype ContextMemory = ContextMemory(id: bytes, text: bytes, scope: PrivacyScope)
  datatype Context = Context(
    persona: bytes, identity: Identity, relationship: bytes, starter: bytes,
    nearby: seq<bytes>, thread: seq<bytes>, memories: seq<ContextMemory>, mode: nat, expansion: nat)

  const PROMPT_MODES: seq<bytes> := ["ordinary", "decline_roleplay", "acknowledge_roleplay", "authorized_roleplay"]

  predicate AuthorityValid(c: Context) { c.mode < |PROMPT_MODES| && c.expansion <= MAX_SOCIAL_ACTIVE_EXPANSION }

  /** The approved country names, whose list is not part of the model beyond this bound. */
  predicate RosterBounded(roster: set<bytes>) { forall name | name in roster :: |name| <= MAX_COUNTRY_BYTES }

  // ---- One pass: the blocks of a context, joined ----

  function Join(parts: seq<bytes>): bytes {
    if parts == [] then []
    else if |parts| == 1 then parts[0]
    else Join(parts[..|parts| - 1]) + ([','] + parts[|parts| - 1])
  }

  function Labelled(key: bytes, value: bytes): bytes { ['"'] + (key + (['"', ':'] + value)) }

  function Clip(text: bytes): bytes { text[..Cut(text, MAX_SOCIAL_CONTEXT_ENTRY_BYTES)] }

  function Entry(key: bytes, text: bytes): seq<bytes> { if text == [] then [] else [Labelled(key, Quoted(Clip(text)))] }

  function Strings(values: seq<bytes>): (parts: seq<bytes>)
    ensures |parts| == |values| && forall i | 0 <= i < |values| :: parts[i] == Quoted(Clip(values[i]))
  {
    seq(|values|, i requires 0 <= i < |values| => Quoted(Clip(values[i])))
  }

  function Bracketed(parts: seq<bytes>): bytes { ['['] + (Join(parts) + [']']) }

  function StringList(key: bytes, values: seq<bytes>): seq<bytes> {
    if values == [] then []
    else
      [Labelled(key, Bracketed(Strings(Kept(values))))]
  }

  /** A value outside the enumeration is narrowed to the most private name. */
  function ScopeName(scope: PrivacyScope): bytes {
    match scope
    case Public => "public"
    case Party => "party"
    case Whisper => "whisper"
    case UnknownScope => "whisper"
  }

  /** The first twelve memories that have both a name and a text. */
  function Offered(memories: seq<ContextMemory>): (offered: seq<ContextMemory>)
    ensures |offered| <= MAX_SOCIAL_CONTEXT_ENTRIES
  {
    if memories == [] then []
    else
      var front, last := Offered(memories[..|memories| - 1]), memories[|memories| - 1];
      if last.text == [] || last.id == [] || |front| >= MAX_SOCIAL_CONTEXT_ENTRIES then front else front + [last]
  }

  function MemoryObject(m: ContextMemory): bytes {
    "{\"id\":" + Quoted(m.id) + ",\"text\":" + Quoted(Clip(m.text)) + ",\"scope\":\"" + ScopeName(m.scope) + "\"}"
  }

  function MemoryObjects(offered: seq<ContextMemory>): (parts: seq<bytes>)
    ensures |parts| == |offered| && forall i | 0 <= i < |offered| :: parts[i] == MemoryObject(offered[i])
  {
    seq(|offered|, i requires 0 <= i < |offered| => MemoryObject(offered[i]))
  }

  function MemoryList(memories: seq<ContextMemory>): seq<bytes> {
    if Offered(memories) == [] then [] else [Labelled("memories", Bracketed(MemoryObjects(Offered(memories))))]
  }

  function RequestName(request: IdentityRequest): bytes {
    match request
    case Age => "age"
    case HomeCountry => "home_country"
    case AgeAndHomeCountry => "age_and_home_country"
    case _ => []
  }

  /** Facts only for a request that asks for them, in range and on the roster. */
  predicate IdentityCoherent(identity: Identity, roster: set<bytes>) {
    && (identity.request.Age? || identity.request.HomeCountry? || identity.request.AgeAndHomeCountry?)
    && (identity.age.Some? ==> !identity.request.HomeCountry?
                               && FICTIONAL_IDENTITY_MIN_AGE <= identity.age.value <= FICTIONAL_IDENTITY_MAX_AGE)
    && (identity.country.Some? ==> !identity.request.Age? && identity.country.value in roster)
  }

  function IdentityFields(identity: Identity): seq<bytes> {
    [Labelled("fictional_identity_request", Quoted(RequestName(identity.request)))]
    + (if identity.age.Some? then [Labelled("fictional_age", Decimal(identity.age.value))] else [])
    + (if identity.country.Some? then [Labelled("fictional_home_country", Quoted(identity.country.value))] else [])
  }

  function IdentityBlock(identity: Identity, roster: set<bytes>): seq<bytes> {
    if IdentityCoherent(identity, roster) then [Join(IdentityFields(identity))] else []
  }

  /** What is assembled, most specific last. */
  function Scalars(c: Context, roster: set<bytes>): seq<bytes> {
    Entry("persona", c.persona) + IdentityBlock(c.identity, roster)
    + Entry("relationship", c.relationship) + Entry("starter", c.starter)
  }

  function Lists(c: Context): seq<bytes> {
    StringList("nearby", c.nearby) + StringList("thread", c.thread) + MemoryList(c.memories)
  }

  function Authority(c: Context): bytes
    requires AuthorityValid(c)
  {
    [','] + (Labelled("prompt_mode", Quoted(PROMPT_MODES[c.mode]))
      + ([','] + (Labelled("active_expansion", Decimal(c.expansion)) + ['}'])))
  }

  function OnePass(c: Context, roster: set<bytes>): bytes
    requires AuthorityValid(c)
  {
    var blocks := Scalars(c, roster) + Lists(c);
    if blocks == [] then [] else ['{'] + (Join(blocks) + Authority(c))
  }

  // ---- The order blocks are shed in ----

  function Dropped<T>(s: seq<T>, k: int): seq<T> {
    if k <= 0 then s else if k >= |s| then [] else s[..|s| - k]
  }

  function Sheddable(c: Context): nat {
    |c.memories| + |c.thread| + |c.nearby| + (if c.starter == [] then 0 else 1)
      + (if c.relationship == [] then 0 else 1)
  }

  /**
   * The context after k blocks were shed: memories from the back, then the thread, then who is nearby, then
   * the starter, then the relationship. Persona, identity, and authority are never on the list.
   */
  function Shed(c: Context, k: nat): Context {
    var afterMemories := k - |c.memories|;
    var afterThread := afterMemories - |c.thread|;
    var afterNearby := afterThread - |c.nearby|;
    var afterStarter := afterNearby - (if c.starter == [] then 0 else 1);
    c.(memories := Dropped(c.memories, k), thread := Dropped(c.thread, afterMemories),
       nearby := Dropped(c.nearby, afterThread), starter := if afterNearby >= 1 then [] else c.starter,
       relationship := if afterStarter >= 1 then [] else c.relationship)
  }

  /** One step of the program's shedding; none when only persona and identity are left. */
  function Shorter(c: Context): Option<Context> {
    if c.memories != [] then Some(c.(memories := c.memories[..|c.memories| - 1]))
    else if c.thread != [] then Some(c.(thread := c.thread[..|c.thread| - 1]))
    else if c.nearby != [] then Some(c.(nearby := c.nearby[..|c.nearby| - 1]))
    else if c.starter != [] then Some(c.(starter := []))
    else if c.relationship != [] then Some(c.(relationship := []))
    else None
  }

  function Encode(c: Context, roster: set<bytes>): Option<bytes>
    decreases Sheddable(c)
  {
    if !AuthorityValid(c) then None
    else
      var out := OnePass(c, roster);
      if |out| <= MAX_SOCIAL_CONTEXT_BYTES then Some(out)
      else match Shorter(c) case None => Some([]) case Some(shorter) => Encode(shorter, roster)
  }

  // ---- The program's assembly ----

  lemma JoinSnoc(parts: seq<bytes>, last: bytes)
    ensures Join(parts + [last]) == if parts == [] then last else Join(parts) + ([','] + last)
  {
    assert (parts + [last])[..|parts|] == parts;
  }

  method AppendText(written: bytes, key: bytes, value: bytes, first: bool) returns (out: bytes)
    ensures out == written + ((if first then [] else [',']) + Labelled(key, Quoted(value)))
  {
    hide Quoted;
    out := written;
    if !first { out := out + [',']; }
    ghost var start := out;
    out := out + ['"'];
    out := out + key;
    out := out + ['"', ':'];
    out := AppendEscapedJsonString(out, value);
    assert out == start + Labelled(key, Quoted(value));
    Assoc(written, [','], Labelled(key, Quoted(value)));
  }

  method AppendNumber(written: bytes, key: bytes, value: nat, first: bool) returns (out: bytes)
    ensures out == written + ((if first then [] else [',']) + Labelled(key, Decimal(value)))
  {
    out := written;
    if !first { out := out + [',']; }
    ghost var start := out;
    out := out + ['"'];
    out := out + key;
    out := out + ['"', ':'];
    out := out + Decimal(value);
    assert out == start + Labelled(key, Decimal(value));
    Assoc(written, [','], Labelled(key, Decimal(value)));
  }

  /** A scalar entry, skipped when empty; the separator flag is exactly whether nothing was written yet. */
  method AppendEntry(written: bytes, key: bytes, value: bytes, first: bool, ghost blocks: seq<bytes>)
    returns (out: bytes, stillFirst: bool)
    requires written == ['{'] + Join(blocks) && first == (blocks == [])
    ensures out == ['{'] + Join(blocks + Entry(key, value)) && stillFirst == (blocks + Entry(key, value) == [])
  {
    if value == [] {
      assert blocks + [] == blocks;
      return written, first;
    }
    var kept := Utf8PrefixLength(value, MAX_SOCIAL_CONTEXT_ENTRY_BYTES);
    out := AppendText(written, key, value[..kept], first);
    ExtendJoin(blocks, Labelled(key, Quoted(Clip(value))));
    stillFirst := false;
  }

  lemma ExtendJoin(blocks: seq<bytes>, block: bytes)
    ensures ['{'] + Join(blocks + [block]) == (['{'] + Join(blocks)) + ((if blocks == [] then [] else [',']) + block)
  {
    JoinSnoc(blocks, block);
    if blocks == [] { assert ['{'] + [] == ['{'] && [] + block == block; }
    Assoc(['{'], Join(blocks), [','] + block);
  }

  method EncodeFictionalIdentity(identity: Identity, roster: set<bytes>) returns (encoded: Option<bytes>)
    ensures encoded == Some([]) <==> identity == Identity(NoFacts, None, None)
    ensures encoded.Some? && encoded.value != [] <==> IdentityCoherent(identity, roster)
    ensures IdentityCoherent(identity, roster) ==> encoded.value == Join(IdentityFields(identity))
  {
    var hasAge, hasCountry := identity.age.Some?, identity.country.Some?;
    match identity.request {
      case NoFacts => return if hasAge || hasCountry then None else Some([]);
      case Age => if hasCountry { return None; }
      case HomeCountry => if hasAge { return None; }
      case AgeAndHomeCountry =>
      case UnknownRequest => return None;
    }
    if hasAge && (identity.age.value < FICTIONAL_IDENTITY_MIN_AGE || identity.age.value > FICTIONAL_IDENTITY_MAX_AGE) {
      return None;
    }
    if hasCountry && identity.country.value !in roster { return None; }
    var out := WriteIdentity(identity);
    return Some(out);
  }

  method WriteIdentity(identity: Identity) returns (out: bytes)
    ensures out == Join(IdentityFields(identity)) && out != []
  {
    ghost var parts := [Labelled("fictional_identity_request", Quoted(RequestName(identity.request)))];
    out := AppendText([], "fictional_identity_request", RequestName(identity.request), true);
    assert out == parts[0];
    if identity.age.Some? {
      JoinSnoc(parts, Labelled("fictional_age", Decimal(identity.age.value)));
      out := AppendNumber(out, "fictional_age", identity.age.value, false);
      parts := parts + [Labelled("fictional_age", Decimal(identity.age.value))];
    }
    if identity.country.Some? {
      JoinSnoc(parts, Labelled("fictional_home_country", Quoted(identity.country.value)));
      out := AppendText(out, "fictional_home_country", identity.country.value, false);
      parts := parts + [Labelled("fictional_home_country", Quoted(identity.country.value))];
    }
    assert parts == IdentityFields(identity);
  }

  /** Blocks each after a comma, the form the lists are collected in. */
  function Led(blocks: seq<bytes>): bytes {
    if blocks == [] then [] else Led(blocks[..|blocks| - 1]) + ([','] + blocks[|blocks| - 1])
  }

  lemma LedSnoc(blocks: seq<bytes>, last: bytes)
    ensures Led(blocks + [last]) == Led(blocks) + ([','] + last)
  {
    assert (blocks + [last])[..|blocks|] == blocks;
  }

  lemma {:induction false} LedIsJoined(scalars: seq<bytes>, lists: seq<bytes>)
    requires scalars != []
    ensures Join(scalars + lists) == Join(scalars) + Led(lists)
  {
    if lists == [] {
      assert scalars + [] == scalars;
    } else {
      var front, last := lists[..|lists| - 1], lists[|lists| - 1];
      LedIsJoined(scalars, front);
      assert scalars + lists == (scalars + front) + [last];
      JoinSnoc(scalars + front, last);
      Assoc(Join(scalars), Led(front), [','] + last);
    }
  }

  lemma LedAloneIsJoined(lists: seq<bytes>)
    requires lists != []
    ensures Led(lists) == [','] + Join(lists)
  {
    var head := [lists[0]];
    assert lists == head + lists[1..];
    LedIsJoined(head, lists[1..]);
    LedStarts(head, lists[1..]);
  }

  lemma {:induction false} LedStarts(a: seq<bytes>, b: seq<bytes>)
    ensures Led(a + b) == Led(a) + Led(b)
  {
    if b == [] {
      assert a + [] == a;
    } else {
      var front, last := b[..|b| - 1], b[|b| - 1];
      LedStarts(a, front);
      assert a + b == (a + front) + [last];
      LedSnoc(a + front, last);
      Assoc(Led(a), Led(front), [','] + last);
    }
  }

  function Kept(values: seq<bytes>): seq<bytes> {
    if |values| <= MAX_SOCIAL_CONTEXT_ENTRIES then values else values[..MAX_SOCIAL_CONTEXT_ENTRIES]
  }

  /** The loop over the entries, stopped by the bound on their count. */
  method AppendStrings(start: bytes, values: seq<bytes>) returns (out: bytes)
    ensures out == start + Join(Strings(Kept(values)))
  {
    hide Quoted;
    ghost var parts := Strings(Kept(values));
    out := start;
    var first, written := true, 0;
    for index := 0 to |values|
      invariant written == index && written <= |parts| && first == (written == 0)
      invariant out == start + Join(parts[..written])
    {
      if written >= MAX_SOCIAL_CONTEXT_ENTRIES { break; }
      if !first { out := out + [',']; }
      var length := Utf8PrefixLength(values[index], MAX_SOCIAL_CONTEXT_ENTRY_BYTES);
      out := AppendEscapedJsonString(out, values[index][..length]);
      ExtendStart(start, parts[..written], parts[written]);
      assert parts[..written + 1] == parts[..written] + [parts[written]];
      first := false;
      written := written + 1;
    }
    assert parts[..written] == parts;
  }

  lemma ExtendStart(start: bytes, parts: seq<bytes>, part: bytes)
    ensures start + Join(parts + [part])
      == (if parts == [] then start + Join(parts) else (start + Join(parts)) + [',']) + part
  {
    JoinSnoc(parts, part);
    if parts == [] {
      assert start + [] == start;
    } else {
      Assoc(start + Join(parts), [','], part);
      Assoc(start, Join(parts), [','] + part);
    }
  }

  lemma ListText(written: bytes, key: bytes, inside: bytes)
    ensures written + [',', '"'] + key + ['"', ':', '['] + inside + [']']
         == written + ([','] + Labelled(key, ['['] + (inside + [']'])))
  {
  }

  method AppendJsonStringList(written: bytes, key: bytes, values: seq<bytes>) returns (out: bytes)
    ensures out == written + Led(StringList(key, values))
  {
    if values == [] { return written; }
    out := written + [',', '"'];
    out := out + key;
    out := out + ['"', ':', '['];
    out := AppendStrings(out, values);
    out := out + [']'];
    ListText(written, key, Join(Strings(Kept(values))));
    LedOne(Labelled(key, Bracketed(Strings(Kept(values)))));
  }

  lemma LedOne(block: bytes)
    ensures Led([block]) == [','] + block
  {
    LedSnoc([], block);
    assert [] + [block] == [block];
    assert [] + ([','] + block) == [','] + block;
  }

  lemma OfferedStep(memories: seq<ContextMemory>, i: nat)
    requires i < |memories|
    ensures var front, last := Offered(memories[..i]), memories[i];
      Offered(memories[..i + 1])
        == if last.text == [] || last.id == [] || |front| >= MAX_SOCIAL_CONTEXT_ENTRIES then front else front + [last]
  {
    assert memories[..i + 1][..i] == memories[..i];
  }

  method AppendMemory(written: bytes, memory: ContextMemory) returns (out: bytes)
    ensures out == written + MemoryObject(memory)
  {
    out := written + "{\"id\":";
    out := AppendEscapedJsonString(out, memory.id);
    out := out + ",\"text\":";
    var kept := Utf8PrefixLength(memory.text, MAX_SOCIAL_CONTEXT_ENTRY_BYTES);
    out := AppendEscapedJsonString(out, memory.text[..kept]);
    out := out + ",\"scope\":\"";
    out := out + ScopeName(memory.scope);
    out := out + "\"}";
    Regroup(written, "{\"id\":", Quoted(memory.id), ",\"text\":", Quoted(Clip(memory.text)), ",\"scope\":\"",
            ScopeName(memory.scope), "\"}");
  }

  lemma Regroup(w: bytes, a: bytes, b: bytes, c: bytes, d: bytes, e: bytes, f: bytes, g: bytes)
    ensures w + a + b + c + d + e + f + g == w + (a + b + c + d + e + f + g)
  {
    Assoc(w, a, b);
    Assoc(w, a + b, c);
    Assoc(w, a + b + c, d);
    Assoc(w, a + b + c + d, e);
    Assoc(w, a + b + c + d + e, f);
    Assoc(w, a + b + c + d + e + f, g);
  }

  lemma OfferedText(start: bytes, memories: seq<ContextMemory>, i: nat)
    requires i < |memories|
    ensures var front, last := Offered(memories[..i]), memories[i];
      var text := start + Join(MemoryObjects(front));
      start + Join(MemoryObjects(Offered(memories[..i + 1])))
        == if last.text == [] || last.id == [] || |front| >= MAX_SOCIAL_CONTEXT_ENTRIES then text
           else (if front == [] then text else text + [',']) + MemoryObject(last)
  {
    hide MemoryObject;
    var front, last := Offered(memories[..i]), memories[i];
    OfferedStep(memories, i);
    ExtendStart(start, MemoryObjects(front), MemoryObject(last));
    assert MemoryObjects(front + [last]) == MemoryObjects(front) + [MemoryObject(last)];
  }

  /** The loop over the memories: nameless and empty ones are skipped, and a thirteenth is. */
  method AppendOffered(start: bytes, memories: seq<ContextMemory>) returns (out: bytes, firstMemory: bool)
    ensures out == start + Join(MemoryObjects(Offered(memories))) && firstMemory == (Offered(memories) == [])
  {
    out, firstMemory := start, true;
    var writtenMemories := 0;
    assert start + Join(MemoryObjects(Offered(memories[..0]))) == start;
    hide MemoryObject, Join;
    for index := 0 to |memories|
      invariant writtenMemories == |Offered(memories[..index])| && firstMemory == (writtenMemories == 0)
      invariant out == start + Join(MemoryObjects(Offered(memories[..index])))
    {
      var memory := memories[index];
      OfferedStep(memories, index);
      OfferedText(start, memories, index);
      if memory.text == [] || memory.id == [] || writtenMemories >= MAX_SOCIAL_CONTEXT_ENTRIES { continue; }
      if !firstMemory { out := out + [',']; }
      out := AppendMemory(out, memory);
      firstMemory := false;
      writtenMemories := writtenMemories + 1;
    }
    assert memories[..|memories|] == memories;
  }

  /** The key is written before it is known whether any memory survives, and taken back when none does. */
  method AppendMemories(written: bytes, memories: seq<ContextMemory>) returns (lists: bytes)
    ensures lists == written + Led(MemoryList(memories))
  {
    if memories == [] { return written; }
    lists := written + [',', '"'] + "memories" + ['"', ':', '['];
    var firstMemory;
    lists, firstMemory := AppendOffered(lists, memories);
    lists := lists + [']'];
    if firstMemory {
      lists := lists[..|lists| - |",\"memories\":[]"|];
      assert lists == written;
    } else {
      ListText(written, "memories", Join(MemoryObjects(Offered(memories))));
      LedOne(Labelled("memories", Bracketed(MemoryObjects(Offered(memories)))));
    }
  }

  method AssembleScalars(c: Context, roster: set<bytes>) returns (out: bytes, first: bool)
    ensures out == ['{'] + Join(Scalars(c, roster)) && first == (Scalars(c, roster) == [])
  {
    hide Quoted, IdentityFields, Labelled;
    out, first := AppendEntry(['{'], "persona", c.persona, true, []);
    ghost var blocks := [] + Entry("persona", c.persona);
    var identity := EncodeFictionalIdentity(c.identity, roster);
    if identity.Some? && identity.value != [] {
      ExtendJoin(blocks, identity.value);
      ghost var before := out;
      if !first { out := out + [',']; }
      out := out + identity.value;
      assert out == before + ((if first then [] else [',']) + identity.value);
      first := false;
    }
    blocks := blocks + IdentityBlock(c.identity, roster);
    out, first := AppendEntry(out, "relationship", c.relationship, first, blocks);
    blocks := blocks + Entry("relationship", c.relationship);
    out, first := AppendEntry(out, "starter", c.starter, first, blocks);
    assert blocks + Entry("starter", c.starter) == Scalars(c, roster);
  }

  method Assemble(c: Context, roster: set<bytes>) returns (out: bytes)
    requires AuthorityValid(c)
    ensures out == OnePass(c, roster)
  {
    hide Scalars, StringList, MemoryList, Authority, Led;
    var first;
    out, first := AssembleScalars(c, roster);
    var lists := AppendJsonStringList([], "nearby", c.nearby);
    lists := AppendJsonStringList(lists, "thread", c.thread);
    lists := AppendMemories(lists, c.memories);
    LedStarts(StringList("nearby", c.nearby), StringList("thread", c.thread));
    LedStarts(StringList("nearby", c.nearby) + StringList("thread", c.thread), MemoryList(c.memories));
    assert lists == Led(Lists(c));
    ghost var scalars, blocks := Scalars(c, roster), Scalars(c, roster) + Lists(c);
    if lists != [] {
      if first {
        LedAloneIsJoined(Lists(c));
        assert blocks == Lists(c) && lists[1..] == Join(Lists(c));
        out := out + lists[1..];
      } else {
        LedIsJoined(scalars, Lists(c));
        out := out + lists;
      }
      first := false;
    } else {
      NothingLed(Lists(c));
      assert blocks == scalars;
    }
    assert out == ['{'] + Join(blocks) && first == (blocks == []);
    if first { return []; }
    out := AppendAuthority(out, c);
    Assoc(['{'], Join(blocks), Authority(c));
  }

  method AppendAuthority(written: bytes, c: Context) returns (out: bytes)
    requires AuthorityValid(c)
    ensures out == written + Authority(c)
  {
    out := AppendText(written, "prompt_mode", PROMPT_MODES[c.mode], false);
    out := AppendNumber(out, "active_expansion", c.expansion, false);
    out := out + ['}'];
    ghost var mode := Labelled("prompt_mode", Quoted(PROMPT_MODES[c.mode]));
    ghost var expansion := Labelled("active_expansion", Decimal(c.expansion));
    Assoc(written + ([','] + mode), [','] + expansion, ['}']);
    Assoc([','], expansion, ['}']);
    Assoc(written, [','] + mode, [','] + (expansion + ['}']));
    Assoc([','], mode, [','] + (expansion + ['}']));
  }

  lemma NothingLed(blocks: seq<bytes>)
    requires Led(blocks) == []
    ensures blocks == []
  {
  }

  /** The recursive encoder as it runs. */
  method EncodeSocialContext(c: Context, roster: set<bytes>) returns (encoded: Option<bytes>)
    ensures encoded == Encode(c, roster)
    decreases Sheddable(c)
  {
    if !AuthorityValid(c) { return None; }
    var out := Assemble(c, roster);
    if out == [] { return Some([]); }
    if |out| > MAX_SOCIAL_CONTEXT_BYTES && c.memories != [] {
      encoded := EncodeSocialContext(c.(memories := c.memories[..|c.memories| - 1]), roster);
      return;
    }
    if |out| > MAX_SOCIAL_CONTEXT_BYTES {
      var shorter := c;
      if c.thread != [] { shorter := c.(thread := c.thread[..|c.thread| - 1]); }
      else if c.nearby != [] { shorter := c.(nearby := c.nearby[..|c.nearby| - 1]); }
      else if c.starter != [] { shorter := c.(starter := []); }
      else if c.relationship != [] { shorter := c.(relationship := []); }
      else { return Some([]); }
      encoded := EncodeSocialContext(shorter, roster);
      return;
    }
    return Some(out);
  }

  // ---- What is kept ----

  lemma DroppedStep<T>(s: seq<T>, k: int)
    ensures 0 <= k < |s| ==> Dropped(s, k) != [] && Dropped(s, k)[..|Dropped(s, k)| - 1] == Dropped(s, k + 1)
    ensures k < 0 || k >= |s| ==> Dropped(s, k) == Dropped(s, k + 1)
  {
  }

  /** Shedding is the program's step, iterated. */
  lemma ShedStep(c: Context, k: nat)
    ensures k < Sheddable(c) ==> Shorter(Shed(c, k)) == Some(Shed(c, k + 1))
    ensures k >= Sheddable(c) ==> Shorter(Shed(c, k)) == None
    ensures Shed(c, 0) == c
  {
    var t := k - |c.memories|;
    DroppedStep(c.memories, k);
    DroppedStep(c.thread, t);
    DroppedStep(c.nearby, t - |c.thread|);
  }

  lemma QuotedLength(text: bytes)
    ensures |Quoted(text)| <= 6 * |text| + 2
  {
    EscapedLength(text);
  }

  /** Even fully escaped, persona, identity, and authority fit the frame. */
  lemma BareContextFits(c: Context, roster: set<bytes>)
    requires AuthorityValid(c) && RosterBounded(roster)
    requires c.memories == [] && c.thread == [] && c.nearby == [] && c.starter == [] && c.relationship == []
    ensures |OnePass(c, roster)| <= MAX_SOCIAL_CONTEXT_BYTES
  {
    var persona, identity := Entry("persona", c.persona), IdentityBlock(c.identity, roster);
    assert Scalars(c, roster) + Lists(c) == persona + identity;
    AuthorityLength(c);
    if persona != [] { QuotedLength(Clip(c.persona)); }
    if identity != [] { IdentityLength(c.identity, roster); }
    if persona != [] && identity != [] { JoinSnoc(persona, identity[0]); }
  }

  lemma AuthorityLength(c: Context)
    requires AuthorityValid(c)
    ensures |Authority(c)| <= 200
  {
    assert |PROMPT_MODES[c.mode]| <= 20;
    QuotedLength(PROMPT_MODES[c.mode]);
    assert Decimal(c.expansion) == [DigitChar(c.expansion)];
  }

  lemma IdentityLength(identity: Identity, roster: set<bytes>)
    requires IdentityCoherent(identity, roster) && RosterBounded(roster)
    ensures |Join(IdentityFields(identity))| <= 500
  {
    var name := Labelled("fictional_identity_request", Quoted(RequestName(identity.request)));
    QuotedLength(RequestName(identity.request));
    assert |name| <= 200;
    var parts := [name];
    if identity.age.Some? {
      assert Pow10(2) == 100 by { assert Pow10(1) == 10 * Pow10(0); }
      DecimalLength(identity.age.value, 2);
      JoinSnoc(parts, Labelled("fictional_age", Decimal(identity.age.value)));
      parts := parts + [Labelled("fictional_age", Decimal(identity.age.value))];
    }
    if identity.country.Some? {
      QuotedLength(identity.country.value);
      JoinSnoc(parts, Labelled("fictional_home_country", Quoted(identity.country.value)));
      parts := parts + [Labelled("fictional_home_country", Quoted(identity.country.value))];
    }
    assert parts == IdentityFields(identity);
  }

  /** k is the number of blocks that have to go: every longer context is oversize, this one fits. */
  ghost predicate FirstFits(c: Context, roster: set<bytes>, k: nat)
    requires AuthorityValid(c)
  {
    && k <= Sheddable(c)
    && |OnePass(Shed(c, k), roster)| <= MAX_SOCIAL_CONTEXT_BYTES
    && forall j: nat | j < k :: |OnePass(Shed(c, j), roster)| > MAX_SOCIAL_CONTEXT_BYTES
  }

  /** The encoding is the one-pass encoding of the first context on the shedding order that fits. */
  lemma EncodesTheFirstThatFits(c: Context, roster: set<bytes>)
    requires AuthorityValid(c) && RosterBounded(roster)
    ensures exists k: nat :: FirstFits(c, roster, k) && Encode(c, roster) == Some(OnePass(Shed(c, k), roster))
  {
    ShedStep(c, 0);
    SearchFrom(c, roster, 0);
  }

  lemma EncodeSheds(c: Context, roster: set<bytes>)
    requires AuthorityValid(c)
    ensures |OnePass(c, roster)| <= MAX_SOCIAL_CONTEXT_BYTES ==> Encode(c, roster) == Some(OnePass(c, roster))
    ensures |OnePass(c, roster)| > MAX_SOCIAL_CONTEXT_BYTES && Shorter(c).Some? ==>
      Encode(c, roster) == Encode(Shorter(c).value, roster)
  {
  }

  lemma LastFits(c: Context, roster: set<bytes>)
    requires AuthorityValid(c) && RosterBounded(roster)
    ensures |OnePass(Shed(c, Sheddable(c)), roster)| <= MAX_SOCIAL_CONTEXT_BYTES
  {
    BareContextFits(Shed(c, Sheddable(c)), roster);
  }

  lemma {:induction false} SearchFrom(c: Context, roster: set<bytes>, k: nat)
    requires AuthorityValid(c) && RosterBounded(roster) && k <= Sheddable(c)
    requires forall j: nat | j < k :: |OnePass(Shed(c, j), roster)| > MAX_SOCIAL_CONTEXT_BYTES
    ensures exists n: nat :: FirstFits(c, roster, n) && Encode(Shed(c, k), roster) == Some(OnePass(Shed(c, n), roster))
    decreases Sheddable(c) - k
  {
    hide OnePass, Encode, Dropped;
    EncodeSheds(Shed(c, k), roster);
    if |OnePass(Shed(c, k), roster)| <= MAX_SOCIAL_CONTEXT_BYTES {
      assert FirstFits(c, roster, k);
    } else {
      LastFits(c, roster);
      ShedStep(c, k);
      SearchFrom(c, roster, k + 1);
    }
  }

  /** The result always fits, and whatever was shed, a result that says anything still carries its authority. */
  lemma ResultIsBoundedAndAuthorized(c: Context, roster: set<bytes>)
    requires AuthorityValid(c) && RosterBounded(roster)
    ensures Encode(c, roster).Some? && |Encode(c, roster).value| <= MAX_SOCIAL_CONTEXT_BYTES
    ensures var out := Encode(c, roster).value;
      out != [] ==> |out| >= |Authority(c)| && out[|out| - |Authority(c)|..] == Authority(c)
  {
    EncodesTheFirstThatFits(c, roster);
    var k: nat :| FirstFits(c, roster, k) && Encode(c, roster) == Some(OnePass(Shed(c, k), roster));
    var shed := Shed(c, k);
    assert Authority(shed) == Authority(c);
    if OnePass(shed, roster) != [] {
      var blocks := Scalars(shed, roster) + Lists(shed);
      Assoc(['{'], Join(blocks), Authority(c));
    }
  }

  /** The object opens with the persona, whole up to its own bound. */
  predicate OpensWithPersona(encoded: Option<bytes>, persona: bytes) {
    encoded.Some? && (['{'] + Labelled("persona", Quoted(Clip(persona)))) <= encoded.value
  }

  /** A bot with a persona always sounds like itself, whatever else had to go. */
  lemma PersonaIsNeverShed(c: Context, roster: set<bytes>)
    requires AuthorityValid(c) && RosterBounded(roster) && c.persona != []
    ensures OpensWithPersona(Encode(c, roster), c.persona)
  {
    hide OnePass, OpensWithPersona;
    EncodesTheFirstThatFits(c, roster);
    var k: nat :| FirstFits(c, roster, k) && Encode(c, roster) == Some(OnePass(Shed(c, k), roster));
    PersonaLeads(Shed(c, k), roster);
  }

  lemma PersonaLeads(c: Context, roster: set<bytes>)
    requires AuthorityValid(c) && c.persona != []
    ensures OpensWithPersona(Some(OnePass(c, roster)), c.persona)
  {
    hide Quoted, Authority, StringList, MemoryList, IdentityFields, Clip;
    var persona := Labelled("persona", Quoted(Clip(c.persona)));
    var rest := IdentityBlock(c.identity, roster) + Entry("relationship", c.relationship) + Entry("starter", c.starter)
      + Lists(c);
    var blocks := Scalars(c, roster) + Lists(c);
    assert blocks == [persona] + rest;
    JoinStartsWithFirst(blocks);
    PrefixInside(persona, Join(blocks), Authority(c));
  }

  lemma PrefixInside(a: bytes, b: bytes, c: bytes)
    requires a <= b
    ensures (['{'] + a) <= ['{'] + (b + c)
  {
  }

  lemma {:induction false} JoinStartsWithFirst(parts: seq<bytes>)
    requires parts != []
    ensures parts[0] <= Join(parts)
  {
    if |parts| > 1 { JoinStartsWithFirst(parts[..|parts| - 1]); }
  }
}
