/**
 * Nested documents as both sides write them, without white space, and the reading that undoes the writing: strings,
 * unsigned integers, lists, and objects whose keys are never repeated.
 */
module NestedJson {
  import opened Bytes
  import opened Wrappers
  import opened FlatJson
  import opened JsonWriter
  import opened SocialContextEncoder

  datatype Json = JNumber(n: nat) | JText(s: bytes) | JList(items: seq<Json>) | JObject(members: seq<JMember>)
  datatype JMember = JMember(key: bytes, value: Json)

  // ---- Writing ----

  function Write(v: Json): bytes {
    match v
    case JNumber(n) => Decimal(n)
    case JText(s) => Quoted(s)
    case JList(items) => ['['] + (WriteItems(items) + [']'])
    case JObject(members) => ['{'] + (WriteMembers(members) + ['}'])
  }

  function WriteItems(items: seq<Json>): bytes {
    if items == [] then []
    else Write(items[0]) + (if |items| == 1 then [] else [','] + WriteItems(items[1..]))
  }

  function WriteMember(m: JMember): bytes { Quoted(m.key) + ([':'] + Write(m.value)) }

  function WriteMembers(members: seq<JMember>): bytes {
    if members == [] then []
    else WriteMember(members[0]) + (if |members| == 1 then [] else [','] + WriteMembers(members[1..]))
  }

  // ---- Reading ----

  function ReadJson(s: bytes): (r: Read<Json>)
    ensures r.Good? ==> |r.rest| < |s|
    decreases |s|, 1
  {
    if s == [] then Bad
    else if s[0] == '"' then
      var text := ReadString(s);
      if text.Bad? then Bad else Good(JText(text.value), text.rest)
    else if IsDigit(s[0]) then
      var d := DigitPrefix(s);
      if |d| > 1 && d[0] == '0' then Bad else Good(JNumber(Numeral(d)), s[|d|..])
    else if s[0] == '[' then
      if |s| > 1 && s[1] == ']' then Good(JList([]), s[2..])
      else
        var items := ReadItemList(s[1..]);
        if items.Bad? then Bad else Good(JList(items.value), items.rest)
    else if s[0] == '{' then
      if |s| > 1 && s[1] == '}' then Good(JObject([]), s[2..])
      else
        var members := ReadMemberList(s[1..]);
        if members.Bad? then Bad else Good(JObject(members.value), members.rest)
    else Bad
  }

  function ReadItemList(s: bytes): (r: Read<seq<Json>>)
    ensures r.Good? ==> |r.rest| < |s|
    decreases |s|, 2
  {
    var first := ReadJson(s);
    if first.Bad? || first.rest == [] then Bad
    else if first.rest[0] == ']' then Good([first.value], first.rest[1..])
    else if first.rest[0] != ',' then Bad
    else
      var more := ReadItemList(first.rest[1..]);
      if more.Bad? then Bad else Good([first.value] + more.value, more.rest)
  }

  function ReadMemberList(s: bytes): (r: Read<seq<JMember>>)
    ensures r.Good? ==> |r.rest| < |s|
    decreases |s|, 2
  {
    var key := ReadString(s);
    if key.Bad? || key.rest == [] || key.rest[0] != ':' then Bad
    else
      var value := ReadJson(key.rest[1..]);
      if value.Bad? || value.rest == [] then Bad
      else
        var m := JMember(key.value, value.value);
        if value.rest[0] == '}' then Good([m], value.rest[1..])
        else if value.rest[0] != ',' then Bad
        else
          var more := ReadMemberList(value.rest[1..]);
          if more.Bad? || HasKey(more.value, m.key) then Bad else Good([m] + more.value, more.rest)
  }

  predicate HasKey(members: seq<JMember>, key: bytes) { exists i | 0 <= i < |members| :: members[i].key == key }

  /** The whole input as one document. */
  function ReadDocument(s: bytes): Option<Json> {
    var r := ReadJson(s);
    if r.Good? && r.rest == [] then Some(r.value) else None
  }

  // ---- Reading undoes writing ----

  predicate NoRepeats(v: Json) {
    match v
    case JNumber(_) => true
    case JText(_) => true
    case JList(items) => forall i | 0 <= i < |items| :: NoRepeats(items[i])
    case JObject(members) =>
      && (forall i, j | 0 <= i < j < |members| :: members[i].key != members[j].key)
      && forall i | 0 <= i < |members| :: NoRepeats(members[i].value)
  }

  ghost predicate Ends(rest: bytes) { rest == [] || !IsDigit(rest[0]) }

  lemma NumberReadBack(n: nat, rest: bytes)
    requires Ends(rest)
    ensures ReadJson(Decimal(n) + rest) == Good(JNumber(n), rest)
  {
    var d := Decimal(n);
    var s := d + rest;
    NumeralOfDecimal(n);
    DigitPrefixIs(d, rest);
    assert s[|d|..] == rest && s[0] == d[0];
    if |d| > 1 { assert n != 0; }
  }

  lemma {:induction false} DigitPrefixIs(d: bytes, rest: bytes)
    requires AllDigits(d) && Ends(rest)
    ensures DigitPrefix(d + rest) == d
  {
    if d == [] {
      assert d + rest == rest;
    } else {
      assert (d + rest)[1..] == d[1..] + rest;
      DigitPrefixIs(d[1..], rest);
    }
  }

  lemma TextReadBack(text: bytes, rest: bytes)
    ensures ReadString(Quoted(text) + rest) == Good(text, rest)
  {
    EscapingDenotes(text);
    StringRead(ItemsFor(text), rest);
  }

  lemma {:induction false} DocumentReadBack(v: Json, rest: bytes)
    requires NoRepeats(v) && Ends(rest)
    ensures ReadJson(Write(v) + rest) == Good(v, rest)
    decreases v, 1
  {
    hide ReadString, Quoted, ReadItemList, ReadMemberList, DigitPrefix, Numeral;
    match v {
      case JNumber(n) => NumberReadBack(n, rest);
      case JText(s) =>
        TextReadBack(s, rest);
        QuotedStarts(s, rest);
      case JList(items) =>
        var inside := WriteItems(items) + ([']'] + rest);
        Wrapped('[', WriteItems(items), ']', rest);
        if items != [] {
          ItemsReadBack(items, rest);
          ItemsStart(items, [']'] + rest);
        }
      case JObject(members) =>
        Wrapped('{', WriteMembers(members), '}', rest);
        if members != [] {
          MembersReadBack(members, rest);
          MembersStart(members, ['}'] + rest);
        }
    }
  }

  lemma Wrapped(open: char, inside: bytes, close: char, rest: bytes)
    ensures var s := [open] + (inside + [close]) + rest;
      && s[0] == open && s[1..] == inside + ([close] + rest)
      && (inside == [] ==> s[1] == close && s[2..] == rest)
  {
    var s := [open] + (inside + [close]) + rest;
    assert s[1..] == inside + ([close] + rest);
    if inside == [] { assert s == [open, close] + rest; }
  }

  /** A written value never starts with a closing bracket. */
  lemma ItemsStart(items: seq<Json>, rest: bytes)
    requires items != []
    ensures var s := WriteItems(items) + rest; s != [] && s[0] != ']'
  {
    var first := Write(items[0]);
    assert first != [] && first[0] != ']';
    assert (WriteItems(items) + rest)[0] == first[0];
  }

  lemma QuotedStarts(text: bytes, rest: bytes)
    ensures Quoted(text) + rest != [] && (Quoted(text) + rest)[0] == '"'
  {
  }

  lemma MembersStart(members: seq<JMember>, rest: bytes)
    requires members != []
    ensures WriteMembers(members) + rest != [] && (WriteMembers(members) + rest)[0] == '"'
  {
    var key := Quoted(members[0].key);
    QuotedStarts(members[0].key, []);
    assert key + [] == key;
    hide Quoted;
    assert WriteMember(members[0])[0] == key[0];
    assert WriteMembers(members)[0] == key[0];
  }

  lemma {:induction false} ItemsReadBack(items: seq<Json>, rest: bytes)
    requires items != [] && forall i | 0 <= i < |items| :: NoRepeats(items[i])
    ensures ReadItemList(WriteItems(items) + ([']'] + rest)) == Good(items, rest)
    decreases items, 0
  {
    hide ReadJson, Write, NoRepeats;
    var first, tail := Write(items[0]), [']'] + rest;
    if |items| == 1 {
      assert first + [] == first;
      DocumentReadBack(items[0], tail);
      assert items == [items[0]];
    } else {
      var more := WriteItems(items[1..]);
      ItemsReadBack(items[1..], rest);
      Assoc(first, [','] + more, tail);
      Assoc([','], more, tail);
      DocumentReadBack(items[0], [','] + (more + tail));
      assert items == [items[0]] + items[1..];
    }
  }

  lemma {:induction false} MembersReadBack(members: seq<JMember>, rest: bytes)
    requires members != [] && forall i | 0 <= i < |members| :: NoRepeats(members[i].value)
    requires forall i, j | 0 <= i < j < |members| :: members[i].key != members[j].key
    ensures ReadMemberList(WriteMembers(members) + (['}'] + rest)) == Good(members, rest)
    decreases members, 0
  {
    hide ReadJson, Write, NoRepeats, Quoted, ReadString, WriteMember;
    var m, tail := members[0], ['}'] + rest;
    if |members| == 1 {
      assert WriteMember(m) + [] == WriteMember(m);
      MemberReadBack(m, tail);
      DocumentReadBack(m.value, tail);
      assert members == [m];
    } else {
      var more := WriteMembers(members[1..]);
      MembersReadBack(members[1..], rest);
      Assoc(WriteMember(m), [','] + more, tail);
      Assoc([','], more, tail);
      MemberReadBack(m, [','] + (more + tail));
      DocumentReadBack(m.value, [','] + (more + tail));
      assert members == [m] + members[1..];
    }
  }

  lemma MemberReadBack(m: JMember, rest: bytes)
    ensures var key := ReadString(WriteMember(m) + rest);
      key == Good(m.key, [':'] + (Write(m.value) + rest))
  {
    hide Quoted, ReadString, Write;
    Assoc(Quoted(m.key), [':'] + Write(m.value), rest);
    Assoc([':'], Write(m.value), rest);
    TextReadBack(m.key, [':'] + (Write(m.value) + rest));
  }

  /** Every document without repeated keys is read back whole. */
  lemma WrittenDocumentIsReadBack(v: Json)
    requires NoRepeats(v)
    ensures ReadDocument(Write(v)) == Some(v)
  {
    DocumentReadBack(v, []);
    assert Write(v) + [] == Write(v);
  }
}
