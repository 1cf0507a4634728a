/**
 * The escaping writers of both sides, which produce the same bytes: the worldserver's appending
 * loop, and the sidecar's compact JSON dump without ASCII escaping. Whatever they write as one
 * flat object, the strict reader gives back.
 */
module JsonWriter {
  import opened Bytes
  import opened Wrappers
  import opened FlatJson

  function HexDigit(n: nat): char
    requires n < 16
  {
    if n < 10 then DigitChar(n) else ('a' as int + n - 10) as char
  }

  /** How one byte is written inside a string: a named escape, \u00XX, or itself. */
  function ItemFor(c: char): Item {
    if c == '"' then Escape('"')
    else if c == '\\' then Escape('\\')
    else if c == '\n' then Escape('n')
    else if c == '\r' then Escape('r')
    else if c == '\t' then Escape('t')
    else if c == 8 as char then Escape('b')
    else if c == 12 as char then Escape('f')
    else if c as int < 0x20 then Unicode(['0', '0', HexDigit(c as int / 16), HexDigit(c as int % 16)])
    else Raw(c)
  }

  function ItemsFor(text: bytes): (items: seq<Item>)
    ensures |items| == |text| && forall i | 0 <= i < |text| :: items[i] == ItemFor(text[i])
  {
    seq(|text|, i requires 0 <= i < |text| => ItemFor(text[i]))
  }

  function Escaped(text: bytes): bytes { RenderItems(ItemsFor(text)) }

  function Quoted(text: bytes): bytes { Str(ItemsFor(text)).Render() }

  lemma ItemForDenotes(c: char)
    ensures ItemFor(c).Valid() && ItemFor(c).Denotes() == [c]
  {
    if c as int < 0x20 && ItemFor(c).Unicode? {
      var hex := ItemFor(c).hex;
      assert HexValue(hex[2]) == c as int / 16 && HexValue(hex[3]) == c as int % 16;
      assert CodePoint(hex) == c as int;
    }
  }

  /** Escaping loses nothing: every byte string is denoted by the items written for it. */
  lemma {:induction false} EscapingDenotes(text: bytes)
    ensures ItemsValid(ItemsFor(text)) && ItemsDenote(ItemsFor(text)) == text
  {
    forall i | 0 <= i < |text| ensures ItemsFor(text)[i].Valid() { ItemForDenotes(text[i]); }
    if text != [] {
      EscapingDenotes(text[1..]);
      assert ItemsFor(text)[1..] == ItemsFor(text[1..]);
      ItemForDenotes(text[0]);
    }
  }

  /** The worldserver's loop: append the quoted text to what has been written. */
  method AppendEscapedJsonString(written: bytes, text: bytes) returns (out: bytes)
    ensures out == written + Quoted(text)
  {
    out := written + ['"'];
    for i := 0 to |text|
      invariant out == written + (['"'] + Escaped(text[..i]))
    {
      var c := text[i];
      var piece;
      if c == '"' { piece := "\\\""; }
      else if c == '\\' { piece := "\\\\"; }
      else if c == '\n' { piece := "\\n"; }
      else if c == '\r' { piece := "\\r"; }
      else if c == '\t' { piece := "\\t"; }
      else if c == 8 as char { piece := "\\b"; }
      else if c == 12 as char { piece := "\\f"; }
      else if c as int < 0x20 { piece := "\\u00" + [HexDigit(c as int / 16), HexDigit(c as int % 16)]; }
      else { piece := [c]; }
      assert piece == ItemFor(c).Render();
      out := out + piece;
      EscapedAppend(text[..i], c);
      assert text[..i + 1] == text[..i] + [c];
      Assoc(written, ['"'] + Escaped(text[..i]), piece);
      Assoc(['"'], Escaped(text[..i]), piece);
    }
    assert text[..|text|] == text;
    Assoc(written, ['"'] + Escaped(text), ['"']);
    out := out + ['"'];
  }

  lemma {:induction false} EscapedAppend(text: bytes, c: char)
    ensures Escaped(text + [c]) == Escaped(text) + ItemFor(c).Render()
  {
    var longer := ItemsFor(text + [c]);
    if text == [] {
      assert longer[1..] == [];
      assert ItemsFor([]) == [];
    } else {
      EscapedAppend(text[1..], c);
      assert (text + [c])[1..] == text[1..] + [c];
      assert longer[1..] == ItemsFor((text + [c])[1..]);
      assert ItemsFor(text)[1..] == ItemsFor(text[1..]);
      Assoc(ItemFor(text[0]).Render(), Escaped(text[1..]), ItemFor(c).Render());
    }
  }

  /** Escaping at most sextuples: only control bytes grow to six. */
  lemma {:induction false} EscapedLength(text: bytes)
    ensures |text| <= |Escaped(text)| <= 6 * |text|
  {
    if text == [] {
      assert ItemsFor(text) == [];
    } else {
      EscapedLength(text[1..]);
      assert ItemsFor(text)[1..] == ItemsFor(text[1..]);
    }
  }

  // ---- Whole objects ----

  datatype Field = Field(key: bytes, value: Value)

  /** Numbers stay within 64 bits and no key is written twice. */
  predicate Writable(fields: seq<Field>) { NumbersFit(fields) && KeysDiffer(fields) }

  predicate NumbersFit(fields: seq<Field>) {
    forall i | 0 <= i < |fields| && fields[i].value.Number? :: fields[i].value.n <= UINT64_MAX
  }

  predicate KeysDiffer(fields: seq<Field>) {
    forall i, j | 0 <= i < j < |fields| :: fields[i].key != fields[j].key
  }

  function WriteValue(value: Value): bytes {
    match value
    case Number(n) => Decimal(n)
    case Text(s) => Quoted(s)
  }

  function WriteField(field: Field): bytes {
    Quoted(field.key) + ([':'] + WriteValue(field.value))
  }

  function WriteFields(fields: seq<Field>): bytes
    requires fields != []
  {
    if |fields| == 1 then WriteField(fields[0]) else WriteField(fields[0]) + ([','] + WriteFields(fields[1..]))
  }

  function WriteObject(fields: seq<Field>): bytes
    requires fields != []
  {
    ['{'] + (WriteFields(fields) + ['}'])
  }

  function AddFields(written: map<bytes, Value>, fields: seq<Field>): map<bytes, Value>
    decreases |fields|
  {
    if fields == [] then written else AddFields(written[fields[0].key := fields[0].value], fields[1..])
  }

  /** The map a list of fields spells. */
  function MapOf(fields: seq<Field>): map<bytes, Value> { AddFields(map[], fields) }

  predicate PlainKey(key: bytes) {
    forall i | 0 <= i < |key| :: key[i] as int >= 0x20 && key[i] != '"' && key[i] != '\\'
  }

  /** The worldserver writes its constant keys unescaped, which is the same thing for a plain key. */
  lemma {:induction false} PlainKeyIsWrittenRaw(key: bytes)
    requires PlainKey(key)
    ensures Escaped(key) == key
  {
    if key == [] {
      assert ItemsFor(key) == [];
    } else {
      PlainKeyIsWrittenRaw(key[1..]);
      assert ItemsFor(key)[1..] == ItemsFor(key[1..]);
    }
  }

  function TokenFor(value: Value): Token {
    match value
    case Number(n) => Digits(Decimal(n))
    case Text(s) => Str(ItemsFor(s))
  }

  function MemberFor(field: Field): Member { Member([], ItemsFor(field.key), [], [], TokenFor(field.value), []) }

  lemma TokenForValue(value: Value)
    requires value.Number? ==> value.n <= UINT64_MAX
    ensures TokenFor(value).Valid() && TokenFor(value).Denotes() == value
    ensures TokenFor(value).Render() == WriteValue(value)
  {
    match value {
      case Number(n) =>
        NumeralOfDecimal(n);
        UInt64Length(n);
      case Text(s) => EscapingDenotes(s);
    }
  }

  lemma MemberForField(field: Field)
    requires field.value.Number? ==> field.value.n <= UINT64_MAX
    ensures var m := MemberFor(field);
      m.Valid() && m.Key() == field.key && m.value.Denotes() == field.value && m.Render() == WriteField(field)
  {
    EscapingDenotes(field.key);
    TokenForValue(field.value);
    NoSpaceRender(Quoted(field.key), WriteValue(field.value));
  }

  lemma NoSpaceRender(key: bytes, value: bytes)
    ensures [] + (key + ([] + ([':'] + ([] + (value + []))))) == key + ([':'] + value)
  {
    assert value + [] == value;
    assert [] + value == value;
    assert [] + ([':'] + value) == [':'] + value;
  }

  function MembersFor(fields: seq<Field>): (ms: seq<Member>)
    ensures |ms| == |fields| && forall i | 0 <= i < |fields| :: ms[i] == MemberFor(fields[i])
  {
    seq(|fields|, i requires 0 <= i < |fields| => MemberFor(fields[i]))
  }

  lemma {:induction false} MembersForFields(fields: seq<Field>, written: map<bytes, Value>)
    requires fields != [] && Writable(fields)
    ensures MembersValid(MembersFor(fields)) && KeysDistinct(MembersFor(fields))
    ensures RenderMembers(MembersFor(fields)) == WriteFields(fields)
    ensures AddMembers(written, MembersFor(fields)) == AddFields(written, fields)
    decreases |fields|
  {
    var ms := MembersFor(fields);
    forall i | 0 <= i < |fields| ensures ms[i].Valid() && ms[i].Key() == fields[i].key { MemberForField(fields[i]); }
    MemberForField(fields[0]);
    assert ms[1..] == MembersFor(fields[1..]);
    if |fields| > 1 { MembersForFields(fields[1..], written[fields[0].key := fields[0].value]); }
  }

  /** Distinct keys with 64-bit numbers or arbitrary bytes come back as exactly the map that was written. */
  lemma WrittenObjectIsReadBack(fields: seq<Field>)
    requires fields != [] && Writable(fields)
    ensures Parse(WriteObject(fields)) == Some(MapOf(fields))
  {
    MembersForFields(fields, map[]);
    var doc := Object([], MembersFor(fields), []);
    assert doc.Render() == WriteObject(fields);
    EveryDocumentIsRead(doc);
  }

  lemma {:induction false} AddFieldsKeeps(written: map<bytes, Value>, fields: seq<Field>, k: bytes)
    requires forall i | 0 <= i < |fields| :: fields[i].key != k
    ensures k in AddFields(written, fields) <==> k in written
    ensures k in written ==> AddFields(written, fields)[k] == written[k]
    decreases |fields|
  {
    if fields != [] { AddFieldsKeeps(written[fields[0].key := fields[0].value], fields[1..], k); }
  }

  /** Every field of a list with distinct keys is found in the map it spells, with its own value. */
  lemma {:induction false} AddFieldsFinds(written: map<bytes, Value>, fields: seq<Field>, i: nat)
    requires KeysDiffer(fields)
    requires i < |fields|
    ensures fields[i].key in AddFields(written, fields) && AddFields(written, fields)[fields[i].key] == fields[i].value
    decreases |fields|
  {
    var more := written[fields[0].key := fields[0].value];
    if i == 0 {
      AddFieldsKeeps(more, fields[1..], fields[0].key);
    } else {
      AddFieldsFinds(more, fields[1..], i - 1);
    }
  }

  lemma {:induction false} AddFieldsCount(written: map<bytes, Value>, fields: seq<Field>)
    requires KeysDiffer(fields)
    requires forall i | 0 <= i < |fields| :: fields[i].key !in written
    ensures |AddFields(written, fields)| == |written| + |fields|
    decreases |fields|
  {
    if fields != [] {
      var more := written[fields[0].key := fields[0].value];
      assert more.Keys == written.Keys + {fields[0].key};
      AddFieldsCount(more, fields[1..]);
    }
  }

  // ---- Numbers that do not fit ----

  lemma OverflowingDigitsAreBad(n: nat, rest: bytes)
    requires n > UINT64_MAX && rest != [] && !IsDigit(rest[0])
    ensures ReadValue(SkipSpace(Decimal(n) + rest)).Bad?
  {
    var digits := Decimal(n);
    var s := digits + rest;
    assert IsDigit(digits[0]) && s[0] == digits[0] && SkipSpace(s) == s;
    NumeralOfDecimal(n);
    DigitsRead([], digits, rest);
    assert [] + digits == digits;
    assert ReadDigits(s, 0, 0).Bad?;
  }

  lemma OverflowingMemberIsBad(field: Field, rest: bytes)
    requires field.value.Number? && field.value.n > UINT64_MAX
    requires rest != [] && !IsDigit(rest[0])
    ensures ReadMember(WriteField(field) + rest).Bad?
  {
    var digits := Decimal(field.value.n);
    var colonAndOn := [':'] + (digits + rest);
    assert WriteField(field) + rest == Quoted(field.key) + colonAndOn by {
      Assoc(Quoted(field.key), [':'] + digits, rest);
      Assoc([':'], digits, rest);
    }
    EscapingDenotes(field.key);
    StringRead(ItemsFor(field.key), colonAndOn);
    assert colonAndOn[1..] == digits + rest;
    OverflowingDigitsAreBad(field.value.n, rest);
  }

  lemma {:induction false} OverflowingMembersAreRefused(fields: seq<Field>, written: map<bytes, Value>)
    requires fields != [] && KeysDiffer(fields) && !NumbersFit(fields)
    requires forall i | 0 <= i < |fields| :: fields[i].key !in written
    ensures ReadMembers(WriteFields(fields) + ['}'], written).None?
    decreases |fields|
  {
    var f := fields[0];
    var rest := if |fields| == 1 then ['}'] else [','] + (WriteFields(fields[1..]) + ['}']);
    if |fields| > 1 {
      Assoc(WriteField(f), [','] + WriteFields(fields[1..]), ['}']);
      Assoc([','], WriteFields(fields[1..]), ['}']);
    }
    if f.value.Number? && f.value.n > UINT64_MAX {
      OverflowingMemberIsBad(f, rest);
    } else {
      MemberForField(f);
      NextMemberRead(MemberFor(f), WriteFields(fields[1..]) + ['}'], written);
      OverflowingMembersAreRefused(fields[1..], written[f.key := f.value]);
    }
  }

  /** The writer has no upper bound on a count, the reader has: one number past 64 bits loses the whole object. */
  lemma OverflowingObjectIsRefused(fields: seq<Field>)
    requires fields != [] && KeysDiffer(fields)
    ensures Parse(WriteObject(fields)).Some? <==> NumbersFit(fields)
  {
    if NumbersFit(fields) {
      WrittenObjectIsReadBack(fields);
    } else {
      OverflowingMembersAreRefused(fields, map[]);
      var inside := WriteFields(fields) + ['}'];
      assert WriteObject(fields)[1..] == inside;
      assert inside[0] == '"';
    }
  }
}
