/**
 * The strict flat-object reader both sides depend on: its grammar, the reader as a function,
 * and the proof that the reader accepts exactly the grammar.
 *
 * The grammar is given by documents: a document renders to bytes and denotes a map, and a
 * byte string is accepted with a map exactly when some well-formed document renders to the one and
 * denotes the other. It is RFC 8259 sections 4, 6, and 7 restricted to one flat object of strings
 * and unsigned integers, with leading zeros allowed up to twenty digits and no surrogate escapes.
 */
module FlatJson {
  import opened Bytes
  import opened Wrappers

  datatype Value = Number(n: nat) | Text(s: bytes)

  // ---- Lexical pieces ----

  predicate IsSpace(c: char) { c == ' ' || c == '\t' || c == '\n' || c == '\r' }

  predicate AllSpace(s: bytes) { forall i | 0 <= i < |s| :: IsSpace(s[i]) }

  predicate IsHex(c: char) { IsDigit(c) || 'a' <= c <= 'f' || 'A' <= c <= 'F' }

  function HexValue(c: char): nat
    requires IsHex(c)
  {
    if IsDigit(c) then DigitValue(c)
    else if 'a' <= c then c as int - 'a' as int + 10
    else c as int - 'A' as int + 10
  }

  function CodePoint(h: bytes): (n: nat)
    requires |h| == 4 && forall i | 0 <= i < 4 :: IsHex(h[i])
    ensures n < 0x1_0000
  {
    ((HexValue(h[0]) * 16 + HexValue(h[1])) * 16 + HexValue(h[2])) * 16 + HexValue(h[3])
  }

  predicate IsHex4(h: bytes) { |h| == 4 && forall i | 0 <= i < 4 :: IsHex(h[i]) }

  predicate IsSurrogate(n: nat) { 0xD800 <= n <= 0xDFFF }

  /** The bytes of a code point below 0x10000, by shifts and masks written as divisions. */
  function Utf8(n: nat): bytes
    requires n < 0x1_0000
  {
    if n < 0x80 then [n as char]
    else if n < 0x800 then [(0xC0 + n / 64) as char, (0x80 + n % 64) as char]
    else [(0xE0 + n / 4096) as char, (0x80 + n / 64 % 64) as char, (0x80 + n % 64) as char]
  }

  /** What a single-character escape stands for. */
  function Unescape(c: char): Option<char> {
    match c
    case '"' => Some('"')
    case '\\' => Some('\\')
    case '/' => Some('/')
    case 'n' => Some('\n')
    case 'r' => Some('\r')
    case 't' => Some('\t')
    case 'b' => Some(8 as char)
    case 'f' => Some(12 as char)
    case _ => None
  }

  // ---- The grammar ----

  datatype Item = Raw(c: char) | Escape(c: char) | Unicode(hex: bytes) {
    predicate Valid() {
      match this
      case Raw(c) => c as int >= 0x20 && c != '"' && c != '\\'
      case Escape(c) => Unescape(c).Some?
      case Unicode(hex) => IsHex4(hex) && !IsSurrogate(CodePoint(hex))
    }
    function Render(): bytes {
      match this
      case Raw(c) => [c]
      case Escape(c) => ['\\', c]
      case Unicode(hex) => ['\\', 'u'] + hex
    }
    function Denotes(): bytes
      requires Valid()
    {
      match this
      case Raw(c) => [c]
      case Escape(c) => [Unescape(c).value]
      case Unicode(hex) => Utf8(CodePoint(hex))
    }
  }

  predicate ItemsValid(items: seq<Item>) { forall i | 0 <= i < |items| :: items[i].Valid() }

  function RenderItems(items: seq<Item>): bytes {
    if items == [] then [] else items[0].Render() + RenderItems(items[1..])
  }

  function ItemsDenote(items: seq<Item>): bytes
    requires ItemsValid(items)
  {
    if items == [] then [] else items[0].Denotes() + ItemsDenote(items[1..])
  }

  datatype Token = Digits(digits: bytes) | Str(items: seq<Item>) {
    predicate Valid() {
      match this
      case Digits(d) => AllDigits(d) && 1 <= |d| <= 20 && Numeral(d) <= UINT64_MAX
      case Str(items) => ItemsValid(items)
    }
    function Render(): bytes {
      match this
      case Digits(d) => d
      case Str(items) => ['"'] + RenderItems(items) + ['"']
    }
    function Denotes(): Value
      requires Valid()
    {
      match this
      case Digits(d) => Number(Numeral(d))
      case Str(items) => Text(ItemsDenote(items))
    }
  }

  /** White space, a key, white space, a colon, white space, a value, white space. */
  datatype Member = Member(w0: bytes, key: seq<Item>, w1: bytes, w2: bytes, value: Token, w3: bytes) {
    predicate Valid() {
      AllSpace(w0) && AllSpace(w1) && AllSpace(w2) && AllSpace(w3) && ItemsValid(key) && value.Valid()
    }
    function Render(): bytes {
      w0 + (Str(key).Render() + (w1 + ([':'] + (w2 + (value.Render() + w3)))))
    }
    function Key(): bytes
      requires Valid()
    {
      ItemsDenote(key)
    }
  }

  predicate MembersValid(ms: seq<Member>) { forall i | 0 <= i < |ms| :: ms[i].Valid() }

  predicate KeysDistinct(ms: seq<Member>)
    requires MembersValid(ms)
  {
    forall i, j | 0 <= i < j < |ms| :: ms[i].Key() != ms[j].Key()
  }

  /** Members separated by commas. */
  function RenderMembers(ms: seq<Member>): bytes
    requires ms != []
  {
    if |ms| == 1 then ms[0].Render() else ms[0].Render() + ([','] + RenderMembers(ms[1..]))
  }

  /** The map the members denote, added to what came before them. */
  function AddMembers(fields: map<bytes, Value>, ms: seq<Member>): map<bytes, Value>
    requires MembersValid(ms)
    decreases |ms|
  {
    if ms == [] then fields else AddMembers(fields[ms[0].Key() := ms[0].value.Denotes()], ms[1..])
  }

  datatype Doc = Empty(w0: bytes, w1: bytes, w2: bytes) | Object(w0: bytes, members: seq<Member>, w2: bytes) {
    predicate Valid() {
      match this
      case Empty(w0, w1, w2) => AllSpace(w0) && AllSpace(w1) && AllSpace(w2)
      case Object(w0, ms, w2) => AllSpace(w0) && AllSpace(w2) && ms != [] && MembersValid(ms) && KeysDistinct(ms)
    }
    function Render(): bytes
      requires Valid()
    {
      match this
      case Empty(w0, w1, w2) => w0 + (['{'] + (w1 + (['}'] + w2)))
      case Object(w0, ms, w2) => w0 + (['{'] + (RenderMembers(ms) + (['}'] + w2)))
    }
    function Denotes(): map<bytes, Value>
      requires Valid()
    {
      match this
      case Empty(_, _, _) => map[]
      case Object(_, ms, _) => AddMembers(map[], ms)
    }
  }

  // ---- The reader, as functions of the bytes still to read ----

  datatype Read<+T> = Bad | Good(value: T, rest: bytes)

  function SkipSpace(s: bytes): (rest: bytes)
    ensures |rest| <= |s|
  {
    if s != [] && IsSpace(s[0]) then SkipSpace(s[1..]) else s
  }

  /** After the opening quote, up to and including the closing one. */
  function ReadItems(s: bytes): (r: Read<bytes>)
    ensures r.Good? ==> |r.rest| < |s|
  {
    if s == [] then Bad
    else if s[0] == '"' then Good([], s[1..])
    else if s[0] == '\\' then
      if |s| == 1 then Bad
      else if s[1] == 'u' then
        if |s| < 6 || !IsHex4(s[2..6]) || IsSurrogate(CodePoint(s[2..6])) then Bad
        else Prepend(Utf8(CodePoint(s[2..6])), ReadItems(s[6..]))
      else if Unescape(s[1]).None? then Bad
      else Prepend([Unescape(s[1]).value], ReadItems(s[2..]))
    else if s[0] as int < 0x20 then Bad
    else Prepend([s[0]], ReadItems(s[1..]))
  }

  function Prepend(head: bytes, r: Read<bytes>): Read<bytes> {
    if r.Bad? then Bad else Good(head + r.value, r.rest)
  }

  function ReadString(s: bytes): (r: Read<bytes>)
    ensures r.Good? ==> |r.rest| < |s|
  {
    if s == [] || s[0] != '"' then Bad else ReadItems(s[1..])
  }

  /** Accumulates digits, refusing the one that would overflow. */
  function ReadDigits(s: bytes, value: nat, count: nat): (r: Read<(nat, nat)>)
    ensures r.Good? ==> |r.rest| + r.value.1 == |s| + count
  {
    if s == [] || !IsDigit(s[0]) then Good((value, count), s)
    else if value > (UINT64_MAX - DigitValue(s[0])) / 10 then Bad
    else ReadDigits(s[1..], value * 10 + DigitValue(s[0]), count + 1)
  }

  function ReadUnsigned(s: bytes): (r: Read<Value>)
    ensures r.Good? ==> |r.rest| < |s|
  {
    var r := ReadDigits(s, 0, 0);
    if r.Bad? || r.value.1 == 0 || r.value.1 > 20 then Bad
    else if r.rest != [] && (r.rest[0] == '.' || r.rest[0] == 'e' || r.rest[0] == 'E') then Bad
    else Good(Number(r.value.0), r.rest)
  }

  function ReadValue(s: bytes): (r: Read<Value>)
    ensures r.Good? ==> |r.rest| < |s|
  {
    if s == [] then Bad
    else if s[0] == '"' then
      var text := ReadString(s);
      if text.Bad? then Bad else Good(Text(text.value), text.rest)
    else if IsDigit(s[0]) then ReadUnsigned(s)
    else Bad
  }

  /** One key, colon, and value, with the white space around them. */
  function ReadMember(s: bytes): (r: Read<(bytes, Value)>)
    ensures r.Good? ==> |r.rest| < |s|
  {
    var key := ReadString(SkipSpace(s));
    if key.Bad? then Bad
    else
      var afterKey := SkipSpace(key.rest);
      if afterKey == [] || afterKey[0] != ':' then Bad
      else
        var value := ReadValue(SkipSpace(afterKey[1..]));
        if value.Bad? then Bad else Good((key.value, value.value), SkipSpace(value.rest))
  }

  function ReadMembers(s: bytes, fields: map<bytes, Value>): Option<map<bytes, Value>>
    decreases |s|
  {
    var member := ReadMember(s);
    if member.Bad? || member.value.0 in fields then None
    else
      var more := fields[member.value.0 := member.value.1];
      if member.rest != [] && member.rest[0] == ',' then ReadMembers(member.rest[1..], more)
      else if member.rest != [] && member.rest[0] == '}' then Finish(member.rest[1..], more)
      else None
  }

  /** Nothing but white space may follow the object. */
  function Finish(s: bytes, fields: map<bytes, Value>): Option<map<bytes, Value>> {
    if SkipSpace(s) == [] then Some(fields) else None
  }

  function Parse(input: bytes): Option<map<bytes, Value>> {
    var s := SkipSpace(input);
    if s == [] || s[0] != '{' then None
    else
      var inside := SkipSpace(s[1..]);
      if inside != [] && inside[0] == '}' then Finish(inside[1..], map[]) else ReadMembers(inside, map[])
  }

  // ---- Completeness: every document is read back to what it denotes ----

  lemma {:induction false} SkipsSpace(w: bytes, rest: bytes)
    requires AllSpace(w) && (rest == [] || !IsSpace(rest[0]))
    ensures SkipSpace(w + rest) == rest
  {
    if w == [] {
      assert w + rest == rest;
    } else {
      assert (w + rest)[1..] == w[1..] + rest;
      SkipsSpace(w[1..], rest);
    }
  }

  lemma {:induction false} SkipSkipped(s: bytes)
    ensures SkipSpace(SkipSpace(s)) == SkipSpace(s)
  {
    if s != [] && IsSpace(s[0]) { SkipSkipped(s[1..]); }
  }

  /** One rendered item is read as what it denotes, and reading goes on after it. */
  lemma ItemRead(item: Item, tail: bytes)
    requires item.Valid()
    ensures ReadItems(item.Render() + tail) == Prepend(item.Denotes(), ReadItems(tail))
  {
    var s := item.Render() + tail;
    match item
    case Raw(c) => assert s[0] == c && s[1..] == tail;
    case Escape(c) => assert s[0] == '\\' && s[1] == c && s[2..] == tail;
    case Unicode(hex) => assert s[0] == '\\' && s[1] == 'u' && s[2..6] == hex && s[6..] == tail;
  }

  lemma Assoc(a: bytes, b: bytes, c: bytes)
    ensures (a + b) + c == a + (b + c)
  {
  }

  lemma {:induction false} ItemsRead(items: seq<Item>, rest: bytes)
    requires ItemsValid(items)
    ensures ReadItems(RenderItems(items) + (['"'] + rest)) == Good(ItemsDenote(items), rest)
    decreases |items|
  {
    var closing := ['"'] + rest;
    if items == [] {
      assert [] + closing == closing && closing[1..] == rest;
    } else {
      Assoc(items[0].Render(), RenderItems(items[1..]), closing);
      ItemsRead(items[1..], rest);
      ItemRead(items[0], RenderItems(items[1..]) + closing);
    }
  }

  lemma StringRead(items: seq<Item>, rest: bytes)
    requires ItemsValid(items)
    ensures ReadString(Str(items).Render() + rest) == Good(ItemsDenote(items), rest)
  {
    var body := RenderItems(items) + (['"'] + rest);
    ItemsRead(items, rest);
    assert Str(items).Render() + rest == ['"'] + body;
    assert (['"'] + body)[1..] == body;
  }

  /** Refusing the digit that would overflow is refusing exactly the numerals above the limit. */
  lemma {:induction false} DigitsRead(read: bytes, d: bytes, rest: bytes)
    requires AllDigits(read) && AllDigits(d) && (rest == [] || !IsDigit(rest[0]))
    requires Numeral(read) <= UINT64_MAX
    ensures AllDigits(read + d)
    ensures ReadDigits(d + rest, Numeral(read), |read|)
         == if Numeral(read + d) <= UINT64_MAX then Good((Numeral(read + d), |read| + |d|), rest) else Bad
    decreases |d|
  {
    if d == [] {
      assert d + rest == rest && read + d == read;
    } else {
      var more := read + [d[0]];
      assert more[..|read|] == read;
      assert (d + rest)[1..] == d[1..] + rest;
      assert read + d == more + d[1..];
      if Numeral(more) <= UINT64_MAX {
        DigitsRead(more, d[1..], rest);
      } else {
        NumeralGrows(more, d[1..]);
      }
    }
  }

  lemma {:induction false} NumeralGrows(a: bytes, b: bytes)
    requires AllDigits(a) && AllDigits(b)
    ensures AllDigits(a + b) && Numeral(a) <= Numeral(a + b)
    decreases |b|
  {
    if b == [] {
      assert a + b == a;
    } else {
      NumeralGrows(a, b[..|b| - 1]);
      assert (a + b)[..|a + b| - 1] == a + b[..|b| - 1];
    }
  }

  ghost predicate EndsValue(rest: bytes) {
    rest != [] && (IsSpace(rest[0]) || rest[0] == ',' || rest[0] == '}')
  }

  lemma ValueRead(token: Token, rest: bytes)
    requires token.Valid() && EndsValue(rest)
    ensures ReadValue(token.Render() + rest) == Good(token.Denotes(), rest)
  {
    match token
    case Str(items) => StringRead(items, rest);
    case Digits(d) =>
      DigitsRead([], d, rest);
      assert [] + d == d;
      assert (d + rest)[0] == d[0];
  }

  /** A rendered member with more bytes after it, grouped the way the reader consumes it. */
  lemma MemberThen(m: Member, rest: bytes)
    ensures m.Render() + rest
         == m.w0 + (Str(m.key).Render() + (m.w1 + ([':'] + (m.w2 + (m.value.Render() + (m.w3 + rest))))))
  {
    var t5 := m.value.Render() + m.w3;
    var t4 := m.w2 + t5;
    var t3 := [':'] + t4;
    var t2 := m.w1 + t3;
    Assoc(m.w0, Str(m.key).Render() + t2, rest);
    Assoc(Str(m.key).Render(), t2, rest);
    Assoc(m.w1, t3, rest);
    Assoc([':'], t4, rest);
    Assoc(m.w2, t5, rest);
    Assoc(m.value.Render(), m.w3, rest);
  }

  lemma MemberRead(m: Member, rest: bytes)
    requires m.Valid() && rest != [] && (rest[0] == ',' || rest[0] == '}')
    ensures ReadMember(m.Render() + rest) == Good((m.Key(), m.value.Denotes()), rest)
  {
    var valueAndOn := m.value.Render() + (m.w3 + rest);
    var colonAndOn := [':'] + (m.w2 + valueAndOn);
    var keyAndOn := Str(m.key).Render() + (m.w1 + colonAndOn);
    MemberThen(m, rest);
    SkipsSpace(m.w0, keyAndOn);
    StringRead(m.key, m.w1 + colonAndOn);
    SkipsSpace(m.w1, colonAndOn);
    assert colonAndOn[1..] == m.w2 + valueAndOn;
    ValueStartsClean(m.value, m.w3 + rest);
    SkipsSpace(m.w2, valueAndOn);
    assert EndsValue(m.w3 + rest);
    ValueRead(m.value, m.w3 + rest);
    SkipsSpace(m.w3, rest);
  }

  lemma ValueStartsClean(token: Token, rest: bytes)
    requires token.Valid()
    ensures var s := token.Render() + rest; s != [] && !IsSpace(s[0])
  {
  }

  lemma LastMemberRead(m: Member, w2: bytes, fields: map<bytes, Value>)
    requires m.Valid() && AllSpace(w2) && m.Key() !in fields
    ensures ReadMembers(m.Render() + (['}'] + w2), fields) == Some(fields[m.Key() := m.value.Denotes()])
  {
    MemberRead(m, ['}'] + w2);
    assert (['}'] + w2)[1..] == w2;
    assert w2 == w2 + [];
    SkipsSpace(w2, []);
  }

  lemma NextMemberRead(m: Member, tail: bytes, fields: map<bytes, Value>)
    requires m.Valid() && m.Key() !in fields
    ensures ReadMembers(m.Render() + ([','] + tail), fields) == ReadMembers(tail, fields[m.Key() := m.value.Denotes()])
  {
    MemberRead(m, [','] + tail);
    assert ([','] + tail)[1..] == tail;
  }

  lemma {:induction false} MembersRead(ms: seq<Member>, w2: bytes, fields: map<bytes, Value>)
    requires ms != [] && MembersValid(ms) && KeysDistinct(ms) && AllSpace(w2)
    requires forall i | 0 <= i < |ms| :: ms[i].Key() !in fields
    ensures ReadMembers(RenderMembers(ms) + (['}'] + w2), fields) == Some(AddMembers(fields, ms))
    decreases |ms|
  {
    var more := fields[ms[0].Key() := ms[0].value.Denotes()];
    if |ms| == 1 {
      LastMemberRead(ms[0], w2, fields);
      assert AddMembers(more, ms[1..]) == more;
    } else {
      var tail := RenderMembers(ms[1..]) + (['}'] + w2);
      Assoc(ms[0].Render(), [','] + RenderMembers(ms[1..]), ['}'] + w2);
      Assoc([','], RenderMembers(ms[1..]), ['}'] + w2);
      NextMemberRead(ms[0], tail, fields);
      TailDistinct(ms, fields);
      MembersRead(ms[1..], w2, more);
    }
  }

  lemma TailDistinct(ms: seq<Member>, fields: map<bytes, Value>)
    requires ms != [] && MembersValid(ms) && KeysDistinct(ms)
    requires forall i | 0 <= i < |ms| :: ms[i].Key() !in fields
    ensures MembersValid(ms[1..]) && KeysDistinct(ms[1..])
    ensures forall i | 0 <= i < |ms[1..]| :: ms[1..][i].Key() !in fields[ms[0].Key() := ms[0].value.Denotes()]
  {
  }

  lemma EveryDocumentIsRead(doc: Doc)
    requires doc.Valid()
    ensures Parse(doc.Render()) == Some(doc.Denotes())
  {
    match doc
    case Empty(w0, w1, w2) =>
      var closing := ['}'] + w2;
      var inside := w1 + closing;
      SkipsSpace(w0, ['{'] + inside);
      assert (['{'] + inside)[1..] == inside;
      SkipsSpace(w1, closing);
      assert closing[1..] == w2 && w2 == w2 + [];
      SkipsSpace(w2, []);
    case Object(w0, ms, w2) =>
      var inside := RenderMembers(ms) + (['}'] + w2);
      SkipsSpace(w0, ['{'] + inside);
      assert (['{'] + inside)[1..] == inside;
      MembersRead(ms, w2, map[]);
      LeadingSpaceIsSkipped(inside);
  }

  /** The reader skips white space before the first member twice; the second time finds none. */
  lemma LeadingSpaceIsSkipped(s: bytes)
    requires ReadMembers(s, map[]).Some?
    ensures ReadMembers(SkipSpace(s), map[]) == ReadMembers(s, map[])
    ensures SkipSpace(s) != [] && SkipSpace(s)[0] != '}'
  {
    SkipSkipped(s);
  }

  // ---- Soundness: whatever is read is some document ----

  lemma {:induction false} SpaceSplit(s: bytes) returns (w: bytes)
    ensures AllSpace(w) && s == w + SkipSpace(s)
    ensures SkipSpace(s) == [] || !IsSpace(SkipSpace(s)[0])
  {
    if s != [] && IsSpace(s[0]) {
      w := SpaceSplit(s[1..]);
      w := [s[0]] + w;
    } else {
      w := [];
    }
  }

  /** The item at the front of a readable string body. */
  function FirstItem(s: bytes): (item: Item)
    requires ReadItems(s).Good? && s[0] != '"'
    ensures item.Valid() && |item.Render()| <= |s| && s == item.Render() + s[|item.Render()|..]
  {
    if s[0] != '\\' then Raw(s[0])
    else if s[1] == 'u' then Unicode(s[2..6])
    else Escape(s[1])
  }

  lemma {:induction false} ItemsSplit(s: bytes) returns (items: seq<Item>)
    requires ReadItems(s).Good?
    ensures ItemsValid(items) && ItemsDenote(items) == ReadItems(s).value
    ensures s == RenderItems(items) + (['"'] + ReadItems(s).rest)
    decreases |s|
  {
    if s[0] == '"' {
      items := [];
      assert s == ['"'] + s[1..] && [] + s == s;
    } else {
      var item := FirstItem(s);
      var tail := s[|item.Render()|..];
      ItemRead(item, tail);
      var more := ItemsSplit(tail);
      items := [item] + more;
      assert items[1..] == more;
      Assoc(item.Render(), RenderItems(more), ['"'] + ReadItems(s).rest);
    }
  }

  lemma StringSplit(s: bytes) returns (items: seq<Item>)
    requires ReadString(s).Good?
    ensures ItemsValid(items) && ItemsDenote(items) == ReadString(s).value
    ensures s == Str(items).Render() + ReadString(s).rest
  {
    items := ItemsSplit(s[1..]);
  }

  /** The digits at the front of a string. */
  function DigitPrefix(s: bytes): (d: bytes)
    ensures AllDigits(d) && |d| <= |s| && s == d + s[|d|..]
    ensures |d| < |s| ==> !IsDigit(s[|d|])
  {
    if s == [] || !IsDigit(s[0]) then [] else [s[0]] + DigitPrefix(s[1..])
  }

  lemma ValueSplit(s: bytes) returns (token: Token)
    requires ReadValue(s).Good?
    ensures token.Valid() && token.Denotes() == ReadValue(s).value
    ensures s == token.Render() + ReadValue(s).rest
  {
    if s[0] == '"' {
      var items := StringSplit(s);
      token := Str(items);
    } else {
      var d := DigitPrefix(s);
      DigitsRead([], d, s[|d|..]);
      assert [] + d == d;
      token := Digits(d);
    }
  }

  lemma MemberSplit(s: bytes) returns (m: Member)
    requires ReadMember(s).Good?
    ensures m.Valid() && (m.Key(), m.value.Denotes()) == ReadMember(s).value
    ensures s == m.Render() + ReadMember(s).rest
  {
    hide ReadItems, ReadUnsigned, ItemsDenote, RenderItems, AllSpace, SkipSpace, ReadString, ReadValue;
    var w0 := SpaceSplit(s);
    var keyAndOn := SkipSpace(s);
    var key := StringSplit(keyAndOn);
    var afterKey := ReadString(keyAndOn).rest;
    var w1 := SpaceSplit(afterKey);
    var afterColon := SkipSpace(afterKey)[1..];
    assert SkipSpace(afterKey) == [':'] + afterColon;
    var w2 := SpaceSplit(afterColon);
    var valueAndOn := SkipSpace(afterColon);
    var value := ValueSplit(valueAndOn);
    var w3 := SpaceSplit(ReadValue(valueAndOn).rest);
    m := Member(w0, key, w1, w2, value, w3);
    MemberThen(m, ReadMember(s).rest);
  }

  lemma PushMember(m: Member, tail: seq<Member>, fields: map<bytes, Value>) returns (ms: seq<Member>)
    requires m.Valid() && m.Key() !in fields
    requires tail != [] && MembersValid(tail) && KeysDistinct(tail)
    requires forall i | 0 <= i < |tail| :: tail[i].Key() !in fields[m.Key() := m.value.Denotes()]
    ensures ms == [m] + tail && ms[1..] == tail
    ensures MembersValid(ms) && KeysDistinct(ms) && forall i | 0 <= i < |ms| :: ms[i].Key() !in fields
  {
    hide ItemsDenote, ItemsValid;
    ms := [m] + tail;
    forall i | 0 <= i < |ms| ensures ms[i].Valid() && ms[i].Key() !in fields && (i > 0 ==> ms[i].Key() != m.Key()) {
      if i > 0 { assert ms[i] == tail[i - 1]; }
    }
    forall i, j | 0 <= i < j < |ms| ensures ms[i].Key() != ms[j].Key() {
      if i > 0 { assert ms[i] == tail[i - 1] && ms[j] == tail[j - 1]; }
    }
  }

  lemma {:induction false} MembersSplit(s: bytes, fields: map<bytes, Value>) returns (ms: seq<Member>, w2: bytes)
    requires ReadMembers(s, fields).Some?
    ensures ms != [] && MembersValid(ms) && KeysDistinct(ms) && AllSpace(w2)
    ensures forall i | 0 <= i < |ms| :: ms[i].Key() !in fields
    ensures s == RenderMembers(ms) + (['}'] + w2)
    ensures ReadMembers(s, fields) == Some(AddMembers(fields, ms))
    decreases |s|
  {
    hide ReadMember, ItemsDenote, RenderItems, AllSpace;
    var m := MemberSplit(s);
    var rest := ReadMember(s).rest;
    var more := fields[m.Key() := m.value.Denotes()];
    if rest[0] == ',' {
      var tail;
      tail, w2 := MembersSplit(rest[1..], more);
      ms := PushMember(m, tail, fields);
      assert rest == [','] + rest[1..];
      Assoc(m.Render(), [','] + RenderMembers(tail), ['}'] + w2);
      Assoc([','], RenderMembers(tail), ['}'] + w2);
    } else {
      w2 := SpaceSplit(rest[1..]);
      ms := [m];
      assert w2 + [] == w2;
      assert rest == ['}'] + w2;
      assert AddMembers(more, ms[1..]) == more;
    }
  }

  lemma EveryReadIsADocument(input: bytes) returns (doc: Doc)
    requires Parse(input).Some?
    ensures doc.Valid() && doc.Render() == input && Parse(input) == Some(doc.Denotes())
  {
    var w0 := SpaceSplit(input);
    var s := SkipSpace(input);
    var w1 := SpaceSplit(s[1..]);
    var inside := SkipSpace(s[1..]);
    assert s == ['{'] + (w1 + inside);
    if inside != [] && inside[0] == '}' {
      var w2 := SpaceSplit(inside[1..]);
      assert w2 + [] == w2;
      assert inside == ['}'] + w2;
      doc := Empty(w0, w1, w2);
    } else {
      var ms, w2 := MembersSplit(inside, map[]);
      var wider := WidenFirst(w1, ms);
      Assoc(w1, RenderMembers(ms), ['}'] + w2);
      doc := Object(w0, wider, w2);
    }
  }

  /** White space before the first member belongs to that member. */
  lemma WidenFirst(w: bytes, ms: seq<Member>) returns (wider: seq<Member>)
    requires AllSpace(w) && ms != [] && MembersValid(ms) && KeysDistinct(ms)
    ensures wider != [] && MembersValid(wider) && KeysDistinct(wider)
    ensures RenderMembers(wider) == w + RenderMembers(ms)
    ensures AddMembers(map[], wider) == AddMembers(map[], ms)
  {
    var first := ms[0].(w0 := w + ms[0].w0);
    wider := [first] + ms[1..];
    assert wider[1..] == ms[1..];
    SameKeys(ms, wider);
    WiderRender(w, ms[0]);
    if |ms| > 1 { Assoc(w, ms[0].Render(), [','] + RenderMembers(ms[1..])); }
  }

  lemma SameKeys(ms: seq<Member>, wider: seq<Member>)
    requires MembersValid(ms) && KeysDistinct(ms)
    requires |wider| == |ms| > 0 && wider[0].Valid() && wider[0].key == ms[0].key && wider[1..] == ms[1..]
    ensures MembersValid(wider) && KeysDistinct(wider)
  {
    forall i | 0 <= i < |ms| ensures wider[i].Valid() && wider[i].Key() == ms[i].Key() {
      if i > 0 { assert wider[i] == wider[1..][i - 1]; }
    }
  }

  lemma WiderRender(w: bytes, m: Member)
    ensures m.(w0 := w + m.w0).Render() == w + m.Render()
  {
    Assoc(w, m.w0, Str(m.key).Render() + (m.w1 + ([':'] + (m.w2 + (m.value.Render() + m.w3)))));
  }

  /** The reader accepts exactly the grammar, and what it returns is what the document denotes. */
  lemma ParseAcceptsExactlyTheGrammar(input: bytes, fields: map<bytes, Value>)
    ensures Parse(input) == Some(fields) <==>
      exists doc: Doc :: doc.Valid() && doc.Render() == input && doc.Denotes() == fields
  {
    if Parse(input) == Some(fields) {
      var doc := EveryReadIsADocument(input);
    }
    if doc: Doc :| doc.Valid() && doc.Render() == input && doc.Denotes() == fields {
      EveryDocumentIsRead(doc);
    }
  }

  /** A byte string has at most one reading: documents that look the same mean the same. */
  lemma GrammarIsUnambiguous(a: Doc, b: Doc)
    requires a.Valid() && b.Valid() && a.Render() == b.Render()
    ensures a.Denotes() == b.Denotes()
  {
    EveryDocumentIsRead(a);
    EveryDocumentIsRead(b);
  }
}
