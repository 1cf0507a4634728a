/**
 * The reader as the worldserver runs it: one position moving over the input. Each method
 * is proved to consume exactly what the reading function in `FlatJson` says.
 */
module FlatJsonParserClass {
  import opened Bytes
  import opened Wrappers
  import opened FlatJson

  class FlatJsonParser {
    const input: bytes
    var position: nat

    ghost predicate Valid()
      reads this
    {
      position <= |input|
    }

    function Rest(): bytes
      requires Valid()
      reads this
    {
      input[position..]
    }

    constructor (input: bytes)
      ensures this.input == input && position == 0
    {
      this.input := input;
      position := 0;
    }

    method Parse() returns (fields: Option<map<bytes, Value>>)
      requires position == 0
      modifies this
      ensures Valid() && fields == FlatJson.Parse(input)
    {
      var found: map<bytes, Value> := map[];
      SkipWhitespace();
      var open := Consume('{');
      if !open { return None; }
      SkipWhitespace();
      var closed := Consume('}');
      if closed {
        fields := Finish(found);
        return;
      }
      while true
        invariant Valid()
        invariant FlatJson.Parse(input) == ReadMembers(Rest(), found)
        decreases |input| - position
      {
        ghost var start := Rest();
        SkipWhitespace();
        var key := ParseString();
        if key.None? { return None; }
        SkipWhitespace();
        var colon := Consume(':');
        if !colon { return None; }
        SkipWhitespace();
        var value := ParseValue();
        if value.None? { return None; }
        if key.value in found { return None; }  // duplicate key
        found := found[key.value := value.value];
        SkipWhitespace();
        assert ReadMember(start) == Good((key.value, value.value), Rest());
        var comma := Consume(',');
        if comma { continue; }
        var brace := Consume('}');
        if brace {
          fields := Finish(found);
          return;
        }
        return None;
      }
    }

    method Finish(found: map<bytes, Value>) returns (fields: Option<map<bytes, Value>>)
      requires Valid()
      modifies this
      ensures Valid() && fields == FlatJson.Finish(old(Rest()), found)
    {
      SkipWhitespace();
      if position != |input| { return None; }  // trailing bytes
      return Some(found);
    }

    method SkipWhitespace()
      requires Valid()
      modifies this
      ensures Valid() && old(position) <= position && Rest() == SkipSpace(old(Rest()))
    {
      while position < |input|
        invariant old(position) <= position <= |input|
        invariant SkipSpace(Rest()) == SkipSpace(old(Rest()))
      {
        var c := input[position];
        assert Rest()[0] == c && Rest()[1..] == input[position + 1..];
        if c != ' ' && c != '\t' && c != '\n' && c != '\r' { break; }
        position := position + 1;
      }
    }

    method Consume(expected: char) returns (consumed: bool)
      requires Valid()
      modifies this
      ensures Valid()
      ensures consumed <==> old(Rest()) != [] && old(Rest())[0] == expected
      ensures if consumed then position == old(position) + 1 && Rest() == old(Rest())[1..]
        else position == old(position)
    {
      if position < |input| && input[position] == expected {
        position := position + 1;
        return true;
      }
      return false;
    }

    method ParseValue() returns (value: Option<Value>)
      requires Valid()
      modifies this
      ensures Valid() && old(position) <= position
      ensures Agrees(value, ReadValue(old(Rest())), Rest())
    {
      if position >= |input| { return None; }
      var c := input[position];
      if c == '"' {
        var text := ParseString();
        if text.None? { return None; }
        return Some(Text(text.value));
      }
      if '0' <= c <= '9' {
        value := ParseUnsigned();
        return;
      }
      return None;
    }

    method ParseUnsigned() returns (value: Option<Value>)
      requires Valid()
      modifies this
      ensures Valid() && old(position) <= position
      ensures Agrees(value, ReadUnsigned(old(Rest())), Rest())
    {
      var result: nat := 0;
      var digits: nat := 0;
      while position < |input| && '0' <= input[position] <= '9'
        invariant old(position) <= position <= |input|
        invariant ReadDigits(old(Rest()), 0, 0) == ReadDigits(Rest(), result, digits)
      {
        var digit := DigitValue(input[position]);
        assert Rest()[0] == input[position] && Rest()[1..] == input[position + 1..];
        if result > (UINT64_MAX - digit) / 10 { return None; }  // overflow
        result := result * 10 + digit;
        position := position + 1;
        digits := digits + 1;
      }
      if digits == 0 || digits > 20 { return None; }
      if position < |input| {
        var next := input[position];
        if next == '.' || next == 'e' || next == 'E' { return None; }
      }
      return Some(Number(result));
    }

    method ParseString() returns (text: Option<bytes>)
      requires Valid()
      modifies this
      ensures Valid() && old(position) <= position
      ensures Agrees(text, ReadString(old(Rest())), Rest())
      ensures text.Some? ==> old(position) < position
    {
      var open := Consume('"');
      if !open { return None; }
      var result: bytes := [];
      ghost var body := Rest();
      PrependNothing(ReadItems(body));
      while position < |input|
        invariant old(position) < position <= |input|
        invariant ReadItems(body) == Prepend(result, ReadItems(Rest()))
      {
        ghost var here := Rest();
        var c := input[position];
        assert here[0] == c && here[1..] == input[position + 1..];
        if c == '"' {
          position := position + 1;
          assert result + [] == result;
          return Some(result);
        }
        if c == '\\' {
          var piece := ParseEscape();
          if piece.None? { return None; }
          PrependTwice(result, piece.value, ReadItems(Rest()));
          result := result + piece.value;
          continue;
        }
        if c as int < 0x20 { return None; }  // raw control characters are invalid JSON
        PrependTwice(result, [c], ReadItems(here[1..]));
        result := result + [c];
        position := position + 1;
      }
      return None;  // unterminated string
    }

    /** A backslash and what it escapes. */
    method ParseEscape() returns (piece: Option<bytes>)
      requires Valid() && Rest() != [] && Rest()[0] == '\\'
      modifies this
      ensures Valid() && old(position) < position
      ensures piece.None? ==> ReadItems(old(Rest())).Bad?
      ensures piece.Some? ==> ReadItems(old(Rest())) == Prepend(piece.value, ReadItems(Rest()))
    {
      ghost var here := Rest();
      position := position + 1;
      if position >= |input| { return None; }
      var escape := input[position];
      position := position + 1;
      assert here[1] == escape && here[2..] == Rest();
      if escape == 'u' {
        var hex := ParseHex4();
        assert 6 <= |here| ==> here[2..6] == here[2..][..4];
        if hex.None? { return None; }
        if 0xD800 <= hex.value <= 0xDFFF { return None; }  // surrogates: the sidecar emits plain UTF-8
        assert here[6..] == Rest();
        return Some(Utf8(hex.value));
      }
      var meaning := Unescape(escape);
      if meaning.None? { return None; }
      return Some([meaning.value]);
    }

    lemma PrependNothing(r: Read<bytes>)
      ensures Prepend([], r) == r
    {
      if r.Good? { assert [] + r.value == r.value; }
    }

    lemma PrependTwice(a: bytes, b: bytes, r: Read<bytes>)
      ensures Prepend(a, Prepend(b, r)) == Prepend(a + b, r)
    {
      if r.Good? { Assoc(a, b, r.value); }
    }

    /** Four hexadecimal digits; the position only moves when all four are there. */
    method ParseHex4() returns (code: Option<nat>)
      requires Valid()
      modifies this
      ensures Valid()
      ensures code.Some? <==> 4 <= |old(Rest())| && IsHex4(old(Rest())[..4])
      ensures code.Some? ==> code.value == CodePoint(old(Rest())[..4]) && position == old(position) + 4
      ensures code.None? ==> position == old(position)
    {
      if position + 4 > |input| { return None; }
      ghost var h := Rest()[..4];
      var value: nat := 0;
      for i := 0 to 4
        invariant forall j | 0 <= j < i :: IsHex(h[j])
        invariant i >= 1 ==> IsHex(h[0])
        invariant i == 0 ==> value == 0
        invariant i == 1 ==> value == HexValue(h[0])
        invariant i == 2 ==> value == HexValue(h[0]) * 16 + HexValue(h[1])
        invariant i == 3 ==> value == (HexValue(h[0]) * 16 + HexValue(h[1])) * 16 + HexValue(h[2])
        invariant i == 4 ==> value == CodePoint(h)
      {
        var c := input[position + i];
        assert c == h[i];
        if !IsHex(c) { return None; }
        value := value * 16 + HexValue(c);
      }
      position := position + 4;
      return Some(value);
    }
  }

  /** A method's result and the bytes it left agree with a reading function's. */
  ghost predicate Agrees<T>(result: Option<T>, read: Read<T>, rest: bytes) {
    match read
    case Bad => result.None?
    case Good(value, after) => result == Some(value) && rest == after
  }
}
