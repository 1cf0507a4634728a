/**
 * UTF-8 from the side of the code points (RFC 3629 section 3), and that the byte-side readings agree with it: strict
 * validity, the cutter's sequences, the count of characters, and what an escape stands for.
 */
module Utf8CodePoints {
  import opened Bytes
  import opened FlatJson
  import opened JsonWriter
  import opened Utf8Text
  import opened SidecarContextReader

  /** Every number up to 10FFFF that is not a surrogate. */
  predicate Scalar(cp: nat) { cp < 0xD800 || 0xDFFF < cp < 0x11_0000 }

  function Encoded(cp: nat): (s: bytes)
    requires Scalar(cp)
  {
    if cp < 0x80 then [cp as char]
    else if cp < 0x800 then [(0xC0 + cp / 0x40) as char, Six(cp)]
    else if cp < 0x1_0000 then [(0xE0 + cp / 0x1000) as char, Six(cp / 0x40), Six(cp)]
    else [(0xF0 + cp / 0x4_0000) as char, Six(cp / 0x1000), Six(cp / 0x40), Six(cp)]
  }

  /** A continuation byte with the six low bits. */
  function Six(n: nat): char { (0x80 + n % 0x40) as char }

  predicate Scalars(cps: seq<nat>) { forall i | 0 <= i < |cps| :: Scalar(cps[i]) }

  function EncodedAll(cps: seq<nat>): bytes
    requires Scalars(cps)
  {
    if cps == [] then [] else Encoded(cps[0]) + EncodedAll(cps[1..])
  }

  // ---- One code point ----

  /** The encoding of a code point is one sequence, whole and valid, and one character. */
  lemma EncodedIsOneSequence(cp: nat, rest: bytes)
    requires Scalar(cp)
    ensures var s := Encoded(cp) + rest;
      StartsValid(s) && Width(s[0]) == |Encoded(cp)| && s[Width(s[0])..] == rest
    ensures Characters(Encoded(cp) + rest) == 1 + Characters(rest)
  {
    var e, s := Encoded(cp), Encoded(cp) + rest;
    assert s[|e|..] == rest;
    assert forall i | 0 <= i < |e| :: s[i] == e[i];
    EncodedStarts(cp);
    OneCharacter(s, |e|);
  }

  lemma EncodedStarts(cp: nat)
    requires Scalar(cp)
    ensures StartsValid(Encoded(cp)) && Width(Encoded(cp)[0]) == |Encoded(cp)|
    ensures !IsContinuation(Encoded(cp)[0])
  {
  }

  lemma {:induction false} ContinuationsDoNotCount(s: bytes, k: nat)
    requires k <= |s| && forall i | 0 <= i < k :: IsContinuation(s[i])
    ensures Characters(s) == Characters(s[k..])
    decreases k
  {
    if k > 0 {
      ContinuationsDoNotCount(s[1..], k - 1);
      assert s[1..][k - 1..] == s[k..];
    }
  }

  lemma OneCharacter(s: bytes, w: nat)
    requires 1 <= w <= |s| && !IsContinuation(s[0]) && forall i | 1 <= i < w :: IsContinuation(s[i])
    ensures Characters(s) == 1 + Characters(s[w..])
  {
    ContinuationsDoNotCount(s[1..], w - 1);
    assert s[1..][w - 1..] == s[w..];
  }

  /** Two, three, and four groups of six bits, put together and taken apart again. */
  lemma SixBits(a: nat, b: nat)
    requires b < 0x40
    ensures (a * 0x40 + b) / 0x40 == a && (a * 0x40 + b) % 0x40 == b
  {
  }

  lemma TwelveBits(a: nat, b: nat, c: nat)
    requires b < 0x40 && c < 0x40
    ensures var n := (a * 0x40 + b) * 0x40 + c;
      n / 0x1000 == a && n / 0x40 == a * 0x40 + b && n % 0x40 == c && n / 0x40 % 0x40 == b
  {
    SixBits(a * 0x40 + b, c);
    SixBits(a, b);
  }

  lemma EighteenBits(a: nat, b: nat, c: nat, d: nat)
    requires b < 0x40 && c < 0x40 && d < 0x40
    ensures var n := ((a * 0x40 + b) * 0x40 + c) * 0x40 + d;
      && n / 0x4_0000 == a && n / 0x1000 == a * 0x40 + b && n / 0x1000 % 0x40 == b
      && n / 0x40 % 0x40 == c && n % 0x40 == d
  {
    TwelveBits(a * 0x40 + b, c, d);
    SixBits(a, b);
  }

  /** And every valid start is the encoding of a code point. */
  lemma StartIsEncoded(s: bytes) returns (cp: nat)
    requires StartsValid(s)
    ensures Scalar(cp) && Encoded(cp) == s[..Width(s[0])]
  {
    var w, lead := Width(s[0]), s[0] as int;
    if w == 1 { cp := lead; }
    else if w == 2 { cp := OfTwo(s); }
    else if w == 3 { cp := OfThree(s); }
    else { cp := OfFour(s); }
  }

  lemma OfTwo(s: bytes) returns (cp: nat)
    requires StartsValid(s) && Width(s[0]) == 2
    ensures Scalar(cp) && Encoded(cp) == s[..2]
  {
    cp := (s[0] as int - 0xC0) * 0x40 + Low(s[1]);
    SixBits(s[0] as int - 0xC0, Low(s[1]));
  }

  lemma OfThree(s: bytes) returns (cp: nat)
    requires StartsValid(s) && Width(s[0]) == 3
    ensures Scalar(cp) && Encoded(cp) == s[..3]
  {
    var a, b, c := s[0] as int - 0xE0, Low(s[1]), Low(s[2]);
    cp := (a * 0x40 + b) * 0x40 + c;
    TwelveBits(a, b, c);
  }

  lemma OfFour(s: bytes) returns (cp: nat)
    requires StartsValid(s) && Width(s[0]) == 4
    ensures Scalar(cp) && Encoded(cp) == s[..4]
  {
    var a, b, c, d := s[0] as int - 0xF0, Low(s[1]), Low(s[2]), Low(s[3]);
    cp := ((a * 0x40 + b) * 0x40 + c) * 0x40 + d;
    EighteenBits(a, b, c, d);
  }

  function Low(c: char): (n: nat)
    requires IsContinuation(c)
    ensures n < 0x40
  {
    c as int - 0x80
  }

  // ---- Whole texts ----

  /** A list of code points is encoded validly, and counted right. */
  lemma {:induction false} EncodedAllIsValid(cps: seq<nat>)
    requires Scalars(cps)
    ensures Utf8Valid(EncodedAll(cps)) && Whole(EncodedAll(cps)) && Characters(EncodedAll(cps)) == |cps|
  {
    if cps != [] {
      hide Encoded, StartsValid, Characters;
      EncodedAllIsValid(cps[1..]);
      EncodedIsOneSequence(cps[0], EncodedAll(cps[1..]));
      StartsValidIsWhole(EncodedAll(cps));
    }
  }

  lemma StartsValidIsWhole(s: bytes)
    ensures StartsValid(s) ==> StartsWhole(s)
  {
  }

  /** And nothing else is valid. */
  lemma {:induction false} ValidIsEncoded(s: bytes) returns (cps: seq<nat>)
    requires Utf8Valid(s)
    ensures Scalars(cps) && EncodedAll(cps) == s
  {
    cps := [];
    if s != [] {
      hide Encoded;
      var w := Width(s[0]);
      var first := StartIsEncoded(s);
      var rest := ValidIsEncoded(s[w..]);
      cps := [first] + rest;
      assert cps[1..] == rest && s == s[..w] + s[w..];
    }
  }

  /** Valid text is exactly what code points encode to. */
  lemma ValidIffEncoded(s: bytes)
    ensures Utf8Valid(s) <==> exists cps: seq<nat> :: Scalars(cps) && EncodedAll(cps) == s
  {
    hide EncodedAll, Utf8Valid;
    if Utf8Valid(s) { var cps := ValidIsEncoded(s); }
    forall cps: seq<nat> | Scalars(cps) && EncodedAll(cps) == s ensures Utf8Valid(s) { EncodedAllIsValid(cps); }
  }

  // ---- Escapes ----

  function HexOf(n: nat, upper: bool): char
    requires n < 16
  {
    if n < 10 then ('0' as int + n) as char else ((if upper then 'A' else 'a') as int + n - 10) as char
  }

  function Hex4(n: nat, upper: bool): bytes
    requires n < 0x1_0000
  {
    [HexOf(n / 0x1000, upper), HexOf(n / 0x100 % 16, upper), HexOf(n / 16 % 16, upper), HexOf(n % 16, upper)]
  }

  lemma HexOfIsHex(n: nat, upper: bool)
    requires n < 16
    ensures IsHex(HexOf(n, upper)) && HexValue(HexOf(n, upper)) == n
  {
  }

  lemma Hex4IsItsNumber(n: nat, upper: bool)
    requires n < 0x1_0000
    ensures IsHex4(Hex4(n, upper)) && CodePoint(Hex4(n, upper)) == n
  {
    HexOfIsHex(n / 0x1000, upper);
    HexOfIsHex(n / 0x100 % 16, upper);
    HexOfIsHex(n / 16 % 16, upper);
    HexOfIsHex(n % 16, upper);
    FourNibbles(n);
    hide HexOf, HexValue, IsHex;
  }

  lemma FourNibbles(n: nat)
    ensures ((n / 0x1000 * 16 + n / 0x100 % 16) * 16 + n / 16 % 16) * 16 + n % 16 == n
  {
    assert n / 0x100 == n / 16 / 16 && n / 0x1000 == n / 0x100 / 16;
  }

  /** An escape in either case of hexadecimal stands for the encoding of its code point; a surrogate for nothing. */
  lemma EscapeIsItsCodePoint(n: nat, upper: bool, tail: bytes)
    requires n < 0x1_0000
    ensures ReadItems(['\\', 'u'] + Hex4(n, upper) + tail)
         == if Scalar(n) then Prepend(Encoded(n), ReadItems(tail)) else Bad
  {
    var hex := Hex4(n, upper);
    var s := ['\\', 'u'] + hex + tail;
    Hex4IsItsNumber(n, upper);
    hide HexOf, Hex4, IsHex4, CodePoint;
    assert s[0] == '\\' && s[1] == 'u' && s[2..6] == hex && s[6..] == tail;
    if Scalar(n) { assert Utf8(n) == Encoded(n); }
  }

  /** The short escapes, all eight of them. */
  lemma ShortEscapes(c: char, tail: bytes)
    requires c != 'u'
    ensures var means := if c == '"' || c == '\\' || c == '/' then [c] else if c == 'b' then [8 as char]
        else if c == 'f' then [12 as char] else if c == 'n' then [10 as char] else if c == 'r' then [13 as char]
        else if c == 't' then [9 as char] else [];
      ReadItems(['\\', c] + tail) == if means == [] then Bad else Prepend(means, ReadItems(tail))
  {
    var s := ['\\', c] + tail;
    assert s[0] == '\\' && s[1] == c && s[2..] == tail;
  }
}
