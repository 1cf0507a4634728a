/**
 * Byte strings and decimal digits. A byte string is written as a Dafny string, one character
 * per byte with the byte as its code; nothing proved here needs the codes to stay below 256.
 */
module Bytes {
  type bytes = string

  const UINT64_MAX: nat := 0xFFFF_FFFF_FFFF_FFFF

  predicate IsDigit(c: char) { '0' <= c <= '9' }

  predicate AllDigits(s: bytes) { forall i | 0 <= i < |s| :: IsDigit(s[i]) }

  function DigitChar(d: nat): char
    requires d < 10
  {
    ('0' as int + d) as char
  }

  function DigitValue(c: char): nat
    requires IsDigit(c)
  {
    c as int - '0' as int
  }

  /** The decimal rendering both sides use for an unsigned integer: no sign, no leading zero. */
  function Decimal(n: nat): (s: bytes)
    ensures s != [] && AllDigits(s)
  {
    if n < 10 then [DigitChar(n)] else Decimal(n / 10) + [DigitChar(n % 10)]
  }

  /** The number a digit string denotes, most significant digit first. */
  function Numeral(s: bytes): nat
    requires AllDigits(s)
  {
    if s == [] then 0 else 10 * Numeral(s[..|s| - 1]) + DigitValue(s[|s| - 1])
  }

  function Pow10(k: nat): nat { if k == 0 then 1 else 10 * Pow10(k - 1) }

  lemma {:induction false} NumeralOfDecimal(n: nat)
    ensures Numeral(Decimal(n)) == n
    ensures Decimal(n)[0] == '0' ==> n == 0
  {
    if n >= 10 {
      NumeralOfDecimal(n / 10);
      assert Decimal(n)[..|Decimal(n)| - 1] == Decimal(n / 10);
      assert Decimal(n)[0] == Decimal(n / 10)[0];
    } else {
      assert Decimal(n)[..0] == [];
    }
  }

  lemma DecimalInjective(m: nat, n: nat)
    requires Decimal(m) == Decimal(n)
    ensures m == n
  {
    NumeralOfDecimal(m);
    NumeralOfDecimal(n);
  }

  lemma {:induction false} DecimalLength(n: nat, k: nat)
    requires 0 < k && n < Pow10(k)
    ensures |Decimal(n)| <= k
  {
    if n >= 10 {
      assert k > 1 by { assert Pow10(1) == 10 * Pow10(0); }
      DecimalLength(n / 10, k - 1);
    }
  }

  lemma {:induction false} NumeralBound(s: bytes)
    requires AllDigits(s)
    ensures Numeral(s) < Pow10(|s|)
  {
    if s != [] { NumeralBound(s[..|s| - 1]); }
  }

  /** A digit string without a redundant leading zero is the rendering of what it denotes. */
  lemma {:induction false} DecimalOfNumeral(s: bytes)
    requires AllDigits(s) && s != [] && (|s| > 1 ==> s[0] != '0')
    ensures Decimal(Numeral(s)) == s
  {
    var front, last := s[..|s| - 1], s[|s| - 1];
    if front == [] {
      assert s == [last];
    } else {
      DecimalOfNumeral(front);
      assert Numeral(s) / 10 == Numeral(front) && Numeral(s) % 10 == DigitValue(last);
      assert s == front + [last];
    }
  }

  /** A number is at least as long a string as any smaller one, so bounds on value bound length. */
  lemma UInt64Length(n: nat)
    requires n <= UINT64_MAX
    ensures |Decimal(n)| <= 20
  {
    Pow10Twenty();
    DecimalLength(n, 20);
  }

  lemma Pow10Twenty()
    ensures Pow10(6) == 1_000_000
    ensures Pow10(20) == 100_000_000_000_000_000_000
  {
    Pow10Add(10, 10);
    Pow10Add(5, 5);
    Pow10Add(3, 3);
    assert Pow10(5) == 100_000;
    assert Pow10(3) == 1_000;
  }

  lemma {:induction false} Pow10Add(a: nat, b: nat)
    ensures Pow10(a + b) == Pow10(a) * Pow10(b)
  {
    if a > 0 {
      Pow10Add(a - 1, b);
      assert a + b - 1 == a - 1 + b;
    }
  }
}
