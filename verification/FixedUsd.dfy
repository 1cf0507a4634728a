/**
 * The one money spelling that crosses the wire: dollars with exactly six fractional digits.
 * The sidecar renders it from nano-USD, the worldserver only checks its shape; the two agree
 * on exactly the same strings.
 */
module FixedUsd {
  import opened Bytes
  import opened Wrappers
  import opened Budget

  predicate Storable(nano: int) {
    0 <= nano <= MAX_STORABLE_NANO && nano % STORAGE_SCALE_NANO == 0
  }

  /** The k low digits of n, zero padded on the left. */
  function Padded(n: nat, k: nat): (s: bytes)
    ensures |s| == k && AllDigits(s)
  {
    if k == 0 then [] else Padded(n / 10, k - 1) + [DigitChar(n % 10)]
  }

  /** Refuses an amount that is not an exact stored microdollar amount. */
  function NanoToFixedUsd(nano: int): (r: Option<bytes>)
    ensures r.Some? <==> Storable(nano)
  {
    if nano < 0 || nano > MAX_STORABLE_NANO || nano % STORAGE_SCALE_NANO != 0 then None
    else Some(Decimal(nano / NANO) + "." + Padded(nano % NANO / STORAGE_SCALE_NANO, 6))
  }

  /** The first dot, or the length when there is none. */
  function FindDot(value: bytes): (dot: nat)
    ensures dot <= |value| && (dot < |value| ==> value[dot] == '.') && forall i | 0 <= i < dot :: value[i] != '.'
  {
    if value == [] then 0 else if value[0] == '.' then 0 else 1 + FindDot(value[1..])
  }

  /** The worldserver's check, in its own order. */
  method FixedMicrodollarUsdIsValid(value: bytes) returns (valid: bool)
    ensures valid == Accepted(value)
  {
    hide Accepted;
    AcceptedAroundTheDot(value);
    var dot := FindDot(value);
    if dot == |value| || dot == 0 || dot > 6 || |value| != dot + 7 { return false; }
    if dot > 1 && value[0] == '0' { return false; }
    for index := 0 to |value|
      invariant forall i | 0 <= i < index && i != dot :: IsDigit(value[i])
    {
      if index == dot { continue; }
      if value[index] < '0' || value[index] > '9' { return false; }
    }
    return true;
  }

  /** The shape: one to six whole digits with no redundant zero, a dot, six digits. */
  predicate Accepted(value: bytes) {
    exists dot | 1 <= dot <= 6 :: HasShape(value, dot)
  }

  predicate HasShape(value: bytes, dot: nat)
    requires 1 <= dot
  {
    && |value| == dot + 7 && value[dot] == '.'
    && (dot > 1 ==> value[0] != '0')
    && AllDigits(value[..dot]) && AllDigits(value[dot + 1..])
  }

  /** The first dot is the only place the shape can be around. */
  lemma AcceptedAroundTheDot(value: bytes)
    ensures var dot := FindDot(value);
      Accepted(value) <==>
        && 1 <= dot <= 6 && |value| == dot + 7 && (dot > 1 ==> value[0] != '0')
        && forall i | 0 <= i < |value| && i != dot :: IsDigit(value[i])
  {
    var first := FindDot(value);
    if Accepted(value) {
      var dot: nat :| 1 <= dot <= 6 && HasShape(value, dot);
      ShapeIsAround(value, dot);
    }
    if 1 <= first <= 6 && |value| == first + 7 && (first > 1 ==> value[0] != '0')
      && forall i | 0 <= i < |value| && i != first :: IsDigit(value[i])
    {
      DotIsAt(value, first);
    }
  }

  lemma ShapeIsAround(value: bytes, dot: nat)
    requires 1 <= dot <= 6 && HasShape(value, dot)
    ensures FindDot(value) == dot && forall i | 0 <= i < |value| && i != dot :: IsDigit(value[i])
  {
    forall i | 0 <= i < |value| && i != dot ensures IsDigit(value[i]) {
      if i < dot { assert value[..dot][i] == value[i]; } else { assert value[dot + 1..][i - dot - 1] == value[i]; }
    }
    hide HasShape;
  }

  lemma DotIsAt(value: bytes, dot: nat)
    requires 1 <= dot <= 6 && |value| == dot + 7 && value[dot] == '.'
    requires dot > 1 ==> value[0] != '0'
    requires forall i | 0 <= i < |value| && i != dot :: IsDigit(value[i])
    ensures HasShape(value, dot)
  {
  }

  lemma {:induction false} NumeralOfPadded(n: nat, k: nat)
    requires n < Pow10(k)
    ensures Numeral(Padded(n, k)) == n
  {
    if k > 0 {
      NumeralOfPadded(n / 10, k - 1);
      assert Padded(n, k)[..k - 1] == Padded(n / 10, k - 1);
    }
  }

  lemma {:induction false} PaddedOfNumeral(s: bytes)
    requires AllDigits(s)
    ensures Padded(Numeral(s), |s|) == s
  {
    if s != [] {
      PaddedOfNumeral(s[..|s| - 1]);
      assert Numeral(s) / 10 == Numeral(s[..|s| - 1]);
    }
  }

  /** Every stored amount is spelled in a way the worldserver accepts. */
  lemma RenderedIsAccepted(nano: int)
    requires Storable(nano)
    ensures Accepted(NanoToFixedUsd(nano).value)
  {
    var whole := Decimal(nano / NANO);
    var value := NanoToFixedUsd(nano).value;
    Pow10Twenty();
    DecimalLength(nano / NANO, 6);
    NumeralOfDecimal(nano / NANO);
    assert value[..|whole|] == whole && value[|whole| + 1..] == Padded(nano % NANO / STORAGE_SCALE_NANO, 6);
    assert HasShape(value, |whole|);
  }

  /** A spelling means its amount: the dollars before the point and the microdollars after it. */
  lemma RenderedMeansItsAmount(nano: int)
    requires Storable(nano)
    ensures var value := NanoToFixedUsd(nano).value;
      && |value| > 7 && value[|value| - 7] == '.' && AllDigits(value[..|value| - 7]) && AllDigits(value[|value| - 6..])
      && 1_000_000 * Numeral(value[..|value| - 7]) + Numeral(value[|value| - 6..]) == nano / 1_000
  {
    var value := NanoToFixedUsd(nano).value;
    var whole, fraction := nano / NANO, nano % NANO / STORAGE_SCALE_NANO;
    assert value[..|value| - 7] == Decimal(whole) && value[|value| - 6..] == Padded(fraction, 6);
    NumeralOfDecimal(whole);
    Pow10Twenty();
    NumeralOfPadded(fraction, 6);
  }

  /** Two stored amounts never share a spelling. */
  lemma RenderingIsInjective(m: int, n: int)
    requires Storable(m) && Storable(n) && NanoToFixedUsd(m) == NanoToFixedUsd(n)
    ensures m == n
  {
    hide NanoToFixedUsd;
    RenderedMeansItsAmount(m);
    RenderedMeansItsAmount(n);
  }

  /** And every spelling the worldserver accepts is the rendering of a stored amount. */
  lemma AcceptedIsRendered(value: bytes) returns (nano: int)
    requires Accepted(value)
    ensures Storable(nano) && NanoToFixedUsd(nano) == Some(value)
  {
    hide Decimal, Pow10, Numeral, Padded, Storable;
    var dot: nat :| 1 <= dot <= 6 && HasShape(value, dot);
    var whole, fraction := Numeral(value[..dot]), Numeral(value[dot + 1..]);
    NumeralBound(value[..dot]);
    NumeralBound(value[dot + 1..]);
    Pow10Twenty();
    Pow10Monotone(dot, 6);
    DecimalOfNumeral(value[..dot]);
    PaddedOfNumeral(value[dot + 1..]);
    nano := whole * NANO + fraction * STORAGE_SCALE_NANO;
    SplitNano(whole, fraction);
    assert value == value[..dot] + "." + value[dot + 1..];
  }

  lemma SplitNano(whole: nat, fraction: nat)
    requires whole < 1_000_000 && fraction < 1_000_000
    ensures var nano := whole * NANO + fraction * STORAGE_SCALE_NANO;
      Storable(nano) && nano / NANO == whole && nano % NANO / STORAGE_SCALE_NANO == fraction
  {
    assert (whole * NANO + fraction * STORAGE_SCALE_NANO) / NANO == whole;
  }

  lemma {:induction false} Pow10Monotone(a: nat, b: nat)
    requires a <= b
    ensures Pow10(a) <= Pow10(b)
  {
    if a > 0 { Pow10Monotone(a - 1, b - 1); }
    else if b > 0 { Pow10Monotone(0, b - 1); }
  }

  /** What a settlement stores can always be spelled on the wire. */
  lemma StoredCostIsRenderable(actual: int)
    ensures Storable(StorableActualCost(actual)) && NanoToFixedUsd(StorableActualCost(actual)).Some?
  {
    StorableIsStorable(actual);
  }
}
