/**
 * Cutting text on character boundaries. The cutter walks whole UTF-8 sequences by their lead-byte
 * shapes (RFC 3629 section 3) without excluding overlong forms or surrogates; the strict validity
 * used when a line is read does exclude them.
 */
module Utf8Text {
  import opened Bytes

  /** The bit masks of the program, as the ranges they select; zero for a byte that starts nothing. */
  function Width(lead: char): nat {
    var b := lead as int;
    if b < 0x80 then 1
    else if 0xC0 <= b < 0xE0 then 2
    else if 0xE0 <= b < 0xF0 then 3
    else if 0xF0 <= b < 0xF8 then 4
    else 0
  }

  predicate IsContinuation(c: char) { 0x80 <= c as int < 0xC0 }

  predicate StartsWhole(s: bytes) {
    && s != [] && Width(s[0]) > 0 && Width(s[0]) <= |s|
    && forall i | 1 <= i < Width(s[0]) :: IsContinuation(s[i])
  }

  /** A concatenation of structurally whole sequences. */
  predicate Whole(s: bytes) {
    s == [] || (StartsWhole(s) && Whole(s[Width(s[0])..]))
  }

  /** The cut, sequence by sequence. */
  function Cut(text: bytes, limit: nat): (kept: nat)
    ensures kept <= |text| && kept <= limit
  {
    if !StartsWhole(text) || Width(text[0]) > limit then 0
    else Width(text[0]) + Cut(text[Width(text[0])..], limit - Width(text[0]))
  }

  method WidthOf(lead: char) returns (width: nat)
    ensures width == Width(lead) && width <= 4
  {
    var b := lead as int;
    if b < 0x80 { return 1; }
    if 0xC0 <= b < 0xE0 { return 2; }
    if 0xE0 <= b < 0xF0 { return 3; }
    if 0xF0 <= b < 0xF8 { return 4; }
    return 0;
  }

  /** Whether the sequence of the given width at a position has all its continuation bytes. */
  method FollowedByContinuations(text: bytes, at: nat, width: nat) returns (complete: bool)
    requires 1 <= width && at + width <= |text|
    ensures complete <==> forall i | 1 <= i < width :: IsContinuation(text[at..][i])
  {
    ghost var here := text[at..];
    complete := true;
    for offset := 1 to width
      invariant complete <==> forall i | 1 <= i < offset :: IsContinuation(here[i])
    {
      var c := text[at + offset];
      assert c == here[offset];
      if c as int < 0x80 || c as int >= 0xC0 { complete := false; }
    }
  }

  lemma CutAdvances(text: bytes, limit: nat)
    requires StartsWhole(text) && Width(text[0]) <= limit
    ensures Cut(text, limit) == Width(text[0]) + Cut(text[Width(text[0])..], limit - Width(text[0]))
  {
  }

  lemma CutStops(text: bytes, limit: nat)
    ensures !StartsWhole(text) || Width(text[0]) > limit ==> Cut(text, limit) == 0
  {
  }

  method Utf8PrefixLength(text: bytes, limit: nat) returns (kept: nat)
    ensures kept == Cut(text, limit) && kept <= |text| && kept <= limit
    ensures Whole(text[..kept])
    ensures forall k | 0 <= k <= |text| && k <= limit && Whole(text[..k]) :: k <= kept
  {
    hide Width, Whole, Cut;
    kept := 0;
    while kept < |text|
      invariant kept <= |text| && kept <= limit
      invariant Cut(text, limit) == kept + Cut(text[kept..], limit - kept)
    {
      ghost var here := text[kept..];
      assert here[0] == text[kept];
      var width := WidthOf(text[kept]);
      CutStops(here, limit - kept);
      if width == 0 { break; }
      if kept + width > |text| || kept + width > limit { break; }
      var complete := FollowedByContinuations(text, kept, width);
      if !complete { break; }
      assert here[width..] == text[kept + width..];
      CutAdvances(here, limit - kept);
      kept := kept + width;
    }
    if kept == |text| { CutStops(text[kept..], limit - kept); }
    CutIsWhole(text, limit);
    forall k | 0 <= k <= |text| && k <= limit && Whole(text[..k]) ensures k <= kept { CutIsLongest(text, limit, k); }
  }

  lemma {:induction false} CutIsWhole(text: bytes, limit: nat)
    ensures Whole(text[..Cut(text, limit)])
  {
    if StartsWhole(text) && Width(text[0]) <= limit {
      var w := Width(text[0]);
      CutIsWhole(text[w..], limit - w);
      var prefix := text[..Cut(text, limit)];
      assert prefix[w..] == text[w..][..Cut(text[w..], limit - w)];
    }
  }

  /** No whole prefix within the limit is longer. */
  lemma {:induction false} CutIsLongest(text: bytes, limit: nat, k: nat)
    requires k <= |text| && k <= limit && Whole(text[..k])
    ensures k <= Cut(text, limit)
  {
    if k > 0 {
      var w := Width(text[0]);
      assert text[..k][0] == text[0];
      assert forall i | 0 <= i < k :: text[..k][i] == text[i];
      assert text[..k][w..] == text[w..][..k - w];
      CutIsLongest(text[w..], limit - w, k - w);
    }
  }

  /** Cutting what was already cut keeps all of it. */
  lemma CutIsIdempotent(text: bytes, limit: nat)
    ensures Cut(text[..Cut(text, limit)], limit) == Cut(text, limit)
  {
    var kept := text[..Cut(text, limit)];
    CutIsWhole(text, limit);
    assert kept[..|kept|] == kept;
    CutIsLongest(kept, limit, |kept|);
  }

  /** On whole text the cut either keeps everything or stops within three bytes of the limit. */
  lemma {:induction false} CutLosesLessThanFour(text: bytes, limit: nat)
    requires Whole(text)
    ensures Cut(text, limit) == |text| || limit < Cut(text, limit) + 4
  {
    if text != [] && Width(text[0]) <= limit {
      CutLosesLessThanFour(text[Width(text[0])..], limit - Width(text[0]));
    }
  }

  // ---- Strict validity ----

  /** The second byte is held to ranges that rule out overlong forms, surrogates, and values past U+10FFFF. */
  predicate StartsValid(s: bytes) {
    && StartsWhole(s)
    && var lead := s[0] as int;
       && lead != 0xC0 && lead != 0xC1 && lead <= 0xF4
       && (lead == 0xE0 ==> s[1] as int >= 0xA0)
       && (lead == 0xED ==> s[1] as int < 0xA0)
       && (lead == 0xF0 ==> s[1] as int >= 0x90)
       && (lead == 0xF4 ==> s[1] as int < 0x90)
  }

  predicate Utf8Valid(s: bytes) {
    s == [] || (StartsValid(s) && Utf8Valid(s[Width(s[0])..]))
  }

  /** A cut of valid text is valid, so a shortened line never carries half a character across the wire. */
  lemma {:induction false} CutOfValidIsValid(text: bytes, limit: nat)
    requires Utf8Valid(text)
    ensures Utf8Valid(text[..Cut(text, limit)])
  {
    if text != [] && Width(text[0]) <= limit {
      var w := Width(text[0]);
      CutOfValidIsValid(text[w..], limit - w);
      var prefix := text[..Cut(text, limit)];
      assert prefix[w..] == text[w..][..Cut(text[w..], limit - w)];
      assert forall i | 0 <= i < w :: prefix[i] == text[i];
    }
  }

  predicate IsSingleCleanLine(text: bytes) {
    (forall i | 0 <= i < |text| :: text[i] as int >= 0x20) && Utf8Valid(text)
  }
}
