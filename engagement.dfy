/**
 * utils.parse_engagement_numbers: reads counts such as "1,234", "1.5K" or "2M"
 * as shown next to a tweet.
 */
module Engagement {
  import opened Wrappers
  import opened Text

  /** A decimal literal: sign, the digits before the point and the digits after it. */
  datatype Decimal = Decimal(negative: bool, whole: string, fraction: string)

  function Pow10(n: nat): (p: nat)
    ensures p >= 1
  {
    if n == 0 then 1 else 10 * Pow10(n - 1)
  }

  /** The exact value of a decimal literal. */
  function DecimalValue(d: Decimal): real
    requires AllDigits(d.whole) && AllDigits(d.fraction)
  {
    var m := DigitsValue(d.whole) as real + DigitsValue(d.fraction) as real / Pow10(|d.fraction|) as real;
    if d.negative then -m else m
  }

  /**
   * `float(s)` on plain decimal literals: surrounding whitespace, an optional
   * sign, digits, and an optional point followed by digits, with at least one
   * digit in all; anything else is None (Python's ValueError).
   */
  function ParseDecimal(s: string): Option<Decimal> {
    ParseSigned(Strip(s))
  }

  function ParseSigned(t: string): Option<Decimal> {
    if t != [] && (t[0] == '-' || t[0] == '+') then ParseUnsigned(t[0] == '-', t[1..])
    else ParseUnsigned(false, t)
  }

  function ParseUnsigned(negative: bool, body: string): (r: Option<Decimal>)
    ensures r.Some? ==> AllDigits(r.value.whole) && AllDigits(r.value.fraction)
    ensures r.Some? ==> r.value.whole != [] || r.value.fraction != []
  {
    var k := SpanDigits(body);
    ReadFraction(negative, body[..k], body[k..])
  }

  /** After the digits before the point: nothing, or a point and nothing but digits. */
  function ReadFraction(negative: bool, whole: string, rest: string): (r: Option<Decimal>)
    requires AllDigits(whole)
    ensures r.Some? ==> r.value.whole == whole && AllDigits(r.value.fraction)
    ensures r.Some? ==> r.value.whole != [] || r.value.fraction != []
  {
    if rest == [] then
      if whole == [] then None else Some(Decimal(negative, whole, ""))
    else if rest[0] != '.' then None
    else
      var f := rest[1..];
      if SpanDigits(f) != |f| || (whole == [] && f == []) then None
      else
        assert f[..|f|] == f;
        Some(Decimal(negative, whole, f))
  }

  /** `int(x)`: drops the fractional part, rounding toward zero. */
  function Trunc(x: real): (n: int)
    ensures x >= 0.0 ==> n as real <= x < n as real + 1.0
    ensures x < 0.0 ==> n as real - 1.0 < x <= n as real
  {
    if x >= 0.0 then x.Floor else -((-x).Floor)
  }

  function Zeros(n: nat): (z: string)
    ensures |z| == n && AllDigits(z)
  {
    seq(n, _ => '0')
  }

  /** The first `k` digits after the point, padded with zeros: the digits a shift by `k` places moves in front of it. */
  function Pad(f: string, k: nat): (p: string)
    requires AllDigits(f)
    ensures |p| == k && AllDigits(p)
  {
    if k <= |f| then f[..k] else f + Zeros(k - |f|)
  }

  /**
   * `int(x * 10^k)` for the decimal literal `x`, computed on its digits: the
   * point moves `k` places to the right and what remains after it is dropped.
   * ShiftIsTruncatedProduct shows this is the exact product, truncated
   * toward zero.
   */
  function ShiftedValue(d: Decimal, k: nat): int
    requires AllDigits(d.whole) && AllDigits(d.fraction)
  {
    var p := Pad(d.fraction, k);
    AllDigitsAppend(d.whole, p);
    var v: int := DigitsValue(d.whole + p);
    if d.negative then -v else v
  }

  lemma AllDigitsAppend(a: string, b: string)
    requires AllDigits(a) && AllDigits(b)
    ensures AllDigits(a + b)
  {
  }

  /** The power of ten a trailing K, M or B (in either case) stands for: 3, 6 or 9. */
  function SuffixExponent(t: string): Option<nat> {
    if t == [] then None
    else
      var c := UpperChar(t[|t| - 1]);
      if c == 'K' then Some(3)
      else if c == 'M' then Some(6)
      else if c == 'B' then Some(9)
      else None
  }

  /** The text with commas and spaces removed, then stripped. */
  function Compact(text: string): string {
    Strip(RemoveChar(RemoveChar(text, ','), ' '))
  }

  /** utils.parse_engagement_numbers. A text with no digit at all, such as "" or "N/A", reads as 0. */
  function ParseEngagementNumbers(text: string): (r: int)
    ensures !HasDigit(text) ==> r == 0
  {
    if text == "" then 0
    else
      NoDigitCompactReadsZero(text);
      ReadCompact(Compact(text))
  }

  /** A number with a K, M or B suffix when its prefix reads as a decimal; else a plain decimal; else 0. */
  function ReadCompact(t: string): int {
    var e := SuffixExponent(t);
    if e.Some? && ParseDecimal(t[..|t| - 1]).Some? then ShiftedValue(ParseDecimal(t[..|t| - 1]).value, e.value)
    else if ParseDecimal(t).Some? then ShiftedValue(ParseDecimal(t).value, 0)
    else 0
  }

  /** The power of ten a suffix letter stands for. */
  function LetterExponent(c: char): nat {
    if c in "kK" then 3 else if c in "mM" then 6 else 9
  }

  /** Plain counts read back: the decimal notation of `n` gives `n`. */
  lemma PlainCountReadsBack(n: nat)
    ensures ParseEngagementNumbers(NatToString(n)) == n
  {
    var d := NatToString(n);
    CompactOfDigits(d);
    DigitsValueOfNatToString(n);
    ReadPlain(d);
  }

  /** A count with a K, M or B suffix in either case reads as the number times 10^3, 10^6 or 10^9. */
  lemma SuffixedCountReadsBack(n: nat, c: char)
    requires c in "kKmMbB"
    ensures ParseEngagementNumbers(NatToString(n) + [c]) == n * Pow10(LetterExponent(c))
  {
    var d := NatToString(n);
    var k := LetterExponent(c);
    calc {
      ParseEngagementNumbers(d + [c]);
    == { CompactOfSuffixed(d, [], c); assert d + [] + [c] == d + [c]; }
      ReadCompact(d + [] + [c]);
    == { UnsignedDecimal(d, ""); assert d + [] == d; ReadSuffixed(d, [], c); }
      ShiftedValue(Decimal(false, d, ""), k);
    == { ShiftWhole(d, k); }
      DigitsValue(d) * Pow10(k);
    == { DigitsValueOfNatToString(n); }
      n * Pow10(k);
    }
  }

  /**
   * A count with a fraction and a suffix, as in "1.5K": the digits with the
   * point moved three, six or nine places, and what remains after it dropped.
   */
  lemma FractionalCountReadsBack(n: nat, f: string, c: char)
    requires AllDigits(f) && c in "kKmMbB"
    ensures ParseEngagementNumbers(NatToString(n) + "." + f + [c]) ==
      DigitsValue(NatToString(n) + Pad(f, LetterExponent(c)))
  {
    var d := NatToString(n);
    CompactOfFractional(d, f, c);
    ParseOfCompact(d + "." + f + [c]);
    ReadFractional(d, f, c);
    ShiftUnsigned(d, f, LetterExponent(c));
  }

  lemma ParseOfCompact(t: string)
    requires t != "" && Compact(t) == t
    ensures ParseEngagementNumbers(t) == ReadCompact(t)
  {
  }

  lemma CompactOfFractional(d: string, f: string, c: char)
    requires d != [] && AllDigits(d) && AllDigits(f) && c in "kKmMbB"
    ensures Compact(d + "." + f + [c]) == d + "." + f + [c]
  {
    DotDigitsHaveNoSeparator(f);
    CompactOfSuffixed(d, "." + f, c);
    RegroupDot(d, f, c);
  }

  lemma DotDigitsHaveNoSeparator(f: string)
    requires AllDigits(f)
    ensures ',' !in "." + f && ' ' !in "." + f
  {
    forall i | 0 <= i < |"." + f|
      ensures ("." + f)[i] != ',' && ("." + f)[i] != ' '
    {
      if i > 0 {
        assert ("." + f)[i] == f[i - 1];
      }
    }
  }

  lemma RegroupDot(d: string, f: string, c: char)
    ensures d + ("." + f) + [c] == d + "." + f + [c]
  {
  }

  lemma ReadFractional(d: string, f: string, c: char)
    requires d != [] && AllDigits(d) && AllDigits(f) && c in "kKmMbB"
    ensures ReadCompact(d + "." + f + [c]) == ShiftedValue(Decimal(false, d, f), LetterExponent(c))
  {
    var p := d + "." + f;
    UnsignedDecimal(d, f);
    ReadAfterPrefix(p, c);
  }

  lemma ReadAfterPrefix(p: string, c: char)
    requires c in "kKmMbB" && ParseDecimal(p).Some?
    ensures ReadCompact(p + [c]) == ShiftedValue(ParseDecimal(p).value, LetterExponent(c))
  {
    var t := p + [c];
    assert t[..|t| - 1] == p;
    SuffixOfLetter(t, c);
    ReadWithSuffix(t, LetterExponent(c));
  }

  /** The count the test suite pins: "1.5K" is 1500. */
  lemma OnePointFiveK(t: string)
    requires t == "1.5K"
    ensures ParseEngagementNumbers(t) == 1500
  {
    var one := NatToString(1);
    assert one == "1";
    assert t == one + "." + "5" + ['K'];
    FractionalCountReadsBack(1, "5", 'K');
    FifteenHundred();
  }

  lemma FifteenHundred()
    ensures DigitsValue(NatToString(1) + Pad("5", 3)) == 1500
  {
    assert NatToString(1) == "1";
    assert Pad("5", 3) == "500";
    assert NatToString(1) + Pad("5", 3) == "1500";
    assert "1"[..0] == [];
    assert "15"[..1] == "1";
    assert "150"[..2] == "15";
    assert "1500"[..3] == "150";
  }

  lemma ShiftUnsigned(w: string, f: string, k: nat)
    requires AllDigits(w) && AllDigits(f)
    ensures AllDigits(w + Pad(f, k))
    ensures ShiftedValue(Decimal(false, w, f), k) == DigitsValue(w + Pad(f, k))
  {
    AllDigitsAppend(w, Pad(f, k));
  }

  lemma ShiftWhole(w: string, k: nat)
    requires AllDigits(w)
    ensures ShiftedValue(Decimal(false, w, ""), k) == DigitsValue(w) * Pow10(k)
  {
    assert Pad("", k) == Zeros(k);
    DigitsValueOfZeros(w, k);
  }

  lemma ReadPlain(d: string)
    requires d != [] && AllDigits(d)
    ensures ReadCompact(d) == DigitsValue(d)
  {
    NoSuffixAfterDigit(d);
    UnsignedDecimal(d, "");
    ReadNoScale(d, Decimal(false, d, ""));
    ShiftByZero(d);
  }

  lemma ReadSuffixed(d: string, tail: string, c: char)
    requires d != [] && AllDigits(d) && c in "kKmMbB"
    requires ParseDecimal(d + tail).Some?
    ensures ReadCompact(d + tail + [c]) == ShiftedValue(ParseDecimal(d + tail).value, LetterExponent(c))
  {
    var t := d + tail + [c];
    assert t[..|t| - 1] == d + tail;
    SuffixOfLetter(t, c);
    ReadWithSuffix(t, LetterExponent(c));
  }

  lemma SuffixOfLetter(t: string, c: char)
    requires t != [] && t[|t| - 1] == c && c in "kKmMbB"
    ensures SuffixExponent(t) == Some(LetterExponent(c))
  {
  }

  lemma NoSuffixAfterDigit(t: string)
    requires t != [] && IsDigit(t[|t| - 1])
    ensures SuffixExponent(t) == None
  {
  }

  lemma ReadWithSuffix(t: string, e: nat)
    requires SuffixExponent(t) == Some(e)
    requires t != [] && ParseDecimal(t[..|t| - 1]).Some?
    ensures ReadCompact(t) == ShiftedValue(ParseDecimal(t[..|t| - 1]).value, e)
  {
  }

  lemma ShiftByZero(w: string)
    requires AllDigits(w)
    ensures ShiftedValue(Decimal(false, w, ""), 0) == DigitsValue(w)
  {
    assert Pad("", 0) == [];
    assert w + [] == w;
  }

  /** Appending `k` zeros multiplies by 10^k. */
  lemma {:induction false} DigitsValueOfZeros(d: string, k: nat)
    requires AllDigits(d)
    ensures DigitsValue(d + Zeros(k)) == DigitsValue(d) * Pow10(k)
  {
    if k == 0 {
      assert d + Zeros(0) == d;
    } else {
      var s := d + Zeros(k);
      assert s[..|s| - 1] == d + Zeros(k - 1);
      DigitsValueOfZeros(d, k - 1);
    }
  }

  /** Digits, optionally followed by a point and more digits, read as that unsigned decimal. */
  lemma UnsignedDecimal(w: string, f: string)
    requires w != [] && AllDigits(w) && AllDigits(f)
    ensures ParseDecimal(w) == Some(Decimal(false, w, ""))
    ensures ParseDecimal(w + "." + f) == Some(Decimal(false, w, f))
  {
    StripKeeps(w);
    UnsignedDigits(w, []);
    assert w + [] == w;
    var t := w + ("." + f);
    assert t == w + "." + f;
    assert t[0] == w[0];
    StripKeeps(t);
    UnsignedDigits(w, "." + f);
    assert ("." + f)[1..] == f;
    SpanDigitsOfDigitsThen(f, []);
    assert f + [] == f;
  }

  lemma UnsignedDigits(w: string, rest: string)
    requires w != [] && AllDigits(w)
    requires rest == [] || !IsDigit(rest[0])
    ensures ParseSigned(w + rest) == ReadFraction(false, w, rest)
  {
    var t := w + rest;
    assert t[0] == w[0];
    SpanDigitsOfDigitsThen(w, rest);
    assert t[..|w|] == w && t[|w|..] == rest;
  }

  /** Digits, then anything without commas, spaces or whitespace at the end, are their own compact form. */
  lemma CompactOfSuffixed(d: string, tail: string, c: char)
    requires d != [] && AllDigits(d) && c in "kKmMbB"
    requires ',' !in tail && ' ' !in tail
    ensures Compact(d + tail + [c]) == d + tail + [c]
  {
    var t := d + tail + [c];
    SuffixedHasNoSeparator(d, tail, c);
    RemoveAbsentChar(t, ',');
    RemoveAbsentChar(t, ' ');
    assert t[0] == d[0] && t[|t| - 1] == c;
    StripKeeps(t);
  }

  lemma SuffixedHasNoSeparator(d: string, tail: string, c: char)
    requires AllDigits(d) && c in "kKmMbB"
    requires ',' !in tail && ' ' !in tail
    ensures ',' !in d + tail + [c] && ' ' !in d + tail + [c]
  {
    var t := d + tail + [c];
    forall i | 0 <= i < |t|
      ensures t[i] != ',' && t[i] != ' '
    {
      if i < |d| {
        assert t[i] == d[i];
      } else if i < |d| + |tail| {
        assert t[i] == tail[i - |d|];
      } else {
        assert t[i] == c;
      }
    }
  }

  /** A string of digits is its own compact form. */
  lemma CompactOfDigits(d: string)
    requires d != [] && AllDigits(d)
    ensures Compact(d) == d
  {
    assert ',' !in d && ' ' !in d;
    RemoveAbsentChar(d, ',');
    RemoveAbsentChar(d, ' ');
    StripKeeps(d);
  }

  predicate HasDigit(s: string) {
    exists i :: 0 <= i < |s| && IsDigit(s[i])
  }

  lemma NoDigitCompactReadsZero(text: string)
    ensures !HasDigit(text) ==> ReadCompact(Compact(text)) == 0
  {
    if !HasDigit(text) {
      CompactKeepsNoDigit(text);
      ReadCompactNoDigit(Compact(text));
    }
  }

  lemma ReadCompactNoDigit(t: string)
    requires !HasDigit(t)
    ensures ReadCompact(t) == 0
  {
    DecimalNeedsDigit(t);
    if t != [] {
      SliceKeepsNoDigit(t, 0, |t| - 1);
      DecimalNeedsDigit(t[..|t| - 1]);
    }
  }

  lemma CompactKeepsNoDigit(text: string)
    requires !HasDigit(text)
    ensures !HasDigit(Compact(text))
  {
    var r := RemoveChar(RemoveChar(text, ','), ' ');
    RemoveCharKeepsNoDigit(text, ',');
    RemoveCharKeepsNoDigit(RemoveChar(text, ','), ' ');
    StripKeepsNoDigit(r);
  }

  /** Reading a decimal literal needs a digit. */
  lemma DecimalNeedsDigit(s: string)
    requires !HasDigit(s)
    ensures ParseDecimal(s).None?
  {
    var t := Strip(s);
    StripKeepsNoDigit(s);
    if t != [] && (t[0] == '-' || t[0] == '+') {
      SliceKeepsNoDigit(t, 1, |t|);
      UnsignedNeedsDigit(t[0] == '-', t[1..]);
    } else {
      UnsignedNeedsDigit(false, t);
    }
  }

  lemma UnsignedNeedsDigit(negative: bool, body: string)
    requires !HasDigit(body)
    ensures ParseUnsigned(negative, body).None?
  {
    assert SpanDigits(body) == 0;
    assert body[..0] == [];
    if body != [] && body[0] == '.' {
      SliceKeepsNoDigit(body, 1, |body|);
      var f := body[1..];
      if f != [] {
        assert !IsDigit(f[0]);
      }
    }
  }

  lemma SliceKeepsNoDigit(s: string, a: int, b: int)
    requires !HasDigit(s) && 0 <= a <= b <= |s|
    ensures !HasDigit(s[a..b])
  {
    forall i | 0 <= i < b - a
      ensures !IsDigit(s[a..b][i])
    {
      assert s[a..b][i] == s[a + i];
    }
  }

  lemma StripKeepsNoDigit(s: string)
    requires !HasDigit(s)
    ensures !HasDigit(Strip(s))
  {
    StripIsTrimmedSlice(s);
    var a, b :| 0 <= a <= b <= |s| && Strip(s) == s[a..b];
    SliceKeepsNoDigit(s, a, b);
  }

  lemma {:induction false} RemoveCharKeepsNoDigit(s: string, c: char)
    requires !HasDigit(s)
    ensures !HasDigit(RemoveChar(s, c))
  {
    if s != [] {
      SliceKeepsNoDigit(s, 1, |s|);
      RemoveCharKeepsNoDigit(s[1..], c);
      var head: string := if s[0] == c then [] else [s[0]];
      assert RemoveChar(s, c) == head + RemoveChar(s[1..], c);
      assert !IsDigit(s[0]);
    }
  }

  lemma {:induction false} DigitsValueAppend(a: string, b: string)
    requires AllDigits(a) && AllDigits(b)
    ensures AllDigits(a + b)
    ensures DigitsValue(a + b) == DigitsValue(a) * Pow10(|b|) + DigitsValue(b)
    decreases |b|
  {
    if b == [] {
      assert a + b == a;
    } else {
      var b' := b[..|b| - 1];
      var c := b[|b| - 1] as int - '0' as int;
      assert (a + b)[..|a + b| - 1] == a + b';
      assert (a + b)[|a + b| - 1] == b[|b| - 1];
      DigitsValueAppend(a, b');
      assert DigitsValue(a + b) == 10 * (DigitsValue(a) * Pow10(|b'|) + DigitsValue(b')) + c;
      Distrib(DigitsValue(a), Pow10(|b'|), DigitsValue(b'), c);
    }
  }

  lemma Distrib(a: int, p: int, b: int, c: int)
    ensures 10 * (a * p + b) + c == a * (10 * p) + (10 * b + c)
  {
  }

  lemma {:induction false} DigitsValueBound(s: string)
    requires AllDigits(s)
    ensures DigitsValue(s) < Pow10(|s|)
  {
    if s != [] {
      DigitsValueBound(s[..|s| - 1]);
    }
  }

  lemma {:induction false} Pow10Add(a: nat, b: nat)
    ensures Pow10(a + b) == Pow10(a) * Pow10(b)
    decreases a
  {
    if a > 0 {
      Pow10Add(a - 1, b);
      assert Pow10(a + b) == 10 * (Pow10(a - 1) * Pow10(b));
    }
  }

  lemma PadShort(f: string, k: nat) returns (r: nat)
    requires AllDigits(f) && k <= |f|
    ensures DigitsValue(f) == DigitsValue(Pad(f, k)) * Pow10(|f| - k) + r
    ensures r < Pow10(|f| - k)
  {
    assert f == f[..k] + f[k..];
    DigitsValueAppend(f[..k], f[k..]);
    DigitsValueBound(f[k..]);
    r := DigitsValue(f[k..]);
  }

  lemma PadLong(f: string, k: nat)
    requires AllDigits(f) && k > |f|
    ensures DigitsValue(Pad(f, k)) == DigitsValue(f) * Pow10(k - |f|)
  {
    DigitsValueOfZeros(f, k - |f|);
  }

  lemma FloorOfSplit(m: int, y: real)
    requires 0.0 <= y < 1.0
    ensures (m as real + y).Floor == m
  {
  }

  lemma CastMul(a: int, b: int)
    ensures (a * b) as real == a as real * b as real
  {
  }

  lemma FloorShort(w: int, f: int, N: int, q: int, r: int, P: int, Q: int)
    requires P > 0 && Q > 0 && 0 <= r < Q
    requires f == q * Q + r && N == P * Q
    ensures ((w as real + f as real / N as real) * P as real).Floor == w * P + q
  {
    CastMul(q, Q);
    CastMul(P, Q);
    CastMul(w, P);
    RealSplit(w as real, f as real, N as real, q as real, r as real, P as real, Q as real);
    assert 0.0 <= r as real / Q as real < 1.0;
    FloorOfSplit(w * P + q, r as real / Q as real);
  }

  lemma RealSplit(w: real, f: real, N: real, q: real, r: real, P: real, Q: real)
    requires P > 0.0 && Q > 0.0 && f == q * Q + r && N == P * Q
    ensures (w + f / N) * P == w * P + q + r / Q
  {
    assert f / N * P == f / Q;
    assert f / Q == q + r / Q;
  }

  lemma FloorLong(w: int, f: int, N: int, Q: int, K: int)
    requires N > 0 && Q > 0 && K == N * Q
    ensures ((w as real + f as real / N as real) * K as real).Floor == w * K + f * Q
  {
    CastMul(N, Q);
    CastMul(w, K);
    CastMul(f, Q);
    RealScale(w as real, f as real, N as real, Q as real, K as real);
    FloorOfSplit(w * K + f * Q, 0.0);
  }

  lemma RealScale(w: real, f: real, N: real, Q: real, K: real)
    requires N > 0.0 && Q > 0.0 && K == N * Q
    ensures (w + f / N) * K == w * K + f * Q
  {
    assert f / N * K == f * Q;
  }

  /** `x * 10^k`. */
  function Scale(x: real, k: nat): real {
    x * Pow10(k) as real
  }

  /** `ShiftedValue` is the exact product of the literal with 10^k, truncated toward zero. */
  lemma ShiftIsTruncatedProduct(d: Decimal, k: nat)
    requires AllDigits(d.whole) && AllDigits(d.fraction)
    ensures ShiftedValue(d, k) == Trunc(Scale(DecimalValue(d), k))
  {
    var w := DigitsValue(d.whole);
    var P := Pow10(k);
    var q := DigitsValue(Pad(d.fraction, k));
    ShiftedValueIs(d, k, w, P, q);
    TruncatedProductIs(d, k, w, DigitsValue(d.fraction), Pow10(|d.fraction|), P, q);
  }

  lemma TruncatedProductIs(d: Decimal, k: nat, w: nat, f: nat, N: nat, P: nat, q: nat)
    requires AllDigits(d.whole) && AllDigits(d.fraction)
    requires w == DigitsValue(d.whole) && f == DigitsValue(d.fraction) && N == Pow10(|d.fraction|)
    requires P == Pow10(k) && q == DigitsValue(Pad(d.fraction, k))
    ensures Trunc(Scale(DecimalValue(d), k)) == if d.negative then -(w * P + q) else w * P + q
  {
    assert ((w as real + f as real / N as real) * P as real).Floor == w * P + q by {
      ProductSplit(w, d.fraction, k, f, N, P, q);
    }
    assert DecimalValue(d) == if d.negative then -(w as real + f as real / N as real) else w as real + f as real / N as real by {
      DecimalValueIs(d, w, f, N);
    }
    TruncOfSigned(d.negative, DecimalValue(d), w, f, N, k, P, w * P + q);
  }

  lemma DecimalValueIs(d: Decimal, w: nat, f: nat, N: nat)
    requires AllDigits(d.whole) && AllDigits(d.fraction)
    requires w == DigitsValue(d.whole) && f == DigitsValue(d.fraction) && N == Pow10(|d.fraction|)
    ensures DecimalValue(d) == if d.negative then -(w as real + f as real / N as real) else w as real + f as real / N as real
  {
  }

  lemma ShiftedValueIs(d: Decimal, k: nat, w: int, P: int, q: int)
    requires AllDigits(d.whole) && AllDigits(d.fraction)
    requires w == DigitsValue(d.whole) && P == Pow10(k) && q == DigitsValue(Pad(d.fraction, k))
    ensures ShiftedValue(d, k) == if d.negative then -(w * P + q) else w * P + q
  {
    DigitsValueAppend(d.whole, Pad(d.fraction, k));
  }

  lemma TruncOfSigned(negative: bool, x: real, w: nat, f: nat, N: nat, k: nat, P: nat, v: int)
    requires N > 0 && P == Pow10(k) && ((w as real + f as real / N as real) * P as real).Floor == v
    requires x == if negative then -(w as real + f as real / N as real) else w as real + f as real / N as real
    ensures Trunc(Scale(x, k)) == if negative then -v else v
  {
    SignedFloor(negative, x, w as real, f as real, N as real, P as real, v);
    assert Scale(x, k) == x * P as real;
  }

  lemma SignedFloor(negative: bool, x: real, w: real, f: real, N: real, P: real, v: int)
    requires w >= 0.0 && f >= 0.0 && N > 0.0 && P > 0.0 && ((w + f / N) * P).Floor == v
    requires x == if negative then -(w + f / N) else w + f / N
    ensures Trunc(x * P) == if negative then -v else v
  {
    assert f / N >= 0.0;
    if negative {
      assert x * P == -((w + f / N) * P);
    } else {
      assert x * P == (w + f / N) * P;
    }
  }

  lemma ProductSplit(w: nat, s: string, k: nat, f: int, N: int, P: int, q: int)
    requires AllDigits(s) && f == DigitsValue(s) && N == Pow10(|s|) && P == Pow10(k)
    requires q == DigitsValue(Pad(s, k))
    ensures ((w as real + f as real / N as real) * P as real).Floor == w * P + q
  {
    if k <= |s| {
      var Q := Pow10(|s| - k);
      Pow10Add(k, |s| - k);
      var r := PadShort(s, k);
      FloorShort(w, f, N, q, r, P, Q);
    } else {
      var Q := Pow10(k - |s|);
      Pow10Add(|s|, k - |s|);
      PadLong(s, k);
      FloorLong(w, f, N, Q, P);
    }
  }

  /**
   * What the parser computes, in the terms of the original: with a K, M or B
   * suffix and a prefix `float` accepts, the prefix times 10^3, 10^6 or 10^9,
   * truncated; otherwise the whole text as a decimal, truncated; otherwise 0.
   */
  lemma ReadCompactMeaning(t: string)
    ensures SuffixExponent(t).Some? && ParseDecimal(t[..|t| - 1]).Some? ==>
      ReadCompact(t) == Trunc(Scale(DecimalValue(ParseDecimal(t[..|t| - 1]).value), SuffixExponent(t).value))
    ensures !(SuffixExponent(t).Some? && ParseDecimal(t[..|t| - 1]).Some?) && ParseDecimal(t).Some? ==>
      ReadCompact(t) == Trunc(DecimalValue(ParseDecimal(t).value))
    ensures !(SuffixExponent(t).Some? && ParseDecimal(t[..|t| - 1]).Some?) && ParseDecimal(t).None? ==>
      ReadCompact(t) == 0
  {
    if SuffixExponent(t).Some? && ParseDecimal(t[..|t| - 1]).Some? {
      ReadScaled(t, SuffixExponent(t).value, ParseDecimal(t[..|t| - 1]).value);
    } else if ParseDecimal(t).Some? {
      ReadUnscaled(t, ParseDecimal(t).value);
    }
  }

  lemma ReadScaled(t: string, e: nat, d: Decimal)
    requires SuffixExponent(t) == Some(e) && t != [] && ParseDecimal(t[..|t| - 1]) == Some(d)
    ensures AllDigits(d.whole) && AllDigits(d.fraction)
    ensures ReadCompact(t) == Trunc(Scale(DecimalValue(d), e))
  {
    ReadWithSuffix(t, e);
    ShiftIsTruncatedProduct(d, e);
  }

  lemma ReadUnscaled(t: string, d: Decimal)
    requires t == [] || SuffixExponent(t).None? || ParseDecimal(t[..|t| - 1]).None?
    requires ParseDecimal(t) == Some(d)
    ensures AllDigits(d.whole) && AllDigits(d.fraction)
    ensures ReadCompact(t) == Trunc(DecimalValue(d))
  {
    ReadNoScale(t, d);
    ShiftByZeroIsTrunc(d);
  }

  lemma ReadNoScale(t: string, d: Decimal)
    requires t == [] || SuffixExponent(t).None? || ParseDecimal(t[..|t| - 1]).None?
    requires ParseDecimal(t) == Some(d)
    ensures AllDigits(d.whole) && AllDigits(d.fraction)
    ensures ReadCompact(t) == ShiftedValue(d, 0)
  {
  }

  lemma ShiftByZeroIsTrunc(d: Decimal)
    requires AllDigits(d.whole) && AllDigits(d.fraction)
    ensures ShiftedValue(d, 0) == Trunc(DecimalValue(d))
  {
    ShiftIsTruncatedProduct(d, 0);
    assert Scale(DecimalValue(d), 0) == DecimalValue(d) by {
      assert Pow10(0) == 1;
    }
  }
}
