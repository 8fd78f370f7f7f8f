/**
 * The number <-> text conversions the calculator relies on, over `real`.
 *
 * The engine reads its display back as a number with Kotlin's `toDoubleOrNull`
 * (falling back to 0) and renders an arithmetic result either as
 * `result.toInt().toString()` when the result is whole, or as
 * `result.toString()` otherwise (src/jsMain/kotlin/Main.kt:53 and :64).
 * Those are IEEE `Double` library calls; here they are written out for
 * exact decimal numbers:
 *   - ParseNumeral accepts an optional minus sign, decimal digits and at most
 *     one point, with at least one digit somewhere; anything else is None;
 *   - Format renders a whole value as its integer numeral (no point) and any
 *     other value as sign, integer part, point and its first
 *     FractionDigitsShown fractional digits (truncated, trailing zeros dropped).
 */
module Numerals {
  import opened Options

  predicate IsDigit(c: char) { '0' <= c <= '9' }

  predicate AllDigits(s: string) { forall i :: 0 <= i < |s| ==> IsDigit(s[i]) }

  /** At most one decimal point in `s`. */
  predicate AtMostOnePoint(s: string) { multiset(s)['.'] <= 1 }

  function DigitValue(c: char): (d: nat)
    requires IsDigit(c)
    ensures d < 10
  {
    c as int - '0' as int
  }

  function DigitChar(d: nat): (c: char)
    requires d < 10
    ensures IsDigit(c) && DigitValue(c) == d
  {
    ('0' as int + d) as char
  }

  function Pow10(n: nat): (p: nat)
    ensures p >= 1
  {
    if n == 0 then 1 else 10 * Pow10(n - 1)
  }

  /** The value of a string of digits, most significant digit first. */
  function DigitsValue(ds: string): nat
    requires AllDigits(ds)
  {
    if ds == [] then 0 else DigitsValue(ds[..|ds| - 1]) * 10 + DigitValue(ds[|ds| - 1])
  }

  /** The value of the digits after a point: 0.d1d2d3... */
  function FractionValue(ds: string): real
    requires AllDigits(ds)
  {
    if ds == [] then 0.0 else (DigitValue(ds[0]) as real + FractionValue(ds[1..])) / 10.0
  }

  /** The index of the first '.' in `s`, or |s| when there is none. */
  function PointIndex(s: string): (i: nat)
    ensures i <= |s|
    ensures i < |s| ==> s[i] == '.'
    ensures forall j :: 0 <= j < i ==> s[j] != '.'
  {
    if s == [] || s[0] == '.' then 0
    else
      var i := 1 + PointIndex(s[1..]);
      assert forall j :: 1 <= j < i ==> s[j] == s[1..][j - 1];
      i
  }

  // ---------------------------------------------------------------------------
  // Reading the display: `display.toDoubleOrNull() ?: 0.0`
  // ---------------------------------------------------------------------------

  /** An unsigned numeral: digits, at most one point, at least one digit. */
  function ParseUnsigned(s: string): Option<real>
  {
    var i := PointIndex(s);
    var whole := s[..i];
    var frac := if i < |s| then s[i + 1..] else "";
    if AllDigits(whole) && AllDigits(frac) && |whole| + |frac| > 0 then
      Some(NumeralValue(whole, frac))
    else
      None
  }

  /** The value of a numeral with digits `whole` before the point and `frac` after it. */
  function NumeralValue(whole: string, frac: string): real
    requires AllDigits(whole) && AllDigits(frac)
  {
    DigitsValue(whole) as real + FractionValue(frac)
  }

  /** `toDoubleOrNull`: None when `s` is not a numeral. */
  function ParseNumeral(s: string): Option<real>
  {
    if |s| > 0 && s[0] == '-' then
      match ParseUnsigned(s[1..])
      case Some(v) => Some(-v)
      case None => None
    else
      ParseUnsigned(s)
  }

  /** `toDoubleOrNull() ?: 0.0`: a text that is not a numeral reads as 0. */
  function ParseOrZero(s: string): real
  {
    ParseNumeral(s).GetOr(0.0)
  }

  // ---------------------------------------------------------------------------
  // Rendering a result
  // ---------------------------------------------------------------------------

  /** The decimal numeral of `n`: digits only, and no leading zero unless `n` is 0. */
  function NatToString(n: nat): (r: string)
    ensures r != [] && AllDigits(r)
    ensures r[0] == '0' <==> n == 0
  {
    if n < 10 then [DigitChar(n)] else NatToString(n / 10) + [DigitChar(n % 10)]
  }

  /** `Int.toString()`. */
  function IntToString(n: int): string
  {
    if n < 0 then "-" + NatToString(-n) else NatToString(n)
  }

  /** `result % 1 == 0.0`: the value has no fractional part. */
  predicate IsWhole(x: real) { x.Floor as real == x }

  /** How many fractional digits a non-whole result shows at most. */
  const FractionDigitsShown: nat := 15

  /** `k` written with exactly `n` digits, leading zeros included. */
  function FixedDigits(k: nat, n: nat): (r: string)
    ensures |r| == n && AllDigits(r)
  {
    if n == 0 then "" else FixedDigits(k / 10, n - 1) + [DigitChar(k % 10)]
  }

  /** The first FractionDigitsShown decimal digits of a fraction `f` in [0, 1), truncated. */
  function FractionDigits(f: real): (r: string)
    requires 0.0 <= f < 1.0
    ensures |r| == FractionDigitsShown && AllDigits(r)
  {
    FixedDigits((f * 1000000000000000.0).Floor, FractionDigitsShown)
  }

  /** Drops trailing zeros of a digit string, keeping at least one digit. */
  function TrimZeros(ds: string): (r: string)
    ensures |r| <= |ds| && r == ds[..|r|]
    ensures ds != [] ==> r != []
    ensures |r| > 1 ==> r[|r| - 1] != '0'
    ensures forall i :: |r| <= i < |ds| ==> ds[i] == '0'
  {
    if |ds| > 1 && ds[|ds| - 1] == '0' then TrimZeros(ds[..|ds| - 1]) else ds
  }

  function Abs(x: real): (m: real)
    ensures m >= 0.0 && (m == x || m == -x)
  {
    if x < 0.0 then -x else x
  }

  /** An integer part `w` and a fraction `f` in [0, 1): digits, point, shown fractional digits. */
  function RenderParts(w: nat, f: real): string
    requires 0.0 <= f < 1.0
  {
    NatToString(w) + "." + TrimZeros(FractionDigits(f))
  }

  /** The digits of a non-negative value. */
  function RenderMagnitude(m: real): string
    requires m >= 0.0
  {
    RenderParts(m.Floor, m - m.Floor as real)
  }

  /** `Double.toString()` of a value with a fractional part. */
  function RenderFraction(x: real): string
    requires !IsWhole(x)
  {
    if x < 0.0 then "-" + RenderMagnitude(Abs(x)) else RenderMagnitude(Abs(x))
  }

  /**
   * The text shown for an arithmetic result (src/jsMain/kotlin/Main.kt:64):
   * never empty, at most one point, and a point exactly when the value is
   * not whole.
   */
  function Format(x: real): (r: string)
    ensures r != []
    ensures '.' in r <==> !IsWhole(x)
    ensures AtMostOnePoint(r)
  {
    if IsWhole(x) then
      IntToStringNoPoint(x.Floor);
      IntToString(x.Floor)
    else
      RenderFractionOnePoint(x);
      RenderFraction(x)
  }

  // ---------------------------------------------------------------------------
  // Lemmas
  // ---------------------------------------------------------------------------

  lemma NoPointInDigits(ds: string)
    requires AllDigits(ds)
    ensures '.' !in ds && multiset(ds)['.'] == 0
  {
    forall i | 0 <= i < |ds| ensures ds[i] != '.' {
      assert IsDigit(ds[i]);
    }
  }

  lemma IntToStringNoPoint(n: int)
    ensures IntToString(n) != []
    ensures '.' !in IntToString(n) && multiset(IntToString(n))['.'] == 0
  {
    var r := NatToString(if n < 0 then -n else n);
    NoPointInDigits(r);
    if n < 0 {
      assert multiset("-" + r) == multiset("-") + multiset(r);
    }
  }

  /** Digits, one point, digits: exactly one point. */
  lemma PointBetweenDigits(a: string, b: string)
    requires AllDigits(a) && AllDigits(b)
    ensures '.' in a + "." + b && multiset(a + "." + b)['.'] == 1
  {
    NoPointInDigits(a);
    NoPointInDigits(b);
    var r := a + "." + b;
    assert r[|a|] == '.';
    assert multiset(r) == multiset(a) + multiset(".") + multiset(b);
  }

  /** A leading minus sign adds no point. */
  lemma SignKeepsPoints(r: string)
    ensures ('.' in "-" + r) == ('.' in r)
    ensures multiset("-" + r)['.'] == multiset(r)['.']
  {
    assert multiset("-" + r) == multiset("-") + multiset(r);
    assert forall i :: 0 <= i < |r| ==> ("-" + r)[i + 1] == r[i];
  }

  lemma RenderFractionOnePoint(x: real)
    requires !IsWhole(x)
    ensures '.' in RenderFraction(x) && multiset(RenderFraction(x))['.'] == 1
  {
    var m := Abs(x);
    var r := RenderMagnitude(m);
    assert '.' in r && multiset(r)['.'] == 1 by {
      RenderPartsOnePoint(m.Floor, m - m.Floor as real);
    }
    SignKeepsPoints(r);
  }

  lemma RenderPartsOnePoint(w: nat, f: real)
    requires 0.0 <= f < 1.0
    ensures '.' in RenderParts(w, f) && multiset(RenderParts(w, f))['.'] == 1
  {
    PointBetweenDigits(NatToString(w), TrimZeros(FractionDigits(f)));
  }

  /** Reading back the numeral of `n` gives `n`. */
  lemma {:induction false} NatToStringValue(n: nat)
    ensures DigitsValue(NatToString(n)) == n
  {
    if n >= 10 {
      NatToStringValue(n / 10);
      var r := NatToString(n);
      assert r[..|r| - 1] == NatToString(n / 10);
    }
  }

  /** In digits, a point and anything, the first point is the one after the digits. */
  lemma PointIndexAfterDigits(a: string, b: string)
    requires AllDigits(a)
    ensures PointIndex(a + "." + b) == |a|
  {
    var s := a + "." + b;
    assert s[|a|] == '.';
  }

  /** A string with a single point and digits on both sides splits at that point. */
  lemma ParseUnsignedSplit(a: string, b: string)
    requires AllDigits(a) && AllDigits(b) && |a| > 0
    ensures ParseUnsigned(a + "." + b) == Some(NumeralValue(a, b))
  {
    var s := a + "." + b;
    PointIndexAfterDigits(a, b);
    assert s[..|a|] == a;
    assert s[|a| + 1..] == b;
    ParseUnsignedAt(s, |a|);
  }

  /** A string whose first point is at `i`, with digits around it, reads as those digits. */
  lemma ParseUnsignedAt(s: string, i: nat)
    requires i < |s| && PointIndex(s) == i
    requires AllDigits(s[..i]) && AllDigits(s[i + 1..]) && i > 0
    ensures ParseUnsigned(s) == Some(NumeralValue(s[..i], s[i + 1..]))
  {
  }

  lemma Regroup(d: int, p: int, r: int, l: int)
    ensures (d * p + r) * 10 + l == d * (10 * p) + (r * 10 + l)
  {
  }

  /** The most significant digit of a digit string is worth its value times a power of ten. */
  lemma {:induction false} DigitsValueFront(ds: string)
    requires AllDigits(ds) && ds != []
    ensures DigitsValue(ds) == DigitValue(ds[0]) * Pow10(|ds| - 1) + DigitsValue(ds[1..])
    decreases |ds|
  {
    var n := |ds|;
    if n == 1 {
      assert ds[..0] == [];
      assert ds[1..] == [];
    } else {
      var init := ds[..n - 1];
      var l := DigitValue(ds[n - 1]);
      DigitsValueFront(init);
      assert init[0] == ds[0];
      assert DigitsValue(ds) == DigitsValue(init) * 10 + l;
      var tail := ds[1..];
      assert tail[..|tail| - 1] == init[1..];
      assert tail[|tail| - 1] == ds[n - 1];
      assert DigitsValue(tail) == DigitsValue(init[1..]) * 10 + l;
      assert Pow10(n - 1) == 10 * Pow10(n - 2);
      Regroup(DigitValue(ds[0]), Pow10(n - 2), DigitsValue(init[1..]), l);
    }
  }

  lemma RealOfSum(v: nat, d: nat, p: nat, r: nat)
    requires v == d * p + r
    ensures v as real == d as real * p as real + r as real
  {
  }

  lemma RatioStep(fv: real, d: real, a: real, p: real, v: real, q: real)
    requires p > 0.0 && fv == (d + a / p) / 10.0 && v == d * p + a && q == 10.0 * p
    ensures fv == v / q
  {
  }

  /** The arithmetic of one more leading digit after a point. */
  lemma StepArith(fv: real, ft: real, d: nat, vt: nat, v: nat, p: nat, q: nat)
    requires p > 0 && ft == vt as real / p as real && fv == (d as real + ft) / 10.0
    requires v == d * p + vt && q == 10 * p
    ensures fv == v as real / q as real
  {
    RealOfSum(v, d, p, vt);
    RatioStep(fv, d as real, vt as real, p as real, v as real, q as real);
  }

  /** One more leading digit: the induction step of FractionValueRatio. */
  lemma FractionValueStep(ds: string)
    requires AllDigits(ds) && ds != []
    requires FractionValue(ds[1..]) == DigitsValue(ds[1..]) as real / Pow10(|ds| - 1) as real
    ensures FractionValue(ds) == DigitsValue(ds) as real / Pow10(|ds|) as real
  {
    DigitsValueFront(ds);
    StepArith(FractionValue(ds), FractionValue(ds[1..]), DigitValue(ds[0]), DigitsValue(ds[1..]),
              DigitsValue(ds), Pow10(|ds| - 1), Pow10(|ds|));
  }

  /** Read after a point, n digits are worth their value over 10^n. */
  lemma {:induction false} FractionValueRatio(ds: string)
    requires AllDigits(ds)
    ensures FractionValue(ds) == DigitsValue(ds) as real / Pow10(|ds|) as real
    decreases |ds|
  {
    if ds != [] {
      FractionValueRatio(ds[1..]);
      FractionValueStep(ds);
    }
  }

  /** A trailing zero does not change the value of digits after a point. */
  lemma {:induction false} FractionValueSnocZero(p: string)
    requires AllDigits(p)
    ensures AllDigits(p + "0")
    ensures FractionValue(p + "0") == FractionValue(p)
    decreases |p|
  {
    var q := p + "0";
    assert forall i :: 0 <= i < |q| ==> q[i] == if i < |p| then p[i] else '0';
    if p == [] {
      assert q[1..] == [];
    } else {
      assert q[0] == p[0];
      assert q[1..] == p[1..] + "0";
      FractionValueSnocZero(p[1..]);
    }
  }

  /** A numeral without a point reads back as the value of its digits. */
  lemma ParseDigits(ds: string)
    requires AllDigits(ds) && ds != []
    ensures ParseUnsigned(ds) == Some(DigitsValue(ds) as real)
  {
    NoPointInDigits(ds);
    assert PointIndex(ds) == |ds|;
    assert ds[..|ds|] == ds;
  }

  /** A text starting with anything but a digit, a sign or a point is not a numeral. */
  lemma NotNumeral(s: string)
    requires s != [] && !IsDigit(s[0]) && s[0] != '-' && s[0] != '.'
    ensures ParseNumeral(s) == None && ParseOrZero(s) == 0.0
  {
    var i := PointIndex(s);
    assert i > 0;
    assert s[..i][0] == s[0];
  }

  /** A whole result renders as a numeral that reads back as exactly that value. */
  lemma ParseFormatWhole(n: int)
    ensures ParseNumeral(Format(n as real)) == Some(n as real)
  {
    var m := if n < 0 then -n else n;
    var r := NatToString(m);
    NatToStringValue(m);
    ParseDigits(r);
    assert (n as real).Floor == n;
    if n < 0 {
      assert Format(n as real) == "-" + r;
      assert ("-" + r)[1..] == r;
    } else {
      assert Format(n as real) == r;
    }
  }

  /** A number below 10^n written with n digits reads back as itself. */
  lemma {:induction false} FixedDigitsValue(k: nat, n: nat)
    requires k < Pow10(n)
    ensures DigitsValue(FixedDigits(k, n)) == k
  {
    if n > 0 {
      DivideByTen(k, Pow10(n - 1));
      FixedDigitsValue(k / 10, n - 1);
      var r := FixedDigits(k, n);
      assert r[..|r| - 1] == FixedDigits(k / 10, n - 1);
      assert DigitValue(r[|r| - 1]) == k % 10;
    }
  }

  lemma DivideByTen(k: nat, p: nat)
    requires k < 10 * p
    ensures k / 10 < p && (k / 10) * 10 + k % 10 == k
  {
  }

  lemma Pow10Shown()
    ensures Pow10(FractionDigitsShown) == 1000000000000000
  {
    assert Pow10(5) == 100000;
    assert Pow10(10) == 10000000000;
    assert Pow10(15) == 1000000000000000;
  }

  /** The truncated fractional digits spell floor(f * 10^FractionDigitsShown). */
  lemma FractionDigitsValue(f: real)
    requires 0.0 <= f < 1.0
    ensures DigitsValue(FractionDigits(f)) == (f * 1000000000000000.0).Floor
  {
    Pow10Shown();
    FixedDigitsValue((f * 1000000000000000.0).Floor, FractionDigitsShown);
  }

  /** Trailing zeros do not change the value of a fraction's digits. */
  lemma {:induction false} TrimZerosValue(ds: string)
    requires AllDigits(ds)
    ensures AllDigits(TrimZeros(ds))
    ensures FractionValue(TrimZeros(ds)) == FractionValue(ds)
    decreases |ds|
  {
    if |ds| > 1 && ds[|ds| - 1] == '0' {
      var init := ds[..|ds| - 1];
      assert ds == init + "0";
      TrimZerosValue(init);
      FractionValueSnocZero(init);
      assert TrimZeros(ds) == TrimZeros(init);
    } else {
      assert TrimZeros(ds) == ds;
    }
  }

  lemma TruncationBound(m: real, w: int, k: int, q: real)
    requires k == ((m - w as real) * 1000000000000000.0).Floor
    requires q == k as real / 1000000000000000.0
    ensures w as real + q <= m < w as real + q + 0.000000000000001
  {
  }

  lemma SameRatio(q: real, a: nat, b: nat, k: int)
    requires b == 1000000000000000 && q == a as real / b as real && a == k
    ensures q == k as real / 1000000000000000.0
  {
  }

  /** The shown fractional digits, trimmed, are worth floor(f * 10^15) / 10^15. */
  lemma ShownFractionValue(f: real)
    requires 0.0 <= f < 1.0
    ensures AllDigits(TrimZeros(FractionDigits(f)))
    ensures FractionValue(TrimZeros(FractionDigits(f)))
         == (f * 1000000000000000.0).Floor as real / 1000000000000000.0
  {
    var ds := FractionDigits(f);
    FractionDigitsValue(f);
    TrimZerosValue(ds);
    FractionValueRatio(ds);
    Pow10Shown();
    SameRatio(FractionValue(ds), DigitsValue(ds), Pow10(|ds|), (f * 1000000000000000.0).Floor);
  }

  /** Integer part and shown fractional digits read back as their sum. */
  lemma RenderPartsValue(w: nat, f: real)
    requires 0.0 <= f < 1.0
    ensures ParseUnsigned(RenderParts(w, f))
         == Some(w as real + (f * 1000000000000000.0).Floor as real / 1000000000000000.0)
  {
    ShownFractionValue(f);
    NatToStringValue(w);
    SplitValue(NatToString(w), TrimZeros(FractionDigits(f)), w, (f * 1000000000000000.0).Floor);
  }

  lemma SplitValue(a: string, t: string, w: nat, k: int)
    requires AllDigits(a) && AllDigits(t) && |a| > 0 && DigitsValue(a) == w
    requires FractionValue(t) == k as real / 1000000000000000.0
    ensures ParseUnsigned(a + "." + t) == Some(w as real + k as real / 1000000000000000.0)
  {
    ParseUnsignedSplit(a, t);
    NumeralValueSum(a, t, w, k);
  }

  lemma NumeralValueSum(a: string, t: string, w: nat, k: int)
    requires AllDigits(a) && AllDigits(t) && DigitsValue(a) == w
    requires FractionValue(t) == k as real / 1000000000000000.0
    ensures NumeralValue(a, t) == w as real + k as real / 1000000000000000.0
  {
  }

  /** The magnitude part of a rendered fraction reads back truncated toward zero. */
  lemma ParseMagnitude(m: real)
    requires m >= 0.0
    ensures ParseUnsigned(RenderMagnitude(m)).Some?
    ensures ParseUnsigned(RenderMagnitude(m)).value <= m
    ensures m < ParseUnsigned(RenderMagnitude(m)).value + 0.000000000000001
  {
    var f := m - m.Floor as real;
    RenderPartsValue(m.Floor, f);
    assert RenderMagnitude(m) == RenderParts(m.Floor, f);
    var k := (f * 1000000000000000.0).Floor;
    TruncationBound(m, m.Floor, k, k as real / 1000000000000000.0);
  }

  lemma FormatFractionParts(x: real)
    requires !IsWhole(x)
    ensures Format(x) == if x < 0.0 then "-" + RenderMagnitude(Abs(x)) else RenderMagnitude(Abs(x))
  {
  }

  lemma NegatedBound(x: real, v: real)
    requires x < 0.0 && v <= Abs(x) < v + 0.000000000000001
    ensures -v - 0.000000000000001 < x <= -v
  {
  }

  lemma ParseNegatedText(s: string, r: string, v: real)
    requires s == "-" + r && ParseUnsigned(r) == Some(v)
    ensures ParseNumeral(s) == Some(-v)
  {
    assert s[1..] == r;
  }

  lemma ParseUnsignedText(s: string)
    requires s != [] && IsDigit(s[0])
    ensures ParseNumeral(s) == ParseUnsigned(s)
  {
  }

  lemma ParseFormatNegative(x: real)
    requires !IsWhole(x) && x < 0.0
    ensures ParseNumeral(Format(x)).Some?
    ensures var y := ParseNumeral(Format(x)).value;
            y - 0.000000000000001 < x <= y
  {
    var r := RenderMagnitude(Abs(x));
    ParseMagnitude(Abs(x));
    var v := ParseUnsigned(r).value;
    FormatFractionParts(x);
    ParseNegatedText(Format(x), r, v);
    NegatedBound(x, v);
  }

  lemma ParseFormatPositive(x: real)
    requires !IsWhole(x) && x >= 0.0
    ensures ParseNumeral(Format(x)) == ParseUnsigned(RenderMagnitude(Abs(x)))
  {
    FormatFractionParts(x);
    ParseUnsignedText(Format(x));
    assert Format(x) == RenderMagnitude(Abs(x));
  }

  /**
   * A result with a fractional part reads back as the value truncated
   * toward zero to FractionDigitsShown digits: never farther from it than
   * one unit in the last shown digit, and never larger in magnitude.
   */
  lemma ParseFormatFraction(x: real)
    requires !IsWhole(x)
    ensures ParseNumeral(Format(x)).Some?
    ensures var y := ParseNumeral(Format(x)).value;
            var u := 1.0 / Pow10(FractionDigitsShown) as real;
            if x >= 0.0 then y <= x < y + u else y - u < x <= y
  {
    Pow10Shown();
    var u := 1.0 / Pow10(FractionDigitsShown) as real;
    assert u == 0.000000000000001;
    if x < 0.0 {
      ParseFormatNegative(x);
    } else {
      ParseMagnitude(Abs(x));
      ParseFormatPositive(x);
    }
  }
}
