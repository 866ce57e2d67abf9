/**
 * Decimal literals and the conversion of a parsed float into a fraction (`From<f64>` in
 * core/src/rational.rs). A float is modelled by its exact decimal value m / 10^k, its
 * `to_string` by the shortest decimal rendering, and `parse::<f64>` by plain decimal
 * literals: digits, optionally followed by '.' and more digits.
 */
module Decimals {
  import opened Wrappers
  import opened NumberTheory
  import opened Strings
  import opened Rationals

  /** The float whose exact value is m / 10^k. */
  datatype Decimal = Decimal(m: int, k: nat)

  /** The same value with trailing zero digits after the point removed. */
  function Normalize(f: Decimal): (n: Decimal)
    ensures n.k <= f.k && (n.k > 0 ==> n.m % 10 != 0)
    ensures n.m * Pow10(f.k) == f.m * Pow10(n.k)
    decreases f.k
  {
    if f.k > 0 && f.m % 10 == 0 then
      var n := Normalize(Decimal(f.m / 10, f.k - 1));
      NormalizeStep(f, n);
      n
    else f
  }

  lemma NormalizeStep(f: Decimal, n: Decimal)
    requires f.k > 0 && f.m % 10 == 0
    requires n.m * Pow10(f.k - 1) == (f.m / 10) * Pow10(n.k)
    ensures n.m * Pow10(f.k) == f.m * Pow10(n.k)
  {
    var c := f.m / 10;
    assert f.m == 10 * c;
    calc {
      n.m * Pow10(f.k);
      == 10 * (n.m * Pow10(f.k - 1));
      == 10 * (c * Pow10(n.k));
      == f.m * Pow10(n.k);
    }
  }

  /** The digits of the value after '-' (if any): integer part, then '.' and the fraction. */
  function Unsigned(n: Decimal): string {
    PointAt(AbsInt(n.m), Pow10(n.k), n.k)
  }

  /** a / d, then for k > 0 a '.' and the k-digit remainder a % d (d is 10^k). */
  function PointAt(a: nat, d: nat, k: nat): string
    requires d >= 1
  {
    NatToString(a / d) + (if k == 0 then "" else "." + Pad(a % d, k))
  }

  /** `f64::to_string`: the shortest decimal rendering, with no exponent. */
  function Render(f: Decimal): string {
    var n := Normalize(f);
    if n.m < 0 then "-" + Unsigned(n) else Unsigned(n)
  }

  /** `p *= 10^e` on the float's value; integral at the scale `From<f64>` uses. */
  function Scaled(f: Decimal, e: nat): int {
    f.m * Pow10(e) / Pow10(f.k)
  }

  /**
   * `From<f64>`: split the rendering on '.', and when there are two pieces scale p and q by 10
   * to the length of the last piece; then reduce.
   */
  function FromFloat(f: Decimal): Rational {
    var parts := SplitOn(Render(f), '.');
    var k: nat := if |parts| == 2 then |parts[|parts| - 1]| else 0;
    Reduce(Rational(Scaled(f, k), Pow10(k)))
  }

  lemma NoDot(s: string)
    requires AllDigits(s)
    ensures '.' !in s
  {
  }

  /** The rendering has one '.' exactly when the normalized value has digits after the point. */
  lemma RenderPieces(f: Decimal)
    ensures var n := Normalize(f); var parts := SplitOn(Render(f), '.');
      (n.k == 0 ==> |parts| == 1) && (n.k > 0 ==> |parts| == 2 && |parts[1]| == n.k)
  {
    var n := Normalize(f);
    var sign := if n.m < 0 then "-" else "";
    assert Render(f) == sign + Unsigned(n);
    PointAtPieces(sign, AbsInt(n.m), Pow10(n.k), n.k);
  }

  lemma PointAtPieces(sign: string, a: nat, d: nat, k: nat)
    requires d >= 1 && '.' !in sign
    ensures var parts := SplitOn(sign + PointAt(a, d, k), '.');
      (k == 0 ==> |parts| == 1) && (k > 0 ==> |parts| == 2 && |parts[1]| == k)
  {
    var ip := NatToString(a / d);
    NoDot(ip);
    if k == 0 {
      assert sign + PointAt(a, d, k) == sign + ip;
      SplitOnAbsent(sign + ip, '.');
    } else {
      var fr := Pad(a % d, k);
      NoDot(fr);
      assert sign + PointAt(a, d, k) == (sign + ip) + ['.'] + fr;
      SplitOnOnce(sign + ip, '.', fr);
    }
  }

  /** Scaling by 10^(normalized k) undoes the division: the scaled value is the normalized m. */
  lemma ScaledExact(m: int, d1: nat, nm: int, d2: nat)
    requires d1 >= 1 && nm * d1 == m * d2
    ensures m * d2 / d1 == nm
  {
    assert m * d2 == d1 * nm;
    MulMod(d1, nm);
  }

  /** The decimal construction yields the reduced m / 10^k: the float's exact value. */
  lemma FromFloatValue(f: Decimal)
    ensures FromFloat(f) == Reduce(Rational(f.m, Pow10(f.k)))
  {
    var n := Normalize(f);
    RenderPieces(f);
    ScaledExact(f.m, Pow10(f.k), n.m, Pow10(n.k));
    assert FromFloat(f) == Reduce(Rational(n.m, Pow10(n.k)));
    ReduceCanonical(Rational(n.m, Pow10(n.k)), Rational(f.m, Pow10(f.k)));
  }

  /** Two floats with the same value give the same fraction. */
  lemma FromFloatDependsOnValue(f: Decimal, g: Decimal)
    requires f.m * Pow10(g.k) == g.m * Pow10(f.k)
    ensures FromFloat(f) == FromFloat(g)
  {
    FromFloatValue(f);
    FromFloatValue(g);
    ReduceCanonical(Rational(f.m, Pow10(f.k)), Rational(g.m, Pow10(g.k)));
  }

  /** From<f64> yields a fraction in lowest terms with the float's value. */
  lemma FromFloatNormal(f: Decimal)
    ensures IsReduced(FromFloat(f)) && SameValue(FromFloat(f), Rational(f.m, Pow10(f.k)))
  {
    FromFloatValue(f);
    ReduceNormal(Rational(f.m, Pow10(f.k)));
  }

  /**
   * On a value that both can hold, the older `From<f64>` (reducing x over 1) and the current one
   * (scaling by the digits after the point) give the same fraction.
   */
  lemma OldFromFloatAgrees(x: Dyadic, f: Decimal)
    requires x.m * Pow10(f.k) == f.m * Pow2(x.e)
    ensures OldFromFloat(x) == FromFloat(f)
  {
    var a, b := OldFromFloat(x), FromFloat(f);
    FromFloatNormal(f);
    SameValueTransitive(a, Rational(x.m, Pow2(x.e)), Rational(f.m, Pow10(f.k)));
    SameValueTransitive(a, Rational(f.m, Pow10(f.k)), b);
    ReducedUnique(a, b);
  }

  /** 0.5, the float 1 / 2^1, gives 1/2 under the older conversion, as under the current one. */
  lemma OldFromFloatHalf()
    ensures OldFromFloat(Dyadic(1, 1)) == Rational(1, 2)
  {
    FromFloatExamples();
    OldFromFloatAgrees(Dyadic(1, 1), Decimal(5, 1));
  }

  /** The literal tests: 3.4 is 17/5, 0.5 is 1/2, 2.0 is 2/1, 0.0 is 0/1. */
  lemma FromFloatExamples()
    ensures FromFloat(Decimal(34, 1)) == Rational(17, 5)
    ensures FromFloat(Decimal(5, 1)) == Rational(1, 2)
    ensures FromFloat(Decimal(20, 1)) == Rational(2, 1)
    ensures FromFloat(Decimal(0, 1)) == Rational(0, 1)
  {
    FromFloatValue(Decimal(34, 1));
    FromFloatValue(Decimal(5, 1));
    FromFloatValue(Decimal(20, 1));
    FromFloatValue(Decimal(0, 1));
    assert GcdOf(34, 10) == 2 by {
      assert GcdOf(34, 10) == GcdOf(10, 4) == GcdOf(4, 2) == GcdOf(2, 0);
    }
    assert GcdOf(5, 10) == 5 by {
      assert GcdOf(5, 10) == GcdOf(10, 5) == GcdOf(5, 0);
    }
    assert GcdOf(20, 10) == 10 by {
      assert GcdOf(20, 10) == GcdOf(10, 0);
    }
    assert GcdOf(0, 10) == 10 by {
      assert GcdOf(0, 10) == GcdOf(10, 0);
    }
  }

  /** Zero over any positive denominator reduces to 0/1, as the from_float tests check for 1..9. */
  lemma ReduceZeroNumerator(k: int)
    requires k > 0
    ensures Reduce(Rational(0, k)) == Rational(0, 1)
  {
    ReduceCanonical(Rational(0, k), Rational(0, 1));
    ReduceFixesReduced(Zero());
  }

  /** `parse::<f64>` on plain decimal literals: digits, optionally '.', digits; at least one digit. */
  function ParseDecimal(s: string): (r: Option<Decimal>)
    ensures r.Some? ==> r.value.m >= 0
  {
    var parts := SplitOn(s, '.');
    if |parts| == 1 && |s| > 0 && AllDigits(s) then Some(Decimal(DigitsValue(s), 0))
    else if |parts| == 2 && AllDigits(parts[0]) && AllDigits(parts[1]) && |parts[0]| + |parts[1]| > 0 then
      DigitsValueConcat(parts[0], parts[1]);
      Some(Decimal(DigitsValue(parts[0] + parts[1]), |parts[1]|))
    else None
  }

  /** Parsing the rendering of a nonnegative float gives back its normalized value. */
  lemma ParseRender(f: Decimal)
    requires f.m >= 0
    ensures ParseDecimal(Render(f)) == Some(Normalize(f))
  {
    var n := Normalize(f);
    MulBound(Pow10(n.k), f.m);
    SignOfFactor(n.m, Pow10(f.k));
    assert Render(f) == PointAt(n.m, Pow10(n.k), n.k);
    ParsePointAt(n.m, Pow10(n.k), n.k);
  }

  lemma SignOfFactor(x: int, d: int)
    requires d >= 1 && x * d >= 0
    ensures x >= 0
  {
    if x < 0 {
      MulBound(d, x);
    }
  }

  lemma ParsePointAt(a: nat, d: nat, k: nat)
    requires d >= 1 && d == Pow10(k)
    ensures ParseDecimal(PointAt(a, d, k)) == Some(Decimal(a, k))
  {
    DivModNat(a, d);
    var q: nat, r: nat := a / d, a % d;
    if k == 0 {
      assert d == 1 && q == a;
      assert PointAt(a, d, k) == NatToString(q);
      NatToStringValue(q);
      ParseWhole(NatToString(q));
    } else {
      assert PointAt(a, d, k) == NatToString(q) + ['.'] + Pad(r, k);
      ParseFraction(a, d, k, q, r);
    }
  }

  lemma ParseFraction(a: nat, d: nat, k: nat, q: nat, r: nat)
    requires k >= 1 && d == Pow10(k) && q * d + r == a && r < d
    ensures ParseDecimal(NatToString(q) + ['.'] + Pad(r, k)) == Some(Decimal(a, k))
  {
    NatToStringValue(q);
    PadValue(r, k);
    ParseJoined(NatToString(q), Pad(r, k));
  }

  lemma ParseWhole(ip: string)
    requires |ip| >= 1 && AllDigits(ip)
    ensures ParseDecimal(ip) == Some(Decimal(DigitsValue(ip), 0))
  {
    NoDot(ip);
    SplitOnAbsent(ip, '.');
  }

  lemma ParseJoined(ip: string, fr: string)
    requires AllDigits(ip) && AllDigits(fr) && |fr| >= 1
    ensures ParseDecimal(ip + ['.'] + fr) == Some(Decimal(DigitsValue(ip) * Pow10(|fr|) + DigitsValue(fr), |fr|))
  {
    NoDot(ip);
    NoDot(fr);
    SplitOnOnce(ip, '.', fr);
    DigitsValueConcat(ip, fr);
  }

  /** A whole number n converts to n/1. */
  lemma FromFloatInteger(n: int)
    ensures FromFloat(Decimal(n, 0)) == Rational(n, 1)
  {
    FromFloatValue(Decimal(n, 0));
    GcdOne(AbsInt(n));
    ReduceFixesReduced(Rational(n, 1));
  }
}
