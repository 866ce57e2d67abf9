/**
 * The calculator's number type: a numerator/denominator pair (core/src/rational.rs and the
 * older src/rational.rs). The source stores both parts as f64; here they are exact integers,
 * so floating-point rounding is abstracted away. A zero denominator is the "undefined"
 * sentinel, and the pair 0/0 stands for the NaN/NaN pair that reduce makes out of 0/0.
 */
module Rationals {
  import opened NumberTheory
  import opened Strings

  datatype Rational = Rational(p: int, q: int)

  /** The pair reduce produces from 0/0; every later operation keeps it. */
  const NaN := Rational(0, 0)

  /** Two pairs with nonzero denominators denote the same fraction. */
  predicate SameValue(a: Rational, b: Rational) {
    a.p * b.q == b.p * a.q
  }

  /** Lowest terms with a positive denominator. */
  predicate IsReduced(r: Rational) {
    r.q > 0 && GcdOf(AbsInt(r.p), r.q) == 1
  }

  /** Euclid's algorithm on absolute values, as the source's loop runs it. */
  method Gcd(x: int, y: int) returns (g: nat)
    ensures g == GcdOf(AbsInt(x), AbsInt(y))
    ensures y == 0 ==> g == AbsInt(x)
    ensures x != 0 || y != 0 ==> g > 0 && AbsInt(x) % g == 0 && AbsInt(y) % g == 0
  {
    var a: nat := AbsInt(x);
    var b: nat := AbsInt(y);
    while b > 0
      invariant GcdOf(a, b) == GcdOf(AbsInt(x), AbsInt(y))
      decreases b
    {
      var rem := a % b;
      a := b;
      b := rem;
    }
    g := a;
    if x != 0 || y != 0 {
      GcdDivides(AbsInt(x), AbsInt(y));
    }
  }

  /** x y / gcd(x, y). For 0 and 0 the source divides 0 by 0; the model answers 0 there. */
  function Lcm(x: int, y: int): (l: int)
    ensures x != 0 && y != 0 ==> l != 0 && l % x == 0 && l % y == 0
    ensures x != 0 && y != 0 ==> l * GcdOf(AbsInt(x), AbsInt(y)) == x * y
  {
    var g := GcdOf(AbsInt(x), AbsInt(y));
    GcdZero(AbsInt(x), AbsInt(y));
    if g == 0 then 0 else LcmFacts(x, y, g); x * y / g
  }

  lemma LcmFacts(x: int, y: int, g: nat)
    requires g == GcdOf(AbsInt(x), AbsInt(y)) && g != 0
    ensures x != 0 && y != 0 ==> x * y / g != 0 && (x * y / g) % x == 0 && (x * y / g) % y == 0
    ensures x * y / g * g == x * y
  {
    GcdDivides(AbsInt(x), AbsInt(y));
    QuotientAbs(x, g);
    QuotientAbs(y, g);
    CommonMultiple(x, y, g, x / g, y / g);
  }

  /** With x = g a and y = g b, x y / g = x b = y a is a multiple of both. */
  lemma CommonMultiple(x: int, y: int, g: nat, a: int, b: int)
    requires g > 0 && x == g * a && y == g * b
    ensures x * y / g == x * b && x * b == y * a && x * y / g * g == x * y
    ensures x != 0 && y != 0 ==> x * b != 0 && (x * b) % x == 0 && (y * a) % y == 0
  {
    assert x * y == g * (x * b) by {
      assert x * y == x * (g * b);
    }
    MulMod(g, x * b);
    assert x * b == y * a by {
      assert x * b == (g * a) * b;
      assert y * a == (g * b) * a;
    }
    if x != 0 && y != 0 {
      assert b != 0;
      MulMod(x, b);
      MulMod(y, a);
    }
  }

  function New(a: int, b: int): (r: Rational)
    ensures r.p == a && r.q == b
  {
    Rational(a, b)
  }

  function Zero(): (r: Rational)
    ensures IsReduced(r) && r.p == 0
  {
    GcdZero(0, 1);
    Rational(0, 1)
  }

  function One(): (r: Rational)
    ensures IsReduced(r) && r.p == r.q
  {
    GcdOne(1);
    Rational(1, 1)
  }

  /**
   * Moves a negative denominator's sign into the numerator, then divides both parts by their
   * gcd. 0/0 divides by 0 and becomes the NaN pair.
   */
  function Reduce(r: Rational): (s: Rational)
    ensures s.q >= 0 && (s.q == 0 <==> r.q == 0)
  {
    var p := if r.q < 0 then -r.p else r.p;
    var q: nat := if r.q < 0 then -r.q else r.q;
    var g := GcdOf(AbsInt(p), q);
    GcdZero(AbsInt(p), q);
    if g == 0 then NaN else ReduceDen(AbsInt(p), q, g); Rational(p / g, q / g)
  }

  lemma ReduceDen(p: nat, q: nat, g: nat)
    requires g == GcdOf(p, q) && g != 0
    ensures q / g >= 0 && (q / g == 0 <==> q == 0)
  {
    GcdZero(p, q);
    GcdDivides(p, q);
    QuotientAbs(q, g);
  }

  /** The pieces of a reduction: sign-adjusted pair (sp, sq) = g (a, b) with a, b coprime. */
  lemma ReduceParts(r: Rational) returns (sp: int, sq: nat, g: nat, a: int, b: nat)
    requires r.q != 0
    ensures sq > 0 && sp * r.q == r.p * sq
    ensures g > 0 && sp == g * a && sq == g * b
    ensures Reduce(r) == Rational(a, b) && GcdOf(AbsInt(a), b) == 1
  {
    sp := if r.q < 0 then -r.p else r.p;
    sq := if r.q < 0 then -r.q else r.q;
    g := GcdOf(AbsInt(sp), sq);
    GcdDivides(AbsInt(sp), sq);
    QuotientAbs(sp, g);
    QuotientAbs(sq, g);
    a := sp / g;
    b := sq / g;
    CoprimeQuotients(AbsInt(sp), sq, g, AbsInt(a), b);
  }

  /** For q != 0, reduce gives lowest terms, a positive denominator and the same value. */
  lemma ReduceNormal(r: Rational)
    requires r.q != 0
    ensures IsReduced(Reduce(r)) && SameValue(Reduce(r), r)
  {
    var sp, sq, g, a, b := ReduceParts(r);
    ScaledSameValue(r, Reduce(r), sp, sq, g);
  }

  lemma ScaledSameValue(r: Rational, s: Rational, sp: int, sq: nat, g: nat)
    requires sq > 0 && sp * r.q == r.p * sq
    requires g > 0 && sp == g * s.p && sq == g * s.q
    ensures SameValue(s, r)
  {
    assert g * (s.p * r.q) == g * (r.p * s.q) by {
      assert g * (s.p * r.q) == sp * r.q;
      assert g * (r.p * s.q) == r.p * sq;
    }
    MulCancel(g, s.p * r.q, r.p * s.q);
  }

  /** Reduce on a zero denominator: 0/0 stays NaN, anything else becomes +-1/0 ("undefined"). */
  lemma ReduceZeroDen(p: int)
    ensures Reduce(Rational(p, 0)) == if p == 0 then NaN else Rational(if p < 0 then -1 else 1, 0)
  {
    if p != 0 {
      assert GcdOf(AbsInt(p), 0) == AbsInt(p);
      MulMod(AbsInt(p), 1);
      if p < 0 {
        MulMod(AbsInt(p), -1);
        assert p == AbsInt(p) * -1;
      }
    }
  }

  /** A reduced pair is left unchanged. */
  lemma ReduceFixesReduced(r: Rational)
    requires IsReduced(r)
    ensures Reduce(r) == r
  {
    MulMod(1, r.p);
    MulMod(1, r.q);
  }

  /** Reducing twice is reducing once. */
  lemma ReduceIdempotent(r: Rational)
    ensures Reduce(Reduce(r)) == Reduce(r)
  {
    if r.q != 0 {
      ReduceNormal(r);
      ReduceFixesReduced(Reduce(r));
    } else {
      ReduceZeroDen(r.p);
      if r.p != 0 {
        ReduceZeroDen(Reduce(r).p);
      }
    }
  }

  lemma SameValueTransitive(a: Rational, b: Rational, c: Rational)
    requires b.q != 0 && SameValue(a, b) && SameValue(b, c)
    ensures SameValue(a, c)
  {
    assert b.q * (a.p * c.q) == b.q * (c.p * a.q) by {
      calc {
        b.q * (a.p * c.q);
        == (a.p * b.q) * c.q;
        == (b.p * a.q) * c.q;
        == (b.p * c.q) * a.q;
        == (c.p * b.q) * a.q;
        == b.q * (c.p * a.q);
      }
    }
    MulCancel(b.q, a.p * c.q, c.p * a.q);
  }

  /** Two reduced pairs with the same value are equal: the reduced form is unique. */
  lemma ReducedUnique(x: Rational, y: Rational)
    requires IsReduced(x) && IsReduced(y) && SameValue(x, y)
    ensures x == y
  {
    DenominatorDivides(x, y);
    DenominatorDivides(y, x);
    MutualDivision(x.q, y.q);
    MulCancel(x.q, x.p, y.p);
  }

  lemma DenominatorDivides(x: Rational, y: Rational)
    requires IsReduced(x) && IsReduced(y) && SameValue(x, y)
    ensures y.q % x.q == 0
  {
    AbsMul(x.p, y.q);
    AbsMul(y.p, x.q);
    assert AbsInt(x.p) * y.q == x.q * AbsInt(y.p);
    MulMod(x.q, AbsInt(y.p));
    EuclidLemma(AbsInt(x.p), x.q, y.q);
  }

  /** Pairs with nonzero denominators and equal values reduce to the same pair. */
  lemma ReduceCanonical(x: Rational, y: Rational)
    requires x.q != 0 && y.q != 0 && SameValue(x, y)
    ensures Reduce(x) == Reduce(y)
  {
    ReduceNormal(x);
    ReduceNormal(y);
    SameValueTransitive(Reduce(x), x, y);
    SameValueTransitive(Reduce(x), y, Reduce(y));
    ReducedUnique(Reduce(x), Reduce(y));
  }

  /** The reduce tests: the sign moves to the numerator; 3/2 is already in lowest terms. */
  lemma ReduceExamples()
    ensures Reduce(Rational(10, -2)) == Rational(-5, 1)
    ensures Reduce(Rational(-2, -10)) == Rational(1, 5)
    ensures Reduce(Rational(3, 2)) == Rational(3, 2)
  {
    assert GcdOf(5, 1) == 1 by { GcdOne(5); }
    assert GcdOf(10, 2) == 2 by { assert GcdOf(2, 0) == 2; }
    assert GcdOf(2, 10) == 2 by { assert GcdOf(10, 2) == 2 by { assert GcdOf(2, 0) == 2; } }
    assert GcdOf(3, 2) == 1 by { assert GcdOf(2, 1) == GcdOf(1, 0); }
  }

  /**
   * Rescales both operands to the common denominator lcm(a.q, b.q). The source's version
   * rescales `self` in place and returns the rescaled `other`; here both come back as a pair.
   * A zero denominator makes the source divide 0 by 0, so both results are NaN.
   */
  function ComDen(a: Rational, b: Rational): (r: (Rational, Rational))
    ensures a.q != 0 && b.q != 0 ==>
      r.0.q == r.1.q == Lcm(a.q, b.q) && r.0.q != 0 && SameValue(r.0, a) && SameValue(r.1, b)
    ensures a.q == 0 || b.q == 0 ==> r.0 == NaN && r.1 == NaN
  {
    if a.q == 0 || b.q == 0 then (NaN, NaN)
    else
      var l := Lcm(a.q, b.q);
      Rescaled(a, l);
      Rescaled(b, l);
      (Rational(a.p * (l / a.q), l), Rational(b.p * (l / b.q), l))
  }

  lemma Rescaled(a: Rational, l: int)
    requires a.q != 0 && l % a.q == 0
    ensures SameValue(Rational(a.p * (l / a.q), l), a)
  {
    var k := l / a.q;
    assert l == a.q * k;
    assert (a.p * k) * a.q == a.p * (a.q * k);
  }

  /** The source's `+`: rescale both operands, add the numerators, reduce. */
  function Add(a: Rational, b: Rational): Rational {
    var (x, y) := ComDen(a, b);
    Reduce(Rational(x.p + y.p, x.q))
  }

  /** The source's `-`: rescale both operands, subtract the numerators, reduce. */
  function Sub(a: Rational, b: Rational): Rational {
    var (x, y) := ComDen(a, b);
    Reduce(Rational(x.p - y.p, x.q))
  }

  function Mul(a: Rational, b: Rational): Rational {
    Reduce(Rational(a.p * b.p, a.q * b.q))
  }

  /** Cross-multiplication. */
  function Div(a: Rational, b: Rational): Rational {
    Reduce(Rational(a.p * b.q, a.q * b.p))
  }

  /** The four arithmetic operators end in Reduce, so their results are in canonical form. */
  lemma OperatorsReduced(a: Rational, b: Rational)
    ensures Reduce(Add(a, b)) == Add(a, b) && Reduce(Sub(a, b)) == Sub(a, b)
    ensures Reduce(Mul(a, b)) == Mul(a, b) && Reduce(Div(a, b)) == Div(a, b)
  {
    var (x, y) := ComDen(a, b);
    ReduceIdempotent(Rational(x.p + y.p, x.q));
    ReduceIdempotent(Rational(x.p - y.p, x.q));
    ReduceIdempotent(Rational(a.p * b.p, a.q * b.q));
    ReduceIdempotent(Rational(a.p * b.q, a.q * b.p));
  }

  /** Negation flips the numerator and does not reduce. */
  function Neg(a: Rational): (r: Rational)
    ensures r.q == a.q && r.p + a.p == 0
  {
    Rational(-a.p, a.q)
  }

  /** The source's `abs`: absolute values of both parts, then reduce. */
  function Abs(a: Rational): (r: Rational)
    ensures a.q != 0 ==> IsReduced(r) && r.p >= 0 && SameValue(r, Rational(AbsInt(a.p), AbsInt(a.q)))
  {
    var raw := Rational(AbsInt(a.p), AbsInt(a.q));
    if a.q != 0 then ReduceNormal(raw); NonNegativeNumerator(raw); Reduce(raw) else Reduce(raw)
  }

  lemma NonNegativeNumerator(r: Rational)
    requires r.p >= 0 && r.q > 0
    ensures Reduce(r).p >= 0
  {
    var sp, sq, g, a, b := ReduceParts(r);
    MulBound(g, a);
  }

  /** The sum of two fractions with nonzero denominators is the reduced p1/q1 + p2/q2. */
  lemma AddValue(a: Rational, b: Rational)
    requires a.q != 0 && b.q != 0
    ensures Add(a, b) == Reduce(Rational(a.p * b.q + b.p * a.q, a.q * b.q))
  {
    var (x, y) := ComDen(a, b);
    CombinedValue(a, b, x, y, 1);
    ReduceCanonical(Rational(x.p + y.p, x.q), Rational(a.p * b.q + b.p * a.q, a.q * b.q));
  }

  /** The difference of two fractions with nonzero denominators is the reduced p1/q1 - p2/q2. */
  lemma SubValue(a: Rational, b: Rational)
    requires a.q != 0 && b.q != 0
    ensures Sub(a, b) == Reduce(Rational(a.p * b.q - b.p * a.q, a.q * b.q))
  {
    var (x, y) := ComDen(a, b);
    CombinedValue(a, b, x, y, -1);
    assert x.p + -1 * y.p == x.p - y.p;
    assert a.p * b.q + -1 * (b.p * a.q) == a.p * b.q - b.p * a.q;
    ReduceCanonical(Rational(x.p - y.p, x.q), Rational(a.p * b.q - b.p * a.q, a.q * b.q));
  }

  /** Rescaled operands over a common denominator combine to (p1 q2 + s p2 q1) / (q1 q2). */
  lemma CombinedValue(a: Rational, b: Rational, x: Rational, y: Rational, s: int)
    requires a.q != 0 && b.q != 0 && x.q == y.q != 0
    requires SameValue(x, a) && SameValue(y, b)
    ensures a.q * b.q != 0
    ensures SameValue(Rational(x.p + s * y.p, x.q), Rational(a.p * b.q + s * (b.p * a.q), a.q * b.q))
  {
    NonzeroProduct(a.q, b.q);
    CrossCombine(x.p, y.p, a.p, a.q, b.p, b.q, x.q, s);
  }

  lemma NonzeroProduct(m: int, n: int)
    requires m != 0 && n != 0
    ensures m * n != 0
  {
    MulBound(AbsInt(m), n);
    AbsMul(m, AbsInt(n));
  }

  lemma CrossCombine(xp: int, yp: int, ap: int, aq: int, bp: int, bq: int, l: int, s: int)
    requires xp * aq == ap * l && yp * bq == bp * l
    ensures (xp + s * yp) * (aq * bq) == (ap * bq + s * (bp * aq)) * l
  {
    calc {
      (xp + s * yp) * (aq * bq);
      == (xp * aq) * bq + s * ((yp * bq) * aq);
      == (ap * l) * bq + s * ((bp * l) * aq);
      == (ap * bq + s * (bp * aq)) * l;
    }
  }

  /** Adding or subtracting with a zero denominator yields NaN. */
  lemma AddSubZeroDen(a: Rational, b: Rational)
    requires a.q == 0 || b.q == 0
    ensures Add(a, b) == NaN && Sub(a, b) == NaN
  {
    ReduceZeroDen(0);
  }

  /** Subtraction is addition of the negation. */
  lemma SubIsAddNeg(a: Rational, b: Rational)
    ensures Sub(a, b) == Add(a, Neg(b))
  {
    if a.q != 0 && b.q != 0 {
      var l := Lcm(a.q, b.q);
      assert -b.p * (l / b.q) == -(b.p * (l / b.q));
    } else {
      AddSubZeroDen(a, b);
      AddSubZeroDen(a, Neg(b));
    }
  }

  /** Addition is commutative. */
  lemma AddCommutes(a: Rational, b: Rational)
    ensures Add(a, b) == Add(b, a)
  {
    if a.q != 0 && b.q != 0 {
      AddValue(a, b);
      AddValue(b, a);
      assert a.p * b.q + b.p * a.q == b.p * a.q + a.p * b.q;
      assert a.q * b.q == b.q * a.q;
    } else {
      AddSubZeroDen(a, b);
      AddSubZeroDen(b, a);
    }
  }

  /** A value plus its negation is zero. */
  lemma AddNegIsZero(a: Rational)
    requires a.q != 0
    ensures Add(a, Neg(a)) == Zero()
  {
    AddValue(a, Neg(a));
    assert a.p * a.q + -a.p * a.q == 0;
    ReduceCanonical(Rational(0, a.q * a.q), Zero());
    ReduceFixesReduced(Zero());
  }

  /** Negating twice gives the original pair. */
  lemma NegInvolution(a: Rational)
    ensures Neg(Neg(a)) == a
  {
  }

  /** For nonzero denominators the product is the reduced p1 p2 / (q1 q2), in lowest terms. */
  lemma MulValue(a: Rational, b: Rational)
    requires a.q != 0 && b.q != 0
    ensures IsReduced(Mul(a, b)) && SameValue(Mul(a, b), Rational(a.p * b.p, a.q * b.q))
  {
    MulBound(AbsInt(a.q), AbsInt(b.q));
    AbsMul(a.q, AbsInt(b.q));
    ReduceNormal(Rational(a.p * b.p, a.q * b.q));
  }

  /** Multiplication is commutative. */
  lemma MulCommutes(a: Rational, b: Rational)
    ensures Mul(a, b) == Mul(b, a)
  {
    assert a.p * b.p == b.p * a.p && a.q * b.q == b.q * a.q;
  }

  /** Dividing is multiplying by the reciprocal pair. */
  lemma DivIsMulReciprocal(a: Rational, b: Rational)
    ensures Div(a, b) == Mul(a, Rational(b.q, b.p))
  {
  }

  /**
   * A divisor with a zero numerator gives a zero denominator: "undefined" when the dividend's
   * numerator and the divisor's denominator are nonzero, NaN otherwise.
   */
  lemma DivByZero(a: Rational, b: Rational)
    requires b.p == 0
    ensures Div(a, b).q == 0
    ensures Div(a, b) == NaN <==> a.p * b.q == 0
  {
    assert a.q * b.p == 0;
    ReduceZeroDen(a.p * b.q);
  }

  /** The floating-point library, which the model does not interpret: each entry returns the raw pair. */
  datatype FloatOps = FloatOps(
    sqrt: Rational -> Rational,
    powf: (Rational, Rational) -> Rational,
    log: (Rational, Rational) -> Rational,
    rem: (Rational, Rational) -> Rational)

  /** The float operations always hand back a reduced pair. */
  function Sqrt(fl: FloatOps, a: Rational): (r: Rational)
    ensures Reduce(r) == r
  {
    ReduceIdempotent(fl.sqrt(a));
    Reduce(fl.sqrt(a))
  }

  function Pow(fl: FloatOps, a: Rational, x: Rational): (r: Rational)
    ensures Reduce(r) == r
  {
    ReduceIdempotent(fl.powf(a, x));
    Reduce(Reduce(fl.powf(a, x)))
  }

  function Log(fl: FloatOps, a: Rational, x: Rational): (r: Rational)
    ensures Reduce(r) == r
  {
    ReduceIdempotent(fl.log(a, x));
    Reduce(fl.log(a, x))
  }

  function Rem(fl: FloatOps, a: Rational, x: Rational): (r: Rational)
    ensures Reduce(r) == r
  {
    ReduceIdempotent(fl.rem(a, x));
    Reduce(fl.rem(a, x))
  }

  /** Display of the reduced value: "undefined" for a zero denominator, "p" when q = 1, else "p/q". */
  function Display(a: Rational): string {
    var r := Reduce(a);
    if r.q == 0 then (if r.p == 0 then "NaN/NaN" else "undefined")
    else if r.q == 1 then IntToString(r.p)
    else IntToString(r.p) + "/" + IntToString(r.q)
  }

  /** A displayed value with a nonzero denominator starts with '-' or a digit. */
  lemma DisplayStart(a: Rational)
    requires a.q != 0
    ensures |Display(a)| >= 1 && (Display(a)[0] == '-' || IsDigit(Display(a)[0]))
  {
    ReduceNormal(a);
  }

  /** "undefined" is shown exactly for a zero denominator over a nonzero numerator. */
  lemma DisplayUndefined(a: Rational)
    ensures Display(a) == "undefined" <==> a.q == 0 && a.p != 0
  {
    if a.q == 0 {
      ReduceZeroDen(a.p);
    } else {
      DisplayStart(a);
    }
  }

  /** "NaN/NaN" is shown exactly for the pair 0/0. */
  lemma DisplayNaN(a: Rational)
    ensures Display(a) == "NaN/NaN" <==> a.q == 0 && a.p == 0
  {
    if a.q == 0 {
      ReduceZeroDen(a.p);
    } else {
      DisplayStart(a);
    }
  }

  /** A value whose reduced denominator is 1 is shown as the bare integer. */
  lemma DisplayInteger(n: int, k: int)
    requires k != 0
    ensures Display(Rational(n * k, k)) == IntToString(n)
  {
    ReduceCanonical(Rational(n * k, k), Rational(n, 1));
    GcdOne(AbsInt(n));
    ReduceFixesReduced(Rational(n, 1));
  }

  lemma NoSlash(x: int, y: int, z: int)
    ensures IntToString(x) != IntToString(y) + "/" + IntToString(z)
  {
    var w := IntToString(y) + "/" + IntToString(z);
    assert w[|IntToString(y)|] == '/';
  }

  /** For nonzero denominators the display identifies the value: equal texts, equal values. */
  lemma DisplayFaithful(a: Rational, b: Rational)
    requires a.q != 0 && b.q != 0
    ensures Display(a) == Display(b) <==> SameValue(a, b)
  {
    ReduceNormal(a);
    ReduceNormal(b);
    var ra, rb := Reduce(a), Reduce(b);
    if SameValue(a, b) {
      ReduceCanonical(a, b);
    }
    if ra.q == 1 && rb.q == 1 {
      if Display(a) == Display(b) {
        IntToStringInjective(ra.p, rb.p);
      }
    } else if ra.q != 1 && rb.q != 1 {
      if Display(a) == Display(b) {
        IntToStringNoSlash(ra.p);
        IntToStringNoSlash(rb.p);
        SeparatorUnique(IntToString(ra.p), IntToString(ra.q), IntToString(rb.p), IntToString(rb.q), '/');
        IntToStringInjective(ra.p, rb.p);
        IntToStringInjective(ra.q, rb.q);
      }
    } else if ra.q == 1 {
      NoSlash(ra.p, rb.p, rb.q);
    } else {
      NoSlash(rb.p, ra.p, ra.q);
    }
    if ra == rb {
      SameValueTransitive(a, ra, b);
    }
  }

  lemma IntToStringNoSlash(x: int)
    ensures '/' !in IntToString(x)
  {
  }

  /** A finite binary float: the exact value m / 2^e. */
  datatype Dyadic = Dyadic(m: int, e: nat)

  /**
   * The older snapshot's `From<f64>`: the pair (x, 1), reduced. On x = m / 2^e the float loop
   * computes gcd(m, 2^e) / 2^e, because `%` on floats is exact, so dividing by it gives the
   * pair that reducing m / 2^e over the integers gives.
   */
  function OldFromFloat(x: Dyadic): (r: Rational)
    ensures IsReduced(r) && SameValue(r, Rational(x.m, Pow2(x.e)))
    ensures x.e == 0 ==> r == Rational(x.m, 1)
  {
    var r := Reduce(Rational(x.m, Pow2(x.e)));
    ReduceNormal(Rational(x.m, Pow2(x.e)));
    if x.e == 0 then
      GcdOne(AbsInt(x.m));
      ReducedUnique(r, Rational(x.m, 1));
      r
    else r
  }
}
