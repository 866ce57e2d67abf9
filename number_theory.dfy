/** Integer facts the fraction type rests on: Euclid's algorithm, divisibility, powers of ten. */
module NumberTheory {

  function AbsInt(x: int): nat {
    if x < 0 then -x else x
  }

  function Pow10(k: nat): (r: nat)
    ensures r >= 1
  {
    if k == 0 then 1 else 10 * Pow10(k - 1)
  }

  function Pow2(e: nat): (r: nat)
    ensures r >= 1
  {
    if e == 0 then 1 else 2 * Pow2(e - 1)
  }

  /** Euclid's algorithm on naturals: the recursion the source's `gcd` loop runs. */
  function GcdOf(x: nat, y: nat): nat
    decreases y
  {
    if y == 0 then x else GcdOf(y, x % y)
  }

  /** A nonzero multiple of b is at least b away from zero. */
  lemma MulBound(b: int, d: int)
    requires b > 0
    ensures d >= 1 ==> b * d >= b
    ensures d <= -1 ==> b * d <= -b
    ensures d == 0 <==> b * d == 0
  {
    if d >= 1 {
      assert b * d == b * (d - 1) + b;
      assert b * (d - 1) >= 0;
    } else if d <= -1 {
      assert b * d == b * (d + 1) - b;
      assert b * (d + 1) <= 0;
    }
  }

  lemma MulCancel(g: int, u: int, v: int)
    requires g != 0 && g * u == g * v
    ensures u == v
  {
    if g > 0 {
      assert g * (u - v) == g * u - g * v;
      MulBound(g, u - v);
    } else {
      assert (-g) * (u - v) == g * v - g * u;
      MulBound(-g, u - v);
    }
  }

  /** Euclidean division is determined by the quotient/remainder equation (any nonzero divisor). */
  lemma ModUnique(a: int, b: int, q: int, r: int)
    requires b != 0 && a == b * q + r && 0 <= r < AbsInt(b)
    ensures a / b == q && a % b == r
  {
    var q0, r0 := a / b, a % b;
    assert a == b * q0 + r0;
    if b > 0 {
      assert b * (q - q0) == r0 - r;
      MulBound(b, q - q0);
    } else {
      assert (-b) * (q0 - q) == r0 - r;
      MulBound(-b, q0 - q);
    }
  }

  lemma MulMod(d: int, m: int)
    requires d != 0
    ensures (d * m) % d == 0 && (d * m) / d == m
  {
    ModUnique(d * m, d, m, 0);
  }

  /** A multiple of d plus a multiple of d is a multiple of d. */
  lemma DividesLinear(d: int, a: int, b: int, k: int)
    requires d > 0 && a % d == 0 && b % d == 0
    ensures (a * k + b) % d == 0 && (b - a * k) % d == 0
  {
    var a', b' := a / d, b / d;
    assert a == d * a' && b == d * b';
    assert a * k + b == d * (a' * k + b');
    assert b - a * k == d * (b' - a' * k);
    MulMod(d, a' * k + b');
    MulMod(d, b' - a' * k);
  }

  lemma {:induction false} GcdZero(x: nat, y: nat)
    ensures GcdOf(x, y) == 0 <==> x == 0 && y == 0
    decreases y
  {
    if y != 0 {
      GcdZero(y, x % y);
    }
  }

  /** The gcd divides both arguments. */
  lemma {:induction false} GcdDivides(x: nat, y: nat)
    requires x != 0 || y != 0
    ensures GcdOf(x, y) > 0 && x % GcdOf(x, y) == 0 && y % GcdOf(x, y) == 0
    decreases y
  {
    GcdZero(x, y);
    if y == 0 {
      MulMod(x, 1);
    } else {
      GcdDivides(y, x % y);
      var g := GcdOf(x, y);
      assert x == y * (x / y) + x % y;
      DividesLinear(g, y, x % y, x / y);
    }
  }

  /** Every common divisor divides the gcd. */
  lemma {:induction false} GcdGreatest(x: nat, y: nat, d: int)
    requires d > 0 && x % d == 0 && y % d == 0
    ensures GcdOf(x, y) % d == 0
    decreases y
  {
    if y != 0 {
      assert x % y == x - y * (x / y);
      DividesLinear(d, y, x, x / y);
      GcdGreatest(y, x % y, d);
    }
  }

  /** gcd(k x, k y) = k gcd(x, y). */
  lemma {:induction false} GcdHomogeneous(k: nat, x: nat, y: nat)
    requires k > 0
    ensures GcdOf(k * x, k * y) == k * GcdOf(x, y)
    decreases y
  {
    if y != 0 {
      assert k * y > 0;
      var r := x % y;
      assert x == y * (x / y) + r;
      assert k * x == (k * y) * (x / y) + k * r;
      assert 0 <= k * r < k * y;
      ModUnique(k * x, k * y, x / y, k * r);
      GcdHomogeneous(k, y, r);
    }
  }

  /** If g = gcd(g a, g b), then a and b are coprime. */
  lemma CoprimeParts(x: nat, y: nat, g: nat, a: nat, b: nat)
    requires g > 0 && x == g * a && y == g * b && GcdOf(x, y) == g
    ensures GcdOf(a, b) == 1
  {
    GcdHomogeneous(g, a, b);
    MulCancel(g, GcdOf(a, b), 1);
  }

  /** A multiple of g is g times its quotient by g. */
  lemma QuotientTimes(x: nat, g: nat)
    requires g > 0 && x % g == 0
    ensures x == g * (x / g)
  {
  }

  /** Dividing out a nonzero gcd g leaves coprime parts a and b. */
  lemma {:induction false} CoprimeQuotients(x: nat, y: nat, g: nat, a: nat, b: nat)
    requires g > 0 && g == GcdOf(x, y) && a == x / g && b == y / g
    ensures GcdOf(a, b) == 1
  {
    GcdDivides(x, y);
    QuotientTimes(x, g);
    QuotientTimes(y, g);
    CoprimeParts(x, y, g, a, b);
  }

  /** Divisibility of the two scaled arguments in Euclid's lemma. */
  lemma ScaledDivisible(a: nat, m: nat, k: nat)
    requires m > 0 && (a * k) % m == 0
    ensures (k * a) % m == 0 && (k * m) % m == 0
  {
    assert k * a == a * k;
    MulMod(m, k);
    assert k * m == m * k;
  }

  /** Euclid's lemma: m | a k and gcd(a, m) = 1 give m | k. */
  lemma {:induction false} EuclidLemma(a: nat, m: nat, k: nat)
    requires m > 0 && GcdOf(a, m) == 1 && (a * k) % m == 0
    ensures k % m == 0
  {
    if k > 0 {
      GcdHomogeneous(k, a, m);
      ScaledDivisible(a, m, k);
      GcdGreatest(k * a, k * m, m);
    } else {
      assert k == 0;
    }
  }

  /** Two positive numbers that divide each other are equal. */
  lemma MutualDivision(x: int, y: int)
    requires x > 0 && y > 0 && x % y == 0 && y % x == 0
    ensures x == y
  {
    assert x == y * (x / y);
    assert y == x * (y / x);
    MulBound(y, x / y);
    MulBound(x, y / x);
  }

  /** gcd(x, 1) = 1. */
  lemma GcdOne(x: nat)
    ensures GcdOf(x, 1) == 1
  {
    assert x % 1 == 0;
    assert GcdOf(x, 1) == GcdOf(1, 0);
  }

  /** A multiple of g, of either sign, is g times its quotient, and the quotient's size is |x| / g. */
  lemma QuotientAbs(x: int, g: nat)
    requires g > 0 && AbsInt(x) % g == 0
    ensures x % g == 0 && x == g * (x / g) && AbsInt(x / g) == AbsInt(x) / g
  {
    var c := AbsInt(x) / g;
    assert AbsInt(x) == g * c;
    if x >= 0 {
      MulMod(g, c);
    } else {
      assert x == g * (-c) + 0;
      ModUnique(x, g, -c, 0);
      MulMod(g, c);
    }
  }

  lemma AbsMul(u: int, v: nat)
    ensures AbsInt(u * v) == AbsInt(u) * v
  {
    if u < 0 {
      assert u * v == -((-u) * v);
    }
  }

  /** Division facts for a positive divisor, packaged for contexts where the divisor is a power. */
  lemma DivModNat(a: nat, d: nat)
    requires d >= 1
    ensures a / d >= 0 && 0 <= a % d < d && a / d * d + a % d == a
  {
  }
}
