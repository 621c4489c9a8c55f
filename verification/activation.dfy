/** The two activation approximations of the inference kernel, over the reals.

    `tanh_approx` clamps to -1 and 1 outside [-3, 3] and uses the rational
    function x(27 + x^2) / (27 + 9x^2) inside; `exp_approx` is the degree-9
    Taylor polynomial of the exponential, built term by term. Single-precision
    rounding is not modelled. */
module Activation {

  /** `tanh_approx`. */
  function TanhApprox(x: real): (y: real)
    ensures -1.0 <= y <= 1.0
    ensures x < -3.0 ==> y == -1.0
    ensures x > 3.0 ==> y == 1.0
    ensures (x > 0.0 ==> y > 0.0) && (x < 0.0 ==> y < 0.0) && (x == 0.0 ==> y == 0.0)
    ensures -3.0 <= x <= 3.0 ==> (if x >= 0.0 then y <= x else x <= y)
  {
    if x < -3.0 then -1.0
    else if x > 3.0 then 1.0
    else
      RationalBounds(x);
      x * (27.0 + x * x) / (27.0 + 9.0 * x * x)
  }

  /** On [-3, 3]: 1 - f(x) = (3 - x)^3 / (27 + 9x^2) and 1 + f(x) = (3 + x)^3 /
      (27 + 9x^2), both non-negative, and |f(x)| <= |x| because the
      denominator is at least the second factor of the numerator. */
  lemma RationalBounds(x: real)
    requires -3.0 <= x <= 3.0
    ensures var y := x * (27.0 + x * x) / (27.0 + 9.0 * x * x);
      -1.0 <= y <= 1.0 &&
      (x > 0.0 ==> 0.0 < y <= x) && (x < 0.0 ==> x <= y < 0.0) && (x == 0.0 ==> y == 0.0)
  {
    RationalWithinOne(x);
    if x > 0.0 {
      RationalPositive(x);
    } else if x < 0.0 {
      RationalNegative(x);
    }
  }

  /** On [-3, 3] the quotient lies in [-1, 1]. */
  lemma RationalWithinOne(x: real)
    requires -3.0 <= x <= 3.0
    ensures var y := x * (27.0 + x * x) / (27.0 + 9.0 * x * x);
      -1.0 <= y <= 1.0
  {
    var d := 27.0 + 9.0 * x * x;
    var n := x * (27.0 + x * x);
    SquareNonNegative(x);
    assert d > 0.0;
    var lo := 3.0 - x;
    var hi := 3.0 + x;
    assert d - n == lo * (lo * lo);
    assert d + n == hi * (hi * hi);
    SquareNonNegative(lo);
    SquareNonNegative(hi);
    MulNonNegative(lo, lo * lo);
    MulNonNegative(hi, hi * hi);
    assert -1.0 * d <= n <= 1.0 * d;
    DivBetween(n, d, -1.0, 1.0);
  }

  /** For positive x the quotient lies in (0, x]. */
  lemma RationalPositive(x: real)
    requires x > 0.0
    ensures var y := x * (27.0 + x * x) / (27.0 + 9.0 * x * x);
      0.0 < y <= x
  {
    var d := 27.0 + 9.0 * x * x;
    var b := 27.0 + x * x;
    var n := x * b;
    SquareNonNegative(x);
    assert 0.0 < b <= d;
    MulMonotone(x, b, d);
    MulPositive(x, b);
    assert x * d == d * x;
    assert 0.0 * d == 0.0;
    DivBetween(n, d, 0.0, x);
    DivPositive(n, d);
  }

  /** For negative x the quotient lies in [x, 0). */
  lemma RationalNegative(x: real)
    requires x < 0.0
    ensures var y := x * (27.0 + x * x) / (27.0 + 9.0 * x * x);
      x <= y < 0.0
  {
    var d := 27.0 + 9.0 * x * x;
    var n := x * (27.0 + x * x);
    var nx := -x;
    assert nx * nx == x * x;
    RationalPositive(nx);
    assert nx * (27.0 + nx * nx) == -n;
    assert 27.0 + 9.0 * nx * nx == d;
    assert 0.0 < (-n) / d <= nx;
    assert (-n) / d == -(n / d);
  }

  lemma SquareNonNegative(a: real)
    ensures a * a >= 0.0
  {
    if a < 0.0 {
      assert a * a == (-a) * (-a);
      MulNonNegative(-a, -a);
    } else {
      MulNonNegative(a, a);
    }
  }

  lemma MulNonNegative(a: real, b: real)
    requires a >= 0.0 && b >= 0.0
    ensures a * b >= 0.0
  {
  }

  lemma MulPositive(a: real, b: real)
    requires a > 0.0 && b > 0.0
    ensures a * b > 0.0
  {
  }

  /** a * b <= a * c when 0 <= a and b <= c. */
  lemma MulMonotone(a: real, b: real, c: real)
    requires a >= 0.0 && b <= c
    ensures a * b <= a * c
  {
    MulNonNegative(a, c - b);
    assert a * (c - b) == a * c - a * b;
  }

  /** lo <= n / d <= hi when lo * d <= n <= hi * d and d > 0. */
  lemma DivBetween(n: real, d: real, lo: real, hi: real)
    requires d > 0.0 && lo * d <= n <= hi * d
    ensures lo <= n / d <= hi
  {
    var y := n / d;
    assert y * d == n;
    assert (y - lo) * d == n - lo * d;
    assert (hi - y) * d == hi * d - n;
    SignFromProduct(y - lo, d);
    SignFromProduct(hi - y, d);
  }

  /** a >= 0 when a * d >= 0 and d > 0. */
  lemma SignFromProduct(a: real, d: real)
    requires d > 0.0 && a * d >= 0.0
    ensures a >= 0.0
  {
    if a < 0.0 {
      MulPositive(-a, d);
      assert false;
    }
  }

  lemma DivPositive(n: real, d: real)
    requires n > 0.0 && d > 0.0
    ensures n / d > 0.0
  {
    var y := n / d;
    assert y * d == n;
    SignFromProduct(y, d);
  }

  /** `tanh_approx` is odd. */
  lemma TanhOdd(x: real)
    ensures TanhApprox(-x) == -TanhApprox(x)
  {
    if -3.0 <= x <= 3.0 {
      var d := 27.0 + 9.0 * x * x;
      assert 27.0 + 9.0 * (-x) * (-x) == d;
      assert (-x) * (27.0 + (-x) * (-x)) == -(x * (27.0 + x * x));
    }
  }

  /** The two pieces meet: the rational part is exactly 1 at 3 and -1 at -3. */
  lemma TanhContinuousAtClamp()
    ensures 3.0 * (27.0 + 3.0 * 3.0) / (27.0 + 9.0 * 3.0 * 3.0) == 1.0
    ensures TanhApprox(3.0) == 1.0 && TanhApprox(-3.0) == -1.0
  {
  }

  // ---------------------------------------------------------------------
  // exp_approx

  function Pow(x: real, n: nat): real {
    if n == 0 then 1.0 else x * Pow(x, n - 1)
  }

  function Fact(n: nat): (f: real)
    ensures f >= 1.0
  {
    if n == 0 then 1.0 else (n as real) * Fact(n - 1)
  }

  /** Reference definition: 1 + x + x^2/2! + ... + x^n/n!. */
  function TaylorExp(x: real, n: nat): real {
    if n == 0 then 1.0 else TaylorExp(x, n - 1) + Pow(x, n) / Fact(n)
  }

  /** The number of loop rounds of `exp_approx` (n = 1 .. 9). */
  const EXP_TERMS: nat := 9

  /** `exp_approx` as written: `term *= x / n; result += term;` for n = 1 .. 9. */
  method ExpApproxLoop(x: real) returns (result: real)
    ensures result == TaylorExp(x, EXP_TERMS)
  {
    result := 1.0;
    var term := 1.0;
    var n := 1;
    while n < 10
      invariant 1 <= n <= 10
      invariant term == Pow(x, n - 1) / Fact(n - 1)
      invariant result == TaylorExp(x, n - 1)
    {
      TermStep(x, n);
      term := term * (x / n as real);
      result := result + term;
      n := n + 1;
    }
  }

  /** One round of the loop turns x^(n-1)/(n-1)! into x^n/n!. */
  lemma TermStep(x: real, n: nat)
    requires n >= 1
    ensures Pow(x, n - 1) / Fact(n - 1) * (x / n as real) == Pow(x, n) / Fact(n)
  {
    var p := Pow(x, n - 1);
    var f := Fact(n - 1);
    assert Pow(x, n) == x * p;
    assert Fact(n) == (n as real) * f;
    calc {
      p / f * (x / n as real);
      (p * x) / (f * n as real);
      (x * p) / ((n as real) * f);
    }
  }

  /** The value `exp_approx` returns. */
  function ExpApprox(x: real): real {
    TaylorExp(x, EXP_TERMS)
  }

  /** `exp_approx(0) == 1`. */
  lemma {:induction false} TaylorExpAtZero(n: nat)
    ensures TaylorExp(0.0, n) == 1.0
  {
    if n > 0 {
      TaylorExpAtZero(n - 1);
      assert Pow(0.0, n) == 0.0 * Pow(0.0, n - 1);
    }
  }

  lemma ExpApproxAtZero()
    ensures ExpApprox(0.0) == 1.0
  {
    TaylorExpAtZero(EXP_TERMS);
  }

  /** Pairing each even term with the next one: for x >= -1 every partial sum
      of odd degree 2k+1 is non-negative, and positive from degree 3 on. */
  lemma {:induction false} TaylorExpOddPositive(x: real, k: nat)
    requires x >= -1.0
    ensures TaylorExp(x, 2 * k + 1) >= 0.0
    ensures k >= 1 ==> TaylorExp(x, 2 * k + 1) > 0.0
  {
    if k <= 1 {
      TaylorExpDegreeThree(x);
    } else {
      TaylorExpOddPositive(x, k - 1);
      PairNonNegative(x, k);
    }
  }

  /** The sums of degree 1 and 3 for x >= -1. */
  lemma TaylorExpDegreeThree(x: real)
    requires x >= -1.0
    ensures TaylorExp(x, 1) >= 0.0
    ensures TaylorExp(x, 3) > 0.0
  {
    assert Pow(x, 1) == x;
    assert Pow(x, 2) == x * x;
    assert Pow(x, 3) == x * (x * x);
    assert Fact(1) == 1.0 && Fact(2) == 2.0 && Fact(3) == 6.0;
    assert TaylorExp(x, 1) == 1.0 + x;
    assert TaylorExp(x, 2) == 1.0 + x + x * x / 2.0;
    assert TaylorExp(x, 3) == 1.0 + x + x * x / 2.0 + x * (x * x) / 6.0;
    SquareNonNegative(x);
    MulNonNegative(x * x, 3.0 + x);
    assert x * x / 2.0 + x * (x * x) / 6.0 == (x * x) * (3.0 + x) / 6.0;
    var q := (x * x) * (3.0 + x) / 6.0;
    assert q >= 0.0;
    assert TaylorExp(x, 3) == (1.0 + x) + q;
    if x == -1.0 {
      assert q == 1.0 / 3.0;
    }
  }

  /** x^(2k)/(2k)! + x^(2k+1)/(2k+1)! = x^(2k)/(2k)! (1 + x/(2k+1)) >= 0. */
  lemma PairNonNegative(x: real, k: nat)
    requires x >= -1.0 && k >= 1
    ensures TaylorExp(x, 2 * k + 1) >= TaylorExp(x, 2 * k - 1)
  {
    var m := 2 * k;
    var p := Pow(x, m);
    var f := Fact(m);
    var c := (m + 1) as real;
    EvenPowNonNegative(x, k);
    assert Pow(x, m + 1) == x * p;
    assert Fact(m + 1) == c * f;
    DivNonNegative(p, f);
    var a := p / f;
    var r := x / c;
    DivProduct(p, f, x, c);
    DivAtLeastMinusOne(x, c);
    var t := 1.0 + r;
    MulNonNegative(a, t);
    assert a + a * r == a * t;
    assert TaylorExp(x, m) == TaylorExp(x, m - 1) + a;
    assert TaylorExp(x, m + 1) == TaylorExp(x, m) + a * r;
    assert 2 * k + 1 == m + 1 && 2 * k - 1 == m - 1;
  }

  /** (x p) / (c f) == (p / f)(x / c). */
  lemma DivProduct(p: real, f: real, x: real, c: real)
    requires f != 0.0 && c != 0.0
    ensures (x * p) / (c * f) == (p / f) * (x / c)
  {
    var a := p / f;
    var b := x / c;
    assert a * f == p;
    assert b * c == x;
    assert (a * b) * (c * f) == (a * f) * (b * c);
    assert c * f != 0.0;
  }

  lemma DivNonNegative(n: real, d: real)
    requires n >= 0.0 && d > 0.0
    ensures n / d >= 0.0
  {
    DivBetween(n, d, 0.0, n / d);
  }

  lemma DivAtLeastMinusOne(x: real, c: real)
    requires x >= -1.0 && c >= 1.0
    ensures x / c >= -1.0
  {
    if x < 0.0 {
      DivBetween(x, c, -1.0, 0.0);
    } else {
      DivNonNegative(x, c);
    }
  }

  lemma {:induction false} EvenPowNonNegative(x: real, k: nat)
    ensures Pow(x, 2 * k) >= 0.0
  {
    if k > 0 {
      EvenPowNonNegative(x, k - 1);
      assert Pow(x, 2 * k) == x * (x * Pow(x, 2 * k - 2));
      assert x * x >= 0.0;
      assert Pow(x, 2 * k) == (x * x) * Pow(x, 2 * k - 2);
    }
  }

  /** On every score `tanh_approx` can produce, `exp_approx` is positive, so
      the softmax denominator is never zero or negative there. */
  lemma ExpApproxPositive(x: real)
    requires x >= -1.0
    ensures ExpApprox(x) > 0.0
  {
    TaylorExpOddPositive(x, 4);
    assert 2 * 4 + 1 == EXP_TERMS;
  }

  // ---------------------------------------------------------------------
  // exp_approx is increasing on [-1, 1]

  /** (b^k - a^k) / (b - a) as a polynomial: b^(k-1) + a b^(k-2) + ... + a^(k-1). */
  function PowGap(a: real, b: real, k: nat): real {
    if k == 0 then 0.0 else Pow(b, k - 1) + a * PowGap(a, b, k - 1)
  }

  lemma {:induction false} PowGapFactors(a: real, b: real, k: nat)
    ensures Pow(b, k) - Pow(a, k) == (b - a) * PowGap(a, b, k)
  {
    if k > 0 {
      PowGapFactors(a, b, k - 1);
      var pb, pa, g := Pow(b, k - 1), Pow(a, k - 1), PowGap(a, b, k - 1);
      assert (b - a) * g == pb - pa;
      assert (b - a) * (pb + a * g) == (b - a) * pb + a * ((b - a) * g);
    }
  }

  /** |x p| <= m when |x| <= 1 and |p| <= m. */
  lemma ProductWithin(x: real, p: real, m: real)
    requires -1.0 <= x <= 1.0 && -m <= p <= m
    ensures -m <= x * p <= m
  {
    var ax := if x >= 0.0 then x else -x;
    var ap := if p >= 0.0 then p else -p;
    MulMonotone(ap, ax, 1.0);
    MulNonNegative(ap, ax);
    var q := ap * ax;
    assert 0.0 <= q <= ap * 1.0 == ap <= m;
    assert x * p == q || x * p == -q;
  }

  lemma {:induction false} PowWithinOne(x: real, n: nat)
    requires -1.0 <= x <= 1.0
    ensures -1.0 <= Pow(x, n) <= 1.0
  {
    if n > 0 {
      PowWithinOne(x, n - 1);
      ProductWithin(x, Pow(x, n - 1), 1.0);
    }
  }

  /** `k` as a real, counted up in reals so that the bounds below stay in
      real arithmetic. */
  function RealCount(k: nat): real {
    if k == 0 then 0.0 else RealCount(k - 1) + 1.0
  }

  /** On [-1, 1] the k terms of the gap polynomial are each at most 1 in size. */
  lemma {:induction false} PowGapWithin(a: real, b: real, k: nat)
    requires -1.0 <= a <= 1.0 && -1.0 <= b <= 1.0
    ensures -RealCount(k) <= PowGap(a, b, k) <= RealCount(k)
  {
    if k > 0 {
      PowGapWithin(a, b, k - 1);
      PowWithinOne(b, k - 1);
      GapGrowsByOne(PowGap(a, b, k), Pow(b, k - 1), a, PowGap(a, b, k - 1), RealCount(k - 1));
    }
  }

  /** One step of the gap polynomial, `r = t + a g`, adds at most 1 to its
      size bound. */
  lemma GapGrowsByOne(r: real, t: real, a: real, g: real, m: real)
    requires r == t + a * g
    requires -1.0 <= t <= 1.0 && -1.0 <= a <= 1.0 && -m <= g <= m
    ensures -(m + 1.0) <= r <= m + 1.0
  {
    ProductWithin(a, g, m);
  }

  /** (T_n(b) - T_n(a)) / (b - a), term by term. */
  function ExpGap(a: real, b: real, n: nat): real {
    if n == 0 then 0.0 else ExpGap(a, b, n - 1) + PowGap(a, b, n) / Fact(n)
  }

  lemma {:induction false} TaylorGapFactors(a: real, b: real, n: nat)
    ensures TaylorExp(b, n) - TaylorExp(a, n) == (b - a) * ExpGap(a, b, n)
  {
    if n > 0 {
      TaylorGapFactors(a, b, n - 1);
      PowGapFactors(a, b, n);
      TaylorGapStep(a, b, n);
    } else {
      ZeroGap(TaylorExp(b, 0), TaylorExp(a, 0), b - a, ExpGap(a, b, 0));
    }
  }

  lemma ZeroGap(tb: real, ta: real, d: real, e: real)
    requires tb == 1.0 && ta == 1.0 && e == 0.0
    ensures tb - ta == d * e
  {
  }

  /** The inductive step of `TaylorGapFactors`. */
  lemma TaylorGapStep(a: real, b: real, n: nat)
    requires n > 0
    requires TaylorExp(b, n - 1) - TaylorExp(a, n - 1) == (b - a) * ExpGap(a, b, n - 1)
    requires Pow(b, n) - Pow(a, n) == (b - a) * PowGap(a, b, n)
    ensures TaylorExp(b, n) - TaylorExp(a, n) == (b - a) * ExpGap(a, b, n)
  {
    GapSumStep(TaylorExp(b, n), TaylorExp(a, n), TaylorExp(b, n - 1), TaylorExp(a, n - 1),
               Pow(b, n), Pow(a, n), b - a, ExpGap(a, b, n), ExpGap(a, b, n - 1), PowGap(a, b, n), Fact(n));
  }

  /** The same step on plain numbers: adding `u/f` and `v/f` to two sums
      whose difference is `d e'` keeps the difference `d e` when `u - v = d g`
      and `e = e' + g/f`. */
  lemma GapSumStep(tb: real, ta: real, tb': real, ta': real, u: real, v: real,
                   d: real, e: real, e': real, g: real, f: real)
    requires f > 0.0 && tb == tb' + u / f && ta == ta' + v / f
    requires tb' - ta' == d * e' && e == e' + g / f && u - v == d * g
    ensures tb - ta == d * e
  {
    QuotientGap(u, v, d, g, f);
    DistributeStep(d, e', g / f);
  }

  lemma DistributeStep(d: real, e: real, t: real)
    ensures d * (e + t) == d * e + d * t
  {
  }

  /** Dividing a factored difference: u/f - v/f == d (g/f) when u - v == d g. */
  lemma QuotientGap(u: real, v: real, d: real, g: real, f: real)
    requires f > 0.0 && u - v == d * g
    ensures u / f - v / f == d * (g / f)
  {
    var q := g / f;
    assert q * f == g;
    assert (d * q) * f == u - v;
    assert u / f - v / f == (u - v) / f;
  }

  /** The first three terms, 1 + (a + b)/2 + (a^2 + ab + b^2)/6, are at least
      1/2: six times their excess is 3/4 (a + b + 2)^2 + 1/4 (a - b)^2. */
  lemma ExpGapHead(a: real, b: real)
    ensures ExpGap(a, b, 3) >= 0.5
  {
    assert PowGap(a, b, 1) == 1.0;
    assert PowGap(a, b, 2) == b + a;
    assert PowGap(a, b, 3) == b * b + a * (b + a);
    assert Fact(1) == 1.0 && Fact(2) == 2.0 && Fact(3) == 6.0;
    assert ExpGap(a, b, 1) == 1.0;
    assert ExpGap(a, b, 2) == 1.0 + (b + a) / 2.0;
    assert ExpGap(a, b, 3) == 1.0 + (b + a) / 2.0 + (b * b + a * (b + a)) / 6.0;
    var s, d := a + b + 2.0, a - b;
    SquareNonNegative(s);
    SquareNonNegative(d);
    assert s * s == a * a + 2.0 * (a * b) + b * b + 4.0 * a + 4.0 * b + 4.0;
    assert d * d == a * a - 2.0 * (a * b) + b * b;
    assert 6.0 * ExpGap(a, b, 3) - 3.0 == 0.75 * (s * s) + 0.25 * (d * d);
  }

  /** A term of size at most k, divided by k!, is at least -k/k!. */
  lemma TermAtLeast(g: real, k: real, f: real)
    requires g >= -k && f > 0.0
    ensures g / f >= -(k / f)
  {
    DivNonNegative(g + k, f);
    assert (g + k) / f == g / f + k / f;
  }

  /** One more term of the gap, with its lower bound. */
  lemma ExpGapStep(a: real, b: real, n: nat)
    requires -1.0 <= a <= 1.0 && -1.0 <= b <= 1.0 && n > 0
    ensures ExpGap(a, b, n) >= ExpGap(a, b, n - 1) - RealCount(n) / Fact(n)
  {
    PowGapWithin(a, b, n);
    TermAtLeast(PowGap(a, b, n), RealCount(n), Fact(n));
  }

  /** On [-1, 1] the tail from degree 4 to 9 takes away less than 1/4. */
  lemma ExpGapPositive(a: real, b: real)
    requires -1.0 <= a <= 1.0 && -1.0 <= b <= 1.0
    ensures ExpGap(a, b, EXP_TERMS) >= 0.25
  {
    ExpGapHead(a, b);
    assert Fact(4) == 24.0 && Fact(5) == 120.0 && Fact(6) == 720.0;
    assert Fact(7) == 5040.0 && Fact(8) == 40320.0 && Fact(9) == 362880.0;
    assert RealCount(4) == 4.0 && RealCount(5) == 5.0 && RealCount(6) == 6.0;
    assert RealCount(7) == 7.0 && RealCount(8) == 8.0 && RealCount(9) == 9.0;
    ExpGapStep(a, b, 4);
    ExpGapStep(a, b, 5);
    ExpGapStep(a, b, 6);
    ExpGapStep(a, b, 7);
    ExpGapStep(a, b, 8);
    ExpGapStep(a, b, 9);
  }

  lemma PositiveGap(y: real, x: real, d: real, g: real)
    requires d > 0.0 && g > 0.0 && y - x == d * g
    ensures x < y
  {
    MulPositive(d, g);
  }

  /** `exp_approx` is strictly increasing on [-1, 1], the range of
      `tanh_approx`: there the larger score has the larger exponential. */
  lemma ExpApproxIncreasing(a: real, b: real)
    requires -1.0 <= a < b <= 1.0
    ensures ExpApprox(a) < ExpApprox(b)
  {
    TaylorGapFactors(a, b, EXP_TERMS);
    ExpGapPositive(a, b);
    PositiveGap(TaylorExp(b, EXP_TERMS), TaylorExp(a, EXP_TERMS), b - a, ExpGap(a, b, EXP_TERMS));
  }

  /** For a sufficiently negative argument the degree-9 polynomial is
      negative, unlike the exponential it approximates. */
  lemma ExpApproxAtMinusTen()
    ensures ExpApprox(-10.0) == -801253.0 / 567.0
    ensures ExpApprox(-10.0) < -1.0
  {
    assert Pow(-10.0, 9) == -1000000000.0;
    assert Fact(9) == 362880.0;
  }
}
