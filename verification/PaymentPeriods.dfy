/** Periodic cash flows: the discount laws that the bond analytics assume of pow(1 + y, -t) hold of powers
    of an m-th root, so the general results apply to every annual, semi-annual or monthly schedule. The
    fourth law, that a discount factor lies above its tangent, compares two geometric sums; the third, that
    a later payment loses more value to a rise of the yield, compares powers of two bases. */
module PaymentPeriods {
  import opened Reals
  import opened Bonds

  /** root takes the m-th root of every positive number. */
  ghost predicate IsRoot(root: real -> real, m: nat) {
    m > 0 && forall x: real :: x > 0.0 ==> root(x) > 0.0 && Pow(root(x), m) == x
  }

  /** (1 + y)^-t at times that are multiples of 1/m; other arguments do not occur. */
  function PeriodicFactor(root: real -> real, m: nat, y: real, t: real): real {
    if y > -1.0 && t >= 0.0 then Pow(root(1.0 / (1.0 + y)), (t * m as real).Floor) else 1.0
  }

  function Periodic(root: real -> real, m: nat): Discount {
    (y: real, t: real) => PeriodicFactor(root, m, y, t)
  }

  predicate IsMultiple(t: real, m: nat) {
    t > 0.0 && t * m as real == (t * m as real).Floor as real
  }

  lemma {:induction false} PowMonotone(x: real, z: real, n: nat)
    requires 0.0 < x < z
    ensures Pow(x, n) <= Pow(z, n)
    ensures n > 0 ==> Pow(x, n) < Pow(z, n)
  {
    if n == 0 {
    } else {
      PowMonotone(x, z, n - 1);
      PowPositive(x, n - 1);
      LargerProduct(x, z, Pow(x, n - 1), Pow(z, n - 1), Pow(x, n), Pow(z, n));
    }
  }

  lemma LargerProduct(x: real, z: real, p: real, q: real, xp: real, zq: real)
    requires 0.0 < x < z && 0.0 < p <= q && xp == x * p && zq == z * q
    ensures xp < zq
  {
    ProductStrict(x, z, p);
    ProductMonotone(p, q, z);
  }

  lemma {:induction false} PowAdd(x: real, m: nat, n: nat)
    ensures Pow(x, m + n) == Pow(x, m) * Pow(x, n)
  {
    if m == 0 {
    } else {
      var a, b := Pow(x, m - 1), Pow(x, n);
      PowAdd(x, m - 1, n);
      assert x * (a * b) == (x * a) * b;
    }
  }

  /** Chebyshev's order: the later power falls off faster in the smaller base. */
  lemma PowCross(x: real, z: real, s: nat, t: nat)
    requires 0.0 < z < x && s <= t
    ensures Pow(x, s) * Pow(z, t) <= Pow(x, t) * Pow(z, s)
  {
    hide Pow;
    var k := t - s;
    var a, b, p, q, zt, xt := Pow(x, s), Pow(z, s), Pow(z, k), Pow(x, k), Pow(z, t), Pow(x, t);
    assert xt == a * q by { PowAdd(x, s, k); }
    assert zt == b * p by { PowAdd(z, s, k); }
    assert a > 0.0 by { PowPositive(x, s); }
    assert b > 0.0 by { PowPositive(z, s); }
    assert p <= q by { PowMonotone(z, x, k); }
    CrossNumbers(a, b, p, q, zt, xt);
  }

  lemma CrossNumbers(a: real, b: real, p: real, q: real, zt: real, xt: real)
    requires a > 0.0 && b > 0.0 && p <= q && zt == b * p && xt == a * q
    ensures a * zt <= xt * b
  {
    var c := a * b;
    ProductPositive(a, b, c);
    ProductMonotone(p, q, c);
    assert a * zt == p * c && xt * b == q * c;
  }

  lemma {:induction false} PowProduct(x: real, v: real, w: real, n: nat)
    requires w == x * v
    ensures Pow(w, n) == Times(Pow(x, n), Pow(v, n))
  {
    if n == 0 {
    } else {
      PowProduct(x, v, w, n - 1);
      Regroup(x, v, Pow(x, n - 1), Pow(v, n - 1), w, Pow(w, n - 1));
    }
  }

  lemma Regroup(x: real, v: real, a: real, b: real, w: real, c: real)
    requires w == x * v && c == a * b
    ensures w * c == (x * a) * (v * b)
  {
  }

  /** A smaller number has the smaller root. */
  lemma RootMonotone(root: real -> real, m: nat, x: real, z: real)
    requires IsRoot(root, m) && 0.0 < x < z
    ensures 0.0 < root(x) < root(z)
  {
    hide Pow;
    if root(z) < root(x) {
      PowMonotone(root(z), root(x), m);
    }
  }

  // ------------------------------------------------------ geometric sums

  /** 1 + x + ... + x^(n - 1). */
  function Geometric(x: real, n: nat): real {
    if n == 0 then 0.0 else Geometric(x, n - 1) + Pow(x, n - 1)
  }

  lemma {:induction false} GeometricSum(x: real, n: nat)
    ensures Pow(x, n) - 1.0 == Times(x - 1.0, Geometric(x, n))
  {
    if n == 0 {
    } else {
      var g, p := Geometric(x, n - 1), Pow(x, n - 1);
      GeometricSum(x, n - 1);
      assert (x - 1.0) * (g + p) == (x - 1.0) * g + x * p - p;
    }
  }

  /** The mean of the n powers lies between 1 and x^n. */
  lemma {:induction false} GeometricBounds(x: real, n: nat)
    requires x > 0.0
    ensures x >= 1.0 ==> n as real <= Geometric(x, n) <= Times(n as real, Pow(x, n)) && Pow(x, n) >= 1.0
    ensures x <= 1.0 ==> Times(n as real, Pow(x, n)) <= Geometric(x, n) <= n as real && Pow(x, n) <= 1.0
  {
    hide Times;
    if n == 0 {
      TimesZero(Pow(x, 0));
    } else {
      var k, g, p := (n - 1) as real, Geometric(x, n - 1), Pow(x, n - 1);
      GeometricBounds(x, n - 1);
      PowPositive(x, n - 1);
      if x >= 1.0 {
        LargerStep(k, g, p, x, Pow(x, n));
      }
      if x <= 1.0 {
        SmallerStep(k, g, p, x, Pow(x, n));
      }
    }
  }

  lemma TimesZero(p: real)
    ensures Times(0.0, p) == 0.0
  {
  }

  lemma LargerStep(k: real, g: real, p: real, x: real, q: real)
    requires k >= 0.0 && x >= 1.0 && q == x * p && k <= g <= Times(k, p) && p >= 1.0
    ensures k + 1.0 <= g + p <= Times(k + 1.0, q) && q >= 1.0
  {
    ProductMonotone(1.0, x, p);
    ProductMonotone(p, q, k + 1.0);
  }

  lemma SmallerStep(k: real, g: real, p: real, x: real, q: real)
    requires k >= 0.0 && x <= 1.0 && q == x * p && Times(k, p) <= g <= k && 0.0 < p <= 1.0
    ensures Times(k + 1.0, q) <= g + p <= k + 1.0 && q <= 1.0
  {
    ProductMonotone(x, 1.0, p);
    ProductMonotone(q, p, k + 1.0);
  }

  /** m * x^m * (x^k - 1) >= k * (x^m - 1). */
  lemma PowersCompared(x: real, m: nat, k: nat)
    requires x > 0.0
    ensures Times(Times(m as real, Pow(x, m)), Pow(x, k) - 1.0) >= Times(k as real, Pow(x, m) - 1.0)
  {
    hide Pow, Geometric, Times;
    GeometricSum(x, m);
    GeometricSum(x, k);
    GeometricBounds(x, m);
    GeometricBounds(x, k);
    PowPositive(x, m);
    SumsCompared(x - 1.0, m as real, k as real, Pow(x, m), Geometric(x, m), Geometric(x, k), Pow(x, k));
  }

  lemma SumsCompared(d: real, m: real, k: real, p: real, gm: real, gk: real, q: real)
    requires m >= 0.0 && k >= 0.0 && p - 1.0 == Times(d, gm) && q - 1.0 == Times(d, gk)
    requires d >= 0.0 ==> k <= gk && gm <= Times(m, p)
    requires d <= 0.0 ==> gk <= k && Times(m, p) <= gm
    requires p > 0.0
    ensures Times(Times(m, p), q - 1.0) >= Times(k, p - 1.0)
  {
    var c := m * p;
    ProductNonNegative(m, p, c);
    var l, r := c * gk, k * gm;
    if d >= 0.0 {
      ProductMonotone(k, gk, c);
      ProductMonotone(gm, c, k);
      ProductMonotone(r, l, d);
    } else {
      ProductMonotone(gk, k, c);
      ProductMonotone(c, gm, k);
      ProductMonotone(l, r, -d);
    }
    assert c * (d * gk) == d * l && k * (d * gm) == d * r;
  }

  /** A discount factor lies above its tangent: u and v are the m-th roots of 1/b and 1/a, t is k/m. */
  lemma PeriodTangent(a: real, b: real, u: real, v: real, m: nat, k: nat, t: real)
    requires a > 0.0 && b > 0.0 && u > 0.0 && v > 0.0 && m > 0 && t * m as real == k as real
    requires Pow(u, m) * b == 1.0 && Pow(v, m) * a == 1.0
    ensures Pow(u, k) * a >= Pow(v, k) * (a - t * (b - a))
  {
    hide Pow, Times;
    var x := RatioOf(u, v);
    PowProduct(x, v, u, m);
    PowProduct(x, v, u, k);
    PowersCompared(x, m, k);
    PowPositive(v, k);
    var xm, xk, vm, vk, um, uk := Pow(x, m), Pow(x, k), Pow(v, m), Pow(v, k), Pow(u, m), Pow(u, k);
    RootsRatio(a, b, xm, vm, um);
    GapOverPeriods(a, b, m as real, k as real, t, xm, xk);
    TangentNumbers(a, t * (b - a), xk, vk, uk);
  }

  lemma RatioOf(u: real, v: real) returns (x: real)
    requires u > 0.0 && v > 0.0
    ensures x > 0.0 && u == x * v
  {
    x := u / v;
    Quotient(u, v, x);
  }

  lemma RootsRatio(a: real, b: real, xm: real, vm: real, um: real)
    requires um * b == 1.0 && vm * a == 1.0 && um == Times(xm, vm)
    ensures xm * b == a
  {
    var q := xm * b;
    assert q * vm == um * b;
    assert q * vm * a == q * (vm * a);
  }

  lemma GapOverPeriods(a: real, b: real, m: real, k: real, t: real, xm: real, xk: real)
    requires b > 0.0 && m > 0.0 && t * m == k && xm * b == a && Times(Times(m, xm), xk - 1.0) >= Times(k, xm - 1.0)
    ensures a * (xk - 1.0) >= -(t * (b - a))
  {
    ScaledGap(a, b, m, k, xm, xk, m * xm);
    var d, e := xk - 1.0, a - b;
    var g, h := a * d, t * e;
    assert m * h == k * e by { assert m * h == (t * m) * e; }
    assert m * g == m * a * d;
    ProductCancel(h, g, m);
    assert t * (b - a) == -h;
  }

  lemma TangentNumbers(a: real, h: real, xk: real, vk: real, uk: real)
    requires vk > 0.0 && uk == Times(xk, vk) && a * (xk - 1.0) >= -h
    ensures uk * a >= vk * (a - h)
  {
    var g := a * (xk - 1.0);
    ProductMonotone(-h, g, vk);
    assert uk * a == vk * (a * xk);
    assert a * xk == g + a;
  }

  lemma ScaledGap(a: real, b: real, m: real, k: real, xm: real, xk: real, c: real)
    requires b > 0.0 && xm * b == a && c == m * xm && c * (xk - 1.0) >= k * (xm - 1.0)
    ensures m * a * (xk - 1.0) >= k * (a - b)
  {
    var d := xk - 1.0;
    var l, r := c * d, k * (xm - 1.0);
    ProductMonotone(r, l, b);
    assert l * b == m * a * d by { assert c * b == m * a; assert l * b == c * b * d; }
    assert r * b == k * (xm * b - b);
  }

  // ------------------------------------------------------------ the laws

  /** The number of periods up to t. */
  function Count(t: real, m: nat): (k: nat)
    requires m > 0 && IsMultiple(t, m)
    ensures t * m as real == k as real && k > 0
  {
    ProductPositive(t, m as real, t * m as real);
    (t * m as real).Floor
  }

  lemma FactorIs(root: real -> real, m: nat, y: real, t: real)
    requires m > 0 && y > -1.0 && IsMultiple(t, m)
    ensures Periodic(root, m)(y, t) == Pow(root(1.0 / (1.0 + y)), Count(t, m))
  {
    hide Pow;
    assert Periodic(root, m)(y, t) == PeriodicFactor(root, m, y, t);
  }

  lemma RootOfInverse(root: real -> real, m: nat, y: real)
    requires IsRoot(root, m) && y > -1.0
    ensures var v := root(1.0 / (1.0 + y)); v > 0.0 && Pow(v, m) * (1.0 + y) == 1.0
  {
    hide Pow;
    Inverse(1.0 + y, 1.0 / (1.0 + y));
  }

  lemma FactorPositive(root: real -> real, m: nat, y: real, t: real)
    requires IsRoot(root, m) && y > -1.0 && IsMultiple(t, m)
    ensures Periodic(root, m)(y, t) > 0.0
  {
    assert m > 0;
    hide Pow, IsRoot, Periodic;
    FactorIs(root, m, y, t);
    RootOfInverse(root, m, y);
    PowPositive(root(1.0 / (1.0 + y)), Count(t, m));
  }

  lemma FactorDecreasing(root: real -> real, m: nat, y: real, z: real, t: real)
    requires IsRoot(root, m) && -1.0 < y < z && IsMultiple(t, m)
    ensures Periodic(root, m)(z, t) < Periodic(root, m)(y, t)
  {
    assert m > 0;
    hide Pow, IsRoot, Periodic;
    FactorIs(root, m, y, t);
    FactorIs(root, m, z, t);
    InverseOrder(y, z);
    RootMonotone(root, m, 1.0 / (1.0 + z), 1.0 / (1.0 + y));
    PowMonotone(root(1.0 / (1.0 + z)), root(1.0 / (1.0 + y)), Count(t, m));
  }

  lemma CountMonotone(s: real, t: real, m: nat)
    requires m > 0 && IsMultiple(s, m) && IsMultiple(t, m) && s <= t
    ensures Count(s, m) <= Count(t, m)
  {
    ProductMonotone(s, t, m as real);
  }

  lemma FactorCross(root: real -> real, m: nat, y: real, z: real, s: real, t: real)
    requires IsRoot(root, m) && -1.0 < y < z && IsMultiple(s, m) && IsMultiple(t, m) && s <= t
    ensures Periodic(root, m)(y, s) * Periodic(root, m)(z, t) <= Periodic(root, m)(y, t) * Periodic(root, m)(z, s)
  {
    assert m > 0;
    hide Pow, IsRoot, Periodic;
    FactorIs(root, m, y, s);
    FactorIs(root, m, y, t);
    FactorIs(root, m, z, s);
    FactorIs(root, m, z, t);
    InverseOrder(y, z);
    RootMonotone(root, m, 1.0 / (1.0 + z), 1.0 / (1.0 + y));
    CountMonotone(s, t, m);
    PowCross(root(1.0 / (1.0 + y)), root(1.0 / (1.0 + z)), Count(s, m), Count(t, m));
  }

  lemma FactorTangent(root: real -> real, m: nat, y: real, z: real, t: real)
    requires IsRoot(root, m) && y > -1.0 && z > -1.0 && IsMultiple(t, m)
    ensures Periodic(root, m)(z, t) * (1.0 + y) >= Periodic(root, m)(y, t) * (1.0 + y - t * (z - y))
  {
    assert m > 0;
    hide Pow, IsRoot, Periodic;
    FactorIs(root, m, y, t);
    FactorIs(root, m, z, t);
    RootOfInverse(root, m, y);
    RootOfInverse(root, m, z);
    var u, v := root(1.0 / (1.0 + z)), root(1.0 / (1.0 + y));
    PeriodTangent(1.0 + y, 1.0 + z, u, v, m, Count(t, m), t);
  }

  lemma Inverse(a: real, v: real)
    requires a > 0.0 && v == 1.0 / a
    ensures v > 0.0 && v * a == 1.0
  {
    Quotient(1.0, a, v);
  }

  lemma InverseOrder(y: real, z: real)
    requires -1.0 < y < z
    ensures 0.0 < 1.0 / (1.0 + z) < 1.0 / (1.0 + y)
  {
    var a, b, v, u := 1.0 + y, 1.0 + z, 1.0 / (1.0 + y), 1.0 / (1.0 + z);
    Inverse(a, v);
    Inverse(b, u);
    if v <= u {
      ProductStrict(a, b, v);
      ProductMonotone(v, u, b);
    }
  }

  lemma PeriodicPositiveFactors(root: real -> real, m: nat, times: set<real>)
    requires IsRoot(root, m) && forall t :: t in times ==> IsMultiple(t, m)
    ensures PositiveFactors(Periodic(root, m), times)
  {
    hide IsRoot, IsMultiple, Periodic;
    forall y: real, t: real | y > -1.0 && t in times ensures Periodic(root, m)(y, t) > 0.0 {
      FactorPositive(root, m, y, t);
    }
  }

  lemma PeriodicDecreasingFactors(root: real -> real, m: nat, times: set<real>)
    requires IsRoot(root, m) && forall t :: t in times ==> IsMultiple(t, m)
    ensures DecreasingFactors(Periodic(root, m), times)
  {
    hide IsRoot, IsMultiple, Periodic;
    forall y: real, z: real, t: real | -1.0 < y < z && t in times
      ensures Periodic(root, m)(z, t) < Periodic(root, m)(y, t)
    {
      FactorDecreasing(root, m, y, z, t);
    }
  }

  lemma PeriodicLaterFallsFaster(root: real -> real, m: nat, times: set<real>)
    requires IsRoot(root, m) && forall t :: t in times ==> IsMultiple(t, m)
    ensures LaterFallsFaster(Periodic(root, m), times)
  {
    hide IsRoot, IsMultiple, Periodic;
    forall y: real, z: real, s: real, t: real | -1.0 < y < z && s in times && t in times && s <= t
      ensures Periodic(root, m)(y, s) * Periodic(root, m)(z, t) <= Periodic(root, m)(y, t) * Periodic(root, m)(z, s)
    {
      FactorCross(root, m, y, z, s, t);
    }
  }

  lemma PeriodicAboveTangent(root: real -> real, m: nat, times: set<real>)
    requires IsRoot(root, m) && forall t :: t in times ==> IsMultiple(t, m)
    ensures AboveTangent(Periodic(root, m), times)
  {
    hide IsRoot, IsMultiple, Periodic;
    forall y: real, z: real, t: real | y > -1.0 && z > -1.0 && t in times
      ensures Periodic(root, m)(z, t) * (1.0 + y) >= Periodic(root, m)(y, t) * (1.0 + y - t * (z - y))
    {
      FactorTangent(root, m, y, z, t);
    }
  }

  /** Powers of an m-th root satisfy every law assumed of the discount factor, at multiples of 1/m. */
  lemma PeriodicLaws(root: real -> real, m: nat, times: set<real>)
    requires IsRoot(root, m) && forall t :: t in times ==> IsMultiple(t, m)
    ensures DiscountLaws(Periodic(root, m), times)
  {
    hide *;
    assert DiscountLaws(Periodic(root, m), times) by {
      PeriodicPositiveFactors(root, m, times);
      PeriodicDecreasingFactors(root, m, times);
      PeriodicLaterFallsFaster(root, m, times);
      PeriodicAboveTangent(root, m, times);
      AllLaws(Periodic(root, m), times);
    }
  }

  lemma AllLaws(df: Discount, times: set<real>)
    requires PositiveFactors(df, times) && DecreasingFactors(df, times)
    requires LaterFallsFaster(df, times) && AboveTangent(df, times)
    ensures DiscountLaws(df, times)
  {
    hide PositiveFactors, DecreasingFactors, LaterFallsFaster, AboveTangent;
  }

  // --------------------------------------------------------- whole years

  function Itself(x: real): real { x }

  /** (1 + y)^-t at whole t: repeated multiplication. */
  const Annual: Discount := Periodic(Itself, 1)

  lemma AnnualLaws(times: set<real>)
    requires forall t :: t in times ==> IsMultiple(t, 1)
    ensures DiscountLaws(Annual, times)
  {
    assert forall x: real :: Pow(x, 1) == x * Pow(x, 0) == x;
    PeriodicLaws(Itself, 1, times);
  }

  /** Why the flows must be non-negative: 5 after one year and -1 after two are worth 6 at two
      different yields, and the solver, which only brackets a decreasing value, reports neither. */
  lemma MixedSignsHaveTwoYields()
    ensures var legs := [CashFlow(1.0, 5.0), CashFlow(2.0, -1.0)];
            && Npv(legs, -0.5, Annual) == 6.0 && Npv(legs, -2.0 / 3.0, Annual) == 6.0
            && !Bracketed(legs, 6.0, Annual, LOWEST_YIELD, HIGHEST_YIELD)
  {
    TwoLegs(-0.5, 2.0);
    TwoLegs(-2.0 / 3.0, 3.0);
    TwoLegs(LOWEST_YIELD, 1000000.0);
  }

  lemma TwoLegs(y: real, v: real)
    requires y > -1.0 && v == 1.0 / (1.0 + y)
    ensures Npv([CashFlow(1.0, 5.0), CashFlow(2.0, -1.0)], y, Annual) == 5.0 * v - v * v
  {
    var a, b := CashFlow(1.0, 5.0), CashFlow(2.0, -1.0);
    assert [a, b][..1] == [a] && [a][..0] == [];
    FactorIs(Itself, 1, y, 1.0);
    FactorIs(Itself, 1, y, 2.0);
    assert Count(1.0, 1) == 1 && Count(2.0, 1) == 2;
    assert Npv([a], y, Annual) == Pv(a, y, Annual);
    assert Pow(v, 1) == v * Pow(v, 0) && Pow(v, 2) == v * Pow(v, 1);
    assert Pow(v, 1) == v && Pow(v, 2) == v * v;
  }
}
