/** The second-order law of the bond analytics (engine/c/pae_bonds.c). */
module BondCurvature {
  import opened Reals
  import opened Bonds

  /** -1/t times the derivative of the factor (1 + y)^-t. */
  function Slope(df: Discount, y: real, t: real): real
    requires y > -1.0
  {
    df(y, t) / (1.0 + y)
  }

  lemma SlopeFacts(df: Discount, times: set<real>, y: real, t: real)
    requires DiscountLaws(df, times) && t in times && y > -1.0
    ensures Slope(df, y, t) > 0.0 && Slope(df, y, t) * (1.0 + y) == df(y, t)
  {
    Quotient(df(y, t), 1.0 + y, Slope(df, y, t));
  }

  /** The slope of a factor lies above its own tangent, as the factor of a payment one year later does. */
  lemma SlopeAboveTangent(df: Discount, times: set<real>, y: real, z: real, t: real)
    requires DiscountLaws(df, times) && t in times && t > 0.0 && y > -1.0 && z > -1.0
    ensures Slope(df, z, t) * (1.0 + y) >= Slope(df, y, t) * (1.0 + y - (t + 1.0) * (z - y))
  {
    SlopeFacts(df, times, y, t);
    SlopeFacts(df, times, z, t);
    assert df(z, t) * (1.0 + y) >= df(y, t) * (1.0 + y - t * (z - y));
    SlopeNumbers(1.0 + y, 1.0 + z, t, df(y, t), df(z, t), Slope(df, y, t), Slope(df, z, t));
  }

  lemma SlopeNumbers(a: real, b: real, t: real, f: real, g: real, c: real, d: real)
    requires a > 0.0 && b > 0.0 && t > 0.0 && c > 0.0 && c * a == f && d * b == g
    requires g * a >= f * (a - t * (b - a))
    ensures d * a >= c * (a - (t + 1.0) * (b - a))
  {
    var h := b - a;
    var s := t * h;
    var rest := (t + 1.0) * (h * h);
    ExpandSlope(a, h, t, c, f);
    SquareSign(h);
    ProductNonNegative(t + 1.0, h * h, rest);
    ProductNonNegative(c, rest, c * rest);
    CancelSlope(d * a, c * (a - (t + 1.0) * h), b, g * a, f * (a - s), c * rest);
  }

  lemma CancelSlope(l: real, r: real, b: real, ga: real, fs: real, extra: real)
    requires b > 0.0 && l * b == ga && r * b == fs - extra && ga >= fs && extra >= 0.0
    ensures l >= r
  {
    ProductCancel(r, l, b);
  }

  lemma ExpandSlope(a: real, h: real, t: real, c: real, f: real)
    requires c * a == f
    ensures c * (a - (t + 1.0) * h) * (a + h) == f * (a - t * h) - c * ((t + 1.0) * (h * h))
  {
    var s := t * h;
    assert (a - (t + 1.0) * h) * (a + h) == a * (a - s) - (t + 1.0) * (h * h);
    assert c * (a * (a - s)) == f * (a - s);
  }

  /** The tangent at y, by its slope. */
  lemma Tangent(df: Discount, times: set<real>, y: real, z: real, t: real)
    requires DiscountLaws(df, times) && t in times && y > -1.0 && z > -1.0
    ensures df(z, t) >= df(y, t) - t * (z - y) * Slope(df, y, t)
  {
    SlopeFacts(df, times, y, t);
    var f, g, c, a, h := df(y, t), df(z, t), Slope(df, y, t), 1.0 + y, z - y;
    assert g * a >= f * (a - t * h);
    TangentStep(f, g, c, a, t * h);
  }

  lemma TangentStep(f: real, g: real, c: real, a: real, s: real)
    requires a > 0.0 && c * a == f && g * a >= f * (a - s)
    ensures g >= f - s * c
  {
    assert f * (a - s) == (f - s * c) * a;
    ProductCancel(f - s * c, g, a);
  }

  // -------------------------------------------------- many small steps

  /** The yield after i steps from y. */
  function Grid(y: real, step: real, i: nat): real {
    y + (i as real) * step
  }

  lemma GridStep(y: real, step: real, i: nat)
    requires i > 0
    ensures Grid(y, step, i) == Grid(y, step, i - 1) + step
    ensures step <= 0.0 ==> Grid(y, step, i - 1) >= Grid(y, step, i)
  {
  }

  /** The fall of the factor in one step along the slope at y. */
  function Drop(df: Discount, y: real, t: real, step: real): real
    requires y > -1.0
  {
    t * step * Slope(df, y, t)
  }

  /** How much less it falls in each further step. */
  function Bend(df: Discount, y: real, t: real, step: real): real
    requires y > -1.0
  {
    t * step * ((t + 1.0) * (Slope(df, y, t) / (1.0 + y)) * step)
  }

  /** The slope m steps from y, against the slope at y. */
  lemma SlopeLoss(df: Discount, times: set<real>, y: real, t: real, step: real, m: nat)
    requires DiscountLaws(df, times) && t in times && t > 0.0 && y > -1.0 && Grid(y, step, m) > -1.0
    ensures var loss := t * step * Slope(df, Grid(y, step, m), t);
            var bound := Drop(df, y, t, step) - (m as real) * Bend(df, y, t, step);
            && (step >= 0.0 ==> loss >= bound)
            && (step <= 0.0 ==> loss <= bound)
  {
    hide DiscountLaws, Slope;
    var z, n := Grid(y, step, m), m as real;
    SlopeAboveTangent(df, times, y, z, t);
    assert z - y == n * step;
    var c, d, a := Slope(df, y, t), Slope(df, z, t), 1.0 + y;
    var e := c / a;
    Quotient(c, a, e);
    LossNumbers(c, d, a, e, t, step, n);
  }

  lemma LossNumbers(c: real, d: real, a: real, e: real, t: real, step: real, n: real)
    requires a > 0.0 && t > 0.0 && e * a == c && d * a >= c * (a - (t + 1.0) * (n * step))
    ensures var bound := t * step * c - n * (t * step * ((t + 1.0) * e * step));
            && (step >= 0.0 ==> t * step * d >= bound)
            && (step <= 0.0 ==> t * step * d <= bound)
  {
    var k := (t + 1.0) * e * step;
    CancelBase(c, d, a, e, (t + 1.0) * (n * step), n * k);
    var w := t * step;
    assert w * (c - n * k) == w * c - n * (w * k);
    if step >= 0.0 {
      ProductNonNegative(t, step, w);
      ProductMonotone(c - n * k, d, w);
    } else {
      ProductNonNegative(t, -step, -w);
      ProductMonotone(c - n * k, d, -w);
    }
  }

  lemma CancelBase(c: real, d: real, a: real, e: real, s: real, loss: real)
    requires a > 0.0 && e * a == c && d * a >= c * (a - s) && loss == e * s
    ensures d >= c - loss
  {
    assert c * (a - s) == (c - e * s) * a;
    ProductCancel(c - e * s, d, a);
  }

  /** f after n steps that lose u and regain v more each: the sum of v * k over k = 1 to n, or from 0. */
  function Descent(f: real, u: real, v: real, n: real, sum: real): real {
    f - n * u + v * sum
  }

  /** 1 + 2 + ... + n. */
  function Triangle(n: real): real {
    n * (n + 1.0) / 2.0
  }

  lemma NextTriangle(n: real)
    ensures Triangle(n) == Triangle(n - 1.0) + n
  {
  }

  lemma {:induction false} StepsUp(df: Discount, times: set<real>, y: real, step: real, t: real, i: nat)
    requires DiscountLaws(df, times) && t in times && t > 0.0 && y > -1.0 && step >= 0.0
    ensures Grid(y, step, i) >= y
    ensures var n := i as real;
            df(Grid(y, step, i), t)
              <= Descent(df(y, t), Drop(df, y, t, step), Bend(df, y, t, step), n, Triangle(n))
  {
    hide DiscountLaws, Slope, Drop, Bend, Descent, Triangle;
    if i == 0 {
      Standstill(df(y, t), Drop(df, y, t, step), Bend(df, y, t, step));
    } else {
      StepsUp(df, times, y, step, t, i - 1);
      var p, q, n, k := Grid(y, step, i - 1), Grid(y, step, i), i as real, (i - 1) as real;
      var f, u, v := df(y, t), Drop(df, y, t, step), Bend(df, y, t, step);
      GridStep(y, step, i);
      Tangent(df, times, q, p, t);
      Backwards(t, step, p, q, Slope(df, q, t));
      SlopeLoss(df, times, y, t, step, i);
      assert df(q, t) <= df(p, t) - (u - n * v);
      NextTriangle(n);
      NextDescent(f, u, v, n, Triangle(n), k, Triangle(k), n);
    }
  }

  lemma Backwards(t: real, step: real, p: real, q: real, c: real)
    requires q == p + step
    ensures t * (p - q) * c == -(t * step * c)
  {
    assert p - q == -step;
  }

  lemma Standstill(f: real, u: real, v: real)
    ensures Descent(f, u, v, 0.0, Triangle(0.0)) == f && Descent(f, u, v, 0.0, Triangle(0.0 - 1.0)) == f
  {
  }

  lemma NextDescent(f: real, u: real, v: real, n: real, sum: real, m: real, before: real, k: real)
    requires n == m + 1.0 && sum == before + k
    ensures Descent(f, u, v, n, sum) == Descent(f, u, v, m, before) - (u - k * v)
  {
    assert v * sum == v * before + k * v;
  }

  lemma {:induction false} StepsDown(df: Discount, times: set<real>, y: real, step: real, t: real, i: nat)
    requires DiscountLaws(df, times) && t in times && t > 0.0 && y > -1.0 && step <= 0.0 && Grid(y, step, i) > -1.0
    ensures var n := i as real;
            df(Grid(y, step, i), t)
              >= Descent(df(y, t), Drop(df, y, t, step), Bend(df, y, t, step), n, Triangle(n - 1.0))
  {
    hide DiscountLaws, Slope, Drop, Bend, Descent, Triangle;
    if i == 0 {
      Standstill(df(y, t), Drop(df, y, t, step), Bend(df, y, t, step));
    } else {
      var p, q, n, k := Grid(y, step, i - 1), Grid(y, step, i), i as real, (i - 1) as real;
      var f, u, v := df(y, t), Drop(df, y, t, step), Bend(df, y, t, step);
      GridStep(y, step, i);
      StepsDown(df, times, y, step, t, i - 1);
      Tangent(df, times, p, q, t);
      SlopeLoss(df, times, y, t, step, i - 1);
      assert df(q, t) >= df(p, t) - (u - k * v) by {
        assert q - p == step;
      }
      NextTriangle(k);
      NextDescent(f, u, v, n, Triangle(n - 1.0), k, Triangle(k - 1.0), k);
    }
  }

  // ------------------------------------------------ the second order

  lemma Rescaled(df: Discount, y: real, t: real, h: real, step: real, n: real)
    requires y > -1.0 && step * n == h
    ensures n * Drop(df, y, t, step) == Drop(df, y, t, h)
    ensures Bend(df, y, t, step) * n * n == Bend(df, y, t, h)
  {
    hide Slope;
    var c, g := Slope(df, y, t), (t + 1.0) * (Slope(df, y, t) / (1.0 + y));
    RescaledNumbers(t, c, g, h, step, n);
  }

  lemma RescaledNumbers(t: real, c: real, g: real, h: real, step: real, n: real)
    requires step * n == h
    ensures n * (t * step * c) == t * h * c
    ensures t * step * (g * step) * n * n == t * h * (g * h)
  {
    var s, r := t * step, g * step;
    assert s * n == t * h;
    assert r * n == g * h;
    assert n * (s * c) == s * n * c;
    assert s * r * n * n == (s * n) * (r * n);
  }

  /** With n steps the estimate is off by at most an n-th of its last term. */
  lemma Refined(f: real, u: real, v: real, n: real, total: real, bend: real)
    requires n > 0.0 && n * u == total && v * n * n == bend
    ensures Descent(f, u, v, n, Triangle(n)) == f - total + bend / 2.0 + bend / 2.0 / n
    ensures Descent(f, u, v, n, Triangle(n - 1.0)) == f - total + bend / 2.0 - bend / 2.0 / n
  {
    hide Triangle;
    HalfShare(v * n, n, bend);
    TimesTriangle(v, n, v * n, bend);
  }

  lemma HalfShare(m: real, n: real, bend: real)
    requires n > 0.0 && m * n == bend
    ensures bend / 2.0 / n == m / 2.0
  {
    Quotient(bend / 2.0, n, bend / 2.0 / n);
    ProductEqual(m / 2.0, bend / 2.0 / n, n);
  }

  lemma TimesTriangle(v: real, n: real, m: real, bend: real)
    requires m == v * n && m * n == bend
    ensures v * Triangle(n) == bend / 2.0 + m / 2.0
    ensures v * Triangle(n - 1.0) == bend / 2.0 - m / 2.0
  {
    assert v * (n * n) == bend;
  }

  /** What exceeds y exceeds y + k / n for some n. */
  lemma Archimedes(x: real, y: real, k: real) returns (n: nat)
    requires x > y
    ensures n > 0 && x > y + k / (n as real)
  {
    var gap := x - y;
    var q := k / gap;
    Quotient(k, gap, q);
    n := if q < 0.0 then 1 else q.Floor + 1;
    BelowGap(gap, k, q, n as real);
  }

  lemma BelowGap(gap: real, k: real, q: real, m: real)
    requires gap > 0.0 && q * gap == k && q < m && m > 0.0
    ensures k / m < gap
  {
    ProductStrict(q, m, gap);
    var r := k / m;
    Quotient(k, m, r);
    if r >= gap {
      ProductMonotone(gap, r, m);
      assert false;
    }
  }

  lemma OnGrid(y: real, z: real, n: nat)
    requires n > 0
    ensures var step := (z - y) / (n as real);
            && step * (n as real) == z - y && Grid(y, step, n) == z
            && (z >= y ==> step >= 0.0)
            && (z <= y ==> step <= 0.0)
  {
    var m := n as real;
    Quotient(z - y, m, (z - y) / m);
    Quotient(y - z, m, (y - z) / m);
    NegatedQuotient(y - z, m);
  }

  /** The second-order expansion of a factor at y. */
  function Expansion(df: Discount, y: real, z: real, t: real): real
    requires y > -1.0
  {
    df(y, t) - Drop(df, y, t, z - y) + Bend(df, y, t, z - y) / 2.0
  }

  /** A factor lies below its second-order expansion at higher yields and above it at lower ones. */
  lemma FactorCurve(df: Discount, times: set<real>, y: real, z: real, t: real)
    requires DiscountLaws(df, times) && t in times && t > 0.0 && y > -1.0 && z > -1.0
    ensures z >= y ==> df(z, t) <= Expansion(df, y, z, t)
    ensures z <= y ==> df(z, t) >= Expansion(df, y, z, t)
  {
    hide *;
    var g, estimate := df(z, t), Expansion(df, y, z, t);
    if z >= y && g > estimate {
      var n := Archimedes(g, estimate, Bend(df, y, t, z - y) / 2.0);
      ClimbBound(df, times, y, z, t, n);
    }
    if z <= y && g < estimate {
      var n := Archimedes(estimate, g, Bend(df, y, t, z - y) / 2.0);
      DescentBound(df, times, y, z, t, n);
    }
  }

  lemma ClimbBound(df: Discount, times: set<real>, y: real, z: real, t: real, n: nat)
    requires DiscountLaws(df, times) && t in times && t > 0.0 && z >= y > -1.0 && n > 0
    ensures df(z, t) <= Expansion(df, y, z, t) + Bend(df, y, t, z - y) / 2.0 / (n as real)
  {
    hide DiscountLaws, Drop, Bend, Descent, Triangle, Grid;
    var step, m := (z - y) / (n as real), n as real;
    OnGrid(y, z, n);
    StepsUp(df, times, y, step, t, n);
    Rescaled(df, y, t, z - y, step, m);
    Refined(df(y, t), Drop(df, y, t, step), Bend(df, y, t, step), m, Drop(df, y, t, z - y), Bend(df, y, t, z - y));
  }

  lemma DescentBound(df: Discount, times: set<real>, y: real, z: real, t: real, n: nat)
    requires DiscountLaws(df, times) && t in times && t > 0.0 && y >= z > -1.0 && n > 0
    ensures df(z, t) >= Expansion(df, y, z, t) - Bend(df, y, t, z - y) / 2.0 / (n as real)
  {
    hide DiscountLaws, Drop, Bend, Descent, Triangle, Grid;
    var step, m := (z - y) / (n as real), n as real;
    OnGrid(y, z, n);
    StepsDown(df, times, y, step, t, n);
    Rescaled(df, y, t, z - y, step, m);
    Refined(df(y, t), Drop(df, y, t, step), Bend(df, y, t, step), m, Drop(df, y, t, z - y), Bend(df, y, t, z - y));
  }

  // ------------------------------------------------------------ a bond

  /** Whether x and estimate are ordered as a value and its expansion are when the yield moves by h. */
  predicate Bends(x: real, estimate: real, h: real) {
    && (h >= 0.0 ==> x <= estimate)
    && (h <= 0.0 ==> x >= estimate)
  }

  /** The value after a move by h against the expansion of a bond with value n, time sum w and convexity
      sum s at 1 + y == a, both times 2 a^2. */
  predicate ScaledBends(after: real, n: real, w: real, s: real, a: real, h: real) {
    Bends(after * (2.0 * Square(a)), Scaled(n, w, s, a, h), h)
  }

  function Scaled(n: real, w: real, s: real, a: real, h: real): real {
    n * (2.0 * Square(a)) - 2.0 * (h * a) * w + Square(h) * s
  }

  lemma LegCurve(legs: seq<CashFlow>, leg: CashFlow, y: real, z: real, df: Discount)
    requires DiscountLaws(df, PaymentTimes(legs)) && leg in legs && leg.amount >= 0.0 && leg.time > 0.0
    requires y > -1.0 && z > -1.0
    ensures var a, h, pv := 1.0 + y, z - y, Pv(leg, y, df);
            ScaledBends(Pv(leg, z, df), pv, Times(leg.time, pv), Times(TimeWeight(leg.time), pv), a, h)
  {
    hide DiscountLaws, Slope;
    assert leg.time in PaymentTimes(legs);
    FactorCurve(df, PaymentTimes(legs), y, z, leg.time);
    SlopeFacts(df, PaymentTimes(legs), y, leg.time);
    var a, c := 1.0 + y, Slope(df, y, leg.time);
    Quotient(c, a, c / a);
    LegNumbers(leg.amount, df(y, leg.time), df(z, leg.time), c, c / a, a, leg.time, z - y,
               Expansion(df, y, z, leg.time));
  }

  lemma LegNumbers(w: real, f: real, g: real, c: real, e: real, a: real, t: real, h: real, estimate: real)
    requires w >= 0.0 && a > 0.0 && c * a == f && e * a == c
    requires estimate == f - t * h * c + t * h * ((t + 1.0) * e * h) / 2.0 && Bends(g, estimate, h)
    ensures ScaledBends(w * g, w * f, Times(t, w * f), Times(TimeWeight(t), w * f), a, h)
  {
    var scale := w * (2.0 * Square(a));
    ProductPositive(a, a, Square(a));
    ProductNonNegative(w, 2.0 * Square(a), scale);
    if h >= 0.0 { ProductMonotone(g, estimate, scale); }
    if h <= 0.0 { ProductMonotone(estimate, g, scale); }
    ScaledEstimate(w, f, c, e, a, t, h, estimate);
    assert w * g * (2.0 * Square(a)) == g * scale;
  }

  lemma ScaledEstimate(w: real, f: real, c: real, e: real, a: real, t: real, h: real, estimate: real)
    requires c * a == f && e * a == c && estimate == f - t * h * c + t * h * ((t + 1.0) * e * h) / 2.0
    ensures estimate * (w * (2.0 * Square(a))) == Scaled(w * f, Times(t, w * f), Times(TimeWeight(t), w * f), a, h)
  {
    var s, q, ww := t * h, (t + 1.0) * h, 2.0 * w;
    SecondTerm(c, a, s, ww, f);
    ThirdTerm(e, a, s, q, w, f);
    assert estimate == f - s * c + s * (q * e) / 2.0;
    assert s * (ww * f) * a == 2.0 * (h * a) * (t * (w * f));
    assert s * q * (w * f) == (h * h) * (t * (t + 1.0) * (w * f));
  }

  lemma SecondTerm(c: real, a: real, s: real, ww: real, f: real)
    requires c * a == f
    ensures s * c * (ww * (a * a)) == s * (ww * f) * a
  {
    assert c * (ww * (a * a)) == ww * f * a;
  }

  lemma ThirdTerm(e: real, a: real, s: real, q: real, w: real, f: real)
    requires e * a * a == f
    ensures s * (q * e) * (w * (a * a)) == s * q * (w * f)
  {
    assert e * (w * (a * a)) == w * f;
  }

  lemma {:induction false} CurveSum(legs: seq<CashFlow>, y: real, z: real, df: Discount)
    requires DiscountLaws(df, PaymentTimes(legs)) && NonNegativeFlows(legs) && PositiveTimes(legs)
    requires y > -1.0 && z > -1.0
    ensures var a, h := 1.0 + y, z - y;
            ScaledBends(Npv(legs, z, df), Npv(legs, y, df), TimeSum(legs, y, df), ConvexitySum(legs, y, df), a, h)
  {
    hide DiscountLaws, Pv, Times, TimeWeight, ScaledBends;
    if legs == [] {
      NothingBends(1.0 + y, z - y);
    } else {
      var front, leg := legs[..|legs| - 1], legs[|legs| - 1];
      PrefixTimes(legs, df);
      CurveSum(front, y, z, df);
      LegCurve(legs, leg, y, z, df);
      var pv := Pv(leg, y, df);
      CurveStep(Npv(front, z, df), Npv(front, y, df), TimeSum(front, y, df), ConvexitySum(front, y, df),
                Pv(leg, z, df), pv, Times(leg.time, pv), Times(TimeWeight(leg.time), pv), 1.0 + y, z - y);
    }
  }

  lemma NothingBends(a: real, h: real)
    ensures ScaledBends(0.0, 0.0, 0.0, 0.0, a, h)
  {
  }

  lemma CurveStep(nz: real, n: real, w: real, s: real, q: real, p: real, tp: real, cp: real, a: real, h: real)
    requires ScaledBends(nz, n, w, s, a, h) && ScaledBends(q, p, tp, cp, a, h)
    ensures ScaledBends(nz + q, n + p, w + tp, s + cp, a, h)
  {
    hide Square;
    Distribute(nz, q, 2.0 * Square(a));
    Distribute(n, p, 2.0 * Square(a));
    Distribute(w, tp, 2.0 * (h * a));
    Distribute(s, cp, Square(h));
  }

  lemma Distribute(x: real, y: real, c: real)
    ensures (x + y) * c == x * c + y * c && c * (x + y) == c * x + c * y
  {
  }

  /** Modified duration and convexity are the first two derivatives of the price: their expansion is not
      below the price at any higher yield and not above it at any lower one. */
  lemma ConvexityBoundsPrice(legs: seq<CashFlow>, y: real, z: real, df: Discount)
    requires DiscountLaws(df, PaymentTimes(legs)) && NonNegativeFlows(legs) && PositiveTimes(legs)
    requires y > -1.0 && z > -1.0 && Npv(legs, y, df) > 0.0
    ensures var h := z - y;
            var m, c := Modified(legs, y, df), Convexity(legs, y, df);
            var estimate := Npv(legs, y, df) * (1.0 - m * h + c * (h * h) / 2.0);
            && (z >= y ==> Npv(legs, z, df) <= estimate)
            && (z <= y ==> Npv(legs, z, df) >= estimate)
  {
    hide DiscountLaws, TimeSum, ConvexitySum, Npv, ScaledBends;
    CurveSum(legs, y, z, df);
    var n, w, s, a := Npv(legs, y, df), TimeSum(legs, y, df), ConvexitySum(legs, y, df), 1.0 + y;
    var d, m, c := Macaulay(legs, y, df), Modified(legs, y, df), Convexity(legs, y, df);
    RatiosOf(legs, y, df);
    hide Macaulay, Modified, Convexity, Square;
    CurveNumbers(Npv(legs, z, df), n, w, s, d, m, c, a, z - y);
  }

  lemma RatiosOf(legs: seq<CashFlow>, y: real, df: Discount)
    requires y > -1.0 && Npv(legs, y, df) > 0.0
    ensures var n, a, d := Npv(legs, y, df), 1.0 + y, Macaulay(legs, y, df);
            && TimeSum(legs, y, df) == d * n && d == Modified(legs, y, df) * a
            && ConvexitySum(legs, y, df) == Convexity(legs, y, df) * (n * (a * a))
  {
    hide TimeSum, ConvexitySum, Npv;
    var n, a := Npv(legs, y, df), 1.0 + y;
    ProductPositive(a, a, a * a);
    ProductPositive(n, a * a, n * (a * a));
    Quotient(TimeSum(legs, y, df), n, Macaulay(legs, y, df));
    Quotient(Macaulay(legs, y, df), a, Modified(legs, y, df));
    Quotient(ConvexitySum(legs, y, df), n * (a * a), Convexity(legs, y, df));
  }

  lemma CurveNumbers(nz: real, n: real, w: real, s: real, d: real, m: real, c: real, a: real, h: real)
    requires a > 0.0 && w == d * n && d == m * a && s == c * (n * (a * a))
    requires ScaledBends(nz, n, w, s, a, h)
    ensures Bends(nz, n * (1.0 - m * h + c * (h * h) / 2.0), h)
  {
    var b := 2.0 * Square(a);
    ProductPositive(a, a, Square(a));
    var estimate := n * (1.0 - m * h + c * (h * h) / 2.0);
    EstimateTimes(n, w, s, d, m, c, a, h, estimate);
    if h >= 0.0 { ProductCancel(nz, estimate, b); }
    if h <= 0.0 { ProductCancel(estimate, nz, b); }
  }

  lemma EstimateTimes(n: real, w: real, s: real, d: real, m: real, c: real, a: real, h: real, estimate: real)
    requires w == d * n && d == m * a && s == c * (n * (a * a))
    requires estimate == n * (1.0 - m * h + c * (h * h) / 2.0)
    ensures estimate * (2.0 * Square(a)) == Scaled(n, w, s, a, h)
  {
    var b, hh := a * a, h * h;
    var x, u := n * (m * h), n * (c * hh);
    assert estimate == n - x + u / 2.0;
    assert x * b == h * a * w by { assert w * a == n * m * b; }
    assert u * b == hh * s;
  }

  lemma {:induction false} ConvexitySumBetween(legs: seq<CashFlow>, y: real, df: Discount, first: real, last: real)
    requires DiscountLaws(df, PaymentTimes(legs)) && NonNegativeFlows(legs) && y > -1.0
    requires 0.0 <= first && forall i :: 0 <= i < |legs| ==> first <= legs[i].time <= last
    ensures TimeWeight(first) * Npv(legs, y, df) <= ConvexitySum(legs, y, df) <= TimeWeight(last) * Npv(legs, y, df)
  {
    hide DiscountLaws, Pv, Times, TimeWeight;
    if legs == [] {
    } else {
      var front, leg := legs[..|legs| - 1], legs[|legs| - 1];
      PrefixTimes(legs, df);
      PvSign(legs, leg, y, df);
      ConvexitySumBetween(front, y, df, first, last);
      WeightMonotone(first, leg.time);
      WeightMonotone(leg.time, last);
      BetweenStep(TimeWeight(first), TimeWeight(leg.time), TimeWeight(last), Npv(front, y, df), Pv(leg, y, df));
    }
  }

  lemma WeightMonotone(s: real, t: real)
    requires 0.0 <= s <= t
    ensures TimeWeight(s) <= TimeWeight(t)
  {
    SquareMonotone(s, t);
  }

  /** Convexity lies between that of a single payment at the earliest and at the latest time; for a
      single payment at t it is t (t + 1) / (1 + y)^2. */
  lemma ConvexityBetween(legs: seq<CashFlow>, y: real, df: Discount, first: real, last: real)
    requires DiscountLaws(df, PaymentTimes(legs)) && NonNegativeFlows(legs) && y > -1.0 && Npv(legs, y, df) > 0.0
    requires 0.0 <= first && forall i :: 0 <= i < |legs| ==> first <= legs[i].time <= last
    ensures first * (first + 1.0) <= Convexity(legs, y, df) * ((1.0 + y) * (1.0 + y)) <= last * (last + 1.0)
  {
    hide DiscountLaws, TimeSum, ConvexitySum, Npv;
    ConvexitySumBetween(legs, y, df, first, last);
    RatiosOf(legs, y, df);
    var n, b, c := Npv(legs, y, df), (1.0 + y) * (1.0 + y), Convexity(legs, y, df);
    hide Convexity;
    assert c * (n * b) == c * b * n;
    ProductCancel(TimeWeight(first), c * b, n);
    ProductCancel(c * b, TimeWeight(last), n);
  }
}
