/** Two correlated assets in the risk-parity loop of analytics/pae/models/optimize.py: each pass turns the
    distance from risk parity around and scales it by one number, (1 - rho) / (1 + rho). So the loop
    converges for positive correlations, alternates without correlation, and for negative ones drives a
    marginal to where it is clamped. */
module TwoAssetRiskParity {
  import opened Reals
  import opened Vectors
  import opened Optimize
  import opened RiskParity

  /** Volatilities a and b, correlation rho. */
  ghost predicate IsPair(cov: Matrix, a: real, b: real, rho: real) {
    a > 0.0 && b > 0.0 && -1.0 < rho < 1.0 && cov == [[a * a, rho * (a * b)], [rho * (a * b), b * b]]
  }

  /** How far the two volatility shares are apart: 0 exactly at risk parity, and always within -1 and 1. */
  function Tilt(a: real, b: real, w: Vec): (t: real)
    requires a > 0.0 && b > 0.0 && |w| == 2 && IsPositive(w)
    ensures -1.0 < t < 1.0
    ensures t == 0.0 <==> a * w[0] == b * w[1]
  {
    TiltBounds(a, b, w[0], w[1]);
    (a * w[0] - b * w[1]) / (a * w[0] + b * w[1])
  }

  lemma TiltBounds(a: real, b: real, x: real, y: real)
    requires a > 0.0 && b > 0.0 && x > 0.0 && y > 0.0
    ensures a * x > 0.0 && b * y > 0.0
    ensures -1.0 < (a * x - b * y) / (a * x + b * y) < 1.0
    ensures (a * x - b * y) / (a * x + b * y) == 0.0 <==> a * x == b * y
  {
    var u, v := a * x, b * y;
    ProductPositive(a, x, u);
    ProductPositive(b, y, v);
    ShareBounds(u, v);
  }

  lemma ShareBounds(u: real, v: real)
    requires u > 0.0 && v > 0.0
    ensures -1.0 < (u - v) / (u + v) < 1.0
    ensures (u - v) / (u + v) == 0.0 <==> u == v
  {
    var s := u + v;
    var t := (u - v) / s;
    assert t * s == u - v;
    if t >= 1.0 {
      ProductMonotone(1.0, t, s);
    } else if t <= -1.0 {
      ProductMonotone(t, -1.0, s);
    }
  }

  /** The factor by which a pass scales the tilt, turning it around. */
  function Damping(rho: real): (q: real)
    requires -1.0 < rho < 1.0
    ensures Times(q, 1.0 + rho) == 1.0 - rho && q > 0.0
    ensures q < 1.0 <==> rho > 0.0
    ensures q == 1.0 <==> rho == 0.0
  {
    var d := 1.0 + rho;
    var q := (1.0 - rho) / d;
    Quotient(1.0 - rho, d, q);
    assert q == 1.0 ==> q * d == d;
    q
  }

  lemma PairMarginals(cov: Matrix, a: real, b: real, rho: real, w: Vec)
    requires IsPair(cov, a, b, rho) && |w| == 2
    ensures IsSquare(cov, 2)
    ensures MatVec(cov, w)[0] == a * (a * w[0] + rho * (b * w[1]))
    ensures MatVec(cov, w)[1] == b * (rho * (a * w[0]) + b * w[1])
  {
    hide Dot;
    var x, y, c := w[0], w[1], rho * (a * b);
    assert w == [x, y];
    DotPair(a * a, c, x, y);
    DotPair(c, b * b, x, y);
    MarginalNumbers(a, b, rho, x, y, c);
  }

  lemma MarginalNumbers(a: real, b: real, rho: real, x: real, y: real, c: real)
    requires c == rho * (a * b)
    ensures a * a * x + c * y == a * (a * x + rho * (b * y))
    ensures c * x + b * b * y == b * (rho * (a * x) + b * y)
  {
    var u, v := a * x, b * y;
    assert c * y == a * (rho * v) by { assert c * y == rho * a * (b * y); }
    assert c * x == b * (rho * u) by { assert c * x == rho * b * (a * x); }
  }

  /** One pass from unclamped marginals. */
  lemma {:induction false} TiltStep(cov: Matrix, a: real, b: real, rho: real, w: Vec, sqrt: real -> real)
    requires IsSqrt(sqrt) && IsPair(cov, a, b, rho) && |w| == 2 && IsPositive(w) && IsSquare(cov, 2)
    requires MarginalsAboveFloor(cov, w)
    ensures Form(cov, w, w) > 0.0 && Tilt(a, b, Step(cov, w, sqrt)) == -Times(Damping(rho), Tilt(a, b, w))
  {
    hide *;
    PairSigns(cov, a, b, rho);
    var u, v := Times(a, w[0]), Times(b, w[1]);
    var m, n := Times(a, u + Times(rho, v)), Times(b, Times(rho, u) + v);
    var p := PairBalances(cov, a, b, rho, w, sqrt);
    NamedTilt(a, b, w);
    NamedTilt(a, b, p);
    TurnedAround(a, b, p[0], p[1], u, v, rho, Tilt(a, b, w), Tilt(a, b, p), Damping(rho), m, n);
  }

  lemma PairBalances(cov: Matrix, a: real, b: real, rho: real, w: Vec, sqrt: real -> real) returns (p: Vec)
    requires IsSqrt(sqrt) && IsPair(cov, a, b, rho) && |w| == 2 && IsPositive(w) && IsSquare(cov, 2)
    requires MarginalsAboveFloor(cov, w)
    ensures Form(cov, w, w) > 0.0 && p == Step(cov, w, sqrt) && |p| == 2 && IsPositive(p)
    ensures Times(p[0], Times(a, Times(a, w[0]) + Times(rho, Times(b, w[1]))))
            == Times(p[1], Times(b, Times(rho, Times(a, w[0])) + Times(b, w[1])))
  {
    hide IsSqrt, IsPair, IsPositive, MarginalsAboveFloor, Form, Step, MatVec, Times;
    p := StepBalances(cov, w, sqrt);
    NamedMarginals(cov, a, b, rho, w);
  }

  lemma {:induction false} StepBalances(cov: Matrix, w: Vec, sqrt: real -> real) returns (p: Vec)
    requires IsSqrt(sqrt) && |w| == 2 && IsPositive(w) && IsSquare(cov, 2) && MarginalsAboveFloor(cov, w)
    ensures Form(cov, w, w) > 0.0 && p == Step(cov, w, sqrt) && |p| == 2 && IsPositive(p)
    ensures Times(p[0], MatVec(cov, w)[0]) == Times(p[1], MatVec(cov, w)[1])
  {
    hide Form, Step, Unnormalised, MatVec, Sum;
    MarginalsVariance(cov, w);
    p := Step(cov, w, sqrt);
    StepEqualises(cov, w, sqrt, 0);
    StepEqualises(cov, w, sqrt, 1);
    UnclampedMarginal(cov, w, 0);
    UnclampedMarginal(cov, w, 1);
  }

  lemma NamedMarginals(cov: Matrix, a: real, b: real, rho: real, w: Vec)
    requires IsPair(cov, a, b, rho) && |w| == 2
    ensures IsSquare(cov, 2)
    ensures MatVec(cov, w)[0] == Times(a, Times(a, w[0]) + Times(rho, Times(b, w[1])))
    ensures MatVec(cov, w)[1] == Times(b, Times(rho, Times(a, w[0])) + Times(b, w[1]))
  {
    hide MatVec, IsPair;
    PairMarginals(cov, a, b, rho, w);
  }

  lemma NamedTilt(a: real, b: real, w: Vec)
    requires a > 0.0 && b > 0.0 && |w| == 2 && IsPositive(w)
    ensures w[0] > 0.0 && w[1] > 0.0 && Times(a, w[0]) > 0.0 && Times(b, w[1]) > 0.0
    ensures Times(Tilt(a, b, w), Times(a, w[0]) + Times(b, w[1])) == Times(a, w[0]) - Times(b, w[1])
  {
    hide Tilt;
    TiltUnfold(a, b, w);
  }

  lemma PairSigns(cov: Matrix, a: real, b: real, rho: real)
    requires IsPair(cov, a, b, rho)
    ensures a > 0.0 && b > 0.0 && -1.0 < rho < 1.0
  {
  }

  lemma TiltUnfold(a: real, b: real, w: Vec)
    requires a > 0.0 && b > 0.0 && |w| == 2 && IsPositive(w)
    ensures a * w[0] > 0.0 && b * w[1] > 0.0
    ensures Tilt(a, b, w) * (a * w[0] + b * w[1]) == a * w[0] - b * w[1]
  {
    TiltBounds(a, b, w[0], w[1]);
    var d := a * w[0] + b * w[1];
    Quotient(a * w[0] - b * w[1], d, Tilt(a, b, w));
  }

  lemma TurnedAround(a: real, b: real, p: real, r: real, u: real, v: real, rho: real, t: real, t': real, q: real,
      m: real, n: real)
    requires Times(a, p) > 0.0 && Times(b, r) > 0.0 && u > 0.0 && v > 0.0 && -1.0 < rho
    requires m == Times(a, u + Times(rho, v)) && n == Times(b, Times(rho, u) + v) && Times(p, m) == Times(r, n)
    requires Times(t, u + v) == u - v && Times(t', Times(a, p) + Times(b, r)) == Times(a, p) - Times(b, r)
    requires Times(q, 1.0 + rho) == 1.0 - rho
    ensures t' == -Times(q, t)
  {
    var x, y, f, g := Times(a, p), Times(b, r), u + Times(rho, v), Times(rho, u) + v;
    assert Times(x, f) == Times(y, g) by {
      Regrouped(a, p, f);
      Regrouped(b, r, g);
    }
    SumsOfBoth(u, v, rho);
    var s, d := u + v, u - v;
    CrossedTilt(x, y, f, g, t');
    LastFactor(t, t', q, rho, s, d, f + g);
  }

  lemma Regrouped(a: real, p: real, f: real)
    ensures Times(Times(a, p), f) == Times(p, Times(a, f))
  {
    assert a * p * f == p * (a * f);
  }

  lemma SumsOfBoth(u: real, v: real, rho: real)
    ensures u + Times(rho, v) + (Times(rho, u) + v) == Times(1.0 + rho, u + v)
    ensures Times(rho, u) + v - (u + Times(rho, v)) == -Times(1.0 - rho, u - v)
  {
  }

  lemma CrossedTilt(x: real, y: real, f: real, g: real, t: real)
    requires x > 0.0 && y > 0.0 && Times(x, f) == Times(y, g) && Times(t, x + y) == x - y
    ensures Times(t, f + g) == g - f
  {
    var s, l, r := x + y, t * (f + g), g - f;
    assert l * s == (x - y) * (f + g) by { assert l * s == (t * s) * (f + g); }
    assert (x - y) * (f + g) == x * f + x * g - y * f - y * g;
    assert r * s == x * g + y * g - x * f - y * f;
    ProductEqual(l, r, s);
  }

  lemma LastFactor(t: real, t': real, q: real, rho: real, s: real, d: real, e: real)
    requires -1.0 < rho && s > 0.0 && e == Times(1.0 + rho, s) && Times(t', e) == -Times(1.0 - rho, d)
            && Times(t, s) == d
    requires Times(q, 1.0 + rho) == 1.0 - rho
    ensures t' == -Times(q, t)
  {
    var c, z := 1.0 + rho, q * t;
    ProductPositive(c, s, e);
    assert z * e == q * c * d by { assert q * t * (c * s) == q * c * (t * s); }
    assert (-z) * e == -(z * e);
    ProductEqual(t', -z, e);
  }

  /** So a pass comes closer to risk parity exactly for a positive correlation, unless it is there already. */
  lemma {:induction false} PassContracts(cov: Matrix, a: real, b: real, rho: real, w: Vec, sqrt: real -> real)
    requires IsSqrt(sqrt) && IsPair(cov, a, b, rho) && |w| == 2 && IsPositive(w) && IsSquare(cov, 2)
    requires MarginalsAboveFloor(cov, w)
    ensures Form(cov, w, w) > 0.0
    ensures Abs(Tilt(a, b, Step(cov, w, sqrt))) < Abs(Tilt(a, b, w)) <==> rho > 0.0 && Tilt(a, b, w) != 0.0
  {
    hide Tilt, Form, Step, IsPair, IsSqrt, Damping, MarginalsAboveFloor;
    PairSigns(cov, a, b, rho);
    TiltStep(cov, a, b, rho, w, sqrt);
    ScaledSize(Damping(rho), Tilt(a, b, w));
  }

  lemma ScaledSize(q: real, t: real)
    requires q > 0.0
    ensures Abs(-Times(q, t)) < Abs(t) <==> q < 1.0 && t != 0.0
  {
    AbsProduct(q, t, Times(q, t));
    assert Abs(-Times(q, t)) == Abs(Times(q, t)) == Times(q, Abs(t));
    ScaledLess(q, Abs(t));
  }

  lemma ScaledLess(q: real, x: real)
    requires q > 0.0 && x >= 0.0
    ensures Times(q, x) < x <==> q < 1.0 && x != 0.0
  {
    if q < 1.0 {
      if x > 0.0 {
        ProductStrict(q, 1.0, x);
      }
    } else {
      ProductMonotone(1.0, q, x);
    }
  }

  /** After k passes without clamping the tilt is that of the start times (-q)^k. */
  lemma {:induction false} TiltAfter(cov: Matrix, a: real, b: real, rho: real, sqrt: real -> real, k: nat)
    requires IsSqrt(sqrt) && IsPair(cov, a, b, rho) && |cov| == 2 && IsSquare(cov, 2)
    requires forall j :: 0 <= j < k ==> MarginalsAboveFloor(cov, Iterate(cov, sqrt, j))
    ensures Tilt(a, b, Iterate(cov, sqrt, k)) == Times(Pow(-Damping(rho), k), Tilt(a, b, EqualWeights(2)))
  {
    hide Form, Step, Tilt, Damping, IsPair, MarginalsAboveFloor, EqualWeights;
    PairSigns(cov, a, b, rho);
    if k == 0 {
    } else {
      TiltAfter(cov, a, b, rho, sqrt, k - 1);
      TiltStep(cov, a, b, rho, Iterate(cov, sqrt, k - 1), sqrt);
      var q, p, t := Damping(rho), Pow(-Damping(rho), k - 1), Tilt(a, b, EqualWeights(2));
      PowerTimes(q, p, t);
    }
  }

  lemma PowerTimes(q: real, p: real, t: real)
    ensures -Times(q, Times(p, t)) == Times(-q * p, t)
  {
    assert -(q * (p * t)) == -q * p * t;
  }

  lemma {:induction false} PowAbs(x: real, k: nat)
    ensures Abs(Pow(x, k)) == Pow(Abs(x), k)
  {
    if k == 0 {
    } else {
      PowAbs(x, k - 1);
      AbsProduct(x, Pow(x, k - 1), Pow(x, k));
    }
  }

  /** The size of the tilt after k passes without clamping. */
  lemma TiltSize(cov: Matrix, a: real, b: real, rho: real, sqrt: real -> real, k: nat)
    requires IsSqrt(sqrt) && IsPair(cov, a, b, rho) && |cov| == 2 && IsSquare(cov, 2)
    requires forall j :: 0 <= j < k ==> MarginalsAboveFloor(cov, Iterate(cov, sqrt, j))
    ensures Abs(Tilt(a, b, Iterate(cov, sqrt, k))) == Times(Pow(Damping(rho), k), Abs(Tilt(a, b, EqualWeights(2))))
  {
    hide Tilt, Damping, IsPair, MarginalsAboveFloor, EqualWeights, Iterate, Pow, Times;
    PairSigns(cov, a, b, rho);
    TiltAfter(cov, a, b, rho, sqrt, k);
    PowAbs(-Damping(rho), k);
    AbsTimes(Pow(-Damping(rho), k), Tilt(a, b, EqualWeights(2)));
  }

  lemma AbsTimes(x: real, y: real)
    ensures Abs(Times(x, y)) == Times(Abs(x), Abs(y))
  {
    AbsProduct(x, y, x * y);
  }

  // ------------------------------------------------ powers grow and vanish

  /** Bernoulli's inequality. */
  lemma {:induction false} PowGrows(h: real, k: nat)
    requires h >= 0.0
    ensures Pow(1.0 + h, k) >= 1.0 + Times(k as real, h)
  {
    if k == 0 {
    } else {
      var p, n := Pow(1.0 + h, k - 1), (k - 1) as real;
      PowGrows(h, k - 1);
      ProductMonotone(1.0 + n * h, p, 1.0 + h);
      ProductNonNegative(h, h, h * h);
      ProductNonNegative(n, h * h, n * (h * h));
      assert (1.0 + n * h) * (1.0 + h) == 1.0 + (n + 1.0) * h + n * (h * h);
    }
  }

  lemma {:induction false} PowShrinks(q: real, h: real, k: nat)
    requires 0.0 < q && h >= 0.0 && q * (1.0 + h) == 1.0
    ensures Times(Pow(q, k), 1.0 + Times(k as real, h)) <= 1.0
  {
    if k == 0 {
    } else {
      var p, n := Pow(q, k - 1), (k - 1) as real;
      PowShrinks(q, h, k - 1);
      PowPositive(q, k - 1);
      ShrinkStep(q, h, p, n);
    }
  }

  lemma ShrinkStep(q: real, h: real, p: real, n: real)
    requires 0.0 < q && h >= 0.0 && q * (1.0 + h) == 1.0 && p > 0.0 && n >= 0.0 && p * (1.0 + n * h) <= 1.0
    ensures q * p * (1.0 + (n + 1.0) * h) <= 1.0
  {
    var m := n * h;
    ProductNonNegative(n, h, m);
    assert q <= 1.0 by { ProductNonNegative(q, h, q * h); assert q * (1.0 + h) == q + q * h; }
    ProductMonotone(q, 1.0, m);
    var c := 1.0 + (n + 1.0) * h;
    assert q * c == 1.0 + q * m by { assert c == 1.0 + h + m; assert q * c == q * (1.0 + h) + q * m; }
    ProductMonotone(q * c, 1.0 + m, p);
    assert q * p * c == p * (q * c);
  }

  lemma SomeCountAbove(x: real) returns (k: nat)
    ensures k as real > x
  {
    k := if x < 0.0 then 0 else x.Floor + 1;
  }

  /** Powers of a number above 1 leave every bound behind. */
  lemma PowUnbounded(q: real, bound: real) returns (k: nat)
    requires q > 1.0
    ensures Pow(q, k) > bound
  {
    var h := q - 1.0;
    k := SomeCountAbove(bound / h);
    PowGrows(h, k);
    var x := bound / h;
    assert x * h == bound;
    ProductStrict(x, k as real, h);
  }

  /** Powers of a positive number below 1 vanish. */
  lemma PowVanishes(q: real, eps: real) returns (k: nat)
    requires 0.0 < q < 1.0 && eps > 0.0
    ensures Pow(q, k) < eps
  {
    var h := 1.0 / q - 1.0;
    Quotient(1.0, q, 1.0 / q);
    assert q * (1.0 + h) == 1.0;
    assert h > 0.0 by { if h <= 0.0 { ProductMonotone(1.0 + h, 1.0, q); } }
    var x := 1.0 / eps / h;
    k := SomeCountAbove(x);
    PowShrinks(q, h, k);
    PowPositive(q, k);
    VanishNumbers(eps, h, x, k as real, Pow(q, k));
  }

  lemma VanishNumbers(eps: real, h: real, x: real, n: real, p: real)
    requires eps > 0.0 && h > 0.0 && x == 1.0 / eps / h && n > x && p > 0.0 && Times(p, 1.0 + Times(n, h)) <= 1.0
    ensures p < eps
  {
    var e := 1.0 / eps;
    Quotient(1.0, eps, e);
    assert Times(x, h) == e;
    ProductStrict(x, n, h);
    BelowInverse(eps, e, Times(x, h), Times(n, h), p);
  }

  lemma BelowInverse(eps: real, e: real, y: real, m: real, p: real)
    requires eps > 0.0 && e * eps == 1.0 && y == e && m > y && p > 0.0 && Times(p, 1.0 + m) <= 1.0
    ensures p < eps
  {
    var c := 1.0 + m;
    ProductStrict(e, c, eps);
    if p >= eps {
      ProductMonotone(eps, p, c);
    }
  }

  // ----------------------------------------------------------- the verdict

  /** Risk parity at equal weights needs equal volatilities. */
  lemma EqualTilt(a: real, b: real)
    requires a > 0.0 && b > 0.0
    ensures EqualWeights(2) == [0.5, 0.5] && (Tilt(a, b, EqualWeights(2)) == 0.0 <==> a == b)
  {
    hide Sum;
    assert EqualWeights(2) == Const(2, 0.5) == [0.5, 0.5];
  }

  /** A negative correlation clamps a marginal sooner or later, unless the volatilities are equal: the
      tilt would have to grow beyond every bound. */
  lemma {:induction false} NegativeCorrelationClamps(cov: Matrix, a: real, b: real, rho: real, sqrt: real -> real)
    requires IsSqrt(sqrt) && IsPair(cov, a, b, rho) && |cov| == 2 && IsSquare(cov, 2) && rho < 0.0 && a != b
    ensures exists k :: 0 <= k && !MarginalsAboveFloor(cov, Iterate(cov, sqrt, k))
  {
    hide Tilt, Damping, IsPair, MarginalsAboveFloor, EqualWeights, Iterate, Pow;
    PairSigns(cov, a, b, rho);
    EqualTilt(a, b);
    var t, q := Abs(Tilt(a, b, EqualWeights(2))), Damping(rho);
    var k := PowUnbounded(q, 1.0 / t);
    if forall j :: 0 <= j ==> MarginalsAboveFloor(cov, Iterate(cov, sqrt, j)) {
      TiltSize(cov, a, b, rho, sqrt, k);
      TooFar(Pow(q, k), t, Abs(Tilt(a, b, Iterate(cov, sqrt, k))));
      assert false;
    }
  }

  lemma TooFar(p: real, t: real, x: real)
    requires t > 0.0 && p > 1.0 / t && x == Times(p, t)
    ensures x > 1.0
  {
    var e := 1.0 / t;
    Quotient(1.0, t, e);
    ProductStrict(e, p, t);
  }

  /** The volatilities are large enough for marginals of assets that do not hedge each other. */
  predicate HasRoom(a: real, b: real) {
    var m := Min(a, b);
    m * m * m >= (a + b) * MARGINAL_FLOOR
  }

  lemma {:induction false} PowAtMostOne(q: real, k: nat)
    requires 0.0 < q <= 1.0
    ensures 0.0 < Pow(q, k) <= 1.0
  {
    if k == 0 {
    } else {
      PowAtMostOne(q, k - 1);
      ProductPositive(q, Pow(q, k - 1), Pow(q, k));
      ProductMonotone(q, 1.0, Pow(q, k - 1));
    }
  }

  /** The total volatility share of fully invested weights lies between the two volatilities. */
  lemma ShareTotal(a: real, b: real, x: real, y: real)
    requires a > 0.0 && b > 0.0 && x > 0.0 && y > 0.0 && x + y == 1.0
    ensures Min(a, b) <= Times(a, x) + Times(b, y) <= Max(a, b)
  {
    hide Times;
    var m, l := Min(a, b), Max(a, b);
    Whole(m, x, y);
    Whole(l, x, y);
    TimesOrder(m, a, x);
    TimesOrder(m, b, y);
    TimesOrder(a, l, x);
    TimesOrder(b, l, y);
  }

  lemma Whole(m: real, x: real, y: real)
    requires x + y == 1.0
    ensures Times(m, x) + Times(m, y) == m
  {
    assert m * x + m * (1.0 - x) == m;
  }

  /** The start is tilted by no more than 1 - 2 m / (a + b), where m is the smaller volatility. */
  lemma StartTilt(a: real, b: real) returns (c: real)
    requires a > 0.0 && b > 0.0
    ensures Times(c, a + b) == Min(a, b) && c > 0.0 && Abs(Tilt(a, b, EqualWeights(2))) == 1.0 - 2.0 * c
  {
    EqualTilt(a, b);
    TiltUnfold(a, b, EqualWeights(2));
    var t, s, m := Tilt(a, b, EqualWeights(2)), a + b, Min(a, b);
    hide Tilt, EqualWeights;
    c := m / s;
    Quotient(m, s, c);
    assert t * s == a - b by { assert t * (a * 0.5 + b * 0.5) == a * 0.5 - b * 0.5; }
    if a <= b {
      ProductEqual(-t, 1.0 - 2.0 * c, s);
      assert t <= 0.0 by { if t > 0.0 { ProductPositive(t, s, t * s); } }
    } else {
      ProductEqual(t, 1.0 - 2.0 * c, s);
      assert t >= 0.0 by { if t < 0.0 { ProductPositive(-t, s, -t * s); } }
    }
  }

  /** The volatility shares u and v of weights, with their tilt. */
  lemma Shares(a: real, b: real, w: Vec) returns (u: real, v: real)
    requires a > 0.0 && b > 0.0 && |w| == 2 && IsPositive(w) && Sum(w) == 1.0
    ensures u == Times(a, w[0]) > 0.0 && v == Times(b, w[1]) > 0.0 && Min(a, b) <= u + v <= Max(a, b)
    ensures Times(Tilt(a, b, w), u + v) == u - v && w[0] + w[1] == 1.0
  {
    hide Sum, Tilt, Min, Max;
    SumPair(w);
    TiltUnfold(a, b, w);
    ShareTotal(a, b, w[0], w[1]);
    u, v := Times(a, w[0]), Times(b, w[1]);
  }

  /** Within the tilt of the start no marginal of positively correlated assets comes near the floor. */
  lemma {:induction false} RoomForMarginals(cov: Matrix, a: real, b: real, rho: real, w: Vec)
    requires IsPair(cov, a, b, rho) && rho >= 0.0 && HasRoom(a, b) && IsSquare(cov, 2) && a > 0.0 && b > 0.0
    requires |w| == 2 && IsPositive(w) && Sum(w) == 1.0 && Abs(Tilt(a, b, w)) <= Abs(Tilt(a, b, EqualWeights(2)))
    ensures MarginalsAboveFloor(cov, w)
  {
    hide *;
    NamedMarginals(cov, a, b, rho, w);
    var u, v := Shares(a, b, w);
    var c := StartTilt(a, b);
    RoomNumbers(a, b, rho, u, v, c, Tilt(a, b, w));
    BothAboveFloor(cov, w);
  }

  lemma BothAboveFloor(cov: Matrix, w: Vec)
    requires |w| == 2 && IsSquare(cov, 2)
    requires MatVec(cov, w)[0] >= MARGINAL_FLOOR && MatVec(cov, w)[1] >= MARGINAL_FLOOR
    ensures MarginalsAboveFloor(cov, w)
  {
    hide MatVec;
  }

  lemma RoomNumbers(a: real, b: real, rho: real, u: real, v: real, c: real, t: real)
    requires a > 0.0 && b > 0.0 && rho >= 0.0 && u > 0.0 && v > 0.0 && c > 0.0 && HasRoom(a, b)
    requires Times(c, a + b) == Min(a, b) && u + v >= Min(a, b)
    requires Times(t, u + v) == u - v && Abs(t) <= 1.0 - 2.0 * c
    ensures Times(a, u + Times(rho, v)) >= MARGINAL_FLOOR && Times(b, Times(rho, u) + v) >= MARGINAL_FLOOR
  {
    hide *;
    var m, e, d := Min(a, b), Times(c, Min(a, b)), Times(c, u + v);
    PositiveMin(a, b);
    HalfShares(u, v, c, t);
    TimesMonotone(c, m, u + v);
    TimesPositive(c, m);
    TimesNonNegative(rho, v);
    TimesNonNegative(rho, u);
    FloorBelow(a, b, m, c, e);
    AtLeastFloor(a, m, e, u + Times(rho, v));
    AtLeastFloor(b, m, e, Times(rho, u) + v);
  }

  lemma PositiveMin(a: real, b: real)
    requires a > 0.0 && b > 0.0
    ensures Min(a, b) > 0.0
  {
  }

  lemma TimesPositive(x: real, y: real)
    requires x > 0.0 && y > 0.0
    ensures Times(x, y) > 0.0
  {
    ProductPositive(x, y, x * y);
  }

  lemma TimesNonNegative(x: real, y: real)
    requires x >= 0.0 && y >= 0.0
    ensures Times(x, y) >= 0.0
  {
    ProductNonNegative(x, y, x * y);
  }

  lemma TimesMonotone(c: real, x: real, y: real)
    requires c >= 0.0 && x <= y
    ensures Times(c, x) <= Times(c, y)
  {
    ProductMonotone(x, y, c);
  }

  lemma HalfShares(u: real, v: real, c: real, t: real)
    requires u > 0.0 && v > 0.0 && Times(t, u + v) == u - v && Abs(t) <= 1.0 - 2.0 * c
    ensures u >= Times(c, u + v) && v >= Times(c, u + v)
  {
    var s, z := u + v, 1.0 - 2.0 * c;
    var d := c * s;
    assert z * s == s - 2.0 * d;
    ProductMonotone(-z, t, s);
    ProductMonotone(t, z, s);
    assert -z * s == -(z * s);
  }

  lemma FloorBelow(a: real, b: real, m: real, c: real, e: real)
    requires a > 0.0 && b > 0.0 && m == Min(a, b) && HasRoom(a, b) && Times(c, a + b) == m && e == Times(c, m)
    ensures Times(m, e) >= MARGINAL_FLOOR
  {
    var total := a + b;
    assert m * m * m >= total * MARGINAL_FLOOR;
    hide HasRoom, Min;
    var x := m * e;
    assert x * total == m * m * m by { assert x * total == m * m * (c * total); }
    ProductCancel(MARGINAL_FLOOR, x, total);
  }

  lemma AtLeastFloor(a: real, m: real, e: real, x: real)
    requires 0.0 < m <= a && 0.0 < e <= x && Times(m, e) >= MARGINAL_FLOOR
    ensures Times(a, x) >= MARGINAL_FLOOR
  {
    ProductMonotone(m, a, e);
    ProductMonotone(e, x, a);
  }

  /** Without negative correlation, assets with room are never clamped. */
  lemma {:induction false} NeverClamped(cov: Matrix, a: real, b: real, rho: real, sqrt: real -> real, k: nat)
    requires IsSqrt(sqrt) && IsPair(cov, a, b, rho) && |cov| == 2 && IsSquare(cov, 2) && rho >= 0.0 && HasRoom(a, b)
    ensures forall j :: 0 <= j <= k ==> MarginalsAboveFloor(cov, Iterate(cov, sqrt, j))
    ensures Abs(Tilt(a, b, Iterate(cov, sqrt, k))) == Times(Pow(Damping(rho), k), Abs(Tilt(a, b, EqualWeights(2))))
  {
    hide Tilt, Damping, IsPair, HasRoom, MarginalsAboveFloor, EqualWeights, Iterate, Pow, Times;
    PairSigns(cov, a, b, rho);
    if k == 0 {
    } else {
      NeverClamped(cov, a, b, rho, sqrt, k - 1);
    }
    TiltSize(cov, a, b, rho, sqrt, k);
    PowAtMostOne(Damping(rho), k);
    TimesAtMost(Pow(Damping(rho), k), Abs(Tilt(a, b, EqualWeights(2))));
    RoomForMarginals(cov, a, b, rho, Iterate(cov, sqrt, k));
  }

  lemma TimesAtMost(p: real, t: real)
    requires p <= 1.0 && t >= 0.0
    ensures Times(p, t) <= t
  {
    ProductMonotone(p, 1.0, t);
  }

  // ------------------------------------------------------------- settling

  /** How far apart two weights are, from how far apart their tilts are. */
  lemma WeightGap(a: real, b: real, w: Vec, w': Vec) returns (d: real, s: real)
    requires a > 0.0 && b > 0.0 && |w| == |w'| == 2 && IsPositive(w) && IsPositive(w') && Sum(w) == 1.0 == Sum(w')
    ensures 2.0 * Min(a, b) <= d <= 2.0 * Max(a, b) && Min(a, b) <= s <= Max(a, b)
    ensures Times(Abs(w[0] - w'[0]), d) == Times(Abs(Tilt(a, b, w) - Tilt(a, b, w')), s)
    ensures w[1] - w'[1] == -(w[0] - w'[0])
  {
    hide *;
    var u, v := Shares(a, b, w);
    var u', v' := Shares(a, b, w');
    var t, t' := Tilt(a, b, w), Tilt(a, b, w');
    d, s := Spread(a, b, t), u' + v';
    NamedGap(a, b, w[0], w[1], w'[0], w'[1], t, t', d, s);
    SizesOfProducts(w[0] - w'[0], d, t - t', s);
    PositiveMin(a, b);
  }

  lemma NamedGap(a: real, b: real, x: real, y: real, x': real, y': real, t: real, t': real, d: real, s: real)
    requires x + y == 1.0 == x' + y' && Times(t, Times(a, x) + Times(b, y)) == Times(a, x) - Times(b, y)
    requires Times(t', Times(a, x') + Times(b, y')) == Times(a, x') - Times(b, y')
    requires d == Times(a, 1.0 - t) + Times(b, 1.0 + t) && s == Times(a, x') + Times(b, y')
    ensures Times(x - x', d) == Times(t - t', s)
  {
    GapNumbers(a, b, x, y, x', y', t, t', d, s);
  }

  /** The denominator of a weight as a function of its tilt. */
  function Spread(a: real, b: real, t: real): (d: real)
    requires a > 0.0 && b > 0.0 && -1.0 < t < 1.0
    ensures 2.0 * Min(a, b) <= d <= 2.0 * Max(a, b)
    ensures d == Times(a, 1.0 - t) + Times(b, 1.0 + t)
  {
    BetweenTwice(Min(a, b), a, b, Max(a, b), 1.0 - t, 1.0 + t);
    Times(a, 1.0 - t) + Times(b, 1.0 + t)
  }

  lemma BetweenTwice(m: real, a: real, b: real, l: real, p: real, q: real)
    requires m <= a <= l && m <= b <= l && p > 0.0 && q > 0.0 && p + q == 2.0
    ensures 2.0 * m <= Times(a, p) + Times(b, q) <= 2.0 * l
  {
    hide Times;
    Twice(m, p, q);
    Twice(l, p, q);
    TimesOrder(m, a, p);
    TimesOrder(m, b, q);
    TimesOrder(a, l, p);
    TimesOrder(b, l, q);
  }

  lemma TimesOrder(x: real, y: real, c: real)
    requires c >= 0.0 && x <= y
    ensures Times(x, c) <= Times(y, c)
  {
    ProductMonotone(x, y, c);
  }

  lemma Twice(m: real, p: real, q: real)
    requires p + q == 2.0
    ensures Times(m, p) + Times(m, q) == 2.0 * m
  {
    assert m * p + m * (2.0 - p) == 2.0 * m;
  }

  lemma SizesOfProducts(x: real, d: real, g: real, s: real)
    requires Times(x, d) == Times(g, s) && d >= 0.0 && s >= 0.0
    ensures Times(Abs(x), d) == Times(Abs(g), s)
  {
    AbsProduct(x, d, x * d);
    AbsProduct(g, s, g * s);
  }

  lemma GapNumbers(a: real, b: real, x: real, y: real, x': real, y': real, t: real, t': real, d: real, s: real)
    requires x + y == 1.0 == x' + y' && t * (a * x + b * y) == a * x - b * y
    requires t' * (a * x' + b * y') == a * x' - b * y'
    requires d == Times(a, 1.0 - t) + Times(b, 1.0 + t) && s == a * x' + b * y'
    ensures (x - x') * d == (t - t') * s
  {
    var d', g := Times(a, 1.0 - t') + Times(b, 1.0 + t'), t - t';
    WeightOfTilt(a, b, x, y, t);
    WeightOfTilt(a, b, x', y', t');
    assert d == d' + g * (b - a);
    var h := g * (b - a);
    assert x' * d == x' * d' + x' * h;
    assert x * d - x' * d' == b * g;
    assert (x - x') * d == b * g - x' * h by { assert (x - x') * d == x * d - x' * d; }
    assert x' * h == g * (x' * (b - a));
    assert x' * (b - a) == b - s by { assert s == a * x' + b * (1.0 - x'); }
    assert b * g - g * (b - s) == g * s;
  }

  lemma WeightOfTilt(a: real, b: real, x: real, y: real, t: real)
    requires x + y == 1.0 && t * (a * x + b * y) == a * x - b * y
    ensures x * (Times(a, 1.0 - t) + Times(b, 1.0 + t)) == b * (1.0 + t)
  {
    var u, v := a * x, b * y;
    assert t * u + t * v == u - v;
    assert x * (a * (1.0 - t) + b * (1.0 + t)) == u - t * u + b * x + b * (x * t) by {
      assert x * (a * (1.0 - t)) == u - t * u;
      assert x * (b * (1.0 + t)) == b * x + b * (x * t);
    }
    assert v == b - b * x by { assert y == 1.0 - x; }
    assert t * v == b * t - b * (x * t) by { assert t * (b - b * x) == b * t - b * (x * t); }
  }

  /** Positive correlation: the loop settles at every tolerance. */
  lemma {:induction false} PositiveCorrelationSettles(cov: Matrix, a: real, b: real, rho: real, sqrt: real -> real,
      tol: real)
    returns (k: nat)
    requires IsSqrt(sqrt) && IsPair(cov, a, b, rho) && |cov| == 2 && IsSquare(cov, 2) && rho > 0.0 && HasRoom(a, b)
    requires tol > 0.0
    ensures StopsAt(cov, sqrt, tol, k)
  {
    hide Tilt, Damping, IsPair, HasRoom, MarginalsAboveFloor, EqualWeights, Iterate, Pow, Form, Step, Times;
    PairSigns(cov, a, b, rho);
    var q, m, l := Damping(rho), Min(a, b), Max(a, b);
    var eps := tol * m / l;
    Quotient(tol * m, l, eps);
    ProductPositive(tol, m, tol * m);
    k := PowVanishes(q, eps);
    NeverClamped(cov, a, b, rho, sqrt, k + 1);
    NeverClamped(cov, a, b, rho, sqrt, k);
    var w, w' := Iterate(cov, sqrt, k), Iterate(cov, sqrt, k + 1);
    MarginalsVariance(cov, w);
    NextIterate(cov, sqrt, k);
    PowPositive(q, k);
    var d, s := WeightGap(a, b, w', w);
    NextPower(q, k);
    SmallGap(Pow(q, k), Pow(q, k + 1), Abs(Tilt(a, b, EqualWeights(2))), Tilt(a, b, w), Tilt(a, b, w'), eps);
    GapBelow(Abs(w'[0] - w[0]), Abs(Tilt(a, b, w') - Tilt(a, b, w)), d, s, m, l, eps, tol);
    NearPair(w', w, tol);
  }

  lemma NextIterate(cov: Matrix, sqrt: real -> real, k: nat)
    requires IsSqrt(sqrt) && IsSquare(cov, |cov|) && |cov| > 0
    requires Form(cov, Iterate(cov, sqrt, k), Iterate(cov, sqrt, k)) > 0.0
    ensures Iterate(cov, sqrt, k + 1) == Step(cov, Iterate(cov, sqrt, k), sqrt)
  {
    hide Form, Step;
  }

  lemma NextPower(q: real, k: nat)
    requires 0.0 < q < 1.0
    ensures 0.0 < Pow(q, k + 1) <= Pow(q, k)
  {
    PowPositive(q, k);
    PowPositive(q, k + 1);
    ProductMonotone(q, 1.0, Pow(q, k));
  }

  lemma SmallGap(p: real, p': real, t0: real, t: real, t': real, eps: real)
    requires 0.0 < p' <= p < eps && 0.0 <= t0 < 1.0 && Abs(t) == Times(p, t0) && Abs(t') == Times(p', t0)
    ensures Abs(t' - t) < 2.0 * eps
  {
    hide Times;
    PartOf(p, t0);
    PartOf(p', t0);
  }

  lemma PartOf(p: real, t: real)
    requires p > 0.0 && 0.0 <= t <= 1.0
    ensures 0.0 <= Times(p, t) <= p
  {
    ProductNonNegative(p, t, p * t);
    ProductMonotone(t, 1.0, p);
  }

  lemma GapBelow(x: real, g: real, d: real, s: real, m: real, l: real, eps: real, tol: real)
    requires x >= 0.0 && 0.0 <= g < 2.0 * eps && 0.0 < m && 2.0 * m <= d && m <= s <= l && eps * l == tol * m
    requires Times(x, d) == Times(g, s)
    ensures x < tol
  {
    ProductMonotone(s, l, g);
    ProductStrict(g, 2.0 * eps, l);
    assert x * d < 2.0 * (tol * m) by { assert 2.0 * eps * l == 2.0 * (eps * l); }
    ProductMonotone(2.0 * m, d, x);
    assert tol * (2.0 * m) == 2.0 * (tol * m);
    if x >= tol {
      ProductMonotone(tol, x, 2.0 * m);
    }
  }

  lemma NearPair(u: Vec, v: Vec, tol: real)
    requires |u| == |v| == 2 && u[1] - v[1] == -(u[0] - v[0]) && Abs(u[0] - v[0]) < tol
    ensures Close(u, v, tol)
  {
  }

  /** No correlation and different volatilities: at a small enough tolerance it never does. */
  lemma {:induction false} NoCorrelationNeverSettles(cov: Matrix, a: real, b: real,
      sqrt: real -> real) returns (tol: real)
    requires IsSqrt(sqrt) && IsPair(cov, a, b, 0.0) && |cov| == 2 && IsSquare(cov, 2) && HasRoom(a, b) && a != b
    ensures tol > 0.0 && forall k: nat :: !StopsAt(cov, sqrt, tol, k)
  {
    hide Tilt, Damping, IsPair, HasRoom, MarginalsAboveFloor, EqualWeights, Iterate, Pow, Form, Step, Times, StopsAt;
    PairSigns(cov, a, b, 0.0);
    EqualTilt(a, b);
    var t0, m, l := Abs(Tilt(a, b, EqualWeights(2))), Min(a, b), Max(a, b);
    tol := t0 * m / l;
    ProductPositive(t0, m, t0 * m);
    Quotient(t0 * m, l, tol);
    forall k: nat ensures !StopsAt(cov, sqrt, tol, k) {
      StaysApart(cov, a, b, sqrt, tol, k);
    }
  }

  lemma {:induction false} StaysApart(cov: Matrix, a: real, b: real, sqrt: real -> real, tol: real, k: nat)
    requires IsSqrt(sqrt) && IsPair(cov, a, b, 0.0) && |cov| == 2 && IsSquare(cov, 2) && HasRoom(a, b)
    requires a > 0.0 && b > 0.0 && tol * Max(a, b) == Abs(Tilt(a, b, EqualWeights(2))) * Min(a, b) && tol > 0.0
    ensures !StopsAt(cov, sqrt, tol, k)
  {
    hide Tilt, Damping, IsPair, HasRoom, MarginalsAboveFloor, EqualWeights, Iterate, Pow, Form, Step, Times;
    var w, w' := Iterate(cov, sqrt, k), Iterate(cov, sqrt, k + 1);
    NeverClamped(cov, a, b, 0.0, sqrt, k);
    MarginalsVariance(cov, w);
    NextIterate(cov, sqrt, k);
    TiltStep(cov, a, b, 0.0, w, sqrt);
    UnitPower(Damping(0.0), k, Abs(Tilt(a, b, EqualWeights(2))), Tilt(a, b, w));
    var d, s := WeightGap(a, b, w', w);
    FarApart(Abs(w'[0] - w[0]), Abs(Tilt(a, b, w)), d, s, Min(a, b), Max(a, b), tol);
  }

  lemma UnitPower(q: real, k: nat, t0: real, t: real)
    requires q == 1.0
    ensures Times(Pow(q, k), t0) == t0 && Times(q, t) == t
  {
    OnePower(k);
  }

  lemma {:induction false} OnePower(k: nat)
    ensures Pow(1.0, k) == 1.0
  {
    if k == 0 {
    } else {
      OnePower(k - 1);
    }
  }

  lemma FarApart(x: real, t: real, d: real, s: real, m: real, l: real, tol: real)
    requires x >= 0.0 && t >= 0.0 && 0.0 < m <= s && 0.0 < d <= 2.0 * l && tol * l == t * m
    requires Times(x, d) == Times(2.0 * t, s)
    ensures x >= tol
  {
    ProductMonotone(m, s, 2.0 * t);
    ProductMonotone(d, 2.0 * l, x);
    assert 2.0 * t * m == 2.0 * (tol * l);
    assert x * (2.0 * l) == 2.0 * (x * l);
    ProductCancel(tol, x, l);
  }

  /** The loop settles at every tolerance. */
  ghost predicate Settles(cov: Matrix, sqrt: real -> real)
    requires IsSqrt(sqrt) && IsSquare(cov, |cov|) && |cov| > 0
  {
    forall tol: real :: tol > 0.0 ==> SettlesWithin(cov, sqrt, tol)
  }

  ghost predicate SettlesWithin(cov: Matrix, sqrt: real -> real, tol: real)
    requires IsSqrt(sqrt) && IsSquare(cov, |cov|) && |cov| > 0
  {
    exists k: nat :: StopsAt(cov, sqrt, tol, k)
  }

  /** Two assets with room and without negative correlation: the loop settles if and only if they are
      correlated or equally volatile. */
  lemma {:induction false} SettlesIffCorrelated(cov: Matrix, a: real, b: real, rho: real, sqrt: real -> real)
    requires IsSqrt(sqrt) && IsPair(cov, a, b, rho) && |cov| == 2 && IsSquare(cov, 2) && rho >= 0.0 && HasRoom(a, b)
    ensures Settles(cov, sqrt) <==> rho > 0.0 || a == b
  {
    hide IsPair, HasRoom, StopsAt;
    PairSigns(cov, a, b, rho);
    if rho > 0.0 {
      forall tol: real | tol > 0.0 ensures SettlesWithin(cov, sqrt, tol) {
        var k := PositiveCorrelationSettles(cov, a, b, rho, sqrt, tol);
      }
    } else if a == b {
      forall tol: real | tol > 0.0 ensures SettlesWithin(cov, sqrt, tol) {
        StartsThere(cov, a, sqrt, tol);
      }
    } else {
      var tol := NoCorrelationNeverSettles(cov, a, b, sqrt);
      assert !SettlesWithin(cov, sqrt, tol);
    }
  }

  lemma {:induction false} StartsThere(cov: Matrix, a: real, sqrt: real -> real, tol: real)
    requires IsSqrt(sqrt) && IsPair(cov, a, a, 0.0) && |cov| == 2 && IsSquare(cov, 2) && HasRoom(a, a) && tol > 0.0
    ensures StopsAt(cov, sqrt, tol, 0)
  {
    hide Tilt, Damping, IsPair, HasRoom, MarginalsAboveFloor, EqualWeights, Iterate, Pow, Form, Step, Times;
    PairSigns(cov, a, a, 0.0);
    EqualTilt(a, a);
    NeverClamped(cov, a, a, 0.0, sqrt, 1);
    NeverClamped(cov, a, a, 0.0, sqrt, 0);
    var w, w' := Iterate(cov, sqrt, 0), Iterate(cov, sqrt, 1);
    MarginalsVariance(cov, w);
    NextIterate(cov, sqrt, 0);
    TimesZeroRight(Pow(Damping(0.0), 0));
    TimesZeroRight(Pow(Damping(0.0), 1));
    var d, s := WeightGap(a, a, w', w);
    NoGap(Abs(w'[0] - w[0]), d, s);
    NearPair(w', w, tol);
  }

  lemma TimesZeroRight(p: real)
    ensures Times(p, 0.0) == 0.0
  {
  }

  lemma NoGap(x: real, d: real, s: real)
    requires d > 0.0 && Times(x, d) == Times(0.0, s)
    ensures x == 0.0
  {
    ProductEqual(x, 0.0, d);
  }
}
