/** The risk-parity loop of analytics/pae/models/optimize.py: w_i <- vol / (n * (Sigma w)_i),
    renormalised, with inverse-volatility weights when it does not settle. */
module RiskParity {
  import opened Reals
  import opened Vectors
  import opened Optimize

  /** Marginals below this floor are replaced by it. */
  const MARGINAL_FLOOR: real := 0.0000000000000001

  predicate IsPositive(w: Vec) {
    forall i :: 0 <= i < |w| ==> w[i] > 0.0
  }

  /** The share of the portfolio variance that asset i carries: w_i * (Sigma w)_i. */
  function RiskContribution(cov: Matrix, w: Vec, i: nat): real
    requires IsSquare(cov, |w|) && i < |w|
  {
    w[i] * MatVec(cov, w)[i]
  }

  /** Exact risk parity. */
  predicate EqualRisk(cov: Matrix, w: Vec)
    requires IsSquare(cov, |w|)
  {
    forall i, k :: 0 <= i < |w| && 0 <= k < |w| ==> RiskContribution(cov, w, i) == RiskContribution(cov, w, k)
  }

  function ClampedMarginal(cov: Matrix, w: Vec, i: nat): (m: real)
    requires IsSquare(cov, |w|) && i < |w|
    ensures m > 0.0 && m >= MatVec(cov, w)[i]
  {
    Max(MatVec(cov, w)[i], MARGINAL_FLOOR)
  }

  function Unnormalised(cov: Matrix, w: Vec, vol: real): (r: Vec)
    requires IsSquare(cov, |w|) && |w| > 0
    ensures |r| == |w|
  {
    seq(|w|, i requires 0 <= i < |w| => vol / |w| as real / ClampedMarginal(cov, w, i))
  }

  lemma UnnormalisedPositive(cov: Matrix, w: Vec, vol: real)
    requires IsSquare(cov, |w|) && |w| > 0 && vol > 0.0
    ensures IsPositive(Unnormalised(cov, w, vol)) && Sum(Unnormalised(cov, w, vol)) > 0.0
  {
    var u, c := Unnormalised(cov, w, vol), vol / |w| as real;
    Quotient(vol, |w| as real, c);
    forall i | 0 <= i < |w| ensures u[i] > 0.0 {
      Quotient(c, ClampedMarginal(cov, w, i), u[i]);
    }
    SumNonNegative(u);
    assert u[0] <= Sum(u);
  }

  /** One pass of the loop body, for a portfolio of positive variance. */
  function Step(cov: Matrix, w: Vec, sqrt: real -> real): (r: Vec)
    requires IsSqrt(sqrt) && IsSquare(cov, |w|) && |w| > 0 && Form(cov, w, w) > 0.0
    ensures |r| == |w| && IsPositive(r) && Sum(r) == 1.0
  {
    var vol := sqrt(Form(cov, w, w));
    SqrtSign(sqrt, Form(cov, w, w));
    UnnormalisedPositive(cov, w, vol);
    var u := Unnormalised(cov, w, vol);
    DividePositive(u, Sum(u));
    Divide(u, Sum(u))
  }

  lemma DividePositive(u: Vec, total: real)
    requires IsPositive(u) && total == Sum(u) > 0.0
    ensures IsPositive(Divide(u, total)) && Sum(Divide(u, total)) == 1.0
  {
    DivideIsScale(u, total);
    forall i | 0 <= i < |u| ensures Divide(u, total)[i] > 0.0 {
      Quotient(u[i], total, u[i] / total);
    }
  }

  /** The step equalises weight times clamped marginal across all assets. */
  lemma {:induction false} StepEqualises(cov: Matrix, w: Vec, sqrt: real -> real, i: nat)
    requires IsSqrt(sqrt) && IsSquare(cov, |w|) && |w| > 0 && Form(cov, w, w) > 0.0 && i < |w|
    ensures var vol := sqrt(Form(cov, w, w));
            Sum(Unnormalised(cov, w, vol)) > 0.0 &&
            Step(cov, w, sqrt)[i] * ClampedMarginal(cov, w, i)
              == vol / |w| as real / Sum(Unnormalised(cov, w, vol))
  {
    hide Form, Sum, Dot, MatVec, ClampedMarginal;
    var vol := sqrt(Form(cov, w, w));
    SqrtSign(sqrt, Form(cov, w, w));
    UnnormalisedPositive(cov, w, vol);
    var u, m, c := Unnormalised(cov, w, vol), ClampedMarginal(cov, w, i), vol / |w| as real;
    SwapDivisors(c, m, Sum(u));
  }

  lemma SwapDivisors(c: real, m: real, total: real)
    requires m > 0.0 && total > 0.0
    ensures c / m / total * m == c / total
  {
    var a := c / m;
    Quotient(c, m, a);
    var b := a / total;
    Quotient(a, total, b);
    assert b * m * total == c;
    Quotient(c, total, c / total);
    ProductEqual(b * m, c / total, total);
  }

  // --------------------------------------------------- tolerance exits

  /** Every entry of u is within tol of the entry of v. */
  predicate Close(u: Vec, v: Vec, tol: real)
    requires |u| == |v|
  {
    forall i :: 0 <= i < |u| ==> Abs(u[i] - v[i]) < tol
  }

  function AbsSum(row: Vec): (s: real)
    ensures s >= 0.0
  {
    if row == [] then 0.0 else Abs(row[0]) + AbsSum(row[1..])
  }

  /** tol * |row[0]| + tol * |row[1]| + ... */
  function Reach(row: Vec, tol: real): real {
    if row == [] then 0.0 else Times(tol, Abs(row[0])) + Reach(row[1..], tol)
  }

  lemma {:induction false} DotBound(row: Vec, d: Vec, tol: real)
    requires |row| == |d| && forall i :: 0 <= i < |d| ==> Abs(d[i]) <= tol
    ensures Abs(Dot(row, d)) <= Reach(row, tol)
  {
    hide Abs, Times;
    if row == [] {
    } else {
      TailWithin(d, tol);
      DotBound(row[1..], d[1..], tol);
      TermBound(row[0], d[0], tol);
      AbsTriangle(Times(row[0], d[0]), Dot(row[1..], d[1..]));
    }
  }

  lemma TermBound(r: real, d: real, tol: real)
    requires Abs(d) <= tol
    ensures Abs(Times(r, d)) <= Times(tol, Abs(r))
  {
    AbsProduct(r, d, r * d);
    ProductMonotone(Abs(d), tol, Abs(r));
  }

  lemma TailWithin(d: Vec, tol: real)
    requires d != [] && forall i :: 0 <= i < |d| ==> Abs(d[i]) <= tol
    ensures forall i :: 0 <= i < |d[1..]| ==> Abs(d[1..][i]) <= tol
  {
  }

  lemma {:induction false} ReachIsProduct(row: Vec, tol: real)
    ensures Reach(row, tol) == tol * AbsSum(row)
  {
    if row == [] {
    } else {
      var a, s := Abs(row[0]), AbsSum(row[1..]);
      ReachIsProduct(row[1..], tol);
      assert tol * (a + s) == tol * a + tol * s;
    }
  }

  predicate MarginalsAboveFloor(cov: Matrix, w: Vec)
    requires IsSquare(cov, |w|)
  {
    forall i :: 0 <= i < |w| ==> MatVec(cov, w)[i] >= MARGINAL_FLOOR
  }

  /** After a step that moved no weight by tol or more, from marginals that were not clamped, each
      risk contribution is within tol * (absolute row sum) of one common value. */
  lemma {:induction false} ContributionNearCommon(cov: Matrix, p: Vec, sqrt: real -> real, tol: real, rowBound: real,
      i: nat)
    requires IsSqrt(sqrt) && IsSquare(cov, |p|) && i < |p| && Form(cov, p, p) > 0.0 && tol >= 0.0
    requires MarginalsAboveFloor(cov, p) && AbsSum(cov[i]) <= rowBound
    requires forall j :: 0 <= j < |p| ==> Abs(Step(cov, p, sqrt)[j] - p[j]) <= tol
    ensures var vol := sqrt(Form(cov, p, p));
            Sum(Unnormalised(cov, p, vol)) > 0.0 &&
            Abs(RiskContribution(cov, Step(cov, p, sqrt), i)
                - vol / |p| as real / Sum(Unnormalised(cov, p, vol))) <= tol * rowBound
  {
    hide *;
    var w := Step(cov, p, sqrt);
    StepEqualises(cov, p, sqrt, i);
    UnclampedMarginal(cov, p, i);
    MarginalDrift(cov, p, w, tol, rowBound, i);
    WeightAtMostOne(w, i);
    ContributionDrift(cov, p, w, i, tol * rowBound);
  }

  lemma UnclampedMarginal(cov: Matrix, p: Vec, i: nat)
    requires IsSquare(cov, |p|) && i < |p| && MarginalsAboveFloor(cov, p)
    ensures ClampedMarginal(cov, p, i) == MatVec(cov, p)[i]
  {
  }

  /** Weights that moved by at most tol move each marginal by at most tol * (absolute row sum). */
  lemma MarginalDrift(cov: Matrix, p: Vec, w: Vec, tol: real, rowBound: real, i: nat)
    requires IsSquare(cov, |p|) && |w| == |p| && i < |p| && tol >= 0.0 && AbsSum(cov[i]) <= rowBound
    requires forall j :: 0 <= j < |p| ==> Abs(w[j] - p[j]) <= tol
    ensures Abs(MatVec(cov, w)[i] - MatVec(cov, p)[i]) <= tol * rowBound
  {
    hide Dot, AbsSum, Reach, Abs;
    var d := Sub(w, p);
    MatVecLinear(cov, w, p);
    assert Dot(cov[i], d) == MatVec(cov, d)[i] == MatVec(cov, w)[i] - MatVec(cov, p)[i];
    DotBound(cov[i], d, tol);
    ReachIsProduct(cov[i], tol);
    ProductMonotone(AbsSum(cov[i]), rowBound, tol);
  }

  lemma ContributionDrift(cov: Matrix, p: Vec, w: Vec, i: nat, bound: real)
    requires IsSquare(cov, |p|) && |w| == |p| && i < |p| && 0.0 < w[i] <= 1.0
    requires Abs(MatVec(cov, w)[i] - MatVec(cov, p)[i]) <= bound
    ensures Abs(RiskContribution(cov, w, i) - w[i] * MatVec(cov, p)[i]) <= bound
  {
    hide MatVec, Abs;
    var a, total, m := w[i], MatVec(cov, w)[i], MatVec(cov, p)[i];
    Shrink(a, total - m, a * (total - m));
    assert a * (total - m) == a * total - a * m;
  }

  lemma WeightAtMostOne(w: Vec, i: nat)
    requires IsPositive(w) && Sum(w) == 1.0 && i < |w|
    ensures 0.0 < w[i] <= 1.0
  {
    SumNonNegative(w);
  }

  lemma Shrink(a: real, x: real, p: real)
    requires 0.0 < a <= 1.0 && p == a * x
    ensures Abs(p) <= Abs(x)
  {
    AbsProduct(a, x, p);
    assert Abs(a) == a;
    ShrinkSize(a, Abs(x), Abs(p));
  }

  lemma ShrinkSize(a: real, y: real, z: real)
    requires 0.0 < a <= 1.0 && y >= 0.0 && z == a * y
    ensures z <= y
  {
    ProductMonotone(a, 1.0, y);
  }

  /** On a tolerance exit the risk contributions of any two assets differ by at most
      2 * tol * (largest absolute row sum); at an exact fixed point (tol == 0) they are equal. */
  lemma {:induction false} ContributionsEqualised(cov: Matrix, p: Vec, sqrt: real -> real, tol: real, rowBound: real,
      i: nat, k: nat)
    requires IsSqrt(sqrt) && IsSquare(cov, |p|) && i < |p| && k < |p| && Form(cov, p, p) > 0.0 && tol >= 0.0
    requires MarginalsAboveFloor(cov, p) && forall j :: 0 <= j < |p| ==> AbsSum(cov[j]) <= rowBound
    requires forall j :: 0 <= j < |p| ==> Abs(Step(cov, p, sqrt)[j] - p[j]) <= tol
    ensures Abs(RiskContribution(cov, Step(cov, p, sqrt), i) - RiskContribution(cov, Step(cov, p, sqrt), k))
            <= 2.0 * (tol * rowBound)
    ensures Step(cov, p, sqrt) == p ==> RiskContribution(cov, p, i) == RiskContribution(cov, p, k)
  {
    hide RiskContribution, Form, Sum, Dot, Unnormalised, Step, AbsSum;
    ContributionNearCommon(cov, p, sqrt, tol, rowBound, i);
    ContributionNearCommon(cov, p, sqrt, tol, rowBound, k);
    if Step(cov, p, sqrt) == p {
      ContributionNearCommon(cov, p, sqrt, 0.0, rowBound, i);
      ContributionNearCommon(cov, p, sqrt, 0.0, rowBound, k);
    }
  }

  /** At an exact fixed point, an asset carries the same risk as one whose marginal was not clamped
      exactly when its own marginal was not clamped either. */
  lemma {:induction false} FixedPointEqualIffUnclamped(cov: Matrix, p: Vec, sqrt: real -> real, i: nat, k: nat)
    requires IsSqrt(sqrt) && IsSquare(cov, |p|) && i < |p| && k < |p| && Form(cov, p, p) > 0.0
    requires Step(cov, p, sqrt) == p && MatVec(cov, p)[k] >= MARGINAL_FLOOR
    ensures RiskContribution(cov, p, i) == RiskContribution(cov, p, k) <==> MatVec(cov, p)[i] >= MARGINAL_FLOOR
  {
    hide Form, Sum, Dot, Unnormalised, Step, MatVec;
    StepEqualises(cov, p, sqrt, i);
    StepEqualises(cov, p, sqrt, k);
    var m := MatVec(cov, p)[i];
    if m < MARGINAL_FLOOR {
      ProductStrict(m, MARGINAL_FLOOR, p[i]);
    }
  }

  // -------------------------------------------------------- the fallback

  function Variances(cov: Matrix): (r: Vec)
    requires IsSquare(cov, |cov|)
    ensures |r| == |cov|
  {
    seq(|cov|, i requires 0 <= i < |cov| => cov[i][i])
  }

  function Largest(v: Vec): (m: real)
    requires |v| > 0
    ensures m in v && forall i :: 0 <= i < |v| ==> v[i] <= m
  {
    if |v| == 1 then v[0]
    else
      var rest := Largest(v[1..]);
      assert forall i :: 1 <= i < |v| ==> v[i] == v[1..][i - 1];
      Max(v[0], rest)
  }

  /** np.max(variances) * 1e-12, or 1e-300 when no variance is positive. */
  function VarianceFloor(cov: Matrix): (f: real)
    requires IsSquare(cov, |cov|) && |cov| > 0
    ensures f > 0.0
  {
    var scale := Largest(Variances(cov));
    if scale > 0.0 then 0.000000000001 * scale else TinyFloor()
  }

  /** 1e-300, as a quotient of exact powers of ten. */
  function TinyFloor(): (f: real)
    ensures f > 0.0
  {
    var e100 := 10000000000000000000000000000000000000000000000000000000000000000000000000000000000000000000000000000.0;
    1.0 / e100 / e100 / e100
  }

  /** 1 / sqrt(max(variance, floor)). */
  function InverseDeviation(cov: Matrix, sqrt: real -> real, i: nat): (x: real)
    requires IsSquare(cov, |cov|) && i < |cov| && IsSqrt(sqrt)
    ensures x > 0.0 && x * x * Max(cov[i][i], VarianceFloor(cov)) == 1.0
  {
    var v := Max(cov[i][i], VarianceFloor(cov));
    SqrtSign(sqrt, v);
    var s := sqrt(v);
    Quotient(1.0, s, 1.0 / s);
    InverseSquare(s, 1.0 / s, v);
    1.0 / s
  }

  lemma InverseSquare(s: real, x: real, v: real)
    requires s * s == v && x * s == 1.0
    ensures x * x * v == 1.0
  {
    assert x * x * v == (x * s) * (x * s);
  }

  function InverseVolatility(cov: Matrix, sqrt: real -> real): (r: Vec)
    requires IsSquare(cov, |cov|) && IsSqrt(sqrt)
    ensures |r| == |cov| && IsPositive(r)
  {
    seq(|cov|, i requires 0 <= i < |cov| => InverseDeviation(cov, sqrt, i))
  }

  function FallbackWeights(cov: Matrix, sqrt: real -> real): (r: Vec)
    requires IsSquare(cov, |cov|) && |cov| > 0 && IsSqrt(sqrt)
    ensures |r| == |cov| && IsPositive(r) && Sum(r) == 1.0
  {
    var x := InverseVolatility(cov, sqrt);
    SumNonNegative(x);
    assert x[0] <= Sum(x);
    DividePositive(x, Sum(x));
    Divide(x, Sum(x))
  }

  /** Row i of the correlation matrix added up, with floored volatilities. */
  function CorrelationRowSum(cov: Matrix, sqrt: real -> real, i: nat): real
    requires IsSquare(cov, |cov|) && i < |cov| && IsSqrt(sqrt)
  {
    InverseDeviation(cov, sqrt, i) * Dot(cov[i], InverseVolatility(cov, sqrt))
  }

  /** Inverse-volatility weights equalise two risk contributions exactly when the two assets have
      the same total correlation with the portfolio's assets. */
  lemma {:induction false} FallbackContributions(cov: Matrix, sqrt: real -> real, i: nat, k: nat)
    requires IsSquare(cov, |cov|) && i < |cov| && k < |cov| && IsSqrt(sqrt)
    ensures var w := FallbackWeights(cov, sqrt);
            RiskContribution(cov, w, i) == RiskContribution(cov, w, k)
            <==> CorrelationRowSum(cov, sqrt, i) == CorrelationRowSum(cov, sqrt, k)
  {
    hide RiskContribution, CorrelationRowSum, InverseVolatility, FallbackWeights;
    var x, w := InverseVolatility(cov, sqrt), FallbackWeights(cov, sqrt);
    SumNonNegative(x);
    assert x[i] <= Sum(x);
    var q := 1.0 / Sum(x);
    FallbackContribution(cov, sqrt, i, q);
    FallbackContribution(cov, sqrt, k, q);
    SameScaled(q, CorrelationRowSum(cov, sqrt, i), CorrelationRowSum(cov, sqrt, k),
               RiskContribution(cov, w, i), RiskContribution(cov, w, k));
  }

  lemma SameScaled(q: real, a: real, b: real, x: real, y: real)
    requires q > 0.0 && x == q * q * a && y == q * q * b
    ensures x == y <==> a == b
  {
    ProductPositive(q, q, q * q);
    if x == y {
      ProductEqual(a, b, q * q);
    }
  }

  lemma FallbackContribution(cov: Matrix, sqrt: real -> real, i: nat, q: real)
    requires IsSquare(cov, |cov|) && i < |cov| && IsSqrt(sqrt)
    requires Sum(InverseVolatility(cov, sqrt)) != 0.0 && q == 1.0 / Sum(InverseVolatility(cov, sqrt))
    ensures q > 0.0
    ensures RiskContribution(cov, FallbackWeights(cov, sqrt), i) == q * q * CorrelationRowSum(cov, sqrt, i)
  {
    hide Dot, Sum, InverseDeviation;
    var x := InverseVolatility(cov, sqrt);
    SumNonNegative(x);
    assert x[i] <= Sum(x);
    Quotient(1.0, Sum(x), q);
    DivideIsScale(x, Sum(x));
    MatVecScale(cov, q, x);
    var a, b := InverseDeviation(cov, sqrt, i), Dot(cov[i], x);
    assert FallbackWeights(cov, sqrt)[i] == q * a;
    assert (q * a) * (q * b) == q * q * (a * b);
  }

  predicate IsDiagonal(cov: Matrix, n: nat) {
    IsSquare(cov, n) && forall i, j :: 0 <= i < n && 0 <= j < n && i != j ==> cov[i][j] == 0.0
  }

  lemma DiagonalMarginal(cov: Matrix, w: Vec, i: nat)
    requires IsDiagonal(cov, |cov|) && |w| == |cov| && i < |w|
    ensures MatVec(cov, w)[i] == cov[i][i] * w[i]
  {
    var n, v := |cov|, cov[i][i];
    assert cov[i] == Scale(v, Unit(n, i));
    DotScale(v, Unit(n, i), w);
    DotUnit(n, i, w);
  }

  lemma DiagonalRowSum(cov: Matrix, sqrt: real -> real, i: nat)
    requires IsDiagonal(cov, |cov|) && i < |cov| && IsSqrt(sqrt)
    ensures CorrelationRowSum(cov, sqrt, i) == 1.0 <==> cov[i][i] >= VarianceFloor(cov)
  {
    hide VarianceFloor, Dot, InverseDeviation, Max;
    DiagonalMarginal(cov, InverseVolatility(cov, sqrt), i);
    FlooredRatio(InverseDeviation(cov, sqrt, i), cov[i][i], VarianceFloor(cov));
  }

  lemma FlooredRatio(x: real, v: real, floor: real)
    requires x > 0.0 && x * x * Max(v, floor) == 1.0
    ensures x * (v * x) == 1.0 <==> v >= floor
  {
    var s := x * x;
    ProductPositive(x, x, s);
    assert x * (v * x) == v * s;
    if v < floor {
      ProductStrict(v, floor, s);
    }
  }

  /** Every variance is at least 1e-12 of every other. */
  predicate ComparableVariances(cov: Matrix)
    requires IsSquare(cov, |cov|)
  {
    forall i, j :: 0 <= i < |cov| && 0 <= j < |cov| ==> cov[i][i] >= 0.000000000001 * cov[j][j]
  }

  lemma ComparableIffAboveFloor(cov: Matrix)
    requires IsSquare(cov, |cov|) && |cov| > 0 && Largest(Variances(cov)) > 0.0
    ensures ComparableVariances(cov) <==> forall i :: 0 <= i < |cov| ==> cov[i][i] >= VarianceFloor(cov)
  {
    var v := Variances(cov);
    var top :| 0 <= top < |cov| && v[top] == Largest(v);
    assert VarianceFloor(cov) == 0.000000000001 * cov[top][top];
    forall i, j | 0 <= i < |cov| && 0 <= j < |cov| && cov[i][i] >= VarianceFloor(cov)
      ensures cov[i][i] >= 0.000000000001 * cov[j][j]
    {
      assert v[j] <= Largest(v);
    }
  }

  /** For a diagonal covariance with some positive variance, the fallback is exact risk parity
      exactly when no variance had to be floored. */
  lemma FallbackExactForDiagonal(cov: Matrix, sqrt: real -> real)
    requires |cov| > 0 && IsDiagonal(cov, |cov|) && IsSqrt(sqrt) && Largest(Variances(cov)) > 0.0
    ensures EqualRisk(cov, FallbackWeights(cov, sqrt)) <==> ComparableVariances(cov)
  {
    hide RiskContribution, FallbackWeights, CorrelationRowSum, VarianceFloor, ComparableVariances;
    var w := FallbackWeights(cov, sqrt);
    var top :| 0 <= top < |cov| && Variances(cov)[top] == Largest(Variances(cov));
    assert cov[top][top] >= VarianceFloor(cov) by { TopAboveFloor(cov, top); }
    DiagonalRowSum(cov, sqrt, top);
    forall i | 0 <= i < |cov|
      ensures RiskContribution(cov, w, i) == RiskContribution(cov, w, top) <==> cov[i][i] >= VarianceFloor(cov)
    {
      DiagonalRowSum(cov, sqrt, i);
      FallbackContributions(cov, sqrt, i, top);
    }
    ComparableIffAboveFloor(cov);
  }

  lemma TopAboveFloor(cov: Matrix, top: nat)
    requires IsSquare(cov, |cov|) && top < |cov|
    requires cov[top][top] == Largest(Variances(cov)) && cov[top][top] > 0.0
    ensures cov[top][top] >= VarianceFloor(cov)
  {
  }

  /** For any covariance the fallback weighs assets by inverse volatility: weight^2 times variance is the
      same for all of them, where a variance counts as at least 1e-12 of the largest. */
  lemma FallbackInverseVolatility(cov: Matrix, sqrt: real -> real, top: nat, i: nat, k: nat)
    requires IsSquare(cov, |cov|) && IsSqrt(sqrt) && top < |cov| && i < |cov| && k < |cov|
    requires cov[top][top] > 0.0 && forall j :: 0 <= j < |cov| ==> cov[j][j] <= cov[top][top]
    ensures var w, least := FallbackWeights(cov, sqrt), 0.000000000001 * cov[top][top];
            w[i] * w[i] * Max(cov[i][i], least) == w[k] * w[k] * Max(cov[k][k], least)
  {
    hide *;
    FloorIs(cov, top);
    FallbackShare(cov, sqrt, i);
    FallbackShare(cov, sqrt, k);
  }

  lemma FloorIs(cov: Matrix, top: nat)
    requires IsSquare(cov, |cov|) && top < |cov|
    requires cov[top][top] > 0.0 && forall j :: 0 <= j < |cov| ==> cov[j][j] <= cov[top][top]
    ensures VarianceFloor(cov) == 0.000000000001 * cov[top][top]
  {
    assert Variances(cov)[top] <= Largest(Variances(cov));
  }

  lemma FallbackShare(cov: Matrix, sqrt: real -> real, i: nat)
    requires IsSquare(cov, |cov|) && IsSqrt(sqrt) && i < |cov|
    ensures var w, q := FallbackWeights(cov, sqrt), 1.0 / TotalInverse(cov, sqrt);
            w[i] * w[i] * Max(cov[i][i], VarianceFloor(cov)) == q * q
  {
    hide Sum, VarianceFloor, Max, InverseDeviation;
    var x, total := InverseDeviation(cov, sqrt, i), TotalInverse(cov, sqrt);
    ShareSquare(x, total, x / total, 1.0 / total, Max(cov[i][i], VarianceFloor(cov)));
  }

  function TotalInverse(cov: Matrix, sqrt: real -> real): (total: real)
    requires IsSquare(cov, |cov|) && IsSqrt(sqrt) && |cov| > 0
    ensures total == Sum(InverseVolatility(cov, sqrt)) > 0.0
  {
    var x := InverseVolatility(cov, sqrt);
    SumNonNegative(x);
    assert x[0] <= Sum(x);
    Sum(x)
  }

  lemma ShareSquare(x: real, total: real, w: real, q: real, v: real)
    requires total > 0.0 && w == x / total && q == 1.0 / total && x * x * v == 1.0
    ensures w * w * v == q * q
  {
    assert w == q * x;
    assert w * w * v == q * q * (x * x * v);
  }

  /** Where no variance is positive the fallback is equal weights. */
  lemma FallbackWithoutVariance(cov: Matrix, sqrt: real -> real)
    requires IsSquare(cov, |cov|) && |cov| > 0 && IsSqrt(sqrt)
    requires forall i :: 0 <= i < |cov| ==> cov[i][i] <= 0.0
    ensures FallbackWeights(cov, sqrt) == Const(|cov|, 1.0 / |cov| as real)
  {
    hide Sum, InverseDeviation, Divide;
    var n, x := |cov|, InverseVolatility(cov, sqrt);
    forall i | 0 <= i < n ensures x[i] == x[0] {
      SameFlooredVariance(cov, sqrt, i);
    }
    EqualShares(x, n);
  }

  lemma EqualShares(x: Vec, n: nat)
    requires |x| == n > 0 && x[0] > 0.0 && forall i :: 0 <= i < n ==> x[i] == x[0]
    ensures Sum(x) > 0.0 && Divide(x, Sum(x)) == Const(n, 1.0 / n as real)
  {
    hide Sum;
    var c, m := x[0], n as real;
    assert x == Const(n, c);
    SumConst(n, c);
    CommonShare(c, m);
    hide Const;
    SharesAre(x, Sum(x), c, 1.0 / m);
  }

  lemma SharesAre(x: Vec, total: real, c: real, share: real)
    requires total != 0.0 && c / total == share && forall i :: 0 <= i < |x| ==> x[i] == c
    ensures Divide(x, total) == Const(|x|, share)
  {
    assert forall i :: 0 <= i < |x| ==> Divide(x, total)[i] == x[i] / total;
  }

  lemma SameFlooredVariance(cov: Matrix, sqrt: real -> real, i: nat)
    requires IsSquare(cov, |cov|) && i < |cov| && IsSqrt(sqrt)
    requires forall j :: 0 <= j < |cov| ==> cov[j][j] <= 0.0
    ensures InverseDeviation(cov, sqrt, i) == InverseDeviation(cov, sqrt, 0)
  {
    hide VarianceFloor;
    assert Max(cov[i][i], VarianceFloor(cov)) == VarianceFloor(cov) == Max(cov[0][0], VarianceFloor(cov));
  }

  lemma CommonShare(c: real, n: real)
    requires c > 0.0 && n > 0.0
    ensures n * c > 0.0 && c / (n * c) == 1.0 / n
  {
    ProductPositive(n, c, n * c);
    var q := 1.0 / n;
    Quotient(1.0, n, q);
    assert q * (n * c) == c;
    Quotient(c, n * c, c / (n * c));
    ProductEqual(q, c / (n * c), n * c);
  }

  // -------------------------------------------------------------- the loop

  function EqualWeights(n: nat): (w: Vec)
    requires n > 0
    ensures |w| == n && IsPositive(w) && Sum(w) == 1.0
  {
    SumConst(n, 1.0 / n as real);
    Quotient(1.0, n as real, 1.0 / n as real);
    Const(n, 1.0 / n as real)
  }

  /** The weights after k passes from equal weights; a pass at non-positive variance changes nothing. */
  function Iterate(cov: Matrix, sqrt: real -> real, k: nat): (w: Vec)
    requires IsSqrt(sqrt) && IsSquare(cov, |cov|) && |cov| > 0
    ensures |w| == |cov| && IsPositive(w) && Sum(w) == 1.0
  {
    if k == 0 then EqualWeights(|cov|)
    else
      var p := Iterate(cov, sqrt, k - 1);
      if Form(cov, p, p) > 0.0 then Step(cov, p, sqrt) else p
  }

  /** Pass k of the loop stops: the variance is not positive, or the step moved every weight by less than tol. */
  predicate StopsAt(cov: Matrix, sqrt: real -> real, tol: real, k: nat)
    requires IsSqrt(sqrt) && IsSquare(cov, |cov|) && |cov| > 0
  {
    var p := Iterate(cov, sqrt, k);
    Form(cov, p, p) <= 0.0 || Close(Step(cov, p, sqrt), p, tol)
  }

  // ------------------------------------------------ uncorrelated assets

  /** No marginal is clamped at equal weights. */
  predicate VariancesAboveFloor(cov: Matrix)
    requires IsSquare(cov, |cov|)
  {
    forall i :: 0 <= i < |cov| ==> cov[i][i] >= |cov| as real * MARGINAL_FLOOR
  }

  function InverseVariances(cov: Matrix): (r: Vec)
    requires IsSquare(cov, |cov|) && VariancesAboveFloor(cov)
    ensures |r| == |cov| && forall i :: 0 <= i < |cov| ==>
      r[i] * cov[i][i] == 1.0 && 0.0 < r[i] <= 1.0 / (|cov| as real * MARGINAL_FLOOR)
  {
    assert forall i :: 0 <= i < |cov| ==> InverseOf(cov[i][i], |cov| as real * MARGINAL_FLOOR) == 1.0 / cov[i][i];
    seq(|cov|, i requires 0 <= i < |cov| => InverseOf(cov[i][i], |cov| as real * MARGINAL_FLOOR))
  }

  function InverseOf(d: real, least: real): (x: real)
    requires d >= least > 0.0
    ensures x * d == 1.0 && 0.0 < x <= 1.0 / least
  {
    Quotient(1.0, d, 1.0 / d);
    CrossDivide(1.0, least, 1.0, d);
    1.0 / d
  }

  /** Each asset weighted by the inverse of its variance. */
  function InverseVarianceWeights(cov: Matrix): (r: Vec)
    requires IsSquare(cov, |cov|) && |cov| > 0 && VariancesAboveFloor(cov)
    ensures |r| == |cov| && IsPositive(r) && Sum(r) == 1.0
  {
    var x := InverseVariances(cov);
    SumNonNegative(x);
    assert x[0] <= Sum(x);
    DividePositive(x, Sum(x));
    Divide(x, Sum(x))
  }

  /** weight * variance is the same for every asset. */
  predicate MarginalsEqual(cov: Matrix, w: Vec, common: real)
    requires IsSquare(cov, |w|)
  {
    forall i :: 0 <= i < |w| ==> w[i] * cov[i][i] == common
  }

  /** new weight * variance * old weight is the same for every asset. */
  predicate SharesEqual(cov: Matrix, w: Vec, p: Vec, common: real)
    requires IsSquare(cov, |w|) && |p| == |w|
  {
    forall i :: 0 <= i < |w| ==> p[i] * (cov[i][i] * w[i]) == common
  }

  lemma InverseVarianceMarginal(cov: Matrix) returns (common: real)
    requires IsSquare(cov, |cov|) && |cov| > 0 && VariancesAboveFloor(cov)
    ensures common >= MARGINAL_FLOOR
    ensures MarginalsEqual(cov, InverseVarianceWeights(cov), common)
  {
    hide Sum, InverseVariances;
    var x, n := InverseVariances(cov), |cov| as real;
    var total, least := Sum(x), n * MARGINAL_FLOOR;
    InverseVariancesBounded(cov);
    SumNonNegative(x);
    assert x[0] <= total;
    common := 1.0 / total;
    InverseBound(total, n, MARGINAL_FLOOR);
    forall i | 0 <= i < |cov| ensures InverseVarianceWeights(cov)[i] * cov[i][i] == common {
      ShareTimes(x[i], total, cov[i][i]);
    }
  }

  lemma InverseVariancesBounded(cov: Matrix)
    requires IsSquare(cov, |cov|) && |cov| > 0 && VariancesAboveFloor(cov)
    ensures Sum(InverseVariances(cov)) <= |cov| as real * (1.0 / (|cov| as real * MARGINAL_FLOOR))
  {
    hide Sum, InverseVariances;
    var q := 1.0 / (|cov| as real * MARGINAL_FLOOR);
    SumMonotone(InverseVariances(cov), Const(|cov|, q));
    SumConst(|cov|, q);
  }

  lemma InverseBound(total: real, n: real, f: real)
    requires n > 0.0 && f > 0.0 && n * f > 0.0 && 0.0 < total <= n * (1.0 / (n * f))
    ensures 1.0 / total >= f
  {
    var least := n * f;
    var q := 1.0 / least;
    Quotient(1.0, least, q);
    assert n * q * f == 1.0 by { assert n * q * f == least * q; }
    ProductMonotone(total, n * q, f);
    assert total * f <= 1.0;
    CrossDivide(1.0, total, f, 1.0);
  }

  lemma ShareTimes(x: real, total: real, d: real)
    requires total != 0.0 && x * d == 1.0
    ensures x / total * d == 1.0 / total
  {
    var s := x / total;
    assert s * total == x;
    assert s * d * total == 1.0;
    ProductEqual(s * d, 1.0 / total, total);
  }

  lemma {:induction false} DotPositive(u: Vec, v: Vec)
    requires |u| == |v| && IsPositive(u) && IsPositive(v)
    ensures u != [] ==> Dot(u, v) > 0.0
  {
    if u == [] {
    } else {
      DotPositive(u[1..], v[1..]);
      ProductPositive(u[0], v[0], Times(u[0], v[0]));
    }
  }

  lemma MarginalsVariance(cov: Matrix, w: Vec)
    requires |w| > 0 && IsSquare(cov, |w|) && IsPositive(w) && MarginalsAboveFloor(cov, w)
    ensures Form(cov, w, w) > 0.0
  {
    DotPositive(w, MatVec(cov, w));
  }

  /** Proportional vectors that add up to 1 are equal. */
  lemma ProportionalEqual(u: Vec, v: Vec, a: real, b: real)
    requires |u| == |v| && Sum(u) == 1.0 == Sum(v) && a > 0.0
    requires forall i :: 0 <= i < |u| ==> a * u[i] == b * v[i]
    ensures u == v
  {
    hide Sum;
    SumScale(a, u);
    SumScale(b, v);
    forall i | 0 <= i < |u| ensures Scale(a, u)[i] == Scale(b, v)[i] {
      assert a * u[i] == b * v[i];
    }
    assert Scale(a, u) == Scale(b, v);
    forall i | 0 <= i < |u| ensures u[i] == v[i] {
      ProductEqual(u[i], v[i], a);
    }
  }

  lemma DiagonalStep(cov: Matrix, w: Vec, sqrt: real -> real) returns (common: real)
    requires IsSqrt(sqrt) && IsDiagonal(cov, |cov|) && |w| == |cov| > 0 && IsPositive(w) && MarginalsAboveFloor(cov, w)
    ensures Form(cov, w, w) > 0.0 && common > 0.0
    ensures SharesEqual(cov, w, Step(cov, w, sqrt), common)
  {
    hide Form, MatVec, Unnormalised, Step, Sum;
    MarginalsVariance(cov, w);
    var r, vol := Step(cov, w, sqrt), sqrt(Form(cov, w, w));
    StepEqualises(cov, w, sqrt, 0);
    common := vol / |w| as real / Sum(Unnormalised(cov, w, vol));
    forall i | 0 <= i < |w| ensures r[i] * (cov[i][i] * w[i]) == common {
      StepEqualises(cov, w, sqrt, i);
      UnclampedMarginal(cov, w, i);
      DiagonalMarginal(cov, w, i);
    }
    ProductPositive(r[0], ClampedMarginal(cov, w, 0), common);
  }

  /** So two steps without clamping lead back to where they started. */
  lemma StepTwice(cov: Matrix, w: Vec, sqrt: real -> real)
    requires IsSqrt(sqrt) && IsDiagonal(cov, |cov|) && |w| == |cov| > 0 && IsPositive(w) && Sum(w) == 1.0
    requires MarginalsAboveFloor(cov, w) && Form(cov, w, w) > 0.0 && MarginalsAboveFloor(cov, Step(cov, w, sqrt))
    ensures var p := Step(cov, w, sqrt); Form(cov, p, p) > 0.0 && Step(cov, p, sqrt) == w
  {
    hide Form, MatVec, Step, Sum, MarginalsAboveFloor;
    var p := Step(cov, w, sqrt);
    var a := DiagonalStep(cov, w, sqrt);
    var b := DiagonalStep(cov, p, sqrt);
    var q := Step(cov, p, sqrt);
    forall i | 0 <= i < |w| ensures a * q[i] == b * w[i] {
      Regroup(p[i], cov[i][i], w[i], q[i]);
    }
    ProportionalEqual(q, w, a, b);
  }

  lemma Regroup(p: real, d: real, w: real, q: real)
    ensures p * (d * w) * q == q * (d * p) * w
  {
  }

  /** The first step leads from equal weights to inverse-variance weights, where no marginal is clamped. */
  lemma FirstStep(cov: Matrix, sqrt: real -> real)
    requires IsSqrt(sqrt) && |cov| > 0 && IsDiagonal(cov, |cov|) && VariancesAboveFloor(cov)
    ensures var w := Iterate(cov, sqrt, 0);
            && MarginalsAboveFloor(cov, w) && Form(cov, w, w) > 0.0
            && Step(cov, w, sqrt) == InverseVarianceWeights(cov)
            && MarginalsAboveFloor(cov, InverseVarianceWeights(cov))
  {
    hide Form, MatVec, Step, Sum, InverseVarianceWeights, VariancesAboveFloor, MarginalsEqual, SharesEqual;
    var w, v := Iterate(cov, sqrt, 0), InverseVarianceWeights(cov);
    var c := InverseVarianceMarginal(cov);
    FirstMarginals(cov, w, v, c);
    var a := DiagonalStep(cov, w, sqrt);
    var p := Step(cov, w, sqrt);
    hide *;
    SameShares(cov, p, v, w, a, c);
  }

  lemma SameShares(cov: Matrix, p: Vec, v: Vec, w: Vec, a: real, c: real)
    requires IsSquare(cov, |cov|) && |p| == |v| == |cov| > 0 && Sum(p) == 1.0 == Sum(v) && c > 0.0
    requires w == EqualWeights(|cov|)
    requires SharesEqual(cov, w, p, a) && MarginalsEqual(cov, v, c)
    ensures p == v
  {
    hide Sum, SharesEqual, MarginalsEqual;
    var n := |cov| as real;
    forall i | 0 <= i < |p| ensures c * p[i] == a * n * v[i] {
      ShareAt(cov, p, v, w, a, c, i);
    }
    ProportionalEqual(p, v, c, a * n);
  }

  lemma ShareAt(cov: Matrix, p: Vec, v: Vec, w: Vec, a: real, c: real, i: nat)
    requires IsSquare(cov, |cov|) && |p| == |v| == |cov| > i
    requires w == EqualWeights(|cov|)
    requires SharesEqual(cov, w, p, a) && MarginalsEqual(cov, v, c)
    ensures c * p[i] == a * |cov| as real * v[i]
  {
    var n, x, y, d, q := |cov| as real, p[i], v[i], cov[i][i], w[i];
    assert x * (d * q) == a && y * d == c;
    Quotient(1.0, n, q);
    hide *;
    ThroughVariance(x, y, d, q, n, a, c);
  }

  lemma FirstMarginals(cov: Matrix, w: Vec, v: Vec, c: real)
    requires |w| == |v| == |cov| > 0 && IsDiagonal(cov, |cov|) && VariancesAboveFloor(cov)
    requires w == EqualWeights(|cov|) && c >= MARGINAL_FLOOR
    requires MarginalsEqual(cov, v, c)
    ensures MarginalsAboveFloor(cov, w) && MarginalsAboveFloor(cov, v)
  {
    hide MatVec;
    forall i | 0 <= i < |cov|
      ensures MatVec(cov, w)[i] >= MARGINAL_FLOOR && MatVec(cov, v)[i] >= MARGINAL_FLOOR
    {
      DiagonalMarginal(cov, w, i);
      DiagonalMarginal(cov, v, i);
      EqualShare(cov[i][i], |cov| as real, MARGINAL_FLOOR);
    }
  }

  lemma EqualShare(d: real, n: real, f: real)
    requires n > 0.0 && d >= n * f
    ensures d * (1.0 / n) >= f
  {
    var q := 1.0 / n;
    Quotient(1.0, n, q);
    ProductMonotone(n * f, d, q);
    assert n * f * q == f * (n * q);
  }

  lemma ThroughVariance(p: real, v: real, d: real, q: real, n: real, a: real, c: real)
    requires q * n == 1.0 && p * (d * q) == a && v * d == c
    ensures c * p == a * n * v
  {
    var pd, pv := p * d, p * v;
    assert pd * q == a;
    assert a * n == pd by { assert pd * q * n == pd * (q * n); }
    assert pd * v == c * p;
  }

  /** For uncorrelated assets of sufficient variance the loop alternates between equal weights and
      inverse-variance weights, whatever the covariance. */
  lemma {:induction false} IterateAlternates(cov: Matrix, sqrt: real -> real, k: nat)
    requires IsSqrt(sqrt) && |cov| > 0 && IsDiagonal(cov, |cov|) && VariancesAboveFloor(cov)
    ensures var w := Iterate(cov, sqrt, k);
            && w == (if k % 2 == 0 then EqualWeights(|cov|) else InverseVarianceWeights(cov))
            && Form(cov, w, w) > 0.0 && Step(cov, w, sqrt) == Iterate(cov, sqrt, k + 1)
  {
    hide Form, Step, MarginalsAboveFloor, InverseVarianceWeights;
    FirstStep(cov, sqrt);
    var even := Iterate(cov, sqrt, 0);
    StepTwice(cov, even, sqrt);
    if k == 0 {
    } else {
      IterateAlternates(cov, sqrt, k - 1);
    }
  }

  /** So every pass stops or none does: the loop settles exactly when the inverse-variance weights are
      within the tolerance of equal weights, that is, when the first pass already stops. */
  lemma DiagonalStops(cov: Matrix, sqrt: real -> real, tol: real, k: nat)
    requires IsSqrt(sqrt) && |cov| > 0 && IsDiagonal(cov, |cov|) && VariancesAboveFloor(cov)
    ensures StopsAt(cov, sqrt, tol, k) <==> Close(InverseVarianceWeights(cov), EqualWeights(|cov|), tol)
  {
    hide Form, Step, Iterate, InverseVarianceWeights, Close, EqualWeights;
    IterateAlternates(cov, sqrt, k);
    IterateAlternates(cov, sqrt, k + 1);
    CloseSymmetric(InverseVarianceWeights(cov), EqualWeights(|cov|), tol);
  }

  lemma CloseSymmetric(u: Vec, v: Vec, tol: real)
    requires |u| == |v|
    ensures Close(u, v, tol) <==> Close(v, u, tol)
  {
  }

  /** Two uncorrelated assets with variances 1 and 4 never settle at the tolerance of 1e-12. */
  lemma TwoAssetsNeverSettle(sqrt: real -> real, k: nat)
    requires IsSqrt(sqrt)
    ensures !StopsAt([[1.0, 0.0], [0.0, 4.0]], sqrt, 0.000000000001, k)
  {
    hide StopsAt;
    var cov: Matrix := [[1.0, 0.0], [0.0, 4.0]];
    DiagonalStops(cov, sqrt, 0.000000000001, k);
    var v := InverseVarianceWeights(cov);
    var c := InverseVarianceMarginal(cov);
    assert v[0] * 1.0 == c && v[1] * 4.0 == c;
    SumPair(v);
    assert v[0] == 0.8;
  }

  lemma SumPair(v: Vec)
    requires |v| == 2
    ensures Sum(v) == v[0] + v[1]
  {
    assert v[1..] == [v[1]];
    SumOne(v[1]);
  }

  // ---------------------------------------------------- the degenerate exit

  /** A loop that ends because the variance is not positive leaves the weights alone, and those are the
      equal weights exactly when the variance at equal weights is not positive. */
  lemma DegenerateExit(cov: Matrix, sqrt: real -> real, tol: real, k: nat)
    requires IsSqrt(sqrt) && IsSquare(cov, |cov|) && |cov| > 0
    requires Form(cov, Iterate(cov, sqrt, k), Iterate(cov, sqrt, k)) <= 0.0
    requires forall j :: 0 <= j < k ==> !StopsAt(cov, sqrt, tol, j)
    ensures var equal := EqualWeights(|cov|);
            Iterate(cov, sqrt, k + 1) == equal <==> Form(cov, equal, equal) <= 0.0
  {
    hide Form, Step, Close;
    var equal := Iterate(cov, sqrt, 0);
    if Form(cov, equal, equal) <= 0.0 {
      assert StopsAt(cov, sqrt, tol, 0);
    }
  }

  /** Such an exit on the second pass, at weights 1/3 and 2/3: the covariance is semidefinite, and
      1/3 and 2/3 is the portfolio without risk. */
  lemma {:induction false} DegenerateExitLater(sqrt: real -> real, tol: real)
    requires IsSqrt(sqrt) && tol <= 0.1
    ensures var u := 0.0000000000000002;
            var cov := [[4.0 * u, -2.0 * u], [-2.0 * u, u]];
            && IsSymmetric(cov, 2) && IsSemidefinite(cov, 2)
            && !StopsAt(cov, sqrt, tol, 0)
            && Form(cov, Iterate(cov, sqrt, 1), Iterate(cov, sqrt, 1)) == 0.0
            && Iterate(cov, sqrt, 2) == [1.0 / 3.0, 2.0 / 3.0]
  {
    var u := 0.0000000000000002;
    var cov := [[4.0 * u, -2.0 * u], [-2.0 * u, u]];
    hide Form, Step, IsSqrt, MatVec;
    forall w: Vec | |w| == 2 ensures Form(cov, w, w) >= 0.0 {
      PairForm(cov, w, u);
      SquareSign(2.0 * w[0] - w[1]);
    }
    var equal := Iterate(cov, sqrt, 0);
    assert equal == [0.5, 0.5];
    PairForm(cov, equal, u);
    var p := Step(cov, equal, sqrt);
    ClampedPair(cov, sqrt, u);
    PairForm(cov, p, u);
    assert Abs(p[0] - equal[0]) >= tol;
  }

  lemma PairForm(cov: Matrix, w: Vec, u: real)
    requires |w| == 2 && cov == [[4.0 * u, -2.0 * u], [-2.0 * u, u]]
    ensures Form(cov, w, w) == u * Square(2.0 * w[0] - w[1])
    ensures MatVec(cov, w)[0] == 2.0 * u * (2.0 * w[0] - w[1]) && MatVec(cov, w)[1] == u * (w[1] - 2.0 * w[0])
  {
    hide Dot;
    var a, b := w[0], w[1];
    assert w == [a, b];
    var m, x, y := MatVec(cov, w), 4.0 * u, -2.0 * u;
    DotPair(x, y, a, b);
    DotPair(y, u, a, b);
    assert m[0] == x * a + y * b && m[1] == y * a + u * b;
    PairNumbers(a, b, u, m[0], m[1]);
    assert m == [m[0], m[1]];
    DotPair(a, b, m[0], m[1]);
  }

  lemma PairNumbers(a: real, b: real, u: real, m: real, n: real)
    requires m == 4.0 * u * a + -2.0 * u * b && n == -2.0 * u * a + u * b
    ensures a * m + b * n == u * Square(2.0 * a - b)
    ensures m == 2.0 * u * (2.0 * a - b) && n == u * (b - 2.0 * a)
  {
    var p, q := u * a, u * b;
    assert m == 4.0 * p - 2.0 * q && n == q - 2.0 * p;
    assert a * m + b * n == 4.0 * (a * p) - 2.0 * (a * q) + b * q - 2.0 * (b * p);
    assert a * q == b * p;
  }

  lemma ClampedPair(cov: Matrix, sqrt: real -> real, u: real)
    requires IsSqrt(sqrt) && u == 0.0000000000000002 && cov == [[4.0 * u, -2.0 * u], [-2.0 * u, u]]
    ensures Form(cov, [0.5, 0.5], [0.5, 0.5]) > 0.0
    ensures Step(cov, [0.5, 0.5], sqrt) == [1.0 / 3.0, 2.0 / 3.0]
  {
    hide Form, Step, IsSqrt, Unnormalised;
    var equal: Vec := [0.5, 0.5];
    PairForm(cov, equal, u);
    var p := Step(cov, equal, sqrt);
    StepEqualises(cov, equal, sqrt, 0);
    StepEqualises(cov, equal, sqrt, 1);
    assert ClampedMarginal(cov, equal, 0) == u && ClampedMarginal(cov, equal, 1) == MARGINAL_FLOOR;
    SumPair(p);
  }

  lemma DiagonalConverges(cov: Matrix, sqrt: real -> real, tol: real, maxIter: nat)
    requires IsSqrt(sqrt) && |cov| > 0 && IsDiagonal(cov, |cov|) && VariancesAboveFloor(cov) && maxIter > 0
    ensures (exists k :: 0 <= k < maxIter && StopsAt(cov, sqrt, tol, k))
            <==> Close(InverseVarianceWeights(cov), EqualWeights(|cov|), tol)
    ensures StopsAt(cov, sqrt, tol, 0) <==> exists k :: 0 <= k < maxIter && StopsAt(cov, sqrt, tol, k)
    ensures Iterate(cov, sqrt, 1) == InverseVarianceWeights(cov)
  {
    hide StopsAt, Close, InverseVarianceWeights, Iterate, EqualWeights, VariancesAboveFloor;
    IterateAlternates(cov, sqrt, 1);
    forall k | 0 <= k < maxIter
      ensures StopsAt(cov, sqrt, tol, k) <==> Close(InverseVarianceWeights(cov), EqualWeights(|cov|), tol)
    {
      DiagonalStops(cov, sqrt, tol, k);
    }
    assert StopsAt(cov, sqrt, tol, 0) <==> Close(InverseVarianceWeights(cov), EqualWeights(|cov|), tol);
  }

  lemma SomeVariance(cov: Matrix)
    requires IsSquare(cov, |cov|) && |cov| > 0 && VariancesAboveFloor(cov)
    ensures Largest(Variances(cov)) > 0.0
  {
    assert Variances(cov)[0] == cov[0][0] > 0.0;
  }

  lemma DiagonalOutcome(cov: Matrix, sqrt: real -> real, tol: real, maxIter: nat)
    requires IsSqrt(sqrt) && |cov| > 0 && IsDiagonal(cov, |cov|) && VariancesAboveFloor(cov) && maxIter > 0
    ensures var close := Close(InverseVarianceWeights(cov), EqualWeights(|cov|), tol);
            && ((exists k :: 0 <= k < maxIter && StopsAt(cov, sqrt, tol, k)) <==> close)
            && (close ==> StopsAt(cov, sqrt, tol, 0))
            && Iterate(cov, sqrt, 1) == InverseVarianceWeights(cov)
    ensures EqualRisk(cov, FallbackWeights(cov, sqrt)) <==> ComparableVariances(cov)
  {
    hide *;
    DiagonalConverges(cov, sqrt, tol, maxIter);
    DiagonalSquare(cov);
    SomeVariance(cov);
    FallbackExactForDiagonal(cov, sqrt);
  }

  lemma DiagonalSquare(cov: Matrix)
    requires IsDiagonal(cov, |cov|)
    ensures IsSquare(cov, |cov|)
  {
  }

  /** _risk_parity_weights: the result is always on the simplex; it is the iterate reached by the
      first pass that stops, or the inverse-volatility weights when none of maxIter passes does. For
      uncorrelated assets the first pass decides: inverse-variance weights if those are within the
      tolerance of equal weights, and otherwise exact risk parity unless a variance was floored. */
  method RiskParityWeights(cov: Matrix, sqrt: real -> real, maxIter: nat, tol: real)
    returns (weights: Vec, converged: bool)
    requires IsSqrt(sqrt) && IsSquare(cov, |cov|) && |cov| > 0
    ensures |weights| == |cov| && IsPositive(weights) && OnSimplex(weights)
    ensures converged <==> exists k :: 0 <= k < maxIter && StopsAt(cov, sqrt, tol, k)
    ensures converged ==> exists k ::
      (&& 0 <= k < maxIter && StopsAt(cov, sqrt, tol, k)
       && (forall j :: 0 <= j < k ==> !StopsAt(cov, sqrt, tol, j))
       && weights == Iterate(cov, sqrt, k + 1))
    ensures !converged ==> weights == FallbackWeights(cov, sqrt)
    ensures IsDiagonal(cov, |cov|) && VariancesAboveFloor(cov) && maxIter > 0 ==>
      && (converged <==> Close(InverseVarianceWeights(cov), EqualWeights(|cov|), tol))
      && (converged ==> weights == InverseVarianceWeights(cov))
      && (!converged ==> (EqualRisk(cov, weights) <==> ComparableVariances(cov)))
  {
    hide ComparableVariances, InverseVarianceWeights, RiskContribution, VarianceFloor, EqualWeights, Sum, EqualRisk,
        FallbackWeights, Form, Step, Close;
    var n := |cov|;
    var w := EqualWeights(n);
    assert w == Iterate(cov, sqrt, 0);
    converged := false;
    var iter := 0;
    while iter < maxIter
      invariant 0 <= iter <= maxIter
      invariant w == Iterate(cov, sqrt, iter)
      invariant forall j :: 0 <= j < iter ==> !StopsAt(cov, sqrt, tol, j)
    {
      var variance := Form(cov, w, w);
      if variance <= 0.0 {
        converged := true;
        assert StopsAt(cov, sqrt, tol, iter);
        assert w == Iterate(cov, sqrt, iter + 1);
        break;
      }
      var wNew := Step(cov, w, sqrt);
      if Close(wNew, w, tol) {
        converged := true;
        assert StopsAt(cov, sqrt, tol, iter);
        w := wNew;
        break;
      }
      w := wNew;
      iter := iter + 1;
    }
    if !converged {
      w := FallbackWeights(cov, sqrt);
    }
    CleanWeightsProject(w);
    weights := CleanWeights(w);
    if IsDiagonal(cov, n) && VariancesAboveFloor(cov) && maxIter > 0 {
      DiagonalOutcome(cov, sqrt, tol, maxIter);
    }
  }

  /** A converged result with no clamped marginal at the last iterate is equal-risk to within tolerance. */
  lemma {:induction false} ConvergedIsRiskParity(cov: Matrix, sqrt: real -> real, tol: real, rowBound: real, last: nat,
      i: nat, k: nat)
    requires IsSqrt(sqrt) && IsSquare(cov, |cov|) && i < |cov| && k < |cov| && tol >= 0.0
    requires StopsAt(cov, sqrt, tol, last)
    requires var p := Iterate(cov, sqrt, last); Form(cov, p, p) > 0.0 && MarginalsAboveFloor(cov, p)
    requires forall j :: 0 <= j < |cov| ==> AbsSum(cov[j]) <= rowBound
    ensures var w := Iterate(cov, sqrt, last + 1);
            Abs(RiskContribution(cov, w, i) - RiskContribution(cov, w, k)) <= 2.0 * (tol * rowBound)
  {
    hide RiskContribution, Form, Sum, Dot, Unnormalised, Step, AbsSum;
    ContributionsEqualised(cov, Iterate(cov, sqrt, last), sqrt, tol, rowBound, i, k);
  }
}
