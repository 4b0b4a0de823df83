/** The two routes to a correlation matrix in engine/src/risk/correlation.rs: the native kernels, and
    the pairwise reference. */
module Correlation {
  import opened NumKernels
  import opened Reals
  import opened Results
  import opened Samples
  import opened Vectors

  // ------------------------------------------------------ specifications

  function Least(a: nat, b: nat): nat {
    if a <= b then a else b
  }

  function Trailing(x: Vec, n: nat): (r: Vec)
    requires n <= |x|
    ensures |r| == n
  {
    x[|x| - n..]
  }

  /** Pearson's coefficient over the common trailing window; 0 when undefined. */
  function Pearson(x: Vec, y: Vec, window: nat, sqrt: real -> real): real {
    var n := Least(Least(|x|, |y|), window);
    if n < 2 then 0.0 else PearsonOf(Trailing(x, n), Trailing(y, n), sqrt)
  }

  function PearsonOf(u: Vec, v: Vec, sqrt: real -> real): real
    requires |u| == |v| > 1
  {
    var cu, cv := Centered(u), Centered(v);
    Ratio(Dot(cu, cv), Dot(cu, cu), Dot(cv, cv), sqrt)
  }

  /** A covariance over the root of two variances; 0 when the root is 0. */
  function Ratio(cov: real, varX: real, varY: real, sqrt: real -> real): real {
    var denom := sqrt(varX * varY);
    if denom == 0.0 then 0.0 else cov / denom
  }

  /** Entry (i, j) of the pairwise matrix, each pair taken in index order. */
  function PairwiseEntry(histories: Matrix, window: nat, i: nat, j: nat, sqrt: real -> real): real
    requires i < |histories| && j < |histories|
  {
    if i == j then 1.0
    else if i < j then Clamp(Pearson(histories[i], histories[j], window, sqrt))
    else Clamp(Pearson(histories[j], histories[i], window, sqrt))
  }

  function PairwiseMatrixOf(histories: Matrix, window: nat, sqrt: real -> real): (r: Matrix)
    ensures IsSquare(r, |histories|)
  {
    seq(|histories|, i requires 0 <= i < |histories| =>
      seq(|histories|, j requires 0 <= j < |histories| => PairwiseEntry(histories, window, i, j, sqrt)))
  }

  /** Every series cut to its last m observations. */
  function Aligned(histories: Matrix, m: nat): (r: Matrix)
    requires forall i :: 0 <= i < |histories| ==> m <= |histories[i]|
    ensures |r| == |histories| && HasWidth(r, m)
  {
    seq(|histories|, i requires 0 <= i < |histories| => Trailing(histories[i], m))
  }

  /** The shortest history, capped by the window. */
  function CommonLength(histories: Matrix, window: nat, k: nat): (m: nat)
    requires 0 < k <= |histories|
    ensures m <= window && forall i :: 0 <= i < k ==> m <= |histories[i]|
    ensures exists i :: 0 <= i < k && m == Least(|histories[i]|, window)
  {
    var last := Least(|histories[k - 1]|, window);
    if k == 1 then last else Least(CommonLength(histories, window, k - 1), last)
  }

  function NativeResult(histories: Matrix, window: nat, sqrt: real -> real): (r: Matrix)
    ensures IsSquare(r, |histories|)
  {
    var n := |histories|;
    if n < 2 then Identity(n)
    else
      var m := CommonLength(histories, window, n);
      if m < 2 then Identity(n) else NativeMatrix(Aligned(histories, m), m, sqrt)
  }

  // ----------------------------------------------------------- the routes

  method UnitDiagonal(n: nat) returns (matrix: Matrix)
    ensures matrix == Identity(n)
  {
    matrix := seq(n, i => Const(n, 0.0));
    for i := 0 to n
      invariant IsSquare(matrix, n)
      invariant forall p, q :: 0 <= p < n && 0 <= q < n ==> matrix[p][q] == if p == q && p < i then 1.0 else 0.0
    {
      matrix := matrix[i := matrix[i][i := 1.0]];
    }
    forall p | 0 <= p < n ensures matrix[p] == Unit(n, p) {
      assert forall q :: 0 <= q < n ==> matrix[p][q] == Unit(n, p)[q];
    }
  }

  /** The native route always has an answer, so the pairwise fallback is never taken. */
  method CorrelationViaNative(histories: Matrix, window: nat, sqrt: real -> real) returns (r: Option<Matrix>)
    ensures r == Some(NativeResult(histories, window, sqrt))
  {
    var n := |histories|;
    if n < 2 {
      var unit := UnitDiagonal(n);
      return Some(unit);
    }
    var m := Least(|histories[0]|, window);
    for k := 1 to n
      invariant m == CommonLength(histories, window, k)
    {
      m := Least(m, Least(|histories[k]|, window));
    }
    if m < 2 {
      var unit := UnitDiagonal(n);
      return Some(unit);
    }
    var aligned := Aligned(histories, m);
    var matrix := CorrelationMatrix(aligned, sqrt);
    if matrix.Err? {
      return None;
    }
    hide NativeEntry;
    var result := RestoreDiagonal(matrix.value);
    DiagonalIsOne(aligned, m, sqrt);
    forall i | 0 <= i < n ensures result[i] == matrix.value[i] {
      assert forall j :: 0 <= j < n ==> result[i][j] == matrix.value[i][j];
    }
    assert result == matrix.value;
    r := Some(result);
  }

  lemma DiagonalIsOne(series: Matrix, m: nat, sqrt: real -> real)
    requires HasWidth(series, m) && m > 1
    ensures forall i :: 0 <= i < |series| ==> NativeMatrix(series, m, sqrt)[i][i] == 1.0
  {
  }

  method RestoreDiagonal(a: Matrix) returns (matrix: Matrix)
    requires IsSquare(a, |a|)
    ensures IsSquare(matrix, |a|)
    ensures forall p, q :: 0 <= p < |a| && 0 <= q < |a| ==> matrix[p][q] == if p == q then 1.0 else a[p][q]
  {
    matrix := a;
    for i := 0 to |a|
      invariant IsSquare(matrix, |a|)
      invariant forall p, q :: 0 <= p < |a| && 0 <= q < |a| ==>
        matrix[p][q] == if p == q && p < i then 1.0 else a[p][q]
    {
      matrix := matrix[i := matrix[i][i := 1.0]];
    }
  }

  /** One pass over the common window with three running sums. */
  method PearsonCorrelation(x: Vec, y: Vec, window: nat, sqrt: real -> real) returns (r: real)
    ensures r == Pearson(x, y, window, sqrt)
  {
    hide Dot, Mean, Ratio;
    var n := Least(Least(|x|, |y|), window);
    if n < 2 {
      return 0.0;
    }
    var u, v := Trailing(x, n), Trailing(y, n);
    var meanX, meanY := Mean(u), Mean(v);
    ghost var cu, cv := Centered(u), Centered(v);
    var cov, varX, varY := 0.0, 0.0, 0.0;
    DotEmpty(cu, cv);
    for i := 0 to n
      invariant cov == Dot(cu[..i], cv[..i]) && varX == Dot(cu[..i], cu[..i]) && varY == Dot(cv[..i], cv[..i])
    {
      var dx, dy := u[i] - meanX, v[i] - meanY;
      assert dx == cu[i] && dy == cv[i];
      DotSnoc(cu, cv, i);
      DotSnoc(cu, cu, i);
      DotSnoc(cv, cv, i);
      cov, varX, varY := cov + dx * dy, varX + dx * dx, varY + dy * dy;
    }
    assert cu[..n] == cu && cv[..n] == cv;
    assert cov == Dot(cu, cv) && varX == Dot(cu, cu) && varY == Dot(cv, cv);
    r := Ratio(cov, varX, varY, sqrt);
  }

  /** Fill the upper triangle and mirror it. */
  method PairwiseMatrix(histories: Matrix, window: nat, sqrt: real -> real) returns (matrix: array2<real>)
    ensures fresh(matrix) && matrix.Length0 == matrix.Length1 == |histories|
    ensures forall i, j :: 0 <= i < |histories| && 0 <= j < |histories| ==>
      matrix[i, j] == PairwiseEntry(histories, window, i, j, sqrt)
  {
    hide Pearson, Clamp;
    var n := |histories|;
    matrix := new real[n, n]((i, j) => 0.0);
    for i := 0 to n
      invariant forall p, q :: 0 <= p < n && 0 <= q < n && (p < i || q < i) ==>
        matrix[p, q] == PairwiseEntry(histories, window, p, q, sqrt)
    {
      for j := 0 to n
        invariant forall p, q ::
          0 <= p < n && 0 <= q < n && (p < i || q < i || (p == i && q < j) || (q == i && p < j)) ==>
          matrix[p, q] == PairwiseEntry(histories, window, p, q, sqrt)
      {
        if i == j {
          matrix[i, j] := 1.0;
        } else if j > i {
          var corr := PearsonCorrelation(histories[i], histories[j], window, sqrt);
          var clamped := Clamp(corr);
          matrix[i, j] := clamped;
          matrix[j, i] := clamped;
        }
      }
    }
  }

  /** compute_matrix: the effective window and the matrix. */
  method ComputeMatrix(histories: Matrix, windowDays: Option<nat>, sqrt: real -> real)
    returns (matrix: Matrix, window: nat)
    ensures window >= 2 && (windowDays.None? ==> window == 90)
    ensures windowDays.Some? ==> window == if windowDays.value < 2 then 2 else windowDays.value
    ensures matrix == NativeResult(histories, window, sqrt)
  {
    window := if windowDays.Some? then windowDays.value else 90;
    if window < 2 {
      window := 2;
    }
    if histories == [] {
      return [], window;
    }
    var native := CorrelationViaNative(histories, window, sqrt);
    matrix := native.value;
  }

  // ------------------------------------------------- symmetry and definiteness

  /** The quadratic form of the covariance matrix at w is the variance of the portfolio that holds
      the series with weights w. */
  lemma {:induction false} FormIsPortfolioVariance(series: Matrix, m: nat, w: Vec)
    requires m > 1 && HasWidth(series, m) && |w| == |series|
    ensures Form(CovarianceOf(series, m), w, w) == Variance(Comb(w, series, m))
  {
    hide Form, Variance, MatVec, Comb;
    var c, rows := CovarianceOf(series, m), CenteredRows(series, m);
    var combined := Comb(w, rows, m);
    var k := 1.0 / (m - 1) as real;
    assert MatVec(c, w) == Scale(k, MatVec(rows, combined)) by { CovarianceTimes(series, m, w); }
    calc {
      Form(c, w, w);
    ==  { FormIsDot(c, w); }
      Dot(w, Scale(k, MatVec(rows, combined)));
    ==  { DotScaleRight(k, MatVec(rows, combined), w); }
      k * Dot(w, MatVec(rows, combined));
    ==  { DotComb(w, rows, combined); }
      k * Dot(combined, combined);
    ==  { CenteredComb(w, series, m); VarianceIsScaled(Comb(w, series, m)); }
      Variance(Comb(w, series, m));
    }
  }

  lemma FormIsDot(c: Matrix, w: Vec)
    requires IsSquare(c, |w|)
    ensures Form(c, w, w) == Dot(w, MatVec(c, w))
  {
  }

  lemma VarianceIsScaled(v: Vec)
    requires |v| > 1
    ensures Variance(v) == 1.0 / (|v| - 1) as real * Dot(Centered(v), Centered(v))
  {
    ScaleByInverse(Dot(Centered(v), Centered(v)), (|v| - 1) as real);
  }

  /** Row i of the covariance matrix times w is the covariance of series i with the combination. */
  lemma {:induction false} CovarianceTimes(series: Matrix, m: nat, w: Vec)
    requires m > 1 && HasWidth(series, m) && |w| == |series|
    ensures MatVec(CovarianceOf(series, m), w)
            == Scale(1.0 / (m - 1) as real, MatVec(CenteredRows(series, m), Comb(w, CenteredRows(series, m), m)))
  {
    hide Dot, CovarianceOf, CenteredRows, Comb;
    var c, rows, k := CovarianceOf(series, m), CenteredRows(series, m), 1.0 / (m - 1) as real;
    var combined := Comb(w, rows, m);
    var inner := MatVec(rows, combined);
    var l, r := MatVec(c, w), Scale(k, inner);
    forall i | 0 <= i < |series| ensures l[i] == r[i] {
      CovarianceRow(series, m, w, i);
      var d := inner[i];
      assert d == Dot(rows[i], combined);
      assert r[i] == k * d;
    }
  }

  lemma CovarianceRow(series: Matrix, m: nat, w: Vec, i: nat)
    requires m > 1 && HasWidth(series, m) && |w| == |series| && i < |series|
    ensures var rows := CenteredRows(series, m);
            Dot(CovarianceOf(series, m)[i], w) == 1.0 / (m - 1) as real * Dot(rows[i], Comb(w, rows, m))
  {
    hide Dot, CenteredRows, CovarianceOf, Comb, Scale, MatVec;
    var rows, k := CenteredRows(series, m), 1.0 / (m - 1) as real;
    var products := MatVec(rows, rows[i]);
    CovarianceRowScaled(series, m, i);
    DotScale(k, products, w);
    DotSymmetric(products, w);
    DotComb(w, rows, rows[i]);
    DotSymmetric(Comb(w, rows, m), rows[i]);
  }

  lemma CovarianceRowScaled(series: Matrix, m: nat, i: nat)
    requires m > 1 && HasWidth(series, m) && i < |series|
    ensures var rows := CenteredRows(series, m);
            CovarianceOf(series, m)[i] == Scale(1.0 / (m - 1) as real, MatVec(rows, rows[i]))
  {
    hide Dot, Centered;
    var rows, k := CenteredRows(series, m), 1.0 / (m - 1) as real;
    var row, products := CovarianceOf(series, m)[i], MatVec(rows, rows[i]);
    var scaled := Scale(k, products);
    forall j | 0 <= j < |series| ensures row[j] == scaled[j] {
      var d := products[j];
      assert d == Dot(rows[j], rows[i]);
      assert scaled[j] == k * d;
      ScaleByInverse(d, (m - 1) as real);
    }
  }

  /** The covariance matrix of any series is symmetric and positive semidefinite. */
  lemma {:induction false} CovarianceSemidefinite(series: Matrix, m: nat)
    requires m > 1 && HasWidth(series, m)
    ensures IsSymmetric(CovarianceOf(series, m), |series|)
    ensures IsSemidefinite(CovarianceOf(series, m), |series|)
  {
    hide Form, CovarianceOf, Variance;
    CovarianceSymmetric(series, m);
    forall w: Vec | |w| == |series| ensures Form(CovarianceOf(series, m), w, w) >= 0.0 {
      FormIsPortfolioVariance(series, m, w);
      VarianceNonNegative(Comb(w, series, m));
    }
  }

  // ------------------------------------------------------- the clamp

  /** A covariance is at most the root of the product of the variances, in size. */
  lemma RatioBounded(cov: real, varX: real, varY: real, sqrt: real -> real)
    requires IsSqrt(sqrt) && varX >= 0.0 && varY >= 0.0 && cov * cov <= varX * varY
    ensures -1.0 <= Ratio(cov, varX, varY, sqrt) <= 1.0
    ensures Ratio(cov, varX, varY, sqrt) == 0.0 <==> cov == 0.0
  {
    hide IsSqrt;
    var p := varX * varY;
    ProductNonNegative(varX, varY, p);
    RootOf(sqrt, p);
    var d := sqrt(p);
    SquareMonotone(Abs(cov), d);
    AbsSquare(cov);
    if d > 0.0 {
      Quotient(cov, d, cov / d);
      Quotient(-cov, d, -cov / d);
      NegatedQuotient(cov, d);
    }
  }

  /** Over the reals a correlation never needs the clamp, and it is 0 only for uncorrelated series. */
  lemma PearsonBounded(u: Vec, v: Vec, sqrt: real -> real)
    requires |u| == |v| > 1 && IsSqrt(sqrt)
    ensures -1.0 <= PearsonOf(u, v, sqrt) <= 1.0
    ensures PearsonOf(u, v, sqrt) == 0.0 <==> Covariance(u, v) == 0.0
  {
    hide Ratio, Dot, Centered;
    var cu, cv := Centered(u), Centered(v);
    DotSelf(cu);
    DotSelf(cv);
    DotCauchySchwarz(cu, cv);
    RatioBounded(Dot(cu, cv), Dot(cu, cu), Dot(cv, cv), sqrt);
    Quotient(Dot(cu, cv), (|u| - 1) as real, Covariance(u, v));
  }

  /** Pearson's coefficient by its definition: its square times both sums of squares about the mean is the
      square of the sum of products, and it has the sign of that sum; it is 0 if either series is constant. */
  lemma PearsonMeaning(u: Vec, v: Vec, sqrt: real -> real)
    requires |u| == |v| > 1 && IsSqrt(sqrt)
    ensures var r, s := PearsonOf(u, v, sqrt), Dot(Centered(u), Centered(v));
            var a, b := Dot(Centered(u), Centered(u)), Dot(Centered(v), Centered(v));
            if a == 0.0 || b == 0.0 then r == 0.0 else r * r * (a * b) == s * s && r * s >= 0.0
  {
    hide Ratio, Dot, Centered;
    DotSelf(Centered(u));
    DotSelf(Centered(v));
    RatioMeaning(Dot(Centered(u), Centered(v)), Dot(Centered(u), Centered(u)), Dot(Centered(v), Centered(v)), sqrt);
  }

  lemma RatioMeaning(cov: real, varX: real, varY: real, sqrt: real -> real)
    requires IsSqrt(sqrt) && varX >= 0.0 && varY >= 0.0
    ensures var r := Ratio(cov, varX, varY, sqrt);
            if varX == 0.0 || varY == 0.0 then r == 0.0
            else r * r * (varX * varY) == cov * cov && r * cov >= 0.0
  {
    hide IsSqrt;
    var p := varX * varY;
    if varX == 0.0 || varY == 0.0 {
      SqrtUnique(sqrt, 0.0, 0.0);
    } else {
      ProductPositive(varX, varY, p);
      SqrtSign(sqrt, p);
      RootOf(sqrt, p);
      QuotientSquare(cov, sqrt(p), cov / sqrt(p));
    }
  }

  lemma QuotientSquare(cov: real, d: real, r: real)
    requires d > 0.0 && r == cov / d
    ensures r * r * (d * d) == cov * cov && r * cov >= 0.0
  {
    Quotient(cov, d, r);
    assert r * r * (d * d) == (r * d) * (r * d);
    SquareSign(r);
    ProductNonNegative(Square(r), d, r * cov);
  }

  /** Only the last observations count: as many as the window says, or as the shorter history has; fewer
      than two give 0. */
  lemma OnlyRecent(x: Vec, u: Vec, y: Vec, v: Vec, window: nat, sqrt: real -> real)
    requires |u| == |v| <= window && (|u| == window || x == [] || y == [])
    ensures Pearson(x + u, y + v, window, sqrt) == if |u| < 2 then 0.0 else PearsonOf(u, v, sqrt)
  {
    hide PearsonOf;
    var n := |u|;
    assert Least(Least(|x + u|, |y + v|), window) == n;
    assert Trailing(x + u, n) == u && Trailing(y + v, n) == v;
  }

  lemma PearsonSymmetric(u: Vec, v: Vec, sqrt: real -> real)
    requires |u| == |v| > 1
    ensures PearsonOf(u, v, sqrt) == PearsonOf(v, u, sqrt)
  {
    hide Dot, Centered;
    DotSymmetric(Centered(u), Centered(v));
    SwapFactors(Dot(Centered(u), Centered(u)), Dot(Centered(v), Centered(v)));
  }

  // ------------------------------------------- native against pairwise

  /** Not constant, yet with at most 1e-12 of the variance of another series. */
  predicate Tiny(series: Matrix, m: nat, i: nat)
    requires m > 1 && HasWidth(series, m) && i < |series|
  {
    0.0 < Variance(series[i])
      && exists k :: 0 <= k < |series| && Variance(series[i]) <= 0.000000000001 * Variance(series[k])
  }

  /** The tiny series are those that vary below the tolerance of the kernel. */
  lemma TinyIffBelowTolerance(series: Matrix, m: nat, i: nat)
    requires m > 1 && HasWidth(series, m) && i < |series|
    ensures Tiny(series, m, i) <==> 0.0 < Variance(series[i]) <= Tolerance(CovarianceOf(series, m), |series|)
  {
    hide Covariance;
    var c, n := CovarianceOf(series, m), |series|;
    assert forall k :: 0 <= k < n ==> c[k][k] == Variance(series[k]);
    if 0.0 < Variance(series[i]) <= Tolerance(c, n) {
      var k := LargestAt(c, n, n);
      assert Variance(series[i]) <= 0.000000000001 * Variance(series[k]);
    }
  }

  lemma {:induction false} LargestAt(c: Matrix, n: nat, k: nat) returns (i: nat)
    requires IsSquare(c, n) && k <= n && LargestVariance(c, n, k) > 0.0
    ensures i < k && c[i][i] == LargestVariance(c, n, k)
  {
    if k > 0 && c[k - 1][k - 1] == LargestVariance(c, n, k) {
      i := k - 1;
    } else {
      i := LargestAt(c, n, k - 1);
    }
  }

  /** The native route is right about this pair: neither series is tiny, or they are uncorrelated. */
  predicate Faithful(series: Matrix, m: nat, i: nat, j: nat)
    requires m > 1 && HasWidth(series, m) && i < |series| && j < |series|
  {
    (!Tiny(series, m, i) && !Tiny(series, m, j)) || Covariance(series[i], series[j]) == 0.0
  }

  /** Scaling covariance and variances alike leaves the ratio alone. */
  lemma RatioScales(cov: real, varX: real, varY: real, k: real, c: real, vi: real, vj: real, sqrt: real -> real)
    requires IsSqrt(sqrt) && k > 0.0 && cov == c * k && varX == vi * k && varY == vj * k && vi > 0.0 && vj > 0.0
    ensures sqrt(vi * vj) > 0.0
    ensures c / sqrt(vi * vj) == Ratio(cov, varX, varY, sqrt)
  {
    hide Ratio, IsSqrt;
    var p := vi * vj;
    ProductPositive(vi, vj, p);
    SqrtSign(sqrt, p);
    RootOf(sqrt, p);
    var q := sqrt(p);
    var r := q * k;
    ProductPositive(q, k, r);
    SquareOfProduct(q, k, p, vi, vj, varX, varY, r);
    SqrtUnique(sqrt, varX * varY, r);
    SimplifiedQuotient(c, q, k, cov, r);
    RatioFromRoot(cov, varX, varY, r, sqrt);
  }

  lemma RatioFromRoot(cov: real, varX: real, varY: real, r: real, sqrt: real -> real)
    requires sqrt(varX * varY) == r && r > 0.0
    ensures Ratio(cov, varX, varY, sqrt) == cov / r
  {
  }

  lemma ConstantUncorrelated(u: Vec, v: Vec)
    requires |u| == |v| > 1 && (IsConstant(u) || IsConstant(v))
    ensures Covariance(u, v) == 0.0
  {
    hide Dot, Centered, IsConstant;
    var k := (|u| - 1) as real;
    var cu, cv := Centered(u), Centered(v);
    var s, a, b := Dot(cu, cv), Dot(cu, cu), Dot(cv, cv);
    VarianceZero(u);
    VarianceZero(v);
    Quotient(a, k, Variance(u));
    Quotient(b, k, Variance(v));
    Quotient(s, k, Covariance(u, v));
    DotCauchySchwarz(cu, cv);
    assert a == 0.0 || b == 0.0;
    assert a * b == 0.0;
    SquareSign(s);
  }

  lemma CovarianceTimesCount(u: Vec, v: Vec)
    requires |u| == |v| > 1
    ensures Dot(Centered(u), Centered(v)) == Covariance(u, v) * (|u| - 1) as real
  {
    hide Dot, Centered;
    Quotient(Dot(Centered(u), Centered(v)), (|u| - 1) as real, Covariance(u, v));
  }

  /** Between two series that vary above the tolerance the kernel computes Pearson's coefficient. */
  lemma KernelIsPearson(u: Vec, v: Vec, tol: real, sqrt: real -> real)
    requires |u| == |v| > 1 && IsSqrt(sqrt) && tol >= 0.0 && Variance(u) > tol && Variance(v) > tol
    ensures EntryValue(Variance(u), Variance(v), Covariance(u, v), tol, false, sqrt) == Clamp(PearsonOf(u, v, sqrt))
  {
    hide Dot, Centered, Clamp, Ratio, IsSqrt, Covariance, EntryValue;
    var k := (|u| - 1) as real;
    var s, a, b := Dot(Centered(u), Centered(v)), Dot(Centered(u), Centered(u)), Dot(Centered(v), Centered(v));
    var c, vi, vj := Covariance(u, v), Variance(u), Variance(v);
    CovarianceTimesCount(u, u);
    CovarianceTimesCount(v, v);
    CovarianceTimesCount(u, v);
    RatioScales(s, a, b, k, c, vi, vj, sqrt);
    EntryIsRatio(vi, vj, c, tol, Ratio(s, a, b, sqrt), sqrt);
  }

  lemma EntryIsRatio(vi: real, vj: real, c: real, tol: real, ratio: real, sqrt: real -> real)
    requires vi > tol && vj > tol && sqrt(vi * vj) > 0.0 && c / sqrt(vi * vj) == ratio
    ensures EntryValue(vi, vj, c, tol, false, sqrt) == Clamp(ratio)
  {
  }

  /** The two routes agree on a pair of aligned series exactly when neither series is tiny or the two
      are uncorrelated. */
  lemma EntryAgrees(series: Matrix, m: nat, i: nat, j: nat, sqrt: real -> real)
    requires m > 1 && HasWidth(series, m) && i < |series| && j < |series| && i != j && IsSqrt(sqrt)
    ensures NativeEntry(series, m, i, j, sqrt) == Clamp(PearsonOf(series[i], series[j], sqrt))
            <==> Faithful(series, m, i, j)
    ensures !Faithful(series, m, i, j) ==> NativeEntry(series, m, i, j, sqrt) == 0.0
  {
    TinyIffBelowTolerance(series, m, i);
    TinyIffBelowTolerance(series, m, j);
    hide Tiny, PearsonOf, Clamp, IsConstant, IsSqrt, EntryValue, Tolerance, Covariance;
    var u, v, tol := series[i], series[j], Tolerance(CovarianceOf(series, m), |series|);
    PearsonBounded(u, v, sqrt);
    if IsConstant(u) || IsConstant(v) {
      ConstantUncorrelated(u, v);
    } else {
      OwnCovariancePositive(u);
      OwnCovariancePositive(v);
      ToleranceNonNegative(CovarianceOf(series, m), |series|);
      assert NativeEntry(series, m, i, j, sqrt)
          == EntryValue(Variance(u), Variance(v), Covariance(u, v), tol, false, sqrt);
      if Variance(u) > tol && Variance(v) > tol {
        KernelIsPearson(u, v, tol, sqrt);
      } else {
        TinyEntry(Variance(u), Variance(v), Covariance(u, v), tol, sqrt);
      }
    }
  }

  lemma ToleranceNonNegative(c: Matrix, n: nat)
    requires IsSquare(c, n)
    ensures Tolerance(c, n) >= 0.0
  {
  }

  lemma TinyEntry(vi: real, vj: real, cij: real, tol: real, sqrt: real -> real)
    requires vi <= tol || vj <= tol
    ensures EntryValue(vi, vj, cij, tol, false, sqrt) == 0.0
  {
  }

  /** Every history gives the same number of observations. */
  predicate SameWindow(histories: Matrix, window: nat, m: nat) {
    forall i :: 0 <= i < |histories| ==> Least(|histories[i]|, window) == m
  }

  /** The native matrix is the pairwise reference, entry by entry, exactly when no tiny series has a
      correlated partner. */
  lemma NativeMatchesPairwise(histories: Matrix, window: nat, m: nat, sqrt: real -> real)
    requires SameWindow(histories, window, m) && m > 1 && |histories| > 1 && IsSqrt(sqrt)
    ensures NativeResult(histories, window, sqrt) == PairwiseMatrixOf(histories, window, sqrt)
            <==> forall i, j :: 0 <= i < |histories| && 0 <= j < |histories| && i != j ==>
                   Faithful(Aligned(histories, m), m, i, j)
  {
    hide Faithful, PearsonOf, Clamp, IsSqrt, NativeEntry, PairwiseEntry;
    var s, n := Aligned(histories, m), |histories|;
    assert CommonLength(histories, window, n) == m;
    var l, r := NativeResult(histories, window, sqrt), PairwiseMatrixOf(histories, window, sqrt);
    assert l == NativeMatrix(s, m, sqrt);
    forall i, j | 0 <= i < n && 0 <= j < n ensures l[i][j] == r[i][j] <==> i == j || Faithful(s, m, i, j) {
      if i == j {
        DiagonalsAreOne(histories, window, s, m, i, sqrt);
      } else {
        EntryAgrees(s, m, i, j, sqrt);
        PairwiseOnAligned(histories, window, m, i, j, sqrt);
      }
    }
    MatricesEqual(l, r, n);
  }

  lemma DiagonalsAreOne(histories: Matrix, window: nat, series: Matrix, m: nat, i: nat, sqrt: real -> real)
    requires m > 1 && HasWidth(series, m) && i < |series| == |histories|
    ensures NativeEntry(series, m, i, i, sqrt) == PairwiseEntry(histories, window, i, i, sqrt)
  {
  }

  lemma PairwiseOnAligned(histories: Matrix, window: nat, m: nat, i: nat, j: nat, sqrt: real -> real)
    requires SameWindow(histories, window, m) && m > 1 && i < |histories| && j < |histories| && i != j
    ensures PairwiseEntry(histories, window, i, j, sqrt)
            == Clamp(PearsonOf(Aligned(histories, m)[i], Aligned(histories, m)[j], sqrt))
  {
    hide PearsonOf, Clamp;
    PearsonSymmetric(Trailing(histories[i], m), Trailing(histories[j], m), sqrt);
  }

  /** Both routes give the identity when the common window is too short, if all histories are. */
  lemma ShortHistoriesAgree(histories: Matrix, window: nat, m: nat, sqrt: real -> real)
    requires SameWindow(histories, window, m) && (m < 2 || |histories| < 2)
    ensures NativeResult(histories, window, sqrt) == PairwiseMatrixOf(histories, window, sqrt)
  {
    var n := |histories|;
    var l, r := NativeResult(histories, window, sqrt), PairwiseMatrixOf(histories, window, sqrt);
    MatricesEqual(l, r, n);
  }

  /** The pair has no correlation to report: fewer than two common observations, or uncorrelated ones. */
  ghost predicate Undetermined(histories: Matrix, window: nat, i: nat, j: nat)
    requires i < |histories| && j < |histories|
  {
    var n := Least(Least(|histories[i]|, |histories[j]|), window);
    n < 2 || Covariance(Trailing(histories[i], n), Trailing(histories[j], n)) == 0.0
  }

  lemma PairwiseIsZero(histories: Matrix, window: nat, i: nat, j: nat, sqrt: real -> real)
    requires i < j < |histories| && IsSqrt(sqrt)
    ensures PairwiseEntry(histories, window, i, j, sqrt) == 0.0 <==> Undetermined(histories, window, i, j)
  {
    hide PearsonOf, Covariance, IsSqrt;
    var n := Least(Least(|histories[i]|, |histories[j]|), window);
    if n >= 2 {
      PearsonBounded(Trailing(histories[i], n), Trailing(histories[j], n), sqrt);
    }
  }

  lemma MirroredEntry(histories: Matrix, window: nat, i: nat, j: nat, sqrt: real -> real)
    requires i < |histories| && j < |histories|
    ensures PairwiseEntry(histories, window, j, i, sqrt) == PairwiseEntry(histories, window, i, j, sqrt)
    ensures i == j ==> PairwiseEntry(histories, window, i, j, sqrt) == 1.0
  {
    hide Pearson, Clamp;
  }

  /** Below two observations common to all, the identity is the pairwise matrix exactly when no pair has
      a correlation of its own: one short history blanks out every other pair. */
  lemma ShortWindowAgrees(histories: Matrix, window: nat, sqrt: real -> real)
    requires |histories| > 1 && CommonLength(histories, window, |histories|) < 2 && IsSqrt(sqrt)
    ensures NativeResult(histories, window, sqrt) == PairwiseMatrixOf(histories, window, sqrt)
            <==> forall i, j :: 0 <= i < j < |histories| ==> Undetermined(histories, window, i, j)
  {
    hide Undetermined, PairwiseEntry, IsSqrt;
    var n := |histories|;
    var l, r := NativeResult(histories, window, sqrt), PairwiseMatrixOf(histories, window, sqrt);
    forall i, j | 0 <= i < j < n
      ensures l[i][j] == r[i][j] <==> Undetermined(histories, window, i, j)
      ensures l[j][i] == r[j][i] <==> Undetermined(histories, window, i, j)
    {
      PairwiseIsZero(histories, window, i, j, sqrt);
      MirroredEntry(histories, window, i, j, sqrt);
    }
    MatricesEqual(l, r, n);
    if forall i, j :: 0 <= i < j < n ==> Undetermined(histories, window, i, j) {
      forall i, j | 0 <= i < n && 0 <= j < n ensures l[i][j] == r[i][j] {
        MirroredEntry(histories, window, i, j, sqrt);
        assert i < j ==> Undetermined(histories, window, i, j);
        assert j < i ==> Undetermined(histories, window, j, i);
      }
    }
  }

  /** The two routes do differ: a series with variance 5e-15 beside one with variance 1/2. The pairwise
      coefficient of these perfectly correlated series is 1, the native entry is 0. */
  lemma {:induction false} TinySeriesLosesCorrelation(sqrt: real -> real)
    requires IsSqrt(sqrt)
    ensures var histories := [[0.0, 1.0], [0.0, 0.0000001]];
            PairwiseEntry(histories, 90, 0, 1, sqrt) == 1.0 && NativeResult(histories, 90, sqrt)[0][1] == 0.0
  {
    hide PearsonOf, NativeEntry, PairwiseEntry, NativeResult, Tiny, IsSqrt, Covariance;
    var u, v: Vec := [0.0, 1.0], [0.0, 0.0000001];
    TinyPair(u, v, sqrt);
    TinyTolerance(u, v);
    TinyNative([u, v], 2, sqrt);
    TwoObservations(u, v, sqrt);
  }

  /** For two series of two observations the whole window is the series. */
  lemma {:induction false} TwoObservations(u: Vec, v: Vec, sqrt: real -> real)
    requires |u| == |v| == 2
    ensures var histories := [u, v];
            && PairwiseEntry(histories, 90, 0, 1, sqrt) == Clamp(PearsonOf(u, v, sqrt))
            && NativeResult(histories, 90, sqrt)[0][1] == NativeEntry(histories, 2, 0, 1, sqrt)
  {
    hide PearsonOf, NativeEntry, Clamp;
    var histories := [u, v];
    assert Trailing(u, 2) == u && Trailing(v, 2) == v;
    assert Aligned(histories, 2) == histories;
    assert CommonLength(histories, 90, 2) == 2 by { assert CommonLength(histories, 90, 1) == 2; }
  }

  lemma TinyNative(series: Matrix, m: nat, sqrt: real -> real)
    requires m > 1 && HasWidth(series, m) && |series| == 2 && Tiny(series, m, 1)
    ensures NativeEntry(series, m, 0, 1, sqrt) == 0.0
  {
    hide IsConstant;
    TinyIffBelowTolerance(series, m, 1);
    var c := CovarianceOf(series, m);
    assert c[1][1] == Variance(series[1]);
  }

  lemma TinyPair(u: Vec, v: Vec, sqrt: real -> real)
    requires IsSqrt(sqrt) && u == [0.0, 1.0] && v == [0.0, 0.0000001]
    ensures PearsonOf(u, v, sqrt) == 1.0 && Variance(u) == 0.5 && Variance(v) == 0.000000000000005
  {
    hide IsSqrt, Dot, Centered;
    TwoPoints(1.0);
    TwoPoints(0.0000001);
    DotPairs(-0.5, 0.5, -0.00000005, 0.00000005);
    SqrtUnique(sqrt, 0.5 * 0.000000000000005, 0.00000005);
  }

  lemma TinyTolerance(u: Vec, v: Vec)
    requires |u| == |v| == 2 && Variance(u) == 0.5 && Variance(v) == 0.000000000000005
    ensures Tiny([u, v], 2, 1)
  {
    hide Variance;
    var series := [u, v];
    assert Variance(series[1]) <= 0.000000000001 * Variance(series[0]);
  }

  lemma TwoPoints(x: real)
    ensures Centered([0.0, x]) == [-x / 2.0, x / 2.0]
  {
    var v: Vec := [0.0, x];
    assert v[1..] == [x] && [x][1..] == [];
    assert Sum([x]) == x + Sum([]) == x;
    assert Sum(v) == x;
  }

  /** A series that varies has correlation 1 with itself. */
  lemma SelfCorrelation(u: Vec, sqrt: real -> real)
    requires |u| > 1 && !IsConstant(u) && IsSqrt(sqrt)
    ensures PearsonOf(u, u, sqrt) == 1.0
  {
    hide Dot, Centered, IsConstant, IsSqrt;
    var a := Dot(Centered(u), Centered(u));
    OwnCovariancePositive(u);
    Quotient(a, (|u| - 1) as real, Variance(u));
    hide Ratio;
    RatioToItself(a, sqrt);
  }

  lemma RatioToItself(a: real, sqrt: real -> real)
    requires a > 0.0 && IsSqrt(sqrt)
    ensures Ratio(a, a, a, sqrt) == 1.0
  {
    hide Ratio;
    SqrtUnique(sqrt, a * a, a);
    RatioFromRoot(a, a, a, a, sqrt);
    assert a / a == 1.0;
  }

  /** One short history makes the native route answer 0 for every pair, even for two identical series
      that vary, whose pairwise correlation is 1. */
  lemma {:induction false} ShortHistoryBlanksAll(histories: Matrix, window: nat, k: nat, i: nat, j: nat,
      sqrt: real -> real)
    requires k < |histories| && i < |histories| && j < |histories| && i != j && IsSqrt(sqrt)
    requires Least(|histories[k]|, window) < 2
    requires var m := Least(|histories[i]|, window); m > 1 && !IsConstant(Trailing(histories[i], m))
    requires histories[j] == histories[i]
    ensures NativeResult(histories, window, sqrt)[i][j] == 0.0
    ensures PairwiseEntry(histories, window, i, j, sqrt) == 1.0
  {
    hide PearsonOf, IsConstant, IsSqrt;
    SelfCorrelation(Trailing(histories[i], Least(|histories[i]|, window)), sqrt);
  }
}
