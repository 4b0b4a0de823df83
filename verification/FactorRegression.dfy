/** Ordinary least squares (analytics/pae/models/factor.py); the design matrix is its list of columns. */
module FactorRegression {
  import opened Reals
  import opened Results
  import opened Samples
  import opened Vectors

  datatype Factor = Factor(name: string, series: Vec)

  datatype FactorExposure = FactorExposure(name: string, beta: real, tStat: real, contributionPct: real)

  datatype Decomposition = Decomposition(
    alpha: real, alphaTStat: real, rSquared: real,
    exposures: seq<FactorExposure>, residualRiskPct: real)

  datatype FactorError =
    | EmptyPortfolio
    | NoFactors
    | TooFewObservations
    | LengthMismatch(name: string)
    | Singular

  // ------------------------------------------------------------ the model

  function Design(n: nat, factors: seq<Factor>): (cols: Matrix)
    ensures |cols| == |factors| + 1
  {
    [Const(n, 1.0)] + seq(|factors|, i requires 0 <= i < |factors| => factors[i].series)
  }

  /** X'X: the dot products of the columns with each other. */
  function Gram(cols: Matrix, n: nat): (g: Matrix)
    requires HasWidth(cols, n)
    ensures IsSquare(g, |cols|)
  {
    seq(|cols|, a requires 0 <= a < |cols| => MatVec(cols, cols[a]))
  }

  function Residuals(cols: Matrix, y: Vec, coefficients: Vec): (r: Vec)
    requires HasWidth(cols, |y|) && |coefficients| == |cols|
    ensures |r| == |y|
  {
    Sub(y, Comb(coefficients, cols, |y|))
  }

  function ResidualSumOfSquares(cols: Matrix, y: Vec, coefficients: Vec): real
    requires HasWidth(cols, |y|) && |coefficients| == |cols|
  {
    Dot(Residuals(cols, y, coefficients), Residuals(cols, y, coefficients))
  }

  /** betas = (X'X)^-1 X' y, associated to the left as numpy does. */
  function Betas(cols: Matrix, y: Vec, inverse: Matrix): (b: Vec)
    requires HasWidth(cols, |y|) && IsSquare(inverse, |cols|)
    ensures |b| == |cols|
  {
    MatVec(MatMul(inverse, cols, |y|), y)
  }

  /** b minimises the residual sum of squares over all coefficient vectors. */
  ghost predicate IsLeastSquares(cols: Matrix, y: Vec, b: Vec)
    requires HasWidth(cols, |y|) && |b| == |cols|
  {
    forall c: Vec :: |c| == |cols| ==> ResidualSumOfSquares(cols, y, b) <= ResidualSumOfSquares(cols, y, c)
  }

  /** b is least-squares optimal, and nothing else is. */
  ghost predicate IsUniqueOptimum(cols: Matrix, y: Vec, b: Vec)
    requires HasWidth(cols, |y|) && |b| == |cols|
  {
    && IsLeastSquares(cols, y, b)
    && forall c: Vec :: |c| == |cols| && ResidualSumOfSquares(cols, y, c) == ResidualSumOfSquares(cols, y, b) ==> c == b
  }

  function RSquared(y: Vec, ssRes: real): real
    requires |y| > 0
  {
    var ssTot := Dot(Centered(y), Centered(y));
    if ssTot > 0.0 then 1.0 - ssRes / ssTot else 0.0
  }

  // -------------------------------------------------------- the geometry

  /** (X'X) b = X' (X b). */
  lemma GramIsNormal(cols: Matrix, n: nat, b: Vec)
    requires HasWidth(cols, n) && |b| == |cols|
    ensures MatVec(Gram(cols, n), b) == MatVec(cols, Comb(b, cols, n))
  {
    var l, r := MatVec(Gram(cols, n), b), MatVec(cols, Comb(b, cols, n));
    forall a | 0 <= a < |cols| ensures l[a] == r[a] {
      DotSymmetric(MatVec(cols, cols[a]), b);
      DotComb(b, cols, cols[a]);
      DotSymmetric(Comb(b, cols, n), cols[a]);
    }
  }

  lemma GramSymmetric(cols: Matrix, n: nat)
    requires HasWidth(cols, n)
    ensures IsSymmetric(Gram(cols, n), |cols|)
  {
    forall a, b | 0 <= a < |cols| && 0 <= b < |cols| ensures Gram(cols, n)[a][b] == Gram(cols, n)[b][a] {
      DotSymmetric(cols[a], cols[b]);
    }
  }

  /** The normal equations: the residuals are orthogonal to every column of the design. */
  lemma ResidualsOrthogonal(cols: Matrix, y: Vec, inverse: Matrix)
    requires HasWidth(cols, |y|) && IsInverse(Gram(cols, |y|), inverse, |cols|)
    ensures MatVec(cols, Residuals(cols, y, Betas(cols, y, inverse))) == Const(|cols|, 0.0)
  {
    var n, b := |y|, Betas(cols, y, inverse);
    var fitted, xty := Comb(b, cols, n), MatVec(cols, y);
    MatVecMatMul(inverse, cols, y);
    InverseCancels(Gram(cols, n), inverse, xty);
    GramIsNormal(cols, n, b);
    MatVecLinear(cols, y, fitted);
  }

  /** A vector orthogonal to every row is orthogonal to their combinations. */
  lemma OrthogonalToRows(c: Vec, rows: Matrix, v: Vec)
    requires |c| == |rows| && HasWidth(rows, |v|) && MatVec(rows, v) == Const(|rows|, 0.0)
    ensures Dot(Comb(c, rows, |v|), v) == 0.0
  {
    DotComb(c, rows, v);
    DotSymmetric(c, Const(|c|, 0.0));
    DotZero(|c|, c);
  }

  lemma CombSub(cols: Matrix, n: nat, b: Vec, c: Vec)
    requires HasWidth(cols, n) && |b| == |c| == |cols|
    ensures Comb(Sub(b, c), cols, n) == Sub(Comb(b, cols, n), Comb(c, cols, n))
  {
    var l, r := Comb(Sub(b, c), cols, n), Sub(Comb(b, cols, n), Comb(c, cols, n));
    forall j | 0 <= j < n ensures l[j] == r[j] {
      DotSub(b, c, Column(cols, n, j));
    }
  }

  /** Pythagoras around the fit: any other coefficients add the square of X (b - c). */
  lemma ErrorDecomposes(cols: Matrix, y: Vec, inverse: Matrix, c: Vec)
    requires HasWidth(cols, |y|) && IsInverse(Gram(cols, |y|), inverse, |cols|) && |c| == |cols|
    ensures var b := Betas(cols, y, inverse);
            var shift := Comb(Sub(b, c), cols, |y|);
            ResidualSumOfSquares(cols, y, c) == ResidualSumOfSquares(cols, y, b) + Dot(shift, shift)
  {
    var n, b := |y|, Betas(cols, y, inverse);
    var e, shift := Residuals(cols, y, b), Comb(Sub(b, c), cols, n);
    ResidualsOrthogonal(cols, y, inverse);
    OrthogonalToRows(Sub(b, c), cols, e);
    CombSub(cols, n, b, c);
    assert Residuals(cols, y, c) == Add(e, shift);
    DotOfSum(e, shift);
    DotSymmetric(e, shift);
  }

  /** OLS is optimal, and it is the only optimum. */
  lemma LeastSquares(cols: Matrix, y: Vec, inverse: Matrix, c: Vec)
    requires HasWidth(cols, |y|) && IsInverse(Gram(cols, |y|), inverse, |cols|) && |c| == |cols|
    ensures ResidualSumOfSquares(cols, y, Betas(cols, y, inverse)) <= ResidualSumOfSquares(cols, y, c)
    ensures ResidualSumOfSquares(cols, y, c) == ResidualSumOfSquares(cols, y, Betas(cols, y, inverse))
            <==> c == Betas(cols, y, inverse)
  {
    var n, b := |y|, Betas(cols, y, inverse);
    var d := Sub(b, c);
    var shift := Comb(d, cols, n);
    ErrorDecomposes(cols, y, inverse, c);
    DotSelf(shift);
    if Dot(shift, shift) == 0.0 {
      assert shift == Const(n, 0.0);
      GramIsNormal(cols, n, d);
      FullColumnRank(cols, n, inverse, d);
      assert c == b by {
        forall i | 0 <= i < |c| ensures c[i] == b[i] { assert d[i] == 0.0; }
      }
    }
  }

  /** With an invertible Gram matrix only the zero coefficients combine the columns to zero. */
  lemma FullColumnRank(cols: Matrix, n: nat, inverse: Matrix, d: Vec)
    requires HasWidth(cols, n) && IsInverse(Gram(cols, n), inverse, |cols|) && |d| == |cols|
    requires Comb(d, cols, n) == Const(n, 0.0)
    ensures forall i :: 0 <= i < |d| ==> d[i] == 0.0
  {
    var g, w := Gram(cols, n), MatVec(inverse, d);
    GramIsNormal(cols, n, d);
    GramSymmetric(cols, n);
    InverseCancels(g, inverse, d);
    FormSymmetric(g, d, w);
    forall a | 0 <= a < |cols| ensures MatVec(g, d)[a] == 0.0 {
      DotSymmetric(cols[a], Const(n, 0.0));
      DotZero(n, cols[a]);
    }
    assert MatVec(g, d) == Const(|d|, 0.0);
    DotSymmetric(w, Const(|d|, 0.0));
    DotZero(|d|, w);
    DotSelf(d);
  }

  // ----------------------------------------------------------- R-squared

  /** The intercept-only coefficients reproduce the constant fit. */
  lemma InterceptOnly(cols: Matrix, n: nat, m: real)
    requires HasWidth(cols, n) && |cols| > 0 && cols[0] == Const(n, 1.0)
    ensures Comb([m] + Const(|cols| - 1, 0.0), cols, n) == Const(n, m)
  {
    var c := [m] + Const(|cols| - 1, 0.0);
    var l := Comb(c, cols, n);
    forall j | 0 <= j < n ensures l[j] == m {
      assert c[1..] == Const(|cols| - 1, 0.0);
      DotZero(|cols| - 1, Column(cols, n, j)[1..]);
    }
  }

  /** With an intercept the residuals sum to zero and R-squared is a share. */
  lemma RSquaredIsShare(cols: Matrix, y: Vec, inverse: Matrix)
    requires |y| > 0 && HasWidth(cols, |y|) && IsInverse(Gram(cols, |y|), inverse, |cols|)
    requires |cols| > 0 && cols[0] == Const(|y|, 1.0)
    ensures Sum(Residuals(cols, y, Betas(cols, y, inverse))) == 0.0
    ensures 0.0 <= RSquared(y, ResidualSumOfSquares(cols, y, Betas(cols, y, inverse))) <= 1.0
  {
    var b := Betas(cols, y, inverse);
    var res := Residuals(cols, y, b);
    ResidualsOrthogonal(cols, y, inverse);
    DotOnes(res);
    assert Dot(cols[0], res) == MatVec(cols, res)[0] == 0.0;
    var c := [Mean(y)] + Const(|cols| - 1, 0.0);
    InterceptOnly(cols, |y|, Mean(y));
    LeastSquares(cols, y, inverse, c);
    DotSelf(res);
    var ssTot := Dot(Centered(y), Centered(y));
    assert ResidualSumOfSquares(cols, y, c) == ssTot;
    if ssTot > 0.0 {
      Quotient(Dot(res, res), ssTot, Dot(res, res) / ssTot);
    }
  }

  // ------------------------------------------- the variance decomposition

  /** One factor's share beta^2 * var(factor) / var(portfolio). */
  function Contribution(beta: real, factor: Vec, y: Vec): real
    requires |factor| == |y| > 1
  {
    if Variance(y) > 0.0 then beta * beta * Variance(factor) / Variance(y) else 0.0
  }

  /** The contributions of the first k factors added up in order; column i of the design is factor i. */
  function TotalExplained(cols: Matrix, b: Vec, y: Vec, k: nat): real
    requires HasWidth(cols, |y|) && |b| == |cols| && k < |cols| && |y| > 1
  {
    if k == 0 then 0.0 else TotalExplained(cols, b, y, k - 1) + Contribution(b[k], cols[k], y)
  }

  /** The square of the scaled vector c * r. */
  function Energy(c: real, r: Vec): real {
    Dot(Scale(c, r), Scale(c, r))
  }

  function Energies(c: Vec, rows: Matrix): (r: Vec)
    requires |c| == |rows|
  {
    seq(|rows|, i requires 0 <= i < |rows| => Energy(c[i], rows[i]))
  }

  /** Each row is orthogonal to all later ones. */
  predicate PairwiseOrthogonal(rows: Matrix, n: nat)
    requires HasWidth(rows, n)
  {
    rows == [] ||
    (MatVec(rows[1..], rows[0]) == Const(|rows| - 1, 0.0) && PairwiseOrthogonal(rows[1..], n))
  }

  /** Every two factors have sample covariance 0. */
  predicate Uncorrelated(factors: Matrix, n: nat)
    requires n > 0 && HasWidth(factors, n)
  {
    PairwiseOrthogonal(CenteredRows(factors, n), n)
  }

  /** Squares of pairwise orthogonal terms add up. */
  lemma {:induction false} OrthogonalCombination(c: Vec, rows: Matrix, n: nat)
    requires |c| == |rows| && HasWidth(rows, n)
    requires PairwiseOrthogonal(rows, n)
    ensures Dot(Comb(c, rows, n), Comb(c, rows, n)) == Sum(Energies(c, rows))
  {
    if c == [] {
      assert Comb(c, rows, n) == Const(n, 0.0);
      DotZero(n, Const(n, 0.0));
    } else {
      CombStep(c, rows, n);
      var c', rows' := c[1..], rows[1..];
      var head, rest := Scale(c[0], rows[0]), Comb(c', rows', n);
      OrthogonalCombination(c', rows', n);
      assert Energies(c, rows)[1..] == Energies(c', rows');
      MatVecScale(rows', c[0], rows[0]);
      assert Scale(c[0], Const(|rows'|, 0.0)) == Const(|rows'|, 0.0);
      OrthogonalToRows(c', rows', head);
      DotSymmetric(rest, head);
      DotOfSum(head, rest);
    }
  }

  /** The total sum of squares splits into the residual part and the fitted part. */
  lemma TotalSumOfSquares(cols: Matrix, y: Vec, inverse: Matrix)
    requires |y| > 0 && HasWidth(cols, |y|) && IsInverse(Gram(cols, |y|), inverse, |cols|)
    requires |cols| > 0 && cols[0] == Const(|y|, 1.0)
    ensures var b := Betas(cols, y, inverse);
            var fitted := Centered(Comb(b, cols, |y|));
            Dot(Centered(y), Centered(y)) == ResidualSumOfSquares(cols, y, b) + Dot(fitted, fitted)
  {
    var n, b := |y|, Betas(cols, y, inverse);
    var fit, res := Comb(b, cols, n), Residuals(cols, y, b);
    var cf := Centered(fit);
    RSquaredIsShare(cols, y, inverse);
    ResidualsOrthogonal(cols, y, inverse);
    CenteredFit(y, res, fit);
    OrthogonalToRows(b, cols, res);
    OrthogonalToCentered(fit, res);
    DotSymmetric(res, cf);
    DotOfSum(res, cf);
  }

  lemma CenteredFit(y: Vec, res: Vec, fit: Vec)
    requires |y| == |res| == |fit| > 0 && res == Sub(y, fit) && Sum(res) == 0.0
    ensures Centered(y) == Add(res, Centered(fit))
  {
    assert y == Add(res, fit);
    SumAdd(res, fit);
  }

  lemma OrthogonalToCentered(fit: Vec, res: Vec)
    requires |fit| == |res| > 0 && Sum(res) == 0.0 && Dot(fit, res) == 0.0
    ensures Dot(Centered(fit), res) == 0.0
  {
    var n, m := |fit|, Mean(fit);
    DotSub(fit, Const(n, m), res);
    assert Const(n, m) == Scale(m, Const(n, 1.0));
    DotScale(m, Const(n, 1.0), res);
    DotOnes(res);
  }

  /** The energies of columns 1 to k of the centred design. */
  function PartialEnergy(cols: Matrix, b: Vec, n: nat, k: nat): real
    requires n > 0 && HasWidth(cols, n) && |b| == |cols| && k < |cols|
  {
    if k == 0 then 0.0 else PartialEnergy(cols, b, n, k - 1) + Energy(b[k], Centered(cols[k]))
  }

  lemma {:induction false} ContributionsScaled(cols: Matrix, b: Vec, y: Vec, k: nat, q: real)
    requires HasWidth(cols, |y|) && |b| == |cols| && k < |cols| && |y| > 1
    requires Dot(Centered(y), Centered(y)) > 0.0 && q == 1.0 / Dot(Centered(y), Centered(y))
    ensures TotalExplained(cols, b, y, k) == q * PartialEnergy(cols, b, |y|, k)
  {
    hide Dot, Energy;
    if k == 0 {
    } else {
      var p, e := PartialEnergy(cols, b, |y|, k - 1), Energy(b[k], Centered(cols[k]));
      ContributionsScaled(cols, b, y, k - 1, q);
      ContributionScaled(b[k], cols[k], y, q);
      assert q * (p + e) == q * p + q * e;
    }
  }

  /** The energies of the centred design, with the intercept column contributing nothing. */
  lemma {:induction false} PartialEnergyIsSum(cols: Matrix, b: Vec, n: nat, k: nat)
    requires n > 0 && HasWidth(cols, n) && |b| == |cols| && k < |cols| && cols[0] == Const(n, 1.0)
    ensures PartialEnergy(cols, b, n, k) == Sum(Energies(b, CenteredRows(cols, n))[..k + 1])
  {
    var energies := Energies(b, CenteredRows(cols, n));
    assert energies[..k + 1] == energies[..k] + [energies[k]];
    SumAppend(energies[..k], [energies[k]]);
    if k > 0 {
      PartialEnergyIsSum(cols, b, n, k - 1);
    } else {
      CenteredConst(n, 1.0);
      assert Scale(b[0], Const(n, 0.0)) == Const(n, 0.0);
      DotZero(n, Const(n, 0.0));
    }
  }

  lemma ContributionScaled(beta: real, factor: Vec, y: Vec, q: real)
    requires |factor| == |y| > 1 && Dot(Centered(y), Centered(y)) > 0.0
    requires q == 1.0 / Dot(Centered(y), Centered(y))
    ensures Contribution(beta, factor, y) == q * Energy(beta, Centered(factor))
  {
    hide Dot, Centered, Energy;
    var k, s := (|y| - 1) as real, Dot(Centered(y), Centered(y));
    var r := Centered(factor);
    Quotient(s, k, Variance(y));
    EnergyIs(beta, r);
    ShareCancels(beta, Dot(r, r), s, k);
  }

  lemma EnergyIs(c: real, r: Vec)
    ensures Energy(c, r) == c * (c * Dot(r, r))
  {
    hide Dot, Scale;
    DotScale(c, r, Scale(c, r));
    DotScaleRight(c, r, r);
  }

  lemma ShareCancels(b: real, f: real, s: real, k: real)
    requires s > 0.0 && k > 0.0
    ensures s / k > 0.0 && b * b * (f / k) / (s / k) == 1.0 / s * (b * (b * f))
  {
    var v, u, q := s / k, f / k, b * b;
    Quotient(s, k, v);
    Quotient(f, k, u);
    assert b * (b * f) == q * f;
    var r := q * f / s;
    Quotient(q * f, s, r);
    assert r * v * k == r * s;
    assert q * u * k == q * f;
    ProductEqual(r * v, q * u, k);
    QuotientUnique(q * u, v, r);
  }

  lemma QuotientUnique(a: real, c: real, q: real)
    requires c != 0.0 && q * c == a
    ensures a / c == q
  {
  }

  /** With pairwise uncorrelated factors the contributions add up to R-squared. */
  lemma ContributionsExplainRSquared(cols: Matrix, y: Vec, inverse: Matrix, k: nat)
    requires |y| > 1 && HasWidth(cols, |y|) && IsInverse(Gram(cols, |y|), inverse, |cols|)
    requires |cols| == k + 1 && cols[0] == Const(|y|, 1.0) && Uncorrelated(cols, |y|)
    ensures var b := Betas(cols, y, inverse);
            TotalExplained(cols, b, y, k) == RSquared(y, ResidualSumOfSquares(cols, y, b))
  {
    hide Dot, Comb, Centered, ResidualSumOfSquares, Betas, TotalExplained, PartialEnergy, Gram;
    var b, total := Betas(cols, y, inverse), Dot(Centered(y), Centered(y));
    DotSelf(Centered(y));
    if total > 0.0 {
      TotalSumOfSquares(cols, y, inverse);
      FittedEnergy(cols, b, |y|, k);
      ContributionsScaled(cols, b, y, k, 1.0 / total);
      RSquaredFromParts(y, ResidualSumOfSquares(cols, y, b), PartialEnergy(cols, b, |y|, k), 1.0 / total,
                        TotalExplained(cols, b, y, k));
    } else {
      NoContributions(cols, b, y, k);
    }
  }

  /** With uncorrelated factors the centred fit has the energies of its columns. */
  lemma FittedEnergy(cols: Matrix, b: Vec, n: nat, k: nat)
    requires n > 0 && HasWidth(cols, n) && |b| == |cols| == k + 1
    requires cols[0] == Const(n, 1.0) && Uncorrelated(cols, n)
    ensures var fitted := Centered(Comb(b, cols, n));
            PartialEnergy(cols, b, n, k) == Dot(fitted, fitted)
  {
    hide Dot, Comb, Centered, Energy;
    var energies := Energies(b, CenteredRows(cols, n));
    CenteredComb(b, cols, n);
    OrthogonalCombination(b, CenteredRows(cols, n), n);
    PartialEnergyIsSum(cols, b, n, k);
    assert energies[..k + 1] == energies;
  }

  lemma {:induction false} NoContributions(cols: Matrix, b: Vec, y: Vec, k: nat)
    requires HasWidth(cols, |y|) && |b| == |cols| && k < |cols| && |y| > 1
    requires Dot(Centered(y), Centered(y)) == 0.0
    ensures TotalExplained(cols, b, y, k) == 0.0
  {
    Quotient(0.0, (|y| - 1) as real, Variance(y));
    if k == 0 {
    } else {
      NoContributions(cols, b, y, k - 1);
    }
  }

  lemma ShareOfTotal(a: real, b: real, total: real, q: real, share: real)
    requires total > 0.0 && a + b == total && q == 1.0 / total && share == q * b
    ensures share == 1.0 - a / total
  {
  }

  lemma RSquaredFromParts(y: Vec, ssRes: real, explained: real, q: real, share: real)
    requires |y| > 0 && Dot(Centered(y), Centered(y)) > 0.0 && q == 1.0 / Dot(Centered(y), Centered(y))
    requires Dot(Centered(y), Centered(y)) == ssRes + explained && share == q * explained
    ensures share == RSquared(y, ssRes)
  {
    ShareOfTotal(ssRes, explained, Dot(Centered(y), Centered(y)), q, share);
  }

  // ------------------------------------------------------------ decompose

  function ValidateReturns(y: Vec, factors: seq<Factor>): (e: Option<FactorError>)
    ensures e == None <==>
      factors != [] && |y| >= |factors| + 2 && forall i :: 0 <= i < |factors| ==> |factors[i].series| == |y|
    ensures e == Some(EmptyPortfolio) <==> y == []
    ensures e == Some(NoFactors) <==> y != [] && factors == []
    ensures e == Some(TooFewObservations) <==> 0 < |y| < |factors| + 2 && factors != []
    ensures e.Some? && e.value.LengthMismatch? ==> |y| >= |factors| + 2 && FirstMismatch(factors, |y|) == e
  {
    if y == [] then Some(EmptyPortfolio)
    else if factors == [] then Some(NoFactors)
    else if |y| < |factors| + 2 then Some(TooFewObservations)
    else FirstMismatch(factors, |y|)
  }

  function FirstMismatch(factors: seq<Factor>, n: nat): (e: Option<FactorError>)
    ensures e == None <==> forall i :: 0 <= i < |factors| ==> |factors[i].series| == n
    ensures e.Some? ==> e.value.LengthMismatch?
    ensures e.Some? ==> exists i :: (
      && 0 <= i < |factors| && |factors[i].series| != n && e.value == LengthMismatch(factors[i].name)
      && forall j :: 0 <= j < i ==> |factors[j].series| == n)
  {
    if factors == [] then None
    else if |factors[0].series| != n then Some(LengthMismatch(factors[0].name))
    else FirstMismatch(factors[1..], n)
  }

  function StandardError(sqrt: real -> real, inverse: Matrix, i: nat, ssRes: real, dof: nat): real
    requires IsSquare(inverse, |inverse|) && i < |inverse|
  {
    var sigma2 := if dof > 0 then ssRes / dof as real else 0.0;
    sqrt(Max(inverse[i][i] * sigma2, 0.0))
  }

  function TStat(beta: real, se: real): real {
    if se > 0.0 then beta / se else 0.0
  }

  /** Every reported number, in terms of the coefficients b = Betas(cols, y, inverse). */
  ghost predicate Reports(d: Decomposition, y: Vec, factors: seq<Factor>, inverse: Matrix, sqrt: real -> real)
    requires |y| >= |factors| + 2
    requires forall i :: 0 <= i < |factors| ==> |factors[i].series| == |y|
    requires IsSquare(inverse, |factors| + 1)
  {
    var cols := Design(|y|, factors);
    var b := Betas(cols, y, inverse);
    var ssRes := ResidualSumOfSquares(cols, y, b);
    var dof := |y| - |factors| - 1;
    && d.alpha == b[0]
    && d.alphaTStat == TStat(b[0], StandardError(sqrt, inverse, 0, ssRes, dof))
    && d.rSquared == RSquared(y, ssRes)
    && |d.exposures| == |factors|
    && (forall i :: 0 <= i < |factors| ==>
          d.exposures[i] == FactorExposure(factors[i].name, b[i + 1],
            TStat(b[i + 1], StandardError(sqrt, inverse, i + 1, ssRes, dof)),
            Contribution(b[i + 1], factors[i].series, y) * 100.0))
    && d.residualRiskPct == Max((1.0 - TotalExplained(cols, b, y, |factors|)) * 100.0, 0.0)
  }

  function Coefficients(d: Decomposition): Vec {
    [d.alpha] + seq(|d.exposures|, i requires 0 <= i < |d.exposures| => d.exposures[i].beta)
  }

  /** What a report means: its coefficients are the only least-squares optimum and R-squared is a share. */
  lemma ReportsOptimal(d: Decomposition, y: Vec, factors: seq<Factor>, inverse: Matrix, sqrt: real -> real)
    requires |y| >= |factors| + 2 && forall i :: 0 <= i < |factors| ==> |factors[i].series| == |y|
    requires IsInverse(Gram(Design(|y|, factors), |y|), inverse, |factors| + 1)
    requires Reports(d, y, factors, inverse, sqrt)
    ensures Coefficients(d) == Betas(Design(|y|, factors), y, inverse)
    ensures 0.0 <= d.rSquared <= 1.0
    ensures IsUniqueOptimum(Design(|y|, factors), y, Coefficients(d))
  {
    var cols := Design(|y|, factors);
    RSquaredIsShare(cols, y, inverse);
    assert Coefficients(d) == Betas(cols, y, inverse);
    forall c: Vec | |c| == |cols|
      ensures ResidualSumOfSquares(cols, y, Betas(cols, y, inverse)) <= ResidualSumOfSquares(cols, y, c)
      ensures ResidualSumOfSquares(cols, y, c) == ResidualSumOfSquares(cols, y, Betas(cols, y, inverse)) ==>
        c == Coefficients(d)
    {
      LeastSquares(cols, y, inverse, c);
    }
  }

  function TStats(d: Decomposition): Vec {
    [d.alphaTStat] + seq(|d.exposures|, i requires 0 <= i < |d.exposures| => d.exposures[i].tStat)
  }

  /** The diagonal of (X'X)^-1 is positive, so that its guard against noise never acts over reals. */
  lemma InverseDiagonalPositive(cols: Matrix, n: nat, inverse: Matrix, i: nat)
    requires HasWidth(cols, n) && IsInverse(Gram(cols, n), inverse, |cols|) && i < |cols|
    ensures inverse[i][i] > 0.0
  {
    hide Dot, Comb, Gram;
    var e := Unit(|cols|, i);
    var v := MatVec(inverse, e);
    var fit := Comb(v, cols, n);
    InverseCancels(Gram(cols, n), inverse, e);
    GramIsNormal(cols, n, v);
    DotComb(v, cols, fit);
    DotUnit(|cols|, i, inverse[i]);
    DotUnit(|cols|, i, v);
    DotSymmetric(inverse[i], e);
    DotSymmetric(v, e);
    DotSelf(fit);
    assert Dot(fit, fit) == inverse[i][i];
    if Dot(fit, fit) == 0.0 {
      assert fit == Const(n, 0.0);
      NothingFitted(cols, n, i);
    }
  }

  lemma NothingFitted(cols: Matrix, n: nat, i: nat)
    requires HasWidth(cols, n) && i < |cols|
    ensures MatVec(cols, Const(n, 0.0))[i] == 0.0
  {
    DotZero(n, cols[i]);
    DotSymmetric(Const(n, 0.0), cols[i]);
  }

  /** Every reported t-statistic: its square is the coefficient's over the variance of the estimate, which
      is the residual sum of squares per degree of freedom times the diagonal of (X'X)^-1, and it has the
      coefficient's sign; a perfect fit reports 0. */
  lemma TStatMeaning(d: Decomposition, y: Vec, factors: seq<Factor>, inverse: Matrix, sqrt: real -> real, i: nat)
    requires |y| >= |factors| + 2 && forall j :: 0 <= j < |factors| ==> |factors[j].series| == |y|
    requires IsInverse(Gram(Design(|y|, factors), |y|), inverse, |factors| + 1)
    requires Reports(d, y, factors, inverse, sqrt) && IsSqrt(sqrt) && i <= |factors|
    ensures |TStats(d)| == |Coefficients(d)| == |factors| + 1 && HasWidth(Design(|y|, factors), |y|)
    ensures var rss := ResidualSumOfSquares(Design(|y|, factors), y, Coefficients(d));
            var c, t := Coefficients(d)[i], TStats(d)[i];
            if rss == 0.0 then t == 0.0
            else
              && t * t * (rss * inverse[i][i]) == c * c * (|y| - |factors| - 1) as real
              && t * c >= 0.0
  {
    hide Betas, ResidualSumOfSquares, Gram, Reports, StandardError, TStat, Coefficients, TStats, IsSqrt, MatMul,
        Identity;
    var cols := Design(|y|, factors);
    var b, dof := Betas(cols, y, inverse), |y| - |factors| - 1;
    var rss := ResidualSumOfSquares(cols, y, b);
    ReportedNumbers(d, y, factors, inverse, sqrt, i);
    InverseDiagonalPositive(cols, |y|, inverse, i);
    SquaresOfResiduals(cols, y, b);
    ErrorMeaning(sqrt, inverse, i, rss, dof);
    ScaledZero(rss, inverse[i][i]);
    TNumbers(b[i], StandardError(sqrt, inverse, i, rss, dof), rss * inverse[i][i], dof as real, TStats(d)[i]);
  }

  lemma ReportedNumbers(d: Decomposition, y: Vec, factors: seq<Factor>, inverse: Matrix, sqrt: real -> real, i: nat)
    requires |y| >= |factors| + 2 && forall j :: 0 <= j < |factors| ==> |factors[j].series| == |y|
    requires IsSquare(inverse, |factors| + 1) && Reports(d, y, factors, inverse, sqrt) && i <= |factors|
    ensures |TStats(d)| == |Coefficients(d)| == |factors| + 1 && HasWidth(Design(|y|, factors), |y|)
    ensures var cols := Design(|y|, factors);
            var b := Betas(cols, y, inverse);
            var rss := ResidualSumOfSquares(cols, y, b);
            && Coefficients(d) == b
            && TStats(d)[i] == TStat(b[i], StandardError(sqrt, inverse, i, rss, |y| - |factors| - 1))
  {
    CoefficientsReported(d, y, factors, inverse, sqrt);
    TStatsReported(d, y, factors, inverse, sqrt, i);
    hide Reports, Coefficients, TStats, Betas, ResidualSumOfSquares, Gram;
  }

  lemma TStatsReported(d: Decomposition, y: Vec, factors: seq<Factor>, inverse: Matrix, sqrt: real -> real, i: nat)
    requires |y| >= |factors| + 2 && forall j :: 0 <= j < |factors| ==> |factors[j].series| == |y|
    requires IsSquare(inverse, |factors| + 1) && Reports(d, y, factors, inverse, sqrt) && i <= |factors|
    ensures |TStats(d)| == |factors| + 1 && |Coefficients(d)| == |factors| + 1 && HasWidth(Design(|y|, factors), |y|)
    ensures var cols := Design(|y|, factors);
            var b := Betas(cols, y, inverse);
            var rss := ResidualSumOfSquares(cols, y, b);
            TStats(d)[i] == TStat(b[i], StandardError(sqrt, inverse, i, rss, |y| - |factors| - 1))
  {
    hide Betas, ResidualSumOfSquares, Contribution, TotalExplained, RSquared, StandardError, TStat, Gram, Const, Max;
    if i > 0 {
      var x := d.exposures[i - 1];
      assert TStats(d)[i] == x.tStat;
    }
  }

  lemma CoefficientsReported(d: Decomposition, y: Vec, factors: seq<Factor>, inverse: Matrix, sqrt: real -> real)
    requires |y| >= |factors| + 2 && forall j :: 0 <= j < |factors| ==> |factors[j].series| == |y|
    requires IsSquare(inverse, |factors| + 1) && Reports(d, y, factors, inverse, sqrt)
    ensures HasWidth(Design(|y|, factors), |y|) && Coefficients(d) == Betas(Design(|y|, factors), y, inverse)
  {
    hide Betas, ResidualSumOfSquares, Contribution, TotalExplained, RSquared, StandardError, TStat, Const;
    var c, b := Coefficients(d), Betas(Design(|y|, factors), y, inverse);
    forall i | 0 < i <= |factors| ensures c[i] == b[i] {
      assert c[i] == d.exposures[i - 1].beta;
    }
  }

  lemma ScaledZero(x: real, g: real)
    requires g > 0.0
    ensures x * g == 0.0 <==> x == 0.0
  {
  }

  lemma SquaresOfResiduals(cols: Matrix, y: Vec, b: Vec)
    requires HasWidth(cols, |y|) && |b| == |cols|
    ensures ResidualSumOfSquares(cols, y, b) >= 0.0
  {
    DotSelf(Residuals(cols, y, b));
  }

  lemma ErrorMeaning(sqrt: real -> real, inverse: Matrix, i: nat, rss: real, dof: nat)
    requires IsSquare(inverse, |inverse|) && i < |inverse| && IsSqrt(sqrt) && dof > 0
    requires rss >= 0.0 && inverse[i][i] > 0.0
    ensures var se := StandardError(sqrt, inverse, i, rss, dof);
            se >= 0.0 && se * se * dof as real == rss * inverse[i][i]
  {
    var g, k, v := inverse[i][i], dof as real, rss / dof as real;
    Quotient(rss, k, v);
    ProductNonNegative(g, v, g * v);
    RootOf(sqrt, g * v);
    assert g * v * k == rss * g;
  }

  lemma TNumbers(c: real, se: real, spread: real, dof: real, t: real)
    requires se >= 0.0 && dof > 0.0 && se * se * dof == spread && t == TStat(c, se)
    ensures spread == 0.0 <==> se == 0.0
    ensures se == 0.0 ==> t == 0.0
    ensures se > 0.0 ==> t * t * spread == c * c * dof && t * c >= 0.0
  {
    if se > 0.0 {
      ProductPositive(se, se, se * se);
      ProductPositive(se * se, dof, spread);
      Quotient(c, se, t);
      assert t * se == c;
      TSquare(t, se, c, dof);
    }
  }

  lemma TSquare(t: real, se: real, c: real, dof: real)
    requires t * se == c && se > 0.0
    ensures t * t * (se * se * dof) == c * c * dof && t * c >= 0.0
  {
    assert t * t * (se * se * dof) == (t * se) * (t * se) * dof;
    SquareSign(t);
    ProductNonNegative(Square(t), se, t * c);
  }

  function Percentages(d: Decomposition): (r: Vec)
    ensures |r| == |d.exposures|
  {
    seq(|d.exposures|, i requires 0 <= i < |d.exposures| => d.exposures[i].contributionPct)
  }

  /** The sum of squares about the mean. */
  function SquaresAboutMean(v: Vec): real
    requires v != []
  {
    Dot(Centered(v), Centered(v))
  }

  /** The reported shares. R-squared is one minus the residual part of the sum of squares about the mean; a
      factor's percentage is the square of its coefficient times its own sum of squares, in the same
      proportion; the residual percentage is what these leave of 100, but not less than 0. A portfolio
      that does not vary reports 0 for all but the last. */
  lemma SharesMeaning(d: Decomposition, y: Vec, factors: seq<Factor>, inverse: Matrix, sqrt: real -> real, i: nat)
    requires |y| >= |factors| + 2 && forall j :: 0 <= j < |factors| ==> |factors[j].series| == |y|
    requires IsSquare(inverse, |factors| + 1) && Reports(d, y, factors, inverse, sqrt) && i < |factors|
    ensures |d.exposures| == |factors| && HasWidth(Design(|y|, factors), |y|)
    ensures var total := SquaresAboutMean(y);
            if total == 0.0 then d.rSquared == 0.0
            else (1.0 - d.rSquared) * total == ResidualSumOfSquares(Design(|y|, factors), y, Coefficients(d))
    ensures var total, x, own := SquaresAboutMean(y), d.exposures[i], SquaresAboutMean(factors[i].series);
            && x.name == factors[i].name
            && if total == 0.0 then x.contributionPct == 0.0
               else x.contributionPct * total == 100.0 * (x.beta * x.beta * own)
    ensures d.residualRiskPct == Max(100.0 - Sum(Percentages(d)), 0.0)
  {
    hide Betas, ResidualSumOfSquares, Contribution, TotalExplained, RSquared, StandardError, TStat, SquaresAboutMean,
        Sum, Percentages, Coefficients, Const;
    CoefficientsReported(d, y, factors, inverse, sqrt);
    var cols := Design(|y|, factors);
    var b := Betas(cols, y, inverse);
    RSquaredMeaning(y, ResidualSumOfSquares(cols, y, b));
    PercentageMeaning(b[i + 1], factors[i].series, y);
    ResidualReported(d, y, factors, inverse, sqrt);
  }

  lemma ResidualReported(d: Decomposition, y: Vec, factors: seq<Factor>, inverse: Matrix, sqrt: real -> real)
    requires |y| >= |factors| + 2 && forall j :: 0 <= j < |factors| ==> |factors[j].series| == |y|
    requires IsSquare(inverse, |factors| + 1) && Reports(d, y, factors, inverse, sqrt)
    ensures d.residualRiskPct == Max(100.0 - Sum(Percentages(d)), 0.0)
  {
    hide Betas, ResidualSumOfSquares, Contribution, TotalExplained, RSquared, StandardError, TStat, Sum, Percentages,
        Const, Max;
    var cols := Design(|y|, factors);
    var b := Betas(cols, y, inverse);
    PercentagesAddUp(d, cols, b, y, |factors|);
    assert Percentages(d)[..|factors|] == Percentages(d);
    assert (1.0 - TotalExplained(cols, b, y, |factors|)) * 100.0 == 100.0 - Sum(Percentages(d));
  }

  lemma RSquaredMeaning(y: Vec, rss: real)
    requires |y| > 0
    ensures var total := SquaresAboutMean(y);
            if total == 0.0 then RSquared(y, rss) == 0.0 else (1.0 - RSquared(y, rss)) * total == rss
  {
    hide Dot;
    var total := Dot(Centered(y), Centered(y));
    DotSelf(Centered(y));
    if total != 0.0 {
      Quotient(rss, total, rss / total);
    }
  }

  lemma PercentageMeaning(beta: real, factor: Vec, y: Vec)
    requires |factor| == |y| > 1
    ensures var total, own := SquaresAboutMean(y), SquaresAboutMean(factor);
            var pct := Contribution(beta, factor, y) * 100.0;
            if total == 0.0 then pct == 0.0 else pct * total == 100.0 * (beta * beta * own)
  {
    hide Dot, Centered;
    var total, own, n := Dot(Centered(y), Centered(y)), Dot(Centered(factor), Centered(factor)), (|y| - 1) as real;
    DotSelf(Centered(y));
    Quotient(total, n, Variance(y));
    if total > 0.0 {
      ShareCancels(beta, own, total, n);
      Quotient(1.0, total, 1.0 / total);
      PercentNumbers(beta, own, total, 1.0 / total, Contribution(beta, factor, y));
    }
  }

  lemma PercentNumbers(b: real, own: real, total: real, q: real, share: real)
    requires q * total == 1.0 && share == q * (b * (b * own))
    ensures share * 100.0 * total == 100.0 * (b * b * own)
  {
    var w := b * (b * own);
    assert w == b * b * own;
    assert share * total == w * (q * total);
  }

  lemma {:induction false} PercentagesAddUp(d: Decomposition, cols: Matrix, b: Vec, y: Vec, k: nat)
    requires HasWidth(cols, |y|) && |b| == |cols| == |d.exposures| + 1 && k < |cols| && |y| > 1
    requires forall i :: 0 <= i < |d.exposures| ==>
      d.exposures[i].contributionPct == Contribution(b[i + 1], cols[i + 1], y) * 100.0
    ensures Sum(Percentages(d)[..k]) == TotalExplained(cols, b, y, k) * 100.0
  {
    hide Contribution;
    if k == 0 {
    } else {
      PercentagesAddUp(d, cols, b, y, k - 1);
      SumSnoc(Percentages(d), k - 1);
      assert Percentages(d)[k - 1] == Contribution(b[k - 1 + 1], cols[k - 1 + 1], y) * 100.0;
    }
  }

  /** The exposure loop: one record per factor and the running total of the contributions. */
  method Exposures(factors: seq<Factor>, y: Vec, betas: Vec, se: Vec)
    returns (exposures: seq<FactorExposure>, totalExplained: real)
    requires |betas| == |se| == |factors| + 1 && |y| > 1
    requires forall i :: 0 <= i < |factors| ==> |factors[i].series| == |y|
    ensures |exposures| == |factors|
    ensures forall i :: 0 <= i < |factors| ==>
      exposures[i] == FactorExposure(factors[i].name, betas[i + 1], TStat(betas[i + 1], se[i + 1]),
                                     Contribution(betas[i + 1], factors[i].series, y) * 100.0)
    ensures HasWidth(Design(|y|, factors), |y|)
    ensures totalExplained == TotalExplained(Design(|y|, factors), betas, y, |factors|)
  {
    ghost var cols := Design(|y|, factors);
    exposures, totalExplained := [], 0.0;
    for i := 0 to |factors|
      invariant |exposures| == i
      invariant totalExplained == TotalExplained(cols, betas, y, i)
      invariant forall j :: 0 <= j < i ==>
        exposures[j] == FactorExposure(factors[j].name, betas[j + 1], TStat(betas[j + 1], se[j + 1]),
                                       Contribution(betas[j + 1], factors[j].series, y) * 100.0)
    {
      var contribution := Contribution(betas[i + 1], factors[i].series, y);
      assert cols[i + 1] == factors[i].series;
      totalExplained := totalExplained + contribution;
      exposures := exposures + [
        FactorExposure(factors[i].name, betas[i + 1], TStat(betas[i + 1], se[i + 1]), contribution * 100.0)];
    }
  }

  /** The regression proper, once the inverse of X'X is known. */
  method Regress(y: Vec, factors: seq<Factor>, inverse: Matrix, sqrt: real -> real) returns (d: Decomposition)
    requires |y| >= |factors| + 2 && forall i :: 0 <= i < |factors| ==> |factors[i].series| == |y|
    requires IsSquare(inverse, |factors| + 1)
    ensures Reports(d, y, factors, inverse, sqrt)
  {
    hide Dot, Comb, Centered, ResidualSumOfSquares, Betas, TotalExplained, RSquared, Contribution;
    var n, k := |y|, |factors|;
    var cols := Design(n, factors);
    var betas := Betas(cols, y, inverse);
    var ssRes := ResidualSumOfSquares(cols, y, betas);
    var dof := n - k - 1;
    var se := seq(k + 1, i requires 0 <= i <= k => StandardError(sqrt, inverse, i, ssRes, dof));
    var exposures, totalExplained := Exposures(factors, y, betas, se);
    d := Decomposition(betas[0], TStat(betas[0], se[0]), RSquared(y, ssRes),
                       exposures, Max((1.0 - totalExplained) * 100.0, 0.0));
  }

  /** decompose: refuses exactly the invalid and the singular inputs; otherwise the reported
      alpha and betas are the unique least-squares coefficients and R-squared lies in [0, 1]. */
  method Decompose(y: Vec, factors: seq<Factor>, inv: Matrix -> Option<Matrix>, sqrt: real -> real)
    returns (result: Result<Decomposition, FactorError>)
    requires IsInverter(inv)
    ensures match ValidateReturns(y, factors)
            case Some(e) => result == Err(e)
            case None =>
              var cols := Design(|y|, factors);
              match inv(Gram(cols, |y|))
              case None => result == Err(Singular)
              case Some(inverse) =>
                result.Ok? && IsInverse(Gram(cols, |y|), inverse, |cols|) &&
                Reports(result.value, y, factors, inverse, sqrt)
    ensures result.Ok? ==>
      var cols, d := Design(|y|, factors), result.value;
      && 0.0 <= d.rSquared <= 1.0
      && HasWidth(cols, |y|) && |d.exposures| == |factors| && IsUniqueOptimum(cols, y, Coefficients(d))
  {
    var invalid := ValidateReturns(y, factors);
    if invalid.Some? {
      return Err(invalid.value);
    }
    var maybe := inv(Gram(Design(|y|, factors), |y|));
    if maybe == None {
      return Err(Singular);
    }
    assert IsInverse(Gram(Design(|y|, factors), |y|), maybe.value, |factors| + 1);
    var d := Regress(y, factors, maybe.value, sqrt);
    ReportsOptimal(d, y, factors, maybe.value, sqrt);
    result := Ok(d);
  }
}
