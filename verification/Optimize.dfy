/** The closed-form mixes of analytics/pae/models/optimize.py, and when they are optimal. */
module Optimize {
  import opened Reals
  import opened Results
  import opened Vectors

  /** Long-only and fully invested. */
  predicate OnSimplex(w: Vec) {
    (forall i :: 0 <= i < |w| ==> w[i] >= 0.0) && Sum(w) == 1.0
  }

  function Divide(u: Vec, c: real): (r: Vec)
    requires c != 0.0
    ensures |r| == |u|
  {
    seq(|u|, i requires 0 <= i < |u| => u[i] / c)
  }

  lemma DivideIsScale(u: Vec, c: real)
    requires c != 0.0
    ensures Divide(u, c) == Scale(1.0 / c, u)
    ensures Sum(Divide(u, c)) == Sum(u) / c
  {
    var l, r := Divide(u, c), Scale(1.0 / c, u);
    forall i | 0 <= i < |u| ensures l[i] == r[i] {
      var x := u[i];
      assert l[i] == x / c && r[i] == 1.0 / c * x;
    }
    assert l == r;
    SumScale(1.0 / c, u);
  }

  function Clip(w: Vec): (r: Vec)
    ensures |r| == |w|
  {
    seq(|w|, i requires 0 <= i < |w| => Max(w[i], 0.0))
  }

  /** _clean_weights. */
  function CleanWeights(w: Vec): (r: Vec)
    requires |w| > 0
  {
    var clipped := Clip(w);
    var total := Sum(clipped);
    if total <= 0.0 then Const(|w|, 1.0 / |w| as real) else Divide(clipped, total)
  }

  /** Cleaning puts any vector on the simplex, and changes it exactly when it was not there already. */
  lemma {:induction false} CleanWeightsProject(w: Vec)
    requires |w| > 0
    ensures |CleanWeights(w)| == |w| && OnSimplex(CleanWeights(w))
    ensures CleanWeights(w) == w <==> OnSimplex(w)
  {
    hide Sum, Divide;
    var clipped := Clip(w);
    var total := Sum(clipped);
    SumNonNegative(clipped);
    if OnSimplex(w) {
      assert clipped == w;
      DivideByOne(w);
    }
    if total <= 0.0 {
      SumConst(|w|, 1.0 / |w| as real);
      Quotient(1.0, |w| as real, 1.0 / |w| as real);
    } else {
      DivideOnSimplex(clipped, total);
    }
  }

  /** What cleaning does, entry by entry: nothing positive gives equal weights; otherwise what is not positive
      becomes 0 and the rest keeps its proportions. */
  lemma {:induction false} CleanWeightsEntries(w: Vec, i: nat, j: nat)
    requires i < |w| && j < |w|
    ensures |CleanWeights(w)| == |w| && Sum(CleanWeights(w)) == 1.0
    ensures (forall k :: 0 <= k < |w| ==> w[k] <= 0.0) ==> CleanWeights(w)[i] == CleanWeights(w)[j]
    ensures w[i] > 0.0 ==>
      && CleanWeights(w)[i] > 0.0
      && (w[j] <= 0.0 ==> CleanWeights(w)[j] == 0.0)
      && (w[j] > 0.0 ==> CleanWeights(w)[i] * w[j] == CleanWeights(w)[j] * w[i])
  {
    hide Sum;
    CleanWeightsProject(w);
    var clipped := Clip(w);
    var total := Sum(clipped);
    SumNonNegative(clipped);
    assert clipped[i] <= total;
    if forall k :: 0 <= k < |w| ==> w[k] <= 0.0 {
      assert clipped == Const(|w|, 0.0);
      SumConst(|w|, 0.0);
    }
    if w[i] > 0.0 {
      PositiveEntries(w, i, j, total);
    }
  }

  lemma PositiveEntries(w: Vec, i: nat, j: nat, total: real)
    requires i < |w| && j < |w| && w[i] > 0.0 && total == Sum(Clip(w)) > 0.0
    ensures |CleanWeights(w)| == |w| && CleanWeights(w)[i] > 0.0
    ensures w[j] <= 0.0 ==> CleanWeights(w)[j] == 0.0
    ensures w[j] > 0.0 ==> CleanWeights(w)[i] * w[j] == CleanWeights(w)[j] * w[i]
  {
    hide Sum, Divide;
    DivideAt(Clip(w), total, i);
    DivideAt(Clip(w), total, j);
    Quotient(w[i], total, w[i] / total);
    SameProportion(w[i], w[j], total);
  }

  lemma SameProportion(x: real, y: real, total: real)
    requires total > 0.0
    ensures x / total * y == y / total * x
  {
    var p, q := x / total, y / total;
    assert p * total == x && q * total == y;
  }

  /** Cleaning a fully invested vector without weights below -eps moves no weight by more than n * eps. */
  lemma {:induction false} CleanedClose(w: Vec, eps: real)
    requires |w| > 0 && Sum(w) == 1.0 && eps >= 0.0 && forall i :: 0 <= i < |w| ==> w[i] >= -eps
    ensures |CleanWeights(w)| == |w|
    ensures forall i :: 0 <= i < |w| ==> Abs(CleanWeights(w)[i] - w[i]) <= |w| as real * eps
  {
    hide Sum, Divide;
    var clipped, lifted, bound := Clip(w), Add(w, Const(|w|, eps)), |w| as real * eps;
    var total := Sum(clipped);
    assert 1.0 <= total <= 1.0 + bound by {
      SumMonotone(w, clipped);
      SumMonotone(clipped, lifted);
      SumAdd(w, Const(|w|, eps));
      SumConst(|w|, eps);
    }
    SumNonNegative(clipped);
    AtLeastOnce(|w| as real, eps, bound);
    forall i | 0 <= i < |w| ensures Abs(CleanWeights(w)[i] - w[i]) <= bound {
      CleanedEntryClose(w, i, clipped[i], total, eps, bound);
    }
  }

  lemma AtLeastOnce(n: real, eps: real, bound: real)
    requires n >= 1.0 && eps >= 0.0 && bound == n * eps
    ensures eps <= bound
  {
    ProductNonNegative(n - 1.0, eps, bound - eps);
  }

  lemma CleanedEntryClose(w: Vec, i: nat, x: real, total: real, eps: real, bound: real)
    requires i < |w| && x == Clip(w)[i] && total == Sum(Clip(w)) && 0.0 <= x <= total && 1.0 <= total <= 1.0 + bound
    requires w[i] >= -eps && eps <= bound
    ensures |CleanWeights(w)| == |w| && Abs(CleanWeights(w)[i] - w[i]) <= bound
  {
    hide Sum, Divide;
    DivideAt(Clip(w), total, i);
    ShareClose(x, total, bound);
    hide Clip;
    assert x == w[i] || (x == 0.0 && w[i] <= 0.0) by { ClipAt(w, i); }
  }

  lemma ClipAt(w: Vec, i: nat)
    requires i < |w|
    ensures Clip(w)[i] == w[i] || (Clip(w)[i] == 0.0 && w[i] <= 0.0)
  {
  }

  lemma DivideAt(u: Vec, c: real, i: nat)
    requires i < |u| && c != 0.0
    ensures Divide(u, c)[i] == u[i] / c
  {
  }

  lemma ShareClose(x: real, total: real, bound: real)
    requires 0.0 <= x <= total && 1.0 <= total <= 1.0 + bound
    ensures 0.0 <= x / total <= x && x - x / total <= bound
  {
    var q := x / total;
    Quotient(x, total, q);
    ProductMonotone(1.0, total, q);
    assert x - q == q * (total - 1.0);
    ProductMonotone(q, 1.0, total - 1.0);
  }

  lemma DivideByOne(w: Vec)
    ensures Divide(w, 1.0) == w
  {
  }

  lemma DivideOnSimplex(u: Vec, total: real)
    requires NonNegative(u) && total == Sum(u) > 0.0
    ensures OnSimplex(Divide(u, total))
  {
    hide Sum;
    DivideIsScale(u, total);
    Quotient(total, total, total / total);
    forall i | 0 <= i < |u| ensures Divide(u, total)[i] >= 0.0 {
      Quotient(u[i], total, u[i] / total);
    }
  }

  // ------------------------------------------------- minimum variance

  function MinVarianceRaw(inverse: Matrix): (r: Vec)
    requires IsSquare(inverse, |inverse|)
    ensures |r| == |inverse|
  {
    MatVec(inverse, Const(|inverse|, 1.0))
  }

  predicate Usable(w: Vec) {
    forall i :: 0 <= i < |w| ==> w[i] >= -0.000000001
  }

  /** _closed_form_min_variance. */
  function ClosedFormMinVariance(cov: Matrix, inv: Matrix -> Option<Matrix>): (r: Option<Vec>)
    requires IsInverter(inv) && |cov| > 0
  {
    match inv(cov)
    case None => None
    case Some(inverse) =>
      assert IsInverse(cov, inverse, |cov|);
      var raw := MinVarianceRaw(inverse);
      var denom := Sum(raw);
      if denom == 0.0 then None
      else if Usable(Divide(raw, denom)) then Some(CleanWeights(Divide(raw, denom)))
      else None
  }

  /** w has the smallest variance among all vectors that sum to 1, short sales included. */
  ghost predicate MinimisesVariance(cov: Matrix, w: Vec)
    requires IsSquare(cov, |w|)
  {
    forall v: Vec :: |v| == |w| && Sum(v) == 1.0 ==> Form(cov, w, w) <= Form(cov, v, v)
  }

  /** raw/denom solves Sigma w = 1/denom, so it is conjugate to every zero-sum direction. */
  lemma MinVarianceConjugate(cov: Matrix, inverse: Matrix, v: Vec)
    requires |v| == |cov| && IsInverse(cov, inverse, |cov|) && Sum(MinVarianceRaw(inverse)) != 0.0
    ensures var w := Divide(MinVarianceRaw(inverse), Sum(MinVarianceRaw(inverse)));
            && Sum(w) == 1.0
            && Form(cov, v, w) == 1.0 / Sum(MinVarianceRaw(inverse)) * Sum(v)
  {
    hide Dot, Sum, Scale, Const;
    var raw := MinVarianceRaw(inverse);
    var denom := Sum(raw);
    var n, q := |cov|, 1.0 / denom;
    DivideIsScale(raw, denom);
    InverseCancels(cov, inverse, Const(n, 1.0));
    MatVecScale(cov, q, raw);
    DotScaleRight(q, Const(n, 1.0), v);
    DotSymmetric(v, Const(n, 1.0));
    DotOnes(v);
  }

  lemma {:induction false} MinVarianceOptimal(cov: Matrix, inverse: Matrix, v: Vec)
    requires |v| == |cov| && IsSymmetric(cov, |cov|) && IsDefinite(cov, |cov|)
    requires IsInverse(cov, inverse, |cov|) && Sum(MinVarianceRaw(inverse)) != 0.0 && Sum(v) == 1.0
    ensures var w := Divide(MinVarianceRaw(inverse), Sum(MinVarianceRaw(inverse)));
            && Form(cov, w, w) <= Form(cov, v, v)
            && (Form(cov, v, v) == Form(cov, w, w) <==> v == w)
  {
    hide Form, Sum, MinVarianceRaw, Divide, IsDefinite;
    var w := Divide(MinVarianceRaw(inverse), Sum(MinVarianceRaw(inverse)));
    var d := Sub(v, w);
    MinVarianceConjugate(cov, inverse, v);
    MinVarianceConjugate(cov, inverse, w);
    FormAdd(cov, v, w, w);
    FormSymmetric(cov, w, d);
    assert Add(w, d) == v;
    FormOfSum(cov, w, d);
    SquareVanishes(cov, d);
    if d == Const(|cov|, 0.0) {
      assert forall i :: 0 <= i < |v| ==> v[i] - w[i] == d[i];
      assert v == w;
    }
  }

  lemma SquareVanishes(cov: Matrix, d: Vec)
    requires IsSquare(cov, |d|) && IsDefinite(cov, |d|)
    ensures Form(cov, d, d) >= 0.0
    ensures Form(cov, d, d) == 0.0 <==> d == Const(|d|, 0.0)
  {
    if d == Const(|d|, 0.0) {
      DotZero(|d|, MatVec(cov, d));
    }
  }

  /** A reported closed-form minimum-variance mix is optimal among all fully invested vectors
      exactly when the unconstrained solution has no negative weight; a solution with a weight in
      [-1e-9, 0) is clipped and then is not the optimum. */
  lemma {:induction false} MinVarianceMixOptimal(cov: Matrix, inv: Matrix -> Option<Matrix>)
    requires |cov| > 0 && IsSymmetric(cov, |cov|) && IsDefinite(cov, |cov|) && IsInverter(inv)
    requires ClosedFormMinVariance(cov, inv).Some?
    ensures var raw := MinVarianceRaw(inv(cov).value);
            var mix := ClosedFormMinVariance(cov, inv).value;
            && |mix| == |cov| && OnSimplex(mix)
            && (MinimisesVariance(cov, mix) <==> NonNegative(Divide(raw, Sum(raw))))
  {
    var inverse := inv(cov).value;
    var raw := MinVarianceRaw(inverse);
    var w, mix := Divide(raw, Sum(raw)), ClosedFormMinVariance(cov, inv).value;
    assert IsInverse(cov, inverse, |cov|);
    MinVarianceConjugate(cov, inverse, w);
    CleanWeightsProject(w);
    if NonNegative(w) {
      forall v: Vec | |v| == |mix| && Sum(v) == 1.0 ensures Form(cov, mix, mix) <= Form(cov, v, v) {
        MinVarianceOptimal(cov, inverse, v);
      }
    }
    if MinimisesVariance(cov, mix) {
      MinVarianceOptimal(cov, inverse, mix);
      assert Form(cov, mix, mix) <= Form(cov, w, w);
      assert mix == w;
    }
  }

  /** What may be reported for a solution raw: an answer exactly when no weight of raw scaled to sum to 1 is
      below -1e-9, then within n * 1e-9 of the scaled solution, and equal to it if no weight is negative. */
  ghost predicate ReportsScaled(answer: Option<Vec>, raw: Vec)
    requires Sum(raw) != 0.0
  {
    && (answer.Some? <==> forall i :: 0 <= i < |raw| ==> raw[i] / Sum(raw) >= -0.000000001)
    && (answer.Some? ==>
          && |answer.value| == |raw|
          && forall i :: 0 <= i < |raw| ==> Abs(answer.value[i] - raw[i] / Sum(raw)) <= |raw| as real * 0.000000001)
    && ((forall i :: 0 <= i < |raw| ==> raw[i] / Sum(raw) >= 0.0) ==>
          answer.Some? && forall i :: 0 <= i < |raw| ==> answer.value[i] == raw[i] / Sum(raw))
  }

  /** What becomes of a solution that is scaled, checked and cleaned. */
  lemma {:induction false} ScaledAnswer(raw: Vec)
    requires |raw| > 0 && Sum(raw) != 0.0
    ensures var w := Divide(raw, Sum(raw)); ReportsScaled(if Usable(w) then Some(CleanWeights(w)) else None, raw)
  {
    hide Sum, CleanWeights;
    var w := Divide(raw, Sum(raw));
    DivideIsScale(raw, Sum(raw));
    Quotient(Sum(raw), Sum(raw), Sum(raw) / Sum(raw));
    assert Sum(w) == 1.0;
    if Usable(w) {
      CleanedClose(w, 0.000000001);
    }
    CleanWeightsProject(w);
  }

  /** The closed form answers for no covariance without inverse, and for none whose solution of
      cov * raw = (1, ..., 1) has sum 0; otherwise it reports that solution. */
  lemma {:induction false} MinVarianceAnswers(cov: Matrix, inv: Matrix -> Option<Matrix>)
    requires IsInverter(inv) && |cov| > 0 && IsSquare(cov, |cov|)
    ensures inv(cov).None? <==> !exists b: Matrix :: IsInverse(cov, b, |cov|)
    ensures inv(cov).None? ==> ClosedFormMinVariance(cov, inv).None?
    ensures inv(cov).Some? ==>
      var raw := MatVec(inv(cov).value, Const(|cov|, 1.0));
      && |raw| == |cov| && MatVec(cov, raw) == Const(|cov|, 1.0)
      && (Sum(raw) == 0.0 ==> ClosedFormMinVariance(cov, inv).None?)
      && (Sum(raw) != 0.0 ==> ReportsScaled(ClosedFormMinVariance(cov, inv), raw))
  {
    hide ReportsScaled;
    if inv(cov).Some? {
      var inverse := inv(cov).value;
      assert IsInverse(cov, inverse, |cov|);
      InverseCancels(cov, inverse, Const(|cov|, 1.0));
      if Sum(MinVarianceRaw(inverse)) != 0.0 {
        ScaledAnswer(MinVarianceRaw(inverse));
      }
    }
  }

  // ---------------------------------------------------- maximum Sharpe

  function Excess(mu: Vec, riskFree: real): (r: Vec)
    ensures |r| == |mu|
  {
    Sub(mu, Const(|mu|, riskFree))
  }

  /** _closed_form_max_sharpe. */
  function ClosedFormMaxSharpe(mu: Vec, cov: Matrix, riskFree: real, inv: Matrix -> Option<Matrix>): (r: Option<Vec>)
    requires IsInverter(inv) && |mu| == |cov| > 0
  {
    var excess := Excess(mu, riskFree);
    if forall i :: 0 <= i < |excess| ==> excess[i] <= 0.0 then None
    else
      match inv(cov)
      case None => None
      case Some(inverse) =>
        assert IsInverse(cov, inverse, |cov|);
        var raw := MatVec(inverse, excess);
        var denom := Sum(raw);
        if denom <= 0.0 then None
        else if Usable(Divide(raw, denom)) then Some(CleanWeights(Divide(raw, denom)))
        else None
  }

  /** No vector has a larger ratio of excess return to volatility: the square-root-free form. */
  ghost predicate MaximisesSharpe(cov: Matrix, excess: Vec, w: Vec)
    requires IsSquare(cov, |w|) && |excess| == |w|
  {
    && Dot(excess, w) >= 0.0
    && forall v: Vec :: |v| == |w| ==>
         Square(Dot(excess, v)) * Form(cov, w, w) <= Square(Dot(excess, w)) * Form(cov, v, v)
  }

  /** raw/denom solves Sigma w = excess/denom. */
  lemma {:induction false} TangencyConjugate(cov: Matrix, inverse: Matrix, excess: Vec, v: Vec)
    requires |v| == |excess| == |cov| && IsInverse(cov, inverse, |cov|) && Sum(MatVec(inverse, excess)) > 0.0
    ensures var denom := Sum(MatVec(inverse, excess));
            var w := Divide(MatVec(inverse, excess), denom);
            Sum(w) == 1.0 && Dot(excess, v) == denom * Form(cov, v, w)
  {
    hide Dot, Sum, Scale, MatVec;
    var raw := MatVec(inverse, excess);
    var denom := Sum(raw);
    var q := 1.0 / denom;
    var w := Divide(raw, denom);
    DivideIsScale(raw, denom);
    InverseCancels(cov, inverse, excess);
    MatVecScale(cov, q, raw);
    DotScaleRight(q, excess, v);
    DotSymmetric(v, excess);
    TimesQuotient(denom, q, Dot(excess, v), Form(cov, v, w));
  }

  lemma TimesQuotient(c: real, q: real, x: real, z: real)
    requires c != 0.0 && q == 1.0 / c && z == q * x
    ensures x == c * z
  {
  }

  /** Cauchy-Schwarz scaled: the numbers behind the Sharpe comparison. */
  lemma SharpeNumbers(k: real, b: real, qw: real, qv: real, x: real, y: real)
    requires qw >= 0.0 && b * b <= qv * qw && x == k * b && y == k * qw
    ensures Square(x) * qw <= Square(y) * qv
  {
    var s := (k * k) * qw;
    SquareSign(k);
    ProductNonNegative(Square(k), qw, s);
    ProductMonotone(b * b, qv * qw, s);
    assert Square(x) * qw == (b * b) * s;
    assert Square(y) * qv == (qv * qw) * s;
  }

  lemma {:induction false} TangencyOptimal(cov: Matrix, inverse: Matrix, excess: Vec)
    requires |excess| == |cov| && IsSymmetric(cov, |cov|) && IsDefinite(cov, |cov|)
    requires IsInverse(cov, inverse, |cov|) && Sum(MatVec(inverse, excess)) > 0.0
    ensures MaximisesSharpe(cov, excess, Divide(MatVec(inverse, excess), Sum(MatVec(inverse, excess))))
  {
    hide Form, Dot, Sum, MatVec, Divide, Square;
    var denom := Sum(MatVec(inverse, excess));
    var w := Divide(MatVec(inverse, excess), denom);
    DefiniteIsSemidefinite(cov, |cov|);
    TangencyConjugate(cov, inverse, excess, w);
    SquareVanishes(cov, w);
    ProductNonNegative(denom, Form(cov, w, w), Dot(excess, w));
    forall v: Vec | |v| == |w|
      ensures Square(Dot(excess, v)) * Form(cov, w, w) <= Square(Dot(excess, w)) * Form(cov, v, v)
    {
      TangencyConjugate(cov, inverse, excess, v);
      CauchySchwarz(cov, v, w);
      SharpeNumbers(denom, Form(cov, v, w), Form(cov, w, w), Form(cov, v, v), Dot(excess, v), Dot(excess, w));
    }
  }

  lemma DefiniteIsSemidefinite(a: Matrix, n: nat)
    requires IsSquare(a, n) && IsDefinite(a, n)
    ensures IsSemidefinite(a, n)
  {
    forall v: Vec | |v| == n ensures Form(a, v, v) >= 0.0 {
      SquareVanishes(a, v);
    }
  }

  /** Two fully invested vectors that both maximise the Sharpe ratio are the same. */
  lemma {:induction false} TangencyUnique(cov: Matrix, inverse: Matrix, excess: Vec, r: Vec)
    requires |r| == |excess| == |cov| && IsSymmetric(cov, |cov|) && IsDefinite(cov, |cov|)
    requires IsInverse(cov, inverse, |cov|) && Sum(MatVec(inverse, excess)) > 0.0
    requires Sum(r) == 1.0 && MaximisesSharpe(cov, excess, r)
    ensures r == Divide(MatVec(inverse, excess), Sum(MatVec(inverse, excess)))
  {
    hide Form, Dot, Sum, MatVec, Divide, Square, Scale, Add;
    var denom := Sum(MatVec(inverse, excess));
    var w := Divide(MatVec(inverse, excess), denom);
    var qw, qr, b := Form(cov, w, w), Form(cov, r, r), Form(cov, r, w);
    TangencyConjugate(cov, inverse, excess, w);
    TangencyConjugate(cov, inverse, excess, r);
    SquareVanishes(cov, w);
    SumConst(|w|, 0.0);
    EqualityNumbers(denom, b, qw, qr, Dot(excess, r), Dot(excess, w));
    ParallelWhenTight(cov, r, w);
  }

  /** Equality in Cauchy-Schwarz forces two fully invested vectors to coincide. */
  lemma {:induction false} ParallelWhenTight(cov: Matrix, r: Vec, w: Vec)
    requires |r| == |w| && IsSymmetric(cov, |w|) && IsDefinite(cov, |w|)
    requires Sum(r) == 1.0 && Sum(w) == 1.0 && Form(cov, w, w) > 0.0
    requires Form(cov, w, w) * Form(cov, r, r) <= Form(cov, r, w) * Form(cov, r, w)
    ensures r == w
  {
    hide Form, Dot, Sum, Quadratic, IsDefinite, Add, Scale;
    var qw, qr, b := Form(cov, w, w), Form(cov, r, r), Form(cov, r, w);
    var d := Add(Scale(qw, r), Scale(-b, w));
    assert Form(cov, d, d) <= 0.0 by {
      FormOfCombination(cov, qw, r, -b, w);
      TightNumbers(qw, b, qr, Form(cov, d, d));
    }
    SquareVanishes(cov, d);
    SameDirection(qw, r, b, w);
  }

  /** If q*r - b*w is 0 and both sum to 1, then q == b and the two vectors coincide. */
  lemma SameDirection(q: real, r: Vec, b: real, w: Vec)
    requires |r| == |w| && q > 0.0 && Sum(r) == 1.0 && Sum(w) == 1.0
    requires Add(Scale(q, r), Scale(-b, w)) == Const(|r|, 0.0)
    ensures r == w
  {
    hide Sum;
    var d := Add(Scale(q, r), Scale(-b, w));
    assert q == b by {
      SumConst(|d|, 0.0);
      SumAdd(Scale(q, r), Scale(-b, w));
      SumScale(q, r);
      SumScale(-b, w);
    }
    forall i | 0 <= i < |r| ensures r[i] == w[i] {
      var x, y := r[i], w[i];
      assert d[i] == q * x + -b * y;
      SameMultiple(q, x, y);
    }
  }

  lemma TightNumbers(qw: real, b: real, qr: real, f: real)
    requires qw > 0.0 && qw * qr <= b * b && f == Quadratic(qr, b, qw, qw, -b)
    ensures f <= 0.0
  {
    assert f == -(qw * (b * b - qw * qr));
    ProductNonNegative(qw, b * b - qw * qr, -f);
  }

  lemma SameMultiple(q: real, x: real, y: real)
    requires q != 0.0 && q * x - q * y == 0.0
    ensures x == y
  {
  }

  lemma EqualityNumbers(k: real, b: real, qw: real, qr: real, x: real, y: real)
    requires k > 0.0 && qw > 0.0 && x == k * b && y == k * qw && Square(y) * qr <= Square(x) * qw
    ensures qw * qr <= b * b
  {
    var s := (k * k) * qw;
    ProductPositive(k, k, k * k);
    ProductPositive(k * k, qw, s);
    assert Square(x) * qw == (b * b) * s;
    assert Square(y) * qr == (qw * qr) * s;
    ProductCancel(qw * qr, b * b, s);
  }

  /** A reported closed-form tangency mix has the largest Sharpe ratio of all vectors exactly when
      the unconstrained solution has no negative weight. */
  lemma {:induction false} MaxSharpeMixOptimal(mu: Vec, cov: Matrix, riskFree: real, inv: Matrix -> Option<Matrix>)
    requires |mu| == |cov| > 0 && IsSymmetric(cov, |cov|) && IsDefinite(cov, |cov|) && IsInverter(inv)
    requires ClosedFormMaxSharpe(mu, cov, riskFree, inv).Some?
    ensures var excess := Excess(mu, riskFree);
            var raw := MatVec(inv(cov).value, excess);
            var mix := ClosedFormMaxSharpe(mu, cov, riskFree, inv).value;
            && |mix| == |cov| && OnSimplex(mix)
            && (MaximisesSharpe(cov, excess, mix) <==> NonNegative(Divide(raw, Sum(raw))))
  {
    var inverse, excess := inv(cov).value, Excess(mu, riskFree);
    assert IsInverse(cov, inverse, |cov|);
    var raw := MatVec(inverse, excess);
    var w, mix := Divide(raw, Sum(raw)), ClosedFormMaxSharpe(mu, cov, riskFree, inv).value;
    TangencyConjugate(cov, inverse, excess, excess);
    CleanWeightsProject(w);
    if NonNegative(w) {
      TangencyOptimal(cov, inverse, excess);
    }
    if MaximisesSharpe(cov, excess, mix) {
      TangencyUnique(cov, inverse, excess, mix);
    }
  }

  /** The closed form answers for no returns of which none beats the risk-free rate, for no covariance without
      inverse, and for none whose solution of cov * raw = excess has no positive sum; otherwise it reports
      that solution. */
  lemma {:induction false} MaxSharpeAnswers(mu: Vec, excess: Vec, cov: Matrix, riskFree: real,
      inv: Matrix -> Option<Matrix>)
    requires IsInverter(inv) && |mu| == |excess| == |cov| > 0 && IsSquare(cov, |cov|)
    requires forall i :: 0 <= i < |mu| ==> excess[i] == mu[i] - riskFree
    ensures inv(cov).None? ==> ClosedFormMaxSharpe(mu, cov, riskFree, inv).None?
    ensures (forall i :: 0 <= i < |mu| ==> mu[i] <= riskFree) ==> ClosedFormMaxSharpe(mu, cov, riskFree, inv).None?
    ensures inv(cov).Some? && (exists i :: 0 <= i < |mu| && mu[i] > riskFree) ==>
      var raw := MatVec(inv(cov).value, excess);
      && |raw| == |cov| && MatVec(cov, raw) == excess
      && (Sum(raw) <= 0.0 ==> ClosedFormMaxSharpe(mu, cov, riskFree, inv).None?)
      && (Sum(raw) > 0.0 ==> ReportsScaled(ClosedFormMaxSharpe(mu, cov, riskFree, inv), raw))
  {
    hide ReportsScaled, CleanWeights, Usable, Divide, Sum;
    assert Excess(mu, riskFree) == excess;
    if inv(cov).Some? && exists i :: 0 <= i < |mu| && mu[i] > riskFree {
      var inverse := inv(cov).value;
      assert IsInverse(cov, inverse, |cov|);
      InverseCancels(cov, inverse, excess);
      if Sum(MatVec(inverse, excess)) > 0.0 {
        ScaledAnswer(MatVec(inverse, excess));
      }
    }
  }

  // ------------------------------------------------ reported statistics

  datatype Stats = Stats(expectedReturn: real, volatility: real, sharpe: real)

  /** _stats. */
  function PortfolioStats(w: Vec, mu: Vec, cov: Matrix, riskFree: real, zeroVol: bool, sqrt: real -> real): Stats
    requires |w| == |mu| && IsSquare(cov, |w|)
  {
    var ret := Dot(w, mu);
    if zeroVol then Stats(ret, 0.0, 0.0)
    else
      var vol := sqrt(Max(Form(cov, w, w), 0.0));
      Stats(ret, vol, if vol > 0.000000000001 then (ret - riskFree) / vol else 0.0)
  }

  /** What is reported: the return, the root of the variance, and the ratio of the excess return to it, where
      a volatility of at most 1e-12, and a covariance known to be zero, give ratio 0. */
  lemma StatsMeaning(w: Vec, mu: Vec, cov: Matrix, riskFree: real, zeroVol: bool, sqrt: real -> real)
    requires |w| == |mu| && IsSquare(cov, |w|) && IsSqrt(sqrt)
    ensures var s := PortfolioStats(w, mu, cov, riskFree, zeroVol, sqrt);
            && s.expectedReturn == Dot(w, mu)
            && s.volatility >= 0.0
            && (zeroVol ==> s.volatility == 0.0)
            && (!zeroVol && Form(cov, w, w) >= 0.0 ==> s.volatility * s.volatility == Form(cov, w, w))
            && (!zeroVol && Form(cov, w, w) < 0.0 ==> s.volatility == 0.0)
            && (s.volatility > 0.000000000001 ==> s.sharpe * s.volatility == Dot(w, mu) - riskFree)
            && (s.volatility <= 0.000000000001 ==> s.sharpe == 0.0)
  {
    hide Form, Dot;
    var f := Max(Form(cov, w, w), 0.0);
    RootOf(sqrt, f);
    SqrtSign(sqrt, f);
    var vol := sqrt(f);
    if vol > 0.000000000001 {
      Quotient(Dot(w, mu) - riskFree, vol, (Dot(w, mu) - riskFree) / vol);
    }
  }

  /** The Sharpe ratio reported for the tangency mix is at least the one reported for any fully
      invested vector, as long as the mix's own volatility clears the 1e-12 floor. */
  lemma {:induction false} ReportedSharpeLargest(w: Vec, v: Vec, mu: Vec, cov: Matrix, riskFree: real,
      sqrt: real -> real)
    requires |w| == |v| == |mu| && IsSymmetric(cov, |w|) && IsSemidefinite(cov, |w|) && IsSqrt(sqrt)
    requires Sum(w) == 1.0 && Sum(v) == 1.0 && MaximisesSharpe(cov, Excess(mu, riskFree), w)
    requires PortfolioStats(w, mu, cov, riskFree, false, sqrt).volatility > 0.000000000001
    ensures PortfolioStats(v, mu, cov, riskFree, false, sqrt).sharpe
            <= PortfolioStats(w, mu, cov, riskFree, false, sqrt).sharpe
  {
    hide Form, Dot, Sum, Excess;
    var excess := Excess(mu, riskFree);
    ExcessReturn(w, mu, riskFree);
    ExcessReturn(v, mu, riskFree);
    var qw, qv := Form(cov, w, w), Form(cov, v, v);
    assert qw >= 0.0 && qv >= 0.0;
    RatioNumbers(Dot(excess, w), sqrt(qw), Dot(excess, v), sqrt(qv));
  }

  lemma ExcessReturn(w: Vec, mu: Vec, riskFree: real)
    requires |w| == |mu| && Sum(w) == 1.0
    ensures Dot(Excess(mu, riskFree), w) == Dot(w, mu) - riskFree
  {
    hide Dot, Sum;
    var flat := Const(|mu|, riskFree);
    DotSub(mu, flat, w);
    DotSymmetric(mu, w);
    assert flat == Scale(riskFree, Const(|mu|, 1.0));
    DotScale(riskFree, Const(|mu|, 1.0), w);
    DotOnes(w);
  }

  lemma RatioNumbers(a: real, s: real, b: real, t: real)
    requires a >= 0.0 && s > 0.0 && t >= 0.0
    requires Square(b) * (s * s) <= Square(a) * (t * t)
    ensures a / s >= 0.0
    ensures t > 0.0 ==> b / t <= a / s
  {
    Quotient(a, s, a / s);
    if t > 0.0 {
      Quotient(b, t, b / t);
      if b <= 0.0 {
        Quotient(-b, t, -b / t);
      } else {
        var x, y := b * s, a * t;
        assert x * x == Square(b) * (s * s);
        assert y * y == Square(a) * (t * t);
        ProductNonNegative(b, s, x);
        ProductNonNegative(a, t, y);
        SquareMonotone(x, y);
        CrossDivide(a, s, b, t);
      }
    }
  }
}
