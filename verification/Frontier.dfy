/** The slots of a result and the efficient frontier (analytics/pae/models/optimize.py). */
module Frontier {
  import opened Reals
  import opened Results
  import opened Vectors
  import opened Optimize

  datatype Method = ClosedForm | Numerical | Fallback

  datatype OptimizeError = SolveFailed

  datatype Mix = Mix(weights: Vec, how: Method)

  /** A numerical solve: a failure is raised, a success is cleaned. */
  function NumericalMix(answer: Option<Vec>, how: Method): (r: Result<Mix, OptimizeError>)
    requires answer.Some? ==> |answer.value| > 0
  {
    match answer
    case None => Err(SolveFailed)
    case Some(x) => Ok(Mix(CleanWeights(x), how))
  }

  function MinVarianceSlot(cov: Matrix, inv: Matrix -> Option<Matrix>,
      answer: Option<Vec>): (r: Result<Mix, OptimizeError>)
    requires IsInverter(inv) && |cov| > 0 && (answer.Some? ==> |answer.value| == |cov|)
  {
    match ClosedFormMinVariance(cov, inv)
    case Some(w) => Ok(Mix(w, ClosedForm))
    case None => NumericalMix(answer, Numerical)
  }

  function MaxSharpeSlot(mu: Vec, cov: Matrix, riskFree: real, inv: Matrix -> Option<Matrix>,
      sharpeAnswer: Option<Vec>, varianceAnswer: Option<Vec>): (r: Result<Mix, OptimizeError>)
    requires IsInverter(inv) && |mu| == |cov| > 0
    requires sharpeAnswer.Some? ==> |sharpeAnswer.value| == |cov|
    requires varianceAnswer.Some? ==> |varianceAnswer.value| == |cov|
  {
    match ClosedFormMaxSharpe(mu, cov, riskFree, inv)
    case Some(w) => Ok(Mix(w, ClosedForm))
    case None =>
      if forall i :: 0 <= i < |mu| ==> mu[i] - riskFree <= 0.0 then
        match MinVarianceSlot(cov, inv, varianceAnswer)
        case Ok(mix) => Ok(Mix(mix.weights, Fallback))
        case Err(e) => Err(e)
      else NumericalMix(sharpeAnswer, Numerical)
  }

  /** Whatever the solver answers, every reported mix is long-only and fully invested; and when no
      asset beats the risk-free rate the maximum-Sharpe slot carries the minimum-variance weights. */
  lemma {:induction false} SlotsOnSimplex(mu: Vec, cov: Matrix, riskFree: real, inv: Matrix -> Option<Matrix>,
      sharpeAnswer: Option<Vec>, varianceAnswer: Option<Vec>)
    requires IsInverter(inv) && |mu| == |cov| > 0
    requires sharpeAnswer.Some? ==> |sharpeAnswer.value| == |cov|
    requires varianceAnswer.Some? ==> |varianceAnswer.value| == |cov|
    ensures var minVariance := MinVarianceSlot(cov, inv, varianceAnswer);
            minVariance.Ok? ==> |minVariance.value.weights| == |cov| && OnSimplex(minVariance.value.weights)
    ensures var maxSharpe := MaxSharpeSlot(mu, cov, riskFree, inv, sharpeAnswer, varianceAnswer);
            maxSharpe.Ok? ==> |maxSharpe.value.weights| == |cov| && OnSimplex(maxSharpe.value.weights)
    ensures (forall i :: 0 <= i < |mu| ==> mu[i] - riskFree <= 0.0) ==>
      match (MaxSharpeSlot(mu, cov, riskFree, inv, sharpeAnswer, varianceAnswer),
          MinVarianceSlot(cov, inv, varianceAnswer))
      case (Ok(s), Ok(m)) => s == Mix(m.weights, Fallback)
      case (Err(_), Err(_)) => true
      case _ => false
  {
    hide Sum, OnSimplex, CleanWeights;
    CleanedOnSimplex(varianceAnswer);
    CleanedOnSimplex(sharpeAnswer);
    match inv(cov) {
      case None =>
      case Some(inverse) =>
        assert IsInverse(cov, inverse, |cov|);
        var raw := MinVarianceRaw(inverse);
        if Sum(raw) != 0.0 { CleanWeightsProject(Divide(raw, Sum(raw))); }
        var tangency := MatVec(inverse, Excess(mu, riskFree));
        if Sum(tangency) != 0.0 { CleanWeightsProject(Divide(tangency, Sum(tangency))); }
    }
  }

  /** Some multiple of raw is fully invested and has no weight below -1e-9. */
  ghost predicate IsLongOnly(raw: Vec) {
    Sum(raw) != 0.0 && forall i :: 0 <= i < |raw| ==> raw[i] / Sum(raw) >= -0.000000001
  }

  /** Which mix fills the minimum-variance slot: the closed form if its solution is long-only, and otherwise
      the solver's answer, cleaned, if there is one. */
  lemma {:induction false} MinVarianceSlotHolds(cov: Matrix, inv: Matrix -> Option<Matrix>, answer: Option<Vec>)
    requires IsInverter(inv) && |cov| > 0 && IsSquare(cov, |cov|) && (answer.Some? ==> |answer.value| == |cov|)
    ensures var slot := MinVarianceSlot(cov, inv, answer);
            if inv(cov).Some? && IsLongOnly(MatVec(inv(cov).value, Const(|cov|, 1.0))) then
              && slot.Ok? && slot.value.how == ClosedForm
              && ReportsScaled(Some(slot.value.weights), MatVec(inv(cov).value, Const(|cov|, 1.0)))
            else
              match answer
              case None => slot == Err(SolveFailed)
              case Some(x) => slot == Ok(Mix(CleanWeights(x), Numerical))
  {
    hide ClosedFormMinVariance, Sum, MatVec, CleanWeights, IsInverter;
    MinVarianceAnswers(cov, inv);
  }

  /** Which mix fills the maximum-Sharpe slot: the closed form if some asset beats the risk-free rate and its
      solution is long-only with a positive sum; the minimum-variance mix if no asset does; and otherwise the
      solver's answer, cleaned, if there is one. */
  lemma {:induction false} MaxSharpeSlotHolds(mu: Vec, excess: Vec, cov: Matrix, riskFree: real,
      inv: Matrix -> Option<Matrix>, sharpeAnswer: Option<Vec>, varianceAnswer: Option<Vec>)
    requires IsInverter(inv) && |mu| == |excess| == |cov| > 0 && IsSquare(cov, |cov|)
    requires forall i :: 0 <= i < |mu| ==> excess[i] == mu[i] - riskFree
    requires sharpeAnswer.Some? ==> |sharpeAnswer.value| == |cov|
    requires varianceAnswer.Some? ==> |varianceAnswer.value| == |cov|
    ensures var slot := MaxSharpeSlot(mu, cov, riskFree, inv, sharpeAnswer, varianceAnswer);
            if forall i :: 0 <= i < |mu| ==> mu[i] <= riskFree then
              match MinVarianceSlot(cov, inv, varianceAnswer)
              case Err(e) => slot == Err(e)
              case Ok(mix) => slot == Ok(Mix(mix.weights, Fallback))
            else if inv(cov).Some? && Sum(MatVec(inv(cov).value, excess)) > 0.0
                    && IsLongOnly(MatVec(inv(cov).value, excess)) then
              && slot.Ok? && slot.value.how == ClosedForm
              && ReportsScaled(Some(slot.value.weights), MatVec(inv(cov).value, excess))
            else
              match sharpeAnswer
              case None => slot == Err(SolveFailed)
              case Some(x) => slot == Ok(Mix(CleanWeights(x), Numerical))
  {
    hide ClosedFormMaxSharpe, MinVarianceSlot, Sum, MatVec, CleanWeights, IsInverter;
    MaxSharpeAnswers(mu, excess, cov, riskFree, inv);
    assert (forall i :: 0 <= i < |mu| ==> mu[i] <= riskFree)
      <==> forall i :: 0 <= i < |mu| ==> mu[i] - riskFree <= 0.0;
  }

  lemma {:induction false} CleanedOnSimplex(answer: Option<Vec>)
    ensures answer.Some? && |answer.value| > 0 ==>
      |CleanWeights(answer.value)| == |answer.value| && OnSimplex(CleanWeights(answer.value))
  {
    if answer.Some? && |answer.value| > 0 {
      CleanWeightsProject(answer.value);
    }
  }

  // ----------------------------------------------------------- the frontier

  datatype FrontierPoint = FrontierPoint(expectedReturn: real, volatility: real, weights: Vec)

  /** np.argmax: the first index of the largest entry. */
  function ArgMax(v: Vec): (k: nat)
    requires |v| > 0
    ensures k < |v| && (forall i :: 0 <= i < |v| ==> v[i] <= v[k]) && forall i :: 0 <= i < k ==> v[i] < v[k]
  {
    if |v| == 1 then 0
    else
      var rest := ArgMax(v[..|v| - 1]);
      if v[rest] < v[|v| - 1] then |v| - 1 else rest
  }

  lemma UnitOnSimplex(n: nat, k: nat)
    requires k < n
    ensures OnSimplex(Unit(n, k))
  {
    DotUnit(n, k, Const(n, 1.0));
    DotSymmetric(Unit(n, k), Const(n, 1.0));
    DotOnes(Unit(n, k));
  }

  lemma {:induction false} WeightedAverageBound(w: Vec, mu: Vec, top: real)
    requires |w| == |mu| && NonNegative(w) && forall i :: 0 <= i < |mu| ==> mu[i] <= top
    ensures Dot(w, mu) <= top * Sum(w)
  {
    if w == [] {
    } else {
      WeightedAverageBound(w[1..], mu[1..], top);
      ProductMonotone(mu[0], top, w[0]);
      assert top * (w[0] + Sum(w[1..])) == top * w[0] + top * Sum(w[1..]);
    }
  }

  /** No long-only mix earns more than everything in the best asset. */
  lemma BestAssetReturn(w: Vec, mu: Vec)
    requires |w| == |mu| > 0 && OnSimplex(w)
    ensures Dot(w, mu) <= Dot(Unit(|mu|, ArgMax(mu)), mu)
  {
    WeightedAverageBound(w, mu, mu[ArgMax(mu)]);
    DotUnit(|mu|, ArgMax(mu), mu);
  }

  function Point(w: Vec, mu: Vec, cov: Matrix, riskFree: real, zeroVol: bool, sqrt: real -> real): FrontierPoint
    requires |w| == |mu| && IsSquare(cov, |w|)
  {
    var s := PortfolioStats(w, mu, cov, riskFree, zeroVol, sqrt);
    FrontierPoint(s.expectedReturn, s.volatility, w)
  }

  /** np.linspace(low, high, n)[k]: the way from low to high in n - 1 equal parts, k of them gone. */
  function Target(low: real, high: real, n: nat, k: nat): (t: real)
    requires n > 1
    ensures t * (n - 1) as real == (n - 1 - k) as real * low + k as real * high
    ensures (k == 0 ==> t == low) && (k == n - 1 ==> t == high)
  {
    EvenParts(low, high, (n - 1) as real, k as real, (high - low) / (n - 1) as real);
    low + k as real * ((high - low) / (n - 1) as real)
  }

  lemma EvenParts(low: real, high: real, m: real, k: real, step: real)
    requires m > 0.0 && step == (high - low) / m
    ensures (low + k * step) * m == (m - k) * low + k * high
    ensures k == m ==> low + k * step == high
  {
    Quotient(high - low, m, step);
    assert (k * step) * m == k * (high - low);
  }

  /** One interior point: the cleaned answer of the solve that starts at the previous point, or that
      point again when the solve fails. */
  function NextWeights(solver: (real, Vec) -> Option<Vec>, target: real, previous: Vec): Vec
    requires forall x :: solver(target, previous) == Some(x) ==> |x| > 0
  {
    match solver(target, previous)
    case None => previous
    case Some(x) => CleanWeights(x)
  }

  ghost predicate ReturnsPortfolios(solver: (real, Vec) -> Option<Vec>, n: nat) {
    forall t: real, w: Vec :: solver(t, w).Some? ==> |solver(t, w).value| == n
  }

  /** w has the smallest variance of all long-only, fully invested vectors: what both the closed form
      without negative weights and the numerical fallback are after. */
  ghost predicate MinimisesOnSimplex(cov: Matrix, w: Vec)
    requires IsSquare(cov, |w|)
  {
    OnSimplex(w) && forall v: Vec :: |v| == |w| && OnSimplex(v) ==> Form(cov, w, w) <= Form(cov, v, v)
  }

  /** w has the smallest variance of the long-only mixes with its return. */
  ghost predicate LeastAtItsReturn(mu: Vec, cov: Matrix, w: Vec)
    requires |mu| == |w| && IsSquare(cov, |w|)
  {
    OnSimplex(w) && forall v: Vec ::
      |v| == |w| && OnSimplex(v) && Dot(v, mu) == Dot(w, mu) ==> Form(cov, w, w) <= Form(cov, v, v)
  }

  /** What the solver is for: an answer is a least-variance long-only mix with exactly the target return. */
  ghost predicate SolvesTargets(solver: (real, Vec) -> Option<Vec>, mu: Vec, cov: Matrix)
    requires IsSquare(cov, |mu|)
  {
    forall t: real, w: Vec :: solver(t, w).Some? ==>
      var x := solver(t, w).value; |x| == |mu| && Dot(x, mu) == t && LeastAtItsReturn(mu, cov, x)
  }

  /** s * u + t * v. */
  function Blend(s: real, u: Vec, t: real, v: Vec): (r: Vec)
    requires |u| == |v|
    ensures |r| == |u|
  {
    Add(Scale(s, u), Scale(t, v))
  }

  lemma BlendOnSimplex(mu: Vec, s: real, u: Vec, t: real, v: Vec, mid: real)
    requires |u| == |v| == |mu| && OnSimplex(u) && OnSimplex(v) && s >= 0.0 && t >= 0.0 && s + t == 1.0
    requires Times(s, Dot(u, mu)) + Times(t, Dot(v, mu)) == mid
    ensures OnSimplex(Blend(s, u, t, v)) && Dot(Blend(s, u, t, v), mu) == mid
  {
    hide Sum, Dot, Times, Blend;
    BlendNonNegative(s, u, t, v);
    BlendSum(s, u, t, v);
    BlendDot(mu, s, u, t, v);
  }

  lemma BlendNonNegative(s: real, u: Vec, t: real, v: Vec)
    requires |u| == |v| && NonNegative(u) && NonNegative(v) && s >= 0.0 && t >= 0.0
    ensures NonNegative(Blend(s, u, t, v))
  {
    forall i | 0 <= i < |u| ensures Blend(s, u, t, v)[i] >= 0.0 {
      ProductNonNegative(s, u[i], Scale(s, u)[i]);
      ProductNonNegative(t, v[i], Scale(t, v)[i]);
    }
  }

  lemma BlendSum(s: real, u: Vec, t: real, v: Vec)
    requires |u| == |v| && Sum(u) == 1.0 == Sum(v)
    ensures Sum(Blend(s, u, t, v)) == s + t
  {
    hide Sum, Scale, Add;
    SumAdd(Scale(s, u), Scale(t, v));
    SumScale(s, u);
    SumScale(t, v);
  }

  lemma BlendDot(mu: Vec, s: real, u: Vec, t: real, v: Vec)
    requires |u| == |v| == |mu|
    ensures Dot(Blend(s, u, t, v), mu) == Times(s, Dot(u, mu)) + Times(t, Dot(v, mu))
  {
    hide Dot, Scale, Add;
    DotAdd(Scale(s, u), Scale(t, v), mu);
    DotScale(s, u, mu);
    DotScale(t, v, mu);
  }

  /** The variance is convex, so no blend has more of it than the riskier of the two. */
  lemma BlendVariance(cov: Matrix, s: real, u: Vec, t: real, v: Vec)
    requires IsSymmetric(cov, |u|) && IsSemidefinite(cov, |u|) && |u| == |v| && s >= 0.0 && t >= 0.0 && s + t == 1.0
    requires Form(cov, u, u) <= Form(cov, v, v)
    ensures var x := Blend(s, u, t, v); Form(cov, x, x) <= Form(cov, v, v)
  {
    assert IsSquare(cov, |u|);
    hide Form, IsSymmetric, Quadratic;
    var a, b, c := Form(cov, u, u), Form(cov, u, v), Form(cov, v, v);
    FormOfCombination(cov, s, u, t, v);
    FormOfCombination(cov, 1.0, u, -1.0, v);
    ConvexNumbers(a, b, c, s, t);
  }

  lemma ConvexNumbers(a: real, b: real, c: real, s: real, t: real)
    requires s >= 0.0 && t >= 0.0 && s + t == 1.0 && a <= c && Quadratic(a, b, c, 1.0, -1.0) >= 0.0
    ensures Quadratic(a, b, c, s, t) <= c
  {
    ProductMonotone(a, c, s);
    assert s * c + t * c == c by { assert (s + t) * c == s * c + t * c; }
    var p, d := s * t, a - 2.0 * b + c;
    ProductNonNegative(s, t, p);
    ProductNonNegative(p, d, p * d);
    assert s * s == s - p && t * t == t - p by { assert s * s + p == s * (s + t) && t * t + p == t * (s + t); }
    assert (s - p) * a + 2.0 * (p * b) + (t - p) * c == s * a + t * c - p * d;
  }

  /** To the right of the minimum-variance mix, more return costs at least as much variance. */
  lemma {:induction false} MoreReturnMoreVariance(mu: Vec, cov: Matrix, first: Vec, u: Vec, v: Vec)
    requires |mu| == |first| == |u| == |v| && IsSquare(cov, |mu|) && IsSymmetric(cov, |mu|) && IsSemidefinite(cov, |mu|)
    requires MinimisesOnSimplex(cov, first) && LeastAtItsReturn(mu, cov, u) && OnSimplex(v)
    requires Dot(first, mu) <= Dot(u, mu) <= Dot(v, mu)
    ensures Form(cov, u, u) <= Form(cov, v, v)
  {
    hide *;
    FirstIsLeast(cov, first, v);
    var low, mid, high := Dot(first, mu), Dot(u, mu), Dot(v, mu);
    if low == high {
      LeastOfAll(mu, cov, u, first);
    } else {
      var t := Fraction(low, mid, high);
      var x := Blend(1.0 - t, first, t, v);
      BlendOnSimplex(mu, 1.0 - t, first, t, v, mid);
      BlendVariance(cov, 1.0 - t, first, t, v);
      LeastOfAll(mu, cov, u, x);
    }
  }

  lemma FirstIsLeast(cov: Matrix, first: Vec, v: Vec)
    requires IsSquare(cov, |first|) && |v| == |first| && MinimisesOnSimplex(cov, first) && OnSimplex(v)
    ensures OnSimplex(first) && Form(cov, first, first) <= Form(cov, v, v)
  {
    hide Form, OnSimplex;
  }

  lemma LeastOfAll(mu: Vec, cov: Matrix, w: Vec, v: Vec)
    requires |mu| == |w| == |v| && IsSquare(cov, |w|) && LeastAtItsReturn(mu, cov, w)
    requires OnSimplex(v) && Dot(v, mu) == Dot(w, mu)
    ensures Form(cov, w, w) <= Form(cov, v, v)
  {
    hide Form, Dot, OnSimplex;
  }

  /** Where mid stands between low and high. */
  lemma Fraction(low: real, mid: real, high: real) returns (t: real)
    requires low <= mid <= high && low < high
    ensures 0.0 <= t <= 1.0 && Times(1.0 - t, low) + Times(t, high) == mid
  {
    t := (mid - low) / (high - low);
    Quotient(mid - low, high - low, t);
    assert t * high - t * low == mid - low by { assert t * (high - low) == t * high - t * low; }
  }

  /** The points as the loop leaves them: the minimum-variance mix, one solve for each inner target from
      the point before it, and everything in the best asset. */
  ghost predicate IsFrontier(points: seq<FrontierPoint>, mu: Vec, cov: Matrix, riskFree: real, minVariance: Vec,
      n: nat, zeroVol: bool, sqrt: real -> real, solver: (real, Vec) -> Option<Vec>)
    requires |mu| == |minVariance| > 0 && IsSquare(cov, |mu|) && n >= 2 && ReturnsPortfolios(solver, |mu|)
  {
    var low, high := Dot(minVariance, mu), mu[ArgMax(mu)];
    && |points| == (if high - low < 0.000000000001 then 2 else n)
    && points[0] == Point(minVariance, mu, cov, riskFree, zeroVol, sqrt)
    && points[|points| - 1] == Point(Unit(|mu|, ArgMax(mu)), mu, cov, riskFree, zeroVol, sqrt)
    && (forall k :: 1 <= k < |points| - 1 ==>
          points[k].weights == NextWeights(solver, Target(low, high, n, k), points[k - 1].weights))
    && forall k :: 0 <= k < |points| ==>
         && |points[k].weights| == |mu| && OnSimplex(points[k].weights)
         && points[k] == Point(points[k].weights, mu, cov, riskFree, zeroVol, sqrt)
  }

  /** Returns and volatilities never fall from one point to a later one. */
  predicate Ascends(points: seq<FrontierPoint>) {
    forall k, l :: 0 <= k <= l < |points| ==>
      points[k].expectedReturn <= points[l].expectedReturn && points[k].volatility <= points[l].volatility
  }

  /** _efficient_frontier: every point is on the simplex and none earns more than the last; the
      first point is the minimum-variance mix, the last is all in the best asset, and each interior
      point solves for its own evenly spaced target, starting from the point before it. */
  method EfficientFrontier(mu: Vec, cov: Matrix, riskFree: real, minVariance: Vec, n: nat, zeroVol: bool,
      sqrt: real -> real, solver: (real, Vec) -> Option<Vec>)
    returns (points: seq<FrontierPoint>)
    requires |mu| == |minVariance| > 0 && IsSquare(cov, |mu|) && OnSimplex(minVariance) && n >= 2
    requires ReturnsPortfolios(solver, |mu|)
    ensures IsFrontier(points, mu, cov, riskFree, minVariance, n, zeroVol, sqrt, solver)
    ensures forall k :: 0 <= k < |points| ==> points[k].expectedReturn <= points[|points| - 1].expectedReturn
  {
    hide Sum, Dot, Form, OnSimplex, CleanWeights, PortfolioStats;
    var low := Dot(minVariance, mu);
    var topIndex := ArgMax(mu);
    var high := mu[topIndex];
    var best := Unit(|mu|, topIndex);
    UnitOnSimplex(|mu|, topIndex);
    points := [Point(minVariance, mu, cov, riskFree, zeroVol, sqrt)];
    if !(high - low < 0.000000000001) && n != 2 {
      var previous := minVariance;
      for k := 1 to n - 1
        invariant |points| == k && previous == points[k - 1].weights
        invariant points[0] == Point(minVariance, mu, cov, riskFree, zeroVol, sqrt)
        invariant forall j :: 0 <= j < k ==> |points[j].weights| == |mu| && OnSimplex(points[j].weights)
        invariant forall j :: 0 <= j < k ==> points[j] == Point(points[j].weights, mu, cov, riskFree, zeroVol, sqrt)
        invariant forall j :: 1 <= j < k ==>
          points[j].weights == NextWeights(solver, Target(low, high, n, j), points[j - 1].weights)
      {
        CleanedOnSimplex(solver(Target(low, high, n, k), previous));
        var w := NextWeights(solver, Target(low, high, n, k), previous);
        previous := w;
        points := points + [Point(w, mu, cov, riskFree, zeroVol, sqrt)];
      }
    }
    points := points + [Point(best, mu, cov, riskFree, zeroVol, sqrt)];
    forall k | 0 <= k < |points| ensures points[k].expectedReturn <= points[|points| - 1].expectedReturn {
      BestAssetReturn(points[k].weights, mu);
      StatsReturn(points[k].weights, mu, cov, riskFree, zeroVol, sqrt);
      StatsReturn(best, mu, cov, riskFree, zeroVol, sqrt);
    }
  }

  lemma StatsReturn(w: Vec, mu: Vec, cov: Matrix, riskFree: real, zeroVol: bool, sqrt: real -> real)
    requires |w| == |mu| && IsSquare(cov, |w|)
    ensures PortfolioStats(w, mu, cov, riskFree, zeroVol, sqrt).expectedReturn == Dot(w, mu)
  {
  }

  lemma MinimisesVarianceOnSimplex(cov: Matrix, w: Vec)
    requires IsSquare(cov, |w|) && MinimisesVariance(cov, w) && OnSimplex(w)
    ensures MinimisesOnSimplex(cov, w)
  {
    hide Form, Sum;
  }

  lemma TargetsAscend(low: real, high: real, n: nat, k: nat)
    requires n > 1 && k > 0 && low <= high
    ensures low <= Target(low, high, n, k - 1) <= Target(low, high, n, k)
  {
    var step := (high - low) / (n - 1) as real;
    Quotient(high - low, (n - 1) as real, step);
    ProductNonNegative((k - 1) as real, step, (k - 1) as real * step);
    assert k as real * step == (k - 1) as real * step + step;
  }

  lemma SolvedTarget(solver: (real, Vec) -> Option<Vec>, mu: Vec, cov: Matrix, target: real, previous: Vec)
    requires IsSquare(cov, |mu|) && |mu| > 0 && SolvesTargets(solver, mu, cov)
    requires |previous| == |mu| && LeastAtItsReturn(mu, cov, previous) && Dot(previous, mu) <= target
    ensures var w := NextWeights(solver, target, previous);
            |w| == |mu| && LeastAtItsReturn(mu, cov, w) && Dot(previous, mu) <= Dot(w, mu) <= target
  {
    hide Sum, Dot, Form, CleanWeights;
    match solver(target, previous)
    case None =>
    case Some(x) => CleanWeightsProject(x);
  }

  /** Up to point k: each has the least variance at its return, and the returns ascend up to the target. */
  lemma {:induction false} InnerPoint(points: seq<FrontierPoint>, mu: Vec, cov: Matrix, riskFree: real,
      minVariance: Vec, n: nat, zeroVol: bool, sqrt: real -> real, solver: (real, Vec) -> Option<Vec>, k: nat)
    requires |mu| == |minVariance| > 0 && IsSquare(cov, |mu|) && n >= 2 && ReturnsPortfolios(solver, |mu|)
    requires IsFrontier(points, mu, cov, riskFree, minVariance, n, zeroVol, sqrt, solver)
    requires SolvesTargets(solver, mu, cov) && MinimisesOnSimplex(cov, minVariance) && k < |points| - 1
    ensures var low, high := Dot(minVariance, mu), mu[ArgMax(mu)];
            var w := points[k].weights;
            && |w| == |mu| && LeastAtItsReturn(mu, cov, w) && low <= Dot(w, mu) <= Target(low, high, n, k)
            && (k > 0 ==> |points[k - 1].weights| == |mu| && Dot(points[k - 1].weights, mu) <= Dot(w, mu))
  {
    hide Sum, Dot, Form, OnSimplex, PortfolioStats, SolvesTargets, NextWeights, Target, ArgMax;
    var low, high := Dot(minVariance, mu), mu[ArgMax(mu)];
    if k == 0 {
      assert points[0].weights == minVariance;
      FirstTarget(low, high, n);
    } else {
      InnerPoint(points, mu, cov, riskFree, minVariance, n, zeroVol, sqrt, solver, k - 1);
      LowAtMostHigh(mu, minVariance);
      TargetsAscend(low, high, n, k);
      SolvedTarget(solver, mu, cov, Target(low, high, n, k), points[k - 1].weights);
    }
  }

  lemma FirstTarget(low: real, high: real, n: nat)
    requires n > 1
    ensures Target(low, high, n, 0) == low
  {
  }

  lemma LowAtMostHigh(mu: Vec, w: Vec)
    requires |mu| == |w| > 0 && OnSimplex(w)
    ensures Dot(w, mu) <= mu[ArgMax(mu)]
  {
    BestAssetReturn(w, mu);
    DotUnit(|mu|, ArgMax(mu), mu);
  }

  lemma {:induction false} ReturnsAscend(points: seq<FrontierPoint>, mu: Vec, cov: Matrix, riskFree: real,
      minVariance: Vec, n: nat, zeroVol: bool, sqrt: real -> real, solver: (real, Vec) -> Option<Vec>, k: nat, l: nat)
    requires |mu| == |minVariance| > 0 && IsSquare(cov, |mu|) && n >= 2 && ReturnsPortfolios(solver, |mu|)
    requires IsFrontier(points, mu, cov, riskFree, minVariance, n, zeroVol, sqrt, solver)
    requires SolvesTargets(solver, mu, cov) && MinimisesOnSimplex(cov, minVariance) && k <= l < |points|
    ensures |points[k].weights| == |points[l].weights| == |mu|
    ensures Dot(points[k].weights, mu) <= Dot(points[l].weights, mu)
    decreases l
  {
    hide Sum, Dot, Form, OnSimplex, PortfolioStats, SolvesTargets, NextWeights, Target, MinimisesOnSimplex,
        LeastAtItsReturn;
    if k == l {
    } else if l == |points| - 1 {
      assert points[l].weights == Unit(|mu|, ArgMax(mu));
      BestAssetReturn(points[k].weights, mu);
    } else {
      ReturnsAscend(points, mu, cov, riskFree, minVariance, n, zeroVol, sqrt, solver, k, l - 1);
      InnerPoint(points, mu, cov, riskFree, minVariance, n, zeroVol, sqrt, solver, l);
    }
  }

  /** With a solver that finds least-variance mixes for its targets (or fails), and a first point of least
      variance, the frontier is efficient: along it neither return nor volatility ever falls. */
  lemma {:induction false} FrontierAscends(points: seq<FrontierPoint>, mu: Vec, cov: Matrix, riskFree: real,
      minVariance: Vec, n: nat, zeroVol: bool, sqrt: real -> real, solver: (real, Vec) -> Option<Vec>)
    requires |mu| == |minVariance| > 0 && IsSymmetric(cov, |mu|) && IsSemidefinite(cov, |mu|) && IsSqrt(sqrt)
    requires n >= 2 && ReturnsPortfolios(solver, |mu|)
    requires IsFrontier(points, mu, cov, riskFree, minVariance, n, zeroVol, sqrt, solver)
    requires SolvesTargets(solver, mu, cov) && MinimisesOnSimplex(cov, minVariance)
    ensures Ascends(points)
  {
    hide Sum, Dot, Form, OnSimplex, SolvesTargets, PortfolioStats, IsSqrt, IsSemidefinite;
    forall k, l | 0 <= k <= l < |points|
      ensures points[k].expectedReturn <= points[l].expectedReturn && points[k].volatility <= points[l].volatility
    {
      var u, v := points[k].weights, points[l].weights;
      ReturnsAscend(points, mu, cov, riskFree, minVariance, n, zeroVol, sqrt, solver, 0, k);
      ReturnsAscend(points, mu, cov, riskFree, minVariance, n, zeroVol, sqrt, solver, k, l);
      StatsReturn(u, mu, cov, riskFree, zeroVol, sqrt);
      StatsReturn(v, mu, cov, riskFree, zeroVol, sqrt);
      if k < l {
        InnerPoint(points, mu, cov, riskFree, minVariance, n, zeroVol, sqrt, solver, k);
        assert points[0].weights == minVariance;
        MoreReturnMoreVariance(mu, cov, minVariance, u, v);
        VolatilityMonotone(u, v, mu, cov, riskFree, zeroVol, sqrt);
      }
    }
  }

  lemma VolatilityMonotone(u: Vec, v: Vec, mu: Vec, cov: Matrix, riskFree: real, zeroVol: bool, sqrt: real -> real)
    requires |u| == |v| == |mu| && IsSquare(cov, |u|) && IsSqrt(sqrt) && Form(cov, u, u) <= Form(cov, v, v)
    ensures Point(u, mu, cov, riskFree, zeroVol, sqrt).volatility
            <= Point(v, mu, cov, riskFree, zeroVol, sqrt).volatility
  {
    hide Form, Sum, Dot;
    SqrtMonotone(sqrt, Max(Form(cov, u, u), 0.0), Max(Form(cov, v, v), 0.0));
  }

  /** When the first point has the least variance of the long-only mixes, no frontier point has a smaller
      volatility, whatever the solver does. */
  lemma {:induction false} FirstPointLeastVolatile(first: Vec, w: Vec, mu: Vec, cov: Matrix, riskFree: real,
      zeroVol: bool, sqrt: real -> real)
    requires |first| == |w| == |mu| && IsSquare(cov, |w|) && IsSqrt(sqrt)
    requires MinimisesOnSimplex(cov, first) && OnSimplex(w)
    ensures Point(first, mu, cov, riskFree, zeroVol, sqrt).volatility
            <= Point(w, mu, cov, riskFree, zeroVol, sqrt).volatility
  {
    hide Form, Sum, Dot;
    VolatilityMonotone(first, w, mu, cov, riskFree, zeroVol, sqrt);
  }
}
