/** The Monte Carlo projection (engine/src/risk/montecarlo.rs). The random source is a parameter: any
    table of draws, one for each path and step. What is proved holds of every table, so it does not
    depend on the distribution that the draws come from. */
module MonteCarlo {
  import opened Ordering
  import opened PortfolioSeries
  import opened RankStatistics
  import opened Reals
  import opened Results
  import opened Samples
  import opened Vectors

  const MAX_SIMULATIONS := 1_000_000
  const MAX_HORIZON_MONTHS := 600

  datatype Input = Input(
    holdings: seq<Holding>, numSimulations: Option<nat>, timeHorizonMonths: Option<nat>, initialValue: real)

  datatype Percentiles = Percentiles(p5: Vec, p25: Vec, p50: Vec, p75: Vec, p95: Vec)

  datatype Response = Response(
    percentiles: Percentiles, numSimulations: nat, timeHorizonMonths: nat, probabilityOfLoss: real)

  // ----------------------------------------------------------- the paths

  function Between(low: nat, x: nat, high: nat): (r: nat)
    requires low <= high
    ensures low <= r <= high && (low <= x <= high ==> r == x)
  {
    if x < low then low else if x > high then high else x
  }

  function Simulations(input: Input): (n: nat)
    ensures 1 <= n <= 1_000_000
    ensures match input.numSimulations
            case None => n == 10_000
            case Some(k) => n == k || (k == 0 && n == 1) || (k > 1_000_000 && n == 1_000_000)
  {
    Between(1, if input.numSimulations.Some? then input.numSimulations.value else 10_000, MAX_SIMULATIONS)
  }

  function Horizon(input: Input): (n: nat)
    ensures 1 <= n <= 600
    ensures match input.timeHorizonMonths
            case None => n == 120
            case Some(k) => n == k || (k == 0 && n == 1) || (k > 600 && n == 600)
  {
    Between(1, if input.timeHorizonMonths.Some? then input.timeHorizonMonths.value else 120, MAX_HORIZON_MONTHS)
  }

  function Initial(input: Input): (v: real)
    ensures v > 0.0 && (v == input.initialValue || (v == 1.0 && input.initialValue <= 0.0))
  {
    if input.initialValue <= 0.0 then 1.0 else input.initialValue
  }

  /** The portfolio's returns, or one return of 0 when there are none. */
  function AllReturns(holdings: seq<Holding>): (r: Vec)
    ensures r != []
  {
    if EngineSeries(holdings) == [] then [0.0] else EngineSeries(holdings)
  }

  function Deviation(rets: Vec, sqrt: real -> real): real
    requires rets != []
  {
    sqrt(if |rets| >= 2 then Variance(rets) else 0.0)
  }

  function ClampReturn(r: real): (c: real)
    ensures -0.99 <= c <= 10.0 && (-0.99 <= r <= 10.0 ==> c == r)
  {
    if r < -0.99 then -0.99 else if r > 10.0 then 10.0 else r
  }

  /** One step: the return drawn, clamped, applied. */
  function Next(value: real, mean: real, std: real, z: real): real {
    value * (1.0 + ClampReturn(mean + std * z))
  }

  /** The value of a path after t steps with draws z. */
  function PathValue(initial: real, mean: real, std: real, z: nat -> real, t: nat): real {
    if t == 0 then initial
    else Next(PathValue(initial, mean, std, z, t - 1), mean, std, z(t))
  }

  /** The values of n paths after t steps. */
  function ValuesAt(initial: real, mean: real, std: real, draws: nat -> nat -> real, n: nat, t: nat): (v: Vec)
    ensures |v| == n
  {
    seq(n, i requires 0 <= i < n => PathValue(initial, mean, std, draws(i), t))
  }

  // ------------------------------------------------------------ percentiles

  /** Rounded with halves away from zero, and capped at n - 1. */
  function Rounded(x: real, n: nat): (k: nat)
    requires n > 0 && x >= 0.0
    ensures k < n
  {
    var k := (x + 0.5).Floor;
    if k < n then k else n - 1
  }

  function PercentileIndex(p: real, n: nat): (k: nat)
    requires n > 0 && p >= 0.0
    ensures k < n
  {
    ProductNonNegative(p, (n - 1) as real, Times(p, (n - 1) as real));
    Rounded(Times(p, (n - 1) as real), n)
  }

  function Percentile(sorted: Vec, p: real): (x: real)
    requires p >= 0.0
    ensures sorted == [] ==> x == 0.0
  {
    if sorted == [] then 0.0 else sorted[PercentileIndex(p, |sorted|)]
  }

  function PercentileSeries(initial: real, mean: real, std: real, draws: nat -> nat -> real, n: nat, steps: nat,
      p: real): (r: Vec)
    requires p >= 0.0
    ensures |r| == steps
  {
    seq(steps, t requires 0 <= t < steps => Percentile(Sort(ValuesAt(initial, mean, std, draws, n, t), Leq), p))
  }

  // ---------------------------------------- what paths and percentiles are

  /** 1 + return, the return between -99% and 1000%. */
  function Factor(mean: real, std: real, z: real): real {
    1.0 + Max(-0.99, Min(mean + std * z, 10.0))
  }

  /** The product of the factors over the steps of a path. */
  function Growth(mean: real, std: real, z: nat -> real, t: nat): real {
    if t == 0 then 1.0 else Growth(mean, std, z, t - 1) * Factor(mean, std, z(t))
  }

  lemma {:induction false} PathIsGrowth(initial: real, mean: real, std: real, z: nat -> real, t: nat)
    ensures PathValue(initial, mean, std, z, t) == initial * Growth(mean, std, z, t)
  {
    hide Next, Factor;
    if t == 0 {
    } else {
      PathIsGrowth(initial, mean, std, z, t - 1);
      GrowthStep(initial, PathValue(initial, mean, std, z, t - 1), Growth(mean, std, z, t - 1), mean, std, z(t));
    }
  }

  lemma GrowthStep(initial: real, p: real, g: real, mean: real, std: real, z: real)
    requires p == initial * g
    ensures Next(p, mean, std, z) == initial * (g * Factor(mean, std, z))
  {
    NextIsFactor(p, mean, std, z);
    hide Next, Factor;
    Regroup(initial, g, Factor(mean, std, z));
  }

  lemma Regroup(x: real, y: real, z: real)
    ensures x * y * z == x * (y * z)
  {
  }

  lemma PathNext(initial: real, mean: real, std: real, z: nat -> real, t: nat)
    requires t > 0
    ensures PathValue(initial, mean, std, z, t) == Next(PathValue(initial, mean, std, z, t - 1), mean, std, z(t))
  {
    hide Next;
  }

  lemma PathStart(initial: real, mean: real, std: real, z: nat -> real)
    ensures PathValue(initial, mean, std, z, 0) == initial
  {
  }

  lemma NextIsFactor(value: real, mean: real, std: real, z: real)
    ensures Next(value, mean, std, z) == value * Factor(mean, std, z)
  {
    var x := mean + std * z;
    assert ClampReturn(x) == Max(-0.99, Min(x, 10.0));
  }

  /** Draws of 0 compound the mean. */
  lemma {:induction false} SteadyGrowth(initial: real, mean: real, std: real, z: nat -> real, t: nat)
    requires -0.99 <= mean <= 10.0 && forall s :: z(s) == 0.0
    ensures PathValue(initial, mean, std, z, t) == initial * Pow(1.0 + mean, t)
  {
    if t == 0 {
    } else {
      SteadyGrowth(initial, mean, std, z, t - 1);
      assert z(t) == 0.0 && mean + std * z(t) == mean;
      PowStep(initial, 1.0 + mean, t);
    }
  }

  /** The deviation is the root of the sum of squares about the mean over n - 1; one return has none. */
  lemma DeviationMeaning(rets: Vec, sqrt: real -> real, m: real)
    requires rets != [] && IsSqrt(sqrt) && m * |rets| as real == Sum(rets)
    ensures var d, about := Deviation(rets, sqrt), Sub(rets, Const(|rets|, m));
            d >= 0.0 && d * d * (|rets| - 1) as real == if |rets| == 1 then 0.0 else Dot(about, about)
  {
    hide Sum, Dot, Sub, Variance, IsSqrt;
    if |rets| == 1 {
      SqrtUnique(sqrt, 0.0, 0.0);
    } else {
      MeanUnique(rets, m);
      VarianceNonNegative(rets);
      RootOf(sqrt, Variance(rets));
      VarianceSquares(rets);
    }
  }

  lemma MeanUnique(rets: Vec, m: real)
    requires rets != [] && m * |rets| as real == Sum(rets)
    ensures m == Mean(rets) && Sub(rets, Const(|rets|, m)) == Centered(rets)
  {
    hide Sum, Sub, Const;
    Quotient(Sum(rets), |rets| as real, Mean(rets));
    ProductEqual(m, Mean(rets), |rets| as real);
  }

  lemma VarianceSquares(rets: Vec)
    requires |rets| > 1
    ensures Variance(rets) * (|rets| - 1) as real == Dot(Centered(rets), Centered(rets))
  {
    hide Dot, Centered;
    Quotient(Dot(Centered(rets), Centered(rets)), (|rets| - 1) as real, Variance(rets));
  }

  /** k is the rank nearest to p * (n - 1), halves up, and x the value of that rank. */
  predicate HasRank(values: Vec, p: real, x: real, k: nat)
    requires values != []
  {
    && k as real - 0.5 <= p * (|values| - 1) as real < k as real + 0.5
    && CountBelow(values, x) <= k < CountAtMost(values, x)
  }

  /** x is the value whose rank is nearest to p * (n - 1). */
  ghost predicate NearestRank(values: Vec, p: real, x: real)
    requires values != []
  {
    exists k: nat :: HasRank(values, p, x, k)
  }

  lemma PercentileIsNearestRank(values: Vec, p: real)
    requires values != [] && 0.0 <= p <= 1.0
    ensures NearestRank(values, p, Percentile(Sort(values, Leq), p))
  {
    hide Filter, Sort;
    var s, k := Sort(values, Leq), PercentileIndex(p, |values|);
    SortAscends(values);
    IndexIsNearest(p, |values|);
    CountsAround(s, k);
    SortCounts(values, y => y < s[k]);
    SortCounts(values, y => y <= s[k]);
    assert HasRank(values, p, s[k], k);
  }

  lemma IndexIsNearest(p: real, n: nat)
    requires n > 0 && 0.0 <= p <= 1.0
    ensures PercentileIndex(p, n) as real - 0.5 <= p * (n - 1) as real < PercentileIndex(p, n) as real + 0.5
  {
    var m := (n - 1) as real;
    ProductNonNegative(p, m, p * m);
    ProductMonotone(p, 1.0, m);
    var x := p * m;
    assert (x + 0.5).Floor as real <= x + 0.5 < (x + 0.5).Floor as real + 1.0;
    assert (x + 0.5).Floor < n;
  }

  /** n paths after t steps. */
  function Paths(initial: real, mean: real, std: real, draws: nat -> nat -> real, n: nat, t: nat): (v: Vec)
    ensures |v| == n
  {
    seq(n, i requires 0 <= i < n => initial * Growth(mean, std, draws(i), t))
  }

  /** The series gives, at every step, the p-quantile of the paths. */
  ghost predicate Quantiles(series: Vec, p: real, initial: real, mean: real, std: real, draws: nat -> nat -> real,
      n: nat, steps: nat)
  {
    && n > 0 && |series| == steps
    && forall t :: 0 <= t < steps ==> NearestRank(Paths(initial, mean, std, draws, n, t), p, series[t])
  }

  lemma PathsAreValues(initial: real, mean: real, std: real, draws: nat -> nat -> real, n: nat, t: nat)
    ensures Paths(initial, mean, std, draws, n, t) == ValuesAt(initial, mean, std, draws, n, t)
  {
    hide PathValue, Growth;
    var paths, values := Paths(initial, mean, std, draws, n, t), ValuesAt(initial, mean, std, draws, n, t);
    forall i | 0 <= i < n ensures paths[i] == values[i] {
      PathIsGrowth(initial, mean, std, draws(i), t);
    }
  }

  lemma SeriesOfQuantiles(p: real, initial: real, mean: real, std: real, draws: nat -> nat -> real, n: nat, steps: nat)
    requires n > 0 && 0.0 <= p <= 1.0
    ensures Quantiles(PercentileSeries(initial, mean, std, draws, n, steps, p), p, initial, mean, std, draws, n, steps)
  {
    hide NearestRank, Paths, ValuesAt, Percentile, Sort;
    forall t | 0 <= t < steps
      ensures NearestRank(Paths(initial, mean, std, draws, n, t), p,
                          Percentile(Sort(ValuesAt(initial, mean, std, draws, n, t), Leq), p))
    {
      PathsAreValues(initial, mean, std, draws, n, t);
      PercentileIsNearestRank(Paths(initial, mean, std, draws, n, t), p);
    }
  }

  method FillPaths(initial: real, mean: real, std: real, draws: nat -> nat -> real, n: nat, horizon: nat)
    returns (values: array2<real>)
    ensures fresh(values) && values.Length0 == n && values.Length1 == horizon + 1
    ensures forall i, t :: 0 <= i < n && 0 <= t <= horizon ==>
      values[i, t] == PathValue(initial, mean, std, draws(i), t)
  {
    hide Next, PathValue;
    values := new real[n, horizon + 1]((i, t) => 0.0);
    for i := 0 to n
      invariant forall k, t :: 0 <= k < i && 0 <= t <= horizon ==>
        values[k, t] == PathValue(initial, mean, std, draws(k), t)
    {
      values[i, 0] := initial;
      PathStart(initial, mean, std, draws(i));
      for t := 1 to horizon + 1
        invariant forall k, s :: 0 <= k < i && 0 <= s <= horizon ==>
          values[k, s] == PathValue(initial, mean, std, draws(k), s)
        invariant forall s :: 0 <= s < t ==> values[i, s] == PathValue(initial, mean, std, draws(i), s)
      {
        PathNext(initial, mean, std, draws(i), t);
        values[i, t] := Next(values[i, t - 1], mean, std, draws(i)(t));
      }
    }
  }

  /** The whole response, for every input and every table of draws. */
  method RunSimulation(input: Input, sqrt: real -> real, draws: nat -> nat -> real) returns (r: Response)
    ensures r.numSimulations == Simulations(input) && r.timeHorizonMonths == Horizon(input)
    ensures var rets := AllReturns(input.holdings);
            var x, mean, std, n := Initial(input), Mean(rets), Deviation(rets, sqrt), r.numSimulations;
            var steps := r.timeHorizonMonths + 1;
            && r.percentiles == Percentiles(
                 PercentileSeries(x, mean, std, draws, n, steps, 0.05),
                 PercentileSeries(x, mean, std, draws, n, steps, 0.25),
                 PercentileSeries(x, mean, std, draws, n, steps, 0.5),
                 PercentileSeries(x, mean, std, draws, n, steps, 0.75),
                 PercentileSeries(x, mean, std, draws, n, steps, 0.95))
            && r.probabilityOfLoss
               == CountBelow(ValuesAt(x, mean, std, draws, n, r.timeHorizonMonths), x) as real / n as real
            && Quantiles(r.percentiles.p5, 0.05, x, mean, std, draws, n, steps)
            && Quantiles(r.percentiles.p25, 0.25, x, mean, std, draws, n, steps)
            && Quantiles(r.percentiles.p50, 0.5, x, mean, std, draws, n, steps)
            && Quantiles(r.percentiles.p75, 0.75, x, mean, std, draws, n, steps)
            && Quantiles(r.percentiles.p95, 0.95, x, mean, std, draws, n, steps)
            && r.probabilityOfLoss * n as real
               == CountBelow(Paths(x, mean, std, draws, n, r.timeHorizonMonths), x) as real
  {
    hide *;
    var n, horizon, initial := Simulations(input), Horizon(input), Initial(input);
    var rets := AllReturns(input.holdings);
    var mean, std := Mean(rets), Deviation(rets, sqrt);
    var values := FillPaths(initial, mean, std, draws, n, horizon);
    var p5, p25, p50, p75, p95 := [], [], [], [], [];
    for t := 0 to horizon + 1
      invariant forall i, s :: 0 <= i < n && 0 <= s <= horizon ==>
        values[i, s] == PathValue(initial, mean, std, draws(i), s)
      invariant p5 == PercentileSeries(initial, mean, std, draws, n, t, 0.05)
      invariant p25 == PercentileSeries(initial, mean, std, draws, n, t, 0.25)
      invariant p50 == PercentileSeries(initial, mean, std, draws, n, t, 0.5)
      invariant p75 == PercentileSeries(initial, mean, std, draws, n, t, 0.75)
      invariant p95 == PercentileSeries(initial, mean, std, draws, n, t, 0.95)
    {
      var atT := CollectColumn(values, t);
      ColumnIsValues(atT, initial, mean, std, draws, n, t);
      var sorted := Sort(atT, Leq);
      NextPercentile(initial, mean, std, draws, n, t, 0.05);
      NextPercentile(initial, mean, std, draws, n, t, 0.25);
      NextPercentile(initial, mean, std, draws, n, t, 0.5);
      NextPercentile(initial, mean, std, draws, n, t, 0.75);
      NextPercentile(initial, mean, std, draws, n, t, 0.95);
      p5 := p5 + [Percentile(sorted, 0.05)];
      p25 := p25 + [Percentile(sorted, 0.25)];
      p50 := p50 + [Percentile(sorted, 0.5)];
      p75 := p75 + [Percentile(sorted, 0.75)];
      p95 := p95 + [Percentile(sorted, 0.95)];
    }
    var final := CollectColumn(values, horizon);
    ColumnIsValues(final, initial, mean, std, draws, n, horizon);
    var losses := CountBelow(final, initial);
    PathsAreValues(initial, mean, std, draws, n, horizon);
    Quotient(losses as real, n as real, losses as real / n as real);
    SeriesOfQuantiles(0.05, initial, mean, std, draws, n, horizon + 1);
    SeriesOfQuantiles(0.25, initial, mean, std, draws, n, horizon + 1);
    SeriesOfQuantiles(0.5, initial, mean, std, draws, n, horizon + 1);
    SeriesOfQuantiles(0.75, initial, mean, std, draws, n, horizon + 1);
    SeriesOfQuantiles(0.95, initial, mean, std, draws, n, horizon + 1);
    r := Response(Percentiles(p5, p25, p50, p75, p95), n, horizon, losses as real / n as real);
  }

  method CollectColumn(values: array2<real>, t: nat) returns (v: Vec)
    requires t < values.Length1
    ensures |v| == values.Length0 && forall i :: 0 <= i < values.Length0 ==> v[i] == values[i, t]
  {
    v := [];
    for i := 0 to values.Length0
      invariant |v| == i && forall k :: 0 <= k < i ==> v[k] == values[k, t]
    {
      v := v + [values[i, t]];
    }
  }

  lemma ColumnIsValues(v: Vec, initial: real, mean: real, std: real, draws: nat -> nat -> real, n: nat, t: nat)
    requires |v| == n && forall i :: 0 <= i < n ==> v[i] == PathValue(initial, mean, std, draws(i), t)
    ensures v == ValuesAt(initial, mean, std, draws, n, t)
  {
    hide PathValue;
  }

  lemma NextPercentile(initial: real, mean: real, std: real, draws: nat -> nat -> real, n: nat, t: nat, p: real)
    requires p >= 0.0
    ensures PercentileSeries(initial, mean, std, draws, n, 0, p) == []
    ensures PercentileSeries(initial, mean, std, draws, n, t + 1, p)
            == PercentileSeries(initial, mean, std, draws, n, t, p)
               + [Percentile(Sort(ValuesAt(initial, mean, std, draws, n, t), Leq), p)]
  {
    hide ValuesAt, Percentile, Sort;
  }

  // ------------------------------------------------------------ properties

  /** Whatever is drawn, a path stays positive and between 0.01^t and 11^t times its start. */
  lemma {:induction false} PathWithinBounds(initial: real, mean: real, std: real, z: nat -> real, t: nat)
    requires initial > 0.0
    ensures initial * Pow(0.01, t) <= PathValue(initial, mean, std, z, t) <= initial * Pow(11.0, t)
    ensures PathValue(initial, mean, std, z, t) > 0.0
  {
    hide Next;
    if t == 0 {
    } else {
      PathWithinBounds(initial, mean, std, z, t - 1);
      NextWithinBounds(initial, PathValue(initial, mean, std, z, t - 1), mean, std, z(t), t);
    }
  }

  lemma NextWithinBounds(initial: real, v: real, mean: real, std: real, z: real, t: nat)
    requires t > 0 && v > 0.0 && initial * Pow(0.01, t - 1) <= v <= initial * Pow(11.0, t - 1)
    ensures initial * Pow(0.01, t) <= Next(v, mean, std, z) <= initial * Pow(11.0, t) && Next(v, mean, std, z) > 0.0
  {
    PowStep(initial, 0.01, t);
    PowStep(initial, 11.0, t);
    hide Pow, ClampReturn;
    StepWithinBounds(initial * Pow(0.01, t - 1), v, initial * Pow(11.0, t - 1), 1.0 + ClampReturn(mean + std * z));
  }

  lemma StepWithinBounds(low: real, v: real, high: real, g: real)
    requires low <= v <= high && v > 0.0 && 0.01 <= g <= 11.0
    ensures low * 0.01 <= v * g <= high * 11.0 && v * g > 0.0
  {
    ProductMonotone(0.01, g, v);
    ProductMonotone(g, 11.0, v);
    ProductPositive(v, g, v * g);
  }

  lemma PowStep(initial: real, b: real, t: nat)
    requires t > 0
    ensures initial * Pow(b, t) == initial * Pow(b, t - 1) * b
  {
    var p := Pow(b, t - 1);
    assert Pow(b, t) == b * p;
  }

  lemma RoundedMonotone(x: real, y: real, n: nat)
    requires n > 0 && 0.0 <= x <= y
    ensures Rounded(x, n) <= Rounded(y, n)
  {
  }

  lemma IndexMonotone(p: real, q: real, n: nat)
    requires 0.0 <= p <= q && n > 0
    ensures PercentileIndex(p, n) <= PercentileIndex(q, n)
  {
    hide Rounded;
    var m := (n - 1) as real;
    assert 0.0 <= Times(p, m) <= Times(q, m) by {
      ProductNonNegative(p, m, Times(p, m));
      ProductMonotone(p, q, m);
    }
    hide Times;
    RoundedMonotone(Times(p, m), Times(q, m), n);
  }

  /** Percentiles of the same values come in order. */
  lemma {:induction false} PercentilesInOrder(values: Vec, p: real, q: real)
    requires 0.0 <= p <= q
    ensures Percentile(Sort(values, Leq), p) <= Percentile(Sort(values, Leq), q)
  {
    hide PercentileIndex;
    if values != [] {
      SortAscends(values);
      IndexMonotone(p, q, |values|);
    }
  }

  /** At every step the five reported values are ordered and lie within the bounds of the paths. */
  lemma PercentileBands(initial: real, mean: real, std: real, draws: nat -> nat -> real, n: nat, t: nat)
    requires n > 0 && initial > 0.0
    ensures var s := Sort(ValuesAt(initial, mean, std, draws, n, t), Leq);
            && initial * Pow(0.01, t) <= Percentile(s, 0.05)
            && Percentile(s, 0.05) <= Percentile(s, 0.25) <= Percentile(s, 0.5) <= Percentile(s, 0.75)
                <= Percentile(s, 0.95)
            && Percentile(s, 0.95) <= initial * Pow(11.0, t)
  {
    hide PercentileIndex, PathValue, Pow, Percentile, Sort;
    var values := ValuesAt(initial, mean, std, draws, n, t);
    PercentilesInOrder(values, 0.05, 0.25);
    PercentilesInOrder(values, 0.25, 0.5);
    PercentilesInOrder(values, 0.5, 0.75);
    PercentilesInOrder(values, 0.75, 0.95);
    ValuesWithinBounds(initial, mean, std, draws, n, t);
    PercentileBetween(values, 0.05, initial * Pow(0.01, t), initial * Pow(11.0, t));
    PercentileBetween(values, 0.95, initial * Pow(0.01, t), initial * Pow(11.0, t));
  }

  lemma ValuesWithinBounds(initial: real, mean: real, std: real, draws: nat -> nat -> real, n: nat, t: nat)
    requires initial > 0.0
    ensures var values := ValuesAt(initial, mean, std, draws, n, t);
            forall i :: 0 <= i < n ==> initial * Pow(0.01, t) <= values[i] <= initial * Pow(11.0, t)
  {
    hide PathValue, Pow;
    var values := ValuesAt(initial, mean, std, draws, n, t);
    forall i | 0 <= i < n ensures initial * Pow(0.01, t) <= values[i] <= initial * Pow(11.0, t) {
      PathWithinBounds(initial, mean, std, draws(i), t);
    }
  }

  lemma PercentileBetween(values: Vec, p: real, low: real, high: real)
    requires p >= 0.0 && values != [] && forall i :: 0 <= i < |values| ==> low <= values[i] <= high
    ensures low <= Percentile(Sort(values, Leq), p) <= high
  {
    hide Percentile, Sort;
    PercentileIsValue(values, p);
  }

  lemma PercentileIsValue(values: Vec, p: real)
    requires p >= 0.0 && values != []
    ensures exists i :: 0 <= i < |values| && Percentile(Sort(values, Leq), p) == values[i]
  {
    hide PercentileIndex, Sort;
    var s := Sort(values, Leq);
    SortElements(values, Leq);
    assert s[PercentileIndex(p, |values|)] in s;
  }

  /** In ascending order the element at k is below x exactly when more than k elements are. */
  lemma BelowCount(s: Vec, k: nat, x: real)
    requires Ascending(s) && k < |s|
    ensures s[k] < x <==> CountBelow(s, x) > k
  {
    hide Filter;
    if s[k] < x {
      CountsAround(s, k);
      FilterWider(s, y => y <= s[k], y => y < x);
    } else {
      SplitCount(s, k, y => y < x);
      FilterLength(s[..k], y => y < x);
      FilterLength(s[k..], y => y < x);
    }
  }

  /** The reported percentiles and the probability of loss agree: a final percentile is below the
      initial value exactly when more paths lose than the rank of that percentile. */
  lemma {:induction false} PercentileAndLosses(values: Vec, p: real, initial: real)
    requires values != [] && p >= 0.0
    ensures Percentile(Sort(values, Leq), p) < initial
            <==> CountBelow(values, initial) > PercentileIndex(p, |values|)
    ensures Percentile(Sort(values, Leq), p) < initial
            <==> CountBelow(values, initial) as real / |values| as real
                 > PercentileIndex(p, |values|) as real / |values| as real
  {
    hide PercentileIndex, Filter, Sort;
    var s := Sort(values, Leq);
    SortAscends(values);
    BelowCount(s, PercentileIndex(p, |values|), initial);
    SortCounts(values, y => y < initial);
    QuotientMonotone(PercentileIndex(p, |values|) as real, CountBelow(values, initial) as real, |values| as real);
  }

  /** Without usable returns every path keeps the initial value, and none loses. */
  lemma FlatWithoutReturns(input: Input, sqrt: real -> real, draws: nat -> nat -> real, n: nat, t: nat)
    requires EngineSeries(input.holdings) == [] && IsSqrt(sqrt)
    ensures var rets := AllReturns(input.holdings);
            var values := ValuesAt(Initial(input), Mean(rets), Deviation(rets, sqrt), draws, n, t);
            values == Const(n, Initial(input)) && CountBelow(values, Initial(input)) == 0
  {
    hide EngineSeries, Initial, Filter;
    var rets, x := AllReturns(input.holdings), Initial(input);
    SqrtUnique(sqrt, 0.0, 0.0);
    SumOne(0.0);
    var values := ValuesAt(x, 0.0, 0.0, draws, n, t);
    forall i | 0 <= i < n ensures values[i] == x {
      FlatPath(x, draws(i), t);
    }
    FilterLength(values, y => y < x);
  }

  lemma {:induction false} FlatPath(initial: real, z: nat -> real, t: nat)
    ensures PathValue(initial, 0.0, 0.0, z, t) == initial
  {
    if t == 0 {
    } else {
      FlatPath(initial, z, t - 1);
    }
  }
}
