/** Drawdowns: the engine's one-pass maximum (engine/src/risk/metrics.rs) and the series behind the
    risk chart (analytics/pae/server.py). */
module Drawdown {
  import opened Reals
  import opened Vectors

  /** Growth of 1 after k periods. */
  function WealthAt(rets: Vec, k: nat): real
    requires k <= |rets|
  {
    if k == 0 then 1.0 else WealthAt(rets, k - 1) * (1.0 + rets[k - 1])
  }

  function Wealth(rets: Vec): (w: Vec)
    ensures |w| == |rets| + 1 && w[0] == 1.0
  {
    seq(|rets| + 1, k requires 0 <= k <= |rets| => WealthAt(rets, k))
  }

  /** The return of a period is the change of wealth over it as a share of the wealth before. */
  lemma WealthChanges(rets: Vec, k: nat)
    requires k < |rets|
    ensures Wealth(rets)[k + 1] - Wealth(rets)[k] == rets[k] * Wealth(rets)[k]
  {
    var w, r := WealthAt(rets, k), rets[k];
    assert Wealth(rets)[k + 1] == w * (1.0 + r);
  }

  /** The largest of w[first..=k]. */
  function Peak(w: Vec, first: nat, k: nat): (p: real)
    requires first <= k < |w|
    ensures forall i :: first <= i <= k ==> w[i] <= p
    ensures exists i :: first <= i <= k && w[i] == p
    decreases k
  {
    if k == first then w[k] else Max(Peak(w, first, k - 1), w[k])
  }

  /** A decline as a share of the peak. */
  function Decline(peak: real, val: real): real {
    if peak > 0.0 then (peak - val) / peak else 0.0
  }

  /** The decline from the peak so far. */
  function Drop(w: Vec, first: nat, k: nat): real
    requires first <= k < |w|
  {
    Decline(Peak(w, first, k), w[k])
  }

  /** The largest of 0 and the drops at first, ..., k - 1. */
  function MaxDrop(w: Vec, first: nat, k: nat): real
    requires first <= k <= |w|
    decreases k
  {
    if k == first then 0.0 else Max(MaxDrop(w, first, k - 1), Drop(w, first, k - 1))
  }

  /** Every drop is covered and one of them, at least 0, is attained. */
  lemma {:induction false} MaxDropIsMaximum(w: Vec, first: nat, k: nat)
    requires first < k <= |w|
    ensures forall j :: first <= j < k ==> 0.0 <= Drop(w, first, j) <= MaxDrop(w, first, k)
    ensures exists j :: first <= j < k && Drop(w, first, j) == MaxDrop(w, first, k)
    decreases k
  {
    hide Drop, Peak;
    DropNonNegative(w, first, k - 1);
    if k > first + 1 {
      MaxDropIsMaximum(w, first, k - 1);
    } else {
      assert MaxDrop(w, first, first) == 0.0;
    }
    assert Drop(w, first, k - 1) == MaxDrop(w, first, k) || MaxDrop(w, first, k - 1) == MaxDrop(w, first, k);
  }

  lemma DropNonNegative(w: Vec, first: nat, k: nat)
    requires first <= k < |w|
    ensures Drop(w, first, k) >= 0.0
  {
    hide Peak;
    var p := Peak(w, first, k);
    if p > 0.0 {
      Quotient(p - w[k], p, Drop(w, first, k));
    }
  }

  method CumulativeWealth(rets: Vec) returns (cumulative: Vec)
    ensures cumulative == Wealth(rets)
  {
    ghost var w := Wealth(rets);
    cumulative := [1.0];
    for k := 0 to |rets|
      invariant cumulative == w[..k + 1]
    {
      var prev := cumulative[|cumulative| - 1];
      assert prev * (1.0 + rets[k]) == w[k + 1];
      cumulative := cumulative + [prev * (1.0 + rets[k])];
    }
  }

  /** One pass with a running peak and a running maximum; the peak starts at the initial wealth 1. */
  method MaxDrawdown(rets: Vec) returns (maxDd: real)
    ensures maxDd == MaxDrop(Wealth(rets), 0, |rets| + 1)
  {
    hide WealthAt, Decline;
    ghost var w := Wealth(rets);
    if rets == [] {
      NoDecline(w[0]);
      assert Drop(w, 0, 0) == 0.0;
      return 0.0;
    }
    var cumulative := CumulativeWealth(rets);
    var peak := cumulative[0];
    maxDd := 0.0;
    for k := 0 to |cumulative|
      invariant peak == if k == 0 then w[0] else Peak(w, 0, k - 1)
      invariant maxDd == MaxDrop(w, 0, k) && maxDd >= 0.0
    {
      var val := cumulative[k];
      if val > peak {
        peak := val;
      }
      maxDd := KeepLarger(maxDd, peak, val);
    }
  }

  lemma NoDecline(val: real)
    ensures Decline(val, val) == 0.0
  {
  }

  method KeepLarger(maxDd: real, peak: real, val: real) returns (r: real)
    requires maxDd >= 0.0
    ensures r == Max(maxDd, Decline(peak, val))
  {
    r := maxDd;
    if peak > 0.0 {
      var dd := (peak - val) / peak;
      if dd > r {
        r := dd;
      }
    }
  }

  // ------------------------------------------------- what the maximum means

  /** Returns of at least -100% keep the wealth from going negative. */
  lemma {:induction false} WealthNonNegative(rets: Vec, k: nat)
    requires k <= |rets| && forall i :: 0 <= i < |rets| ==> rets[i] >= -1.0
    ensures WealthAt(rets, k) >= 0.0
  {
    if k == 0 {
    } else {
      WealthNonNegative(rets, k - 1);
      ProductNonNegative(WealthAt(rets, k - 1), 1.0 + rets[k - 1], WealthAt(rets, k));
    }
  }

  /** The loss between two points, relative to the earlier. */
  function PairLoss(w: Vec, i: nat, j: nat): real
    requires i <= j < |w| && w[i] > 0.0
  {
    (w[i] - w[j]) / w[i]
  }

  /** A larger base makes the same non-negative end a larger relative loss. */
  lemma LossGrowsWithBase(base: real, peak: real, end: real)
    requires 0.0 < base <= peak && end >= 0.0
    ensures (base - end) / base <= (peak - end) / peak
    ensures (base - end) / base == (peak - end) / peak <==> base == peak || end == 0.0
  {
    var x, y := (base - end) / base, (peak - end) / peak;
    var u, v := end / base, end / peak;
    assert x == 1.0 - u && y == 1.0 - v by {
      Quotient(end, base, u);
      Quotient(end, peak, v);
      ShareLeft(end, base);
      ShareLeft(end, peak);
    }
    assert u * base == end && v * peak == end;
    assert v >= 0.0 by { Quotient(end, peak, v); }
    if u < v {
      ProductMonotone(base, peak, v);
      ProductStrict(u, v, base);
    }
    if u == v && base < peak && v > 0.0 {
      ProductStrict(base, peak, v);
    }
  }

  lemma ShareLeft(end: real, base: real)
    requires base > 0.0
    ensures (base - end) / base == 1.0 - end / base
  {
    var x, u := (base - end) / base, end / base;
    var xb, ub := x * base, u * base;
    assert xb == base - end && ub == end;
    assert (x + u) * base == xb + ub;
    ProductCancel(x + u, 1.0, base);
    ProductCancel(1.0, x + u, base);
  }

  /** The one-pass value is the largest loss of a pair of points. */
  ghost predicate IsLargestPairLoss(w: Vec, d: real) {
    && (forall i, j :: 0 <= i <= j < |w| && w[i] > 0.0 ==> PairLoss(w, i, j) <= d)
    && exists i, j :: 0 <= i <= j < |w| && w[i] > 0.0 && PairLoss(w, i, j) == d
  }

  /** A negative wealth at j is, measured by the wealth at i, no worse than one measured by its own peak. */
  ghost predicate Outweighed(w: Vec, i: nat, j: nat)
    requires i <= j < |w| && w[0] > 0.0 && w[i] > 0.0
  {
    exists k :: 0 <= k < |w| && w[k] < 0.0 && -w[j] / w[i] <= Shortfall(w, k)
  }

  function Shortfall(w: Vec, k: nat): real
    requires k < |w| && w[0] > 0.0
  {
    -w[k] / Peak(w, 0, k)
  }

  lemma DropIsShortfall(w: Vec, k: nat)
    requires k < |w| && w[0] > 0.0
    ensures Drop(w, 0, k) == 1.0 + Shortfall(w, k)
    ensures w[k] < 0.0 <==> Shortfall(w, k) > 0.0
  {
    hide Peak;
    var p := Peak(w, 0, k);
    assert p >= w[0];
    ShareLeft(w[k], p);
    Quotient(w[k], p, w[k] / p);
    Quotient(-w[k], p, -w[k] / p);
    NegatedQuotient(w[k], p);
  }

  lemma LossIsShortfall(w: Vec, i: nat, j: nat)
    requires i <= j < |w| && w[i] > 0.0
    ensures PairLoss(w, i, j) == 1.0 + -w[j] / w[i]
    ensures w[j] < 0.0 <==> -w[j] / w[i] > 0.0
  {
    ShareLeft(w[j], w[i]);
    NegatedQuotient(w[j], w[i]);
    Quotient(-w[j], w[i], -w[j] / w[i]);
  }

  lemma SomePairAttains(w: Vec)
    requires w != [] && w[0] > 0.0
    ensures exists i, j :: 0 <= i <= j < |w| && w[i] > 0.0 && PairLoss(w, i, j) == MaxDrop(w, 0, |w|)
  {
    hide Peak, MaxDrop;
    MaxDropIsMaximum(w, 0, |w|);
    var j :| 0 <= j < |w| && Drop(w, 0, j) == MaxDrop(w, 0, |w|);
    var i :| 0 <= i <= j && w[i] == Peak(w, 0, j);
    assert w[i] >= w[0];
    assert PairLoss(w, i, j) == MaxDrop(w, 0, |w|);
  }

  /** The drawdown is the largest loss between two points if and only if every negative wealth, measured by
      any positive wealth before it, is no worse than some negative wealth measured by its own peak. */
  lemma {:induction false} DrawdownIsPairLossIff(w: Vec)
    requires w != [] && w[0] > 0.0
    ensures IsLargestPairLoss(w, MaxDrop(w, 0, |w|))
            <==> forall i, j :: 0 <= i <= j < |w| && w[i] > 0.0 && w[j] < 0.0 ==> Outweighed(w, i, j)
  {
    hide Peak, MaxDrop, Drop, PairLoss, Shortfall;
    var d := MaxDrop(w, 0, |w|);
    MaxDropIsMaximum(w, 0, |w|);
    SomePairAttains(w);
    if IsLargestPairLoss(w, d) {
      var k :| 0 <= k < |w| && Drop(w, 0, k) == d;
      DropIsShortfall(w, k);
      forall i, j | 0 <= i <= j < |w| && w[i] > 0.0 && w[j] < 0.0 ensures Outweighed(w, i, j) {
        LossIsShortfall(w, i, j);
        assert PairLoss(w, i, j) <= d;
      }
    }
    if forall i, j :: 0 <= i <= j < |w| && w[i] > 0.0 && w[j] < 0.0 ==> Outweighed(w, i, j) {
      forall i, j | 0 <= i <= j < |w| && w[i] > 0.0 ensures PairLoss(w, i, j) <= d {
        if w[j] < 0.0 {
          assert Outweighed(w, i, j);
          var k :| 0 <= k < |w| && w[k] < 0.0 && -w[j] / w[i] <= Shortfall(w, k);
          LossIsShortfall(w, i, j);
          DropIsShortfall(w, k);
        } else {
          PairWithinDrop(w, i, j);
        }
      }
    }
  }

  lemma PairWithinDrop(w: Vec, i: nat, j: nat)
    requires i <= j < |w| && w[i] > 0.0 && w[j] >= 0.0
    ensures PairLoss(w, i, j) <= Drop(w, 0, j)
  {
    hide Peak;
    LossGrowsWithBase(w[i], Peak(w, 0, j), w[j]);
  }

  /** So it is as long as the wealth never goes negative. */
  lemma DrawdownIsLargestPairLoss(w: Vec)
    requires w != [] && w[0] > 0.0 && NonNegative(w)
    ensures IsLargestPairLoss(w, MaxDrop(w, 0, |w|))
  {
    hide MaxDrop, IsLargestPairLoss, Outweighed;
    DrawdownIsPairLossIff(w);
  }

  /** For returns of at least -100%, hence for every long-only portfolio. */
  lemma {:induction false} MaxDrawdownIsLargestLoss(rets: Vec)
    requires forall i :: 0 <= i < |rets| ==> rets[i] >= -1.0
    ensures IsLargestPairLoss(Wealth(rets), MaxDrop(Wealth(rets), 0, |rets| + 1))
  {
    hide MaxDrop, WealthAt, IsLargestPairLoss;
    forall k | 0 <= k <= |rets| ensures Wealth(rets)[k] >= 0.0 {
      WealthNonNegative(rets, k);
    }
    DrawdownIsLargestPairLoss(Wealth(rets));
  }

  /** A drawdown is never negative, and it is at most 1 exactly when the wealth never goes negative. */
  lemma DrawdownAtMostOne(w: Vec)
    requires w != [] && w[0] > 0.0
    ensures MaxDrop(w, 0, |w|) >= 0.0
    ensures MaxDrop(w, 0, |w|) <= 1.0 <==> NonNegative(w)
  {
    hide Peak, MaxDrop;
    MaxDropIsMaximum(w, 0, |w|);
    forall j | 0 <= j < |w| ensures Drop(w, 0, j) <= 1.0 <==> w[j] >= 0.0 {
      var p := Peak(w, 0, j);
      assert p >= w[0];
      Quotient(p - w[j], p, Drop(w, 0, j));
    }
    if !NonNegative(w) {
      var j :| 0 <= j < |w| && w[j] < 0.0;
      assert Drop(w, 0, j) > 1.0;
    }
  }

  /** With a loss of more than 100% the pair form and the peak form can part: the wealth 1, 1/2, -1/2 has a
      drawdown of 3/2 from its peak but loses 2 from its second point. They need not: 1, -1/2 loses 3/2. */
  lemma NegativeWealthPairExceeds()
    ensures Wealth([-0.5, -2.0]) == [1.0, 0.5, -0.5]
    ensures MaxDrop([1.0, 0.5, -0.5], 0, 3) == 1.5 && PairLoss([1.0, 0.5, -0.5], 1, 2) == 2.0
    ensures IsLargestPairLoss([1.0, -0.5], MaxDrop([1.0, -0.5], 0, 2))
  {
    FallAtOnce();
    var rets, w: Vec := [-0.5, -2.0], [1.0, 0.5, -0.5];
    assert WealthAt(rets, 1) == 0.5;
    assert WealthAt(rets, 2) == -0.5;
    assert Peak(w, 0, 0) == 1.0 && Peak(w, 0, 1) == 1.0 && Peak(w, 0, 2) == 1.0;
    assert MaxDrop(w, 0, 1) == 0.0;
    assert MaxDrop(w, 0, 2) == 0.5;
  }

  lemma FallAtOnce()
    ensures IsLargestPairLoss([1.0, -0.5], MaxDrop([1.0, -0.5], 0, 2))
  {
    var w: Vec := [1.0, -0.5];
    assert Peak(w, 0, 1) == 1.0 && Shortfall(w, 1) == 0.5;
    forall i, j | 0 <= i <= j < |w| && w[i] > 0.0 && w[j] < 0.0 ensures Outweighed(w, i, j) {
      assert i == 0 && j == 1;
    }
    DrawdownIsPairLossIff(w);
  }

  // ------------------------------------------------- the chart's series

  method CumulativeGrowth(rets: Vec) returns (out: Vec)
    ensures out == Wealth(rets)[1..]
  {
    out := [];
    var value := 1.0;
    for k := 0 to |rets|
      invariant value == WealthAt(rets, k)
      invariant out == Wealth(rets)[1..k + 1]
    {
      value := value * (1.0 + rets[k]);
      out := out + [value];
    }
  }

  /** The chart's drawdown at t: 0 or below, from the peak since the first period. */
  function ChartDrawdown(c: Vec, t: nat): real
    requires t < |c|
  {
    var p := Peak(c, 0, t);
    if p != 0.0 then (c[t] - p) / p else 0.0
  }

  method DrawdownSeries(cumulative: Vec) returns (out: Vec)
    ensures |out| == |cumulative|
    ensures forall t :: 0 <= t < |cumulative| ==> out[t] == ChartDrawdown(cumulative, t)
  {
    out := [];
    var peak := if cumulative != [] then cumulative[0] else 1.0;
    for t := 0 to |cumulative|
      invariant t > 0 ==> peak == Peak(cumulative, 0, t - 1)
      invariant t == 0 && cumulative != [] ==> peak == cumulative[0]
      invariant |out| == t && forall s :: 0 <= s < t ==> out[s] == ChartDrawdown(cumulative, s)
    {
      var v := cumulative[t];
      if v > peak {
        peak := v;
      }
      out := out + [if peak != 0.0 then (v - peak) / peak else 0.0];
    }
  }

  lemma {:induction false} PeakShift(w: Vec, t: nat)
    requires t + 1 < |w|
    ensures Peak(w[1..], 0, t) == Peak(w, 1, t + 1)
    decreases t
  {
    if t == 0 {
    } else {
      PeakShift(w, t - 1);
    }
  }

  /** On a wealth that never goes negative the chart shows minus the drop since the first period. */
  lemma ChartIsNegatedDrop(w: Vec, t: nat)
    requires t + 1 < |w| && NonNegative(w)
    ensures ChartDrawdown(w[1..], t) == -Drop(w, 1, t + 1)
  {
    hide Peak;
    PeakShift(w, t);
    var p := Peak(w, 1, t + 1);
    assert p >= 0.0;
    if p > 0.0 {
      Quotient(p - w[t + 1], p, Drop(w, 1, t + 1));
    }
  }

  lemma {:induction false} LaterPeakIsLower(w: Vec, k: nat)
    requires 1 <= k < |w|
    ensures Peak(w, 0, k) == Max(w[0], Peak(w, 1, k))
    decreases k
  {
    if k <= 1 {
    } else {
      LaterPeakIsLower(w, k - 1);
    }
  }

  /** Where the chart's peak, which leaves out the initial wealth, gives the same drop as the engine's. */
  predicate SamePeakDrop(w: Vec, k: nat)
    requires 1 <= k < |w|
  {
    Peak(w, 1, k) >= w[0] || (w[k] == 0.0 && Peak(w, 1, k) > 0.0) || Drop(w, 0, k) == 0.0
  }

  /** The engine's drawdown is reached at period t, from a peak that the chart sees too. */
  predicate ReachedOnChart(w: Vec, t: nat)
    requires t + 1 < |w|
  {
    Drop(w, 0, t + 1) == MaxDrop(w, 0, |w|) && SamePeakDrop(w, t + 1)
  }

  lemma ChartDropAtMost(w: Vec, k: nat)
    requires 1 <= k < |w| && w[0] > 0.0 && NonNegative(w)
    ensures Drop(w, 1, k) <= Drop(w, 0, k)
    ensures Drop(w, 1, k) == Drop(w, 0, k) <==> SamePeakDrop(w, k)
  {
    hide Peak;
    LaterPeakIsLower(w, k);
    var p, q := Peak(w, 1, k), Peak(w, 0, k);
    DropNonNegative(w, 0, k);
    DropNonNegative(w, 1, k);
    if p > 0.0 {
      LossGrowsWithBase(p, q, w[k]);
    }
  }

  /** The chart never shows a deeper drawdown than the engine reports, at any period. */
  lemma ChartNeverDeeper(rets: Vec, t: nat)
    requires t < |rets| && forall i :: 0 <= i < |rets| ==> rets[i] >= -1.0
    ensures var w := Wealth(rets);
            -MaxDrop(w, 0, |w|) <= ChartDrawdown(w[1..], t) <= 0.0
  {
    hide Drop, Peak, MaxDrop, ChartDrawdown, WealthAt;
    var w := Wealth(rets);
    forall k | 0 <= k <= |rets| ensures w[k] >= 0.0 { WealthNonNegative(rets, k); }
    ChartIsNegatedDrop(w, t);
    ChartDropAtMost(w, t + 1);
    DropNonNegative(w, 1, t + 1);
    MaxDropIsMaximum(w, 0, |w|);
  }

  /** Its worst point is exactly the engine's drawdown if and only if some period attains that drawdown
      from a peak that the chart sees too. */
  lemma ChartWorstPoint(rets: Vec)
    requires rets != [] && forall i :: 0 <= i < |rets| ==> rets[i] >= -1.0
    ensures var w := Wealth(rets);
            (exists t :: 0 <= t < |rets| && ChartDrawdown(w[1..], t) == -MaxDrop(w, 0, |w|))
            <==> exists t :: 0 <= t < |rets| && ReachedOnChart(w, t)
  {
    hide Drop, Peak, MaxDrop, ChartDrawdown, WealthAt, SamePeakDrop;
    var w := Wealth(rets);
    forall k | 0 <= k <= |rets| ensures w[k] >= 0.0 { WealthNonNegative(rets, k); }
    MaxDropIsMaximum(w, 0, |w|);
    forall t | 0 <= t < |rets|
      ensures ChartDrawdown(w[1..], t) == -MaxDrop(w, 0, |w|) <==> ReachedOnChart(w, t)
    {
      ChartIsNegatedDrop(w, t);
      ChartDropAtMost(w, t + 1);
    }
  }

  /** In particular when the first return is not a loss. */
  lemma ChartWorstPointAfterGain(rets: Vec)
    requires rets != [] && rets[0] >= 0.0 && forall i :: 0 <= i < |rets| ==> rets[i] >= -1.0
    ensures var w := Wealth(rets);
            exists t :: 0 <= t < |rets| && ChartDrawdown(w[1..], t) == -MaxDrop(w, 0, |w|)
  {
    hide Drop, Peak, MaxDrop, ChartDrawdown;
    var w := Wealth(rets);
    assert w[1] >= w[0] by { assert WealthAt(rets, 1) == 1.0 + rets[0]; }
    hide WealthAt;
    MaxDropIsMaximum(w, 0, |w|);
    var k :| 0 <= k < |w| && Drop(w, 0, k) == MaxDrop(w, 0, |w|);
    if k == 0 {
      StartHasNoDrop(w);
      assert Drop(w, 0, 1) == MaxDrop(w, 0, |w|);
      assert ReachedOnChart(w, 0) by { assert Peak(w, 1, 1) >= w[1]; }
    } else {
      assert ReachedOnChart(w, k - 1) by { assert Peak(w, 1, k) >= w[1]; }
    }
    ChartWorstPoint(rets);
  }

  lemma StartHasNoDrop(w: Vec)
    requires w != []
    ensures Drop(w, 0, 0) == 0.0
  {
  }
}
