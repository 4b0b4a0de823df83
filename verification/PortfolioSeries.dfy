/** The return series of a portfolio, as the engine computes it (engine/src/risk/metrics.rs) and as
    the analytics server does (analytics/pae/server.py). The engine reads the heads of the histories, the
    server their tails, skipping the empty ones. */
module PortfolioSeries {
  import opened Reals
  import opened Results
  import opened Vectors

  datatype Holding = Holding(marketValue: real, history: Vec)

  datatype SeriesError = NoHoldings | NoMarketValue | NoUsableSeries | DivisionByZero

  function Values(holdings: seq<Holding>): (r: Vec)
    ensures |r| == |holdings|
  {
    seq(|holdings|, i requires 0 <= i < |holdings| => holdings[i].marketValue)
  }

  /** The length of the shortest history. */
  function Shortest(holdings: seq<Holding>): (n: nat)
    requires holdings != []
    ensures forall i :: 0 <= i < |holdings| ==> n <= |holdings[i].history|
    ensures exists i :: 0 <= i < |holdings| && n == |holdings[i].history|
  {
    var last := |holdings| - 1;
    var l := |holdings[last].history|;
    if last == 0 then l
    else
      var n := Shortest(holdings[..last]);
      assert forall i :: 0 <= i < last ==> holdings[..last][i] == holdings[i];
      if n <= l then n else l
  }

  predicate AtLeast(holdings: seq<Holding>, n: nat) {
    forall i :: 0 <= i < |holdings| ==> n <= |holdings[i].history|
  }

  function Heads(holdings: seq<Holding>, n: nat): (r: Matrix)
    requires AtLeast(holdings, n)
    ensures |r| == |holdings| && HasWidth(r, n)
  {
    seq(|holdings|, i requires 0 <= i < |holdings| => holdings[i].history[..n])
  }

  function Tails(holdings: seq<Holding>, n: nat): (r: Matrix)
    requires AtLeast(holdings, n)
    ensures |r| == |holdings| && HasWidth(r, n)
  {
    seq(|holdings|, i requires 0 <= i < |holdings| => holdings[i].history[|holdings[i].history| - n..])
  }

  /** portfolio_returns: market-value weights on the first n periods of every history. */
  function EngineSeries(holdings: seq<Holding>): Vec {
    if holdings == [] then []
    else
      var n, total := Shortest(holdings), Sum(Values(holdings));
      if total == 0.0 || n == 0 then [] else Comb(Scale(1.0 / total, Values(holdings)), Heads(holdings, n), n)
  }

  function Usable(holdings: seq<Holding>): (r: seq<Holding>)
    ensures forall i :: 0 <= i < |r| ==> r[i].history != []
  {
    if holdings == [] then []
    else
      var front, last := Usable(holdings[..|holdings| - 1]), holdings[|holdings| - 1];
      if last.history == [] then front else front + [last]
  }

  /** A holding cut to its last n returns. */
  function CutToTail(holdings: seq<Holding>, n: nat): (r: seq<Holding>)
    requires AtLeast(holdings, n)
    ensures |r| == |holdings|
  {
    seq(|holdings|, i requires 0 <= i < |holdings| =>
      Holding(holdings[i].marketValue, holdings[i].history[|holdings[i].history| - n..]))
  }

  /** _portfolio_period_returns. A history that cannot be parsed counts as empty; empty histories are
      skipped and the weights of the others are renormalised. */
  method PeriodReturns(holdings: seq<Holding>) returns (r: Result<Vec, SeriesError>)
    ensures r == ServerSeries(holdings)
  {
    if holdings == [] {
      return Err(NoHoldings);
    }
    var totalValue := Sum(Values(holdings));
    if totalValue <= 0.0 {
      return Err(NoMarketValue);
    }
    var kept: seq<Holding>, weights: Vec := [], [];
    for k := 0 to |holdings|
      invariant kept == Usable(holdings[..k]) && weights == Scale(1.0 / totalValue, Values(kept))
    {
      assert holdings[..k + 1][..k] == holdings[..k];
      if holdings[k].history != [] {
        WeightOf(kept, holdings[k], totalValue);
        kept := kept + [holdings[k]];
        weights := weights + [holdings[k].marketValue / totalValue];
      }
    }
    assert holdings[..|holdings|] == holdings;
    if kept == [] {
      return Err(NoUsableSeries);
    }
    var n := Shortest(kept);
    var tails, wsum := Tails(kept, n), Sum(weights);
    if wsum == 0.0 {
      return Err(DivisionByZero);
    }
    r := Ok(seq(n, t requires 0 <= t < n => Dot(weights, Column(tails, n, t)) / wsum));
  }

  lemma WeightOf(kept: seq<Holding>, h: Holding, total: real)
    requires total > 0.0
    ensures Scale(1.0 / total, Values(kept)) + [h.marketValue / total] == Scale(1.0 / total, Values(kept + [h]))
  {
    var l, r := Scale(1.0 / total, Values(kept)) + [h.marketValue / total], Scale(1.0 / total, Values(kept + [h]));
    forall i | 0 <= i < |r| ensures l[i] == r[i] {
      var v := Values(kept + [h])[i];
      assert r[i] == 1.0 / total * v;
      if i < |kept| {
        assert v == Values(kept)[i];
      } else {
        ScaleByInverse(v, total);
      }
    }
  }

  function ServerSeries(holdings: seq<Holding>): Result<Vec, SeriesError> {
    var total := Sum(Values(holdings));
    if holdings == [] then Err(NoHoldings)
    else if total <= 0.0 then Err(NoMarketValue)
    else
      var kept := Usable(holdings);
      if kept == [] then Err(NoUsableSeries)
      else
        var n, weights := Shortest(kept), Scale(1.0 / total, Values(kept));
        if Sum(weights) == 0.0 then Err(DivisionByZero)
        else Ok(seq(n, t requires 0 <= t < n => Dot(weights, Column(Tails(kept, n), n, t)) / Sum(weights)))
  }

  /** The server's series is the engine's series of the usable holdings, each cut to the common tail:
      the second normalisation undoes the weight lost with the skipped holdings. */
  lemma {:induction false} ServerIsEngineOnTails(holdings: seq<Holding>)
    requires ServerSeries(holdings).Ok?
    ensures var kept := Usable(holdings);
            kept != [] && ServerSeries(holdings).value == EngineSeries(CutToTail(kept, Shortest(kept)))
  {
    hide Dot, Sum, Shortest;
    var kept, total := Usable(holdings), Sum(Values(holdings));
    var n := Shortest(kept);
    var cut := CutToTail(kept, n);
    CutLength(kept, n);
    assert Values(cut) == Values(kept);
    assert Heads(cut, n) == Tails(kept, n) by {
      assert forall i :: 0 <= i < |kept| ==> cut[i].history[..n] == Tails(kept, n)[i];
    }
    var values, usable := Values(kept), Sum(Values(kept));
    SumScale(1.0 / total, values);
    ScaleByInverse(usable, total);
    assert usable != 0.0;
    var l, r := ServerSeries(holdings).value, EngineSeries(cut);
    forall t | 0 <= t < n ensures l[t] == r[t] {
      var column := Column(Tails(kept, n), n, t);
      DotScale(1.0 / total, values, column);
      DotScale(1.0 / usable, values, column);
      Renormalised(Dot(values, column), total, usable);
    }
  }

  lemma Renormalised(d: real, total: real, usable: real)
    requires total > 0.0 && usable != 0.0
    ensures 1.0 / total * usable != 0.0
    ensures (1.0 / total * d) / (1.0 / total * usable) == 1.0 / usable * d
  {
    var k, x := 1.0 / total, 1.0 / usable * d;
    Quotient(1.0, total, k);
    Quotient(1.0, usable, 1.0 / usable);
    assert x * usable == d by { ScaleByInverse(d, usable); Quotient(d, usable, x); }
    assert k * usable != 0.0 by { NonZeroProduct(k, usable); }
    assert x * (k * usable) == k * d by { assert x * (k * usable) == k * (x * usable); }
  }

  lemma NonZeroProduct(x: real, y: real)
    requires x != 0.0 && y != 0.0
    ensures x * y != 0.0
  {
  }

  lemma {:induction false} CutLength(holdings: seq<Holding>, n: nat)
    requires holdings != [] && AtLeast(holdings, n)
    ensures Shortest(CutToTail(holdings, n)) == n
  {
  }

  /** For histories of one length the two series are the same. */
  lemma SameLengthSameSeries(holdings: seq<Holding>, n: nat)
    requires n > 0 && holdings != [] && Sum(Values(holdings)) > 0.0
    requires forall i :: 0 <= i < |holdings| ==> |holdings[i].history| == n
    ensures ServerSeries(holdings) == Ok(EngineSeries(holdings))
  {
    hide Sum, Dot;
    AllUsable(holdings);
    assert Shortest(holdings) == n;
    var total := Sum(Values(holdings));
    SumScale(1.0 / total, Values(holdings));
    Quotient(1.0, total, 1.0 / total);
    assert Sum(Scale(1.0 / total, Values(holdings))) == 1.0;
    ServerIsEngineOnTails(holdings);
    assert CutToTail(holdings, n) == holdings;
  }

  lemma {:induction false} AllUsable(holdings: seq<Holding>)
    requires forall i :: 0 <= i < |holdings| ==> holdings[i].history != []
    ensures Usable(holdings) == holdings
  {
    if holdings == [] {
    } else {
      AllUsable(holdings[..|holdings| - 1]);
      assert holdings == holdings[..|holdings| - 1] + [holdings[|holdings| - 1]];
    }
  }

  // ------------------------------------------------- the series written out

  /** What every history says of period t. */
  function Period(holdings: seq<Holding>, t: nat): (r: Vec)
    requires AtLeast(holdings, t + 1)
    ensures |r| == |holdings|
  {
    seq(|holdings|, i requires 0 <= i < |holdings| => holdings[i].history[t])
  }

  /** The engine's series has one entry for each period that all histories cover, the average of that
      period's returns by market value; it is empty if some history is, or nothing has value. */
  lemma EngineSeriesMeaning(holdings: seq<Holding>)
    ensures EngineSeries(holdings) == []
            <==> holdings == [] || Sum(Values(holdings)) == 0.0 || exists h :: h in holdings && h.history == []
    ensures var r := EngineSeries(holdings);
            r != [] ==> AtLeast(holdings, |r|) && !AtLeast(holdings, |r| + 1)
                        && forall t :: 0 <= t < |r| ==>
                             r[t] * Sum(Values(holdings)) == Dot(Values(holdings), Period(holdings, t))
  {
    hide Sum, Dot;
    var r := EngineSeries(holdings);
    if r != [] {
      var n, total := Shortest(holdings), Sum(Values(holdings));
      forall t | 0 <= t < n ensures r[t] * total == Dot(Values(holdings), Period(holdings, t)) {
        assert Column(Heads(holdings, n), n, t) == Period(holdings, t);
        DotScale(1.0 / total, Values(holdings), Period(holdings, t));
        Undivided(total, Dot(Values(holdings), Period(holdings, t)), r[t]);
      }
    }
  }

  lemma Undivided(total: real, d: real, x: real)
    requires total != 0.0 && x == 1.0 / total * d
    ensures x * total == d
  {
    ScaleByInverse(d, total);
    Quotient(d, total, x);
  }

  /** The market values of the holdings with a history, 0 for the others. */
  function UsableValues(holdings: seq<Holding>): (r: Vec)
    ensures |r| == |holdings|
  {
    seq(|holdings|, i requires 0 <= i < |holdings| =>
      if holdings[i].history == [] then 0.0 else holdings[i].marketValue)
  }

  predicate AtLeastOrEmpty(holdings: seq<Holding>, n: nat) {
    forall i :: 0 <= i < |holdings| ==> holdings[i].history == [] || n <= |holdings[i].history|
  }

  /** The return k periods before the end of every history, 0 where there is none. */
  function FromEnd(holdings: seq<Holding>, k: nat): (r: Vec)
    requires k > 0 && AtLeastOrEmpty(holdings, k)
    ensures |r| == |holdings|
  {
    seq(|holdings|, i requires 0 <= i < |holdings| =>
      if holdings[i].history == [] then 0.0 else holdings[i].history[|holdings[i].history| - k])
  }

  lemma {:induction false} UsableSums(holdings: seq<Holding>, n: nat, t: nat)
    requires t < n && AtLeastOrEmpty(holdings, n)
    ensures AtLeast(Usable(holdings), n)
    ensures Sum(Values(Usable(holdings))) == Sum(UsableValues(holdings))
    ensures Dot(Values(Usable(holdings)), Column(Tails(Usable(holdings), n), n, t))
            == Dot(UsableValues(holdings), FromEnd(holdings, n - t))
  {
    hide Sum, Dot;
    if holdings == [] {
      EmptySums();
    } else {
      var k := |holdings| - 1;
      var front, last := holdings[..k], holdings[k];
      UsableSums(front, n, t);
      var kept := Usable(front);
      SumDotSnoc(UsableValues(holdings), FromEnd(holdings, n - t), k);
      assert UsableValues(holdings)[..k] == UsableValues(front);
      assert FromEnd(holdings, n - t)[..k] == FromEnd(front, n - t);
      if last.history != [] {
        var grown := Usable(holdings);
        assert grown[..|kept|] == kept;
        SumDotSnoc(Values(grown), Column(Tails(grown, n), n, t), |kept|);
        assert Values(grown)[..|kept|] == Values(kept);
        assert Column(Tails(grown, n), n, t)[..|kept|] == Column(Tails(kept, n), n, t);
      }
    }
  }

  lemma EmptySums()
    ensures Sum([]) == 0.0 && Dot([], []) == 0.0
  {
  }

  lemma SumDotSnoc(u: Vec, v: Vec, k: nat)
    requires |u| == |v| == k + 1
    ensures Sum(u) == Sum(u[..k]) + u[k] && Dot(u, v) == Dot(u[..k], v[..k]) + u[k] * v[k]
  {
    hide Sum, Dot;
    assert u[..k + 1] == u && v[..k + 1] == v;
    SumSnoc(u, k);
    DotSnoc(u, v, k);
  }

  /** The server refuses, in this order, a portfolio without holdings, without value, without any
      history, or whose holdings with a history have no value; otherwise its series ends where all
      histories end and averages each period over the holdings that have one. */
  lemma ServerSeriesMeaning(holdings: seq<Holding>)
    ensures var r, total, usable := ServerSeries(holdings), Sum(Values(holdings)), Sum(UsableValues(holdings));
            if holdings == [] then r == Err(NoHoldings)
            else if total <= 0.0 then r == Err(NoMarketValue)
            else if forall h :: h in holdings ==> h.history == [] then r == Err(NoUsableSeries)
            else if usable == 0.0 then r == Err(DivisionByZero)
            else
              && r.Ok? && r.value != []
              && AtLeastOrEmpty(holdings, |r.value|) && !AtLeastOrEmpty(holdings, |r.value| + 1)
              && forall t :: 0 <= t < |r.value| ==>
                   r.value[t] * usable == Dot(UsableValues(holdings), FromEnd(holdings, |r.value| - t))
  {
    hide Sum, Dot, Shortest, Usable;
    UsableElements(holdings);
    if holdings != [] && Sum(Values(holdings)) > 0.0 {
      var kept := Usable(holdings);
      if kept == [] {
        assert forall h :: h in holdings ==> h.history == [];
      } else {
        assert kept[0] in holdings;
        var n := Shortest(kept);
        assert n > 0;
        KeptLengths(holdings, n);
        KeptLengths(holdings, n + 1);
        UsableSums(holdings, n, 0);
        ServerEntries(holdings, n);
      }
    }
  }

  lemma {:induction false} UsableElements(holdings: seq<Holding>)
    ensures forall h :: h in Usable(holdings) <==> h in holdings && h.history != []
  {
    if holdings == [] {
    } else {
      UsableElements(holdings[..|holdings| - 1]);
      assert holdings == holdings[..|holdings| - 1] + [holdings[|holdings| - 1]];
    }
  }

  lemma KeptLengths(holdings: seq<Holding>, n: nat)
    ensures AtLeastOrEmpty(holdings, n) <==> AtLeast(Usable(holdings), n)
  {
    UsableElements(holdings);
    hide Usable;
    var kept := Usable(holdings);
    if AtLeastOrEmpty(holdings, n) {
      forall i | 0 <= i < |kept| ensures n <= |kept[i].history| {
        assert kept[i] in holdings;
      }
    }
    if AtLeast(kept, n) {
      forall i | 0 <= i < |holdings| && holdings[i].history != [] ensures n <= |holdings[i].history| {
        assert holdings[i] in kept;
      }
    }
  }

  lemma ServerEntries(holdings: seq<Holding>, n: nat)
    requires holdings != [] && Sum(Values(holdings)) > 0.0 && Usable(holdings) != []
    requires n == Shortest(Usable(holdings)) && n > 0 && AtLeastOrEmpty(holdings, n)
    ensures var r, usable := ServerSeries(holdings), Sum(UsableValues(holdings));
            if usable == 0.0 then r == Err(DivisionByZero)
            else
              && r.Ok? && |r.value| == n
              && forall t :: 0 <= t < n ==>
                   r.value[t] * usable == Dot(UsableValues(holdings), FromEnd(holdings, n - t))
  {
    hide Sum, Dot, Shortest, Usable, UsableValues, FromEnd;
    var kept, total := Usable(holdings), Sum(Values(holdings));
    var values := Values(kept);
    var usable := Sum(values);
    UsableSums(holdings, n, 0);
    SumScale(1.0 / total, values);
    Quotient(1.0, total, 1.0 / total);
    ScaledZero(1.0 / total, usable);
    if usable != 0.0 {
      var r := ServerSeries(holdings).value;
      forall t | 0 <= t < n ensures r[t] * usable == Dot(UsableValues(holdings), FromEnd(holdings, n - t)) {
        var column := Column(Tails(kept, n), n, t);
        UsableSums(holdings, n, t);
        DotScale(1.0 / total, values, column);
        Renormalised(Dot(values, column), total, usable);
        Undivided(usable, Dot(values, column), r[t]);
      }
    }
  }

  lemma ScaledZero(c: real, x: real)
    requires c > 0.0
    ensures c * x == 0.0 <==> x == 0.0
  {
  }
}
