/** Rank statistics of a return history (engine/src/risk/metrics.rs): value at risk and conditional
    value at risk read off the sorted returns. */
module RankStatistics {
  import opened Ordering
  import opened Reals
  import opened Vectors

  predicate Leq(a: real, b: real) { a <= b }

  predicate Ascending(s: Vec) { IsSorted(s, Leq) }

  lemma LeqOrder()
    ensures IsOrder(Leq)
  {
  }

  /** A rank as Rust casts it: the floor, saturating at 0. */
  function Rank(alpha: real, n: nat): (k: nat)
    ensures alpha >= 0.0 ==> k as real <= alpha * n as real < (k + 1) as real
  {
    var f := (alpha * n as real).Floor;
    if f < 0 then 0 else f
  }

  function VarIndex(alpha: real, n: nat): (k: nat)
    requires n > 0
    ensures k < n
  {
    if Rank(alpha, n) < n then Rank(alpha, n) else n - 1
  }

  function TailSize(alpha: real, n: nat): (k: nat)
    requires n > 0
    ensures 1 <= k <= n
  {
    var k := if Rank(alpha, n) < 1 then 1 else Rank(alpha, n);
    if k < n then k else n
  }

  function ValueAtRisk(rets: Vec, alpha: real): (loss: real)
    ensures rets == [] ==> loss == 0.0
  {
    if rets == [] then 0.0 else -Sort(rets, Leq)[VarIndex(alpha, |rets|)]
  }

  function ConditionalVar(rets: Vec, alpha: real): (loss: real)
    ensures rets == [] ==> loss == 0.0
  {
    if rets == [] then 0.0
    else
      var k := TailSize(alpha, |rets|);
      -(Sum(Sort(rets, Leq)[..k]) / k as real)
  }

  // ---------------------------------------------------------- the ordering

  lemma SortAscends(s: Vec)
    ensures Ascending(Sort(s, Leq))
  {
    LeqOrder();
    SortSorts(s, Leq);
  }

  lemma RankMonotone(alpha: real, beta: real, n: nat)
    requires alpha <= beta
    ensures Rank(alpha, n) <= Rank(beta, n)
  {
    ProductMonotone(alpha, beta, n as real);
  }

  lemma QuotientAtMost(total: real, n: real, x: real)
    requires n > 0.0 && total <= n * x
    ensures total / n <= x
  {
    var q := total / n;
    assert q * n == total;
    if q > x {
      ProductPositive(q - x, n, (q - x) * n);
    }
  }

  /** The mean of the first k of an ascending list is at most its k-th element. */
  lemma PrefixMeanAtMost(s: Vec, k: nat, x: real)
    requires 0 < k <= |s| && forall i :: 0 <= i < k ==> s[i] <= x
    ensures Sum(s[..k]) / k as real <= x
  {
    hide Sum;
    SumMonotone(s[..k], Const(k, x));
    SumConst(k, x);
    QuotientAtMost(Sum(s[..k]), k as real, x);
  }

  /** The average loss of the tail is at least the loss at its edge. */
  lemma {:induction false} CVarAtLeastVar(rets: Vec, alpha: real)
    ensures ConditionalVar(rets, alpha) >= ValueAtRisk(rets, alpha)
  {
    if rets != [] {
      var s, k := Sort(rets, Leq), TailSize(alpha, |rets|);
      SortAscends(rets);
      PrefixMeanAtMost(s, k, s[VarIndex(alpha, |rets|)]);
    }
  }

  lemma {:induction false} VarNonIncreasing(rets: Vec, alpha: real, beta: real)
    requires alpha <= beta
    ensures ValueAtRisk(rets, beta) <= ValueAtRisk(rets, alpha)
  {
    hide Rank;
    if rets != [] {
      SortAscends(rets);
      RankMonotone(alpha, beta, |rets|);
      assert VarIndex(alpha, |rets|) <= VarIndex(beta, |rets|);
    }
  }

  lemma {:induction false} PrefixMeansAscend(s: Vec, j: nat, k: nat)
    requires Ascending(s) && 0 < j <= k <= |s|
    ensures Sum(s[..j]) / j as real <= Sum(s[..k]) / k as real
    decreases k
  {
    hide Sum;
    if j >= k {
    } else {
      PrefixMeansAscend(s, j, k - 1);
      PrefixMeanAtMost(s, k - 1, s[k - 1]);
      assert s[..k] == s[..k - 1] + [s[k - 1]];
      SumAppend(s[..k - 1], [s[k - 1]]);
      SumOne(s[k - 1]);
      MeanGrows(Sum(s[..k - 1]), s[k - 1], (k - 1) as real);
    }
  }

  lemma CVarNonIncreasing(rets: Vec, alpha: real, beta: real)
    requires alpha <= beta
    ensures ConditionalVar(rets, beta) <= ConditionalVar(rets, alpha)
  {
    hide Rank, Sum;
    if rets != [] {
      SortAscends(rets);
      RankMonotone(alpha, beta, |rets|);
      PrefixMeansAscend(Sort(rets, Leq), TailSize(alpha, |rets|), TailSize(beta, |rets|));
    }
  }

  // ------------------------------------------------------------- counting

  function CountBelow(s: Vec, x: real): nat {
    |Filter(s, y => y < x)|
  }

  function CountAtMost(s: Vec, x: real): nat {
    |Filter(s, y => y <= x)|
  }

  /** In ascending order at most k elements are below the element at k, and at least k + 1 are not
      above it. */
  lemma CountsAround(s: Vec, k: nat)
    requires Ascending(s) && k < |s|
    ensures CountBelow(s, s[k]) <= k < CountAtMost(s, s[k])
  {
    hide Filter;
    SplitCount(s, k, y => y < s[k]);
    FilterLength(s[..k], y => y < s[k]);
    NoneBelow(s, k);
    SplitCount(s, k + 1, y => y <= s[k]);
    AllAtMost(s, k);
  }

  lemma SplitCount(s: Vec, k: nat, keep: real -> bool)
    requires k <= |s|
    ensures Filter(s, keep) == Filter(s[..k], keep) + Filter(s[k..], keep)
  {
    hide *;
    var a, b := s[..k], s[k..];
    assert a + b == s;
    FilterAppend(a, b, keep);
  }

  lemma NoneBelow(s: Vec, k: nat)
    requires Ascending(s) && k < |s|
    ensures Filter(s[k..], y => y < s[k]) == []
  {
    hide Filter;
    FilterLength(s[k..], y => y < s[k]);
  }

  lemma AllAtMost(s: Vec, k: nat)
    requires Ascending(s) && k < |s|
    ensures |Filter(s[..k + 1], y => y <= s[k])| == k + 1
  {
    hide Filter;
    FilterLength(s[..k + 1], y => y <= s[k]);
  }

  /** Sorting does not change how many elements satisfy a condition. */
  lemma SortCounts(s: Vec, keep: real -> bool)
    ensures |Filter(Sort(s, Leq), keep)| == |Filter(s, keep)|
  {
    LeqOrder();
    FilterSort(s, Leq, keep);
  }

  /** What value at risk means, for a level from 0 up to 1: at most alpha * n returns are worse than
      minus the value at risk, and more than alpha * n are not better. */
  lemma VarIsQuantile(rets: Vec, alpha: real)
    requires rets != [] && 0.0 <= alpha < 1.0
    ensures var q := -ValueAtRisk(rets, alpha);
            CountBelow(rets, q) as real <= alpha * |rets| as real < CountAtMost(rets, q) as real
  {
    hide Filter, Sort;
    var s, k := Sort(rets, Leq), VarIndex(alpha, |rets|);
    SortAscends(rets);
    ProductStrict(alpha, 1.0, |rets| as real);
    assert k == Rank(alpha, |rets|);
    hide Rank;
    CountsAround(s, k);
    SortCounts(rets, y => y < s[k]);
    SortCounts(rets, y => y <= s[k]);
  }

  // ------------------------------------------------------- the worst tail

  lemma {:induction false} SumInsert(x: real, s: Vec)
    ensures Sum(Insert(x, s, Leq)) == x + Sum(s)
  {
    if s != [] && !Leq(x, s[0]) {
      SumInsert(x, s[1..]);
      assert ([s[0]] + Insert(x, s[1..], Leq))[1..] == Insert(x, s[1..], Leq);
    } else {
      assert ([x] + s)[1..] == s;
    }
  }

  lemma {:induction false} SumSort(s: Vec)
    ensures Sum(Sort(s, Leq)) == Sum(s)
  {
    if s == [] {
    } else {
      SumSort(s[1..]);
      SumInsert(s[0], Sort(s[1..], Leq));
    }
  }

  /** There is only one ascending arrangement. */
  lemma {:induction false} AscendingUnique(s: Vec, t: Vec)
    requires Ascending(s) && Ascending(t) && multiset(s) == multiset(t)
    ensures s == t
  {
    hide Ascending;
    if s == [] {
      SameLength(s, t);
    } else {
      SameHeadAndTail(s, t);
      AscendingUnique(s[1..], t[1..]);
      assert s == [s[0]] + s[1..] && t == [t[0]] + t[1..];
    }
  }

  lemma SameHeadAndTail(s: Vec, t: Vec)
    requires Ascending(s) && Ascending(t) && multiset(s) == multiset(t) && s != []
    ensures t != [] && s[0] == t[0] && multiset(s[1..]) == multiset(t[1..])
    ensures Ascending(s[1..]) && Ascending(t[1..])
  {
    SameLength(s, t);
    assert s[0] == t[0] by {
      HeadIsLeast(s, t[0]);
      HeadIsLeast(t, s[0]);
    }
    TailAscends(s);
    TailAscends(t);
    hide Ascending;
    TailMultiset(s);
    TailMultiset(t);
  }

  lemma TailAscends(s: Vec)
    requires Ascending(s) && s != []
    ensures Ascending(s[1..])
  {
  }

  lemma TailMultiset(s: Vec)
    requires s != []
    ensures multiset(s[1..]) == multiset(s) - multiset{s[0]}
  {
    assert s == [s[0]] + s[1..];
  }

  lemma SameLength(s: Vec, t: Vec)
    requires multiset(s) == multiset(t)
    ensures |s| == |t| && (forall x :: x in s <==> x in t)
  {
    assert |s| == |multiset(s)| && |t| == |multiset(t)|;
    assert forall x :: x in s <==> x in multiset(s);
    assert forall x :: x in t <==> x in multiset(t);
  }

  lemma HeadIsLeast(s: Vec, x: real)
    requires Ascending(s) && x in s
    ensures s[0] <= x
  {
  }

  /** The statistics depend on the returns only as a collection. */
  lemma OrderIrrelevant(rets: Vec, other: Vec, alpha: real)
    requires multiset(rets) == multiset(other)
    ensures ValueAtRisk(rets, alpha) == ValueAtRisk(other, alpha)
    ensures ConditionalVar(rets, alpha) == ConditionalVar(other, alpha)
  {
    SameSorted(rets, other);
    SameLength(rets, other);
  }

  lemma SameSorted(s: Vec, t: Vec)
    requires multiset(s) == multiset(t)
    ensures Sort(s, Leq) == Sort(t, Leq)
  {
    SortElements(s, Leq);
    SortElements(t, Leq);
    SortAscends(s);
    SortAscends(t);
    AscendingUnique(Sort(s, Leq), Sort(t, Leq));
  }

  /** The k-th smallest of a part is no smaller than the k-th smallest of the whole. */
  lemma PartRanksHigher(part: Vec, rest: Vec, k: nat)
    requires k < |part|
    ensures Sort(part + rest, Leq)[k] <= Sort(part, Leq)[k]
  {
    hide Sort, Filter;
    var s, t := Sort(part + rest, Leq), Sort(part, Leq);
    SortAscends(part + rest);
    SortAscends(part);
    CountsAround(s, k);
    CountsAround(t, k);
    var x := t[k];
    SortCounts(part, y => y <= x);
    SortCounts(part + rest, y => y <= x);
    FilterAppend(part, rest, y => y <= x);
    assert k < CountAtMost(s, x);
    if x < s[k] {
      FilterWider(s, y => y <= x, y => y < s[k]);
    }
  }

  /** Conditional value at risk is the worst average: no other choice of that many returns loses more
      on average. */
  lemma {:induction false} CVarIsWorstAverage(rets: Vec, alpha: real, part: Vec, rest: Vec)
    requires rets != [] && multiset(part + rest) == multiset(rets) && |part| == TailSize(alpha, |rets|)
    ensures -(Sum(part) / |part| as real) <= ConditionalVar(rets, alpha)
  {
    hide Sort, Sum, TailSize;
    var k := |part|;
    var s, t := Sort(rets, Leq), Sort(part, Leq);
    SameSorted(part + rest, rets);
    forall i | 0 <= i < k ensures s[..k][i] <= t[i] {
      PartRanksHigher(part, rest, i);
    }
    SumMonotone(s[..k], t);
    SumSort(part);
    QuotientMonotone(Sum(s[..k]), Sum(part), k as real);
  }

  /** part and rest are the returns split in two, in any order. */
  ghost predicate Splits(rets: Vec, part: Vec, rest: Vec) {
    multiset(part + rest) == multiset(rets)
  }

  /** Conditional value at risk by its definition. The tail has k of the n returns, where k is alpha * n
      rounded down, but at least 1 and at most n: no k of the returns lose more on average, and some k
      lose exactly that. */
  lemma CVarIsTailAverage(rets: Vec, alpha: real, k: nat)
    requires 1 <= k <= |rets|
    requires var share := alpha * |rets| as real;
             || k as real <= share < k as real + 1.0
             || (share < 1.0 && k == 1)
             || (share >= |rets| as real && k == |rets|)
    ensures forall part: Vec, rest: Vec :: Splits(rets, part, rest) && |part| == k ==>
              -(Sum(part) / k as real) <= ConditionalVar(rets, alpha)
    ensures exists part: Vec, rest: Vec :: Splits(rets, part, rest) && |part| == k &&
              -(Sum(part) / k as real) == ConditionalVar(rets, alpha)
  {
    hide *;
    TailSizeIs(alpha, |rets|, k);
    forall part: Vec, rest: Vec | Splits(rets, part, rest) && |part| == k
      ensures -(Sum(part) / k as real) <= ConditionalVar(rets, alpha)
    {
      NoWorseTail(rets, alpha, part, rest);
    }
    var part, rest := WorstTail(rets, alpha);
  }

  lemma TailSizeIs(alpha: real, n: nat, k: nat)
    requires 1 <= k <= n
    requires var share := alpha * n as real;
             || k as real <= share < k as real + 1.0
             || (share < 1.0 && k == 1)
             || (share >= n as real && k == n)
    ensures k == TailSize(alpha, n)
  {
    FloorOf(alpha * n as real, n, k);
  }

  lemma FloorOf(share: real, n: nat, k: nat)
    requires 1 <= k <= n
    ensures k as real <= share < k as real + 1.0 ==> share.Floor == k
    ensures share < 1.0 ==> share.Floor < 1
    ensures share >= n as real ==> share.Floor >= n
  {
    var f := share.Floor;
    if f < n {
      assert f as real + 1.0 == (f + 1) as real <= n as real;
    }
  }

  lemma NoWorseTail(rets: Vec, alpha: real, part: Vec, rest: Vec)
    requires rets != [] && Splits(rets, part, rest) && |part| == TailSize(alpha, |rets|)
    ensures -(Sum(part) / |part| as real) <= ConditionalVar(rets, alpha)
  {
    hide Sum, Sort, TailSize, ConditionalVar;
    CVarIsWorstAverage(rets, alpha, part, rest);
  }

  lemma WorstTail(rets: Vec, alpha: real) returns (part: Vec, rest: Vec)
    requires rets != []
    ensures Splits(rets, part, rest) && |part| == TailSize(alpha, |rets|)
    ensures -(Sum(part) / |part| as real) == ConditionalVar(rets, alpha)
  {
    hide Sum, Sort, TailSize;
    var s, k := Sort(rets, Leq), TailSize(alpha, |rets|);
    SortElements(rets, Leq);
    SameLength(s, rets);
    part, rest := s[..k], s[k..];
    assert part + rest == s;
  }

  /** Levels outside [0, 1) read the ends: the worst return below 0, the best from 1 on. */
  lemma VarBeyondLevels(rets: Vec, alpha: real, x: real)
    requires x in rets && (alpha < 0.0 || alpha >= 1.0)
    ensures -ValueAtRisk(rets, alpha) in rets
    ensures alpha < 0.0 ==> -ValueAtRisk(rets, alpha) <= x
    ensures alpha >= 1.0 ==> x <= -ValueAtRisk(rets, alpha)
  {
    hide Sort, VarIndex;
    var s := Sort(rets, Leq);
    SortAscends(rets);
    SortElements(rets, Leq);
    SameLength(s, rets);
    IndexBeyondLevels(alpha, |rets|);
    var i :| 0 <= i < |s| && s[i] == x;
  }

  lemma IndexBeyondLevels(alpha: real, n: nat)
    requires n > 0
    ensures alpha < 0.0 ==> VarIndex(alpha, n) == 0
    ensures alpha >= 1.0 ==> VarIndex(alpha, n) == n - 1
  {
    var r := n as real;
    if alpha < 0.0 {
      ProductPositive(-alpha, r, -(alpha * r));
    } else if alpha >= 1.0 {
      ProductMonotone(1.0, alpha, r);
    }
  }
}
