/** Fixed income (engine/c/pae_bonds.c, engine/src/api/bonds.rs): yield by bisection, duration,
    convexity. */
module Bonds {
  import opened Reals
  import opened Results
  import opened Vectors

  datatype CashFlow = CashFlow(time: real, amount: real)

  /** df(y, t) stands for pow(1 + y, -t). */
  type Discount = (real, real) -> real

  function PaymentTimes(legs: seq<CashFlow>): set<real> {
    set leg | leg in legs :: leg.time
  }

  ghost predicate PositiveFactors(df: Discount, times: set<real>) {
    forall y: real, t: real :: y > -1.0 && t in times ==> df(y, t) > 0.0
  }

  ghost predicate DecreasingFactors(df: Discount, times: set<real>) {
    forall y: real, z: real, t: real :: -1.0 < y < z && t in times ==> df(z, t) < df(y, t)
  }

  /** Raising the yield shrinks later factors by a larger ratio. */
  ghost predicate LaterFallsFaster(df: Discount, times: set<real>) {
    forall y: real, z: real, s: real, t: real :: -1.0 < y < z && s in times && t in times && s <= t ==>
      df(y, s) * df(z, t) <= df(y, t) * df(z, s)
  }

  /** Each factor lies above its tangent: d/dy (1 + y)^-t = -t (1 + y)^-t / (1 + y). */
  ghost predicate AboveTangent(df: Discount, times: set<real>) {
    forall y: real, z: real, t: real :: y > -1.0 && z > -1.0 && t in times ==>
      df(z, t) * (1.0 + y) >= df(y, t) * (1.0 + y - t * (z - y))
  }

  /** The laws of pow(1 + y, -t) on the given positive times that the analytics rely on. */
  ghost predicate DiscountLaws(df: Discount, times: set<real>) {
    && PositiveFactors(df, times) && DecreasingFactors(df, times)
    && LaterFallsFaster(df, times) && AboveTangent(df, times)
  }

  // ------------------------------------------------- discounted sums

  /** The present value of one leg. */
  function Pv(leg: CashFlow, y: real, df: Discount): real {
    leg.amount * df(y, leg.time)
  }

  function Npv(legs: seq<CashFlow>, y: real, df: Discount): real {
    if legs == [] then 0.0 else Npv(legs[..|legs| - 1], y, df) + Pv(legs[|legs| - 1], y, df)
  }

  /** The sum of t * PV. */
  function TimeSum(legs: seq<CashFlow>, y: real, df: Discount): real {
    if legs == [] then 0.0
    else
      var leg := legs[|legs| - 1];
      TimeSum(legs[..|legs| - 1], y, df) + Times(leg.time, Pv(leg, y, df))
  }

  function TimeWeight(t: real): real {
    t * (t + 1.0)
  }

  /** The sum of t * (t + 1) * PV. */
  function ConvexitySum(legs: seq<CashFlow>, y: real, df: Discount): real {
    if legs == [] then 0.0
    else
      var leg := legs[|legs| - 1];
      ConvexitySum(legs[..|legs| - 1], y, df) + Times(TimeWeight(leg.time), Pv(leg, y, df))
  }

  predicate PositiveTimes(legs: seq<CashFlow>) {
    forall i :: 0 <= i < |legs| ==> legs[i].time > 0.0
  }

  predicate NonNegativeFlows(legs: seq<CashFlow>) {
    forall i :: 0 <= i < |legs| ==> legs[i].amount >= 0.0
  }

  predicate PaysSomething(legs: seq<CashFlow>) {
    exists i :: 0 <= i < |legs| && legs[i].amount > 0.0
  }

  /** The value is the sum of what each leg pays, discounted at its time. */
  lemma {:induction false} NpvIsSum(legs: seq<CashFlow>, y: real, df: Discount)
    ensures Npv(legs, y, df)
            == Sum(seq(|legs|, i requires 0 <= i < |legs| => Times(legs[i].amount, df(y, legs[i].time))))
  {
    var terms := seq(|legs|, i requires 0 <= i < |legs| => Times(legs[i].amount, df(y, legs[i].time)));
    if legs == [] {
    } else {
      var k := |legs| - 1;
      NpvIsSum(legs[..k], y, df);
      assert terms[..k] == seq(k, i requires 0 <= i < k => Times(legs[..k][i].amount, df(y, legs[..k][i].time)));
      assert terms[..k + 1] == terms;
      SumSnoc(terms, k);
    }
  }

  /** Summing the legs in order. */
  method PresentValue(legs: seq<CashFlow>, y: real, df: Discount) returns (npv: real)
    ensures npv == Npv(legs, y, df)
  {
    npv := 0.0;
    for i := 0 to |legs|
      invariant npv == Npv(legs[..i], y, df)
    {
      assert legs[..i + 1][..i] == legs[..i];
      npv := npv + legs[i].amount * df(y, legs[i].time);
    }
    assert legs[..|legs|] == legs;
  }

  method WeightedSums(legs: seq<CashFlow>, y: real, df: Discount) returns (npv: real, s1: real, s2: real)
    ensures npv == Npv(legs, y, df) && s1 == TimeSum(legs, y, df) && s2 == ConvexitySum(legs, y, df)
  {
    npv, s1, s2 := 0.0, 0.0, 0.0;
    for i := 0 to |legs|
      invariant npv == Npv(legs[..i], y, df)
      invariant s1 == TimeSum(legs[..i], y, df)
      invariant s2 == ConvexitySum(legs[..i], y, df)
    {
      assert legs[..i + 1][..i] == legs[..i];
      var t := legs[i].time;
      var pv := legs[i].amount * df(y, t);
      npv := npv + pv;
      s1 := s1 + t * pv;
      s2 := s2 + t * (t + 1.0) * pv;
    }
    assert legs[..|legs|] == legs;
  }

  // ------------------------------------------------------------ the yield

  const LOWEST_YIELD: real := -0.999999
  const HIGHEST_YIELD: real := 10.0
  const MAX_ITERATIONS: nat := 200

  predicate Bracketed(legs: seq<CashFlow>, price: real, df: Discount, lo: real, hi: real) {
    Npv(legs, lo, df) >= price >= Npv(legs, hi, df)
  }

  /** The width of the starting bracket, halved k times. */
  function BracketWidth(k: nat): (w: real)
    ensures w > 0.0 && w * Pow(2.0, k) == 10.999999
  {
    if k == 0 then HIGHEST_YIELD - LOWEST_YIELD else BracketWidth(k - 1) / 2.0
  }

  /** y is an end of a bracket of the price whose width is the starting one halved k times. */
  predicate EndsBracket(legs: seq<CashFlow>, price: real, df: Discount, y: real, lo: real, hi: real, k: nat) {
    && LOWEST_YIELD <= lo < hi <= HIGHEST_YIELD && hi - lo == BracketWidth(k)
    && Bracketed(legs, price, df, lo, hi) && (y == lo || y == hi)
  }

  /** pae_bond_ytm: no yield exactly for invalid input or a price outside the starting bracket;
      otherwise either the yield reprices within tolerance or all 200 halvings were spent and it is
      an end of the last bracket. */
  method YieldToMaturity(legs: seq<CashFlow>, price: real, df: Discount) returns (result: Option<real>)
    ensures result.Some? <==>
      && legs != [] && price > 0.0 && (forall leg :: leg in legs ==> leg.time > 0.0)
      && Npv(legs, -0.999999, df) >= price >= Npv(legs, 10.0, df)
    ensures result.Some? ==>
      && -0.999999 < result.value < 10.0
      && (|| Abs(Npv(legs, result.value, df) - price) <= 0.000000000001 * (1.0 + Abs(price))
          || exists lo: real, hi: real :: EndsBracket(legs, price, df, result.value, lo, hi, 200))
  {
    if |legs| < 1 || price <= 0.0 {
      return None;
    }
    for i := 0 to |legs|
      invariant forall j :: 0 <= j < i ==> legs[j].time > 0.0
    {
      if legs[i].time <= 0.0 {
        return None;
      }
    }
    var lo, hi := LOWEST_YIELD, HIGHEST_YIELD;
    var npvLo := PresentValue(legs, lo, df);
    var npvHi := PresentValue(legs, hi, df);
    if npvLo < price || price < npvHi {
      return None;
    }
    var mid := 0.0;
    var iter := 0;
    while iter < MAX_ITERATIONS
      invariant 0 <= iter <= MAX_ITERATIONS
      invariant LOWEST_YIELD <= lo < hi <= HIGHEST_YIELD && hi - lo == BracketWidth(iter)
      invariant Bracketed(legs, price, df, lo, hi)
      invariant iter > 0 ==> LOWEST_YIELD < mid < HIGHEST_YIELD && (mid == lo || mid == hi)
    {
      mid := 0.5 * (lo + hi);
      var npv := PresentValue(legs, mid, df);
      if Abs(npv - price) <= 0.000000000001 * (1.0 + Abs(price)) {
        return Some(mid);
      }
      if npv > price {
        lo := mid;
      } else {
        hi := mid;
      }
      iter := iter + 1;
    }
    assert EndsBracket(legs, price, df, mid, lo, hi, MAX_ITERATIONS);
    return Some(mid);
  }

  // ------------------------------------- properties of the present value

  lemma PrefixTimes(legs: seq<CashFlow>, df: Discount)
    requires legs != [] && DiscountLaws(df, PaymentTimes(legs))
    ensures DiscountLaws(df, PaymentTimes(legs[..|legs| - 1]))
    ensures legs[|legs| - 1].time in PaymentTimes(legs)
  {
    assert legs[|legs| - 1] in legs;
    assert PaymentTimes(legs[..|legs| - 1]) <= PaymentTimes(legs);
  }

  /** Non-negative cash flows are worth less at a higher yield; strictly less if any is positive. */
  lemma {:induction false} NpvDecreasing(legs: seq<CashFlow>, y: real, z: real, df: Discount)
    requires DiscountLaws(df, PaymentTimes(legs)) && NonNegativeFlows(legs) && -1.0 < y < z
    ensures Npv(legs, z, df) <= Npv(legs, y, df)
    ensures PaysSomething(legs) ==> Npv(legs, z, df) < Npv(legs, y, df)
  {
    hide DiscountLaws, Pv;
    if legs == [] {
    } else {
      PrefixTimes(legs, df);
      NpvDecreasing(legs[..|legs| - 1], y, z, df);
      PvDecreasing(legs, legs[|legs| - 1], y, z, df);
      PaysEarlierOrLast(legs);
    }
  }

  lemma PvDecreasing(legs: seq<CashFlow>, leg: CashFlow, y: real, z: real, df: Discount)
    requires DiscountLaws(df, PaymentTimes(legs)) && leg in legs && leg.amount >= 0.0 && -1.0 < y < z
    ensures Pv(leg, z, df) <= Pv(leg, y, df)
    ensures leg.amount > 0.0 ==> Pv(leg, z, df) < Pv(leg, y, df)
  {
    assert leg.time in PaymentTimes(legs);
    ProductMonotone(df(z, leg.time), df(y, leg.time), leg.amount);
    if leg.amount > 0.0 {
      ProductStrict(df(z, leg.time), df(y, leg.time), leg.amount);
    }
  }

  lemma PaysEarlierOrLast(legs: seq<CashFlow>)
    requires legs != []
    ensures PaysSomething(legs) ==> PaysSomething(legs[..|legs| - 1]) || legs[|legs| - 1].amount > 0.0
  {
    if PaysSomething(legs) {
      var i :| 0 <= i < |legs| && legs[i].amount > 0.0;
      if i < |legs| - 1 {
        assert legs[..|legs| - 1][i].amount > 0.0;
      }
    }
  }

  /** For non-negative flows an exact yield is unique, lies in every bracket of the price, and is
      therefore within the final bracket width of the reported yield. */
  lemma ExactYield(legs: seq<CashFlow>, price: real, df: Discount, root: real, other: real)
    requires DiscountLaws(df, PaymentTimes(legs)) && NonNegativeFlows(legs) && PaysSomething(legs)
    requires root > -1.0 && Npv(legs, root, df) == price
    ensures other > -1.0 ==>
      && (Npv(legs, other, df) == price <==> other == root)
      && (Npv(legs, other, df) >= price <==> other <= root)
    ensures forall lo: real, hi: real :: -1.0 < lo <= hi ==> (Bracketed(legs, price, df, lo, hi) <==> lo <= root <= hi)
    ensures forall y: real, lo: real, hi: real, k: nat ::
      EndsBracket(legs, price, df, y, lo, hi, k) ==> Abs(y - root) <= BracketWidth(k)
  {
    forall o: real | o > -1.0
      ensures Npv(legs, o, df) == price <==> o == root
      ensures Npv(legs, o, df) >= price <==> o <= root
    {
      if o < root { NpvDecreasing(legs, o, root, df); }
      if root < o { NpvDecreasing(legs, root, o, df); }
    }
  }

  // --------------------------------------------- duration and convexity

  predicate ValidLegs(legs: seq<CashFlow>, y: real) {
    legs != [] && y > -1.0 && PositiveTimes(legs)
  }

  function Macaulay(legs: seq<CashFlow>, y: real, df: Discount): real
    requires Npv(legs, y, df) > 0.0
  {
    TimeSum(legs, y, df) / Npv(legs, y, df)
  }

  function Modified(legs: seq<CashFlow>, y: real, df: Discount): real
    requires Npv(legs, y, df) > 0.0 && y > -1.0
  {
    Macaulay(legs, y, df) / (1.0 + y)
  }

  function Convexity(legs: seq<CashFlow>, y: real, df: Discount): real
    requires Npv(legs, y, df) > 0.0 && y > -1.0
  {
    ProductPositive(1.0 + y, 1.0 + y, (1.0 + y) * (1.0 + y));
    ProductPositive(Npv(legs, y, df), (1.0 + y) * (1.0 + y), Npv(legs, y, df) * ((1.0 + y) * (1.0 + y)));
    ConvexitySum(legs, y, df) / (Npv(legs, y, df) * ((1.0 + y) * (1.0 + y)))
  }

  lemma PvSign(legs: seq<CashFlow>, leg: CashFlow, y: real, df: Discount)
    requires DiscountLaws(df, PaymentTimes(legs)) && leg in legs && leg.amount >= 0.0 && y > -1.0
    ensures Pv(leg, y, df) >= 0.0
  {
    assert leg.time in PaymentTimes(legs);
    ProductNonNegative(leg.amount, df(y, leg.time), Pv(leg, y, df));
  }

  lemma {:induction false} TimeSumBetween(legs: seq<CashFlow>, y: real, df: Discount, first: real, last: real)
    requires DiscountLaws(df, PaymentTimes(legs)) && NonNegativeFlows(legs) && y > -1.0
    requires forall i :: 0 <= i < |legs| ==> first <= legs[i].time <= last
    ensures first * Npv(legs, y, df) <= TimeSum(legs, y, df) <= last * Npv(legs, y, df)
  {
    hide DiscountLaws, Pv, Times;
    if legs == [] {
    } else {
      var front, leg := legs[..|legs| - 1], legs[|legs| - 1];
      PrefixTimes(legs, df);
      PvSign(legs, leg, y, df);
      TimeSumBetween(front, y, df, first, last);
      BetweenStep(first, leg.time, last, Npv(front, y, df), Pv(leg, y, df));
    }
  }

  lemma BetweenStep(first: real, t: real, last: real, n: real, p: real)
    requires first <= t <= last && p >= 0.0
    ensures first * (n + p) <= first * n + Times(t, p)
    ensures last * n + Times(t, p) <= last * (n + p)
  {
    ProductMonotone(first, t, p);
    ProductMonotone(t, last, p);
    assert first * (n + p) == first * n + first * p;
    assert last * (n + p) == last * n + last * p;
  }

  /** Macaulay duration lies between the earliest and the latest cash-flow time. */
  lemma DurationBetween(legs: seq<CashFlow>, y: real, df: Discount, first: real, last: real)
    requires DiscountLaws(df, PaymentTimes(legs)) && NonNegativeFlows(legs) && y > -1.0 && Npv(legs, y, df) > 0.0
    requires forall i :: 0 <= i < |legs| ==> first <= legs[i].time <= last
    ensures first <= Macaulay(legs, y, df) <= last
  {
    hide TimeSum, Npv, DiscountLaws;
    TimeSumBetween(legs, y, df, first, last);
    var n, d := Npv(legs, y, df), Macaulay(legs, y, df);
    Quotient(TimeSum(legs, y, df), n, d);
    ProductCancel(first, d, n);
    ProductCancel(d, last, n);
  }

  /** How much more leg a loses than leg b when the yield moves from y to z, scaled by both values. */
  function Tilt(a: CashFlow, b: CashFlow, y: real, z: real, df: Discount): real {
    Pv(a, y, df) * Pv(b, z, df) - Pv(a, z, df) * Pv(b, y, df)
  }

  /** Discounting more at the higher yield favours the earlier of two legs. */
  lemma CrossTerm(legs: seq<CashFlow>, a: CashFlow, b: CashFlow, y: real, z: real, df: Discount)
    requires DiscountLaws(df, PaymentTimes(legs)) && a in legs && b in legs && -1.0 < y < z
    requires a.amount >= 0.0 && b.amount >= 0.0
    ensures Times(a.time - b.time, Tilt(a, b, y, z, df)) >= 0.0
  {
    assert a.time in PaymentTimes(legs) && b.time in PaymentTimes(legs);
    var w := a.amount * b.amount;
    ProductNonNegative(a.amount, b.amount, w);
    var p, q := df(y, a.time) * df(z, b.time), df(z, a.time) * df(y, b.time);
    assert Pv(a, y, df) * Pv(b, z, df) == w * p;
    assert Pv(a, z, df) * Pv(b, y, df) == w * q;
    SignedProduct(a.time - b.time, w, p, q);
  }

  lemma SignedProduct(d: real, w: real, p: real, q: real)
    requires w >= 0.0 && ((d <= 0.0 && p <= q) || (d >= 0.0 && q <= p))
    ensures d * (w * p - w * q) >= 0.0
  {
    var x := w * p - w * q;
    assert x == w * (p - q);
    if d <= 0.0 && p <= q {
      ProductNonNegative(w, q - p, -x);
      ProductNonNegative(-d, -x, d * x);
    } else {
      ProductNonNegative(w, p - q, x);
      ProductNonNegative(d, x, d * x);
    }
  }

  /** One leg b against all of front: the sum of the cross terms of b with every leg of front. */
  lemma {:induction false} CrossSum(legs: seq<CashFlow>, front: seq<CashFlow>, b: CashFlow, y: real, z: real,
      df: Discount)
    requires DiscountLaws(df, PaymentTimes(legs)) && NonNegativeFlows(front) && b in legs && b.amount >= 0.0
    requires -1.0 < y < z
    requires forall leg :: leg in front ==> leg in legs
    ensures TimeSum(front, y, df) * Pv(b, z, df) - TimeSum(front, z, df) * Pv(b, y, df)
            - b.time * (Npv(front, y, df) * Pv(b, z, df) - Npv(front, z, df) * Pv(b, y, df)) >= 0.0
  {
    hide DiscountLaws, Pv, Times;
    if front == [] {
    } else {
      var rest, a := front[..|front| - 1], front[|front| - 1];
      CrossSum(legs, rest, b, y, z, df);
      CrossTerm(legs, a, b, y, z, df);
      CrossStep(TimeSum(rest, y, df), TimeSum(rest, z, df), Npv(rest, y, df), Npv(rest, z, df),
                a.time, Pv(a, y, df), Pv(a, z, df), b.time, Pv(b, y, df), Pv(b, z, df), Tilt(a, b, y, z, df));
    }
  }

  lemma CrossStep(ty: real, tz: real, ny: real, nz: real, s: real, a: real, b: real, t: real, p: real, q: real,
      x: real)
    requires ty * q - tz * p - t * (ny * q - nz * p) >= 0.0
    requires x == a * q - b * p && Times(s - t, x) >= 0.0
    ensures (ty + Times(s, a)) * q - (tz + Times(s, b)) * p - t * ((ny + a) * q - (nz + b) * p) >= 0.0
  {
    var l, r := ty * q - tz * p, ny * q - nz * p;
    assert (ty + s * a) * q - (tz + s * b) * p == l + s * x by {
      assert (s * a) * q - (s * b) * p == s * x;
    }
    assert (ny + a) * q - (nz + b) * p == r + x;
    assert l + s * x - t * (r + x) == (l - t * r) + (s - t) * x;
  }

  lemma {:induction false} DurationCross(legs: seq<CashFlow>, y: real, z: real, df: Discount)
    requires DiscountLaws(df, PaymentTimes(legs)) && NonNegativeFlows(legs) && -1.0 < y < z
    ensures TimeSum(legs, z, df) * Npv(legs, y, df) <= TimeSum(legs, y, df) * Npv(legs, z, df)
  {
    hide DiscountLaws, Pv, Times;
    if legs == [] {
    } else {
      var front, b := legs[..|legs| - 1], legs[|legs| - 1];
      PrefixTimes(legs, df);
      DurationCross(front, y, z, df);
      CrossSum(legs, front, b, y, z, df);
      DurationStep(TimeSum(front, y, df), TimeSum(front, z, df), Npv(front, y, df), Npv(front, z, df),
                   b.time, Pv(b, y, df), Pv(b, z, df));
    }
  }

  lemma DurationStep(ty: real, tz: real, ny: real, nz: real, t: real, p: real, q: real)
    requires tz * ny <= ty * nz && ty * q - tz * p - t * (ny * q - nz * p) >= 0.0
    ensures (tz + Times(t, q)) * (ny + p) <= (ty + Times(t, p)) * (nz + q)
  {
    assert (ty + t * p) * (nz + q) - (tz + t * q) * (ny + p)
        == (ty * nz - tz * ny) + (ty * q - tz * p - t * (ny * q - nz * p));
  }

  /** Macaulay duration never rises with the yield. */
  lemma DurationNonIncreasing(legs: seq<CashFlow>, y: real, z: real, df: Discount)
    requires DiscountLaws(df, PaymentTimes(legs)) && NonNegativeFlows(legs) && -1.0 < y < z
    requires Npv(legs, y, df) > 0.0 && Npv(legs, z, df) > 0.0
    ensures Macaulay(legs, z, df) <= Macaulay(legs, y, df)
  {
    hide DiscountLaws, TimeSum, Npv;
    DurationCross(legs, y, z, df);
    CrossDivide(TimeSum(legs, y, df), Npv(legs, y, df), TimeSum(legs, z, df), Npv(legs, z, df));
  }

  /** The PV-weighted sum of (t - m)^2, from the three sums. */
  function Spread(s: real, w: real, n: real, m: real): real {
    s - Times(1.0 + 2.0 * m, w) + Times(Square(m), n)
  }

  /** The PV-weighted mean square distance of the times from m is non-negative. */
  lemma {:induction false} SpreadNonNegative(legs: seq<CashFlow>, y: real, df: Discount, m: real)
    requires DiscountLaws(df, PaymentTimes(legs)) && NonNegativeFlows(legs) && y > -1.0
    ensures Spread(ConvexitySum(legs, y, df), TimeSum(legs, y, df), Npv(legs, y, df), m) >= 0.0
  {
    hide DiscountLaws, Pv, Times, Spread, TimeWeight;
    if legs == [] {
      SpreadOfNothing(m);
    } else {
      var front, leg := legs[..|legs| - 1], legs[|legs| - 1];
      PrefixTimes(legs, df);
      PvSign(legs, leg, y, df);
      SpreadNonNegative(front, y, df, m);
      SpreadStep(ConvexitySum(front, y, df), TimeSum(front, y, df), Npv(front, y, df), leg.time, Pv(leg, y, df), m);
    }
  }

  lemma SpreadOfNothing(m: real)
    ensures Spread(0.0, 0.0, 0.0, m) == 0.0
  {
  }

  lemma SpreadStep(s: real, w: real, n: real, t: real, p: real, m: real)
    requires Spread(s, w, n, m) >= 0.0 && p >= 0.0
    ensures Spread(s + Times(TimeWeight(t), p), w + Times(t, p), n + p, m) >= 0.0
  {
    hide Times, Square, TimeWeight;
    var u := Times(t, p);
    ExpandWeight(t, p, u);
    ExpandSquare(t, p, m, u);
    ExpandLinear(w, m, u);
    ExpandConstant(n, p, m);
  }

  lemma ExpandWeight(t: real, p: real, u: real)
    requires u == Times(t, p)
    ensures Times(TimeWeight(t), p) == Times(t, u) + u
  {
  }

  lemma ExpandSquare(t: real, p: real, m: real, u: real)
    requires u == Times(t, p) && p >= 0.0
    ensures Times(t, u) - 2.0 * Times(m, u) + Times(Square(m), p) >= 0.0
  {
    SquareSign(t - m);
    ProductNonNegative(Square(t - m), p, Square(t - m) * p);
  }

  lemma ExpandLinear(w: real, m: real, u: real)
    ensures Times(1.0 + 2.0 * m, w + u) == Times(1.0 + 2.0 * m, w) + u + 2.0 * Times(m, u)
  {
  }

  lemma ExpandConstant(n: real, p: real, m: real)
    ensures Times(Square(m), n + p) == Times(Square(m), n) + Times(Square(m), p)
  {
  }

  /** Convexity is at least what a single payment at the duration would have:
      convexity * (1 + y)^2 >= D * (D + 1). */
  lemma ConvexityLowerBound(legs: seq<CashFlow>, y: real, df: Discount)
    requires DiscountLaws(df, PaymentTimes(legs)) && NonNegativeFlows(legs) && y > -1.0 && Npv(legs, y, df) > 0.0
    ensures var d := Macaulay(legs, y, df);
            Convexity(legs, y, df) * ((1.0 + y) * (1.0 + y)) >= d * (d + 1.0)
  {
    hide DiscountLaws, TimeSum, ConvexitySum, Npv;
    var n, w, s, d := Npv(legs, y, df), TimeSum(legs, y, df), ConvexitySum(legs, y, df), Macaulay(legs, y, df);
    var b := (1.0 + y) * (1.0 + y);
    SpreadNonNegative(legs, y, df, d);
    Quotient(w, n, d);
    ProductPositive(1.0 + y, 1.0 + y, b);
    ProductPositive(n, b, n * b);
    JensenNumbers(s, w, n, d);
    ScaledConvexity(s, n, b, Convexity(legs, y, df), d * (d + 1.0));
  }

  lemma JensenNumbers(s: real, w: real, n: real, d: real)
    requires w == d * n && Spread(s, w, n, d) >= 0.0
    ensures s >= n * (d * (d + 1.0))
  {
    hide Times, Square;
    JensenExpand(w, n, d, d * w);
  }

  lemma JensenExpand(w: real, n: real, d: real, f: real)
    requires w == d * n && f == d * w
    ensures Times(1.0 + 2.0 * d, w) - Times(Square(d), n) == n * (d * (d + 1.0))
  {
    assert (1.0 + 2.0 * d) * w == w + 2.0 * f;
    assert d * d * n == f;
    assert n * (d * (d + 1.0)) == f + w;
  }

  lemma ScaledConvexity(s: real, n: real, b: real, c: real, target: real)
    requires n > 0.0 && b > 0.0 && n * b > 0.0 && c == s / (n * b) && s >= n * target
    ensures c * b >= target
  {
    Quotient(s, n * b, c);
    assert (c * b) * n == c * (n * b);
    assert target * n == n * target;
    ProductCancel(target, c * b, n);
  }

  lemma {:induction false} SlopeSum(legs: seq<CashFlow>, y: real, z: real, df: Discount)
    requires DiscountLaws(df, PaymentTimes(legs)) && NonNegativeFlows(legs) && y > -1.0 && z > -1.0
    ensures Npv(legs, z, df) * (1.0 + y) >= Npv(legs, y, df) * (1.0 + y) - TimeSum(legs, y, df) * (z - y)
  {
    hide DiscountLaws, Pv, Times;
    if legs == [] {
    } else {
      var front, leg := legs[..|legs| - 1], legs[|legs| - 1];
      PrefixTimes(legs, df);
      SlopeSum(front, y, z, df);
      SlopeTerm(legs, leg, y, z, df);
      SlopeStep(Npv(front, z, df), Npv(front, y, df), TimeSum(front, y, df), Pv(leg, z, df), Pv(leg, y, df),
                Times(leg.time, Pv(leg, y, df)), 1.0 + y, z - y);
    }
  }

  lemma SlopeStep(nz: real, ny: real, w: real, q: real, p: real, tp: real, base: real, h: real)
    requires nz * base >= ny * base - w * h && q * base >= p * base - tp * h
    ensures (nz + q) * base >= (ny + p) * base - (w + tp) * h
  {
  }

  lemma SlopeTerm(legs: seq<CashFlow>, leg: CashFlow, y: real, z: real, df: Discount)
    requires DiscountLaws(df, PaymentTimes(legs)) && leg in legs && leg.amount >= 0.0 && y > -1.0 && z > -1.0
    ensures Pv(leg, z, df) * (1.0 + y) >= Pv(leg, y, df) * (1.0 + y) - Times(leg.time, Pv(leg, y, df)) * (z - y)
  {
    assert leg.time in PaymentTimes(legs);
    var l, r := df(z, leg.time) * (1.0 + y), df(y, leg.time) * (1.0 + y - leg.time * (z - y));
    ProductMonotone(r, l, leg.amount);
    assert leg.amount * l == Pv(leg, z, df) * (1.0 + y);
    SlopeExpand(leg.amount, df(y, leg.time), leg.time, 1.0 + y, z - y);
  }

  lemma SlopeExpand(amount: real, d: real, t: real, base: real, h: real)
    ensures amount * (d * (base - t * h)) == amount * d * base - t * (amount * d) * h
  {
  }

  /** Modified duration is the price's sensitivity: the tangent line it gives never overstates the
      price at another yield. */
  lemma ModifiedDurationBoundsPrice(legs: seq<CashFlow>, y: real, z: real, df: Discount)
    requires DiscountLaws(df, PaymentTimes(legs)) && NonNegativeFlows(legs) && y > -1.0 && z > -1.0
    requires Npv(legs, y, df) > 0.0
    ensures Npv(legs, z, df) >= Npv(legs, y, df) * (1.0 - Modified(legs, y, df) * (z - y))
  {
    hide DiscountLaws, TimeSum, Npv;
    SlopeSum(legs, y, z, df);
    var n, w, base := Npv(legs, y, df), TimeSum(legs, y, df), 1.0 + y;
    var d, m := Macaulay(legs, y, df), Modified(legs, y, df);
    Quotient(w, n, d);
    Quotient(d, base, m);
    TangentNumbers(Npv(legs, z, df), n, w, d, m, base, z - y);
  }

  lemma TangentNumbers(nz: real, n: real, w: real, d: real, m: real, base: real, h: real)
    requires base > 0.0 && nz * base >= n * base - w * h && w == d * n && d == m * base
    ensures nz >= n * (1.0 - m * h)
  {
    assert w * h == (n * (m * h)) * base;
    assert (n * (1.0 - m * h)) * base == n * base - (n * (m * h)) * base;
    ProductCancel(n * (1.0 - m * h), nz, base);
  }

  // ------------------------------------------------------- the endpoint

  method MacaulayDuration(legs: seq<CashFlow>, y: real, df: Discount) returns (result: Option<real>)
    ensures result.Some? <==>
      legs != [] && y > -1.0 && (forall leg :: leg in legs ==> leg.time > 0.0) && Npv(legs, y, df) > 0.0
    ensures result.Some? ==> result.value == Macaulay(legs, y, df)
  {
    hide TimeSum, ConvexitySum, Npv;
    if !ValidLegs(legs, y) {
      return None;
    }
    var npv, s1, s2 := WeightedSums(legs, y, df);
    if npv <= 0.0 {
      return None;
    }
    return Some(s1 / npv);
  }

  method ModifiedDuration(legs: seq<CashFlow>, y: real, df: Discount) returns (result: Option<real>)
    ensures result.Some? <==>
      legs != [] && y > -1.0 && (forall leg :: leg in legs ==> leg.time > 0.0) && Npv(legs, y, df) > 0.0
    ensures result.Some? ==> result.value == Modified(legs, y, df)
  {
    var mac := MacaulayDuration(legs, y, df);
    if mac == None {
      return None;
    }
    return Some(mac.value / (1.0 + y));
  }

  method BondConvexity(legs: seq<CashFlow>, y: real, df: Discount) returns (result: Option<real>)
    ensures result.Some? <==>
      legs != [] && y > -1.0 && (forall leg :: leg in legs ==> leg.time > 0.0) && Npv(legs, y, df) > 0.0
    ensures result.Some? ==> result.value == Convexity(legs, y, df)
  {
    hide TimeSum, ConvexitySum, Npv;
    if !ValidLegs(legs, y) {
      return None;
    }
    var npv, s1, s2 := WeightedSums(legs, y, df);
    if npv <= 0.0 {
      return None;
    }
    var base := 1.0 + y;
    ProductPositive(base, base, base * base);
    ProductPositive(npv, base * base, npv * (base * base));
    return Some(s2 / (npv * (base * base)));
  }

  datatype BondError =
    | EmptyCashFlows
    | TooManyCashFlows
    | InvalidCashFlow(index: nat)
    | MissingPriceAndYield
    | BothPriceAndYield
    | InvalidPrice
    | InvalidYield
    | ComputationFailed(what: string)

  datatype BondAnalytics = BondAnalytics(
    npv: real, ytm: real, macaulay: real, modified: real, convexity: real, numCashFlows: nat)

  const MAX_CASH_FLOWS: nat := 1200

  /** What an error says of the request; legs are looked at before price and yield. */
  predicate IsBondFault(legs: seq<CashFlow>, price: Option<real>, yieldAnnual: Option<real>, e: BondError) {
    var legsFine := 0 < |legs| <= 1200 && PositiveTimes(legs);
    match e
    case EmptyCashFlows => legs == []
    case TooManyCashFlows => |legs| > 1200
    case InvalidCashFlow(k) =>
      k < |legs| <= 1200 && legs[k].time <= 0.0 && forall i :: 0 <= i < k ==> legs[i].time > 0.0
    case BothPriceAndYield => legsFine && price.Some? && yieldAnnual.Some?
    case MissingPriceAndYield => legsFine && price.None? && yieldAnnual.None?
    case InvalidPrice => legsFine && price.Some? && yieldAnnual.None? && price.value <= 0.0
    case InvalidYield => legsFine && price.None? && yieldAnnual.Some? && yieldAnnual.value <= -1.0
    case ComputationFailed(_) => false
  }

  /** The error of the checks that come before any computation, in the order they are made. */
  function ValidateBond(legs: seq<CashFlow>, price: Option<real>, yieldAnnual: Option<real>): (e: Option<BondError>)
    ensures e == None <==>
      && legs != [] && |legs| <= 1200 && (forall leg :: leg in legs ==> leg.time > 0.0)
      && (price.Some? <==> yieldAnnual.None?)
      && (price.Some? ==> price.value > 0.0) && (yieldAnnual.Some? ==> yieldAnnual.value > -1.0)
    ensures e.Some? ==> IsBondFault(legs, price, yieldAnnual, e.value)
  {
    if legs == [] then Some(EmptyCashFlows)
    else if |legs| > MAX_CASH_FLOWS then Some(TooManyCashFlows)
    else
      var bad := FirstBadLeg(legs, 0);
      if bad < |legs| then Some(InvalidCashFlow(bad))
      else if price.Some? && yieldAnnual.Some? then Some(BothPriceAndYield)
      else if price.None? && yieldAnnual.None? then Some(MissingPriceAndYield)
      else if price.Some? && price.value <= 0.0 then Some(InvalidPrice)
      else if yieldAnnual.Some? && yieldAnnual.value <= -1.0 then Some(InvalidYield)
      else None
  }

  function FirstBadLeg(legs: seq<CashFlow>, from: nat): (k: nat)
    requires from <= |legs|
    ensures from <= k <= |legs| && (forall i :: from <= i < k ==> legs[i].time > 0.0)
    ensures k < |legs| ==> legs[k].time <= 0.0
    decreases |legs| - from
  {
    if from == |legs| || legs[from].time <= 0.0 then from else FirstBadLeg(legs, from + 1)
  }

  /** No payment is negative and some are positive, under a lawful discount. */
  ghost predicate PaysUnderLaws(legs: seq<CashFlow>, df: Discount) {
    DiscountLaws(df, PaymentTimes(legs)) && NonNegativeFlows(legs) && PaysSomething(legs)
  }

  /** Such a bond has positive value at every yield, so its duration is never undefined. */
  lemma PayingBondHasValue(legs: seq<CashFlow>, y: real, df: Discount)
    requires PaysUnderLaws(legs, df) && y > -1.0
    ensures Npv(legs, y, df) > 0.0
  {
    NpvSign(legs, y, df);
  }

  lemma {:induction false} NpvSign(legs: seq<CashFlow>, y: real, df: Discount)
    requires DiscountLaws(df, PaymentTimes(legs)) && NonNegativeFlows(legs) && y > -1.0
    ensures Npv(legs, y, df) >= 0.0
    ensures PaysSomething(legs) ==> Npv(legs, y, df) > 0.0
  {
    hide DiscountLaws, Pv;
    if legs == [] {
    } else {
      var leg := legs[|legs| - 1];
      PrefixTimes(legs, df);
      NpvSign(legs[..|legs| - 1], y, df);
      PvSign(legs, leg, y, df);
      PvPositive(legs, leg, y, df);
      PaysEarlierOrLast(legs);
    }
  }

  lemma PvPositive(legs: seq<CashFlow>, leg: CashFlow, y: real, df: Discount)
    requires DiscountLaws(df, PaymentTimes(legs)) && leg in legs && y > -1.0
    ensures leg.amount > 0.0 ==> Pv(leg, y, df) > 0.0
  {
    assert leg.time in PaymentTimes(legs);
    if leg.amount > 0.0 {
      ProductPositive(leg.amount, df(y, leg.time), Pv(leg, y, df));
    }
  }

  /** analyze_bond. The reported value is the price at the reported yield; a price is answered exactly
      when it is bracketed and worth something at the yield found, and that yield then reprices the
      bond within tolerance or ends a bracket of width 10.999999 / 2^200. */
  method AnalyzeBond(legs: seq<CashFlow>, price: Option<real>, yieldAnnual: Option<real>, df: Discount)
    returns (result: Result<BondAnalytics, BondError>)
    ensures ValidateBond(legs, price, yieldAnnual).Some? ==> result == Err(ValidateBond(legs, price, yieldAnnual).value)
    ensures ValidateBond(legs, price, yieldAnnual).None? && price.Some? ==>
      && (result == Err(ComputationFailed("yield did not converge"))
          <==> !(Npv(legs, -0.999999, df) >= price.value >= Npv(legs, 10.0, df)))
      && (PaysUnderLaws(legs, df) ==>
            (result.Ok? <==> Npv(legs, -0.999999, df) >= price.value >= Npv(legs, 10.0, df)))
    ensures ValidateBond(legs, price, yieldAnnual).None? && yieldAnnual.Some? ==>
      (result.Ok? <==> Npv(legs, yieldAnnual.value, df) > 0.0)
    ensures result.Ok? ==>
      var r := result.value;
      && r.ytm > -1.0 && Npv(legs, r.ytm, df) > 0.0 && r.numCashFlows == |legs|
      && r.npv == Npv(legs, r.ytm, df) && r.macaulay == Macaulay(legs, r.ytm, df)
      && r.modified == Modified(legs, r.ytm, df) && r.convexity == Convexity(legs, r.ytm, df)
      && (yieldAnnual.Some? ==> r.ytm == yieldAnnual.value)
      && (price.Some? ==>
            (|| Abs(Npv(legs, r.ytm, df) - price.value) <= 0.000000000001 * (1.0 + Abs(price.value))
             || exists lo: real, hi: real :: EndsBracket(legs, price.value, df, r.ytm, lo, hi, 200)))
  {
    hide Npv, Macaulay, Modified, Convexity, EndsBracket, DiscountLaws, NonNegativeFlows, PaysSomething;
    var invalid := ValidateBond(legs, price, yieldAnnual);
    if invalid.Some? {
      return Err(invalid.value);
    }
    var y: real;
    if price.Some? {
      var solved := YieldToMaturity(legs, price.value, df);
      if solved == None {
        return Err(ComputationFailed("yield did not converge"));
      }
      y := solved.value;
    } else {
      y := yieldAnnual.value;
    }
    if PaysUnderLaws(legs, df) {
      PayingBondHasValue(legs, y, df);
    }
    var npv := PresentValue(legs, y, df);
    var macaulay := MacaulayDuration(legs, y, df);
    if macaulay == None {
      return Err(ComputationFailed("duration undefined"));
    }
    var modified := ModifiedDuration(legs, y, df);
    var convexity := BondConvexity(legs, y, df);
    result := Ok(BondAnalytics(npv, y, macaulay.value, modified.value, convexity.value, |legs|));
  }
}
