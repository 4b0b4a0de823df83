/** Sample statistics of equal-length series: means, deviations from the mean, covariances.

    Deviations from the mean are linear in the series, so centring a combination of series is combining the
    centred series. The factor regression uses this to split the total sum of squares, and the covariance
    kernels to read a quadratic form as the variance of a portfolio. */
module Samples {
  import opened Reals
  import opened Vectors

  function Mean(v: Vec): real
    requires |v| > 0
  {
    Sum(v) / |v| as real
  }

  function Centered(v: Vec): (r: Vec)
    requires |v| > 0
    ensures |r| == |v|
  {
    Sub(v, Const(|v|, Mean(v)))
  }

  /** Sample covariance with divisor n - 1. */
  function Covariance(u: Vec, v: Vec): real
    requires |u| == |v| > 1
  {
    Dot(Centered(u), Centered(v)) / (|u| - 1) as real
  }

  function Variance(v: Vec): real
    requires |v| > 1
  {
    Covariance(v, v)
  }

  function CenteredRows(rows: Matrix, n: nat): (r: Matrix)
    requires n > 0 && HasWidth(rows, n)
    ensures |r| == |rows| && HasWidth(r, n)
  {
    seq(|rows|, i requires 0 <= i < |rows| => Centered(rows[i]))
  }

  lemma MeanLinear(c: real, u: Vec, v: Vec)
    requires |u| == |v| > 0
    ensures Mean(Add(Scale(c, u), v)) == c * Mean(u) + Mean(v)
  {
    hide Add, Scale;
    var w, su, sv := Add(Scale(c, u), v), Sum(u), Sum(v);
    SumAdd(Scale(c, u), v);
    SumScale(c, u);
    assert |w| == |u| && Sum(w) == c * su + sv;
    LinearQuotient(c, su, sv, |u| as real);
  }

  lemma LinearQuotient(c: real, a: real, b: real, n: real)
    requires n > 0.0
    ensures (c * a + b) / n == c * (a / n) + b / n
  {
  }

  lemma CenteredLinear(c: real, u: Vec, v: Vec)
    requires |u| == |v| > 0
    ensures Centered(Add(Scale(c, u), v)) == Add(Scale(c, Centered(u)), Centered(v))
  {
    var w := Add(Scale(c, u), v);
    var mu, mv := Mean(u), Mean(v);
    MeanLinear(c, u, v);
    var cu := Centered(u);
    var l, r := Centered(w), Add(Scale(c, cu), Centered(v));
    forall i | 0 <= i < |u| ensures l[i] == r[i] {
      var x, z := u[i], cu[i];
      assert z == x - mu;
      assert l[i] == c * x + v[i] - (c * mu + mv);
      assert r[i] == c * z + (v[i] - mv);
    }
  }

  lemma CenteredConst(n: nat, c: real)
    requires n > 0
    ensures Centered(Const(n, c)) == Const(n, 0.0)
  {
    SumConst(n, c);
    var m, k := Mean(Const(n, c)), n as real;
    LinearQuotient(c, k, 0.0, k);
    assert m == c;
  }

  lemma {:induction false} CenteredComb(c: Vec, rows: Matrix, n: nat)
    requires n > 0 && |c| == |rows| && HasWidth(rows, n)
    ensures Centered(Comb(c, rows, n)) == Comb(c, CenteredRows(rows, n), n)
  {
    if c == [] {
      assert Comb(c, rows, n) == Const(n, 0.0) == Comb(c, CenteredRows(rows, n), n);
      CenteredConst(n, 0.0);
    } else {
      CombStep(c, rows, n);
      CombStep(c, CenteredRows(rows, n), n);
      CenteredComb(c[1..], rows[1..], n);
      CenteredLinear(c[0], rows[0], Comb(c[1..], rows[1..], n));
      assert CenteredRows(rows, n)[1..] == CenteredRows(rows[1..], n);
    }
  }

  predicate IsConstant(s: Vec)
    requires s != []
  {
    forall i :: 0 <= i < |s| ==> s[i] == s[0]
  }

  lemma VarianceNonNegative(s: Vec)
    requires |s| > 1
    ensures Variance(s) >= 0.0
  {
    DotSelf(Centered(s));
    Quotient(Dot(Centered(s), Centered(s)), (|s| - 1) as real, Variance(s));
  }

  /** A series has variance 0 exactly when it is constant: the degeneracy test is exact over reals. */
  lemma VarianceZero(s: Vec)
    requires |s| > 1
    ensures Variance(s) == 0.0 <==> IsConstant(s)
  {
    hide Mean, Dot;
    var c, d := Centered(s), Dot(Centered(s), Centered(s));
    DotSelf(c);
    Quotient(d, (|s| - 1) as real, Variance(s));
    if IsConstant(s) {
      assert s == Const(|s|, s[0]);
      CenteredConst(|s|, s[0]);
    }
    if Variance(s) == 0.0 {
      forall i | 0 <= i < |s| ensures s[i] == s[0] {
        assert c[i] == 0.0 && c[0] == 0.0;
      }
    }
  }

  lemma OwnCovariancePositive(s: Vec)
    requires |s| > 1 && !IsConstant(s)
    ensures Variance(s) > 0.0
  {
    VarianceZero(s);
    VarianceNonNegative(s);
  }
}
