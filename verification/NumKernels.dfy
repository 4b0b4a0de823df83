/** The kernels of engine/c/pae_num.c over exact numbers, and their wrappers in engine/src/num_ffi.rs. */
module NumKernels {
  import opened ColumnMajor
  import opened Reals
  import opened Results
  import opened Samples
  import opened Vectors

  datatype NumError = InvalidInput | NativeCallFailed

  // ------------------------------------------------------ specifications

  /** Covariance of every two series. */
  function CovarianceOf(series: Matrix, m: nat): (r: Matrix)
    requires HasWidth(series, m) && m > 1
    ensures IsSquare(r, |series|)
  {
    seq(|series|, j requires 0 <= j < |series| =>
      seq(|series|, i requires 0 <= i < |series| => Covariance(series[i], series[j])))
  }

  /** The largest of the first k variances on the diagonal, at least 0. */
  function LargestVariance(c: Matrix, n: nat, k: nat): (r: real)
    requires IsSquare(c, n) && k <= n
    ensures r >= 0.0 && forall i :: 0 <= i < k ==> c[i][i] <= r
  {
    if k == 0 then 0.0 else Max(LargestVariance(c, n, k - 1), c[k - 1][k - 1])
  }

  /** Variances at or below this are treated as constant series. */
  function Tolerance(c: Matrix, n: nat): real
    requires IsSquare(c, n)
  {
    LargestVariance(c, n, n) * 0.000000000001
  }

  function Clamp(x: real): (r: real)
    ensures -1.0 <= r <= 1.0 && (-1.0 <= x <= 1.0 ==> r == x) && (r == 0.0 <==> x == 0.0)
  {
    if x > 1.0 then 1.0 else if x < -1.0 then -1.0 else x
  }

  /** One entry from the two variances, the covariance, and the tolerance. */
  function EntryValue(vi: real, vj: real, cij: real, tol: real, diagonal: bool, sqrt: real -> real): real {
    if diagonal then
      if vi > 0.0 then 1.0 else 0.0
    else if vi <= tol || vj <= tol then
      0.0
    else
      var denom := sqrt(vi * vj);
      if denom > 0.0 then Clamp(cij / denom) else 0.0
  }

  function KernelEntry(c: Matrix, n: nat, i: nat, j: nat, sqrt: real -> real): real
    requires IsSquare(c, n) && i < n && j < n
  {
    EntryValue(c[i][i], c[j][j], c[j][i], Tolerance(c, n), i == j, sqrt)
  }

  function KernelCorrelation(c: Matrix, n: nat, sqrt: real -> real): (r: Matrix)
    requires IsSquare(c, n)
    ensures IsSquare(r, n)
  {
    seq(n, j requires 0 <= j < n => seq(n, i requires 0 <= i < n => KernelEntry(c, n, i, j, sqrt)))
  }

  /** Correlation of two of the aligned series on the native route. */
  function NativeEntry(series: Matrix, m: nat, i: nat, j: nat, sqrt: real -> real): real
    requires HasWidth(series, m) && m > 1 && i < |series| && j < |series|
  {
    if i == j then 1.0
    else if IsConstant(series[i]) || IsConstant(series[j]) then 0.0
    else KernelEntry(CovarianceOf(series, m), |series|, i, j, sqrt)
  }

  function NativeMatrix(series: Matrix, m: nat, sqrt: real -> real): (r: Matrix)
    requires HasWidth(series, m) && m > 1
    ensures IsSquare(r, |series|)
  {
    seq(|series|, i requires 0 <= i < |series| =>
      seq(|series|, j requires 0 <= j < |series| => NativeEntry(series, m, i, j, sqrt)))
  }

  // ---------------------------------------------------------- the kernels

  /** pae_covariance: centre each column, multiply, scale. The buffer x is left alone. */
  method CovarianceKernel(x: array<real>, m: nat, n: nat, cov: array<real>) returns (ok: bool)
    requires x.Length == m * n && cov.Length == n * n && x != cov
    modifies cov
    ensures ok <==> m >= 2 && n >= 1
    ensures ok ==> Columns(cov[..], n, n) == CovarianceOf(Columns(x[..], m, n), m)
    ensures !ok ==> cov[..] == old(cov[..])
  {
    hide *;
    if m < 2 || n < 1 {
      return false;
    }
    ghost var series := Columns(x[..], m, n);
    var xc := CentredCopy(x, m, n);
    Multiply(xc, m, n, cov);
    ghost var products := cov[..];
    ScaleAll(cov, 1.0 / (m - 1) as real);
    ScaledProducts(products, cov[..], series, m, n);
    ok := true;
  }

  method CentredCopy(x: array<real>, m: nat, n: nat) returns (xc: array<real>)
    requires x.Length == m * n && m > 0
    ensures fresh(xc) && xc.Length == m * n
    ensures Columns(xc[..], m, n) == CenteredRows(Columns(x[..], m, n), m)
  {
    hide Slot, FilledTo, Sum;
    ghost var series := Columns(x[..], m, n);
    ghost var target := CenteredRows(series, m);
    xc := new real[m * n];
    NothingToFill(xc[..], target, m);
    for j := 0 to n
      invariant FilledTo(xc[..], target, m, j, 0)
    {
      var mean := 0.0;
      SumEmpty();
      for i := 0 to m
        invariant mean == Sum(series[j][..i]) && FilledTo(xc[..], target, m, j, 0)
      {
        SumSnoc(series[j], i);
        mean := mean + x[Slot(i, j, m, n)];
      }
      assert series[j][..m] == series[j];
      mean := mean / m as real;
      for i := 0 to m
        invariant FilledTo(xc[..], target, m, j, i)
      {
        FillEntry(xc[..], target, m, j, i);
        xc[Slot(i, j, m, n)] := x[Slot(i, j, m, n)] - mean;
      }
      FilledColumn(xc[..], target, m, j);
    }
    Filled(xc[..], target, m);
  }

  /** Products of the columns of a with each other. */
  function Products(series: Matrix, m: nat): (r: Matrix)
    requires HasWidth(series, m)
    ensures IsSquare(r, |series|)
  {
    seq(|series|, j requires 0 <= j < |series| =>
      seq(|series|, i requires 0 <= i < |series| => Dot(series[i], series[j])))
  }

  /** dgemm with both operands xc, the first transposed: cov = xc' * xc. */
  method Multiply(xc: array<real>, m: nat, n: nat, cov: array<real>)
    requires xc.Length == m * n && cov.Length == n * n && xc != cov
    modifies cov
    ensures Columns(cov[..], n, n) == Products(Columns(xc[..], m, n), m)
  {
    hide Slot, FilledTo, Columns, Dot;
    var cols := Columns(xc[..], m, n);
    ghost var target := Products(cols, m);
    NothingToFill(cov[..], target, n);
    for j := 0 to n
      invariant FilledTo(cov[..], target, n, j, 0)
    {
      for i := 0 to n
        invariant FilledTo(cov[..], target, n, j, i)
      {
        FillEntry(cov[..], target, n, j, i);
        cov[Slot(i, j, n, n)] := Dot(cols[i], cols[j]);
      }
      FilledColumn(cov[..], target, n, j);
    }
    Filled(cov[..], target, n);
  }

  method ScaleAll(a: array<real>, factor: real)
    modifies a
    ensures a[..] == Scale(factor, old(a[..]))
  {
    for k := 0 to a.Length
      invariant forall q :: 0 <= q < k ==> a[q] == factor * old(a[q])
      invariant forall q :: k <= q < a.Length ==> a[q] == old(a[q])
    {
      a[k] := a[k] * factor;
    }
    ghost var scaled := Scale(factor, old(a[..]));
    forall q | 0 <= q < a.Length ensures a[..][q] == scaled[q] {
      var was := old(a[..])[q];
      assert scaled[q] == factor * was;
    }
  }

  lemma {:induction false} ScaledProducts(products: Vec, scaled: Vec, series: Matrix, m: nat, n: nat)
    requires HasWidth(series, m) && m > 1 && |series| == n && |products| == |scaled| == n * n
    requires Columns(products, n, n) == Products(CenteredRows(series, m), m)
    requires scaled == Scale(1.0 / (m - 1) as real, products)
    ensures Columns(scaled, n, n) == CovarianceOf(series, m)
  {
    hide Slot, Dot, Centered;
    var c := CenteredRows(series, m);
    var l, r := Columns(scaled, n, n), CovarianceOf(series, m);
    var k := (m - 1) as real;
    forall j | 0 <= j < n ensures l[j] == r[j] {
      forall i | 0 <= i < n ensures l[j][i] == r[j][i] {
        var d := products[Slot(i, j, n, n)];
        assert d == Columns(products, n, n)[j][i] == Dot(c[i], c[j]);
        ScaleByInverse(d, k);
      }
    }
  }

  method MaxVariance(cov: array<real>, n: nat) returns (vmax: real)
    requires cov.Length == n * n
    ensures vmax == LargestVariance(Columns(cov[..], n, n), n, n)
  {
    hide Slot;
    ghost var c := Columns(cov[..], n, n);
    vmax := 0.0;
    for i := 0 to n
      invariant vmax == LargestVariance(c, n, i)
    {
      var vi := cov[Slot(i, i, n, n)];
      assert vi == c[i][i];
      if vi > vmax {
        vmax := vi;
      }
    }
  }

  method OneEntry(vi: real, vj: real, cij: real, vtol: real, diagonal: bool, sqrt: real -> real) returns (out: real)
    ensures out == EntryValue(vi, vj, cij, vtol, diagonal, sqrt)
  {
    if diagonal {
      out := if vi > 0.0 then 1.0 else 0.0;
    } else if !(vi > vtol) || !(vj > vtol) {
      out := 0.0;
    } else {
      var denom := sqrt(vi * vj);
      out := if denom > 0.0 then cij / denom else 0.0;
      if out > 1.0 {
        out := 1.0;
      } else if out < -1.0 {
        out := -1.0;
      }
    }
  }

  /** pae_correlation: the largest variance, the tolerance, then every entry by columns. */
  method CorrelationKernel(cov: array<real>, n: nat, corr: array<real>, sqrt: real -> real) returns (ok: bool)
    requires cov.Length == n * n && corr.Length == n * n && cov != corr
    modifies corr
    ensures ok <==> n >= 1
    ensures ok ==> Columns(corr[..], n, n) == KernelCorrelation(Columns(cov[..], n, n), n, sqrt)
    ensures !ok ==> corr[..] == old(corr[..])
  {
    hide Slot, FilledTo, EntryValue, LargestVariance;
    if n < 1 {
      return false;
    }
    ghost var c := Columns(cov[..], n, n);
    ghost var target := KernelCorrelation(c, n, sqrt);
    var vmax := MaxVariance(cov, n);
    var vtol := vmax * 0.000000000001;
    assert vtol == Tolerance(c, n);
    hide Tolerance;
    NothingToFill(corr[..], target, n);
    for j := 0 to n
      invariant FilledTo(corr[..], target, n, j, 0)
    {
      for i := 0 to n
        invariant FilledTo(corr[..], target, n, j, i)
      {
        var vi, vj, cij := cov[Slot(i, i, n, n)], cov[Slot(j, j, n, n)], cov[Slot(i, j, n, n)];
        assert vi == c[i][i] && vj == c[j][j] && cij == c[j][i];
        var out := OneEntry(vi, vj, cij, vtol, i == j, sqrt);
        assert out == target[j][i];
        FillEntry(corr[..], target, n, j, i);
        corr[Slot(i, j, n, n)] := out;
      }
      FilledColumn(corr[..], target, n, j);
    }
    Filled(corr[..], target, n);
    ok := true;
  }

  // --------------------------------------------------- the Rust wrappers

  /** Some series, each of the same length of at least 2. */
  predicate Comparable(series: Matrix) {
    series != [] && |series[0]| > 1 && HasWidth(series, |series[0]|)
  }

  method CheckComparable(series: Matrix) returns (ok: bool)
    ensures ok == Comparable(series)
    ensures ok <==> series != [] && forall s :: s in series ==> |s| == |series[0]| >= 2
  {
    if series == [] || |series[0]| < 2 {
      return false;
    }
    for k := 0 to |series|
      invariant HasWidth(series[..k], |series[0]|)
    {
      if |series[k]| != |series[0]| {
        return false;
      }
    }
    ok := true;
  }

  lemma {:induction false} CovarianceSymmetric(series: Matrix, m: nat)
    requires HasWidth(series, m) && m > 1
    ensures IsSymmetric(CovarianceOf(series, m), |series|)
  {
    var c := CovarianceOf(series, m);
    forall i, j | 0 <= i < |series| && 0 <= j < |series| ensures c[i][j] == c[j][i] {
      DotSymmetric(Centered(series[i]), Centered(series[j]));
    }
  }

  lemma KernelSymmetric(c: Matrix, n: nat, sqrt: real -> real)
    requires IsSymmetric(c, n)
    ensures IsSymmetric(KernelCorrelation(c, n, sqrt), n)
  {
    hide Tolerance, Clamp;
    var k := KernelCorrelation(c, n, sqrt);
    forall i, j | 0 <= i < n && 0 <= j < n ensures k[i][j] == k[j][i] {
      var vi, vj := c[i][i], c[j][j];
      assert vi * vj == vj * vi;
      assert c[i][j] == c[j][i];
    }
  }

  /** The covariance wrapper fails exactly on incomparable series. */
  method CovarianceMatrix(series: Matrix) returns (r: Result<Matrix, NumError>)
    ensures r.Ok? <==> series != [] && forall s :: s in series ==> |s| == |series[0]| >= 2
    ensures r.Ok? ==> r.value == CovarianceOf(series, |series[0]|)
    ensures r.Err? ==> r.error == InvalidInput
  {
    hide Slot, FilledTo, CovarianceOf;
    var comparable := CheckComparable(series);
    if !comparable {
      return Err(InvalidInput);
    }
    var n, m := |series|, |series[0]|;
    var x := StoreColumns(series, m);
    var cov := new real[n * n];
    var ok := CovarianceKernel(x, m, n, cov);
    if !ok {
      return Err(NativeCallFailed);
    }
    r := Ok(FromColMajor(cov[..], n, n));
    RowsAreTransposedColumns(cov[..], n, n);
    CovarianceSymmetric(series, m);
    TransposeSymmetric(CovarianceOf(series, m), n);
  }

  /** Entry (p, q) once the constant series before k have been zeroed out. */
  function ZeroedValue(kernel: Matrix, series: Matrix, k: nat, p: nat, q: nat): real
    requires IsSquare(kernel, |series|) && p < |series| && q < |series| && series[p] != [] && series[q] != []
  {
    if (p < k && IsConstant(series[p])) || (q < k && IsConstant(series[q])) then
      if p == q then 1.0 else 0.0
    else kernel[p][q]
  }

  predicate NonEmptySeries(series: Matrix) {
    forall i :: 0 <= i < |series| ==> series[i] != []
  }

  predicate ZeroedBefore(corr: Matrix, kernel: Matrix, series: Matrix, k: nat)
    requires IsSquare(corr, |series|) && IsSquare(kernel, |series|) && NonEmptySeries(series)
  {
    forall p, q :: 0 <= p < |series| && 0 <= q < |series| ==> corr[p][q] == ZeroedValue(kernel, series, k, p, q)
  }

  lemma ZeroedStep(before: Matrix, after: Matrix, kernel: Matrix, series: Matrix, i: nat)
    requires IsSquare(before, |series|) && IsSquare(after, |series|) && IsSquare(kernel, |series|)
    requires i < |series| && NonEmptySeries(series) && ZeroedBefore(before, kernel, series, i)
    requires forall p, q :: 0 <= p < |series| && 0 <= q < |series| ==>
      after[p][q] == if IsConstant(series[i]) && (p == i || q == i) then if p == q then 1.0 else 0.0 else before[p][q]
    ensures ZeroedBefore(after, kernel, series, i + 1)
  {
    forall p, q | 0 <= p < |series| && 0 <= q < |series|
      ensures after[p][q] == ZeroedValue(kernel, series, i + 1, p, q)
    {
      assert before[p][q] == ZeroedValue(kernel, series, i, p, q);
    }
  }

  method ZeroSeries(corr: Matrix, i: nat) returns (r: Matrix)
    requires IsSquare(corr, |corr|) && i < |corr|
    ensures IsSquare(r, |corr|)
    ensures forall p, q :: 0 <= p < |corr| && 0 <= q < |corr| ==>
      r[p][q] == if p == i && q == i then 1.0 else if p == i || q == i then 0.0 else corr[p][q]
  {
    var n := |corr|;
    r := corr;
    for p := 0 to n
      invariant IsSquare(r, n)
      invariant forall a, b :: 0 <= a < n && 0 <= b < n ==> r[a][b] == if a < p && b == i then 0.0 else corr[a][b]
    {
      r := r[p := r[p][i := 0.0]];
    }
    ghost var before := r;
    for q := 0 to n
      invariant IsSquare(r, n)
      invariant forall a, b :: 0 <= a < n && 0 <= b < n ==> r[a][b] == if a == i && b < q then 0.0 else before[a][b]
    {
      r := r[i := r[i][q := 0.0]];
    }
    r := r[i := r[i][i := 1.0]];
  }

  /** Through the buffers and the kernel and back. */
  method ThroughKernel(c: Matrix, n: nat, sqrt: real -> real) returns (r: Result<Matrix, NumError>)
    requires n > 0 && IsSymmetric(c, n)
    ensures r == Ok(KernelCorrelation(c, n, sqrt))
  {
    hide Slot, KernelCorrelation;
    var flat := ToColMajor(c);
    if flat.None? {
      return Err(InvalidInput);
    }
    var covCol := new real[n * n](k requires 0 <= k < n * n => flat.value.data[k]);
    assert covCol[..] == flat.value.data;
    RowsAreTransposedColumns(covCol[..], n, n);
    hide FromColMajor, Columns, Transpose;
    DoubleTranspose(Columns(covCol[..], n, n), c, n);
    var corrCol := new real[n * n];
    var ok := CorrelationKernel(covCol, n, corrCol, sqrt);
    if !ok {
      return Err(NativeCallFailed);
    }
    RowsAreTransposedColumns(corrCol[..], n, n);
    KernelSymmetric(c, n, sqrt);
    TransposeSymmetric(KernelCorrelation(c, n, sqrt), n);
    r := Ok(FromColMajor(corrCol[..], n, n));
  }

  /** Whatever the series, the native wrapper fails exactly on incomparable input, and otherwise
      returns NativeMatrix: constant series get a zero row and column around a unit diagonal. */
  method CorrelationMatrix(series: Matrix, sqrt: real -> real) returns (r: Result<Matrix, NumError>)
    ensures r.Ok? <==> series != [] && forall s :: s in series ==> |s| == |series[0]| >= 2
    ensures r.Ok? ==> r.value == NativeMatrix(series, |series[0]|, sqrt)
    ensures r.Err? ==> r.error == InvalidInput
  {
    hide CovarianceOf, KernelCorrelation, NativeMatrix;
    var comparable := CheckComparable(series);
    if !comparable {
      return Err(InvalidInput);
    }
    var n, m := |series|, |series[0]|;
    var cov := CovarianceMatrix(series);
    if cov.Err? {
      return cov;
    }
    CovarianceSymmetric(series, m);
    r := ThroughKernel(cov.value, n, sqrt);
    if r.Err? {
      return;
    }
    var corr := r.value;
    for i := 0 to n
      invariant IsSquare(corr, n) && ZeroedBefore(corr, r.value, series, i)
    {
      var degenerate := IsConstant(series[i]);
      ghost var before := corr;
      if degenerate {
        corr := ZeroSeries(corr, i);
      }
      ZeroedStep(before, corr, r.value, series, i);
    }
    AllZeroed(corr, series, m, sqrt);
    r := Ok(corr);
  }

  lemma AllZeroed(corr: Matrix, series: Matrix, m: nat, sqrt: real -> real)
    requires HasWidth(series, m) && m > 1 && IsSquare(corr, |series|)
    requires ZeroedBefore(corr, KernelCorrelation(CovarianceOf(series, m), |series|, sqrt), series, |series|)
    ensures corr == NativeMatrix(series, m, sqrt)
  {
    var n, r := |series|, NativeMatrix(series, m, sqrt);
    var c := CovarianceOf(series, m);
    forall i | 0 <= i < n ensures corr[i] == r[i] {
      forall j | 0 <= j < n ensures corr[i][j] == r[i][j] {
        KernelEntrySymmetric(series, m, i, j, sqrt);
        if !IsConstant(series[i]) {
          OwnCovariancePositive(series[i]);
        }
      }
    }
  }

  lemma KernelEntrySymmetric(series: Matrix, m: nat, i: nat, j: nat, sqrt: real -> real)
    requires HasWidth(series, m) && m > 1 && i < |series| && j < |series|
    ensures var c := CovarianceOf(series, m);
            KernelEntry(c, |series|, i, j, sqrt) == KernelEntry(c, |series|, j, i, sqrt)
  {
    var c := CovarianceOf(series, m);
    CovarianceSymmetric(series, m);
    KernelSymmetric(c, |series|, sqrt);
    var k := KernelCorrelation(c, |series|, sqrt);
    assert k[i][j] == k[j][i];
  }
}
