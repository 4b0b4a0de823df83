/** Real vectors and matrices: the array algebra that the analytics code takes from numpy.
    A vector is a sequence of reals, a matrix the sequence of its rows.

    Besides sums and dot products this covers linear combinations of rows, products with a matrix, right
    inverses, and the quadratic form of a symmetric matrix up to the Cauchy-Schwarz inequality. Every law
    is proved by induction on the entries, for all lengths; the functions are recursive from the front, and
    users hide them and reason by the laws. */
module Vectors {
  import opened Reals
  import opened Results

  type Vec = seq<real>
  type Matrix = seq<Vec>

  function Sum(v: Vec): real {
    if v == [] then 0.0 else v[0] + Sum(v[1..])
  }

  function Dot(u: Vec, v: Vec): real
    requires |u| == |v|
  {
    if u == [] then 0.0 else Times(u[0], v[0]) + Dot(u[1..], v[1..])
  }

  function Add(u: Vec, v: Vec): (r: Vec)
    requires |u| == |v|
    ensures |r| == |u|
  {
    seq(|u|, i requires 0 <= i < |u| => u[i] + v[i])
  }

  function Sub(u: Vec, v: Vec): (r: Vec)
    requires |u| == |v|
    ensures |r| == |u|
  {
    seq(|u|, i requires 0 <= i < |u| => u[i] - v[i])
  }

  function Scale(c: real, u: Vec): (r: Vec)
    ensures |r| == |u|
  {
    seq(|u|, i requires 0 <= i < |u| => c * u[i])
  }

  function Const(n: nat, c: real): (r: Vec)
    ensures |r| == n
  {
    seq(n, i => c)
  }

  predicate NonNegative(w: Vec) {
    forall i :: 0 <= i < |w| ==> w[i] >= 0.0
  }

  /** Every row has n entries. */
  predicate HasWidth(a: Matrix, n: nat) {
    forall i :: 0 <= i < |a| ==> |a[i]| == n
  }

  predicate IsSquare(a: Matrix, n: nat) {
    |a| == n && HasWidth(a, n)
  }

  function MatVec(a: Matrix, x: Vec): (r: Vec)
    requires HasWidth(a, |x|)
    ensures |r| == |a|
  {
    seq(|a|, i requires 0 <= i < |a| => Dot(a[i], x))
  }

  function Column(a: Matrix, n: nat, j: nat): (r: Vec)
    requires HasWidth(a, n) && j < n
    ensures |r| == |a|
  {
    seq(|a|, i requires 0 <= i < |a| => a[i][j])
  }

  /** The linear combination c[0]*rows[0] + c[1]*rows[1] + ... of vectors of length n. */
  function Comb(c: Vec, rows: Matrix, n: nat): (r: Vec)
    requires |c| == |rows| && HasWidth(rows, n)
    ensures |r| == n
  {
    seq(n, j requires 0 <= j < n => Dot(c, Column(rows, n, j)))
  }

  function MatMul(a: Matrix, b: Matrix, n: nat): (r: Matrix)
    requires HasWidth(a, |b|) && HasWidth(b, n)
    ensures |r| == |a| && HasWidth(r, n)
  {
    seq(|a|, i requires 0 <= i < |a| => Comb(a[i], b, n))
  }

  function Unit(n: nat, k: nat): (r: Vec) {
    seq(n, i => if i == k then 1.0 else 0.0)
  }

  function Identity(n: nat): (r: Matrix) {
    seq(n, k requires 0 <= k < n => Unit(n, k))
  }

  // ---------------------------------------------------------------- sums

  lemma {:induction false} SumAdd(u: Vec, v: Vec)
    requires |u| == |v|
    ensures Sum(Add(u, v)) == Sum(u) + Sum(v)
  {
    if u == [] {
    } else {
      assert Add(u, v)[1..] == Add(u[1..], v[1..]);
      SumAdd(u[1..], v[1..]);
    }
  }

  lemma ScaleTail(c: real, u: Vec)
    requires u != []
    ensures Scale(c, u)[1..] == Scale(c, u[1..])
  {
    var l, r := Scale(c, u)[1..], Scale(c, u[1..]);
    forall i | 0 <= i < |r| ensures l[i] == r[i] {
      var x := u[1..][i];
      assert x == u[i + 1];
      assert l[i] == c * x;
    }
  }

  lemma {:induction false} SumScale(c: real, u: Vec)
    ensures Sum(Scale(c, u)) == c * Sum(u)
  {
    if u == [] {
    } else {
      ScaleTail(c, u);
      SumScale(c, u[1..]);
    }
  }

  lemma {:induction false} SumConst(n: nat, c: real)
    ensures Sum(Const(n, c)) == n as real * c
  {
    if n == 0 {
    } else {
      assert Const(n, c)[1..] == Const(n - 1, c);
      SumConst(n - 1, c);
    }
  }

  lemma {:induction false} SumAppend(u: Vec, v: Vec)
    ensures Sum(u + v) == Sum(u) + Sum(v)
  {
    if u == [] {
      assert u + v == v;
    } else {
      assert (u + v)[1..] == u[1..] + v;
      SumAppend(u[1..], v);
    }
  }

  lemma {:induction false} SumMonotone(u: Vec, v: Vec)
    requires |u| == |v|
    requires forall i :: 0 <= i < |u| ==> u[i] <= v[i]
    ensures Sum(u) <= Sum(v)
  {
    if u == [] {
    } else {
      SumMonotone(u[1..], v[1..]);
    }
  }

  /** A sum of non-negative terms dominates each of them; it is 0 only when all are. */
  lemma {:induction false} SumNonNegative(u: Vec)
    requires forall i :: 0 <= i < |u| ==> u[i] >= 0.0
    ensures Sum(u) >= 0.0
    ensures forall i :: 0 <= i < |u| ==> u[i] <= Sum(u)
  {
    if u == [] {
    } else {
      SumNonNegative(u[1..]);
      forall i | 0 <= i < |u| ensures u[i] <= Sum(u) {
        if i > 0 { assert u[i] == u[1..][i - 1]; }
      }
    }
  }

  lemma {:induction false} DotOnes(v: Vec)
    ensures Dot(Const(|v|, 1.0), v) == Sum(v)
  {
    if v == [] {
    } else {
      assert Const(|v|, 1.0)[1..] == Const(|v| - 1, 1.0);
      DotOnes(v[1..]);
    }
  }

  // ------------------------------------------------------- the dot product

  lemma {:induction false} DotSymmetric(u: Vec, v: Vec)
    requires |u| == |v|
    ensures Dot(u, v) == Dot(v, u)
  {
    if u == [] {
    } else {
      DotSymmetric(u[1..], v[1..]);
    }
  }

  lemma {:induction false} DotAdd(u: Vec, v: Vec, w: Vec)
    requires |u| == |v| == |w|
    ensures Dot(Add(u, v), w) == Dot(u, w) + Dot(v, w)
  {
    if u == [] {
    } else {
      assert Add(u, v)[1..] == Add(u[1..], v[1..]);
      DotAdd(u[1..], v[1..], w[1..]);
    }
  }

  lemma {:induction false} DotScale(c: real, u: Vec, w: Vec)
    requires |u| == |w|
    ensures Dot(Scale(c, u), w) == c * Dot(u, w)
  {
    if u == [] {
    } else {
      ScaleTail(c, u);
      DotScale(c, u[1..], w[1..]);
      assert c * u[0] * w[0] == c * (u[0] * w[0]);
    }
  }

  lemma DotScaleRight(c: real, u: Vec, w: Vec)
    requires |u| == |w|
    ensures Dot(w, Scale(c, u)) == c * Dot(w, u)
  {
    hide Dot, Scale;
    DotSymmetric(w, Scale(c, u));
    DotScale(c, u, w);
    DotSymmetric(u, w);
  }

  lemma {:induction false} DotSub(u: Vec, v: Vec, w: Vec)
    requires |u| == |v| == |w|
    ensures Dot(Sub(u, v), w) == Dot(u, w) - Dot(v, w)
    ensures Dot(w, Sub(u, v)) == Dot(w, u) - Dot(w, v)
  {
    assert Sub(u, v) == Add(u, Scale(-1.0, v));
    DotAdd(u, Scale(-1.0, v), w);
    DotScale(-1.0, v, w);
    DotSymmetric(w, Sub(u, v));
    DotSymmetric(w, u);
    DotSymmetric(w, v);
  }

  /** |u + v|^2 written out. */
  lemma {:induction false} DotOfSum(u: Vec, v: Vec)
    requires |u| == |v|
    ensures Dot(Add(u, v), Add(u, v)) == Dot(u, u) + 2.0 * Dot(u, v) + Dot(v, v)
  {
    var w := Add(u, v);
    DotAdd(u, v, w);
    DotSymmetric(u, w);
    DotSymmetric(v, w);
    DotAdd(u, v, u);
    DotAdd(u, v, v);
    DotSymmetric(u, v);
  }

  lemma {:induction false} DotZero(n: nat, v: Vec)
    requires |v| == n
    ensures Dot(Const(n, 0.0), v) == 0.0
  {
    if n == 0 {
    } else {
      assert Const(n, 0.0)[1..] == Const(n - 1, 0.0);
      DotZero(n - 1, v[1..]);
    }
  }

  /** A vector has a non-negative square, and square 0 only when it is the zero vector. */
  lemma {:induction false} DotSelf(v: Vec)
    ensures Dot(v, v) >= 0.0
    ensures Dot(v, v) == 0.0 <==> forall i :: 0 <= i < |v| ==> v[i] == 0.0
  {
    if v == [] {
    } else {
      DotSelf(v[1..]);
      var x := v[0];
      if x != 0.0 {
        var d := Dot(v[1..], v[1..]);
        SquareSign(x);
        assert Dot(v, v) == Square(x) + d;
        assert !(forall i :: 0 <= i < |v| ==> v[i] == 0.0);
      } else {
        assert Dot(v, v) == Dot(v[1..], v[1..]);
        if Dot(v, v) != 0.0 {
          var k :| 0 <= k < |v[1..]| && v[1..][k] != 0.0;
          assert v[k + 1] != 0.0;
        } else {
          assert forall i :: 1 <= i < |v| ==> v[i] == v[1..][i - 1];
        }
      }
    }
  }

  lemma {:induction false} DotUnit(n: nat, k: nat, v: Vec)
    requires |v| == n && k < n
    ensures Dot(Unit(n, k), v) == v[k]
  {
    if k == 0 {
      assert Unit(n, k)[1..] == Const(n - 1, 0.0);
      DotZero(n - 1, v[1..]);
    } else {
      assert Unit(n, k)[1..] == Unit(n - 1, k - 1);
      DotUnit(n - 1, k - 1, v[1..]);
    }
  }

  /** Cauchy-Schwarz for the numbers a = Q(u), b = B(u,v), c = Q(v) of any non-negative form. */
  lemma CauchySchwarzNumbers(a: real, b: real, c: real)
    requires a >= 0.0 && c >= 0.0
    requires forall s: real, t: real :: Quadratic(a, b, c, s, t) >= 0.0
    ensures b * b <= a * c
  {
    if c > 0.0 {
      var s, t := c, -b;
      assert Quadratic(a, b, c, s, t) >= 0.0;
      assert Quadratic(a, b, c, s, t) == c * (a * c - b * b);
    } else if b != 0.0 {
      LinearFormDips(a, b);
      assert false;
    }
  }

  lemma LinearFormDips(a: real, b: real)
    requires b != 0.0
    ensures exists t: real :: Quadratic(a, b, 0.0, 1.0, t) < 0.0
  {
    var t := -(a + 1.0) / (2.0 * b);
    assert 2.0 * b * t == -(a + 1.0);
    assert Quadratic(a, b, 0.0, 1.0, t) == a + 2.0 * b * t;
  }

  /** Q(s*u + t*v) written out. */
  function Quadratic(a: real, b: real, c: real, s: real, t: real): real {
    s * s * a + 2.0 * (s * t) * b + t * t * c
  }

  // --------------------------------------------------- matrices and vectors

  /** Comb unrolled by one row. */
  lemma CombStep(c: Vec, rows: Matrix, n: nat)
    requires |c| == |rows| > 0 && HasWidth(rows, n)
    ensures Comb(c, rows, n) == Add(Scale(c[0], rows[0]), Comb(c[1..], rows[1..], n))
  {
    var l, r := Comb(c, rows, n), Add(Scale(c[0], rows[0]), Comb(c[1..], rows[1..], n));
    forall j | 0 <= j < n ensures l[j] == r[j] {
      var col := Column(rows, n, j);
      assert col[1..] == Column(rows[1..], n, j);
      assert Scale(c[0], rows[0])[j] == c[0] * col[0];
    }
  }

  /** Moving a matrix across the dot product: (c^T A) v = c (A v). */
  lemma {:induction false} DotComb(c: Vec, rows: Matrix, v: Vec)
    requires |c| == |rows| && HasWidth(rows, |v|)
    ensures Dot(Comb(c, rows, |v|), v) == Dot(c, MatVec(rows, v))
  {
    if c == [] {
      assert Comb(c, rows, |v|) == Const(|v|, 0.0);
      DotZero(|v|, v);
    } else {
      var rest := Comb(c[1..], rows[1..], |v|);
      calc {
        Dot(Comb(c, rows, |v|), v);
      ==  { CombStep(c, rows, |v|); DotAdd(Scale(c[0], rows[0]), rest, v); }
        Dot(Scale(c[0], rows[0]), v) + Dot(rest, v);
      ==  { DotScale(c[0], rows[0], v); DotComb(c[1..], rows[1..], v); }
        c[0] * Dot(rows[0], v) + Dot(c[1..], MatVec(rows[1..], v));
      ==  { assert MatVec(rows, v)[1..] == MatVec(rows[1..], v); }
        Dot(c, MatVec(rows, v));
      }
    }
  }

  lemma MatVecMatMul(a: Matrix, b: Matrix, v: Vec)
    requires HasWidth(a, |b|) && HasWidth(b, |v|)
    ensures MatVec(MatMul(a, b, |v|), v) == MatVec(a, MatVec(b, v))
  {
    var l, r := MatVec(MatMul(a, b, |v|), v), MatVec(a, MatVec(b, v));
    forall i | 0 <= i < |a| ensures l[i] == r[i] {
      DotComb(a[i], b, v);
    }
  }

  lemma MatVecIdentity(v: Vec)
    ensures HasWidth(Identity(|v|), |v|)
    ensures MatVec(Identity(|v|), v) == v
  {
    forall k | 0 <= k < |v| ensures Dot(Unit(|v|, k), v) == v[k] {
      DotUnit(|v|, k, v);
    }
  }

  lemma MatVecLinear(a: Matrix, x: Vec, y: Vec)
    requires |x| == |y| && HasWidth(a, |x|)
    ensures MatVec(a, Add(x, y)) == Add(MatVec(a, x), MatVec(a, y))
    ensures MatVec(a, Sub(x, y)) == Sub(MatVec(a, x), MatVec(a, y))
  {
    forall i | 0 <= i < |a|
      ensures Dot(a[i], Add(x, y)) == Dot(a[i], x) + Dot(a[i], y)
      ensures Dot(a[i], Sub(x, y)) == Dot(a[i], x) - Dot(a[i], y)
    {
      DotSymmetric(a[i], Add(x, y));
      DotAdd(x, y, a[i]);
      DotSymmetric(a[i], x);
      DotSymmetric(a[i], y);
      DotSub(x, y, a[i]);
    }
  }

  lemma MatVecScale(a: Matrix, c: real, x: Vec)
    requires HasWidth(a, |x|)
    ensures MatVec(a, Scale(c, x)) == Scale(c, MatVec(a, x))
  {
    var l, r := MatVec(a, Scale(c, x)), Scale(c, MatVec(a, x));
    forall i | 0 <= i < |a| ensures l[i] == r[i] {
      DotScaleRight(c, x, a[i]);
      var d := MatVec(a, x)[i];
      assert d == Dot(a[i], x);
      assert r[i] == c * d;
    }
  }

  /** b is a right inverse of a, as a matrix equation. */
  predicate IsInverse(a: Matrix, b: Matrix, n: nat) {
    IsSquare(a, n) && IsSquare(b, n) && MatMul(a, b, n) == Identity(n)
  }

  /** A matrix undoes its right inverse on every vector. */
  lemma InverseCancels(a: Matrix, b: Matrix, v: Vec)
    requires IsInverse(a, b, |v|)
    ensures MatVec(a, MatVec(b, v)) == v
  {
    MatVecMatMul(a, b, v);
    MatVecIdentity(v);
  }

  /** np.linalg.inv: an inverse whenever one exists, otherwise a LinAlgError. */
  ghost predicate IsInverter(inv: Matrix -> Option<Matrix>) {
    forall a: Matrix ::
      match inv(a)
      case Some(b) => IsInverse(a, b, |a|)
      case None => forall b: Matrix :: !IsInverse(a, b, |a|)
  }

  // ---------------------------------------------------- quadratic forms

  predicate IsSymmetric(a: Matrix, n: nat) {
    IsSquare(a, n) && forall i, j :: 0 <= i < n && 0 <= j < n ==> a[i][j] == a[j][i]
  }

  /** The bilinear form u^T A v. */
  function Form(a: Matrix, u: Vec, v: Vec): real
    requires IsSquare(a, |u|) && |v| == |u|
  {
    Dot(u, MatVec(a, v))
  }

  ghost predicate IsSemidefinite(a: Matrix, n: nat)
    requires IsSquare(a, n)
  {
    forall v: Vec :: |v| == n ==> Form(a, v, v) >= 0.0
  }

  ghost predicate IsDefinite(a: Matrix, n: nat)
    requires IsSquare(a, n)
  {
    forall v: Vec :: |v| == n && v != Const(n, 0.0) ==> Form(a, v, v) > 0.0
  }

  lemma FormSymmetric(a: Matrix, u: Vec, v: Vec)
    requires IsSymmetric(a, |u|) && |v| == |u|
    ensures Form(a, u, v) == Form(a, v, u)
  {
    var n := |u|;
    DotComb(u, a, v);
    var l, r := Comb(u, a, n), MatVec(a, u);
    forall j | 0 <= j < n ensures l[j] == r[j] {
      assert Column(a, n, j) == a[j];
      DotSymmetric(u, a[j]);
    }
    assert l == r;
    DotSymmetric(r, v);
  }

  lemma FormAdd(a: Matrix, u: Vec, v: Vec, w: Vec)
    requires IsSquare(a, |u|) && |u| == |v| == |w|
    ensures Form(a, Add(u, v), w) == Form(a, u, w) + Form(a, v, w)
    ensures Form(a, Sub(u, v), w) == Form(a, u, w) - Form(a, v, w)
  {
    DotAdd(u, v, MatVec(a, w));
    DotSub(u, v, MatVec(a, w));
  }

  lemma FormScale(a: Matrix, c: real, u: Vec, w: Vec)
    requires IsSquare(a, |u|) && |u| == |w|
    ensures Form(a, Scale(c, u), w) == c * Form(a, u, w)
    ensures Form(a, w, Scale(c, u)) == c * Form(a, w, u)
  {
    hide Dot, Scale, MatVec;
    DotScale(c, u, MatVec(a, w));
    MatVecScale(a, c, u);
    DotScaleRight(c, MatVec(a, u), w);
  }

  /** Pythagoras: if u and d are conjugate, the form of u + d is the sum of the forms. */
  lemma FormOfSum(a: Matrix, u: Vec, d: Vec)
    requires IsSymmetric(a, |u|) && |u| == |d|
    ensures Form(a, Add(u, d), Add(u, d)) == Form(a, u, u) + 2.0 * Form(a, u, d) + Form(a, d, d)
  {
    FormAdd(a, u, d, Add(u, d));
    FormSymmetric(a, u, Add(u, d));
    FormSymmetric(a, d, Add(u, d));
    FormAdd(a, u, d, u);
    FormAdd(a, u, d, d);
    FormSymmetric(a, d, u);
  }

  lemma FormOfCombination(a: Matrix, s: real, u: Vec, t: real, v: Vec)
    requires IsSymmetric(a, |u|) && |u| == |v|
    ensures var x := Add(Scale(s, u), Scale(t, v));
            Form(a, x, x) == Quadratic(Form(a, u, u), Form(a, u, v), Form(a, v, v), s, t)
  {
    var su, tv := Scale(s, u), Scale(t, v);
    FormOfSum(a, su, tv);
    FormOfScales(a, s, u, s, u);
    FormOfScales(a, s, u, t, v);
    FormOfScales(a, t, v, t, v);
  }

  lemma FormOfScales(a: Matrix, s: real, u: Vec, t: real, v: Vec)
    requires IsSquare(a, |u|) && |u| == |v|
    ensures Form(a, Scale(s, u), Scale(t, v)) == s * t * Form(a, u, v)
  {
    var b := Form(a, u, v);
    FormScale(a, s, u, Scale(t, v));
    FormScale(a, t, v, u);
    assert s * (t * b) == s * t * b;
  }

  lemma CauchySchwarz(a: Matrix, u: Vec, v: Vec)
    requires IsSymmetric(a, |u|) && |u| == |v| && IsSemidefinite(a, |u|)
    ensures Form(a, u, v) * Form(a, u, v) <= Form(a, u, u) * Form(a, v, v)
  {
    forall s: real, t: real
      ensures Quadratic(Form(a, u, u), Form(a, u, v), Form(a, v, v), s, t) >= 0.0
    {
      FormOfCombination(a, s, u, t, v);
      assert Form(a, Add(Scale(s, u), Scale(t, v)), Add(Scale(s, u), Scale(t, v))) >= 0.0;
    }
    CauchySchwarzNumbers(Form(a, u, u), Form(a, u, v), Form(a, v, v));
  }

  lemma DotOfScales(s: real, u: Vec, t: real, v: Vec)
    requires |u| == |v|
    ensures Dot(Scale(s, u), Scale(t, v)) == s * t * Dot(u, v)
  {
    hide Dot, Scale;
    var d := Dot(u, v);
    DotScale(s, u, Scale(t, v));
    DotScaleRight(t, v, u);
    assert s * (t * d) == s * t * d;
  }

  /** Cauchy-Schwarz for two vectors. */
  lemma DotCauchySchwarz(u: Vec, v: Vec)
    requires |u| == |v|
    ensures Dot(u, v) * Dot(u, v) <= Dot(u, u) * Dot(v, v)
  {
    hide Dot;
    DotSelf(u);
    DotSelf(v);
    forall s: real, t: real ensures Quadratic(Dot(u, u), Dot(u, v), Dot(v, v), s, t) >= 0.0 {
      var su, tv := Scale(s, u), Scale(t, v);
      DotOfSum(su, tv);
      DotSelf(Add(su, tv));
      DotOfScales(s, u, s, u);
      DotOfScales(s, u, t, v);
      DotOfScales(t, v, t, v);
    }
    CauchySchwarzNumbers(Dot(u, u), Dot(u, v), Dot(v, v));
  }

  lemma DotEmpty(u: Vec, v: Vec)
    ensures Dot(u[..0], v[..0]) == 0.0 && Dot(u[..0], u[..0]) == 0.0 && Dot(v[..0], v[..0]) == 0.0
  {
  }

  lemma {:induction false} DotSnoc(u: Vec, v: Vec, i: nat)
    requires i < |u| == |v|
    ensures Dot(u[..i + 1], v[..i + 1]) == Dot(u[..i], v[..i]) + u[i] * v[i]
  {
    if i == 0 {
    } else {
      var s, t := u[1..], v[1..];
      DotSnoc(s, t, i - 1);
      assert u[..i + 1][1..] == s[..i] && v[..i + 1][1..] == t[..i];
      assert u[..i][1..] == s[..i - 1] && v[..i][1..] == t[..i - 1];
    }
  }

  lemma MatricesEqual(l: Matrix, r: Matrix, n: nat)
    requires IsSquare(l, n) && IsSquare(r, n)
    ensures l == r <==> forall i, j :: 0 <= i < n && 0 <= j < n ==> l[i][j] == r[i][j]
  {
    if forall i, j :: 0 <= i < n && 0 <= j < n ==> l[i][j] == r[i][j] {
      forall i | 0 <= i < n ensures l[i] == r[i] {
        assert forall j :: 0 <= j < n ==> l[i][j] == r[i][j];
      }
    }
  }

  lemma DotPair(a: real, b: real, c: real, d: real)
    ensures Dot([a, b], [c, d]) == a * c + b * d
  {
    assert [a, b][1..] == [b] && [c, d][1..] == [d];
    assert [b][1..] == [] && [d][1..] == [];
    assert Dot([b], [d]) == Times(b, d) + Dot([], []);
    assert Dot([a, b], [c, d]) == Times(a, c) + Dot([b], [d]);
  }

  lemma DotPairs(a: real, b: real, c: real, d: real)
    ensures Dot([a, b], [c, d]) == a * c + b * d
    ensures Dot([a, b], [a, b]) == a * a + b * b
    ensures Dot([c, d], [c, d]) == c * c + d * d
  {
    DotPair(a, b, c, d);
    DotPair(a, b, a, b);
    DotPair(c, d, c, d);
  }

  lemma SumEmpty()
    ensures forall v: Vec :: Sum(v[..0]) == 0.0
  {
  }

  lemma SumSnoc(v: Vec, i: nat)
    requires i < |v|
    ensures Sum(v[..i + 1]) == Sum(v[..i]) + v[i]
  {
    assert v[..i + 1] == v[..i] + [v[i]];
    SumAppend(v[..i], [v[i]]);
  }

  lemma SumOne(x: real)
    ensures Sum([x]) == x
  {
  }
}
