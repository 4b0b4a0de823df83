/** Order facts about products and quotients of reals, stated once with every product named,
    and the contract of the square root, which the model takes as a parameter.

    Products of two variables are what the solver is worst at. The lemmas here are stated over plain
    numbers, with each product passed in as a number of its own, so that a proof about sums of products
    can call them and otherwise treat every product as one unknown. Times, Square, Abs and Max are named
    for the same reason: a proof that does not need their meaning hides them and becomes linear. */
module Reals {

  /** A product by name, so that proofs about sums of products can keep it uninterpreted. */
  function Times(x: real, y: real): real { x * y }

  function Square(x: real): real { x * x }

  function Abs(x: real): (r: real)
    ensures r >= 0.0 && -r <= x <= r && (r == x || r == -x)
  {
    if x < 0.0 then -x else x
  }

  function Max(x: real, y: real): (r: real)
    ensures r >= x && r >= y && (r == x || r == y)
  {
    if x < y then y else x
  }

  function Min(x: real, y: real): (r: real)
    ensures r <= x && r <= y && (r == x || r == y)
  {
    if x < y then x else y
  }

  /** sqrt returns the non-negative root of every non-negative number. */
  ghost predicate IsSqrt(sqrt: real -> real) {
    forall x: real :: x >= 0.0 ==> sqrt(x) >= 0.0 && sqrt(x) * sqrt(x) == x
  }

  lemma ProductPositive(x: real, y: real, z: real)
    requires z == x * y && x > 0.0 && y > 0.0
    ensures z > 0.0
  {
  }

  lemma ProductNonNegative(x: real, y: real, z: real)
    requires z == x * y && x >= 0.0 && y >= 0.0
    ensures z >= 0.0
  {
  }

  lemma SquareSign(x: real)
    ensures Square(x) >= 0.0
    ensures Square(x) == 0.0 <==> x == 0.0
  {
    if x > 0.0 {
      ProductPositive(x, x, Square(x));
    } else if x < 0.0 {
      ProductPositive(-x, -x, Square(x));
    }
  }

  lemma AbsProduct(x: real, y: real, p: real)
    requires p == x * y
    ensures Abs(p) == Abs(x) * Abs(y)
  {
    var a, b := Abs(x), Abs(y);
    ProductNonNegative(a, b, a * b);
    assert x * y == a * b || x * y == -(a * b);
  }

  lemma ProductMonotone(a: real, b: real, c: real)
    requires a <= b && c >= 0.0
    ensures a * c <= b * c && c * a <= c * b
  {
  }

  lemma ProductStrict(a: real, b: real, c: real)
    requires a < b && c > 0.0
    ensures a * c < b * c && c * a < c * b
  {
  }

  lemma ProductCancel(a: real, b: real, c: real)
    requires a * c <= b * c && c > 0.0
    ensures a <= b
  {
  }

  lemma ProductEqual(a: real, b: real, c: real)
    requires c != 0.0 && a * c == b * c
    ensures a == b
  {
  }

  lemma Quotient(a: real, c: real, q: real)
    requires c != 0.0 && q == a / c
    ensures q * c == a && c * q == a
    ensures c > 0.0 ==> (a > 0.0 <==> q > 0.0) && (a >= 0.0 <==> q >= 0.0) && (a <= c <==> q <= 1.0)
  {
    if c > 0.0 && q > 0.0 { ProductPositive(q, c, a); }
  }

  lemma QuotientMonotone(a: real, b: real, c: real)
    requires c > 0.0
    ensures a <= b <==> a / c <= b / c
    ensures a < b <==> a / c < b / c
  {
    Quotient(a, c, a / c);
    Quotient(b, c, b / c);
  }

  lemma CrossDivide(a: real, s: real, b: real, t: real)
    requires s > 0.0 && t > 0.0 && b * s <= a * t
    ensures b / t <= a / s
  {
    var p, q := b / t, a / s;
    Quotient(b, t, p);
    Quotient(a, s, q);
    ProductPositive(s, t, s * t);
    assert p * (s * t) == b * s && q * (s * t) == a * t;
    ProductCancel(p, q, s * t);
  }

  lemma SquareMonotone(x: real, y: real)
    requires x >= 0.0 && y >= 0.0
    ensures x <= y <==> x * x <= y * y
    ensures x == y <==> x * x == y * y
  {
    var xx, xy, yy := x * x, x * y, y * y;
    if x < y {
      ProductPositive(y, y - x, yy - xy);
      ProductNonNegative(x, y - x, xy - xx);
    } else if y < x {
      ProductPositive(x, x - y, xx - xy);
      ProductNonNegative(y, x - y, xy - yy);
    }
  }

  /** Non-negative square roots are unique. */
  lemma SqrtUnique(sqrt: real -> real, x: real, r: real)
    requires IsSqrt(sqrt) && r >= 0.0 && r * r == x
    ensures sqrt(x) == r
  {
    var s := sqrt(x);
    assert x >= 0.0 by { ProductNonNegative(r, r, x); }
    SquareMonotone(s, r);
  }

  lemma SqrtSign(sqrt: real -> real, x: real)
    requires IsSqrt(sqrt) && x >= 0.0
    ensures sqrt(x) >= 0.0
    ensures x > 0.0 <==> sqrt(x) > 0.0
  {
    var s := sqrt(x);
    if s > 0.0 { ProductPositive(s, s, x); }
  }

  lemma SqrtMonotone(sqrt: real -> real, x: real, y: real)
    requires IsSqrt(sqrt) && 0.0 <= x <= y
    ensures sqrt(x) <= sqrt(y)
  {
    SquareMonotone(sqrt(x), sqrt(y));
  }

  function Pow(x: real, n: nat): real {
    if n == 0 then 1.0 else x * Pow(x, n - 1)
  }

  lemma {:induction false} PowPositive(x: real, n: nat)
    requires x > 0.0
    ensures Pow(x, n) > 0.0
  {
    if n == 0 {
    } else {
      PowPositive(x, n - 1);
      ProductPositive(x, Pow(x, n - 1), Pow(x, n));
    }
  }

  lemma AbsSquare(x: real)
    ensures Abs(x) * Abs(x) == x * x
  {
  }

  lemma NegatedQuotient(x: real, d: real)
    requires d != 0.0
    ensures -x / d == -(x / d)
  {
  }

  lemma SwapFactors(x: real, y: real)
    ensures x * y == y * x
  {
  }

  lemma SquareOfProduct(q: real, k: real, p: real, vi: real, vj: real, varX: real, varY: real, r: real)
    requires q * q == p && p == vi * vj && varX == vi * k && varY == vj * k && r == q * k
    ensures r * r == varX * varY
  {
    var kk := k * k;
    assert r * r == q * q * kk;
    assert varX * varY == p * kk;
  }

  lemma SimplifiedQuotient(c: real, q: real, k: real, cov: real, r: real)
    requires q > 0.0 && k > 0.0 && cov == c * k && r == q * k && r > 0.0
    ensures c / q == cov / r
  {
    var x := c / q;
    assert x * q == c;
    assert x * r == cov by { assert x * r == x * q * k; }
  }

  lemma RootOf(sqrt: real -> real, p: real)
    requires IsSqrt(sqrt) && p >= 0.0
    ensures sqrt(p) >= 0.0 && sqrt(p) * sqrt(p) == p
  {
  }

  lemma ScaleByInverse(d: real, k: real)
    requires k != 0.0
    ensures 1.0 / k * d == d / k
  {
  }

  lemma AbsTriangle(x: real, y: real)
    ensures Abs(x + y) <= Abs(x) + Abs(y)
  {
  }

  /** Adding the next larger element does not lower a mean. */
  lemma MeanGrows(a: real, x: real, k: real)
    requires k > 0.0 && a / k <= x
    ensures a / k <= (a + x) / (k + 1.0)
  {
    var m := a / k;
    assert m * k == a;
    assert m * (k + 1.0) == a + m;
    QuotientMonotone(a + m, a + x, k + 1.0);
    Quotient(a + m, k + 1.0, m);
  }
}
