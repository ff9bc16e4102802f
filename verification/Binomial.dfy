/** Three ways to compute a binomial coefficient, by factorials, by Pascal's rule and by a sum of
    products of smaller ones, and that they agree.
 */
module Binomial {

  /** The ways to choose `k` of `n`: the last one is chosen or not. */
  function Choose(n: nat, k: nat): (c: nat)
    ensures k > n ==> c == 0
    ensures k == n ==> c == 1
  {
    if k == 0 then 1 else if n == 0 then 0 else Choose(n - 1, k - 1) + Choose(n - 1, k)
  }

  function Fact(n: nat): (f: nat)
    ensures f > 0
  {
    if n == 0 then 1 else n * Fact(n - 1)
  }

  lemma ChooseOne(n: nat)
    ensures Choose(n, 1) == n
  {}

  lemma {:induction false} Symmetry(n: nat, k: nat)
    requires k <= n
    ensures Choose(n, k) == Choose(n, n - k)
  {
    if 0 < k < n {
      Symmetry(n - 1, k - 1);
      Symmetry(n - 1, k);
    }
  }

  // ---------- factorials

  /** Both terms of Pascal's rule, each a multiple of the same factorial. */
  lemma PascalStep(k: nat, l: nat, f: nat, g: nat, c: nat, d: nat, whole: nat)
    requires f * (l * g) * c == whole && (k * f) * g * d == whole
    ensures (k * f) * (l * g) * (c + d) == (k + l) * whole
  {}

  /** A product of factorials divides a factorial, and the quotient counts the choices. */
  lemma {:induction false} FactorialForm(n: nat, k: nat)
    requires k <= n
    ensures Fact(k) * Fact(n - k) * Choose(n, k) == Fact(n)
  {
    if 0 < k < n {
      FactorialForm(n - 1, k - 1);
      FactorialForm(n - 1, k);
      PascalStep(k, n - k, Fact(k - 1), Fact(n - k - 1), Choose(n - 1, k - 1), Choose(n - 1, k), Fact(n - 1));
    }
  }

  lemma Spread2(k: nat, l: nat, x: nat)
    ensures k * x + l * x == (k + l) * x
  {}

  lemma AtLeast(k: nat, x: nat)
    requires k >= 1
    ensures k * x >= x
  {}

  lemma Exact(x: nat, y: nat)
    requires x > 0
    ensures x * y / x == y
  {
    var q, r := x * y / x, x * y % x;
    assert (y - q) * x == r;
    if y > q { AtLeast(y - q, x); }
  }

  method CalcFactorial(n: nat) returns (factorial: nat)
    ensures factorial == Fact(n)
  {
    factorial := 1;
    var i := 0;
    while i < n
      invariant 0 <= i <= n && factorial == Fact(i)
    {
      factorial := factorial * (i + 1);
      i := i + 1;
    }
  }

  lemma Divide(x: nat, y: nat, c: nat)
    requires x > 0 && y > 0
    ensures x * y * c / x / y == c
    ensures (x * y * c) % x == 0 && (x * y * c / x) % y == 0
  {
    assert x * y * c == x * (y * c);
    Exact(x, y * c);
    Exact(y, c);
    assert x * y * c == x * (x * y * c / x) + (x * y * c) % x;
    assert y * c == y * (y * c / y) + (y * c) % y;
  }

  /** The quotient of factorials. */
  method ByFactorials(r: nat, a: nat) returns (c: nat)
    requires a <= r
    ensures c == Choose(r, a)
  {
    if r == a { return 1; }
    var whole := CalcFactorial(r);
    var part := CalcFactorial(a);
    var rest := CalcFactorial(r - a);
    FactorialForm(r, a);
    Divide(part, rest, Choose(r, a));
    return whole / part / rest;
  }

  // ---------- Pascal's rule

  /** Choosing nothing of something would recur without end. */
  function ByPascal(r: nat, a: nat): (c: nat)
    requires a <= r && (a == 0 ==> r == 0)
    ensures c == Choose(r, a)
  {
    if r == a then 1
    else if a == 1 then
      ChooseOne(r);
      r
    else ByPascal(r - 1, a) + ByPascal(r - 1, a - 1)
  }

  // ---------- a sum of products

  /** Choosing `k` of two groups: up to `t` of the first and the others of the second. */
  ghost function Split(m: nat, n: nat, k: nat, t: nat): nat
    requires t <= k
  {
    Choose(m, t) * Choose(n, k - t) + if t == 0 then 0 else Split(m, n, k, t - 1)
  }

  /** One more in the first group is chosen or not. */
  lemma {:induction false} SplitMore(m: nat, n: nat, k: nat, t: nat)
    requires t <= k
    ensures Split(m + 1, n, k, t) == Split(m, n, k, t) + if t == 0 then 0 else Split(m, n, k - 1, t - 1)
  {
    if t > 0 {
      SplitMore(m, n, k, t - 1);
      var c := Choose(n, k - t);
      Spread2(Choose(m, t - 1), Choose(m, t), c);
      assert Choose(m + 1, t) * c == Choose(m, t - 1) * c + Choose(m, t) * c;
    }
  }

  lemma {:induction false} SplitNone(n: nat, k: nat, t: nat)
    requires t <= k
    ensures Split(0, n, k, t) == Choose(n, k)
  {
    if t > 0 { SplitNone(n, k, t - 1); }
  }

  /** Vandermonde's identity. */
  lemma {:induction false} Vandermonde(m: nat, n: nat, k: nat)
    ensures Split(m, n, k, k) == Choose(m + n, k)
  {
    if m == 0 {
      SplitNone(n, k, k);
    } else {
      SplitMore(m - 1, n, k, k);
      Vandermonde(m - 1, n, k);
      if k > 0 { Vandermonde(m - 1, n, k - 1); }
    }
  }

  /** The sum of the products up to `t`. */
  ghost function Products(a: nat, b: nat, t: nat): nat {
    Choose(a, t) * Choose(b, t) + if t == 0 then 0 else Products(a, b, t - 1)
  }

  lemma {:induction false} ProductsSplit(a: nat, b: nat, t: nat)
    requires t <= a
    ensures Products(a, b, t) == Split(b, a, a, t)
  {
    Symmetry(a, t);
    if t > 0 { ProductsSplit(a, b, t - 1); }
  }

  lemma {:induction false} ProductsEnd(a: nat, b: nat, t: nat, u: nat)
    requires b <= t <= u
    ensures Products(a, b, u) == Products(a, b, t)
  {
    if t < u { ProductsEnd(a, b, t, u - 1); }
  }

  lemma ProductsAll(r: nat, a: nat)
    requires a <= r
    ensures Products(a, r - a, a) == Choose(r, a)
  {
    ProductsSplit(a, r - a, a);
    Vandermonde(r - a, a, a);
  }

  /** The sum ends early where the second factor can only be 0. */
  method ByProducts(r: nat, a: nat) returns (c: nat)
    requires a <= r
    ensures c == Choose(r, a)
    decreases r
  {
    if r == a { return 1; }
    if a == 1 {
      ChooseOne(r);
      return r;
    }
    c := 1;
    var i := 0;
    while i < a
      invariant 0 <= i <= a && c == Products(a, r - a, i)
    {
      if r - a < i + 1 {
        ProductsEnd(a, r - a, i, a);
        break;
      }
      var x := ByProducts(a, i + 1);
      var y := ByProducts(r - a, i + 1);
      c := c + x * y;
      i := i + 1;
    }
    ProductsAll(r, a);
  }
}
