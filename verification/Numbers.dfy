/** Divisibility and congruence of integers, as the number-theoretic routines use them. */
module Numbers {
  import opened Digits

  function Abs(x: int): int {
    if x < 0 then -x else x
  }

  ghost function Times(q: int, d: int): int {
    q * d
  }

  ghost predicate Divides(d: int, n: int) {
    exists q :: Times(q, d) == n
  }

  /** The greatest common divisor in the order of divisibility; that of 0 and 0 is 0. */
  ghost predicate IsGcd(g: int, a: int, b: int) {
    && g >= 0 && Divides(g, a) && Divides(g, b)
    && forall d :: Divides(d, a) && Divides(d, b) ==> Divides(d, g)
  }

  ghost predicate SameCommonDivisors(x: int, y: int, a: int, b: int) {
    forall d :: Divides(d, x) && Divides(d, y) <==> Divides(d, a) && Divides(d, b)
  }

  lemma DividesMultiple(d: int, n: int, k: int)
    requires Divides(d, n)
    ensures Divides(d, k * n)
  {
    var q :| Times(q, d) == n;
    assert Times(k * q, d) == k * n by { assert (k * q) * d == k * (q * d); }
  }

  lemma DividesSum(d: int, m: int, n: int)
    requires Divides(d, m) && Divides(d, n)
    ensures Divides(d, m + n) && Divides(d, m - n) && Divides(d, -m)
  {
    var p :| Times(p, d) == m;
    var q :| Times(q, d) == n;
    assert Times(p + q, d) == m + n && Times(p - q, d) == m - n && Times(-p, d) == -m;
  }

  lemma DividesZero(d: int)
    ensures Divides(d, 0) && Divides(d, d)
  {
    assert Times(0, d) == 0 && Times(1, d) == d;
  }

  /** A step of Euclid's algorithm keeps the common divisors. */
  lemma EuclidStep(x: int, y: int, q: int, r: int, a: int, b: int)
    requires x == q * y + r && SameCommonDivisors(x, y, a, b)
    ensures SameCommonDivisors(y, r, a, b)
  {
    forall d
      ensures Divides(d, y) && Divides(d, r) <==> Divides(d, x) && Divides(d, y)
    {
      if Divides(d, y) {
        DividesMultiple(d, y, q);
        if Divides(d, r) {
          DividesSum(d, q * y, r);
        }
        if Divides(d, x) {
          DividesSum(d, x, q * y);
        }
      }
    }
  }

  lemma EuclidEnd(x: int, a: int, b: int)
    requires SameCommonDivisors(x, 0, a, b)
    ensures IsGcd(Abs(x), a, b)
  {
    DividesZero(x);
    forall d
      ensures Divides(d, x) <==> Divides(d, Abs(x))
    {
      if Divides(d, x) { DividesSum(d, x, x); }
      if Divides(d, Abs(x)) { DividesSum(d, Abs(x), Abs(x)); }
      assert -(-x) == x;
    }
    DividesZero(Abs(x));
    forall d
      ensures Divides(d, x) <==> Divides(d, a) && Divides(d, b)
    {
      DividesZero(d);
    }
    assert Divides(Abs(x), x);
  }

  /** There is only one greatest common divisor. */
  lemma GcdUnique(g: int, h: int, a: int, b: int)
    requires IsGcd(g, a, b) && IsGcd(h, a, b)
    ensures g == h
  {
    DividesBound(g, h);
    DividesBound(h, g);
  }

  lemma DividesBound(d: int, n: int)
    requires Divides(d, n) && d >= 0 && n >= 0
    ensures n > 0 ==> 0 < d <= n
  {
    var q :| Times(q, d) == n;
    if n > 0 {
      if q <= 0 {
        MulLe(q, 0, d);
        assert false;
      } else {
        MulLe(1, q, d);
      }
    }
  }
}
