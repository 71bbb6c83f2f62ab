/** Counting finite sets by one-to-one correspondence. */
module Counting {

  ghost predicate OneToOne<A(!new), B(!new)>(xs: set<A>, f: A -> B) {
    forall x, y | x in xs && y in xs && f(x) == f(y) :: x == y
  }

  ghost predicate Onto<A(!new), B(!new)>(xs: set<A>, ys: set<B>, f: A -> B) {
    (forall x <- xs :: f(x) in ys) && (forall y <- ys :: exists x :: x in xs && f(x) == y)
  }

  ghost function Element<A>(xs: set<A>): (x: A)
    requires xs != {}
    ensures x in xs
  {
    var x :| x in xs;
    x
  }

  lemma {:induction false} Correspondence<A(!new), B(!new)>(xs: set<A>, ys: set<B>, f: A -> B)
    requires OneToOne(xs, f) && Onto(xs, ys, f)
    ensures |xs| == |ys|
  {
    if xs == {} {
      assert ys == {};
    } else {
      var x :| x in xs;
      Correspondence(xs - {x}, ys - {f(x)}, f);
    }
  }

  ghost function Where<A(!new)>(xs: set<A>, p: A -> bool): set<A> {
    set x <- xs | p(x)
  }

  /** A correspondence pairs off those with a property as well. */
  lemma CorrespondenceWhere<A(!new), B(!new)>(xs: set<A>, ys: set<B>, f: A -> B, p: A -> bool, p': B -> bool)
    requires OneToOne(xs, f) && Onto(xs, ys, f) && forall x <- xs :: p(x) == p'(f(x))
    ensures |Where(xs, p)| == |Where(ys, p')|
  {
    Correspondence(Where(xs, p), Where(ys, p'), f);
  }

  ghost function Image<A(!new), B>(xs: set<A>, f: A -> B): set<B> {
    set x <- xs :: f(x)
  }

  lemma ImageRemove<A(!new), B(!new)>(xs: set<A>, f: A -> B, x: A)
    requires OneToOne(xs, f) && x in xs
    ensures f(x) in Image(xs, f) && Image(xs, f) - {f(x)} == Image(xs - {x}, f)
  {
    forall y
      ensures y in Image(xs, f) - {f(x)} <==> y in Image(xs - {x}, f)
    {
      if y in Image(xs, f) && y != f(x) {
        var k :| k in xs && f(k) == y;
        assert k in xs - {x};
      }
    }
  }

  lemma ImageOnto<A(!new), B(!new)>(xs: set<A>, ys: set<B>, f: A -> B)
    requires Onto(xs, ys, f)
    ensures Image(xs, f) == ys
  {
  }

  /** Every element has another one that it is related to. */
  ghost predicate PairsUp<A(!new)>(xs: set<A>, r: (A, A) -> bool) {
    forall x <- xs :: exists y :: y in xs && y != x && r(x, y)
  }

  /** No element has two, and the relation goes both ways. */
  ghost predicate IsPairing<A(!new)>(xs: set<A>, r: (A, A) -> bool) {
    && (forall x, y | x in xs && y in xs && r(x, y) :: r(y, x))
    && (forall x, y, z | x in xs && y in xs && z in xs && r(x, y) && r(x, z) :: y == z)
  }

  lemma PairRemove<A(!new)>(xs: set<A>, r: (A, A) -> bool, x: A, y: A)
    requires PairsUp(xs, r) && IsPairing(xs, r) && x in xs && y in xs && x != y && r(x, y)
    ensures PairsUp(xs - {x, y}, r) && IsPairing(xs - {x, y}, r)
  {
    forall z <- xs - {x, y}
      ensures exists w :: w in xs - {x, y} && w != z && r(z, w)
    {
      var w :| w in xs && w != z && r(z, w);
      assert r(w, z) && r(y, x);
      assert w in xs - {x, y};
    }
  }

  lemma {:induction false} SmallerSet<A>(xs: set<A>, ys: set<A>)
    requires xs <= ys
    ensures |xs| <= |ys| && (|xs| == |ys| ==> xs == ys)
  {
    if xs != {} {
      var x :| x in xs;
      SmallerSet(xs - {x}, ys - {x});
      assert xs == (xs - {x}) + {x} && ys == (ys - {x}) + {x};
    }
  }

  /** A one-to-one map of a finite set into itself reaches all of it. */
  lemma OneToOneIsOnto<A(!new)>(xs: set<A>, f: A -> A)
    requires OneToOne(xs, f) && forall x <- xs :: f(x) in xs
    ensures Onto(xs, xs, f)
  {
    var image := set x | x in xs :: f(x);
    Correspondence(xs, image, f);
    SmallerSet(image, xs);
  }

  /** The elements in exactly one of two sets are as many as those of both together, up to an even number. */
  lemma ExclusiveSize<A>(xs: set<A>, ys: set<A>)
    ensures |(xs - ys) + (ys - xs)| == |xs| + |ys| - 2 * |xs * ys|
  {
    assert xs == (xs - ys) + xs * ys && ys == (ys - xs) + xs * ys;
  }

  lemma SizeWithout<A>(xs: set<A>, ys: set<A>, x: A)
    requires x in xs
    ensures |xs * ys| == |(xs - {x}) * ys| + if x in ys then 1 else 0
  {
    if x in ys {
      assert xs * ys == (xs - {x}) * ys + {x};
    } else {
      assert xs * ys == (xs - {x}) * ys;
    }
  }

  lemma PairSize<A>(xs: set<A>, x: A, y: A)
    requires x in xs && y in xs && x != y
    ensures |xs| == |xs - {x, y}| + 2
  {
    assert xs == (xs - {x, y}) + {x} + {y};
  }

  predicate Between(k: int, lo: int, hi: int) {
    lo < k <= hi
  }

  function Interval(lo: int, hi: int): (r: set<int>) {
    set k: int {:trigger Between(k, lo, hi)} | lo < k <= hi && Between(k, lo, hi)
  }

  lemma {:induction false} IntervalSize(lo: int, hi: int)
    requires lo <= hi
    ensures |Interval(lo, hi)| == hi - lo
    decreases hi - lo
  {
    if lo == hi {
      assert Interval(lo, hi) == {};
    } else {
      IntervalSize(lo, hi - 1);
      assert Interval(lo, hi) == Interval(lo, hi - 1) + {hi};
    }
  }

  /** The pairs of a number in 1..a and one in 1..b. */
  function Rectangle(a: nat, b: nat): (r: set<(int, int)>) {
    set x <- Interval(0, a), y <- Interval(0, b) :: (x, y)
  }

  function Column(a: int, b: nat): (r: set<(int, int)>) {
    set y <- Interval(0, b) :: (a, y)
  }

  lemma ColumnSize(a: int, b: nat)
    ensures |Column(a, b)| == b
  {
    IntervalSize(0, b);
    Correspondence(Interval(0, b), Column(a, b), y => (a, y));
  }

  lemma {:induction false} RectangleSize(a: nat, b: nat)
    ensures |Rectangle(a, b)| == a * b
  {
    if a == 0 {
      assert Rectangle(a, b) == {};
    } else {
      RectangleSize(a - 1, b);
      ColumnSize(a, b);
      AddColumn(a, b);
      assert a * b == (a - 1) * b + b;
    }
  }

  lemma AddColumn(a: nat, b: nat)
    requires a > 0
    ensures Rectangle(a, b) == Rectangle(a - 1, b) + Column(a, b) && Rectangle(a - 1, b) !! Column(a, b)
  {
    forall p: (int, int)
      ensures p in Rectangle(a, b) <==> p in Rectangle(a - 1, b) || p in Column(a, b)
    {
    }
  }
}
