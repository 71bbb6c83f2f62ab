/**
  * A definition of the Jacobi symbol by counting (after Gauss and Schering), and the proof that
  * it has every law that mlegendre uses, quadratic reciprocity among them.
  */
module JacobiSymbol {
  import opened Digits
  import opened Numbers
  import opened Counting
  import opened Mlegendre

  function Half(n: int): (h: int)
    requires OddPositive(n)
    ensures h >= 0 && n == 2 * h + 1
  {
    (n - 1) / 2
  }

  /** Whether the residue of a * k lies above the half of n. */
  ghost predicate Flips(a: int, n: int, k: int)
    requires OddPositive(n)
  {
    Times(a, k) % n > Half(n)
  }

  /** The number in 1..Half(n) that a * k is congruent to up to its sign. */
  ghost function Fold(a: int, n: int, k: int): int
    requires OddPositive(n)
  {
    if Flips(a, n, k) then n - Times(a, k) % n else Times(a, k) % n
  }

  ghost function Flipped(a: int, n: int): set<int>
    requires OddPositive(n)
  {
    Where(Interval(0, Half(n)), k => Flips(a, n, k))
  }

  function Sign(c: nat): (s: int)
    ensures s == 1 || s == -1
  {
    if c % 2 == 0 then 1 else -1
  }

  /** The Jacobi symbol of a and an odd positive n. */
  ghost function Symbol(a: int, n: int): int {
    if OddPositive(n) && Coprime(a, n) then Sign(|Flipped(a, n)|) else 0
  }

  // Congruences

  lemma Mod(x: int, n: int, t: int, r: int)
    requires n > 0 && x == t * n + r && 0 <= r < n
    ensures x % n == r
  {
    DivModUnique(x, n, t, r);
  }

  lemma {:induction false} Bezout(a: int, n: nat) returns (u: int, v: int)
    requires Coprime(a, n) && (n == 0 ==> a >= 0)
    ensures u * a + v * n == 1
    decreases n
  {
    if n == 0 {
      DividesZero(a);
      DividesBound(a, 1);
      u, v := 1, 0;
    } else {
      CoprimeRemainder(a, n, a / n, a % n);
      var x, y := Bezout(n, a % n);
      u, v := y, x - y * (a / n);
      BackStep(a, n, a / n, a % n, x, y);
    }
  }

  lemma BackStep(a: int, n: int, q: int, r: int, x: int, y: int)
    requires a == q * n + r && x * n + y * r == 1
    ensures y * a + (x - y * q) * n == 1
  {
    assert y * a == y * (q * n) + y * r;
    MulAssoc(y, q, n);
  }

  /** A multiple of n stays one when a factor prime to n is taken out. */
  lemma CancelFactor(a: int, n: int, k: int, t: int) returns (s: int)
    requires n > 0 && Coprime(a, n) && a * k == t * n
    ensures k == s * n
  {
    var u, v := Bezout(a, n);
    s := u * t + v * k;
    Expand(u, a, v, n, k);
    assert u * (a * k) == u * (t * n);
    MulAssoc(u, t, n);
    MulAssoc(u, a, k);
  }

  lemma Expand(u: int, a: int, v: int, n: int, k: int)
    requires u * a + v * n == 1
    ensures k == (u * a) * k + (v * k) * n
  {
    assert k == (u * a + v * n) * k;
    assert (v * n) * k == (v * k) * n;
  }

  lemma NoMultiple(k: int, s: int, n: int)
    requires k == s * n && n > 0 && -n < k < n
    ensures k == 0
  {
    if s >= 1 {
      MulLe(1, s, n);
      assert false;
    } else if s <= -1 {
      MulLe(s, -1, n);
      assert false;
    }
  }

  /** What Fold and Flips say of a * k. */
  lemma FoldForm(a: int, n: int, k: int) returns (s: int, t: int)
    requires OddPositive(n) && Coprime(a, n) && 1 <= k <= Half(n)
    ensures s == if Flips(a, n, k) then -1 else 1
    ensures a * k == s * Fold(a, n, k) + t * n && 1 <= Fold(a, n, k) <= Half(n)
  {
    var d := Times(a, k) / n;
    assert a * k == d * n + Times(a, k) % n;
    if Times(a, k) % n == 0 {
      var c := CancelFactor(a, n, k, d);
      NoMultiple(k, c, n);
      assert false;
    }
    if Flips(a, n, k) {
      s, t := -1, d + 1;
    } else {
      s, t := 1, d;
    }
  }

  /** Nothing else says it. */
  lemma FoldUnique(a: int, n: int, k: int, f: int, s: int, t: int)
    requires OddPositive(n) && 1 <= f <= Half(n) && (s == 1 || s == -1) && a * k == s * f + t * n
    ensures Fold(a, n, k) == f && (Flips(a, n, k) <==> s == -1)
  {
    if s == 1 {
      Mod(Times(a, k), n, t, f);
    } else {
      Mod(Times(a, k), n, t - 1, n - f);
    }
  }

  /** Multiplying by a permutes 1..Half(n) up to sign. */
  lemma FoldOneToOne(a: int, n: int)
    requires OddPositive(n) && Coprime(a, n)
    ensures OneToOne(Interval(0, Half(n)), k => Fold(a, n, k))
    ensures Onto(Interval(0, Half(n)), Interval(0, Half(n)), k => Fold(a, n, k))
  {
    var xs, f := Interval(0, Half(n)), k => Fold(a, n, k);
    forall x, y | x in xs && y in xs && f(x) == f(y)
      ensures x == y
    {
      FoldInjective(a, n, x, y);
    }
    forall k <- xs
      ensures f(k) in xs
    {
      var _, _ := FoldForm(a, n, k);
      assert Between(f(k), 0, Half(n));
    }
    OneToOneIsOnto(xs, f);
  }

  lemma FoldInjective(a: int, n: int, x: int, y: int)
    requires OddPositive(n) && Coprime(a, n) && 1 <= x <= Half(n) && 1 <= y <= Half(n)
    requires Fold(a, n, x) == Fold(a, n, y)
    ensures x == y
  {
    var s, t := FoldForm(a, n, x);
    var s', t' := FoldForm(a, n, y);
    if s == s' {
      assert a * (x - y) == (t - t') * n;
      var c := CancelFactor(a, n, x - y, t - t');
      NoMultiple(x - y, c, n);
    } else {
      assert a * (x + y) == (t + t') * n;
      var c := CancelFactor(a, n, x + y, t + t');
      NoMultiple(x + y, c, n);
    }
  }

  // Periodicity

  lemma SymbolPeriodic(a: int, n: int)
    requires OddPositive(n)
    ensures Symbol(a, n) == Symbol(a % n, n)
  {
    if Coprime(a, n) {
      CoprimeRemainder(a, n, a / n, a % n);
    }
    if Coprime(a % n, n) {
      CoprimeRemainder(a % n, n, -(a / n), a);
    }
    forall k
      ensures Flips(a, n, k) == Flips(a % n, n, k)
    {
      var r := Times(a % n, k);
      assert Times(a, k) == (a / n * n + a % n) * k == (a / n * k) * n + r;
      Mod(Times(a, k), n, a / n * k + r / n, r % n);
    }
    assert Flipped(a, n) == Flipped(a % n, n);
  }

  // Multiplicativity

  lemma CoprimeProduct(a: int, b: int, n: int)
    requires n > 0
    ensures Coprime(Times(a, b), n) <==> Coprime(a, n) && Coprime(b, n)
  {
    if Coprime(Times(a, b), n) {
      CoprimeDivisor(Times(a, b), n, b, a);
      CoprimeDivisor(Times(a, b), n, a, b);
    }
    if Coprime(a, n) && Coprime(b, n) {
      forall d | Divides(d, Times(a, b)) && Divides(d, n)
        ensures Divides(d, 1)
      {
        var u, v := Bezout(a, n);
        Expand(u, a, v, n, b);
        MulAssoc(u, a, b);
        DividesMultiple(d, Times(a, b), u);
        DividesMultiple(d, n, v * b);
        DividesSum(d, u * Times(a, b), v * b * n);
      }
    }
  }

  lemma FlipsOfProduct(a: int, b: int, n: int, k: int)
    requires OddPositive(n) && Coprime(a, n) && Coprime(b, n) && 1 <= k <= Half(n)
    ensures Flips(Times(a, b), n, k) <==> (Flips(b, n, k) != Flips(a, n, Fold(b, n, k)))
  {
    var s, t := FoldForm(b, n, k);
    var f := Fold(b, n, k);
    var s', t' := FoldForm(a, n, f);
    var f' := Fold(a, n, f);
    Compose(a, b, k, s, f, t, s', f', t', n);
    FoldUnique(Times(a, b), n, k, f', s * s', s * t' + a * t);
  }

  lemma Compose(a: int, b: int, k: int, s: int, f: int, t: int, s': int, f': int, t': int, n: int)
    requires b * k == s * f + t * n && a * f == s' * f' + t' * n
    ensures (a * b) * k == (s * s') * f' + (s * t' + a * t) * n
  {
    MulAssoc(a, b, k);
    assert a * (s * f + t * n) == s * (a * f) + (a * t) * n;
    assert s * (s' * f' + t' * n) == (s * s') * f' + (s * t') * n;
  }

  /** Where multiplying by b leads to a number that a flips. */
  ghost function FlippedAfter(a: int, b: int, n: int): set<int>
    requires OddPositive(n)
  {
    Where(Interval(0, Half(n)), k => Flips(a, n, Fold(b, n, k)))
  }

  lemma FlippedByProduct(a: int, b: int, n: int)
    requires OddPositive(n) && Coprime(a, n) && Coprime(b, n)
    ensures var xs, ys := Flipped(b, n), FlippedAfter(a, b, n);
      Flipped(Times(a, b), n) == (xs - ys) + (ys - xs)
  {
    var xs, ys := Flipped(b, n), FlippedAfter(a, b, n);
    forall k
      ensures k in Flipped(Times(a, b), n) <==> k in (xs - ys) + (ys - xs)
    {
      hide Flips, Fold, Coprime;
      if k in Interval(0, Half(n)) {
        FlipsOfProduct(a, b, n, k);
      }
    }
  }

  lemma FlippedAfterSize(a: int, b: int, n: int)
    requires OddPositive(n) && Coprime(b, n)
    ensures |FlippedAfter(a, b, n)| == |Flipped(a, n)|
  {
    hide Coprime, Interval, Flips, Fold, Where;
    var hs := Interval(0, Half(n));
    FoldOneToOne(b, n);
    CorrespondenceWhere(hs, hs, k => Fold(b, n, k), k => Flips(a, n, Fold(b, n, k)), k => Flips(a, n, k));
  }

  lemma SymbolMultiplicative(a: int, b: int, n: int)
    requires OddPositive(n)
    ensures Symbol(Times(a, b), n) == Symbol(a, n) * Symbol(b, n)
  {
    hide Flipped, FlippedAfter, Coprime;
    CoprimeProduct(a, b, n);
    if Coprime(a, n) && Coprime(b, n) {
      FlippedByProduct(a, b, n);
      ExclusiveSize(Flipped(b, n), FlippedAfter(a, b, n));
      FlippedAfterSize(a, b, n);
    }
  }

  // The supplementary laws

  lemma SymbolOfOne(n: int)
    requires OddPositive(n)
    ensures Symbol(1, n) == 1
  {
    forall k | 1 <= k <= Half(n)
      ensures !Flips(1, n, k)
    {
      Mod(Times(1, k), n, 0, k);
    }
    assert Flipped(1, n) == {};
  }

  lemma FlippedByTwo(n: int)
    requires OddPositive(n)
    ensures Flipped(2, n) == Interval(Half(n) / 2, Half(n))
  {
    var h := Half(n);
    forall k | 1 <= k <= h
      ensures Flips(2, n, k) <==> k > h / 2
    {
      Mod(Times(2, k), n, 0, 2 * k);
    }
    hide Flips, Half;
    forall k
      ensures k in Flipped(2, n) <==> k in Interval(h / 2, h)
    {
      assert Between(k, 0, h) <==> 1 <= k <= h;
      assert Between(k, h / 2, h) <==> h / 2 < k <= h;
    }
  }

  lemma HalfOfHalf(n: int, h: int, q: int, r: int)
    requires n == 2 * h + 1 && h == 4 * q + r && 0 <= r < 4
    ensures (h - h / 2) % 2 == 0 <==> n % 8 == 1 || n % 8 == 7
  {
    Mod(n, 8, q, 2 * r + 1);
    DivModUnique(h, 2, 2 * q + r / 2, r % 2);
    Mod(h - h / 2, 2, if r == 3 then q + 1 else q, if r == 1 || r == 2 then 1 else 0);
  }

  lemma SymbolOfTwo(n: int)
    requires OddPositive(n)
    ensures Symbol(2, n) == if n % 8 == 1 || n % 8 == 7 then 1 else -1
  {
    var h := Half(n);
    forall d | Divides(d, 2) && Divides(d, n)
      ensures Divides(d, 1)
    {
      DividesMultiple(d, 2, h);
      DividesSum(d, n, h * 2);
    }
    FlippedByTwo(n);
    IntervalSize(h / 2, h);
    HalfOfHalf(n, h, h / 4, h % 4);
  }

  // Quadratic reciprocity: the points (x, y) of a rectangle, by the side of the line q * x == p * y they lie on

  ghost function Gap(p: int, q: int, z: (int, int)): int {
    Times(q, z.0) - Times(p, z.1)
  }

  ghost function Points(p: int, q: int): set<(int, int)>
    requires OddPositive(p) && OddPositive(q)
  {
    Rectangle(Half(p), Half(q))
  }

  ghost function JustAbove(p: int, q: int): set<(int, int)>
    requires OddPositive(p) && OddPositive(q)
  {
    set z <- Points(p, q) | -p < 2 * Gap(p, q, z) < 0
  }

  ghost function JustBelow(p: int, q: int): set<(int, int)>
    requires OddPositive(p) && OddPositive(q)
  {
    set z <- Points(p, q) | 0 < 2 * Gap(p, q, z) < q
  }

  ghost function FarAbove(p: int, q: int): set<(int, int)>
    requires OddPositive(p) && OddPositive(q)
  {
    set z <- Points(p, q) | 2 * Gap(p, q, z) <= -p
  }

  ghost function FarBelow(p: int, q: int): set<(int, int)>
    requires OddPositive(p) && OddPositive(q)
  {
    set z <- Points(p, q) | 2 * Gap(p, q, z) >= q
  }

  lemma InPoints(p: int, q: int, x: int, y: int)
    requires OddPositive(p) && OddPositive(q)
    ensures (x, y) in Points(p, q) <==> 1 <= x <= Half(p) && 1 <= y <= Half(q)
  {
    assert Between(x, 0, Half(p)) <==> 1 <= x <= Half(p);
    assert Between(y, 0, Half(q)) <==> 1 <= y <= Half(q);
  }

  /** A flipped x has one point just above the line. */
  lemma PointOf(p: int, q: int, x: int)
    requires OddPositive(p) && OddPositive(q) && 1 <= x <= Half(p) && Flips(q, p, x)
    ensures (x, Times(q, x) / p + 1) in JustAbove(p, q)
  {
    var d, r := Times(q, x) / p, Times(q, x) % p;
    assert q * x == d * p + r;
    PointHeight(p, q, x, d, r);
    assert Times(p, d + 1) == d * p + p;
    InPoints(p, q, x, d + 1);
  }

  lemma PointHeight(p: int, q: int, x: int, d: int, r: int)
    requires OddPositive(p) && OddPositive(q) && 1 <= x <= Half(p) && q * x == d * p + r && Half(p) < r < p
    ensures 1 <= d + 1 <= Half(q)
  {
    HeightBound(p, q, Half(p), Half(q), x, d, r);
  }

  lemma HeightBound(p: int, q: int, h: int, g: int, x: int, d: int, r: int)
    requires p == 2 * h + 1 && q == 2 * g + 1 && h >= 0 && g >= 0
    requires 1 <= x <= h && q * x == d * p + r && h < r < p
    ensures 1 <= d + 1 <= g
  {
    MulLe(x, h, q);
    assert q * p == 2 * (h * q) + q;
    if d < 0 {
      MulLe(d, -1, p);
      MulLe(1, x, q);
      assert false;
    }
    if 2 * d + 1 >= q {
      MulLe(q, 2 * d + 1, p);
      assert false;
    }
  }

  lemma FlippedOf(p: int, q: int, x: int, y: int)
    requires OddPositive(p) && OddPositive(q) && (x, y) in JustAbove(p, q)
    ensures 1 <= x <= Half(p) && Flips(q, p, x) && y == Times(q, x) / p + 1
  {
    InPoints(p, q, x, y);
    var g := Gap(p, q, (x, y));
    assert Times(q, x) == (y - 1) * p + (p + g) by {
      assert p * y == (y - 1) * p + p;
    }
    DivModUnique(Times(q, x), p, y - 1, p + g);
  }

  /** As many points lie just above the line as numbers are flipped by q modulo p. */
  lemma JustAboveSize(p: int, q: int)
    requires OddPositive(p) && OddPositive(q)
    ensures |JustAbove(p, q)| == |Flipped(q, p)|
  {
    hide Flips, JustAbove;
    var xs, zs, f := Flipped(q, p), JustAbove(p, q), (x: int) => (x, Times(q, x) / p + 1);
    forall x <- xs
      ensures f(x) in zs
    {
      assert Between(x, 0, Half(p));
      PointOf(p, q, x);
    }
    forall z <- zs
      ensures exists x :: x in xs && f(x) == z
    {
      FlippedOf(p, q, z.0, z.1);
      assert Between(z.0, 0, Half(p));
      assert f(z.0) == z;
    }
    Correspondence(xs, zs, f);
  }

  /** Seen from the other side, the points just above are those just below. */
  lemma JustBelowSize(p: int, q: int)
    requires OddPositive(p) && OddPositive(q)
    ensures |JustBelow(p, q)| == |Flipped(p, q)|
  {
    var f := (z: (int, int)) => (z.1, z.0);
    forall x, y
      ensures (x, y) in JustAbove(q, p) <==> (y, x) in JustBelow(p, q)
    {
      InPoints(q, p, x, y);
      InPoints(p, q, y, x);
      assert Gap(q, p, (x, y)) == -Gap(p, q, (y, x));
    }
    hide JustAbove, JustBelow;
    forall z <- JustBelow(p, q)
      ensures exists y :: y in JustAbove(q, p) && f(y) == z
    {
      assert (z.1, z.0) in JustAbove(q, p) && f((z.1, z.0)) == z;
    }
    forall z <- JustAbove(q, p)
      ensures f(z) in JustBelow(p, q)
    {
      assert (z.0, z.1) == z;
    }
    Correspondence(JustAbove(q, p), JustBelow(p, q), f);
    JustAboveSize(q, p);
  }

  /** Turning the rectangle about its centre swaps the far sides. */
  lemma FarSizes(p: int, q: int)
    requires OddPositive(p) && OddPositive(q)
    ensures |FarAbove(p, q)| == |FarBelow(p, q)|
  {
    var f := (z: (int, int)) => (Half(p) + 1 - z.0, Half(q) + 1 - z.1);
    forall x, y
      ensures (x, y) in FarAbove(p, q) <==> f((x, y)) in FarBelow(p, q)
    {
      TurnedGap(p, q, Half(p), Half(q), x, y);
      InPoints(p, q, x, y);
      InPoints(p, q, Half(p) + 1 - x, Half(q) + 1 - y);
    }
    hide FarAbove, FarBelow;
    forall z <- FarAbove(p, q)
      ensures f(z) in FarBelow(p, q)
    {
      assert (z.0, z.1) == z;
    }
    forall z <- FarBelow(p, q)
      ensures exists y :: y in FarAbove(p, q) && f(y) == z
    {
      assert f((f(z).0, f(z).1)) == z;
    }
    Correspondence(FarAbove(p, q), FarBelow(p, q), f);
  }

  lemma TurnedGap(p: int, q: int, h: int, g: int, x: int, y: int)
    requires p == 2 * h + 1 && q == 2 * g + 1
    ensures 2 * Gap(p, q, (h + 1 - x, g + 1 - y)) == q - p - 2 * Gap(p, q, (x, y))
  {
    assert Times(q, h + 1 - x) == q * (h + 1) - q * x && Times(p, g + 1 - y) == p * (g + 1) - p * y;
    assert 2 * (q * (h + 1)) == q * (p + 1) && 2 * (p * (g + 1)) == p * (q + 1);
  }

  /** No point lies on the line. */
  lemma OffTheLine(p: int, q: int, x: int, y: int)
    requires OddPositive(p) && OddPositive(q) && Coprime(p, q) && (x, y) in Points(p, q)
    ensures Gap(p, q, (x, y)) != 0
  {
    InPoints(p, q, x, y);
    if Gap(p, q, (x, y)) == 0 {
      CoprimeSwap(p, q);
      var s := CancelFactor(q, p, x, y);
      NoMultiple(x, s, p);
    }
  }

  lemma PointsSize(p: int, q: int)
    requires OddPositive(p) && OddPositive(q) && Coprime(p, q)
    ensures Half(p) * Half(q) == |Flipped(q, p)| + |Flipped(p, q)| + 2 * |FarAbove(p, q)|
  {
    var a, b, c, d := JustAbove(p, q), JustBelow(p, q), FarAbove(p, q), FarBelow(p, q);
    forall z <- Points(p, q)
      ensures z in a + b + c + d
    {
      assert z == (z.0, z.1);
      OffTheLine(p, q, z.0, z.1);
    }
    assert Points(p, q) == a + b + c + d;
    assert a !! b && (a + b) !! c && (a + b + c) !! d;
    RectangleSize(Half(p), Half(q));
    JustAboveSize(p, q);
    JustBelowSize(p, q);
    FarSizes(p, q);
  }

  lemma ParityOfProduct(u: int, a: int, v: int, b: int)
    requires 0 <= a < 2 && 0 <= b < 2
    ensures ((2 * u + a) * (2 * v + b)) % 2 == a * b
  {
    assert (2 * u + a) * (2 * v + b) == (u * (2 * v + b) + a * v) * 2 + a * b;
    Mod((2 * u + a) * (2 * v + b), 2, u * (2 * v + b) + a * v, a * b);
  }

  lemma SignParity(x: nat, y: nat, z: nat, n: int)
    requires n == x + y + 2 * z
    ensures Sign(x) == if n % 2 == 1 then -Sign(y) else Sign(y)
  {
    Mod(n, 2, x / 2 + y / 2 + z + if x % 2 + y % 2 == 2 then 1 else 0, (x % 2 + y % 2) % 2);
  }

  lemma SignOfSum(x: nat, y: nat, z: nat, h: int, g: int)
    requires h >= 0 && g >= 0 && h * g == x + y + 2 * z
    ensures Sign(x) == if h % 2 == 1 && g % 2 == 1 then -Sign(y) else Sign(y)
  {
    ParityOfProduct(h / 2, h % 2, g / 2, g % 2);
    SignParity(x, y, z, h * g);
  }

  lemma SymbolReciprocity(p: int, q: int)
    requires OddPositive(p) && OddPositive(q) && Coprime(p, q)
    ensures Symbol(p, q) == if p % 4 == 3 && q % 4 == 3 then -Symbol(q, p) else Symbol(q, p)
  {
    hide Coprime, Flipped, FarAbove, Half, Sign;
    CoprimeSwap(p, q);
    PointsSize(p, q);
    HalfParity(p);
    HalfParity(q);
    SignOfSum(|Flipped(p, q)|, |Flipped(q, p)|, |FarAbove(p, q)|, Half(p), Half(q));
  }

  lemma HalfParity(p: int)
    requires OddPositive(p)
    ensures p % 4 == 3 <==> Half(p) % 2 == 1
  {
    Mod(p, 4, Half(p) / 2, 2 * (Half(p) % 2) + 1);
  }

  /** The symbol defined by counting is the Jacobi symbol. */
  lemma SymbolObeysLaws()
    ensures JacobiLaws(Symbol)
  {
    forall p, q | OddPositive(q)
      ensures Symbol(p, q) == Symbol(p % q, q)
    {
      SymbolPeriodic(p, q);
    }
    forall m, n, q | OddPositive(q)
      ensures Symbol(Times(m, n), q) == Symbol(m, q) * Symbol(n, q)
    {
      SymbolMultiplicative(m, n, q);
    }
    forall q | OddPositive(q)
      ensures Symbol(1, q) == 1 && Symbol(2, q) == if q % 8 == 1 || q % 8 == 7 then 1 else -1
    {
      SymbolOfOne(q);
      SymbolOfTwo(q);
    }
    forall p, q | OddPositive(p) && OddPositive(q) && Coprime(p, q)
      ensures Symbol(p, q) == if p % 4 == 3 && q % 4 == 3 then -Symbol(q, p) else Symbol(q, p)
    {
      SymbolReciprocity(p, q);
    }
  }
}
