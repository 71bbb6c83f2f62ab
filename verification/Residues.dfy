/**
  * What the Jacobi symbol says: its laws leave it no choice, and for a prime modulus it tells
  * the squares from the other residues (Euler's criterion).
  */
module Residues {
  import opened Digits
  import opened Numbers
  import opened Counting
  import opened Mlegendre
  import opened JacobiSymbol

  /** Any two functions with the laws agree. */
  lemma {:induction false} LawsDetermine(J: (int, int) -> int, K: (int, int) -> int, p: int, q: int)
    requires JacobiLaws(J) && JacobiLaws(K) && OddPositive(q)
    ensures J(p, q) == K(p, q)
    decreases q, if p < 0 || p >= q then 1 else 0, p
  {
    LawsAt(J, p, q);
    LawsAt(K, p, q);
    if Coprime(p, q) {
      hide JacobiLaws;
      if p < 0 || p >= q {
        LawsDetermine(J, K, p % q, q);
      } else if p == 0 {
        CoprimeZero(q);
      } else if p % 2 == 0 {
        LawsDetermine(J, K, p / 2, q);
      } else {
        CoprimeSwap(p, q);
        LawsDetermine(J, K, q, p);
      }
    }
  }

  lemma LawsAt(J: (int, int) -> int, p: int, q: int)
    requires JacobiLaws(J) && OddPositive(q)
    ensures J(p, q) == J(p % q, q)
    ensures p == 0 && q == 1 ==> J(p, q) == 1
    ensures p % 2 == 0 ==> J(p, q) == (if q % 8 == 1 || q % 8 == 7 then 1 else -1) * J(p / 2, q)
    ensures OddPositive(p) && Coprime(p, q) ==> J(p, q) == if p % 4 == 3 && q % 4 == 3 then -J(q, p) else J(q, p)
    ensures !Coprime(p, q) ==> J(p, q) == 0
  {
    if p % 2 == 0 {
      assert p == Times(2, p / 2);
    }
    if p == 0 && q == 1 {
      assert J(1, q) == J(1 % q, q);
    }
  }

  // Congruence

  ghost predicate Congruent(x: int, y: int, q: int) {
    Divides(q, x - y)
  }

  lemma CongruentBy(x: int, y: int, q: int, t: int)
    requires x == y + t * q
    ensures Congruent(x, y, q) && Congruent(y, x, q)
  {
    assert Times(t, q) == x - y && Times(-t, q) == y - x;
  }

  lemma CongruentTimes(x: int, y: int, x': int, y': int, q: int)
    requires Congruent(x, x', q) && Congruent(y, y', q)
    ensures Congruent(x * y, x' * y', q)
  {
    DividesMultiple(q, x - x', y);
    DividesMultiple(q, y - y', x');
    DividesSum(q, y * (x - x'), x' * (y - y'));
    assert y * (x - x') + x' * (y - y') == x * y - x' * y';
  }

  lemma CongruentVia(x: int, y: int, z: int, q: int)
    requires Congruent(x, y, q) && Congruent(y, z, q)
    ensures Congruent(x, z, q) && Congruent(y, x, q)
  {
    DividesSum(q, x - y, y - z);
  }

  lemma CongruentCancel(c: int, x: int, y: int, q: int)
    requires q > 0 && Coprime(c, q) && Congruent(c * x, c * y, q)
    ensures Congruent(x, y, q)
  {
    var t :| Times(t, q) == c * x - c * y;
    assert c * (x - y) == c * x - c * y;
    var s := CancelFactor(c, q, x - y, t);
    assert Times(s, q) == x - y;
  }

  lemma CongruentNear(x: int, y: int, q: int)
    requires Congruent(x, y, q) && -q < x - y < q
    ensures x == y
  {
    var t :| Times(t, q) == x - y;
    NoMultiple(x - y, t, q);
  }

  // Products

  ghost function Product(xs: set<int>): int {
    if xs == {} then 1 else
    var x := Element(xs);
    x * Product(xs - {x})
  }

  lemma {:induction false} ProductRemove(xs: set<int>, y: int)
    requires y in xs
    ensures Product(xs) == y * Product(xs - {y})
    decreases |xs|
  {
    var x := Element(xs);
    if x != y {
      ProductRemove(xs - {x}, y);
      ProductRemove(xs - {y}, x);
      assert xs - {x} - {y} == xs - {y} - {x};
      var r := Product(xs - {x} - {y});
      assert x * (y * r) == y * (x * r);
    }
  }

  lemma {:induction false} ProductCoprime(xs: set<int>, q: int)
    requires q > 0 && forall x <- xs :: Coprime(x, q)
    ensures Coprime(Product(xs), q)
  {
    if xs != {} {
      var x := Element(xs);
      ProductRemove(xs, x);
      ProductCoprime(xs - {x}, q);
      CoprimeProduct(x, Product(xs - {x}), q);
    }
  }

  // Gauss's lemma: the sign of the symbol is a power

  ghost function Folded(a: int, q: int, xs: set<int>): set<int>
    requires OddPositive(q)
  {
    Image(xs, k => Fold(a, q, k))
  }

  lemma {:induction false} FoldedProduct(a: int, q: int, xs: set<int>)
    requires OddPositive(q) && Coprime(a, q) && xs <= Interval(0, Half(q))
    ensures Congruent(Power(a, |xs|) * Product(xs), Sign(|xs * Flipped(a, q)|) * Product(Folded(a, q, xs)), q)
    decreases |xs|
  {
    if xs == {} {
      assert xs * Flipped(a, q) == {} && Folded(a, q, xs) == {};
      CongruentBy(1, 1, q, 0);
    } else {
      var x := Element(xs);
      FoldedStep(a, q, xs, x);
    }
  }

  lemma {:induction false} FoldedStep(a: int, q: int, xs: set<int>, x: int)
    requires OddPositive(q) && Coprime(a, q) && xs <= Interval(0, Half(q)) && x in xs
    ensures Congruent(Power(a, |xs|) * Product(xs), Sign(|xs * Flipped(a, q)|) * Product(Folded(a, q, xs)), q)
    decreases |xs|, 0
  {
    hide Coprime, Flipped, Folded, Product, Congruent, Sign, Half;
    var ys := xs - {x};
    var f := Fold(a, q, x);
    FoldedProduct(a, q, ys);
    ProductRemove(xs, x);
    var s, t := FoldForm(a, q, x);
    FoldedRemove(a, q, xs, x);
    ProductRemove(Folded(a, q, xs), f);
    FlippedRemove(a, q, xs, x);
    CongruentBy(a * x, s * f, q, t);
    var u, v, w, z := Power(a, |ys|), Product(ys), Sign(|ys * Flipped(a, q)|), Product(Folded(a, q, ys));
    CongruentTimes(a * x, u * v, s * f, w * z, q);
    Rearrange(a, x, u, v);
    Rearrange(s, f, w, z);
  }

  lemma Rearrange(a: int, x: int, u: int, v: int)
    ensures (a * x) * (u * v) == (a * u) * (x * v)
  {
    MulAssoc(a, x, u * v);
    MulAssoc(x, u, v);
    MulAssoc(u, x, v);
    MulAssoc(a, u, x * v);
  }

  lemma FoldedRemove(a: int, q: int, xs: set<int>, x: int)
    requires OddPositive(q) && Coprime(a, q) && xs <= Interval(0, Half(q)) && x in xs
    ensures Fold(a, q, x) in Folded(a, q, xs) && Folded(a, q, xs) - {Fold(a, q, x)} == Folded(a, q, xs - {x})
  {
    hide Image, Coprime;
    FoldOneToOne(a, q);
    ImageRemove(xs, k => Fold(a, q, k), x);
  }

  lemma FlippedRemove(a: int, q: int, xs: set<int>, x: int)
    requires OddPositive(q) && xs <= Interval(0, Half(q)) && x in xs
    ensures Sign(|xs * Flipped(a, q)|)
      == (if Flips(a, q, x) then -1 else 1) * Sign(|(xs - {x}) * Flipped(a, q)|)
  {
    hide Flipped, Flips, Interval, Half, Sign;
    InFlipped(a, q, x);
    SizeWithout(xs, Flipped(a, q), x);
    SignNext(|(xs - {x}) * Flipped(a, q)|);
  }

  lemma InFlipped(a: int, q: int, x: int)
    requires OddPositive(q) && x in Interval(0, Half(q))
    ensures x in Flipped(a, q) <==> Flips(a, q, x)
  {
    hide Flips, Interval, Half;
  }

  lemma SignNext(n: nat)
    ensures Sign(n + 1) == -Sign(n)
  {
  }

  predicate IsPrime(q: int) {
    q > 1 && forall d | 1 < d < q :: q % d != 0
  }

  lemma PrimeCoprime(q: int, a: int)
    requires IsPrime(q) && 0 < a < q
    ensures Coprime(a, q)
  {
    forall d | Divides(d, a) && Divides(d, q)
      ensures Divides(d, 1)
    {
      var e := Abs(d);
      AbsDivides(d, a);
      AbsDivides(d, q);
      DividesBound(e, a);
      var t :| Times(t, e) == q;
      if e > 1 {
        Mod(q, e, t, 0);
        assert false;
      }
      assert Times(d, d) == 1;
    }
  }

  lemma AbsDivides(d: int, n: int)
    requires Divides(d, n)
    ensures Divides(Abs(d), n)
  {
    var t :| Times(t, d) == n;
    assert Times(-t, -d) == n;
  }

  lemma GaussLemma(a: int, q: int)
    requires OddPositive(q) && Coprime(a, q)
    ensures var p := Product(Interval(0, Half(q))); Congruent(p * Power(a, Half(q)), p * Symbol(a, q), q)
  {
    hide Fold, Coprime, Flips, Product, Congruent, Power, Half, Sign, Folded;
    var hs := Interval(0, Half(q));
    FoldedProduct(a, q, hs);
    FoldedAll(a, q);
    IntervalSize(0, Half(q));
    assert hs * Flipped(a, q) == Flipped(a, q);
    Commute(Product(hs), Power(a, Half(q)));
    Commute(Product(hs), Symbol(a, q));
  }

  lemma Commute(x: int, y: int)
    ensures x * y == y * x
  {
  }

  /** Euler's criterion for the symbol. */
  lemma EulerCriterion(a: int, q: int)
    requires OddPositive(q) && IsPrime(q) && Coprime(a, q)
    ensures Congruent(Power(a, Half(q)), Symbol(a, q), q)
  {
    hide IsPrime, Coprime, Product, Congruent, Power, Symbol, Interval;
    GaussLemma(a, q);
    SmallCoprime(q, Half(q));
    ProductCoprime(Interval(0, Half(q)), q);
    CongruentCancel(Product(Interval(0, Half(q))), Power(a, Half(q)), Symbol(a, q), q);
  }

  lemma SmallCoprime(q: int, n: int)
    requires IsPrime(q) && n < q
    ensures forall x <- Interval(0, n) :: Coprime(x, q)
  {
    forall x <- Interval(0, n)
      ensures Coprime(x, q)
    {
      PrimeCoprime(q, x);
    }
  }

  lemma FoldedAll(a: int, q: int)
    requires OddPositive(q) && Coprime(a, q)
    ensures Folded(a, q, Interval(0, Half(q))) == Interval(0, Half(q))
  {
    hide Image, Coprime;
    FoldOneToOne(a, q);
    ImageOnto(Interval(0, Half(q)), Interval(0, Half(q)), k => Fold(a, q, k));
  }

  // Pairing residues whose product is a

  ghost function Partners(a: int, q: int): (int, int) -> bool {
    (x, y) => Congruent(x * y, a, q)
  }

  lemma PartnersPair(a: int, q: int, xs: set<int>)
    requires IsPrime(q) && xs <= Interval(0, q - 1)
    ensures IsPairing(xs, Partners(a, q))
  {
    var r := Partners(a, q);
    forall x, y | x in xs && y in xs && r(x, y)
      ensures r(y, x)
    {
      assert x * y == y * x;
    }
    forall x, y, z | x in xs && y in xs && z in xs && r(x, y) && r(x, z)
      ensures y == z
    {
      assert x in Interval(0, q - 1) && y in Interval(0, q - 1) && z in Interval(0, q - 1);
      OnePartner(a, q, x, y, z);
    }
  }

  lemma OnePartner(a: int, q: int, x: int, y: int, z: int)
    requires IsPrime(q) && 0 < x < q && 0 < y < q && 0 < z < q
    requires Congruent(x * y, a, q) && Congruent(x * z, a, q)
    ensures y == z
  {
    CongruentBy(a, a, q, 0);
    CongruentVia(x * z, a, a, q);
    CongruentVia(x * y, a, x * z, q);
    PrimeCoprime(q, x);
    CongruentCancel(x, y, z, q);
    CongruentNear(y, z, q);
  }

  lemma {:induction false} PairedProduct(a: int, q: int, xs: set<int>)
    requires PairsUp(xs, Partners(a, q)) && IsPairing(xs, Partners(a, q))
    ensures |xs| % 2 == 0 && Congruent(Product(xs), Power(a, |xs| / 2), q)
    decreases |xs|
  {
    if xs == {} {
      CongruentBy(1, 1, q, 0);
    } else {
      var r := Partners(a, q);
      var x := Element(xs);
      var y :| y in xs && y != x && r(x, y);
      PairRemove(xs, r, x, y);
      PairedProduct(a, q, xs - {x, y});
      PairProduct(a, q, xs, x, y);
    }
  }

  lemma PairProduct(a: int, q: int, xs: set<int>, x: int, y: int)
    requires x in xs && y in xs && y != x && Congruent(x * y, a, q)
    requires var ys := xs - {x, y}; |ys| % 2 == 0 && Congruent(Product(ys), Power(a, |ys| / 2), q)
    ensures |xs| % 2 == 0 && Congruent(Product(xs), Power(a, |xs| / 2), q)
  {
    hide Congruent, Product, Power;
    var ys := xs - {x, y};
    PairSize(xs, x, y);
    ProductRemoveTwo(xs, x, y);
    CongruentTimes(x * y, Product(ys), a, Power(a, |ys| / 2), q);
    PowerNext(a, |ys| / 2);
    assert |xs| / 2 == |ys| / 2 + 1;
  }

  lemma ProductRemoveTwo(xs: set<int>, x: int, y: int)
    requires x in xs && y in xs && y != x
    ensures Product(xs) == (x * y) * Product(xs - {x, y})
  {
    hide Product;
    assert xs - {x} - {y} == xs - {x, y};
    ProductRemove(xs, x);
    ProductRemove(xs - {x}, y);
    MulAssoc(x, y, Product(xs - {x, y}));
  }

  lemma PowerNext(a: int, n: nat)
    ensures Power(a, n + 1) == a * Power(a, n)
  {
  }

  /** Every residue has a partner, itself only if its square is a. */
  lemma PartnerExists(a: int, q: int, x: int) returns (y: int)
    requires IsPrime(q) && Coprime(a, q) && 0 < x < q
    ensures 0 < y < q && Congruent(x * y, a, q)
  {
    PrimeCoprime(q, x);
    var u, v := Bezout(x, q);
    y := (u * a) % q;
    var d := (u * a) / q;
    assert u * a == d * q + y;
    Inverse(x, u, v, q, a, d, y);
    CongruentBy(x * y, a, q, -(v * a) - x * d);
    if y == 0 {
      var t :| Times(t, q) == x * y - a;
      assert Times(-t, q) == a;
      DividesZero(q);
      DividesBound(q, 1);
    }
  }

  lemma Inverse(x: int, u: int, v: int, q: int, a: int, d: int, y: int)
    requires u * x + v * q == 1 && u * a == d * q + y
    ensures x * y == a + (-(v * a) - x * d) * q
  {
    assert x * (u * a) == x * (d * q) + x * y;
    MulAssoc(x, d, q);
    Expand(u, x, v, q, a);
    assert x * (u * a) == (u * x) * a;
  }

  ghost predicate IsSquare(a: int, q: int) {
    exists x :: Congruent(Times(x, x), a, q)
  }

  lemma NotSquareProduct(a: int, q: int)
    requires OddPositive(q) && IsPrime(q) && Coprime(a, q) && !IsSquare(a, q)
    ensures Congruent(Product(Interval(0, q - 1)), Power(a, Half(q)), q)
  {
    hide Product, Power, Coprime, IsPrime, IsPairing;
    var xs := Interval(0, q - 1);
    NotSquarePairs(a, q);
    PartnersPair(a, q, xs);
    IntervalSize(0, q - 1);
    PairedProduct(a, q, xs);
  }

  lemma NotSquarePairs(a: int, q: int)
    requires IsPrime(q) && Coprime(a, q) && !IsSquare(a, q)
    ensures PairsUp(Interval(0, q - 1), Partners(a, q))
  {
    hide IsPrime, Coprime, Congruent;
    var xs, r := Interval(0, q - 1), Partners(a, q);
    forall x <- xs
      ensures exists y :: y in xs && y != x && r(x, y)
    {
      var y := PartnerExists(a, q, x);
      assert Between(y, 0, q - 1) && (y == x ==> Congruent(Times(x, x), a, q));
      assert y in xs && y != x && r(x, y);
    }
  }

  /** Wilson's theorem. */
  lemma Wilson(q: int)
    requires OddPositive(q) && IsPrime(q)
    ensures Congruent(Product(Interval(0, q - 1)), -1, q)
  {
    var all := Interval(0, q - 1);
    var xs := all - {1, q - 1};
    OwnPartners(q);
    PartnersPair(1, q, xs);
    PairedProduct(1, q, xs);
    PowerOfOne(|xs| / 2);
    assert Between(1, 0, q - 1) && Between(q - 1, 0, q - 1);
    ProductRemove(all, 1);
    ProductRemove(all - {1}, q - 1);
    assert all - {1} - {q - 1} == xs;
    CongruentBy(q - 1, -1, q, 1);
    CongruentTimes(q - 1, Product(xs), -1, 1, q);
  }

  lemma {:induction false} PowerOfOne(n: nat)
    ensures Power(1, n) == 1
  {
    if n > 0 {
      PowerOfOne(n - 1);
    }
  }

  /** Apart from 1 and -1, the residues fall into pairs with product 1. */
  lemma OwnPartners(q: int)
    requires OddPositive(q) && IsPrime(q)
    ensures PairsUp(Interval(0, q - 1) - {1, q - 1}, Partners(1, q))
  {
    var xs, r := Interval(0, q - 1) - {1, q - 1}, Partners(1, q);
    forall x <- xs
      ensures exists y :: y in xs && y != x && r(x, y)
    {
      CoprimeOne(q);
      var y := PartnerExists(1, q, x);
      NoOther(q, x, y);
      assert Between(y, 0, q - 1);
      assert y in xs && y != x && r(x, y);
    }
  }

  lemma CoprimeOne(q: int)
    ensures Coprime(1, q)
  {
  }

  lemma NoOther(q: int, x: int, y: int)
    requires IsPrime(q) && 1 < x < q - 1 && 0 < y < q && Congruent(x * y, 1, q)
    ensures y != x && y != 1 && y != q - 1
  {
    if y == 1 {
      CongruentNear(x, 1, q);
    } else if y == q - 1 {
      CongruentBy(x * (q - 1), -x, q, x);
      CongruentVia(-x, x * y, 1, q);
      CongruentNear(-x, 1, q);
    } else if y == x {
      assert x * x - 1 == (x + 1) * (x - 1) - (x + 1) * 0;
      CongruentCancelBoth(q, x);
    }
  }

  lemma CongruentCancelBoth(q: int, x: int)
    requires IsPrime(q) && 1 < x < q - 1
    ensures !Congruent(x * x, 1, q)
  {
    if Congruent(x * x, 1, q) {
      PrimeCoprime(q, x + 1);
      assert (x + 1) * (x - 1) - (x + 1) * 0 == x * x - 1;
      CongruentCancel(x + 1, x - 1, 0, q);
      CongruentNear(x - 1, 0, q);
    }
  }

  /** For an odd prime the symbol is 1 on the squares and -1 on the other residues. */
  lemma SymbolTellsSquares(a: int, q: int)
    requires OddPositive(q) && IsPrime(q) && Coprime(a, q)
    ensures Symbol(a, q) == if IsSquare(a, q) then 1 else -1
  {
    if IsSquare(a, q) {
      SquareSymbol(a, q);
    } else {
      NotSquareProduct(a, q);
      Wilson(q);
      EulerCriterion(a, q);
      var p := Product(Interval(0, q - 1));
      CongruentVia(p, Power(a, Half(q)), Symbol(a, q), q);
      CongruentVia(p, -1, -1, q) by { CongruentBy(-1, -1, q, 0); }
      CongruentVia(-1, p, Symbol(a, q), q);
      CongruentNear(-1, Symbol(a, q), q);
    }
  }

  lemma SquareSymbol(a: int, q: int)
    requires OddPositive(q) && Coprime(a, q) && IsSquare(a, q)
    ensures Symbol(a, q) == 1
  {
    hide Symbol, Congruent, Times;
    var x :| Congruent(Times(x, x), a, q);
    SameSymbol(Times(x, x), a, q);
    SymbolMultiplicative(x, x, q);
    SquareOfSign(Symbol(x, q));
    SymbolIsSign(a, q);
  }

  lemma SameSymbol(x: int, y: int, q: int)
    requires OddPositive(q) && Congruent(x, y, q)
    ensures Symbol(x, q) == Symbol(y, q)
  {
    hide Symbol;
    var t :| Times(t, q) == x - y;
    SymbolPeriodic(x, q);
    SymbolPeriodic(y, q);
    Mod(x, q, t + y / q, y % q);
  }

  lemma SquareOfSign(s: int)
    ensures s * s >= 0
  {
  }

  lemma SymbolIsSign(a: int, q: int)
    requires OddPositive(q) && Coprime(a, q)
    ensures Symbol(a, q) == 1 || Symbol(a, q) == -1
  {
  }

  /** So does every function with the laws, and with it the result of mjacobi. */
  lemma LawsTellSquares(J: (int, int) -> int, p: int, q: int)
    requires JacobiLaws(J) && OddPositive(q) && Coprime(p, q)
    ensures IsSquare(p, q) ==> J(p, q) == 1
    ensures IsPrime(q) ==> J(p, q) == if IsSquare(p, q) then 1 else -1
  {
    SymbolObeysLaws();
    LawsDetermine(J, Symbol, p, q);
    if IsSquare(p, q) {
      SquareSymbol(p, q);
    }
    if IsPrime(q) {
      SymbolTellsSquares(p, q);
    }
  }
}
