/** Mgcd.c: the greatest common divisor and the inverse modulo a number. */
module Mgcd {
  import opened Digits
  import opened Numbers
  import opened Mint
  import opened Mutil
  import opened Madd
  import opened Mmult
  import opened Mdiv

  /** One round of Euclid's algorithm, shared by both routines: x, y become y, x rem y, and the
      quotient is left in w. */
  method Round(x: MINT, y: MINT, w: MINT, z: MINT)
    requires x != y && x != z && x != w && y != z && y != w && z != w
    requires x.Canonical() && y.Canonical() && y.len != 0 && Apart(x, y)
    modifies x, y, w, z, y.val
    ensures x.Canonical() && y.Canonical() && w.Canonical() && Apart(x, y)
    ensures x.Value() == old(y.Value()) && Truncated(old(x.Value()), x.Value(), w.Value(), y.Value())
    ensures x.val == old(y.val) && (y.len == 0 || fresh(y.val)) && (w.len == 0 || fresh(w.val))
  {
    hide Truncated, MINT.Valid, MINT.Canonical, MINT.Value;
    Divide(x, y, w, z);
    y.MoveTo(x);
    z.MoveTo(y);
  }

  /** How many rounds Euclid's algorithm takes. */
  ghost function Rounds(x: int, y: int): (n: nat)
    decreases y
  {
    if y <= 0 then 0 else 1 + Rounds(y, x % y)
  }

  lemma NoRounds(x: int)
    ensures Rounds(x, 0) == 0
  {
  }

  lemma RoundsStep(x: int, y: int, q: int, r: int)
    requires Truncated(x, y, q, r) && x >= 0 && y > 0
    ensures Rounds(x, y) == 1 + Rounds(y, r)
  {
    DivModUnique(x, y, q, r);
  }

  /** A number that is not zero has the sign of s. */
  ghost predicate SignLike(x: int, s: int) {
    (x > 0 ==> s > 0) && (x < 0 ==> s < 0)
  }

  /** A round of signed division is one of the magnitudes, and the remainder has the sign of x. */
  lemma MagnitudeRound(x: int, y: int, q: int, r: int)
    requires Truncated(x, y, q, r) && y != 0
    ensures Rounds(Abs(x), Abs(y)) == 1 + Rounds(Abs(y), Abs(r))
    ensures SignLike(r, x)
  {
    var (t, u) := (SignOf(x), SignOf(y));
    TurnedDivision(x, y, q, r, 0, 0, t * u, t);
    AbsTurned(x, t);
    assert (t * u * t) * y == u * y;
    AbsTurned(y, u);
    assert t * r >= 0;
    AbsTurned(r, t);
    RoundsStep(Abs(x), Abs(y), t * u * q, Abs(r));
  }

  /** The operand whose sign the result of mgcd has: the last divisor is among the remainders that
      alternate with the first operand or with the second. */
  ghost function GcdSign(a: int, b: int): int {
    if Rounds(Abs(a), Abs(b)) % 2 == 0 then a else b
  }

  /** mgcd's loop invariant after n rounds on a and b. */
  ghost predicate GcdState(x: int, y: int, n: nat, a: int, b: int) {
    && SameCommonDivisors(x, y, a, b) && n + Rounds(Abs(x), Abs(y)) == Rounds(Abs(a), Abs(b))
    && SignLike(x, if n % 2 == 0 then a else b) && SignLike(y, if n % 2 == 0 then b else a)
  }

  lemma GcdStep(x: int, y: int, n: nat, a: int, b: int, q: int, r: int)
    requires GcdState(x, y, n, a, b) && y != 0 && Truncated(x, y, q, r)
    ensures GcdState(y, r, n + 1, a, b) && Abs(r) < Abs(y)
  {
    hide Rounds;
    EuclidStep(x, y, q, r, a, b);
    MagnitudeRound(x, y, q, r);
  }

  lemma GcdStart(a: int, b: int)
    ensures GcdState(a, b, 0, a, b)
  {
  }

  lemma GcdEnd(x: int, n: nat, a: int, b: int)
    requires GcdState(x, 0, n, a, b)
    ensures IsGcd(Abs(x), a, b) && SignLike(x, GcdSign(a, b))
  {
    NoRounds(Abs(x));
    EuclidEnd(x, a, b);
  }

  /** mgcd */
  method Gcd(a: MINT, b: MINT, c: MINT)
    requires a.Canonical() && b.Canonical()
    modifies c
    ensures c.Canonical() && (c.len == 0 || fresh(c.val))
    ensures IsGcd(Abs(c.Value()), old(a.Value()), old(b.Value()))
    ensures SignLike(c.Value(), GcdSign(old(a.Value()), old(b.Value())))
  {
    hide Truncated, GcdState, IsGcd, SignLike, GcdSign, MINT.Valid, MINT.Canonical, MINT.Value;
    ghost var (av, bv) := (a.Value(), b.Value());
    var x := NewCopy(a);
    var y := NewCopy(b);
    var z := new MINT();
    var w := new MINT();
    GcdStart(av, bv);
    CanonicalSign(y);
    ghost var n := 0;
    while y.len != 0
      invariant x.Canonical() && y.Canonical() && Apart(x, y)
      invariant (x.len == 0 || fresh(x.val)) && (y.len == 0 || fresh(y.val))
      invariant n >= 0 && GcdState(x.Value(), y.Value(), n, av, bv)
      invariant y.len == 0 <==> y.Value() == 0
      decreases Abs(y.Value())
    {
      ghost var (xv, yv) := (x.Value(), y.Value());
      Round(x, y, w, z);
      CanonicalSign(y);
      GcdStep(xv, yv, n, av, bv, w.Value(), y.Value());
      n := n + 1;
    }
    GcdEnd(x.Value(), n, av, bv);
    x.MoveTo(c);
  }

  /** -4 and 6 take three rounds, and the result 2 has the sign of 6. */
  method GcdOfMinusFour(c: MINT)
    modifies c
    ensures c.Canonical() && c.Value() == 2
  {
    hide MINT.Valid, MINT.Canonical, MINT.Value;
    var a := NewSet(-4);
    var b := NewSet(6);
    GcdIsTwo();
    Gcd(a, b, c);
    GcdUnique(2, Abs(c.Value()), -4, 6);
  }

  lemma GcdIsTwo()
    ensures IsGcd(2, -4, 6) && GcdSign(-4, 6) == 6
  {
    assert Times(-2, 2) == -4 && Times(3, 2) == 6;
    forall d | Divides(d, -4) && Divides(d, 6)
      ensures Divides(d, 2)
    {
      DividesSum(d, -4, 6);
    }
    assert Rounds(4, 6) == 1 + Rounds(6, 4) && Rounds(6, 4) == 1 + Rounds(4, 2) && Rounds(4, 2) == 1 + Rounds(2, 0);
  }

  lemma SameStart(a: int, b: int)
    ensures SameCommonDivisors(a, b, a, b)
  {
  }

  // ---- minvert

  /** minvert's loop invariant, for s = 1 after an even number of rounds and -1 after an odd one:
      y is s * Anew * a and x is -s * Aold * a modulo b, and the cofactors split b. */
  ghost predicate Cofactors(x: int, y: int, anew: int, aold: int, s: int, a: int, b: int) {
    && x >= 1 && y >= 0 && anew >= 0 && 0 <= aold <= b && (s == 1 || s == -1)
    && x * anew + y * aold == b
    && Divides(b, y - s * (anew * a)) && Divides(b, x + s * (aold * a))
    && SameCommonDivisors(x, y, b, a)
    && (b == 1 ==> aold == if s == 1 then 0 else 1)
  }

  lemma CofactorsStart(a: int, b: int)
    requires a >= 0 && b >= 1
    ensures Cofactors(b, a, 1, 0, 1, a, b)
  {
    DividesZero(b);
    SameStart(b, a);
  }

  /** The sign of x and of Anew after i rounds: for a negative a it alternates. */
  ghost function Turn(a: int, i: nat): (t: int)
    ensures t == 1 || t == -1
  {
    if a < 0 then Sign(i) else 1
  }

  ghost function SignOf(a: int): (g: int)
    ensures (g == 1 || g == -1) && a == g * Abs(a)
  {
    if a < 0 then -1 else 1
  }

  /** minvert's loop invariant after i rounds, for an a of either sign: without their signs the
      four numbers are those for the magnitude of a. */
  ghost predicate SignedCofactors(x: int, y: int, anew: int, aold: int, i: nat, a: int, b: int) {
    var (g, t) := (SignOf(a), Turn(a, i));
    Cofactors(t * x, (g * t) * y, t * anew, (g * t) * aold, Sign(i), Abs(a), b)
  }

  lemma SignedStart(a: int, b: int)
    requires b >= 1
    ensures SignedCofactors(b, a, 1, 0, 0, a, b)
  {
    CofactorsStart(Abs(a), b);
  }

  lemma SignedStep(x: int, y: int, anew: int, aold: int, i: nat, a: int, b: int, q: int, r: int)
    requires SignedCofactors(x, y, anew, aold, i, a, b) && y != 0 && Truncated(x, y, q, r)
    ensures SignedCofactors(y, r, q * anew + aold, anew, i + 1, a, b)
    ensures Abs(r) < Abs(y) && Abs(q * anew) <= b
    ensures Rounds(Abs(x), Abs(y)) == 1 + Rounds(Abs(y), Abs(r))
  {
    var (g, t) := (SignOf(a), Turn(a, i));
    NextTurn(a, i);
    hide Cofactors, Truncated, Rounds, Turn, SignOf, Sign;
    TurnedDivision(x, y, q, r, anew, aold, g, t);
    assert (g * t) * y != 0 && g * (g * t) == t;
    PositiveStep(t * x, (g * t) * y, t * anew, (g * t) * aold, Sign(i), Abs(a), b, g * q, t * r);
    AbsTurned(x, t);
    AbsTurned(y, g * t);
    AbsTurned(r, t);
  }

  lemma NextTurn(a: int, i: nat)
    ensures Turn(a, i + 1) == SignOf(a) * Turn(a, i) && Sign(i + 1) == -Sign(i)
  {
  }

  lemma AbsTurned(x: int, u: int)
    requires (u == 1 || u == -1) && u * x >= 0
    ensures Abs(x) == u * x
  {
  }

  lemma PositiveStep(x: int, y: int, anew: int, aold: int, s: int, a: int, b: int, q: int, r: int)
    requires Cofactors(x, y, anew, aold, s, a, b) && y != 0 && Truncated(x, y, q, r)
    ensures Cofactors(y, r, q * anew + aold, anew, -s, a, b) && 0 <= r < y && x >= 1
    ensures 0 <= q * anew <= b && Rounds(x, y) == 1 + Rounds(y, r)
  {
    CofactorsStep(x, y, anew, aold, s, a, b, q, r);
    RoundsStep(x, y, q, r);
    CofactorBound(y, r, q * anew + aold, anew, -s, a, b);
    QuotientSign(x, y, q, r);
    MulLe(0, q, anew);
  }

  /** Division of two numbers, and of the two with other signs. */
  lemma TurnedDivision(x: int, y: int, q: int, r: int, anew: int, aold: int, g: int, t: int)
    requires Truncated(x, y, q, r) && (g == 1 || g == -1) && (t == 1 || t == -1)
    ensures Truncated(t * x, (g * t) * y, g * q, t * r)
    ensures (g * q) * (t * anew) + (g * t) * aold == (g * t) * (q * anew + aold)
    ensures Abs((g * q) * (t * anew)) == Abs(q * anew)
  {
    assert (-q) * y == -(q * y) && q * (-y) == -(q * y) && (-q) * (-y) == q * y;
    assert (-q) * anew == -(q * anew) && q * (-anew) == -(q * anew) && (-q) * (-anew) == q * anew;
  }

  /** The new cofactor never exceeds b. */
  lemma CofactorBound(x: int, y: int, anew: int, aold: int, s: int, a: int, b: int)
    requires Cofactors(x, y, anew, aold, s, a, b)
    ensures 0 <= anew <= b && b >= 0 && y >= 0
  {
    MulLe(1, x, anew);
    MulLe(0, y, aold);
  }

  lemma CofactorsStep(x: int, y: int, anew: int, aold: int, s: int, a: int, b: int, q: int, r: int)
    requires Cofactors(x, y, anew, aold, s, a, b) && y > 0 && Truncated(x, y, q, r)
    ensures Cofactors(y, r, q * anew + aold, anew, -s, a, b) && 0 <= r < y
  {
    hide Divides, SameCommonDivisors, Truncated;
    StepBounds(x, y, anew, aold, b, q, r);
    StepCongruences(x, y, anew, aold, s, a, b, q, r);
    EuclidStep(x, y, q, r, b, a);
    if b == 1 {
      UnitCofactors(x, y, anew, aold);
    }
  }

  lemma StepBounds(x: int, y: int, anew: int, aold: int, b: int, q: int, r: int)
    requires x >= 1 && y > 0 && anew >= 0 && 0 <= aold <= b && x * anew + y * aold == b && Truncated(x, y, q, r)
    ensures x == q * y + r && 0 <= r < y && 0 <= anew <= b
    ensures q * anew + aold >= 0 && y * (q * anew + aold) + r * anew == b
  {
    QuotientSign(x, y, q, r);
    MulLe(1, x, anew);
    MulLe(0, y, aold);
    MulLe(0, q, anew);
    SplitCofactors(x, y, anew, aold, q, r);
  }

  lemma StepCongruences(x: int, y: int, anew: int, aold: int, s: int, a: int, b: int, q: int, r: int)
    requires x == q * y + r && (s == 1 || s == -1)
    requires Divides(b, y - s * (anew * a)) && Divides(b, x + s * (aold * a))
    ensures Divides(b, y + (-s) * (anew * a)) && Divides(b, r - (-s) * ((q * anew + aold) * a))
  {
    hide Divides;
    assert y + (-s) * (anew * a) == y - s * (anew * a);
    NextCongruence(x, y, anew, aold, s, a, b, q, r);
  }

  /** Modulo 1 the cofactors are 0 and 1 in turn. */
  lemma UnitCofactors(x: int, y: int, anew: int, aold: int)
    requires x >= 1 && y >= 1 && anew >= 0 && 0 <= aold <= 1 && x * anew + y * aold == 1
    ensures anew == 1 - aold
  {
    MulLe(1, x, anew);
    MulLe(1, y, aold);
    if anew == 0 {
      assert x * anew == 0;
    }
  }

  lemma NextCongruence(x: int, y: int, anew: int, aold: int, s: int, a: int, b: int, q: int, r: int)
    requires x == q * y + r
    requires Divides(b, y - s * (anew * a)) && Divides(b, x + s * (aold * a))
    ensures Divides(b, r - (-s) * ((q * anew + aold) * a))
  {
    var (m, n) := (y - s * (anew * a), x + s * (aold * a));
    DividesMultiple(b, m, q);
    DividesSum(b, n, q * m);
    CofactorCongruence(x, y, anew, aold, s, a, q, r);
  }

  lemma SplitCofactors(x: int, y: int, anew: int, aold: int, q: int, r: int)
    requires x == q * y + r
    ensures y * (q * anew + aold) + r * anew == x * anew + y * aold
  {
    assert y * (q * anew + aold) == y * (q * anew) + y * aold;
    MulAssoc(y, q, anew);
    assert (q * y + r) * anew == (q * y) * anew + r * anew;
  }

  lemma CofactorCongruence(x: int, y: int, anew: int, aold: int, s: int, a: int, q: int, r: int)
    requires x == q * y + r
    ensures r - (-s) * ((q * anew + aold) * a) == (x + s * (aold * a)) - q * (y - s * (anew * a))
  {
    assert (q * anew + aold) * a == q * (anew * a) + aold * a by {
      MulAssoc(q, anew, a);
    }
    var (u, v) := (anew * a, aold * a);
    assert (-s) * (q * u + v) == -(s * (q * u)) - s * v;
    assert q * (y - s * u) == q * y - q * (s * u);
    assert q * (s * u) == s * (q * u);
  }

  /** c inverts a modulo b. */
  ghost predicate Inverts(c: int, a: int, b: int) {
    Divides(b, a * c - 1) && 0 < c <= b && (b > 1 ==> c < b)
  }

  /** When the last remainder is 1, the cofactor or its complement is the inverse. */
  lemma InverseFound(anew: int, aold: int, s: int, a: int, b: int)
    requires Cofactors(1, 0, anew, aold, s, a, b) && b >= 1
    ensures Inverts(if s == 1 then b - aold else aold, a, b)
  {
    hide Divides, SameCommonDivisors;
    var u := aold * a;
    if s == 1 {
      assert 1 + s * u == 1 + u;
      InverseEven(aold, a, b);
    } else {
      assert 1 + s * u == 1 - u;
      InverseOdd(aold, a, b);
    }
    if b > 1 && (aold == 0 || aold == b) {
      NotCofactor(aold, s, a, b);
    }
  }

  lemma InverseEven(aold: int, a: int, b: int)
    requires Divides(b, 1 + aold * a)
    ensures Divides(b, a * (b - aold) - 1)
  {
    assert a * (b - aold) - 1 == a * b - (1 + aold * a);
    DividesZero(b);
    DividesMultiple(b, b, a);
    DividesSum(b, a * b, 1 + aold * a);
  }

  lemma InverseOdd(aold: int, a: int, b: int)
    requires Divides(b, 1 - aold * a)
    ensures Divides(b, a * aold - 1)
  {
    assert a * aold - 1 == -(1 - aold * a);
    DividesSum(b, 1 - aold * a, 1 - aold * a);
  }

  lemma NotCofactor(aold: int, s: int, a: int, b: int)
    requires b >= 1 && (aold == 0 || aold == b) && Divides(b, 1 + s * (aold * a))
    ensures b == 1
  {
    DividesZero(b);
    var k := if aold == 0 then 0 else s * a;
    assert s * (aold * a) == k * b by {
      if aold == b { MulAssoc(s, a, b); }
    }
    DividesMultiple(b, b, k);
    DividesSum(b, 1 + k * b, k * b);
    assert 1 + k * b - k * b == 1;
    DividesBound(b, 1);
  }

  lemma GcdFound(x: int, anew: int, aold: int, s: int, a: int, b: int)
    requires Cofactors(x, 0, anew, aold, s, a, b)
    ensures IsGcd(x, b, a)
  {
    EuclidEnd(x, b, a);
  }

  /** A modulus of at most twice SAFE_DIGITS digits. A quotient times a cofactor is at most the
      modulus, so one of the two is then in mmult's range. */
  ghost predicate SafeModulus(b: int) {
    b < Radix(2 * SAFE_DIGITS)
  }

  lemma SafeProduct(w: MINT, n: MINT, b: int)
    requires w.Canonical() && n.Canonical() && Abs(w.Value() * n.Value()) <= b && SafeModulus(b)
    ensures w.Size() <= SAFE_DIGITS || n.Size() <= SAFE_DIGITS
  {
    OneIsShort(w, n, b, SAFE_DIGITS);
  }

  lemma OneIsShort(w: MINT, n: MINT, b: int, k: nat)
    requires w.Canonical() && n.Canonical() && Abs(w.Value() * n.Value()) <= b < Radix(2 * k)
    ensures w.Size() <= k || n.Size() <= k
  {
    hide Radix;
    var (x, y) := (w.Magnitude(), n.Magnitude());
    CanonicalSign(w);
    CanonicalSign(n);
    ProductOfMagnitudes(w, n);
    if w.Size() > k && n.Size() > k {
      RadixMonotone(k, w.Size() - 1);
      RadixMonotone(k, n.Size() - 1);
      RadixAdd(k, k);
      ProductAtLeast(x, y, Radix(k), Radix(k));
    }
  }

  lemma ProductOfMagnitudes(w: MINT, n: MINT)
    requires w.Canonical() && n.Canonical()
    ensures Abs(w.Value() * n.Value()) == w.Magnitude() * n.Magnitude()
  {
    CanonicalSign(w);
    CanonicalSign(n);
    SignedProduct(w.Magnitude(), n.Magnitude(), w.len < 0, n.len < 0);
    MulLe(0, w.Magnitude(), n.Magnitude());
  }

  /** The cofactors' part of a round: Anew, Aold become w * Anew + Aold, Anew. */
  method NextCofactors(w: MINT, x: MINT, anew: MINT, aold: MINT)
    requires w != x && w != anew && w != aold && x != anew && x != aold && anew != aold
    requires w.Canonical() && anew.Canonical() && aold.Canonical()
    requires w.Size() <= SAFE_DIGITS || anew.Size() <= SAFE_DIGITS
    modifies x, anew, aold
    ensures anew.Canonical() && aold.Canonical()
    ensures anew.Value() == w.Value() * old(anew.Value()) + old(aold.Value())
    ensures aold.Value() == old(anew.Value())
    ensures fresh(anew.val) && (aold.val == old(x.val) || fresh(aold.val))
  {
    hide MINT.Valid, MINT.Canonical, MINT.Value;
    Copy(anew, x);
    Multiply(w, anew, anew);
    Add(anew, aold, anew);
    x.MoveTo(aold);
  }

  /** Whatever the quotient of x by y, its product with n is at most b. */
  ghost predicate QuotientTimes(x: int, y: int, n: int, b: int) {
    forall q, r | Truncated(x, y, q, r) :: Abs(q * n) <= b
  }

  /** One round of minvert. */
  method InvertRound(x: MINT, y: MINT, w: MINT, z: MINT, anew: MINT, aold: MINT, ghost bv: int)
    requires x != y && x != z && x != w && y != z && y != w && z != w
    requires anew != x && anew != y && anew != z && anew != w && anew != aold
    requires aold != x && aold != y && aold != z && aold != w
    requires x.Canonical() && y.Canonical() && y.len != 0 && anew.Canonical() && aold.Canonical()
    requires x.val != y.val && anew.val != y.val && aold.val != y.val
    requires SafeModulus(bv) && QuotientTimes(x.Value(), y.Value(), anew.Value(), bv)
    modifies x, y, w, z, y.val, anew, aold
    ensures x.Canonical() && y.Canonical() && anew.Canonical() && aold.Canonical() && w.Canonical()
    ensures x.Value() == old(y.Value()) && Truncated(old(x.Value()), x.Value(), w.Value(), y.Value())
    ensures anew.Value() == w.Value() * old(anew.Value()) + old(aold.Value())
    ensures aold.Value() == old(anew.Value())
    ensures x.val == old(y.val) && fresh(anew.val) && (aold.val == old(x.val) || fresh(aold.val))
    ensures y.len == 0 || fresh(y.val)
    ensures y.len == 0 || (x.val != y.val && anew.val != y.val && aold.val != y.val)
  {
    hide Truncated, SafeModulus, MINT.Valid, MINT.Canonical, MINT.Value;
    Divide(x, y, w, z);
    SafeProduct(w, anew, bv);
    NextCofactors(w, x, anew, aold);
    y.MoveTo(x);
    z.MoveTo(y);
  }

  /** minvert's loop; i counts the rounds. */
  method InvertLoop(b: MINT, x: MINT, y: MINT, w: MINT, z: MINT, anew: MINT, aold: MINT, ghost av: int)
    returns (i: nat)
    requires x != y && x != z && x != w && y != z && y != w && z != w
    requires anew != x && anew != y && anew != z && anew != w && anew != aold
    requires aold != x && aold != y && aold != z && aold != w
    requires b != x && b != y && b != z && b != w && b != anew && b != aold && b.val != y.val
    requires x.Canonical() && y.Canonical() && anew.Canonical() && aold.Canonical()
    requires x.val != y.val && anew.val != y.val && aold.val != y.val
    requires b.Canonical() && SafeModulus(b.Value())
    requires SignedCofactors(x.Value(), y.Value(), anew.Value(), aold.Value(), 0, av, b.Value())
    modifies x, y, w, z, y.val, anew, aold
    ensures x.Canonical() && aold.Canonical()
    ensures exists n :: SignedCofactors(x.Value(), 0, n, aold.Value(), i, av, b.Value())
    ensures i == Rounds(Abs(old(x.Value())), Abs(old(y.Value())))
  {
    hide Truncated, SignedCofactors, SafeModulus, Rounds, MINT.Valid, MINT.Canonical, MINT.Value;
    ghost var bv := b.Value();
    i := 0;
    CanonicalSign(y);
    while y.len != 0
      invariant b.Canonical() && b.Value() == bv
      invariant x.Canonical() && y.Canonical() && anew.Canonical() && aold.Canonical()
      invariant y.len == 0 || (x.val != y.val && anew.val != y.val && aold.val != y.val && b.val != y.val)
      invariant y.len == 0 || y.val == old(y.val) || fresh(y.val)
      invariant SignedCofactors(x.Value(), y.Value(), anew.Value(), aold.Value(), i, av, bv)
      invariant y.len == 0 <==> y.Value() == 0
      invariant i + Rounds(Abs(x.Value()), Abs(y.Value())) == Rounds(Abs(old(x.Value())), Abs(old(y.Value())))
      decreases Abs(y.Value())
    {
      ghost var (xv, yv) := (x.Value(), y.Value());
      InvertNext(x, y, w, z, anew, aold, av, bv, i);
      i := i + 1;
    }
    NoRounds(Abs(x.Value()));
  }

  /** One round together with its arithmetic. */
  method InvertNext(x: MINT, y: MINT, w: MINT, z: MINT, anew: MINT, aold: MINT,
                    ghost av: int, ghost bv: int, ghost i: nat)
    requires x != y && x != z && x != w && y != z && y != w && z != w
    requires anew != x && anew != y && anew != z && anew != w && anew != aold
    requires aold != x && aold != y && aold != z && aold != w
    requires x.Canonical() && y.Canonical() && y.len != 0 && anew.Canonical() && aold.Canonical()
    requires x.val != y.val && anew.val != y.val && aold.val != y.val && SafeModulus(bv)
    requires SignedCofactors(x.Value(), y.Value(), anew.Value(), aold.Value(), i, av, bv)
    modifies x, y, w, z, y.val, anew, aold
    ensures x.Canonical() && y.Canonical() && anew.Canonical() && aold.Canonical()
    ensures SignedCofactors(x.Value(), y.Value(), anew.Value(), aold.Value(), i + 1, av, bv)
    ensures y.len == 0 <==> y.Value() == 0
    ensures Abs(y.Value()) < Abs(old(y.Value()))
    ensures Rounds(Abs(old(x.Value())), Abs(old(y.Value()))) == 1 + Rounds(Abs(x.Value()), Abs(y.Value()))
    ensures y.len == 0 || (fresh(y.val) && x.val != y.val && anew.val != y.val && aold.val != y.val)
  {
    hide Truncated, SignedCofactors, SafeModulus, QuotientTimes, Rounds, MINT.Valid, MINT.Canonical, MINT.Value;
    ghost var (xv, yv, nv, ov) := (x.Value(), y.Value(), anew.Value(), aold.Value());
    CanonicalSign(y);
    QuotientInRange(xv, yv, nv, ov, i, av, bv);
    InvertRound(x, y, w, z, anew, aold, bv);
    SignedStep(xv, yv, nv, ov, i, av, bv, w.Value(), y.Value());
    CanonicalSign(y);
  }

  lemma QuotientInRange(x: int, y: int, anew: int, aold: int, i: nat, a: int, b: int)
    requires SignedCofactors(x, y, anew, aold, i, a, b) && y != 0
    ensures QuotientTimes(x, y, anew, b)
  {
    hide SignedCofactors, Truncated;
    forall q, r | Truncated(x, y, q, r)
      ensures Abs(q * anew) <= b
    {
      SignedStep(x, y, anew, aold, i, a, b, q, r);
    }
  }

  /** What minvert stores: the inverse, in the range of b for an a that is not negative and one b
      higher for a negative one; 1 if there is none, and for a negative a also after an odd number
      of rounds, when the last divisor is -1; and 0 after an even number if the result goes to b,
      which is overwritten before the cofactor is taken from it. */
  ghost predicate InvertResult(c: int, a: int, b: int, inPlace: bool) {
    if !IsGcd(1, b, a) || (a < 0 && Rounds(b, Abs(a)) % 2 == 1) then c == 1
    else if inPlace && Rounds(b, Abs(a)) % 2 == 0 then c == 0
    else if a >= 0 then Inverts(c, a, b)
    else Divides(b, a * c - 1) && b <= c < 2 * b
  }

  /** That is one number. */
  lemma InvertUnique(c: int, d: int, a: int, b: int, inPlace: bool)
    requires b >= 1 && InvertResult(c, a, b, inPlace) && InvertResult(d, a, b, inPlace)
    ensures c == d
  {
    hide IsGcd, Rounds;
    if Divides(b, a * c - 1) && Divides(b, a * d - 1) && -b < c - d < b {
      OneInverse(c, d, a, b);
    }
  }

  lemma OneInverse(c: int, d: int, a: int, b: int)
    requires b >= 1 && Divides(b, a * c - 1) && Divides(b, a * d - 1) && -b < c - d < b
    ensures c == d
  {
    DividesMultiple(b, a * c - 1, d);
    DividesMultiple(b, a * d - 1, c);
    DividesSum(b, d * (a * c - 1), c * (a * d - 1));
    assert d * (a * c - 1) - c * (a * d - 1) == c - d;
    DividesSum(b, c - d, c - d);
    if c > d {
      DividesBound(b, c - d);
    } else if c < d {
      assert -(c - d) == d - c;
      DividesBound(b, d - c);
    }
  }

  /** Exactly when minvert stores an inverse, if there is one. */
  lemma InvertExact(c: int, a: int, b: int, inPlace: bool)
    requires b >= 1 && IsGcd(1, b, a) && InvertResult(c, a, b, inPlace)
    ensures Divides(b, a * c - 1) <==>
      b == 1 || (if Rounds(b, Abs(a)) % 2 == 0 then !inPlace else a >= 0 || Divides(b, a - 1))
  {
    hide IsGcd, Rounds;
    if b == 1 {
      assert Times(a * c - 1, b) == a * c - 1;
    } else if c == 0 {
      if Divides(b, -1) {
        DividesSum(b, -1, -1);
        assert -(-1) == 1;
        DividesBound(b, 1);
      }
    }
  }

  /** Inverting -a is inverting a in the other direction. */
  lemma NegativeInverse(a: int, b: int, o: int)
    requires a < 0 && b >= 1 && Inverts(b - o, -a, b)
    ensures Divides(b, a * (b + o) - 1) && o < b
  {
    DividesZero(b);
    DividesMultiple(b, b, 2 * a);
    DividesSum(b, (-a) * (b - o) - 1, (2 * a) * b);
    assert (-a) * (b - o) - 1 + (2 * a) * b == a * (b + o) - 1;
  }

  lemma InverseStored(n: int, aold: int, i: nat, a: int, b: int)
    requires SignedCofactors(1, 0, n, aold, i, a, b) && b >= 1
    ensures a < 0 ==> i % 2 == 0
    ensures a >= 0 ==> Inverts(if i % 2 == 0 then b - aold else aold, a, b)
    ensures a < 0 ==> Divides(b, a * (b - aold) - 1) && b <= b - aold < 2 * b
    ensures IsGcd(1, b, a)
  {
    hide Inverts, Divides, SameCommonDivisors;
    var (g, t) := (SignOf(a), Turn(a, i));
    assert t == 1;
    InverseFound(n, g * aold, Sign(i), Abs(a), b);
    GcdFound(1, n, g * aold, Sign(i), Abs(a), b);
    GcdOfMagnitude(1, b, a);
    if a < 0 {
      NegativeInverse(a, b, -aold);
    }
  }

  lemma GcdOfMagnitude(g: int, b: int, a: int)
    ensures IsGcd(g, b, Abs(a)) <==> IsGcd(g, b, a)
  {
    forall d
      ensures Divides(d, a) <==> Divides(d, Abs(a))
    {
      if Divides(d, a) { DividesSum(d, a, a); }
      if Divides(d, -a) { DividesSum(d, -a, -a); }
      assert -(-a) == a;
    }
  }

  /** When the last divisor is not 1, there is no inverse, or a is negative and the rounds odd. */
  lemma NoInverseStored(x: int, n: int, aold: int, i: nat, a: int, b: int)
    requires SignedCofactors(x, 0, n, aold, i, a, b) && x != 1
    ensures IsGcd(1, b, a) ==> a < 0 && i % 2 == 1
  {
    hide Divides, SameCommonDivisors;
    var (g, t) := (SignOf(a), Turn(a, i));
    GcdFound(t * x, t * n, (g * t) * aold, Sign(i), Abs(a), b);
    GcdOfMagnitude(1, b, a);
    if t == 1 {
      OtherGcd(x, b, Abs(a));
    }
  }

  /** minvert */
  method Invert(a: MINT, b: MINT, c: MINT)
    requires a.Canonical() && b.Canonical() && b.Value() >= 1 && SafeModulus(b.Value())
    modifies c
    ensures c.Canonical() && InvertResult(c.Value(), old(a.Value()), old(b.Value()), c == b)
  {
    hide IsGcd, Inverts, SignedCofactors, SafeModulus, Rounds, MINT.Valid, MINT.Canonical, MINT.Value;
    ghost var (av, bv) := (a.Value(), b.Value());
    var x, y, w, z, anew, aold := StartInvert(a, b);
    SignedStart(av, bv);
    var i := InvertLoop(b, x, y, w, z, anew, aold, av);
    ghost var n :| SignedCofactors(x.Value(), 0, n, aold.Value(), i, av, bv);
    var one := NewSet(1);
    var r := Compare(one, x);
    if r != 0 {
      NoInverseStored(x.Value(), n, aold.Value(), i, av, bv);
      Copy(one, c);
    } else {
      InverseStored(n, aold.Value(), i, av, bv);
      aold.MoveTo(c);
      if i % 2 == 0 {
        Sub(b, c, c);
      }
    }
  }

  /** The inverse of 2 modulo 3 is 2, but minvert leaves 0 if it is to go where the 3 is. */
  method InvertInPlace(b: MINT)
    modifies b
    ensures b.Canonical() && b.Value() == 0 && Inverts(2, 2, 3)
  {
    hide MINT.Valid, MINT.Canonical, MINT.Value, SafeModulus;
    b.Set(3);
    var a := NewSet(2);
    InverseOfTwo();
    Invert(a, b, b);
  }

  lemma InverseOfTwo()
    ensures SafeModulus(3) && IsGcd(1, 3, 2) && Rounds(3, Abs(2)) == 2 && Inverts(2, 2, 3)
  {
    RadixMonotone(1, 2 * SAFE_DIGITS);
    assert Radix(1) == 32768 * Radix(0);
    assert Times(3, 1) == 3 && Times(2, 1) == 2;
    forall d | Divides(d, 3) && Divides(d, 2)
      ensures Divides(d, 1)
    {
      DividesSum(d, 3, 2);
    }
    assert Rounds(3, 2) == 1 + Rounds(2, 1) && Rounds(2, 1) == 1 + Rounds(1, 0);
    assert Times(1, 3) == 2 * 2 - 1;
  }

  /** The inverse of -1 modulo 3 is 2, but minvert stores 1. */
  method InvertNegative(c: MINT)
    modifies c
    ensures c.Canonical() && c.Value() == 1 && Inverts(2, -1, 3)
  {
    hide MINT.Valid, MINT.Canonical, MINT.Value, SafeModulus;
    var b := NewSet(3);
    var a := NewSet(-1);
    InverseOfMinusOne();
    Invert(a, b, c);
  }

  lemma InverseOfMinusOne()
    ensures SafeModulus(3) && Rounds(3, Abs(-1)) == 1 && Inverts(2, -1, 3)
  {
    InverseOfTwo();
    assert Rounds(3, 1) == 1 + Rounds(1, 0);
    assert Times(-1, 3) == -1 * 2 - 1;
  }

  method StartInvert(a: MINT, b: MINT)
    returns (x: MINT, y: MINT, w: MINT, z: MINT, anew: MINT, aold: MINT)
    requires a.Canonical() && b.Canonical()
    ensures fresh(x) && fresh(y) && fresh(w) && fresh(z) && fresh(anew) && fresh(aold)
    ensures x != y && x != z && x != w && y != z && y != w && z != w
    ensures anew != x && anew != y && anew != z && anew != w && anew != aold
    ensures aold != x && aold != y && aold != z && aold != w
    ensures x.Canonical() && y.Canonical() && anew.Canonical() && aold.Canonical()
    ensures fresh(y.val) && x.val != y.val && anew.val != y.val && aold.val != y.val
    ensures x.Value() == b.Value() && y.Value() == a.Value() && anew.Value() == 1 && aold.Value() == 0
  {
    hide MINT.Valid, MINT.Canonical, MINT.Value;
    z := new MINT();
    w := new MINT();
    aold := NewSet(0);
    anew := NewSet(1);
    x := NewCopy(b);
    y := NewCopy(a);
  }

  function Sign(i: nat): int {
    if i % 2 == 0 then 1 else -1
  }

  lemma OtherGcd(g: int, a: int, b: int)
    requires IsGcd(g, a, b) && g != 1
    ensures !IsGcd(1, a, b)
  {
    if IsGcd(1, a, b) {
      GcdUnique(1, g, a, b);
    }
  }
}
