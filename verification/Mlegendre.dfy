/** Mlegendre.c and Mjacobi.c: the Jacobi symbol by casting out twos and quadratic reciprocity. */
module Mlegendre {
  import opened Digits
  import opened Numbers
  import opened Mint
  import opened Mutil
  import opened Mfloat
  import opened Mdiv
  import opened Mmod
  import opened Mjacobi_util

  // ---- the laws of the symbol

  ghost predicate Coprime(p: int, q: int) {
    forall d :: Divides(d, p) && Divides(d, q) ==> Divides(d, 1)
  }

  predicate OddPositive(q: int) {
    q > 0 && q % 2 == 1
  }

  ghost predicate Periodic(J: (int, int) -> int) {
    forall p, q | OddPositive(q) :: J(p, q) == J(p % q, q)
  }

  ghost predicate Multiplicative(J: (int, int) -> int) {
    forall m, n, q | OddPositive(q) :: J(Times(m, n), q) == J(m, q) * J(n, q)
  }

  ghost predicate SupplementaryLaws(J: (int, int) -> int) {
    forall q | OddPositive(q) ::
      J(1, q) == 1 && J(2, q) == if q % 8 == 1 || q % 8 == 7 then 1 else -1
  }

  ghost predicate Reciprocity(J: (int, int) -> int) {
    forall p, q | OddPositive(p) && OddPositive(q) && Coprime(p, q) ::
      J(p, q) == if p % 4 == 3 && q % 4 == 3 then -J(q, p) else J(q, p)
  }

  ghost predicate ZeroUnlessCoprime(J: (int, int) -> int) {
    forall p, q | OddPositive(q) && !Coprime(p, q) :: J(p, q) == 0
  }

  /** What makes J the Jacobi symbol. */
  ghost predicate JacobiLaws(J: (int, int) -> int) {
    Periodic(J) && Multiplicative(J) && SupplementaryLaws(J) && Reciprocity(J) && ZeroUnlessCoprime(J)
  }

  // ---- coprimality along the computation

  lemma CoprimeDivisor(p: int, q: int, k: int, p': int)
    requires Coprime(p, q) && p == Times(k, p')
    ensures Coprime(p', q)
  {
    forall d | Divides(d, p') && Divides(d, q)
      ensures Divides(d, 1)
    {
      DividesMultiple(d, p', k);
    }
  }

  lemma CoprimeSwap(p: int, q: int)
    requires Coprime(p, q)
    ensures Coprime(q, p)
  {
  }

  lemma CoprimeRemainder(p: int, q: int, k: int, r: int)
    requires Coprime(p, q) && p == k * q + r
    ensures Coprime(r, q)
  {
    forall d | Divides(d, r) && Divides(d, q)
      ensures Divides(d, 1)
    {
      DividesMultiple(d, q, k);
      DividesSum(d, k * q, r);
    }
  }

  lemma CoprimeZero(q: int)
    requires Coprime(0, q) && q > 0
    ensures q == 1
  {
    DividesZero(q);
    DividesBound(q, 1);
  }

  lemma CoprimeIsGcd(p: int, q: int)
    ensures Coprime(p, q) <==> IsGcd(1, p, q)
  {
    assert Times(p, 1) == p && Times(q, 1) == q;
  }

  // ---- the steps

  /** Reducing p modulo q. */
  lemma ReduceStep(J: (int, int) -> int, p: int, q: int, k: int, r: int)
    requires JacobiLaws(J) && OddPositive(q) && p >= 0 && Coprime(p, q) && Truncated(p, q, k, r)
    ensures Coprime(r, q) && J(r, q) == J(p, q) && 0 <= r < q && (q > 1 ==> r > 0)
  {
    CoprimeRemainder(p, q, k, r);
    DivModUnique(p, q, k, r);
    DivModUnique(r, q, 0, r);
    if r == 0 {
      CoprimeZero(q);
    }
  }

  /** Whether J(2, q) is -1. */
  predicate FlipsForTwo(q: int) {
    q % 8 == 3 || q % 8 == 5
  }

  lemma TwoLaw(J: (int, int) -> int, q: int)
    requires SupplementaryLaws(J) && OddPositive(q)
    ensures J(2, q) == if FlipsForTwo(q) then -1 else 1
  {
    OddModEight(q, q / 8, q % 8);
  }

  lemma OddModEight(q: int, k: int, r: int)
    requires q == 8 * k + r && 0 <= r < 8 && q % 2 == 1
    ensures r == 1 || r == 3 || r == 5 || r == 7
  {
    if r == 0 || r == 2 || r == 4 || r == 6 {
      DivModUnique(q, 2, 4 * k + r / 2, 0);
      assert false;
    }
  }

  lemma ProductLaw(J: (int, int) -> int, m: int, n: int, q: int)
    requires Multiplicative(J) && OddPositive(q)
    ensures J(m * n, q) == J(m, q) * J(n, q)
  {
    assert Times(m, n) == m * n;
  }

  lemma DoubleStep(J: (int, int) -> int, p: int, q: int)
    requires JacobiLaws(J) && OddPositive(q)
    ensures J(2 * p, q) == if FlipsForTwo(q) then -J(p, q) else J(p, q)
  {
    hide Periodic, Multiplicative, SupplementaryLaws, Reciprocity, ZeroUnlessCoprime, FlipsForTwo;
    TwoLaw(J, q);
    ProductLaw(J, 2, p, q);
  }

  /** Casting n twos out of p. */
  lemma {:induction false} TwosStep(J: (int, int) -> int, p: int, q: int, m: int, n: nat)
    requires JacobiLaws(J) && OddPositive(q) && p == m * Power(2, n)
    ensures J(p, q) == if n % 2 == 1 && FlipsForTwo(q) then -J(m, q) else J(m, q)
    decreases n
  {
    hide JacobiLaws, FlipsForTwo;
    if n > 0 {
      var p' := m * Power(2, n - 1);
      TwosStep(J, p', q, m, n - 1);
      MulAssoc(2, m, Power(2, n - 1));
      assert p == 2 * p';
      DoubleStep(J, p', q);
    }
  }

  lemma CastOutTwos(J: (int, int) -> int, p: int, q: int, n: nat)
    requires JacobiLaws(J) && OddPositive(q) && p > 0 && Coprime(p, q) && TwoAdic(p, n)
    ensures var m := Shr(p, n);
      && m > 0 && m % 2 == 1 && Coprime(m, q) && m <= p && (n > 0 ==> m < p)
      && J(p, q) == if n % 2 == 1 && FlipsForTwo(q) then -J(m, q) else J(m, q)
  {
    hide JacobiLaws, FlipsForTwo, Coprime, Power;
    var (m, w) := (Shr(p, n), Power(2, n));
    TwosStep(J, p, q, m, n);
    assert p == Times(w, m);
    CoprimeDivisor(p, q, w, m);
    SmallPowers();
    if n > 0 { PowerMonotone(2, 1, n); }
    PositiveFactor(p, m, w);
  }

  lemma PositiveFactor(p: int, m: int, w: int)
    requires p > 0 && w > 0 && p == m * w
    ensures 0 < m <= p && (w >= 2 ==> m < p)
  {
    if m <= 0 {
      MulLe(m, 0, w);
      assert false;
    } else {
      MulLe(1, w, m);
      if w >= 2 { MulLe(2, w, m); }
    }
  }

  lemma ReciprocityStep(J: (int, int) -> int, p: int, q: int)
    requires JacobiLaws(J) && OddPositive(p) && OddPositive(q) && Coprime(p, q)
    ensures Coprime(q, p)
    ensures J(p, q) == if p % 4 == 3 && q % 4 == 3 then -J(q, p) else J(q, p)
  {
    CoprimeSwap(p, q);
  }

  /** The test on the 2-adic valuations of p-1 and q-1 that decides the sign of reciprocity. */
  lemma ValuationTest(p: int, q: int, n: nat, m: nat)
    requires OddPositive(p) && OddPositive(q) && p > 1 && q > 1 && TwoAdic(p - 1, n) && TwoAdic(q - 1, m)
    ensures n <= 2 && n + m <= 2 <==> p % 4 == 3 && q % 4 == 3
  {
    ValuationOne(p, n);
    ValuationOne(q, m);
  }

  lemma ValuationOne(p: int, n: nat)
    requires OddPositive(p) && TwoAdic(p - 1, n)
    ensures n >= 1 && (n == 1 <==> p % 4 == 3)
  {
    hide Power;
    var x := Shr(p - 1, n);
    if n >= 2 {
      PowerAdd(2, 2, n - 2);
      SmallPowers();
      FourDivides(p - 1, x, Power(2, n - 2));
    } else {
      SmallPowers();
    }
  }

  lemma SmallPowers()
    ensures Power(2, 0) == 1 && Power(2, 1) == 2 && Power(2, 2) == 4
  {
    assert Power(2, 1) == 2 * Power(2, 0);
    assert Power(2, 2) == 2 * Power(2, 1);
  }

  lemma FourDivides(m: int, x: int, w: int)
    requires m == x * (4 * w)
    ensures m % 4 == 0
  {
    assert m == 4 * (x * w);
  }

  // ---- mlegendre

  /** meqone */
  method EqualsOne(p: MINT) returns (one: bool)
    requires p.Canonical()
    ensures one <==> p.Value() == 1
  {
    hide Val;
    one := p.len == 1 && p.val[0] == 1;
    CanonicalSign(p);
    if p.len == 1 {
      OneDigit(p.val[..1]);
    } else if p.len > 1 {
      RadixMonotone(1, p.Size() - 1);
      assert Radix(1) == 32768 * Radix(0);
    }
  }

  /** mlowbits: the 15 low bits. */
  method LowBits(q: MINT) returns (bits: Int32)
    requires q.Canonical() && q.len > 0
    ensures 0 <= bits < 32768 && bits == q.val[0] && bits == q.Value() % 32768
  {
    hide Val;
    bits := q.val[0];
    ghost var s := q.val[..q.len];
    ValSuffix(s, 0);
    assert s[0..] == s && s[0] == bits;
  }

  /** Casting all twos out of p, with the sign that an odd number of them brings. */
  method CastOut(ghost J: (int, int) -> int, p: MINT, q: MINT, retval: int, lowzeros: nat) returns (r: int)
    requires JacobiLaws(J) && p != q && p.Canonical() && q.Canonical() && p.val != q.val
    requires p.Value() > 0 && OddPositive(q.Value()) && Coprime(p.Value(), q.Value())
    requires lowzeros != 0 && TwoAdic(p.Value(), lowzeros)
    modifies p, p.val
    ensures p.Canonical() && 0 < p.Value() < old(p.Value())
    ensures p.len == 0 || p.val == old(p.val)
    ensures p.val == old(p.val) || fresh(p.val)
    ensures q.Canonical() && q.Value() == old(q.Value()) && Coprime(p.Value(), q.Value())
    ensures r * J(p.Value(), q.Value()) == retval * J(old(p.Value()), q.Value())
    ensures r == retval || r == -retval
  {
    hide JacobiLaws, Coprime, TwoAdic, Val, Shr, Shl;
    r := retval;
    ghost var (pv, qv) := (p.Value(), q.Value());
    CanonicalSign(p);
    CanonicalSign(q);
    CastOutTwos(J, pv, qv, lowzeros);
    ShiftRight(p, lowzeros);
    CanonicalSign(p);
    if lowzeros % 2 == 1 {
      var bits := LowBits(q);
      LowBitsModEight(qv, bits);
      if (bits / 2) % 2 == 1 {
        if (bits / 4) % 2 == 0 {
          r := -r;
        }
      } else if (bits / 4) % 2 == 1 {
        r := -r;
      }
    }
    SignedTerm(retval, J(p.Value(), qv));
  }

  /** Bits 1 and 2 of an odd q tell whether it is 3 or 5 modulo 8. */
  lemma LowBitsModEight(q: int, bits: int)
    requires OddPositive(q) && bits == q % 32768
    ensures FlipsForTwo(q) <==>
      if (bits / 2) % 2 == 1 then (bits / 4) % 2 == 0 else (bits / 4) % 2 == 1
  {
    LowBitsOf(q, q / 32768, bits / 8, bits % 8);
  }

  lemma LowBitsOf(q: int, k: int, m: int, e: int)
    requires OddPositive(q) && q == 32768 * k + (8 * m + e) && 0 <= e < 8
    ensures FlipsForTwo(q) <==>
      if ((8 * m + e) / 2) % 2 == 1 then ((8 * m + e) / 4) % 2 == 0 else ((8 * m + e) / 4) % 2 == 1
  {
    OddModEight(q, 4096 * k + m, e);
    DivModUnique(q, 8, 4096 * k + m, e);
    DivModUnique(8 * m + e, 2, 4 * m + e / 2, 1);
    DivModUnique(8 * m + e, 4, 2 * m + e / 4, e % 4);
    DivModUnique(4 * m + e / 2, 2, 2 * m + e / 4, (e / 2) % 2);
    DivModUnique(2 * m + e / 4, 2, m, e / 4);
  }

  lemma SignedTerm(r: int, x: int)
    ensures (-r) * x == r * (-x)
  {
  }

  /** mlegendre's part from tail_recurse on: p is reduced modulo q and not 0. Either it comes down
      to 1 and r is the result, or it becomes odd. */
  method TailRecurse(ghost J: (int, int) -> int, p: MINT, q: MINT, retval: int) returns (r: int, done: bool)
    requires JacobiLaws(J) && p != q && p.Canonical() && q.Canonical() && p.val != q.val
    requires p.Value() > 0 && OddPositive(q.Value()) && Coprime(p.Value(), q.Value())
    modifies p, p.val
    ensures p.Canonical() && 0 < p.Value() <= old(p.Value()) && (done || p.Value() % 2 == 1)
    ensures p.val == old(p.val) || fresh(p.val)
    ensures q.Canonical() && q.Value() == old(q.Value()) && Coprime(p.Value(), q.Value())
    ensures r * J(p.Value(), q.Value()) == retval * J(old(p.Value()), q.Value())
    ensures r == retval || r == -retval
    ensures done <==> p.Value() == 1
  {
    hide JacobiLaws, Coprime, TwoAdic, MINT.Valid, MINT.Canonical, MINT.Value;
    ghost var (pv, qv) := (p.Value(), q.Value());
    r, done := retval, false;
    while true
      invariant p.Canonical() && 0 < p.Value() <= pv && (p.val == old(p.val) || fresh(p.val)) && p.val != q.val
      invariant q.Canonical() && q.Value() == qv && Coprime(p.Value(), qv)
      invariant r * J(p.Value(), qv) == retval * J(pv, qv)
      invariant r == retval || r == -retval
      decreases p.Value()
    {
      var one := EqualsOne(p);
      if one {
        return r, true;
      }
      var lowzeros := LowZeros(p);
      Valuation(p, lowzeros);
      if lowzeros == 0 {
        return r, false;
      }
      r := CastOut(J, p, q, r, lowzeros);
    }
  }

  lemma Valuation(p: MINT, n: nat)
    requires p.Canonical() && p.Value() > 0 && (p.len != 0 ==> TwoAdic(p.Magnitude(), n))
    ensures TwoAdic(p.Value(), n) && (n == 0 ==> p.Value() % 2 == 1)
  {
    CanonicalSign(p);
    assert Power(2, 0) == 1;
  }

  lemma OddLow(p: MINT)
    requires p.Canonical() && p.Value() > 0 && p.Value() % 2 == 1
    ensures p.len > 0 && p.val[0] % 2 == 1 && p.Magnitude() == p.Value()
  {
    hide Val;
    CanonicalSign(p);
    var s := p.val[..p.len];
    ValSuffix(s, 0);
    assert s[0..] == s && s[0] == p.val[0];
    var v := Val(s[1..]);
    assert p.Value() == 2 * (16384 * v) + s[0];
  }

  /** The sign test of reciprocity, with the second valuation computed only when it can matter. */
  method BothThreeModFour(p: MINT, q: MINT) returns (flip: bool)
    requires p.Canonical() && q.Canonical() && p.Value() > 1 && q.Value() > 1
    requires p.Value() % 2 == 1 && q.Value() % 2 == 1
    ensures flip <==> p.Value() % 4 == 3 && q.Value() % 4 == 3
  {
    hide TwoAdic, Val;
    OddLow(p);
    OddLow(q);
    var n := LowZerosLessOne(p);
    ValuationOne(p.Value(), n);
    flip := false;
    if n <= 2 {
      var k := LowZerosLessOne(q);
      ValuationTest(p.Value(), q.Value(), n, k);
      flip := n + k <= 2;
    }
  }

  /** mlegendre. The symbol is taken at the odd part of q; p and q have no common factor. */
  method Legendre(ghost J: (int, int) -> int, pi: MINT, qi: MINT) returns (retval: int)
    requires JacobiLaws(J) && pi.Canonical() && qi.Canonical()
    requires pi.Value() > 0 && qi.Value() > 0 && Coprime(pi.Value(), qi.Value())
    ensures exists n: nat :: TwoAdic(qi.Value(), n) && retval == J(pi.Value(), Shr(qi.Value(), n))
    ensures retval == 1 || retval == -1
  {
    hide JacobiLaws, Coprime, TwoAdic, Shr, Shl, MINT.Valid, MINT.Canonical, MINT.Value;
    var p := NewCopy(pi);
    var q := NewCopy(qi);
    retval := 1;
    var lowzeros := CastOutModulus(p.Value(), q);
    ghost var (k, target) := (lowzeros, J(pi.Value(), q.Value()));
    var done := false;
    while !done
      invariant p != q && p.val != q.val && fresh(p) && fresh(q) && fresh(p.val) && fresh(q.val)
      invariant p.Canonical() && q.Canonical() && p.Value() > 0 && OddPositive(q.Value())
      invariant Coprime(p.Value(), q.Value())
      invariant retval == 1 || retval == -1
      invariant if done then retval == target else retval * J(p.Value(), q.Value()) == target
      decreases !done, q.Value()
    {
      p, q, retval, done := Exchange(J, p, q, retval);
      if !done {
        lowzeros := CastOutModulus(p.Value(), q);
      }
    }
    assert TwoAdic(qi.Value(), k);
  }

  /** Casting twos out of q, which leaves the symbol at its odd part. */
  method CastOutModulus(ghost p: int, q: MINT) returns (n: nat)
    requires q.Canonical() && q.Value() > 0 && Coprime(p, q.Value())
    modifies q, q.val
    ensures q.Canonical() && 0 < q.Value() <= old(q.Value()) && OddPositive(q.Value()) && Coprime(p, q.Value())
    ensures TwoAdic(old(q.Value()), n) && q.Value() == Shr(old(q.Value()), n)
    ensures old(q.Value()) % 2 == 1 ==> q.Value() == old(q.Value())
    ensures q.val == old(q.val)
  {
    hide Coprime, TwoAdic, Shl, Shr, Val;
    ghost var qv := q.Value();
    n := LowZeros(q);
    CanonicalSign(q);
    OddPart(qv, p, n);
    ShiftByNothing(qv);
    if n != 0 {
      ShiftRight(q, n);
      CanonicalSign(q);
    }
  }

  /** One pass from tail_recurse2 to the exchange: the result is known, or the odd p and the odd q
      have changed places. */
  method Exchange(ghost J: (int, int) -> int, p0: MINT, q0: MINT, retval: int)
    returns (p: MINT, q: MINT, r: int, done: bool)
    requires JacobiLaws(J) && p0 != q0 && p0.val != q0.val && p0.Canonical() && q0.Canonical()
    requires p0.Value() > 0 && OddPositive(q0.Value()) && Coprime(p0.Value(), q0.Value())
    modifies p0, p0.val, q0.val
    ensures (p == p0 && q == q0) || (p == q0 && q == p0)
    ensures p0.val == old(p0.val) || fresh(p0.val)
    ensures p.Canonical() && q.Canonical() && p.Value() > 0 && OddPositive(q.Value())
    ensures Coprime(p.Value(), q.Value())
    ensures if done then r == retval * J(old(p0.Value()), old(q0.Value()))
            else r * J(p.Value(), q.Value()) == retval * J(old(p0.Value()), old(q0.Value()))
    ensures r == retval || r == -retval
    ensures !done ==> q.Value() < old(q0.Value())
  {
    hide JacobiLaws, Coprime, Truncated, MINT.Valid, MINT.Canonical, MINT.Value;
    p, q, r, done := p0, q0, retval, false;
    ghost var (pv, qv) := (p.Value(), q.Value());
    var one := EqualsOne(q);
    if one {
      SymbolAtOne(J, pv);
      done := true;
      return;
    }
    CanonicalSign(q);
    Mod(p, q, p);
    ghost var k :| Truncated(pv, qv, k, p.Value());
    ReduceStep(J, pv, qv, k, p.Value());
    r, done := TailRecurse(J, p, q, r);
    SymbolOfOne(J, qv);
    if done {
      return;
    }
    var flip := BothThreeModFour(p, q);
    ReciprocityStep(J, p.Value(), qv);
    SignedTerm(r, J(qv, p.Value()));
    if flip {
      r := -r;
    }
    p, q := q, p;
  }

  lemma SymbolAtOne(J: (int, int) -> int, p: int)
    requires JacobiLaws(J)
    ensures J(p, 1) == 1
  {
    assert OddPositive(1) && p % 1 == 0 && 1 % 1 == 0;
    assert J(p, 1) == J(p % 1, 1) && J(1, 1) == J(1 % 1, 1);
  }

  lemma SymbolOfOne(J: (int, int) -> int, q: int)
    requires JacobiLaws(J) && OddPositive(q)
    ensures J(1, q) == 1
  {
  }

  lemma OddPart(q: int, p: int, n: nat)
    requires q > 0 && TwoAdic(q, n) && Coprime(p, q)
    ensures OddPositive(Shr(q, n)) && Shr(q, n) <= q && Coprime(p, Shr(q, n))
    ensures q % 2 == 1 ==> n == 0
  {
    if n > 0 {
      EvenPower(n, Shr(q, n));
    }
    var (m, w) := (Shr(q, n), Power(2, n));
    PositiveFactor(q, m, w);
    assert q == Times(w, m);
    CoprimeSwap(p, q);
    CoprimeDivisor(q, p, w, m);
    CoprimeSwap(m, p);
  }
}
