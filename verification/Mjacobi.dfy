/** Mjacobi.c: the symbol of any two positive numbers, 0 when they have a common factor. */
module Mjacobi {
  import opened Digits
  import opened Numbers
  import opened Mint
  import opened Mfloat
  import opened Mgcd
  import opened Mjacobi_util
  import opened Mlegendre
  import opened Residues

  /** mjacobi. For an even modulus the symbol is taken at its odd part. */
  method Jacobi(ghost J: (int, int) -> int, pi: MINT, qi: MINT) returns (retval: int)
    requires JacobiLaws(J) && pi.Canonical() && qi.Canonical()
    requires pi.Value() > 0 && qi.Value() > 0
    ensures OddPositive(qi.Value()) ==> retval == J(pi.Value(), qi.Value())
    ensures if Coprime(pi.Value(), qi.Value())
            then exists n: nat :: TwoAdic(qi.Value(), n) && retval == J(pi.Value(), Shr(qi.Value(), n))
            else retval == 0
    ensures retval == 0 <==> !Coprime(pi.Value(), qi.Value())
    ensures OddPositive(qi.Value()) && IsPrime(qi.Value()) && retval != 0 ==>
      retval == if IsSquare(pi.Value(), qi.Value()) then 1 else -1
  {
    hide JacobiLaws, Coprime, TwoAdic, IsGcd, Shr, IsPrime, IsSquare, MINT.Valid, MINT.Canonical, MINT.Value;
    ghost var (pv, qv) := (pi.Value(), qi.Value());
    var gcdval := new MINT();
    Gcd(pi, qi, gcdval);
    var one := EqualsOne(gcdval);
    CoprimeIsGcd(pv, qv);
    if !one {
      if IsGcd(1, pv, qv) {
        GcdUnique(1, gcdval.Value(), pv, qv);
      }
      CommonFactor(J, pv, qv);
      retval := 0;
    } else {
      retval := Legendre(J, pi, qi);
      ghost var n: nat :| TwoAdic(qv, n) && retval == J(pv, Shr(qv, n));
      OddPart(qv, pv, n);
      ShiftByNothing(qv);
      if OddPositive(qv) {
        LawsTellSquares(J, pv, qv);
      }
    }
  }

  lemma CommonFactor(J: (int, int) -> int, p: int, q: int)
    requires JacobiLaws(J) && !Coprime(p, q)
    ensures OddPositive(q) ==> J(p, q) == 0
  {
  }
}
