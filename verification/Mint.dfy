/** The MINT record of cmump.h with its initialisation, move, set and negate macros. */
module Mint {
  import opened Digits

  /** A multi-precision integer: the magnitude is the first |len| digits of val and the
      sign of len is the sign of the number. A MINT of length 0 does not own its val, which
      may still be the storage of a number that was moved elsewhere. */
  class MINT {
    var len: int
    var val: array<Short>

    ghost function Size(): nat
      reads this
    {
      if len < 0 then -len else len
    }

    ghost predicate Valid()
      reads this, val
    {
      Size() <= val.Length && IsDigits(val[..Size()])
    }

    ghost predicate Canonical()
      reads this, val
      ensures Canonical() ==> Valid()
    {
      Valid() && (len != 0 ==> val[Size() - 1] != 0)
    }

    ghost function Magnitude(): int
      requires Valid()
      reads this, val
    {
      Val(val[..Size()])
    }

    ghost function Value(): int
      requires Valid()
      reads this, val
    {
      if len < 0 then -Magnitude() else Magnitude()
    }

    /** MINIT */
    constructor ()
      ensures len == 0 && fresh(val)
    {
      len := 0;
      val := new Short[0];
    }

    /** mset: the storage held before is given up. */
    method Set(c: int)
      requires -32768 < c < 32768
      modifies this
      ensures Canonical() && Value() == c
      ensures val == old(val) || fresh(val)
      ensures len == 0 || fresh(val)
      ensures len == if c == 0 then 0 else if c > 0 then 1 else -1
    {
      if c == 0 {
        len := 0;
      } else {
        val := new Short[1];
        if c > 0 {
          len := 1;
          val[0] := c;
        } else {
          len := -1;
          val[0] := -c;
        }
        ValPrefix(val[..], 0);
        assert val[..1] == val[..][..0 + 1];
      }
    }

    /** mmove, MMOVE: y takes over the storage of this MINT, which becomes 0. */
    method MoveTo(y: MINT)
      requires y != this
      modifies this, y
      ensures y.len == old(len) && y.val == old(val)
      ensures len == 0 && val == old(val)
      ensures old(Valid()) ==> y.Valid() && y.Value() == old(Value())
      ensures old(Canonical()) ==> y.Canonical()
    {
      y.len := len;
      y.val := val;
      len := 0;
    }

    /** mnegate */
    method Negate()
      requires Canonical()
      modifies this`len
      ensures len == -old(len)
      ensures Canonical() && Value() == -old(Value())
    {
      len := -len;
      assert len == 0 ==> Magnitude() == 0;
    }
  }

  /** The record c takes over len digits of val, negated if neg. */
  method TakeSigned(c: MINT, val: array<Short>, len: nat, neg: bool)
    requires len <= val.Length && IsCanonical(val[..len])
    modifies c
    ensures c.val == val && c.Canonical() && (c.len == 0 <==> len == 0)
    ensures c.Value() == if neg then -Val(val[..len]) else Val(val[..len])
  {
    hide Val;
    c.len := len;
    c.val := val;
    if neg {
      c.Negate();
    }
  }

  /** Two MINTs do not share live storage. */
  ghost predicate Apart(a: MINT, b: MINT)
    reads a, b
  {
    a == b || a.len == 0 || b.len == 0 || a.val != b.val
  }

  lemma CanonicalSign(a: MINT)
    requires a.Canonical()
    ensures a.len == 0 <==> a.Value() == 0
    ensures a.len > 0 <==> a.Value() > 0
    ensures a.Magnitude() >= 0
    ensures a.len != 0 ==> Radix(a.Size() - 1) <= a.Magnitude()
    ensures a.Magnitude() < Radix(a.Size())
  {
    if a.len != 0 {
      ValTop(a.val[..a.Size()]);
    }
  }

  /** Equal values have equal representations. */
  lemma SameValueSameDigits(a: MINT, b: MINT)
    requires a.Canonical() && b.Canonical() && a.Value() == b.Value()
    ensures a.len == b.len && a.val[..a.Size()] == b.val[..b.Size()]
  {
    CanonicalSign(a);
    CanonicalSign(b);
    CanonicalUnique(a.val[..a.Size()], b.val[..b.Size()]);
  }

  /** A number of smaller magnitude has no more digits. */
  lemma SmallerIsShorter(a: MINT, b: MINT)
    requires a.Canonical() && b.Canonical() && 0 <= a.Value() <= b.Value()
    ensures a.Size() <= b.Size()
  {
    CanonicalSign(a);
    CanonicalSign(b);
    if b.Size() < a.Size() {
      ValShorter(b.val[..b.Size()], a.val[..a.Size()]);
    }
  }
}
