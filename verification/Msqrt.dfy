/** Msqrt.c: integer square root by Newton's iteration. */
module Msqrt {
  import opened Digits
  import opened Mint
  import opened Mutil
  import opened Madd
  import opened Mfloat
  import opened Mmult
  import opened Mdiv

  ghost predicate IsRoot(a: int, s: int) {
    s >= 0 && s * s <= a < (s + 1) * (s + 1)
  }

  /** x is not below the integer root of a. */
  ghost predicate NotBelowRoot(a: int, x: int) {
    x >= 1 && a < (x + 1) * (x + 1)
  }

  /** An iterate never falls below the root, and stops decreasing exactly there. */
  lemma NewtonStep(a: int, x: int, q: int, z: int, y: int)
    requires a >= 1 && NotBelowRoot(a, x) && Truncated(a, x, q, z) && y == (x + q) / 2
    ensures q >= 0 && y >= 1 && NotBelowRoot(a, y)
    ensures x <= y ==> IsRoot(a, x)
  {
    QuotientSign(a, x, q, z);
    if q == 0 {
      assert a == z;
    }
    var t := q + 1;
    assert a < x * t by {
      assert x * (q + 1) == q * x + x;
    }
    MeansInequality(x, t, y + 1);
    if x <= y {
      MulLe(x, q, x);
    }
  }

  lemma MeansInequality(x: int, t: int, y: int)
    requires x >= 0 && t >= 0 && x + t <= 2 * y
    ensures x * t <= y * y
  {
    assert (x - t) * (x - t) >= 0 by { Square(x - t); }
    assert (x + t) * (x + t) == (x - t) * (x - t) + 4 * (x * t);
    MulLe(x + t, 2 * y, x + t);
    MulLe(x + t, 2 * y, 2 * y);
    assert (2 * y) * (2 * y) == 4 * (y * y);
  }

  lemma Square(x: int)
    ensures x * x >= 0
  {
    if x >= 0 { MulLe(0, x, x); } else { MulLe(0, -x, -x); assert (-x) * (-x) == x * x; }
  }

  /** The starting value: about 2^8 or 1 times a power of the radix. */
  method Start(alen: nat) returns (x: MINT)
    requires alen >= 1
    ensures fresh(x) && fresh(x.val) && x.Canonical() && x.len > 0
    ensures x.Size() == if alen % 2 == 1 then (1 + alen) / 2 else 1 + alen / 2
    ensures Radix(alen) <= x.Value() * x.Value()
  {
    hide Val, Radix;
    x := new MINT();
    var n := if alen % 2 == 1 then (1 + alen) / 2 else 1 + alen / 2;
    x.val := new Short[n];
    x.len := n;
    Clear(x.val);
    x.val[n - 1] := if alen % 2 == 1 then 256 else 1;
    ghost var s := x.val[..n];
    ValPrefix(s, n - 1);
    assert s[..n - 1 + 1] == s;
    ValZeros(s[..n - 1]);
    StartSquare(alen, n);
  }

  method Clear(val: array<Short>)
    modifies val
    ensures forall k :: 0 <= k < val.Length ==> val[k] == 0
  {
    var j := val.Length;
    while j > 0
      invariant 0 <= j <= val.Length
      invariant forall k :: j <= k < val.Length ==> val[k] == 0
    {
      j := j - 1;
      val[j] := 0;
    }
  }

  lemma StartSquare(alen: nat, n: nat)
    requires alen >= 1 && n == if alen % 2 == 1 then (1 + alen) / 2 else 1 + alen / 2
    ensures var x := (if alen % 2 == 1 then 256 else 1) * Radix(n - 1); Radix(alen) <= x * x
  {
    hide Radix;
    RadixAdd(n - 1, n - 1);
    var r := Radix(n - 1);
    if alen % 2 == 1 {
      RadixNext(alen - 1);
      assert (256 * r) * (256 * r) == 65536 * (r * r);
    }
  }

  lemma StartAbove(a: int, r: int, x: int)
    requires 0 <= a < r <= x * x && x > 0
    ensures NotBelowRoot(a, x)
  {
    assert (x + 1) * (x + 1) == x * x + 2 * x + 1;
  }

  /** One Newton step: y becomes (x + a/x) / 2. */
  method Improve(a: MINT, x: MINT, y: MINT, z: MINT)
    requires a.Canonical() && x.Canonical() && a.Value() >= 1 && x.len > 0 && a.val != x.val
    requires a != x && a != y && a != z && x != y && x != z && y != z
    requires NotBelowRoot(a.Value(), x.Value())
    modifies y, z, x.val
    ensures a.Value() == old(a.Value()) && x.Canonical() && x.Value() == old(x.Value())
    ensures y.Canonical() && y.len > 0 && fresh(y.val)
    ensures NotBelowRoot(a.Value(), y.Value())
    ensures x.Value() <= y.Value() ==> IsRoot(a.Value(), x.Value())
  {
    hide Truncated, IsRoot, NotBelowRoot, MINT.Valid, MINT.Canonical, MINT.Value;
    ghost var (av, xv) := (a.Value(), x.Value());
    CanonicalSign(x);
    Divide(a, x, y, z);
    ghost var q := y.Value();
    Add(x, y, y);
    NewtonStep(av, xv, q, z.Value(), (xv + q) / 2);
    Halve(y);
    CanonicalSign(y);
  }

  /** mshiftr(y, 1) on a sum that is not negative. */
  method Halve(y: MINT)
    requires y.Canonical() && y.Value() >= 0
    modifies y, y.val
    ensures y.Canonical() && y.len >= 0 && y.Value() == old(y.Value()) / 2
    ensures y.len == 0 || y.val == old(y.val)
    ensures y.val == old(y.val) || fresh(y.val)
  {
    hide Val;
    CanonicalSign(y);
    ShiftRight(y, 1);
    assert Power(2, 1) == 2;
  }

  /** msqrt: the integer root goes to b, what is left to r. */
  method Sqrt(a: MINT, b: MINT, r: MINT) returns (rest: int)
    requires a.Canonical() && a.Value() >= 0 && b != r && a.Size() <= 2 * SAFE_DIGITS
    modifies b, r
    ensures b.Canonical() && r.Canonical() && rest == r.len
    ensures IsRoot(old(a.Value()), b.Value())
    ensures r.Value() == old(a.Value()) - b.Value() * b.Value() && 0 <= r.Value() <= 2 * b.Value()
  {
    hide IsRoot, NotBelowRoot, MINT.Valid, MINT.Canonical, MINT.Value;
    ghost var av := a.Value();
    CanonicalSign(a);
    if a.len == 0 {
      b.Set(0);
      r.Set(0);
      RootOfZero();
      return r.len;
    }
    var x := Root(a);
    RestRange(av, x.Value());
    RootIsShort(a, x, SAFE_DIGITS);
    var y := NewCopy(x);
    Multiply(x, x, x);
    Sub(a, x, r);
    y.MoveTo(b);
    return r.len;
  }

  lemma RootOfZero()
    ensures IsRoot(0, 0)
  {
  }

  lemma RestRange(a: int, s: int)
    requires IsRoot(a, s)
    ensures 0 <= a - s * s <= 2 * s
  {
    assert (s + 1) * (s + 1) == s * s + 2 * s + 1;
  }

  /** msqrt's loop. */
  method Root(a: MINT) returns (x: MINT)
    requires a.Canonical() && a.Value() >= 1 && a.len > 0
    ensures fresh(x) && fresh(x.val) && x.Canonical() && IsRoot(a.Value(), x.Value())
    ensures a.Value() == old(a.Value()) && a.Canonical()
  {
    hide IsRoot, NotBelowRoot, MINT.Valid, MINT.Canonical, MINT.Value;
    ghost var av := a.Value();
    x := Start(a.len);
    CanonicalSign(x);
    CanonicalSign(a);
    BelowWeight(a);
    StartAbove(av, Radix(a.len), x.Value());
    var y := new MINT();
    var z := new MINT();
    while true
      invariant a.Canonical() && a.Value() == av && a.val != x.val
      invariant fresh(x.val) && x.Canonical() && x.len > 0
      invariant x != y && x != z && y != z && a != x && a != y && a != z
      invariant NotBelowRoot(av, x.Value())
      invariant x.len == 0 <==> x.Value() == 0
      decreases x.Value()
    {
      Improve(a, x, y, z);
      var c := Compare(x, y);
      if c <= 0 {
        break;
      }
      CanonicalSign(y);
      SmallerIsShorter(y, x);
      y.MoveTo(x);
    }
  }

  /** The root has half the digits. */
  lemma RootIsShort(a: MINT, x: MINT, k: nat)
    requires a.Canonical() && x.Canonical() && IsRoot(a.Value(), x.Value()) && a.Size() <= 2 * k
    ensures x.Size() <= k
  {
    hide Radix;
    CanonicalSign(a);
    CanonicalSign(x);
    RadixMonotone(a.Size(), 2 * k);
    RadixAdd(k, k);
    if x.Size() > k {
      RadixMonotone(k, x.Size() - 1);
      ProductAtLeast(x.Value(), x.Value(), Radix(k), Radix(k));
    }
  }

  lemma BelowWeight(a: MINT)
    requires a.Canonical() && a.len > 0
    ensures 0 <= a.Value() < Radix(a.len)
  {
    CanonicalSign(a);
  }
}
