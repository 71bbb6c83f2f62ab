/** Mjacobi_util.c: how often 2 divides a number, or the number less one. */
module Mjacobi_util {
  import opened Digits
  import opened Mint

  /** 2 divides m exactly n times. */
  ghost predicate TwoAdic(m: int, n: nat) {
    m == Shl(Shr(m, n), n) && Shr(m, n) % 2 == 1
  }

  lemma LowZeroDigits(s: seq<int>, k: nat)
    requires k < |s| && (forall i :: 0 <= i < k ==> s[i] == 0)
    ensures Val(s) == Radix(k) * (s[k] + 32768 * Val(s[k + 1..]))
  {
    hide Val, Radix;
    ValSplit(s, k);
    ValZeros(s[..k]);
    ValSuffix(s, k);
  }

  /** The digit k is the lowest nonzero one and 2 divides it n times. */
  lemma LowestBit(s: seq<int>, k: nat, d: int, n: nat)
    requires IsDigits(s) && k < |s| && (forall i :: 0 <= i < k ==> s[i] == 0)
    requires 0 < s[k] && d % 2 == 1 && s[k] == d * Power(2, n)
    ensures TwoAdic(Val(s), 15 * k + n)
  {
    hide Val, Radix, Power, TwoAdic;
    LowZeroDigits(s, k);
    BelowFifteen(s[k], d, n);
    var v := Val(s[k + 1..]);
    BitWeights(k, n);
    EvenPower(15 - n, v);
    OddPlusEven(d, Power(2, 15 - n) * v);
    OddFactor(Val(s), s[k], Radix(k), d, Power(2, n), Power(2, 15 - n), v);
    TwoAdicOf(Val(s), d + Power(2, 15 - n) * v, 15 * k + n);
  }

  lemma OddPlusEven(d: int, e: int)
    requires d % 2 == 1 && e % 2 == 0
    ensures (d + e) % 2 == 1
  {
  }

  lemma BitWeights(k: nat, n: nat)
    requires n < 15
    ensures Power(2, n) * Power(2, 15 - n) == 32768 && Radix(k) * Power(2, n) == Power(2, 15 * k + n)
  {
    RadixIsPower2(k);
    PowerAdd(2, n, 15 - n);
    Power2Of15();
    PowerAdd(2, 15 * k, n);
  }

  lemma TwoAdicOf(m: int, x: int, n: nat)
    requires x % 2 == 1 && m == x * Power(2, n)
    ensures TwoAdic(m, n)
  {
    hide Power;
    DivModUnique(m, Power(2, n), x, 0);
  }

  lemma BelowFifteen(d: int, c: int, n: nat)
    requires 0 < d < 32768 && d == c * Power(2, n)
    ensures n < 15
  {
    if n >= 15 {
      PowerMonotone(2, 15, n);
      Power2Of15();
      if c >= 1 {
        MulLe(1, c, Power(2, n));
      } else {
        MulLe(c, 0, Power(2, n));
      }
      assert false;
    }
  }

  lemma OddFactor(x: int, s: int, r: int, d: int, p: int, h: int, v: int)
    requires p * h == 32768 && s == d * p && x == r * (s + 32768 * v)
    ensures x == (d + h * v) * (r * p)
  {
    assert (d + h * v) * p == d * p + (h * v) * p;
    MulAssoc(p, h, v);
    MulAssoc(d + h * v, p, r);
  }

  lemma EvenPower(n: nat, v: int)
    requires n > 0
    ensures (Power(2, n) * v) % 2 == 0
  {
    MulAssoc(2, Power(2, n - 1), v);
  }

  /** The scan over zero digits that both routines start with. */
  method FirstNonzero(aval: array<Short>, k0: nat, alen: nat) returns (k: nat)
    requires k0 <= alen <= aval.Length
    ensures k0 <= k <= alen && (forall i :: k0 <= i < k ==> aval[i] == 0)
    ensures k < alen ==> aval[k] != 0
  {
    k := k0;
    while k < alen && aval[k] == 0
      invariant k0 <= k <= alen && (forall i :: k0 <= i < k ==> aval[i] == 0)
    {
      k := k + 1;
    }
  }

  /** The bit loop: digit is odd times 2 to the count. */
  method TrailingZeros(digit: Int32) returns (count: nat, ghost odd: int)
    requires 0 < digit < 32768
    ensures TwoAdic(digit, count) && odd % 2 == 1 && digit == odd * Power(2, count)
  {
    var x := digit;
    count := 0;
    while x % 2 == 0
      invariant 0 < x <= digit && digit == x * Power(2, count)
      decreases x
    {
      assert (x / 2) * Power(2, count + 1) == x * Power(2, count);
      x := x / 2;
      count := count + 1;
    }
    odd := x;
    TwoAdicOf(digit, x, count);
  }

  /** mlowzeros */
  method LowZeros(a: MINT) returns (count: nat)
    requires a.Canonical()
    ensures a.len == 0 ==> count == 0
    ensures a.len != 0 ==> TwoAdic(a.Magnitude(), count)
  {
    hide Val, TwoAdic;
    var alen := a.len;
    if alen == 0 {
      return 0;
    }
    if alen < 0 {
      alen := -alen;
    }
    var k := FirstNonzero(a.val, 0, alen);
    ghost var s := a.val[..alen];
    assert s[alen - 1] != 0;
    assert a.val[k] == s[k];
    var n, odd := TrailingZeros(a.val[k]);
    LowestBit(s, k, odd, n);
    count := 15 * k + n;
  }

  /** mlowzeros2: the low bit of a is known to be one. */
  method LowZerosLessOne(a: MINT) returns (count: nat)
    requires a.Canonical() && (a.len != 0 ==> a.val[0] % 2 == 1)
    ensures a.Magnitude() > 1 ==> TwoAdic(a.Magnitude() - 1, count)
    ensures a.Magnitude() == 1 ==> count == 15
    ensures a.Magnitude() == 0 ==> count == 1
  {
    hide Val, TwoAdic, Radix;
    var alen := a.len;
    if alen == 0 {
      ValEmpty();
      return 1;
    }
    if alen < 0 {
      alen := -alen;
    }
    ghost var s := a.val[..alen];
    assert s[0] == a.val[0];
    ghost var t := s[0 := s[0] - 1];
    LessOne(s, t);
    var low: Int32 := a.val[0];
    if low != 1 {
      var n, odd := TrailingZeros(low - 1);
      LowestBit(t, 0, odd, n);
      count := n;
    } else {
      if alen == 1 {
        OneDigit(s);
        return 15;
      }
      var k := FirstNonzero(a.val, 1, alen);
      assert s[alen - 1] != 0;
      assert a.val[k] == s[k] == t[k];
      assert forall i :: 0 < i < k ==> t[i] == s[i] == a.val[i];
      var n, odd := TrailingZeros(a.val[k]);
      LowestBit(t, k, odd, n);
      count := 15 * k + n;
    }
    MoreThanOne(s);
  }

  lemma LessOne(s: seq<int>, t: seq<int>)
    requires IsDigits(s) && s != [] && s[0] % 2 == 1 && t == s[0 := s[0] - 1]
    ensures IsDigits(t) && Val(t) == Val(s) - 1
  {
    hide Val;
    ValSuffix(s, 0);
    ValSuffix(t, 0);
    assert s[0..] == s && t[0..] == t && s[1..] == t[1..];
  }

  lemma MoreThanOne(s: seq<int>)
    requires IsCanonical(s) && s != [] && s[0] % 2 == 1 && (|s| > 1 || s[0] > 1)
    ensures Val(s) > 1
  {
    hide Val;
    if |s| == 1 {
      OneDigit(s);
    } else {
      ValTop(s);
      RadixMonotone(1, |s| - 1);
      assert Radix(1) == 32768 * Radix(0);
    }
  }
}
