/** Mmod.c: the remainder alone, by the steps of the long division. */
module Mmod {
  import opened Digits
  import opened Numbers
  import opened Mint
  import opened Mutil
  import opened Mout
  import opened Mdiv

  // ---- smod

  /** The digit loop of smod. */
  method SmallModDigits(aval: array<Short>, alen: nat, n: Int32) returns (x: Int32)
    requires alen <= aval.Length && IsDigits(aval[..alen]) && 0 < n <= 32768
    ensures 0 <= x < n && x == Val(aval[..alen]) % n
  {
    hide Val;
    ghost var s := aval[..alen];
    x := 0;
    var i := alen;
    assert s[i..] == [];
    ValEmpty();
    while i > 0
      invariant 0 <= i <= alen && 0 <= x < n
      invariant x == Val(s[i..]) % n
    {
      i := i - 1;
      var d: Int32 := aval[i];
      assert d == s[i];
      ValSuffix(s, i);
      SmallModStep(Val(s[i + 1..]), x, d, n);
      x := x * 32768;
      x := x + d;
      var y: Int32 := x / n;
      var p: Int32 := y * n;
      x := x - p;
    }
    assert s[0..] == s;
  }

  lemma SmallModStep(v: int, x: int, d: int, n: int)
    requires 0 < n <= 32768 && 0 <= d < 32768 && x == v % n
    ensures var t := x * 32768 + d;
      && 0 <= t <= 0x3fffffff && 0 <= t / n < 32768 && 0 <= (t / n) * n <= t
      && 0 <= t - (t / n) * n < n && t - (t / n) * n == (d + 32768 * v) % n
  {
    var t := x * 32768 + d;
    QuotientDigit(t, t / n, n);
    var (q, y) := (v / n, t / n);
    assert v == q * n + x;
    assert (32768 * q + y) * n == 32768 * (q * n) + y * n;
    DivModUnique(d + 32768 * v, n, 32768 * q + y, t - y * n);
  }

  /** smod */
  method SmallMod(a: MINT, n: int) returns (r: Short)
    requires a.Canonical() && -32768 <= n <= 32768 && n != 0
    ensures exists q :: SmallQuotient(a.Value(), n, q, r)
  {
    hide Val, SmallQuotient;
    var qlen := a.len;
    if qlen == 0 {
      ValEmpty();
      SignedQuotient(0, 0, 0, false, n);
      assert SmallQuotient(a.Value(), n, 0, 0);
      return 0;
    }
    var neg := qlen < 0;
    if neg {
      qlen := -qlen;
    }
    var d: Int32 := n;
    if d < 0 {
      d := -d;
      neg := !neg;
    }
    var x: Int32 := SmallModDigits(a.val, qlen, d);
    ghost var m := a.Magnitude();
    CanonicalSign(a);
    FloorQuotient(m, d);
    SignedQuotient(m, m / d, x, a.len < 0, n);
    if neg {
      x := -x;
    }
    r := x;
  }

  lemma FloorQuotient(m: int, d: int)
    requires m >= 0 && d > 0
    ensures m == d * (m / d) + m % d && m / d >= 0
  {
    DivisionStep(m, d);
  }

  // ---- mmod

  /** mmod's quotient loop: the digits are found as in mdiv but not kept. */
  method ModDigits(uval: array<Short>, alen: nat, vval: array<Short>, blen: nat)
    requires uval != vval && 2 <= blen <= alen < uval.Length && blen <= vval.Length
    requires IsDigits(uval[..alen + 1]) && IsDigits(vval[..blen]) && vval[blen - 1] >= 16384
    requires Val(uval[..alen + 1]) < Val(vval[..blen]) * Radix(alen - blen + 1)
    modifies uval
    ensures IsDigits(uval[..blen]) && Val(uval[..blen]) < Val(vval[..blen])
    ensures exists q :: old(Val(uval[..alen + 1])) == Times(q, Val(vval[..blen])) + Val(uval[..blen])
  {
    hide Val, Radix, Divided;
    ghost var (u, v) := (Val(uval[..alen + 1]), Val(vval[..blen]));
    var i := alen - blen + 1;
    ghost var q: int := 0;
    StartDivision(uval[..alen + 1], vval[..blen], [], i);
    ValEmpty();
    while i > 0
      invariant 0 <= i <= alen - blen + 1
      invariant IsDigits(uval[..i + blen])
      invariant Divided(u, v, q, Val(uval[..i + blen]), i)
    {
      i := i - 1;
      var digit := DivideStep(uval, vval, blen, i, u, q);
      q := 32768 * q + digit;
    }
    assert uval[..0 + blen] == uval[..blen];
    FinishDivision(u, v, q, Val(uval[..blen]));
    assert u == Times(q, v) + Val(uval[..blen]);
  }

  /** Steps D1 to D8 without the quotient. */
  method LongMod(a: MINT, b: MINT, keep: bool) returns (u: MINT)
    requires a.Canonical() && b.Canonical() && 2 <= b.Size() <= a.Size() && Apart(a, b)
    modifies b.val
    ensures fresh(u) && u.Canonical() && u.len >= 0 && fresh(u.val)
    ensures old(b.Magnitude()) > 0 && u.Value() == old(a.Magnitude()) % old(b.Magnitude())
    ensures keep ==> b.val[..b.Size()] == old(b.val[..b.Size()])
  {
    hide Val, Radix, Shl, Shr, Times;
    ghost var (s, t) := (a.val[..a.Size()], b.val[..b.Size()]);
    var v, shift;
    u, v, shift := Normalize(a, b);
    var alen, blen := u.len - 1, v.len;
    ModDigits(u.val, alen, v.val, blen);
    LongModResult(s, t, u.val[..blen], shift);
    Unnormalize(u, blen, shift);
    if keep {
      Restore(v, shift, t);
    }
  }

  lemma LongModResult(s: seq<int>, t: seq<int>, rest: seq<int>, j: nat)
    requires IsDigits(s) && IsCanonical(t) && t != [] && IsDigits(rest)
    requires exists q :: Shl(Val(s), j) == Times(q, Shl(Val(t), j)) + Val(rest)
    requires Val(rest) < Shl(Val(t), j)
    ensures Val(t) > 0 && Shr(Val(rest), j) == Val(s) % Val(t)
  {
    hide Val, Radix, Shl, Shr;
    var q :| Shl(Val(s), j) == Times(q, Shl(Val(t), j)) + Val(rest);
    ValBound(rest);
    ValBound(s);
    ValTop(t);
    UnshiftedDivision(Val(s), Val(t), q, Val(rest), j);
    DivModUnique(Val(s), Val(t), q, Shr(Val(rest), j));
  }

  /** mmod */
  method Mod(a: MINT, b: MINT, r: MINT)
    requires a.Canonical() && b.Canonical() && b.len != 0 && Apart(a, b)
    modifies a`len, r, b.val
    ensures r.Canonical()
    ensures exists q :: Truncated(old(a.Value()), old(b.Value()), q, r.Value())
    ensures r.val == old(r.val) || fresh(r.val)
    ensures r.len == 0 || fresh(r.val) || r == a
    ensures b != r ==> b.len == old(b.len) && b.Canonical() && b.Value() == old(b.Value())
    ensures b != r ==> b.val[..b.Size()] == old(b.val[..b.Size()])
    ensures a != r ==> a.len == old(a.len) && a.Canonical() && a.Value() == old(a.Value())
    ensures a != r ==> a.val[..a.Size()] == old(a.val[..a.Size()])
  {
    hide Val, Radix, Truncated;
    var alen, blen := a.len, b.len;
    var negr := false;
    if alen < 0 {
      negr, alen := true, -alen;
    }
    if blen < 0 {
      blen := -blen;
    }
    if alen < blen {
      ShortDividend(a, b);
      if a != r {
        Copy(a, r);
      }
    } else if blen == 1 {
      ModByDigit(a, b, r, negr);
    } else {
      ModLong(a, b, r, negr);
    }
  }

  /** mmod's path for a divisor of one digit: a is made positive for the call of smod. */
  method ModByDigit(a: MINT, b: MINT, r: MINT, negr: bool)
    requires a.Canonical() && b.Canonical() && a.len != 0 && b.Size() == 1 && negr == (a.len < 0)
    modifies a`len, r
    ensures r.Canonical() && (r.len == 0 || fresh(r.val)) && (r.val == old(r.val) || fresh(r.val))
    ensures exists q :: Truncated(old(a.Value()), old(b.Value()), q, r.Value())
    ensures a != r ==> a.len == old(a.len)
    ensures b != r ==> b.len == old(b.len)
  {
    hide Val, Radix, Truncated, SmallQuotient;
    ghost var (am, bm, bneg) := (a.Magnitude(), b.Magnitude(), b.len < 0);
    CanonicalSign(a);
    OneDigit(b.val[..1]);
    var j := a.len;
    var d: Int32 := b.val[0];
    a.len := if negr then -j else j;
    var rr := SmallMod(a, d);
    a.len := j;
    ghost var q :| SmallQuotient(am, d, q, rr);
    ShortDivision(am, d, q, rr);
    SignedDivision(am, bm, q, rr, negr, bneg);
    r.Set(rr);
    if negr {
      r.Negate();
    }
    assert Truncated(old(a.Value()), old(b.Value()), if negr != bneg then -q else q, r.Value());
  }

  /** mmod's path for a divisor of two digits or more. */
  method ModLong(a: MINT, b: MINT, r: MINT, negr: bool)
    requires a.Canonical() && b.Canonical() && 2 <= b.Size() <= a.Size() && Apart(a, b)
    requires negr == (a.len < 0)
    modifies r, b.val
    ensures r.Canonical() && (r.len == 0 || fresh(r.val)) && (r.val == old(r.val) || fresh(r.val))
    ensures exists q :: Truncated(old(a.Value()), old(b.Value()), q, r.Value())
    ensures b != r ==> b.val[..b.Size()] == old(b.val[..b.Size()])
  {
    hide Val, Radix, Truncated;
    ghost var (am, bm, bneg) := (a.Magnitude(), b.Magnitude(), b.len < 0);
    CanonicalSign(a);
    CanonicalSign(b);
    var u := LongMod(a, b, b != r);
    FloorQuotient(am, bm);
    SignedDivision(am, bm, am / bm, u.Value(), negr, bneg);
    TakeSigned(r, u.val, u.len, negr);
  }

  /** mmod and mdiv leave the same remainder. */
  lemma SameRemainder(a: int, b: int, q: int, r: int, r': int)
    requires Truncated(a, b, q, r) && exists q' :: Truncated(a, b, q', r')
    ensures r == r'
  {
    var q' :| Truncated(a, b, q', r');
    TruncatedUnique(a, b, q, r, q', r');
  }
}
