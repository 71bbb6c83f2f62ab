/** Mout.c: division by a short, and numbers as text. */
module Mout {
  import opened Digits
  import opened Numbers
  import opened Mint

  // ---- sdiv

  /** The digit loop of sdiv. */
  method SmallDivideDigits(aval: array<Short>, alen: nat, n: Int32)
    returns (qval: array<Short>, qlen: nat, x: Int32)
    requires 0 < alen <= aval.Length && IsDigits(aval[..alen]) && aval[alen - 1] != 0
    requires 0 < n <= 32768
    ensures fresh(qval) && qlen <= qval.Length && IsCanonical(qval[..qlen]) && 0 <= x < n
    ensures Val(aval[..alen]) == n * Val(qval[..qlen]) + x
  {
    hide Val, Radix;
    ValEmpty();
    ghost var s := aval[..alen];
    qval := new Short[alen];
    x := 0;
    var i := alen;
    assert s[i..] == [] && qval[i..] == [];
    while i > 0
      invariant 0 <= i <= alen && 0 <= x < n
      invariant IsDigits(qval[i..])
      invariant Val(s[i..]) == n * Val(qval[i..]) + x
      modifies qval
    {
      i := i - 1;
      SmallDivideStep(s, i, qval[i + 1..], n, x);
      x := x * 32768;
      var d: Int32 := aval[i];
      assert d == s[i];
      x := x + d;
      var y: Int32 := x / n;
      qval[i] := y;
      assert qval[i..] == [y] + qval[i + 1..];
      var p: Int32 := y * n;
      x := x - p;
    }
    assert s[0..] == s && qval[0..] == qval[..alen];
    qlen := alen;
    QuotientLength(s, qval[..alen], n, x);
    if qval[alen - 1] == 0 {
      qlen := alen - 1;
      assert qval[..alen][..alen - 1] == qval[..qlen];
    }
  }

  /** One digit of short division. */
  lemma SmallDivideStep(s: seq<int>, i: nat, q: seq<int>, n: int, x: int)
    requires i < |s| && 0 <= s[i] < 32768 && 0 < n <= 32768 && 0 <= x < n
    requires Val(s[i + 1..]) == n * Val(q) + x
    ensures var t := x * 32768 + s[i];
      && 0 <= t <= 0x3fffffff && 0 <= t / n < 32768 && 0 <= t - (t / n) * n < n
      && 0 <= (t / n) * n <= t
      && Val(s[i..]) == n * Val([t / n] + q) + (t - (t / n) * n)
  {
    hide Val;
    var t := x * 32768 + s[i];
    QuotientDigit(t, t / n, n);
    ValSuffix(s, i);
    ValPush(t / n, q);
    AppendQuotient(n, t / n, Val(q));
  }

  lemma AppendQuotient(n: int, y: int, q: int)
    ensures n * (y + 32768 * q) == y * n + 32768 * (n * q)
  {
  }

  lemma QuotientDigit(t: int, y: int, n: int)
    requires 0 < n && 0 <= t < 32768 * n && y == t / n
    ensures 0 <= y < 32768 && 0 <= y * n <= t && 0 <= t - y * n < n
  {
    assert t == y * n + t % n;
    if y < 0 {
      MulLe(y, -1, n);
    } else if y >= 32768 {
      MulLe(32768, y, n);
    } else {
      MulLe(0, y, n);
    }
  }

  /** The quotient has at most one leading zero. */
  lemma QuotientLength(s: seq<int>, q: seq<int>, n: int, x: int)
    requires IsCanonical(s) && s != [] && IsDigits(q) && |q| == |s|
    requires 0 <= x < n <= 32768 && Val(s) == n * Val(q) + x
    ensures var k := if q[|q| - 1] == 0 then |q| - 1 else |q|;
      IsCanonical(q[..k]) && Val(q[..k]) == Val(q)
  {
    hide Val, Radix;
    var k := |q| - 1;
    assert q[..k + 1] == q;
    if q[k] == 0 {
      ValPrefix(q, k);
      if k > 0 {
        ValTop(s);
        RadixNext(k - 1);
        LargeQuotient(Val(s), n, Val(q), x, Radix(k - 1));
        TopNonzero(q[..k]);
      }
    }
  }

  lemma LargeQuotient(v: int, n: int, q: int, x: int, r: int)
    requires v == n * q + x && 0 <= x < n <= 32768 && r > 0 && v >= 32768 * r
    ensures q >= r
  {
    if q < r {
      MulLe(q + 1, r, n);
      assert (q + 1) * n == n * q + n;
      MulLe(n, 32768, r);
      assert false;
    }
  }

  /** sdiv: the remainder takes the sign of the quotient, so that a = q*n + r can fail when
      n is negative. */
  method SmallDivide(a: MINT, n: int, q: MINT) returns (r: Short)
    requires a.Canonical() && -32768 <= n <= 32768 && n != 0
    modifies q
    ensures q.Canonical() && (q.len == 0 || fresh(q.val)) && (q.val == old(q.val) || fresh(q.val))
    ensures SmallQuotient(old(a.Value()), n, q.Value(), r)
  {
    hide Val, Radix, SmallQuotient;
    var qlen: int := a.len;
    ghost var m := a.Magnitude();
    if qlen == 0 {
      ValEmpty();
      q.Set(0);
      SignedQuotient(0, 0, 0, false, n);
      return 0;
    }
    var neg := qlen < 0;
    if neg {
      qlen := -qlen;
    }
    var d: Int32 := n;
    if d < 0 {
      d := -d;
      neg := !neg;
    }
    var qval, x;
    qval, qlen, x := SmallDivideDigits(a.val, qlen, d);
    if qlen != 0 {
      q.val := qval;
    }
    ghost var k := Val(qval[..qlen]);
    ValBound(qval[..qlen]);
    SignedQuotient(m, k, x, a.len < 0, n);
    if neg {
      qlen := -qlen;
      x := -x;
    }
    q.len := qlen;
    assert q.val[..q.Size()] == qval[..q.Size()];
    assert q.len == 0 ==> qval[..0] == [] && k == 0 by { ValEmpty(); }
    r := x;
  }

  /** What sdiv promises: the magnitudes divide exactly, and the quotient is truncated towards
      zero; the remainder has the sign of the quotient. */
  ghost predicate SmallQuotient(a: int, n: int, q: int, r: int)
    requires n != 0
  {
    && a == q * n + (if n > 0 then r else -r)
    && (if n > 0 then -n < r < n else n < r < -n)
    && (r > 0 ==> (a > 0 <==> n > 0)) && (r < 0 ==> (a < 0 <==> n > 0))
  }

  lemma SignedQuotient(m: int, k: int, x: int, aneg: bool, n: int)
    requires n != 0 && k >= 0 && 0 <= x < (if n < 0 then -n else n)
    requires m == (if n < 0 then -n else n) * k + x
    ensures var neg := aneg != (n < 0);
      SmallQuotient(if aneg then -m else m, n, if neg then -k else k, if neg then -x else x)
  {
    MulLe(0, k, if n < 0 then -n else n);
    assert (-k) * n == -(k * n) && k * (-n) == -(k * n);
  }

  /** Exactly when sdiv's results satisfy the division equation. */
  lemma SmallQuotientExact(a: int, n: int, q: int, r: int)
    requires n != 0 && SmallQuotient(a, n, q, r)
    ensures a == q * n + r <==> n > 0 || Divides(n, a)
  {
    if n < 0 {
      if a == q * n + r {
        assert Times(q, n) == a;
      }
      if Divides(n, a) {
        var t :| Times(t, n) == a;
        SmallMultiple(q - t, n, r);
      }
    }
  }

  lemma SmallMultiple(k: int, n: int, r: int)
    requires n < 0 && k * n == r && n < r < -n
    ensures r == 0
  {
    if k >= 1 {
      MulLe(1, k, -n);
      assert false;
    } else if k <= -1 {
      MulLe(k, -1, -n);
      assert false;
    }
  }

  /** 1 divided by -2: the remainder -1 is stored, although 0 * -2 - 1 is not 1. */
  method OneByMinusTwo(q: MINT) returns (r: Short)
    modifies q
    ensures q.Canonical() && q.Value() == 0 && r == -1
  {
    var a := new MINT();
    a.Set(1);
    r := SmallDivide(a, -2, q);
    OnlyQuotient(q.Value(), r);
  }

  lemma OnlyQuotient(q: int, r: int)
    requires SmallQuotient(1, -2, q, r)
    ensures q == 0 && r == -1
  {
  }
}
