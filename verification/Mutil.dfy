/** Mutil.c: copying and comparing. */
module Mutil {
  import opened Digits
  import opened Mint

  /** mcopy */
  method Copy(a: MINT, b: MINT)
    requires a != b && a.Valid()
    modifies b
    ensures b.len == old(a.len) && b.Valid()
    ensures b.val[..b.Size()] == old(a.val[..a.Size()])
    ensures b.val == old(b.val) || fresh(b.val)
    ensures b.len == 0 || fresh(b.val)
    ensures old(a.Canonical()) ==> b.Canonical()
    ensures b.Value() == old(a.Value())
  {
    var i := a.len;
    var aval := a.val;
    b.len := i;
    if i == 0 {
      return;
    } else if i < 0 {
      i := -i;
    }
    var bval := new Short[i];
    var j := i;
    while j > 0
      invariant 0 <= j <= i
      invariant forall k :: j <= k < i ==> bval[k] == aval[k]
      invariant b.len == old(a.len) && aval[..] == old(aval[..])
    {
      j := j - 1;
      bval[j] := aval[j];
    }
    b.val := bval;
    assert bval[..i] == old(a.val[..a.Size()]);
  }

  /** MCOPY into a new record. */
  method NewCopy(a: MINT) returns (b: MINT)
    requires a.Canonical()
    ensures fresh(b) && fresh(b.val) && b.Canonical() && b.Value() == a.Value()
  {
    b := new MINT();
    Copy(a, b);
  }

  /** MSET into a new record. */
  method NewSet(c: int) returns (b: MINT)
    requires -32768 < c < 32768
    ensures fresh(b) && fresh(b.val) && b.Canonical() && b.Value() == c
    ensures b.len == if c == 0 then 0 else if c > 0 then 1 else -1
  {
    b := new MINT();
    b.Set(c);
  }

  /** mcmp: only the sign of the result is promised. */
  method Compare(a: MINT, b: MINT) returns (r: int)
    requires a.Canonical() && b.Canonical()
    ensures r < 0 <==> a.Value() < b.Value()
    ensures r == 0 <==> a.Value() == b.Value()
  {
    var p, q := a.len, b.len;
    if p != q {
      LengthsDecide(a, b);
      return p - q;
    }
    if p == 0 {
      return 0;
    }
    var neg := p < 0;
    if neg {
      p := -p;
    }
    var aval, bval := a.val, b.val;
    var i := p;
    ghost var n := p;
    while i > 0
      invariant 0 <= i <= n
      invariant aval[i..n] == bval[i..n]
      invariant i < n ==> p == q
    {
      i := i - 1;
      p := aval[i];
      q := bval[i];
      if p != q {
        FirstDifference(aval[..n], bval[..n], i);
        break;
      }
      assert aval[i..n] == [aval[i]] + aval[i + 1..n];
      assert bval[i..n] == [bval[i]] + bval[i + 1..n];
    }
    return if neg then q - p else p - q;
  }

  lemma LengthsDecide(a: MINT, b: MINT)
    requires a.Canonical() && b.Canonical() && a.len != b.len
    ensures a.len < b.len <==> a.Value() < b.Value()
    ensures a.Value() != b.Value()
  {
    CanonicalSign(a);
    CanonicalSign(b);
    if a.Size() < b.Size() {
      ValShorter(a.val[..a.Size()], b.val[..b.Size()]);
    } else if b.Size() < a.Size() {
      ValShorter(b.val[..b.Size()], a.val[..a.Size()]);
    }
  }

  lemma HigherDigitWins(x: int, y: int, c: int, d: int, r: int)
    requires 0 <= x < r && 0 <= y < r
    ensures c < d ==> x + c * r < y + d * r
    ensures d < c ==> y + d * r < x + c * r
  {
    if c < d {
      MulLe(c + 1, d, r);
    } else if d < c {
      MulLe(d + 1, c, r);
    }
  }

  /** The most significant difference decides. */
  lemma FirstDifference(s: seq<int>, t: seq<int>, i: nat)
    requires IsDigits(s) && IsDigits(t)
    requires i < |s| == |t| && s[i + 1..] == t[i + 1..]
    ensures s[i] < t[i] ==> Val(s) < Val(t)
    ensures t[i] < s[i] ==> Val(t) < Val(s)
  {
    ValSplit(s, i + 1);
    ValSplit(t, i + 1);
    ValPrefix(s, i);
    ValPrefix(t, i);
    ValBound(s[..i]);
    ValBound(t[..i]);
    HigherDigitWins(Val(s[..i]), Val(t[..i]), s[i], t[i], Radix(i));
  }
}
