/** Madd.c: signed addition and subtraction of digit strings. */
module Madd {
  import opened Digits
  import opened Mint
  import opened Mutil

  /** The digit loops of m_add, for operands with the longer one first. */
  method AddDigits(aval: array<Short>, alen: nat, bval: array<Short>, blen: nat)
    returns (cval: array<Short>, clen: nat)
    requires blen <= alen <= aval.Length && blen <= bval.Length
    requires IsCanonical(aval[..alen]) && IsCanonical(bval[..blen])
    ensures fresh(cval) && clen <= cval.Length && IsCanonical(cval[..clen])
    ensures Val(cval[..clen]) == Val(aval[..alen]) + Val(bval[..blen])
  {
    hide Val, Radix, Accounted;
    cval := new Short[alen + 1];
    var x: Int32 := 0;
    var i := 0;
    ghost var (s, t) := (aval[..alen], bval[..blen]);
    AccountedStart(s);
    AccountedStart(t);
    assert cval[..i] == [];
    while i < blen
      invariant 0 <= i <= blen && 0 <= x <= 1
      invariant Accounted(cval[..i], x, Val(s[..i]) + Val(t[..i]))
      modifies cval
    {
      AddStep(cval[..i], s, t, i, x);
      var d: Int32, e: Int32 := aval[i], bval[i];
      assert d == s[i] && e == t[i];
      x := x + (d + e);
      cval[i] := x % 32768;
      x := x / 32768;
      i := i + 1;
      assert cval[..i] == cval[..i - 1] + [cval[i - 1]];
    }
    assert t[..i] == t;
    while i < alen
      invariant blen <= i <= alen && 0 <= x <= 1
      invariant Accounted(cval[..i], x, Val(s[..i]) + Val(t))
      modifies cval
    {
      ExtendStep(cval[..i], s, Val(t), i, x);
      var d: Int32 := aval[i];
      assert d == s[i];
      x := x + d;
      cval[i] := x % 32768;
      x := x / 32768;
      i := i + 1;
      assert cval[..i] == cval[..i - 1] + [cval[i - 1]];
    }
    assert s[..i] == s;
    ghost var u := cval[..i];
    SumTopDigit(u, x, s, t);
    if x == 1 {
      cval[i] := 1;
      clen := i + 1;
      assert cval[..clen] == u + [1];
    } else {
      clen := alen;
    }
  }

  /** m_add: the sum of two magnitudes, the longer one first. */
  method AddMagnitudes(a: MINT, b: MINT, c: MINT)
    requires a.Canonical() && b.Canonical()
    requires a.len >= b.len >= 0 == c.len
    modifies c
    ensures fresh(c.val) && c.Canonical() && c.len >= 0
    ensures c.Value() == old(a.Value() + b.Value())
  {
    hide Val, Radix;
    var cval, clen := AddDigits(a.val, a.len, b.val, b.len);
    c.val := cval;
    c.len := clen;
  }

  /** One column of m_add's first loop. */
  lemma AddStep(u: seq<int>, s: seq<int>, t: seq<int>, i: nat, x: int)
    requires |u| == i < |s| && i < |t|
    requires Accounted(u, x, Val(s[..i]) + Val(t[..i]))
    ensures var y := x + (s[i] + t[i]);
      Accounted(u + [y % 32768], y / 32768, Val(s[..i + 1]) + Val(t[..i + 1]))
  {
    hide Val, Accounted;
    ValPrefix(s, i);
    ValPrefix(t, i);
    AccountedStep(u, x, Val(s[..i]) + Val(t[..i]), s[i] + t[i]);
    assert (s[i] + t[i]) * Radix(i) == s[i] * Radix(i) + t[i] * Radix(i);
  }

  /** One column of the second loops, where the shorter operand is exhausted. */
  lemma ExtendStep(u: seq<int>, s: seq<int>, t: int, i: nat, x: int)
    requires |u| == i < |s|
    requires Accounted(u, x, Val(s[..i]) + t)
    ensures Accounted(u + [(x + s[i]) % 32768], (x + s[i]) / 32768, Val(s[..i + 1]) + t)
  {
    hide Val, Accounted;
    ValPrefix(s, i);
    AccountedStep(u, x, Val(s[..i]) + t, s[i]);
  }

  /** The sum keeps the length of the longer operand unless a carry is left. */
  lemma SumTopDigit(u: seq<int>, x: int, s: seq<int>, t: seq<int>)
    requires IsCanonical(s) && IsDigits(t) && |u| == |s| && 0 <= x <= 1
    requires Accounted(u, x, Val(s) + Val(t))
    ensures var w := if x == 1 then u + [1] else u;
      IsCanonical(w) && Val(w) == Val(s) + Val(t)
  {
    hide Val, Radix;
    ValBound(t);
    if x == 1 {
      ValSnoc(u, 1);
    } else {
      assert x * Radix(|u|) == 0;
      if s != [] { ValTop(s); }
      TopNonzero(u);
    }
  }

  /** The digit loops of m_sub and its scan for the top digit. */
  method SubDigits(aval: array<Short>, alen: nat, bval: array<Short>, blen: nat)
    returns (cval: array<Short>, clen: nat)
    requires blen <= alen <= aval.Length && blen <= bval.Length
    requires IsDigits(aval[..alen]) && IsDigits(bval[..blen])
    requires Val(aval[..alen]) >= Val(bval[..blen])
    ensures fresh(cval) && clen <= cval.Length && IsCanonical(cval[..clen])
    ensures Val(cval[..clen]) == Val(aval[..alen]) - Val(bval[..blen])
  {
    hide Val, Radix, Accounted;
    cval := new Short[alen];
    var x: Int32 := 0;
    var i := 0;
    ghost var (s, t) := (aval[..alen], bval[..blen]);
    AccountedStart(s);
    AccountedStart(t);
    assert cval[..i] == [];
    while i < blen
      invariant 0 <= i <= blen && -1 <= x <= 0
      invariant Accounted(cval[..i], x, Val(s[..i]) - Val(t[..i]))
      modifies cval
    {
      SubStep(cval[..i], s, t, i, x);
      var d: Int32, e: Int32 := aval[i], bval[i];
      assert d == s[i] && e == t[i];
      x := x + (d - e);
      cval[i] := x % 32768;
      x := x / 32768;
      i := i + 1;
      assert cval[..i] == cval[..i - 1] + [cval[i - 1]];
    }
    assert t[..i] == t;
    while i < alen
      invariant blen <= i <= alen && -1 <= x <= 0
      invariant Accounted(cval[..i], x, Val(s[..i]) - Val(t))
      modifies cval
    {
      ExtendStep(cval[..i], s, -Val(t), i, x);
      var d: Int32 := aval[i];
      assert d == s[i];
      x := x + d;
      cval[i] := x % 32768;
      x := x / 32768;
      i := i + 1;
      assert cval[..i] == cval[..i - 1] + [cval[i - 1]];
    }
    assert s[..i] == s;
    NoBorrow(cval[..i], x, Val(s) - Val(t));
    clen := Significant(cval, alen);
  }

  /** m_sub: the difference of two magnitudes, the larger one first. */
  method SubMagnitudes(a: MINT, b: MINT, c: MINT)
    requires a.Canonical() && b.Canonical()
    requires a.len >= 0 && b.len >= 0 == c.len && a.Value() >= b.Value()
    modifies c
    ensures (c.val == old(c.val) || fresh(c.val)) && c.Canonical() && c.len >= 0
    ensures c.Value() == old(a.Value() - b.Value())
  {
    hide Val, Radix;
    if a.len != b.len {
      LengthsDecide(a, b);
    }
    var cval, clen := SubDigits(a.val, a.len, b.val, b.len);
    c.len := clen;
    if clen != 0 {
      c.val := cval;
    }
    assert c.val[..clen] == cval[..clen];
  }

  /** The number of digits up to the most significant nonzero one: the scan that m_sub and
      mdiv run before they set a length. */
  method Significant(val: array<Short>, n: nat) returns (i: nat)
    requires n <= val.Length && IsDigits(val[..n])
    ensures i <= n && IsCanonical(val[..i]) && Val(val[..i]) == Val(val[..n])
  {
    i := n;
    while i > 0 && val[i - 1] == 0
      invariant i <= n && Val(val[..i]) == Val(val[..n])
    {
      ValPrefix(val[..], i - 1);
      i := i - 1;
    }
  }

  /** One column of m_sub's first loop. */
  lemma SubStep(u: seq<int>, s: seq<int>, t: seq<int>, i: nat, x: int)
    requires |u| == i < |s| && i < |t|
    requires Accounted(u, x, Val(s[..i]) - Val(t[..i]))
    ensures var y := x + (s[i] - t[i]);
      Accounted(u + [y % 32768], y / 32768, Val(s[..i + 1]) - Val(t[..i + 1]))
  {
    hide Val, Accounted;
    ValPrefix(s, i);
    ValPrefix(t, i);
    AccountedStep(u, x, Val(s[..i]) - Val(t[..i]), s[i] - t[i]);
    assert (s[i] - t[i]) * Radix(i) == s[i] * Radix(i) - t[i] * Radix(i);
  }

  /** A difference that is not negative leaves no borrow. */
  lemma NoBorrow(u: seq<int>, x: int, d: int)
    requires -1 <= x <= 0 <= d && Accounted(u, x, d)
    ensures IsDigits(u) && Val(u) == d
  {
    ValBound(u);
  }

  /** A copy of the record that shares the storage of a, as both entry points make. */
  method Share(a: MINT) returns (x: MINT)
    requires a.Canonical()
    ensures fresh(x) && x.len == a.len && x.val == a.val
    ensures x.Canonical() && x.Value() == a.Value()
  {
    x := new MINT();
    x.len := a.len;
    x.val := a.val;
  }

  /** madd */
  method Add(a: MINT, b: MINT, c: MINT)
    requires a.Canonical() && b.Canonical()
    modifies c
    ensures c.Canonical() && fresh(c.val)
    ensures c.Value() == old(a.Value()) + old(b.Value())
  {
    hide MINT.Value, MINT.Canonical, MINT.Valid;
    CanonicalSign(a);
    CanonicalSign(b);
    ghost var (av, bv) := (a.Value(), b.Value());
    var x := Share(a);
    var y := Share(b);
    var z := new MINT();
    var sign := 1;
    if x.len >= 0 {
      if y.len >= 0 {
        if x.len >= y.len {
          AddMagnitudes(x, y, z);
        } else {
          AddMagnitudes(y, x, z);
        }
      } else {
        y.Negate();
        var r := Compare(x, y);
        if r >= 0 {
          SubMagnitudes(x, y, z);
        } else {
          sign := -1;
          SubMagnitudes(y, x, z);
        }
      }
    } else if y.len <= 0 {
      x.Negate();
      y.Negate();
      sign := -1;
      if x.len >= y.len {
        AddMagnitudes(x, y, z);
      } else {
        AddMagnitudes(y, x, z);
      }
    } else {
      x.Negate();
      var r := Compare(y, x);
      if r >= 0 {
        SubMagnitudes(y, x, z);
      } else {
        sign := -1;
        SubMagnitudes(x, y, z);
      }
    }
    assert av + bv == if sign == 1 then z.Value() else -z.Value();
    Deliver(z, sign, c);
  }

  /** The end of every operation: the caller's record takes over the result. */
  method Deliver(z: MINT, sign: int, c: MINT)
    requires z != c && z.Canonical() && z.len >= 0 && (sign == 1 || sign == -1)
    modifies c
    ensures c.val == z.val && c.len == if sign == 1 then z.len else -z.len
    ensures c.Canonical() && c.Value() == if sign == 1 then z.Value() else -z.Value()
  {
    c.val := z.val;
    c.len := sign * z.len;
    ValEmpty();
  }

  /** msub */
  method Sub(a: MINT, b: MINT, c: MINT)
    requires a.Canonical() && b.Canonical()
    modifies c
    ensures c.Canonical() && fresh(c.val)
    ensures c.Value() == old(a.Value()) - old(b.Value())
  {
    hide MINT.Value, MINT.Canonical, MINT.Valid;
    CanonicalSign(a);
    CanonicalSign(b);
    ghost var (av, bv) := (a.Value(), b.Value());
    var x := Share(a);
    var y := Share(b);
    var z := new MINT();
    var sign := 1;
    if x.len >= 0 {
      if y.len >= 0 {
        var r := Compare(x, y);
        if r >= 0 {
          SubMagnitudes(x, y, z);
        } else {
          sign := -1;
          SubMagnitudes(y, x, z);
        }
      } else {
        y.Negate();
        if x.len >= y.len {
          AddMagnitudes(x, y, z);
        } else {
          AddMagnitudes(y, x, z);
        }
      }
    } else if y.len <= 0 {
      x.Negate();
      y.Negate();
      var r := Compare(y, x);
      if r >= 0 {
        SubMagnitudes(y, x, z);
      } else {
        sign := -1;
        SubMagnitudes(x, y, z);
      }
    } else {
      x.Negate();
      if x.len >= y.len {
        AddMagnitudes(x, y, z);
      } else {
        AddMagnitudes(y, x, z);
      }
      sign := -1;
    }
    assert av - bv == if sign == 1 then z.Value() else -z.Value();
    Deliver(z, sign, c);
  }
}
