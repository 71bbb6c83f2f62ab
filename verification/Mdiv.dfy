/** Mdiv.c: long division, Algorithm D of Knuth, The Art of Computer Programming,
    volume 2, section 4.3.1. */
module Mdiv {
  import opened Digits
  import opened Numbers
  import opened Mint
  import opened Mutil
  import opened Madd
  import opened Mfloat
  import opened Mout

  // ---- m_dsb

  /** What the low j digits of w and s contribute to w - q*s. */
  ghost function Difference(w: seq<int>, s: seq<int>, q: int, j: nat): int
    requires j <= |w| && j <= |s|
  {
    Val(w[..j]) - q * Val(s[..j])
  }

  /** Step D4: the window of n+1 digits of bb at off loses q times the n digits of aa.
      x is the top digit before it was cut to 15 bits, negative when a borrow is left. */
  method SubtractProduct(q: Int32, n: nat, aa: array<Short>, bb: array<Short>, off: nat)
    returns (x: Int32)
    requires aa != bb && n <= aa.Length && off + n < bb.Length && 0 <= q < 32768
    requires IsDigits(aa[..n]) && IsDigits(bb[off..off + n + 1])
    modifies bb
    ensures -32767 <= x < 32768 && bb[off + n] == x % 32768
    ensures Accounted(bb[off..off + n], x, old(Val(bb[off..off + n + 1])) - q * Val(aa[..n]))
    ensures bb[..off] == old(bb[..off]) && bb[off + n + 1..] == old(bb[off + n + 1..])
  {
    hide Val, Radix, Accounted, Difference;
    ghost var (s, g) := (aa[..n], bb[..]);
    ghost var w := g[off..off + n + 1];
    SubtractProductStart(w, s, q);
    x := 0;
    var j := 0;
    assert bb[off..off + j] == [] && w == bb[off..off + n + 1];
    while j < n
      invariant 0 <= j <= n && -32767 <= x <= 0
      invariant Accounted(bb[off..off + j], x, Difference(w, s, q, j))
      invariant bb[..off] == g[..off] && forall k | off + j <= k < bb.Length :: bb[k] == g[k]
    {
      SubtractProductStep(bb[off..off + j], w, s, q, j, x);
      var d: Int32, e: Int32 := bb[off + j], aa[j];
      assert d == g[off + j] == w[j] && e == s[j];
      DigitProduct(e, q);
      var p: Int32 := e * q;
      x := x + (d - p);
      bb[off + j] := x % 32768;
      x := x / 32768;
      j := j + 1;
      assert bb[off..off + j] == bb[off..off + j - 1] + [bb[off + j - 1]];
    }
    var d: Int32 := bb[off + n];
    assert d == g[off + n] == w[n];
    TopColumn(bb[off..off + n], w, s, q, x);
    x := x + d;
    bb[off + n] := x % 32768;
    assert bb[off + n + 1..] == g[off + n + 1..];
  }

  lemma SubtractProductStart(w: seq<int>, s: seq<int>, q: int)
    ensures Accounted([], 0, Difference(w, s, q, 0))
  {
    AccountedStart(w);
    AccountedStart(s);
  }

  lemma TopColumn(u: seq<int>, w: seq<int>, s: seq<int>, q: int, x: int)
    requires |u| == |s| && |w| == |s| + 1 && Accounted(u, x, Difference(w, s, q, |s|))
    ensures Accounted(u, x + w[|s|], Val(w) - q * Val(s))
  {
    hide Val, Radix, Accounted, Difference;
    WholeDifference(w, s, q);
    AccountedTop(u, x, Difference(w, s, q, |s|), w[|s|]);
  }

  lemma WholeDifference(w: seq<int>, s: seq<int>, q: int)
    requires |w| == |s| + 1
    ensures Difference(w, s, q, |s|) + w[|s|] * Radix(|s|) == Val(w) - q * Val(s)
  {
    hide Val, Radix;
    var n := |s|;
    assert s[..n] == s && w[..n + 1] == w;
    ValPrefix(w, n);
  }

  lemma Distribute(x: int, y: int, r: int)
    ensures (x + y) * r == x * r + y * r
  {
  }

  /** One column of step D4. */
  lemma SubtractProductStep(u: seq<int>, w: seq<int>, s: seq<int>, q: int, j: nat, x: int)
    requires |u| == j < |w| && j < |s|
    requires Accounted(u, x, Difference(w, s, q, j))
    ensures var y := x + (w[j] - s[j] * q);
      Accounted(u + [y % 32768], y / 32768, Difference(w, s, q, j + 1))
  {
    hide Val, Accounted;
    ValPrefix(w, j);
    ValPrefix(s, j);
    AccountedStep(u, x, Difference(w, s, q, j), w[j] - s[j] * q);
    ColumnOf(w[j], s[j], q, Val(s[..j]), Radix(j));
  }

  lemma ColumnOf(w: int, s: int, q: int, v: int, r: int)
    ensures (w - s * q) * r - q * v == w * r - q * (v + s * r)
  {
    assert (w - s * q) * r == w * r - (s * q) * r;
    assert q * (v + s * r) == q * v + q * (s * r);
    assert (s * q) * r == q * (s * r);
  }

  /** Step D6: aa is added to n digits of bb and the carry out of the top is dropped. */
  method AddBack(n: nat, aa: array<Short>, bb: array<Short>, off: nat)
    requires aa != bb && n <= aa.Length && off + n <= bb.Length
    requires IsDigits(aa[..n]) && IsDigits(bb[off..off + n])
    requires Radix(n) <= Val(bb[off..off + n]) + Val(aa[..n]) < 2 * Radix(n)
    modifies bb
    ensures IsDigits(bb[off..off + n])
    ensures Val(bb[off..off + n]) == old(Val(bb[off..off + n])) + Val(aa[..n]) - Radix(n)
    ensures bb[..off] == old(bb[..off]) && bb[off + n..] == old(bb[off + n..])
  {
    hide Val, Radix, Accounted;
    ghost var (s, g) := (aa[..n], bb[..]);
    ghost var w := g[off..off + n];
    AccountedStart(w);
    AccountedStart(s);
    var x: Int32 := 0;
    var j := 0;
    assert bb[off..off + j] == [] && w == bb[off..off + n];
    while j < n
      invariant 0 <= j <= n && 0 <= x <= 1
      invariant Accounted(bb[off..off + j], x, Val(w[..j]) + Val(s[..j]))
      invariant bb[..off] == g[..off] && forall k | off + j <= k < bb.Length :: bb[k] == g[k]
    {
      AddStep(bb[off..off + j], w, s, j, x);
      var d: Int32, e: Int32 := bb[off + j], aa[j];
      assert d == g[off + j] == w[j] && e == s[j];
      x := x + (d + e);
      bb[off + j] := x % 32768;
      x := x / 32768;
      j := j + 1;
      assert bb[off..off + j] == bb[off..off + j - 1] + [bb[off + j - 1]];
    }
    assert bb[off + n..] == g[off + n..];
    assert w[..n] == w && s[..n] == s;
    CarryOut(bb[off..off + n], x, Val(w) + Val(s));
  }

  lemma CarryOut(u: seq<int>, x: int, n: int)
    requires 0 <= x <= 1 && Accounted(u, x, n) && Radix(|u|) <= n < 2 * Radix(|u|)
    ensures IsDigits(u) && Val(u) == n - Radix(|u|)
  {
    ValBound(u);
  }

  /** m_dsb: replaces the window by its remainder when q is the true quotient or one more, and
      tells which. The digit above the remainder is left 0 or, after an add-back, 32767. */
  method MultiplySubtract(q: Int32, n: nat, aa: array<Short>, bb: array<Short>, off: nat)
    returns (added: Int32)
    requires aa != bb && n <= aa.Length && off + n < bb.Length && 0 <= q < 32768
    requires IsDigits(aa[..n]) && IsDigits(bb[off..off + n + 1])
    requires -Val(aa[..n]) <= Val(bb[off..off + n + 1]) - q * Val(aa[..n]) < Val(aa[..n])
    modifies bb
    ensures added == if old(Val(bb[off..off + n + 1])) < q * Val(aa[..n]) then 1 else 0
    ensures Val(bb[off..off + n]) == old(Val(bb[off..off + n + 1])) - (q - added) * Val(aa[..n])
    ensures IsDigits(bb[off..off + n]) && bb[off + n] == 32767 * added
    ensures bb[..off] == old(bb[..off]) && bb[off + n + 1..] == old(bb[off + n + 1..])
  {
    hide Val, Radix, Accounted;
    ghost var d := Val(bb[off..off + n + 1]) - q * Val(aa[..n]);
    var x := SubtractProduct(q, n, aa, bb, off);
    TopDigitAfter(bb[off..off + n], x, d, aa[..n]);
    if x / 32768 == 0 {
      return 0;
    }
    AddBack(n, aa, bb, off);
    assert (q - 1) * Val(aa[..n]) == q * Val(aa[..n]) - Val(aa[..n]);
    return 1;
  }

  /** The signed top digit tells whether the difference d is negative. */
  lemma TopDigitAfter(u: seq<int>, x: int, d: int, v: seq<int>)
    requires IsDigits(v) && |v| == |u| && -Val(v) <= d < Val(v) && Accounted(u, x, d)
    ensures d >= 0 ==> x == 0 && Val(u) == d
    ensures d < 0 ==> x == -1 && Val(u) == d + Radix(|u|)
    ensures IsDigits(u) && Val(v) < Radix(|u|)
  {
    hide Val, Radix;
    ValBound(u);
    ValBound(v);
    if x >= 1 {
      MulLe(1, x, Radix(|u|));
    } else if x <= -2 {
      MulLe(x, -2, Radix(|u|));
    }
  }

  lemma DigitProduct(d: int, e: int)
    requires 0 <= d < 32768 && 0 <= e < 32768
    ensures 0 <= d * e <= 32767 * 32767
  {
    MulLe(0, d, e);
    MulLe(d, 32767, e);
  }

  // ---- step D3

  /** The window of the dividend and the divisor, split into the digits that step D3 looks at
      and the rest: p is the weight of the lowest of those digits. */
  datatype Estimate = Estimate(u0: int, u1: int, u2: int, ulow: int, v1: int, v2: int, vlow: int, p: int) {
    ghost predicate Valid() {
      && p > 0 && 0 <= ulow < p && 0 <= vlow < p
      && 0 <= u0 < 32768 && 0 <= u1 < 32768 && 0 <= u2 < 32768
      && 16384 <= v1 < 32768 && 0 <= v2 < 32768
      && Window() < 32768 * Divisor()
    }

    ghost function Top3(): int { 1073741824 * u0 + 32768 * u1 + u2 }

    ghost function Top2(): int { 32768 * v1 + v2 }

    ghost function Window(): int { Top3() * p + ulow }

    ghost function Divisor(): int { Top2() * p + vlow }
  }

  /** The top digit of a live window cannot exceed that of the divisor. */
  lemma TopDigitBound(e: Estimate)
    requires e.Valid()
    ensures e.u0 <= e.v1
  {
    var t := 32768 * e.Top2();
    assert (t + 32768) * e.p == 32768 * (e.Top2() * e.p) + 32768 * e.p;
    if e.u0 >= e.v1 + 1 {
      MulLe(t + 32768, e.Top3(), e.p);
      assert false;
    }
  }

  /** The first guess is never too small. */
  lemma FirstGuess(e: Estimate, g: int)
    requires e.Valid()
    requires if e.u0 == e.v1 then g == 32767
             else g >= 0 && g * e.v1 <= 32768 * e.u0 + e.u1 < (g + 1) * e.v1
    ensures e.Window() < (g + 1) * e.Divisor()
    ensures 0 <= g < 32768
  {
    TopDigitBound(e);
    if e.u0 != e.v1 {
      if g >= 32768 {
        MulLe(32768, g, e.v1);
        assert false;
      }
      var h := g + 1;
      var t := 32768 * (h * e.v1);
      assert e.Top3() + 1 <= t;
      MulLe(e.Top3() + 1, t, e.p);
      assert h * e.Top2() == t + h * e.v2 by {
        assert h * (32768 * e.v1 + e.v2) == h * (32768 * e.v1) + h * e.v2;
      }
      Scale(h, e.Top2(), e.p, e.vlow);
      MulLe(0, h, e.v2);
      MulLe(0, h, e.vlow);
      MulLe(t, h * e.Top2(), e.p);
      assert (e.Top3() + 1) * e.p == e.Top3() * e.p + e.p;
    }
  }

  lemma Scale(g: int, t: int, p: int, low: int)
    ensures g * (t * p + low) == (g * t) * p + g * low
  {
    assert g * (t * p) == (g * t) * p;
  }

  /** While the three leading digits expose a guess as too large, it is at least one too large. */
  lemma ExposedGuess(e: Estimate, g: int)
    requires e.Valid() && g >= 0 && e.Top3() < g * e.Top2()
    ensures e.Window() < g * e.Divisor()
  {
    MulLe(e.Top3() + 1, g * e.Top2(), e.p);
    assert (e.Top3() + 1) * e.p == e.Top3() * e.p + e.p;
    Scale(g, e.Top2(), e.p, e.vlow);
    MulLe(0, g, e.vlow);
  }

  /** A guess that they no longer expose is at most one too large. */
  lemma UnexposedGuess(e: Estimate, g: int)
    requires e.Valid() && 0 <= g < 32768 && g * e.Top2() <= e.Top3()
    ensures (g - 1) * e.Divisor() <= e.Window()
  {
    MulLe(g * e.Top2(), e.Top3(), e.p);
    Scale(g, e.Top2(), e.p, e.vlow);
    MulLe(g, 32768, e.vlow);
    MulLe(32768, e.Top2(), e.p);
    assert (g - 1) * e.Divisor() == g * e.Divisor() - e.Divisor();
  }

  /** Two corrections always suffice. */
  lemma CorrectedGuess(e: Estimate, g: int, j: int)
    requires e.Valid() && 0 <= g < 32768
    requires e.Window() < (g + 1) * e.Divisor()
    requires j == e.Top3() - g * e.Top2() >= -32767 * 32767
    ensures var r := if j >= 0 then g else if j + e.Top2() >= 0 then g - 1 else g - 2;
      0 <= r < 32768 && (r - 1) * e.Divisor() <= e.Window() < (r + 1) * e.Divisor()
  {
    hide Estimate.Window, Estimate.Divisor;
    assert (g - 1) * e.Top2() == g * e.Top2() - e.Top2();
    assert (g - 2) * e.Top2() == g * e.Top2() - 2 * e.Top2();
    if j >= 0 {
      UnexposedGuess(e, g);
    } else {
      ExposedGuess(e, g);
      assert g > 0;
      if j + e.Top2() >= 0 {
        UnexposedGuess(e, g - 1);
      } else {
        ExposedGuess(e, g - 1);
        assert g > 1;
        UnexposedGuess(e, g - 2);
      }
    }
  }

  /** Step D3: the guess for one quotient digit, with at most two corrections. */
  method Guess(ghost e: Estimate, u0: Int32, u1: Int32, u2: Int32, v1: Int32, v2: Int32)
    returns (qhat: Int32)
    requires e.Valid() && u0 == e.u0 && u1 == e.u1 && u2 == e.u2 && v1 == e.v1 && v2 == e.v2
    ensures 0 <= qhat < 32768
    ensures (qhat - 1) * e.Divisor() <= e.Window() < (qhat + 1) * e.Divisor()
  {
    hide Estimate.Valid, Estimate.Window, Estimate.Divisor;
    EstimateRanges(e);
    TopDigitBound(e);
    var uj01: Int32 := u0 * 32768;
    uj01 := uj01 + u1;
    qhat := if u0 == v1 then 32767 else uj01 / v1;
    if u0 != v1 {
      DivisionStep(uj01, v1);
    }
    FirstGuess(e, qhat);
    RemainderRange(u0, u1, v1, v2, qhat);
    var p1: Int32 := qhat * v1;
    var p2: Int32 := qhat * v2;
    var j: Int32 := uj01 - p1;
    j := j * 32768;
    j := j + u2;
    j := j - p2;
    var v12: Int32 := v1 * 32768;
    v12 := v12 + v2;
    assert j == e.Top3() - qhat * e.Top2() by {
      DistributeGuess(qhat, v1, v2);
    }
    CorrectedGuess(e, qhat, j);
    if j < 0 {
      qhat := qhat - 1;
      j := j + v12;
      if j < 0 {
        qhat := qhat - 1;
      }
    }
  }

  lemma DistributeGuess(q: int, v1: int, v2: int)
    ensures q * (32768 * v1 + v2) == 32768 * (q * v1) + q * v2
  {
  }

  lemma EstimateRanges(e: Estimate)
    requires e.Valid()
    ensures 0 <= e.u0 < 32768 && 0 <= e.u1 < 32768 && 0 <= e.u2 < 32768
    ensures 16384 <= e.v1 < 32768 && 0 <= e.v2 < 32768
  {
  }

  lemma DivisionStep(u: int, v: int)
    requires u >= 0 && v > 0
    ensures 0 <= u / v && (u / v) * v <= u < (u / v + 1) * v
  {
    assert u == (u / v) * v + u % v;
    assert (u / v + 1) * v == (u / v) * v + v;
  }

  /** The partial remainder u01 - qhat*v1 is below 2^16 - 1, also when the top digits are equal. */
  lemma RemainderRange(u0: int, u1: int, v1: int, v2: int, q: int)
    requires 0 <= u0 <= v1 && 0 <= u1 < 32768 && 16384 <= v1 < 32768 && 0 <= v2 < 32768 && 0 <= q < 32768
    requires if u0 == v1 then q == 32767 else q * v1 <= 32768 * u0 + u1 < (q + 1) * v1
    ensures 0 <= 32768 * u0 + u1 - q * v1 <= 65534
    ensures 0 <= q * v2 <= 32767 * 32767 && 0 <= q * v1 <= 32767 * 32767
  {
    DigitProduct(q, v2);
    DigitProduct(q, v1);
    assert (q + 1) * v1 == q * v1 + v1;
  }

  // ---- the quotient loop

  /** The live-window invariant: with the quotient digits from i up found, u is that part of the
      quotient times v, moved up i digits, plus a rest below v moved up i digits. */
  ghost predicate Divided(u: int, v: int, q: int, rest: int, i: nat) {
    u == q * (v * Radix(i)) + rest && 0 <= rest < v * Radix(i)
  }

  /** One quotient digit: low are the digits below the window w. */
  lemma DividedStep(u: int, v: int, q: int, rest: int, i: nat, low: int, w: int, d: int)
    requires Divided(u, v, q, rest, i + 1) && rest == low + Radix(i) * w
    requires 0 <= low < Radix(i) && 0 <= w - d * v < v
    ensures Divided(u, v, d + 32768 * q, low + Radix(i) * (w - d * v), i)
  {
    hide Radix;
    RadixNext(i);
    var r := Radix(i);
    assert Radix(i + 1) == 32768 * r;
    assert q * (v * (32768 * r)) == (32768 * q) * (v * r);
    assert (d + 32768 * q) * (v * r) == d * (v * r) + (32768 * q) * (v * r);
    assert r * (w - d * v) == r * w - d * (v * r);
    MulLe(0, w - d * v, r);
    MulLe(w - d * v + 1, v, r);
    assert (w - d * v + 1) * r == r * (w - d * v) + r;
  }

  /** The live window is below 2^15 times the divisor. */
  lemma WindowBound(u: int, v: int, q: int, rest: int, i: nat, low: int, w: int)
    requires Divided(u, v, q, rest, i + 1) && rest == low + Radix(i) * w && low >= 0
    ensures w < 32768 * v
  {
    hide Radix;
    RadixNext(i);
    var r := Radix(i);
    assert v * (32768 * r) == (32768 * v) * r;
    if w >= 32768 * v {
      MulLe(32768 * v, w, r);
      assert false;
    }
  }

  lemma QuotientDigitRange(w: int, v: int, d: int)
    requires w >= 0 && v > 0 && 0 <= w - d * v < v
    ensures d >= 0
  {
    if d < 0 {
      MulLe(d, -1, v);
    }
  }

  /** The digits that step D3 looks at, picked out of a window and a divisor. */
  ghost function EstimateOf(w: seq<int>, v: seq<int>): (e: Estimate)
    requires |v| >= 2 && |w| == |v| + 1
  {
    var n := |v|;
    Estimate(w[n], w[n - 1], w[n - 2], Val(w[..n - 2]), v[n - 1], v[n - 2], Val(v[..n - 2]), Radix(n - 2))
  }

  lemma EstimateOfWindow(w: seq<int>, v: seq<int>)
    requires |v| >= 2 && |w| == |v| + 1 && IsDigits(w) && IsDigits(v) && v[|v| - 1] >= 16384
    requires Val(w) < 32768 * Val(v)
    ensures var e := EstimateOf(w, v);
      e.Valid() && e.Window() == Val(w) && e.Divisor() == Val(v)
  {
    hide Val, Radix;
    var n := |v|;
    var e := EstimateOf(w, v);
    ValBound(w[..n - 2]);
    ValBound(v[..n - 2]);
    TopDigits(v, n - 2);
    TopDigits(w, n - 2);
    ValPrefix(w, n);
    assert w[..n + 1] == w && v[..n] == v;
    RadixNext(n - 2);
    RadixNext(n - 1);
    Distribute(1073741824 * w[n], 32768 * w[n - 1] + w[n - 2], Radix(n - 2));
    MulAssoc(w[n], 1073741824, Radix(n - 2));
  }

  lemma TopDigits(s: seq<int>, k: nat)
    requires k + 2 <= |s|
    ensures Val(s[..k + 2]) == (32768 * s[k + 1] + s[k]) * Radix(k) + Val(s[..k])
  {
    hide Val, Radix;
    ValPrefix(s, k);
    ValPrefix(s, k + 1);
    RadixNext(k);
  }

  /** Steps D2 to D7: leaves the remainder in the low digits of u. */
  method DivideDigits(uval: array<Short>, alen: nat, vval: array<Short>, blen: nat)
    returns (qval: array<Short>)
    requires uval != vval && 2 <= blen <= alen < uval.Length && blen <= vval.Length
    requires IsDigits(uval[..alen + 1]) && IsDigits(vval[..blen]) && vval[blen - 1] >= 16384
    requires Val(uval[..alen + 1]) < Val(vval[..blen]) * Radix(alen - blen + 1)
    modifies uval
    ensures fresh(qval) && qval.Length == alen - blen + 1 && IsDigits(qval[..])
    ensures IsDigits(uval[..blen]) && Val(uval[..blen]) < Val(vval[..blen])
    ensures old(Val(uval[..alen + 1])) == Val(qval[..]) * Val(vval[..blen]) + Val(uval[..blen])
  {
    hide Val, Radix, Divided;
    var qlen := alen - blen + 1;
    qval := new Short[qlen];
    ghost var (u, v) := (Val(uval[..alen + 1]), Val(vval[..blen]));
    var i := qlen;
    StartDivision(uval[..alen + 1], vval[..blen], qval[i..], qlen);
    while i > 0
      invariant 0 <= i <= qlen
      invariant IsDigits(uval[..i + blen]) && IsDigits(qval[i..])
      invariant Divided(u, v, Val(qval[i..]), Val(uval[..i + blen]), i)
      modifies uval, qval
    {
      i := i - 1;
      var digit := DivideStep(uval, vval, blen, i, u, Val(qval[i + 1..]));
      qval[i] := digit;
      assert qval[i..] == [digit] + qval[i + 1..];
      ValPush(digit, qval[i + 1..]);
    }
    FinishDivision(u, v, Val(qval[0..]), Val(uval[..blen]));
    assert qval[0..] == qval[..] && uval[..0 + blen] == uval[..blen];
  }

  lemma StartDivision(u: seq<int>, v: seq<int>, q: seq<int>, n: nat)
    requires IsDigits(u) && Val(u) < Val(v) * Radix(n) && q == []
    ensures Divided(Val(u), Val(v), Val(q), Val(u), n)
  {
    ValBound(u);
  }

  lemma FinishDivision(u: int, v: int, q: int, rest: int)
    requires Divided(u, v, q, rest, 0)
    ensures u == q * v + rest && 0 <= rest < v
  {
  }

  /** Steps D3 to D6 for the digit of weight i. */
  method DivideStep(uval: array<Short>, vval: array<Short>, blen: nat, i: nat, ghost u: int, ghost q: int)
    returns (digit: Int32)
    requires uval != vval && 2 <= blen <= vval.Length && i + blen < uval.Length
    requires IsDigits(uval[..i + 1 + blen]) && IsDigits(vval[..blen]) && vval[blen - 1] >= 16384
    requires Divided(u, Val(vval[..blen]), q, Val(uval[..i + 1 + blen]), i + 1)
    modifies uval
    ensures 0 <= digit < 32768 && IsDigits(uval[..i + blen])
    ensures Divided(u, Val(vval[..blen]), digit + 32768 * q, Val(uval[..i + blen]), i)
  {
    hide Val, Radix, Divided, Estimate.Valid, Estimate.Window, Estimate.Divisor, EstimateOf;
    ghost var (s, v) := (uval[..i + 1 + blen], vval[..blen]);
    ghost var (low, w) := (s[..i], s[i..]);
    ValSplit(s, i);
    ValBound(low);
    ValBound(w);
    WindowBound(u, Val(v), q, Val(s), i, Val(low), Val(w));
    EstimateOfWindow(w, v);
    DigitsOf(w, v);
    var v1: Int32, v2: Int32 := vval[blen - 1], vval[blen - 2];
    var uj := i + blen;
    var u0: Int32, u1: Int32, u2: Int32 := uval[uj], uval[uj - 1], uval[uj - 2];
    assert u0 == w[blen] && u1 == w[blen - 1] && u2 == w[blen - 2];
    digit := Guess(EstimateOf(w, v), u0, u1, u2, v1, v2);
    assert uval[i..i + blen + 1] == w;
    GuessedDigit(Val(w), Val(v), digit);
    var added := MultiplySubtract(digit, blen, vval, uval, i);
    digit := digit - added;
    ghost var t := uval[..i + blen];
    assert t[..i] == uval[..i] == low && t[i..] == uval[i..i + blen];
    ValSplit(t, i);
    assert IsDigits(t) by {
      assert t == low + uval[i..i + blen];
    }
    DigitChoice(Val(w), Val(v), digit, added);
    DividedStep(u, Val(v), q, Val(s), i, Val(low), Val(w), digit);
    QuotientDigitRange(Val(w), Val(v), digit);
  }

  lemma DigitsOf(w: seq<int>, v: seq<int>)
    requires |v| >= 2 && |w| == |v| + 1
    ensures var (e, n) := (EstimateOf(w, v), |v|);
      e.u0 == w[n] && e.u1 == w[n - 1] && e.u2 == w[n - 2] && e.v1 == v[n - 1] && e.v2 == v[n - 2]
  {
  }

  lemma GuessedDigit(w: int, v: int, g: int)
    requires (g - 1) * v <= w < (g + 1) * v
    ensures -v <= w - g * v < v
  {
    assert (g - 1) * v == g * v - v && (g + 1) * v == g * v + v;
  }

  lemma DigitChoice(w: int, v: int, d: int, added: int)
    requires added == if w < (d + added) * v then 1 else 0
    requires -v <= w - (d + added) * v < v
    ensures 0 <= w - d * v < v
  {
    assert (d + added) * v == d * v + added * v;
  }

  // ---- normalisation

  /** Step D1's shift: it moves the top bit of the divisor's top digit to bit 14. */
  method TopShift(top: Int32) returns (j: Int32)
    requires 0 < top < 32768
    ensures 0 <= j <= 14 && 16384 <= Shl(top, j) < 32768
  {
    hide Power;
    var v1: Int32 := top / 2;
    j := 14;
    ghost var k := 0;
    ShiftByNothing(top);
    HalveOnce(top);
    while v1 != 0
      invariant 0 <= v1 && k >= 0 && j == 14 - k
      invariant Power(2, k) <= top && v1 == top / Power(2, k + 1)
    {
      HalveAgain(top, k + 1);
      TopBitBound(top, k + 1);
      j := j - 1;
      v1 := v1 / 2;
      k := k + 1;
    }
    TopBitBound(top, k);
    NormalTop(top, k);
  }

  lemma HalveOnce(d: int)
    requires d > 0
    ensures Power(2, 0) <= d && Power(2, 1) == 2
  {
    assert Power(2, 1) == 2 * Power(2, 0);
  }

  lemma TopBitBound(top: int, k: nat)
    requires Power(2, k) <= top < 32768
    ensures k <= 14
  {
    if k >= 15 {
      PowerMonotone(2, 15, k);
      Power2Of15();
    }
  }

  lemma NormalTop(top: int, k: nat)
    requires k <= 14 && Power(2, k) <= top && top / Power(2, k + 1) == 0
    ensures 16384 <= Shl(top, 14 - k) < 32768
  {
    hide Power;
    PowerAdd(2, k, 14 - k);
    Power2Of15();
    NextPower(k);
    BetweenPowers(top, Power(2, k), Power(2, 14 - k));
  }

  lemma NextPower(k: nat)
    ensures Power(2, k + 1) == 2 * Power(2, k)
  {
  }

  lemma BetweenPowers(top: int, p: int, s: int)
    requires p > 0 && s > 0 && p * s == 16384 && p <= top && top / (2 * p) == 0
    ensures 16384 <= top * s < 32768
  {
    assert top == (top / (2 * p)) * (2 * p) + top % (2 * p);
    MulLe(p, top, s);
    MulLe(top + 1, 2 * p, s);
    MulAssoc(2, p, s);
    assert (top + 1) * s == top * s + s;
  }

  /** A divisor whose top digit times 2^j reaches 2^14 has, once shifted, such a top digit. */
  lemma ShiftedTop(s: seq<int>, t: seq<int>, j: nat)
    requires IsDigits(s) && IsDigits(t) && |s| == |t| > 0
    requires Val(t) == Shl(Val(s), j) && Shl(s[|s| - 1], j) >= 16384
    ensures t[|t| - 1] >= 16384
  {
    hide Val, Radix, Power;
    var (n, lo) := (|s| - 1, Power(2, j));
    TopDigitTimes(s);
    ValPrefix(t, n);
    ValBound(t[..n]);
    assert t[..n + 1] == t;
    var r := Radix(n);
    MulLe(s[n] * r, Val(s), lo);
    MulAssoc(s[n], r, lo);
    MulAssoc(s[n], lo, r);
    MulLe(16384, s[n] * lo, r);
    assert (t[n] + 1) * r == t[n] * r + r;
    if t[n] < 16384 {
      MulLe(t[n] + 1, 16384, r);
      assert false;
    }
  }

  /** The first window is live: the quotient has at most alen - blen + 1 digits. */
  lemma FirstWindow(s: seq<int>, t: seq<int>, j: nat)
    requires IsDigits(s) && IsDigits(t) && t != [] && t[|t| - 1] != 0 && |t| <= |s|
    ensures Shl(Val(s), j) < Shl(Val(t), j) * Radix(|s| - |t| + 1)
  {
    hide Val, Radix, Power;
    var (k, p) := (|s| - |t| + 1, Power(2, j));
    ValBound(s);
    ValTop(t);
    RadixAdd(|t| - 1, k);
    MulLe(Radix(|t| - 1), Val(t), Radix(k));
    StrictProduct(Val(s), Val(t) * Radix(k), p);
    assert (Val(t) * Radix(k)) * p == (Val(t) * p) * Radix(k);
  }

  lemma StrictProduct(x: int, y: int, p: int)
    requires x < y && p > 0
    ensures x * p < y * p
  {
  }

  /** Step D1: u becomes the dividend with one more digit, v shares the divisor's storage, and
      both are shifted so that the divisor's top digit is at least 2^14. */
  method Normalize(a: MINT, b: MINT) returns (u: MINT, v: MINT, shift: Int32)
    requires a.Canonical() && b.Canonical() && 2 <= b.Size() <= a.Size()
    modifies b.val
    ensures fresh(u) && fresh(v) && fresh(u.val) && u.val != b.val && u != v
    ensures u.len == a.Size() + 1 && v.len == b.Size() && v.val == b.val
    ensures u.Valid() && v.Canonical() && v.val[v.len - 1] >= 16384 && 0 <= shift <= 14
    ensures Val(u.val[..u.len]) == Shl(old(a.Magnitude()), shift)
    ensures Val(v.val[..v.len]) == Shl(old(b.Magnitude()), shift)
    ensures Val(u.val[..u.len]) < Val(v.val[..v.len]) * Radix(a.Size() - b.Size() + 1)
  {
    hide Val, Radix, Shl;
    ghost var (s, t) := (a.val[..a.Size()], b.val[..b.Size()]);
    u := LongerCopy(a);
    v := new MINT();
    v.val := b.val;
    v.len := if b.len < 0 then -b.len else b.len;
    assert v.val[..v.len] == t;
    assert b.val[v.len - 1] == t[|t| - 1];
    shift := TopShift(b.val[v.len - 1]);
    ShiftOfZeroDigit(shift);
    FirstWindow(s, t, shift);
    ShiftLeft(u, shift);
    ShiftDivisor(v, shift);
  }

  method LongerCopy(a: MINT) returns (u: MINT)
    requires a.Canonical()
    ensures fresh(u) && fresh(u.val) && u.len == a.Size() + 1 && u.Valid()
    ensures u.val[u.len - 1] == 0 && u.Magnitude() == a.Magnitude()
  {
    hide Val, Radix;
    var alen := if a.len < 0 then -a.len else a.len;
    u := new MINT();
    u.val := CopyLonger(a.val, alen);
    u.len := alen + 1;
    ghost var w := u.val[..alen + 1];
    ValPrefix(w, alen);
    assert w[..alen] == a.val[..alen] && w[..alen + 1] == w;
  }

  method ShiftDivisor(v: MINT, shift: Int32)
    requires v.Canonical() && v.len > 0
    requires 0 <= shift <= 14 && 16384 <= Shl(v.val[v.len - 1], shift) < 32768
    modifies v, v.val
    ensures v.len == old(v.len) && v.val == old(v.val) && v.Valid() && v.val[v.len - 1] >= 16384
    ensures v.Magnitude() == Shl(old(v.Magnitude()), shift)
  {
    hide Val, Shl;
    ghost var t := v.val[..v.len];
    assert t[|t| - 1] == v.val[v.len - 1];
    ShiftLeft(v, shift);
    ShiftedTop(t, v.val[..v.len], shift);
  }

  lemma ShiftOfZeroDigit(j: nat)
    ensures Shl(0, j) == 0
  {
  }

  method CopyLonger(av: array<Short>, alen: nat) returns (uv: array<Short>)
    requires alen <= av.Length
    ensures fresh(uv) && uv.Length == alen + 1
    ensures uv[..alen] == av[..alen] && uv[alen] == 0
  {
    uv := new Short[alen + 1];
    uv[alen] := 0;
    var j := 0;
    while j < alen
      invariant 0 <= j <= alen && uv[..j] == av[..j] && uv[alen] == 0
      modifies uv
    {
      uv[j] := av[j];
      j := j + 1;
    }
  }

  /** Step D8 on the dividend: the low digits that are left become the remainder. */
  method Unnormalize(u: MINT, blen: nat, shift: Int32)
    requires 0 <= shift <= 14 && blen <= u.val.Length && IsDigits(u.val[..blen])
    modifies u, u.val
    ensures u.Canonical() && u.len >= 0 && u.Value() == Shr(old(Val(u.val[..blen])), shift)
    ensures u.val == old(u.val) || fresh(u.val)
  {
    hide Val, Shr;
    ShiftByNothing(Val(u.val[..blen]));
    var j := Significant(u.val, blen);
    u.len := j;
    ShiftRight(u, shift);
  }

  /** Step D8 on the divisor: every digit is as it was before step D1. */
  method Restore(v: MINT, shift: Int32, ghost t: seq<int>)
    requires 0 <= shift <= 14 && v.Canonical() && v.len == |t| && IsCanonical(t)
    requires v.Magnitude() == Shl(Val(t), shift)
    modifies v, v.val
    ensures old(v.val)[..|t|] == t
  {
    hide Val, Shl, Shr;
    ghost var val := v.val;
    ShiftRight(v, shift);
    ShiftRoundTrip(Val(t), shift);
    CanonicalUnique(v.val[..v.Size()], t);
    ValEmpty();
  }

  // ---- mdiv

  /** Division truncated towards zero: the remainder is smaller than the divisor and has the
      sign of the dividend. */
  ghost predicate Truncated(a: int, b: int, q: int, r: int) {
    && a == q * b + r
    && -Abs(b) < r < Abs(b)
    && (r > 0 ==> a > 0) && (r < 0 ==> a < 0)
  }

  /** The results of a division are determined by its operands. */
  lemma TruncatedUnique(a: int, b: int, q: int, r: int, q': int, r': int)
    requires Truncated(a, b, q, r) && Truncated(a, b, q', r')
    ensures q == q' && r == r'
  {
    assert (q - q') * b == q * b - q' * b;
    if q != q' {
      MultipleTooLarge(q - q', b);
    }
  }

  lemma MultipleTooLarge(k: int, b: int)
    requires k != 0
    ensures k * b >= Abs(b) || k * b <= -Abs(b)
  {
    var c := Abs(b);
    assert k * b == if b < 0 then -(k * c) else k * c by {
      assert k * (-c) == -(k * c);
    }
    if k > 0 {
      MulLe(1, k, c);
    } else {
      MulLe(k, -1, c);
    }
  }

  /** Dividing the shifted operands gives the quotient, and the shifted remainder. */
  lemma UnshiftedDivision(a: int, b: int, q: int, rest: int, j: nat)
    requires a >= 0 && b >= 0 && Shl(a, j) == q * Shl(b, j) + rest && 0 <= rest < Shl(b, j)
    ensures a == q * b + Shr(rest, j) && 0 <= Shr(rest, j) < b && q >= 0
  {
    hide Power;
    var p := Power(2, j);
    var r := a - q * b;
    assert q * (b * p) == (q * b) * p;
    assert rest == r * p by {
      assert (a - q * b) * p == a * p - (q * b) * p;
    }
    DivModUnique(rest, p, r, 0);
    if r < 0 {
      MulLe(r, -1, p);
    } else if r >= b {
      MulLe(b, r, p);
    }
    if q < 0 {
      MulLe(q, -1, b);
    }
  }

  /** A quotient has no two leading zeros. */
  lemma LongQuotientLength(s: seq<int>, t: seq<int>, q: seq<int>, r: int)
    requires IsCanonical(s) && IsCanonical(t) && s != [] && 0 < |t| <= |s|
    requires IsDigits(q) && |q| == |s| - |t| + 1
    requires Val(s) == Val(q) * Val(t) + r && 0 <= r < Val(t)
    ensures var k := if q[|q| - 1] == 0 then |q| - 1 else |q|;
      IsCanonical(q[..k]) && Val(q[..k]) == Val(q)
  {
    hide Val, Radix;
    var k := |q| - 1;
    assert q[..k + 1] == q;
    if q[k] == 0 {
      ValPrefix(q, k);
      if k > 0 {
        QuotientReaches(s, t, Val(q), r, k);
        TopNonzero(q[..k]);
      }
    }
  }

  lemma QuotientReaches(s: seq<int>, t: seq<int>, q: int, r: int, k: nat)
    requires IsCanonical(s) && IsCanonical(t) && k > 0 && |s| == |t| + k
    requires Val(s) == q * Val(t) + r && 0 <= r < Val(t)
    ensures q >= Radix(k - 1)
  {
    hide Val, Radix;
    ValTop(s);
    ValBound(t);
    RadixAdd(k - 1, |t|);
    QuotientAtLeast(Val(s), Val(t), q, r, Radix(k - 1), Radix(|t|));
  }

  lemma QuotientAtLeast(a: int, b: int, q: int, r: int, x: int, y: int)
    requires a == q * b + r && 0 <= r < b < y && a >= x * y && x > 0
    ensures q >= x
  {
    assert (q + 1) * b == q * b + b;
    if q < x {
      MulLe(q + 1, x, b);
      MulLe(b, y, x);
      assert false;
    }
  }

  /** Steps D1 to D8 on the magnitudes. The divisor's storage is shifted and, if keep, shifted back. */
  method LongDivide(a: MINT, b: MINT, keep: bool)
    returns (qval: array<Short>, qlen: nat, u: MINT)
    requires a.Canonical() && b.Canonical() && 2 <= b.Size() <= a.Size() && Apart(a, b)
    modifies b.val
    ensures fresh(qval) && qlen <= qval.Length && IsCanonical(qval[..qlen])
    ensures fresh(u) && u.Canonical() && u.len >= 0 && fresh(u.val)
    ensures u.Value() >= 0
    ensures Truncated(old(a.Magnitude()), old(b.Magnitude()), Val(qval[..qlen]), u.Value())
    ensures keep ==> b.val[..b.Size()] == old(b.val[..b.Size()])
    ensures keep ==> b.Canonical() && b.Value() == old(b.Value())
  {
    hide Val, Radix, Shl, Shr, Truncated;
    ghost var (s, t) := (a.val[..a.Size()], b.val[..b.Size()]);
    var v, shift;
    u, v, shift := Normalize(a, b);
    var alen, blen := u.len - 1, v.len;
    qval := DivideDigits(u.val, alen, v.val, blen);
    LongDivisionResult(s, t, qval[..], u.val[..blen], shift);
    Unnormalize(u, blen, shift);
    if keep {
      Restore(v, shift, t);
    }
    qlen := alen - blen + 1;
    if qval[qlen - 1] == 0 {
      qlen := qlen - 1;
    }
    assert qval[..][..qlen] == qval[..qlen];
  }

  lemma LongDivisionResult(s: seq<int>, t: seq<int>, q: seq<int>, rest: seq<int>, j: nat)
    requires IsCanonical(s) && IsCanonical(t) && s != [] && 0 < |t| <= |s|
    requires IsDigits(q) && |q| == |s| - |t| + 1 && IsDigits(rest)
    requires Shl(Val(s), j) == Val(q) * Shl(Val(t), j) + Val(rest) && Val(rest) < Shl(Val(t), j)
    ensures Truncated(Val(s), Val(t), Val(q), Shr(Val(rest), j)) && 0 <= Shr(Val(rest), j)
    ensures var k := if q[|q| - 1] == 0 then |q| - 1 else |q|;
      IsCanonical(q[..k]) && Val(q[..k]) == Val(q)
  {
    hide Val, Radix, Shl, Shr, Truncated;
    ValBound(rest);
    ValBound(s);
    ValBound(t);
    UnshiftedDivision(Val(s), Val(t), Val(q), Val(rest), j);
    FloorDivision(Val(s), Val(t), Val(q), Shr(Val(rest), j));
    LongQuotientLength(s, t, q, Shr(Val(rest), j));
  }

  lemma FloorDivision(a: int, b: int, q: int, r: int)
    requires a == q * b + r && 0 <= r < b && q >= 0
    ensures Truncated(a, b, q, r)
  {
    MulLe(0, q, b);
  }

  lemma SignedDivision(a: int, b: int, q: int, r: int, aneg: bool, bneg: bool)
    requires a == q * b + r && 0 <= r < b && a >= 0 && q >= 0
    ensures Truncated(if aneg then -a else a, if bneg then -b else b,
                      if aneg != bneg then -q else q, if aneg then -r else r)
  {
    assert (-q) * b == -(q * b) && q * (-b) == -(q * b) && (-q) * (-b) == q * b;
    MulLe(0, q, b);
  }

  lemma SignedTruncation(a: int, b: int, q: int, r: int, aneg: bool, bneg: bool)
    requires Truncated(a, b, q, r) && a >= 0 && b > 0 && r >= 0
    ensures Truncated(if aneg then -a else a, if bneg then -b else b,
                      if aneg != bneg then -q else q, if aneg then -r else r)
  {
    QuotientSign(a, b, q, r);
    SignedDivision(a, b, q, r, aneg, bneg);
  }

  lemma QuotientSign(a: int, b: int, q: int, r: int)
    requires a == q * b + r && a >= 0 && r < b && b > 0
    ensures q >= 0
  {
    if q < 0 {
      MulLe(q, -1, b);
    }
  }

  /** mdiv's path for a divisor of one digit, where sdiv divides the dividend's magnitude. */
  method DivideByDigit(a: MINT, b: MINT, q: MINT, r: MINT, negq: bool, negr: bool)
    requires a.Canonical() && b.Canonical() && a.len != 0 && b.Size() == 1 && q != r
    requires negr == (a.len < 0) && negq == ((a.len < 0) != (b.len < 0))
    modifies q, r
    ensures q.Canonical() && r.Canonical()
    ensures Truncated(old(a.Value()), old(b.Value()), q.Value(), r.Value())
    ensures (q.len == 0 || fresh(q.val)) && (r.len == 0 || fresh(r.val))
    ensures (q.val == old(q.val) || fresh(q.val)) && (r.val == old(r.val) || fresh(r.val))
  {
    hide Val, Radix, Truncated, SmallQuotient;
    ghost var (am, bm) := (a.Magnitude(), b.Magnitude());
    OneDigit(b.val[..1]);
    var u := new MINT();
    var rr := DivideMagnitude(a, b.val[0], u);
    SignedDivision(am, bm, u.Value(), rr, negr, negq != negr);
    TakeSigned(q, u.val, u.len, negq);
    r.Set(rr);
    if negr {
      r.Negate();
    }
  }

  method DivideMagnitude(a: MINT, d: Int32, u: MINT) returns (rr: Short)
    requires a.Canonical() && a.len != 0 && 0 < d < 32768 && u != a
    modifies u
    ensures u.Canonical() && u.len >= 0 && (u.len == 0 || fresh(u.val))
    ensures u.val == old(u.val) || fresh(u.val)
    ensures a.Magnitude() == u.Value() * d + rr && 0 <= rr < d && u.Value() >= 0
  {
    hide Val, Radix, SmallQuotient;
    CanonicalSign(a);
    var v := new MINT();
    v.len := if a.len < 0 then -a.len else a.len;
    v.val := a.val;
    assert v.val[..v.len] == a.val[..a.Size()];
    rr := SmallDivide(v, d, u);
    ShortDivision(a.Magnitude(), d, u.Value(), rr);
    CanonicalSign(u);
  }

  lemma ShortDivision(a: int, b: int, q: int, r: int)
    requires a > 0 && b > 0 && SmallQuotient(a, b, q, r)
    ensures a == q * b + r && 0 <= r < b && q >= 0
  {
    QuotientSign(a, b, q, r);
  }

  /** mdiv's path for a divisor of two digits or more. */
  method DivideLong(a: MINT, b: MINT, q: MINT, r: MINT, negq: bool, negr: bool)
    requires a.Canonical() && b.Canonical() && 2 <= b.Size() <= a.Size() && q != r && Apart(a, b)
    requires negr == (a.len < 0) && negq == ((a.len < 0) != (b.len < 0))
    modifies q, r, b.val
    ensures q.Canonical() && r.Canonical()
    ensures Truncated(old(a.Value()), old(b.Value()), q.Value(), r.Value())
    ensures (q.len == 0 || fresh(q.val)) && (r.len == 0 || fresh(r.val))
    ensures (q.val == old(q.val) || fresh(q.val)) && (r.val == old(r.val) || fresh(r.val))
    ensures b != q && b != r ==> b.Canonical() && b.Value() == old(b.Value())
  {
    hide Truncated, Val, Radix;
    ghost var (am, bm, av, bv) := (a.Magnitude(), b.Magnitude(), a.Value(), b.Value());
    assert av == (if negr then -am else am) && bv == if negq != negr then -bm else bm;
    CanonicalSign(a);
    CanonicalSign(b);
    hide MINT.Canonical, MINT.Valid, MINT.Value, MINT.Magnitude, IsCanonical;
    var qval, qlen, u;
    qval, qlen, u := LongDivide(a, b, b != q && b != r);
    CanonicalSign(u);
    SignedTruncation(am, bm, Val(qval[..qlen]), u.Value(), negr, negq != negr);
    StoreResults(u, qval, qlen, q, r, negq, negr);
  }

  method StoreResults(u: MINT, qval: array<Short>, qlen: nat, q: MINT, r: MINT, negq: bool, negr: bool)
    requires u.Canonical() && u.len >= 0 && qlen <= qval.Length && IsCanonical(qval[..qlen]) && q != r
    modifies q, r
    ensures q.Canonical() && r.Canonical() && q.val == qval && r.val == old(u.val)
    ensures r.len == 0 <==> old(u.len) == 0
    ensures r.Value() == if negr then -old(u.Value()) else old(u.Value())
    ensures q.Value() == if negq then -Val(qval[..qlen]) else Val(qval[..qlen])
  {
    hide Val;
    TakeSigned(r, u.val, u.len, negr);
    TakeSigned(q, qval, qlen, negq);
  }

  /** mdiv. The operands may be the same number, and may be overwritten by the results. */
  method Divide(a: MINT, b: MINT, q: MINT, r: MINT)
    requires a.Canonical() && b.Canonical() && b.len != 0 && q != r && Apart(a, b)
    modifies q, r, b.val
    ensures q.Canonical() && r.Canonical()
    ensures Truncated(old(a.Value()), old(b.Value()), q.Value(), r.Value())
    ensures (q.val == old(q.val) || fresh(q.val)) && (r.val == old(r.val) || fresh(r.val))
    ensures q.len == 0 || fresh(q.val)
    ensures r.len == 0 || fresh(r.val) || r == a
    ensures b != q && b != r ==> b.Canonical() && b.Value() == old(b.Value())
    ensures a != q && a != r ==> a.Canonical() && a.Value() == old(a.Value())
  {
    hide Val, Radix, Truncated;
    var alen, blen := a.len, b.len;
    var negq, negr := false, false;
    if alen < 0 {
      negq, negr, alen := true, true, -alen;
    }
    if blen < 0 {
      negq, blen := !negq, -blen;
    }
    if alen < blen {
      ShortDividend(a, b);
      if a != r {
        Copy(a, r);
      }
      q.Set(0);
    } else if blen == 1 {
      DivideByDigit(a, b, q, r, negq, negr);
    } else {
      DivideLong(a, b, q, r, negq, negr);
    }
  }

  lemma ShortDividend(a: MINT, b: MINT)
    requires a.Canonical() && b.Canonical() && a.Size() < b.Size()
    ensures Truncated(a.Value(), b.Value(), 0, a.Value())
  {
    CanonicalSign(a);
    CanonicalSign(b);
    ValShorter(a.val[..a.Size()], b.val[..b.Size()]);
  }
}
