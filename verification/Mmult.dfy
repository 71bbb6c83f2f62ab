/** Mmult.c: column-wise multiplication with a 31-bit accumulator and a count of its overflows. */
module Mmult {
  import opened Digits
  import opened Numbers
  import opened Mint

  /** A 32-bit register read as an unsigned pattern, as mmult uses x. */
  type Word32 = x: int | 0 <= x < 0x1_0000_0000

  const DIGIT_PRODUCT: int := 32767 * 32767

  /** The word carried into a column is at most 32767 times the digits of the shorter factor.
      With this many it and one more product still fit Word32, and with no more (WordSuffices). */
  const SAFE_DIGITS: nat := 98309

  const SAFE_CARRIED: int := SAFE_DIGITS * 32767

  // ---- the product, column by column

  /** The first n products of column i: digit i - j of s times digit j of t, for j below n. */
  ghost function Column(s: seq<int>, t: seq<int>, i: nat, n: nat): int
    requires n <= |t|
  {
    if n == 0 then 0 else Column(s, t, i, n - 1) + Cell(s, t, i, n - 1)
  }

  ghost function Cell(s: seq<int>, t: seq<int>, i: nat, j: nat): int
    requires j < |t|
  {
    if 0 <= i - j < |s| then s[i - j] * t[j] else 0
  }

  /** The weighted sum of the first m columns, with n rows of the product table. */
  ghost function Table(s: seq<int>, t: seq<int>, n: nat, m: nat): int
    requires n <= |t|
  {
    if m == 0 then 0 else Table(s, t, n, m - 1) + Column(s, t, m - 1, n) * Radix(m - 1)
  }

  function Clamp(m: int, n: nat): nat {
    if m < 0 then 0 else if m < n then m else n
  }

  /** One more row of the table adds its digit of t times s. */
  lemma {:induction false} TableRow(s: seq<int>, t: seq<int>, n: nat, m: nat)
    requires n < |t|
    ensures Table(s, t, n + 1, m) == Table(s, t, n, m) + (t[n] * Radix(n)) * Val(s[..Clamp(m - n, |s|)])
  {
    hide Val, Radix;
    if m == 0 {
      ValEmpty();
      assert s[..0] == [];
    } else {
      TableRow(s, t, n, m - 1);
      var i := m - 1;
      if 0 <= i - n < |s| {
        ValPrefix(s, i - n);
        RadixAdd(i - n, n);
        RowCell(Column(s, t, i, n), s[i - n], t[n], Radix(n), Radix(i - n), Val(s[..i - n]));
      }
    }
  }

  lemma RowCell(c: int, d: int, e: int, r: int, p: int, v: int)
    ensures (c + d * e) * (p * r) + (e * r) * v == c * (p * r) + (e * r) * (v + d * p)
  {
    assert (c + d * e) * (p * r) == c * (p * r) + (d * e) * (p * r);
    assert (e * r) * (v + d * p) == (e * r) * v + (e * r) * (d * p);
    assert (d * e) * (p * r) == (e * r) * (d * p);
  }

  lemma {:induction false} TableEmpty(s: seq<int>, t: seq<int>, m: nat)
    ensures Table(s, t, 0, m) == 0
  {
    if m > 0 {
      TableEmpty(s, t, m - 1);
    }
  }

  /** All columns together are the product. */
  lemma {:induction false} TableIsProduct(s: seq<int>, t: seq<int>, n: nat, m: nat)
    requires n <= |t| && |s| + |t| <= m + 1
    ensures Table(s, t, n, m) == Val(s) * Val(t[..n])
  {
    hide Val, Radix;
    if n == 0 {
      TableEmpty(s, t, m);
      ValEmpty();
      assert t[..0] == [];
    } else {
      TableIsProduct(s, t, n - 1, m);
      TableRow(s, t, n - 1, m);
      ValPrefix(t, n - 1);
      assert s[..|s|] == s;
      RowTotal(Val(s), Val(t[..n - 1]), t[n - 1], Radix(n - 1));
    }
  }

  lemma RowTotal(v: int, w: int, d: int, r: int)
    ensures v * (w + d * r) == v * w + (d * r) * v
  {
  }

  /** Rows that do not reach the column add nothing. */
  lemma {:induction false} ColumnLowRows(s: seq<int>, t: seq<int>, i: nat, n: nat)
    requires n <= |t| && n <= i - |s| + 1
    ensures Column(s, t, i, n) == 0
  {
    if n > 0 {
      ColumnLowRows(s, t, i, n - 1);
    }
  }

  lemma {:induction false} ColumnHighRows(s: seq<int>, t: seq<int>, i: nat, n: nat)
    requires i + 1 <= n <= |t|
    ensures Column(s, t, i, n) == Column(s, t, i, i + 1)
  {
    if n > i + 1 {
      ColumnHighRows(s, t, i, n - 1);
    }
  }

  lemma {:induction false} ColumnBound(s: seq<int>, t: seq<int>, i: nat, n: nat)
    requires n <= |t| && IsDigits(s) && IsDigits(t)
    ensures 0 <= Column(s, t, i, n) <= n * DIGIT_PRODUCT
  {
    if n > 0 {
      ColumnBound(s, t, i, n - 1);
      CellBound(s, t, i, n - 1);
    }
  }

  lemma CellBound(s: seq<int>, t: seq<int>, i: nat, j: nat)
    requires j < |t| && IsDigits(s) && IsDigits(t)
    ensures 0 <= Cell(s, t, i, j) <= DIGIT_PRODUCT
  {
    if 0 <= i - j < |s| {
      MulLe(0, s[i - j], t[j]);
      MulLe(s[i - j], 32767, t[j]);
    }
  }

  // ---- S2 and S5

  /** Accumulator and carry together hold start + sum; the accumulator has either just been cut
      to 31 bits or is still the word that entered the column. */
  ghost predicate Accumulated(x: int, carry: int, start: int, sum: int) {
    && carry >= 0 && carry * 0x8000_0000 + x == start + sum
    && (0 <= x < 0x8000_0000 || (carry == 0 && x == start))
  }

  /** S2 */
  method AccumulateProduct(x0: Word32, carry0: Int32, d: Int32, e: Int32, ghost start: int, ghost sum: int)
    returns (x: Word32, carry: Int32)
    requires 0 <= d < 32768 && 0 <= e < 32768 && 0 <= carry0 < 0x7fff_ffff
    requires 0 <= start <= SAFE_CARRIED && Accumulated(x0, carry0, start, sum)
    ensures 0 <= x < 0x8000_0000 && carry0 <= carry <= carry0 + 1
    ensures Accumulated(x, carry, start, sum + d * e)
  {
    MulLe(0, d, e);
    MulLe(d, 32767, e);
    x, carry := x0, carry0;
    x := x + d * e;
    if x >= 0x8000_0000 {
      x := x - 0x8000_0000;
      carry := carry + 1;
    }
  }

  /** The descending inner loops: column i over the rows below n. */
  method ColumnDown(aval: array<Short>, bval: array<Short>, i: nat, n: nat, x0: Word32,
                    ghost s: seq<int>, ghost t: seq<int>)
    returns (x: Word32, carry: Int32)
    requires |s| <= aval.Length && s == aval[..|s|] && |t| <= bval.Length && t == bval[..|t|]
    requires IsDigits(s) && IsDigits(t) && 1 <= n <= |t| <= SAFE_DIGITS && n <= i + 1 <= |s|
    requires x0 <= SAFE_CARRIED
    ensures 0 <= x < 0x8000_0000 && 0 <= carry
    ensures carry * 0x8000_0000 + x == x0 + Column(s, t, i, n)
  {
    hide Accumulated, Column;
    x, carry := x0, 0;
    var j := n;
    ColumnStart(s, t, i, n, x0);
    while j > 0
      invariant 0 <= j <= n && 0 <= carry <= n - j
      invariant j < n ==> 0 <= x < 0x8000_0000
      invariant Accumulated(x, carry, x0, Column(s, t, i, n) - Column(s, t, i, j))
    {
      j := j - 1;
      ColumnNext(s, t, i, j);
      assert aval[i - j] == s[i - j] && bval[j] == t[j];
      x, carry := AccumulateProduct(x, carry, aval[i - j], bval[j], x0, Column(s, t, i, n) - Column(s, t, i, j + 1));
    }
    ColumnFinish(s, t, i, n, x, carry, x0);
  }

  lemma ColumnStart(s: seq<int>, t: seq<int>, i: nat, n: nat, x: int)
    requires n <= |t|
    ensures Accumulated(x, 0, x, Column(s, t, i, n) - Column(s, t, i, n))
    ensures Accumulated(x, 0, x, 0)
  {
  }

  lemma ColumnNext(s: seq<int>, t: seq<int>, i: nat, j: nat)
    requires j < |t| && 0 <= i - j < |s|
    ensures Column(s, t, i, j + 1) == Column(s, t, i, j) + s[i - j] * t[j]
  {
  }

  lemma ColumnFinish(s: seq<int>, t: seq<int>, i: nat, n: nat, x: int, carry: int, start: int)
    requires n <= |t| && Accumulated(x, carry, start, Column(s, t, i, n) - Column(s, t, i, 0))
    ensures carry * 0x8000_0000 + x == start + Column(s, t, i, n)
  {
  }

  /** The ascending inner loop of the last phase: column i over the rows from i - |s| + 1. */
  method ColumnUp(aval: array<Short>, bval: array<Short>, i: nat, x0: Word32,
                  ghost s: seq<int>, ghost t: seq<int>, alen: nat, blen: nat)
    returns (x: Word32, carry: Int32)
    requires alen == |s| <= aval.Length && s == aval[..|s|] && blen == |t| <= bval.Length && t == bval[..|t|]
    requires IsDigits(s) && IsDigits(t) && |t| <= SAFE_DIGITS && |t| <= |s| <= i < |s| + |t|
    requires x0 <= SAFE_CARRIED
    ensures 0 <= x && 0 <= carry && (i < |s| + |t| - 1 ==> x < 0x8000_0000)
    ensures i == |s| + |t| - 1 ==> x == x0 && carry == 0
    ensures carry * 0x8000_0000 + x == x0 + Column(s, t, i, |t|)
  {
    hide Accumulated, Column;
    x, carry := x0, 0;
    var j := i - alen + 1;
    ghost var lo := j;
    ColumnLowRows(s, t, i, j);
    ColumnStart(s, t, i, j, x0);
    while j < blen
      invariant lo <= j <= blen && 0 <= carry <= j - lo
      invariant j > lo ==> 0 <= x < 0x8000_0000
      invariant j == lo ==> x == x0 && carry == 0
      invariant Accumulated(x, carry, x0, Column(s, t, i, j))
    {
      ColumnNext(s, t, i, j);
      assert aval[i - j] == s[i - j] && bval[j] == t[j];
      x, carry := AccumulateProduct(x, carry, aval[i - j], bval[j], x0, Column(s, t, i, j));
      j := j + 1;
    }
    AccumulatedSum(x, carry, x0, Column(s, t, i, j));
  }

  lemma AccumulatedSum(x: int, carry: int, start: int, sum: int)
    requires Accumulated(x, carry, start, sum)
    ensures carry * 0x8000_0000 + x == start + sum
  {
  }

  /** S5: the digit of the column and the word carried into the next one. */
  method FinishColumn(x0: Word32, carry0: Int32, ghost start: int, ghost col: int, ghost n: nat)
    returns (digit: Short, x: Word32)
    requires 0 <= x0 < 0x8000_0000 && 0 <= carry0 && carry0 * 0x8000_0000 + x0 == start + col
    requires n <= SAFE_DIGITS && 0 <= start <= n * 32767 && 0 <= col <= n * DIGIT_PRODUCT
    ensures digit == (start + col) % 32768 && x == (start + col) / 32768 && x <= n * 32767
  {
    digit := x0 % 32768;
    x := x0 / 32768;
    assert carry0 < 65536;
    var carry: Word32 := carry0 * 65536;
    x := x + carry;
  }

  // ---- mmult

  /** The word carried into column i. */
  ghost function Carried(s: seq<int>, t: seq<int>, i: nat): int {
    if i == 0 then 0 else (Carried(s, t, i - 1) + Column(s, t, i - 1, |t|)) / 32768
  }

  lemma {:induction false} CarriedBound(s: seq<int>, t: seq<int>, i: nat)
    requires IsDigits(s) && IsDigits(t)
    ensures 0 <= Carried(s, t, i) <= |t| * 32767
  {
    if i > 0 {
      CarriedBound(s, t, i - 1);
      ColumnBound(s, t, i - 1, |t|);
    }
  }

  /** Whenever a product is added to a column, the carried word and the product fit 32 bits, for
      all factors of which the shorter has n digits. */
  ghost predicate WordFits(n: nat) {
    forall s, t, i: nat | IsDigits(s) && IsDigits(t) && |t| == n <= |s| && i < |s| + n - 1 ::
      Carried(s, t, i) + DIGIT_PRODUCT < 0x1_0000_0000
  }

  /** The accumulator is wide enough for all factors exactly up to SAFE_DIGITS digits. */
  lemma WordSuffices(n: nat)
    ensures WordFits(n) <==> n <= SAFE_DIGITS
  {
    if n <= SAFE_DIGITS {
      forall s, t, i: nat | IsDigits(s) && IsDigits(t) && |t| == n <= |s| && i < |s| + n - 1
        ensures Carried(s, t, i) + DIGIT_PRODUCT < 0x1_0000_0000
      {
        CarriedBound(s, t, i);
      }
    } else {
      var s := seq(n, _ => 32767);
      FullCarried(s, n);
    }
  }

  /** All digits of both factors as large as can be. */
  lemma {:induction false} FullCarried(s: seq<int>, i: nat)
    requires (forall k :: 0 <= k < |s| ==> s[k] == 32767) && 1 <= i <= |s|
    ensures Carried(s, s, i) == i * 32767 - 1
  {
    if i > 1 {
      FullCarried(s, i - 1);
    } else {
      assert Carried(s, s, 0) == 0;
    }
    FullColumn(s, i - 1, i);
    ColumnHighRows(s, s, i - 1, |s|);
  }

  lemma {:induction false} FullColumn(s: seq<int>, i: nat, n: nat)
    requires (forall k :: 0 <= k < |s| ==> s[k] == 32767) && i < |s| && n <= i + 1
    ensures Column(s, s, i, n) == n * DIGIT_PRODUCT
  {
    if n > 0 {
      FullColumn(s, i, n - 1);
    }
  }

  /** The columns below i have been written to u, and x is carried into column i. */
  ghost predicate ColumnsDone(s: seq<int>, t: seq<int>, u: seq<int>, i: nat, x: int) {
    && |u| == i && 0 <= x <= |t| * 32767 && x == Carried(s, t, i)
    && Accounted(u, x, Table(s, t, |t|, i))
  }

  lemma NextColumn(s: seq<int>, t: seq<int>, u: seq<int>, i: nat, x: int)
    requires ColumnsDone(s, t, u, i, x) && IsDigits(s) && IsDigits(t)
    ensures var c := Column(s, t, i, |t|);
      0 <= c <= |t| * DIGIT_PRODUCT && ColumnsDone(s, t, u + [(x + c) % 32768], i + 1, (x + c) / 32768)
  {
    hide Accounted, Column;
    ColumnBound(s, t, i, |t|);
    AccountedStep(u, x, Table(s, t, |t|, i), Column(s, t, i, |t|));
  }

  /** The digit loops of mmult for factors of two digits or more, the longer one first. */
  method MultiplyDigits(aval: array<Short>, alen: nat, bval: array<Short>, blen: nat)
    returns (cval: array<Short>)
    requires 1 <= blen <= alen <= aval.Length && blen <= bval.Length && blen <= SAFE_DIGITS
    requires IsDigits(aval[..alen]) && IsDigits(bval[..blen])
    ensures fresh(cval) && cval.Length == alen + blen && IsDigits(cval[..])
    ensures Val(cval[..]) == Val(aval[..alen]) * Val(bval[..blen])
  {
    hide Val, Radix, Accounted, Column, Table, ColumnsDone;
    ghost var (s, t) := (aval[..alen], bval[..blen]);
    var clen := alen + blen;
    cval := new Short[clen];
    var x: Word32, carry: Int32 := 0, 0;
    var i := 0;
    assert cval[..i] == [];
    NoColumns(s, t);
    while i < blen
      invariant 0 <= i <= blen
      invariant ColumnsDone(s, t, cval[..i], i, x)
      modifies cval
    {
      CarryRange(s, t, cval[..i], i, x);
      NextColumn(s, t, cval[..i], i, x);
      ColumnHighRows(s, t, i, blen);
      ghost var start := x;
      x, carry := ColumnDown(aval, bval, i, i + 1, x, s, t);
      cval[i], x := FinishColumn(x, carry, start, Column(s, t, i, blen), blen);
      i := i + 1;
      assert cval[..i] == cval[..i - 1] + [cval[i - 1]];
    }
    while i < alen
      invariant blen <= i <= alen
      invariant ColumnsDone(s, t, cval[..i], i, x)
      modifies cval
    {
      CarryRange(s, t, cval[..i], i, x);
      NextColumn(s, t, cval[..i], i, x);
      ghost var start := x;
      x, carry := ColumnDown(aval, bval, i, blen, x, s, t);
      cval[i], x := FinishColumn(x, carry, start, Column(s, t, i, blen), blen);
      i := i + 1;
      assert cval[..i] == cval[..i - 1] + [cval[i - 1]];
    }
    while i < clen
      invariant alen <= i <= clen
      invariant ColumnsDone(s, t, cval[..i], i, x)
      modifies cval
    {
      CarryRange(s, t, cval[..i], i, x);
      NextColumn(s, t, cval[..i], i, x);
      ghost var start := x;
      x, carry := ColumnUp(aval, bval, i, x, s, t, alen, blen);
      cval[i], x := FinishColumn(x, carry, start, Column(s, t, i, blen), blen);
      i := i + 1;
      assert cval[..i] == cval[..i - 1] + [cval[i - 1]];
    }
    assert cval[..i] == cval[..];
    AllColumns(s, t, cval[..], x);
  }

  lemma NoColumns(s: seq<int>, t: seq<int>)
    ensures ColumnsDone(s, t, [], 0, 0)
  {
    AccountedStart(s);
  }

  /** The word carried into a column fits the accumulator; into the last one, a digit. */
  lemma CarryRange(s: seq<int>, t: seq<int>, u: seq<int>, i: nat, x: int)
    requires ColumnsDone(s, t, u, i, x) && |t| <= SAFE_DIGITS && IsDigits(s) && IsDigits(t) && s != [] && t != []
    ensures 0 <= x <= |t| * 32767 <= SAFE_CARRIED
    ensures i == |s| + |t| - 1 ==> x < 32768
  {
    hide Val, Table;
    if i == |s| + |t| - 1 {
      TableIsProduct(s, t, |t|, i);
      assert t[..|t|] == t;
      ProductBound(s, t);
      ValBound(u);
      RadixNext(i);
      if x >= 32768 {
        MulLe(32768, x, Radix(i));
        assert false;
      }
    }
  }

  lemma ProductBound(s: seq<int>, t: seq<int>)
    requires IsDigits(s) && IsDigits(t)
    ensures 0 <= Val(s) * Val(t) < Radix(|s| + |t|)
  {
    hide Val, Radix;
    ValBound(s);
    ValBound(t);
    RadixAdd(|s|, |t|);
    MulLe(0, Val(s), Val(t));
    MulLe(Val(s), Radix(|s|), Val(t));
    MulLe(Val(t) + 1, Radix(|t|), Radix(|s|));
    assert (Val(t) + 1) * Radix(|s|) == Val(t) * Radix(|s|) + Radix(|s|);
  }

  lemma AllColumns(s: seq<int>, t: seq<int>, u: seq<int>, x: int)
    requires ColumnsDone(s, t, u, |s| + |t|, x) && IsDigits(s) && IsDigits(t)
    ensures IsDigits(u) && Val(u) == Val(s) * Val(t)
  {
    hide Val, Radix, Table;
    TableIsProduct(s, t, |t|, |s| + |t|);
    assert t[..|t|] == t;
    ProductBound(s, t);
    ValBound(u);
    if x >= 1 {
      MulLe(1, x, Radix(|u|));
      assert false;
    }
  }

  /** mmult's loop for a shorter factor of one digit. */
  method MultiplyByDigit(aval: array<Short>, alen: nat, d: Int32) returns (cval: array<Short>)
    requires 1 <= alen <= aval.Length && IsDigits(aval[..alen]) && 0 <= d < 32768
    ensures fresh(cval) && cval.Length == alen + 1 && IsDigits(cval[..])
    ensures Val(cval[..]) == Val(aval[..alen]) * d
  {
    hide Val, Radix, Accounted, Scaled;
    ghost var s := aval[..alen];
    cval := new Short[alen + 1];
    var x: Int32 := 0;
    var i := 0;
    assert cval[..i] == [];
    NothingScaled(s, d);
    while i < alen
      invariant 0 <= i <= alen && 0 <= x < 32768
      invariant Accounted(cval[..i], x, Scaled(s, i, d))
      modifies cval
    {
      NextScaled(s, i, d, cval[..i], x);
      var e: Int32 := aval[i];
      assert e == s[i];
      var p: Int32 := d * e;
      x := x + p;
      cval[i] := x % 32768;
      x := x / 32768;
      i := i + 1;
      assert cval[..i] == cval[..i - 1] + [cval[i - 1]];
    }
    ScaledWhole(cval[..i], x, s, d);
    cval[i] := x;
    assert cval[..] == cval[..i] + [x];
  }

  ghost function Scaled(s: seq<int>, i: nat, d: int): int
    requires i <= |s|
  {
    Val(s[..i]) * d
  }

  lemma NothingScaled(s: seq<int>, d: int)
    ensures Accounted([], 0, Scaled(s, 0, d))
  {
    AccountedStart(s);
  }

  lemma NextScaled(s: seq<int>, i: nat, d: int, u: seq<int>, x: int)
    requires i < |s| && IsDigits(s) && 0 <= d < 32768 && 0 <= x < 32768
    requires |u| == i && Accounted(u, x, Scaled(s, i, d))
    ensures 0 <= d * s[i] <= DIGIT_PRODUCT && (x + d * s[i]) / 32768 < 32768
    ensures Accounted(u + [(x + d * s[i]) % 32768], (x + d * s[i]) / 32768, Scaled(s, i + 1, d))
  {
    hide Val, Radix, Accounted;
    MulLe(0, d, s[i]);
    MulLe(d, 32767, s[i]);
    ValPrefix(s, i);
    AccountedStep(u, x, Scaled(s, i, d), d * s[i]);
    assert (Val(s[..i]) + s[i] * Radix(i)) * d == Val(s[..i]) * d + (d * s[i]) * Radix(i);
  }

  lemma ScaledWhole(u: seq<int>, x: int, s: seq<int>, d: int)
    requires |u| == |s| && 0 <= x < 32768 && Accounted(u, x, Scaled(s, |s|, d))
    ensures IsDigits(u + [x]) && Val(u + [x]) == Val(s) * d
  {
    hide Val;
    ValSnoc(u, x);
    assert s[..|s|] == s;
  }

  /** A product has at most one leading zero. */
  lemma ProductLength(s: seq<int>, t: seq<int>, u: seq<int>)
    requires IsCanonical(s) && IsCanonical(t) && s != [] && t != []
    requires IsDigits(u) && |u| == |s| + |t| && Val(u) == Val(s) * Val(t)
    ensures var k := if u[|u| - 1] == 0 then |u| - 1 else |u|;
      k > 0 && IsCanonical(u[..k]) && Val(u[..k]) == Val(u)
  {
    hide Val, Radix;
    var k := |u| - 1;
    assert u[..k + 1] == u;
    ProductWeight(s, t);
    if u[k] == 0 {
      ValPrefix(u, k);
      TopNonzero(u[..k]);
    }
  }

  lemma ProductWeight(s: seq<int>, t: seq<int>)
    requires IsCanonical(s) && IsCanonical(t) && s != [] && t != []
    ensures Val(s) * Val(t) >= Radix(|s| + |t| - 2)
  {
    hide Val, Radix;
    ValTop(s);
    ValTop(t);
    RadixAdd(|s| - 1, |t| - 1);
    ProductAtLeast(Val(s), Val(t), Radix(|s| - 1), Radix(|t| - 1));
  }

  lemma ProductAtLeast(x: int, y: int, p: int, q: int)
    requires x >= p > 0 && y >= q > 0
    ensures x * y >= p * q
  {
    MulLe(p, x, q);
    MulLe(q, y, x);
  }

  /** A number of at most SAFE_DIGITS digits. */
  ghost predicate SafeFactor(x: int) {
    Abs(x) < Radix(SAFE_DIGITS)
  }

  lemma SafeSize(a: MINT)
    requires a.Canonical() && SafeFactor(a.Value())
    ensures a.Size() <= SAFE_DIGITS
  {
    SizeBelow(a, SAFE_DIGITS);
  }

  lemma SizeBelow(a: MINT, k: nat)
    requires a.Canonical() && Abs(a.Value()) < Radix(k)
    ensures a.Size() <= k
  {
    hide Radix;
    CanonicalSign(a);
    if a.Size() > k {
      RadixMonotone(k, a.Size() - 1);
    }
  }

  lemma SmallerIsSafe(x: int, y: int)
    requires SafeFactor(y) && Abs(x) <= Abs(y)
    ensures SafeFactor(x)
  {
  }

  /** mmult. c may be one of the factors. */
  method Multiply(a: MINT, b: MINT, c: MINT)
    requires a.Canonical() && b.Canonical()
    requires a.Size() <= SAFE_DIGITS || b.Size() <= SAFE_DIGITS
    modifies c
    ensures c.Canonical() && (c.len == 0 || fresh(c.val))
    ensures c.val == old(c.val) || fresh(c.val)
    ensures c.Value() == old(a.Value()) * old(b.Value())
  {
    hide Val, Radix;
    var alen, blen := a.len, b.len;
    if alen == 0 || blen == 0 {
      ValEmpty();
      c.Set(0);
      return;
    }
    SignedProduct(a.Magnitude(), b.Magnitude(), alen < 0, blen < 0);
    ghost var product := a.Magnitude() * b.Magnitude();
    var neg := false;
    if alen < 0 {
      alen, neg := -alen, true;
    }
    if blen < 0 {
      blen, neg := -blen, !neg;
    }
    var aval, bval := a.val, b.val;
    if alen < blen {
      aval, alen, bval, blen := bval, blen, aval, alen;
    }
    assert Val(aval[..alen]) * Val(bval[..blen]) == product;
    var cval, clen := MultiplyMagnitudes(aval, alen, bval, blen);
    TakeSigned(c, cval, clen, neg);
  }

  lemma SignedProduct(x: int, y: int, xneg: bool, yneg: bool)
    ensures (if xneg then -x else x) * (if yneg then -y else y) == if xneg != yneg then -(x * y) else x * y
  {
    assert (-x) * y == -(x * y) && x * (-y) == -(x * y) && (-x) * (-y) == x * y;
  }

  method MultiplyMagnitudes(aval: array<Short>, alen: nat, bval: array<Short>, blen: nat)
    returns (cval: array<Short>, clen: nat)
    requires 1 <= blen <= alen <= aval.Length && blen <= bval.Length && blen <= SAFE_DIGITS
    requires IsCanonical(aval[..alen]) && IsCanonical(bval[..blen])
    ensures fresh(cval) && 0 < clen <= cval.Length && IsCanonical(cval[..clen])
    ensures Val(cval[..clen]) == Val(aval[..alen]) * Val(bval[..blen])
  {
    hide Val, Radix;
    if blen == 1 {
      OneDigit(bval[..1]);
      cval := MultiplyByDigit(aval, alen, bval[0]);
    } else {
      cval := MultiplyDigits(aval, alen, bval, blen);
    }
    clen := alen + blen;
    ProductLength(aval[..alen], bval[..blen], cval[..]);
    if cval[clen - 1] == 0 {
      clen := clen - 1;
    }
    assert cval[..][..clen] == cval[..clen];
  }
}
