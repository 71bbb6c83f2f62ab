/** Mfloat.c: shifts by any number of bits, in place where the result fits, and the bit length. */
module Mfloat {
  import opened Digits
  import opened Mint

  // ---- mshiftl

  /** The digits of s from q up have been shifted: they are the digits u and what is left in big. */
  ghost predicate ShiftedDownTo(s: seq<int>, q: nat, u: seq<int>, big: int, bits: nat)
    requires q <= |s|
  {
    && IsDigits(u) && 0 <= big < 32768 && big % Power(2, bits) == 0
    && Power(2, bits) * Val(s[q..]) == 32768 * Val(u) + big
  }

  /** The part of mshiftl below the top digit: big holds what is left of the top digit, shifted,
      and the digits from alen + words up are already in place. cval may be aval itself. */
  method ShiftUp(aval: array<Short>, alen: nat, cval: array<Short>, clen: nat, words: nat, bits: nat, top: Int32)
    requires 0 < alen <= aval.Length && alen + words <= clen <= cval.Length && bits < 15
    requires cval == aval ==> words == 0
    requires IsDigits(aval[..alen])
    requires ShiftedDownTo(aval[..alen], alen - 1, cval[alen + words..clen], top, bits)
    modifies cval
    ensures IsDigits(cval[..clen])
    ensures Val(cval[..clen]) == Radix(words) * Shl(old(Val(aval[..alen])), bits)
  {
    hide Val, Radix, ShiftedDownTo, Shl;
    ghost var s := aval[..alen];
    var rest := 15 - bits;
    var big := top;
    var q := alen - 2;
    var p := alen + words - 1;
    while q >= 0
      invariant -1 <= q < alen - 1 && p == q + 1 + words
      invariant aval[..q + 1] == s[..q + 1]
      invariant ShiftedDownTo(s, q + 1, cval[p + 1..clen], big, bits)
      modifies cval
    {
      var d: Int32 := aval[q];
      assert d == s[q];
      ShiftUpStep(s, q, cval[p + 1..clen], big, bits);
      big := Shl(big, rest);
      big := big + d;
      big := Shl(big, bits);
      q := q - 1;
      cval[p] := big / 32768;
      big := big % 32768;
      assert cval[p..clen] == [cval[p]] + cval[p + 1..clen];
      p := p - 1;
    }
    LowestDigit(s, cval[p + 1..clen], big, bits);
    cval[p] := big;
    assert cval[p..clen] == [cval[p]] + cval[p + 1..clen];
    ClearBelow(cval, words, clen);
  }

  /** The digits below words become 0. */
  method ClearBelow(cval: array<Short>, words: nat, ghost clen: nat)
    requires words <= clen <= cval.Length && IsDigits(cval[words..clen])
    modifies cval
    ensures IsDigits(cval[..clen])
    ensures Val(cval[..clen]) == Radix(words) * old(Val(cval[words..clen]))
  {
    hide Val, Radix;
    ghost var u := cval[words..clen];
    var p := words - 1;
    while p >= 0
      invariant -1 <= p < words
      invariant cval[words..clen] == u
      invariant forall k :: p < k < words ==> cval[k] == 0
    {
      cval[p] := 0;
      p := p - 1;
    }
    ValZeros(cval[..words]);
    ValConcat(cval[..words], u);
    assert cval[..clen] == cval[..words] + u;
  }

  lemma BitSplit(bits: nat)
    requires bits <= 15
    ensures Power(2, bits) * Power(2, 15 - bits) == 32768
  {
    PowerAdd(2, bits, 15 - bits);
    Power2Of15();
  }

  /** One digit of mshiftl: it is joined to the bits above it without overlap, the joined word
      fits 30 bits, and nothing is lost between the digit stored and the bits carried down. */
  lemma ShiftUpStep(s: seq<int>, q: nat, u: seq<int>, big: int, bits: nat)
    requires q < |s| && 0 <= s[q] < 32768 && bits < 15
    requires ShiftedDownTo(s, q + 1, u, big, bits)
    ensures 0 <= Shl(big, 15 - bits) <= 0x3fffffff && Shl(big, 15 - bits) % 32768 == 0
    ensures var b := Shl(Shl(big, 15 - bits) + s[q], bits);
      0 <= b <= 0x3fffffff && ShiftedDownTo(s, q, [b / 32768] + u, b % 32768, bits)
  {
    hide Val;
    var (lo, hi) := (Power(2, bits), Power(2, 15 - bits));
    BitSplit(bits);
    JoinWord(big, s[q], lo, hi);
    var b := (big * hi + s[q]) * lo;
    ValSuffix(s, q);
    ValPush(b / 32768, u);
    Factor(lo, s[q], Val(s[q + 1..]));
  }

  lemma LowestDigit(s: seq<int>, u: seq<int>, big: int, bits: nat)
    requires ShiftedDownTo(s, 0, u, big, bits)
    ensures 0 <= big < 32768 && IsDigits([big] + u) && Val([big] + u) == Shl(Val(s), bits)
  {
    hide Val;
    ValPush(big, u);
    assert s[0..] == s;
  }

  lemma Factor(lo: int, d: int, v: int)
    ensures lo * (d + 32768 * v) == lo * d + 32768 * (lo * v)
  {
  }

  lemma JoinWord(big: int, d: int, lo: int, hi: int)
    requires 0 <= d < 32768 && lo > 0 && hi > 0 && lo * hi == 32768
    requires 0 <= big < 32768 && big % lo == 0
    ensures 0 <= big * hi <= 0x3fffffff && (big * hi) % 32768 == 0
    ensures var b := (big * hi + d) * lo;
      0 <= b <= 0x3fffffff && b == 32768 * big + lo * d && (b % 32768) % lo == 0
  {
    var m := big / lo;
    assert big == m * lo;
    JoinMultiple(m, d, lo, hi);
  }

  lemma JoinMultiple(m: int, d: int, lo: int, hi: int)
    requires 0 <= d < 32768 && lo > 0 && hi > 0 && lo * hi == 32768 && 0 <= m * lo < 32768
    ensures (m * lo) * hi == m * 32768 && 0 <= m < hi <= 32768
    ensures var b := (m * 32768 + d) * lo;
      0 <= b <= 0x3fffffff && b == 32768 * (m * lo) + lo * d && (b % 32768) % lo == 0
  {
    MulAssoc(m, lo, hi);
    MultipleBelow(m, hi, lo, 32768);
    MulLe(1, lo, hi);
    if m < 0 {
      MulLe(m, -1, lo);
    }
    JoinBound(m, d, lo, hi, 32768);
    ScaledDivMod(m * 32768 + d, lo, hi, 32768);
  }

  lemma JoinBound(m: int, d: int, lo: int, hi: int, w: int)
    requires 0 <= d < w && lo > 0 && lo * hi == w && 0 <= m < hi
    ensures 0 <= (m * w + d) * lo < w * w && (m * w + d) * lo == w * (m * lo) + lo * d
  {
    assert (m * w + d) * lo == (m * w) * lo + d * lo;
    MulAssoc(w, m, lo);
    MulLe(0, m, lo);
    MulLe(m + 1, hi, lo);
    assert (m + 1) * lo == m * lo + lo;
    MulLe(0, d, lo);
    MulLe(d + 1, w, lo);
    assert (d + 1) * lo == d * lo + lo;
    BelowSquare(m * lo, lo, w, d * lo);
  }

  lemma BelowSquare(x: int, lo: int, w: int, e: int)
    requires 0 <= x && x + lo <= w && lo > 0 && 0 <= e < w * lo
    ensures 0 <= w * x + e < w * w
  {
    MulLe(x + lo, w, w);
    assert (x + lo) * w == x * w + lo * w;
    MulLe(0, x, w);
  }

  lemma MultipleBelow(m: int, hi: int, lo: int, w: int)
    requires lo > 0 && lo * hi == w && m * lo < w
    ensures m < hi
  {
    if m >= hi {
      MulLe(hi, m, lo);
    }
  }

  lemma ScaledDivMod(x: int, lo: int, hi: int, w: int)
    requires x >= 0 && lo > 0 && hi > 0 && w == lo * hi
    ensures (x * lo) / w == x / hi && (x * lo) % w == (x % hi) * lo
    ensures ((x * lo) % w) % lo == 0
  {
    var (q, r) := (x / hi, x % hi);
    assert x * lo == q * w + r * lo by {
      assert (q * hi + r) * lo == (q * hi) * lo + r * lo;
      MulAssoc(q, hi, lo);
    }
    MulLe(0, r, lo);
    MulLe(r + 1, hi, lo);
    DivModUnique(x * lo, w, q, r * lo);
    DivModUnique(r * lo, lo, r, 0);
  }

  /** A left shift stays in the storage of a when no digit is added to it. */
  ghost predicate StaysInPlace(top: int, b: nat) {
    b < 15 && Shl(top, b) < 32768
  }

  /** mshiftl on a magnitude of alen digits, leading zeros allowed. */
  method ShiftLeftDigits(aval: array<Short>, alen: nat, words: nat, bits: nat)
    returns (cval: array<Short>, clen: nat)
    requires 0 < alen <= aval.Length && IsDigits(aval[..alen]) && bits < 15
    modifies aval
    ensures if words == 0 && old(Shl(aval[alen - 1], bits)) < 32768 then cval == aval else fresh(cval)
    ensures clen == alen + words + if old(Shl(aval[alen - 1], bits)) < 32768 then 0 else 1
    ensures clen <= cval.Length && IsDigits(cval[..clen])
    ensures Val(cval[..clen]) == Radix(words) * Shl(old(Val(aval[..alen])), bits)
  {
    hide Val, Radix, ShiftedDownTo, Shl;
    ghost var s := aval[..alen];
    TopWord(s, alen - 1, bits);
    assert aval[alen - 1] == s[alen - 1];
    var big: Int32 := Shl(aval[alen - 1], bits);
    if big / 32768 != 0 {
      clen := alen + words + 1;
      cval := new Short[clen];
      cval[clen - 1] := big / 32768;
      big := big % 32768;
      assert cval[alen + words..clen] == [cval[clen - 1]];
    } else {
      clen := alen + words;
      if words == 0 {
        cval := aval;
      } else {
        cval := new Short[clen];
      }
      assert cval[alen + words..clen] == [];
    }
    ShiftUp(aval, alen, cval, clen, words, bits, big);
  }

  lemma TopWord(s: seq<int>, q: nat, bits: nat)
    requires IsDigits(s) && |s| == q + 1 && bits < 15
    ensures 0 <= Shl(s[q], bits) <= 0x3fffffff
    ensures ShiftedDownTo(s, q, [Shl(s[q], bits) / 32768], Shl(s[q], bits) % 32768, bits)
    ensures Shl(s[q], bits) < 32768 ==> ShiftedDownTo(s, q, [], Shl(s[q], bits), bits)
  {
    hide Val;
    ValEmpty();
    assert s[q + 1..] == [];
    assert ShiftedDownTo(s, q + 1, [], 0, bits);
    ShiftUpStep(s, q, [], 0, bits);
    assert Shl(0, 15 - bits) == 0;
    var b := Shl(s[q], bits);
    ValPush(b / 32768, []);
    assert [b / 32768] + [] == [b / 32768];
  }

  lemma ShlWords(v: int, words: nat, bits: nat)
    ensures Radix(words) * Shl(v, bits) == Shl(v, 15 * words + bits)
  {
    hide Power, Radix;
    RadixIsPower2(words);
    PowerAdd(2, 15 * words, bits);
    MulAssoc(v, Power(2, bits), Radix(words));
  }

  // ---- mshiftr

  /** The first k digits of t have been shifted into the k - 1 digits u; the last of them is
      still whole in big, and the lowest bits of t[0] are gone. */
  ghost predicate ShiftedRight(t: seq<int>, k: nat, u: seq<int>, big: int, bits: nat)
    requires 1 <= k <= |t|
  {
    && IsDigits(u) && |u| == k - 1 && big == t[k - 1]
    && Val(t[..k]) == t[0] % Power(2, bits) + Power(2, bits) * Val(u)
                      + (big - big % Power(2, bits)) * Radix(k - 1)
  }

  lemma FirstDigit(t: seq<int>, bits: nat)
    requires t != []
    ensures ShiftedRight(t, 1, [], t[0], bits)
  {
    ValPrefix(t, 0);
    assert t[..0] == [];
  }

  /** One digit of mshiftr: the low bits of digit d fill the space above the bits of big. */
  lemma ShiftRightStep(t: seq<int>, k: nat, u: seq<int>, big: int, bits: nat)
    requires 1 <= k < |t| && IsDigits(t) && bits < 15
    requires ShiftedRight(t, k, u, big, bits)
    ensures var b := Shr(big + t[k] * 32768, bits);
      0 <= b < 0x40000000 && Shr(b, 15 - bits) == t[k]
      && ShiftedRight(t, k + 1, u + [b % 32768], t[k], bits)
  {
    hide Val, Radix;
    var (d, lo, hi) := (t[k], Power(2, bits), Power(2, 15 - bits));
    BitSplit(bits);
    SplitWord(big, d, lo, hi, 32768);
    SplitWordLow(big, d, lo, hi, 32768);
    var c := Shr(big + d * 32768, bits) % 32768;
    ValPrefix(t, k);
    ValSnoc(u, c);
    RadixNext(k - 1);
    ShiftRightColumn(lo, Val(u), c, big - big % lo, d, d % lo, Radix(k - 1));
  }

  lemma SplitWord(big: int, d: int, lo: int, hi: int, w: int)
    requires lo > 0 && hi > 0 && lo * hi == w && 0 <= big < w && 0 <= d < w
    ensures var b := (big + d * w) / lo;
      0 <= b < w * w && b / hi == d && b == big / lo + d * hi
  {
    var (m, r) := (big / lo, big % lo);
    assert big == m * lo + r;
    MultipleBelow(m, hi, lo, w);
    ShiftJoined(m, r, d, lo, hi, w);
    DivModUnique(big + d * w, lo, m + d * hi, r);
    DivModUnique(m + d * hi, hi, d, m);
  }

  lemma SplitWordLow(big: int, d: int, lo: int, hi: int, w: int)
    requires lo > 0 && hi > 0 && lo * hi == w && 0 <= big < w && 0 <= d < w
    ensures lo * ((big / lo + d * hi) % w) == big - big % lo + (d % lo) * w
  {
    var (m, e, f) := (big / lo, d / lo, d % lo);
    assert big == m * lo + big % lo && d == e * lo + f;
    MultipleBelow(m, hi, lo, w);
    LowOfWord(m, e, f, d, lo, hi, w);
  }

  lemma LowOfWord(m: int, e: int, f: int, d: int, lo: int, hi: int, w: int)
    requires lo > 0 && hi > 0 && lo * hi == w && 0 <= m < hi && 0 <= f < lo && d == e * lo + f
    ensures lo * ((m + d * hi) % w) == m * lo + f * w
  {
    MulLe(1, lo, hi);
    CutJoined(m, e, f, lo, hi, w);
    DivModUnique(m + d * hi, w, e, m + f * hi);
  }

  lemma ShiftJoined(m: int, r: int, d: int, lo: int, hi: int, w: int)
    requires lo > 0 && hi > 0 && lo * hi == w && 0 <= m < hi && 0 <= d < w
    ensures m * lo + r + d * w == (m + d * hi) * lo + r
    ensures 0 <= m + d * hi < w * w
  {
    MulAssoc(d, hi, lo);
    assert (m + d * hi) * lo == m * lo + (d * hi) * lo;
    MulLe(d + 1, w, hi);
    assert (d + 1) * hi == d * hi + hi;
    MulLe(0, d, hi);
    MulLe(1, lo, hi);
    MulLe(hi, w, w);
  }

  lemma CutJoined(m: int, e: int, f: int, lo: int, hi: int, w: int)
    requires lo > 0 && hi > 0 && lo * hi == w && 0 <= m < hi && 0 <= f < lo
    ensures m + (e * lo + f) * hi == e * w + (m + f * hi)
    ensures 0 <= m + f * hi < w
    ensures lo * (m + f * hi) == m * lo + f * w
  {
    MulAssoc(e, lo, hi);
    assert (e * lo + f) * hi == (e * lo) * hi + f * hi;
    MulLe(0, f, hi);
    MulLe(f + 1, lo, hi);
    assert (f + 1) * hi == f * hi + hi;
    MulAssoc(f, hi, lo);
    assert lo * (m + f * hi) == m * lo + (f * hi) * lo;
  }

  lemma ShiftRightColumn(lo: int, v: int, c: int, hi: int, d: int, low: int, r: int)
    requires lo * c == hi + low * 32768
    ensures lo * v + hi * r + d * (32768 * r) == lo * (v + c * r) + (d - low) * (32768 * r)
  {
    MulAssoc(lo, c, r);
    assert lo * (v + c * r) == lo * v + lo * (c * r);
    assert (hi + low * 32768) * r == hi * r + (low * 32768) * r;
    assert (d - low) * (32768 * r) == d * (32768 * r) - low * (32768 * r);
  }

  /** The last digit: what is left of it is stored unless it is 0. */
  lemma LastDigit(t: seq<int>, u: seq<int>, big: int, bits: nat)
    requires t != [] && IsDigits(t) && bits < 15
    requires ShiftedRight(t, |t|, u, big, bits)
    ensures var h := Shr(big, bits);
      var w := if h != 0 then u + [h] else u;
      0 <= h < 32768 && IsDigits(w) && Val(w) == Shr(Val(t), bits)
      && (t[|t| - 1] != 0 ==> IsCanonical(w))
  {
    hide Val, Radix, Power;
    var (n, lo, hi) := (|t| - 1, Power(2, bits), Power(2, 15 - bits));
    BitSplit(bits);
    assert t[..n + 1] == t;
    var (h, r) := (big / lo, big % lo);
    assert big == h * lo + r;
    HighPartBound(big, h, lo);
    var w := if h != 0 then u + [h] else u;
    ValSnoc(u, h);
    assert Val(w) == Val(u) + h * Radix(n);
    GatherHigh(Val(t), t[0] % lo, lo, Val(u), big, h, r, Radix(n));
    DivModUnique(Val(t), lo, Val(w), t[0] % lo);
    if t[n] != 0 && h == 0 && n > 0 {
      ValTop(t);
      RadixNext(n - 1);
      EnoughLeft(Val(w), Val(t), lo, hi, Radix(n - 1));
      TopNonzero(w);
    }
  }

  lemma HighPartBound(big: int, h: int, lo: int)
    requires lo > 0 && 0 <= big && h == big / lo
    ensures 0 <= h <= big
  {
    assert big == h * lo + big % lo;
    if h < 0 {
      MulLe(h, -1, lo);
    }
    MulLe(1, lo, h);
  }

  lemma GatherHigh(v: int, low: int, lo: int, u: int, big: int, h: int, r: int, p: int)
    requires v == low + lo * u + (big - r) * p && big == h * lo + r
    ensures v == (u + h * p) * lo + low
  {
    MulAssoc(lo, h, p);
    assert lo * (u + h * p) == lo * u + lo * (h * p);
  }

  lemma EnoughLeft(q: int, v: int, lo: int, hi: int, r: int)
    requires lo > 0 && hi > 0 && r > 0 && lo * hi == 32768 && v >= 32768 * r && v / lo == q
    ensures q >= r
  {
    if q < r {
      assert v == q * lo + v % lo;
      MulLe(q + 1, r, lo);
      MulLe(1, hi, lo);
      MulLe(lo, 32768, r);
      assert false;
    }
  }

  /** mshiftr on a magnitude of alen digits, words < alen; p is the length of the result. */
  method ShiftRightDigits(aval: array<Short>, alen: nat, words: nat, bits: nat) returns (p: nat)
    requires words < alen <= aval.Length && IsDigits(aval[..alen]) && bits < 15
    modifies aval
    ensures p <= alen && IsDigits(aval[..p])
    ensures Val(aval[..p]) == Shr(old(Val(aval[words..alen])), bits)
    ensures old(aval[alen - 1]) != 0 ==> IsCanonical(aval[..p])
  {
    hide Val, Radix, ShiftedRight, Shr;
    ghost var t := aval[words..alen];
    assert t[|t| - 1] == aval[alen - 1] && IsDigits(t);
    if bits == 0 {
      p := MoveDown(aval, alen, words);
      ShiftByNothing(Val(t));
    } else {
      var big: Int32;
      p, big := ShiftDown(aval, alen, words, bits);
      LastDigit(t, aval[..p], big, bits);
      big := Shr(big, bits);
      if big != 0 {
        aval[p] := big;
        p := p + 1;
        assert aval[..p] == aval[..p - 1] + [aval[p - 1]];
      }
    }
  }

  /** The digit loop of mshiftr. */
  method ShiftDown(aval: array<Short>, alen: nat, words: nat, bits: nat) returns (p: nat, big: Int32)
    requires words < alen <= aval.Length && IsDigits(aval[words..alen]) && bits < 15
    modifies aval
    ensures p == alen - words - 1
    ensures ShiftedRight(old(aval[words..alen]), alen - words, aval[..p], big, bits)
  {
    hide Val, Radix, ShiftedRight, Shr;
    ghost var t := aval[words..alen];
    var rest := 15 - bits;
    big := aval[words];
    var q := words + 1;
    p := 0;
    FirstDigit(t, bits);
    assert aval[..p] == [] && aval[q..alen] == t[1..];
    while q < alen
      invariant words < q <= alen && p == q - words - 1
      invariant aval[q..alen] == t[p + 1..]
      invariant ShiftedRight(t, p + 1, aval[..p], big, bits)
    {
      var d: Int32 := aval[q];
      assert d == aval[q..alen][0] == t[p + 1];
      BigIsDigit(t, p + 1, aval[..p], big, bits);
      ShiftRightStep(t, p + 1, aval[..p], big, bits);
      big := big + d * 32768;
      q := q + 1;
      big := Shr(big, bits);
      assert aval[q..alen] == t[p + 1..][1..];
      aval[p] := big % 32768;
      p := p + 1;
      big := Shr(big, rest);
      assert aval[..p] == aval[..p - 1] + [aval[p - 1]];
    }
  }

  method MoveDown(aval: array<Short>, alen: nat, words: nat) returns (p: nat)
    requires words < alen <= aval.Length
    modifies aval
    ensures p == alen - words && aval[..p] == old(aval[words..alen])
  {
    var q := words;
    p := 0;
    while q < alen
      invariant words <= q <= alen && p == q - words
      invariant aval[..p] == old(aval[words..q]) && aval[q..alen] == old(aval[q..alen])
    {
      assert aval[q] == aval[q..alen][0] == old(aval[q]);
      aval[p] := aval[q];
      p, q := p + 1, q + 1;
    }
  }

  lemma BigIsDigit(t: seq<int>, k: nat, u: seq<int>, big: int, bits: nat)
    requires 1 <= k <= |t| && IsDigits(t) && ShiftedRight(t, k, u, big, bits)
    ensures 0 <= big < 32768
  {
  }

  // ---- the shifts on numbers

  /** A magnitude shifted left by b bits, or right if b is negative. */
  function Scaled(m: int, b: int): int {
    if b >= 0 then Shl(m, b) else Shr(m, -b)
  }

  /** mshiftl's one defect: a negative number whose shift stays in place comes out positive,
      because its length is negated although it was never replaced by the magnitude's. */
  ghost predicate LosesSign(a: MINT, b: int)
    requires a.Valid()
    reads a, a.val
  {
    a.len < 0 && b > 0 && StaysInPlace(a.val[a.Size() - 1], b)
  }

  ghost predicate KeepsStorage(a: MINT, b: int)
    requires a.Valid() && b >= 0
    reads a, a.val
  {
    b == 0 || a.len == 0 || StaysInPlace(a.val[a.Size() - 1], b)
  }

  /** mshiftl */
  method ShiftLeft(a: MINT, b: int)
    requires a.Valid()
    modifies a, a.val
    ensures a.Valid() && a.Magnitude() == Scaled(old(a.Magnitude()), b)
    ensures a.len < 0 <==> a.len != 0 && old(a.len < 0 && !LosesSign(a, b))
    ensures old(a.Canonical()) ==> a.Canonical()
    ensures a.val == old(a.val) || fresh(a.val)
    ensures b >= 0 && old(KeepsStorage(a, b)) ==> a.val == old(a.val) && a.Size() == old(a.Size())
    ensures b >= 0 && old(a.Canonical()) ==>
      (a.Value() == Shl(old(a.Value()), b) <==> !old(LosesSign(a, b)))
    decreases if b < 0 then 1 else 0
  {
    hide Val, Radix, Shl, Shr;
    SignedShift(a, b);
    ShiftByNothing(a.Magnitude());
    if b == 0 {
      return;
    } else if b < 0 {
      ShiftRight(a, -b);
      return;
    }
    ghost var s := a.val[..a.Size()];
    var alen := a.len;
    var aval := a.val;
    if alen == 0 {
      ShiftOfZero(b);
      return;
    }
    var neg := alen < 0;
    if neg {
      alen := -alen;
    }
    var cval, clen := ShiftLeftDigits(aval, alen, b / 15, b % 15);
    ShlWords(Val(s), b / 15, b % 15);
    LongerLeft(s, cval[..clen], b / 15, b % 15);
    if cval != aval {
      a.val := cval;
      a.len := clen;
    }
    if neg {
      a.len := -a.len;
    }
    assert a.val[..a.Size()] == cval[..clen];
  }

  /** -1 shifted left by one bit comes out as 2. */
  method DoubleMinusOne() returns (a: MINT)
    ensures fresh(a) && a.Canonical() && a.Value() == 2
  {
    a := new MINT();
    a.Set(-1);
    CanonicalSign(a);
    OneDigitValue(a);
    assert Power(2, 1) == 2;
    ShiftLeft(a, 1);
  }

  lemma OneDigitValue(a: MINT)
    requires a.Canonical() && a.Size() == 1
    ensures a.Magnitude() == a.val[0]
  {
    OneDigit(a.val[..1]);
  }

  lemma SignedShift(a: MINT, b: int)
    requires a.Valid()
    ensures b >= 0 ==> Shl(-a.Magnitude(), b) == -Shl(a.Magnitude(), b)
    ensures b >= 0 && a.Canonical() && a.len != 0 ==> Shl(a.Magnitude(), b) > 0
  {
    hide Val, Power;
    if b >= 0 && a.Canonical() && a.len != 0 {
      CanonicalSign(a);
      MulLe(1, a.Magnitude(), Power(2, b));
    }
  }

  lemma ShiftByNothing(v: int)
    ensures Shr(v, 0) == v && Shl(v, 0) == v
  {
  }

  lemma ShiftOfZero(b: nat)
    ensures Shl(Val([]), b) == Val([]) && Shr(Val([]), b) == Val([])
  {
  }

  /** The shifted magnitude needs every digit that mshiftl gave it. */
  lemma LongerLeft(s: seq<int>, u: seq<int>, words: nat, bits: nat)
    requires IsDigits(s) && s != [] && IsDigits(u) && bits < 15
    requires |u| == |s| + words + if Shl(s[|s| - 1], bits) < 32768 then 0 else 1
    requires Val(u) == Radix(words) * Shl(Val(s), bits)
    ensures IsCanonical(s) ==> IsCanonical(u)
  {
    if IsCanonical(s) {
      hide Val, Radix;
      var (n, lo, top) := (|s| - 1, Power(2, bits), s[|s| - 1]);
      TopDigitTimes(s);
      RadixAdd(words, n);
      RadixAdd(words, n + 1);
      RadixNext(n);
      LowerBound(Val(s), top, Radix(n), lo, Radix(words));
      TopNonzero(u);
    }
  }

  lemma TopDigitTimes(s: seq<int>)
    requires IsDigits(s) && s != []
    ensures Val(s) >= s[|s| - 1] * Radix(|s| - 1)
  {
    ValBound(s[..|s| - 1]);
  }

  lemma LowerBound(v: int, top: int, r: int, lo: int, w: int)
    requires v >= top * r && top >= 1 && r > 0 && lo > 0 && w > 0
    ensures w * (v * lo) >= w * r
    ensures top * lo >= 32768 ==> w * (v * lo) >= w * (32768 * r)
  {
    MulLe(1, top, lo);
    AtLeast(v, top, r, lo, 1, w);
    if top * lo >= 32768 {
      AtLeast(v, top, r, lo, 32768, w);
    }
  }

  lemma AtLeast(v: int, top: int, r: int, lo: int, c: int, w: int)
    requires v >= top * r && r > 0 && lo > 0 && w > 0 && top * lo >= c
    ensures w * (v * lo) >= w * (c * r)
  {
    MulLe(top * r, v, lo);
    MulAssoc(top, r, lo);
    MulAssoc(top, lo, r);
    MulLe(c, top * lo, r);
    MulLe(c * r, v * lo, w);
  }

  /** mshiftr */
  method ShiftRight(a: MINT, b: int)
    requires a.Valid()
    modifies a, a.val
    ensures a.Valid() && a.Magnitude() == Scaled(old(a.Magnitude()), -b)
    ensures a.len < 0 <==> a.len != 0 && old(a.len < 0 && !LosesSign(a, -b))
    ensures old(a.Canonical()) ==> a.Canonical()
    ensures a.val == old(a.val) || fresh(a.val)
    ensures b <= 0 && old(KeepsStorage(a, -b)) ==> a.val == old(a.val) && a.Size() == old(a.Size())
    ensures b > 0 ==> a.len == 0 || a.val == old(a.val)
    decreases if b < 0 then 1 else 0
  {
    hide Val, Radix, Shl, Shr;
    ShiftByNothing(a.Magnitude());
    if b == 0 {
      return;
    } else if b < 0 {
      ShiftLeft(a, -b);
      return;
    }
    var alen := a.len;
    var aval := a.val;
    if alen == 0 {
      ShiftOfZero(b);
      return;
    }
    var neg := alen < 0;
    if neg {
      alen := -alen;
    }
    var words, bits := b / 15, b % 15;
    if words >= alen {
      AllShiftedOut(aval[..alen], b);
      a.Set(0);
      return;
    }
    ShrWords(aval[..alen], words, bits);
    var p := ShiftRightDigits(aval, alen, words, bits);
    a.len := if neg then -(p as int) else p;
    assert a.val[..a.Size()] == aval[..p];
  }

  lemma AllShiftedOut(s: seq<int>, b: nat)
    requires IsDigits(s) && b / 15 >= |s|
    ensures Shr(Val(s), b) == 0
  {
    hide Val, Power;
    ValBound(s);
    RadixIsPower2(|s|);
    PowerMonotone(2, 15 * |s|, b);
    DivModUnique(Val(s), Power(2, b), 0, Val(s));
  }

  lemma ShrWords(s: seq<int>, words: nat, bits: nat)
    requires IsDigits(s) && words <= |s|
    ensures Shr(Val(s), 15 * words + bits) == Shr(Val(s[words..]), bits)
  {
    hide Val, Radix, Power;
    ValSplit(s, words);
    ValBound(s[..words]);
    RadixIsPower2(words);
    PowerAdd(2, 15 * words, bits);
    DivTwice(Val(s), Val(s[..words]), Radix(words), Val(s[words..]), Power(2, bits));
  }

  lemma DivTwice(v: int, low: int, r: int, high: int, lo: int)
    requires 0 <= low < r && v == low + r * high && lo > 0
    ensures r * lo > 0 && v / (r * lo) == high / lo
  {
    var (q, m) := (high / lo, high % lo);
    assert high == q * lo + m;
    MulLe(1, lo, r);
    MulAssoc(q, lo, r);
    assert r * high == (q * lo + m) * r;
    assert (q * lo + m) * r == (q * lo) * r + m * r;
    MulLe(0, m, r);
    MulLe(m + 1, lo, r);
    assert (m + 1) * r == m * r + r;
    DivModUnique(v, r * lo, q, m * r + low);
  }

  /** A right shift undoes a left shift of the same width. */
  lemma ShiftRoundTrip(m: int, k: int)
    requires k >= 0
    ensures Scaled(Scaled(m, k), -k) == m
  {
    hide Power;
    ShiftByNothing(m);
    DivModUnique(m * Power(2, k), Power(2, k), m, 0);
  }

  // ---- mlog

  /** n is the number of significant bits of m. */
  ghost predicate IsBitLength(m: int, n: nat) {
    if m <= 0 then n == 0 else n > 0 && Power(2, n - 1) <= m < Power(2, n)
  }

  /** mlog */
  method Log(a: MINT) returns (bits: nat)
    requires a.Canonical()
    ensures IsBitLength(a.Magnitude(), bits)
  {
    hide Val, Radix;
    var alen := a.len;
    if alen == 0 {
      ValEmpty();
      return 0;
    } else if alen < 0 {
      alen := -alen;
    }
    bits := (alen - 1) * 15;
    var hi: Int32 := a.val[alen - 1];
    ghost var (s, n) := (a.val[..alen], 0);
    assert hi == s[alen - 1];
    while hi != 0
      invariant hi >= 0 && n >= 0 && bits == (alen - 1) * 15 + n
      invariant s[alen - 1] > 0 && hi == s[alen - 1] / Power(2, n)
      invariant n > 0 ==> Power(2, n - 1) <= s[alen - 1]
      invariant n == 0 ==> hi == s[alen - 1]
    {
      HalveAgain(s[alen - 1], n);
      bits := bits + 1;
      hi := hi / 2;
      n := n + 1;
    }
    TopDigitBits(s, n);
  }

  lemma HalveAgain(d: int, n: nat)
    requires d > 0 && d / Power(2, n) != 0
    ensures Power(2, n) <= d && (d / Power(2, n)) / 2 == d / Power(2, n + 1)
  {
    var p := Power(2, n);
    if d < p {
      DivModUnique(d, p, 0, d);
    }
    DivTwice(d, d % p, p, d / p, 2);
  }

  lemma TopDigitBits(s: seq<int>, n: nat)
    requires IsDigits(s) && s != [] && s[|s| - 1] > 0 && n > 0
    requires Power(2, n - 1) <= s[|s| - 1] && s[|s| - 1] / Power(2, n) == 0
    ensures IsBitLength(Val(s), (|s| - 1) * 15 + n)
  {
    hide Val;
    var (k, d) := (|s| - 1, s[|s| - 1]);
    ValPrefix(s, k);
    ValBound(s[..k]);
    assert s[..k + 1] == s;
    assert d < Power(2, n) by {
      assert d == (d / Power(2, n)) * Power(2, n) + d % Power(2, n);
    }
    RadixIsPower2(k);
    PowerAdd(2, n - 1, 15 * k);
    PowerAdd(2, n, 15 * k);
    MulLe(Power(2, n - 1), d, Radix(k));
    MulLe(d + 1, Power(2, n), Radix(k));
    assert (d + 1) * Radix(k) == d * Radix(k) + Radix(k);
  }

  /** A number has one bit length, and a left shift adds its width to it. */
  lemma BitLengthOfShift(m: int, n: nat, k: nat, n': nat)
    requires m > 0 && IsBitLength(m, n)
    ensures IsBitLength(Scaled(m, k), n') <==> n' == n + k
  {
    PowerAdd(2, n - 1, k);
    PowerAdd(2, n, k);
    MulLe(Power(2, n - 1), m, Power(2, k));
    MulLe(m + 1, Power(2, n), Power(2, k));
    assert (m + 1) * Power(2, k) == m * Power(2, k) + Power(2, k);
    var x := Shl(m, k);
    assert IsBitLength(x, n + k);
    if IsBitLength(x, n') {
      Power2Strict(n + k - 1, n');
      Power2Strict(n' - 1, n + k);
    }
  }
}
