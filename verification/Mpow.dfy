/** Mpow.c: powers modulo a number, and powers of a number. */
module Mpow {
  import opened Digits
  import opened Numbers
  import opened Mint
  import opened Mutil
  import opened Mmult
  import opened Mfloat
  import opened Mdiv
  import opened Mgcd

  /** d is congruent to a to the e modulo c, and has its sign unless it is 0. */
  ghost predicate Residue(d: int, a: int, e: nat, c: int) {
    Divides(c, d - Power(a, e)) && SignLike(d, Power(a, e))
  }

  lemma SignLikeTimes(d: int, p: int, f: int, s: int)
    requires SignLike(d, p) && SignLike(f, s)
    ensures SignLike(d * f, p * s)
  {
    ProductSign(d, f);
    ProductSign(p, s);
  }

  lemma ProductSign(x: int, y: int)
    ensures x * y > 0 <==> (x > 0 && y > 0) || (x < 0 && y < 0)
    ensures x * y < 0 <==> (x > 0 && y < 0) || (x < 0 && y > 0)
  {
    assert (-x) * y == -(x * y) && x * (-y) == -(x * y) && (-x) * (-y) == x * y;
    if x > 0 && y > 0 { MulLe(1, x, y); }
    if x > 0 && y < 0 { MulLe(1, x, -y); }
    if x < 0 && y > 0 { MulLe(1, -x, y); }
    if x < 0 && y < 0 { MulLe(1, -x, -y); }
  }

  /** Below c in magnitude there is one such number, the remainder of the power by c. */
  lemma ResidueIsRemainder(d: int, a: int, e: nat, c: int)
    requires Residue(d, a, e, c) && Abs(d) < Abs(c)
    ensures exists q :: Truncated(Power(a, e), c, q, d)
  {
    var q :| Times(q, c) == d - Power(a, e);
    assert Power(a, e) == (-q) * c + d;
    assert Truncated(Power(a, e), c, -q, d);
  }

  lemma ResidueStart(a: int, c: int)
    ensures Residue(1, a, 0, c)
  {
    DividesZero(c);
  }

  lemma CongruentProduct(d: int, p: int, f: int, s: int, c: int)
    requires Divides(c, d - p) && Divides(c, f - s)
    ensures Divides(c, d * f - p * s)
  {
    DividesMultiple(c, d - p, f);
    DividesMultiple(c, f - s, p);
    DividesSum(c, f * (d - p), p * (f - s));
    assert d * f - p * s == f * (d - p) + p * (f - s);
  }

  lemma CongruentRemainder(x: int, c: int, q: int, r: int, p: int)
    requires Truncated(x, c, q, r) && Divides(c, x - p)
    ensures Divides(c, r - p) && SignLike(r, x) && Abs(r) < Abs(c)
  {
    DividesZero(c);
    DividesMultiple(c, c, q);
    DividesSum(c, x - p, q * c);
    assert r - p == (x - p) - q * c;
  }

  lemma ResidueSquare(d: int, a: int, e: nat, c: int, q: int, r: int)
    requires Residue(d, a, e, c) && Truncated(d * d, c, q, r)
    ensures Residue(r, a, 2 * e, c) && Abs(r) < Abs(c)
  {
    hide Divides, Power;
    CongruentProduct(d, Power(a, e), d, Power(a, e), c);
    PowerAdd(a, e, e);
    CongruentRemainder(d * d, c, q, r, Power(a, 2 * e));
    SignLikeTimes(d, Power(a, e), d, Power(a, e));
  }

  lemma ResidueTimes(d: int, a: int, e: nat, c: int, q: int, r: int)
    requires Residue(d, a, e, c) && Truncated(a * d, c, q, r)
    ensures Residue(r, a, e + 1, c) && Abs(r) < Abs(c)
  {
    hide Divides;
    DividesZero(c);
    CongruentProduct(a, a, d, Power(a, e), c);
    CongruentRemainder(a * d, c, q, r, Power(a, e + 1));
    SignLikeTimes(a, a, d, Power(a, e));
  }

  /** The accumulator d and the locals x and y are three numbers, and not the base or the modulus. */
  ghost predicate Scratch(a: MINT, c: MINT, d: MINT, x: MINT, y: MINT) {
    x != y && x != d && y != d && x != a && y != a && d != a && x != c && y != c && d != c
  }

  /** One bit of the exponent. */
  method PowBit(a: MINT, c: MINT, d: MINT, x: MINT, y: MINT, bit: bool, ghost e: nat)
    requires a.Canonical() && c.Canonical() && c.len != 0 && c.Size() <= SAFE_DIGITS && Apart(a, c)
    requires d.Canonical() && d.Size() <= SAFE_DIGITS
    requires Scratch(a, c, d, x, y)
    requires Residue(d.Value(), a.Value(), e, c.Value()) && d.val != c.val && x.val != c.val
    modifies x, y, d, c.val
    ensures a.Canonical() && a.Value() == old(a.Value()) && c.Canonical() && c.Value() == old(c.Value())
    ensures d.Canonical() && d.Size() <= SAFE_DIGITS && (d.val == old(d.val) || fresh(d.val))
    ensures x.val == old(x.val) || fresh(x.val)
    ensures Residue(d.Value(), a.Value(), 2 * e + if bit then 1 else 0, c.Value())
    ensures Abs(d.Value()) < Abs(c.Value())
  {
    hide Residue, Truncated, MINT.Valid, MINT.Canonical, MINT.Value;
    if a.len == 0 { ZeroLength(a); }
    ghost var (av, cv, d0) := (a.Value(), c.Value(), d.Value());
    Multiply(d, d, x);
    Divide(x, c, y, d);
    ResidueSquare(d0, av, e, cv, y.Value(), d.Value());
    RemainderIsShort(d, c);
    if a.len == 0 { ZeroLength(a); }
    if bit {
      ghost var d1 := d.Value();
      Multiply(a, d, x);
      Divide(x, c, y, d);
      ResidueTimes(d1, av, 2 * e, cv, y.Value(), d.Value());
      RemainderIsShort(d, c);
      if a.len == 0 { ZeroLength(a); }
    }
  }

  lemma RemainderIsShort(d: MINT, c: MINT)
    requires d.Canonical() && c.Canonical() && Abs(d.Value()) < Abs(c.Value())
    ensures d.Size() <= c.Size()
  {
    if c.Size() < d.Size() {
      ValShorter(c.val[..c.Size()], d.val[..d.Size()]);
      CanonicalSign(c);
      CanonicalSign(d);
    }
  }

  lemma ZeroLength(a: MINT)
    requires a.len == 0
    ensures a.Canonical() && a.Value() == 0
  {
  }

  /** The exponent bits of digit n, from bit 14 down: what has been read after i of them. */
  lemma NextBit(n: int, i: nat)
    requires 0 <= n < 32768 && i < 15
    ensures var m := n * Power(2, i);
      && 0 <= 2 * m < 0x4000_0000 && 2 * m == n * Power(2, i + 1)
      && n / Power(2, 15 - (i + 1)) == 2 * (n / Power(2, 15 - i)) + (2 * m / 32768) % 2
  {
    hide Power;
    var (p, s) := (Power(2, i), Power(2, 14 - i));
    PowerAdd(2, i, 1);
    PowerAdd(2, 14 - i, 1);
    PowerAdd(2, i, 14 - i);
    Power2Of15();
    OnePower();
    PowerMonotone(2, i, 14);
    BitOfDigit(n, p, s);
    assert Power(2, 15 - i) == s * 2;
    assert n * (p * 2) == 2 * (n * p);
  }

  lemma BitOfDigit(n: int, p: int, s: int)
    requires 0 <= n < 32768 && 0 < p <= 16384 && s > 0 && p * s == 16384
    ensures 0 <= n * p <= 32767 * 16384
    ensures n / s == 2 * (n / (s * 2)) + (2 * (n * p) / 32768) % 2
  {
    MulLe(0, n, p);
    MulLe(n, 32767, p);
    var (q, r) := (n / s, n % s);
    assert n == q * s + r;
    ScaleDigit(n, q, r, p, s);
    DivModUnique(2 * (n * p), 32768, q, 2 * (r * p));
    DivTwice(n, r, s, q, 2);
  }

  lemma ScaleDigit(n: int, q: int, r: int, p: int, s: int)
    requires n == q * s + r && 0 <= r < s && p > 0 && p * s == 16384
    ensures 2 * (n * p) == q * 32768 + 2 * (r * p) && 0 <= r * p < 16384
  {
    assert (q * s + r) * p == (q * s) * p + r * p;
    MulAssoc(q, s, p);
    MulLe(0, r, p);
    MulLe(r + 1, s, p);
    assert (r + 1) * p == r * p + p;
  }

  lemma OnePower()
    ensures Power(2, 1) == 2
  {
    assert Power(2, 1) == 2 * Power(2, 0);
  }

  /** The exponent bits of one digit, high bits first. */
  method PowDigit(a: MINT, c: MINT, d: MINT, x: MINT, y: MINT, digit: Int32, ghost e: nat)
    requires a.Canonical() && c.Canonical() && c.len != 0 && c.Size() <= SAFE_DIGITS && Apart(a, c)
    requires d.Canonical() && d.Size() <= SAFE_DIGITS && 0 <= digit < 32768
    requires Scratch(a, c, d, x, y)
    requires Residue(d.Value(), a.Value(), e, c.Value()) && d.val != c.val && x.val != c.val
    modifies x, y, d, c.val
    ensures a.Canonical() && a.Value() == old(a.Value()) && c.Canonical() && c.Value() == old(c.Value())
    ensures d.Canonical() && d.Size() <= SAFE_DIGITS && (d.val == old(d.val) || fresh(d.val))
    ensures x.val == old(x.val) || fresh(x.val)
    ensures Residue(d.Value(), a.Value(), 32768 * e + digit, c.Value())
    ensures Abs(d.Value()) < Abs(c.Value())
  {
    hide Residue, Power, MINT.Valid, MINT.Canonical, MINT.Value;
    ghost var (av, cv) := (a.Value(), c.Value());
    var n := digit;
    var i := 0;
    ghost var f := e;
    FirstBits(digit, e);
    while i < 15
      invariant 0 <= i <= 15 && n == digit * Power(2, i)
      invariant f == Power(2, i) * e + digit / Power(2, 15 - i) && f >= 0
      invariant a.Canonical() && a.Value() == av && c.Canonical() && c.Value() == cv && Apart(a, c)
      invariant d.Canonical() && d.Size() <= SAFE_DIGITS && (d.val == old(d.val) || fresh(d.val))
      invariant x.val == old(x.val) || fresh(x.val)
      invariant Residue(d.Value(), av, f, cv)
      invariant i > 0 ==> Abs(d.Value()) < Abs(cv)
    {
      NextBit(digit, i);
      NextBits(e, i);
      n := n * 2;
      var bit := (n / 32768) % 2 == 1;
      PowBit(a, c, d, x, y, bit, f);
      f := 2 * f + if bit then 1 else 0;
      i := i + 1;
    }
    LastBits(digit);
  }

  lemma FirstBits(digit: int, e: nat)
    requires 0 <= digit < 32768
    ensures Power(2, 0) == 1 && digit / Power(2, 15) == 0
  {
    Power2Of15();
  }

  lemma NextBits(e: int, i: nat)
    ensures Power(2, i + 1) * e == 2 * (Power(2, i) * e)
  {
    assert Power(2, i + 1) == 2 * Power(2, i);
    MulAssoc(2, Power(2, i), e);
  }

  lemma LastBits(digit: int)
    ensures Power(2, 15) == 32768 && digit / Power(2, 0) == digit
  {
    Power2Of15();
  }

  /** mpow */
  method PowMod(a: MINT, b: MINT, c: MINT, result: MINT)
    requires a.Canonical() && b.Canonical() && c.Canonical() && c.len != 0 && c.Size() <= SAFE_DIGITS
    requires Apart(a, c) && Apart(b, c)
    modifies result, c.val
    ensures result.Canonical()
    ensures if old(b.Value()) > 0
            then exists q :: Truncated(Power(old(a.Value()), old(b.Value())), old(c.Value()), q, result.Value())
            else result.Value() == 1
    ensures a != result ==> a.Canonical() && a.Value() == old(a.Value())
    ensures c != result ==> c.Canonical() && c.Value() == old(c.Value())
  {
    hide Residue, Truncated, Power, Val, MINT.Valid, MINT.Canonical, MINT.Value;
    if a.len == 0 { ZeroLength(a); }
    CanonicalSign(b);
    var d := NewSet(1);
    if b.len > 0 {
      ghost var (av, bv, cv) := (a.Value(), b.Value(), c.Value());
      PowLoop(a, b, c, d);
      ResidueIsRemainder(d.Value(), av, bv, cv);
    }
    if a.len == 0 { ZeroLength(a); }
    d.MoveTo(result);
  }

  /** mpow's loops: d is a raised to the part of the exponent read so far, modulo c. */
  method PowLoop(a: MINT, b: MINT, c: MINT, d: MINT)
    requires a.Canonical() && b.Canonical() && c.Canonical() && c.len != 0 && c.Size() <= SAFE_DIGITS
    requires Apart(a, c) && (b == c || b.val != c.val) && b.len > 0
    requires d != a && d != b && d != c && d.Canonical() && d.Value() == 1 && d.Size() <= 1 && d.val != c.val
    modifies c.val, d
    ensures d.Canonical() && (d.val == old(d.val) || fresh(d.val))
    ensures old(b.Value()) >= 0 && Residue(d.Value(), old(a.Value()), old(b.Value()), old(c.Value()))
    ensures Abs(d.Value()) < Abs(old(c.Value()))
    ensures a.Canonical() && a.Value() == old(a.Value()) && c.Canonical() && c.Value() == old(c.Value())
  {
    hide Residue, Val, Radix, Power;
    ghost var (av, bv, cv, bs) := (a.Value(), b.Value(), c.Value(), b.val[..b.len]);
    assert bv == Val(bs) && IsCanonical(bs);
    CanonicalSign(b);
    HighDigits(bs);
    hide MINT.Valid, MINT.Canonical, MINT.Value, IsCanonical, Top, Apart;
    var x := new MINT();
    var y := new MINT();
    ResidueStart(av, cv);
    assert Scratch(a, c, d, x, y) && x != b && y != b && d != b;
    hide Scratch;
    var j := 0;
    ghost var e: nat := 0;
    while j < b.len
      invariant 0 <= j <= b.len
      invariant a.Canonical() && a.Value() == av && c.Canonical() && c.Value() == cv
      invariant d.Canonical() && d.Size() <= SAFE_DIGITS && (d.val == old(d.val) || fresh(d.val)) && fresh(x.val)
      invariant b.Canonical() && b.Value() == bv && e == Top(bs, j)
      invariant Residue(d.Value(), av, e, cv)
      invariant j > 0 ==> Abs(d.Value()) < Abs(cv)
      modifies x, y, d, c.val
    {
      e := PowNext(a, b, c, d, x, y, j, bs, e);
      j := j + 1;
    }
  }

  /** One digit of the exponent. */
  method PowNext(a: MINT, b: MINT, c: MINT, d: MINT, x: MINT, y: MINT, j: nat, ghost bs: seq<int>, ghost e: nat)
    returns (ghost f: nat)
    requires a.Canonical() && c.Canonical() && c.len != 0 && c.Size() <= SAFE_DIGITS && Apart(a, c)
    requires b.Canonical() && b.len > j && IsCanonical(bs) && Val(bs) == b.Value() && |bs| == b.len
    requires d.Canonical() && d.Size() <= SAFE_DIGITS && e == Top(bs, j) && (b == c || b.val != c.val)
    requires Scratch(a, c, d, x, y) && x != b && y != b && d != b
    requires Residue(d.Value(), a.Value(), e, c.Value()) && d.val != c.val && x.val != c.val
    modifies x, y, d, c.val
    ensures a.Canonical() && a.Value() == old(a.Value()) && c.Canonical() && c.Value() == old(c.Value())
    ensures b.Canonical() && b.Value() == old(b.Value())
    ensures d.Canonical() && d.Size() <= SAFE_DIGITS && (d.val == old(d.val) || fresh(d.val))
    ensures x.val == old(x.val) || fresh(x.val)
    ensures f == Top(bs, j + 1) && Residue(d.Value(), a.Value(), f, c.Value())
    ensures Abs(d.Value()) < Abs(c.Value())
  {
    hide Residue, Top, Val, IsCanonical, Apart, MINT.Valid, MINT.Canonical, MINT.Value;
    var digit := DigitAt(b, j, bs, e);
    PowDigit(a, c, d, x, y, digit, e);
    f := 32768 * e + digit;
  }

  /** The number that the j highest digits of s form. */
  ghost function Top(s: seq<int>, j: nat): int
    requires j <= |s|
  {
    Val(s[|s| - j..])
  }

  lemma HighDigits(s: seq<int>)
    ensures Top(s, 0) == 0 && Top(s, |s|) == Val(s)
  {
    assert s[|s|..] == [] && s[0..] == s;
  }

  /** Digit j of the exponent, from the top, where e is the number that the digits above it form. */
  method DigitAt(b: MINT, j: nat, ghost s: seq<int>, ghost e: int) returns (digit: Int32)
    requires b.Canonical() && b.len > j && IsCanonical(s) && Val(s) == b.Value()
    requires |s| == b.len && e == Top(s, j)
    ensures 0 <= digit < 32768 && 32768 * e + digit == Top(s, j + 1)
  {
    CanonicalSign(b);
    CanonicalUnique(b.val[..b.Size()], s);
    digit := b.val[b.len - j - 1];
    assert digit == s[b.len - j - 1];
    ValSuffix(s, b.len - j - 1);
  }

  /** Exactly when mpow's result is the remainder of the power by c, for any a and c: for the
      exponent 0 it returns 1 without reducing it. */
  lemma PowModExact(a: int, b: nat, c: int, result: int)
    requires c != 0
    requires if b > 0 then exists q :: Truncated(Power(a, b), c, q, result) else result == 1
    ensures (exists q :: Truncated(Power(a, b), c, q, result)) <==> b > 0 || Abs(c) > 1
  {
    if b == 0 {
      assert Power(a, 0) == 1;
      assert Abs(c) > 1 ==> Truncated(Power(a, 0), c, 0, 1);
    }
  }

  /** Exactly when it is the residue of the power in the range of c: the remainder of a negative
      power is not, unless c divides the power. */
  lemma PowModInRange(a: int, b: nat, c: int, result: int)
    requires c > 0
    requires if b > 0 then exists q :: Truncated(Power(a, b), c, q, result) else result == 1
    ensures result == Power(a, b) % c <==>
      if b == 0 then c > 1 else a >= 0 || b % 2 == 0 || Divides(c, Power(a, b))
  {
    if b == 0 {
      if c > 1 {
        DivModUnique(1, c, 0, 1);
      }
    } else {
      var q :| Truncated(Power(a, b), c, q, result);
      PowerSign(a, b);
      RemainderInRange(Power(a, b), c, q, result);
    }
  }

  lemma RemainderInRange(x: int, c: int, q: int, r: int)
    requires c > 0 && Truncated(x, c, q, r)
    ensures r == x % c <==> x >= 0 || Divides(c, x)
  {
    hide Divides;
    if r >= 0 {
      DivModUnique(x, c, q, r);
      if x < 0 {
        assert Times(q, c) == x;
        MultipleOfTimes(x, c, q);
      }
    } else {
      DivModUnique(x, c, q - 1, r + c);
      NoMultipleBetween(x, c, q, r);
    }
  }

  lemma MultipleOfTimes(x: int, c: int, q: int)
    requires x == q * c
    ensures Divides(c, x)
  {
    assert Times(q, c) == x;
  }

  lemma NoMultipleBetween(x: int, c: int, q: int, r: int)
    requires c > 0 && x == q * c + r && -c < r < 0
    ensures !Divides(c, x)
  {
    if Divides(c, x) {
      var t :| Times(t, c) == x;
      DivModUnique(x, c, q - 1, r + c);
      DivModUnique(x, c, t, 0);
      assert false;
    }
  }

  lemma {:induction false} PowerSign(a: int, n: nat)
    ensures a >= 0 || n % 2 == 0 ==> Power(a, n) >= 0
    ensures a < 0 && n % 2 == 1 ==> Power(a, n) < 0
    ensures a < 0 ==> Power(a, n) != 0
  {
    if n > 0 {
      PowerSign(a, n - 1);
      ProductSign(a, Power(a, n - 1));
    }
  }

  /** -2 to the power 2 modulo 5 is stored as 4. */
  method MinusTwoSquared(p: MINT)
    modifies p
    ensures p.Canonical() && p.Value() == 4
  {
    hide MINT.Valid, MINT.Canonical, MINT.Value, Power, Truncated;
    var a := NewSet(-2);
    var b := NewSet(2);
    var c := NewSet(5);
    PowersOfMinusTwo();
    PowMod(a, b, c, p);
    ghost var q :| Truncated(4, 5, q, p.Value());
    TruncatedUnique(4, 5, q, p.Value(), 0, 4);
  }

  /** -2 to the power 1 modulo 5 is stored as -2, although the residue is 3. */
  method MinusTwo(p: MINT)
    modifies p
    ensures p.Canonical() && p.Value() == -2 && Power(-2, 1) % 5 == 3
  {
    hide MINT.Valid, MINT.Canonical, MINT.Value, Power, Truncated;
    var a := NewSet(-2);
    var b := NewSet(1);
    var c := NewSet(5);
    PowersOfMinusTwo();
    PowMod(a, b, c, p);
    ghost var q :| Truncated(-2, 5, q, p.Value());
    TruncatedUnique(-2, 5, q, p.Value(), 0, -2);
  }

  lemma PowersOfMinusTwo()
    ensures Power(-2, 1) == -2 && Power(-2, 2) == 4 && Truncated(-2, 5, 0, -2) && Truncated(4, 5, 0, 4)
  {
    assert Power(-2, 1) == -2 * Power(-2, 0);
  }

  /** Every number to the power 0 modulo 1 is 0, but mpow stores 1. */
  method PowerModuloOne(a: MINT, result: MINT)
    requires a.Canonical()
    modifies result
    ensures result.Canonical() && result.Value() == 1 && Power(old(a.Value()), 0) % 1 == 0
  {
    hide MINT.Valid, MINT.Canonical, MINT.Value;
    var b := NewSet(0);
    var c := NewSet(1);
    PowMod(a, b, c, result);
  }

  // ---- mipow

  /** The largest power of two that is at most n. */
  ghost function TopPower(n: nat): (t: nat)
    ensures t <= n && (n > 0 ==> n < 2 * t)
  {
    if n <= 1 then n else 2 * TopPower(n / 2)
  }

  /** mipow. The code squares a to every power of two up to n; the largest of these is the number
      that has to be in mmult's range. */
  method IntPow(a: MINT, n: Int32, b: MINT)
    requires a.Canonical() && n >= 0 && SafeFactor(Power(Abs(a.Value()), TopPower(n)))
    modifies b
    ensures b.Canonical() && b.Value() == Power(old(a.Value()), n)
  {
    hide Power, SafeFactor, TopPower, MINT.Valid, MINT.Canonical, MINT.Value;
    ghost var av := a.Value();
    var result := NewSet(1);
    var temp := NewCopy(a);
    var m := n;
    ghost var t: nat := 1;
    PowerEnd(av);
    while m != 0
      invariant 0 <= m && t >= 1 && (m > 0 ==> t * TopPower(m) == TopPower(n))
      invariant result.Canonical() && temp.Canonical() && fresh(temp.val) && fresh(result.val)
      invariant result.Value() * Power(temp.Value(), m) == Power(av, n)
      invariant temp.Value() == Power(av, t)
      decreases m
    {
      PowerHalf(temp.Value(), result.Value(), m);
      NextTop(t, m, TopPower(n));
      SmallerPower(av, t, TopPower(n));
      SmallerIsSafe(temp.Value(), Power(Abs(av), TopPower(n)));
      SafeSize(temp);
      if m % 2 == 1 {
        Multiply(result, temp, result);
      }
      Multiply(temp, temp, temp);
      PowerAdd(av, t, t);
      m := m / 2;
      t := 2 * t;
    }
    PowerEnd(temp.Value());
    result.MoveTo(b);
  }

  /** While bits are left, t is at most the largest power of two that is formed. */
  lemma NextTop(t: nat, m: nat, n: nat)
    requires t >= 1 && m >= 1 && t * TopPower(m) == n
    ensures t <= n && (m > 1 ==> (2 * t) * TopPower(m / 2) == n)
  {
    var x := TopPower(m);
    assert x >= 1 && (m > 1 ==> x == 2 * TopPower(m / 2));
    hide TopPower;
    MulLe(1, x, t);
    TwiceTimes(t, TopPower(m / 2));
  }

  lemma TwiceTimes(t: int, x: int)
    ensures (2 * t) * x == t * (2 * x)
  {
  }

  lemma SmallerPower(a: int, t: nat, n: nat)
    requires 1 <= t <= n
    ensures Abs(Power(a, t)) <= Power(Abs(a), n)
  {
    hide Power;
    PowerAbs(a, t);
    if a == 0 {
      ZeroPower(t);
      ZeroPower(n);
    } else {
      PowerMonotone(Abs(a), t, n);
    }
  }

  lemma ZeroPower(n: nat)
    requires n >= 1
    ensures Power(0, n) == 0
  {
    assert Power(0, n) == 0 * Power(0, n - 1);
  }

  lemma {:induction false} PowerAbs(a: int, n: nat)
    ensures Abs(Power(a, n)) == Power(Abs(a), n)
  {
    if n > 0 {
      PowerAbs(a, n - 1);
      AbsProduct(a, Power(a, n - 1));
    }
  }

  lemma AbsProduct(x: int, y: int)
    ensures Abs(x * y) == Abs(x) * Abs(y)
  {
    assert (-x) * y == -(x * y) && x * (-y) == -(x * y) && (-x) * (-y) == x * y;
    if x >= 0 && y >= 0 { MulLe(0, x, y); }
    if x < 0 && y >= 0 { MulLe(0, -x, y); }
    if x >= 0 && y < 0 { MulLe(0, x, -y); }
    if x < 0 && y < 0 { MulLe(0, -x, -y); }
  }

  /** Squaring the base and halving the exponent keeps result times base to the exponent. */
  lemma PowerHalf(t: int, r: int, m: nat)
    requires m > 0
    ensures r * Power(t, m) == (if m % 2 == 1 then r * t else r) * Power(t * t, m / 2)
  {
    PowerOfSquare(t, m / 2);
    if m % 2 == 1 {
      assert Power(t, m) == t * Power(t, 2 * (m / 2));
      MulAssoc(r, t, Power(t * t, m / 2));
    }
  }

  lemma {:induction false} PowerOfSquare(t: int, k: nat)
    ensures Power(t, 2 * k) == Power(t * t, k)
  {
    if k > 0 {
      PowerOfSquare(t, k - 1);
      assert Power(t, 2 * k) == t * (t * Power(t, 2 * k - 2));
      MulAssoc(t, t, Power(t, 2 * (k - 1)));
    }
  }

  lemma PowerEnd(t: int)
    ensures Power(t, 0) == 1 && Power(t, 1) == t
  {
    assert Power(t, 1) == t * Power(t, 0);
  }
}
