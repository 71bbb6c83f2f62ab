/** Mout.c: writing a number into a buffer of computed size, and reading one from a text. */
module Mtextio {
  import opened Digits
  import opened Numbers
  import opened Mint
  import opened Mutil
  import opened Madd
  import opened Mmult
  import opened Mfloat
  import opened Mout
  import opened Text
  import opened Numerals
  import opened Grammar

  // ---- m_out_b

  /** slog: the integer part of the base 2 logarithm. */
  method Slog(n: int) returns (i: nat)
    requires n > 0
    ensures Power(2, i) <= n < Power(2, i + 1)
  {
    var m := n / 2;
    i := 0;
    HalveStart(n);
    while m != 0
      invariant m >= 0 && Power(2, i) <= n && m == n / Power(2, i + 1)
      decreases m
    {
      HalveAgain(n, i + 1);
      m := m / 2;
      i := i + 1;
    }
    BelowPower(n, i + 1);
  }

  lemma HalveStart(n: int)
    requires n > 0
    ensures Power(2, 0) <= n && n / 2 == n / Power(2, 1)
  {
    assert Power(2, 1) == 2 * Power(2, 0);
  }

  lemma BelowPower(n: int, k: nat)
    requires n > 0 && n / Power(2, k) == 0
    ensures n < Power(2, k)
  {
    assert n == (n / Power(2, k)) * Power(2, k) + n % Power(2, k);
  }

  /** The number of characters that digits may take: one for every slog(b) bits, rounded up. */
  function DigitRoom(len: nat, s: nat): int
    requires s > 0
  {
    (15 * len + (s - 1)) / s
  }

  /** While a digit is still to come, k digits have not filled their room. */
  lemma RoomLeft(x: int, b: int, k: nat, s: nat, len: nat, rest: int)
    requires s > 0 && Power(2, s) <= b && 0 < x < Radix(len)
    requires rest > 0 && rest * Power(b, k) <= x
    ensures k < DigitRoom(len, s)
  {
    hide Power, Radix;
    PowerOfPower(b, k, s);
    MulLe(1, rest, Power(b, k));
    RadixIsPower2(len);
    Power2Strict(s * k, 15 * len);
    CeilingRoom(15 * len, s, k);
  }

  lemma {:induction false} PowerOfPower(b: int, k: nat, s: nat)
    requires Power(2, s) <= b
    ensures Power(2, s * k) <= Power(b, k)
  {
    if k > 0 {
      PowerOfPower(b, k - 1, s);
      PowerAdd(2, s, s * (k - 1));
      assert s * k == s + s * (k - 1);
      MulLe(Power(2, s), b, Power(2, s * (k - 1)));
      MulLe(Power(2, s * (k - 1)), Power(b, k - 1), b);
    } else {
      assert s * k == 0;
    }
  }

  lemma CeilingRoom(n: int, s: int, k: int)
    requires s > 0 && s * k < n
    ensures k < (n + (s - 1)) / s
  {
    var q := (n + (s - 1)) / s;
    assert n + (s - 1) == q * s + (n + (s - 1)) % s;
    if k >= q {
      MulLe(q, k, s);
      assert false;
    }
  }

  /** The buffer of m_out_b while it is filled from the end: the text of x0 is what is still to be
      written for x followed by what stands above bp. k digits have been written. */
  ghost predicate Filled(written: string, x0: nat, x: nat, b: int, blanks: bool, k: nat, pending: bool)
    requires 2 <= b <= 32768
  {
    && TextFrom(x0, b, blanks, 0)
       == (if pending then TextFrom(x, b, blanks, k) else LastGroup(x, b, blanks, k)) + written
    && x * Power(b, k) <= x0
  }

  /** How many blanks stand among k digits when another digit is about to follow. */
  function BlanksBelow(blanks: bool, k: nat): nat {
    if blanks then k / 10 else 0
  }

  lemma FilledStart(x0: nat, b: int, blanks: bool)
    requires 2 <= b <= 32768
    ensures Filled("", x0, x0, b, blanks, 0, false)
  {
    assert LastGroup(x0, b, blanks, 0) + "" == LastGroup(x0, b, blanks, 0);
    assert LastGroup(x0, b, blanks, 0) + Gap(blanks, 0) == LastGroup(x0, b, blanks, 0);
  }

  lemma FilledDigit(w: string, x0: nat, x: nat, b: int, blanks: bool, k: nat)
    requires 2 <= b <= 32768 && x > 0 && Filled(w, x0, x, b, blanks, k, false)
    ensures 0 <= x / b < x && 0 <= x % b < b
    ensures Filled([DigitChar(x % b)] + w, x0, x / b, b, blanks, k + 1, true)
  {
    QuotientSmaller(x, b);
    var t := TextFrom(x / b, b, blanks, k + 1);
    assert (t + [DigitChar(x % b)]) + w == t + ([DigitChar(x % b)] + w);
    MulLe((x / b) * b, x, Power(b, k));
    MulAssoc(x / b, b, Power(b, k));
  }

  lemma FilledGap(w: string, x0: nat, x: nat, b: int, blanks: bool, k: nat)
    requires 2 <= b <= 32768 && Filled(w, x0, x, b, blanks, k, true)
    ensures Filled(if x > 0 then Gap(blanks, k) + w else w, x0, x, b, blanks, k, false)
  {
    if x > 0 {
      assert (LastGroup(x, b, blanks, k) + Gap(blanks, k)) + w == LastGroup(x, b, blanks, k) + (Gap(blanks, k) + w);
    }
  }

  /** The size of the buffer: digits, a blank every ten digits, a sign and the terminator. */
  function RegionSize(room: int, blanks: bool): int {
    room + (if blanks then room / 10 else 0) + 2
  }

  /** sdiv by the base of a number that is positive. */
  method NextDigit(x: MINT, b: int) returns (r: Short)
    requires x.Canonical() && x.Value() > 0 && 2 <= b <= 32768
    modifies x
    ensures x.Canonical() && x.Value() == old(x.Value()) / b && x.len >= 0 && (x.len > 0 <==> x.Value() > 0)
    ensures r == old(x.Value()) % b
  {
    hide SmallQuotient, MINT.Canonical, MINT.Valid, MINT.Value;
    ghost var xv := x.Value();
    r := SmallDivide(x, b, x);
    QuotientOfPositive(xv, b, x.Value(), r);
    CanonicalSign(x);
  }

  lemma QuotientOfPositive(x: int, b: int, q: int, r: int)
    requires x > 0 && b >= 2 && SmallQuotient(x, b, q, r)
    ensures q == x / b && r == x % b && q >= 0
  {
    DivModUnique(x, b, q, r);
    QuotientSmaller(x, b);
  }

  /** The inner loop of m_out_b: up to ten digits. */
  method PrintGroup(x: MINT, b: int, blanks: bool, obuf: array<char>, bp0: int, ghost k0: nat, ghost x0: nat,
                    ghost room: nat)
    returns (bp: int, ghost k: nat)
    requires x.Canonical() && x.Value() > 0 && x.len > 0 && 2 <= b <= 32768 && k0 % 10 == 0
    requires obuf.Length == RegionSize(room, blanks)
    requires bp0 == obuf.Length - 2 - k0 - BlanksBelow(blanks, k0)
    requires forall j: nat, v :: v > 0 && Placed(v, b, j) <= x0 ==> j < room
    requires k0 < room && Filled(obuf[bp0 + 1..obuf.Length - 1], x0, x.Value(), b, blanks, k0, false)
    modifies x, obuf
    ensures x.Canonical() && x.len >= 0 && (x.len > 0 <==> x.Value() > 0) && x.Value() >= 0
    ensures k0 < k <= room && bp == bp0 - (k - k0) >= 0 && k <= k0 + 10 && (x.Value() > 0 ==> k == k0 + 10)
    ensures x.Value() < old(x.Value()) && (x.Value() > 0 ==> k < room)
    ensures Filled(obuf[bp + 1..obuf.Length - 1], x0, x.Value(), b, blanks, k, true)
    ensures obuf[obuf.Length - 1] == old(obuf[obuf.Length - 1])
  {
    hide Filled, Placed, MINT.Canonical, MINT.Valid, MINT.Value;
    ghost var (end, xv) := (obuf.Length - 1, x.Value());
    bp, k := bp0, k0;
    var i := 0;
    while i < 10 && x.len > 0
      invariant 0 <= i <= 10 && k == k0 + i && bp == bp0 - i && 0 <= bp
      invariant x.Canonical() && x.len >= 0 && (x.len > 0 <==> x.Value() > 0) && x.Value() >= 0
      invariant if i == 0 then x.Value() == xv else x.Value() < xv
      invariant x.Value() > 0 ==> k < room
      invariant k <= room
      invariant Filled(obuf[bp + 1..end], x0, x.Value(), b, blanks, k, i > 0)
      invariant obuf[end] == old(obuf[end])
      decreases 10 - i
    {
      NoGapYet(obuf[bp + 1..end], x0, x.Value(), b, blanks, k0, i);
      PrintDigit(x, b, blanks, obuf, bp, k, x0);
      bp := bp - 1;
      k := k + 1;
      i := i + 1;
      DigitsFit(obuf[bp + 1..end], x0, x.Value(), b, blanks, k);
    }
  }

  /** The last digit of x goes to place bp. */
  method PrintDigit(x: MINT, b: int, blanks: bool, obuf: array<char>, bp: int, ghost k: nat, ghost x0: nat)
    requires x.Canonical() && x.Value() > 0 && 2 <= b <= 32768 && 0 <= bp < obuf.Length - 1
    requires Filled(obuf[bp + 1..obuf.Length - 1], x0, x.Value(), b, blanks, k, false)
    modifies x, obuf
    ensures x.Canonical() && x.len >= 0 && (x.len > 0 <==> x.Value() > 0) && 0 <= x.Value() < old(x.Value())
    ensures Filled(obuf[bp..obuf.Length - 1], x0, x.Value(), b, blanks, k + 1, true)
    ensures obuf[obuf.Length - 1] == old(obuf[obuf.Length - 1])
  {
    hide Filled, MINT.Canonical, MINT.Valid, MINT.Value;
    ghost var w := obuf[bp + 1..obuf.Length - 1];
    FilledDigit(w, x0, x.Value(), b, blanks, k);
    var r := NextDigit(x, b);
    obuf[bp] := if r < 10 then (r + '0' as int) as char else (r - 10 + 'A' as int) as char;
    assert obuf[bp..obuf.Length - 1] == [DigitChar(r)] + w;
  }

  ghost function Placed(x: int, b: int, k: nat): int {
    x * Power(b, k)
  }

  /** Within a group of ten no blank is due. */
  lemma NoGapYet(w: string, x0: nat, x: nat, b: int, blanks: bool, k0: nat, i: nat)
    requires 2 <= b <= 32768 && k0 % 10 == 0 && i < 10 && x > 0
    requires Filled(w, x0, x, b, blanks, k0 + i, i > 0)
    ensures Filled(w, x0, x, b, blanks, k0 + i, false)
  {
    assert i > 0 ==> (k0 + i) % 10 != 0;
    if i > 0 {
      FilledGap(w, x0, x, b, blanks, k0 + i);
      assert "" + w == w;
    }
  }

  lemma DigitsFit(w: string, x0: nat, x: nat, b: int, blanks: bool, k: nat)
    requires 2 <= b <= 32768 && Filled(w, x0, x, b, blanks, k, true)
    ensures Placed(x, b, k) <= x0
  {
  }

  lemma TextComplete(w: string, x0: nat, b: int, blanks: bool, k: nat)
    requires 2 <= b <= 32768 && Filled(w, x0, 0, b, blanks, k, false)
    ensures w == TextFrom(x0, b, blanks, 0)
  {
    assert "" + w == w;
  }

  /** The outer loop of m_out_b: bp ends below the text. */
  method PrintDigits(x: MINT, b: int, blanks: bool, obuf: array<char>, ghost room: nat)
    returns (bp: int)
    requires x.Canonical() && x.Value() > 0 && x.len > 0 && 2 <= b <= 32768
    requires obuf.Length == RegionSize(room, blanks) && room > 0
    requires forall j: nat, v :: v > 0 && Placed(v, b, j) <= x.Value() ==> j < room
    modifies x, obuf
    ensures 0 <= bp < obuf.Length - 1
    ensures obuf[bp + 1..obuf.Length - 1] == TextFrom(old(x.Value()), b, blanks, 0)
  {
    hide Filled, Placed, RegionSize, BlanksBelow, MINT.Canonical, MINT.Valid, MINT.Value;
    var end := obuf.Length - 1;
    ghost var x0: nat := x.Value();
    ghost var k := 0;
    StartFits(room, blanks);
    bp := end;
    obuf[bp] := '\0';
    bp := bp - 1;
    FilledStart(x0, b, blanks);
    assert obuf[bp + 1..end] == "";
    while x.len > 0
      invariant x.Canonical() && x.len >= 0 && (x.len > 0 <==> x.Value() > 0) && x.Value() >= 0
      invariant 0 <= k <= room && (x.Value() > 0 ==> k % 10 == 0 && k < room)
      invariant 0 <= bp < end
      invariant Filled(obuf[bp + 1..end], x0, x.Value(), b, blanks, k, false)
      invariant x.Value() > 0 ==> bp == end - 1 - k - BlanksBelow(blanks, k)
      decreases x.Value()
    {
      bp, k := PrintGroup(x, b, blanks, obuf, bp, k, x0, room);
      FilledGap(obuf[bp + 1..end], x0, x.Value(), b, blanks, k);
      NextBlank(blanks, k, room);
      ghost var w := obuf[bp + 1..end];
      if blanks && x.len > 0 {
        obuf[bp] := ' ';
        assert obuf[bp..end] == " " + w;
        bp := bp - 1;
      } else {
        assert "" + w == w;
      }
    }
    TextComplete(obuf[bp + 1..end], x0, b, blanks, k);
  }

  lemma StartFits(room: nat, blanks: bool)
    requires room > 0
    ensures RegionSize(room, blanks) >= 3 && BlanksBelow(blanks, 0) == 0
  {
  }

  lemma NextBlank(blanks: bool, k: nat, room: nat)
    requires k >= 1
    ensures k % 10 == 0 ==> BlanksBelow(blanks, k) == BlanksBelow(blanks, k - 10) + if blanks then 1 else 0
    ensures k < room ==> k + BlanksBelow(blanks, k) + 2 < RegionSize(room, blanks)
  {
  }

  /** m_out_b: out is what goes to the file. */
  method Print(a: MINT, b: int, blanks: bool) returns (out: string)
    requires a.Canonical() && b <= 32768
    ensures out == if b < 2 then "" else NumberText(a.Value(), b, blanks)
    ensures 2 <= b <= 36 ==> IsTextOf(out, a.Value(), b, blanks)
  {
    hide TextFrom, IsTextOf, MINT.Canonical, MINT.Valid, MINT.Value;
    if b < 2 {
      return "";
    }
    if b <= 36 {
      WritesTheNumber(a.Value(), b, blanks);
    }
    var x := NewCopy(a);
    CanonicalSign(x);
    var negative := false;
    if x.len == 0 {
      return "0";
    } else if x.len < 0 {
      x.Negate();
      negative := true;
    }
    out := PrintRegion(x, b, blanks, negative);
  }

  /** The region of m_out_b: it is filled from the end with the digits of x and the sign. */
  method PrintRegion(x: MINT, b: int, blanks: bool, negative: bool) returns (out: string)
    requires x.Canonical() && x.len > 0 && x.Value() > 0 && 2 <= b <= 32768
    modifies x
    ensures out == (if negative then "-" else "") + TextFrom(old(x.Value()), b, blanks, 0)
  {
    hide Placed, Radix, Power, TextFrom, LastGroup, MINT.Canonical, MINT.Valid, MINT.Value;
    BelowItsWeight(x);
    var s := Slog(b);
    SlogPositive(b, s);
    var room := DigitRoom(x.len, s);
    RoomSuffices(x.Value(), b, s, x.len);
    hide DigitRoom;
    var obuf := new char[RegionSize(room, blanks)];
    var end := obuf.Length - 1;
    var bp := PrintDigits(x, b, blanks, obuf, room);
    ghost var w := obuf[bp + 1..end];
    if negative {
      obuf[bp] := '-';
      assert obuf[bp..end] == "-" + w;
      bp := bp - 1;
    } else {
      assert "" + w == w;
    }
    out := obuf[bp + 1..end];
  }

  lemma BelowItsWeight(x: MINT)
    requires x.Canonical() && x.len > 0
    ensures 0 < x.Value() < Radix(x.len)
  {
    CanonicalSign(x);
  }

  lemma SlogPositive(b: int, s: nat)
    requires b >= 2 && b < Power(2, s + 1)
    ensures s > 0
  {
    assert Power(2, 0 + 1) == 2 * Power(2, 0);
  }

  /** The buffer of m_out_b has room for every digit of x. */
  lemma RoomSuffices(x: int, b: int, s: nat, len: nat)
    requires s > 0 && b >= 2 && Power(2, s) <= b && 0 < x < Radix(len) && len > 0
    ensures DigitRoom(len, s) > 0
    ensures forall j: nat, v :: v > 0 && Placed(v, b, j) <= x ==> j < DigitRoom(len, s)
  {
    CeilingRoom(15 * len, s, 0);
    forall j: nat, v | v > 0 && Placed(v, b, j) <= x
      ensures j < DigitRoom(len, s)
    {
      RoomLeft(x, b, j, s, len, v);
    }
  }

  /** m_out */
  method Out(a: MINT, b: int) returns (out: string)
    requires a.Canonical() && b <= 32768
    ensures out == if b < 2 then "" else NumberText(a.Value(), b, false)
    ensures 2 <= b <= 36 ==> IsTextOf(out, a.Value(), b, false)
    ensures b >= 2 ==> (out == NumberText(a.Value(), b, true) <==> Abs(a.Value()) < Power(b, 10))
  {
    hide IsTextOf, MINT.Canonical, MINT.Valid, MINT.Value, NumberText, Power;
    if b >= 2 {
      BlanksMatter(a.Value(), b);
    }
    out := Print(a, b, false);
  }

  // ---- m_in_b

  /** m_in_b on the text f: eof tells that it ran into the end before the number was closed. */
  method Read(a: MINT, b: int, f: string, blanks: bool) returns (eof: bool)
    requires -32768 < b < 32768
    modifies a
    ensures a.Canonical() && (a.Value(), eof) == TextRead(f, b, blanks)
    ensures IsReading(f, b, blanks, a.Value(), eof)
  {
    hide MINT.Canonical, MINT.Valid, MINT.Value, DigitValue, Highest, TextRead, IsReading;
    TextReadStart(f, b, blanks);
    a.Set(0);
    var base := NewSet(b);
    var sign := 1;
    var flag := false;
    var dectop := if b <= 10 then '0' as int + b - 1 else '9' as int;
    var alphatop := if b > 10 then 'a' as int + b - 10 else 0;
    var i := 0;
    assert f[0..] == f;
    while i < |f|
      invariant 0 <= i <= |f| && (sign == 1 || sign == -1)
      invariant a.Canonical() && a != base && base.Canonical() && base.Value() == b && (b > 0 ==> base.len == 1)
      invariant TextRead(f, b, blanks) == ReadText(f[i..], b, Highest(b), blanks, a.Value(), sign, flag)
      decreases |f| - i
    {
      var c := f[i];
      assert f[i..][0] == c && f[i..][1..] == f[i + 1..];
      if c == '\\' {
        if i + 1 == |f| {
          return true;
        }
        assert f[i..][2..] == f[i + 2..];
        i := i + 2;
      } else if c == '\n' || c == ' ' || c == '\t' {
        if flag && (c == '\n' || !blanks) {
          ApplySign(a, sign);
          return false;
        }
        i := i + 1;
      } else if c == '-' {
        sign := -sign;
        i := i + 1;
      } else {
        var k := c as int;
        if 'A' <= c <= 'Z' {
          k := k - 'A' as int + 'a' as int;
        }
        DigitBounds(c, b, k, dectop, alphatop);
        if '0' as int <= k <= dectop {
          AppendDigit(a, base, k - '0' as int);
          flag := true;
          i := i + 1;
        } else if b > 10 && 'a' as int <= k <= alphatop {
          AppendDigit(a, base, k - 'a' as int + 10);
          flag := true;
          i := i + 1;
        } else {
          ApplySign(a, sign);
          return false;
        }
      }
    }
    return true;
  }

  lemma TextReadStart(f: string, b: int, blanks: bool)
    ensures TextRead(f, b, blanks) == ReadText(f, b, Highest(b), blanks, 0, 1, false)
    ensures IsReading(f, b, blanks, TextRead(f, b, blanks).0, TextRead(f, b, blanks).1)
  {
    var r := TextRead(f, b, blanks);
    ReadingExact(f, b, blanks, r.0, r.1);
  }

  /** The two bounds of m_in_b accept the digits up to Highest(b). */
  lemma DigitBounds(c: char, b: int, k: int, dectop: int, alphatop: int)
    requires k == Lower(c) as int
    requires dectop == if b <= 10 then '0' as int + b - 1 else '9' as int
    requires b > 10 ==> alphatop == 'a' as int + b - 10
    ensures DigitValue(c, Highest(b)) ==
      if '0' as int <= k <= dectop then Some(k - '0' as int)
      else if b > 10 && 'a' as int <= k <= alphatop then Some(k - 'a' as int + 10)
      else None
    ensures DigitValue(c, Highest(b)) != None ==> b > 0 && DigitValue(c, Highest(b)).value <= b
  {
  }

  method ApplySign(a: MINT, sign: int)
    requires a.Canonical() && (sign == 1 || sign == -1)
    modifies a`len
    ensures a.Canonical() && a.Value() == old(a.Value()) * sign
  {
    if sign == -1 {
      a.Negate();
    }
  }

  /** Multiplying by the base and adding the digit. */
  method AppendDigit(a: MINT, base: MINT, d: int)
    requires a.Canonical() && base.Canonical() && base.len == 1 && a != base && 0 <= d < 32768
    modifies a
    ensures a.Canonical() && a.Value() == old(a.Value()) * base.Value() + d
  {
    hide MINT.Canonical, MINT.Valid, MINT.Value;
    Multiply(a, base, a);
    if d != 0 {
      var y := NewSet(d);
      Add(a, y, a);
    }
  }

  /** m_in */
  method In(a: MINT, b: int, f: string) returns (eof: bool)
    requires -32768 < b < 32768
    modifies a
    ensures a.Canonical() && (a.Value(), eof) == TextRead(f, b, true)
    ensures IsReading(f, b, true, a.Value(), eof)
  {
    eof := Read(a, b, f, true);
  }
}
