/** The text that m_out_b writes and what m_in_b makes of a text (Mout.c), as functions. */
module Text {
  import opened Digits
  import opened Numbers

  // ---- writing

  function DigitChar(r: int): char
    requires 0 <= r < 32768
  {
    if r < 10 then ('0' as int + r) as char else (r - 10 + 'A' as int) as char
  }

  /** The digits of x in base b, where k digits already stand to the right of them; if blanks, a
      blank follows every digit that has a positive multiple of ten to its right. */
  function TextFrom(x: nat, b: int, blanks: bool, k: nat): string
    requires 2 <= b <= 32768
    decreases x
  {
    if x == 0 then "" else LastGroup(x, b, blanks, k) + Gap(blanks, k)
  }

  function LastGroup(x: nat, b: int, blanks: bool, k: nat): string
    requires 2 <= b <= 32768
    decreases x, 0
  {
    if x == 0 then "" else
      QuotientSmaller(x, b);
      TextFrom(x / b, b, blanks, k + 1) + [DigitChar(x % b)]
  }

  function Gap(blanks: bool, k: nat): string {
    if blanks && k > 0 && k % 10 == 0 then " " else ""
  }

  lemma QuotientSmaller(x: int, b: int)
    requires x > 0 && b >= 2
    ensures 0 <= x / b < x && x == (x / b) * b + x % b
  {
    var q := x / b;
    assert x == q * b + x % b;
    if q < 0 {
      MulLe(q, -1, b);
    } else {
      MulLe(2, b, q);
    }
  }

  /** What m_out_b writes for v. */
  function NumberText(v: int, b: int, blanks: bool): string
    requires 2 <= b <= 32768
  {
    if v == 0 then "0" else (if v < 0 then "-" else "") + TextFrom(Abs(v), b, blanks, 0)
  }

  // ---- reading

  datatype Option<T> = None | Some(value: T)

  /** The value of the highest digit that m_in_b accepts in base b. Up to base 10 it is b - 1, but
      the bound set for the letters is that of the letter with value b. */
  function Highest(b: int): int {
    if b > 10 then b else b - 1
  }

  function Lower(c: char): char {
    if 'A' <= c <= 'Z' then (c as int - 'A' as int + 'a' as int) as char else c
  }

  /** The value of a character as a digit of at most top, small and capital letters alike. */
  function DigitValue(c0: char, top: int): (r: Option<int>)
    ensures r != None ==> 0 <= r.value <= top
  {
    var c := Lower(c0) as int;
    if '0' as int <= c <= '9' as int && c - '0' as int <= top then Some(c - '0' as int)
    else if top >= 10 && 'a' as int <= c <= 'a' as int + (top - 10) then Some(c - 'a' as int + 10)
    else None
  }

  /** How a reader in base b that takes digits up to top goes on: the number read so far, the sign
      so far, and whether a digit was seen. */
  function ReadText(f: string, b: int, top: int, blanks: bool, acc: int, sign: int, flag: bool): (r: (int, bool))
    decreases |f|
  {
    if f == "" then (acc, true)
    else if f[0] == '\\' then
      if |f| == 1 then (acc, true) else ReadText(f[2..], b, top, blanks, acc, sign, flag)
    else if f[0] == '\n' || f[0] == ' ' || f[0] == '\t' then
      if flag && (f[0] == '\n' || !blanks) then (acc * sign, false)
      else ReadText(f[1..], b, top, blanks, acc, sign, flag)
    else if f[0] == '-' then ReadText(f[1..], b, top, blanks, acc, -sign, flag)
    else match DigitValue(f[0], top)
      case Some(d) => ReadText(f[1..], b, top, blanks, acc * b + d, sign, true)
      case None => (acc * sign, false)
  }

  /** What m_in_b makes of f. */
  function TextRead(f: string, b: int, blanks: bool): (r: (int, bool)) {
    ReadText(f, b, Highest(b), blanks, 0, 1, false)
  }

  /** What a reader that takes the digits of base b only makes of it. */
  function StrictRead(f: string, b: int, blanks: bool): (r: (int, bool)) {
    ReadText(f, b, b - 1, blanks, 0, 1, false)
  }

  lemma DigitRoundTrip(r: int, b: int)
    requires 2 <= b <= 36 && 0 <= r < b
    ensures DigitValue(DigitChar(r), Highest(b)) == Some(r)
    ensures DigitChar(r) != '\\' && DigitChar(r) != '\n' && DigitChar(r) != ' '
    ensures DigitChar(r) != '\t' && DigitChar(r) != '-'
  {
  }

  lemma ReadDigit(r: int, f: string, b: int, blanks: bool, acc: int, sign: int, flag: bool)
    requires 2 <= b <= 36 && 0 <= r < b
    ensures ReadText([DigitChar(r)] + f, b, Highest(b), blanks, acc, sign, flag)
         == ReadText(f, b, Highest(b), blanks, acc * b + r, sign, true)
  {
    DigitRoundTrip(r, b);
    assert ([DigitChar(r)] + f)[1..] == f;
  }

  lemma ReadGap(k: nat, wb: bool, f: string, b: int, rb: bool, acc: int, sign: int, flag: bool)
    requires 2 <= b <= 36 && (wb ==> rb)
    ensures ReadText(Gap(wb, k) + f, b, Highest(b), rb, acc, sign, flag)
         == ReadText(f, b, Highest(b), rb, acc, sign, flag)
  {
    if Gap(wb, k) == " " {
      assert (" " + f)[1..] == f;
    } else {
      assert "" + f == f;
    }
  }

  /** The reader accumulates exactly the number whose digits were written. */
  lemma {:induction false} ReadDigits(x: nat, k: nat, wb: bool, f: string, b: int, rb: bool, sign: int)
    requires 2 <= b <= 36 && (wb ==> rb)
    ensures ReadText(TextFrom(x, b, wb, k) + f, b, Highest(b), rb, 0, sign, false)
         == ReadText(f, b, Highest(b), rb, x, sign, x > 0)
    decreases x
  {
    hide ReadText, DigitChar, Gap;
    if x == 0 {
      assert "" + f == f;
    } else {
      QuotientSmaller(x, b);
      var (high, digit, gap) := (TextFrom(x / b, b, wb, k + 1), [DigitChar(x % b)], Gap(wb, k));
      ReadDigits(x / b, k + 1, wb, digit + (gap + f), b, rb, sign);
      assert TextFrom(x, b, wb, k) + f == high + (digit + (gap + f));
      ReadDigit(x % b, gap + f, b, rb, x / b, sign, x / b > 0);
      ReadGap(k, wb, f, b, rb, x, sign, true);
    }
  }

  lemma ReadNumber(v: int, wb: bool, f: string, b: int, rb: bool)
    requires 2 <= b <= 36 && (wb ==> rb)
    ensures ReadText(NumberText(v, b, wb) + f, b, Highest(b), rb, 0, 1, false)
         == ReadText(f, b, Highest(b), rb, Abs(v), if v < 0 then -1 else 1, true)
  {
    if v == 0 {
      assert "0" == [DigitChar(0)];
      ReadDigit(0, f, b, rb, 0, 1, false);
    } else if v < 0 {
      var t := TextFrom(Abs(v), b, wb, 0);
      assert ("-" + t + f)[1..] == t + f;
      ReadDigits(Abs(v), 0, wb, f, b, rb, -1);
    } else {
      assert "" + TextFrom(v, b, wb, 0) == TextFrom(v, b, wb, 0);
      ReadDigits(v, 0, wb, f, b, rb, 1);
    }
  }

  /** Reading back what was written, ended by a newline, gives the number; blanks between the
      digits do not matter if the reader skips them. */
  lemma RoundTrip(v: int, b: int, wb: bool, rb: bool, rest: string)
    requires 2 <= b <= 36 && (wb ==> rb)
    ensures TextRead(NumberText(v, b, wb) + ['\n'] + rest, b, rb) == (v, false)
  {
    ReadNumber(v, wb, ['\n'] + rest, b, rb);
    assert NumberText(v, b, wb) + ['\n'] + rest == NumberText(v, b, wb) + (['\n'] + rest);
  }

  /** Without the newline the reader meets the end of the file and drops the sign, so the number
      comes back exactly when it is not negative. */
  lemma RoundTripAtEnd(v: int, b: int, wb: bool, rb: bool)
    requires 2 <= b <= 36 && (wb ==> rb)
    ensures TextRead(NumberText(v, b, wb), b, rb) == (Abs(v), true)
    ensures TextRead(NumberText(v, b, wb), b, rb).0 == v <==> v >= 0
  {
    ReadNumber(v, wb, "", b, rb);
    assert NumberText(v, b, wb) + "" == NumberText(v, b, wb);
  }

  /** Different numbers have different texts. */
  lemma TextInjective(v: int, w: int, b: int, blanks: bool)
    requires 2 <= b <= 36 && NumberText(v, b, blanks) == NumberText(w, b, blanks)
    ensures v == w
  {
    RoundTrip(v, b, blanks, true, "");
    RoundTrip(w, b, blanks, true, "");
  }

  /** The text "-1" without a newline is read as 1. */
  lemma MinusOneAtEnd()
    ensures TextRead("-1", 10, true) == (1, true)
  {
    assert "-1"[1..] == "1" && "1"[1..] == "";
    assert DigitValue('1', 9) == Some(1);
  }

  // ---- the letter that is no digit

  /** The letter whose value is the base itself. */
  predicate IsExcess(c: char, b: int) {
    b > 10 && Lower(c) as int == 'a' as int + (b - 10)
  }

  /** m_in_b accepts the digits of base b, and that letter as a digit of value b. */
  lemma ExcessExact(c: char, b: int)
    ensures DigitValue(c, Highest(b)) == if IsExcess(c, b) then Some(b) else DigitValue(c, b - 1)
    ensures DigitValue(c, b - 1) != None ==> 0 <= DigitValue(c, b - 1).value < b
    ensures IsExcess(c, b) ==> DigitValue(c, b - 1) == None
  {
  }

  /** Whether a reader that takes the digits of base b only stops at that letter. */
  predicate MeetsExcess(f: string, b: int, blanks: bool, flag: bool)
    decreases |f|
  {
    if f == "" then false
    else if f[0] == '\\' then |f| > 1 && MeetsExcess(f[2..], b, blanks, flag)
    else if f[0] == '\n' || f[0] == ' ' || f[0] == '\t' then
      !(flag && (f[0] == '\n' || !blanks)) && MeetsExcess(f[1..], b, blanks, flag)
    else if f[0] == '-' then MeetsExcess(f[1..], b, blanks, flag)
    else IsExcess(f[0], b) || (DigitValue(f[0], b - 1) != None && MeetsExcess(f[1..], b, blanks, true))
  }

  lemma AppendGrows(acc: int, b: int, d: int)
    requires acc >= 0 && b >= 1 && d >= 0
    ensures acc <= acc * b + d
  {
    MulLe(1, b, acc);
  }

  /** Reading on never makes the magnitude smaller. */
  lemma {:induction false} ReadGrows(f: string, b: int, top: int, blanks: bool, acc: int, sign: int, flag: bool)
    requires b >= 1 && acc >= 0 && (sign == 1 || sign == -1)
    ensures Abs(ReadText(f, b, top, blanks, acc, sign, flag).0) >= acc
    decreases |f|
  {
    hide DigitValue;
    if f != "" {
      if f[0] == '\\' {
        if |f| > 1 {
          ReadGrows(f[2..], b, top, blanks, acc, sign, flag);
        }
      } else if f[0] == '\n' || f[0] == ' ' || f[0] == '\t' {
        ReadGrows(f[1..], b, top, blanks, acc, sign, flag);
      } else if f[0] == '-' {
        ReadGrows(f[1..], b, top, blanks, acc, -sign, flag);
      } else if DigitValue(f[0], top) != None {
        var d := DigitValue(f[0], top).value;
        AppendGrows(acc, b, d);
        ReadGrows(f[1..], b, top, blanks, acc * b + d, sign, true);
      }
    }
  }

  lemma {:induction false} ExcessFrom(f: string, b: int, blanks: bool, acc: int, sign: int, flag: bool)
    requires acc >= 0 && (sign == 1 || sign == -1)
    ensures ReadText(f, b, Highest(b), blanks, acc, sign, flag) == ReadText(f, b, b - 1, blanks, acc, sign, flag)
      <==> !MeetsExcess(f, b, blanks, flag)
    decreases |f|
  {
    if f != "" {
      if f[0] == '\\' {
        if |f| > 1 {
          ExcessFrom(f[2..], b, blanks, acc, sign, flag);
        }
      } else if f[0] == '\n' || f[0] == ' ' || f[0] == '\t' {
        ExcessFrom(f[1..], b, blanks, acc, sign, flag);
      } else if f[0] == '-' {
        ExcessFrom(f[1..], b, blanks, acc, -sign, flag);
      } else {
        ExcessExact(f[0], b);
        if IsExcess(f[0], b) {
          MulLe(1, b, acc);
          ReadGrows(f[1..], b, Highest(b), blanks, acc * b + b, sign, true);
        } else if DigitValue(f[0], b - 1) != None {
          MulLe(0, acc, b);
          ExcessFrom(f[1..], b, blanks, acc * b + DigitValue(f[0], b - 1).value, sign, true);
        }
      }
    }
  }

  /** Exactly when m_in_b reads the number that the digits of base b stand for: it does not come
      to the letter of value b. */
  lemma StrictExact(f: string, b: int, blanks: bool)
    ensures TextRead(f, b, blanks) == StrictRead(f, b, blanks) <==> !MeetsExcess(f, b, blanks, false)
  {
    ExcessFrom(f, b, blanks, 0, 1, false);
  }

  /** In base 16, "1g" is read as 32, and not as 1. */
  lemma LetterG()
    ensures DigitValue('g', Highest(16)) == Some(16)
    ensures TextRead("1g\n", 16, true) == (32, false) && StrictRead("1g\n", 16, true) == (1, false)
  {
    assert "1g\n"[1..] == "g\n" && "g\n"[1..] == "\n";
    assert DigitValue('1', 16) == Some(1) && DigitValue('1', 15) == Some(1);
  }

  // ---- blanks

  lemma {:induction false} FewDigits(x: nat, b: int, k: nat)
    requires 2 <= b <= 32768 && k <= 10 && x < Power(b, 10 - k)
    ensures TextFrom(x, b, true, k) == TextFrom(x, b, false, k)
    decreases x
  {
    if x > 0 {
      assert k < 10;
      QuotientSmaller(x, b);
      QuotientBelow(x, b, Power(b, 9 - k));
      FewDigits(x / b, b, k + 1);
    }
  }

  lemma QuotientBelow(x: int, b: int, p: int)
    requires b > 0 && x >= 0
    ensures x / b < p <==> x < b * p
  {
    var (q, r) := (x / b, x % b);
    assert x == q * b + r;
    if q < p {
      MulLe(q + 1, p, b);
    } else {
      MulLe(p, q, b);
    }
  }

  lemma {:induction false} ManyDigits(x: nat, b: int, k: nat)
    requires 2 <= b <= 32768
    ensures |TextFrom(x, b, true, k)| >= |TextFrom(x, b, false, k)|
    ensures k <= 10 && x >= Power(b, 10 - k) ==> |TextFrom(x, b, true, k)| > |TextFrom(x, b, false, k)|
    decreases x
  {
    if x > 0 {
      QuotientSmaller(x, b);
      ManyDigits(x / b, b, k + 1);
      if k < 10 {
        QuotientBelow(x, b, Power(b, 9 - k));
      }
    }
  }

  /** Leaving out the blanks changes the text exactly from eleven digits on. */
  lemma BlanksMatter(v: int, b: int)
    requires 2 <= b <= 32768
    ensures NumberText(v, b, false) == NumberText(v, b, true) <==> Abs(v) < Power(b, 10)
  {
    if Abs(v) < Power(b, 10) {
      FewDigits(Abs(v), b, 0);
    } else {
      ManyDigits(Abs(v), b, 0);
    }
  }

  /** The smallest number of eleven decimal digits. */
  lemma ElevenDigits()
    ensures NumberText(10000000000, 10, false) != NumberText(10000000000, 10, true)
  {
    assert Power(10, 5) == 10 * (10 * (10 * (10 * (10 * Power(10, 0)))));
    PowerAdd(10, 5, 5);
    BlanksMatter(10000000000, 10);
  }
}
