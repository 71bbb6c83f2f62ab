/**
  * What a number looks like on paper, said of the text alone: its sign, its digits, and where its
  * blanks stand. m_out_b (Mout.c:83-130) writes that, and nothing else fits the description.
  */
module Numerals {
  import opened Digits
  import opened Numbers
  import opened Text

  const DIGITS: string := "0123456789ABCDEFGHIJKLMNOPQRSTUVWXYZ"

  /** The place of a digit in that row. */
  ghost function Place(c: char): (i: int)
    requires c in DIGITS
    ensures 0 <= i < 36 && DIGITS[i] == c
  {
    var i :| 0 <= i < 36 && DIGITS[i] == c;
    i
  }

  ghost predicate IsNumeral(s: string, b: int)
    requires 2 <= b <= 36
  {
    s != "" && forall i | 0 <= i < |s| :: s[i] in DIGITS[..b]
  }

  /** The number that digits stand for in base b, the last one counting once. */
  ghost function BaseValue(s: string, b: int): int
    requires forall i | 0 <= i < |s| :: s[i] in DIGITS
  {
    if s == "" then 0 else BaseValue(s[..|s| - 1], b) * b + Place(s[|s| - 1])
  }

  function WithoutBlanks(s: string): string {
    if s == "" then "" else WithoutBlanks(s[..|s| - 1]) + if s[|s| - 1] == ' ' then "" else [s[|s| - 1]]
  }

  /** Whether a blank is due before n digits. */
  predicate BlankDue(blanks: bool, n: nat) {
    blanks && n > 0 && n % 10 == 0
  }

  /** Every blank comes after a digit, and a digit has a blank after it exactly if it is due before
      the digits to the right, k of which follow s. */
  ghost predicate BlanksRight(s: string, blanks: bool, k: nat) {
    forall i | 0 <= i < |s| :: BlankRightAt(s, i, blanks, k)
  }

  ghost predicate BlankRightAt(s: string, i: nat, blanks: bool, k: nat)
    requires i < |s|
  {
    if s[i] == ' ' then i > 0 && s[i - 1] != ' '
    else i + 1 < |s| && s[i + 1] == ' ' <==> BlankDue(blanks, |WithoutBlanks(s[i + 1..])| + k)
  }

  /** body is how x is written in base b: digits of that value, without a leading zero unless it is
      the only digit, with blanks where they are due. */
  ghost predicate IsMagnitude(body: string, x: int, b: int, blanks: bool)
    requires 2 <= b <= 36
  {
    var s := WithoutBlanks(body);
    IsNumeral(s, b) && (s[0] == '0' ==> s == "0") && DigitsIn(s) && BaseValue(s, b) == x && BlanksRight(body, blanks, 0)
  }

  ghost predicate DigitsIn(s: string) {
    forall i | 0 <= i < |s| :: s[i] in DIGITS
  }

  /** out is the text of v: a minus exactly for a negative number, and then the magnitude. */
  ghost predicate IsTextOf(out: string, v: int, b: int, blanks: bool)
    requires 2 <= b <= 36
  {
    && out != "" && (out[0] == '-' <==> v < 0)
    && IsMagnitude(if v < 0 then out[1..] else out, Abs(v), b, blanks)
  }

  // ---- the digits

  lemma DigitCode(i: int)
    requires 0 <= i < 36
    ensures DIGITS[i] as int == if i < 10 then '0' as int + i else 'A' as int + (i - 10)
  {
  }

  lemma PlaceOf(i: int, b: int)
    requires 0 <= i < b <= 36
    ensures DIGITS[i] in DIGITS && DIGITS[i] in DIGITS[..b] && Place(DIGITS[i]) == i
    ensures DIGITS[i] != ' ' && DIGITS[i] != '-'
    ensures DIGITS[i] == '0' <==> i == 0
  {
    assert DIGITS[i] == DIGITS[..b][i];
    DigitCode(i);
    DigitCode(Place(DIGITS[i]));
  }

  lemma WrittenDigit(r: int)
    requires 0 <= r < 36
    ensures DigitChar(r) == DIGITS[r]
  {
    DigitCode(r);
  }

  lemma BelowBase(c: char, b: int)
    requires 2 <= b <= 36 && c in DIGITS[..b]
    ensures c in DIGITS && 0 <= Place(c) < b && c != ' ' && c != '-' && (c == '0' <==> Place(c) == 0)
  {
    var i :| 0 <= i < b && DIGITS[..b][i] == c;
    assert DIGITS[i] == c;
    PlaceOf(i, b);
  }

  // ---- the text of m_out_b

  lemma WithoutBlanksAppend(s: string, c: char)
    ensures WithoutBlanks(s + [c]) == WithoutBlanks(s) + if c == ' ' then "" else [c]
  {
    assert (s + [c])[..|s|] == s;
  }

  lemma BaseValueAppend(s: string, c: char, b: int)
    requires DigitsIn(s) && c in DIGITS
    ensures DigitsIn(s + [c]) && BaseValue(s + [c], b) == BaseValue(s, b) * b + Place(c)
  {
    assert (s + [c])[..|s|] == s;
  }

  lemma CountOneMore(s: string, c: char, gap: string)
    requires c != ' ' && (gap == "" || gap == " ")
    ensures |WithoutBlanks(s + [c] + gap)| == |WithoutBlanks(s)| + 1
  {
    WithoutBlanksAppend(s, c);
    if gap == "" {
      assert s + [c] + gap == s + [c];
    } else {
      WithoutBlanksAppend(s + [c], ' ');
      assert s + [c] + gap == s + [c] + [' '];
    }
  }

  /** One more digit on the right, and a blank if it is due. */
  lemma BlanksExtend(s: string, c: char, blanks: bool, k: nat)
    requires BlanksRight(s, blanks, k + 1) && c != ' '
    ensures BlanksRight(s + [c] + (if BlankDue(blanks, k) then " " else ""), blanks, k)
  {
    var gap := if BlankDue(blanks, k) then " " else "";
    var t := s + [c] + gap;
    forall i | 0 <= i < |t|
      ensures BlankRightAt(t, i, blanks, k)
    {
      if i < |s| {
        assert BlankRightAt(s, i, blanks, k + 1);
        assert t[i + 1..] == s[i + 1..] + [c] + gap;
        CountOneMore(s[i + 1..], c, gap);
      } else if i == |s| {
        assert t[i + 1..] == gap;
        assert WithoutBlanks("") == "" && WithoutBlanks(" ") == "" by {
          WithoutBlanksAppend("", ' ');
          assert "" + [' '] == " ";
        }
      }
    }
  }

  /** t is how x is written with k digits still to come on its right. */
  ghost predicate Shaped(t: string, x: int, b: int, blanks: bool, k: nat)
    requires 2 <= b <= 36
  {
    var s := WithoutBlanks(t);
    IsNumeral(s, b) && s[0] != '0' && DigitsIn(s) && BaseValue(s, b) == x && BlanksRight(t, blanks, k)
  }

  /** A digit and the blank after it, if one is due. */
  function Ending(d: int, blanks: bool, k: nat): string
    requires 0 <= d < 36
  {
    [DIGITS[d]] + if BlankDue(blanks, k) then " " else ""
  }

  lemma TextFromStep(x: nat, b: int, blanks: bool, k: nat)
    requires 2 <= b <= 36 && x > 0
    ensures 0 <= x / b < x && 0 <= x % b < 36 && x == (x / b) * b + x % b
    ensures TextFrom(x, b, blanks, k) == TextFrom(x / b, b, blanks, k + 1) + Ending(x % b, blanks, k)
  {
    QuotientSmaller(x, b);
    WrittenDigit(x % b);
    var h := TextFrom(x / b, b, blanks, k + 1);
    assert Gap(blanks, k) == if BlankDue(blanks, k) then " " else "";
    assert h + [DigitChar(x % b)] + Gap(blanks, k) == h + Ending(x % b, blanks, k);
  }

  lemma EndingDigits(h: string, d: int, b: int, blanks: bool, k: nat)
    requires 0 <= d < b <= 36 && BlanksRight(h, blanks, k + 1)
    ensures WithoutBlanks(h + Ending(d, blanks, k)) == WithoutBlanks(h) + [DIGITS[d]]
    ensures BlanksRight(h + Ending(d, blanks, k), blanks, k)
  {
    PlaceOf(d, b);
    var c := DIGITS[d];
    BlanksExtend(h, c, blanks, k);
    WithoutBlanksAppend(h, c);
    if BlankDue(blanks, k) {
      WithoutBlanksAppend(h + [c], ' ');
      assert h + Ending(d, blanks, k) == h + [c] + " " == h + [c] + [' '];
    } else {
      assert h + Ending(d, blanks, k) == h + [c] + "" == h + [c];
    }
  }

  lemma ShapedStep(h: string, y: int, d: int, b: int, blanks: bool, k: nat)
    requires 2 <= b <= 36 && 0 <= d < b
    requires if h == "" then y == 0 && d > 0 else Shaped(h, y, b, blanks, k + 1)
    ensures Shaped(h + Ending(d, blanks, k), y * b + d, b, blanks, k)
  {
    assert h == "" ==> WithoutBlanks(h) == "" && BlanksRight(h, blanks, k + 1);
    PlaceOf(d, b);
    EndingDigits(h, d, b, blanks, k);
    NumeralAppend(WithoutBlanks(h), d, b);
  }

  lemma NumeralAppend(s: string, d: int, b: int)
    requires 2 <= b <= 36 && 0 <= d < b
    requires if s == "" then d > 0 else IsNumeral(s, b) && s[0] != '0' && DigitsIn(s)
    ensures var t := s + [DIGITS[d]];
      && IsNumeral(t, b) && t[0] != '0' && DigitsIn(t)
      && BaseValue(t, b) == (if s == "" then 0 else BaseValue(s, b)) * b + d
  {
    PlaceOf(d, b);
    var c := DIGITS[d];
    assert c in DIGITS && c in DIGITS[..b];
    hide DIGITS, Place;
    BaseValueAppend(s, c, b);
    forall i | 0 <= i < |s + [c]|
      ensures (s + [c])[i] in DIGITS[..b]
    {
      assert (s + [c])[i] == if i < |s| then s[i] else c;
    }
  }

  lemma {:induction false} TextFromShape(x: nat, b: int, blanks: bool, k: nat)
    requires 2 <= b <= 36 && x > 0
    ensures Shaped(TextFrom(x, b, blanks, k), x, b, blanks, k)
    decreases x
  {
    TextFromStep(x, b, blanks, k);
    var h := TextFrom(x / b, b, blanks, k + 1);
    if x / b > 0 {
      TextFromShape(x / b, b, blanks, k + 1);
      assert h != "" by { assert Shaped("", x / b, b, blanks, k + 1) ==> WithoutBlanks("") != ""; }
    } else {
      assert h == "";
    }
    hide Shaped, TextFrom, Ending;
    ShapedStep(h, x / b, x % b, b, blanks, k);
  }

  /** m_out_b writes the text of the number. */
  lemma WritesTheNumber(v: int, b: int, blanks: bool)
    requires 2 <= b <= 36
    ensures IsTextOf(NumberText(v, b, blanks), v, b, blanks)
  {
    if v == 0 {
      WritesZero(b, blanks);
    } else {
      var t := TextFrom(Abs(v), b, blanks, 0);
      TextFromShape(Abs(v), b, blanks, 0);
      FirstIsDigit(t, b, blanks);
      assert ("-" + t)[1..] == t && "" + t == t;
      hide TextFrom, IsNumeral, BaseValue, BlanksRight, DigitsIn;
    }
  }

  lemma WritesZero(b: int, blanks: bool)
    requires 2 <= b <= 36
    ensures IsTextOf("0", 0, b, blanks)
  {
    PlaceOf(0, b);
    WithoutBlanksAppend("", '0');
    BaseValueAppend("", '0', b);
    assert "" + ['0'] == "0" && WithoutBlanks("") == "" && "0"[1..] == "";
    assert BlankRightAt("0", 0, blanks, 0);
  }

  lemma FirstIsDigit(t: string, b: int, blanks: bool)
    requires 2 <= b <= 36 && IsNumeral(WithoutBlanks(t), b) && BlanksRight(t, blanks, 0)
    ensures t != "" && t[0] != '-'
  {
    assert WithoutBlanks("") == "";
    assert BlankRightAt(t, 0, blanks, 0);
    InWithoutBlanks(t, 0);
    var j :| 0 <= j < |WithoutBlanks(t)| && WithoutBlanks(t)[j] == t[0];
    BelowBase(t[0], b);
  }

  lemma {:induction false} InWithoutBlanks(t: string, i: nat)
    requires i < |t| && t[i] != ' '
    ensures t[i] in WithoutBlanks(t)
  {
    if i < |t| - 1 {
      InWithoutBlanks(t[..|t| - 1], i);
    }
  }

  // ---- nothing else is the text of the number

  lemma {:induction false} NumeralPositive(s: string, b: int)
    requires 2 <= b <= 36 && IsNumeral(s, b) && DigitsIn(s)
    ensures BaseValue(s, b) >= 0 && (s[0] != '0' ==> BaseValue(s, b) >= 1)
    decreases |s|
  {
    var s0, c := s[..|s| - 1], s[|s| - 1];
    BelowBase(c, b);
    hide DIGITS, Place;
    if s0 != "" {
      NumeralPositive(s0, b);
      MulLe(0, BaseValue(s0, b), b);
      if BaseValue(s0, b) >= 1 {
        MulLe(1, BaseValue(s0, b), b);
      }
    }
  }

  /** Without leading zeros, the value determines the digits. */
  lemma {:induction false} NumeralUnique(s: string, t: string, b: int)
    requires 2 <= b <= 36 && IsNumeral(s, b) && DigitsIn(s) && IsNumeral(t, b) && DigitsIn(t)
    requires (s[0] == '0' ==> |s| == 1) && (t[0] == '0' ==> |t| == 1) && BaseValue(s, b) == BaseValue(t, b)
    ensures s == t
    decreases |s|
  {
    var s0, t0 := s[..|s| - 1], t[..|t| - 1];
    var p := LastPlace(s, b);
    var q := LastPlace(t, b);
    hide DIGITS, BaseValue;
    DivModUnique(BaseValue(s, b), b, BaseValue(s0, b), p);
    DivModUnique(BaseValue(t, b), b, BaseValue(t0, b), q);
    if s0 != "" && t0 != "" {
      NumeralUnique(s0, t0, b);
    }
  }

  lemma LastPlace(s: string, b: int) returns (p: int)
    requires 2 <= b <= 36 && IsNumeral(s, b) && DigitsIn(s) && (s[0] == '0' ==> |s| == 1)
    ensures 0 <= p < b && s == s[..|s| - 1] + [DIGITS[p]]
    ensures BaseValue(s, b) == BaseValue(s[..|s| - 1], b) * b + p
    ensures BaseValue(s[..|s| - 1], b) == 0 <==> |s| == 1
  {
    BelowBase(s[|s| - 1], b);
    p := Place(s[|s| - 1]);
    assert DIGITS[p] == s[|s| - 1];
    InitialValue(s, b);
  }

  lemma InitialValue(s: string, b: int)
    requires 2 <= b <= 36 && IsNumeral(s, b) && DigitsIn(s) && (s[0] == '0' ==> |s| == 1)
    ensures BaseValue(s[..|s| - 1], b) == 0 <==> |s| == 1
  {
    hide DIGITS, Place;
    var s0 := s[..|s| - 1];
    if |s| == 1 {
      assert s0 == "";
    } else {
      assert s0[0] == s[0] && IsNumeral(s0, b) && DigitsIn(s0);
      hide BaseValue;
      NumeralPositive(s0, b);
    }
  }

  lemma BlanksBefore(s: string, s0: string, c: char, gap: string, blanks: bool, k: nat, n: nat)
    requires BlanksRight(s, blanks, k) && c != ' ' && (gap == "" || gap == " ") && s == s0 + [c] + gap && n == k + 1
    ensures BlanksRight(s0, blanks, n)
  {
    forall i | 0 <= i < |s0|
      ensures BlankRightAt(s0, i, blanks, n)
    {
      assert BlankRightAt(s, i, blanks, k);
      assert s[i + 1..] == s0[i + 1..] + [c] + gap;
      CountOneMore(s0[i + 1..], c, gap);
    }
  }

  /** The last digit and the blank after it. */
  lemma LastDigit(s: string, blanks: bool, k: nat) returns (s0: string, c: char)
    requires s != "" && BlanksRight(s, blanks, k)
    ensures c != ' ' && s == s0 + [c] + (if BlankDue(blanks, k) then " " else "")
    ensures BlanksRight(s0, blanks, k + 1) && WithoutBlanks(s) == WithoutBlanks(s0) + [c]
  {
    var n := |s| - 1;
    assert BlankRightAt(s, n, blanks, k);
    assert WithoutBlanks("") == "" && WithoutBlanks(" ") == "" by {
      WithoutBlanksAppend("", ' ');
      assert "" + [' '] == " ";
    }
    assert s[n + 1..] == "";
    if s[n] == ' ' {
      assert BlankRightAt(s, n - 1, blanks, k);
      assert s[n..] == " ";
      n := n - 1;
    }
    s0, c := s[..n], s[n];
    var gap := if BlankDue(blanks, k) then " " else "";
    assert s == s0 + [c] + gap;
    WithoutBlanksAppend(s0, c);
    if gap == "" {
      assert s == s0 + [c];
    } else {
      WithoutBlanksAppend(s0 + [c], ' ');
      assert s == s0 + [c] + [' '];
    }
    BlanksBefore(s, s0, c, gap, blanks, k, k + 1);
  }

  /** The digits determine where the blanks are. */
  lemma {:induction false} BlanksUnique(s: string, t: string, blanks: bool, k: nat)
    requires BlanksRight(s, blanks, k) && BlanksRight(t, blanks, k) && WithoutBlanks(s) == WithoutBlanks(t)
    ensures s == t
    decreases |s|
  {
    assert WithoutBlanks("") == "";
    if s != "" && t != "" {
      var s0, c := LastDigit(s, blanks, k);
      var t0, d := LastDigit(t, blanks, k);
      assert WithoutBlanks(s)[..|WithoutBlanks(s0)|] == WithoutBlanks(s0);
      assert WithoutBlanks(t)[..|WithoutBlanks(t0)|] == WithoutBlanks(t0);
      BlanksUnique(s0, t0, blanks, k + 1);
    } else if s != "" {
      var s0, c := LastDigit(s, blanks, k);
    } else if t != "" {
      var t0, d := LastDigit(t, blanks, k);
    }
  }

  /** A number has one text. */
  lemma TextUnique(out: string, out': string, v: int, b: int, blanks: bool)
    requires 2 <= b <= 36 && IsTextOf(out, v, b, blanks) && IsTextOf(out', v, b, blanks)
    ensures out == out'
  {
    var s := if v < 0 then out[1..] else out;
    var t := if v < 0 then out'[1..] else out';
    NumeralUnique(WithoutBlanks(s), WithoutBlanks(t), b);
    BlanksUnique(s, t, blanks, 0);
    assert v < 0 ==> out == ['-'] + s && out' == ['-'] + t;
  }
}
