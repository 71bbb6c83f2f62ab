/**
  * Which texts m_in_b (Mout.c:12-67) takes for a number, and for which: a text is cut into digits,
  * minus signs, white space and backslash pairs, up to a character that ends it or the end of the
  * file. The number is that of the digits, negated once for every minus sign.
  */
module Grammar {
  import opened Digits
  import opened Numbers
  import opened Text

  /** What a character is worth as a digit; -1 below the digits and letters. */
  function Worth(c: char): int {
    if '0' <= c <= '9' then c as int - '0' as int
    else if 'A' <= c <= 'Z' then c as int - 'A' as int + 10
    else if c >= 'a' then c as int - 'a' as int + 10
    else -1
  }

  /** The digits of base b are taken, and above base 10 the letter worth b as well. */
  predicate IsTaken(c: char, b: int) {
    0 <= Worth(c) && (Worth(c) < b || (b > 10 && Worth(c) == b))
  }

  /** A piece of the text; a pair is a backslash and the character after it. */
  datatype Token = Digit(c: char) | Minus | Space(c: char) | Pair(c: char)

  function Spelling(t: Token): string {
    match t
    case Digit(c) => [c]
    case Minus => "-"
    case Space(c) => [c]
    case Pair(c) => ['\\', c]
  }

  function Spell(ts: seq<Token>): string {
    if ts == [] then "" else Spelling(ts[0]) + Spell(ts[1..])
  }

  /** White space before the first digit (seen tells that there was one), and blanks and tabs after
      it if they are skipped; digits, signs and pairs anywhere. */
  predicate IsNumber(ts: seq<Token>, b: int, blanks: bool, seen: bool) {
    ts == [] || match ts[0]
      case Digit(c) => IsTaken(c, b) && IsNumber(ts[1..], b, blanks, true)
      case Space(c) => SkipsSpace(c, blanks, seen) && IsNumber(ts[1..], b, blanks, seen)
      case _ => IsNumber(ts[1..], b, blanks, seen)
  }

  predicate SkipsSpace(c: char, blanks: bool, seen: bool) {
    if c == '\n' then !seen else (c == ' ' || c == '\t') && (!seen || blanks)
  }

  function DigitsOf(ts: seq<Token>): string {
    if ts == [] then "" else (if ts[0].Digit? then [ts[0].c] else "") + DigitsOf(ts[1..])
  }

  function Minuses(ts: seq<Token>): nat {
    if ts == [] then 0 else (if ts[0].Minus? then 1 else 0) + Minuses(ts[1..])
  }

  /** The number that digits stand for in base b, the last one counting once. */
  function WorthOf(s: string, b: int): int {
    if s == "" then 0 else WorthOf(s[..|s| - 1], b) * b + Worth(s[|s| - 1])
  }

  /** A character that ends the number: white space after a digit that is not skipped, or one that
      can be no part of it. */
  predicate Ends(c: char, b: int, blanks: bool, seen: bool) {
    if c == '\n' || c == ' ' || c == '\t' then !SkipsSpace(c, blanks, seen)
    else c != '-' && c != '\\' && !IsTaken(c, b)
  }

  function SignOf(n: nat): int {
    if n % 2 == 0 then 1 else -1
  }

  // ---- digits

  /** What the two bounds of m_in_b accept, small and capital letters alike. */
  lemma TakenDigits(c: char, b: int)
    ensures DigitValue(c, Highest(b)) == if IsTaken(c, b) then Some(Worth(c)) else None
  {
  }

  /** The rows of digits, with small and with capital letters. */
  lemma SmallDigits(i: int)
    requires 0 <= i < 36
    ensures Worth("0123456789abcdefghijklmnopqrstuvwxyz"[i]) == i
  {
  }

  lemma CapitalDigits(i: int)
    requires 0 <= i < 36
    ensures Worth("0123456789ABCDEFGHIJKLMNOPQRSTUVWXYZ"[i]) == i
  {
  }

  // ---- reading

  /** The number that acc becomes when the digits of s follow it. */
  function Follow(acc: int, s: string, b: int): int
    decreases |s|
  {
    if s == "" then acc else Follow(acc * b + Worth(s[0]), s[1..], b)
  }

  lemma {:induction false} FollowLast(acc: int, s: string, c: char, b: int)
    ensures Follow(acc, s + [c], b) == Follow(acc, s, b) * b + Worth(c)
    decreases |s|
  {
    if s == "" {
      assert ("" + [c])[1..] == "";
    } else {
      assert (s + [c])[1..] == s[1..] + [c];
      FollowLast(acc * b + Worth(s[0]), s[1..], c, b);
    }
  }

  lemma {:induction false} FollowIsWorth(s: string, b: int)
    ensures Follow(0, s, b) == WorthOf(s, b)
    decreases |s|
  {
    if s != "" {
      assert s == s[..|s| - 1] + [s[|s| - 1]];
      FollowLast(0, s[..|s| - 1], s[|s| - 1], b);
      FollowIsWorth(s[..|s| - 1], b);
    }
  }

  /** Reading over the pieces of a number. */
  lemma {:induction false} ReadTokens(ts: seq<Token>, f: string, b: int, blanks: bool, acc: int, sign: int, seen: bool)
    requires IsNumber(ts, b, blanks, seen)
    ensures ReadText(Spell(ts) + f, b, Highest(b), blanks, acc, sign, seen)
         == ReadText(f, b, Highest(b), blanks, Follow(acc, DigitsOf(ts), b), SignOf(Minuses(ts)) * sign,
                     seen || DigitsOf(ts) != "")
    decreases |ts|
  {
    if ts == [] {
      assert Spell(ts) + f == f;
    } else {
      var g := Spell(ts[1..]) + f;
      assert Spell(ts) + f == Spelling(ts[0]) + g;
      ReadToken(ts[0], g, b, blanks, acc, sign, seen);
      FirstToken(ts, acc, b, sign);
      hide ReadText, Spell, Spelling, DigitsOf, Minuses, Follow, SignOf, Worth, IsTaken, SkipsSpace;
      match ts[0]
      case Digit(c) =>
        ReadTokens(ts[1..], f, b, blanks, acc * b + Worth(c), sign, true);
      case Minus => ReadTokens(ts[1..], f, b, blanks, acc, -sign, seen);
      case _ => ReadTokens(ts[1..], f, b, blanks, acc, sign, seen);
    }
  }

  lemma FirstToken(ts: seq<Token>, acc: int, b: int, sign: int)
    requires ts != []
    ensures var us := ts[1..];
      match ts[0]
      case Digit(c) =>
        && DigitsOf(ts) != "" && Follow(acc, DigitsOf(ts), b) == Follow(acc * b + Worth(c), DigitsOf(us), b)
        && Minuses(ts) == Minuses(us)
      case Minus => DigitsOf(ts) == DigitsOf(us) && SignOf(Minuses(ts)) * sign == SignOf(Minuses(us)) * -sign
      case _ => DigitsOf(ts) == DigitsOf(us) && Minuses(ts) == Minuses(us)
  {
    assert "" + DigitsOf(ts[1..]) == DigitsOf(ts[1..]);
    if ts[0].Digit? {
      assert DigitsOf(ts)[1..] == DigitsOf(ts[1..]);
    }
  }

  lemma ReadToken(t: Token, g: string, b: int, blanks: bool, acc: int, sign: int, seen: bool)
    requires t.Digit? ==> IsTaken(t.c, b)
    requires t.Space? ==> SkipsSpace(t.c, blanks, seen)
    ensures ReadText(Spelling(t) + g, b, Highest(b), blanks, acc, sign, seen) ==
      match t
      case Digit(c) => ReadText(g, b, Highest(b), blanks, acc * b + Worth(c), sign, true)
      case Minus => ReadText(g, b, Highest(b), blanks, acc, -sign, seen)
      case _ => ReadText(g, b, Highest(b), blanks, acc, sign, seen)
  {
    var f := Spelling(t) + g;
    if t.Pair? {
      assert f[2..] == g;
    } else {
      assert f[1..] == g;
    }
    if t.Digit? {
      TakenDigits(t.c, b);
    }
  }

  /** A number that a character ends: it is stored with its sign, whatever the rest of the file. */
  lemma ReadsNumber(ts: seq<Token>, c: char, rest: string, b: int, blanks: bool)
    requires IsNumber(ts, b, blanks, false) && Ends(c, b, blanks, DigitsOf(ts) != "")
    ensures TextRead(Spell(ts) + [c] + rest, b, blanks) == (SignOf(Minuses(ts)) * WorthOf(DigitsOf(ts), b), false)
  {
    assert Spell(ts) + [c] + rest == Spell(ts) + ([c] + rest);
    ReadTokens(ts, [c] + rest, b, blanks, 0, 1, false);
    FollowIsWorth(DigitsOf(ts), b);
    TakenDigits(c, b);
  }

  /** A number that the end of the file ends, perhaps after a last backslash: its sign is lost. */
  lemma ReadsToEnd(ts: seq<Token>, b: int, blanks: bool)
    requires IsNumber(ts, b, blanks, false)
    ensures TextRead(Spell(ts), b, blanks) == (WorthOf(DigitsOf(ts), b), true)
    ensures TextRead(Spell(ts) + "\\", b, blanks) == (WorthOf(DigitsOf(ts), b), true)
  {
    assert Spell(ts) + "" == Spell(ts);
    ReadTokens(ts, "", b, blanks, 0, 1, false);
    ReadTokens(ts, "\\", b, blanks, 0, 1, false);
    FollowIsWorth(DigitsOf(ts), b);
  }

  /** Every text is one of these: a number, and then the end, a last backslash, or what ends it. */
  lemma {:induction false} EveryText(f: string, b: int, blanks: bool, seen: bool) returns (ts: seq<Token>, tail: string)
    ensures f == Spell(ts) + tail && IsNumber(ts, b, blanks, seen)
    ensures tail == "" || tail == "\\" || Ends(tail[0], b, blanks, seen || DigitsOf(ts) != "")
    decreases |f|
  {
    if f == "" || f == "\\" || Ends(f[0], b, blanks, seen) {
      ts, tail := [], f;
      assert "" + f == f;
    } else {
      var t := if f[0] == '\\' then Pair(f[1]) else if f[0] == '-' then Minus
        else if f[0] == '\n' || f[0] == ' ' || f[0] == '\t' then Space(f[0]) else Digit(f[0]);
      var n := |Spelling(t)|;
      assert f == Spelling(t) + f[n..];
      var us;
      us, tail := EveryText(f[n..], b, blanks, seen || t.Digit?);
      ts := [t] + us;
      assert ts[1..] == us;
      assert f == Spelling(t) + (Spell(us) + tail) == Spell(ts) + tail;
    }
  }

  /** v and eof are what the text f is read as: the number in front, with its sign if a character
      ends it, and without if the end of the file does. */
  ghost predicate IsReading(f: string, b: int, blanks: bool, v: int, eof: bool) {
    exists ts, tail :: Reads(f, ts, tail, b, blanks, v, eof)
  }

  ghost predicate Reads(f: string, ts: seq<Token>, tail: string, b: int, blanks: bool, v: int, eof: bool) {
    && f == Spell(ts) + tail && IsNumber(ts, b, blanks, false)
    && if eof then (tail == "" || tail == "\\") && v == WorthOf(DigitsOf(ts), b)
       else
         && tail != "" && Ends(tail[0], b, blanks, DigitsOf(ts) != "")
         && v == SignOf(Minuses(ts)) * WorthOf(DigitsOf(ts), b)
  }

  /** m_in_b stores exactly that. */
  lemma ReadingExact(f: string, b: int, blanks: bool, v: int, eof: bool)
    ensures IsReading(f, b, blanks, v, eof) <==> TextRead(f, b, blanks) == (v, eof)
  {
    var ts, tail := EveryText(f, b, blanks, false);
    ReadingIs(f, ts, tail, b, blanks);
    var r := TextRead(f, b, blanks);
    assert Reads(f, ts, tail, b, blanks, r.0, r.1);
    if IsReading(f, b, blanks, v, eof) {
      var us, rest :| Reads(f, us, rest, b, blanks, v, eof);
      ReadingIs(f, us, rest, b, blanks);
    }
  }

  lemma ReadingIs(f: string, ts: seq<Token>, tail: string, b: int, blanks: bool)
    requires f == Spell(ts) + tail && IsNumber(ts, b, blanks, false)
    ensures tail == "" || tail == "\\" ==> TextRead(f, b, blanks) == (WorthOf(DigitsOf(ts), b), true)
    ensures tail != "" && Ends(tail[0], b, blanks, DigitsOf(ts) != "") ==>
      TextRead(f, b, blanks) == (SignOf(Minuses(ts)) * WorthOf(DigitsOf(ts), b), false)
  {
    ReadsToEnd(ts, b, blanks);
    if tail == "" {
      assert Spell(ts) + "" == Spell(ts);
    } else if Ends(tail[0], b, blanks, DigitsOf(ts) != "") {
      assert tail == [tail[0]] + tail[1..] && f == Spell(ts) + [tail[0]] + tail[1..];
      ReadsNumber(ts, tail[0], tail[1..], b, blanks);
    }
  }

  /** Two small f and two capital ones in base 16. */
  lemma HexadecimalFf()
    ensures TextRead("ff\n", 16, true) == (255, false) == TextRead("FF\n", 16, true)
  {
    var s, t := [Digit('f'), Digit('f')], [Digit('F'), Digit('F')];
    assert s[1..] == [Digit('f')] && s[1..][1..] == [] && t[1..] == [Digit('F')] && t[1..][1..] == [];
    assert DigitsOf(s) == "ff" && DigitsOf(t) == "FF";
    assert Spell(s) + ['\n'] + "" == "ff\n" && Spell(t) + ['\n'] + "" == "FF\n";
    assert "ff"[..1] == "f" && "FF"[..1] == "F" && "f"[..0] == "" && "F"[..0] == "";
    ReadsNumber(s, '\n', "", 16, true);
    ReadsNumber(t, '\n', "", 16, true);
  }
}
