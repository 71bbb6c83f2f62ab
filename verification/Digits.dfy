/** The arithmetic of little-endian digit strings in base 2^15, the representation
    that every routine of the package works on. */
module Digits {

  /** A C `short`. */
  type Short = x: int | -0x8000 <= x < 0x8000

  /** A C `int` or `register` variable: every assignment to one is proved to fit 32 bits. */
  type Int32 = x: int | -0x8000_0000 <= x < 0x8000_0000

  function Power(b: int, n: nat): (p: int)
    ensures b > 0 ==> p > 0
  {
    if n == 0 then 1 else b * Power(b, n - 1)
  }

  /** The C operators << and >> on values that are not negative. */
  function Shl(x: int, n: nat): int {
    x * Power(2, n)
  }

  function Shr(x: int, n: nat): int {
    x / Power(2, n)
  }

  /** The weight of digit n. */
  function Radix(n: nat): (p: int)
    ensures p > 0
  {
    if n == 0 then 1 else 32768 * Radix(n - 1)
  }

  predicate IsDigits(s: seq<int>) {
    forall i :: 0 <= i < |s| ==> 0 <= s[i] < 32768
  }

  /** The number that the digits of s denote, least significant digit first. */
  function Val(s: seq<int>): int {
    if s == [] then 0 else Val(s[..|s| - 1]) + s[|s| - 1] * Radix(|s| - 1)
  }

  /** The base cases, for proofs that keep Val and Radix folded. */
  lemma ValEmpty()
    ensures Val([]) == 0 && Radix(0) == 1
  {
  }

  // ---- powers

  lemma {:induction false} PowerAdd(b: int, m: nat, n: nat)
    ensures Power(b, m + n) == Power(b, m) * Power(b, n)
  {
    if m > 0 {
      PowerAdd(b, m - 1, n);
      assert Power(b, m + n) == b * Power(b, m - 1 + n);
      MulAssoc(b, Power(b, m - 1), Power(b, n));
    }
  }

  lemma MulAssoc(x: int, y: int, z: int)
    ensures (x * y) * z == x * (y * z)
  {
  }

  lemma {:induction false} RadixAdd(m: nat, n: nat)
    ensures Radix(m + n) == Radix(m) * Radix(n)
  {
    if m > 0 {
      RadixAdd(m - 1, n);
      assert Radix(m + n) == 32768 * Radix(m - 1 + n);
    }
  }

  lemma {:induction false} RadixIsPower2(n: nat)
    ensures Radix(n) == Power(2, 15 * n)
  {
    if n > 0 {
      RadixIsPower2(n - 1);
      PowerAdd(2, 15, 15 * (n - 1));
      Power2Of15();
    }
  }

  lemma Power2Of15()
    ensures Power(2, 14) == 16384 && Power(2, 15) == 32768
  {
    assert Power(2, 5) == 32;
    PowerAdd(2, 5, 5);
    PowerAdd(2, 10, 4);
    assert Power(2, 4) == 16;
  }

  lemma {:induction false} PowerMonotone(b: int, m: nat, n: nat)
    requires b >= 1 && m <= n
    ensures Power(b, m) <= Power(b, n)
  {
    if m < n {
      PowerMonotone(b, m, n - 1);
      assert Power(b, n - 1) <= b * Power(b, n - 1);
    }
  }

  lemma {:induction false} Power2Strict(m: nat, n: nat)
    ensures Power(2, m) < Power(2, n) ==> m < n
  {
    if m >= n {
      PowerMonotone(2, n, m);
    }
  }

  lemma {:induction false} RadixMonotone(m: nat, n: nat)
    requires m <= n
    ensures Radix(m) <= Radix(n)
  {
    if m < n {
      RadixMonotone(m, n - 1);
    }
  }

  // ---- digit strings

  lemma ValSnoc(s: seq<int>, d: int)
    ensures Val(s + [d]) == Val(s) + d * Radix(|s|)
  {
    assert (s + [d])[..|s|] == s;
  }

  /** Unfolds Val at the end of a prefix, the step of every loop from low digits to high. */
  lemma ValPrefix(s: seq<int>, i: nat)
    requires i < |s|
    ensures Val(s[..i + 1]) == Val(s[..i]) + s[i] * Radix(i)
  {
    assert s[..i + 1][..i] == s[..i];
  }

  lemma Weigh(p: int, x: int, d: int, r: int)
    ensures p * (x + d * r) == p * x + d * (p * r)
  {
    MulAssoc(p, d, r);
    MulAssoc(d, p, r);
  }

  lemma {:induction false} ValConcat(s: seq<int>, t: seq<int>)
    ensures Val(s + t) == Val(s) + Radix(|s|) * Val(t)
  {
    if t == [] {
      assert s + t == s;
    } else {
      var n := |t| - 1;
      assert (s + t)[..|s + t| - 1] == s + t[..n];
      ValConcat(s, t[..n]);
      RadixAdd(|s|, n);
      Weigh(Radix(|s|), Val(t[..n]), t[n], Radix(n));
    }
  }

  /** Unfolds Val at the front of a suffix, the step of every loop from high digits to low. */
  lemma ValSuffix(s: seq<int>, i: nat)
    requires i < |s|
    ensures Val(s[i..]) == s[i] + 32768 * Val(s[i + 1..])
  {
    assert s[i..] == [s[i]] + s[i + 1..];
    ValConcat([s[i]], s[i + 1..]);
    assert [s[i]][..0] == [];
    assert Val([s[i]]) == s[i] && Radix(1) == 32768;
  }

  lemma ValSplit(s: seq<int>, i: nat)
    requires i <= |s|
    ensures Val(s) == Val(s[..i]) + Radix(i) * Val(s[i..])
  {
    assert s == s[..i] + s[i..];
    ValConcat(s[..i], s[i..]);
  }

  lemma {:induction false} ValZeros(s: seq<int>)
    requires forall i :: 0 <= i < |s| ==> s[i] == 0
    ensures Val(s) == 0
  {
    if s != [] {
      ValZeros(s[..|s| - 1]);
    }
  }

  /** One step of a carry loop: column sum x + d splits into digit c and carry y. */
  lemma CarryStep(x: int, d: int, c: int, y: int, p: int)
    requires x + d == c + 32768 * y
    ensures x * p + d * p == c * p + y * (32768 * p)
  {
    assert (x + d) * p == (c + 32768 * y) * p;
  }

  lemma DigitTimes(d: int, r: int)
    requires 0 <= d < 32768 && r > 0
    ensures 0 <= d * r <= 32767 * r
    ensures d > 0 ==> r <= d * r
  {
    MulLe(0, d, r);
    MulLe(d, 32767, r);
    if d > 0 {
      MulLe(1, d, r);
    }
  }

  lemma MulLe(x: int, y: int, r: int)
    requires x <= y && r >= 0
    ensures x * r <= y * r
  {
  }

  lemma {:induction false} ValBound(s: seq<int>)
    requires IsDigits(s)
    ensures 0 <= Val(s) < Radix(|s|)
  {
    if s != [] {
      var n := |s| - 1;
      ValBound(s[..n]);
      DigitTimes(s[n], Radix(n));
    }
  }

  /** A nonzero top digit bounds the value from below. */
  lemma ValTop(s: seq<int>)
    requires IsDigits(s) && s != [] && s[|s| - 1] != 0
    ensures Radix(|s| - 1) <= Val(s) < Radix(|s|)
  {
    var n := |s| - 1;
    ValBound(s);
    ValBound(s[..n]);
    DigitTimes(s[n], Radix(n));
  }

  predicate IsCanonical(s: seq<int>) {
    IsDigits(s) && (s != [] ==> s[|s| - 1] != 0)
  }

  /** Longer canonical strings denote larger numbers. */
  lemma ValShorter(s: seq<int>, t: seq<int>)
    requires IsDigits(s) && IsCanonical(t) && |s| < |t|
    ensures Val(s) < Val(t)
  {
    ValBound(s);
    ValTop(t);
    RadixMonotone(|s|, |t| - 1);
  }

  lemma TopDigitEqual(x: int, y: int, c: int, d: int, r: int)
    requires 0 <= x < r && 0 <= y < r && x + c * r == y + d * r
    ensures c == d && x == y
  {
    if c < d {
      MulLe(c + 1, d, r);
      assert false;
    } else if d < c {
      MulLe(d + 1, c, r);
      assert false;
    }
  }

  /** A fixed number of digits denotes each number at most once. */
  lemma {:induction false} ValInjective(s: seq<int>, t: seq<int>)
    requires IsDigits(s) && IsDigits(t) && |s| == |t| && Val(s) == Val(t)
    ensures s == t
  {
    if s != [] {
      var n := |s| - 1;
      var (s', t', r) := (s[..n], t[..n], Radix(n));
      ValBound(s');
      ValBound(t');
      TopDigitEqual(Val(s'), Val(t'), s[n], t[n], r);
      ValInjective(s', t');
      assert s == s' + [s[n]] && t == t' + [t[n]];
    }
  }

  /** Canonical strings are in one-to-one correspondence with the naturals. */
  lemma CanonicalUnique(s: seq<int>, t: seq<int>)
    requires IsCanonical(s) && IsCanonical(t) && Val(s) == Val(t)
    ensures s == t
  {
    if |s| < |t| {
      ValShorter(s, t);
    } else if |t| < |s| {
      ValShorter(t, s);
    } else {
      ValInjective(s, t);
    }
  }

  lemma ValPush(d: int, u: seq<int>)
    ensures Val([d] + u) == d + 32768 * Val(u)
  {
    assert ([d] + u)[0..] == [d] + u && ([d] + u)[1..] == u;
    ValSuffix([d] + u, 0);
  }

  /** A magnitude that reaches the weight of its top digit has a nonzero top digit. */
  lemma TopNonzero(u: seq<int>)
    requires IsDigits(u) && (u != [] ==> Val(u) >= Radix(|u| - 1))
    ensures IsCanonical(u)
  {
    if u != [] && u[|u| - 1] == 0 {
      assert u[|u| - 1] * Radix(|u| - 1) == 0;
      ValBound(u[..|u| - 1]);
      assert false;
    }
  }

  lemma RadixNext(k: nat)
    ensures Radix(k + 1) == 32768 * Radix(k)
  {
  }

  lemma DivModUnique(x: int, d: int, q: int, r: int)
    requires d > 0 && x == q * d + r && 0 <= r < d
    ensures x / d == q && x % d == r
  {
    var (q', r') := (x / d, x % d);
    assert x == q' * d + r';
    if q' < q {
      MulLe(q' + 1, q, d);
    } else if q < q' {
      MulLe(q + 1, q', d);
    }
  }

  /** A column loop that has written the digits u and carries x has accounted for the number n. */
  ghost predicate Accounted(u: seq<int>, x: int, n: int) {
    IsDigits(u) && Val(u) + x * Radix(|u|) == n
  }

  lemma AccountedStart(s: seq<int>)
    ensures Accounted([], 0, 0) && Val(s[..0]) == 0
  {
    assert s[..0] == [];
  }

  /** The next column, of weight |u|, splits into its digit and a carry. */
  lemma AccountedStep(u: seq<int>, x: int, n: int, d: int)
    requires Accounted(u, x, n)
    ensures Accounted(u + [(x + d) % 32768], (x + d) / 32768, n + d * Radix(|u|))
  {
    hide Val;
    var (c, y) := ((x + d) % 32768, (x + d) / 32768);
    ValSnoc(u, c);
    CarryStep(x, d, c, y, Radix(|u|));
  }

  /** A further digit joins the carry instead, when it is to stay signed. */
  lemma AccountedTop(u: seq<int>, x: int, n: int, d: int)
    requires Accounted(u, x, n)
    ensures Accounted(u, x + d, n + d * Radix(|u|))
  {
    hide Val, Radix;
    assert (x + d) * Radix(|u|) == x * Radix(|u|) + d * Radix(|u|);
  }

  lemma OneDigit(s: seq<int>)
    requires |s| == 1
    ensures Val(s) == s[0]
  {
    ValEmpty();
    ValPrefix(s, 0);
    assert s[..0] == [] && s[..1] == s;
  }
}
