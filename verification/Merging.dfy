/**
  * seq_merge, find_split and merge of demo/mergesort.c (lines 69-119), each as a process, whose
  * coroutines may interleave, and as the method that runs the coroutines in order.
  *
  * All arrays lie in one memory and a pointer is an index into it, so that pointer arithmetic
  * and the sharing of arrays between coroutines are as in the source.
  */
module Merging {
  import opened Sorting
  import opened Cpj

  const MERGE_SIZE: nat := 50

  predicate InRange(i: nat, a: nat, n: nat) {
    a <= i < a + n
  }

  function Range(a: nat, n: nat): (r: set<nat>) {
    set i: nat {:trigger InRange(i, a, n)} | a <= i < a + n && InRange(i, a, n)
  }

  /** *to = *from. */
  function Move(from: nat, to: nat, next: Process): (p: Process) {
    Load(from, w => Store(to, w, next))
  }

  /** if (*x < *y) p else q. */
  function Compare(x: nat, y: nat, p: Process, q: Process): (r: Process) {
    Load(x, u => Load(y, v => if u < v then p else q))
  }

  function SeqMergeCode(a: nat, b: nat, lena: nat, lenb: nat, c: nat): (p: Process)
    decreases lena + lenb
  {
    if lena > 0 && lenb > 0 then
      Compare(a, b, Move(a, c, SeqMergeCode(a + 1, b, lena - 1, lenb, c + 1)),
              Move(b, c, SeqMergeCode(a, b + 1, lena, lenb - 1, c + 1)))
    else if lena > 0 then
      Move(a, c, SeqMergeCode(a + 1, b, lena - 1, lenb, c + 1))
    else if lenb > 0 then
      Move(b, c, SeqMergeCode(a, b + 1, lena, lenb - 1, c + 1))
    else
      Done
  }

  function MergeCode(a: nat, b: nat, lena: nat, lenb: nat, c: nat): (p: Process)
    decreases lena, 2, 0
  {
    if lena <= MERGE_SIZE then SeqMergeCode(a, b, lena, lenb, c)
    else Load(a + lena / 2, v => SearchCode(v, 0, lenb, a, b, lena, lenb, c))
  }

  /** The loop of find_split between lo and hi, and what merge does with its result. */
  function SearchCode(v: int, lo: nat, hi: nat, a: nat, b: nat, lena: nat, lenb: nat, c: nat): (p: Process)
    requires lo <= hi <= lenb && lena > MERGE_SIZE
    decreases lena, 1, hi - lo
  {
    if lo < hi then
      var m := lo + (hi - lo) / 2;
      Load(b + m, w =>
        if v <= w then SearchCode(v, lo, m, a, b, lena, lenb, c)
        else SearchCode(v, m + 1, hi, a, b, lena, lenb, c))
    else
      ForkCode(hi, a, b, lena, lenb, c)
  }

  /** The cobegin of merge. */
  function ForkCode(sb: nat, a: nat, b: nat, lena: nat, lenb: nat, c: nat): (p: Process)
    requires sb <= lenb && lena > MERGE_SIZE
    decreases lena, 0, 0
  {
    var ha := lena / 2;
    Cobegin(MergeCode(a, b, ha, sb, c), MergeCode(a + ha, b + sb, lena - ha, lenb - sb, c + ha + sb), Done)
  }

  function SeqMergeCost(lena: nat, lenb: nat): (n: nat) {
    4 * (lena + lenb)
  }

  function MergeCost(lena: nat, lenb: nat): (n: nat) {
    4 * (lena + lenb) + lena * (lena + lenb)
  }

  /** The part of MergeCost left when find_split is done. */
  function ForkCost(lena: nat, lenb: nat): (n: nat)
    requires lena > 0
  {
    4 * lena + 3 * lenb - 1 + lena * (lena + lenb)
  }

  lemma CostOfFork(h: nat, g: nat, s: nat, t: nat)
    requires h >= 25 && g >= 25
    ensures MergeCost(h, s) + MergeCost(g, t) < ForkCost(h + g, s + t)
  {
    assert (h + g) * (h + g + (s + t)) == h * (h + s) + g * (g + t) + 2 * (h * g) + h * t + g * s;
    assert h * g >= 25 * 25 && h * t >= 25 * t && g * s >= 25 * s by {
      ProductAtLeast(h, g, 25);
      ProductAtLeast(t, h, 25);
      ProductAtLeast(s, g, 25);
    }
  }

  lemma ProductAtLeast(x: nat, y: nat, k: nat)
    requires y >= k
    ensures y * x == x * y >= k * x
  {
  }

  function MergeAccess(a: nat, b: nat, lena: nat, lenb: nat, c: nat): (r: set<nat>) {
    Range(a, lena) + Range(b, lenb) + Range(c, lena + lenb)
  }

  /** The output shares nothing with the inputs. */
  predicate OutputApart(a: nat, b: nat, lena: nat, lenb: nat, c: nat) {
    && (c + lena + lenb <= a || a + lena <= c)
    && (c + lena + lenb <= b || b + lenb <= c)
  }

  // Footprints

  lemma SafeMove(from: nat, to: nat, next: Process, n: nat, access: set<nat>, write: set<nat>)
    requires Safe(next, n, access, write) && from in access && to in write
    ensures Safe(Move(from, to, next), n + 2, access, write)
  {
    forall w: int
      ensures Safe(Store(to, w, next), n + 1, access, write)
    {
    }
  }

  lemma SafeTake(from: nat, to: nat, next: Process, n: nat, access': set<nat>, write': set<nat>, access: set<nat>,
                 write: set<nat>)
    requires Safe(next, n, access', write') && access' <= access && write' <= write <= access
    requires from in access && to in write
    ensures Safe(Move(from, to, next), n + 2, access, write) && Safe(Move(from, to, next), n + 4, access, write)
  {
    SafeMore(next, n, access', write', n, access, write);
    SafeMove(from, to, next, n, access, write);
    SafeMore(Move(from, to, next), n + 2, access, write, n + 4, access, write);
  }

  lemma SeqMergeFootprint(a: nat, b: nat, lena: nat, lenb: nat, c: nat)
    ensures var access, write := MergeAccess(a, b, lena, lenb, c), Range(c, lena + lenb);
      && write <= access
      && (lena > 0 ==>
            && MergeAccess(a + 1, b, lena - 1, lenb, c + 1) <= access && Range(c + 1, lena + lenb - 1) <= write
            && a in access && c in write)
      && (lenb > 0 ==>
            && MergeAccess(a, b + 1, lena, lenb - 1, c + 1) <= access && Range(c + 1, lena + lenb - 1) <= write
            && b in access && c in write)
  {
  }

  /** seq_merge writes only its output. */
  lemma {:induction false} SafeSeqMerge(a: nat, b: nat, lena: nat, lenb: nat, c: nat)
    ensures Safe(SeqMergeCode(a, b, lena, lenb, c), SeqMergeCost(lena, lenb),
                 MergeAccess(a, b, lena, lenb, c), Range(c, lena + lenb))
    decreases lena + lenb
  {
    hide Safe, MergeAccess, Range;
    var access, write := MergeAccess(a, b, lena, lenb, c), Range(c, lena + lenb);
    SeqMergeFootprint(a, b, lena, lenb, c);
    if lena == 0 && lenb == 0 {
      SafeDone(access, write);
    }
    if lena > 0 {
      SafeSeqMerge(a + 1, b, lena - 1, lenb, c + 1);
      SafeTake(a, c, SeqMergeCode(a + 1, b, lena - 1, lenb, c + 1), SeqMergeCost(lena - 1, lenb),
               MergeAccess(a + 1, b, lena - 1, lenb, c + 1), Range(c + 1, lena + lenb - 1), access, write);
    }
    if lenb > 0 {
      SafeSeqMerge(a, b + 1, lena, lenb - 1, c + 1);
      SafeTake(b, c, SeqMergeCode(a, b + 1, lena, lenb - 1, c + 1), SeqMergeCost(lena, lenb - 1),
               MergeAccess(a, b + 1, lena, lenb - 1, c + 1), Range(c + 1, lena + lenb - 1), access, write);
    }
    if lena > 0 && lenb > 0 {
      SafeCompare(a, b, Move(a, c, SeqMergeCode(a + 1, b, lena - 1, lenb, c + 1)),
                  Move(b, c, SeqMergeCode(a, b + 1, lena, lenb - 1, c + 1)), SeqMergeCost(lena, lenb), access, write);
    }
  }

  lemma SafeCompare(a: nat, b: nat, p: Process, q: Process, n: nat, access: set<nat>, write: set<nat>)
    requires n >= 2 && a in access && b in access && Safe(p, n - 2, access, write) && Safe(q, n - 2, access, write)
    ensures Safe(Compare(a, b, p, q), n, access, write)
  {
    var k := u => Load(b, v => if u < v then p else q);
    forall u: int
      ensures Safe(k(u), n - 1, access, write)
    {
      var k' := v => if u < v then p else q;
      assert forall v: int :: Safe(k'(v), n - 2, access, write);
      assert k(u) == Load(b, k');
    }
  }

  /** merge is free of races at every depth, whatever the runs hold, and writes only its output. */
  lemma {:induction false} SafeMerge(a: nat, b: nat, lena: nat, lenb: nat, c: nat)
    requires OutputApart(a, b, lena, lenb, c)
    ensures Safe(MergeCode(a, b, lena, lenb, c), MergeCost(lena, lenb),
                 MergeAccess(a, b, lena, lenb, c), Range(c, lena + lenb))
    decreases lena, 2, 0
  {
    var access, write := MergeAccess(a, b, lena, lenb, c), Range(c, lena + lenb);
    if lena <= MERGE_SIZE {
      SafeSeqMerge(a, b, lena, lenb, c);
      SafeMore(SeqMergeCode(a, b, lena, lenb, c), SeqMergeCost(lena, lenb), access, write,
               MergeCost(lena, lenb), access, write);
    } else {
      var p := MergeCode(a, b, lena, lenb, c);
      forall v: int
        ensures Safe((p.rest)(v), MergeCost(lena, lenb) - 1, access, write)
      {
        SafeSearch(v, 0, lenb, a, b, lena, lenb, c);
        assert (p.rest)(v) == SearchCode(v, 0, lenb, a, b, lena, lenb, c);
      }
    }
  }

  lemma {:induction false} SafeSearch(v: int, lo: nat, hi: nat, a: nat, b: nat, lena: nat, lenb: nat, c: nat)
    requires OutputApart(a, b, lena, lenb, c) && lo <= hi <= lenb && lena > MERGE_SIZE
    ensures Safe(SearchCode(v, lo, hi, a, b, lena, lenb, c), ForkCost(lena, lenb) + hi - lo,
                 MergeAccess(a, b, lena, lenb, c), Range(c, lena + lenb))
    decreases lena, 1, hi - lo
  {
    var access, write := MergeAccess(a, b, lena, lenb, c), Range(c, lena + lenb);
    if lo < hi {
      var m := lo + (hi - lo) / 2;
      var n := ForkCost(lena, lenb) + hi - lo - 1;
      SafeSearch(v, lo, m, a, b, lena, lenb, c);
      SafeMore(SearchCode(v, lo, m, a, b, lena, lenb, c), ForkCost(lena, lenb) + m - lo, access, write, n, access,
               write);
      SafeSearch(v, m + 1, hi, a, b, lena, lenb, c);
      SafeMore(SearchCode(v, m + 1, hi, a, b, lena, lenb, c), ForkCost(lena, lenb) + hi - (m + 1), access, write, n,
               access, write);
    } else {
      var _ := SafeFork(hi, a, b, lena, lenb, c);
    }
  }

  /** The two halves of a merge write apart from what the other accesses. */
  lemma ForkFootprints(h: nat, g: nat, s: nat, t: nat, a: nat, b: nat, c: nat)
    requires OutputApart(a, b, h + g, s + t, c)
    ensures Beside(MergeAccess(a, b, h, s, c), Range(c, h + s),
                   MergeAccess(a + h, b + s, g, t, c + h + s), Range(c + h + s, g + t),
                   MergeAccess(a, b, h + g, s + t, c), Range(c, h + g + (s + t)))
    ensures Range(c, h + g + (s + t)) <= MergeAccess(a, b, h + g, s + t, c)
    ensures OutputApart(a, b, h, s, c) && OutputApart(a + h, b + s, g, t, c + h + s)
  {
  }

  lemma {:induction false} SafeFork(sb: nat, a: nat, b: nat, lena: nat, lenb: nat, c: nat) returns (s: Share)
    requires OutputApart(a, b, lena, lenb, c) && sb <= lenb && lena > MERGE_SIZE
    ensures s.a == MergeCost(lena / 2, sb) && s.b == MergeCost(lena - lena / 2, lenb - sb) && s.k == 0
    ensures SafeShare(ForkCode(sb, a, b, lena, lenb, c), s, ForkCost(lena, lenb),
                      MergeAccess(a, b, lena, lenb, c), Range(c, lena + lenb))
    decreases lena, 0, 1
  {
    assert lena > 50;
    hide *;
    s := SafeHalves(lena / 2, lena - lena / 2, sb, lenb - sb, a, b, c);
    ForkIsCobegin(sb, a, b, lena, lenb, c);
  }

  lemma {:induction false} SafeHalves(h: nat, g: nat, s: nat, t: nat, a: nat, b: nat, c: nat) returns (r: Share)
    requires OutputApart(a, b, h + g, s + t, c) && h >= 25 && g >= 25
    ensures r.a == MergeCost(h, s) && r.b == MergeCost(g, t) && r.k == 0
    ensures SafeShare(Cobegin(MergeCode(a, b, h, s, c), MergeCode(a + h, b + s, g, t, c + h + s), Done), r,
                      ForkCost(h + g, s + t), MergeAccess(a, b, h + g, s + t, c), Range(c, h + g + (s + t)))
    decreases h + g, 0, 0
  {
    hide *;
    ForkFootprints(h, g, s, t, a, b, c);
    SafeDone(MergeAccess(a, b, h + g, s + t, c), Range(c, h + g + (s + t)));
    SafeMerge(a, b, h, s, c);
    SafeMerge(a + h, b + s, g, t, c + h + s);
    CostOfFork(h, g, s, t);
    r := SafeCobegin(MergeCode(a, b, h, s, c), MergeCost(h, s), MergeAccess(a, b, h, s, c), Range(c, h + s),
                     MergeCode(a + h, b + s, g, t, c + h + s), MergeCost(g, t),
                     MergeAccess(a + h, b + s, g, t, c + h + s), Range(c + h + s, g + t),
                     Done, 0, MergeAccess(a, b, h + g, s + t, c), Range(c, h + g + (s + t)), ForkCost(h + g, s + t));
  }

  lemma ForkIsCobegin(sb: nat, a: nat, b: nat, lena: nat, lenb: nat, c: nat)
    requires sb <= lenb && lena > MERGE_SIZE
    ensures var h := lena / 2;
      ForkCode(sb, a, b, lena, lenb, c)
      == Cobegin(MergeCode(a, b, h, sb, c), MergeCode(a + h, b + sb, lena - h, lenb - sb, c + h + sb), Done)
  {
  }

  lemma MergeNotDone(a: nat, b: nat, lena: nat, lenb: nat, c: nat)
    requires lena > 0
    ensures !MergeCode(a, b, lena, lenb, c).Done?
  {
  }

  /** Either half of a forked merge can take the first step. */
  lemma AnyHalfFirst(sb: nat, a: nat, b: nat, lena: nat, lenb: nat, c: nat, m: seq<int>)
    requires OutputApart(a, b, lena, lenb, c) && sb <= lenb && lena > MERGE_SIZE
    requires a + lena <= |m| && b + lenb <= |m| && c + lena + lenb <= |m|
    ensures var p := ForkCode(sb, a, b, lena, lenb, c);
      && (exists p', m' :: Step(p.left, m, p', m') && Step(p, m, p.(left := p'), m'))
      && (exists p', m' :: Step(p.right, m, p', m') && Step(p, m, p.(right := p'), m'))
  {
    var h := lena / 2;
    var s := SafeFork(sb, a, b, lena, lenb, c);
    var p := ForkCode(sb, a, b, lena, lenb, c);
    MergeNotDone(a, b, h, sb, c);
    MergeNotDone(a + h, b + sb, lena - h, lenb - sb, c + h + sb);
    hide MergeCode, MergeCost;
    assert Safe(p, ForkCost(lena, lenb), MergeAccess(a, b, lena, lenb, c), Range(c, lena + lenb)) by {
      ForkFootprints(h, lena - h, sb, lenb - sb, a, b, c);
    }
    EachMoves(p, ForkCost(lena, lenb), MergeAccess(a, b, lena, lenb, c), Range(c, lena + lenb), m);
  }

  // Sequential outcome

  lemma ExecMove(from: nat, to: nat, next: Process, n: nat, m: seq<int>)
    requires n >= 2 && from < |m| && to < |m|
    ensures Exec(Move(from, to, next), n, m) == Exec(next, n - 2, m[to := m[from]])
  {
    var k := w => Store(to, w, next);
    assert k(m[from]) == Store(to, m[from], next);
  }

  lemma ExecCompare(x: nat, y: nat, p: Process, q: Process, n: nat, m: seq<int>)
    requires n >= 2 && x < |m| && y < |m|
    ensures Exec(Compare(x, y, p, q), n, m) == Exec(if m[x] < m[y] then p else q, n - 2, m)
  {
    var k := (u: int) => Load(y, v => if u < v then p else q);
    var k' := (v: int) => if m[x] < v then p else q;
    assert k(m[x]) == Load(y, k');
    assert k'(m[y]) == if m[x] < m[y] then p else q;
  }

  /** Whether the next element that seq_merge writes comes from its first input. */
  predicate TakesFirst(a: nat, b: nat, lena: nat, lenb: nat, m: seq<int>)
    requires a + lena <= |m| && b + lenb <= |m|
  {
    lena > 0 && (lenb == 0 || m[a] < m[b])
  }

  /** The memory that the sequential run of seq_merge leaves. */
  function SeqMergeExec(a: nat, b: nat, lena: nat, lenb: nat, c: nat, m: seq<int>): (r: seq<int>)
    ensures |r| == |m|
  {
    Exec(SeqMergeCode(a, b, lena, lenb, c), SeqMergeCost(lena, lenb), m)
  }

  /** The n elements of m from a on. */
  function Slice(m: seq<int>, a: nat, n: nat): (r: seq<int>)
    requires a + n <= |m|
    ensures |r| == n
  {
    m[a..a + n]
  }

  lemma SliceParts(m: seq<int>, a: nat, n: nat, h: nat)
    requires a + n <= |m| && h <= n
    ensures Slice(m, a, h) == Slice(m, a, n)[..h] && Slice(m, a + h, n - h) == Slice(m, a, n)[h..]
    ensures Slice(m, a, n) == Slice(m, a, h) + Slice(m, a + h, n - h)
    ensures h < n ==> Slice(m, a, n)[h] == m[a + h]
  {
  }

  lemma SliceFirst(m: seq<int>, a: nat, n: nat)
    requires a + n <= |m| && n > 0
    ensures Slice(m, a, n)[0] == m[a] && Slice(m, a + 1, n - 1) == Slice(m, a, n)[1..]
    ensures Slice(m, a, n) == [m[a]] + Slice(m, a + 1, n - 1)
  {
  }

  lemma SliceKept(m: seq<int>, r: seq<int>, c: nat, n: nat, a: nat, k: nat)
    requires Untouched(m, r, c, n) && a + k <= |m| && (c + n <= a || a + k <= c)
    ensures Slice(r, a, k) == Slice(m, a, k)
  {
  }

  /** m and r differ at most on n elements from c on. */
  predicate Untouched(m: seq<int>, r: seq<int>, c: nat, n: nat) {
    |r| == |m| && forall i | 0 <= i < |m| && !(c <= i < c + n) :: r[i] == m[i]
  }

  /** One round of seq_merge in the sequential run. */
  lemma ExecSeqMergeStep(a: nat, b: nat, lena: nat, lenb: nat, c: nat, m: seq<int>)
    requires a + lena <= |m| && b + lenb <= |m| && c + lena + lenb <= |m| && lena + lenb > 0
    ensures SeqMergeExec(a, b, lena, lenb, c, m) ==
      if TakesFirst(a, b, lena, lenb, m) then SeqMergeExec(a + 1, b, lena - 1, lenb, c + 1, m[c := m[a]])
      else SeqMergeExec(a, b + 1, lena, lenb - 1, c + 1, m[c := m[b]])
  {
    hide Exec, Safe, Move, Compare, MergeAccess, Range;
    var n := SeqMergeCost(lena, lenb);
    if TakesFirst(a, b, lena, lenb, m) {
      var next := SeqMergeCode(a + 1, b, lena - 1, lenb, c + 1);
      ExecMove(a, c, next, n, m);
      ExecMove(a, c, next, n - 2, m);
      SafeSeqMerge(a + 1, b, lena - 1, lenb, c + 1);
      ExecMore(next, n - 4, MergeAccess(a + 1, b, lena - 1, lenb, c + 1), Range(c + 1, lena + lenb - 1), n - 2,
               m[c := m[a]]);
    } else {
      var next := SeqMergeCode(a, b + 1, lena, lenb - 1, c + 1);
      ExecMove(b, c, next, n, m);
      ExecMove(b, c, next, n - 2, m);
      SafeSeqMerge(a, b + 1, lena, lenb - 1, c + 1);
      ExecMore(next, n - 4, MergeAccess(a, b + 1, lena, lenb - 1, c + 1), Range(c + 1, lena + lenb - 1), n - 2,
               m[c := m[b]]);
    }
    if lena > 0 && lenb > 0 {
      ExecCompare(a, b, Move(a, c, SeqMergeCode(a + 1, b, lena - 1, lenb, c + 1)),
                  Move(b, c, SeqMergeCode(a, b + 1, lena, lenb - 1, c + 1)), n, m);
    }
  }

  lemma SeqMergeDone(a: nat, b: nat, c: nat, m: seq<int>)
    ensures SeqMergeExec(a, b, 0, 0, c, m) == m
  {
  }

  /** On any inputs, seq_merge writes their merge. */
  lemma {:induction false} SeqMergeIsMerged(a: nat, b: nat, lena: nat, lenb: nat, c: nat, m: seq<int>)
    requires OutputApart(a, b, lena, lenb, c)
    requires a + lena <= |m| && b + lenb <= |m| && c + lena + lenb <= |m|
    ensures Slice(SeqMergeExec(a, b, lena, lenb, c, m), c, lena + lenb) == Merged(Slice(m, a, lena), Slice(m, b, lenb))
    decreases lena + lenb
  {
    hide SeqMergeExec, Merged, Slice;
    var s, t := Slice(m, a, lena), Slice(m, b, lenb);
    if lena + lenb == 0 {
      MergedNone();
      assert s == [] && t == [];
    } else {
      ExecSeqMergeStep(a, b, lena, lenb, c, m);
      if TakesFirst(a, b, lena, lenb, m) {
        SeqMergeFirst(a, b, lena, lenb, c, m);
        SeqMergeIsMerged(a + 1, b, lena - 1, lenb, c + 1, m[c := m[a]]);
        MergedFirst(s, t);
      } else {
        SeqMergeSecond(a, b, lena, lenb, c, m);
        SeqMergeIsMerged(a, b + 1, lena, lenb - 1, c + 1, m[c := m[b]]);
        MergedSecond(s, t);
      }
    }
  }

  /** A round that takes from the first input: the element goes first, and the rest is still to be merged. */
  lemma SeqMergeFirst(a: nat, b: nat, lena: nat, lenb: nat, c: nat, m: seq<int>)
    requires OutputApart(a, b, lena, lenb, c)
    requires a + lena <= |m| && b + lenb <= |m| && c + lena + lenb <= |m|
    requires TakesFirst(a, b, lena, lenb, m)
    ensures var s, t, m' := Slice(m, a, lena), Slice(m, b, lenb), m[c := m[a]];
      var r := SeqMergeExec(a + 1, b, lena - 1, lenb, c + 1, m');
      && Slice(m', a + 1, lena - 1) == s[1..] && Slice(m', b, lenb) == t
      && s[0] == m[a] && (lenb > 0 ==> t[0] == m[b])
      && Slice(r, c, lena + lenb) == [s[0]] + Slice(r, c + 1, lena + lenb - 1)
  {
    hide SeqMergeExec, Slice;
    var m' := m[c := m[a]];
    SliceKept(m, m', c, 1, a + 1, lena - 1);
    SliceKept(m, m', c, 1, b, lenb);
    SliceFirst(m, a, lena);
    if lenb > 0 {
      SliceFirst(m, b, lenb);
    }
    SeqMergeWrites(a + 1, b, lena - 1, lenb, c + 1, m');
    SliceFirst(SeqMergeExec(a + 1, b, lena - 1, lenb, c + 1, m'), c, lena + lenb);
  }

  /** A round that takes from the second input. */
  lemma SeqMergeSecond(a: nat, b: nat, lena: nat, lenb: nat, c: nat, m: seq<int>)
    requires OutputApart(a, b, lena, lenb, c) && lena + lenb > 0
    requires a + lena <= |m| && b + lenb <= |m| && c + lena + lenb <= |m|
    requires !TakesFirst(a, b, lena, lenb, m)
    ensures var s, t, m' := Slice(m, a, lena), Slice(m, b, lenb), m[c := m[b]];
      var r := SeqMergeExec(a, b + 1, lena, lenb - 1, c + 1, m');
      && Slice(m', a, lena) == s && Slice(m', b + 1, lenb - 1) == t[1..]
      && t[0] == m[b] && (lena > 0 ==> s[0] == m[a])
      && Slice(r, c, lena + lenb) == [t[0]] + Slice(r, c + 1, lena + lenb - 1)
  {
    hide SeqMergeExec, Slice;
    var m' := m[c := m[b]];
    SliceKept(m, m', c, 1, a, lena);
    SliceKept(m, m', c, 1, b + 1, lenb - 1);
    SliceFirst(m, b, lenb);
    if lena > 0 {
      SliceFirst(m, a, lena);
    }
    SeqMergeWrites(a, b + 1, lena, lenb - 1, c + 1, m');
    SliceFirst(SeqMergeExec(a, b + 1, lena, lenb - 1, c + 1, m'), c, lena + lenb);
  }

  lemma MergedNone()
    ensures Merged([], []) == []
  {
  }

  lemma MergedFirst(s: seq<int>, t: seq<int>)
    requires s != [] && (t == [] || s[0] < t[0])
    ensures Merged(s, t) == [s[0]] + Merged(s[1..], t)
  {
  }

  lemma MergedSecond(s: seq<int>, t: seq<int>)
    requires t != [] && (s == [] || s[0] >= t[0])
    ensures Merged(s, t) == [t[0]] + Merged(s, t[1..])
  {
  }

  lemma SeqMergeWrites(a: nat, b: nat, lena: nat, lenb: nat, c: nat, m: seq<int>)
    ensures Untouched(m, SeqMergeExec(a, b, lena, lenb, c, m), c, lena + lenb)
  {
    SafeSeqMerge(a, b, lena, lenb, c);
    ExecWrites(SeqMergeCode(a, b, lena, lenb, c), SeqMergeCost(lena, lenb),
               MergeAccess(a, b, lena, lenb, c), Range(c, lena + lenb), m);
  }

  /** What find_split returns when it searches s between lo and hi. */
  function Split(v: int, s: seq<int>, lo: nat, hi: nat): (r: nat)
    requires lo <= hi <= |s|
    ensures lo <= r <= hi
    decreases hi - lo
  {
    if lo == hi then hi else
    var m := lo + (hi - lo) / 2;
    if v <= s[m] then Split(v, s, lo, m) else Split(v, s, m + 1, hi)
  }

  /** On a sorted run find_split returns the first index whose element is not below v. */
  lemma {:induction false} SplitIsFirst(v: int, s: seq<int>, lo: nat, hi: nat)
    requires lo <= hi <= |s| && Sorted(s)
    requires (forall i | 0 <= i < lo :: s[i] < v) && (forall i | hi <= i < |s| :: v <= s[i])
    ensures IsSplit(v, s, Split(v, s, lo, hi))
    decreases hi - lo
  {
    if lo < hi {
      var m := lo + (hi - lo) / 2;
      if v <= s[m] {
        SplitIsFirst(v, s, lo, m);
      } else {
        SplitIsFirst(v, s, m + 1, hi);
      }
    }
  }

  /** The memory that the sequential run of merge leaves. */
  function MergeExec(a: nat, b: nat, lena: nat, lenb: nat, c: nat, m: seq<int>): (r: seq<int>)
    ensures |r| == |m|
  {
    Exec(MergeCode(a, b, lena, lenb, c), MergeCost(lena, lenb), m)
  }

  lemma ExecSearchStep(v: int, lo: nat, hi: nat, a: nat, b: nat, lena: nat, lenb: nat, c: nat, n: nat, m: seq<int>)
    requires b + lenb <= |m| && lo < hi <= lenb && lena > MERGE_SIZE && n > 0
    ensures var i := lo + (hi - lo) / 2;
      Exec(SearchCode(v, lo, hi, a, b, lena, lenb, c), n, m)
      == Exec(if v <= m[b + i] then SearchCode(v, lo, i, a, b, lena, lenb, c)
              else SearchCode(v, i + 1, hi, a, b, lena, lenb, c), n - 1, m)
  {
    var i := lo + (hi - lo) / 2;
    var p := SearchCode(v, lo, hi, a, b, lena, lenb, c);
    assert (p.rest)(m[b + i]) == if v <= m[b + i] then SearchCode(v, lo, i, a, b, lena, lenb, c)
      else SearchCode(v, i + 1, hi, a, b, lena, lenb, c);
  }

  /** Above MERGE_SIZE, the search of merge runs into its cobegin, at the index it finds. */
  lemma {:induction false} SearchRun(v: int, lo: nat, hi: nat, a: nat, b: nat, lena: nat, lenb: nat, c: nat,
                                     m: seq<int>)
    returns (t: seq<State>)
    requires b + lenb <= |m| && lo <= hi <= lenb && lena > MERGE_SIZE
    ensures IsRun(t) && t[0] == State(SearchCode(v, lo, hi, a, b, lena, lenb, c), m)
    ensures t[|t| - 1] == State(ForkCode(Split(v, Slice(m, b, lenb), lo, hi), a, b, lena, lenb, c), m)
    decreases hi - lo
  {
    var s := State(SearchCode(v, lo, hi, a, b, lena, lenb, c), m);
    if lo == hi {
      t := [s];
    } else {
      var i := lo + (hi - lo) / 2;
      assert Slice(m, b, lenb)[i] == m[b + i];
      if v <= m[b + i] {
        assert (s.code.rest)(m[b + i]) == SearchCode(v, lo, i, a, b, lena, lenb, c);
        t := SearchRun(v, lo, i, a, b, lena, lenb, c, m);
      } else {
        assert (s.code.rest)(m[b + i]) == SearchCode(v, i + 1, hi, a, b, lena, lenb, c);
        t := SearchRun(v, i + 1, hi, a, b, lena, lenb, c, m);
      }
      assert Step(s.code, m, t[0].code, m);
      t := RunFrom(s, t);
    }
  }

  lemma RunFrom(s: State, t: seq<State>) returns (u: seq<State>)
    requires IsRun(t) && Step(s.code, s.memory, t[0].code, t[0].memory)
    ensures IsRun(u) && u[0] == s && u[|u| - 1] == t[|t| - 1]
  {
    u := [s] + t;
  }

  lemma MergeRunsToFork(a: nat, b: nat, lena: nat, lenb: nat, c: nat, m: seq<int>) returns (t: seq<State>)
    requires lena > 50 && a + lena <= |m| && b + lenb <= |m|
    ensures IsRun(t) && t[0] == State(MergeCode(a, b, lena, lenb, c), m)
    ensures t[|t| - 1]
         == State(ForkCode(Split(m[a + lena / 2], Slice(m, b, lenb), 0, lenb), a, b, lena, lenb, c), m)
  {
    var s := State(MergeCode(a, b, lena, lenb, c), m);
    var v := m[a + lena / 2];
    assert (s.code.rest)(v) == SearchCode(v, 0, lenb, a, b, lena, lenb, c);
    t := SearchRun(v, 0, lenb, a, b, lena, lenb, c, m);
    t := RunFrom(s, t);
  }

  /** The search leads to the cobegin at the index it finds. */
  lemma {:induction false} ExecSearch(v: int, lo: nat, hi: nat, a: nat, b: nat, lena: nat, lenb: nat, c: nat,
                                      m: seq<int>)
    requires OutputApart(a, b, lena, lenb, c) && b + lenb <= |m| && lo <= hi <= lenb && lena > MERGE_SIZE
    ensures Exec(SearchCode(v, lo, hi, a, b, lena, lenb, c), ForkCost(lena, lenb) + hi - lo, m)
      == Exec(ForkCode(Split(v, Slice(m, b, lenb), lo, hi), a, b, lena, lenb, c), ForkCost(lena, lenb), m)
    decreases hi - lo
  {
    hide Exec, Safe, ForkCost, ForkCode, MergeCode, MergeAccess, Range;
    if lo < hi {
      var n := ForkCost(lena, lenb) + hi - lo - 1;
      var i := lo + (hi - lo) / 2;
      ExecSearchStep(v, lo, hi, a, b, lena, lenb, c, n + 1, m);
      assert Slice(m, b, lenb)[i] == m[b + i];
      if v <= m[b + i] {
        SearchMore(v, lo, i, a, b, lena, lenb, c, n, m);
        ExecSearch(v, lo, i, a, b, lena, lenb, c, m);
      } else {
        SearchMore(v, i + 1, hi, a, b, lena, lenb, c, n, m);
        ExecSearch(v, i + 1, hi, a, b, lena, lenb, c, m);
      }
    }
  }

  lemma SearchMore(v: int, lo: nat, hi: nat, a: nat, b: nat, lena: nat, lenb: nat, c: nat, n: nat, m: seq<int>)
    requires OutputApart(a, b, lena, lenb, c) && lo <= hi <= lenb && lena > MERGE_SIZE
    requires n >= ForkCost(lena, lenb) + hi - lo
    ensures Exec(SearchCode(v, lo, hi, a, b, lena, lenb, c), n, m)
      == Exec(SearchCode(v, lo, hi, a, b, lena, lenb, c), ForkCost(lena, lenb) + hi - lo, m)
  {
    hide Exec, Safe, ForkCost, SearchCode;
    SafeSearch(v, lo, hi, a, b, lena, lenb, c);
    ExecMore(SearchCode(v, lo, hi, a, b, lena, lenb, c), ForkCost(lena, lenb) + hi - lo,
             MergeAccess(a, b, lena, lenb, c), Range(c, lena + lenb), n, m);
  }

  lemma ExecMergeLoad(a: nat, b: nat, lena: nat, lenb: nat, c: nat, m: seq<int>)
    requires lena > MERGE_SIZE && a + lena <= |m|
    ensures MergeExec(a, b, lena, lenb, c, m)
      == Exec(SearchCode(m[a + lena / 2], 0, lenb, a, b, lena, lenb, c), ForkCost(lena, lenb) + lenb, m)
  {
    var p := MergeCode(a, b, lena, lenb, c);
    assert (p.rest)(m[a + lena / 2]) == SearchCode(m[a + lena / 2], 0, lenb, a, b, lena, lenb, c);
  }

  lemma ExecFork(sb: nat, a: nat, b: nat, lena: nat, lenb: nat, c: nat, m: seq<int>)
    requires OutputApart(a, b, lena, lenb, c) && sb <= lenb && lena > MERGE_SIZE
    ensures var h := lena / 2;
      Exec(ForkCode(sb, a, b, lena, lenb, c), ForkCost(lena, lenb), m)
      == MergeExec(a + h, b + sb, lena - h, lenb - sb, c + h + sb, MergeExec(a, b, h, sb, c, m))
  {
    hide Safe, ForkCost, MergeCode, MergeAccess, Range;
    var s := SafeFork(sb, a, b, lena, lenb, c);
    ExecShare(ForkCode(sb, a, b, lena, lenb, c), s, ForkCost(lena, lenb),
              MergeAccess(a, b, lena, lenb, c), Range(c, lena + lenb), ForkCost(lena, lenb), m);
  }

  /** The sequential run of merge above MERGE_SIZE. */
  lemma ExecMergeFork(a: nat, b: nat, lena: nat, lenb: nat, c: nat, m: seq<int>)
    requires OutputApart(a, b, lena, lenb, c) && lena > MERGE_SIZE
    requires a + lena <= |m| && b + lenb <= |m|
    ensures var h := lena / 2;
      var k := Split(m[a + h], Slice(m, b, lenb), 0, lenb);
      MergeExec(a, b, lena, lenb, c, m)
      == MergeExec(a + h, b + k, lena - h, lenb - k, c + h + k, MergeExec(a, b, h, k, c, m))
  {
    hide Exec, MergeExec, ForkCode, SearchCode, Split, ForkCost, OutputApart;
    ExecMergeLoad(a, b, lena, lenb, c, m);
    ExecSearch(m[a + lena / 2], 0, lenb, a, b, lena, lenb, c, m);
    ExecFork(Split(m[a + lena / 2], Slice(m, b, lenb), 0, lenb), a, b, lena, lenb, c, m);
  }

  lemma ExecMergeSmall(a: nat, b: nat, lena: nat, lenb: nat, c: nat, m: seq<int>)
    requires lena <= MERGE_SIZE
    ensures MergeExec(a, b, lena, lenb, c, m) == SeqMergeExec(a, b, lena, lenb, c, m)
  {
    SafeSeqMerge(a, b, lena, lenb, c);
    ExecMore(SeqMergeCode(a, b, lena, lenb, c), SeqMergeCost(lena, lenb),
             MergeAccess(a, b, lena, lenb, c), Range(c, lena + lenb), MergeCost(lena, lenb), m);
  }

  lemma MergeWrites(a: nat, b: nat, lena: nat, lenb: nat, c: nat, m: seq<int>)
    requires OutputApart(a, b, lena, lenb, c)
    ensures Untouched(m, MergeExec(a, b, lena, lenb, c, m), c, lena + lenb)
  {
    SafeMerge(a, b, lena, lenb, c);
    ExecWrites(MergeCode(a, b, lena, lenb, c), MergeCost(lena, lenb),
               MergeAccess(a, b, lena, lenb, c), Range(c, lena + lenb), m);
  }

  /** Two sorted runs are merged into one. */
  lemma {:induction false} MergeSorts(a: nat, b: nat, lena: nat, lenb: nat, c: nat, m: seq<int>)
    requires OutputApart(a, b, lena, lenb, c)
    requires a + lena <= |m| && b + lenb <= |m| && c + lena + lenb <= |m|
    requires Sorted(Slice(m, a, lena)) && Sorted(Slice(m, b, lenb))
    ensures IsSortOf(Slice(MergeExec(a, b, lena, lenb, c, m), c, lena + lenb), Slice(m, a, lena) + Slice(m, b, lenb))
    decreases lena
  {
    hide MergeExec, SeqMergeExec, Sorted, IsSortOf, IsSplit, Split, Slice;
    var s, t := Slice(m, a, lena), Slice(m, b, lenb);
    if lena <= MERGE_SIZE {
      ExecMergeSmall(a, b, lena, lenb, c, m);
      SeqMergeIsMerged(a, b, lena, lenb, c, m);
      MergeIsSort(s, t);
    } else {
      var h := lena / 2;
      var k := Split(m[a + h], t, 0, lenb);
      SplitIsFirst(m[a + h], t, 0, lenb);
      SortedParts(s, h);
      SortedParts(t, k);
      ExecMergeFork(a, b, lena, lenb, c, m);
      MergeWrites(a, b, h, k, c, m);
      var low := MergeExec(a, b, h, k, c, m);
      MergeWrites(a + h, b + k, lena - h, lenb - k, c + h + k, low);
      var high := MergeExec(a + h, b + k, lena - h, lenb - k, c + h + k, low);
      SliceParts(m, a, lena, h);
      SliceParts(m, b, lenb, k);
      SliceKept(m, low, c, h + k, a + h, lena - h);
      SliceKept(m, low, c, h + k, b + k, lenb - k);
      SliceKept(low, high, c + h + k, lena - h + (lenb - k), c, h + k);
      SliceParts(high, c, lena + lenb, h + k);
      hide Untouched;
      MergeSorts(a, b, h, k, c, m);
      MergeSorts(a + h, b + k, lena - h, lenb - k, c + h + k, low);
      SplitMerge(s, t, h, k, Slice(low, c, h + k), Slice(high, c + h + k, lena - h + (lenb - k)));
    }
  }

  lemma SortedParts(s: seq<int>, h: nat)
    requires Sorted(s) && h <= |s|
    ensures Sorted(s[..h]) && Sorted(s[h..])
  {
  }

  // The methods

  method SeqMerge(mem: array<int>, a: nat, b: nat, lena: nat, lenb: nat, c: nat)
    requires a + lena <= mem.Length && b + lenb <= mem.Length && c + lena + lenb <= mem.Length
    modifies mem
    ensures mem[..] == SeqMergeExec(a, b, lena, lenb, c, old(mem[..]))
  {
    hide SeqMergeExec;
    var i, j, k := 0, 0, 0;
    while i < lena && j < lenb
      invariant i <= lena && j <= lenb && k == i + j
      invariant SeqMergeExec(a + i, b + j, lena - i, lenb - j, c + k, mem[..])
        == SeqMergeExec(a, b, lena, lenb, c, old(mem[..]))
    {
      ExecSeqMergeStep(a + i, b + j, lena - i, lenb - j, c + k, mem[..]);
      if mem[a + i] < mem[b + j] {
        mem[c + k] := mem[a + i];
        k, i := k + 1, i + 1;
      } else {
        mem[c + k] := mem[b + j];
        k, j := k + 1, j + 1;
      }
    }
    while i < lena
      invariant i <= lena && j <= lenb && k == i + j && (i == lena || j == lenb)
      invariant SeqMergeExec(a + i, b + j, lena - i, lenb - j, c + k, mem[..])
        == SeqMergeExec(a, b, lena, lenb, c, old(mem[..]))
    {
      ExecSeqMergeStep(a + i, b + j, lena - i, lenb - j, c + k, mem[..]);
      mem[c + k] := mem[a + i];
      k, i := k + 1, i + 1;
    }
    while j < lenb
      invariant i == lena && j <= lenb && k == i + j
      invariant SeqMergeExec(a + i, b + j, lena - i, lenb - j, c + k, mem[..])
        == SeqMergeExec(a, b, lena, lenb, c, old(mem[..]))
    {
      ExecSeqMergeStep(a + i, b + j, lena - i, lenb - j, c + k, mem[..]);
      mem[c + k] := mem[b + j];
      k, j := k + 1, j + 1;
    }
    SeqMergeDone(a + i, b + j, c + k, mem[..]);
  }

  method FindSplit(v: int, mem: array<int>, b: nat, len: nat) returns (r: nat)
    requires b + len <= mem.Length
    ensures r == Split(v, Slice(mem[..], b, len), 0, len)
    ensures Sorted(Slice(mem[..], b, len)) ==> IsSplit(v, Slice(mem[..], b, len), r)
  {
    hide Sorted, IsSplit;
    var lo: nat, hi: nat := 0, len;
    while lo < hi
      invariant lo <= hi <= len
      invariant Split(v, Slice(mem[..], b, len), lo, hi) == Split(v, Slice(mem[..], b, len), 0, len)
    {
      var m := lo + (hi - lo) / 2;
      if v <= mem[b + m] {
        hi := m;
      } else {
        lo := m + 1;
      }
    }
    if Sorted(Slice(mem[..], b, len)) {
      SplitIsFirst(v, Slice(mem[..], b, len), 0, len);
    }
    r := hi;
  }

  /** merge with the coroutines of its cobegin in order. */
  method Merge(mem: array<int>, a: nat, b: nat, lena: nat, lenb: nat, c: nat)
    requires OutputApart(a, b, lena, lenb, c)
    requires a + lena <= mem.Length && b + lenb <= mem.Length && c + lena + lenb <= mem.Length
    modifies mem
    ensures mem[..] == MergeExec(a, b, lena, lenb, c, old(mem[..]))
    ensures Sorted(old(Slice(mem[..], a, lena))) && Sorted(old(Slice(mem[..], b, lenb))) ==>
      IsSortOf(Slice(mem[..], c, lena + lenb), old(Slice(mem[..], a, lena)) + old(Slice(mem[..], b, lenb)))
    ensures Untouched(old(mem[..]), mem[..], c, lena + lenb)
    decreases lena
  {
    hide MergeExec, SeqMergeExec, IsSortOf, Sorted, Split;
    ghost var m := mem[..];
    if lena <= MERGE_SIZE {
      SeqMerge(mem, a, b, lena, lenb, c);
      ExecMergeSmall(a, b, lena, lenb, c, m);
    } else {
      var ha := lena / 2;
      var sb := FindSplit(mem[a + ha], mem, b, lenb);
      ExecMergeFork(a, b, lena, lenb, c, m);
      assert Slice(mem[..], b, lenb) == Slice(m, b, lenb);
      Merge(mem, a, b, ha, sb, c);
      Merge(mem, a + ha, b + sb, lena - ha, lenb - sb, c + ha + sb);
    }
    MergeOutcome(a, b, lena, lenb, c, m);
  }

  lemma MergeOutcome(a: nat, b: nat, lena: nat, lenb: nat, c: nat, m: seq<int>)
    requires OutputApart(a, b, lena, lenb, c)
    requires a + lena <= |m| && b + lenb <= |m| && c + lena + lenb <= |m|
    ensures var r := MergeExec(a, b, lena, lenb, c, m);
      && Untouched(m, r, c, lena + lenb)
      && (Sorted(Slice(m, a, lena)) && Sorted(Slice(m, b, lenb)) ==>
            IsSortOf(Slice(r, c, lena + lenb), Slice(m, a, lena) + Slice(m, b, lenb)))
  {
    hide MergeExec;
    MergeWrites(a, b, lena, lenb, c, m);
    if Sorted(Slice(m, a, lena)) && Sorted(Slice(m, b, lenb)) {
      MergeSorts(a, b, lena, lenb, c, m);
    }
  }
}
