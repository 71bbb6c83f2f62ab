/**
  * mergesort of demo/mergesort.c (lines 43-67): four sorts and then two merges, each group in
  * a cobegin, and one last merge. As a process, whose coroutines may interleave at every
  * depth, and as the method that runs the coroutines in order.
  */
module MergeSort {
  import opened Sorting
  import opened Cpj
  import opened Merging

  const QUICK_SIZE: nat := 2048

  /** The linked quicksort: its code for n elements from an address on, and a bound on its steps. */
  datatype Sorter = Sorter(code: (nat, nat) -> Process, cost: nat -> nat)

  /** It sorts its range in place and touches nothing else. */
  ghost predicate IsSorter(qs: Sorter) {
    forall a: nat, n: nat :: SortsAt(qs, a, n)
  }

  ghost predicate SortsAt(qs: Sorter, a: nat, n: nat) {
    && Safe(qs.code(a, n), qs.cost(n), Range(a, n), Range(a, n))
    && forall m: seq<int> | a + n <= |m| :: IsSortOf(Slice(Exec(qs.code(a, n), qs.cost(n), m), a, n), Slice(m, a, n))
  }

  function MergesortCode(qs: Sorter, a: nat, b: nat, len: nat): (p: Process)
    decreases len
  {
    if len <= QUICK_SIZE then qs.code(a, len) else
    var q := len / 4;
    var r := len - (q + q + q);
    Cobegin(
      MergesortCode(qs, a, b, q),
      Cobegin(
        MergesortCode(qs, a + q, b + q, q),
        Cobegin(
          MergesortCode(qs, a + 2 * q, b + 2 * q, q),
          MergesortCode(qs, a + 3 * q, b + 3 * q, r),
          Done),
        Done),
      MergesCode(a, b, len))
  }

  /** The second cobegin of mergesort and the merge after it. */
  function MergesCode(a: nat, b: nat, len: nat): (p: Process) {
    var q := len / 4;
    var h := q + q;
    var r := len - (q + q + q);
    Cobegin(
      MergeCode(a, a + q, q, q, b),
      MergeCode(a + h, a + 3 * q, q, r, b + h),
      MergeCode(b, b + h, h, len - h, a))
  }

  function MergesCost(len: nat): (n: nat) {
    var q := len / 4;
    MergeCost(q, q) + MergeCost(q, len - 3 * q) + MergeCost(2 * q, len - 2 * q) + 1
  }

  function MergesortCost(qs: Sorter, len: nat): (n: nat) {
    if len <= QUICK_SIZE then qs.cost(len) else
    3 * MergesortCost(qs, len / 4) + MergesortCost(qs, len - 3 * (len / 4)) + 3 + MergesCost(len)
  }

  /** The ranges that mergesort uses of its two arrays. */
  function Both(a: nat, b: nat, n: nat): (r: set<nat>) {
    Range(a, n) + Range(b, n)
  }

  predicate Separate(a: nat, b: nat, n: nat) {
    a + n <= b || b + n <= a
  }

  // Footprints

  lemma BothBeside(a: nat, b: nat, n: nat, h: nat)
    requires Separate(a, b, n) && h <= n
    ensures Separate(a, b, h) && Separate(a + h, b + h, n - h)
    ensures Beside(Both(a, b, h), Both(a, b, h), Both(a + h, b + h, n - h), Both(a + h, b + h, n - h), Both(a, b, n),
                   Both(a, b, n))
  {
  }

  lemma MergesBeside(a: nat, b: nat, n: nat, q: nat, r: nat)
    requires Separate(a, b, n) && n == 3 * q + r
    ensures OutputApart(a, a + q, q, q, b) && OutputApart(a + 2 * q, a + 3 * q, q, r, b + 2 * q)
    ensures OutputApart(b, b + 2 * q, 2 * q, q + r, a)
    ensures Beside(MergeAccess(a, a + q, q, q, b), Range(b, q + q),
                   MergeAccess(a + 2 * q, a + 3 * q, q, r, b + 2 * q), Range(b + 2 * q, q + r), Both(a, b, n), Both(a,
                               b, n))
    ensures MergeAccess(b, b + 2 * q, 2 * q, q + r, a) <= Both(a, b, n) && Range(a, 2 * q + (q + r)) <= Both(a, b, n)
  {
  }

  /** The memory that the merges of mergesort leave when they run in order. */
  function MergesExec(a: nat, b: nat, len: nat, m: seq<int>): (r: seq<int>)
    ensures |r| == |m|
  {
    var q := len / 4;
    var m1 := MergeExec(a, a + q, q, q, b, m);
    var m2 := MergeExec(a + 2 * q, a + 3 * q, q, len - 3 * q, b + 2 * q, m1);
    MergeExec(b, b + 2 * q, 2 * q, len - 2 * q, a, m2)
  }

  /** The two merges of the second cobegin do not interfere. */
  lemma SafeMerges(a: nat, b: nat, len: nat, m: seq<int>)
    requires Separate(a, b, len)
    ensures Safe(MergesCode(a, b, len), MergesCost(len), Both(a, b, len), Both(a, b, len))
    ensures Exec(MergesCode(a, b, len), MergesCost(len), m) == MergesExec(a, b, len, m)
  {
    hide Safe, Exec, MergeCode, MergeCost, MergeAccess, Range, Both, Beside, OutputApart;
    var q := len / 4;
    var r := len - 3 * q;
    MergesBeside(a, b, len, q, r);
    SafeMerge(a, a + q, q, q, b);
    SafeMerge(a + 2 * q, a + 3 * q, q, r, b + 2 * q);
    SafeMerge(b, b + 2 * q, 2 * q, q + r, a);
    SafeMore(MergeCode(b, b + 2 * q, 2 * q, q + r, a), MergeCost(2 * q, q + r),
             MergeAccess(b, b + 2 * q, 2 * q, q + r, a), Range(a, 2 * q + (q + r)),
             MergeCost(2 * q, q + r), Both(a, b, len), Both(a, b, len));
    var s := SafeCobegin(
      MergeCode(a, a + q, q, q, b), MergeCost(q, q), MergeAccess(a, a + q, q, q, b), Range(b, q + q),
      MergeCode(a + 2 * q, a + 3 * q, q, r, b + 2 * q), MergeCost(q, r),
      MergeAccess(a + 2 * q, a + 3 * q, q, r, b + 2 * q), Range(b + 2 * q, q + r),
      MergeCode(b, b + 2 * q, 2 * q, q + r, a), MergeCost(2 * q, q + r), Both(a, b, len), Both(a, b, len),
                MergesCost(len));
    ExecShare(MergesCode(a, b, len), s, MergesCost(len), Both(a, b, len), Both(a, b, len), MergesCost(len), m);
  }

  /** The memory that the sequential run of mergesort leaves. */
  function MergesortExec(qs: Sorter, a: nat, b: nat, len: nat, m: seq<int>): (r: seq<int>)
    ensures |r| == |m|
  {
    Exec(MergesortCode(qs, a, b, len), MergesortCost(qs, len), m)
  }

  function LastThreeExec(qs: Sorter, a: nat, b: nat, q: nat, r: nat, m: seq<int>): (s: seq<int>)
    ensures |s| == |m|
  {
    var m2 := MergesortExec(qs, a, b, q, m);
    var m3 := MergesortExec(qs, a + q, b + q, q, m2);
    MergesortExec(qs, a + 2 * q, b + 2 * q, r, m3)
  }

  /** The memory after the four sorts of the first cobegin in order. */
  function SortsExec(qs: Sorter, a: nat, b: nat, q: nat, r: nat, m: seq<int>): (s: seq<int>)
    ensures |s| == |m|
  {
    LastThreeExec(qs, a + q, b + q, q, r, MergesortExec(qs, a, b, q, m))
  }

  lemma SortsInOrder(qs: Sorter, a: nat, b: nat, q: nat, r: nat, m: seq<int>)
    ensures SortsExec(qs, a, b, q, r, m) ==
      MergesortExec(qs, a + 3 * q, b + 3 * q, r,
                    MergesortExec(qs, a + 2 * q, b + 2 * q, q,
                                  MergesortExec(qs, a + q, b + q, q, MergesortExec(qs, a, b, q, m))))
  {
    hide MergesortExec;
    assert a + q + q == a + 2 * q && b + q + q == b + 2 * q && a + q + 2 * q == a + 3 * q && b + q + 2 * q == b + 3 * q;
  }

  /** mergesort is free of races at every depth, and uses only its two ranges. */
  lemma {:induction false} SafeMergesort(qs: Sorter, a: nat, b: nat, len: nat)
    requires IsSorter(qs) && Separate(a, b, len)
    ensures Safe(MergesortCode(qs, a, b, len), MergesortCost(qs, len), Both(a, b, len), Both(a, b, len))
    decreases len
  {
    if len <= QUICK_SIZE {
      assert SortsAt(qs, a, len);
      SafeMore(qs.code(a, len), qs.cost(len), Range(a, len), Range(a, len), qs.cost(len), Both(a, b, len), Both(a, b,
               len));
    } else {
      SafeQuarters(qs, a, b, len, len / 4, len - 3 * (len / 4), []);
    }
  }

  /** One coroutine on the first q elements beside whatever runs on the other n. */
  lemma SafeBeside(p: Process, np: nat, r: Process, nr: nat, next: Process, nk: nat, a: nat, b: nat, q: nat, n: nat,
                   bound: nat, m: seq<int>)
    requires Separate(a, b, q + n) && np + nr + nk < bound
    requires Safe(p, np, Both(a, b, q), Both(a, b, q)) && Safe(r, nr, Both(a + q, b + q, n), Both(a + q, b + q, n))
    requires Safe(next, nk, Both(a, b, q + n), Both(a, b, q + n))
    ensures Safe(Cobegin(p, r, next), bound, Both(a, b, q + n), Both(a, b, q + n))
    ensures Exec(Cobegin(p, r, next), bound, m) == Exec(next, nk, Exec(r, nr, Exec(p, np, m)))
  {
    hide *;
    BothBeside(a, b, q + n, q);
    var s := SafeCobegin(p, np, Both(a, b, q), Both(a, b, q), r, nr, Both(a + q, b + q, n), Both(a + q, b + q, n),
                         next, nk, Both(a, b, q + n), Both(a, b, q + n), bound);
    ExecShare(Cobegin(p, r, next), s, bound, Both(a, b, q + n), Both(a, b, q + n), bound, m);
  }

  /** The second, third and fourth sort, on their part of the arrays. */
  lemma {:induction false} SafeLastThree(qs: Sorter, a: nat, b: nat, q: nat, r: nat, m: seq<int>) returns (p: Process)
    requires IsSorter(qs) && Separate(a, b, 2 * q + r) && q > 0
    ensures p == Cobegin(MergesortCode(qs, a, b, q),
                         Cobegin(MergesortCode(qs, a + q, b + q, q), MergesortCode(qs, a + 2 * q, b + 2 * q, r),
                                 Done), Done)
    ensures Safe(p, 2 * MergesortCost(qs, q) + MergesortCost(qs, r) + 2, Both(a, b, 2 * q + r), Both(a, b, 2 * q + r))
    ensures Exec(p, 2 * MergesortCost(qs, q) + MergesortCost(qs, r) + 2, m)
      == LastThreeExec(qs, a, b, q, r, m)
    decreases 2 * q + r, 1
  {
    hide Safe, Exec, Both, Beside, Separate, IsSorter, MergesortCode, MergesortCost;
    var n1, n4 := MergesortCost(qs, q), MergesortCost(qs, r);
    BothBeside(a, b, 2 * q + r, q);
    BothBeside(a + q, b + q, q + r, q);
    SafeMergesort(qs, a, b, q);
    SafeMergesort(qs, a + q, b + q, q);
    SafeMergesort(qs, a + 2 * q, b + 2 * q, r);
    var m2 := MergesortExec(qs, a, b, q, m);
    SafeDone(Both(a + q, b + q, q + r), Both(a + q, b + q, q + r));
    SafeDone(Both(a, b, q + (q + r)), Both(a, b, q + (q + r)));
    var p3, p4 := MergesortCode(qs, a + q, b + q, q), MergesortCode(qs, a + 2 * q, b + 2 * q, r);
    SafeBeside(p3, n1, p4, n4, Done, 0, a + q, b + q, q, r, n1 + n4 + 1, m2);
    p := Cobegin(MergesortCode(qs, a, b, q), Cobegin(p3, p4, Done), Done);
    SafeBeside(MergesortCode(qs, a, b, q), n1, Cobegin(p3, p4, Done), n1 + n4 + 1, Done, 0, a, b, q, q + r,
               2 * n1 + n4 + 2, m);
    ExecDone(Exec(Cobegin(p3, p4, Done), n1 + n4 + 1, m2));
    ExecDone(LastThreeExec(qs, a, b, q, r, m));
  }

  lemma {:induction false} SafeQuarters(qs: Sorter, a: nat, b: nat, len: nat, q: nat, r: nat, m: seq<int>)
    requires IsSorter(qs) && Separate(a, b, len) && Quartered(len, q, r)
    ensures Safe(MergesortCode(qs, a, b, len), MergesortCost(qs, len), Both(a, b, len), Both(a, b, len))
    ensures MergesortExec(qs, a, b, len, m) == MergesExec(a, b, len, SortsExec(qs, a, b, q, r, m))
    decreases len, 0
  {
    hide *;
    QuartersCode(qs, a, b, len, q, r);
    UnfoldExec(qs, a, b, len, q, r, m);
    var m1 := Exec(MergesortCode(qs, a, b, q), MergesortCost(qs, q), m);
    var n := 2 * MergesortCost(qs, q) + MergesortCost(qs, r) + 2;
    BothBeside(a, b, len, q);
    SafeMergesort(qs, a, b, q);
    var p := SafeLastThree(qs, a + q, b + q, q, r, m1);
    SafeMerges(a, b, len, LastThreeExec(qs, a + q, b + q, q, r, m1));
    SafeBeside(MergesortCode(qs, a, b, q), MergesortCost(qs, q), p, n,
               MergesCode(a, b, len), MergesCost(len), a, b, q, 2 * q + r, MergesortCost(qs, len), m);
  }

  lemma UnfoldExec(qs: Sorter, a: nat, b: nat, len: nat, q: nat, r: nat, m: seq<int>)
    ensures MergesortExec(qs, a, b, len, m) == Exec(MergesortCode(qs, a, b, len), MergesortCost(qs, len), m)
    ensures SortsExec(qs, a, b, q, r, m)
      == LastThreeExec(qs, a + q, b + q, q, r, Exec(MergesortCode(qs, a, b, q), MergesortCost(qs, q), m))
  {
  }

  predicate Quartered(len: nat, q: nat, r: nat) {
    len > QUICK_SIZE && q == len / 4 && r == len - 3 * q
  }

  lemma QuartersCode(qs: Sorter, a: nat, b: nat, len: nat, q: nat, r: nat)
    requires Quartered(len, q, r)
    ensures 0 < q && len == 3 * q + r
    ensures MergesortCode(qs, a, b, len) == Cobegin(
      MergesortCode(qs, a, b, q),
      Cobegin(
        MergesortCode(qs, a + q, b + q, q),
        Cobegin(MergesortCode(qs, a + q + q, b + q + q, q), MergesortCode(qs, a + q + 2 * q, b + q + 2 * q, r), Done),
        Done),
      MergesCode(a, b, len))
    ensures MergesortCost(qs, len) == 3 * MergesortCost(qs, q) + MergesortCost(qs, r) + 3 + MergesCost(len)
  {
    hide MergesCode, MergesCost;
    assert q + q + q + r == len && a + 2 * q == a + q + q && a + 3 * q == a + q + 2 * q;
    assert b + 2 * q == b + q + q && b + 3 * q == b + q + 2 * q;
  }

  lemma ExecDone(m: seq<int>)
    ensures Exec(Done, 0, m) == m
  {
  }

  /** The sequential run of mergesort above QUICK_SIZE. */
  lemma ExecMergesort(qs: Sorter, a: nat, b: nat, len: nat, m: seq<int>)
    requires IsSorter(qs) && Separate(a, b, len) && len > QUICK_SIZE
    ensures MergesortExec(qs, a, b, len, m)
      == MergesExec(a, b, len, SortsExec(qs, a, b, len / 4, len - 3 * (len / 4), m))
  {
    SafeQuarters(qs, a, b, len, len / 4, len - 3 * (len / 4), m);
  }

  lemma ExecQuicksort(qs: Sorter, a: nat, b: nat, len: nat, m: seq<int>)
    requires len <= QUICK_SIZE
    ensures MergesortExec(qs, a, b, len, m) == Exec(qs.code(a, len), qs.cost(len), m)
  {
  }

  // Sequential outcome

  predicate UntouchedBoth(m: seq<int>, r: seq<int>, a: nat, b: nat, n: nat) {
    |r| == |m| && forall i | 0 <= i < |m| && !(a <= i < a + n) && !(b <= i < b + n) :: r[i] == m[i]
  }

  lemma MergesortWrites(qs: Sorter, a: nat, b: nat, len: nat, m: seq<int>)
    requires IsSorter(qs) && Separate(a, b, len)
    ensures UntouchedBoth(m, MergesortExec(qs, a, b, len, m), a, b, len)
  {
    SafeMergesort(qs, a, b, len);
    ExecWrites(MergesortCode(qs, a, b, len), MergesortCost(qs, len), Both(a, b, len), Both(a, b, len), m);
  }

  lemma SliceKeptBoth(m: seq<int>, r: seq<int>, a: nat, b: nat, n: nat, c: nat, k: nat)
    requires UntouchedBoth(m, r, a, b, n) && c + k <= |m|
    requires (c + k <= a || a + n <= c) && (c + k <= b || b + n <= c)
    ensures Slice(r, c, k) == Slice(m, c, k)
  {
  }

  /** Four parts sorted, each by itself: the elements are the same. */
  ghost predicate QuartersSorted(m: seq<int>, s: seq<int>, a: nat, q: nat, r: nat)
    requires a + 3 * q + r <= |m| == |s|
  {
    && IsSortOf(Slice(s, a, q), Slice(m, a, q))
    && IsSortOf(Slice(s, a + q, q), Slice(m, a + q, q))
    && IsSortOf(Slice(s, a + 2 * q, q), Slice(m, a + 2 * q, q))
    && IsSortOf(Slice(s, a + 3 * q, r), Slice(m, a + 3 * q, r))
  }

  /** A merge of two sorted parts that lay side by side in m gives the two parts sorted as one. */
  lemma MergeWhole(a: nat, b: nat, lena: nat, lenb: nat, c: nat, s: seq<int>, m: seq<int>, x: nat)
    requires OutputApart(a, b, lena, lenb, c)
    requires a + lena <= |s| && b + lenb <= |s| && c + lena + lenb <= |s| == |m| && x + lena + lenb <= |m|
    requires IsSortOf(Slice(s, a, lena), Slice(m, x, lena)) && IsSortOf(Slice(s, b, lenb), Slice(m, x + lena, lenb))
    ensures var r := MergeExec(a, b, lena, lenb, c, s);
      IsSortOf(Slice(r, c, lena + lenb), Slice(m, x, lena + lenb)) && Untouched(s, r, c, lena + lenb)
  {
    hide MergeExec, Slice, Untouched, OutputApart;
    MergeOutcome(a, b, lena, lenb, c, s);
    SliceParts(m, x, lena + lenb, lena);
    SortParts(Slice(MergeExec(a, b, lena, lenb, c, s), c, lena + lenb), Slice(m, x, lena), Slice(m, x + lena, lenb),
              Slice(s, a, lena), Slice(s, b, lenb));
  }

  /** Two merges and the last one turn four sorted parts into one. */
  lemma MergesSort(a: nat, b: nat, len: nat, m: seq<int>, s: seq<int>)
    requires Separate(a, b, len) && a + len <= |s| == |m| && b + len <= |s|
    requires QuartersSorted(m, s, a, len / 4, len - 3 * (len / 4))
    ensures IsSortOf(Slice(MergesExec(a, b, len, s), a, len), Slice(m, a, len))
  {
    hide Slice, MergeExec, Untouched, IsSortOf, OutputApart, Beside, Both, MergeAccess, Range;
    var q := len / 4;
    var r := len - 3 * q;
    var h := 2 * q;
    MergesBeside(a, b, len, q, r);
    var s1 := MergeExec(a, a + q, q, q, b, s);
    var s2 := MergeExec(a + h, a + 3 * q, q, r, b + h, s1);
    MergeWhole(a, a + q, q, q, b, s, m, a);
    SliceKept(s, s1, b, h, a + h, q);
    SliceKept(s, s1, b, h, a + 3 * q, r);
    MergeWhole(a + h, a + 3 * q, q, r, b + h, s1, m, a + h);
    SliceKept(s1, s2, b + h, q + r, b, h);
    MergeWhole(b, b + h, h, q + r, a, s2, m, a);
  }

  /** The first array ends as a sorted permutation of what it was. */
  lemma {:induction false} MergesortSorts(qs: Sorter, a: nat, b: nat, len: nat, m: seq<int>)
    requires IsSorter(qs) && Separate(a, b, len) && a + len <= |m| && b + len <= |m|
    ensures IsSortOf(Slice(MergesortExec(qs, a, b, len, m), a, len), Slice(m, a, len))
    decreases len
  {
    hide IsSorter, QuartersSorted, Slice, IsSortOf, MergesortExec, MergesExec, SortsExec, Exec;
    ExecSmall(qs, a, b, len, m);
    if len > QUICK_SIZE {
      var q := len / 4;
      var r := len - 3 * q;
      ExecMergesort(qs, a, b, len, m);
      SortsQuarters(qs, a, b, q, r, m);
      MergesSort(a, b, len, m, SortsExec(qs, a, b, q, r, m));
    }
  }

  lemma ExecSmall(qs: Sorter, a: nat, b: nat, len: nat, m: seq<int>)
    requires IsSorter(qs) && a + len <= |m|
    ensures len <= QUICK_SIZE ==> IsSortOf(Slice(MergesortExec(qs, a, b, len, m), a, len), Slice(m, a, len))
  {
    if len <= QUICK_SIZE {
      assert SortsAt(qs, a, len);
      ExecQuicksort(qs, a, b, len, m);
    }
  }

  lemma {:induction false} SortsQuarters(qs: Sorter, a: nat, b: nat, q: nat, r: nat, m: seq<int>)
    requires IsSorter(qs) && Separate(a, b, 3 * q + r) && a + 3 * q + r <= |m| && b + 3 * q + r <= |m| && q > 0
    ensures QuartersSorted(m, SortsExec(qs, a, b, q, r, m), a, q, r)
    decreases 3 * q + r, 0
  {
    hide IsSorter, Slice, IsSortOf, MergesortExec, SortsExec, UntouchedBoth;
    SortsInOrder(qs, a, b, q, r, m);
    var m1 := MergesortExec(qs, a, b, q, m);
    var m2 := MergesortExec(qs, a + q, b + q, q, m1);
    var m3 := MergesortExec(qs, a + 2 * q, b + 2 * q, q, m2);
    MergesortSorts(qs, a, b, q, m);
    MergesortSorts(qs, a + q, b + q, q, m1);
    MergesortSorts(qs, a + 2 * q, b + 2 * q, q, m2);
    MergesortSorts(qs, a + 3 * q, b + 3 * q, r, m3);
    OthersKept(qs, a, b, 0, q, 3 * q + r, m);
    OthersKept(qs, a, b, q, q, 3 * q + r, m1);
    OthersKept(qs, a, b, 2 * q, q, 3 * q + r, m2);
    OthersKept(qs, a, b, 3 * q, r, 3 * q + r, m3);
  }

  /** One sort leaves what lies in the rest of the first array. */
  lemma OthersKept(qs: Sorter, a: nat, b: nat, x: nat, n: nat, len: nat, m: seq<int>)
    requires IsSorter(qs) && Separate(a, b, len) && x + n <= len && a + len <= |m|
    ensures forall i, k | a <= i <= i + k <= a + len && (i + k <= a + x || a + x + n <= i) ::
      Slice(MergesortExec(qs, a + x, b + x, n, m), i, k) == Slice(m, i, k)
  {
    MergesortWrites(qs, a + x, b + x, n, m);
    hide Slice, MergesortExec, UntouchedBoth, IsSorter;
    forall i, k | a <= i <= i + k <= a + len && (i + k <= a + x || a + x + n <= i)
      ensures Slice(MergesortExec(qs, a + x, b + x, n, m), i, k) == Slice(m, i, k)
    {
      SliceKeptBoth(m, MergesortExec(qs, a + x, b + x, n, m), a + x, b + x, n, i, k);
    }
  }

  // The method

  method Quicksort(qs: Sorter, mem: array<int>, a: nat, n: nat)
    modifies mem
    ensures mem[..] == Exec(qs.code(a, n), qs.cost(n), old(mem[..]))
  {
    RunInOrder(qs.code(a, n), qs.cost(n), mem);
  }

  /** The merges of mergesort in order. */
  method Merges(mem: array<int>, a: nat, b: nat, len: nat)
    requires Separate(a, b, len) && a + len <= mem.Length && b + len <= mem.Length
    modifies mem
    ensures mem[..] == MergesExec(a, b, len, old(mem[..]))
  {
    hide Slice, IsSortOf, Sorted, Untouched, MergeExec, OutputApart, Beside, Both, MergeAccess, Range;
    var q := len / 4;
    var h := q + q;
    var r := len - (q + q + q);
    MergesBeside(a, b, len, q, r);
    Merge(mem, a, a + q, q, q, b);
    Merge(mem, a + h, a + 3 * q, q, r, b + h);
    Merge(mem, b, b + h, h, len - h, a);
  }

  /** mergesort with the coroutines of each cobegin in order. */
  method Mergesort(qs: Sorter, mem: array<int>, a: nat, b: nat, len: nat)
    requires IsSorter(qs) && Separate(a, b, len) && a + len <= mem.Length && b + len <= mem.Length
    modifies mem
    ensures mem[..] == MergesortExec(qs, a, b, len, old(mem[..]))
    ensures IsSortOf(Slice(mem[..], a, len), old(Slice(mem[..], a, len)))
    ensures UntouchedBoth(old(mem[..]), mem[..], a, b, len)
    decreases len
  {
    hide IsSorter, Slice, IsSortOf, MergesortExec, MergesExec, SortsExec, UntouchedBoth, Exec;
    ghost var m := mem[..];
    if len <= QUICK_SIZE {
      Quicksort(qs, mem, a, len);
      ExecQuicksort(qs, a, b, len, m);
    } else {
      var q := len / 4;
      ExecMergesort(qs, a, b, len, m);
      SortsInOrder(qs, a, b, q, len - 3 * q, m);
      Mergesort(qs, mem, a, b, q);
      Mergesort(qs, mem, a + q, b + q, q);
      Mergesort(qs, mem, a + 2 * q, b + 2 * q, q);
      Mergesort(qs, mem, a + 3 * q, b + 3 * q, len - (q + q + q));
      Merges(mem, a, b, len);
    }
    MergesortSorts(qs, a, b, len, m);
    MergesortWrites(qs, a, b, len, m);
  }

  // Every interleaving

  /** A sorter has something to do on two elements or more. */
  lemma SorterNotDone(qs: Sorter, a: nat, n: nat)
    requires IsSorter(qs) && n >= 2
    ensures !qs.code(a, n).Done?
  {
    assert SortsAt(qs, a, n);
    hide IsSorter;
    var m := seq(a + n, i => -i);
    NotSorted(m, a, n);
    assert IsSortOf(Slice(Exec(qs.code(a, n), qs.cost(n), m), a, n), Slice(m, a, n));
    assert qs.code(a, n).Done? ==> Exec(qs.code(a, n), qs.cost(n), m) == m;
  }

  lemma NotSorted(m: seq<int>, a: nat, n: nat)
    requires n >= 2 && a + n <= |m| && m[a + 1] < m[a]
    ensures !IsSortOf(Slice(m, a, n), Slice(m, a, n))
  {
    assert Slice(m, a, n)[0] == m[a] && Slice(m, a, n)[1] == m[a + 1];
  }

  /** The sort of n elements from x on can move. */
  lemma FirstStep(qs: Sorter, a: nat, b: nat, len: nat, x: nat, n: nat, m: seq<int>)
    requires IsSorter(qs) && Separate(a, b, len) && x + n <= len && n >= 2 && a + len <= |m| && b + len <= |m|
    ensures CanStep(MergesortCode(qs, a + x, b + x, n), m)
  {
    SafeMergesort(qs, a + x, b + x, n);
    if n <= QUICK_SIZE {
      SorterNotDone(qs, a + x, n);
    }
    var all := Both(a + x, b + x, n);
    var _, _ := Progress(MergesortCode(qs, a + x, b + x, n), MergesortCost(qs, n), all, all, m);
  }

  lemma FourCanMove(qs: Sorter, a: nat, b: nat, q: nat, r: nat, k: Process, m: seq<int>)
    requires IsSorter(qs) && Separate(a, b, 3 * q + r) && q >= 2 && r >= 2
    requires a + 3 * q + r <= |m| && b + 3 * q + r <= |m|
    ensures AnyFirst(MergesortCode(qs, a, b, q), MergesortCode(qs, a + q, b + q, q),
                     MergesortCode(qs, a + 2 * q, b + 2 * q, q), MergesortCode(qs, a + 3 * q, b + 3 * q, r), k, m)
  {
    hide *;
    FirstStep(qs, a, b, 3 * q + r, 0, q, m);
    FirstStep(qs, a, b, 3 * q + r, q, q, m);
    FirstStep(qs, a, b, 3 * q + r, 2 * q, q, m);
    FirstStep(qs, a, b, 3 * q + r, 3 * q, r, m);
    AnyCanBeFirst(MergesortCode(qs, a, b, q), MergesortCode(qs, a + q, b + q, q),
                  MergesortCode(qs, a + 2 * q, b + 2 * q, q), MergesortCode(qs, a + 3 * q, b + 3 * q, r), k, m);
  }

  /** Any of the four sorts can take the first step of mergesort. */
  lemma AnySortFirst(qs: Sorter, a: nat, b: nat, len: nat, q: nat, r: nat, m: seq<int>)
    requires IsSorter(qs) && Separate(a, b, len) && Quartered(len, q, r) && a + len <= |m| && b + len <= |m|
    ensures MergesortCode(qs, a, b, len) == Cobegin4(
      MergesortCode(qs, a, b, q), MergesortCode(qs, a + q, b + q, q),
      MergesortCode(qs, a + 2 * q, b + 2 * q, q), MergesortCode(qs, a + 3 * q, b + 3 * q, r), MergesCode(a, b, len))
    ensures AnyFirst(
      MergesortCode(qs, a, b, q), MergesortCode(qs, a + q, b + q, q),
      MergesortCode(qs, a + 2 * q, b + 2 * q, q), MergesortCode(qs, a + 3 * q, b + 3 * q, r), MergesCode(a, b, len), m)
  {
    assert q >= 2 && r >= 2 && len == 3 * q + r;
    CobeginOfSorts(qs, a, b, len, q, r);
    hide *;
    FourCanMove(qs, a, b, q, r, MergesCode(a, b, len), m);
  }

  lemma CobeginOfSorts(qs: Sorter, a: nat, b: nat, len: nat, q: nat, r: nat)
    requires Quartered(len, q, r)
    ensures MergesortCode(qs, a, b, len) == Cobegin4(
      MergesortCode(qs, a, b, q), MergesortCode(qs, a + q, b + q, q),
      MergesortCode(qs, a + 2 * q, b + 2 * q, q), MergesortCode(qs, a + 3 * q, b + 3 * q, r), MergesCode(a, b, len))
  {
  }

  /** So can either of the two merges after them. */
  lemma AnyMergeFirst(a: nat, b: nat, len: nat, m: seq<int>)
    requires Separate(a, b, len) && len > QUICK_SIZE && a + len <= |m| && b + len <= |m|
    ensures var p := MergesCode(a, b, len);
      && (exists p', m' :: Step(p.left, m, p', m') && Step(p, m, p.(left := p'), m'))
      && (exists p', m' :: Step(p.right, m, p', m') && Step(p, m, p.(right := p'), m'))
  {
    SafeMerges(a, b, len, m);
    var p := MergesCode(a, b, len);
    assert !p.left.Done? && !p.right.Done? by {
      MergeNotDone(a, a + len / 4, len / 4, len / 4, b);
      MergeNotDone(a + (len / 4 + len / 4), a + 3 * (len / 4), len / 4, len - 3 * (len / 4), b + (len / 4 + len / 4));
    }
    EachMoves(p, MergesCost(len), Both(a, b, len), Both(a, b, len), m);
  }

  /**
    * However the coroutines interleave, mergesort stops within its bound and never gets stuck,
    * no state of it has a race, and it ends in the one memory that the sequential run leaves:
    * the first array sorted, and nothing else touched but the second.
    */
  lemma MergesortDeterminism(qs: Sorter, a: nat, b: nat, len: nat, t: seq<State>)
    requires IsSorter(qs) && Separate(a, b, len)
    requires IsRun(t) && t[0].code == MergesortCode(qs, a, b, len)
    requires a + len <= |t[0].memory| && b + len <= |t[0].memory|
    ensures |t| <= MergesortCost(qs, len) + 1
    ensures forall i | 0 <= i < |t| :: RaceFree(t[i].code)
    ensures var m, last := t[0].memory, t[|t| - 1];
      if last.code.Done? then
        && last.memory == MergesortExec(qs, a, b, len, m)
        && IsSortOf(Slice(last.memory, a, len), Slice(m, a, len))
        && UntouchedBoth(m, last.memory, a, b, len)
      else
        exists s: State :: IsRun(t + [s])
  {
    var n, all := MergesortCost(qs, len), Both(a, b, len);
    SafeMergesort(qs, a, b, len);
    assert Inside(all, t[0].memory);
    Determinism(t, n, all, all);
    NoRaces(t, n, all, all);
    MergesortSorts(qs, a, b, len, t[0].memory);
    MergesortWrites(qs, a, b, len, t[0].memory);
  }
}
