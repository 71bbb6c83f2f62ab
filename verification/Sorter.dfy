/**
  * A sorter as mergesort asks for one: it reads its range, and writes it back in order. With it,
  * what is proved for every sorter is proved for at least one.
  */
module SomeSorter {
  import opened Sorting
  import opened Cpj
  import opened Merging
  import opened MergeSort

  /** Insertion, element by element. */
  function InOrder(s: seq<int>): (r: seq<int>)
    ensures |r| == |s|
  {
    if |s| <= 1 then s else Merged(s[..1], InOrder(s[1..]))
  }

  lemma {:induction false} InOrderSorts(s: seq<int>)
    ensures IsSortOf(InOrder(s), s)
  {
    if |s| > 1 {
      InOrderSorts(s[1..]);
      MergeIsSort(s[..1], InOrder(s[1..]));
      assert s == s[..1] + s[1..];
    }
  }

  function WriteAll(a: nat, s: seq<int>): (p: Process)
    decreases |s|
  {
    if s == [] then Done else Store(a, s[0], WriteAll(a + 1, s[1..]))
  }

  /** s holds what was read so far of the n elements from a on. */
  function ReadAll(a: nat, n: nat, s: seq<int>): (p: Process)
    decreases n - |s|
  {
    if |s| < n then Load(a + |s|, v => ReadAll(a, n, s + [v])) else WriteAll(a, InOrder(s))
  }

  lemma {:induction false} SafeWriteAll(a: nat, s: seq<int>, b: nat, n: nat)
    requires b <= a && a + |s| <= b + n
    ensures Safe(WriteAll(a, s), |s|, Range(b, n), Range(b, n))
    decreases |s|
  {
    if s != [] {
      SafeWriteAll(a + 1, s[1..], b, n);
      assert InRange(a, b, n);
    }
  }

  lemma {:induction false} SafeReadAll(a: nat, n: nat, s: seq<int>)
    requires |s| <= n
    ensures Safe(ReadAll(a, n, s), 2 * n - |s|, Range(a, n), Range(a, n))
    decreases n - |s|
  {
    if |s| < n {
      var p := ReadAll(a, n, s);
      forall v: int
        ensures Safe((p.rest)(v), 2 * n - |s| - 1, Range(a, n), Range(a, n))
      {
        SafeReadAll(a, n, s + [v]);
        assert (p.rest)(v) == ReadAll(a, n, s + [v]);
      }
      assert InRange(a + |s|, a, n);
    } else {
      SafeWriteAll(a, InOrder(s), a, n);
    }
  }

  lemma {:induction false} ExecWriteAll(a: nat, s: seq<int>, m: seq<int>)
    requires a + |s| <= |m|
    ensures Exec(WriteAll(a, s), |s|, m) == m[..a] + s + m[a + |s|..]
    decreases |s|
  {
    if s == [] {
      assert m == m[..a] + s + m[a..];
    } else {
      ExecWriteAll(a + 1, s[1..], m[a := s[0]]);
      assert m[a := s[0]][..a + 1] == m[..a] + [s[0]] && s == [s[0]] + s[1..];
    }
  }

  lemma {:induction false} ExecReadAll(a: nat, n: nat, s: seq<int>, m: seq<int>)
    requires |s| <= n && a + n <= |m| && s == m[a..a + |s|]
    ensures Exec(ReadAll(a, n, s), 2 * n - |s|, m)[a..a + n] == InOrder(m[a..a + n])
    decreases n - |s|
  {
    if |s| < n {
      var v := m[a + |s|];
      var p := ReadAll(a, n, s);
      assert (p.rest)(v) == ReadAll(a, n, s + [v]);
      ExecReadAll(a, n, s + [v], m);
    } else {
      ExecWriteAll(a, InOrder(s), m);
    }
  }

  lemma SorterExists()
    ensures exists qs :: IsSorter(qs)
  {
    var qs := Sorter((a: nat, n: nat) => ReadAll(a, n, []), (n: nat) => 2 * n);
    forall a: nat, n: nat
      ensures SortsAt(qs, a, n)
    {
      SafeReadAll(a, n, []);
      forall m: seq<int> | a + n <= |m|
        ensures IsSortOf(Slice(Exec(qs.code(a, n), qs.cost(n), m), a, n), Slice(m, a, n))
      {
        ExecReadAll(a, n, [], m);
        InOrderSorts(m[a..a + n]);
      }
    }
    assert IsSorter(qs);
  }
}
