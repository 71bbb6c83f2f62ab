/** Sorted sequences and their merges, the meaning of demo/mergesort.c. */
module Sorting {

  ghost predicate Sorted(s: seq<int>) {
    forall i, j :: 0 <= i < j < |s| ==> s[i] <= s[j]
  }

  /** r is what sorting s gives. */
  ghost predicate IsSortOf(r: seq<int>, s: seq<int>) {
    Sorted(r) && multiset(r) == multiset(s)
  }

  /** Sorting has one result. */
  lemma {:induction false} SortUnique(r: seq<int>, t: seq<int>)
    requires Sorted(r) && Sorted(t) && multiset(r) == multiset(t)
    ensures r == t
  {
    if r == [] {
      assert |multiset(t)| == 0;
    } else {
      assert |multiset(t)| == |r|;
      FirstIsLeast(r, t);
      FirstIsLeast(t, r);
      assert r == [r[0]] + r[1..] && t == [t[0]] + t[1..];
      assert multiset(r[1..]) == multiset(r) - multiset{r[0]};
      assert multiset(t[1..]) == multiset(t) - multiset{t[0]};
      SortUnique(r[1..], t[1..]);
    }
  }

  lemma FirstIsLeast(r: seq<int>, t: seq<int>)
    requires Sorted(r) && r != [] && t != [] && multiset(r) == multiset(t)
    ensures r[0] <= t[0]
  {
    assert t[0] in multiset(r);
    var i :| 0 <= i < |r| && r[i] == t[0];
  }

  /** What seq_merge writes, whatever its inputs. */
  function Merged(s: seq<int>, t: seq<int>): (r: seq<int>)
    ensures |r| == |s| + |t|
  {
    if s == [] then t
    else if t == [] then s
    else if s[0] < t[0] then [s[0]] + Merged(s[1..], t)
    else [t[0]] + Merged(s, t[1..])
  }

  /** A merge loses and invents nothing. */
  lemma {:induction false} MergedPermutes(s: seq<int>, t: seq<int>)
    ensures multiset(Merged(s, t)) == multiset(s) + multiset(t)
  {
    if s != [] && t != [] {
      if s[0] < t[0] {
        MergedPermutes(s[1..], t);
        assert s == [s[0]] + s[1..];
      } else {
        MergedPermutes(s, t[1..]);
        assert t == [t[0]] + t[1..];
      }
    }
  }

  lemma {:induction false} MergedSorted(s: seq<int>, t: seq<int>)
    requires Sorted(s) && Sorted(t)
    ensures Sorted(Merged(s, t))
  {
    if s != [] && t != [] {
      if s[0] < t[0] {
        MergedSorted(s[1..], t);
        MergedPermutes(s[1..], t);
        Prepend(s[0], s[1..], t, Merged(s[1..], t));
      } else {
        MergedSorted(s, t[1..]);
        MergedPermutes(s, t[1..]);
        Prepend(t[0], s, t[1..], Merged(s, t[1..]));
      }
    }
  }

  lemma Prepend(x: int, s: seq<int>, t: seq<int>, r: seq<int>)
    requires Sorted(r) && multiset(r) == multiset(s) + multiset(t)
    requires (forall i :: 0 <= i < |s| ==> x <= s[i]) && (forall i :: 0 <= i < |t| ==> x <= t[i])
    ensures Sorted([x] + r)
  {
    forall i | 0 <= i < |r|
      ensures x <= r[i]
    {
      assert r[i] in multiset(r);
      assert r[i] in s || r[i] in t;
    }
  }

  /** A sorted merge of two sorted runs. */
  lemma MergeIsSort(s: seq<int>, t: seq<int>)
    requires Sorted(s) && Sorted(t)
    ensures IsSortOf(Merged(s, t), s + t)
  {
    MergedSorted(s, t);
    MergedPermutes(s, t);
  }

  /** The index that find_split returns: the first element of t that is not below v. */
  ghost predicate IsSplit(v: int, t: seq<int>, k: nat) {
    && k <= |t|
    && (forall i :: 0 <= i < k ==> t[i] < v)
    && (forall i :: k <= i < |t| ==> v <= t[i])
  }

  /** Splitting both runs at a pivot and merging the parts sorts the whole. */
  lemma SplitMerge(s: seq<int>, t: seq<int>, h: nat, k: nat, low: seq<int>, high: seq<int>)
    requires Sorted(s) && Sorted(t) && h < |s| && IsSplit(s[h], t, k)
    requires IsSortOf(low, s[..h] + t[..k]) && IsSortOf(high, s[h..] + t[k..])
    ensures IsSortOf(low + high, s + t)
  {
    forall i, j | 0 <= i < |low| && 0 <= j < |high|
      ensures low[i] <= high[j]
    {
      assert low[i] in multiset(low) && high[j] in multiset(high);
      assert low[i] in s[..h] + t[..k] && high[j] in s[h..] + t[k..];
      assert low[i] <= s[h] <= high[j];
    }
    assert s == s[..h] + s[h..] && t == t[..k] + t[k..];
    assert multiset(low + high) == multiset(s + t);
  }

  /** Sorting the parts first does not change what sorting the whole gives. */
  lemma SortParts(r: seq<int>, s: seq<int>, t: seq<int>, s': seq<int>, t': seq<int>)
    requires IsSortOf(r, s' + t') && IsSortOf(s', s) && IsSortOf(t', t)
    ensures IsSortOf(r, s + t)
  {
  }
}
