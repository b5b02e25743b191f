/**
 * The java.util.stream steps the completion engine applies to lists of names:
 * `filter`, `distinct` and `sorted(Comparator.naturalOrder())`.
 */
module Streams {
  import opened Strings

  predicate Sorted(s: seq<string>)
  {
    forall i, j :: 0 <= i < j < |s| ==> LessEq(s[i], s[j])
  }

  predicate StrictlySorted(s: seq<string>)
  {
    forall i, j :: 0 <= i < j < |s| ==> Less(s[i], s[j])
  }

  predicate NoDuplicates(s: seq<string>)
  {
    forall i, j :: 0 <= i < j < |s| ==> s[i] != s[j]
  }

  /** `r` is `s` with some elements left out and the rest in their order. */
  predicate IsSubsequence<T(==)>(r: seq<T>, s: seq<T>)
  {
    r == [] || (s != [] && ((r[0] == s[0] && IsSubsequence(r[1..], s[1..])) || IsSubsequence(r, s[1..])))
  }

  /**
   * `s.stream().filter(keep)`: the elements that `keep` accepts, each as often as
   * in `s`, in their order in `s`.
   */
  function Filter(s: seq<string>, keep: string -> bool): (r: seq<string>)
    ensures forall x :: multiset(r)[x] == if keep(x) then multiset(s)[x] else 0
    ensures forall x :: x in r <==> x in s && keep(x)
    ensures IsSubsequence(r, s)
    ensures |r| <= |s|
  {
    if s == [] then []
    else
      assert s == [s[0]] + s[1..];
      var t := Filter(s[1..], keep);
      if keep(s[0]) then [s[0]] + t else t
  }

  /** Filtering keeps the order of what it keeps: a strictly ascending list stays strictly ascending. */
  lemma {:induction false} FilterStrictlySorted(s: seq<string>, keep: string -> bool)
    ensures StrictlySorted(s) ==> StrictlySorted(Filter(s, keep))
  {
    if s != [] && StrictlySorted(s) {
      var t := Filter(s[1..], keep);
      assert StrictlySorted(s[1..]);
      FilterStrictlySorted(s[1..], keep);
      if keep(s[0]) {
        forall j | 0 <= j < |t|
          ensures Less(s[0], t[j])
        {
          var x := t[j];
          assert x in s[1..];
          var k :| 0 <= k < |s[1..]| && s[1..][k] == x;
          assert s[k + 1] == x;
        }
        ConsStrictlySorted(s[0], t);
        assert Filter(s, keep) == [s[0]] + t;
      } else {
        assert Filter(s, keep) == t;
      }
    }
  }

  lemma ConsStrictlySorted(x: string, t: seq<string>)
    requires StrictlySorted(t)
    requires forall j :: 0 <= j < |t| ==> Less(x, t[j])
    ensures StrictlySorted([x] + t)
  {
    var r := [x] + t;
    forall i, j | 0 <= i < j < |r|
      ensures Less(r[i], r[j])
    {
      if i == 0 {
        assert r[j] == t[j - 1];
      } else {
        assert r[i] == t[i - 1] && r[j] == t[j - 1];
      }
    }
  }

  /**
   * `stream.distinct()`: every element once. Only which elements remain is
   * stated; their order is discarded by the sort that follows it.
   */
  function Distinct(s: seq<string>): (r: seq<string>)
    ensures NoDuplicates(r)
    ensures forall x :: x in r <==> x in s
  {
    if s == [] then []
    else
      assert s == s[..|s| - 1] + [s[|s| - 1]];
      var d := Distinct(s[..|s| - 1]);
      if s[|s| - 1] in d then d else d + [s[|s| - 1]]
  }

  /** `distinct` leaves a list without duplicates as it is, so applying it twice changes nothing. */
  lemma {:induction false} DistinctOfDistinct(s: seq<string>)
    requires NoDuplicates(s)
    ensures Distinct(s) == s
  {
    if s != [] {
      DistinctOfDistinct(s[..|s| - 1]);
      assert s == s[..|s| - 1] + [s[|s| - 1]];
    }
  }

  /** Inserts `x` before the first element it does not exceed. */
  function Insert(x: string, s: seq<string>): (r: seq<string>)
    ensures multiset(r) == multiset(s) + multiset{x}
  {
    if s == [] || LessEq(x, s[0]) then [x] + s
    else
      assert s == [s[0]] + s[1..];
      [s[0]] + Insert(x, s[1..])
  }

  lemma {:induction false} InsertSorted(x: string, s: seq<string>)
    requires Sorted(s)
    ensures Sorted(Insert(x, s))
  {
    if s == [] {
    } else if LessEq(x, s[0]) {
      forall j | 0 <= j < |s|
        ensures LessEq(x, s[j])
      {
        LessEqTransitive(x, s[0], s[j]);
      }
    } else {
      LessTotal(x, s[0]);
      var t := Insert(x, s[1..]);
      InsertSorted(x, s[1..]);
      forall j | 0 <= j < |t|
        ensures LessEq(s[0], t[j])
      {
        assert t[j] in multiset(t);
        if t[j] != x {
          assert t[j] in multiset(s[1..]);
          var k :| 0 <= k < |s[1..]| && s[1..][k] == t[j];
          assert s[k + 1] == t[j];
        }
      }
      assert Insert(x, s) == [s[0]] + t;
    }
  }

  /**
   * `stream.sorted(Comparator.naturalOrder())`, written as an insertion sort; by
   * SortedUnique any sorting algorithm gives the same list.
   */
  function Sort(s: seq<string>): (r: seq<string>)
    ensures Sorted(r)
    ensures multiset(r) == multiset(s)
  {
    if s == [] then []
    else
      assert s == [s[0]] + s[1..];
      var t := Sort(s[1..]);
      InsertSorted(s[0], t);
      Insert(s[0], t)
  }

  lemma SameElements(a: seq<string>, b: seq<string>)
    requires multiset(a) == multiset(b)
    ensures forall x :: x in a <==> x in b
  {
    forall x
      ensures x in a <==> x in b
    {
      assert x in a <==> x in multiset(a);
      assert x in b <==> x in multiset(b);
    }
  }

  /** A multiset has exactly one sorted arrangement under natural order. */
  lemma {:induction false} SortedUnique(a: seq<string>, b: seq<string>)
    requires Sorted(a) && Sorted(b)
    requires multiset(a) == multiset(b)
    ensures a == b
  {
    if a == [] {
      assert |b| == |multiset(b)| == 0;
    } else {
      assert |b| == |multiset(b)| == |multiset(a)| == |a|;
      SortedHeads(a, b);
      SortedHeads(b, a);
      LessEqAntisymmetric(a[0], b[0]);
      SameHeadSameTail(a, b);
      SortedUnique(a[1..], b[1..]);
      assert a == [a[0]] + a[1..];
      assert b == [b[0]] + b[1..];
    }
  }

  /** The head of a sorted list is at most every element of a list with the same elements. */
  lemma SortedHeads(a: seq<string>, b: seq<string>)
    requires Sorted(a) && a != [] && b != []
    requires multiset(a) == multiset(b)
    ensures LessEq(a[0], b[0])
  {
    assert b[0] in multiset(a);
    var j :| 0 <= j < |a| && a[j] == b[0];
  }

  lemma SameHeadSameTail(a: seq<string>, b: seq<string>)
    requires a != [] && b != [] && a[0] == b[0]
    requires multiset(a) == multiset(b)
    ensures multiset(a[1..]) == multiset(b[1..])
  {
    assert a == [a[0]] + a[1..];
    assert b == [b[0]] + b[1..];
    assert multiset(a) == multiset{a[0]} + multiset(a[1..]);
    assert multiset(b) == multiset{a[0]} + multiset(b[1..]);
    forall x
      ensures multiset(a[1..])[x] == multiset(b[1..])[x]
    {
      assert multiset(a)[x] == multiset(b)[x];
    }
  }

  /** A set of strings has exactly one strictly ascending arrangement. */
  lemma StrictlySortedUnique(a: seq<string>, b: seq<string>)
    requires StrictlySorted(a) && StrictlySorted(b)
    requires forall x :: x in a <==> x in b
    ensures a == b
  {
    StrictlySortedNoDuplicates(a);
    StrictlySortedNoDuplicates(b);
    forall x
      ensures multiset(a)[x] == multiset(b)[x]
    {
      NoDuplicatesCount(a, x);
      NoDuplicatesCount(b, x);
      assert x in a <==> x in multiset(a);
      assert x in b <==> x in multiset(b);
    }
    assert multiset(a) == multiset(b);
    SortedUnique(a, b);
  }

  lemma StrictlySortedNoDuplicates(s: seq<string>)
    requires StrictlySorted(s)
    ensures Sorted(s) && NoDuplicates(s)
  {
    forall i, j | 0 <= i < j < |s|
      ensures s[i] != s[j]
    {
      LessIrreflexive(s[i]);
    }
  }

  lemma {:induction false} NoDuplicatesCount(s: seq<string>, x: string)
    requires NoDuplicates(s)
    ensures multiset(s)[x] <= 1
  {
    if s != [] {
      assert s == [s[0]] + s[1..];
      NoDuplicatesCount(s[1..], x);
      if x == s[0] {
        assert x !in s[1..];
      }
    }
  }

  lemma RepeatedCount(s: seq<string>, i: nat, j: nat)
    requires i < j < |s| && s[i] == s[j]
    ensures multiset(s)[s[i]] >= 2
  {
    assert s == s[..i] + [s[i]] + s[i + 1..j] + [s[j]] + s[j + 1..];
  }

  /** Sorting the result of `distinct` gives a strictly ascending list. */
  lemma SortDistinctStrictlySorted(s: seq<string>)
    ensures StrictlySorted(Sort(Distinct(s)))
  {
    var d := Distinct(s);
    var r := Sort(d);
    forall i, j | 0 <= i < j < |r|
      ensures Less(r[i], r[j])
    {
      if r[i] == r[j] {
        RepeatedCount(r, i, j);
        NoDuplicatesCount(d, r[i]);
      }
    }
  }
}
