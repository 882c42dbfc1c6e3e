/** Sorting by a three-way comparison, as `Array.Sort(IComparer)`,
    `List.Sort` and `Enumerable.OrderBy` do in the source. The model sorts
    stably (insertion sort); `Array.Sort` is not stable, so where the source
    sorts elements that compare equal their relative order is unspecified
    there and fixed here. */
module Sorting {
  import opened Seqs

  /** `cmp` behaves as a comparer must: any two elements are ordered one
      way or the other, and the order is transitive. */
  ghost predicate TotalPreorder<T(!new)>(cmp: (T, T) -> int) {
    && (forall a, b :: cmp(a, b) <= 0 || cmp(b, a) <= 0)
    && (forall a, b, c :: cmp(a, b) <= 0 && cmp(b, c) <= 0 ==> cmp(a, c) <= 0)
  }

  /** A preorder under which only equal elements compare equal. */
  ghost predicate TotalOrder<T(!new)>(cmp: (T, T) -> int) {
    && TotalPreorder(cmp)
    && (forall a, b :: cmp(a, b) <= 0 && cmp(b, a) <= 0 ==> a == b)
  }

  ghost predicate SortedBy<T>(s: seq<T>, cmp: (T, T) -> int) {
    forall i, j :: 0 <= i < j < |s| ==> cmp(s[i], s[j]) <= 0
  }

  /** Insert `x` after every element of `s` that does not compare above it. */
  function Insert<T>(s: seq<T>, x: T, cmp: (T, T) -> int): (r: seq<T>)
    ensures multiset(r) == multiset(s) + multiset{x}
    ensures |r| == |s| + 1
  {
    if |s| == 0 then [x]
    else if cmp(s[|s| - 1], x) <= 0 then s + [x]
    else
      var r := Insert(s[..|s| - 1], x, cmp) + [s[|s| - 1]];
      assert s == s[..|s| - 1] + [s[|s| - 1]];
      r
  }

  /** The elements of `s`, rearranged by `cmp`. */
  function Sort<T>(s: seq<T>, cmp: (T, T) -> int): (r: seq<T>)
    ensures multiset(r) == multiset(s)
    ensures |r| == |s|
  {
    if |s| == 0 then []
    else
      assert s == s[..|s| - 1] + [s[|s| - 1]];
      Insert(Sort(s[..|s| - 1], cmp), s[|s| - 1], cmp)
  }

  lemma {:induction false} InsertSorted<T(!new)>(s: seq<T>, x: T, cmp: (T, T) -> int)
    requires TotalPreorder(cmp)
    requires SortedBy(s, cmp)
    ensures SortedBy(Insert(s, x, cmp), cmp)
  {
    if |s| > 0 {
      var p := s[..|s| - 1];
      var last := s[|s| - 1];
      if cmp(last, x) <= 0 {
        forall i | 0 <= i < |s| ensures cmp(s[i], x) <= 0 {
          if i < |s| - 1 {
            assert cmp(s[i], last) <= 0;
          }
        }
        AppendSorted(s, x, cmp);
      } else {
        PrefixSorted(s, cmp);
        InsertSorted(p, x, cmp);
        var q := Insert(p, x, cmp);
        forall i | 0 <= i < |q| ensures cmp(q[i], last) <= 0 {
          InsertedBelow(s, x, cmp, q[i]);
        }
        AppendSorted(q, last, cmp);
      }
    }
  }

  /** Dropping the last element keeps a sequence sorted. */
  lemma PrefixSorted<T>(s: seq<T>, cmp: (T, T) -> int)
    requires |s| > 0 && SortedBy(s, cmp)
    ensures SortedBy(s[..|s| - 1], cmp)
  {
    var p := s[..|s| - 1];
    forall i, j | 0 <= i < j < |p| ensures cmp(p[i], p[j]) <= 0 {
      assert p[i] == s[i] && p[j] == s[j];
    }
  }

  /** Each element of the prefix with `x` inserted is at or below the last
      element, when that element compares above `x`. */
  lemma InsertedBelow<T(!new)>(s: seq<T>, x: T, cmp: (T, T) -> int, y: T)
    requires TotalPreorder(cmp) && SortedBy(s, cmp)
    requires |s| > 0 && cmp(s[|s| - 1], x) > 0
    requires y in Insert(s[..|s| - 1], x, cmp)
    ensures cmp(y, s[|s| - 1]) <= 0
  {
    var p := s[..|s| - 1];
    assert y in multiset(Insert(p, x, cmp));
    if y != x {
      assert y in multiset(p);
      var k :| 0 <= k < |p| && p[k] == y;
      assert s[k] == y;
    }
  }

  /** Appending an element at or above every element keeps a sequence
      sorted. */
  lemma AppendSorted<T>(s: seq<T>, y: T, cmp: (T, T) -> int)
    requires SortedBy(s, cmp)
    requires forall i | 0 <= i < |s| :: cmp(s[i], y) <= 0
    ensures SortedBy(s + [y], cmp)
  {
    var r := s + [y];
    forall i, j | 0 <= i < j < |r| ensures cmp(r[i], r[j]) <= 0 {
      assert r[i] == s[i];
      if j < |s| {
        assert r[j] == s[j];
      }
    }
  }

  /** Under a total preorder the result is sorted. */
  lemma {:induction false} SortSorted<T(!new)>(s: seq<T>, cmp: (T, T) -> int)
    requires TotalPreorder(cmp)
    ensures SortedBy(Sort(s, cmp), cmp)
  {
    if |s| > 0 {
      SortSorted(s[..|s| - 1], cmp);
      InsertSorted(Sort(s[..|s| - 1], cmp), s[|s| - 1], cmp);
    }
  }

  /** The head of a sorted sequence is at or below each of its elements. */
  lemma HeadIsLeast<T(!new)>(a: seq<T>, y: T, cmp: (T, T) -> int)
    requires TotalPreorder(cmp)
    requires SortedBy(a, cmp)
    requires y in multiset(a)
    ensures |a| > 0 && cmp(a[0], y) <= 0
  {
    var i :| 0 <= i < |a| && a[i] == y;
    if i == 0 {
      assert cmp(y, y) <= 0 || cmp(y, y) <= 0;
    }
  }

  /** Under a total order there is only one sorted arrangement of a multiset,
      so the result does not depend on the order of the input. */
  lemma {:induction false} SortedUnique<T(!new)>(a: seq<T>, b: seq<T>, cmp: (T, T) -> int)
    requires TotalOrder(cmp)
    requires SortedBy(a, cmp) && SortedBy(b, cmp)
    requires multiset(a) == multiset(b)
    ensures a == b
  {
    if |a| > 0 {
      HeadsEqual(a, b, cmp);
      TailMultiset(a);
      TailMultiset(b);
      TailSorted(a, cmp);
      TailSorted(b, cmp);
      SortedUnique(a[1..], b[1..], cmp);
      HeadSplit(a);
      HeadSplit(b);
    } else {
      assert |multiset(b)| == 0;
    }
  }

  /** Two sorted arrangements of one multiset under a total order start
      with the same element. */
  lemma HeadsEqual<T(!new)>(a: seq<T>, b: seq<T>, cmp: (T, T) -> int)
    requires TotalOrder(cmp)
    requires SortedBy(a, cmp) && SortedBy(b, cmp)
    requires multiset(a) == multiset(b) && |a| > 0
    ensures |b| > 0 && a[0] == b[0]
  {
    assert a[0] in multiset(b);
    HeadIsLeast(b, a[0], cmp);
    assert b[0] in multiset(a);
    HeadIsLeast(a, b[0], cmp);
  }

  /** The tail of a sequence holds its elements but the head. */
  lemma TailMultiset<T>(a: seq<T>)
    requires |a| > 0
    ensures multiset(a[1..]) == multiset(a) - multiset{a[0]}
  {
    assert a == [a[0]] + a[1..];
  }

  /** The tail of a sorted sequence is sorted. */
  lemma TailSorted<T>(a: seq<T>, cmp: (T, T) -> int)
    requires |a| > 0 && SortedBy(a, cmp)
    ensures SortedBy(a[1..], cmp)
  {
    var t := a[1..];
    forall i, j | 0 <= i < j < |t| ensures cmp(t[i], t[j]) <= 0 {
      assert t[i] == a[i + 1] && t[j] == a[j + 1];
    }
  }

  /** Sorting two permutations of each other under a total order gives
      the same sequence. */
  lemma SortPermutationInvariant<T(!new)>(s: seq<T>, t: seq<T>, cmp: (T, T) -> int)
    requires TotalOrder(cmp)
    requires multiset(s) == multiset(t)
    ensures Sort(s, cmp) == Sort(t, cmp)
  {
    SortSorted(s, cmp);
    SortSorted(t, cmp);
    SortedUnique(Sort(s, cmp), Sort(t, cmp), cmp);
  }

  /** Selecting from a sorted sequence keeps it sorted. */
  lemma {:induction false} FilterSorted<T(!new)>(s: seq<T>, p: T -> bool, cmp: (T, T) -> int)
    requires SortedBy(s, cmp)
    ensures SortedBy(Filter(s, p), cmp)
    decreases |s|
  {
    if |s| > 0 {
      var init, last := s[..|s| - 1], s[|s| - 1];
      assert SortedBy(init, cmp);
      FilterSorted(init, p, cmp);
      var f := Filter(init, p);
      forall x | x in f
        ensures cmp(x, last) <= 0
      {
        var k :| 0 <= k < |init| && init[k] == x;
        assert s[k] == x;
      }
    }
  }
}
