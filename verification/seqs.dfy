/** Order-preserving selection over sequences, the `Where` and `foreach …
    if … Add` patterns of the source. */
module Seqs {

  /** The elements of `s` that satisfy `p`, in their original order. */
  function Filter<T(!new)>(s: seq<T>, p: T -> bool): (r: seq<T>)
    ensures |r| <= |s|
    ensures forall i :: 0 <= i < |r| ==> p(r[i])
    ensures forall x :: x in r <==> x in s && p(x)
    ensures multiset(r) <= multiset(s)
  {
    if |s| == 0 then []
    else
      assert s == s[..|s| - 1] + [s[|s| - 1]];
      Filter(s[..|s| - 1], p) + (if p(s[|s| - 1]) then [s[|s| - 1]] else [])
  }

  /** Selecting from a concatenation selects from each part. */
  lemma {:induction false} FilterAppend<T(!new)>(a: seq<T>, b: seq<T>, p: T -> bool)
    ensures Filter(a + b, p) == Filter(a, p) + Filter(b, p)
    decreases |b|
  {
    if |b| > 0 {
      var b' := b[..|b| - 1];
      assert (a + b)[..|a + b| - 1] == a + b';
      assert (a + b)[|a + b| - 1] == b[|b| - 1];
      FilterAppend(a, b', p);
    } else {
      assert a + b == a;
    }
  }

  /** A nonempty sequence is its prefix followed by its last element. */
  lemma LastSplit<T>(s: seq<T>)
    requires |s| > 0
    ensures s == s[..|s| - 1] + [s[|s| - 1]]
  {
  }

  /** A nonempty sequence is its head followed by its tail. */
  lemma HeadSplit<T>(s: seq<T>)
    requires |s| > 0
    ensures s == [s[0]] + s[1..]
  {
  }

  /** Selection keeps everything when every element qualifies. */
  lemma {:induction false} FilterKeepsAll<T(!new)>(s: seq<T>, p: T -> bool)
    requires forall i :: 0 <= i < |s| ==> p(s[i])
    ensures Filter(s, p) == s
    decreases |s|
  {
    if |s| > 0 {
      var init := s[..|s| - 1];
      var last := s[|s| - 1];
      forall i | 0 <= i < |init| ensures p(init[i]) {
        assert init[i] == s[i];
      }
      FilterKeepsAll(init, p);
      assert p(last);
      assert Filter(s, p) == Filter(init, p) + [last];
      LastSplit(s);
    }
  }

  /** Selection keeps nothing when no element qualifies. */
  lemma {:induction false} FilterKeepsNone<T(!new)>(s: seq<T>, p: T -> bool)
    requires forall i :: 0 <= i < |s| ==> !p(s[i])
    ensures Filter(s, p) == []
    decreases |s|
  {
    if |s| > 0 {
      var init := s[..|s| - 1];
      assert forall i :: 0 <= i < |init| ==> !p(init[i]);
      FilterKeepsNone(init, p);
    }
  }

  // ------------------------------------------------------------ distinctness

  /** No element occurs twice. */
  predicate NoDuplicates<T(==)>(s: seq<T>) {
    forall i, j :: 0 <= i < j < |s| ==> s[i] != s[j]
  }

  /** `Enumerable.Distinct`: the elements of `s`, each once, in the order
      of their first occurrence. */
  function Dedup<T(==,!new)>(s: seq<T>): (r: seq<T>)
    ensures forall x :: x in r <==> x in s
    ensures NoDuplicates(r)
    ensures |r| <= |s|
  {
    if |s| == 0 then []
    else
      var init := s[..|s| - 1];
      var x := s[|s| - 1];
      assert s == init + [x];
      var d := Dedup(init);
      if x in d then d else d + [x]
  }

  /** A sequence without repetitions is its own `Distinct`. */
  lemma {:induction false} DedupOfDistinct<T(!new)>(s: seq<T>)
    requires NoDuplicates(s)
    ensures Dedup(s) == s
    decreases |s|
  {
    if |s| > 0 {
      var init := s[..|s| - 1];
      DedupOfDistinct(init);
      assert s[|s| - 1] !in init;
      assert s == init + [s[|s| - 1]];
    }
  }

  /** Selection keeps a sequence free of repetitions. */
  lemma {:induction false} FilterNoDuplicates<T(!new)>(s: seq<T>, p: T -> bool)
    requires NoDuplicates(s)
    ensures NoDuplicates(Filter(s, p))
    decreases |s|
  {
    if |s| > 0 {
      var init := s[..|s| - 1];
      var x := s[|s| - 1];
      FilterNoDuplicates(init, p);
      assert x !in init;
    }
  }

  /** A sequence without repetitions holds each element at most once. */
  lemma {:induction false} NoDuplicatesCount<T>(s: seq<T>, x: T)
    requires NoDuplicates(s)
    ensures multiset(s)[x] <= 1
    decreases |s|
  {
    if |s| > 0 {
      var init := s[..|s| - 1];
      NoDuplicatesCount(init, x);
      assert s == init + [s[|s| - 1]];
      assert s[|s| - 1] !in init;
    }
  }

  /** Rearranging a sequence without repetitions gives none. */
  lemma PermutationNoDuplicates<T>(a: seq<T>, b: seq<T>)
    requires multiset(a) == multiset(b)
    requires NoDuplicates(a)
    ensures NoDuplicates(b)
  {
    forall i, j | 0 <= i < j < |b|
      ensures b[i] != b[j]
    {
      if b[i] == b[j] {
        var x := b[i];
        assert b == b[..i] + [x] + b[i + 1..j] + [x] + b[j + 1..];
        assert multiset(b)[x] >= 2;
        NoDuplicatesCount(a, x);
      }
    }
  }

  // ------------------------------------------------------------ flattening

  /** The total length of the parts. */
  function SumLengths<T>(ss: seq<seq<T>>): nat {
    if |ss| == 0 then 0 else SumLengths(ss[..|ss| - 1]) + |ss[|ss| - 1]|
  }

  /** `SelectMany(a => a)`: the parts one after another. */
  function Flatten<T>(ss: seq<seq<T>>): (r: seq<T>)
    ensures |r| == SumLengths(ss)
  {
    if |ss| == 0 then [] else Flatten(ss[..|ss| - 1]) + ss[|ss| - 1]
  }

  /** An element of the flattening is an element of some part, and back. */
  lemma {:induction false} FlattenMember<T>(ss: seq<seq<T>>, x: T)
    ensures x in Flatten(ss) <==> exists i :: 0 <= i < |ss| && x in ss[i]
    decreases |ss|
  {
    if |ss| > 0 {
      var init := ss[..|ss| - 1];
      FlattenMember(init, x);
      if exists i :: 0 <= i < |init| && x in init[i] {
        var i :| 0 <= i < |init| && x in init[i];
        assert ss[i] == init[i];
      }
      if exists i :: 0 <= i < |ss| && x in ss[i] {
        var i :| 0 <= i < |ss| && x in ss[i];
        if i < |init| {
          assert init[i] == ss[i];
        }
      }
    }
  }
}
