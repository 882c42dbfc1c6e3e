/** The comparison statistics of one diff element (Counters.cs): partial
    counts for the element itself, running totals for its subtree, and the
    four ways the engine merges one set of counts into another. */
module Counters {

  datatype Counters = Counters(
    Present: int, PresentTotal: int,
    Missing: int, MissingTotal: int,
    Todo: int, TodoTotal: int,
    Extra: int, ExtraTotal: int,
    Warning: int, WarningTotal: int,
    ErrorTotal: int)
  {
    /** Items examined at this level: found on both sides or only on the first. */
    function Total(): int { Present + Missing }

    function AbsTotal(): int { PresentTotal + MissingTotal }

    /** Present items not marked as unfinished. */
    function Ok(): int { Present - Todo }

    function OkTotal(): int { PresentTotal - TodoTotal - ErrorTotal }
  }

  const Zero := Counters(0, 0, 0, 0, 0, 0, 0, 0, 0, 0, 0)

  /** Field-wise sum of all eleven counts: the algebra in which every merge
      below is an addition. */
  function Plus(a: Counters, b: Counters): Counters {
    Counters(
      a.Present + b.Present, a.PresentTotal + b.PresentTotal,
      a.Missing + b.Missing, a.MissingTotal + b.MissingTotal,
      a.Todo + b.Todo, a.TodoTotal + b.TodoTotal,
      a.Extra + b.Extra, a.ExtraTotal + b.ExtraTotal,
      a.Warning + b.Warning, a.WarningTotal + b.WarningTotal,
      a.ErrorTotal + b.ErrorTotal)
  }

  /** What `AddPartialToTotal(o)` adds: o's partial counts, into the totals. */
  function PartialToTotalDelta(o: Counters): Counters {
    Counters(0, o.Present, 0, o.Missing, 0, o.Todo, 0, o.Extra, 0, o.Warning, 0)
  }

  /** `AddPartialToTotal`: the other element's partial counts join this
      element's totals; partial counts and the error total are untouched. */
  function AddPartialToTotal(c: Counters, o: Counters): (r: Counters)
    ensures r.Present == c.Present && r.Missing == c.Missing && r.Todo == c.Todo
    ensures r.Extra == c.Extra && r.Warning == c.Warning && r.ErrorTotal == c.ErrorTotal
    ensures r.PresentTotal == c.PresentTotal + o.Present
    ensures r.MissingTotal == c.MissingTotal + o.Missing
    ensures r.TodoTotal == c.TodoTotal + o.Todo
    ensures r.ExtraTotal == c.ExtraTotal + o.Extra
    ensures r.WarningTotal == c.WarningTotal + o.Warning
  {
    c.(PresentTotal := c.PresentTotal + o.Present,
       ExtraTotal := c.ExtraTotal + o.Extra,
       MissingTotal := c.MissingTotal + o.Missing,
       TodoTotal := c.TodoTotal + o.Todo,
       WarningTotal := c.WarningTotal + o.Warning)
  }

  /** `AddPartialToPartial`: the other element's partial counts join both
      this element's partial counts and its totals. */
  function AddPartialToPartial(c: Counters, o: Counters): (r: Counters)
    ensures r.Present == c.Present + o.Present && r.PresentTotal == c.PresentTotal + o.Present
    ensures r.Missing == c.Missing + o.Missing && r.MissingTotal == c.MissingTotal + o.Missing
    ensures r.Todo == c.Todo + o.Todo && r.TodoTotal == c.TodoTotal + o.Todo
    ensures r.Extra == c.Extra + o.Extra && r.ExtraTotal == c.ExtraTotal + o.Extra
    ensures r.Warning == c.Warning + o.Warning && r.WarningTotal == c.WarningTotal + o.Warning
    ensures r.ErrorTotal == c.ErrorTotal
  {
    var p := c.(Present := c.Present + o.Present,
                Extra := c.Extra + o.Extra,
                Missing := c.Missing + o.Missing,
                Todo := c.Todo + o.Todo,
                Warning := c.Warning + o.Warning);
    AddPartialToTotal(p, o)
  }

  /** `AddTotalToTotal`: every total of the other element, the error total
      included, joins this element's totals. */
  function AddTotalToTotal(c: Counters, o: Counters): (r: Counters)
    ensures r.Present == c.Present && r.Missing == c.Missing && r.Todo == c.Todo
    ensures r.Extra == c.Extra && r.Warning == c.Warning
    ensures r.PresentTotal == c.PresentTotal + o.PresentTotal
    ensures r.MissingTotal == c.MissingTotal + o.MissingTotal
    ensures r.TodoTotal == c.TodoTotal + o.TodoTotal
    ensures r.ExtraTotal == c.ExtraTotal + o.ExtraTotal
    ensures r.WarningTotal == c.WarningTotal + o.WarningTotal
    ensures r.ErrorTotal == c.ErrorTotal + o.ErrorTotal
  {
    c.(PresentTotal := c.PresentTotal + o.PresentTotal,
       ExtraTotal := c.ExtraTotal + o.ExtraTotal,
       MissingTotal := c.MissingTotal + o.MissingTotal,
       TodoTotal := c.TodoTotal + o.TodoTotal,
       WarningTotal := c.WarningTotal + o.WarningTotal,
       ErrorTotal := c.ErrorTotal + o.ErrorTotal)
  }

  /** `AddTotalToPartial`: the other element's totals join this element's
      partial counts and, through `AddTotalToTotal`, its totals. */
  function AddTotalToPartial(c: Counters, o: Counters): (r: Counters)
    ensures r.Present == c.Present + o.PresentTotal && r.PresentTotal == c.PresentTotal + o.PresentTotal
    ensures r.Missing == c.Missing + o.MissingTotal && r.MissingTotal == c.MissingTotal + o.MissingTotal
    ensures r.Todo == c.Todo + o.TodoTotal && r.TodoTotal == c.TodoTotal + o.TodoTotal
    ensures r.Extra == c.Extra + o.ExtraTotal && r.ExtraTotal == c.ExtraTotal + o.ExtraTotal
    ensures r.Warning == c.Warning + o.WarningTotal && r.WarningTotal == c.WarningTotal + o.WarningTotal
    ensures r.ErrorTotal == c.ErrorTotal + o.ErrorTotal
  {
    var p := c.(Present := c.Present + o.PresentTotal,
                Extra := c.Extra + o.ExtraTotal,
                Missing := c.Missing + o.MissingTotal,
                Todo := c.Todo + o.TodoTotal,
                Warning := c.Warning + o.WarningTotal);
    AddTotalToTotal(p, o)
  }

  /** What `AddPartialToPartial(o)` adds, as a set of counts. */
  function PartialDelta(o: Counters): (d: Counters)
    ensures AddPartialToPartial(Zero, o) == d
  {
    Counters(o.Present, o.Present, o.Missing, o.Missing, o.Todo, o.Todo,
             o.Extra, o.Extra, o.Warning, o.Warning, 0)
  }

  /** Counts shaped like a partial-to-partial merge: every total mirrors its
      partial count and no error is recorded. */
  predicate IsPartialDelta(c: Counters) {
    && c.PresentTotal == c.Present && c.MissingTotal == c.Missing && c.TodoTotal == c.Todo
    && c.ExtraTotal == c.Extra && c.WarningTotal == c.Warning && c.ErrorTotal == 0
  }

  /** A partial-to-partial delta with no negative warning count. */
  predicate WarnedPartialDelta(c: Counters) {
    IsPartialDelta(c) && c.Warning >= 0
  }

  /** Counts whose present, missing, TODO and extra totals equal the
      partial counts, as at the class and namespace levels, which count
      those four in both places at once. */
  predicate Mirrored(c: Counters) {
    && c.PresentTotal == c.Present && c.MissingTotal == c.Missing
    && c.TodoTotal == c.Todo && c.ExtraTotal == c.Extra
  }

  /** Partial-to-partial deltas include zero and are closed under addition. */
  lemma PartialDeltaClosed()
    ensures IsPartialDelta(Zero)
    ensures forall a, b {:trigger Plus(a, b)} :: IsPartialDelta(a) && IsPartialDelta(b) ==> IsPartialDelta(Plus(a, b))
    ensures forall o :: IsPartialDelta(PartialDelta(o))
    ensures WarnedPartialDelta(Zero)
    ensures forall a, b {:trigger Plus(a, b)} :: WarnedPartialDelta(a) && WarnedPartialDelta(b) ==> WarnedPartialDelta(Plus(a, b))
  {
  }

  /** Each merge is the addition of a delta determined by `o` alone. */
  lemma MergesAreAdditions(c: Counters, o: Counters)
    ensures AddPartialToPartial(c, o) == Plus(c, PartialDelta(o))
    ensures AddPartialToTotal(c, o) == Plus(c, PartialToTotalDelta(o))
    ensures AddTotalToTotal(c, o) == Plus(c, Zero.(PresentTotal := o.PresentTotal,
      MissingTotal := o.MissingTotal, TodoTotal := o.TodoTotal, ExtraTotal := o.ExtraTotal,
      WarningTotal := o.WarningTotal, ErrorTotal := o.ErrorTotal))
  {
  }

  /** Merging two children into a parent gives the same counts in either order. */
  lemma MergeCommutes(c: Counters, a: Counters, b: Counters)
    ensures AddPartialToPartial(AddPartialToPartial(c, a), b) == AddPartialToPartial(AddPartialToPartial(c, b), a)
    ensures AddTotalToPartial(AddTotalToPartial(c, a), b) == AddTotalToPartial(AddTotalToPartial(c, b), a)
    ensures AddPartialToTotal(AddPartialToTotal(c, a), b) == AddPartialToTotal(AddPartialToTotal(c, b), a)
  {
  }

  /** Merging an element that recorded nothing changes nothing. */
  lemma MergeZero(c: Counters)
    ensures AddPartialToPartial(c, Zero) == c
    ensures AddPartialToTotal(c, Zero) == c
    ensures AddTotalToPartial(c, Zero) == c
    ensures AddTotalToTotal(c, Zero) == c
  {
  }

  /** A parent's counts after merging a sequence of children, left to right. */
  function MergeAll(c: Counters, children: seq<Counters>): (r: Counters)
    ensures r.ErrorTotal == c.ErrorTotal
    decreases |children|
  {
    if |children| == 0 then c
    else MergeAll(AddPartialToPartial(c, children[0]), children[1..])
  }

  /** Merging is a sum: the order in which a parent merges its children
      does not matter, only which children it merges. */
  lemma {:induction false} MergeAllIsSum(c: Counters, children: seq<Counters>)
    ensures MergeAll(c, children) == Plus(c, SumDeltas(children))
    decreases |children|
  {
    if |children| > 0 {
      MergeAllIsSum(AddPartialToPartial(c, children[0]), children[1..]);
    }
  }

  function SumDeltas(children: seq<Counters>): Counters {
    if |children| == 0 then Zero
    else Plus(PartialDelta(children[0]), SumDeltas(children[1..]))
  }

  lemma {:induction false} SumDeltasPermutation(s: seq<Counters>, t: seq<Counters>)
    requires multiset(s) == multiset(t)
    ensures SumDeltas(s) == SumDeltas(t)
    decreases |s|
  {
    if |s| > 0 {
      assert s[0] in multiset(t);
      var i :| 0 <= i < |t| && t[i] == s[0];
      var t' := t[..i] + t[i + 1..];
      assert t == t[..i] + [t[i]] + t[i + 1..];
      assert multiset(t') == multiset(t) - multiset{s[0]};
      assert s == [s[0]] + s[1..];
      assert multiset(s[1..]) == multiset(s) - multiset{s[0]};
      SumDeltasPermutation(s[1..], t');
      SumDeltasRemove(t, i);
    } else {
      assert |multiset(t)| == 0;
    }
  }

  lemma {:induction false} SumDeltasRemove(t: seq<Counters>, i: nat)
    requires i < |t|
    ensures SumDeltas(t) == Plus(PartialDelta(t[i]), SumDeltas(t[..i] + t[i + 1..]))
  {
    if i > 0 {
      SumDeltasRemove(t[1..], i - 1);
      assert t[1..][..i - 1] + t[1..][i..] == (t[..i] + t[i + 1..])[1..];
    } else {
      assert t[..0] + t[1..] == t[1..];
    }
  }

  /** Any reordering of the children gives the parent the same counts. */
  lemma MergeOrderIrrelevant(c: Counters, s: seq<Counters>, t: seq<Counters>)
    requires multiset(s) == multiset(t)
    ensures MergeAll(c, s) == MergeAll(c, t)
  {
    MergeAllIsSum(c, s);
    MergeAllIsSum(c, t);
    SumDeltasPermutation(s, t);
  }
}
