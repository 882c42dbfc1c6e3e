/** The order of output siblings (XmlNodeComparer.cs): two elements compare
    as their `name` attributes do under `String.Compare`. The culture-aware
    string comparison is a parameter here; what the proofs need of it is
    that it behaves as a string comparison must. */
module NodeComparer {
  import opened XmlNodes
  import opened Sorting

  /** The `name` attribute the comparer reads; every element the engine
      sorts carries one. */
  function NameOf(n: Node): string {
    GetAttribute(n, "name")
  }

  /** What the proofs assume of `String.Compare`: a string equals itself,
      swapping the arguments flips the sign, and "at or below" is
      transitive. */
  ghost predicate IsStringComparison(cmp: (string, string) -> int) {
    && (forall s :: cmp(s, s) == 0)
    && (forall a, b :: (cmp(a, b) < 0 <==> cmp(b, a) > 0) && (cmp(a, b) == 0 <==> cmp(b, a) == 0))
    && (forall a, b, c :: cmp(a, b) <= 0 && cmp(b, c) <= 0 ==> cmp(a, c) <= 0)
  }

  /** `XmlNodeComparer.Compare`: the comparison of the two names. */
  function NodeOrder(cmp: (string, string) -> int): (r: (Node, Node) -> int)
    ensures forall a, b :: r(a, b) == cmp(NameOf(a), NameOf(b))
  {
    (a: Node, b: Node) => cmp(NameOf(a), NameOf(b))
  }

  /** Only the two `name` values are consulted: elements that differ in
      anything else compare alike. */
  lemma OrderReadsNamesOnly(cmp: (string, string) -> int, a: Node, b: Node, a': Node, b': Node)
    requires Attr(a, "name") == Attr(a', "name") && Attr(b, "name") == Attr(b', "name")
    ensures NodeOrder(cmp)(a, b) == NodeOrder(cmp)(a', b')
  {
  }

  /** Elements of equal name compare as 0. */
  lemma EqualNamesCompareEqual(cmp: (string, string) -> int, a: Node, b: Node)
    requires IsStringComparison(cmp)
    requires Attr(a, "name") == Attr(b, "name")
    ensures NodeOrder(cmp)(a, b) == 0
  {
    assert cmp(NameOf(a), NameOf(a)) == 0;
  }

  /** Swapping the arguments flips the sign of the result. */
  lemma SwapFlipsSign(cmp: (string, string) -> int, a: Node, b: Node)
    requires IsStringComparison(cmp)
    ensures NodeOrder(cmp)(a, b) < 0 <==> NodeOrder(cmp)(b, a) > 0
    ensures NodeOrder(cmp)(a, b) == 0 <==> NodeOrder(cmp)(b, a) == 0
  {
    assert (cmp(NameOf(a), NameOf(b)) < 0 <==> cmp(NameOf(b), NameOf(a)) > 0);
  }

  /** A string comparison makes the node order a total preorder, which is
      what sorting by it needs. */
  lemma NodeOrderIsPreorder(cmp: (string, string) -> int)
    requires IsStringComparison(cmp)
    ensures TotalPreorder(NodeOrder(cmp))
  {
    var o := NodeOrder(cmp);
    forall a: Node, b: Node ensures o(a, b) <= 0 || o(b, a) <= 0 {
      SwapFlipsSign(cmp, a, b);
    }
    forall a: Node, b: Node, c: Node | o(a, b) <= 0 && o(b, c) <= 0 ensures o(a, c) <= 0 {
      assert cmp(NameOf(a), NameOf(b)) <= 0 && cmp(NameOf(b), NameOf(c)) <= 0;
    }
  }

  /** `Array.Sort(nodes, XmlNodeComparer.Default)`: the same elements, in
      non-decreasing name order. */
  function SortNodes(cmp: (string, string) -> int, nodes: seq<Node>): (r: seq<Node>)
    ensures multiset(r) == multiset(nodes)
    ensures IsStringComparison(cmp) ==> SortedBy(r, NodeOrder(cmp))
  {
    SortedWhenComparison(cmp, nodes);
    Sort(nodes, NodeOrder(cmp))
  }

  lemma SortedWhenComparison(cmp: (string, string) -> int, nodes: seq<Node>)
    ensures IsStringComparison(cmp) ==> SortedBy(Sort(nodes, NodeOrder(cmp)), NodeOrder(cmp))
  {
    if IsStringComparison(cmp) {
      NodeOrderIsPreorder(cmp);
      SortSorted(nodes, NodeOrder(cmp));
    }
  }
}
