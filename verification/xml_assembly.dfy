/** The root of the API description (XMLAssembly.cs): an assembly's name,
    version, attributes and namespaces, and the comparison that produces
    the diff document. Namespaces are counted differently from every other
    level: each first-side namespace is present whether or not the second
    side has it, its counts join the assembly's totals only, and a
    second-side namespace left over adds to the extra total alone. */
module Assemblies {
  import opened Wrappers
  import opened Sorting
  import opened XmlNodes
  import opened Counters
  import opened XmlData
  import opened NameGroup
  import opened Attributes
  import opened NodeComparer
  import opened Classes
  import opened Namespaces

  /** `namespaces` is empty where the source leaves it `null`; every use of
      the field treats the two alike. */
  datatype AssemblyData = AssemblyData(name: string, version: string, attributes: AttributesData,
                                       namespaces: seq<NamespaceData>)

  // ------------------------------------------------------------ loading

  /** The index of the child that may hold the namespaces: after the
      attributes when the first child is `attributes`. */
  function NamespacesIndex(cs: seq<Node>): nat
    requires |cs| > 0
  {
    if cs[0].name == "attributes" then 1 else 0
  }

  /** `XMLAssembly.LoadData`. `name` and `version` are required, and so is a
      first child (its name is read unguarded). The attributes are loaded
      from that child when it is `attributes`, and are otherwise empty; the
      next child, when it is `namespaces`, holds the namespaces, which are
      otherwise none. */
  function LoadAssembly(node: Node, cmp: (string, string) -> int): (r: Result<AssemblyData>)
    ensures "name" !in node.attrs || "version" !in node.attrs || |node.children| == 0 ==> r == Err(NullReferenceException)
    ensures r.Ok? ==> r.value.name == node.attrs["name"] && r.value.version == node.attrs["version"]
    ensures r.Ok? && node.children[0].name == "attributes" ==> LoadAttributes(node.children[0], cmp) == Ok(r.value.attributes)
    ensures r.Ok? && node.children[0].name != "attributes" ==> r.value.attributes == NoAttributes
    ensures r.Ok? ==>
      var k := NamespacesIndex(node.children);
      if k < |node.children| && node.children[k].name == "namespaces" then
        && |r.value.namespaces| == |node.children[k].children|
        && forall j :: 0 <= j < |r.value.namespaces| ==> LoadNamespace(node.children[k].children[j], cmp) == Ok(r.value.namespaces[j])
      else r.value.namespaces == []
  {
    if "name" !in node.attrs || "version" !in node.attrs || |node.children| == 0 then Err(NullReferenceException)
    else
      var cs := node.children;
      var attributes :- if cs[0].name == "attributes" then LoadAttributes(cs[0], cmp) else Ok(NoAttributes);
      var k := NamespacesIndex(cs);
      var namespaces :-
        if k < |cs| && cs[k].name == "namespaces" then LoadNamespaceList(cs[k], 0, cmp) else Ok([]);
      Ok(AssemblyData(node.attrs["name"], node.attrs["version"], attributes, namespaces))
  }

  /** `LoadRecursive` over a `namespaces` element. */
  function LoadNamespaceList(group: Node, i: nat, cmp: (string, string) -> int): (r: Result<seq<NamespaceData>>)
    requires i <= |group.children|
    ensures r.Ok? ==> |r.value| == |group.children| - i
    ensures r.Ok? ==> forall k :: 0 <= k < |r.value| ==> LoadNamespace(group.children[i + k], cmp) == Ok(r.value[k])
    decreases |group.children| - i
  {
    if i == |group.children| then Ok([])
    else
      var n :- LoadNamespace(group.children[i], cmp);
      var rest :- LoadNamespaceList(group, i + 1, cmp);
      Ok([n] + rest)
  }

  // ------------------------------------------------------------ comparing

  function NamespaceNames(ns: seq<NamespaceData>): (r: seq<string>)
    ensures |r| == |ns| && forall k :: 0 <= k < |ns| ==> r[k] == ns[k].name
  {
    seq(|ns|, k requires 0 <= k < |ns| => ns[k].name)
  }

  /** The element a namespace is listed as. */
  function NamespaceNode(name: string): (r: Node)
    ensures r.name == "namespace" && Attr(r, "name") == Some(name) && r.children == []
  {
    SetAttr(Element("namespace"), "name", name)
  }

  /** One namespace's entry: its element, filled by the namespace
      comparison and carrying its counts, and those counts. */
  function NamespaceEntry(x: NamespaceData, partner: Option<NamespaceData>, cmp: (string, string) -> int)
    : (r: Result<(Node, Counters)>)
    ensures r.Ok? ==> r.value.0.name == "namespace" && NestedDelta(r.value.1)
  {
    var (n, c) :- CompareNamespace(x, partner, NamespaceNode(x.name), cmp);
    Ok((AddCountersAttributes(n, c), c))
  }

  /** The type of `NamespaceEntry` once the string comparison is fixed. */
  type EntryFn = (NamespaceData, Option<NamespaceData>) -> Result<(Node, Counters)>

  function Entries(cmp: (string, string) -> int): (r: EntryFn)
    ensures forall x, p :: r(x, p) == NamespaceEntry(x, p, cmp)
  {
    (x: NamespaceData, p: Option<NamespaceData>) => NamespaceEntry(x, p, cmp)
  }

  /** The second-side namespace a first-side one is compared with: the last
      of its name, unless an earlier namespace of the same name took it, in
      which case, as when there is none, the namespace is compared with
      nothing. */
  function Partner(x: NamespaceData, h: map<string, nat>, slots: seq<Option<NamespaceData>>): Option<NamespaceData>
    requires forall k :: k in h ==> h[k] < |slots|
  {
    if x.name in h then slots[h[x.name]] else None
  }

  function ClearedNs(x: NamespaceData, h: map<string, nat>, slots: seq<Option<NamespaceData>>): (r: seq<Option<NamespaceData>>)
    requires forall k :: k in h ==> h[k] < |slots|
    ensures |r| == |slots|
    ensures forall j :: 0 <= j < |slots| ==> r[j] == (if x.name in h && h[x.name] == j then None else slots[j])
  {
    if x.name in h then slots[h[x.name] := None] else slots
  }

  /** What one listed namespace adds to the assembly's counts: one present
      namespace, in the partial count and the total, and the namespace's
      partial counts in the totals only. */
  function NamespaceDelta(c: Counters): (r: Counters)
    ensures AddPartialToTotal(Zero.(Present := 1, PresentTotal := 1), c) == r
  {
    Plus(Zero.(Present := 1, PresentTotal := 1), PartialToTotalDelta(c))
  }

  /** The walk over the first side's namespaces, part way through. */
  datatype NamespacesWalk = NamespacesWalk(nodes: seq<Node>, slots: seq<Option<NamespaceData>>, delta: Counters)

  /** The partial counts a walk adds: `present` namespaces, nothing else. */
  predicate OnlyPresent(c: Counters, present: nat) {
    && c.Present == present && c.Missing == 0 && c.Extra == 0 && c.Todo == 0
    && c.Warning == 0 && c.ErrorTotal == 0
  }

  /** The loop of `CompareNamespaces` from index `i`. */
  function NamespacesPass(own: seq<NamespaceData>, i: nat, others: seq<NamespaceData>, h: map<string, nat>,
                          slots: seq<Option<NamespaceData>>, entry: EntryFn)
    : (r: Result<NamespacesWalk>)
    requires i <= |own| && |slots| == |others|
    requires forall k :: k in h ==> h[k] < |others| && others[h[k]].name == k
    ensures r.Ok? ==> |r.value.nodes| == |own| - i && |r.value.slots| == |others|
    ensures r.Ok? ==> OnlyPresent(r.value.delta, |own| - i)
    decreases |own| - i
  {
    if i == |own| then Ok(NamespacesWalk([], slots, Zero))
    else
      var x := own[i];
      var e :- entry(x, Partner(x, h, slots));
      var rest :- NamespacesPass(own, i + 1, others, h, ClearedNs(x, h, slots), entry);
      Ok(rest.(nodes := [e.0] + rest.nodes, delta := Plus(NamespaceDelta(e.1), rest.delta)))
  }

  /** A namespace is compared with nothing when the second side lacks its
      name or when an earlier namespace of the same name took the partner:
      a repeated name is never an error at this level. */
  lemma {:induction false} ComparedWithNothing(own: seq<NamespaceData>, i: nat, others: seq<NamespaceData>,
                                               h: map<string, nat>, slots: seq<Option<NamespaceData>>,
                                               entry: EntryFn, k: nat)
    requires i <= k < |own| && |slots| == |others|
    requires forall k :: k in h ==> h[k] < |others| && others[h[k]].name == k
    requires NamespacesPass(own, i, others, h, slots, entry).Ok?
    requires own[k].name in h ==> slots[h[own[k].name]].None? || exists a :: i <= a < k && own[a].name == own[k].name
    ensures entry(own[k], None).Ok?
    ensures NamespacesPass(own, i, others, h, slots, entry).value.nodes[k - i] == entry(own[k], None).value.0
    decreases |own| - i
  {
    var r := NamespacesPass(own, i, others, h, slots, entry);
    var x := own[i];
    var slots' := ClearedNs(x, h, slots);
    var e := entry(x, Partner(x, h, slots));
    var rest := NamespacesPass(own, i + 1, others, h, slots', entry);
    assert e.Ok? && rest.Ok? && r.value.nodes == [e.value.0] + rest.value.nodes;
    if k > i {
      if own[k].name in h {
        var j := h[own[k].name];
        if x.name == own[k].name {
          assert slots'[j].None?;
        } else {
          assert x.name in h ==> h[x.name] != j by {
            if x.name in h { assert others[h[x.name]].name == x.name && others[j].name == own[k].name; }
          }
          assert slots'[j] == slots[j];
          if slots[j].Some? {
            var a :| i <= a < k && own[a].name == own[k].name;
            assert i + 1 <= a;
          }
        }
      }
      ComparedWithNothing(own, i + 1, others, h, slots', entry, k);
      assert r.value.nodes[k - i] == rest.value.nodes[k - (i + 1)];
    }
  }

  /** On success the walk has cleared exactly the slots claimed by a
      namespace from `i` on. */
  lemma {:induction false} NamespacesPassSlots(own: seq<NamespaceData>, i: nat, others: seq<NamespaceData>,
                                               h: map<string, nat>, slots: seq<Option<NamespaceData>>,
                                               entry: EntryFn)
    requires i <= |own| && |slots| == |others|
    requires forall k :: k in h ==> h[k] < |others| && others[h[k]].name == k
    ensures var r := NamespacesPass(own, i, others, h, slots, entry);
      r.Ok? ==> forall j :: 0 <= j < |others| ==>
        r.value.slots[j] == (if Claimed(h, NamespaceNames(own), i, others[j].name, j) then None else slots[j])
    decreases |own| - i
  {
    var r := NamespacesPass(own, i, others, h, slots, entry);
    if i < |own| && r.Ok? {
      ClaimedNameStep(h, NamespaceNames(own), i, NamespaceNames(others));
      var slots' := ClearedNs(own[i], h, slots);
      NamespacesPassSlots(own, i + 1, others, h, slots', entry);
      var rest := NamespacesPass(own, i + 1, others, h, slots', entry);
      assert r.value.slots == rest.value.slots;
    }
  }

  /** Claiming from `i` is claiming by the name at `i` or by one after it. */
  lemma ClaimedNameStep(h: map<string, nat>, ownNames: seq<string>, i: nat, otherNames: seq<string>)
    requires i < |ownNames|
    ensures forall j :: 0 <= j < |otherNames| ==>
      (Claimed(h, ownNames, i, otherNames[j], j) <==>
        (Claimed(h, ownNames, i + 1, otherNames[j], j) || (otherNames[j] == ownNames[i] && otherNames[j] in h && h[otherNames[j]] == j)))
  {
  }

  /** The second side's namespaces still unclaimed; TODO markers are not
      skipped at this level. */
  function NamespaceLeftovers(slots: seq<Option<NamespaceData>>): (r: seq<NamespaceData>)
    ensures |r| <= |slots|
  {
    if |slots| == 0 then []
    else (if slots[0].Some? then [slots[0].value] else []) + NamespaceLeftovers(slots[1..])
  }

  /** The number of second-side namespaces from `j` on that no first-side
      namespace claims. */
  function UnclaimedCount(h: map<string, nat>, ownNames: seq<string>, others: seq<NamespaceData>, j: nat): nat
    requires j <= |others|
    decreases |others| - j
  {
    if j == |others| then 0
    else (if Claimed(h, ownNames, 0, others[j].name, j) then 0 else 1) + UnclaimedCount(h, ownNames, others, j + 1)
  }

  lemma {:induction false} NamespaceLeftoversCount(h: map<string, nat>, ownNames: seq<string>, others: seq<NamespaceData>,
                                                   slots: seq<Option<NamespaceData>>, j: nat)
    requires |slots| == |others| && j <= |others|
    requires forall m :: 0 <= m < |others| ==>
      slots[m] == (if Claimed(h, ownNames, 0, others[m].name, m) then None else Some(others[m]))
    ensures |NamespaceLeftovers(slots[j..])| == UnclaimedCount(h, ownNames, others, j)
    decreases |others| - j
  {
    if j < |others| {
      assert slots[j..][1..] == slots[j + 1..];
      NamespaceLeftoversCount(h, ownNames, others, slots, j + 1);
    }
  }

  function ExtraNamespaceNodes(leftovers: seq<NamespaceData>): (r: seq<Node>)
    ensures |r| == |leftovers|
  {
    seq(|leftovers|, k requires 0 <= k < |leftovers| => AddExtra(NamespaceNode(leftovers[k].name)))
  }

  /** `n` with one more child, a `namespaces` element whose children are in
      name order when `cmp` is a string comparison. */
  ghost predicate NamespacesAppended(n: Node, r: Node, cmp: (string, string) -> int) {
    && |r.children| == |n.children| + 1
    && r == AppendChild(n, r.children[|n.children|])
    && r.children[|n.children|].name == "namespaces"
    && (IsStringComparison(cmp) ==> SortedBy(r.children[|n.children|].children, NodeOrder(cmp)))
  }

  /** `CompareNamespaces` on counts `c`: a `namespaces` element listing
      every first-side namespace and every unclaimed second-side one (marked
      extra), sorted by name. */
  function CompareNamespaces(own: seq<NamespaceData>, others: seq<NamespaceData>, n: Node, c: Counters,
                             cmp: (string, string) -> int)
    : (r: Result<(Node, Counters)>)
    ensures r.Ok? ==> NamespacesAppended(n, r.value.0, cmp)
    ensures r.Ok? ==> var d := r.value.1;
      && d.Present == c.Present + |own| && d.Missing == c.Missing && d.Extra == c.Extra
      && d.Todo == c.Todo && d.Warning == c.Warning && d.ErrorTotal == c.ErrorTotal
  {
    var h := CreateHash(NamespaceNames(others));
    var p :- NamespacesPass(own, 0, others, h, Slots(others), Entries(cmp));
    var left := NamespaceLeftovers(p.slots);
    var extras := ExtraNamespaceNodes(left);
    var group := Node("namespaces", map[], SortNodes(cmp, p.nodes + extras));
    Ok((AppendChild(n, group), Plus(c, Plus(p.delta, Zero.(ExtraTotal := |left|)))))
  }

  /** The listed namespaces: one per first-side namespace and one per
      unclaimed second-side namespace, whatever its name. */
  lemma NamespaceCount(own: seq<NamespaceData>, others: seq<NamespaceData>, n: Node, c: Counters, cmp: (string, string) -> int)
    ensures var r := CompareNamespaces(own, others, n, c, cmp);
      r.Ok? ==>
      |r.value.0.children[|n.children|].children|
        == |own| + UnclaimedCount(CreateHash(NamespaceNames(others)), NamespaceNames(own), others, 0)
  {
    var h := CreateHash(NamespaceNames(others));
    var p := NamespacesPass(own, 0, others, h, Slots(others), Entries(cmp));
    if p.Ok? {
      NamespacesPassSlots(own, 0, others, h, Slots(others), Entries(cmp));
      NamespaceLeftoversCount(h, NamespaceNames(own), others, p.value.slots, 0);
      assert p.value.slots[0..] == p.value.slots;
      var all := p.value.nodes + ExtraNamespaceNodes(NamespaceLeftovers(p.value.slots));
      var sorted := SortNodes(cmp, all);
      assert |multiset(sorted)| == |multiset(all)|;
    }
  }

  /** The extra total grows by one for each unclaimed second-side
      namespace, beyond what the namespaces' own counts add. */
  lemma ExtraNamespacesInTotalOnly(own: seq<NamespaceData>, others: seq<NamespaceData>, n: Node, c: Counters,
                                   cmp: (string, string) -> int)
    ensures var r := CompareNamespaces(own, others, n, c, cmp);
      var h := CreateHash(NamespaceNames(others));
      var p := NamespacesPass(own, 0, others, h, Slots(others), Entries(cmp));
      r.Ok? ==> p.Ok? && r.value.1.ExtraTotal == c.ExtraTotal + p.value.delta.ExtraTotal + UnclaimedCount(h, NamespaceNames(own), others, 0)
  {
    var h := CreateHash(NamespaceNames(others));
    var p := NamespacesPass(own, 0, others, h, Slots(others), Entries(cmp));
    if p.Ok? {
      NamespacesPassSlots(own, 0, others, h, Slots(others), Entries(cmp));
      NamespaceLeftoversCount(h, NamespaceNames(own), others, p.value.slots, 0);
      assert p.value.slots[0..] == p.value.slots;
    }
  }

  /** The warnings of `CompareTo` about the assembly itself. */
  function AssemblyWarnings(own: AssemblyData, other: AssemblyData): (r: seq<string>) {
    (if own.name != other.name then ["Assembly names not equal: " + own.name + ", " + other.name] else [])
    + (if own.version != other.version then ["Assembly version not equal: " + own.version + ", " + other.version] else [])
  }

  /** One warning for a differing name and one for a differing version. */
  lemma AssemblyWarningCount(own: AssemblyData, other: AssemblyData)
    ensures |AssemblyWarnings(own, other)| == Differs(own.name, other.name) + Differs(own.version, other.version)
    ensures AssemblyWarnings(own, other) == [] <==> own.name == other.name && own.version == other.version
  {
  }

  /** The assembly element before its namespaces: name, version, the
      warnings and the attribute group, with their counts. */
  function AssemblyHead(own: AssemblyData, other: AssemblyData): (r: (Node, Counters))
    ensures r.0.name == "assembly" && Attr(r.0, "name") == Some(own.name) && Attr(r.0, "version") == Some(own.version)
    ensures r.1.Warning >= |AssemblyWarnings(own, other)| && r.1.ErrorTotal == 0 && r.1.Todo == 0
  {
    var a := SetAttr(SetAttr(Element("assembly"), "name", own.name), "version", own.version);
    var w := AddWarnings(a, Zero, AssemblyWarnings(own, other));
    var g := CompareAttributes(own.attributes, Some(other.attributes), w.0).value;
    (g.parent, AddPartialToPartial(w.1, g.Total()))
  }

  /** The counts written onto an element leave its other attributes,
      `name`, `version` and `error` among them, as they were. */
  lemma CountersKeepIdentity(n: Node, c: Counters)
    ensures var a := AddCountersAttributes(n, c);
      && a.name == n.name
      && (Attr(n, "name").Some? ==> Attr(a, "name") == Attr(n, "name"))
      && (Attr(n, "version").Some? ==> Attr(a, "version") == Attr(n, "version"))
      && (Attr(n, "error").Some? ==> Attr(a, "error") == Attr(n, "error"))
  {
    CountersKeepAttribute(n, c, "name");
    CountersKeepAttribute(n, c, "version");
    CountersKeepAttribute(n, c, "error");
  }

  /** An attribute whose name is none of the counters' is kept. */
  lemma CountersKeepAttribute(n: Node, c: Counters, k: string)
    requires k !in PartialNames && k !in TotalCountNames && k !in TotalRatioNames
    ensures Attr(n, k).Some? ==> Attr(AddCountersAttributes(n, c), k) == Attr(n, k)
  {
    var p := WritePartialCounters(n.attrs, c);
    var t := WriteTotalCounts(p, c);
    var a := WriteTotalRatios(t, c);
    if k in n.attrs {
      assert k in p && p[k] == n.attrs[k];
      assert k in t && t[k] == n.attrs[k];
      assert k in a && a[k] == n.attrs[k];
    }
  }

  /** The end of `CompareTo`: a TODO marker on the second side's attributes
      flags the element and is counted, and the counts are written onto it. */
  function FinishAssembly(ns: (Node, Counters), attributes: AttributesData): (r: (Node, Counters))
    ensures r.0.name == ns.0.name
    ensures Attr(ns.0, "name").Some? ==> Attr(r.0, "name") == Attr(ns.0, "name")
    ensures Attr(ns.0, "version").Some? ==> Attr(r.0, "version") == Attr(ns.0, "version")
    ensures attributes.isTodo ==> Attr(r.0, "error") == Some("todo")
    ensures r.1 == if attributes.isTodo then Plus(ns.1, Zero.(Todo := 1, TodoTotal := 1, ErrorTotal := 1)) else ns.1
  {
    var marked := if attributes.isTodo then (MarkTodo(ns.0, attributes.comment), CountTodo(ns.1)) else ns;
    CountersKeepIdentity(marked.0, marked.1);
    (AddCountersAttributes(marked.0, marked.1), marked.1)
  }

  /** `XMLAssembly.CompareTo` onto `parent`: the assembly element, after its
      head, lists the namespaces; a TODO marker on the second side's
      attributes is counted and flagged; the counts are written onto the
      element, which is appended to `parent`. */
  function CompareAssembly(own: AssemblyData, other: AssemblyData, parent: Node, cmp: (string, string) -> int)
    : (r: Result<(Node, Counters)>)
    ensures r.Ok? ==> |r.value.0.children| == |parent.children| + 1
    ensures r.Ok? ==> r.value.0 == AppendChild(parent, r.value.0.children[|parent.children|])
    ensures r.Ok? ==> var a := r.value.0.children[|parent.children|];
      && a.name == "assembly" && Attr(a, "name") == Some(own.name) && Attr(a, "version") == Some(own.version)
      && (other.attributes.isTodo ==> Attr(a, "error") == Some("todo"))
  {
    var head := AssemblyHead(own, other);
    var ns :- CompareNamespaces(own.namespaces, other.namespaces, head.0, head.1, cmp);
    assert ns.0.name == "assembly" && Attr(ns.0, "name") == Some(own.name) && Attr(ns.0, "version") == Some(own.version);
    var a := FinishAssembly(ns, other.attributes);
    Ok((AppendChild(parent, a.0), a.1))
  }

  /** The assembly's counts: its head's, one present item per first-side
      namespace, and its own TODO marker as the only unfinished item and
      the only error. */
  lemma AssemblyCounts(own: AssemblyData, other: AssemblyData, parent: Node, cmp: (string, string) -> int)
    ensures var r := CompareAssembly(own, other, parent, cmp);
      r.Ok? ==> var head := AssemblyHead(own, other).1; var c := r.value.1;
      && c.Present == head.Present + |own.namespaces|
      && c.Missing == head.Missing && c.Extra == head.Extra && c.Warning == head.Warning
      && c.Todo == (if other.attributes.isTodo then 1 else 0)
      && c.ErrorTotal == (if other.attributes.isTodo then 1 else 0)
  {
    var head := AssemblyHead(own, other);
    var ns := CompareNamespaces(own.namespaces, other.namespaces, head.0, head.1, cmp);
    if ns.Ok? {
      assert CompareAssembly(own, other, parent, cmp).value.1 == FinishAssembly(ns.value, other.attributes).1;
    }
  }

  /** `CompareAndGetDocument`: an `assemblies` root holding the one
      assembly element. */
  function CompareAndGetDocument(own: AssemblyData, other: AssemblyData, cmp: (string, string) -> int): (r: Result<Node>)
    ensures r.Ok? ==> r.value.name == "assemblies" && |r.value.children| == 1
    ensures r.Ok? ==> var a := r.value.children[0];
      a.name == "assembly" && Attr(a, "name") == Some(own.name) && Attr(a, "version") == Some(own.version)
    ensures r.Ok? <==> CompareAssembly(own, other, Element("assemblies"), cmp).Ok?
  {
    var (root, _) :- CompareAssembly(own, other, Element("assemblies"), cmp);
    Ok(root)
  }
}
