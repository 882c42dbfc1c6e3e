/** `NuGetSpecDiff`: the comparison of two packages' nuspec metadata. Each
    element name found under either side's `metadata` element is compared
    by the text of the first element of that name on each side, and only
    the names whose elements differ are reported. */
module NuGetSpec {
  import opened Wrappers
  import opened Strings
  import opened Seqs
  import opened XElementExtensions

  /** `DiffType` (`None` is `NoDifference` here). */
  datatype DiffType = NoDifference | Added | Removed | Modified

  /** `ElementDiff`: the first element of one name on each side, either
      absent. */
  datatype ElementDiff = ElementDiff(oldElement: Option<Element>, newElement: Option<Element>)

  /** `Name`: the old element's local name, else the new one's. */
  function DiffName(d: ElementDiff): Option<string> {
    if d.oldElement.Some? then Some(d.oldElement.value.name.localName)
    else if d.newElement.Some? then Some(d.newElement.value.name.localName)
    else None
  }

  /** `Type`: added when the old element is absent (checked first),
      removed when the new one is, and otherwise unchanged or modified
      according to the elements' text alone. */
  function TypeOf(d: ElementDiff): DiffType {
    if d.oldElement.None? then Added
    else if d.newElement.None? then Removed
    else if Value(d.oldElement.value) == Value(d.newElement.value) then NoDifference
    else Modified
  }

  function Swapped(t: DiffType): DiffType {
    match t
    case Added => Removed
    case Removed => Added
    case _ => t
  }

  /** Exchanging the sides exchanges added and removed and keeps the rest,
      when at least one side is present. */
  lemma TypeOfSwap(a: Option<Element>, b: Option<Element>)
    requires a.Some? || b.Some?
    ensures TypeOf(ElementDiff(b, a)) == Swapped(TypeOf(ElementDiff(a, b)))
  {
  }

  /** Two elements with the same children are unchanged whatever their
      attributes: attribute changes are never reported. */
  lemma AttributesNotCompared(e: Element, attributes: seq<Attribute>)
    ensures TypeOf(ElementDiff(Some(e), Some(e.(attributes := attributes)))) == NoDifference
  {
  }

  /** `ToFormattedString`: the rendered element(s) with every line marked
      "+" (added) or "-" (removed); a modification shows the old element
      marked "-", a line break, then the new one marked "+". A diff of two
      absent elements counts as added and dereferences the absent new
      element. */
  function ToFormattedString(d: ElementDiff, render: Element -> string, newline: string): (r: Result<string>)
    ensures r.Err? <==> d.oldElement.None? && d.newElement.None?
    ensures r.Err? ==> r.error == NullReferenceException
  {
    match TypeOf(d)
    case Added =>
      if d.newElement.None? then Err(NullReferenceException)
      else Ok(GetPrefixedString(d.newElement.value, "+", render, newline))
    case Removed => Ok(GetPrefixedString(d.oldElement.value, "-", render, newline))
    case Modified =>
      Ok(GetPrefixedString(d.oldElement.value, "-", render, newline) + newline
        + GetPrefixedString(d.newElement.value, "+", render, newline))
    case NoDifference => Ok("")
  }

  /** With renderings that are never empty, the formatted text is empty
      exactly for an unchanged element, starts with "+" for an added one
      and with "-" otherwise. */
  lemma FormattedStringSpec(d: ElementDiff, render: Element -> string, newline: string)
    requires d.oldElement.Some? || d.newElement.Some?
    requires d.oldElement.Some? ==> |render(d.oldElement.value)| > 0
    requires d.newElement.Some? ==> |render(d.newElement.value)| > 0
    ensures ToFormattedString(d, render, newline).Ok?
    ensures ToFormattedString(d, render, newline).value == "" <==> TypeOf(d) == NoDifference
    ensures TypeOf(d) == Added ==> StartsWith(ToFormattedString(d, render, newline).value, "+")
    ensures TypeOf(d) == Removed || TypeOf(d) == Modified ==> StartsWith(ToFormattedString(d, render, newline).value, "-")
  {
    match TypeOf(d)
    case Added =>
      PrefixLinesStartsWithPrefix(render(d.newElement.value), "+", newline);
    case Removed =>
      PrefixLinesStartsWithPrefix(render(d.oldElement.value), "-", newline);
    case Modified =>
      var a := GetPrefixedString(d.oldElement.value, "-", render, newline);
      PrefixLinesStartsWithPrefix(render(d.oldElement.value), "-", newline);
      var r := a + newline + GetPrefixedString(d.newElement.value, "+", render, newline);
      assert r[..1] == a[..1];
    case NoDifference =>
  }

  // ------------------------------------------------- children by name

  predicate IsChildNamed(n: Node, name: Name) {
    n.Child? && n.element.name == name
  }

  /** `FirstChildIndex` is the first position holding a child of that
      name, and nothing else. */
  lemma FirstChildIndexIs(ns: seq<Node>, name: Name, k: Option<nat>)
    requires k.None? ==> forall i :: 0 <= i < |ns| ==> !IsChildNamed(ns[i], name)
    requires k.Some? ==> (k.value < |ns| && IsChildNamed(ns[k.value], name) &&
      forall i :: 0 <= i < k.value ==> !IsChildNamed(ns[i], name))
    ensures FirstChildIndex(ns, name) == k
  {
  }

  /** Removing a node not of name `name` keeps the first child of that
      name. */
  lemma FirstChildAfterRemoval(ns: seq<Node>, i: nat, name: Name)
    requires i < |ns| && !IsChildNamed(ns[i], name)
    ensures var rs := ns[..i] + ns[i + 1..];
      var j := FirstChildIndex(ns, name);
      var k := FirstChildIndex(rs, name);
      (j.None? <==> k.None?) && (j.Some? ==> rs[k.value] == ns[j.value])
  {
    var rs := ns[..i] + ns[i + 1..];
    assert forall q :: 0 <= q < i ==> rs[q] == ns[q];
    assert forall q :: i <= q < |rs| ==> rs[q] == ns[q + 1];
    var j := FirstChildIndex(ns, name);
    if j.None? {
      FirstChildIndexIs(rs, name, None);
    } else if j.value < i {
      FirstChildIndexIs(rs, name, j);
    } else {
      FirstChildIndexIs(rs, name, Some(j.value - 1));
    }
  }

  /** Replacing a child by one of the same name keeps the position of the
      first child of every name. */
  lemma FirstChildAfterUpdate(ns: seq<Node>, i: nat, e: Element, name: Name)
    requires i < |ns| && ns[i].Child? && ns[i].element.name == e.name
    ensures FirstChildIndex(ns[i := Child(e)], name) == FirstChildIndex(ns, name)
  {
    var us := ns[i := Child(e)];
    assert forall q :: 0 <= q < |ns| ==> (IsChildNamed(us[q], name) <==> IsChildNamed(ns[q], name));
    FirstChildIndexIs(us, name, FirstChildIndex(ns, name));
  }

  /** The number of element children of that name. */
  function ChildCount(ns: seq<Node>, name: Name): nat {
    if |ns| == 0 then 0
    else ChildCount(ns[..|ns| - 1], name) + (if IsChildNamed(ns[|ns| - 1], name) then 1 else 0)
  }

  lemma {:induction false} ChildCountAppend(a: seq<Node>, b: seq<Node>, name: Name)
    ensures ChildCount(a + b, name) == ChildCount(a, name) + ChildCount(b, name)
    decreases |b|
  {
    if |b| == 0 {
      assert a + b == a;
    } else {
      ChildCountAppend(a, b[..|b| - 1], name);
      assert (a + b)[..|a + b| - 1] == a + b[..|b| - 1];
    }
  }

  /** Every element child carries no namespace. */
  ghost predicate ChildrenLocal(e: Element) {
    forall c :: Child(c) in e.nodes ==> c.name.namespace == ""
  }

  // ------------------------------------------------ version metadata

  const VersionPlaceholder := "[Version]"

  /** What the artifact tag regex `artifact_versioned=…:…:(?<Version>.+)`
      promises: a version, when found, is not empty. */
  ghost predicate VersionMatcher(versionOf: string -> Option<string>) {
    forall s :: versionOf(s).Some? ==> |versionOf(s).value| > 0
  }

  /** `Attribute(name)?.Remove()`: the first attribute of that name
      removed. */
  function RemoveAttribute(attributes: seq<Attribute>, name: Name): (r: seq<Attribute>)
    ensures forall a :: a in r ==> a in attributes
    ensures forall a :: a in attributes && a.name != name ==> a in r
    ensures UniqueNames(attributes) ==> UniqueNames(r) && forall a :: a in r ==> a.name != name
  {
    if |attributes| == 0 then []
    else if attributes[0].name == name then
      assert UniqueNames(attributes) ==> forall a :: a in attributes[1..] ==> a.name != name by {
        if UniqueNames(attributes) {
          forall a | a in attributes[1..]
            ensures a.name != name
          {
            var q :| 0 <= q < |attributes[1..]| && attributes[1..][q] == a;
            assert attributes[q + 1] == a;
            assert attributes[0].name != attributes[q + 1].name;
          }
        }
      }
      attributes[1..]
    else [attributes[0]] + RemoveAttribute(attributes[1..], name)
  }

  /** XML allows each attribute name once per element. */
  predicate UniqueNames(attributes: seq<Attribute>) {
    forall i, j :: 0 <= i < j < |attributes| ==> attributes[i].name != attributes[j].name
  }

  /** `metadata.Element("version")?.Remove()`. */
  function RemoveVersion(m: Element): (r: Element)
    ensures r.name == m.name && r.attributes == m.attributes
  {
    match FirstChildIndex(m.nodes, Local("version"))
    case None => m
    case Some(i) => m.(nodes := m.nodes[..i] + m.nodes[i + 1..])
  }

  /** The `branch` and `commit` attributes of the first `repository`
      element removed. */
  function StripRepository(m: Element): (r: Element)
    ensures r.name == m.name && r.attributes == m.attributes
  {
    match FirstChildIndex(m.nodes, Local("repository"))
    case None => m
    case Some(i) =>
      var repo := m.nodes[i].element;
      var attributes := RemoveAttribute(RemoveAttribute(repo.attributes, Local("branch")), Local("commit"));
      m.(nodes := m.nodes[i := Child(repo.(attributes := attributes))])
  }

  /** When the tag regex finds a version in the text of the first `tags`
      element, every occurrence of that version in the text is replaced
      by "[Version]" (the element's content becomes that text). */
  function StripTagsVersion(m: Element, versionOf: string -> Option<string>): (r: Element)
    requires VersionMatcher(versionOf)
    ensures r.name == m.name && r.attributes == m.attributes
  {
    match FirstChildIndex(m.nodes, Local("tags"))
    case None => m
    case Some(i) =>
      var tags := m.nodes[i].element;
      var v := versionOf(Value(tags));
      if v.None? then m
      else m.(nodes := m.nodes[i := Child(tags.(nodes := [Text(Replace(Value(tags), v.value, VersionPlaceholder))]))])
  }

  /** `StripVersionMetadata`, applied to the metadata element. */
  function StripVersionMetadata(m: Element, versionOf: string -> Option<string>): (r: Element)
    requires VersionMatcher(versionOf)
    ensures r.name == m.name && r.attributes == m.attributes
  {
    StripTagsVersion(StripRepository(RemoveVersion(m)), versionOf)
  }

  /** Removing the version element keeps the first child of every other
      name. */
  lemma RemoveVersionKeepsOthers(m: Element, name: Name)
    requires name != Local("version")
    ensures FirstChild(RemoveVersion(m), name) == FirstChild(m, name)
  {
    var k := FirstChildIndex(m.nodes, Local("version"));
    if k.Some? {
      FirstChildAfterRemoval(m.nodes, k.value, name);
    }
  }

  /** Removing the version element drops one `version` child, if there
      is one. */
  lemma RemoveVersionCount(m: Element)
    ensures ChildCount(RemoveVersion(m).nodes, Local("version")) ==
      if ChildCount(m.nodes, Local("version")) > 0 then ChildCount(m.nodes, Local("version")) - 1 else 0
  {
    var v := Local("version");
    var k := FirstChildIndex(m.nodes, v);
    if k.Some? {
      ChildCountRemoveAt(m.nodes, k.value, v);
    } else {
      NoChildCount(m.nodes, v);
    }
  }

  /** Removing the node at `i` lowers the count by one exactly when that
      node is a child of the name. */
  lemma ChildCountRemoveAt(ns: seq<Node>, i: nat, name: Name)
    requires i < |ns|
    ensures ChildCount(ns, name) ==
      ChildCount(ns[..i] + ns[i + 1..], name) + (if IsChildNamed(ns[i], name) then 1 else 0)
  {
    LastSplit(ns[..i + 1]);
    assert ns[..i + 1][..i] == ns[..i];
    assert ns == ns[..i + 1] + ns[i + 1..];
    ChildCountAppend(ns[..i + 1], ns[i + 1..], name);
    ChildCountAppend(ns[..i], ns[i + 1..], name);
  }

  lemma {:induction false} NoChildCount(ns: seq<Node>, name: Name)
    requires forall i :: 0 <= i < |ns| ==> !IsChildNamed(ns[i], name)
    ensures ChildCount(ns, name) == 0
    decreases |ns|
  {
    if |ns| > 0 {
      NoChildCount(ns[..|ns| - 1], name);
    }
  }

  /** Replacing the child at `i` by one of the same name keeps every
      first child of another name and every count. */
  lemma UpdateSpec(ns: seq<Node>, i: nat, e: Element, name: Name)
    requires i < |ns| && ns[i].Child? && ns[i].element.name == e.name
    ensures FirstChildIndex(ns[i := Child(e)], name) == FirstChildIndex(ns, name)
    ensures ChildCount(ns[i := Child(e)], name) == ChildCount(ns, name)
  {
    FirstChildAfterUpdate(ns, i, e, name);
    var us := ns[i := Child(e)];
    assert ns == ns[..i] + [ns[i]] + ns[i + 1..];
    assert us == ns[..i] + [Child(e)] + ns[i + 1..];
    ChildCountAppend(ns[..i] + [ns[i]], ns[i + 1..], name);
    ChildCountAppend(ns[..i], [ns[i]], name);
    ChildCountAppend(ns[..i] + [Child(e)], ns[i + 1..], name);
    ChildCountAppend(ns[..i], [Child(e)], name);
    assert [ns[i]][..0] == [] && [Child(e)][..0] == [];
  }

  /** Stripping the repository's attributes keeps the first child of
      every other name, every count, and the repository's text; with
      attribute names unique, the repository is left with neither a
      `branch` nor a `commit` attribute. */
  lemma StripRepositorySpec(m: Element, name: Name)
    ensures name != Local("repository") ==> FirstChild(StripRepository(m), name) == FirstChild(m, name)
    ensures ChildCount(StripRepository(m).nodes, name) == ChildCount(m.nodes, name)
    ensures var before := FirstChild(m, Local("repository"));
      var after := FirstChild(StripRepository(m), Local("repository"));
      (before.Some? <==> after.Some?) &&
      (before.Some? ==> Value(after.value) == Value(before.value)) &&
      (before.Some? && UniqueNames(before.value.attributes) ==>
        forall a :: a in after.value.attributes ==> a.name != Local("branch") && a.name != Local("commit"))
  {
    var k := FirstChildIndex(m.nodes, Local("repository"));
    if k.Some? {
      var i := k.value;
      var repo := m.nodes[i].element;
      var attributes := RemoveAttribute(RemoveAttribute(repo.attributes, Local("branch")), Local("commit"));
      UpdateSpec(m.nodes, i, repo.(attributes := attributes), name);
      UpdateSpec(m.nodes, i, repo.(attributes := attributes), Local("repository"));
    }
  }

  /** Stripping the tag's version keeps the first child of every other
      name and every count. */
  lemma StripTagsKeepsOthers(m: Element, versionOf: string -> Option<string>, name: Name)
    requires VersionMatcher(versionOf)
    ensures name != Local("tags") ==> FirstChild(StripTagsVersion(m, versionOf), name) == FirstChild(m, name)
    ensures ChildCount(StripTagsVersion(m, versionOf).nodes, name) == ChildCount(m.nodes, name)
  {
    var k := FirstChildIndex(m.nodes, Local("tags"));
    if k.Some? {
      var tags := m.nodes[k.value].element;
      var v := versionOf(Value(tags));
      if v.Some? {
        UpdateSpec(m.nodes, k.value, tags.(nodes := [Text(Replace(Value(tags), v.value, VersionPlaceholder))]), name);
      }
    }
  }

  /** Stripping the tag's version gives the `tags` element the text with
      the version found in it replaced. */
  lemma StripTagsText(m: Element, versionOf: string -> Option<string>)
    requires VersionMatcher(versionOf)
    ensures var before := FirstChild(m, Local("tags"));
      var after := FirstChild(StripTagsVersion(m, versionOf), Local("tags"));
      (before.Some? <==> after.Some?) &&
      (before.Some? ==> (Value(after.value) ==
        match versionOf(Value(before.value))
        case None => Value(before.value)
        case Some(v) => Replace(Value(before.value), v, VersionPlaceholder)))
  {
    var k := FirstChildIndex(m.nodes, Local("tags"));
    if k.Some? {
      var tags := m.nodes[k.value].element;
      var v := versionOf(Value(tags));
      if v.Some? {
        var text := Replace(Value(tags), v.value, VersionPlaceholder);
        var t := tags.(nodes := [Text(text)]);
        UpdateSpec(m.nodes, k.value, t, Local("tags"));
        TextValue(t, text);
      }
    }
  }

  /** Skipping version metadata leaves the first child of every name
      other than `version`, `repository` and `tags` as it was. */
  lemma StripVersionMetadataOthers(m: Element, versionOf: string -> Option<string>, name: Name)
    requires VersionMatcher(versionOf)
    requires name != Local("version") && name != Local("repository") && name != Local("tags")
    ensures FirstChild(StripVersionMetadata(m, versionOf), name) == FirstChild(m, name)
  {
    RemoveVersionKeepsOthers(m, name);
    StripRepositorySpec(RemoveVersion(m), name);
    StripTagsKeepsOthers(StripRepository(RemoveVersion(m)), versionOf, name);
  }

  /** Skipping version metadata takes a single `version` element out of
      the comparison. */
  lemma StripVersionMetadataVersion(m: Element, versionOf: string -> Option<string>)
    requires VersionMatcher(versionOf)
    requires ChildCount(m.nodes, Local("version")) <= 1
    ensures FirstChild(StripVersionMetadata(m, versionOf), Local("version")).None?
  {
    var v := Local("version");
    var m1 := RemoveVersion(m);
    var m2 := StripRepository(m1);
    RemoveVersionCount(m);
    StripRepositorySpec(m1, v);
    StripTagsKeepsOthers(m2, versionOf, v);
    var r := StripVersionMetadata(m, versionOf);
    assert ChildCount(r.nodes, v) == 0;
    var k := FirstChildIndex(r.nodes, v);
    if k.Some? {
      CountedChild(r.nodes, k.value, v);
    }
  }

  /** Skipping version metadata keeps the text of the `repository`
      element, so it never changes whether that element is reported. */
  lemma StripVersionMetadataRepository(m: Element, versionOf: string -> Option<string>)
    requires VersionMatcher(versionOf)
    ensures var before := FirstChild(m, Local("repository"));
      var after := FirstChild(StripVersionMetadata(m, versionOf), Local("repository"));
      (before.Some? <==> after.Some?) && (before.Some? ==> Value(after.value) == Value(before.value))
  {
    RemoveVersionKeepsOthers(m, Local("repository"));
    StripRepositorySpec(RemoveVersion(m), Local("repository"));
    StripTagsKeepsOthers(StripRepository(RemoveVersion(m)), versionOf, Local("repository"));
  }

  /** Skipping version metadata replaces, in the text of the `tags`
      element, the version its artifact tag names. */
  lemma StripVersionMetadataTags(m: Element, versionOf: string -> Option<string>)
    requires VersionMatcher(versionOf)
    ensures var before := FirstChild(m, Local("tags"));
      var after := FirstChild(StripVersionMetadata(m, versionOf), Local("tags"));
      (before.Some? <==> after.Some?) &&
      (before.Some? ==> (Value(after.value) ==
        match versionOf(Value(before.value))
        case None => Value(before.value)
        case Some(v) => Replace(Value(before.value), v, VersionPlaceholder)))
  {
    RemoveVersionKeepsOthers(m, Local("tags"));
    StripRepositorySpec(RemoveVersion(m), Local("tags"));
    StripTagsText(StripRepository(RemoveVersion(m)), versionOf);
  }

  /** A child of that name counts. */
  lemma {:induction false} CountedChild(ns: seq<Node>, j: nat, name: Name)
    requires j < |ns| && IsChildNamed(ns[j], name)
    ensures ChildCount(ns, name) > 0
    decreases |ns|
  {
    if j < |ns| - 1 {
      CountedChild(ns[..|ns| - 1], j, name);
    }
  }

  // ------------------------------------------------------- comparison

  /** The local names of the element children, in document order. */
  function ChildNames(ns: seq<Node>): (r: seq<string>)
    ensures forall x :: x in r <==> exists c :: Child(c) in ns && c.name.localName == x
  {
    if |ns| == 0 then []
    else
      var init := ChildNames(ns[..|ns| - 1]);
      var n := ns[|ns| - 1];
      assert ns == ns[..|ns| - 1] + [n];
      if n.Child? then init + [n.element.name.localName] else init
  }

  /** The two sides' first elements of one local name. */
  function DiffAt(o: Element, n: Element, x: string): ElementDiff {
    ElementDiff(FirstChild(o, Local(x)), FirstChild(n, Local(x)))
  }

  function CompareAll(o: Element, n: Element, names: seq<string>): (r: seq<ElementDiff>)
    ensures |r| == |names|
    ensures forall i :: 0 <= i < |names| ==> r[i] == DiffAt(o, n, names[i])
  {
    if |names| == 0 then [] else CompareAll(o, n, names[..|names| - 1]) + [DiffAt(o, n, names[|names| - 1])]
  }

  predicate IsDifference(d: ElementDiff) {
    TypeOf(d) != NoDifference
  }

  /** The loop of `Generate` over the distinct names of both sides. */
  function CompareMetadata(o: Element, n: Element): (r: seq<ElementDiff>)
    ensures forall i :: 0 <= i < |r| ==> TypeOf(r[i]) != NoDifference
  {
    Filter(CompareAll(o, n, Dedup(ChildNames(o.nodes) + ChildNames(n.nodes))), IsDifference)
  }

  /** A name with a child on a namespace-free side finds that side's
      first element of the name. */
  lemma NamedChildFound(e: Element, x: string)
    requires ChildrenLocal(e)
    requires x in ChildNames(e.nodes)
    ensures FirstChild(e, Local(x)).Some?
  {
    var c :| Child(c) in e.nodes && c.name.localName == x;
    assert c.name == Local(x);
    assert c in ChildElements(e.nodes);
  }

  /** Each compared pair is named by the name it was looked up by. */
  lemma CompareAllNames(o: Element, n: Element)
    requires ChildrenLocal(o) && ChildrenLocal(n)
    ensures var names := Dedup(ChildNames(o.nodes) + ChildNames(n.nodes));
      forall i :: 0 <= i < |names| ==> DiffName(CompareAll(o, n, names)[i]) == Some(names[i])
  {
    var names := Dedup(ChildNames(o.nodes) + ChildNames(n.nodes));
    forall i | 0 <= i < |names|
      ensures DiffName(CompareAll(o, n, names)[i]) == Some(names[i])
    {
      var y := names[i];
      assert y in ChildNames(o.nodes) + ChildNames(n.nodes);
      if y in ChildNames(o.nodes) {
        NamedChildFound(o, y);
      } else {
        NamedChildFound(n, y);
      }
    }
  }

  /** The comparison reports a name exactly when a child of that name is
      on either side and the first such elements differ; each name once. */
  lemma CompareMetadataSpec(o: Element, n: Element, x: string)
    requires ChildrenLocal(o) && ChildrenLocal(n)
    ensures (exists d :: d in CompareMetadata(o, n) && DiffName(d) == Some(x)) <==>
      (x in ChildNames(o.nodes) || x in ChildNames(n.nodes)) && TypeOf(DiffAt(o, n, x)) != NoDifference
  {
    if (x in ChildNames(o.nodes) || x in ChildNames(n.nodes)) && TypeOf(DiffAt(o, n, x)) != NoDifference {
      CompareMetadataReports(o, n, x);
    }
    if exists d :: d in CompareMetadata(o, n) && DiffName(d) == Some(x) {
      var d :| d in CompareMetadata(o, n) && DiffName(d) == Some(x);
      CompareMetadataReported(o, n, d);
    }
  }

  lemma CompareMetadataReports(o: Element, n: Element, x: string)
    requires ChildrenLocal(o) && ChildrenLocal(n)
    requires x in ChildNames(o.nodes) || x in ChildNames(n.nodes)
    requires TypeOf(DiffAt(o, n, x)) != NoDifference
    ensures DiffAt(o, n, x) in CompareMetadata(o, n) && DiffName(DiffAt(o, n, x)) == Some(x)
  {
    var names := Dedup(ChildNames(o.nodes) + ChildNames(n.nodes));
    var all := CompareAll(o, n, names);
    CompareAllNames(o, n);
    assert x in names;
    var i :| 0 <= i < |names| && names[i] == x;
    assert all[i] in all;
  }

  lemma CompareMetadataReported(o: Element, n: Element, d: ElementDiff)
    requires ChildrenLocal(o) && ChildrenLocal(n)
    requires d in CompareMetadata(o, n)
    ensures DiffName(d).Some?
    ensures var x := DiffName(d).value;
      (x in ChildNames(o.nodes) || x in ChildNames(n.nodes)) && d == DiffAt(o, n, x) && TypeOf(d) != NoDifference
  {
    var names := Dedup(ChildNames(o.nodes) + ChildNames(n.nodes));
    var all := CompareAll(o, n, names);
    CompareAllNames(o, n);
    assert d in all;
    var i :| 0 <= i < |all| && all[i] == d;
    assert names[i] in ChildNames(o.nodes) + ChildNames(n.nodes);
  }

  // -------------------------------------------------------- Generate

  /** The metadata of an absent nuspec: `<package><metadata /></package>`. */
  const EmptyNuspec := Element(Local("package"), [], [Child(Element(Local("metadata"), [], []))])

  /** `Element("package")?.Element("metadata")` on a document: the root
      must be `package`. */
  function Metadata(root: Element): Option<Element> {
    if root.name == Local("package") then FirstChild(root, Local("metadata")) else None
  }

  /** One side's metadata as the comparison sees it: namespaces stripped,
      and version metadata too when asked. */
  function Prepared(nuspec: Option<Element>, skipVersionMetadata: bool, versionOf: string -> Option<string>): Option<Element>
    requires VersionMatcher(versionOf)
  {
    match Metadata(StripElement(nuspec.GetOr(EmptyNuspec)))
    case None => None
    case Some(m) => Some(if skipVersionMetadata then StripVersionMetadata(m, versionOf) else m)
  }

  /** `Generate`: a nuspec without a `package` root holding a `metadata`
      element is an `ArgumentException`. */
  function Generate(oldNuspec: Option<Element>, newNuspec: Option<Element>, skipVersionMetadata: bool,
                    versionOf: string -> Option<string>): (r: Result<seq<ElementDiff>>)
    requires VersionMatcher(versionOf)
    ensures r.Err? ==> r.error == ArgumentException("Malformed Nuspec xml")
  {
    var o := Prepared(oldNuspec, skipVersionMetadata, versionOf);
    var n := Prepared(newNuspec, skipVersionMetadata, versionOf);
    if o.None? || n.None? then Err(ArgumentException("Malformed Nuspec xml"))
    else Ok(CompareMetadata(o.value, n.value))
  }

  /** A nuspec the comparison accepts: absent, or a `package` root with a
      `metadata` child, whatever their namespaces. */
  ghost predicate WellFormedNuspec(nuspec: Option<Element>) {
    nuspec.None? ||
      (nuspec.value.name.localName == "package" &&
       exists c :: Child(c) in nuspec.value.nodes && c.name.localName == "metadata")
  }

  /** A child of a stripped tree is a stripped child of the tree. */
  lemma StrippedChild(e: Element, c: Element)
    requires Child(c) in StripElement(e).nodes
    ensures exists d :: Child(d) in e.nodes && c == StripElement(d)
  {
    StripChildElements(e.nodes);
    assert c in ChildElements(StripNodes(e.nodes));
    var cs := ChildElements(e.nodes);
    var i :| 0 <= i < |cs| && MapStrip(cs)[i] == c;
    assert cs[i] in cs;
  }

  /** Stripped elements have namespace-free children. */
  lemma StrippedChildrenLocal(e: Element)
    ensures ChildrenLocal(StripElement(e))
  {
    forall c | Child(c) in StripElement(e).nodes
      ensures c.name.namespace == ""
    {
      StrippedChild(e, c);
    }
  }

  /** Removing and renaming-preserving updates keep children
      namespace-free. */
  lemma StripVersionMetadataLocal(m: Element, versionOf: string -> Option<string>)
    requires VersionMatcher(versionOf)
    requires ChildrenLocal(m)
    ensures ChildrenLocal(StripVersionMetadata(m, versionOf))
  {
    var m1 := RemoveVersion(m);
    assert ChildrenLocal(m1) by {
      var k := FirstChildIndex(m.nodes, Local("version"));
      if k.Some? {
        forall c | Child(c) in m1.nodes
          ensures c.name.namespace == ""
        {
          assert Child(c) in m.nodes[..k.value] || Child(c) in m.nodes[k.value + 1..];
        }
      }
    }
    var m2 := StripRepository(m1);
    assert ChildrenLocal(m2);
    assert ChildrenLocal(StripTagsVersion(m2, versionOf));
  }

  /** The metadata the comparison sees has namespace-free children. */
  lemma PreparedLocal(nuspec: Option<Element>, skipVersionMetadata: bool, versionOf: string -> Option<string>)
    requires VersionMatcher(versionOf)
    ensures var p := Prepared(nuspec, skipVersionMetadata, versionOf);
      p.Some? ==> ChildrenLocal(p.value)
  {
    var root := StripElement(nuspec.GetOr(EmptyNuspec));
    var m := Metadata(root);
    if m.Some? {
      var d :| Child(d) in nuspec.GetOr(EmptyNuspec).nodes && m.value == StripElement(d) by {
        StrippedChild(nuspec.GetOr(EmptyNuspec), m.value);
      }
      StrippedChildrenLocal(d);
      if skipVersionMetadata {
        StripVersionMetadataLocal(m.value, versionOf);
      }
    }
  }

  /** The comparison fails exactly when a given nuspec lacks the
      `package` root or its `metadata` child. */
  lemma GenerateOkIff(oldNuspec: Option<Element>, newNuspec: Option<Element>, skipVersionMetadata: bool,
                      versionOf: string -> Option<string>)
    requires VersionMatcher(versionOf)
    ensures Generate(oldNuspec, newNuspec, skipVersionMetadata, versionOf).Ok? <==>
      WellFormedNuspec(oldNuspec) && WellFormedNuspec(newNuspec)
  {
    PreparedIff(oldNuspec, skipVersionMetadata, versionOf);
    PreparedIff(newNuspec, skipVersionMetadata, versionOf);
  }

  lemma PreparedIff(nuspec: Option<Element>, skipVersionMetadata: bool, versionOf: string -> Option<string>)
    requires VersionMatcher(versionOf)
    ensures Prepared(nuspec, skipVersionMetadata, versionOf).Some? <==> WellFormedNuspec(nuspec)
  {
    var e := nuspec.GetOr(EmptyNuspec);
    var root := StripElement(e);
    if nuspec.None? {
      assert FirstChildIndex(root.nodes, Local("metadata")) == Some(0);
    } else if e.name.localName == "package" {
      var md := Local("metadata");
      if exists c :: Child(c) in e.nodes && c.name.localName == "metadata" {
        var c :| Child(c) in e.nodes && c.name.localName == "metadata";
        StripChildElements(e.nodes);
        assert c in ChildElements(e.nodes);
        var cs := ChildElements(e.nodes);
        var i :| 0 <= i < |cs| && cs[i] == c;
        assert StripElement(c) in ChildElements(root.nodes);
      }
      if FirstChild(root, md).Some? {
        StrippedChild(e, FirstChild(root, md).value);
      }
    }
  }

  /** The comparison of accepted nuspecs reports a name exactly when a
      child of that name is in either side's prepared metadata and the
      first such elements differ. */
  lemma GenerateSpec(oldNuspec: Option<Element>, newNuspec: Option<Element>, skipVersionMetadata: bool,
                     versionOf: string -> Option<string>, x: string)
    requires VersionMatcher(versionOf)
    requires WellFormedNuspec(oldNuspec) && WellFormedNuspec(newNuspec)
    ensures var r := Generate(oldNuspec, newNuspec, skipVersionMetadata, versionOf);
      var o := Prepared(oldNuspec, skipVersionMetadata, versionOf);
      var n := Prepared(newNuspec, skipVersionMetadata, versionOf);
      && r.Ok? && o.Some? && n.Some?
      && ((exists d :: d in r.value && DiffName(d) == Some(x)) <==>
            (x in ChildNames(o.value.nodes) || x in ChildNames(n.value.nodes)) &&
            TypeOf(DiffAt(o.value, n.value, x)) != NoDifference)
  {
    GenerateOkIff(oldNuspec, newNuspec, skipVersionMetadata, versionOf);
    PreparedLocal(oldNuspec, skipVersionMetadata, versionOf);
    PreparedLocal(newNuspec, skipVersionMetadata, versionOf);
    var o := Prepared(oldNuspec, skipVersionMetadata, versionOf).value;
    var n := Prepared(newNuspec, skipVersionMetadata, versionOf).value;
    CompareMetadataSpec(o, n, x);
  }

  /** A nuspec compared with itself has no differences. */
  lemma GenerateSame(nuspec: Option<Element>, skipVersionMetadata: bool, versionOf: string -> Option<string>)
    requires VersionMatcher(versionOf)
    requires WellFormedNuspec(nuspec)
    ensures Generate(nuspec, nuspec, skipVersionMetadata, versionOf) == Ok([])
  {
    PreparedIff(nuspec, skipVersionMetadata, versionOf);
    PreparedLocal(nuspec, skipVersionMetadata, versionOf);
    var m := Prepared(nuspec, skipVersionMetadata, versionOf).value;
    var names := Dedup(ChildNames(m.nodes) + ChildNames(m.nodes));
    var all := CompareAll(m, m, names);
    forall i | 0 <= i < |all|
      ensures !IsDifference(all[i])
    {
      assert names[i] in ChildNames(m.nodes) + ChildNames(m.nodes);
      NamedChildFound(m, names[i]);
    }
    FilterKeepsNone(all, IsDifference);
  }

  /** The metadata of an absent nuspec has no children. */
  lemma PreparedAbsent(skipVersionMetadata: bool, versionOf: string -> Option<string>)
    requires VersionMatcher(versionOf)
    ensures Prepared(None, skipVersionMetadata, versionOf) == Some(EmptyMetadata)
  {
    assert FirstChildIndex(StripElement(EmptyNuspec).nodes, Local("metadata")) == Some(0);
  }

  /** Without an old nuspec every reported element is added. */
  lemma GenerateWithoutOld(nuspec: Option<Element>, skipVersionMetadata: bool, versionOf: string -> Option<string>)
    requires VersionMatcher(versionOf)
    requires WellFormedNuspec(nuspec)
    ensures var r := Generate(None, nuspec, skipVersionMetadata, versionOf);
      r.Ok? && forall d :: d in r.value ==> TypeOf(d) == Added
  {
    GenerateOkIff(None, nuspec, skipVersionMetadata, versionOf);
    PreparedAbsent(skipVersionMetadata, versionOf);
    var m := Prepared(nuspec, skipVersionMetadata, versionOf).value;
    assert Generate(None, nuspec, skipVersionMetadata, versionOf) == Ok(CompareMetadata(EmptyMetadata, m));
    CompareWithEmptyOld(m);
  }

  /** Without a new nuspec every reported element is removed. */
  lemma GenerateWithoutNew(nuspec: Option<Element>, skipVersionMetadata: bool, versionOf: string -> Option<string>)
    requires VersionMatcher(versionOf)
    requires WellFormedNuspec(nuspec)
    ensures var r := Generate(nuspec, None, skipVersionMetadata, versionOf);
      r.Ok? && forall d :: d in r.value ==> TypeOf(d) == Removed
  {
    GenerateOkIff(nuspec, None, skipVersionMetadata, versionOf);
    PreparedAbsent(skipVersionMetadata, versionOf);
    PreparedLocal(nuspec, skipVersionMetadata, versionOf);
    var m := Prepared(nuspec, skipVersionMetadata, versionOf).value;
    assert Generate(nuspec, None, skipVersionMetadata, versionOf) == Ok(CompareMetadata(m, EmptyMetadata));
    CompareWithEmptyNew(m);
  }

  /** The `metadata` element of the default nuspec: no children. */
  const EmptyMetadata := Element(Local("metadata"), [], [])

  /** Against a childless old side every difference is an addition. */
  lemma CompareWithEmptyOld(n: Element)
    ensures forall d :: d in CompareMetadata(EmptyMetadata, n) ==> TypeOf(d) == Added
  {
    var names := Dedup(ChildNames(EmptyMetadata.nodes) + ChildNames(n.nodes));
    var all := CompareAll(EmptyMetadata, n, names);
    forall d | d in CompareMetadata(EmptyMetadata, n) ensures TypeOf(d) == Added {
      assert d in all;
      var i :| 0 <= i < |all| && all[i] == d;
      assert FirstChild(EmptyMetadata, Local(names[i])).None?;
    }
  }

  /** Against a childless new side every difference is a removal. */
  lemma CompareWithEmptyNew(o: Element)
    requires ChildrenLocal(o)
    ensures forall d :: d in CompareMetadata(o, EmptyMetadata) ==> TypeOf(d) == Removed
  {
    var names := Dedup(ChildNames(o.nodes) + ChildNames(EmptyMetadata.nodes));
    var all := CompareAll(o, EmptyMetadata, names);
    forall d | d in CompareMetadata(o, EmptyMetadata) ensures TypeOf(d) == Removed {
      assert d in all;
      var i :| 0 <= i < |all| && all[i] == d;
      assert names[i] in ChildNames(o.nodes) + ChildNames(EmptyMetadata.nodes);
      assert ChildNames(EmptyMetadata.nodes) == [];
      NamedChildFound(o, names[i]);
      assert FirstChild(EmptyMetadata, Local(names[i])).None?;
    }
  }
}
