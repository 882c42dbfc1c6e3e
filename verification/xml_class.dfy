/** One type of the API description (XMLClass.cs): its scalar facts, its
    member groups in a fixed order, and its nested types. Comparing two
    types warns about differing facts, compares each group either side
    has, and classifies the nested types by name. */
module Classes {
  import opened Wrappers
  import opened Tables
  import opened Sorting
  import opened XmlNodes
  import opened Counters
  import opened XmlData
  import opened NameGroup
  import opened Attributes
  import opened GenericGroup
  import opened Fields
  import opened Methods
  import opened Properties
  import opened Events
  import opened NodeComparer
  import Member

  /** The member groups of a type; `None` is a group the source leaves `null`. */
  datatype ClassGroups = ClassGroups(
    attributes: Option<AttributesData>,
    interfaces: Option<PlainGroup>,
    genericConstraints: Option<GenericGroupData>,
    fields: Option<FieldsData>,
    constructors: Option<MethodsData>,
    properties: Option<PropertiesData>,
    events: Option<EventsData>,
    methods: Option<MethodsData>)

  const NoGroups := ClassGroups(None, None, None, None, None, None, None, None)

  /** `hasNested` is `false` where the source leaves `nested` null; the
      nested types are held directly so that recursion over them is by
      structure. */
  datatype ClassData = ClassData(
    name: string,
    ctype: Option<string>,
    baseName: Option<string>,
    isSealed: bool,
    isSerializable: bool,
    isAbstract: bool,
    charSet: Option<string>,
    layout: Option<string>,
    groups: ClassGroups,
    hasNested: bool,
    nested: seq<ClassData>)

  /** `new XMLClass ()`: every fact unset. Its name is never read. */
  const EmptyClass := ClassData("", None, None, false, false, false, None, None, NoGroups, false, [])

  // ------------------------------------------------------------ loading

  /** The member-group element names, in the order loading accepts them. */
  const GroupTags: seq<string> :=
    ["attributes", "interfaces", TypeConstraintsGroup, "fields", "constructors", "properties", "events", "methods"]

  /** The position of a member-group element in that order; 8 for any
      other name. */
  function GroupRank(name: string): (r: nat)
    ensures r <= 8
  {
    RankFrom(name, 0)
  }

  function RankFrom(name: string, k: nat): (r: nat)
    requires k <= 8
    ensures k <= r <= 8
    decreases 8 - k
  {
    if k == 8 then 8
    else if GroupTags[k] == name then k
    else RankFrom(name, k + 1)
  }

  /** Exactly the eight group names have a position, each its own. */
  lemma GroupRankIsPosition(name: string, rank: nat)
    requires rank < 8
    ensures GroupRank(name) == rank <==> name == GroupTags[rank]
  {
    RankFromFinds(name, 0, rank);
  }

  lemma {:induction false} RankFromFinds(name: string, k: nat, rank: nat)
    requires k <= rank < 8
    ensures RankFrom(name, k) == rank <==> name == GroupTags[rank]
    decreases 8 - k
  {
    if GroupTags[k] != name && k < rank {
      RankFromFinds(name, k + 1, rank);
    } else if GroupTags[k] == name && k < rank {
      assert GroupTags[k] != GroupTags[rank];
    }
  }

  /** Loads the group element `n` into the slot of position `rank`. */
  function LoadInto(g: ClassGroups, rank: nat, n: Node, cmp: (string, string) -> int): (r: Result<ClassGroups>)
    requires rank < 8
  {
    if rank == 0 then var a :- LoadAttributes(n, cmp); Ok(g.(attributes := Some(a)))
    else if rank == 1 then var a :- LoadPlain(n, "interfaces"); Ok(g.(interfaces := Some(a)))
    else if rank == 2 then var a :- LoadGenericGroup(n, TypeConstraintsGroup); Ok(g.(genericConstraints := Some(a)))
    else if rank == 3 then var a :- LoadFields(n, cmp); Ok(g.(fields := Some(a)))
    else if rank == 4 then var a :- LoadMethods(n, "constructors", cmp); Ok(g.(constructors := Some(a)))
    else if rank == 5 then var a :- LoadProperties(n, cmp); Ok(g.(properties := Some(a)))
    else if rank == 6 then var a :- LoadEvents(n, cmp); Ok(g.(events := Some(a)))
    else var a :- LoadMethods(n, "methods", cmp); Ok(g.(methods := Some(a)))
  }

  /** The chain of optional group children of `LoadData`, from position
      `rank` on: the child at `i` is loaded when it is the group of the
      current position, and the walk moves to the next position either
      way. It yields the groups and the index of the first child not
      consumed. The consumed children are groups in strictly increasing
      position, and the walk stops only where the next child is not a
      group of a later position than the last one consumed. */
  function LoadGroupsFrom(cs: seq<Node>, i: nat, rank: nat, g: ClassGroups, cmp: (string, string) -> int)
    : (r: Result<(ClassGroups, nat)>)
    requires i <= |cs| && rank <= 8
    ensures r.Ok? ==> i <= r.value.1 <= |cs|
    decreases 8 - rank
  {
    if rank == 8 then Ok((g, i))
    else if i < |cs| && GroupRank(cs[i].name) == rank then
      var g' :- LoadInto(g, rank, cs[i], cmp);
      LoadGroupsFrom(cs, i + 1, rank + 1, g', cmp)
    else LoadGroupsFrom(cs, i, rank + 1, g, cmp)
  }

  /** The positions of a sequence of elements. */
  function Ranks(cs: seq<Node>): (r: seq<nat>)
    ensures |r| == |cs| && forall j :: 0 <= j < |cs| ==> r[j] == GroupRank(cs[j].name)
  {
    seq(|cs|, j requires 0 <= j < |cs| => GroupRank(cs[j].name))
  }

  /** Where the chain stops, leaving the loading aside, for children of
      positions `ranks`. */
  function ChainEnd(ranks: seq<nat>, i: nat, rank: nat): (r: nat)
    requires i <= |ranks| && rank <= 8
    ensures i <= r <= |ranks|
    decreases 8 - rank
  {
    if rank == 8 then i
    else if i < |ranks| && ranks[i] == rank then ChainEnd(ranks, i + 1, rank + 1)
    else ChainEnd(ranks, i, rank + 1)
  }

  /** A chain that loads stops where `ChainEnd` says. */
  lemma {:induction false} ChainStopsAtEnd(cs: seq<Node>, i: nat, rank: nat, g: ClassGroups, cmp: (string, string) -> int)
    requires i <= |cs| && rank <= 8
    ensures var r := LoadGroupsFrom(cs, i, rank, g, cmp); r.Ok? ==> r.value.1 == ChainEnd(Ranks(cs), i, rank)
    decreases 8 - rank
  {
    if rank < 8 {
      if i < |cs| && GroupRank(cs[i].name) == rank {
        var g' := LoadInto(g, rank, cs[i], cmp);
        if g'.Ok? {
          ChainStopsAtEnd(cs, i + 1, rank + 1, g'.value, cmp);
        }
      } else {
        ChainStopsAtEnd(cs, i, rank + 1, g, cmp);
      }
    }
  }

  /** The children the chain consumes are groups of a position from
      `rank` on. */
  lemma {:induction false} ChainConsumesGroups(ranks: seq<nat>, i: nat, rank: nat)
    requires i <= |ranks| && rank <= 8
    ensures forall j :: i <= j < ChainEnd(ranks, i, rank) ==> rank <= ranks[j] < 8
    decreases 8 - rank
  {
    if rank < 8 {
      if i < |ranks| && ranks[i] == rank {
        ChainConsumesGroups(ranks, i + 1, rank + 1);
      } else {
        ChainConsumesGroups(ranks, i, rank + 1);
      }
    }
  }

  /** ... in strictly increasing position. */
  lemma {:induction false} ChainIncreases(ranks: seq<nat>, i: nat, rank: nat)
    requires i <= |ranks| && rank <= 8
    ensures forall j, k :: i <= j < k < ChainEnd(ranks, i, rank) ==> ranks[j] < ranks[k]
    decreases 8 - rank
  {
    if rank < 8 {
      if i < |ranks| && ranks[i] == rank {
        ChainIncreases(ranks, i + 1, rank + 1);
        ChainConsumesGroups(ranks, i + 1, rank + 1);
      } else {
        ChainIncreases(ranks, i, rank + 1);
      }
    }
  }

  /** The chain stops only where the next child is not a group of a later
      position than the last one consumed (or than `rank`, when nothing
      was consumed). */
  lemma {:induction false} ChainIsMaximal(ranks: seq<nat>, i: nat, rank: nat)
    requires i <= |ranks| && rank <= 8
    ensures var e := ChainEnd(ranks, i, rank);
      e < |ranks| ==> !((if e == i then rank else ranks[e - 1] + 1) <= ranks[e] < 8)
    decreases 8 - rank
  {
    if rank < 8 {
      if i < |ranks| && ranks[i] == rank {
        ChainIsMaximal(ranks, i + 1, rank + 1);
      } else {
        ChainIsMaximal(ranks, i, rank + 1);
      }
    }
  }

  /** The scalar facts of a type element. */
  function ClassHead(node: Node): (r: ClassData)
    requires "name" in node.attrs && "type" in node.attrs
  {
    ClassData(node.attrs["name"], Some(node.attrs["type"]), Attr(node, "base"),
              Attr(node, "sealed") == Some("true"), Attr(node, "serializable") == Some("true"),
              Attr(node, "abstract") == Some("true"), Attr(node, "charset"), Attr(node, "layout"),
              NoGroups, false, [])
  }

  /** `XMLClass.LoadData`. `name` and `type` are required. The children are
      read as the ordered chain of optional groups; the child after the
      chain, if any, must be `generic-parameters`, which ends loading and
      leaves nested types unread, or `classes`, whose children are loaded
      as the nested types; any other name is a `FormatException`. */
  function LoadClass(node: Node, cmp: (string, string) -> int): (r: Result<ClassData>)
    ensures "name" !in node.attrs || "type" !in node.attrs ==> r == Err(NullReferenceException)
    ensures r.Ok? ==> r.value.name == node.attrs["name"] && r.value.ctype == Some(node.attrs["type"])
    ensures r.Ok? ==>
      var gi := LoadGroupsFrom(node.children, 0, 0, NoGroups, cmp);
      && gi.Ok? && r.value.groups == gi.value.0
      && (gi.value.1 == |node.children| || node.children[gi.value.1].name in {"generic-parameters", "classes"})
      && (r.value.hasNested <==> gi.value.1 < |node.children| && node.children[gi.value.1].name == "classes")
      && (r.value.hasNested ==> |r.value.nested| == |node.children[gi.value.1].children|)
    ensures "name" in node.attrs && "type" in node.attrs ==>
      var gi := LoadGroupsFrom(node.children, 0, 0, NoGroups, cmp);
      gi.Ok? && gi.value.1 < |node.children| && node.children[gi.value.1].name !in {"generic-parameters", "classes"} ==>
        r == Err(FormatException("Expecting <classes>. Got <" + node.children[gi.value.1].name + "> ("
                                 + node.attrs["type"] + " " + node.attrs["name"] + ")."))
    decreases node, 0
  {
    if "name" !in node.attrs || "type" !in node.attrs then Err(NullReferenceException)
    else
      var cs := node.children;
      var gi :- LoadGroupsFrom(cs, 0, 0, NoGroups, cmp);
      var c := ClassHead(node).(groups := gi.0);
      var i := gi.1;
      if i == |cs| || cs[i].name == "generic-parameters" then Ok(c)
      else if cs[i].name != "classes" then
        Err(FormatException("Expecting <classes>. Got <" + cs[i].name + "> (" + node.attrs["type"] + " " + node.attrs["name"] + ")."))
      else
        var nested :- LoadClassList(cs[i], 0, cmp);
        Ok(c.(hasNested := true, nested := nested))
  }

  /** `LoadRecursive` over a `classes` element: every child is loaded as a
      type, whatever its name, in document order. */
  function LoadClassList(group: Node, i: nat, cmp: (string, string) -> int): (r: Result<seq<ClassData>>)
    requires i <= |group.children|
    ensures r.Ok? ==> |r.value| == |group.children| - i
    ensures r.Ok? ==> forall k :: 0 <= k < |r.value| ==> LoadClass(group.children[i + k], cmp) == Ok(r.value[k])
    decreases group, 1, |group.children| - i
  {
    if i == |group.children| then Ok([])
    else
      var c :- LoadClass(group.children[i], cmp);
      var rest :- LoadClassList(group, i + 1, cmp);
      Ok([c] + rest)
  }

  /** Of a loaded type, the children read as groups are group elements in
      strictly increasing position, and the child after them, if any, is not
      a group that could have followed the last one read. */
  lemma LoadedGroupsInOrder(node: Node, cmp: (string, string) -> int)
    requires "name" in node.attrs && "type" in node.attrs
    requires LoadGroupsFrom(node.children, 0, 0, NoGroups, cmp).Ok?
    ensures var cs := node.children;
      var e := LoadGroupsFrom(cs, 0, 0, NoGroups, cmp).value.1;
      && (forall j :: 0 <= j < e ==> GroupRank(cs[j].name) < 8)
      && (forall j, k :: 0 <= j < k < e ==> GroupRank(cs[j].name) < GroupRank(cs[k].name))
      && (e < |cs| ==> !((if e == 0 then 0 else GroupRank(cs[e - 1].name) + 1) <= GroupRank(cs[e].name) < 8))
  {
    var cs := node.children;
    ChainStopsAtEnd(cs, 0, 0, NoGroups, cmp);
    ChainConsumesGroups(Ranks(cs), 0, 0);
    ChainIncreases(Ranks(cs), 0, 0);
    ChainIsMaximal(Ranks(cs), 0, 0);
  }

  /** A `generic-parameters` child after the groups ends loading: no
      nested types are read, whatever follows it. */
  lemma GenericParametersEndLoading(node: Node, cmp: (string, string) -> int)
    requires "name" in node.attrs && "type" in node.attrs
    requires var gi := LoadGroupsFrom(node.children, 0, 0, NoGroups, cmp);
      gi.Ok? && gi.value.1 < |node.children| && node.children[gi.value.1].name == "generic-parameters"
    ensures LoadClass(node, cmp).Ok? && !LoadClass(node, cmp).value.hasNested
  {
  }

  // ------------------------------------------------------------ warnings

  function Should(b: bool): string {
    if b then "" else "not "
  }

  predicate IsStatic(c: ClassData) {
    c.isAbstract && c.isSealed
  }

  function TypeWarning(own: ClassData, other: ClassData): (r: seq<string>) {
    if own.ctype != other.ctype then ["Class type is wrong: " + Member.Shown(own.ctype) + " != " + Member.Shown(other.ctype)] else []
  }

  function BaseWarning(own: ClassData, other: ClassData): (r: seq<string>) {
    if own.baseName != other.baseName then ["Base class is wrong: " + Member.Shown(own.baseName) + " != " + Member.Shown(other.baseName)] else []
  }

  /** The abstract/sealed block: a static type on either side is reported
      as such; otherwise an abstract mismatch wins over a sealed one. */
  function ModifierWarning(own: ClassData, other: ClassData): (r: seq<string>) {
    if own.isAbstract != other.isAbstract || own.isSealed != other.isSealed then
      if IsStatic(own) || IsStatic(other) then ["Should " + Should(IsStatic(own)) + "be static"]
      else if own.isAbstract != other.isAbstract then ["Should " + Should(own.isAbstract) + "be abstract"]
      else if own.isSealed != other.isSealed then ["Should " + Should(own.isSealed) + "be sealed"]
      else []
    else []
  }

  function SerializableWarning(own: ClassData, other: ClassData): (r: seq<string>) {
    if own.isSerializable != other.isSerializable then ["Should " + Should(own.isSerializable) + "be serializable"] else []
  }

  function CharSetWarning(own: ClassData, other: ClassData): (r: seq<string>) {
    if own.charSet != other.charSet then ["CharSet is wrong: " + Member.Shown(own.charSet) + " != " + Member.Shown(other.charSet)] else []
  }

  function LayoutWarning(own: ClassData, other: ClassData): (r: seq<string>) {
    if own.layout != other.layout then ["Layout is wrong: " + Member.Shown(own.layout) + " != " + Member.Shown(other.layout)] else []
  }

  /** The scalar warnings of `CompareTo`, in the order they are recorded. */
  function ClassWarnings(own: ClassData, other: ClassData): (r: seq<string>) {
    TypeWarning(own, other) + BaseWarning(own, other) + ModifierWarning(own, other)
    + SerializableWarning(own, other) + CharSetWarning(own, other) + LayoutWarning(own, other)
  }

  function Differs<T(==)>(a: T, b: T): nat {
    if a != b then 1 else 0
  }

  /** One warning per differing fact, where abstract and sealed together
      count as one fact. */
  lemma ClassWarningCount(own: ClassData, other: ClassData)
    ensures |ClassWarnings(own, other)| ==
      Differs(own.ctype, other.ctype) + Differs(own.baseName, other.baseName)
      + Differs((own.isAbstract, own.isSealed), (other.isAbstract, other.isSealed))
      + Differs(own.isSerializable, other.isSerializable)
      + Differs(own.charSet, other.charSet) + Differs(own.layout, other.layout)
  {
  }

  /** When either side is static and the modifiers differ, the one
      modifier warning is about being static, worded from the first side. */
  lemma StaticWarningWins(own: ClassData, other: ClassData)
    requires own.isAbstract != other.isAbstract || own.isSealed != other.isSealed
    requires IsStatic(own) || IsStatic(other)
    ensures ModifierWarning(own, other) == [if IsStatic(own) then "Should be static" else "Should not be static"]
  {
    assert "Should " + "" + "be static" == "Should be static";
    assert "Should " + "not " + "be static" == "Should not be static";
  }

  /** Otherwise an abstract mismatch is reported, and a sealed mismatch
      only when abstract agrees. */
  lemma AbstractBeforeSealed(own: ClassData, other: ClassData)
    requires !IsStatic(own) && !IsStatic(other)
    ensures own.isAbstract != other.isAbstract ==>
      ModifierWarning(own, other) == [if own.isAbstract then "Should be abstract" else "Should not be abstract"]
    ensures own.isAbstract == other.isAbstract && own.isSealed != other.isSealed ==>
      ModifierWarning(own, other) == [if own.isSealed then "Should be sealed" else "Should not be sealed"]
  {
    assert "Should " + "" + "be abstract" == "Should be abstract";
    assert "Should " + "not " + "be abstract" == "Should not be abstract";
    assert "Should " + "" + "be sealed" == "Should be sealed";
    assert "Should " + "not " + "be sealed" == "Should not be sealed";
  }

  // ------------------------------------------------------------ the other side's index

  /** `CreateHash`: each name maps to the index it was last seen at, so of
      several types of one name the last is the one matched. */
  function CreateHash(names: seq<string>): (r: map<string, nat>)
    ensures forall k :: k in r <==> k in names
    ensures forall k :: k in r ==> r[k] < |names| && names[r[k]] == k
    ensures forall k, j :: k in r && r[k] < j < |names| ==> names[j] != k
  {
    if |names| == 0 then map[]
    else CreateHash(names[..|names| - 1])[names[|names| - 1] := |names| - 1]
  }

  function ClassNames(cs: seq<ClassData>): (r: seq<string>)
    ensures |r| == |cs| && forall k :: 0 <= k < |cs| ==> r[k] == cs[k].name
  {
    seq(|cs|, k requires 0 <= k < |cs| => cs[k].name)
  }

  /** Every entry of the other side, not yet matched. */
  function Slots<T>(others: seq<T>): (r: seq<Option<T>>)
    ensures |r| == |others| && forall j :: 0 <= j < |others| ==> r[j] == Some(others[j])
  {
    seq(|others|, j requires 0 <= j < |others| => Some(others[j]))
  }

  /** Entry `j` of the other side, named `name`, is taken by a first-side
      entry from index `from` on: it is the last of its name, and some
      first-side entry has that name. */
  predicate Claimed(h: map<string, nat>, ownNames: seq<string>, from: nat, name: string, j: nat) {
    name in h && h[name] == j && exists k :: from <= k < |ownNames| && ownNames[k] == name
  }

  /** The element a type is listed as. */
  function ClassNode(c: ClassData): (r: Node)
    ensures r.name == "class" && Attr(r, "name") == Some(c.name)
  {
    SetAttr(SetAttr(Element("class"), "name", c.name), "type", Member.Shown(c.ctype))
  }

  /** The second side's entries still unmatched, skipping TODO markers. */
  function Leftovers(slots: seq<Option<ClassData>>): (r: seq<ClassData>)
    ensures |r| <= |slots|
  {
    if |slots| == 0 then []
    else
      (if slots[0].Some? && !IsMonoTODOAttribute(Some(slots[0].value.name)) then [slots[0].value] else [])
      + Leftovers(slots[1..])
  }

  /** The unmatched second-side types, each listed and marked extra. */
  function ExtraClassNodes(leftovers: seq<ClassData>): (r: seq<Node>)
    ensures |r| == |leftovers|
    ensures forall k :: 0 <= k < |r| ==> r[k] == AddExtra(ClassNode(leftovers[k]))
  {
    seq(|leftovers|, k requires 0 <= k < |leftovers| => AddExtra(ClassNode(leftovers[k])))
  }

  /** The number of second-side types that nothing from index `from` of
      the first side claims and that are not TODO markers. */
  function ExtraCount(h: map<string, nat>, ownNames: seq<string>, from: nat, others: seq<ClassData>, j: nat): nat
    requires j <= |others|
    decreases |others| - j
  {
    if j == |others| then 0
    else
      (if !Claimed(h, ownNames, from, others[j].name, j) && !IsMonoTODOAttribute(Some(others[j].name)) then 1 else 0)
      + ExtraCount(h, ownNames, from, others, j + 1)
  }

  /** Once a walk has cleared exactly the claimed slots, the leftovers are
      the unclaimed, non-TODO types of the second side. */
  lemma {:induction false} LeftoversCount(h: map<string, nat>, ownNames: seq<string>, from: nat,
                                           others: seq<ClassData>, slots: seq<Option<ClassData>>, j: nat)
    requires |slots| == |others| && j <= |others|
    requires forall m :: 0 <= m < |others| ==>
      slots[m] == (if Claimed(h, ownNames, from, others[m].name, m) then None else Some(others[m]))
    ensures |Leftovers(slots[j..])| == ExtraCount(h, ownNames, from, others, j)
    decreases |others| - j
  {
    if j < |others| {
      assert slots[j..][1..] == slots[j + 1..];
      LeftoversCount(h, ownNames, from, others, slots, j + 1);
    }
  }

  /** The number of first-side types from `i` on whose name the second
      side lacks. */
  function Unmatched(own: seq<ClassData>, i: nat, h: map<string, nat>): nat
    requires i <= |own|
    decreases |own| - i
  {
    if i == |own| then 0
    else (if own[i].name !in h then 1 else 0) + Unmatched(own, i + 1, h)
  }

  // ------------------------------------------------------------ comparing

  /** The counts a type's comparison adds to its parent: mirrored totals,
      no error recorded, no negative warnings. */
  predicate NestedDelta(c: Counters) {
    Mirrored(c) && c.ErrorTotal == 0 && c.Warning >= 0
  }

  /** Merging a compared type partial-to-partial keeps the walk's counts
      in that shape. */
  lemma NestedDeltaAdds(m: Counters, inner: Counters)
    requires m.Warning >= 0 && NestedDelta(inner)
    ensures NestedDelta(Plus(PartialDelta(m), inner))
  {
  }

  /** Adding a nested comparison's counts keeps a type's counts mirrored,
      its error total unchanged, and its warnings from decreasing. */
  lemma NestedDeltaMerges(c: Counters, g: Counters)
    requires NestedDelta(g)
    ensures Mirrored(c) ==> Mirrored(Plus(c, g))
    ensures Plus(c, g).ErrorTotal == c.ErrorTotal && Plus(c, g).Warning >= c.Warning
  {
  }

  /** One member group of `CompareTo`: compared when either side has it
      (this side defaulting to empty), its counts merged partial-to-partial. */
  function GroupStep<T(!new)>(mine: Option<T>, theirs: Option<T>, empty: T,
                        compare: (T, Option<T>, Node) -> Result<GroupOutcome>, n: Node, c: Counters)
    : (r: Result<(Node, Counters)>)
    requires forall t, o, p :: compare(t, o, p).Ok? ==> compare(t, o, p).value.Total().Warning >= 0
    ensures mine.None? && theirs.None? ==> r == Ok((n, c))
    ensures r.Ok? ==> r.value.1.Warning >= c.Warning && r.value.1.ErrorTotal == c.ErrorTotal
    ensures r.Ok? && Mirrored(c) ==> Mirrored(r.value.1)
  {
    if mine.None? && theirs.None? then Ok((n, c))
    else
      var g :- compare(mine.GetOr(empty), theirs, n);
      Ok((g.parent, AddPartialToPartial(c, g.Total())))
  }

  // The group comparisons a type runs, each with the one fact the type
  // level needs of it: it adds no negative warning count.

  function CompareInterfaces(t: PlainGroup, o: Option<PlainGroup>, p: Node): (r: Result<GroupOutcome>)
    ensures r.Ok? && r.value.Total().Warning >= 0
  {
    ComparePlain("interfaces", "interface", t, o, p)
  }

  function CompareTypeConstraints(t: GenericGroupData, o: Option<GenericGroupData>, p: Node): (r: Result<GroupOutcome>)
    ensures r.Ok? && r.value.Total().Warning >= 0
  {
    CompareGenericGroup(TypeConstraintsGroup, TypeConstraintItem, t, o, p)
  }

  function CompareFieldGroup(t: FieldsData, o: Option<FieldsData>, p: Node): (r: Result<GroupOutcome>)
    ensures r.Ok? ==> r.value.Total().Warning >= 0
  {
    CompareFields(t, o, p)
  }

  function ComparePropertyGroup(t: PropertiesData, o: Option<PropertiesData>, p: Node): (r: Result<GroupOutcome>)
    ensures r.Ok? ==> r.value.Total().Warning >= 0
  {
    CompareProperties(t, o, p)
  }

  function CompareEventGroup(t: EventsData, o: Option<EventsData>, p: Node): (r: Result<GroupOutcome>)
    ensures r.Ok? ==> r.value.Total().Warning >= 0
  {
    CompareEvents(t, o, p)
  }

  /** Constructors and methods: one comparison under two group names. */
  function CompareMethodGroup(groupName: string, itemName: string, t: MethodsData, o: Option<MethodsData>, p: Node)
    : (r: Result<GroupOutcome>)
    ensures r.Ok? ==> r.value.Total().Warning >= 0
  {
    CompareMethods(groupName, itemName, t, o, p)
  }

  /** The seven member groups after the attributes, in source order. */
  function CompareClassGroups(own: ClassGroups, other: ClassGroups, n: Node, c: Counters): (r: Result<(Node, Counters)>)
    ensures r.Ok? ==> r.value.1.Warning >= c.Warning && r.value.1.ErrorTotal == c.ErrorTotal
    ensures r.Ok? && Mirrored(c) ==> Mirrored(r.value.1)
  {
    var s :- GroupStep(own.interfaces, other.interfaces, PlainGroup([]), CompareInterfaces, n, c);
    var s :- GroupStep(own.genericConstraints, other.genericConstraints, NoGeneric, CompareTypeConstraints, s.0, s.1);
    var s :- GroupStep(own.fields, other.fields, NoFields, CompareFieldGroup, s.0, s.1);
    var s :- GroupStep(own.constructors, other.constructors, NoMethods,
      (t, o, p) => CompareMethodGroup("constructors", "constructor", t, o, p), s.0, s.1);
    var s :- GroupStep(own.properties, other.properties, NoProperties, ComparePropertyGroup, s.0, s.1);
    var s :- GroupStep(own.events, other.events, NoEvents, CompareEventGroup, s.0, s.1);
    GroupStep(own.methods, other.methods, NoMethods,
      (t, o, p) => CompareMethodGroup("methods", "method", t, o, p), s.0, s.1)
  }

  /** The attribute half of a type comparison: its counts are mirrored,
      carry no negative warnings, and record an error exactly for a TODO
      marker on the second side. */
  lemma AttributePartCounts(own: Option<AttributesData>, other: Option<AttributesData>, parent: Node)
    ensures var c := CompareMarkedAttributes(own, other, parent, Zero, CountTodo).1;
      Mirrored(c) && c.Warning >= 0 && c.ErrorTotal == (if OtherIsTodo(other) then 1 else 0)
  {
    if own.Some? || other.Some? {
      MarkedAttributesCounts(own, other, parent, Zero, CountTodo, Zero.(Todo := 1, TodoTotal := 1, ErrorTotal := 1));
    }
  }

  /** The first part of `XMLClass.CompareTo`: the attributes, then the
      scalar warnings. */
  function ClassHeadCounts(own: ClassData, other: ClassData, parent: Node): (r: (Node, Counters))
    ensures r.1.ErrorTotal == (if OtherIsTodo(other.groups.attributes) then 1 else 0)
    ensures Mirrored(r.1) && r.1.Warning >= |ClassWarnings(own, other)|
  {
    var a := CompareMarkedAttributes(own.groups.attributes, other.groups.attributes, parent, Zero, CountTodo);
    AttributePartCounts(own.groups.attributes, other.groups.attributes, parent);
    AddWarnings(a.0, a.1, ClassWarnings(own, other))
  }

  /** `XMLClass.CompareTo` onto the type's element `parent`: the attributes
      (a TODO marker on the second side counted in the partial, TODO and
      error counts), the scalar warnings, the member groups, and the nested
      types when either side has them; the counts are finally written onto
      the element. The error total records this type's TODO marker alone,
      as merges from below never carry errors. */
  function CompareClass(own: ClassData, other: ClassData, parent: Node, cmp: (string, string) -> int)
    : (r: Result<(Node, Counters)>)
    ensures r.Ok? ==> r.value.1.ErrorTotal == (if OtherIsTodo(other.groups.attributes) then 1 else 0)
    ensures r.Ok? ==> Mirrored(r.value.1) && r.value.1.Warning >= |ClassWarnings(own, other)|
    decreases own, 2
  {
    var w := ClassHeadCounts(own, other, parent);
    var s :- CompareClassGroups(own.groups, other.groups, w.0, w.1);
    if own.hasNested || other.hasNested then
      var g :- CompareNestedClasses(own, other, s.0, cmp);
      NestedDeltaMerges(s.1, g.Total());
      var c := Plus(s.1, g.Total());
      Ok((AddCountersAttributes(g.parent, c), c))
    else Ok((AddCountersAttributes(s.0, s.1), s.1))
  }

  /** `CompareTypes` for the nested types, under a new `classes` element
      holding the listed types sorted by name: each first-side type is
      compared with the last second-side type of its name, or marked
      missing; the unmatched second-side types other than TODO markers are
      marked extra. Missing and extra types are counted in both the partial
      count and the total; the compared types' counts are merged
      partial-to-partial. */
  function CompareNestedClasses(own: ClassData, other: ClassData, n: Node, cmp: (string, string) -> int)
    : (r: Result<GroupOutcome>)
    ensures r.Ok? ==> NestedDelta(r.value.Total()) && NestedDelta(r.value.innerCounts)
    ensures r.Ok? ==> ClassesAppended(n, r.value.parent, cmp)
    decreases own, 1
  {
    var h := CreateHash(ClassNames(other.nested));
    var p :- NestedPass(own.nested, 0, other.nested, h, Slots(other.nested), cmp);
    Ok(FinishNested(p, n, cmp))
  }

  /** `parent` is `n` with one more child, a `classes` element whose
      children are in name order when `cmp` is a string comparison. */
  ghost predicate ClassesAppended(n: Node, parent: Node, cmp: (string, string) -> int) {
    && |parent.children| == |n.children| + 1
    && parent == AppendChild(n, parent.children[|n.children|])
    && parent.children[|n.children|].name == "classes"
    && (IsStringComparison(cmp) ==> SortedBy(parent.children[|n.children|].children, NodeOrder(cmp)))
  }

  /** The end of `CompareTypes`: the leftovers are marked extra and counted,
      and every node is appended under `classes` in name order. */
  function FinishNested(p: NestedWalk, n: Node, cmp: (string, string) -> int): (r: GroupOutcome)
    ensures var extra := |Leftovers(p.slots)|;
      r.classCounts == Zero.(Missing := p.missing, MissingTotal := p.missing, Extra := extra, ExtraTotal := extra)
    ensures r.innerCounts == p.inner
    ensures NestedDelta(p.inner) ==> NestedDelta(r.Total())
    ensures ClassesAppended(n, r.parent, cmp)
    ensures |r.parent.children[|n.children|].children| == |p.nodes| + |Leftovers(p.slots)|
    ensures multiset(r.parent.children[|n.children|].children) == multiset(p.nodes + ExtraClassNodes(Leftovers(p.slots)))
  {
    var extras := ExtraClassNodes(Leftovers(p.slots));
    var counted := Zero.(Missing := p.missing, MissingTotal := p.missing, Extra := |extras|, ExtraTotal := |extras|);
    ClassifiedNested(p.missing, |extras|, p.inner);
    GroupOutcome(AppendChild(n, SortedGroup("classes", p.nodes + extras, cmp)), counted, p.inner)
  }

  /** Missing and extra types counted in both the partial count and the
      total keep the nested counts in their shape. */
  lemma ClassifiedNested(missing: nat, extra: nat, inner: Counters)
    ensures NestedDelta(inner) ==>
      NestedDelta(Plus(Zero.(Missing := missing, MissingTotal := missing, Extra := extra, ExtraTotal := extra), inner))
  {
  }

  /** A container element named `name` holding `nodes` in name order. */
  function SortedGroup(name: string, nodes: seq<Node>, cmp: (string, string) -> int): (r: Node)
    ensures r.name == name && r.attrs == map[]
    ensures |r.children| == |nodes| && multiset(r.children) == multiset(nodes)
    ensures IsStringComparison(cmp) ==> SortedBy(r.children, NodeOrder(cmp))
  {
    var sorted := SortNodes(cmp, nodes);
    assert |multiset(sorted)| == |multiset(nodes)|;
    Node(name, map[], sorted)
  }

  /** The counts of the nested comparison: a missing type for every
      first-side type whose name the second side lacks, an extra type for
      every unclaimed second-side type that is not a TODO marker, and a
      listed node for each of them and for every first-side type. */
  lemma NestedClassesCounts(own: ClassData, other: ClassData, n: Node, cmp: (string, string) -> int)
    ensures var r := CompareNestedClasses(own, other, n, cmp);
      r.Ok? ==>
      var h := CreateHash(ClassNames(other.nested));
      var extra := ExtraCount(h, ClassNames(own.nested), 0, other.nested, 0);
      var missing := Unmatched(own.nested, 0, h);
      && r.value.classCounts == Zero.(Missing := missing, MissingTotal := missing, Extra := extra, ExtraTotal := extra)
      && |r.value.parent.children[|n.children|].children| == |own.nested| + extra
  {
    var h := CreateHash(ClassNames(other.nested));
    var p := NestedPass(own.nested, 0, other.nested, h, Slots(other.nested), cmp);
    if p.Ok? {
      NestedPassSlots(own.nested, 0, other.nested, h, Slots(other.nested), cmp);
      NestedPassMissing(own.nested, 0, other.nested, h, Slots(other.nested), cmp);
      LeftoversCount(h, ClassNames(own.nested), 0, other.nested, p.value.slots, 0);
      assert p.value.slots[0..] == p.value.slots;
    }
  }

  /** The walk over the first side's nested types, part way through. */
  datatype NestedWalk = NestedWalk(nodes: seq<Node>, slots: seq<Option<ClassData>>, missing: nat, inner: Counters)

  /** The loop of `CompareTypes` from index `i`: a matched type is compared
      and its slot cleared (a slot already cleared, by an earlier type of
      the same name, is a `NullReferenceException`), and its counts are
      merged partial-to-partial; an unmatched type is marked missing. On
      success exactly the claimed slots are cleared. */
  function NestedPass(own: seq<ClassData>, i: nat, others: seq<ClassData>, h: map<string, nat>,
                      slots: seq<Option<ClassData>>, cmp: (string, string) -> int)
    : (r: Result<NestedWalk>)
    requires i <= |own| && |slots| == |others|
    requires forall k :: k in h ==> h[k] < |others| && others[h[k]].name == k
    ensures r.Ok? ==> |r.value.nodes| == |own| - i && |r.value.slots| == |others|
    ensures r.Ok? ==> NestedDelta(r.value.inner)
    decreases own, 0, |own| - i
  {
    if i == |own| then Ok(NestedWalk([], slots, 0, Zero))
    else
      var x := own[i];
      var node := ClassNode(x);
      if x.name !in h then
        var rest :- NestedPass(own, i + 1, others, h, slots, cmp);
        Ok(rest.(nodes := [SetAttr(node, "presence", "missing")] + rest.nodes, missing := rest.missing + 1))
      else
        var idx := h[x.name];
        if slots[idx].None? then Err(NullReferenceException)
        else
          var m :- CompareClass(x, slots[idx].value, node, cmp);
          var rest :- NestedPass(own, i + 1, others, h, slots[idx := None], cmp);
          NestedDeltaAdds(m.1, rest.inner);
          Ok(rest.(nodes := [m.0] + rest.nodes, inner := Plus(PartialDelta(m.1), rest.inner)))
  }

  /** On success the walk has cleared exactly the slots claimed by a type
      from `i` on. */
  lemma {:induction false} NestedPassSlots(own: seq<ClassData>, i: nat, others: seq<ClassData>, h: map<string, nat>,
                                           slots: seq<Option<ClassData>>, cmp: (string, string) -> int)
    requires i <= |own| && |slots| == |others|
    requires forall k :: k in h ==> h[k] < |others| && others[h[k]].name == k
    ensures var r := NestedPass(own, i, others, h, slots, cmp);
      r.Ok? ==> forall j :: 0 <= j < |others| ==>
        r.value.slots[j] == (if Claimed(h, ClassNames(own), i, others[j].name, j) then None else slots[j])
    decreases |own| - i
  {
    if i < |own| && NestedPass(own, i, others, h, slots, cmp).Ok? {
      ClaimedStep(h, ClassNames(own), i, others);
      NestedPassStep(own, i, others, h, slots, cmp);
      NestedPassSlots(own, i + 1, others, h, NextSlots(own[i], h, slots), cmp);
    }
  }

  /** On success the walk has counted as missing exactly the types from `i`
      on whose name the second side lacks. */
  lemma {:induction false} NestedPassMissing(own: seq<ClassData>, i: nat, others: seq<ClassData>, h: map<string, nat>,
                                             slots: seq<Option<ClassData>>, cmp: (string, string) -> int)
    requires i <= |own| && |slots| == |others|
    requires forall k :: k in h ==> h[k] < |others| && others[h[k]].name == k
    ensures var r := NestedPass(own, i, others, h, slots, cmp);
      r.Ok? ==> r.value.missing == Unmatched(own, i, h)
    decreases |own| - i
  {
    if i < |own| && NestedPass(own, i, others, h, slots, cmp).Ok? {
      NestedPassStep(own, i, others, h, slots, cmp);
      NestedPassMissing(own, i + 1, others, h, NextSlots(own[i], h, slots), cmp);
    }
  }

  /** The slots after the type `x` has taken its partner, if any. */
  function NextSlots(x: ClassData, h: map<string, nat>, slots: seq<Option<ClassData>>): (r: seq<Option<ClassData>>)
    requires forall k :: k in h ==> h[k] < |slots|
    ensures |r| == |slots|
    ensures forall j :: 0 <= j < |slots| ==> r[j] == (if x.name in h && h[x.name] == j then None else slots[j])
  {
    if x.name !in h then slots else slots[h[x.name] := None]
  }

  /** One step of the walk: a successful walk from `i` continues as a
      successful walk from `i + 1`, with the same slots at the end and one
      more missing type when the name at `i` is unknown. */
  lemma NestedPassStep(own: seq<ClassData>, i: nat, others: seq<ClassData>, h: map<string, nat>,
                       slots: seq<Option<ClassData>>, cmp: (string, string) -> int)
    requires i < |own| && |slots| == |others|
    requires forall k :: k in h ==> h[k] < |others| && others[h[k]].name == k
    requires NestedPass(own, i, others, h, slots, cmp).Ok?
    ensures var r := NestedPass(own, i, others, h, slots, cmp);
      var rest := NestedPass(own, i + 1, others, h, NextSlots(own[i], h, slots), cmp);
      && rest.Ok? && r.value.slots == rest.value.slots
      && r.value.missing == rest.value.missing + (if own[i].name !in h then 1 else 0)
  {
  }

  /** Claiming from `i` is claiming by the type at `i` or by one after it. */
  lemma ClaimedStep(h: map<string, nat>, ownNames: seq<string>, i: nat, others: seq<ClassData>)
    requires i < |ownNames|
    ensures forall j :: 0 <= j < |others| ==>
      (Claimed(h, ownNames, i, others[j].name, j) <==>
        (Claimed(h, ownNames, i + 1, others[j].name, j) || (others[j].name == ownNames[i] && others[j].name in h && h[others[j].name] == j)))
  {
  }
}
