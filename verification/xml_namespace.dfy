/** One namespace of the API description (XMLNamespace.cs): a name and the
    types it declares. Its comparison differs from the nested-type one of
    a type in one respect: a type the second side lacks is not marked
    missing but compared with an empty type. */
module Namespaces {
  import opened Wrappers
  import opened Sorting
  import opened XmlNodes
  import opened Counters
  import opened Classes

  /** `types` is empty where the source leaves it `null`: every use of the
      field treats the two alike. */
  datatype NamespaceData = NamespaceData(name: string, types: seq<ClassData>)

  /** `XMLNamespace.LoadData`: the element must be `namespace` and carry a
      `name`; a first child, when there is one, must be `classes`, whose
      children are loaded as the types. */
  function LoadNamespace(node: Node, cmp: (string, string) -> int): (r: Result<NamespaceData>)
    ensures node.name != "namespace" ==> r == Err(FormatException("Expecting <namespace>"))
    ensures node.name == "namespace" && "name" !in node.attrs ==> r == Err(NullReferenceException)
    ensures r.Ok? ==> node.name == "namespace" && "name" in node.attrs && r.value.name == node.attrs["name"]
    ensures r.Ok? && |node.children| == 0 ==> r.value.types == []
    ensures node.name == "namespace" && "name" in node.attrs && |node.children| > 0 && node.children[0].name != "classes" ==>
      r == Err(FormatException("Expecting <classes>. Got <" + node.children[0].name + "> (namespace " + node.attrs["name"] + ")."))
    ensures r.Ok? && |node.children| > 0 ==>
      && |r.value.types| == |node.children[0].children|
      && forall k :: 0 <= k < |r.value.types| ==> LoadClass(node.children[0].children[k], cmp) == Ok(r.value.types[k])
  {
    if node.name != "namespace" then Err(FormatException("Expecting <namespace>"))
    else if "name" !in node.attrs then Err(NullReferenceException)
    else
      var name := node.attrs["name"];
      if |node.children| == 0 then Ok(NamespaceData(name, []))
      else if node.children[0].name != "classes" then
        Err(FormatException("Expecting <classes>. Got <" + node.children[0].name + "> (namespace " + name + ")."))
      else
        var types :- LoadClassList(node.children[0], 0, cmp);
        Ok(NamespaceData(name, types))
  }

  /** How one type is compared with its partner once the string comparison
      is fixed: `CompareClass` onto the type's own element. */
  type TypeCompareFn = (ClassData, ClassData) -> Result<(Node, Counters)>

  function TypeCompares(cmp: (string, string) -> int): (r: TypeCompareFn)
    ensures forall x, y :: r(x, y) == CompareClass(x, y, ClassNode(x), cmp)
  {
    (x: ClassData, y: ClassData) => CompareClass(x, y, ClassNode(x), cmp)
  }

  /** A comparison whose successes never count negative warnings, as
      `CompareClass` is. */
  ghost predicate WarningsNonNegative(compare: TypeCompareFn) {
    forall x, y :: compare(x, y).Ok? ==> compare(x, y).value.1.Warning >= 0
  }

  lemma TypeComparesNonNegative(cmp: (string, string) -> int)
    ensures WarningsNonNegative(TypeCompares(cmp))
  {
  }

  /** The comparison of one type: with its partner's slot, or with an
      empty type when the second side has no type of its name. */
  function TypeStep(x: ClassData, h: map<string, nat>, slots: seq<Option<ClassData>>, compare: TypeCompareFn)
    : (r: Result<(Node, Counters)>)
    requires forall k :: k in h ==> h[k] < |slots|
    ensures x.name in h && slots[h[x.name]].None? ==> r == Err(NullReferenceException)
    ensures x.name !in h ==> r == compare(x, EmptyClass)
    ensures x.name in h && slots[h[x.name]].Some? ==> r == compare(x, slots[h[x.name]].value)
  {
    if x.name !in h then compare(x, EmptyClass)
    else if slots[h[x.name]].None? then Err(NullReferenceException)
    else compare(x, slots[h[x.name]].value)
  }

  /** The slots once `x` has taken its partner's. */
  function Cleared(x: ClassData, h: map<string, nat>, slots: seq<Option<ClassData>>): (r: seq<Option<ClassData>>)
    requires forall k :: k in h ==> h[k] < |slots|
    ensures |r| == |slots|
    ensures forall j :: 0 <= j < |slots| ==> r[j] == (if x.name in h && h[x.name] == j then None else slots[j])
  {
    if x.name in h then slots[h[x.name] := None] else slots
  }

  /** The loop of `CompareTypes` from index `i`: every type is compared,
      with the last second-side type of its name when there is one (its
      slot then cleared; a slot already cleared is a
      `NullReferenceException`) and with an empty type otherwise. The
      counts are merged partial-to-partial and nothing is counted
      missing. */
  function TypesPass(own: seq<ClassData>, i: nat, others: seq<ClassData>, h: map<string, nat>,
                     slots: seq<Option<ClassData>>, compare: TypeCompareFn)
    : (r: Result<NestedWalk>)
    requires i <= |own| && |slots| == |others|
    requires forall k :: k in h ==> h[k] < |others| && others[h[k]].name == k
    requires WarningsNonNegative(compare)
    ensures r.Ok? ==> |r.value.nodes| == |own| - i && |r.value.slots| == |others|
    ensures r.Ok? ==> r.value.missing == 0 && NestedDelta(r.value.inner)
    decreases |own| - i
  {
    if i == |own| then Ok(NestedWalk([], slots, 0, Zero))
    else
      var x := own[i];
      var m :- TypeStep(x, h, slots, compare);
      var rest :- TypesPass(own, i + 1, others, h, Cleared(x, h, slots), compare);
      NestedDeltaAdds(m.1, rest.inner);
      Ok(rest.(nodes := [m.0] + rest.nodes, inner := Plus(PartialDelta(m.1), rest.inner)))
  }

  /** One step of the walk: it succeeds exactly when the type at `i` and
      the walk from `i + 1` do, and then lists that type's node first. */
  lemma TypesPassStep(own: seq<ClassData>, i: nat, others: seq<ClassData>, h: map<string, nat>,
                      slots: seq<Option<ClassData>>, compare: TypeCompareFn)
    requires i < |own| && |slots| == |others|
    requires forall k :: k in h ==> h[k] < |others| && others[h[k]].name == k
    requires WarningsNonNegative(compare)
    ensures var r := TypesPass(own, i, others, h, slots, compare);
      var m := TypeStep(own[i], h, slots, compare);
      var rest := TypesPass(own, i + 1, others, h, Cleared(own[i], h, slots), compare);
      && (r.Ok? <==> m.Ok? && rest.Ok?)
      && (r.Ok? ==> r.value.nodes == [m.value.0] + rest.value.nodes && r.value.slots == rest.value.slots)
  {
  }

  /** On success the walk has cleared exactly the slots claimed by a type
      from `i` on. */
  lemma {:induction false} TypesPassSlots(own: seq<ClassData>, i: nat, others: seq<ClassData>, h: map<string, nat>,
                                          slots: seq<Option<ClassData>>, compare: TypeCompareFn)
    requires i <= |own| && |slots| == |others|
    requires forall k :: k in h ==> h[k] < |others| && others[h[k]].name == k
    requires WarningsNonNegative(compare)
    ensures var r := TypesPass(own, i, others, h, slots, compare);
      r.Ok? ==> forall j :: 0 <= j < |others| ==>
        r.value.slots[j] == (if Claimed(h, ClassNames(own), i, others[j].name, j) then None else slots[j])
    decreases |own| - i
  {
    if i < |own| && TypesPass(own, i, others, h, slots, compare).Ok? {
      ClaimedStep(h, ClassNames(own), i, others);
      TypesPassStep(own, i, others, h, slots, compare);
      TypesPassSlots(own, i + 1, others, h, Cleared(own[i], h, slots), compare);
    }
  }

  /** A type the second side lacks is listed, at its own position, as its
      comparison with an empty type. */
  lemma {:induction false} UnmatchedComparedWithEmpty(own: seq<ClassData>, i: nat, others: seq<ClassData>, h: map<string, nat>,
                                                      slots: seq<Option<ClassData>>, compare: TypeCompareFn, k: nat)
    requires i <= k < |own| && |slots| == |others|
    requires forall k :: k in h ==> h[k] < |others| && others[h[k]].name == k
    requires WarningsNonNegative(compare)
    requires own[k].name !in h && TypesPass(own, i, others, h, slots, compare).Ok?
    ensures compare(own[k], EmptyClass).Ok?
    ensures TypesPass(own, i, others, h, slots, compare).value.nodes[k - i] == compare(own[k], EmptyClass).value.0
    decreases |own| - i
  {
    var r := TypesPass(own, i, others, h, slots, compare);
    var slots' := Cleared(own[i], h, slots);
    var rest := TypesPass(own, i + 1, others, h, slots', compare);
    TypesPassStep(own, i, others, h, slots, compare);
    if k > i {
      UnmatchedComparedWithEmpty(own, i + 1, others, h, slots', compare, k);
      assert r.value.nodes[k - i] == rest.value.nodes[k - (i + 1)];
    }
  }

  /** A type whose slot is already cleared when the walk reaches it makes
      the walk fail, as slots are only ever cleared. */
  lemma {:induction false} ClearedSlotFails(own: seq<ClassData>, i: nat, others: seq<ClassData>, h: map<string, nat>,
                                            slots: seq<Option<ClassData>>, compare: TypeCompareFn, b: nat)
    requires i <= b < |own| && |slots| == |others|
    requires forall k :: k in h ==> h[k] < |others| && others[h[k]].name == k
    requires WarningsNonNegative(compare)
    requires own[b].name in h && slots[h[own[b].name]].None?
    ensures TypesPass(own, i, others, h, slots, compare).Err?
    decreases |own| - i
  {
    TypesPassStep(own, i, others, h, slots, compare);
    if i < b && TypeStep(own[i], h, slots, compare).Ok? {
      ClearedSlotFails(own, i + 1, others, h, Cleared(own[i], h, slots), compare, b);
    }
  }

  /** Two types of one name that the second side has make the walk fail:
      the later one finds the slot cleared by the earlier. */
  lemma {:induction false} DuplicateFails(own: seq<ClassData>, i: nat, others: seq<ClassData>, h: map<string, nat>,
                                          slots: seq<Option<ClassData>>, compare: TypeCompareFn, a: nat, b: nat)
    requires i <= a < b < |own| && own[a].name == own[b].name && own[a].name in h
    requires |slots| == |others|
    requires forall k :: k in h ==> h[k] < |others| && others[h[k]].name == k
    requires WarningsNonNegative(compare)
    ensures TypesPass(own, i, others, h, slots, compare).Err?
    decreases |own| - i
  {
    TypesPassStep(own, i, others, h, slots, compare);
    if TypeStep(own[i], h, slots, compare).Ok? {
      if i == a {
        ClearedSlotFails(own, i + 1, others, h, Cleared(own[i], h, slots), compare, b);
      } else {
        DuplicateFails(own, i + 1, others, h, Cleared(own[i], h, slots), compare, a, b);
      }
    }
  }

  /** `XMLNamespace.CompareTo`: a `classes` element is appended to `parent`
      and filled by `CompareTypes` against the second namespace's types (none
      when the second namespace is absent); the result carries the
      namespace's counts, which the assembly writes onto the element. */
  function CompareNamespace(own: NamespaceData, other: Option<NamespaceData>, parent: Node, cmp: (string, string) -> int)
    : (r: Result<(Node, Counters)>)
    ensures r.Ok? ==> ClassesAppended(parent, r.value.0, cmp)
    ensures r.Ok? ==> NestedDelta(r.value.1) && r.value.1.Missing == r.value.1.MissingTotal
  {
    var others := if other.Some? then other.value.types else [];
    var h := CreateHash(ClassNames(others));
    TypeComparesNonNegative(cmp);
    var p :- TypesPass(own.types, 0, others, h, Slots(others), TypeCompares(cmp));
    var g := FinishNested(p, parent, cmp);
    Ok((g.parent, g.Total()))
  }

  /** The types of the second namespace: none when it is absent. */
  function OtherTypes(other: Option<NamespaceData>): seq<ClassData> {
    if other.Some? then other.value.types else []
  }

  /** The walk `CompareNamespace` performs. */
  function NamespaceWalk(own: NamespaceData, other: Option<NamespaceData>, cmp: (string, string) -> int): Result<NestedWalk> {
    var others := OtherTypes(other);
    TypeComparesNonNegative(cmp);
    TypesPass(own.types, 0, others, CreateHash(ClassNames(others)), Slots(others), TypeCompares(cmp))
  }

  /** `CompareNamespace` succeeds exactly when its walk does, and lists
      what the walk produced. */
  lemma NamespaceUnfold(own: NamespaceData, other: Option<NamespaceData>, parent: Node, cmp: (string, string) -> int)
    ensures var r := CompareNamespace(own, other, parent, cmp);
      var p := NamespaceWalk(own, other, cmp);
      && (r.Ok? <==> p.Ok?)
      && (r.Ok? ==> r.value.0 == FinishNested(p.value, parent, cmp).parent)
  {
  }

  /** The listed types: one node per first-side type, matched or not, and
      one per unclaimed second-side type that is not a TODO marker. */
  lemma NamespaceListing(own: NamespaceData, other: Option<NamespaceData>, parent: Node, cmp: (string, string) -> int)
    ensures var r := CompareNamespace(own, other, parent, cmp);
      var others := if other.Some? then other.value.types else [];
      r.Ok? ==>
      |r.value.0.children[|parent.children|].children|
        == |own.types| + ExtraCount(CreateHash(ClassNames(others)), ClassNames(own.types), 0, others, 0)
  {
    var others := if other.Some? then other.value.types else [];
    var h := CreateHash(ClassNames(others));
    TypeComparesNonNegative(cmp);
    var p := TypesPass(own.types, 0, others, h, Slots(others), TypeCompares(cmp));
    if p.Ok? {
      TypesPassSlots(own.types, 0, others, h, Slots(others), TypeCompares(cmp));
      LeftoversCount(h, ClassNames(own.types), 0, others, p.value.slots, 0);
      assert p.value.slots[0..] == p.value.slots;
    }
  }

  /** A type the second namespace lacks is listed as its comparison with an
      empty type, not marked missing. */
  lemma UnmatchedTypeListed(own: NamespaceData, other: Option<NamespaceData>, parent: Node, cmp: (string, string) -> int, k: nat)
    requires k < |own.types|
    requires other.Some? ==> own.types[k].name !in ClassNames(other.value.types)
    ensures var r := CompareNamespace(own, other, parent, cmp);
      r.Ok? ==>
      var e := CompareClass(own.types[k], EmptyClass, ClassNode(own.types[k]), cmp);
      e.Ok? && e.value.0 in multiset(r.value.0.children[|parent.children|].children)
  {
    var others := OtherTypes(other);
    var h := CreateHash(ClassNames(others));
    TypeComparesNonNegative(cmp);
    var p := NamespaceWalk(own, other, cmp);
    NamespaceUnfold(own, other, parent, cmp);
    if p.Ok? {
      assert own.types[k].name !in h;
      UnmatchedComparedWithEmpty(own.types, 0, others, h, Slots(others), TypeCompares(cmp), k);
      WalkNodeListed(p.value, parent, cmp, k);
    }
  }

  /** Every node of the walk is among the listed types. */
  lemma WalkNodeListed(p: NestedWalk, n: Node, cmp: (string, string) -> int, k: nat)
    requires k < |p.nodes|
    ensures p.nodes[k] in multiset(FinishNested(p, n, cmp).parent.children[|n.children|].children)
  {
    var all := p.nodes + ExtraClassNodes(Leftovers(p.slots));
    assert all[k] == p.nodes[k];
    assert all[k] in multiset(all);
  }

  /** Against an absent second namespace every type is compared with an
      empty type and nothing is extra. */
  lemma AbsentNamespaceListsOwnTypes(own: NamespaceData, parent: Node, cmp: (string, string) -> int)
    ensures var r := CompareNamespace(own, None, parent, cmp);
      r.Ok? ==> |r.value.0.children[|parent.children|].children| == |own.types|
  {
    NamespaceListing(own, None, parent, cmp);
  }

  /** Two types of one name that the second namespace also has make the
      comparison fail (with a `NullReferenceException`, unless an earlier
      type fails first). */
  lemma DuplicateMatchedTypeFails(own: NamespaceData, other: NamespaceData, parent: Node, cmp: (string, string) -> int,
                                  a: nat, b: nat)
    requires a < b < |own.types| && own.types[a].name == own.types[b].name
    requires own.types[a].name in ClassNames(other.types)
    ensures CompareNamespace(own, Some(other), parent, cmp).Err?
  {
    var h := CreateHash(ClassNames(other.types));
    TypeComparesNonNegative(cmp);
    DuplicateFails(own.types, 0, other.types, h, Slots(other.types), TypeCompares(cmp), a, b);
  }
}
