/** The constraint groups of generic types and methods (XMLGenericGroup.cs):
    plain name groups that also remember one `generic-attribute` string for
    the whole group. */
module GenericGroup {
  import opened Wrappers
  import opened Tables
  import opened XmlNodes
  import opened Counters
  import opened XmlData
  import opened NameGroup

  /** `attributes` is a single field of the group, not one per item: each
      loaded child overwrites it, and it is `null` until the first child. */
  datatype GenericGroupData = GenericGroupData(keys: Table<string, string>, attributes: Option<string>)

  const NoGeneric := GenericGroupData([], None)

  /** The XMLGenericTypeConstraints and XMLGenericMethodConstraints classes
      are not part of this model. Their group names are the element names
      their loaders look for (XMLClass.cs:85 and XMLMethods.cs:74); the
      item names are those of the elements the extractor writes. */
  const TypeConstraintsGroup := "generic-type-constraints"
  const TypeConstraintItem := "generic-type-constraint"
  const MethodConstraintsGroup := "generic-method-constraints"
  const MethodConstraintItem := "generic-method-constraint"

  function GenericStep(s: GenericGroupData, name: string, n: Node): Result<GenericGroupData> {
    Ok(GenericGroupData(Put(s.keys, name, name), Some(GetAttribute(n, "generic-attribute"))))
  }

  /** `LoadData` with the generic group's `LoadExtraData`. */
  function LoadGenericGroup(node: Node, groupName: string): (r: Result<GenericGroupData>)
    ensures node.name != groupName ==> r.Err?
    ensures r.Ok? ==> Distinct(r.value.keys)
    ensures r.Ok? && |node.children| == 0 ==> r.value.attributes == None
    ensures r.Ok? && |node.children| > 0 ==>
      r.value.attributes == Some(GetAttribute(node.children[|node.children| - 1], "generic-attribute"))
  {
    var g :- LoadGroup(node, groupName, NoGeneric, GenericStep);
    LastChildWins(node.children, NoGeneric);
    Ok(g)
  }

  /** The stored string is the last child's, whatever came before. */
  lemma {:induction false} LastChildWins(cs: seq<Node>, s: GenericGroupData)
    requires Distinct(s.keys)
    ensures var r := LoadChildren(cs, s, GenericStep);
      && (r.Ok? ==> Distinct(r.value.keys))
      && (r.Ok? && |cs| == 0 ==> r.value.attributes == s.attributes)
      && (r.Ok? && |cs| > 0 ==> r.value.attributes == Some(GetAttribute(cs[|cs| - 1], "generic-attribute")))
    decreases |cs|
  {
    if |cs| > 0 && "name" in cs[0].attrs {
      var s' := GenericStep(s, cs[0].attrs["name"], cs[0]).value;
      LastChildWins(cs[1..], s');
      if |cs| > 1 {
        assert cs[1..][|cs[1..]| - 1] == cs[|cs| - 1];
      }
    }
  }

  /** The warning of a matched item: the two groups' strings, not the items'. */
  function GenericWarnings(own: Option<string>, other: Option<string>): (r: seq<string>)
    ensures |r| == (if own != other then 1 else 0)
  {
    if own != other then
      ["Incorrect generic attributes: '" + (if own.Some? then own.value else "") + "' != '"
       + (if other.Some? then other.value else "") + "'"]
    else []
  }

  /** `CompareToInner`: the warning is recorded on the item and counted in
      the group's own partial count. */
  function GenericInner(own: GenericGroupData, other: Option<GenericGroupData>, k: string, v: string, node: Node): (r: Result<Outcome>)
    ensures r.Ok?
    ensures r.value.delta == Zero.(Warning := if other.Some? && own.attributes != other.value.attributes then 1 else 0)
  {
    if other.None? then Ok(Outcome(node, Zero))
    else
      var ws := GenericWarnings(own.attributes, other.value.attributes);
      var (n, c) := AddWarnings(node, Zero, ws);
      Ok(Outcome(n, c))
  }

  function OtherGenericKeys(other: Option<GenericGroupData>): Option<Table<string, string>> {
    if other.Some? then Some(other.value.keys) else None
  }

  /** Comparing two constraint groups: the name-group classification, plus
      one warning on every matched item when the groups' strings differ. */
  function CompareGenericGroup(groupName: string, itemName: string, own: GenericGroupData, other: Option<GenericGroupData>,
                               parent: Node): (r: Result<GroupOutcome>)
    ensures r.Ok?
    ensures r.value.innerCounts == Zero.(Warning :=
      if other.Some? && own.attributes != other.value.attributes then r.value.classCounts.Present else 0)
    ensures Distinct(own.keys) && (other.Some? ==> Distinct(other.value.keys)) ==>
      r.value.classCounts == Zero.(
        Present := |Keys(own.keys) * OtherKeys(OtherGenericKeys(other))|,
        Missing := |Keys(own.keys) - OtherKeys(OtherGenericKeys(other))|,
        Extra := |OtherKeys(OtherGenericKeys(other)) - Keys(own.keys)|)
  {
    var w := if other.Some? && own.attributes != other.value.attributes then 1 else 0;
    var inner := (k: string, v: string, n: Node) => GenericInner(own, other, k, v, n);
    CompareGroupConstInner(w, groupName, itemName, own.keys, OtherGenericKeys(other), KeyName, inner, parent);
    CompareGroup(groupName, itemName, own.keys, OtherGenericKeys(other), KeyName, inner, parent)
  }
}
