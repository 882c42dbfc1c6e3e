/** The properties of a type (XMLProperties.cs): a member group keyed by
    name, type and index parameters, which also holds each property's
    accessor methods. A matched property is compared on fresh counters:
    the accessors first, then the member data; the result is written onto
    the property's element and merged partial-to-partial into the group. */
module Properties {
  import opened Wrappers
  import opened Strings
  import opened Tables
  import opened XmlNodes
  import opened Counters
  import opened XmlData
  import opened NameGroup
  import opened Member
  import opened Methods

  datatype PropertiesData = PropertiesData(
    keys: Table<string, string>,
    member: MemberBase,
    accessors: Table<string, MethodsData>)

  const NoProperties := PropertiesData([], NoMember, [])

  /** An attribute's value, or the empty string when it is absent. */
  function AttrOrEmpty(n: Node, key: string): string {
    if key in n.attrs then n.attrs[key] else ""
  }

  /** `GetNodeKey`: name, type and index parameters joined by `:`. */
  function PropertyKey(n: Node): string {
    AttrOrEmpty(n, "name") + ":" + AttrOrEmpty(n, "ptype") + ":" + AttrOrEmpty(n, "params")
  }

  /** When neither the name nor the type contains a `:`, two properties
      share a key exactly when they agree on name, type and parameters. */
  lemma PropertyKeyInjective(n: Node, n': Node)
    requires ':' !in AttrOrEmpty(n, "name") && ':' !in AttrOrEmpty(n', "name")
    requires ':' !in AttrOrEmpty(n, "ptype") && ':' !in AttrOrEmpty(n', "ptype")
    ensures PropertyKey(n) == PropertyKey(n') <==>
      && AttrOrEmpty(n, "name") == AttrOrEmpty(n', "name")
      && AttrOrEmpty(n, "ptype") == AttrOrEmpty(n', "ptype")
      && AttrOrEmpty(n, "params") == AttrOrEmpty(n', "params")
  {
    var a, b, c := AttrOrEmpty(n, "name"), AttrOrEmpty(n, "ptype"), AttrOrEmpty(n, "params");
    var a', b', c' := AttrOrEmpty(n', "name"), AttrOrEmpty(n', "ptype"), AttrOrEmpty(n', "params");
    if PropertyKey(n) == PropertyKey(n') {
      assert PropertyKey(n) == a + [':'] + (b + ":" + c);
      assert PropertyKey(n') == a' + [':'] + (b' + ":" + c');
      SplitAtSeparator(a, b + ":" + c, a', b' + ":" + c', ':');
      assert b + ":" + c == b + [':'] + c;
      assert b' + ":" + c' == b' + [':'] + c';
      SplitAtSeparator(b, c, b', c', ':');
    }
  }

  /** `XMLProperties.LoadExtraData`: the first `methods` child is loaded
      as the accessors of the property, then the member data. */
  function LoadPropertyExtra(s: PropertiesData, key: string, n: Node, cmp: (string, string) -> int)
    : (r: Result<PropertiesData>)
    ensures r.Ok? ==> r.value.keys == s.keys
    ensures ChildNamed(n, "methods").None? && r.Ok? ==> r.value.accessors == s.accessors
    ensures ChildNamed(n, "methods").Some? && r.Ok? ==>
      var m := LoadMethods(ChildNamed(n, "methods").value, "methods", cmp);
      m.Ok? && r.value.accessors == Put(s.accessors, key, m.value)
  {
    var accessors :-
      match ChildNamed(n, "methods")
      case Some(child) =>
        var m :- LoadMethods(child, "methods", cmp);
        Ok(Put(s.accessors, key, m))
      case None => Ok(s.accessors);
    var member :- LoadMemberExtra(s.member, key, n, cmp);
    Ok(PropertiesData(s.keys, member, accessors))
  }

  function PropertyStep(cmp: (string, string) -> int): (PropertiesData, string, Node) -> Result<PropertiesData> {
    (s: PropertiesData, name: string, n: Node) =>
      var key := PropertyKey(n);
      LoadPropertyExtra(s.(keys := Put(s.keys, key, name)), key, n, cmp)
  }

  /** `XMLNameGroup.LoadData` for a `properties` element. */
  function LoadProperties(node: Node, cmp: (string, string) -> int): (r: Result<PropertiesData>)
    ensures node.name != "properties" ==> r == Err(FormatException("Expecting <properties>"))
  {
    assert "Expecting <" + "properties" + ">" == "Expecting <properties>";
    LoadGroup(node, "properties", NoProperties, PropertyStep(cmp))
  }

  /** The accessor comparison: when either side has accessors, this side's
      (or an empty group) is compared with the other's, and the accessor
      group's counts are merged partial-to-partial. */
  function CompareAccessors(mine: Option<MethodsData>, theirs: Option<MethodsData>, node: Node, c: Counters)
    : (r: Result<(Node, Counters)>)
    ensures mine.None? && theirs.None? ==> r == Ok((node, c))
    ensures theirs.None? ==> r.Ok?
    ensures r.Ok? && IsPartialDelta(c) ==> IsPartialDelta(r.value.1)
    ensures r.Ok? ==> r.value.1.Warning >= c.Warning
  {
    if mine.None? && theirs.None? then Ok((node, c))
    else
      var g :- CompareMethods("methods", "method", mine.GetOr(NoMethods), theirs, node);
      PartialDeltaClosed();
      MergesAreAdditions(c, g.Total());
      Ok((g.parent, AddPartialToPartial(c, g.Total())))
  }

  /** `XMLProperties.CompareToInner`. */
  function PropertyInner(own: PropertiesData, other: Option<PropertiesData>, key: string, v: string, node: Node)
    : (r: Result<Outcome>)
    ensures other.None? ==> r == Ok(Outcome(node, Zero))
    ensures r.Ok? ==> WarnedPartialDelta(r.value.delta)
    ensures other.Some? && Get(other.value.accessors, key).None? ==>
      (r.Ok? <==> AccessWarnings(PropertyMembers, own.member, other.value.member, key).Ok?)
    ensures r.Ok? && other.Some? && Get(own.accessors, key).None? && Get(other.value.accessors, key).None?
            && Get(own.member.attributeMap, key).None? && Get(other.value.member.attributeMap, key).None? ==>
      var w := |AccessWarnings(PropertyMembers, own.member, other.value.member, key).value|;
      r.value.delta == Zero.(Warning := w, WarningTotal := w)
  {
    if other.None? then Ok(Outcome(node, Zero))
    else
      var o := other.value;
      var (n, c) :- CompareAccessors(Get(own.accessors, key), Get(o.accessors, key), node, Zero);
      var (n, c) :- MemberInner(PropertyMembers, own.member, o.member, key, n, c);
      Ok(Outcome(AddCountersAttributes(n, c), PartialDelta(c)))
  }

  /** A plain property (no accessors, no custom attributes, readable
      access flags on this side) warns exactly when the other side wrote no
      access flags: properties render their flags as `null` on both sides. */
  lemma PlainPropertyWarnsIffNoAccess(own: PropertiesData, other: PropertiesData, key: string, node: Node)
    requires Get(own.accessors, key).None? && Get(other.accessors, key).None?
    requires Get(own.member.attributeMap, key).None? && Get(other.member.attributeMap, key).None?
    requires Get(own.member.access, key).Some? && ParseInt32(Get(own.member.access, key).value).Some?
    requires Get(other.member.access, key).Some? ==> ParseInt32(Get(other.member.access, key).value).Some?
    ensures var r := PropertyInner(own, Some(other), key, key, node);
      r.Ok? && (r.value.delta.Warning == 1 <==> Get(other.member.access, key).None?)
  {
    PropertyAccessWarnsIffAbsent(own.member, other.member, key);
  }

  function OtherPropertyKeys(other: Option<PropertiesData>): Option<Table<string, string>> {
    if other.Some? then Some(other.value.keys) else None
  }

  function PropertyItem(own: PropertiesData, other: Option<PropertiesData>): (inner: (string, string, Node) -> Result<Outcome>)
    ensures forall k, v, n :: inner(k, v, n).Ok? ==> WarnedPartialDelta(inner(k, v, n).value.delta)
    ensures other.None? ==> forall k, v, n :: inner(k, v, n).Ok?
  {
    (k: string, v: string, n: Node) => PropertyInner(own, other, k, v, n)
  }

  /** `XMLNameGroup.CompareTo` over two property groups. */
  function CompareProperties(own: PropertiesData, other: Option<PropertiesData>, parent: Node): (r: Result<GroupOutcome>)
    ensures other.None? ==> r.Ok?
    ensures r.Ok? ==> WarnedPartialDelta(r.value.innerCounts) && ClassOnly(r.value.classCounts)
    ensures r.Ok? && Distinct(own.keys) && (other.Some? ==> Distinct(other.value.keys)) ==>
      r.value.classCounts == Zero.(
        Present := |Keys(own.keys) * OtherKeys(OtherPropertyKeys(other))|,
        Missing := |Keys(own.keys) - OtherKeys(OtherPropertyKeys(other))|,
        Extra := |OtherKeys(OtherPropertyKeys(other)) - Keys(own.keys)|)
  {
    var inner := PropertyItem(own, other);
    PartialDeltaClosed();
    CompareGroupInner(WarnedPartialDelta, "properties", "property", own.keys, OtherPropertyKeys(other), KeyName, inner, parent);
    CompareGroup("properties", "property", own.keys, OtherPropertyKeys(other), KeyName, inner, parent)
  }
}
