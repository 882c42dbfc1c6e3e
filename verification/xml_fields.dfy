/** The fields of a type (XMLFields.cs): a member group that also records
    each field's type and constant value. Unlike the other member groups,
    a matched field is compared directly on the group's counters, so its
    warnings reach the partial warning count only. */
module Fields {
  import opened Wrappers
  import opened Tables
  import opened XmlNodes
  import opened Counters
  import opened XmlData
  import opened NameGroup
  import opened Member

  /** `fieldTypes` and `fieldValues`; a table the source leaves `null`
      (no field wrote the attribute) is the empty table. */
  datatype FieldsData = FieldsData(
    keys: Table<string, string>,
    member: MemberBase,
    fieldTypes: Table<string, string>,
    fieldValues: Table<string, string>)

  const NoFields := FieldsData([], NoMember, [], [])

  /** `XMLFields.LoadExtraData`: `fieldtype` and `value` when written,
      then the member data. */
  function LoadFieldExtra(s: FieldsData, key: string, n: Node, cmp: (string, string) -> int): (r: Result<FieldsData>)
    ensures r.Ok? ==> r.value.keys == s.keys
    ensures r.Ok? ==> Get(r.value.fieldTypes, key) == (if "fieldtype" in n.attrs then Some(n.attrs["fieldtype"]) else Get(s.fieldTypes, key))
    ensures r.Ok? ==> Get(r.value.fieldValues, key) == (if "value" in n.attrs then Some(n.attrs["value"]) else Get(s.fieldValues, key))
    ensures r.Ok? ==> forall k :: k != key ==> Get(r.value.fieldTypes, k) == Get(s.fieldTypes, k) && Get(r.value.fieldValues, k) == Get(s.fieldValues, k)
    ensures r.Ok? <==> LoadMemberExtra(s.member, key, n, cmp).Ok?
  {
    var fieldTypes := if "fieldtype" in n.attrs then Put(s.fieldTypes, key, n.attrs["fieldtype"]) else s.fieldTypes;
    var fieldValues := if "value" in n.attrs then Put(s.fieldValues, key, n.attrs["value"]) else s.fieldValues;
    var member :- LoadMemberExtra(s.member, key, n, cmp);
    Ok(FieldsData(s.keys, member, fieldTypes, fieldValues))
  }

  function FieldStep(cmp: (string, string) -> int): (FieldsData, string, Node) -> Result<FieldsData> {
    (s: FieldsData, name: string, n: Node) => LoadFieldExtra(s.(keys := Put(s.keys, name, name)), name, n, cmp)
  }

  /** `XMLNameGroup.LoadData` for a `fields` element. */
  function LoadFields(node: Node, cmp: (string, string) -> int): (r: Result<FieldsData>)
    ensures node.name != "fields" ==> r == Err(FormatException("Expecting <fields>"))
  {
    assert "Expecting <" + "fields" + ">" == "Expecting <fields>";
    LoadGroup(node, "fields", NoFields, FieldStep(cmp))
  }

  /** A warning about one recorded attribute: only when this group
      recorded it for some field, and the two sides differ. */
  function Recorded(what: string, mine: Table<string, string>, theirs: Table<string, string>, key: string): (r: seq<string>)
    ensures |r| == (if |mine| > 0 && Get(mine, key) != Get(theirs, key) then 1 else 0)
  {
    if |mine| > 0 && Get(mine, key) != Get(theirs, key) then
      ["Field " + what + " is " + Shown(Get(theirs, key)) + " and should be " + Shown(Get(mine, key))]
    else []
  }

  /** The type warning, then the value warning. */
  function FieldWarnings(own: FieldsData, other: FieldsData, key: string): (r: seq<string>)
    ensures |r| <= 2
  {
    Recorded("type", own.fieldTypes, other.fieldTypes, key) + Recorded("value", own.fieldValues, other.fieldValues, key)
  }

  /** A field compared with an identically loaded field warns about nothing. */
  lemma SameFieldNoWarnings(f: FieldsData, key: string)
    ensures FieldWarnings(f, f, key) == []
  {
  }

  /** A field whose type was recorded on this side warns about its type
      exactly when the other side recorded a different one or none. */
  lemma FieldTypeWarnsIffDiffers(own: FieldsData, other: FieldsData, key: string)
    requires Get(own.fieldTypes, key).Some?
    ensures |Recorded("type", own.fieldTypes, other.fieldTypes, key)| == 1
            <==> Get(other.fieldTypes, key) != Get(own.fieldTypes, key)
  {
  }

  /** `XMLFields.CompareToInner` as the change it makes to the group's counters. */
  function FieldInner(own: FieldsData, other: Option<FieldsData>, key: string, v: string, node: Node): (r: Result<Outcome>)
    ensures other.None? ==> r == Ok(Outcome(node, Zero))
    ensures other.Some? ==> (r.Ok? <==> AccessWarnings(FieldMembers, own.member, other.value.member, key).Ok?)
    ensures r.Ok? ==> FieldDelta(r.value.delta)
    ensures r.Ok? && other.Some? ==> r.value.delta.Warning >= |FieldWarnings(own, other.value, key)|
    ensures r.Ok? && other.Some? && Get(own.member.attributeMap, key).None? && Get(other.value.member.attributeMap, key).None? ==>
      r.value.delta == Zero.(Warning := |AccessWarnings(FieldMembers, own.member, other.value.member, key).value|
                                        + |FieldWarnings(own, other.value, key)|)
  {
    if other.None? then Ok(Outcome(node, Zero))
    else
      var (n, c) :- MemberInner(FieldMembers, own.member, other.value.member, key, node, Zero);
      var (n, c) := AddWarnings(n, c, FieldWarnings(own, other.value, key));
      Ok(Outcome(n, c))
  }

  /** What a field adds to its group: every TODO marker counts as an error
      in total but never in the TODO total, and no warning is negative. */
  predicate FieldDelta(c: Counters) {
    c.Todo == c.ErrorTotal && c.TodoTotal == 0 && c.Warning >= 0
  }

  function OtherFieldKeys(other: Option<FieldsData>): Option<Table<string, string>> {
    if other.Some? then Some(other.value.keys) else None
  }

  function FieldItem(own: FieldsData, other: Option<FieldsData>): (inner: (string, string, Node) -> Result<Outcome>)
    ensures forall k, v, n :: inner(k, v, n).Ok? ==> FieldDelta(inner(k, v, n).value.delta)
    ensures other.None? ==> forall k, v, n :: inner(k, v, n).Ok?
  {
    (k: string, v: string, n: Node) => FieldInner(own, other, k, v, n)
  }

  /** `XMLNameGroup.CompareTo` over two field groups. */
  function CompareFields(own: FieldsData, other: Option<FieldsData>, parent: Node): (r: Result<GroupOutcome>)
    ensures other.None? ==> r.Ok?
    ensures r.Ok? ==> FieldDelta(r.value.innerCounts) && ClassOnly(r.value.classCounts)
    ensures r.Ok? && Distinct(own.keys) && (other.Some? ==> Distinct(other.value.keys)) ==>
      r.value.classCounts == Zero.(
        Present := |Keys(own.keys) * OtherKeys(OtherFieldKeys(other))|,
        Missing := |Keys(own.keys) - OtherKeys(OtherFieldKeys(other))|,
        Extra := |OtherKeys(OtherFieldKeys(other)) - Keys(own.keys)|)
  {
    var inner := FieldItem(own, other);
    assert forall a, b {:trigger Plus(a, b)} :: FieldDelta(a) && FieldDelta(b) ==> FieldDelta(Plus(a, b));
    CompareGroupInner(FieldDelta, "fields", "field", own.keys, OtherFieldKeys(other), KeyName, inner, parent);
    CompareGroup("fields", "field", own.keys, OtherFieldKeys(other), KeyName, inner, parent)
  }
}
