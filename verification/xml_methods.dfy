/** The methods of a type (XMLMethods.cs), and with other names its
    constructors: a member group keyed by name, or, for operators, by
    return type and name. Each matched method is compared on its own fresh
    counters, which are then merged partial-to-partial into the group. */
module Methods {
  import opened Wrappers
  import opened Strings
  import opened Tables
  import opened XmlNodes
  import opened Counters
  import opened XmlData
  import opened NameGroup
  import opened Parameters
  import opened GenericGroup
  import opened Member

  /** The `[Flags]` enum `SignatureFlags`: Abstract = 1, Virtual = 2,
      Static = 4, Final = 8. */
  datatype SignatureFlags = SignatureFlags(isAbstract: bool, isVirtual: bool, isStatic: bool, isFinal: bool)

  const NoFlags := SignatureFlags(false, false, false, false)

  /** Each flag is set exactly when its attribute reads `true`. */
  function ReadFlags(n: Node): (r: SignatureFlags)
    ensures r.isAbstract <==> "abstract" in n.attrs && n.attrs["abstract"] == "true"
    ensures r.isVirtual <==> "virtual" in n.attrs && n.attrs["virtual"] == "true"
    ensures r.isStatic <==> "static" in n.attrs && n.attrs["static"] == "true"
    ensures r.isFinal <==> "final" in n.attrs && n.attrs["final"] == "true"
  {
    SignatureFlags(GetAttribute(n, "abstract") == "true", GetAttribute(n, "virtual") == "true",
                   GetAttribute(n, "static") == "true", GetAttribute(n, "final") == "true")
  }

  /** `Enum.ToString` of a flags value: the names of the set flags in
      ascending value order, separated by ", ". */
  function FlagsText(f: SignatureFlags): string {
    if f == NoFlags then "None"
    else Join((if f.isAbstract then ["Abstract"] else []) + (if f.isVirtual then ["Virtual"] else [])
              + (if f.isStatic then ["Static"] else []) + (if f.isFinal then ["Final"] else []), ", ")
  }

  /** The flags warning of `CompareToInner`. */
  function FlagsWarnings(flags: SignatureFlags, oflags: SignatureFlags): (r: seq<string>)
    ensures |r| == (if flags != oflags then 1 else 0)
    ensures flags != oflags && flags == NoFlags ==> r == ["should not be " + FlagsText(oflags)]
    ensures flags != oflags && oflags == NoFlags ==> r == ["should be " + FlagsText(flags)]
  {
    if flags == oflags then []
    else if flags == NoFlags then ["should not be " + FlagsText(oflags)]
    else if oflags == NoFlags then ["should be " + FlagsText(flags)]
    else [FlagsText(oflags) + " and should be " + FlagsText(flags)]
  }

  datatype MethodsData = MethodsData(
    keys: Table<string, string>,
    member: MemberBase,
    returnTypes: Table<string, string>,
    flags: Table<string, SignatureFlags>,
    parameters: Table<string, Table<string, ParameterData>>,
    constraints: Table<string, GenericGroupData>)

  /** A freshly constructed, never loaded group. */
  const NoMethods := MethodsData([], NoMember, [], [], [], [])

  /** `GetNodeKey`: an operator (`op_` name) is keyed by its return type,
      a space and its name, so conversion operators that differ only in
      return type stay apart; every other method by its name. */
  function MethodKey(name: string, n: Node): (r: string)
    ensures !StartsWith(name, "op_") ==> r == name
    ensures EndsWith(r, name)
  {
    if StartsWith(name, "op_") then
      var k := (if "returntype" in n.attrs then n.attrs["returntype"] + " " else "") + name;
      assert k[|k| - |name|..] == name;
      k
    else name
  }

  /** Two operators of one name and different return types get different keys. */
  lemma OperatorKeysDiffer(name: string, n: Node, n': Node)
    requires StartsWith(name, "op_")
    requires "returntype" in n.attrs && "returntype" in n'.attrs && n.attrs["returntype"] != n'.attrs["returntype"]
    ensures MethodKey(name, n) != MethodKey(name, n')
  {
    var a := n.attrs["returntype"] + " ";
    var b := n'.attrs["returntype"] + " ";
    assert MethodKey(name, n) == a + name && MethodKey(name, n') == b + name;
    assert a[..|a| - 1] == n.attrs["returntype"] && b[..|b| - 1] == n'.attrs["returntype"];
  }

  /** `XMLMethods.LoadExtraData` for the method stored under `key`: the
      return type when written, the flags when any is set, the
      `parameters` child and the `generic-method-constraints` child when
      present (both loaded, either may throw), then the member data. */
  function LoadMethodExtra(s: MethodsData, key: string, n: Node, cmp: (string, string) -> int): (r: Result<MethodsData>)
    ensures r.Ok? ==> r.value.keys == s.keys
    ensures r.Ok? && "returntype" in n.attrs ==> r.value.returnTypes == Put(s.returnTypes, key, n.attrs["returntype"])
    ensures r.Ok? && "returntype" !in n.attrs ==> r.value.returnTypes == s.returnTypes
    ensures r.Ok? && ReadFlags(n) != NoFlags ==> r.value.flags == Put(s.flags, key, ReadFlags(n))
    ensures r.Ok? && ReadFlags(n) == NoFlags ==> r.value.flags == s.flags
    ensures r.Ok? ==> (key in Keys(r.value.parameters) <==> key in Keys(s.parameters) || ChildNamed(n, "parameters").Some?)
  {
    var returnTypes := if "returntype" in n.attrs then Put(s.returnTypes, key, n.attrs["returntype"]) else s.returnTypes;
    var f := ReadFlags(n);
    var flags := if f != NoFlags then Put(s.flags, key, f) else s.flags;
    var parameters :-
      match ChildNamed(n, "parameters")
      case Some(p) =>
        var ps :- LoadParameters(p, cmp);
        Ok(Put(s.parameters, key, ps))
      case None => Ok(s.parameters);
    var constraints :-
      match ChildNamed(n, MethodConstraintsGroup)
      case Some(g) =>
        var cs :- LoadGenericGroup(g, MethodConstraintsGroup);
        Ok(Put(s.constraints, key, cs))
      case None => Ok(s.constraints);
    var member :- LoadMemberExtra(s.member, key, n, cmp);
    Ok(MethodsData(s.keys, member, returnTypes, flags, parameters, constraints))
  }

  /** Every stored flags value has some flag set. */
  ghost predicate FlagsStored(t: Table<string, SignatureFlags>) {
    forall i :: 0 <= i < |t| ==> t[i].value != NoFlags
  }

  function MethodStep(cmp: (string, string) -> int): (MethodsData, string, Node) -> Result<MethodsData> {
    (s: MethodsData, name: string, n: Node) =>
      var key := MethodKey(name, n);
      LoadMethodExtra(s.(keys := Put(s.keys, key, name)), key, n, cmp)
  }

  /** `XMLNameGroup.LoadData` with the methods' key and extra data. */
  function LoadMethods(node: Node, groupName: string, cmp: (string, string) -> int): (r: Result<MethodsData>)
    ensures node.name != groupName ==> r == Err(FormatException("Expecting <" + groupName + ">"))
  {
    LoadGroup(node, groupName, NoMethods, MethodStep(cmp))
  }

  /** Loading keeps the key table free of repeats and never stores empty flags. */
  lemma {:induction false} LoadedMethodsWellFormed(cs: seq<Node>, s: MethodsData, cmp: (string, string) -> int)
    requires Distinct(s.keys) && FlagsStored(s.flags)
    ensures var r := LoadChildren(cs, s, MethodStep(cmp));
      r.Ok? ==> Distinct(r.value.keys) && FlagsStored(r.value.flags)
    decreases |cs|
  {
    if |cs| > 0 && "name" in cs[0].attrs {
      var n := cs[0];
      var key := MethodKey(n.attrs["name"], n);
      var s' := MethodStep(cmp)(s, n.attrs["name"], n);
      if s'.Ok? {
        if ReadFlags(n) != NoFlags {
          PutFlagsStored(s.flags, key, ReadFlags(n));
        }
        LoadedMethodsWellFormed(cs[1..], s'.value, cmp);
      }
    }
  }

  lemma {:induction false} PutFlagsStored(t: Table<string, SignatureFlags>, k: string, f: SignatureFlags)
    requires FlagsStored(t) && f != NoFlags
    ensures FlagsStored(Put(t, k, f))
    decreases |t|
  {
    if |t| > 0 && t[0].key != k {
      PutFlagsStored(t[1..], k, f);
      assert Put(t, k, f) == [t[0]] + Put(t[1..], k, f);
    }
  }

  /** The `Final` flag is only ever read from a `final` attribute. */
  lemma FinalNeedsFinalAttribute(n: Node)
    requires "final" !in n.attrs
    ensures !ReadFlags(n).isFinal
  {
  }

  // ------------------------------------------------------------ comparing

  /** The return-type warning: only when this group recorded any return
      type, and the two sides' strings differ. */
  function ReturnTypeWarnings(own: MethodsData, other: MethodsData, key: string): (r: seq<string>)
    ensures |r| == (if |own.returnTypes| > 0 && Get(own.returnTypes, key) != Get(other.returnTypes, key) then 1 else 0)
  {
    var rtype := Get(own.returnTypes, key);
    var ortype := Get(other.returnTypes, key);
    if |own.returnTypes| > 0 && rtype != ortype then
      ["Return type is " + Member.Shown(ortype) + " and should be " + Member.Shown(rtype)]
    else []
  }

  /** The parameter comparison: only when this group recorded any
      parameters; this method's own entry is then dereferenced, and so is
      the other group's parameter table (each throws when missing). */
  function CompareMethodParameters(own: MethodsData, other: MethodsData, key: string, n: Node, c: Counters)
    : (r: Result<(Node, Counters)>)
    ensures |own.parameters| == 0 ==> r == Ok((n, c))
    ensures |own.parameters| > 0 ==>
      (r.Ok? <==> key in Keys(own.parameters) && |other.parameters| > 0)
    ensures r.Ok? && IsPartialDelta(c) ==> IsPartialDelta(r.value.1)
    ensures r.Ok? ==> r.value.1.Warning >= c.Warning
  {
    if |own.parameters| == 0 then Ok((n, c))
    else
      var p := Get(own.parameters, key);
      if p.None? || |other.parameters| == 0 then Err(NullReferenceException)
      else
        var g := CompareParameters(p.value, Get(other.parameters, key), n).value;
        MergesAreAdditions(c, g.Total());
        assert g.Total().Warning >= 0;
        Ok((g.parent, AddPartialToPartial(c, g.Total())))
  }

  /** The warnings `CompareToInner` raises itself, after the member comparison. */
  function MethodWarnings(own: MethodsData, other: MethodsData, key: string): (r: seq<string>)
    ensures |r| == |FlagsWarnings(Get(own.flags, key).GetOr(NoFlags), Get(other.flags, key).GetOr(NoFlags))|
                   + |ReturnTypeWarnings(own, other, key)|
  {
    FlagsWarnings(Get(own.flags, key).GetOr(NoFlags), Get(other.flags, key).GetOr(NoFlags))
    + ReturnTypeWarnings(own, other, key)
  }

  /** The body of `XMLMethods.CompareToInner` on fresh counters: the member
      comparison, the flags and return-type warnings, and the parameters. */
  function MethodChecks(own: MethodsData, other: MethodsData, key: string, node: Node): (r: Result<(Node, Counters)>)
    ensures r.Ok? ==> r.value.1.Warning >= |MethodWarnings(own, other, key)|
    ensures r.Ok? <==> AccessWarnings(MethodMembers, own.member, other.member, key).Ok?
                       && (|own.parameters| > 0 ==> key in Keys(own.parameters) && |other.parameters| > 0)
  {
    var (n, c) :- MemberInner(MethodMembers, own.member, other.member, key, node, Zero);
    var (n, c) := AddWarnings(n, c, MethodWarnings(own, other, key));
    CompareMethodParameters(own, other, key, n, c)
  }

  /** `XMLMethods.CompareToInner`: the checks run on fresh counters, which
      are written onto the method's element and then merged
      partial-to-partial into the group. */
  function MethodInner(own: MethodsData, other: Option<MethodsData>, key: string, v: string, node: Node): (r: Result<Outcome>)
    ensures other.None? ==> r == Ok(Outcome(node, Zero))
    ensures r.Ok? ==> WarnedPartialDelta(r.value.delta)
    ensures r.Ok? && other.Some? ==> r.value.delta.Warning >= |MethodWarnings(own, other.value, key)|
  {
    if other.None? then Ok(Outcome(node, Zero))
    else
      var (n, c) :- MethodChecks(own, other.value, key, node);
      Ok(Outcome(AddCountersAttributes(n, c), PartialDelta(c)))
  }

  /** A method with no attributes and no parameter groups on either side
      adds exactly its warnings, each counted partially and in total. */
  lemma PlainMethodCounts(own: MethodsData, other: MethodsData, key: string, node: Node)
    requires Get(own.member.attributeMap, key).None? && Get(other.member.attributeMap, key).None?
    requires |own.parameters| == 0
    requires MethodInner(own, Some(other), key, key, node).Ok?
    ensures var w := |AccessWarnings(MethodMembers, own.member, other.member, key).value|
                     + |MethodWarnings(own, other, key)|;
      MethodInner(own, Some(other), key, key, node).value.delta == Zero.(Warning := w, WarningTotal := w)
  {
  }

  function OtherMethodKeys(other: Option<MethodsData>): Option<Table<string, string>> {
    if other.Some? then Some(other.value.keys) else None
  }

  /** The per-item comparison `CompareMethods` hands to the group walk. */
  function MethodItem(own: MethodsData, other: Option<MethodsData>): (inner: (string, string, Node) -> Result<Outcome>)
    ensures forall k, v, n :: inner(k, v, n).Ok? ==> WarnedPartialDelta(inner(k, v, n).value.delta)
    ensures other.None? ==> forall k, v, n :: inner(k, v, n).Ok?
  {
    (k: string, v: string, n: Node) => MethodInner(own, other, k, v, n)
  }

  /** `XMLNameGroup.CompareTo` over two method groups. */
  function CompareMethods(groupName: string, itemName: string, own: MethodsData, other: Option<MethodsData>, parent: Node)
    : (r: Result<GroupOutcome>)
    ensures other.None? ==> r.Ok?
    ensures r.Ok? ==> WarnedPartialDelta(r.value.innerCounts) && ClassOnly(r.value.classCounts)
    ensures r.Ok? && Distinct(own.keys) && (other.Some? ==> Distinct(other.value.keys)) ==>
      r.value.classCounts == Zero.(
        Present := |Keys(own.keys) * OtherKeys(OtherMethodKeys(other))|,
        Missing := |Keys(own.keys) - OtherKeys(OtherMethodKeys(other))|,
        Extra := |OtherKeys(OtherMethodKeys(other)) - Keys(own.keys)|)
  {
    var inner := MethodItem(own, other);
    PartialDeltaClosed();
    CompareGroupInner(WarnedPartialDelta, groupName, itemName, own.keys, OtherMethodKeys(other), KeyName, inner, parent);
    CompareGroup(groupName, itemName, own.keys, OtherMethodKeys(other), KeyName, inner, parent)
  }
}
