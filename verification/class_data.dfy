/** The "class" element of the API description (`TypeData.DoOutput`): the
    type's attributes, its custom attributes, its public interfaces, its
    generic parameters, one group per kind of member, and its nested
    types, recursively. */
module ClassOutput {
  import opened Wrappers
  import opened Strings
  import opened Seqs
  import opened Sorting
  import opened Metadata
  import opened XmlNodes
  import opened Signatures
  import opened DefinitionComparers
  import opened TypeRules
  import opened MemberOutput

  /** The switches of the extractor that shape a type's element. */
  datatype Options = Options(abiMode: bool, fullApi: bool)

  // ------------------------------------------------------------ interfaces

  /** Interfaces are listed ordinal by full name. */
  function InterfaceOrder(a: TypeRef, b: TypeRef): int {
    NameOrder(a.FullName(), b.FullName())
  }

  lemma InterfaceOrderIsPreorder()
    ensures TotalPreorder(InterfaceOrder)
  {
    forall a: TypeRef, b: TypeRef, c: TypeRef | InterfaceOrder(a, b) <= 0 && InterfaceOrder(b, c) <= 0
      ensures InterfaceOrder(a, c) <= 0
    {
      NameOrderTransitive(a.FullName(), b.FullName(), c.FullName());
    }
  }

  /** The "interfaces" element, when the type has public interfaces: one
      "interface" per interface, by cleaned name. */
  function InterfacesNodes(t: TypeDef): (r: seq<Node>)
    ensures |r| <= 1
    ensures |r| == 1 <==> |t.publicInterfaces| > 0
  {
    var ifaces := Sort(t.publicInterfaces, InterfaceOrder);
    if |ifaces| == 0 then []
    else [Node("interfaces", map[], seq(|ifaces|, i requires 0 <= i < |ifaces| =>
      Node("interface", map["name" := CleanupTypeRef(ifaces[i])], [])))]
  }

  /** Every public interface is listed, once per occurrence, in ordinal
      order of full name. */
  lemma InterfacesListed(t: TypeDef)
    requires |t.publicInterfaces| > 0
    ensures var ifaces := Sort(t.publicInterfaces, InterfaceOrder);
      && multiset(ifaces) == multiset(t.publicInterfaces)
      && SortedBy(ifaces, InterfaceOrder)
      && |InterfacesNodes(t)[0].children| == |t.publicInterfaces|
      && forall i :: 0 <= i < |ifaces| ==> InterfacesNodes(t)[0].children[i].attrs["name"] == CleanupTypeRef(ifaces[i])
  {
    InterfaceOrderIsPreorder();
    SortSorted(t.publicInterfaces, InterfaceOrder);
  }

  // ------------------------------------------------------------ member groups

  /** A group element only when the group has members. */
  function GroupIf(n: Node): (r: seq<Node>)
    ensures |r| <= 1 && forall m :: m in r ==> m == n
  {
    if |n.children| == 0 then [] else [n]
  }

  predicate IsMemberGroup(n: Node) {
    n.name in {"fields", "constructors", "properties", "events", "methods"}
  }

  function SortedFields(t: TypeDef, o: Options): seq<FieldDef> {
    Sort(GetFields(t, o.abiMode), FieldOrder)
  }

  function SortedConstructors(t: TypeDef): seq<MethodDef> {
    Sort(GetConstructors(t), MethodOrder)
  }

  function SortedProperties(chain: seq<TypeDef>, o: Options): seq<PropertyDef>
    requires |chain| > 0
  {
    Sort(GetProperties(chain, o.fullApi), PropertyOrder)
  }

  function SortedEvents(t: TypeDef): seq<EventDef> {
    Sort(GetEvents(t), EventOrder)
  }

  function SortedMethods(chain: seq<TypeDef>, o: Options): seq<MethodDef>
    requires |chain| > 0
  {
    Sort(GetMethods(chain, o.fullApi), MethodOrder)
  }

  /** The member groups, in writing order: fields, then (outside ABI
      mode) constructors, properties, events and methods, each only when
      it has members. `chain` is the type followed by its resolved base
      types. */
  function MemberGroups(chain: seq<TypeDef>, o: Options): (r: seq<Node>)
    requires |chain| > 0
    ensures o.abiMode ==> r == GroupIf(FieldsNode(SortedFields(chain[0], o)))
  {
    var t := chain[0];
    var fields := GroupIf(FieldsNode(SortedFields(t, o)));
    if o.abiMode then fields
    else
      fields
      + GroupIf(MethodsNode(SortedConstructors(t), "constructors", "constructor", false))
      + GroupIf(PropertiesNode(SortedProperties(chain, o)))
      + GroupIf(EventsNode(SortedEvents(t)))
      + GroupIf(MethodsNode(SortedMethods(chain, o), "methods", "method", false))
  }

  /** Only member groups are written among the member groups, fields
      first. */
  lemma MemberGroupNames(chain: seq<TypeDef>, o: Options)
    requires |chain| > 0
    ensures forall n :: n in MemberGroups(chain, o) ==> IsMemberGroup(n)
  {
    var t := chain[0];
    var a := GroupIf(FieldsNode(SortedFields(t, o)));
    GroupIfMember(FieldsNode(SortedFields(t, o)));
    if !o.abiMode {
      var b := GroupIf(MethodsNode(SortedConstructors(t), "constructors", "constructor", false));
      var c := GroupIf(PropertiesNode(SortedProperties(chain, o)));
      var d := GroupIf(EventsNode(SortedEvents(t)));
      var e := GroupIf(MethodsNode(SortedMethods(chain, o), "methods", "method", false));
      GroupIfMember(MethodsNode(SortedConstructors(t), "constructors", "constructor", false));
      GroupIfMember(PropertiesNode(SortedProperties(chain, o)));
      GroupIfMember(EventsNode(SortedEvents(t)));
      GroupIfMember(MethodsNode(SortedMethods(chain, o), "methods", "method", false));
      assert MemberGroups(chain, o) == a + b + c + d + e;
    }
  }

  lemma GroupIfMember(n: Node)
    requires IsMemberGroup(n)
    ensures forall m :: m in GroupIf(n) ==> IsMemberGroup(m)
  {
  }

  /** The described fields come out ordered by name, each group holding
      exactly its selected members. */
  lemma FieldsGroupSpec(t: TypeDef, o: Options)
    ensures multiset(SortedFields(t, o)) == multiset(GetFields(t, o.abiMode))
    ensures SortedBy(SortedFields(t, o), FieldOrder)
  {
    MemberOrdersArePreorders();
    SortSorted(GetFields(t, o.abiMode), FieldOrder);
  }

  /** The described properties come out in `PropertyDefinitionComparer`
      order, the group holding exactly the selected properties. */
  lemma PropertiesGroupSorted(chain: seq<TypeDef>, o: Options)
    requires |chain| > 0
    ensures multiset(SortedProperties(chain, o)) == multiset(GetProperties(chain, o.fullApi))
    ensures SortedBy(SortedProperties(chain, o), PropertyOrder)
  {
    PropertyOrderIsPreorder();
    SortSorted(GetProperties(chain, o.fullApi), PropertyOrder);
  }

  /** The described events come out ordered by name, the group holding
      exactly the type's selected events. */
  lemma EventsGroupSorted(t: TypeDef)
    ensures multiset(SortedEvents(t)) == multiset(GetEvents(t))
    ensures SortedBy(SortedEvents(t), EventOrder)
  {
    MemberOrdersArePreorders();
    SortSorted(GetEvents(t), EventOrder);
  }

  /** Methods and constructors come out in `MethodDefinitionComparer`
      order. */
  lemma MethodGroupsSorted(chain: seq<TypeDef>, o: Options)
    requires |chain| > 0
    ensures SortedBy(SortedConstructors(chain[0]), MethodOrder)
    ensures SortedBy(SortedMethods(chain, o), MethodOrder)
  {
    MethodOrderIsPreorder();
    SortSorted(GetConstructors(chain[0]), MethodOrder);
    SortSorted(GetMethods(chain, o.fullApi), MethodOrder);
  }

  // ------------------------------------------------------------ the element

  /** `TypeData.DoOutput`. `bases` gives the resolved base types of a type
      (the `TypeHelper` walk); the type's own element is the class
      attributes, then its custom attributes, interfaces, generic
      parameters, member groups, and a "classes" element for the kept
      nested types, each written the same way. An enum without a
      `value__` field aborts the output. */
  function ClassNode(t: TypeDef, bases: TypeDef -> seq<TypeDef>, o: Options): (r: Result<Node>)
    ensures r.Ok? ==> r.value.name == "class" && ClassAttributes(t).Ok? && r.value.attrs == ClassAttributes(t).value
    ensures ClassAttributes(t).Err? ==> r.Err?
    decreases t
  {
    var attrs :- ClassAttributes(t);
    var nested := NestedTypes(t);
    var nestedNodes :- MapAll(nested, n requires n in nested => ClassNode(n, bases, o));
    Ok(Node("class", attrs, LeadingChildren(t, bases, o) + (if |nested| == 0 then [] else [Node("classes", map[], nestedNodes)])))
  }

  /** The children written before the nested types. */
  function LeadingChildren(t: TypeDef, bases: TypeDef -> seq<TypeDef>, o: Options): seq<Node> {
    AttributesChild([t.customAttributes]) + InterfacesNodes(t) + GenericParametersNodes(t.genericParameters) +
      MemberGroups([t] + bases(t), o)
  }

  /** In ABI mode only fields are described: no constructors, properties,
      events or methods group is written. */
  lemma AbiModeOnlyFields(t: TypeDef, bases: TypeDef -> seq<TypeDef>, o: Options)
    requires o.abiMode
    ensures forall n :: n in MemberGroups([t] + bases(t), o) ==> n.name == "fields"
  {
    var a := GroupIf(FieldsNode(SortedFields(t, o)));
    assert forall n :: n in a ==> n.name == "fields";
  }

  /** A generic type's "generic-parameters" element is written before all
      of its member groups and nested types. The diff's class loader stops
      at that element, so it never reads a generic type's members or
      nested types. */
  lemma GenericParametersPrecedeMembers(t: TypeDef, bases: TypeDef -> seq<TypeDef>, o: Options)
    requires |t.genericParameters| > 0
    ensures var h := LeadingChildren(t, bases, o);
      var g := |AttributesChild([t.customAttributes]) + InterfacesNodes(t)|;
      && g < |h| && h[g].name == "generic-parameters"
      && forall j :: g < j < |h| ==> IsMemberGroup(h[j])
  {
    var pre := AttributesChild([t.customAttributes]) + InterfacesNodes(t);
    var groups := MemberGroups([t] + bases(t), o);
    var h := LeadingChildren(t, bases, o);
    assert h == pre + GenericParametersNodes(t.genericParameters) + groups;
    MemberGroupNames([t] + bases(t), o);
    forall j | |pre| < j < |h|
      ensures IsMemberGroup(h[j])
    {
      assert h[j] == groups[j - |pre| - 1];
    }
  }

  /** Nested types are written in `TypeReferenceComparer` order, exactly
      the kept ones. */
  lemma NestedClassesWritten(t: TypeDef, bases: TypeDef -> seq<TypeDef>, o: Options)
    requires ClassNode(t, bases, o).Ok?
    ensures var n := ClassNode(t, bases, o).value;
      var nested := NestedTypes(t);
      var h := LeadingChildren(t, bases, o);
      && |n.children| == |h| + (if |nested| == 0 then 0 else 1)
      && (|nested| > 0 ==>
            && n.children[|h|].name == "classes"
            && |n.children[|h|].children| == |nested|
            && forall i :: 0 <= i < |nested| ==> ClassNode(nested[i], bases, o) == Ok(n.children[|h|].children[i]))
  {
  }

  /** A nested type whose element cannot be written aborts the output of
      the type that contains it. */
  lemma NestedFailureAborts(t: TypeDef, bases: TypeDef -> seq<TypeDef>, o: Options, i: nat)
    requires i < |NestedTypes(t)|
    requires ClassNode(NestedTypes(t)[i], bases, o).Err?
    ensures ClassNode(t, bases, o).Err?
  {
  }
}
