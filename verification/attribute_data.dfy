/** The "attributes" element of the API description (AttributeData.cs and
    TypeForwardedToData.cs): which custom attributes are written, in what
    order, how their property values are rendered, and the type-forwarder
    entries written for an assembly. */
module AttributeOutput {
  import opened Wrappers
  import opened Strings
  import opened Seqs
  import opened Sorting
  import opened Tables
  import opened Metadata
  import opened TypeNames
  import opened XmlNodes
  import opened DefinitionComparers
  import opened AttributeValues

  // ------------------------------------------------------------ selection

  const TodoSuffix := "TODOAttribute"

  /** `SkipAttribute`: attributes of a non-public type, and those whose
      type name ends in "TODOAttribute", are not written. */
  predicate Skipped(a: CustomAttr) {
    !a.isPublic || EndsWith(a.typeName, TodoSuffix)
  }

  predicate Kept(a: CustomAttr) {
    !Skipped(a)
  }

  /** The order the attributes are written in: ordinal by the full name
      of the attribute type. */
  function AttributeOrder(a: CustomAttr, b: CustomAttr): (r: int)
    ensures r == 0 <==> a.typeFullName == b.typeFullName
  {
    NameOrder(a.typeFullName, b.typeFullName)
  }

  lemma AttributeOrderIsPreorder()
    ensures TotalPreorder(AttributeOrder)
  {
    forall a: CustomAttr, b: CustomAttr ensures AttributeOrder(a, b) <= 0 || AttributeOrder(b, a) <= 0 {
      OrdinalAntisymmetric(a.typeFullName, b.typeFullName);
    }
    forall a: CustomAttr, b: CustomAttr, c: CustomAttr | AttributeOrder(a, b) <= 0 && AttributeOrder(b, c) <= 0
      ensures AttributeOrder(a, c) <= 0
    {
      NameOrderTransitive(a.typeFullName, b.typeFullName, c.typeFullName);
    }
  }

  /** The attributes of one provider that are written, in writing order:
      the kept ones, stably ordered by type full name (`OrderBy` is
      stable, so attributes of the same type keep their order). */
  function WrittenAttributes(attrs: seq<CustomAttr>): seq<CustomAttr> {
    Sort(Filter(attrs, Kept), AttributeOrder)
  }

  /** Exactly the kept attributes are written, each as often as it occurs,
      ordered by type full name. */
  lemma WrittenAttributesSpec(attrs: seq<CustomAttr>)
    ensures multiset(WrittenAttributes(attrs)) == multiset(Filter(attrs, Kept))
    ensures forall a :: a in WrittenAttributes(attrs) <==> a in attrs && Kept(a)
    ensures SortedBy(WrittenAttributes(attrs), AttributeOrder)
  {
    var kept := Filter(attrs, Kept);
    AttributeOrderIsPreorder();
    SortSorted(kept, AttributeOrder);
    forall a ensures a in WrittenAttributes(attrs) <==> a in kept {
      assert a in WrittenAttributes(attrs) <==> a in multiset(WrittenAttributes(attrs));
      assert a in kept <==> a in multiset(kept);
    }
  }

  // ------------------------------------------------------------ rendering

  const GuidSuffix := "GuidAttribute"

  /** The text written for a property value: "null" for a null value;
      otherwise the value's text, upper-cased when the attribute's cleaned
      name ends in "GuidAttribute". */
  function PropertyValueText(value: Option<string>, guid: bool): (r: string)
    ensures value.None? ==> r == "null"
    ensures value.Some? && !guid ==> r == value.value
    ensures value.Some? && guid ==>
      |r| == |value.value| && forall i :: 0 <= i < |r| ==> r[i] == UpperAscii(value.value[i])
  {
    match value
    case None => "null"
    case Some(s) => if guid then ToUpperAscii(s) else s
  }

  /** The properties written: every mapped property except "TypeId". */
  function ShownProperties(mapping: seq<(string, Option<string>)>): (r: seq<(string, Option<string>)>)
    ensures forall i :: 0 <= i < |r| ==> r[i].0 != "TypeId"
    ensures forall p :: p in r <==> p in mapping && p.0 != "TypeId"
  {
    Filter(mapping, (p: (string, Option<string>)) => p.0 != "TypeId")
  }

  function PropertyNode(p: (string, Option<string>), guid: bool): Node {
    Node("property", map["name" := p.0, "value" := PropertyValueText(p.1, guid)], [])
  }

  /** One "attribute" element: the cleaned type name, and a "properties"
      child only when the mapping exists and shows at least one property. */
  function AttributeNode(a: CustomAttr): (r: Node)
    ensures r.name == "attribute"
    ensures r.attrs == map["name" := CleanupTypeName(a.typeFullName)]
    ensures |r.children| == 0 <==> a.mapping.None? || |ShownProperties(a.mapping.value)| == 0
    ensures |r.children| > 0 ==>
      |r.children| == 1 && r.children[0].name == "properties" &&
      |r.children[0].children| == |ShownProperties(a.mapping.value)|
  {
    var name := CleanupTypeName(a.typeFullName);
    var guid := EndsWith(name, GuidSuffix);
    var shown := if a.mapping.Some? then ShownProperties(a.mapping.value) else [];
    var props := seq(|shown|, i requires 0 <= i < |shown| => PropertyNode(shown[i], guid));
    Node("attribute", map["name" := name], if |shown| == 0 then [] else [Node("properties", map[], props)])
  }

  /** Each written property carries its name and its rendered value; a
      null value and the string "null" are written alike. */
  lemma AttributePropertiesSpec(a: CustomAttr, i: nat)
    requires a.mapping.Some? && i < |ShownProperties(a.mapping.value)|
    ensures var p := ShownProperties(a.mapping.value)[i];
      var n := AttributeNode(a).children[0].children[i];
      n.name == "property" && p.0 != "TypeId" && GetAttribute(n, "name") == p.0 &&
      GetAttribute(n, "value") == PropertyValueText(p.1, EndsWith(CleanupTypeName(a.typeFullName), GuidSuffix))
    ensures PropertyValueText(None, false) == PropertyValueText(Some("null"), false)
  {
    var guid := EndsWith(CleanupTypeName(a.typeFullName), GuidSuffix);
    var shown := ShownProperties(a.mapping.value);
    assert AttributeNode(a).children[0].children[i] == PropertyNode(shown[i], guid);
  }

  /** The property table of a mapping, as the output reads it: each
      property's name with the text of its value (None for a null value). */
  function RenderedMapping(m: Option<Table<string, Value>>): (r: Option<seq<(string, Option<string>)>>)
    ensures r.None? <==> m.None?
    ensures m.Some? ==> |r.value| == |m.value|
    ensures m.Some? ==> forall i :: 0 <= i < |m.value| ==>
      r.value[i].0 == m.value[i].key && r.value[i].1 == ValueText(m.value[i].value)
  {
    if m.None? then None
    else Some(seq(|m.value|, i requires 0 <= i < |m.value| => (m.value[i].key, ValueText(m.value[i].value))))
  }

  /** An attribute instance as the output reads it; an exception while
      building its mapping aborts the output. */
  function ReadAttribute(typeName: string, typeFullName: string, isPublic: bool, inst: AttrInstance)
    : (r: Result<CustomAttr>)
    ensures r.Err? <==> CreateAttributeMapping(inst).Err?
    ensures r.Ok? ==>
      r.value.typeFullName == typeFullName && r.value.isPublic == isPublic &&
      r.value.mapping == RenderedMapping(CreateAttributeMapping(inst).value)
    ensures !inst.resolved ==> r.Ok? && r.value.mapping.None?
  {
    var m :- CreateAttributeMapping(inst);
    Ok(CustomAttr(typeName, typeFullName, isPublic, RenderedMapping(m)))
  }

  // ------------------------------------------------------------ forwarders

  const TypeForwardedToAttributeName := "System.Runtime.CompilerServices.TypeForwardedToAttribute"

  /** An exported-type row that is a forwarder. */
  predicate IsForwarder(t: ExportedType) {
    t.attributes & TypeForwarder != 0
  }

  /** The element `TypeForwardedToData` writes for one forwarded type: a
      `TypeForwardedToAttribute` whose one property, "Destination", holds
      the cleaned full name of the type. */
  function ForwarderNode(t: ExportedType): Node {
    var property := Node("property", map["name" := "Destination", "value" := CleanupTypeName(t.fullName)], []);
    Node("attribute", map["name" := TypeForwardedToAttributeName], [Node("properties", map[], [property])])
  }

  /** One element per forwarder row, in table order. */
  function ForwarderNodes(ts: seq<ExportedType>): (r: seq<Node>)
    ensures |r| == |Filter(ts, IsForwarder)|
    ensures forall i :: 0 <= i < |r| ==> r[i] == ForwarderNode(Filter(ts, IsForwarder)[i])
  {
    var fs := Filter(ts, IsForwarder);
    seq(|fs|, i requires 0 <= i < |fs| => ForwarderNode(fs[i]))
  }

  /** A forwarder element reads like any other written attribute, so the
      diff compares forwarders as attributes; its destination names a
      forwarder row of the table. */
  lemma ForwarderNodesSpec(ts: seq<ExportedType>, i: nat)
    requires i < |ForwarderNodes(ts)|
    ensures var n := ForwarderNodes(ts)[i];
      n.name == "attribute" && n.attrs["name"] == TypeForwardedToAttributeName &&
      |n.children| == 1 && |n.children[0].children| == 1 &&
      n.children[0].children[0].attrs["name"] == "Destination" &&
      exists t :: t in ts && IsForwarder(t) && n.children[0].children[0].attrs["value"] == CleanupTypeName(t.fullName)
  {
    var fs := Filter(ts, IsForwarder);
    assert fs[i] in fs;
  }

  // ------------------------------------------------------------ the element

  /** A custom-attribute provider: its attributes and, for an assembly,
      the exported-type table of its main module. */
  datatype Provider = Provider(customAttributes: seq<CustomAttr>, exportedTypes: Option<seq<ExportedType>>)

  /** A provider that is present and has custom attributes. */
  predicate HasAttributes(p: Option<Provider>) {
    p.Some? && |p.value.customAttributes| > 0
  }

  /** What one provider contributes: for an assembly, unless forwarders
      are followed, its forwarders first; then its written attributes. */
  function ProviderNodes(p: Provider, followForwarders: bool): (r: seq<Node>)
    ensures |r| == (if p.exportedTypes.Some? && !followForwarders then |Filter(p.exportedTypes.value, IsForwarder)| else 0) +
      |Filter(p.customAttributes, Kept)|
  {
    var written := WrittenAttributes(p.customAttributes);
    var forwarders := if p.exportedTypes.Some? && !followForwarders then ForwarderNodes(p.exportedTypes.value) else [];
    assert |written| == |Filter(p.customAttributes, Kept)| by {
      WrittenAttributesSpec(p.customAttributes);
    }
    forwarders + seq(|written|, i requires 0 <= i < |written| => AttributeNode(written[i]))
  }

  /** The children of "attributes": the contributions of the providers
      that are present and have custom attributes, in provider order. */
  function ProvidersNodes(ps: seq<Option<Provider>>, followForwarders: bool): (r: seq<Node>)
    ensures (forall i :: 0 <= i < |ps| ==> !HasAttributes(ps[i])) ==> r == []
  {
    if |ps| == 0 then []
    else
      var own := if HasAttributes(ps[0]) then ProviderNodes(ps[0].value, followForwarders) else [];
      own + ProvidersNodes(ps[1..], followForwarders)
  }

  /** `AttributeData.DoOutput`: an "attributes" element exactly when some
      provider is present and has custom attributes, even if every one of
      them is then skipped. */
  function AttributesElement(ps: seq<Option<Provider>>, followForwarders: bool): (r: Option<Node>)
    ensures r.Some? <==> exists i :: 0 <= i < |ps| && HasAttributes(ps[i])
    ensures r.Some? ==> r.value.name == "attributes" && r.value.attrs == map[]
  {
    if exists i :: 0 <= i < |ps| && HasAttributes(ps[i]) then Some(Node("attributes", map[], ProvidersNodes(ps, followForwarders)))
    else None
  }

  /** Every child of the element is an "attribute" element. */
  lemma {:induction false} ProvidersNodesAreAttributes(ps: seq<Option<Provider>>, followForwarders: bool)
    ensures forall n :: n in ProvidersNodes(ps, followForwarders) ==> n.name == "attribute"
    decreases |ps|
  {
    if |ps| > 0 {
      ProvidersNodesAreAttributes(ps[1..], followForwarders);
      if HasAttributes(ps[0]) {
        ProviderNodesAreAttributes(ps[0].value, followForwarders);
      }
    }
  }

  lemma ProviderNodesAreAttributes(p: Provider, followForwarders: bool)
    ensures forall n :: n in ProviderNodes(p, followForwarders) ==> n.name == "attribute"
  {
    var written := WrittenAttributes(p.customAttributes);
    var forwarders := if p.exportedTypes.Some? && !followForwarders then ForwarderNodes(p.exportedTypes.value) else [];
    assert ProviderNodes(p, followForwarders) ==
      forwarders + seq(|written|, i requires 0 <= i < |written| => AttributeNode(written[i]));
  }

  /** An element whose every attribute is skipped is still written, empty,
      when no assembly forwarders are written either. */
  lemma {:induction false} AllSkippedGivesEmptyElement(ps: seq<Option<Provider>>, followForwarders: bool)
    requires forall i :: 0 <= i < |ps| && ps[i].Some? ==>
      (forall j :: 0 <= j < |ps[i].value.customAttributes| ==> Skipped(ps[i].value.customAttributes[j])) &&
      (ps[i].value.exportedTypes.None? || followForwarders)
    ensures ProvidersNodes(ps, followForwarders) == []
    decreases |ps|
  {
    if |ps| > 0 {
      AllSkippedGivesEmptyElement(ps[1..], followForwarders);
      if HasAttributes(ps[0]) {
        FilterKeepsNone(ps[0].value.customAttributes, Kept);
      }
    }
  }
}
