/** The member groups of the API description (MemberData.cs and its
    subclasses MethodData, ConstructorData, PropertyData, FieldData,
    EventData, and ParameterData): one element per member, in input order,
    inside one group element, each carrying its name, its access flags,
    the attributes its kind adds, its custom attributes and its nested
    data. */
module MemberOutput {
  import opened Wrappers
  import opened Strings
  import opened Metadata
  import opened TypeNames
  import opened XmlNodes
  import opened Signatures
  import opened TypeRules
  import opened AttributeOutput
  import Methods
  import Parameters
  import Properties

  /** `((int)flags).ToString()`: the flags word as a signed decimal. */
  function FlagsText(x: bv32): string {
    IntToString(FlagsToInt(x))
  }

  /** The "attributes" child of a member: the custom attributes of the
      member and of its additional provider, when any of them has some.
      No member is an assembly, so no forwarders are written here. */
  function AttributesChild(attrSets: seq<seq<CustomAttr>>): (r: seq<Node>)
    ensures |r| <= 1
    ensures |r| == 1 <==> exists i :: 0 <= i < |attrSets| && |attrSets[i]| > 0
    ensures |r| == 1 ==> r[0].name == "attributes"
  {
    var ps := seq(|attrSets|, i requires 0 <= i < |attrSets| => Some(Provider(attrSets[i], None)));
    assert forall i :: 0 <= i < |attrSets| ==> (HasAttributes(ps[i]) <==> |attrSets[i]| > 0);
    match AttributesElement(ps, false)
    case None => []
    case Some(n) => [n]
  }

  // ------------------------------------------------------------ generic parameters

  function ConstraintNode(t: TypeRef): Node {
    Node("generic-parameter-constraint", map["name" := CleanupTypeRef(t)], [])
  }

  /** One "generic-parameter": its name and flags, its custom attributes,
      and a constraints element only when it has constraints. */
  function GenericParameterNode(gp: GenericParam): (r: Node)
    ensures r.name == "generic-parameter"
    ensures r.attrs == map["name" := gp.name, "attributes" := FlagsText(gp.attributes)]
  {
    var cs := gp.constraints;
    var constraints := seq(|cs|, i requires 0 <= i < |cs| => ConstraintNode(cs[i]));
    Node("generic-parameter", map["name" := gp.name, "attributes" := FlagsText(gp.attributes)],
      AttributesChild([gp.customAttributes]) +
      (if |cs| == 0 then [] else [Node("generic-parameter-constraints", map[], constraints)]))
  }

  /** `OutputGenericParameters`: nothing for a provider without generic
      parameters, else one "generic-parameters" element holding one
      element per parameter, in order. */
  function GenericParametersNodes(gps: seq<GenericParam>): (r: seq<Node>)
    ensures |r| == 0 <==> |gps| == 0
    ensures |r| <= 1
    ensures |r| == 1 ==> r[0].name == "generic-parameters" && |r[0].children| == |gps|
    ensures |r| == 1 ==> forall i :: 0 <= i < |gps| ==> r[0].children[i] == GenericParameterNode(gps[i])
  {
    if |gps| == 0 then []
    else [Node("generic-parameters", map[], seq(|gps|, i requires 0 <= i < |gps| => GenericParameterNode(gps[i])))]
  }

  /** The constraints element lists every constraint, cleaned, in order,
      and appears exactly when there is a constraint. */
  lemma GenericParameterConstraints(gp: GenericParam)
    ensures var n := GenericParameterNode(gp);
      var k := |AttributesChild([gp.customAttributes])|;
      && (|n.children| == k + (if |gp.constraints| == 0 then 0 else 1))
      && (|gp.constraints| > 0 ==>
            var c := n.children[k];
            c.name == "generic-parameter-constraints" && |c.children| == |gp.constraints| &&
            forall i :: 0 <= i < |gp.constraints| ==>
              c.children[i].attrs["name"] == CleanupTypeRef(gp.constraints[i]) &&
              !HasCleanupChar(c.children[i].attrs["name"]))
  {
    forall i | 0 <= i < |gp.constraints|
      ensures !HasCleanupChar(CleanupTypeRef(gp.constraints[i]))
    {
      CleanupIdempotent(gp.constraints[i].FullName());
    }
  }

  // ------------------------------------------------------------ parameters

  /** The direction of a parameter: "this" for the first parameter of an
      extension method, otherwise "in"; a by-reference parameter is "out"
      when it has the Out flag and "ref" otherwise. */
  function Direction(p: ParamDef, first: bool, hasExtension: bool): (r: string)
    ensures p.paramType.isByReference <==> r == "out" || r == "ref"
    ensures r == "this" <==> !p.paramType.isByReference && first && hasExtension
  {
    if p.paramType.isByReference then (if p.IsOut() then "out" else "ref")
    else if first && hasExtension then "this" else "in"
  }

  /** The `defaultValue` text: "NULL" for a null constant. */
  function DefaultText(c: Option<string>): string {
    if c.None? then "NULL" else c.value
  }

  /** The facts the attributes of one "parameter" element are written
      from. */
  datatype ParamFacts = ParamFacts(
    name: string, position: int, attrib: string, ptype: string,
    optional: bool, defaultValue: Option<string>, direction: string)

  function ParamFactsOf(p: ParamDef, position: nat, hasExtension: bool): ParamFacts {
    ParamFacts(p.name, position, FlagsText(p.attributes), CleanupTypeName(p.paramType.elementFullName),
      p.IsOptional(), if p.IsOptional() && p.constant.Some? then Some(DefaultText(p.constant.value)) else None,
      Direction(p, position == 0, hasExtension))
  }

  function ParamAttributes(f: ParamFacts): map<string, string> {
    var m := map["name" := f.name, "position" := IntToString(f.position), "attrib" := f.attrib, "type" := f.ptype];
    var m := PutIf(m, f.optional, "optional", "true");
    var m := PutIf(m, f.defaultValue.Some?, "defaultValue", f.defaultValue.GetOr(""));
    PutIf(m, f.direction != "in", "direction", f.direction)
  }

  lemma ParamAttributesRequired(f: ParamFacts)
    ensures var a := ParamAttributes(f);
      && "name" in a && a["name"] == f.name && "type" in a && a["type"] == f.ptype
      && "attrib" in a && a["attrib"] == f.attrib
      && "position" in a && a["position"] == IntToString(f.position)
  {
  }

  lemma ParamAttributesOptional(f: ParamFacts)
    ensures var a := ParamAttributes(f);
      && ("optional" in a <==> f.optional) && ("optional" in a ==> a["optional"] == "true")
      && Attr(Node("parameter", a, []), "defaultValue") == f.defaultValue
      && Attr(Node("parameter", a, []), "direction") == (if f.direction == "in" then None else Some(f.direction))
      && "unsafe" !in a
  {
  }

  /** One "parameter" element: name, position, flags, the (element) type,
      optional and default value, the direction unless it is "in", and
      the parameter's custom attributes. */
  function ParameterNode(p: ParamDef, position: nat, hasExtension: bool): (r: Node)
    ensures r.name == "parameter"
  {
    Node("parameter", ParamAttributes(ParamFactsOf(p, position, hasExtension)), AttributesChild([p.customAttributes]))
  }

  /** `ParameterData.DoOutput`: one element per parameter, in order, its
      position being its index. */
  function ParametersNode(ps: seq<ParamDef>, hasExtension: bool): (r: Node)
    ensures r.name == "parameters" && |r.children| == |ps|
    ensures forall i :: 0 <= i < |ps| ==> r.children[i] == ParameterNode(ps[i], i, hasExtension)
  {
    Node("parameters", map[], seq(|ps|, i requires 0 <= i < |ps| => ParameterNode(ps[i], i, hasExtension)))
  }

  /** The attributes of a written parameter, as the diff looks them up. */
  lemma ParameterNodeFacts(p: ParamDef, position: nat, hasExtension: bool)
    ensures var n := ParameterNode(p, position, hasExtension);
      var f := ParamFactsOf(p, position, hasExtension);
      && Attr(n, "name") == Some(p.name) && Attr(n, "type") == Some(f.ptype) && Attr(n, "attrib") == Some(f.attrib)
      && Attr(n, "direction") == (if f.direction == "in" then None else Some(f.direction))
      && Attr(n, "defaultValue") == f.defaultValue
      && Parameters.OptionalBool(n, "optional") == Ok(f.optional)
      && Parameters.OptionalBool(n, "unsafe") == Ok(false)
  {
    var f := ParamFactsOf(p, position, hasExtension);
    ParamAttributesRequired(f);
    ParamAttributesOptional(f);
    ParseBoolRoundTrip(true);
  }

  /** A written parameter without custom attributes always loads. */
  lemma ParameterLoads(p: ParamDef, position: nat, hasExtension: bool, cmp: (string, string) -> int)
    requires |p.customAttributes| == 0
    ensures Parameters.LoadParameter(ParameterNode(p, position, hasExtension), cmp).Ok?
  {
    ParameterNodeFacts(p, position, hasExtension);
  }

  /** What the diff reads back from a written parameter: the name, the
      element type (so `ref T` and `T` share it and differ only in
      direction), the flags text, the direction unless "in", and a default
      value only for an optional parameter with a constant. */
  lemma ParameterReadBack(p: ParamDef, position: nat, hasExtension: bool, cmp: (string, string) -> int)
    requires Parameters.LoadParameter(ParameterNode(p, position, hasExtension), cmp).Ok?
    ensures var r := Parameters.LoadParameter(ParameterNode(p, position, hasExtension), cmp).value;
      var d := Direction(p, position == 0, hasExtension);
      && r.name == p.name
      && r.ptype == CleanupTypeName(p.paramType.elementFullName)
      && r.attrib == FlagsText(p.attributes)
      && r.direction == (if d == "in" then None else Some(d))
      && r.defaultValue == (if p.IsOptional() && p.constant.Some? then Some(DefaultText(p.constant.value)) else None)
  {
    ParameterNodeFacts(p, position, hasExtension);
  }

  /** The diff reads a written parameter as optional exactly when it is,
      and never as unsafe. */
  lemma ParameterFlagsReadBack(p: ParamDef, position: nat, hasExtension: bool, cmp: (string, string) -> int)
    requires Parameters.LoadParameter(ParameterNode(p, position, hasExtension), cmp).Ok?
    ensures var r := Parameters.LoadParameter(ParameterNode(p, position, hasExtension), cmp).value;
      r.isOptional == p.IsOptional() && !r.isUnsafe
  {
    ParameterNodeFacts(p, position, hasExtension);
  }

  // ------------------------------------------------------------ methods

  const ExtensionAttributeName := "System.Runtime.CompilerServices.ExtensionAttribute"
  const VoidName := "System.Void"

  /** Whether the first parameter is written with direction "this": any
      custom attribute of the method, public or not, of type
      `ExtensionAttribute`. */
  predicate HasExtensionParameter(m: MethodDef) {
    exists i :: 0 <= i < |m.customAttributes| && m.customAttributes[i].typeFullName == ExtensionAttributeName
  }

  /** `MethodData.GetName`: the name and the parenthesised signature. */
  function MethodName(m: MethodDef): (r: string)
    ensures StartsWith(r, m.name + "(") && EndsWith(r, ")")
    ensures |r| == |m.name| + |GetSignature(m.parameters)| + 2
  {
    var r := m.name + "(" + GetSignature(m.parameters) + ")";
    assert r[..|m.name| + 1] == m.name + "(";
    r
  }

  /** The facts a method element's attributes are written from. */
  datatype MethodFacts = MethodFacts(
    name: string, attrib: Option<string>, isAbstract: bool, isVirtual: bool, sealed: bool,
    isStatic: bool, isOverride: bool, returnType: Option<string>)

  function ReturnTypeText(m: MethodDef): string {
    CleanupTypeRef(m.returnType)
  }

  function MethodFactsOf(m: MethodDef, noMemberAttributes: bool): MethodFacts {
    var ret := ReturnTypeText(m);
    MethodFacts(MethodName(m), if noMemberAttributes then None else Some(FlagsText(m.attributes)),
      m.IsAbstract(), m.IsVirtual(), m.IsFinal() && m.IsVirtual() && m.IsReuseSlot(), m.IsStatic(),
      m.baseMethodDiffers, if ret != VoidName || !m.IsConstructor() then Some(ret) else None)
  }

  function MethodAttributes(f: MethodFacts): map<string, string> {
    var m := map["name" := f.name];
    var m := PutIf(m, f.attrib.Some?, "attrib", f.attrib.GetOr(""));
    var m := PutIf(m, f.isAbstract, "abstract", "true");
    var m := PutIf(m, f.isVirtual, "virtual", "true");
    var m := PutIf(m, f.sealed, "sealed", "true");
    var m := PutIf(m, f.isStatic, "static", "true");
    var m := PutIf(m, f.isOverride, "is-override", "true");
    PutIf(m, f.returnType.Some?, "returntype", f.returnType.GetOr(""))
  }

  lemma MethodAttributesHead(f: MethodFacts)
    ensures var a := MethodAttributes(f);
      && "name" in a && a["name"] == f.name
      && Attr(Node("method", a, []), "attrib") == f.attrib
      && Attr(Node("method", a, []), "returntype") == f.returnType
  {
  }

  lemma MethodAttributesFlags(f: MethodFacts)
    ensures var a := MethodAttributes(f);
      && ("abstract" in a <==> f.isAbstract) && ("virtual" in a <==> f.isVirtual)
      && ("sealed" in a <==> f.sealed) && ("static" in a <==> f.isStatic)
      && ("is-override" in a <==> f.isOverride) && "final" !in a
      && (forall k :: k in {"abstract", "virtual", "sealed", "static", "is-override"} && k in a ==> a[k] == "true")
  {
  }

  /** One method (or constructor) element: name, flags unless suppressed,
      the flag attributes, the return type, the custom attributes of the
      method and of its return value, the parameters, and the generic
      parameters. */
  function MethodNode(m: MethodDef, tag: string, noMemberAttributes: bool): (r: Node)
    ensures r.name == tag
    ensures var k := |AttributesChild([m.customAttributes, m.returnAttributes])|;
      |r.children| == k + 1 + |GenericParametersNodes(m.genericParameters)| &&
      r.children[k] == ParametersNode(m.parameters, HasExtensionParameter(m))
  {
    Node(tag, MethodAttributes(MethodFactsOf(m, noMemberAttributes)),
      AttributesChild([m.customAttributes, m.returnAttributes]) +
      [ParametersNode(m.parameters, HasExtensionParameter(m))] +
      GenericParametersNodes(m.genericParameters))
  }

  /** `MemberData.DoOutput` for methods ("methods"/"method") and
      constructors ("constructors"/"constructor"). */
  function MethodsNode(ms: seq<MethodDef>, parentTag: string, tag: string, noMemberAttributes: bool): (r: Node)
    ensures r.name == parentTag && r.attrs == map[] && |r.children| == |ms|
    ensures forall i :: 0 <= i < |ms| ==> r.children[i] == MethodNode(ms[i], tag, noMemberAttributes)
  {
    Node(parentTag, map[], seq(|ms|, i requires 0 <= i < |ms| => MethodNode(ms[i], tag, noMemberAttributes)))
  }

  /** Each written method is named by its name and signature and carries
      its flags as a decimal unless suppressed; the return type is left out
      exactly for a constructor returning `System.Void`. */
  lemma MethodNodeAttributes(m: MethodDef, tag: string, noMemberAttributes: bool)
    ensures var n := MethodNode(m, tag, noMemberAttributes);
      && GetAttribute(n, "name") == MethodName(m)
      && ("attrib" in n.attrs <==> !noMemberAttributes)
      && (!noMemberAttributes ==> n.attrs["attrib"] == FlagsText(m.attributes))
      && ("returntype" !in n.attrs <==> ReturnTypeText(m) == VoidName && m.IsConstructor())
      && ("returntype" in n.attrs ==> n.attrs["returntype"] == ReturnTypeText(m))
      && ("is-override" in n.attrs <==> m.baseMethodDiffers)
  {
    var f := MethodFactsOf(m, noMemberAttributes);
    MethodAttributesHead(f);
    MethodAttributesFlags(f);
    assert Attr(Node("method", MethodAttributes(f), []), "returntype") == Attr(MethodNode(m, tag, noMemberAttributes), "returntype");
  }

  /** The signature flags the diff reads from a written method are its
      abstract, virtual and static bits; `Final` is never among them, since
      the extractor writes "sealed" where the diff reads "final". */
  lemma MethodFlagsReadBack(m: MethodDef, tag: string, noMemberAttributes: bool)
    ensures Methods.ReadFlags(MethodNode(m, tag, noMemberAttributes)) ==
      Methods.SignatureFlags(m.IsAbstract(), m.IsVirtual(), m.IsStatic(), false)
  {
    MethodFlagAttributes(MethodFactsOf(m, noMemberAttributes));
  }

  lemma MethodFlagAttributes(f: MethodFacts)
    ensures var n := Node("method", MethodAttributes(f), []);
      && (GetAttribute(n, "abstract") == "true" <==> f.isAbstract)
      && (GetAttribute(n, "virtual") == "true" <==> f.isVirtual)
      && (GetAttribute(n, "static") == "true" <==> f.isStatic)
      && GetAttribute(n, "final") == ""
  {
    MethodAttributesFlags(f);
  }

  /** A final virtual method that reuses its slot is written "sealed". */
  lemma SealedIffFinalVirtualReuse(m: MethodDef, tag: string, noMemberAttributes: bool)
    ensures "sealed" in MethodNode(m, tag, noMemberAttributes).attrs <==> m.IsFinal() && m.IsVirtual() && m.IsReuseSlot()
  {
    MethodAttributesFlags(MethodFactsOf(m, noMemberAttributes));
  }

  // ------------------------------------------------------------ properties

  /** `PropertyData.GetMethods`: the documented accessors, getter first,
      or None when neither is documented; and whether the property has
      parameters (a documented getter, or a documented setter taking more
      than the value). */
  function AccessorMethods(p: PropertyDef): (r: (Option<seq<MethodDef>>, bool))
    ensures r.1 <==>
      (p.getMethod.Some? && MustDocumentMethod(p.getMethod.value)) ||
      (p.setMethod.Some? && MustDocumentMethod(p.setMethod.value) && |p.setMethod.value.parameters| > 1)
    ensures r.0.None? <==>
      !(p.getMethod.Some? && MustDocumentMethod(p.getMethod.value)) &&
      !(p.setMethod.Some? && MustDocumentMethod(p.setMethod.value))
    ensures r.0.Some? ==> 1 <= |r.0.value| <= 2
    ensures r.0.Some? ==> forall i :: 0 <= i < |r.0.value| ==>
      MustDocumentMethod(r.0.value[i]) && (Some(r.0.value[i]) == p.getMethod || Some(r.0.value[i]) == p.setMethod)
    ensures r.0.Some? && p.getMethod.Some? && MustDocumentMethod(p.getMethod.value) ==> r.0.value[0] == p.getMethod.value
  {
    var haveGet := p.getMethod.Some? && MustDocumentMethod(p.getMethod.value);
    var haveSet := p.setMethod.Some? && MustDocumentMethod(p.setMethod.value);
    var haveParameters := haveGet || (haveSet && |p.setMethod.value.parameters| > 1);
    if haveGet && haveSet then (Some([p.getMethod.value, p.setMethod.value]), haveParameters)
    else if haveGet then (Some([p.getMethod.value]), haveParameters)
    else if haveSet then (Some([p.setMethod.value]), haveParameters)
    else (None, haveParameters)
  }

  /** The "params" attribute: the signature of the first accessor's
      parameters, when the property has parameters and it is not empty. */
  function PropertyParams(p: PropertyDef): (r: Option<string>)
    ensures r.Some? ==> r.value != ""
  {
    var (methods, haveParameters) := AccessorMethods(p);
    if methods.Some? && haveParameters && GetSignature(methods.value[0].parameters) != "" then
      Some(GetSignature(methods.value[0].parameters))
    else None
  }

  function PropertyAttributes(p: PropertyDef): map<string, string> {
    var m := map["name" := p.name, "attrib" := FlagsText(p.attributes), "ptype" := CleanupTypeRef(p.propertyType)];
    PutIf(m, PropertyParams(p).Some?, "params", PropertyParams(p).GetOr(""))
  }

  /** One "property" element: name, flags, cleaned property type, the
      parameters, the custom attributes, and the documented accessors as a
      nested "methods" group. */
  function PropertyNode(p: PropertyDef): (r: Node)
    ensures r.name == "property"
    ensures var k := |AttributesChild([p.customAttributes])|;
      |r.children| == k + (if AccessorMethods(p).0.None? then 0 else 1)
  {
    var methods := AccessorMethods(p).0;
    Node("property", PropertyAttributes(p),
      AttributesChild([p.customAttributes]) +
      (if methods.None? then [] else [MethodsNode(methods.value, "methods", "method", false)]))
  }

  function PropertiesNode(ps: seq<PropertyDef>): (r: Node)
    ensures r.name == "properties" && r.attrs == map[] && |r.children| == |ps|
    ensures forall i :: 0 <= i < |ps| ==> r.children[i] == PropertyNode(ps[i])
  {
    Node("properties", map[], seq(|ps|, i requires 0 <= i < |ps| => PropertyNode(ps[i])))
  }

  /** The key the diff gives a written property is its name, its cleaned
      type and its parameter signature (empty when not written), joined by
      ':'; so a setter-only indexer's key includes the value parameter. */
  lemma PropertyKeyReadBack(p: PropertyDef)
    ensures Properties.PropertyKey(PropertyNode(p)) ==
      p.name + ":" + CleanupTypeRef(p.propertyType) + ":" + PropertyParams(p).GetOr("")
  {
    var n := PropertyNode(p);
    assert n.attrs == PropertyAttributes(p);
    PropertyAttributesRead(p);
    assert Properties.AttrOrEmpty(n, "name") == p.name;
    assert Properties.AttrOrEmpty(n, "ptype") == CleanupTypeRef(p.propertyType);
    assert Properties.AttrOrEmpty(n, "params") == PropertyParams(p).GetOr("");
  }

  /** The attributes of a property element hold its name and cleaned type,
      and its parameter signature exactly when there is one. */
  lemma PropertyAttributesRead(p: PropertyDef)
    ensures var a := PropertyAttributes(p);
      && "name" in a && a["name"] == p.name
      && "ptype" in a && a["ptype"] == CleanupTypeRef(p.propertyType)
      && ("params" in a <==> PropertyParams(p).Some?)
      && ("params" in a ==> a["params"] == PropertyParams(p).value)
  {
    PropertyAttributesOf(p.name, FlagsText(p.attributes), CleanupTypeRef(p.propertyType), PropertyParams(p));
  }

  /** The property attribute map, for any attribute values. */
  lemma PropertyAttributesOf(name: string, attrib: string, ptype: string, params: Option<string>)
    ensures var a := PutIf(map["name" := name, "attrib" := attrib, "ptype" := ptype], params.Some?, "params", params.GetOr(""));
      && "name" in a && a["name"] == name
      && "ptype" in a && a["ptype"] == ptype
      && ("params" in a <==> params.Some?)
      && ("params" in a ==> a["params"] == params.value)
  {
    var m := map["name" := name, "attrib" := attrib, "ptype" := ptype];
    assert "params" !in m;
  }

  /** The accessors are written as a "methods" group holding the
      documented getter, then the documented setter, with their flags. */
  lemma PropertyAccessors(p: PropertyDef)
    requires AccessorMethods(p).0.Some?
    ensures var n := PropertyNode(p);
      var k := |AttributesChild([p.customAttributes])|;
      n.children[k] == MethodsNode(AccessorMethods(p).0.value, "methods", "method", false)
  {
  }

  // ------------------------------------------------------------ fields and events

  /** One "field" element: name, flags, cleaned field type, and, for a
      literal field whose constant renders to a string, that string as
      "value"; then the custom attributes. */
  function FieldNode(f: FieldDef): (r: Node)
    ensures r.name == "field"
    ensures "name" in r.attrs && r.attrs["name"] == f.name
    ensures "fieldtype" in r.attrs && r.attrs["fieldtype"] == CleanupTypeRef(f.fieldType)
    ensures "attrib" in r.attrs && r.attrs["attrib"] == FlagsText(f.attributes)
    ensures "value" in r.attrs <==> f.IsLiteral() && f.constantText.Some?
    ensures "value" in r.attrs ==> r.attrs["value"] == f.constantText.value
  {
    var m := map["name" := f.name, "attrib" := FlagsText(f.attributes), "fieldtype" := CleanupTypeRef(f.fieldType)];
    Node("field", PutIf(m, f.IsLiteral() && f.constantText.Some?, "value", f.constantText.GetOr("")),
      AttributesChild([f.customAttributes]))
  }

  function FieldsNode(fs: seq<FieldDef>): (r: Node)
    ensures r.name == "fields" && r.attrs == map[] && |r.children| == |fs|
    ensures forall i :: 0 <= i < |fs| ==> r.children[i] == FieldNode(fs[i])
  {
    Node("fields", map[], seq(|fs|, i requires 0 <= i < |fs| => FieldNode(fs[i])))
  }

  /** One "event" element: name, flags, cleaned event type, and the
      custom attributes. */
  function EventNode(e: EventDef): (r: Node)
    ensures r.name == "event"
    ensures r.attrs == map["name" := e.name, "attrib" := FlagsText(e.attributes), "eventtype" := CleanupTypeRef(e.eventType)]
  {
    Node("event", map["name" := e.name, "attrib" := FlagsText(e.attributes), "eventtype" := CleanupTypeRef(e.eventType)],
      AttributesChild([e.customAttributes]))
  }

  function EventsNode(es: seq<EventDef>): (r: Node)
    ensures r.name == "events" && r.attrs == map[] && |r.children| == |es|
    ensures forall i :: 0 <= i < |es| ==> r.children[i] == EventNode(es[i])
  {
    Node("events", map[], seq(|es|, i requires 0 <= i < |es| => EventNode(es[i])))
  }

  /** The flags text reads back as the flags word, as the diff's access
      comparison assumes. */
  lemma FlagsTextRoundTrip(x: bv32)
    ensures ParseInt32(FlagsText(x)) == Some(FlagsToInt(x))
  {
    IntToStringRoundTrip(FlagsToInt(x));
  }
}
