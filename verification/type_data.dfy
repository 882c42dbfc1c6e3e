/** The extractor's per-type decisions (TypeData.cs): which methods count
    as documentable, how a type's kind, character set and layout are named,
    which fields, constructors, properties, events, methods and nested
    types are described, and the attributes of the `class` element. */
module TypeRules {
  import opened Wrappers
  import opened Strings
  import opened Seqs
  import opened Sorting
  import opened Metadata
  import opened TypeNames
  import opened Signatures
  import opened DefinitionComparers
  import opened XmlNodes

  // ------------------------------------------------------------ access

  /** The member-access field of a method's flags (section 23.1.10 of
      ECMA-335 Partition II): 1 private, 2 family-and-assembly, 3 assembly,
      4 family, 5 family-or-assembly, 6 public. */
  function MethodAccess(m: MethodDef): (r: nat)
    ensures r < 8
  {
    (m.attributes & MethodMemberAccessMask) as nat
  }

  /** `MustDocumentMethod`: only the accesses visible outside the assembly
      (family, family-or-assembly, public) are described. */
  function MustDocumentMethod(m: MethodDef): (r: bool)
    ensures r <==> 4 <= MethodAccess(m) <= 6
  {
    var a := m.attributes & MethodMemberAccessMask;
    a == MethodPublic || a == MethodFamily || a == MethodFamOrAssem
  }

  /** The access field of a field's flags (section 23.1.5), numbered as for
      methods. */
  function FieldAccess(f: FieldDef): (r: nat)
    ensures r < 8
  {
    (f.attributes & FieldAccessMask) as nat
  }

  // ------------------------------------------------------------ kind, charset, layout

  /** `GetClassType`: the first of enum, struct, interface, delegate and
      pointer that applies, else class. */
  function ClassType(t: TypeDef): (r: string)
    ensures r in ["enum", "struct", "interface", "delegate", "pointer", "class"]
    ensures r == "enum" <==> t.isEnum
    ensures r == "struct" <==> !t.isEnum && t.isValueType
    ensures r == "interface" <==> !t.isEnum && !t.isValueType && t.IsInterface()
    ensures r == "delegate" <==> !t.isEnum && !t.isValueType && !t.IsInterface() && t.isDelegate
    ensures r == "class" <==> !t.isEnum && !t.isValueType && !t.IsInterface() && !t.isDelegate && !t.isPointer
  {
    if t.isEnum then "enum"
    else if t.isValueType then "struct"
    else if t.IsInterface() then "interface"
    else if t.isDelegate then "delegate"
    else if t.isPointer then "pointer"
    else "class"
  }

  /** `GetCharSet`: the `CharSet` name of the string-format field; the
      fourth value, custom format, has no name of its own and gives "None". */
  function CharSet(t: TypeDef): (r: string)
    ensures r in ["Ansi", "Auto", "Unicode", "None"]
    ensures r == "None" <==> t.attributes & TypeStringFormatMask == 0x3_0000
  {
    var f := t.attributes & TypeStringFormatMask;
    if f == TypeAnsiClass then "Ansi"
    else if f == TypeAutoClass then "Auto"
    else if f == TypeUnicodeClass then "Unicode"
    else "None"
  }

  /** The string-format flags a character-set name stands for. */
  function CharSetFlags(name: string): (r: Option<bv32>)
    ensures r.Some? ==> r.value & TypeStringFormatMask == r.value
  {
    if name == "Ansi" then Some(TypeAnsiClass)
    else if name == "Auto" then Some(TypeAutoClass)
    else if name == "Unicode" then Some(TypeUnicodeClass)
    else None
  }

  /** The character-set name identifies the string format, except for the
      custom format, which is written as "None". */
  lemma CharSetRoundTrip(t: TypeDef)
    ensures CharSet(t) != "None" ==> CharSetFlags(CharSet(t)) == Some(t.attributes & TypeStringFormatMask)
    ensures CharSet(t) == "None" ==> CharSetFlags(CharSet(t)) == None
  {
  }

  /** `GetLayout`: the `LayoutKind` name of the layout field; the reserved
      fourth value gives null, and no `layout` attribute is written. */
  function Layout(t: TypeDef): (r: Option<string>)
    ensures r.None? <==> t.attributes & TypeLayoutMask == 0x18
    ensures r.Some? ==> r.value in ["Auto", "Explicit", "Sequential"]
  {
    var l := t.attributes & TypeLayoutMask;
    if l == TypeAutoLayout then Some("Auto")
    else if l == TypeExplicitLayout then Some("Explicit")
    else if l == TypeSequentialLayout then Some("Sequential")
    else None
  }

  /** The layout flags a layout name stands for. */
  function LayoutFlags(name: string): (r: Option<bv32>)
    ensures r.Some? ==> r.value & TypeLayoutMask == r.value
  {
    if name == "Auto" then Some(TypeAutoLayout)
    else if name == "Explicit" then Some(TypeExplicitLayout)
    else if name == "Sequential" then Some(TypeSequentialLayout)
    else None
  }

  /** A written layout name identifies the layout field. */
  lemma LayoutRoundTrip(t: TypeDef)
    ensures Layout(t).Some? ==> LayoutFlags(Layout(t).value) == Some(t.attributes & TypeLayoutMask)
  {
  }

  // ------------------------------------------------------------ class element

  /** `GetEnumValueField`: the first special-name field called `value__`. */
  function EnumValueField(fs: seq<FieldDef>): (r: Option<FieldDef>)
    ensures r.None? <==> forall i :: 0 <= i < |fs| ==> !(fs[i].IsSpecialName() && fs[i].name == "value__")
    ensures r.Some? ==>
      exists i :: 0 <= i < |fs| && fs[i] == r.value && fs[i].IsSpecialName() && fs[i].name == "value__"
        && (forall j :: 0 <= j < i ==> !(fs[j].IsSpecialName() && fs[j].name == "value__"))
  {
    if |fs| == 0 then None
    else if fs[0].IsSpecialName() && fs[0].name == "value__" then Some(fs[0])
    else
      var r := EnumValueField(fs[1..]);
      assert forall i :: 1 <= i < |fs| ==> fs[i] == fs[1..][i - 1];
      r
  }

  /** The message of a parameterless `NotSupportedException`. */
  const NotSupportedMessage := "Specified method is not supported."

  /** The attributes of the `class` element, in the order `DoOutput`
      writes them: name, type, base (cleaned) when there is one, sealed,
      abstract, serializable (the bit, or any enum), charset, layout when
      named, pack and size when not negative, and for an enum the cleaned
      type of its `value__` field; an enum without one is a
      `NotSupportedException`. */
  function ClassAttributes(t: TypeDef): (r: Result<map<string, string>>)
    ensures r.Err? <==> t.isEnum && EnumValueField(t.fields).None?
    ensures r.Err? ==> r.error == NotSupportedException(NotSupportedMessage)
    ensures r.Ok? ==> "name" in r.value && r.value["name"] == t.name
    ensures r.Ok? ==> "type" in r.value && r.value["type"] == ClassType(t)
    ensures r.Ok? ==> "charset" in r.value && r.value["charset"] == CharSet(t)
    ensures r.Ok? ==> ("enumtype" in r.value <==> t.isEnum)
  {
    var h := Head(t);
    var m := AttributesOf(h);
    HeadValues(h);
    HeadKeySet(h);
    if t.isEnum then
      var v := EnumValueField(t.fields);
      if v.None? then Err(NotSupportedException(NotSupportedMessage))
      else Ok(m["enumtype" := CleanupTypeRef(v.value.fieldType)])
    else Ok(m)
  }

  /** The values the attributes before `enumtype` are written from. */
  datatype HeadFacts = HeadFacts(
    name: string, kind: string, base: Option<string>, sealed: bool, isAbstract: bool,
    serializable: bool, charset: string, layout: Option<string>, pack: int, size: int)

  function Head(t: TypeDef): HeadFacts {
    HeadFacts(t.name, ClassType(t), if t.baseType.Some? then Some(CleanupTypeRef(t.baseType.value)) else None,
              t.IsSealed(), t.IsAbstract(), t.attributes & TypeSerializable != 0 || t.isEnum,
              CharSet(t), Layout(t), t.packingSize, t.classSize)
  }

  /** The attributes written before `enumtype`, in writing order. */
  function AttributesOf(h: HeadFacts): map<string, string> {
    var m := map["name" := h.name, "type" := h.kind];
    var m := PutIf(m, h.base.Some?, "base", h.base.GetOr(""));
    var m := PutIf(m, h.sealed, "sealed", "true");
    var m := PutIf(m, h.isAbstract, "abstract", "true");
    var m := PutIf(m, h.serializable, "serializable", "true");
    var m := m["charset" := h.charset];
    var m := PutIf(m, h.layout.Some?, "layout", h.layout.GetOr(""));
    var m := PutIf(m, h.pack >= 0, "pack", IntToString(h.pack));
    PutIf(m, h.size >= 0, "size", IntToString(h.size))
  }

  lemma HeadValues(h: HeadFacts)
    ensures var r := AttributesOf(h);
      "name" in r && r["name"] == h.name && "type" in r && r["type"] == h.kind && "charset" in r && r["charset"] == h.charset
  {
  }

  lemma HeadFlags(h: HeadFacts)
    ensures var r := AttributesOf(h);
      ("sealed" in r <==> h.sealed) && ("abstract" in r <==> h.isAbstract) && ("serializable" in r <==> h.serializable)
  {
  }

  lemma HeadOptional(h: HeadFacts)
    ensures var r := AttributesOf(h);
      && ("base" in r <==> h.base.Some?) && (h.base.Some? ==> r["base"] == h.base.value)
      && ("layout" in r <==> h.layout.Some?) && (h.layout.Some? ==> r["layout"] == h.layout.value)
  {
  }

  lemma HeadSizes(h: HeadFacts)
    ensures var r := AttributesOf(h);
      && ("pack" in r <==> h.pack >= 0) && (h.pack >= 0 ==> r["pack"] == IntToString(h.pack))
      && ("size" in r <==> h.size >= 0) && (h.size >= 0 ==> r["size"] == IntToString(h.size))
  {
  }

  lemma HeadKeySet(h: HeadFacts)
    ensures forall k :: k in AttributesOf(h) ==>
      k in {"name", "type", "base", "sealed", "abstract", "serializable", "charset", "layout", "pack", "size"}
  {
  }

  /** Which optional attributes the `class` element carries: base when
      there is a base type (cleaned), sealed and abstract from their flags,
      serializable from its bit or for any enum, layout when it has a name,
      pack and size when not negative; nothing else is written. */
  lemma ClassAttributeKeys(t: TypeDef)
    requires ClassAttributes(t).Ok?
    ensures var a := ClassAttributes(t).value;
      && ("base" in a <==> t.baseType.Some?)
      && ("base" in a ==> !HasCleanupChar(a["base"]))
      && ("sealed" in a <==> t.IsSealed())
      && ("abstract" in a <==> t.IsAbstract())
      && ("serializable" in a <==> t.attributes & TypeSerializable != 0 || t.isEnum)
      && ("layout" in a <==> Layout(t).Some?)
      && ("pack" in a <==> t.packingSize >= 0)
      && ("size" in a <==> t.classSize >= 0)
      && (forall k :: k in a ==>
            k in {"name", "type", "base", "sealed", "abstract", "serializable", "charset", "layout", "pack", "size", "enumtype"})
  {
    var h := Head(t);
    HeadFlags(h);
    HeadOptional(h);
    HeadSizes(h);
    HeadKeySet(h);
  }

  /** Packing and class size are written as decimal numbers that read back
      as the values. */
  lemma ClassAttributeSizes(t: TypeDef)
    requires ClassAttributes(t).Ok?
    ensures var a := ClassAttributes(t).value;
      && ("pack" in a && IsInt32(t.packingSize) ==> ParseInt32(a["pack"]) == Some(t.packingSize))
      && ("size" in a && IsInt32(t.classSize) ==> ParseInt32(a["size"]) == Some(t.classSize))
  {
    HeadSizes(Head(t));
    if IsInt32(t.packingSize) {
      IntToStringRoundTrip(t.packingSize);
    }
    if IsInt32(t.classSize) {
      IntToStringRoundTrip(t.classSize);
    }
  }

  // ------------------------------------------------------------ fields, constructors, events

  /** The field filter of `GetFields`. */
  predicate KeepField(f: FieldDef, abiMode: bool) {
    && !f.IsSpecialName()
    && !(abiMode && f.IsStatic())
    && ((abiMode && !f.IsNotSerialized())
        || f.attributes & FieldAccessMask == FieldPublic
        || f.attributes & FieldAccessMask == FieldFamily
        || f.attributes & FieldAccessMask == FieldFamOrAssem)
  }

  /** `GetFields`: the described fields, in declaration order. */
  function GetFields(t: TypeDef, abiMode: bool): (r: seq<FieldDef>)
    ensures forall f :: f in r ==> f in t.fields && !f.IsSpecialName()
    ensures abiMode ==> forall f :: f in r ==> !f.IsStatic()
  {
    Filter(t.fields, f => KeepField(f, abiMode))
  }

  /** Which fields are described. Outside ABI mode: the non-special fields
      visible outside the assembly. In ABI mode: the non-special instance
      fields that are serialized or visible outside the assembly. */
  lemma FieldSelection(t: TypeDef, abiMode: bool, f: FieldDef)
    ensures !abiMode ==> (f in GetFields(t, abiMode) <==> f in t.fields && !f.IsSpecialName() && 4 <= FieldAccess(f) <= 6)
    ensures abiMode ==> (f in GetFields(t, abiMode) <==>
      f in t.fields && !f.IsSpecialName() && !f.IsStatic() && (!f.IsNotSerialized() || 4 <= FieldAccess(f) <= 6))
  {
  }

  /** `GetConstructors`: the constructors visible outside the assembly. */
  function GetConstructors(t: TypeDef): (r: seq<MethodDef>)
    ensures forall m :: m in r <==> m in t.methods && m.IsConstructor() && 4 <= MethodAccess(m) <= 6
  {
    Filter(t.methods, (m: MethodDef) => m.IsConstructor() && MustDocumentMethod(m))
  }

  /** Whether an event's add accessor exists and is documentable. */
  predicate HasDocumentedAdder(e: EventDef) {
    e.addMethod.Some? && MustDocumentMethod(e.addMethod.value)
  }

  /** `GetEvents`: the events whose add accessor is visible outside the
      assembly; an event without one is left out. */
  function GetEvents(t: TypeDef): (r: seq<EventDef>)
    ensures forall e :: e in r <==> e in t.events && e.addMethod.Some? && 4 <= MethodAccess(e.addMethod.value) <= 6
  {
    Filter(t.events, HasDocumentedAdder)
  }

  // ------------------------------------------------------------ the base-type walk

  /** Where the full-API walk stops: after an interface or enum, or a type
      whose base is absent or `System.Object`. */
  predicate WalkEndsAt(t: TypeDef) {
    t.IsInterface() || t.isEnum || t.baseType.None? || t.baseType.value.FullName() == "System.Object"
  }

  /** The number of types the do-while loops of `GetProperties` and
      `GetMethods` visit. `chain[0]` is the type itself and each next entry
      is what `TypeHelper.GetBaseType` resolves for the previous one; the
      chain ends where that resolution gives null. Without the full API only
      the type itself is visited. */
  function WalkLength(chain: seq<TypeDef>, fullApi: bool): (r: nat)
    requires |chain| > 0
    ensures 1 <= r <= |chain|
    ensures !fullApi ==> r == 1
    ensures fullApi ==> forall i :: 0 <= i < r - 1 ==> !WalkEndsAt(chain[i])
    ensures fullApi && r < |chain| ==> WalkEndsAt(chain[r - 1])
  {
    if fullApi then WalkFrom(chain, 0) else 1
  }

  function WalkFrom(chain: seq<TypeDef>, i: nat): (r: nat)
    requires i < |chain|
    ensures i < r <= |chain|
    ensures forall j :: i <= j < r - 1 ==> !WalkEndsAt(chain[j])
    ensures r < |chain| ==> WalkEndsAt(chain[r - 1])
    decreases |chain| - i
  {
    if i == |chain| - 1 || WalkEndsAt(chain[i]) then i + 1 else WalkFrom(chain, i + 1)
  }

  // ------------------------------------------------------------ properties

  /** A property is described when its getter or its setter is. */
  predicate DocumentedProperty(p: PropertyDef) {
    (p.getMethod.Some? && MustDocumentMethod(p.getMethod.value))
    || (p.setMethod.Some? && MustDocumentMethod(p.setMethod.value))
  }

  predicate HasPropertyNamed(list: seq<PropertyDef>, name: string) {
    exists l :: l in list && l.name == name
  }

  /** One pass of the property loop over the properties `ps` of a visited
      type, appending to `acc`. On an inherited type a property whose name
      is already listed is skipped. */
  function AddProperties(acc: seq<PropertyDef>, ps: seq<PropertyDef>, inherited: bool): (r: seq<PropertyDef>)
    ensures |acc| <= |r| && r[..|acc|] == acc
    ensures forall j :: |acc| <= j < |r| ==> r[j] in ps && DocumentedProperty(r[j])
    ensures inherited ==> forall i, j :: 0 <= i < j < |r| && |acc| <= j ==> r[i].name != r[j].name
    decreases |ps|
  {
    if |ps| == 0 then acc
    else
      var r0 := AddProperties(acc, ps[..|ps| - 1], inherited);
      var p := ps[|ps| - 1];
      if !DocumentedProperty(p) || (inherited && HasPropertyNamed(r0, p.name)) then r0
      else r0 + [p]
  }

  /** The type's own pass adds exactly its documented properties. */
  lemma {:induction false} OwnPropertiesAdded(acc: seq<PropertyDef>, ps: seq<PropertyDef>)
    ensures AddProperties(acc, ps, false) == acc + Filter(ps, DocumentedProperty)
    decreases |ps|
  {
    if |ps| > 0 {
      OwnPropertiesAdded(acc, ps[..|ps| - 1]);
    }
  }

  /** The properties the type's own pass lists. */
  function OwnProperties(t: TypeDef): (r: seq<PropertyDef>)
    ensures forall p :: p in r ==> DocumentedProperty(p)
  {
    AddProperties([], t.properties, false)
  }

  /** The properties listed from the first `n` types of the walk. */
  function CollectProperties(chain: seq<TypeDef>, n: nat): (r: seq<PropertyDef>)
    requires 1 <= n <= |chain|
    ensures |OwnProperties(chain[0])| <= |r| && r[..|OwnProperties(chain[0])|] == OwnProperties(chain[0])
    ensures forall i, j :: 0 <= i < j < |r| && |OwnProperties(chain[0])| <= j ==> r[i].name != r[j].name
    ensures forall p :: p in r ==> DocumentedProperty(p)
    decreases n
  {
    if n == 1 then OwnProperties(chain[0])
    else
      var r0 := CollectProperties(chain, n - 1);
      var r := AddProperties(r0, chain[n - 1].properties, true);
      assert r[..|r0|] == r0;
      r
  }

  /** `GetProperties(type, fullAPI)` for the type `chain[0]` and its
      resolved bases. */
  function GetProperties(chain: seq<TypeDef>, fullApi: bool): (r: seq<PropertyDef>)
    requires |chain| > 0
    ensures forall p :: p in r ==> DocumentedProperty(p)
  {
    CollectProperties(chain, WalkLength(chain, fullApi))
  }

  /** The listed properties start with the type's own documented ones, in
      declaration order; after them, no property shares a name with an
      earlier one; without the full API there is nothing else. */
  lemma PropertySelection(chain: seq<TypeDef>, fullApi: bool)
    requires |chain| > 0
    ensures var own := Filter(chain[0].properties, DocumentedProperty);
      var r := GetProperties(chain, fullApi);
      && |own| <= |r| && r[..|own|] == own
      && (forall i, j :: 0 <= i < j < |r| && |own| <= j ==> r[i].name != r[j].name)
      && (!fullApi ==> r == own)
  {
    OwnPropertiesAdded([], chain[0].properties);
  }

  // ------------------------------------------------------------ methods

  /** The method filter of `GetMethods`: special names only for operators,
      and access visible outside the assembly. */
  predicate ListableMethod(m: MethodDef) {
    !(m.IsSpecialName() && !StartsWith(m.name, "op_")) && MustDocumentMethod(m)
  }

  /** `IsFinalizer`: a virtual, parameterless method called `Finalize`. */
  predicate IsFinalizer(m: MethodDef) {
    m.name == "Finalize" && m.IsVirtual() && |m.parameters| == 0
  }

  /** The name a finalizer is listed under: `~` and the declaring type's
      name, cut before a generic-arity backtick that is not its first
      character. */
  function FinalizerName(typeName: string): (r: string)
    ensures |r| > 0 && r[0] == '~'
    ensures IndexOf(typeName, '`') > 0 ==> r == "~" + typeName[..IndexOf(typeName, '`')] && '`' !in r
    ensures IndexOf(typeName, '`') <= 0 ==> r == "~" + typeName
  {
    var arity := IndexOf(typeName, '`');
    var r := "~" + (if arity > 0 then typeName[..arity] else typeName);
    assert r == ['~'] + r[1..];
    r
  }

  /** A method as listed: on the type's own pass, finalizers are renamed. */
  function AsListed(m: MethodDef, own: bool): (r: MethodDef)
    ensures r.(name := m.name) == m
    ensures own && IsFinalizer(m) ==> r.name == FinalizerName(m.declaringTypeName)
    ensures !(own && IsFinalizer(m)) ==> r == m
  {
    if own && IsFinalizer(m) then m.(name := FinalizerName(m.declaringTypeName)) else m
  }

  /** The clash test of `GetMethods`: a method already listed from another
      type, with the same name, the same number of parameters and the same
      short parameter type names (`ParameterComparer`). */
  predicate Hides(l: MethodDef, m: MethodDef) {
    && l.declaringTypeFullName != m.declaringTypeFullName
    && l.name == m.name
    && |l.parameters| == |m.parameters|
    && forall k :: 0 <= k < |l.parameters| ==> l.parameters[k].paramType.Name() == m.parameters[k].paramType.Name()
  }

  predicate HiddenBy(list: seq<MethodDef>, m: MethodDef) {
    exists l :: l in list && Hides(l, m)
  }

  /** One pass of the method loop over the methods `ms` of a visited type. */
  function AddMethods(acc: seq<MethodDef>, ms: seq<MethodDef>, own: bool): (r: seq<MethodDef>)
    ensures |acc| <= |r| && r[..|acc|] == acc
    ensures !own ==> forall i, j :: 0 <= i < j < |r| && |acc| <= j ==> !Hides(r[i], r[j])
    decreases |ms|
  {
    if |ms| == 0 then acc
    else
      var r0 := AddMethods(acc, ms[..|ms| - 1], own);
      var m := ms[|ms| - 1];
      if !ListableMethod(m) then r0
      else
        var m' := AsListed(m, own);
        if !own && HiddenBy(r0, m') then r0 else r0 + [m']
  }

  /** The type's own methods as listed: the listable ones, finalizers
      renamed. */
  function OwnMethods(ms: seq<MethodDef>): (r: seq<MethodDef>)
    ensures |r| == |Filter(ms, ListableMethod)|
    ensures forall i :: 0 <= i < |r| ==> r[i] == AsListed(Filter(ms, ListableMethod)[i], true)
  {
    if |ms| == 0 then []
    else
      var m := ms[|ms| - 1];
      OwnMethods(ms[..|ms| - 1]) + (if ListableMethod(m) then [AsListed(m, true)] else [])
  }

  /** The type's own pass adds exactly `OwnMethods`, with no clash test. */
  lemma {:induction false} OwnMethodsAdded(acc: seq<MethodDef>, ms: seq<MethodDef>)
    ensures AddMethods(acc, ms, true) == acc + OwnMethods(ms)
    decreases |ms|
  {
    if |ms| > 0 {
      var init := ms[..|ms| - 1];
      var m := ms[|ms| - 1];
      OwnMethodsAdded(acc, init);
      var tail := if ListableMethod(m) then [AsListed(m, true)] else [];
      assert AddMethods(acc, ms, true) == AddMethods(acc, init, true) + tail;
      assert OwnMethods(ms) == OwnMethods(init) + tail;
    }
  }

  /** The methods listed from the first `n` types of the walk. */
  function CollectMethods(chain: seq<TypeDef>, n: nat): (r: seq<MethodDef>)
    requires 1 <= n <= |chain|
    ensures |OwnMethods(chain[0].methods)| <= |r| && r[..|OwnMethods(chain[0].methods)|] == OwnMethods(chain[0].methods)
    ensures forall i, j :: 0 <= i < j < |r| && |OwnMethods(chain[0].methods)| <= j ==> !Hides(r[i], r[j])
    decreases n
  {
    if n == 1 then
      OwnMethodsAdded([], chain[0].methods);
      AddMethods([], chain[0].methods, true)
    else
      var r0 := CollectMethods(chain, n - 1);
      var r := AddMethods(r0, chain[n - 1].methods, false);
      assert r[..|r0|] == r0;
      r
  }

  /** `GetMethods(type, fullAPI)` for the type `chain[0]` and its resolved
      bases. */
  function GetMethods(chain: seq<TypeDef>, fullApi: bool): (r: seq<MethodDef>)
    requires |chain| > 0
  {
    CollectMethods(chain, WalkLength(chain, fullApi))
  }

  /** The listed methods start with the type's own listable methods, in
      declaration order and with finalizers renamed; no later method is
      hidden by an earlier one; without the full API there is nothing else. */
  lemma MethodSelection(chain: seq<TypeDef>, fullApi: bool)
    requires |chain| > 0
    ensures var own := OwnMethods(chain[0].methods);
      var r := GetMethods(chain, fullApi);
      && |own| <= |r| && r[..|own|] == own
      && (forall i, j :: 0 <= i < j < |r| && |own| <= j ==> !Hides(r[i], r[j]))
      && (!fullApi ==> r == own)
  {
    OwnMethodsAdded([], chain[0].methods);
  }

  /** Every listed method is a listable method of a visited type, possibly
      renamed, so no constructor is ever listed among the methods. */
  lemma {:induction false} CollectedMethodsListable(chain: seq<TypeDef>, n: nat)
    requires 1 <= n <= |chain|
    ensures forall m :: m in CollectMethods(chain, n) ==> !m.IsConstructor()
    decreases n
  {
    var r0: seq<MethodDef> := if n == 1 then [] else CollectMethods(chain, n - 1);
    if n > 1 {
      CollectedMethodsListable(chain, n - 1);
    }
    var r := CollectMethods(chain, n);
    assert r == AddMethods(r0, chain[n - 1].methods, n == 1);
    forall j | 0 <= j < |r| ensures !r[j].IsConstructor() {
      if j < |r0| {
        assert r[j] == r0[j];
      } else {
        AddedMethodOrigin(r0, chain[n - 1].methods, n == 1, j);
      }
    }
  }

  /** An entry a pass appends is a listable method of that pass, as
      listed, hence no constructor. */
  lemma {:induction false} AddedMethodOrigin(acc: seq<MethodDef>, ms: seq<MethodDef>, own: bool, j: nat)
    requires |acc| <= j < |AddMethods(acc, ms, own)|
    ensures exists k :: 0 <= k < |ms| && ListableMethod(ms[k]) && AddMethods(acc, ms, own)[j] == AsListed(ms[k], own)
    ensures !AddMethods(acc, ms, own)[j].IsConstructor()
    decreases |ms|
  {
    var r := AddMethods(acc, ms, own);
    var init := ms[..|ms| - 1];
    var r0 := AddMethods(acc, init, own);
    var k: nat;
    if j < |r0| {
      assert r[j] == r0[j];
      AddedMethodOrigin(acc, init, own, j);
      k :| 0 <= k < |init| && ListableMethod(init[k]) && r0[j] == AsListed(init[k], own);
      assert init[k] == ms[k];
    } else {
      k := |ms| - 1;
    }
    ListableNotConstructor(ms[k], own);
  }

  lemma ListableNotConstructor(m: MethodDef, own: bool)
    requires ListableMethod(m)
    ensures !AsListed(m, own).IsConstructor()
  {
    if m.IsSpecialName() {
      assert StartsWith(m.name, "op_");
      assert m.name[0] == 'o';
    }
    var r := AsListed(m, own);
    if r.name != m.name {
      assert r.name[0] == '~';
    }
  }

  /** Constructors and methods are listed apart: a method list never holds
      a constructor. */
  lemma MethodsExcludeConstructors(chain: seq<TypeDef>, fullApi: bool)
    requires |chain| > 0
    ensures forall m :: m in GetMethods(chain, fullApi) ==> !m.IsConstructor()
    ensures forall m :: m in GetConstructors(chain[0]) ==> m !in GetMethods(chain, fullApi)
  {
    CollectedMethodsListable(chain, WalkLength(chain, fullApi));
  }

  // ------------------------------------------------------------ nested types

  /** The nested-type filter: nested public, family or family-or-assembly,
      and declared by the type itself. */
  predicate KeepNested(t: TypeDef, n: TypeDef) {
    var v := n.attributes & TypeVisibilityMask;
    (v == TypeNestedPublic || v == TypeNestedFamily || v == TypeNestedFamOrAssem)
    && n.declaringTypeFullName == Some(t.fullName)
  }

  /** The nested types written inside `classes`, ordered by namespace and
      then name. */
  function NestedTypes(t: TypeDef): (r: seq<TypeDef>)
    ensures multiset(r) == multiset(Filter(t.nestedTypes, n => KeepNested(t, n)))
    ensures forall n :: n in r <==> n in t.nestedTypes && KeepNested(t, n)
  {
    var kept := Filter(t.nestedTypes, n => KeepNested(t, n));
    var r := Sort(kept, TypeOrder);
    assert forall n :: n in r <==> n in multiset(kept);
    r
  }

  /** The nested types come out in `TypeReferenceComparer` order. */
  lemma NestedTypesSorted(t: TypeDef)
    ensures SortedBy(NestedTypes(t), TypeOrder)
  {
    TypeOrderIsPreorder();
    SortSorted(Filter(t.nestedTypes, n => KeepNested(t, n)), TypeOrder);
  }
}
