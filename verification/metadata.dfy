/** The metadata records the extractor reads, reduced to the fields and
    flags the ApiInfo code consults. They stand in for Mono.Cecil's object
    model; flag values are those of ECMA-335 Partition II (section 23.1.10
    for methods, 23.1.15 for types, 23.1.5 for fields and 23.1.13 for
    parameters). Answers that the source obtains from its `TypeHelper`
    (visibility of an attribute type, delegate detection, the base method
    of an override) are carried as fields of the record they describe. */
module Metadata {
  import opened Wrappers

  // ------------------------------------------------------------ flags

  /** `MethodAttributes`, section 23.1.10. */
  const MethodMemberAccessMask: bv32 := 0x0007
  const MethodFamily: bv32 := 0x0004
  const MethodFamOrAssem: bv32 := 0x0005
  const MethodPublic: bv32 := 0x0006
  const MethodStatic: bv32 := 0x0010
  const MethodFinal: bv32 := 0x0020
  const MethodVirtual: bv32 := 0x0040
  const MethodNewSlot: bv32 := 0x0100
  const MethodAbstract: bv32 := 0x0400
  const MethodSpecialName: bv32 := 0x0800
  const MethodRTSpecialName: bv32 := 0x1000

  /** `FieldAttributes`, section 23.1.5. */
  const FieldAccessMask: bv32 := 0x0007
  const FieldFamily: bv32 := 0x0004
  const FieldFamOrAssem: bv32 := 0x0005
  const FieldPublic: bv32 := 0x0006
  const FieldStatic: bv32 := 0x0010
  const FieldLiteral: bv32 := 0x0040
  const FieldNotSerialized: bv32 := 0x0080
  const FieldSpecialName: bv32 := 0x0200

  /** `TypeAttributes`, section 23.1.15. */
  const TypeVisibilityMask: bv32 := 0x0000_0007
  const TypePublic: bv32 := 0x0000_0001
  const TypeNestedPublic: bv32 := 0x0000_0002
  const TypeNestedFamily: bv32 := 0x0000_0004
  const TypeNestedFamOrAssem: bv32 := 0x0000_0007
  const TypeLayoutMask: bv32 := 0x0000_0018
  const TypeAutoLayout: bv32 := 0x0000_0000
  const TypeSequentialLayout: bv32 := 0x0000_0008
  const TypeExplicitLayout: bv32 := 0x0000_0010
  const TypeInterface: bv32 := 0x0000_0020
  const TypeAbstract: bv32 := 0x0000_0080
  const TypeSealed: bv32 := 0x0000_0100
  const TypeSerializable: bv32 := 0x0000_2000
  const TypeStringFormatMask: bv32 := 0x0003_0000
  const TypeAnsiClass: bv32 := 0x0000_0000
  const TypeUnicodeClass: bv32 := 0x0001_0000
  const TypeAutoClass: bv32 := 0x0002_0000
  const TypeForwarder: bv32 := 0x0020_0000

  /** `ParameterAttributes`, section 23.1.13. */
  const ParamIn: bv32 := 0x0001
  const ParamOut: bv32 := 0x0002
  const ParamOptional: bv32 := 0x0010

  /** `(int)` of an unsigned 32-bit flags value, as C# reinterprets it. */
  function FlagsToInt(x: bv32): (r: int)
    ensures -0x8000_0000 <= r < 0x8000_0000
    ensures r >= 0 ==> r == x as int
  {
    if x as int >= 0x8000_0000 then x as int - 0x1_0000_0000 else x as int
  }

  // ------------------------------------------------------------ records

  /** A type reference. A by-reference type (`ref T`) is its element type
      with the by-reference mark; Cecil names it with a trailing `&`. */
  datatype TypeRef = TypeRef(namespace: string, elementName: string, elementFullName: string, isByReference: bool) {
    function Name(): string {
      elementName + (if isByReference then "&" else "")
    }
    function FullName(): string {
      elementFullName + (if isByReference then "&" else "")
    }
  }

  /** A custom attribute instance, reduced to what the extractor reads: the
      attribute type's names, the `TypeHelper.IsPublic` verdict on it, and
      the property values `CreateAttributeMapping` yields (None when it
      yields no dictionary; a None value is a null property value). */
  datatype CustomAttr = CustomAttr(
    typeName: string,
    typeFullName: string,
    isPublic: bool,
    mapping: Option<seq<(string, Option<string>)>>)

  /** A generic parameter: its name, raw attribute flags and constraints. */
  datatype GenericParam = GenericParam(
    name: string, attributes: bv32, constraints: seq<TypeRef>, customAttributes: seq<CustomAttr>)

  /** A method parameter. `constant` is present when the parameter has a
      constant; its inner None is a null constant. */
  datatype ParamDef = ParamDef(
    name: string,
    paramType: TypeRef,
    attributes: bv32,
    constant: Option<Option<string>>,
    customAttributes: seq<CustomAttr>)
  {
    predicate IsOut() { attributes & ParamOut != 0 }
    predicate IsOptional() { attributes & ParamOptional != 0 }
  }

  /** A method definition. `baseMethodDiffers` is the `TypeHelper`
      verdict that a base method exists in the hierarchy and differs from
      this one. */
  datatype MethodDef = MethodDef(
    name: string,
    attributes: bv32,
    parameters: seq<ParamDef>,
    genericParameters: seq<GenericParam>,
    returnType: TypeRef,
    declaringTypeName: string,
    declaringTypeFullName: string,
    customAttributes: seq<CustomAttr>,
    returnAttributes: seq<CustomAttr>,
    baseMethodDiffers: bool)
  {
    predicate IsStatic() { attributes & MethodStatic != 0 }
    predicate IsFinal() { attributes & MethodFinal != 0 }
    predicate IsVirtual() { attributes & MethodVirtual != 0 }
    predicate IsReuseSlot() { attributes & MethodNewSlot == 0 }
    predicate IsAbstract() { attributes & MethodAbstract != 0 }
    predicate IsSpecialName() { attributes & MethodSpecialName != 0 }
    /** Cecil's `IsConstructor`: runtime-special and special name `.ctor`
        or `.cctor`. */
    predicate IsConstructor() {
      attributes & MethodRTSpecialName != 0 && IsSpecialName() && (name == ".ctor" || name == ".cctor")
    }
  }

  /** A property definition; `parameters` are the indexer parameters. */
  datatype PropertyDef = PropertyDef(
    name: string,
    attributes: bv32,
    propertyType: TypeRef,
    parameters: seq<ParamDef>,
    getMethod: Option<MethodDef>,
    setMethod: Option<MethodDef>,
    customAttributes: seq<CustomAttr>)

  /** A field definition. `constantText` is what `Convert.ToString` makes
      of the constant (None when it yields null). */
  datatype FieldDef = FieldDef(
    name: string,
    attributes: bv32,
    fieldType: TypeRef,
    constantText: Option<string>,
    hasConstant: bool,
    customAttributes: seq<CustomAttr>)
  {
    predicate IsStatic() { attributes & FieldStatic != 0 }
    predicate IsLiteral() { attributes & FieldLiteral != 0 }
    predicate IsNotSerialized() { attributes & FieldNotSerialized != 0 }
    predicate IsSpecialName() { attributes & FieldSpecialName != 0 }
  }

  /** An event definition. */
  datatype EventDef = EventDef(
    name: string,
    attributes: bv32,
    eventType: TypeRef,
    addMethod: Option<MethodDef>,
    customAttributes: seq<CustomAttr>)

  /** A row of the exported-type table: a type another assembly now
      defines, when the forwarder flag is set in `attributes`. */
  datatype ExportedType = ExportedType(fullName: string, attributes: bv32)

  /** A type definition. `isEnum`, `isValueType`, `isPointer` are Cecil's
      answers; `isDelegate` is the `TypeHelper` verdict; `publicInterfaces`
      are the public interfaces `TypeHelper` reports. */
  datatype TypeDef = TypeDef(
    name: string,
    namespace: string,
    fullName: string,
    attributes: bv32,
    baseType: Option<TypeRef>,
    isEnum: bool,
    isValueType: bool,
    isDelegate: bool,
    isPointer: bool,
    packingSize: int,
    classSize: int,
    fields: seq<FieldDef>,
    methods: seq<MethodDef>,
    properties: seq<PropertyDef>,
    events: seq<EventDef>,
    nestedTypes: seq<TypeDef>,
    declaringTypeFullName: Option<string>,
    customAttributes: seq<CustomAttr>,
    genericParameters: seq<GenericParam>,
    publicInterfaces: seq<TypeRef>)
  {
    predicate IsInterface() { attributes & TypeInterface != 0 }
    predicate IsAbstract() { attributes & TypeAbstract != 0 }
    predicate IsSealed() { attributes & TypeSealed != 0 }
  }
}
