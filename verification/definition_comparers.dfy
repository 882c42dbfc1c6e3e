/** The comparers that order the members the extractor writes
    (MethodDefinitionComparer.cs, PropertyDefinitionComparer.cs,
    TypeReferenceComparer.cs, MemberReferenceComparer.cs). All string
    comparisons are ordinal; the sign is what matters to the sorts that
    use them, and each is proved to be a total preorder so that sorting
    by it yields an ordered sequence. */
module DefinitionComparers {
  import opened Strings
  import opened Sorting
  import opened Metadata
  import opened Signatures

  // ------------------------------------------------------------ ordinal facts

  /** Facts about three strings under the ordinal order that the
      lexicographic proofs below combine. */
  lemma OrdinalChain(a: string, b: string, c: string)
    ensures Ordinal(a, b) == 0 ==> Ordinal(a, c) == Ordinal(b, c)
    ensures Ordinal(b, c) == 0 ==> Ordinal(a, c) == Ordinal(a, b)
    ensures Ordinal(a, b) < 0 && Ordinal(b, c) < 0 ==> Ordinal(a, c) < 0
    ensures Ordinal(a, b) <= 0 && Ordinal(b, c) <= 0 ==> Ordinal(a, c) <= 0
  {
    OrdinalZeroIffEqual(a, b);
    OrdinalZeroIffEqual(b, c);
    OrdinalZeroIffEqual(a, c);
    OrdinalAntisymmetric(a, b);
    if Ordinal(a, b) <= 0 && Ordinal(b, c) <= 0 {
      OrdinalTransitive(a, b, c);
    }
  }

  // ------------------------------------------------------------ members

  /** `MemberReferenceComparer.Compare`: ordinal by name; it orders the
      fields and the events of a type. */
  function NameOrder(a: string, b: string): (r: int)
    ensures r == 0 <==> a == b
    ensures r == -Ordinal(b, a)
  {
    OrdinalZeroIffEqual(a, b);
    OrdinalAntisymmetric(a, b);
    Ordinal(a, b)
  }

  function FieldOrder(a: FieldDef, b: FieldDef): int {
    NameOrder(a.name, b.name)
  }

  function EventOrder(a: EventDef, b: EventDef): int {
    NameOrder(a.name, b.name)
  }

  lemma NameOrderTransitive(a: string, b: string, c: string)
    requires NameOrder(a, b) <= 0 && NameOrder(b, c) <= 0
    ensures NameOrder(a, c) <= 0
  {
    OrdinalChain(a, b, c);
  }

  /** Ordering fields (or events) by name is a total preorder under which
      only same-named members tie. */
  lemma MemberOrdersArePreorders()
    ensures TotalPreorder(FieldOrder) && TotalPreorder(EventOrder)
    ensures forall a, b :: FieldOrder(a, b) == 0 <==> a.name == b.name
    ensures forall a, b :: EventOrder(a, b) == 0 <==> a.name == b.name
  {
    forall a: FieldDef, b: FieldDef ensures FieldOrder(a, b) <= 0 || FieldOrder(b, a) <= 0 {
      OrdinalAntisymmetric(a.name, b.name);
    }
    forall a: EventDef, b: EventDef ensures EventOrder(a, b) <= 0 || EventOrder(b, a) <= 0 {
      OrdinalAntisymmetric(a.name, b.name);
    }
    forall a: FieldDef, b: FieldDef, c: FieldDef | FieldOrder(a, b) <= 0 && FieldOrder(b, c) <= 0
      ensures FieldOrder(a, c) <= 0
    {
      NameOrderTransitive(a.name, b.name, c.name);
    }
    forall a: EventDef, b: EventDef, c: EventDef | EventOrder(a, b) <= 0 && EventOrder(b, c) <= 0
      ensures EventOrder(a, c) <= 0
    {
      NameOrderTransitive(a.name, b.name, c.name);
    }
  }

  // ------------------------------------------------------------ types

  /** `TypeReferenceComparer.Compare`: by namespace, then by name. */
  function TypeOrder(a: TypeDef, b: TypeDef): (r: int)
    ensures r == 0 <==> a.namespace == b.namespace && a.name == b.name
  {
    OrdinalZeroIffEqual(a.namespace, b.namespace);
    OrdinalZeroIffEqual(a.name, b.name);
    var r := Ordinal(a.namespace, b.namespace);
    if r != 0 then r else Ordinal(a.name, b.name)
  }

  /** Swapping the arguments negates the result. */
  lemma TypeOrderAntisymmetric(a: TypeDef, b: TypeDef)
    ensures TypeOrder(a, b) == -TypeOrder(b, a)
  {
    OrdinalAntisymmetric(a.namespace, b.namespace);
    OrdinalAntisymmetric(a.name, b.name);
  }

  /** Only the namespace and the name are consulted. */
  lemma TypeOrderReadsNamesOnly(a: TypeDef, b: TypeDef, a': TypeDef, b': TypeDef)
    requires a.namespace == a'.namespace && a.name == a'.name
    requires b.namespace == b'.namespace && b.name == b'.name
    ensures TypeOrder(a, b) == TypeOrder(a', b')
  {
  }

  /** Types are ordered lexicographically by (namespace, name). */
  lemma TypeOrderIsPreorder()
    ensures TotalPreorder(TypeOrder)
  {
    forall a: TypeDef, b: TypeDef ensures TypeOrder(a, b) <= 0 || TypeOrder(b, a) <= 0 {
      TypeOrderAntisymmetric(a, b);
    }
    forall a: TypeDef, b: TypeDef, c: TypeDef | TypeOrder(a, b) <= 0 && TypeOrder(b, c) <= 0
      ensures TypeOrder(a, c) <= 0
    {
      OrdinalChain(a.namespace, b.namespace, c.namespace);
      OrdinalChain(a.name, b.name, c.name);
    }
  }

  // ------------------------------------------------------------ methods

  /** `MethodDefinitionComparer.Compare(IList, IList)`: by parameter count
      (the raw difference), then by ordinal signature. */
  function ParameterListOrder(pa: seq<ParamDef>, pb: seq<ParamDef>): (r: int)
    ensures r == 0 <==> |pa| == |pb| && GetSignature(pa) == GetSignature(pb)
    ensures |pa| != |pb| ==> r == |pa| - |pb|
  {
    OrdinalZeroIffEqual(GetSignature(pa), GetSignature(pb));
    var res := |pa| - |pb|;
    if res != 0 then res else Ordinal(GetSignature(pa), GetSignature(pb))
  }

  lemma ParameterListOrderAntisymmetric(pa: seq<ParamDef>, pb: seq<ParamDef>)
    ensures ParameterListOrder(pa, pb) == -ParameterListOrder(pb, pa)
  {
    OrdinalAntisymmetric(GetSignature(pa), GetSignature(pb));
  }

  lemma ParameterListOrderTransitive(pa: seq<ParamDef>, pb: seq<ParamDef>, pc: seq<ParamDef>)
    ensures ParameterListOrder(pa, pb) <= 0 && ParameterListOrder(pb, pc) <= 0 ==> ParameterListOrder(pa, pc) <= 0
    ensures ParameterListOrder(pa, pb) < 0 && ParameterListOrder(pb, pc) < 0 ==> ParameterListOrder(pa, pc) < 0
    ensures ParameterListOrder(pa, pb) == 0 ==> ParameterListOrder(pa, pc) == ParameterListOrder(pb, pc)
    ensures ParameterListOrder(pb, pc) == 0 ==> ParameterListOrder(pa, pc) == ParameterListOrder(pa, pb)
  {
    OrdinalChain(GetSignature(pa), GetSignature(pb), GetSignature(pc));
  }

  /** What follows the parameter lists: methods with generic parameters
      first, then by generic arity, then by ordinal return-type name. */
  function GenericAndReturnOrder(ma: MethodDef, mb: MethodDef): (r: int)
    ensures r == 0 <==> |ma.genericParameters| == |mb.genericParameters|
                        && ma.returnType.FullName() == mb.returnType.FullName()
  {
    OrdinalZeroIffEqual(ma.returnType.FullName(), mb.returnType.FullName());
    var ga := |ma.genericParameters| > 0;
    var gb := |mb.genericParameters| > 0;
    if ga != gb then (if ga then -1 else 1)
    else if ga && gb && |ma.genericParameters| - |mb.genericParameters| != 0 then
      |ma.genericParameters| - |mb.genericParameters|
    else Ordinal(ma.returnType.FullName(), mb.returnType.FullName())
  }

  lemma GenericAndReturnAntisymmetric(ma: MethodDef, mb: MethodDef)
    ensures GenericAndReturnOrder(ma, mb) == -GenericAndReturnOrder(mb, ma)
  {
    OrdinalAntisymmetric(ma.returnType.FullName(), mb.returnType.FullName());
  }

  /** What follows the names: a parameterless method before one with
      parameters, two parameterless ones tied, and otherwise the parameter
      lists, then generics and return type. */
  function ParameterPartOrder(ma: MethodDef, mb: MethodDef): (r: int) {
    if |ma.parameters| == 0 && |mb.parameters| == 0 then 0
    else if |ma.parameters| == 0 then -1
    else if |mb.parameters| == 0 then 1
    else
      var pres := ParameterListOrder(ma.parameters, mb.parameters);
      if pres != 0 then pres else GenericAndReturnOrder(ma, mb)
  }

  /** `MethodDefinitionComparer.Compare(object, object)`. */
  function MethodOrder(ma: MethodDef, mb: MethodDef): (r: int) {
    var res := Ordinal(ma.name, mb.name);
    if res != 0 then res else ParameterPartOrder(ma, mb)
  }

  /** Swapping the arguments negates the result, and two methods tie
      exactly when they share a name and are either both parameterless or
      agree on parameter count, signature, generic arity and return type. */
  lemma MethodOrderLaws(ma: MethodDef, mb: MethodDef)
    ensures MethodOrder(ma, mb) == -MethodOrder(mb, ma)
    ensures MethodOrder(ma, mb) == 0 <==>
      ma.name == mb.name
      && ((|ma.parameters| == 0 && |mb.parameters| == 0)
          || (|ma.parameters| > 0 && |ma.parameters| == |mb.parameters|
              && GetSignature(ma.parameters) == GetSignature(mb.parameters)
              && |ma.genericParameters| == |mb.genericParameters|
              && ma.returnType.FullName() == mb.returnType.FullName()))
  {
    OrdinalZeroIffEqual(ma.name, mb.name);
    OrdinalAntisymmetric(ma.name, mb.name);
    ParameterListOrderAntisymmetric(ma.parameters, mb.parameters);
    GenericAndReturnAntisymmetric(ma, mb);
  }

  /** The name decides first; among same-named methods a parameterless one
      sorts before one with parameters. */
  lemma MethodOrderByNameFirst(ma: MethodDef, mb: MethodDef)
    ensures ma.name != mb.name ==> MethodOrder(ma, mb) == Ordinal(ma.name, mb.name)
    ensures ma.name == mb.name && |ma.parameters| == 0 && |mb.parameters| > 0 ==> MethodOrder(ma, mb) < 0
  {
    OrdinalZeroIffEqual(ma.name, mb.name);
  }

  /** Two parameterless methods of one name tie even when their generic
      arity or return type differ, so the comment's promise that operators
      differing only in return type are ordered holds only for operators
      with parameters. */
  lemma ParameterlessOverloadsTie(ma: MethodDef, mb: MethodDef)
    requires ma.name == mb.name && |ma.parameters| == 0 && |mb.parameters| == 0
    ensures MethodOrder(ma, mb) == 0
  {
    OrdinalZeroIffEqual(ma.name, mb.name);
  }

  lemma GenericAndReturnTransitive(a: MethodDef, b: MethodDef, c: MethodDef)
    requires GenericAndReturnOrder(a, b) <= 0 && GenericAndReturnOrder(b, c) <= 0
    ensures GenericAndReturnOrder(a, c) <= 0
  {
    OrdinalChain(a.returnType.FullName(), b.returnType.FullName(), c.returnType.FullName());
  }

  lemma ParameterPartTransitive(a: MethodDef, b: MethodDef, c: MethodDef)
    requires ParameterPartOrder(a, b) <= 0 && ParameterPartOrder(b, c) <= 0
    ensures ParameterPartOrder(a, c) <= 0
  {
    if |a.parameters| > 0 && |b.parameters| > 0 && |c.parameters| > 0 {
      ParameterListOrderTransitive(a.parameters, b.parameters, c.parameters);
      if ParameterListOrder(a.parameters, b.parameters) == 0 && ParameterListOrder(b.parameters, c.parameters) == 0 {
        GenericAndReturnTransitive(a, b, c);
      }
    }
  }

  lemma MethodOrderTransitive(a: MethodDef, b: MethodDef, c: MethodDef)
    requires MethodOrder(a, b) <= 0 && MethodOrder(b, c) <= 0
    ensures MethodOrder(a, c) <= 0
  {
    OrdinalChain(a.name, b.name, c.name);
    if Ordinal(a.name, b.name) == 0 && Ordinal(b.name, c.name) == 0 {
      ParameterPartTransitive(a, b, c);
    }
  }

  /** The method order is a total preorder, so the sorted method and
      constructor arrays are ordered by it. */
  lemma MethodOrderIsPreorder()
    ensures TotalPreorder(MethodOrder)
  {
    forall a: MethodDef, b: MethodDef ensures MethodOrder(a, b) <= 0 || MethodOrder(b, a) <= 0 {
      MethodOrderLaws(a, b);
    }
    forall a: MethodDef, b: MethodDef, c: MethodDef | MethodOrder(a, b) <= 0 && MethodOrder(b, c) <= 0
      ensures MethodOrder(a, c) <= 0
    {
      MethodOrderTransitive(a, b, c);
    }
  }

  // ------------------------------------------------------------ properties

  /** `PropertyDefinitionComparer.Compare`: by name; among same-named
      properties a non-indexed one comes first and indexers compare by
      their parameter lists. */
  function PropertyOrder(pa: PropertyDef, pb: PropertyDef): (r: int)
    ensures pa.name != pb.name ==> r == Ordinal(pa.name, pb.name)
    ensures r == 0 <==>
      pa.name == pb.name
      && ((|pa.parameters| == 0 && |pb.parameters| == 0)
          || (|pa.parameters| > 0 && |pa.parameters| == |pb.parameters|
              && GetSignature(pa.parameters) == GetSignature(pb.parameters)))
  {
    OrdinalZeroIffEqual(pa.name, pb.name);
    var res := Ordinal(pa.name, pb.name);
    if res != 0 then res
    else if |pa.parameters| == 0 && |pb.parameters| == 0 then 0
    else if |pa.parameters| == 0 then -1
    else if |pb.parameters| == 0 then 1
    else ParameterListOrder(pa.parameters, pb.parameters)
  }

  /** Swapping the arguments negates the result. */
  lemma PropertyOrderAntisymmetric(pa: PropertyDef, pb: PropertyDef)
    ensures PropertyOrder(pa, pb) == -PropertyOrder(pb, pa)
  {
    OrdinalAntisymmetric(pa.name, pb.name);
    ParameterListOrderAntisymmetric(pa.parameters, pb.parameters);
  }

  /** Two non-indexed properties of one name tie whatever their types. */
  lemma SameNamedPropertiesTie(pa: PropertyDef, pb: PropertyDef)
    requires pa.name == pb.name && |pa.parameters| == 0 && |pb.parameters| == 0
    requires pa.propertyType != pb.propertyType
    ensures PropertyOrder(pa, pb) == 0
  {
  }

  lemma PropertyOrderIsPreorder()
    ensures TotalPreorder(PropertyOrder)
  {
    forall a: PropertyDef, b: PropertyDef ensures PropertyOrder(a, b) <= 0 || PropertyOrder(b, a) <= 0 {
      PropertyOrderAntisymmetric(a, b);
    }
    forall a: PropertyDef, b: PropertyDef, c: PropertyDef | PropertyOrder(a, b) <= 0 && PropertyOrder(b, c) <= 0
      ensures PropertyOrder(a, c) <= 0
    {
      OrdinalChain(a.name, b.name, c.name);
      OrdinalZeroIffEqual(a.name, b.name);
      OrdinalZeroIffEqual(b.name, c.name);
      ParameterListOrderTransitive(a.parameters, b.parameters, c.parameters);
    }
  }
}
