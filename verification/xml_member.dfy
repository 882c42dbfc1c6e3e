/** What every member group shares (XMLMember.cs): per key, the member's
    access flags as written (`attrib`) and its custom attributes; comparing
    a matched member compares the attributes and then the access flags,
    rendered by the member kind's `ConvertToString`. */
module Member {
  import opened Wrappers
  import opened Strings
  import opened Tables
  import opened XmlNodes
  import opened Counters
  import opened XmlData
  import opened Attributes

  /** The member groups, told apart only where `ConvertToString` differs. */
  datatype MemberKind = MethodMembers | FieldMembers | EventMembers | PropertyMembers

  /** `access` and `attributeMap`, both keyed like the group; a table the
      source leaves `null` is the empty table here, as every lookup in it
      yields `null` either way. */
  datatype MemberBase = MemberBase(access: Table<string, string>, attributeMap: Table<string, AttributesData>)

  const NoMember := MemberBase([], [])

  /** `XMLMember.LoadExtraData`: the `attrib` string, when present, and the
      first `attributes` child, when there is one, are stored under `key`;
      an entry already stored under the key is overwritten. */
  function LoadMemberExtra(b: MemberBase, key: string, n: Node, cmp: (string, string) -> int): (r: Result<MemberBase>)
    ensures "attrib" in n.attrs && r.Ok? ==> r.value.access == Put(b.access, key, n.attrs["attrib"])
    ensures "attrib" !in n.attrs && r.Ok? ==> r.value.access == b.access
    ensures ChildNamed(n, "attributes").None? ==> r.Ok? && r.value.attributeMap == b.attributeMap
    ensures ChildNamed(n, "attributes").Some? ==>
      var a := LoadAttributes(ChildNamed(n, "attributes").value, cmp);
      (r.Ok? <==> a.Ok?) && (r.Ok? ==> r.value.attributeMap == Put(b.attributeMap, key, a.value))
  {
    var access := if "attrib" in n.attrs then Put(b.access, key, n.attrs["attrib"]) else b.access;
    match ChildNamed(n, "attributes")
    case None => Ok(MemberBase(access, b.attributeMap))
    case Some(child) =>
      var a :- LoadAttributes(child, cmp);
      Ok(MemberBase(access, Put(b.attributeMap, key, a)))
  }

  // ------------------------------------------------------------ access flags

  /** The 32 bits of an `int`, two's complement. */
  function ToBits(i: int): bv32
    requires IsInt32(i)
  {
    (if i < 0 then i + 0x1_0000_0000 else i) as bv32
  }

  /** The `int` whose bits these are. */
  function FromBits(b: bv32): (r: int)
    ensures IsInt32(r)
  {
    if b < 0x8000_0000 then b as int else b as int - 0x1_0000_0000
  }

  // `MethodAttributes` values, section II.23.1.10 of ECMA-335.
  const MemberAccessMask: bv32 := 0x0007
  const FamilyAccess: bv32 := 0x0004
  const FamOrAssemAccess: bv32 := 0x0005
  const VtableLayoutMask: bv32 := 0x0100
  const PinvokeImpl: bv32 := 0x2000
  const HasSecurity: bv32 := 0x4000
  const RequireSecObject: bv32 := 0x8000
  const ReservedMask: bv32 := 0xD000

  /** The first steps of the methods' `ConvertToString`: the reserved and
      vtable-layout bits are cleared, and when any bit of `FamORAssem` is
      set, those bits are replaced by `Family`. */
  function ClearedMethodAttributes(att: bv32): bv32 {
    var ma := att & !ReservedMask & !VtableLayoutMask;
    if ma & FamOrAssemAccess != 0 then (ma & !FamOrAssemAccess) | FamilyAccess else ma
  }

  /** The bits the methods' `ConvertToString` renders. The two security
      checks come after the reserved bits are cleared; when the
      `PinvokeImpl` bit is set the value is recomputed from the raw input
      (C#'s unchecked `int` subtraction is the 32-bit subtraction). */
  function NormaliseMethodBits(att: bv32): bv32 {
    var ma := ClearedMethodAttributes(att);
    var ma := if ma & HasSecurity != 0 then att - HasSecurity else ma;
    var ma := if ma & RequireSecObject != 0 then att - RequireSecObject else ma;
    if ma & PinvokeImpl != 0 then att - PinvokeImpl else ma
  }

  /** The security checks can never fire: their bits are part of the
      reserved mask cleared just before. */
  lemma SecurityChecksDead(att: bv32)
    ensures ClearedMethodAttributes(att) & (HasSecurity | RequireSecObject) == 0
  {
  }

  /** Without `PinvokeImpl`, the access part is mapped as the bit test
      dictates: `FamORAssem` and `Private` read as `Family`, `Assembly` as
      `Public`; `Public`, `Family`, `FamANDAssem` and `PrivateScope` are
      kept. Every other bit outside the two cleared masks is kept. */
  lemma MethodAccessMapping(att: bv32)
    requires att & PinvokeImpl == 0
    ensures var a := att & MemberAccessMask;
      var a' := NormaliseMethodBits(att) & MemberAccessMask;
      && (a == 6 ==> a' == 6)
      && (a == 4 ==> a' == 4)
      && (a == 5 ==> a' == 4)
      && (a == 1 ==> a' == 4)
      && (a == 3 ==> a' == 6)
      && (a == 2 ==> a' == 2)
      && (a == 0 ==> a' == 0)
    ensures NormaliseMethodBits(att) & !MemberAccessMask == att & !(ReservedMask | VtableLayoutMask | MemberAccessMask)
  {
    SecurityChecksDead(att);
  }

  /** With `PinvokeImpl` set, the result is the raw input less that bit:
      the reserved bits and the access part come back unnormalised. */
  lemma PinvokeUsesRawValue(att: bv32)
    requires att & PinvokeImpl != 0
    ensures NormaliseMethodBits(att) == att & !PinvokeImpl
  {
    SecurityChecksDead(att);
  }

  /** The number a method's access flags normalise to. */
  function NormalisedMethodValue(att: int): int
    requires IsInt32(att)
  {
    FromBits(NormaliseMethodBits(ToBits(att)))
  }

  /** `ConvertToString` of each member kind; `Enum.ToString` is rendered as
      the decimal value, which keeps distinct values distinct. Properties do
      not override the base version, which returns `null`. */
  function ConvertToString(kind: MemberKind, att: int): (r: Option<string>)
    requires IsInt32(att)
    ensures r.None? <==> kind == PropertyMembers
    ensures r.Some? ==> |r.value| > 0
  {
    match kind
    case MethodMembers => Some(IntToString(NormalisedMethodValue(att)))
    case FieldMembers => Some(IntToString(att))
    case EventMembers => Some(IntToString(att))
    case PropertyMembers => None
  }

  function Shown(s: Option<string>): string {
    if s.Some? then s.value else ""
  }

  /** The access half of `XMLMember.CompareToInner`: nothing when this side
      has no `attrib`; otherwise both strings go through `Int32.Parse` (which
      may throw) and `ConvertToString`, an absent second side reading as
      the empty string, and a difference is one warning. */
  function AccessWarnings(kind: MemberKind, own: MemberBase, other: MemberBase, key: string): (r: Result<seq<string>>)
    ensures Get(own.access, key).None? ==> r == Ok([])
    ensures r.Ok? ==> |r.value| <= 1
    ensures Get(own.access, key).Some? ==>
      (r.Ok? <==> ParseInt32(Get(own.access, key).value).Some?
                  && (Get(other.access, key).Some? ==> ParseInt32(Get(other.access, key).value).Some?))
  {
    var acc := Get(own.access, key);
    if acc.None? then Ok([])
    else
      var a :- ParseInt32Result(acc.value);
      var accName := ConvertToString(kind, a);
      var oacc := Get(other.access, key);
      var oaccName :-
        if oacc.None? then Ok(Some(""))
        else
          var o :- ParseInt32Result(oacc.value);
          Ok(ConvertToString(kind, o));
      if accName != oaccName then Ok(["Incorrect attributes: '" + Shown(accName) + "' != '" + Shown(oaccName) + "'"])
      else Ok([])
  }

  /** For methods, fields and events a matched member warns about its access
      exactly when the second side has no `attrib`, or when the two values
      differ after normalisation. */
  lemma AccessWarnsIffDiffers(kind: MemberKind, own: MemberBase, other: MemberBase, key: string)
    requires kind != PropertyMembers
    requires Get(own.access, key).Some? && ParseInt32(Get(own.access, key).value).Some?
    requires Get(other.access, key).Some? ==> ParseInt32(Get(other.access, key).value).Some?
    ensures var a := ParseInt32(Get(own.access, key).value).value;
      var r := AccessWarnings(kind, own, other, key);
      r.Ok? && (r.value != [] <==>
        Get(other.access, key).None?
        || (kind == MethodMembers && NormalisedMethodValue(a) != NormalisedMethodValue(ParseInt32(Get(other.access, key).value).value))
        || (kind != MethodMembers && a != ParseInt32(Get(other.access, key).value).value))
  {
    var a := ParseInt32(Get(own.access, key).value).value;
    var oacc := Get(other.access, key);
    if oacc.Some? {
      var o := ParseInt32(oacc.value).value;
      if kind == MethodMembers {
        if ConvertToString(kind, a) == ConvertToString(kind, o) {
          IntToStringInjective(NormalisedMethodValue(a), NormalisedMethodValue(o));
        }
      } else if ConvertToString(kind, a) == ConvertToString(kind, o) {
        IntToStringInjective(a, o);
      }
    }
  }

  /** Properties render both sides as `null`, so a matched property warns
      about its access only when the second side has no `attrib` at all. */
  lemma PropertyAccessWarnsIffAbsent(own: MemberBase, other: MemberBase, key: string)
    requires Get(own.access, key).Some? && ParseInt32(Get(own.access, key).value).Some?
    requires Get(other.access, key).Some? ==> ParseInt32(Get(other.access, key).value).Some?
    ensures var r := AccessWarnings(PropertyMembers, own, other, key);
      r.Ok? && (r.value != [] <==> Get(other.access, key).None?)
  {
  }

  /** `XMLMember.CompareToInner` on counters `c`: the attributes of either
      side, with a TODO marker counted in the partial and error counts only,
      then the access warning. */
  function MemberInner(kind: MemberKind, own: MemberBase, other: MemberBase, key: string, node: Node, c: Counters)
    : (r: Result<(Node, Counters)>)
    ensures r.Ok? <==> AccessWarnings(kind, own, other, key).Ok?
    ensures r.Ok? ==> r.value.0.name == node.name
    ensures r.Ok? && Get(own.attributeMap, key).None? && Get(other.attributeMap, key).None? ==>
      r.value.1 == c.(Warning := c.Warning + |AccessWarnings(kind, own, other, key).value|)
    ensures r.Ok? ==> r.value.1.Todo == c.Todo + (if OtherIsTodo(Get(other.attributeMap, key)) then 1 else 0)
    ensures r.Ok? ==> r.value.1.ErrorTotal == c.ErrorTotal + (if OtherIsTodo(Get(other.attributeMap, key)) then 1 else 0)
    ensures r.Ok? ==> r.value.1.TodoTotal == c.TodoTotal
    ensures r.Ok? ==> r.value.1.Warning >= c.Warning
  {
    var att := Get(own.attributeMap, key);
    var oatt := Get(other.attributeMap, key);
    if att.Some? || oatt.Some? then
      MarkedAttributesCounts(att, oatt, node, c, MemberTodo, Zero.(Todo := 1, ErrorTotal := 1));
      var (n, c') := CompareMarkedAttributes(att, oatt, node, c, MemberTodo);
      var ws :- AccessWarnings(kind, own, other, key);
      Ok(AddWarnings(n, c', ws))
    else
      var ws :- AccessWarnings(kind, own, other, key);
      Ok(AddWarnings(node, c, ws))
  }
}
