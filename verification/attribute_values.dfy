/** The values a custom attribute carries (AttributeData.cs): how an
    argument is rendered, how an enum-typed argument is named after the
    enum's constants, and how the arguments passed to an attribute's
    constructor are matched with the properties that expose them, by
    reading the IL of the constructor and of the property getters. */
module AttributeValues {
  import opened Wrappers
  import opened Strings
  import opened Tables
  import opened Seqs

  // ------------------------------------------------------------ values

  /** A boxed argument value, reduced to the kinds the rendering tells
      apart. */
  datatype Value = Null | Str(s: string) | Int(i: int) | Bool(b: bool)

  /** `object.ToString()` of a value; a null value has no text. */
  function ValueText(v: Value): (r: Option<string>)
    ensures r.None? <==> v.Null?
    ensures v.Str? ==> r == Some(v.s)
  {
    match v
    case Null => None
    case Str(s) => Some(s)
    case Int(i) => Some(IntToString(i))
    case Bool(b) => Some(BoolToString(b))
  }

  /** The text of an integer or boolean value reads back as that value, so
      the rendering loses nothing for them. */
  lemma ValueTextRoundTrip(v: Value)
    ensures v.Int? && IsInt32(v.i) ==> ParseInt32(ValueText(v).value) == Some(v.i)
    ensures v.Bool? ==> ParseBool(ValueText(v).value) == Ok(v.b)
  {
    if v.Int? && IsInt32(v.i) {
      IntToStringRoundTrip(v.i);
    }
    if v.Bool? {
      ParseBoolRoundTrip(v.b);
    }
  }

  // ------------------------------------------------------------ enums

  /** A field of an enum type: its name and its constant, when it has one. */
  datatype EnumField = EnumField(name: string, constant: Option<int>)

  /** What resolving an argument's type yields: nothing, a type that is not
      an enum, or an enum with the full names of its custom attributes'
      types and its fields in declaration order. */
  datatype ArgType =
    | Unresolved
    | NotEnum
    | Enum(attributeTypes: seq<string>, fields: seq<EnumField>)

  /** A constructor or named argument of a custom attribute. */
  datatype Arg = Arg(argType: ArgType, value: Value)

  const FlagsAttributeName := "System.FlagsAttribute"

  /** `IsFlaggedEnum`: the enum carries `[Flags]`. */
  predicate IsFlagged(attributeTypes: seq<string>) {
    FlagsAttributeName in attributeTypes
  }

  /** Index of the first field whose constant equals `i`, or -1. */
  function FirstWithConstant(fields: seq<EnumField>, i: int): (r: int)
    ensures -1 <= r < |fields|
    ensures r >= 0 ==> fields[r].constant == Some(i)
    ensures forall k :: 0 <= k < |fields| && (r == -1 || k < r) ==> fields[k].constant != Some(i)
  {
    if |fields| == 0 then -1
    else if fields[0].constant == Some(i) then 0
    else
      var r := FirstWithConstant(fields[1..], i);
      if r == -1 then -1 else r + 1
  }

  /** `GetEnumValue`: the name of the first field whose constant equals
      the value; the value itself when none does. */
  function GetEnumValue(fields: seq<EnumField>, v: Value): (r: Value)
    ensures r != v ==> v.Int? && r.Str?
    ensures v.Int? && (exists k :: 0 <= k < |fields| && fields[k].constant == Some(v.i)) ==> r.Str?
    ensures r.Str? && r != v ==>
      exists k :: 0 <= k < |fields| && fields[k].constant == Some(v.i) && r.s == fields[k].name &&
        forall j :: 0 <= j < k ==> fields[j].constant != Some(v.i)
    ensures v.Int? && (forall k :: 0 <= k < |fields| ==> fields[k].constant != Some(v.i)) ==> r == v
  {
    if !v.Int? then v
    else
      var k := FirstWithConstant(fields, v.i);
      if k == -1 then v else Str(fields[k].name)
  }

  // ------------------------------------------------------------ flags

  const Two64: int := 0x1_0000_0000_0000_0000

  function Pow2(k: nat): (r: nat)
    ensures r > 0
  {
    if k == 0 then 1 else 2 * Pow2(k - 1)
  }

  /** A 64-bit flags value as the set of its bit positions. For `long` and
      `ulong` (two's complement for negative values) `(flags & flag) ==
      flag` is containment, `flags -= flag` for a contained flag is the
      removal of its bits (`FlagArithmetic.SubtractIsClear`), and `flag == 0` is the empty
      set. Enum constants and values share the enum's underlying type, so
      the signed and the unsigned loops of the source do the same thing on
      these sets. */
  type Flags = set<nat>

  /** The bit positions set in the 64-bit representation of `i`. */
  function Bits(i: int): (r: Flags)
    ensures forall k :: k in r ==> k < 64
  {
    set k: nat | k < 64 && (i % Two64) / Pow2(k) % 2 == 1
  }

  /** The flag a field contributes; a field without a constant counts as
      no bits, which the scan skips just as it skips a zero constant. */
  function FlagOf(f: EnumField): Flags {
    if f.constant.Some? then Bits(f.constant.value) else {}
  }

  /** The flags of all the fields, in declaration order. */
  function FlagsOf(fields: seq<EnumField>): (r: seq<Flags>)
    ensures |r| == |fields|
    ensures forall k :: 0 <= k < |fields| ==> r[k] == FlagOf(fields[k])
  {
    seq(|fields|, k requires 0 <= k < |fields| => FlagOf(fields[k]))
  }

  /** The outcome of the flag scan: the indices of the flags named, in
      the order they are named, and the bits no named flag accounted for. */
  datatype Scan = Scan(taken: seq<nat>, rest: Flags)

  /** The loop of `GetFlaggedEnumValue` over the first `n` flags, from the
      last to the first: a nonzero flag contained in the remaining bits is
      named, and its bits are subtracted. */
  function FlagScan(fs: seq<Flags>, n: nat, flags: Flags): (r: Scan)
    requires n <= |fs|
    ensures forall k :: 0 <= k < |r.taken| ==> r.taken[k] < n
    ensures forall k, l :: 0 <= k < l < |r.taken| ==> r.taken[k] > r.taken[l]
    ensures forall k :: 0 <= k < |r.taken| ==> fs[r.taken[k]] != {} && fs[r.taken[k]] <= flags
    ensures forall k :: 0 <= k < |r.taken| ==> fs[r.taken[k]] * r.rest == {}
    ensures r.rest <= flags
  {
    if n == 0 then Scan([], flags)
    else
      var c := fs[n - 1];
      if c != {} && c <= flags then
        var s := FlagScan(fs, n - 1, flags - c);
        Scan([n - 1] + s.taken, s.rest)
      else
        FlagScan(fs, n - 1, flags)
  }

  /** The names of the fields at `taken`. */
  function FieldNames(fields: seq<EnumField>, taken: seq<nat>): (r: seq<string>)
    requires forall k :: 0 <= k < |taken| ==> taken[k] < |fields|
    ensures |r| == |taken|
    ensures forall k :: 0 <= k < |taken| ==> r[k] == fields[taken[k]].name
  {
    seq(|taken|, k requires 0 <= k < |taken| => fields[taken[k]].name)
  }

  /** The union of the flags at `taken`. */
  function UnionOf(fs: seq<Flags>, taken: seq<nat>): Flags
    requires forall k :: 0 <= k < |taken| ==> taken[k] < |fs|
  {
    if |taken| == 0 then {} else fs[taken[0]] + UnionOf(fs, taken[1..])
  }

  /** `GetFlaggedEnumValue`: the names of the flags found in the value,
      last-declared first, separated by ", "; bits no field accounts for
      are dropped, and a zero value names nothing, even when the enum has
      a zero-valued member. */
  function GetFlaggedEnumValue(fields: seq<EnumField>, i: int): (r: Value)
    ensures r.Str?
    ensures Bits(i) == {} ==> r == Str("")
  {
    var s := FlagScan(FlagsOf(fields), |fields|, Bits(i));
    Str(Join(FieldNames(fields, s.taken), ", "))
  }

  /** No two of the flags at `t` share a bit. */
  predicate PairwiseDisjoint(fs: seq<Flags>, t: seq<nat>)
    requires forall k :: 0 <= k < |t| ==> t[k] < |fs|
  {
    forall k, l :: 0 <= k < l < |t| ==> fs[t[k]] * fs[t[l]] == {}
  }

  /** The named flags are pairwise disjoint. */
  lemma {:induction false} ScanDisjoint(fs: seq<Flags>, n: nat, flags: Flags)
    requires n <= |fs|
    ensures PairwiseDisjoint(fs, FlagScan(fs, n, flags).taken)
  {
    if n > 0 {
      var c := fs[n - 1];
      if c != {} && c <= flags {
        ScanDisjoint(fs, n - 1, flags - c);
        var s := FlagScan(fs, n - 1, flags - c);
        var r := FlagScan(fs, n, flags);
        assert r.taken == [n - 1] + s.taken;
        forall k, l | 0 <= k < l < |r.taken|
          ensures fs[r.taken[k]] * fs[r.taken[l]] == {}
        {
          assert r.taken[l] == s.taken[l - 1];
          if k == 0 {
            var d := fs[s.taken[l - 1]];
            assert d <= flags - c;
            assert c * d == {};
            assert fs[r.taken[k]] == c;
          } else {
            assert r.taken[k] == s.taken[k - 1];
          }
        }
      } else {
        ScanDisjoint(fs, n - 1, flags);
        assert FlagScan(fs, n, flags) == FlagScan(fs, n - 1, flags);
      }
    }
  }

  /** The named flags and the dropped bits together make up the value:
      reading the names back as flags gives the value minus the bits no
      field accounts for. */
  lemma {:induction false} ScanCovers(fs: seq<Flags>, n: nat, flags: Flags)
    requires n <= |fs|
    ensures var r := FlagScan(fs, n, flags);
      flags == r.rest + UnionOf(fs, r.taken)
  {
    if n > 0 {
      var c := fs[n - 1];
      if c != {} && c <= flags {
        ScanCovers(fs, n - 1, flags - c);
        var s := FlagScan(fs, n - 1, flags - c);
        var r := FlagScan(fs, n, flags);
        assert r.taken[1..] == s.taken;
        assert UnionOf(fs, r.taken) == c + UnionOf(fs, s.taken);
        assert flags == (flags - c) + c;
      } else {
        ScanCovers(fs, n - 1, flags);
      }
    }
  }

  /** No flag is passed over that the dropped bits would still contain:
      the scan names as much as the greedy order allows. */
  lemma {:induction false} ScanMaximal(fs: seq<Flags>, n: nat, flags: Flags, i: nat)
    requires i < n <= |fs|
    requires fs[i] != {}
    requires i !in FlagScan(fs, n, flags).taken
    ensures !(fs[i] <= FlagScan(fs, n, flags).rest)
  {
    var c := fs[n - 1];
    if c != {} && c <= flags {
      var s := FlagScan(fs, n - 1, flags - c);
      assert FlagScan(fs, n, flags).taken == [n - 1] + s.taken;
      ScanMaximal(fs, n - 1, flags - c, i);
    } else if i < n - 1 {
      ScanMaximal(fs, n - 1, flags, i);
    }
  }

  /** `GetArgumentValue`: an argument of a resolvable enum type is named
      after the enum's constants (all contained flags for a `[Flags]`
      enum, the single matching constant otherwise); any other value is
      passed through. */
  function ArgumentValue(a: Arg): (r: Value)
    ensures !a.argType.Enum? ==> r == a.value
    ensures a.argType.Enum? && IsFlagged(a.argType.attributeTypes) && a.value.Int? ==> r.Str?
    ensures a.argType.Enum? && !IsFlagged(a.argType.attributeTypes) ==> r == GetEnumValue(a.argType.fields, a.value)
  {
    match a.argType
    case Unresolved => a.value
    case NotEnum => a.value
    case Enum(attributeTypes, fields) =>
      if IsFlagged(attributeTypes) && a.value.Int? then GetFlaggedEnumValue(fields, a.value.i)
      else GetEnumValue(fields, a.value)
  }

  // ------------------------------------------------------------ constructor IL

  /** The instructions the mapping looks at; every other opcode is
      `OtherInstr`. `LdargParam` is `ldarg`/`ldarg.s` with the index of its
      operand parameter (`this` has index -1). A field operand is named by
      its declaring type's full name and its own name. */
  datatype Instr =
    | Ldarg1
    | Ldarg2
    | Ldarg3
    | LdargParam(index: int)
    | Stfld(declaringType: string, field: string)
    | Ldfld(declaringType: string, field: string)
    | OtherInstr

  /** The argument number an instruction loads (1-based, as `ldarg.1`
      counts past `this`), if it is one of the argument loads. */
  function LoadedArgument(ins: Instr): (r: Option<int>)
    ensures r.Some? <==> ins.Ldarg1? || ins.Ldarg2? || ins.Ldarg3? || ins.LdargParam?
    ensures ins.LdargParam? ==> r == Some(ins.index + 1)
  {
    match ins
    case Ldarg1 => Some(1)
    case Ldarg2 => Some(2)
    case Ldarg3 => Some(3)
    case LdargParam(i) => Some(i + 1)
    case _ => None
  }

  /** A store into a field of the constructor's own type. */
  predicate OwnStore(ins: Instr, owner: string) {
    ins.Stfld? && ins.declaringType == owner
  }

  /** The two variables of the loop in `CreateArgumentFieldMapping`. */
  datatype StoreState = StoreState(pending: Option<int>, mapping: Option<Table<string, int>>)

  /** One iteration: a load makes its argument pending; a store into a
      field of the constructor's own type consumes the pending argument and
      records it, 0-based, unless the field already has an entry; a store
      into another type's field, an own-type store with nothing pending,
      and every other instruction change nothing. */
  function StoreStep(st: StoreState, ins: Instr, owner: string): StoreState {
    if LoadedArgument(ins).Some? then st.(pending := LoadedArgument(ins))
    else if !OwnStore(ins, owner) || st.pending.None? then st
    else
      var m := st.mapping.GetOr([]);
      StoreState(None, Some(if ins.field in Keys(m) then m else Put(m, ins.field, st.pending.value - 1)))
  }

  /** The loop state after the first `n` instructions. */
  function ScanStores(body: seq<Instr>, n: nat, owner: string): (r: StoreState)
    requires n <= |body|
    ensures r.mapping.Some? ==> Distinct(r.mapping.value) && |r.mapping.value| > 0
  {
    if n == 0 then StoreState(None, None)
    else StoreStep(ScanStores(body, n - 1, owner), body[n - 1], owner)
  }

  /** `CreateArgumentFieldMapping`: for each field of the constructor's
      own type, the 0-based index of the constructor argument first stored
      into it; None (C# `null`) when no argument is stored. */
  function ArgumentFieldMapping(body: seq<Instr>, owner: string): (r: Option<Table<string, int>>)
    ensures r.Some? ==> Distinct(r.value) && |r.value| > 0
  {
    ScanStores(body, |body|, owner).mapping
  }

  /** Argument `a` is pending before instruction `i`: it was loaded last,
      and no store into the own type's fields has consumed it since. */
  predicate PendingAt(body: seq<Instr>, i: nat, owner: string, a: int)
    requires i <= |body|
  {
    exists j :: 0 <= j < i && LoadedArgument(body[j]) == Some(a) &&
      forall k :: j < k < i ==> LoadedArgument(body[k]).None? && !OwnStore(body[k], owner)
  }

  /** The loop's pending argument is the last load not yet consumed; a
      store into another type's field leaves it pending. */
  lemma {:induction false} PendingCharacterized(body: seq<Instr>, i: nat, owner: string, a: int)
    requires i <= |body|
    ensures ScanStores(body, i, owner).pending == Some(a) <==> PendingAt(body, i, owner, a)
  {
    if i > 0 {
      var ins := body[i - 1];
      PendingCharacterized(body, i - 1, owner, a);
      if LoadedArgument(ins).Some? {
        if PendingAt(body, i, owner, a) {
          var j :| 0 <= j < i && LoadedArgument(body[j]) == Some(a) &&
            forall k :: j < k < i ==> LoadedArgument(body[k]).None? && !OwnStore(body[k], owner);
          assert j == i - 1;
        }
        if LoadedArgument(ins) == Some(a) {
          assert PendingAt(body, i, owner, a);
        }
      } else if !OwnStore(ins, owner) {
        if PendingAt(body, i, owner, a) {
          var j :| 0 <= j < i && LoadedArgument(body[j]) == Some(a) &&
            forall k :: j < k < i ==> LoadedArgument(body[k]).None? && !OwnStore(body[k], owner);
          assert j < i - 1;
          assert PendingAt(body, i - 1, owner, a);
        }
        if PendingAt(body, i - 1, owner, a) {
          var j :| 0 <= j < i - 1 && LoadedArgument(body[j]) == Some(a) &&
            forall k :: j < k < i - 1 ==> LoadedArgument(body[k]).None? && !OwnStore(body[k], owner);
          assert PendingAt(body, i, owner, a);
        }
      }
    }
  }

  /** Instruction `i` stores a pending argument into a field of the
      constructor's own type. */
  predicate Effective(body: seq<Instr>, i: nat, owner: string)
    requires i < |body|
  {
    OwnStore(body[i], owner) && ScanStores(body, i, owner).pending.Some?
  }

  /** Instruction `i` is the first effective store into field `f`. */
  predicate FirstStoreOf(body: seq<Instr>, i: nat, owner: string, f: string)
    requires i < |body|
  {
    Effective(body, i, owner) && body[i].field == f &&
    forall j :: 0 <= j < i && Effective(body, j, owner) ==> body[j].field != f
  }

  /** The table after `n` instructions, an absent one read as empty. */
  function MappingAfter(body: seq<Instr>, n: nat, owner: string): Table<string, int>
    requires n <= |body|
  {
    ScanStores(body, n, owner).mapping.GetOr([])
  }

  /** The mapping exists exactly when some argument is stored into a
      field of the constructor's own type. */
  lemma {:induction false} MappingExists(body: seq<Instr>, n: nat, owner: string)
    requires n <= |body|
    ensures ScanStores(body, n, owner).mapping.None? <==> forall i :: 0 <= i < n ==> !Effective(body, i, owner)
  {
    if n > 0 {
      MappingExists(body, n - 1, owner);
      if !Effective(body, n - 1, owner) {
        assert ScanStores(body, n, owner).mapping == ScanStores(body, n - 1, owner).mapping;
      }
    }
  }

  /** The mapping has an entry for exactly the fields some argument is
      stored into. */
  lemma {:induction false} MappingKeys(body: seq<Instr>, n: nat, owner: string, f: string)
    requires n <= |body|
    ensures Get(MappingAfter(body, n, owner), f).Some? <==>
      exists i :: 0 <= i < n && Effective(body, i, owner) && body[i].field == f
  {
    if n > 0 {
      MappingKeys(body, n - 1, owner, f);
      MappingStep(body, n, owner, f);
    }
  }

  /** Each entry holds the argument that the first store into its field
      consumed, counted from 0: later stores into the same field are
      ignored. */
  lemma {:induction false} MappingValues(body: seq<Instr>, n: nat, owner: string, f: string, i: nat)
    requires i < n <= |body|
    requires FirstStoreOf(body, i, owner, f)
    ensures Get(MappingAfter(body, n, owner), f) == Some(ScanStores(body, i, owner).pending.value - 1)
  {
    MappingStep(body, n, owner, f);
    if i < n - 1 {
      MappingValues(body, n - 1, owner, f, i);
    } else {
      MappingKeys(body, n - 1, owner, f);
    }
  }

  /** One instruction of the scan changes the entry of `f` only when it is
      an effective store into `f` and `f` has no entry yet. */
  lemma MappingStep(body: seq<Instr>, n: nat, owner: string, f: string)
    requires 0 < n <= |body|
    ensures Get(MappingAfter(body, n, owner), f) ==
      if Effective(body, n - 1, owner) && body[n - 1].field == f && Get(MappingAfter(body, n - 1, owner), f).None?
      then Some(ScanStores(body, n - 1, owner).pending.value - 1)
      else Get(MappingAfter(body, n - 1, owner), f)
  {
    var m := MappingAfter(body, n - 1, owner);
    var ins := body[n - 1];
    var st := ScanStores(body, n - 1, owner);
    if Effective(body, n - 1, owner) {
      if ins.field in Keys(m) {
        assert MappingAfter(body, n, owner) == m;
      } else {
        assert MappingAfter(body, n, owner) == Put(m, ins.field, st.pending.value - 1);
      }
    } else {
      assert MappingAfter(body, n, owner) == m;
    }
  }

  // ------------------------------------------------------------ property getters

  /** A property of the attribute type: its name, and the body of its
      getter when it has a getter with a body. */
  datatype Getter = Getter(propertyName: string, getterBody: Option<seq<Instr>>)

  /** A load of a field of the constructor's own type. */
  predicate OwnLoad(ins: Instr, owner: string) {
    ins.Ldfld? && ins.declaringType == owner
  }

  /** Index of the first load of a field of `owner` in `body`, or -1. */
  function FirstOwnLoad(body: seq<Instr>, owner: string): (r: int)
    ensures -1 <= r < |body|
    ensures r >= 0 ==> OwnLoad(body[r], owner)
    ensures forall k :: 0 <= k < |body| && (r == -1 || k < r) ==> !OwnLoad(body[k], owner)
  {
    if |body| == 0 then -1
    else if OwnLoad(body[0], owner) then 0
    else
      var r := FirstOwnLoad(body[1..], owner);
      if r == -1 then -1 else r + 1
  }

  /** The field of `owner` a getter reads first, if any. */
  function GetterField(g: Getter, owner: string): (r: Option<string>)
    ensures r.Some? <==> g.getterBody.Some? && exists k :: 0 <= k < |g.getterBody.value| && OwnLoad(g.getterBody.value[k], owner)
  {
    if g.getterBody.None? then None
    else
      var k := FirstOwnLoad(g.getterBody.value, owner);
      if k == -1 then None else Some(g.getterBody.value[k].field)
  }

  predicate ReadsOwnField(g: Getter, owner: string) {
    GetterField(g, owner).Some?
  }

  /** `CreatePropertyFieldMapping`: in property order, each property whose
      getter reads a field of the type, paired with the first such field.
      The source's null for "no pair" and an empty table behave alike in
      the one place that reads it. */
  function PropertyFieldMapping(ps: seq<Getter>, owner: string): (r: seq<(string, string)>)
    ensures |r| <= |ps|
    ensures forall i :: 0 <= i < |r| ==>
      exists k :: 0 <= k < |ps| && GetterField(ps[k], owner) == Some(r[i].1) && r[i].0 == ps[k].propertyName
  {
    var sel := Filter(ps, g => ReadsOwnField(g, owner));
    assert forall i :: 0 <= i < |sel| ==> sel[i] in ps;
    seq(|sel|, i requires 0 <= i < |sel| => (sel[i].propertyName, GetterField(sel[i], owner).value))
  }

  /** The loop over the property mapping in the constructor's
      `PopulateMapping`: each property whose field received a constructor
      argument gets that argument's value; an index past the arguments is
      an `ArgumentOutOfRangeException`, a property already in the mapping
      an `ArgumentException`. */
  function PropertyValues(
    mapping: Option<Table<string, Value>>, pairs: seq<(string, string)>, fields: Table<string, int>, ca: seq<Arg>)
    : (r: Result<Option<Table<string, Value>>>)
    ensures r.Err? ==> r.error.ArgumentOutOfRangeException? || r.error.ArgumentException?
    decreases |pairs|
  {
    if |pairs| == 0 then Ok(mapping)
    else
      match Get(fields, pairs[0].1)
      case None => PropertyValues(mapping, pairs[1..], fields, ca)
      case Some(a) =>
        if a < 0 || a >= |ca| then Err(ArgumentOutOfRangeException("index"))
        else
          var t :- Add(mapping.GetOr([]), pairs[0].0, ArgumentValue(ca[a]));
          PropertyValues(Some(t), pairs[1..], fields, ca)
  }

  /** `r` holds `v` under `name`. */
  predicate Holds(r: Option<Table<string, Value>>, name: string, v: Value) {
    r.Some? && Get(r.value, name) == Some(v)
  }

  /** On success every property whose field received an argument holds
      that argument's value, and the entries already present are kept. */
  lemma {:induction false} PropertyValuesOk(
    mapping: Option<Table<string, Value>>, pairs: seq<(string, string)>, fields: Table<string, int>, ca: seq<Arg>)
    requires PropertyValues(mapping, pairs, fields, ca).Ok?
    ensures mapping.Some? ==> PropertyValues(mapping, pairs, fields, ca).value.Some?
    ensures forall k :: k in Keys(mapping.GetOr([])) ==>
      Get(PropertyValues(mapping, pairs, fields, ca).value.GetOr([]), k) == Get(mapping.GetOr([]), k)
    ensures forall i :: 0 <= i < |pairs| && Get(fields, pairs[i].1).Some? ==>
      0 <= Get(fields, pairs[i].1).value < |ca| &&
      Holds(PropertyValues(mapping, pairs, fields, ca).value, pairs[i].0, ArgumentValue(ca[Get(fields, pairs[i].1).value]))
    decreases |pairs|
  {
    if |pairs| > 0 {
      var rest := pairs[1..];
      var r := PropertyValues(mapping, pairs, fields, ca).value;
      match Get(fields, pairs[0].1)
      case None =>
        PropertyValuesOk(mapping, rest, fields, ca);
        assert r == PropertyValues(mapping, rest, fields, ca).value;
        forall i | 0 <= i < |pairs| && Get(fields, pairs[i].1).Some?
          ensures 0 <= Get(fields, pairs[i].1).value < |ca|
          ensures Holds(r, pairs[i].0, ArgumentValue(ca[Get(fields, pairs[i].1).value]))
        {
          assert pairs[i] == rest[i - 1];
        }
      case Some(a) =>
        var m := mapping.GetOr([]);
        var t := Put(m, pairs[0].0, ArgumentValue(ca[a]));
        PropertyValuesOk(Some(t), rest, fields, ca);
        assert r == PropertyValues(Some(t), rest, fields, ca).value;
        assert pairs[0].0 in Keys(t);
        forall i | 0 <= i < |pairs| && Get(fields, pairs[i].1).Some?
          ensures 0 <= Get(fields, pairs[i].1).value < |ca|
          ensures Holds(r, pairs[i].0, ArgumentValue(ca[Get(fields, pairs[i].1).value]))
        {
          if i > 0 {
            assert pairs[i] == rest[i - 1];
          } else {
            assert Some(t).GetOr([]) == t;
            assert Get(r.GetOr([]), pairs[0].0) == Get(t, pairs[0].0);
          }
        }
    }
  }

  /** A constructor argument index past the arguments makes the mapping
      fail. */
  lemma {:induction false} PropertyValuesOutOfRange(
    mapping: Option<Table<string, Value>>, pairs: seq<(string, string)>, fields: Table<string, int>, ca: seq<Arg>, i: nat)
    requires i < |pairs|
    requires Get(fields, pairs[i].1).Some?
    requires var a := Get(fields, pairs[i].1).value; a < 0 || a >= |ca|
    ensures PropertyValues(mapping, pairs, fields, ca).Err?
    decreases |pairs|
  {
    if PropertyValues(mapping, pairs, fields, ca).Ok? {
      PropertyValuesOk(mapping, pairs, fields, ca);
    }
  }

  // ------------------------------------------------------------ the mapping

  /** A constructor of an attribute type, as `TypeHelper.GetMethod`
      resolves it: its declaring type's full name, the full names of its
      parameter types, its body (None when it has none), and the
      properties of its declaring type. */
  datatype Ctor = Ctor(
    declaringTypeFullName: string,
    parameterTypes: seq<string>,
    body: Option<seq<Instr>>,
    properties: seq<Getter>)

  const DecimalConstantAttributeName := "System.Runtime.CompilerServices.DecimalConstantAttribute"
  const BindableAttributeName := "System.ComponentModel.BindableAttribute"
  const BindableSupportName := "System.ComponentModel.BindableSupport"
  const BooleanName := "System.Boolean"

  /** The "Bindable" value of a one-argument `BindableAttribute`: the
      argument itself for a `bool` parameter; for a `BindableSupport`
      parameter `No` (0) is false and `Yes` (1) is true, while `Default`
      (2) and any other value, and any other parameter type, are not
      implemented. */
  function BindableValue(parameterType: string, arg: Arg): (r: Result<Value>)
    ensures parameterType == BooleanName ==> r == Ok(arg.value)
    ensures parameterType == BindableSupportName && arg.value.Int? ==>
      (r.Ok? <==> arg.value.i == 0 || arg.value.i == 1) &&
      (r.Ok? ==> r.value == Bool(arg.value.i == 1)) &&
      (r.Err? ==> r.error == NotImplementedException)
    ensures parameterType == BindableSupportName && !arg.value.Int? ==> r == Err(InvalidCastException)
    ensures parameterType != BooleanName && parameterType != BindableSupportName ==> r == Err(NotImplementedException)
  {
    if parameterType == BooleanName then Ok(arg.value)
    else if parameterType == BindableSupportName then
      if !arg.value.Int? then Err(InvalidCastException)
      else if arg.value.i == 0 then Ok(Bool(false))
      else if arg.value.i == 1 then Ok(Bool(true))
      else Err(NotImplementedException)
    else Err(NotImplementedException)
  }

  /** The constructor overload of `PopulateMapping`. A constructor without
      a body adds nothing. `DecimalConstantAttribute` adds "Value" (the
      decimal's text, computed from the arguments, is supplied) and
      `BindableAttribute` with one argument adds "Bindable"; every other
      attribute, and a `BindableAttribute` with another argument count,
      maps each property whose getter reads a field that the constructor
      stores an argument into to that argument's value. */
  function ConstructorMapping(mapping: Option<Table<string, Value>>, ctor: Ctor, ca: seq<Arg>, decimalText: string)
    : (r: Result<Option<Table<string, Value>>>)
    requires |ctor.parameterTypes| > 0
    ensures ctor.body.None? ==> r == Ok(mapping)
    ensures ctor.body.Some? && ctor.declaringTypeFullName == DecimalConstantAttributeName ==>
      (r.Ok? <==> "Value" !in Keys(mapping.GetOr([]))) && (r.Ok? ==> Holds(r.value, "Value", Str(decimalText)))
    ensures ctor.body.Some? && ctor.declaringTypeFullName == BindableAttributeName && |ca| == 1 ==>
      (r.Ok? <==> BindableValue(ctor.parameterTypes[0], ca[0]).Ok? && "Bindable" !in Keys(mapping.GetOr([]))) &&
      (r.Ok? ==> Holds(r.value, "Bindable", BindableValue(ctor.parameterTypes[0], ca[0]).value))
  {
    if ctor.body.None? then Ok(mapping)
    else if ctor.declaringTypeFullName == DecimalConstantAttributeName then
      var t :- Add(mapping.GetOr([]), "Value", Str(decimalText));
      Ok(Some(t))
    else if ctor.declaringTypeFullName == BindableAttributeName && |ca| == 1 then
      var v :- BindableValue(ctor.parameterTypes[0], ca[0]);
      var t :- Add(mapping.GetOr([]), "Bindable", v);
      Ok(Some(t))
    else
      match ArgumentFieldMapping(ctor.body.value, ctor.declaringTypeFullName)
      case None => Ok(mapping)
      case Some(fields) =>
        PropertyValues(mapping, PropertyFieldMapping(ctor.properties, ctor.declaringTypeFullName), fields, ca)
  }

  /** The named-argument overload of `PopulateMapping`: each named
      argument, in order, is added with its value; a repeated name is an
      `ArgumentException`. */
  function NamedMapping(mapping: Option<Table<string, Value>>, named: seq<(string, Arg)>)
    : (r: Result<Option<Table<string, Value>>>)
    ensures r.Err? ==> r.error.ArgumentException?
    decreases |named|
  {
    if |named| == 0 then Ok(mapping)
    else
      var t :- Add(mapping.GetOr([]), named[0].0, ArgumentValue(named[0].1));
      NamedMapping(Some(t), named[1..])
  }

  /** The entries the named arguments contribute. */
  function NamedEntries(named: seq<(string, Arg)>): (r: Table<string, Value>)
    ensures |r| == |named|
    ensures forall i :: 0 <= i < |named| ==> r[i] == Entry(named[i].0, ArgumentValue(named[i].1))
  {
    seq(|named|, i requires 0 <= i < |named| => Entry(named[i].0, ArgumentValue(named[i].1)))
  }

  /** Adding the named arguments to a table succeeds exactly when their
      names are distinct and new to it, and then appends one entry per
      argument, in order. */
  lemma {:induction false} NamedMappingAppends(t: Table<string, Value>, named: seq<(string, Arg)>)
    requires Distinct(t)
    ensures NamedMapping(Some(t), named).Ok? <==> Distinct(t + NamedEntries(named))
    ensures NamedMapping(Some(t), named).Ok? ==> NamedMapping(Some(t), named).value == Some(t + NamedEntries(named))
    decreases |named|
  {
    if |named| == 0 {
      assert t + NamedEntries(named) == t;
    } else {
      var k := named[0].0;
      var t' := t + [Entry(k, ArgumentValue(named[0].1))];
      NamedEntriesSplit(t, named);
      if k in Keys(t) {
        KeysAppend(t, NamedEntries(named));
        DistinctKeysExcludeRepeat(t, NamedEntries(named), k);
      } else {
        assert Put(t, k, ArgumentValue(named[0].1)) == t';
        NamedMappingAppends(t', named[1..]);
      }
    }
  }

  /** The named entries after `t` are the first one followed by the rest. */
  lemma NamedEntriesSplit(t: Table<string, Value>, named: seq<(string, Arg)>)
    requires |named| > 0
    ensures NamedEntries(named)[0] == Entry(named[0].0, ArgumentValue(named[0].1))
    ensures t + NamedEntries(named) == (t + [Entry(named[0].0, ArgumentValue(named[0].1))]) + NamedEntries(named[1..])
  {
    var e := NamedEntries(named);
    assert e == [e[0]] + NamedEntries(named[1..]);
  }

  /** A key of `t` that is also the first key of `e` makes `t + e` repeat
      a key. */
  lemma {:induction false} DistinctKeysExcludeRepeat(t: Table<string, Value>, e: Table<string, Value>, k: string)
    requires |e| > 0 && e[0].key == k && k in Keys(t)
    ensures !Distinct(t + e)
  {
    if t[0].key == k {
      assert (t + e)[1..] == t[1..] + e;
      KeysAppend(t[1..], e);
      EntryKeyIn(e, 0);
    } else {
      assert (t + e)[1..] == t[1..] + e;
      DistinctKeysExcludeRepeat(t[1..], e, k);
    }
  }

  /** An attribute instance as `CreateAttributeMapping` sees it: whether
      its type resolves, its named property arguments, its constructor as
      `TypeHelper.GetMethod` resolves it, its constructor arguments, and
      the text of the decimal a `DecimalConstantAttribute` denotes. */
  datatype AttrInstance = AttrInstance(
    resolved: bool,
    namedArguments: seq<(string, Arg)>,
    ctor: Option<Ctor>,
    constructorArguments: seq<Arg>,
    decimalText: string)

  /** `CreateAttributeMapping`: nothing for an attribute whose type does
      not resolve; otherwise the named arguments first, then what the
      constructor contributes when it resolves and takes parameters. */
  function CreateAttributeMapping(a: AttrInstance): (r: Result<Option<Table<string, Value>>>)
    ensures !a.resolved ==> r == Ok(None)
  {
    if !a.resolved then Ok(None)
    else
      var named :- NamedMapping(None, a.namedArguments);
      if a.ctor.None? || |a.ctor.value.parameterTypes| == 0 then Ok(named)
      else ConstructorMapping(named, a.ctor.value, a.constructorArguments, a.decimalText)
  }

  /** On success every named argument keeps its value in the final
      mapping: the constructor only adds properties, and one it would add
      under a name already present makes the whole mapping fail. */
  lemma NamedArgumentsKept(a: AttrInstance, i: nat)
    requires CreateAttributeMapping(a).Ok?
    requires a.resolved && i < |a.namedArguments|
    ensures Holds(CreateAttributeMapping(a).value, a.namedArguments[i].0, ArgumentValue(a.namedArguments[i].1))
  {
    var named := a.namedArguments;
    assert NamedMapping(None, named) == NamedMapping(Some([]), named);
    NamedMappingAppends([], named);
    var t := NamedEntries(named);
    assert [] + t == t;
    DistinctGet(t, i);
    EntryKeyIn(t, i);
    if a.ctor.Some? && |a.ctor.value.parameterTypes| > 0 {
      ConstructorMappingKeeps(Some(t), a.ctor.value, a.constructorArguments, a.decimalText, named[i].0);
    }
  }

  /** A successful constructor mapping keeps every entry it was given. */
  lemma ConstructorMappingKeeps(
    mapping: Option<Table<string, Value>>, ctor: Ctor, ca: seq<Arg>, decimalText: string, k: string)
    requires |ctor.parameterTypes| > 0
    requires ConstructorMapping(mapping, ctor, ca, decimalText).Ok?
    requires mapping.Some? && k in Keys(mapping.value)
    ensures Holds(ConstructorMapping(mapping, ctor, ca, decimalText).value, k, Get(mapping.value, k).value)
  {
    if ctor.body.Some? && ctor.declaringTypeFullName != DecimalConstantAttributeName &&
      !(ctor.declaringTypeFullName == BindableAttributeName && |ca| == 1)
    {
      var fields := ArgumentFieldMapping(ctor.body.value, ctor.declaringTypeFullName);
      if fields.Some? {
        var pairs := PropertyFieldMapping(ctor.properties, ctor.declaringTypeFullName);
        assert ConstructorMapping(mapping, ctor, ca, decimalText) == PropertyValues(mapping, pairs, fields.value, ca);
        PropertyValuesOk(mapping, pairs, fields.value, ca);
        assert mapping.GetOr([]) == mapping.value;
      }
    }
  }

  /** In a table without repeated keys, looking up an entry's key finds
      that entry's value. */
  lemma {:induction false} DistinctGet<K(!new), V>(t: Table<K, V>, i: nat)
    requires Distinct(t) && i < |t|
    ensures Get(t, t[i].key) == Some(t[i].value)
  {
    if i > 0 {
      EntryKeyIn(t[1..], i - 1);
      DistinctGet(t[1..], i - 1);
    }
  }
}
