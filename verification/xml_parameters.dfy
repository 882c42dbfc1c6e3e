/** One method parameter as the diff engine sees it (XMLParameter.cs) and
    the group of a method's parameters (XMLParameters.cs), which is keyed by
    position rather than by name. */
module Parameters {
  import opened Wrappers
  import opened Strings
  import opened Tables
  import opened XmlNodes
  import opened Counters
  import opened XmlData
  import opened NameGroup
  import opened Attributes

  datatype ParameterData = ParameterData(
    name: string,
    ptype: string,
    attrib: string,
    direction: Option<string>,
    isUnsafe: bool,
    isOptional: bool,
    defaultValue: Option<string>,
    attributes: Option<AttributesData>)

  /** An optional boolean attribute: `false` when absent, `Boolean.Parse` otherwise. */
  function OptionalBool(n: Node, key: string): (r: Result<bool>)
    ensures key !in n.attrs ==> r == Ok(false)
    ensures key in n.attrs ==> r == ParseBool(n.attrs[key])
  {
    if key in n.attrs then ParseBool(n.attrs[key]) else Ok(false)
  }

  /** `XMLParameter.LoadData`: the element must be a `parameter`; `name`,
      `type` and `attrib` are required (reading them dereferences null
      otherwise); `unsafe` and `optional` go through `Boolean.Parse`;
      only the first child is looked at, and only when it is `attributes`. */
  function LoadParameter(node: Node, cmp: (string, string) -> int): (r: Result<ParameterData>)
    ensures node.name != "parameter" ==> r == Err(ArgumentException("Expecting <parameter>"))
    ensures node.name == "parameter" && ("name" !in node.attrs || "type" !in node.attrs || "attrib" !in node.attrs) ==>
      r == Err(NullReferenceException)
    ensures r.Ok? ==> && Attr(node, "name") == Some(r.value.name)
                      && Attr(node, "type") == Some(r.value.ptype)
                      && Attr(node, "attrib") == Some(r.value.attrib)
                      && r.value.direction == Attr(node, "direction")
                      && r.value.defaultValue == Attr(node, "defaultValue")
    ensures r.Ok? ==> (r.value.attributes.Some? <==> |node.children| > 0 && node.children[0].name == "attributes")
    ensures r.Ok? ==> OptionalBool(node, "unsafe") == Ok(r.value.isUnsafe) && OptionalBool(node, "optional") == Ok(r.value.isOptional)
  {
    if node.name != "parameter" then Err(ArgumentException("Expecting <parameter>"))
    else if "name" !in node.attrs || "type" !in node.attrs || "attrib" !in node.attrs then Err(NullReferenceException)
    else
      var isUnsafe :- OptionalBool(node, "unsafe");
      var isOptional :- OptionalBool(node, "optional");
      var attributes :-
        if |node.children| > 0 && node.children[0].name == "attributes" then
          var a :- LoadAttributes(node.children[0], cmp);
          Ok(Some(a))
        else Ok(None);
      Ok(ParameterData(node.attrs["name"], node.attrs["type"], node.attrs["attrib"],
                       Attr(node, "direction"), isUnsafe, isOptional, Attr(node, "defaultValue"), attributes))
  }

  /** `String.Format` renders a null argument as the empty string. */
  function Shown(s: Option<string>): string {
    if s.Some? then s.value else ""
  }

  function ShownDefault(s: Option<string>): string {
    if s.Some? then s.value else "(no default value)"
  }

  /** One warning text, when the two renderings of a field differ. */
  function Mismatch(differs: bool, prefix: string, mine: string, theirs: string): (r: seq<string>)
    ensures |r| == (if differs then 1 else 0)
  {
    if differs then [prefix + mine + " != " + theirs] else []
  }

  /** The scalar field warnings of `XMLParameter.CompareTo`, in the order
      the fields are checked. */
  function ParameterWarnings(p: ParameterData, o: ParameterData): (r: seq<string>)
    ensures |r| <= 7
  {
    Mismatch(p.name != o.name, "Parameter name is wrong: ", p.name, o.name)
    + Mismatch(p.ptype != o.ptype, "Parameter type is wrong: ", p.ptype, o.ptype)
    + Mismatch(p.attrib != o.attrib, "Parameter attributes wrong: ", p.attrib, o.attrib)
    + Mismatch(p.direction != o.direction, "Parameter direction wrong: ", Shown(p.direction), Shown(o.direction))
    + Mismatch(p.isUnsafe != o.isUnsafe, "Parameter unsafe wrong: ", BoolToString(p.isUnsafe), BoolToString(o.isUnsafe))
    + Mismatch(p.isOptional != o.isOptional, "Parameter optional wrong: ", BoolToString(p.isOptional), BoolToString(o.isOptional))
    + Mismatch(p.defaultValue != o.defaultValue, "Parameter default value wrong: ",
                       ShownDefault(p.defaultValue), ShownDefault(o.defaultValue))
  }

  /** The two parameters agree on every scalar field. */
  predicate SameScalars(p: ParameterData, o: ParameterData) {
    p.(attributes := None) == o.(attributes := None)
  }

  /** A parameter warns about nothing exactly when its scalar fields all
      agree with the other one's; the warning count does not depend on which
      side is which. */
  lemma ParameterWarningsIffDiffer(p: ParameterData, o: ParameterData)
    ensures ParameterWarnings(p, o) == [] <==> SameScalars(p, o)
    ensures |ParameterWarnings(p, o)| == |ParameterWarnings(o, p)|
  {
    if ParameterWarnings(p, o) == [] {
      assert p.name == o.name && p.ptype == o.ptype && p.attrib == o.attrib;
      assert p.direction == o.direction && p.isUnsafe == o.isUnsafe && p.isOptional == o.isOptional;
      assert p.defaultValue == o.defaultValue;
    }
  }

  /** A default-value mismatch against an absent default is reported with
      the placeholder text. */
  lemma MissingDefaultShown(p: ParameterData, o: ParameterData)
    requires SameScalars(p.(defaultValue := None), o.(defaultValue := None))
    requires p.defaultValue == None && o.defaultValue.Some?
    ensures ParameterWarnings(p, o) == ["Parameter default value wrong: (no default value) != " + o.defaultValue.value]
  {
    assert p.name == o.name && p.ptype == o.ptype && p.attrib == o.attrib;
    assert p.direction == o.direction && p.isUnsafe == o.isUnsafe && p.isOptional == o.isOptional;
    assert "Parameter default value wrong: " + "(no default value)" + " != " == "Parameter default value wrong: (no default value) != ";
    assert ParameterWarnings(p, o) == [] + [] + [] + [] + [] + []
      + ["Parameter default value wrong: " + "(no default value)" + " != " + o.defaultValue.value];
  }

  /** `XMLParameter.CompareTo` on fresh counters: the scalar warnings, then
      the attributes. */
  function CompareParameter(p: ParameterData, o: ParameterData, node: Node): (r: (Node, Counters))
    ensures p.attributes.None? && o.attributes.None? ==> r.1 == Zero.(Warning := |ParameterWarnings(p, o)|)
    ensures r.1.Todo == r.1.ErrorTotal == (if OtherIsTodo(o.attributes) then 1 else 0)
    ensures r.1.Warning >= |ParameterWarnings(p, o)|
    ensures r.0.name == node.name
    ensures OtherIsTodo(o.attributes) ==> Attr(r.0, "error") == Some("todo")
  {
    var ws := ParameterWarnings(p, o);
    var (n, c) := AddWarnings(node, Zero, ws);
    if p.attributes.Some? || o.attributes.Some? then
      MarkedAttributesCounts(p.attributes, o.attributes, n, c, CountTodo, Zero.(Todo := 1, TodoTotal := 1, ErrorTotal := 1));
      CompareMarkedAttributes(p.attributes, o.attributes, n, c, CountTodo)
    else (n, c)
  }

  // ------------------------------------------------------------ the group

  /** `XMLParameters.LoadData`: every child needs a `name` and a
      `position`; the position is the key, and a repeated position throws
      (`Hashtable.Add`). */
  function LoadParameters(node: Node, cmp: (string, string) -> int): (r: Result<Table<string, ParameterData>>)
    ensures node.name != "parameters" ==> r == Err(FormatException("Expecting <parameters>"))
    ensures r.Ok? ==> Distinct(r.value) && |r.value| == |node.children|
    ensures r.Ok? ==> forall i :: 0 <= i < |node.children| ==>
      Attr(node.children[i], "position") == Some(r.value[i].key) && LoadParameter(node.children[i], cmp) == Ok(r.value[i].value)
  {
    if node.name != "parameters" then Err(FormatException("Expecting <parameters>"))
    else LoadParameterList(node.children, [], cmp)
  }

  function LoadParameterList(cs: seq<Node>, t: Table<string, ParameterData>, cmp: (string, string) -> int)
    : (r: Result<Table<string, ParameterData>>)
    ensures r.Ok? && Distinct(t) ==> Distinct(r.value)
    ensures r.Ok? ==> |r.value| == |t| + |cs| && r.value[..|t|] == t
    ensures r.Ok? ==> forall i :: 0 <= i < |cs| ==>
      Attr(cs[i], "position") == Some(r.value[|t| + i].key) && LoadParameter(cs[i], cmp) == Ok(r.value[|t| + i].value)
    decreases |cs|
  {
    if |cs| == 0 then Ok(t)
    else
      var n := cs[0];
      if "name" !in n.attrs || "position" !in n.attrs then Err(NullReferenceException)
      else
        var parm :- LoadParameter(n, cmp);
        var t' :- Add(t, n.attrs["position"], parm);
        var r :- LoadParameterList(cs[1..], t', cmp);
        assert r[..|t|] == r[..|t'|][..|t|];
        assert forall i :: 1 <= i < |cs| ==> cs[i] == cs[1..][i - 1] && |t| + i == |t'| + (i - 1);
        Ok(r)
  }

  /** Two parameters at the same position make loading throw. */
  lemma RepeatedPositionThrows(node: Node, cmp: (string, string) -> int, i: nat, j: nat)
    requires i < j < |node.children|
    requires Attr(node.children[i], "position").Some? && Attr(node.children[i], "position") == Attr(node.children[j], "position")
    ensures LoadParameters(node, cmp).Err?
  {
    var r := LoadParameters(node, cmp);
    if r.Ok? {
      DistinctKeysDiffer(r.value, i, j);
    }
  }

  lemma {:induction false} DistinctKeysDiffer<K(!new), V>(t: Table<K, V>, i: nat, j: nat)
    requires Distinct(t) && i < j < |t|
    ensures t[i].key != t[j].key
  {
    if i > 0 {
      DistinctKeysDiffer(t[1..], i - 1, j - 1);
    } else {
      EntryKeyIn(t[1..], j - 1);
    }
  }

  function ParameterName(p: ParameterData): string { p.name }

  /** The inner comparison of a matched position: the first side's
      parameter against the second side's at that position, its counts
      merged partial-to-partial. */
  function ParameterInner(other: Table<string, ParameterData>, k: string, p: ParameterData, node: Node): (r: Result<Outcome>)
    ensures r.Ok?
    ensures Get(other, k).Some? ==> var (n, c) := CompareParameter(p, Get(other, k).value, node);
      r.value == Outcome(n, PartialDelta(c))
  {
    var o := Get(other, k);
    if o.None? then Ok(Outcome(node, Zero))
    else
      var (n, c) := CompareParameter(p, o.value, node);
      Ok(Outcome(n, PartialDelta(c)))
  }

  /** `XMLParameters.CompareTo`: positions classified as present, missing
      or extra, each item labelled with its parameter's name. */
  function CompareParameters(own: Table<string, ParameterData>, other: Option<Table<string, ParameterData>>, parent: Node)
    : (r: Result<GroupOutcome>)
    ensures r.Ok?
    ensures Distinct(own) && (other.Some? ==> Distinct(other.value)) ==> r.value.classCounts == Zero.(
      Present := |Keys(own) * OtherKeys(other)|,
      Missing := |Keys(own) - OtherKeys(other)|,
      Extra := |OtherKeys(other) - Keys(own)|)
    ensures WarnedPartialDelta(r.value.innerCounts)
    ensures ClassOnly(r.value.classCounts)
  {
    var ot := if other.Some? then other.value else [];
    var inner := (k: string, p: ParameterData, n: Node) => ParameterInner(ot, k, p, n);
    PartialDeltaClosed();
    CompareGroupInner(WarnedPartialDelta, "parameters", "parameter", own, other, ParameterName, inner, parent);
    CompareGroup("parameters", "parameter", own, other, ParameterName, inner, parent)
  }

}
