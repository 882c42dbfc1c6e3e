/** The custom attributes attached to one API element (XMLAttributes.cs):
    a name group keyed by attribute type, or, when the same type is applied
    more than once, by the type together with its sorted property values.
    TODO markers are not listed but remembered; compiler-generated markers
    are dropped. */
module Attributes {
  import opened Wrappers
  import opened Strings
  import opened Tables
  import opened Sorting
  import opened XmlNodes
  import opened Counters
  import opened XmlData
  import opened NameGroup
  import opened AttributeProperties

  datatype AttributesData = AttributesData(
    keys: Table<string, string>,
    properties: Table<string, PropTable>,
    isTodo: bool,
    comment: Option<string>)

  /** A freshly constructed, never loaded `XMLAttributes`. */
  const NoAttributes := AttributesData([], [], false, None)

  // ------------------------------------------------------------ keys

  /** The siblings an XPath `attribute[@name='X']` selects. */
  function SameNamed(siblings: seq<Node>, name: string): (r: seq<Node>)
    ensures |r| <= |siblings|
  {
    if |siblings| == 0 then []
    else (if siblings[0].name == "attribute" && Attr(siblings[0], "name") == Some(name) then [siblings[0]] else [])
         + SameNamed(siblings[1..], name)
  }

  /** The `name=value` parts of every `properties/property` grandchild, in
      document order; a missing value gives `name=`, a missing name throws. */
  function PropertyParts(ps: seq<Node>): (r: Result<seq<string>>)
    decreases |ps|
  {
    if |ps| == 0 then Ok([])
    else
      var first :- Parts(ChildrenNamed(ps[0].children, "property"));
      var rest :- PropertyParts(ps[1..]);
      Ok(first + rest)
  }

  function Parts(qs: seq<Node>): (r: Result<seq<string>>)
    ensures r.Ok? ==> |r.value| == |qs|
    ensures r.Ok? <==> forall q :: q in qs ==> "name" in q.attrs
    decreases |qs|
  {
    if |qs| == 0 then Ok([])
    else if "name" !in qs[0].attrs then Err(NullReferenceException)
    else
      var rest :- Parts(qs[1..]);
      assert forall q :: q in qs[1..] ==> q in qs;
      Ok([qs[0].attrs["name"] + "=" + GetAttribute(qs[0], "value")] + rest)
  }

  /** Each part followed by `;`. */
  function Terminated(parts: seq<string>): (r: string)
    ensures |parts| > 0 ==> |r| > 0 && r[|r| - 1] == ';'
  {
    if |parts| == 0 then "" else parts[0] + ";" + Terminated(parts[1..])
  }

  /** The key of an attribute applied more than once: the type name, then
      each part in sorted order, every one followed by `;`. `cmp` is the
      culture-sensitive string order of `ArrayList.Sort`. */
  function MultiKey(name: string, parts: seq<string>, cmp: (string, string) -> int): (r: string)
    ensures StartsWith(r, name + ";") && r[|r| - 1] == ';'
  {
    var s := Sort(parts, cmp);
    assert (name + ";" + Terminated(s))[..|name + ";"|] == name + ";";
    name + ";" + Terminated(s)
  }

  /** `GetNodeKey`: the type name when no sibling shares it, the composite
      key otherwise. */
  function NodeKey(name: string, n: Node, siblings: seq<Node>, cmp: (string, string) -> int): (r: Result<string>)
    ensures |SameNamed(siblings, name)| <= 1 ==> r == Ok(name)
    ensures |SameNamed(siblings, name)| > 1 && r.Ok? ==> exists parts :: r.value == MultiKey(name, parts, cmp)
  {
    if |SameNamed(siblings, name)| > 1 then
      var parts :- PropertyParts(ChildrenNamed(n.children, "properties"));
      Ok(MultiKey(name, parts, cmp))
    else Ok(name)
  }

  /** The composite key does not depend on the order the properties were
      written in, provided the string order distinguishes distinct strings. */
  lemma KeyIgnoresPropertyOrder(name: string, parts: seq<string>, parts': seq<string>, cmp: (string, string) -> int)
    requires TotalOrder(cmp)
    requires multiset(parts) == multiset(parts')
    ensures MultiKey(name, parts, cmp) == MultiKey(name, parts', cmp)
  {
    SortPermutationInvariant(parts, parts', cmp);
  }

  /** A key never looks like a TODO marker unless its type name does: the
      TODO test `LoadExtraData` repeats on the key can never succeed. */
  lemma KeyIsNotTodo(name: string, n: Node, siblings: seq<Node>, cmp: (string, string) -> int)
    requires !IsMonoTODOAttribute(Some(name))
    ensures var r := NodeKey(name, n, siblings, cmp); r.Ok? ==> !IsMonoTODOAttribute(Some(r.value))
  {
    var r := NodeKey(name, n, siblings, cmp);
    if r.Ok? && r.value != name {
      var k := r.value;
      assert k[|k| - 1] == ';';
      NotEndsWith(k, "MonoDocumentationNoteAttribute", ';');
      NotEndsWith(k, "MonoExtensionAttribute", ';');
      NotEndsWith(k, "MonoLimitationAttribute", ';');
      NotEndsWith(k, "MonoNotSupportedAttribute", ';');
      NotEndsWith(k, "TODOAttribute", ';');
    }
  }

  lemma NotEndsWith(s: string, suffix: string, c: char)
    requires |suffix| > 0 && |s| > 0 && s[|s| - 1] == c && suffix[|suffix| - 1] != c
    ensures !EndsWith(s, suffix)
  {
  }

  // ------------------------------------------------------------ loading

  /** The message of a TODO marker: the first property's value, if any. */
  function TodoComment(n: Node, previous: Option<string>): Option<string> {
    match ChildNamed(n, "properties")
    case Some(p) =>
      if |p.children| > 0 && "value" in p.children[0].attrs then Some(p.children[0].attrs["value"]) else previous
    case None => previous
  }

  /** One child of the `attributes` element: `CheckIfAdd`, then
      `GetNodeKey` and `LoadExtraData`. */
  function LoadStep(s: AttributesData, name: string, n: Node, siblings: seq<Node>, cmp: (string, string) -> int): (r: Result<AttributesData>)
    ensures IsMonoTODOAttribute(Some(name)) ==> r == Ok(s.(isTodo := true, comment := TodoComment(n, s.comment)))
    ensures IsMeaninglessAttribute(Some(name)) ==> r == Ok(s)
    ensures r.Ok? && !IsMonoTODOAttribute(Some(name)) ==> r.value.isTodo == s.isTodo && r.value.comment == s.comment
    ensures r.Ok? && (IsMonoTODOAttribute(Some(name)) || IsMeaninglessAttribute(Some(name))) ==> r.value.keys == s.keys
    ensures r.Ok? && !IsMonoTODOAttribute(Some(name)) && !IsMeaninglessAttribute(Some(name)) ==>
      NodeKey(name, n, siblings, cmp).Ok? && r.value.keys == Put(s.keys, NodeKey(name, n, siblings, cmp).value, name)
  {
    MeaninglessIsNotTodo(Some(name));
    if IsMonoTODOAttribute(Some(name)) then
      Ok(s.(isTodo := true, comment := TodoComment(n, s.comment)))
    else if IsMeaninglessAttribute(Some(name)) then Ok(s)
    else
      var key :- NodeKey(name, n, siblings, cmp);
      var keys := Put(s.keys, key, name);
      match ChildNamed(n, "properties")
      case Some(p) =>
        var props :- LoadProps(key, p);
        Ok(s.(keys := keys, properties := Put(s.properties, key, props)))
      case None => Ok(s.(keys := keys))
  }

  function StepFn(siblings: seq<Node>, cmp: (string, string) -> int): (AttributesData, string, Node) -> Result<AttributesData> {
    (s: AttributesData, name: string, n: Node) => LoadStep(s, name, n, siblings, cmp)
  }

  /** `XMLAttributes.LoadData`. */
  function LoadAttributes(node: Node, cmp: (string, string) -> int): (r: Result<AttributesData>)
    ensures node.name != "attributes" ==> r == Err(FormatException("Expecting <attributes>"))
  {
    assert "Expecting <" + "attributes" + ">" == "Expecting <attributes>";
    LoadGroup(node, "attributes", NoAttributes, StepFn(node.children, cmp))
  }

  /** The names a key table may hold: never a TODO marker, never the
      compiler-generated marker. */
  ghost predicate ListedNames(keys: Table<string, string>) {
    forall i :: 0 <= i < |keys| ==> !IsMonoTODOAttribute(Some(keys[i].value)) && !IsMeaninglessAttribute(Some(keys[i].value))
  }

  lemma {:induction false} PutListed(keys: Table<string, string>, k: string, name: string)
    requires ListedNames(keys) && !IsMonoTODOAttribute(Some(name)) && !IsMeaninglessAttribute(Some(name))
    ensures ListedNames(Put(keys, k, name))
    decreases |keys|
  {
    if |keys| > 0 && keys[0].key != k {
      PutListed(keys[1..], k, name);
      assert Put(keys, k, name) == [keys[0]] + Put(keys[1..], k, name);
    }
  }

  /** Markers rejected by `CheckIfAdd` are never keyed. */
  lemma {:induction false} LoadedKeysListed(children: seq<Node>, s: AttributesData, siblings: seq<Node>, cmp: (string, string) -> int)
    requires ListedNames(s.keys) && Distinct(s.keys)
    ensures var r := LoadChildren(children, s, StepFn(siblings, cmp));
      r.Ok? ==> ListedNames(r.value.keys) && Distinct(r.value.keys)
    decreases |children|
  {
    if |children| > 0 && "name" in children[0].attrs {
      var name := children[0].attrs["name"];
      var s' := LoadStep(s, name, children[0], siblings, cmp);
      if s'.Ok? {
        if !IsMonoTODOAttribute(Some(name)) && !IsMeaninglessAttribute(Some(name)) {
          PutListed(s.keys, NodeKey(name, children[0], siblings, cmp).value, name);
        }
        LoadedKeysListed(children[1..], s'.value, siblings, cmp);
      }
    }
  }

  /** Some child is a TODO marker. */
  predicate AnyTodoChild(cs: seq<Node>) {
    |cs| > 0 && (IsMonoTODOAttribute(Attr(cs[0], "name")) || AnyTodoChild(cs[1..]))
  }

  /** The group is flagged TODO exactly when some child is a TODO marker. */
  lemma {:induction false} LoadedTodo(children: seq<Node>, s: AttributesData, siblings: seq<Node>, cmp: (string, string) -> int)
    ensures var r := LoadChildren(children, s, StepFn(siblings, cmp));
      r.Ok? ==> (r.value.isTodo <==> s.isTodo || AnyTodoChild(children))
    decreases |children|
  {
    if |children| > 0 && "name" in children[0].attrs {
      var s' := LoadStep(s, children[0].attrs["name"], children[0], siblings, cmp);
      if s'.Ok? {
        LoadedTodo(children[1..], s'.value, siblings, cmp);
      }
    }
  }

  // ------------------------------------------------------------ comparing

  /** `CompareToInner` for one matched key: the two property tables are
      compared, and the warnings merged, only when both sides have one. */
  function AttributeInner(key: string, node: Node, own: AttributesData, otherProps: Table<string, PropTable>): (r: Outcome)
    ensures Get(own.properties, key).None? || Get(otherProps, key).None? ==> r == Outcome(node, Zero)
    ensures Get(own.properties, key).Some? && Get(otherProps, key).Some? ==>
      var w := DiffCount(Get(own.properties, key).value, Get(otherProps, key).value);
      r.delta == Zero.(Warning := w, WarningTotal := w)
    ensures WarningsOnly(r.delta)
  {
    var op := Get(otherProps, key);
    var tp := Get(own.properties, key);
    if op.None? || tp.None? then Outcome(node, Zero)
    else
      var w := DiffCount(tp.value, op.value);
      var nc := CompareProps(tp.value, op.value, node, Zero);
      assert nc.1 == Zero.(Warning := w);
      WarningDelta(w);
      Outcome(nc.0, PartialDelta(nc.1))
  }

  /** Merged partial-to-partial, `w` warnings count in the total too. */
  lemma WarningDelta(w: nat)
    ensures PartialDelta(Zero.(Warning := w)) == Zero.(Warning := w, WarningTotal := w)
  {
  }

  /** Counts that record nothing but warnings. */
  predicate WarningsOnly(c: Counters) {
    c == Zero.(Warning := c.Warning, WarningTotal := c.Warning) && c.Warning >= 0
  }

  function OtherProperties(other: Option<AttributesData>): Table<string, PropTable> {
    if other.Some? then other.value.properties else []
  }

  function OtherKeyTable(other: Option<AttributesData>): Option<Table<string, string>> {
    if other.Some? then Some(other.value.keys) else None
  }

  function AttributeName(s: string): string { s }

  /** `XMLAttributes.CompareTo`: the attribute group classified by key; the
      matched attributes add only warnings. */
  function CompareAttributes(own: AttributesData, other: Option<AttributesData>, parent: Node): (r: Result<GroupOutcome>)
    ensures r.Ok?
    ensures ClassOnly(r.value.classCounts) && WarningsOnly(r.value.innerCounts)
    ensures r.value.parent.name == parent.name && r.value.parent.attrs == parent.attrs
    ensures Distinct(own.keys) && (other.Some? ==> Distinct(other.value.keys)) ==>
      r.value.classCounts == Zero.(
        Present := |Keys(own.keys) * OtherKeys(OtherKeyTable(other))|,
        Missing := |Keys(own.keys) - OtherKeys(OtherKeyTable(other))|,
        Extra := |OtherKeys(OtherKeyTable(other)) - Keys(own.keys)|)
  {
    var inner := (k: string, v: string, n: Node) => Ok(AttributeInner(k, n, own, OtherProperties(other)));
    var okeys := OtherKeyTable(other);
    CompareGroupInner(WarningsOnly, "attributes", "attribute", own.keys, okeys, AttributeName, inner, parent);
    CompareGroup("attributes", "attribute", own.keys, okeys, AttributeName, inner, parent)
  }

  // ------------------------------------------------------------ TODO markers

  /** The TODO bookkeeping of parameters, classes and assemblies: one more
      unfinished item in the partial, total and error counts. */
  function CountTodo(c: Counters): (r: Counters)
    ensures r == Plus(c, Zero.(Todo := 1, TodoTotal := 1, ErrorTotal := 1))
  {
    c.(Todo := c.Todo + 1, TodoTotal := c.TodoTotal + 1, ErrorTotal := c.ErrorTotal + 1)
  }

  /** The TODO bookkeeping of members: the partial and error counts grow,
      the unfinished total does not. */
  function MemberTodo(c: Counters): (r: Counters)
    ensures r == Plus(c, Zero.(Todo := 1, ErrorTotal := 1))
  {
    c.(Todo := c.Todo + 1, ErrorTotal := c.ErrorTotal + 1)
  }

  /** `true` when the second side's attributes carry a TODO marker. */
  predicate OtherIsTodo(o: Option<AttributesData>) {
    o.Some? && o.value.isTodo
  }

  /** The attribute half of a comparison, run only when either side has
      attributes (a missing first side compares as empty): the attribute
      group's counters are merged partial-to-partial, and a TODO marker on
      the second side is counted with `todo` and flagged on the element. */
  function CompareMarkedAttributes(own: Option<AttributesData>, other: Option<AttributesData>,
                                   parent: Node, c: Counters, todo: Counters -> Counters): (r: (Node, Counters))
    ensures own.None? && other.None? ==> r == (parent, c)
    ensures r.0.name == parent.name
    ensures OtherIsTodo(other) ==> Attr(r.0, "error") == Some("todo")
  {
    if own.None? && other.None? then (parent, c)
    else
      var g := CompareAttributes(own.GetOr(NoAttributes), other, parent).value;
      var c := AddPartialToPartial(c, g.Total());
      if OtherIsTodo(other) then (MarkTodo(g.parent, other.value.comment), todo(c))
      else (g.parent, c)
  }

  /** The counts the attribute half adds: the attribute group's
      classification and warnings, plus the TODO marker. */
  lemma MarkedAttributesCounts(own: Option<AttributesData>, other: Option<AttributesData>, parent: Node, c: Counters,
                                todo: Counters -> Counters, mark: Counters)
    requires own.Some? || other.Some?
    requires forall x :: todo(x) == Plus(x, mark)
    ensures var r := CompareMarkedAttributes(own, other, parent, c, todo).1;
      var g := CompareAttributes(own.GetOr(NoAttributes), other, parent).value;
      r == Plus(Plus(c, PartialDelta(Plus(g.classCounts, g.innerCounts))), if OtherIsTodo(other) then mark else Zero)
  {
    var g := CompareAttributes(own.GetOr(NoAttributes), other, parent).value;
    MergesAreAdditions(c, g.Total());
  }
}
