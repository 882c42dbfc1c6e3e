/** The keyed comparison every diff group performs (XMLNameGroup.cs): items
    are loaded into a table from key to display name, and comparing two
    groups walks the first group's table, marking each key present (and
    comparing it further) or missing, then reports the second group's
    unmatched keys as extra. */
module NameGroup {
  import opened Wrappers
  import opened Tables
  import opened XmlNodes
  import opened Counters

  /** What comparing one matched item produced: its finished output element
      and the counts it adds to the group. */
  datatype Outcome = Outcome(node: Node, delta: Counters)

  /** The result of a group comparison. `classCounts` holds the group's own
      present/missing/extra classification, `innerCounts` the sum of what the
      matched items contributed; the source adds both into one running
      counter, and as every step is an addition the sum is the same
      (Counters.MergeOrderIrrelevant). */
  datatype GroupOutcome = GroupOutcome(parent: Node, classCounts: Counters, innerCounts: Counters)
  {
    function Total(): Counters { Plus(classCounts, innerCounts) }
  }

  /** Counts that record only a classification: how many items are
      present, missing and extra. */
  predicate ClassOnly(c: Counters) {
    && c == Zero.(Present := c.Present, Missing := c.Missing, Extra := c.Extra)
    && c.Present >= 0 && c.Missing >= 0 && c.Extra >= 0
  }

  /** The walk over the first table, part way through. */
  datatype Pass<V> = Pass(nodes: seq<Node>, rest: Option<Table<string, V>>, classCounts: Counters, innerCounts: Counters)

  /** The keys of the other side: none when it is absent (`null`). */
  function OtherKeys<V>(other: Option<Table<string, V>>): set<string> {
    if other.Some? then Keys(other.value) else {}
  }

  /** A fresh item element labelled with its display name. */
  function ItemNode(itemName: string, text: string): (r: Node)
    ensures r.name == itemName && Attr(r, "name") == Some(text) && r.children == []
  {
    SetAttr(Element(itemName), "name", text)
  }

  /** The walk over the first group's entries, in table order. */
  function OwnPass<V>(itemName: string, own: Table<string, V>, rest: Option<Table<string, V>>,
                      nameOf: V -> string, inner: (string, V, Node) -> Result<Outcome>): (r: Result<Pass<V>>)
    ensures r.Ok? ==> |r.value.nodes| == |own|
    ensures r.Ok? ==> r.value.rest.Some? == rest.Some?
    ensures r.Ok? && rest.Some? ==> Keys(r.value.rest.value) == Keys(rest.value) - Keys(own)
    ensures r.Ok? && rest.Some? && Distinct(rest.value) ==> Distinct(r.value.rest.value)
    ensures r.Ok? ==> ClassOnly(r.value.classCounts)
    decreases |own|
  {
    if |own| == 0 then Ok(Pass([], rest, Zero, Zero))
    else
      var e := own[0];
      var node := ItemNode(itemName, nameOf(e.value));
      if rest.Some? && e.key in Keys(rest.value) then
        var o :- inner(e.key, e.value, node);
        var tail :- OwnPass(itemName, own[1..], Some(Remove(rest.value, e.key)), nameOf, inner);
        Ok(Pass([o.node] + tail.nodes, tail.rest, tail.classCounts.(Present := tail.classCounts.Present + 1),
                Plus(o.delta, tail.innerCounts)))
      else
        var tail :- OwnPass(itemName, own[1..], rest, nameOf, inner);
        Ok(Pass([SetAttr(node, "presence", "missing")] + tail.nodes, tail.rest,
                tail.classCounts.(Missing := tail.classCounts.Missing + 1), tail.innerCounts))
  }

  /** What remains of the other side once `key` has been matched. */
  function NextRest<V>(rest: Option<Table<string, V>>, key: string): Option<Table<string, V>> {
    if rest.Some? && key in Keys(rest.value) then Some(Remove(rest.value, key)) else rest
  }

  /** One step of the walk: it succeeds exactly when the first entry's
      comparison (if the entry is matched) and the walk over the remaining
      entries succeed, and it adds one present or one missing key to the
      remaining walk's counts. */
  lemma OwnPassStep<V>(itemName: string, own: Table<string, V>, rest: Option<Table<string, V>>,
                       nameOf: V -> string, inner: (string, V, Node) -> Result<Outcome>)
    requires |own| > 0
    ensures var e := own[0];
      var matched := rest.Some? && e.key in Keys(rest.value);
      var o := inner(e.key, e.value, ItemNode(itemName, nameOf(e.value)));
      var tail := OwnPass(itemName, own[1..], NextRest(rest, e.key), nameOf, inner);
      var r := OwnPass(itemName, own, rest, nameOf, inner);
      && (r.Ok? <==> tail.Ok? && (matched ==> o.Ok?))
      && (r.Ok? ==>
            && r.value.classCounts == (if matched then tail.value.classCounts.(Present := tail.value.classCounts.Present + 1)
                                       else tail.value.classCounts.(Missing := tail.value.classCounts.Missing + 1))
            && r.value.innerCounts == (if matched then Plus(o.value.delta, tail.value.innerCounts) else tail.value.innerCounts))
  {
  }

  /** The walk counts each key of the first table exactly once: present
      when the other side has it, missing otherwise. */
  lemma {:induction false} OwnPassCounts<V>(itemName: string, own: Table<string, V>, rest: Option<Table<string, V>>,
                                            nameOf: V -> string, inner: (string, V, Node) -> Result<Outcome>)
    requires Distinct(own)
    ensures var r := OwnPass(itemName, own, rest, nameOf, inner);
      r.Ok? ==> r.value.classCounts == Zero.(Present := |Keys(own) * OtherKeys(rest)|, Missing := |Keys(own) - OtherKeys(rest)|)
    decreases |own|
  {
    if |own| > 0 {
      var e := own[0];
      assert Keys(own) == {e.key} + Keys(own[1..]);
      OwnPassStep(itemName, own, rest, nameOf, inner);
      if rest.Some? && e.key in Keys(rest.value) {
        OwnPassCounts(itemName, own[1..], Some(Remove(rest.value, e.key)), nameOf, inner);
        MatchedStep(e.key, Keys(own[1..]), Keys(rest.value));
      } else {
        OwnPassCounts(itemName, own[1..], rest, nameOf, inner);
        MissingStep(e.key, Keys(own[1..]), OtherKeys(rest));
      }
    }
  }

  lemma MatchedStep(k: string, a: set<string>, b: set<string>)
    requires k !in a && k in b
    ensures |({k} + a) * b| == 1 + |a * (b - {k})|
    ensures ({k} + a) - b == a - (b - {k})
  {
    assert ({k} + a) * b == {k} + a * (b - {k});
  }

  lemma MissingStep(k: string, a: set<string>, b: set<string>)
    requires k !in a && k !in b
    ensures ({k} + a) * b == a * b
    ensures |({k} + a) - b| == 1 + |a - b|
  {
    assert ({k} + a) - b == {k} + (a - b);
  }

  /** The second side's unmatched items, marked extra, in table order. */
  function ExtraNodes<V>(itemName: string, rest: Table<string, V>, nameOf: V -> string): (r: seq<Node>)
    ensures |r| == |rest|
    ensures forall i :: 0 <= i < |rest| ==>
      r[i] == SetAttr(ItemNode(itemName, nameOf(rest[i].value)), "presence", "extra")
  {
    if |rest| == 0 then []
    else [SetAttr(ItemNode(itemName, nameOf(rest[0].value)), "presence", "extra")] + ExtraNodes(itemName, rest[1..], nameOf)
  }

  /** `XMLNameGroup.CompareTo`: the group element lists one item per key of
      either side; the first side's items come first, each either compared
      by `inner` (present) or marked missing, then the second side's
      leftovers marked extra. The group element is attached to `parent` only
      when it has items. With no second side, every item is missing. */
  function CompareGroup<V>(groupName: string, itemName: string,
                           own: Table<string, V>, other: Option<Table<string, V>>,
                           nameOf: V -> string, inner: (string, V, Node) -> Result<Outcome>,
                           parent: Node): (r: Result<GroupOutcome>)
    ensures r.Ok? && Distinct(own) && (other.Some? ==> Distinct(other.value)) ==> r.value.classCounts == Zero.(
      Present := |Keys(own) * OtherKeys(other)|,
      Missing := |Keys(own) - OtherKeys(other)|,
      Extra := |OtherKeys(other) - Keys(own)|)
    ensures r.Ok? ==> ClassOnly(r.value.classCounts)
    ensures r.Ok? && Distinct(own) ==> r.value.classCounts.Present + r.value.classCounts.Missing == |own|
    ensures r.Ok? && Distinct(own) && other.None? ==> r.value.classCounts == Zero.(Missing := |own|)
    ensures r.Ok? && |own| + r.value.classCounts.Extra == 0 ==> r.value.parent == parent
    ensures r.Ok? && |own| + r.value.classCounts.Extra > 0 ==>
      && r.value.parent.name == parent.name && r.value.parent.attrs == parent.attrs
      && |r.value.parent.children| == |parent.children| + 1
      && r.value.parent.children[..|parent.children|] == parent.children
      && r.value.parent.children[|parent.children|].name == groupName
  {
    var p :- OwnPass(itemName, own, other, nameOf, inner);
    var extras := if p.rest.Some? then ExtraNodes(itemName, p.rest.value, nameOf) else [];
    if Distinct(own) then
      OwnPassCounts(itemName, own, other, nameOf, inner);
      DistinctCardinality(own);
      assert other.Some? && Distinct(other.value) ==> |extras| == |OtherKeys(other) - Keys(own)| by {
        if p.rest.Some? && Distinct(other.value) { DistinctCardinality(p.rest.value); }
      }
      SplitCardinality(Keys(own), OtherKeys(other));
      Ok(GroupResult(groupName, p, extras, parent))
    else Ok(GroupResult(groupName, p, extras, parent))
  }

  function GroupResult<V>(groupName: string, p: Pass<V>, extras: seq<Node>, parent: Node): (r: GroupOutcome)
    ensures r.classCounts == p.classCounts.(Extra := |extras|) && r.innerCounts == p.innerCounts
    ensures |p.nodes| + |extras| == 0 ==> r.parent == parent
    ensures |p.nodes| + |extras| > 0 ==> r.parent == AppendChild(parent, Node(groupName, map[], p.nodes + extras))
  {
    var items := p.nodes + extras;
    var parent' := if |items| > 0 then AppendChild(parent, Node(groupName, map[], items)) else parent;
    GroupOutcome(parent', p.classCounts.(Extra := |extras|), p.innerCounts)
  }

  lemma SplitCardinality(a: set<string>, b: set<string>)
    ensures |a * b| + |a - b| == |a|
  {
    assert a == (a * b) + (a - b);
    assert (a * b) * (a - b) == {};
  }

  /** A property of counts that holds of nothing and survives addition
      holds of a walk's inner sum when it holds of every matched item's
      counts; and a walk whose comparisons cannot fail does not fail. */
  lemma {:induction false} OwnPassInner<V>(P: Counters -> bool, itemName: string, own: Table<string, V>,
                                           rest: Option<Table<string, V>>,
                                           nameOf: V -> string, inner: (string, V, Node) -> Result<Outcome>)
    requires P(Zero) && forall a, b {:trigger Plus(a, b)} :: P(a) && P(b) ==> P(Plus(a, b))
    requires forall k, v, n :: inner(k, v, n).Ok? ==> P(inner(k, v, n).value.delta)
    ensures (forall k, v, n :: inner(k, v, n).Ok?) ==> OwnPass(itemName, own, rest, nameOf, inner).Ok?
    ensures var r := OwnPass(itemName, own, rest, nameOf, inner); r.Ok? ==> P(r.value.innerCounts)
    decreases |own|
  {
    if |own| > 0 {
      var e := own[0];
      OwnPassStep(itemName, own, rest, nameOf, inner);
      if rest.Some? && e.key in Keys(rest.value) {
        OwnPassInner(P, itemName, own[1..], Some(Remove(rest.value, e.key)), nameOf, inner);
      } else {
        OwnPassInner(P, itemName, own[1..], rest, nameOf, inner);
      }
    }
  }

  /** `OwnPassInner` for a whole group comparison. */
  lemma CompareGroupInner<V>(P: Counters -> bool, groupName: string, itemName: string,
                             own: Table<string, V>, other: Option<Table<string, V>>,
                             nameOf: V -> string, inner: (string, V, Node) -> Result<Outcome>, parent: Node)
    requires P(Zero) && forall a, b {:trigger Plus(a, b)} :: P(a) && P(b) ==> P(Plus(a, b))
    requires forall k, v, n :: inner(k, v, n).Ok? ==> P(inner(k, v, n).value.delta)
    ensures (forall k, v, n :: inner(k, v, n).Ok?) ==> CompareGroup(groupName, itemName, own, other, nameOf, inner, parent).Ok?
    ensures var r := CompareGroup(groupName, itemName, own, other, nameOf, inner, parent); r.Ok? ==> P(r.value.innerCounts)
  {
    OwnPassInner(P, itemName, own, other, nameOf, inner);
  }

  /** When every matched item adds the same warning count `w` (and nothing
      else), the walk's inner sum is `w` per present item. */
  lemma {:induction false} OwnPassConstInner<V>(w: int, itemName: string, own: Table<string, V>,
                                                rest: Option<Table<string, V>>,
                                                nameOf: V -> string, inner: (string, V, Node) -> Result<Outcome>)
    requires forall k, v, n :: inner(k, v, n).Ok? && inner(k, v, n).value.delta == Zero.(Warning := w)
    ensures var r := OwnPass(itemName, own, rest, nameOf, inner);
      r.Ok? && r.value.innerCounts == Zero.(Warning := w * r.value.classCounts.Present)
    decreases |own|
  {
    if |own| > 0 {
      var e := own[0];
      var next := NextRest(rest, e.key);
      OwnPassStep(itemName, own, rest, nameOf, inner);
      OwnPassConstInner(w, itemName, own[1..], next, nameOf, inner);
      var tail := OwnPass(itemName, own[1..], next, nameOf, inner).value;
      if rest.Some? && e.key in Keys(rest.value) {
        var o := inner(e.key, e.value, ItemNode(itemName, nameOf(e.value)));
        assert o.Ok? && o.value.delta == Zero.(Warning := w);
        WarningsAdd(w, w * tail.classCounts.Present);
        assert w * (tail.classCounts.Present + 1) == w + w * tail.classCounts.Present;
      }
    }
  }

  lemma WarningsAdd(a: int, b: int)
    ensures Plus(Zero.(Warning := a), Zero.(Warning := b)) == Zero.(Warning := a + b)
  {
  }

  /** `OwnPassConstInner` for a whole group comparison. */
  lemma CompareGroupConstInner<V>(w: int, groupName: string, itemName: string,
                                  own: Table<string, V>, other: Option<Table<string, V>>,
                                  nameOf: V -> string, inner: (string, V, Node) -> Result<Outcome>, parent: Node)
    requires forall k, v, n :: inner(k, v, n).Ok? && inner(k, v, n).value.delta == Zero.(Warning := w)
    ensures var r := CompareGroup(groupName, itemName, own, other, nameOf, inner, parent);
      r.Ok? && r.value.innerCounts == Zero.(Warning := w * r.value.classCounts.Present)
  {
    OwnPassConstInner(w, itemName, own, other, nameOf, inner);
  }

  /** The output element of a compared group, when it was attached. */
  function GroupElement(r: GroupOutcome, parent: Node): Option<Node> {
    if |r.parent.children| == |parent.children| + 1 then Some(r.parent.children[|parent.children|]) else None
  }

  /** Reading a group's items: a `FormatException` unless the element has
      the group's name; each child must carry a `name` attribute
      (otherwise the source dereferences null); `step` folds each child
      into the group's state. */
  function LoadGroup<S>(node: Node, groupName: string, init: S, step: (S, string, Node) -> Result<S>): (r: Result<S>)
    ensures node.name != groupName ==> r == Err(FormatException("Expecting <" + groupName + ">"))
    ensures node.name == groupName && |node.children| == 0 ==> r == Ok(init)
  {
    if node.name != groupName then Err(FormatException("Expecting <" + groupName + ">"))
    else LoadChildren(node.children, init, step)
  }

  function LoadChildren<S>(children: seq<Node>, s: S, step: (S, string, Node) -> Result<S>): (r: Result<S>)
    ensures (exists i :: 0 <= i < |children| && "name" !in children[i].attrs) ==> r.Err?
  {
    if |children| == 0 then Ok(s)
    else
      var n := children[0];
      if "name" !in n.attrs then Err(NullReferenceException)
      else
        var s' :- step(s, n.attrs["name"], n);
        var r := LoadChildren(children[1..], s', step);
        assert forall i :: 1 <= i < |children| ==> children[i] == children[1..][i - 1];
        r
  }

  // ------------------------------------------------------------ plain groups

  /** A group with no per-item data beyond the key (the base behaviour:
      every item is added, keyed by its name, and matched items are not
      compared further). XMLInterfaces is not part of this model; the
      interfaces group is taken to be a plain group named
      `interfaces`/`interface`. */
  datatype PlainGroup = PlainGroup(keys: Table<string, string>)

  function LoadPlain(node: Node, groupName: string): (r: Result<PlainGroup>)
    ensures r.Ok? ==> Distinct(r.value.keys)
    ensures r.Ok? ==> forall c :: c in node.children ==> "name" in c.attrs && c.attrs["name"] in Keys(r.value.keys)
  {
    var keys :- LoadGroup(node, groupName, [], (t: Table<string, string>, name: string, n: Node) => Ok(Put(t, name, name)));
    PlainKeysFromChildren(node.children, []);
    Ok(PlainGroup(keys))
  }

  lemma PlainKeysFromChildren(children: seq<Node>, t: Table<string, string>)
    requires Distinct(t)
    ensures var r := LoadChildren(children, t, (t: Table<string, string>, name: string, n: Node) => Ok(Put(t, name, name)));
      r.Ok? ==> (Distinct(r.value) && Keys(t) <= Keys(r.value)
        && forall c :: c in children ==> "name" in c.attrs && c.attrs["name"] in Keys(r.value))
  {
    if |children| > 0 && "name" in children[0].attrs {
      PlainKeysFromChildren(children[1..], Put(t, children[0].attrs["name"], children[0].attrs["name"]));
    }
  }

  /** A plain item's display name is its key. */
  function KeyName(s: string): string { s }

  /** Matched plain items are not compared further. */
  function NoInner(k: string, v: string, n: Node): Result<Outcome> { Ok(Outcome(n, Zero)) }

  predicate IsZero(c: Counters) { c == Zero }

  /** Comparing plain groups: the classification alone. */
  function ComparePlain(groupName: string, itemName: string, own: PlainGroup, other: Option<PlainGroup>, parent: Node): (r: Result<GroupOutcome>)
    ensures r.Ok?
    ensures r.value.innerCounts == Zero
    ensures Distinct(own.keys) && (other.Some? ==> Distinct(other.value.keys)) ==>
      var okeys := if other.Some? then Keys(other.value.keys) else {};
      r.value.classCounts == Zero.(
        Present := |Keys(own.keys) * okeys|,
        Missing := |Keys(own.keys) - okeys|,
        Extra := |okeys - Keys(own.keys)|)
  {
    var o := if other.Some? then Some(other.value.keys) else None;
    CompareGroupInner(IsZero, groupName, itemName, own.keys, o, KeyName, NoInner, parent);
    CompareGroup(groupName, itemName, own.keys, o, KeyName, NoInner, parent)
  }
}
