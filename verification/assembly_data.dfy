/** The "assembly" element of the API description (`AssemblyData.DoOutput`):
    the assembly's name and version, its custom attributes, and its
    described types grouped into one "namespace" element per namespace. */
module AssemblyOutput {
  import opened Wrappers
  import opened Strings
  import opened Seqs
  import opened Sorting
  import opened Metadata
  import opened XmlNodes
  import opened DefinitionComparers
  import opened AttributeOutput
  import opened ClassOutput

  /** The parts of an assembly the extractor reads. `displayName` is the
      assembly name as it appears in an exception message. */
  datatype Assembly = Assembly(
    name: string, version: string, displayName: string,
    customAttributes: seq<CustomAttr>, types: seq<TypeDef>, exportedTypes: seq<ExportedType>)

  // ------------------------------------------------------------ forwarded types

  function UnresolvedMessage(a: Assembly, e: ExportedType): string {
    "Could not resolve forwarded type " + e.fullName + " in " + a.displayName
  }

  /** The definition an exported type forwards to; `resolve` stands for
      Cecil's `ExportedType.Resolve`. */
  function ForwardedType(a: Assembly, resolve: ExportedType -> Option<TypeDef>, e: ExportedType): (r: Result<TypeDef>)
    ensures r.Ok? <==> resolve(e).Some?
    ensures r.Ok? ==> r.value == resolve(e).value
    ensures r.Err? ==> r.error == Exception(UnresolvedMessage(a, e))
  {
    match resolve(e)
    case Some(t) => Ok(t)
    case None => Err(Exception(UnresolvedMessage(a, e)))
  }

  /** The types to describe: the module's own types, followed, when
      forwarders are followed, by the types each exported type resolves
      to. */
  function DescribedTypes(a: Assembly, resolve: ExportedType -> Option<TypeDef>, followForwarders: bool): (r: Result<seq<TypeDef>>) {
    if !followForwarders then Ok(a.types)
    else
      var forwarded :- MapAll(a.exportedTypes, e => ForwardedType(a, resolve, e));
      Ok(a.types + forwarded)
  }

  /** Without following forwarders only the own types are described and
      nothing can fail. Following them, every exported type is resolved in
      order and appended; the first one that does not resolve aborts with
      its name in the message. */
  lemma {:induction false} DescribedTypesSpec(a: Assembly, resolve: ExportedType -> Option<TypeDef>, followForwarders: bool)
    ensures !followForwarders ==> DescribedTypes(a, resolve, followForwarders) == Ok(a.types)
    ensures followForwarders ==>
      (DescribedTypes(a, resolve, followForwarders).Ok? <==>
        forall k :: 0 <= k < |a.exportedTypes| ==> resolve(a.exportedTypes[k]).Some?)
    ensures var r := DescribedTypes(a, resolve, followForwarders);
      followForwarders && r.Ok? ==>
        && |r.value| == |a.types| + |a.exportedTypes|
        && r.value[..|a.types|] == a.types
        && forall k :: 0 <= k < |a.exportedTypes| ==> Some(r.value[|a.types| + k]) == resolve(a.exportedTypes[k])
    ensures var r := DescribedTypes(a, resolve, followForwarders);
      followForwarders && r.Err? ==>
        exists k :: 0 <= k < |a.exportedTypes| && resolve(a.exportedTypes[k]).None?
          && r.error == Exception(UnresolvedMessage(a, a.exportedTypes[k]))
          && forall j :: 0 <= j < k ==> resolve(a.exportedTypes[j]).Some?
  {
    if followForwarders {
      var f := e => ForwardedType(a, resolve, e);
      var m := MapAll(a.exportedTypes, f);
      if m.Ok? {
        var r := a.types + m.value;
        forall k | 0 <= k < |a.exportedTypes|
          ensures Some(r[|a.types| + k]) == resolve(a.exportedTypes[k])
        {
          assert f(a.exportedTypes[k]) == Ok(m.value[k]);
        }
      } else {
        var k :| 0 <= k < |a.exportedTypes| && f(a.exportedTypes[k]) == Err(m.error) && forall j :: 0 <= j < k ==> f(a.exportedTypes[j]).Ok?;
        assert resolve(a.exportedTypes[k]).None?;
      }
    }
  }

  // ------------------------------------------------------------ type selection

  /** A type is described when it has a namespace, is not nested, and is
      public unless every type is described (ABI mode). */
  predicate Described(t: TypeDef, abiMode: bool) {
    && |t.namespace| > 0
    && (abiMode || t.attributes & TypeVisibilityMask == TypePublic)
    && t.declaringTypeFullName.None?
  }

  /** The described types in writing order: sorted by namespace, then name,
      with the skipped ones left out. */
  function WrittenTypes(types: seq<TypeDef>, abiMode: bool): seq<TypeDef> {
    Filter(Sort(types, TypeOrder), t => Described(t, abiMode))
  }

  /** Exactly the described types are written, ordered by namespace and
      then name, so the namespaces come in ordinal order. */
  lemma {:induction false} WrittenTypesSpec(types: seq<TypeDef>, abiMode: bool)
    ensures forall t :: t in WrittenTypes(types, abiMode) <==> t in types && Described(t, abiMode)
    ensures SortedBy(WrittenTypes(types, abiMode), TypeOrder)
    ensures NamespacesOrdered(WrittenTypes(types, abiMode))
  {
    var s := Sort(types, TypeOrder);
    assert forall t :: t in s <==> t in multiset(s);
    TypeOrderIsPreorder();
    SortSorted(types, TypeOrder);
    FilterSorted(s, t => Described(t, abiMode), TypeOrder);
    SortedNamespacesOrdered(WrittenTypes(types, abiMode));
  }

  /** Namespaces never decrease (ordinal) along `ts`. */
  predicate NamespacesOrdered(ts: seq<TypeDef>) {
    forall j, k :: 0 <= j < k < |ts| ==> Ordinal(ts[j].namespace, ts[k].namespace) <= 0
  }

  lemma {:induction false} SortedNamespacesOrdered(ts: seq<TypeDef>)
    requires SortedBy(ts, TypeOrder)
    ensures NamespacesOrdered(ts)
  {
    forall j, k | 0 <= j < k < |ts|
      ensures Ordinal(ts[j].namespace, ts[k].namespace) <= 0
    {
      assert TypeOrder(ts[j], ts[k]) <= 0;
    }
  }

  // ------------------------------------------------------------ namespace grouping

  /** One "namespace" element: its name and the class elements inside its
      "classes" element. */
  datatype NamespaceBlock<T> = NamespaceBlock(name: string, classes: seq<T>)

  function NamespaceNode(b: NamespaceBlock<Node>): (r: Node)
    ensures r.name == "namespace" && |r.children| == 1
  {
    Node("namespace", map["name" := b.name], [Node("classes", map[], b.classes)])
  }

  function NamespaceNodes(bs: seq<NamespaceBlock<Node>>): (r: seq<Node>)
    ensures |r| == |bs|
    ensures forall k :: 0 <= k < |bs| ==> r[k] == NamespaceNode(bs[k])
  {
    seq(|bs|, k requires 0 <= k < |bs| => NamespaceNode(bs[k]))
  }

  /** A class element labelled with its type's namespace. */
  type Entry<T> = (string, T)

  function Entries<T>(ts: seq<TypeDef>, nodes: seq<T>): (r: seq<Entry<T>>)
    requires |ts| == |nodes|
    ensures |r| == |ts|
    ensures forall k :: 0 <= k < |ts| ==> r[k] == (ts[k].namespace, nodes[k])
  {
    seq(|ts|, k requires 0 <= k < |ts| => (ts[k].namespace, nodes[k]))
  }

  /** The labelled classes a block holds, in order. */
  function BlockEntries<T>(b: NamespaceBlock<T>): (r: seq<Entry<T>>)
    ensures |r| == |b.classes|
    ensures forall k :: 0 <= k < |r| ==> r[k] == (b.name, b.classes[k])
  {
    seq(|b.classes|, k requires 0 <= k < |b.classes| => (b.name, b.classes[k]))
  }

  /** The labelled classes of all blocks, block after block. */
  function Flatten<T>(bs: seq<NamespaceBlock<T>>): seq<Entry<T>> {
    if |bs| == 0 then [] else Flatten(bs[..|bs| - 1]) + BlockEntries(bs[|bs| - 1])
  }

  /** `bs` with `n` added to the classes of its last block. */
  function AddToLast<T>(bs: seq<NamespaceBlock<T>>, n: T): (r: seq<NamespaceBlock<T>>)
    requires |bs| > 0
    ensures |r| == |bs| && r[..|bs| - 1] == bs[..|bs| - 1]
    ensures r[|bs| - 1] == NamespaceBlock(bs[|bs| - 1].name, bs[|bs| - 1].classes + [n])
  {
    var last := bs[|bs| - 1];
    bs[..|bs| - 1] + [last.(classes := last.classes + [n])]
  }

  /** The writer loop over the labelled classes from the `i`-th on; the last
      of `bs` is the namespace element still open. A class of the open
      element's namespace goes into it; any other class closes it and opens
      a new one. */
  function Group<T>(es: seq<Entry<T>>, i: nat, bs: seq<NamespaceBlock<T>>): seq<NamespaceBlock<T>>
    requires i <= |es|
    decreases |es| - i
  {
    if i == |es| then bs
    else if |bs| > 0 && bs[|bs| - 1].name == es[i].0 then Group(es, i + 1, AddToLast(bs, es[i].1))
    else Group(es, i + 1, bs + [NamespaceBlock(es[i].0, [es[i].1])])
  }

  /** The namespace elements written for the labelled classes `es`. */
  function GroupByNamespace<T>(es: seq<Entry<T>>): seq<NamespaceBlock<T>> {
    Group(es, 0, [])
  }

  /** Every block holds at least one class. */
  predicate NonEmpty<T>(bs: seq<NamespaceBlock<T>>) {
    forall k :: 0 <= k < |bs| ==> |bs[k].classes| > 0
  }

  /** Neighbouring blocks have different namespaces. */
  predicate RunsMaximal<T>(bs: seq<NamespaceBlock<T>>) {
    forall k :: 0 <= k < |bs| - 1 ==> bs[k].name != bs[k + 1].name
  }

  /** Neighbouring blocks come in strictly increasing ordinal order. */
  predicate RunsIncreasing<T>(bs: seq<NamespaceBlock<T>>) {
    forall k :: 0 <= k < |bs| - 1 ==> Ordinal(bs[k].name, bs[k + 1].name) < 0
  }

  predicate EntriesOrdered<T>(es: seq<Entry<T>>) {
    forall j, k :: 0 <= j < k < |es| ==> Ordinal(es[j].0, es[k].0) <= 0
  }

  lemma {:induction false} FlattenAppend<T>(bs: seq<NamespaceBlock<T>>, b: NamespaceBlock<T>)
    ensures Flatten(bs + [b]) == Flatten(bs) + BlockEntries(b)
  {
    assert (bs + [b])[..|bs|] == bs;
  }

  lemma {:induction false} FlattenAddToLast<T>(bs: seq<NamespaceBlock<T>>, n: T)
    requires |bs| > 0
    ensures Flatten(AddToLast(bs, n)) == Flatten(bs) + [(bs[|bs| - 1].name, n)]
  {
    var r := AddToLast(bs, n);
    var init, last, last' := bs[..|bs| - 1], bs[|bs| - 1], r[|bs| - 1];
    assert Flatten(r) == Flatten(init) + BlockEntries(last');
    assert Flatten(bs) == Flatten(init) + BlockEntries(last);
    assert BlockEntries(last') == BlockEntries(last) + [(last.name, n)];
    var x := [(last.name, n)];
    AppendAssociative(Flatten(init), BlockEntries(last), x);
    assert Flatten(r) == Flatten(init) + (BlockEntries(last) + x);
    assert Flatten(init) + (BlockEntries(last) + x) == Flatten(bs) + x;
  }

  lemma {:induction false} AppendAssociative<T>(a: seq<T>, b: seq<T>, c: seq<T>)
    ensures a + (b + c) == (a + b) + c
  {
  }

  /** The loop keeps every class, in order, under its own namespace. */
  lemma {:induction false} GroupFlatten<T>(es: seq<Entry<T>>, i: nat, bs: seq<NamespaceBlock<T>>)
    requires i <= |es|
    requires Flatten(bs) == es[..i]
    ensures Flatten(Group(es, i, bs)) == es
    decreases |es| - i
  {
    if i == |es| {
      assert es[..i] == es;
    } else {
      assert es[..i + 1] == es[..i] + [es[i]];
      if |bs| > 0 && bs[|bs| - 1].name == es[i].0 {
        FlattenAddToLast(bs, es[i].1);
        GroupFlatten(es, i + 1, AddToLast(bs, es[i].1));
      } else {
        FlattenAppend(bs, NamespaceBlock(es[i].0, [es[i].1]));
        GroupFlatten(es, i + 1, bs + [NamespaceBlock(es[i].0, [es[i].1])]);
      }
    }
  }

  /** The loop never writes an empty namespace element, and opens a new one
      only when the namespace changes. */
  lemma {:induction false} GroupRuns<T>(es: seq<Entry<T>>, i: nat, bs: seq<NamespaceBlock<T>>)
    requires i <= |es|
    requires NonEmpty(bs) && RunsMaximal(bs)
    ensures NonEmpty(Group(es, i, bs)) && RunsMaximal(Group(es, i, bs))
    decreases |es| - i
  {
    if i < |es| {
      if |bs| > 0 && bs[|bs| - 1].name == es[i].0 {
        GroupRuns(es, i + 1, AddToLast(bs, es[i].1));
      } else {
        GroupRuns(es, i + 1, bs + [NamespaceBlock(es[i].0, [es[i].1])]);
      }
    }
  }

  /** On classes sorted by namespace the elements come in strictly
      increasing order of namespace. */
  lemma {:induction false} GroupIncreasing<T>(es: seq<Entry<T>>, i: nat, bs: seq<NamespaceBlock<T>>)
    requires i <= |es|
    requires EntriesOrdered(es) && RunsIncreasing(bs)
    requires |bs| > 0 ==> i > 0 && bs[|bs| - 1].name == es[i - 1].0
    ensures RunsIncreasing(Group(es, i, bs))
    decreases |es| - i
  {
    if i < |es| {
      if |bs| > 0 && bs[|bs| - 1].name == es[i].0 {
        GroupIncreasing(es, i + 1, AddToLast(bs, es[i].1));
      } else {
        if |bs| > 0 {
          assert Ordinal(es[i - 1].0, es[i].0) <= 0;
          OrdinalZeroIffEqual(es[i - 1].0, es[i].0);
        }
        GroupIncreasing(es, i + 1, bs + [NamespaceBlock(es[i].0, [es[i].1])]);
      }
    }
  }

  /** Grouping keeps every class, in order, under its own namespace; it
      never writes an empty namespace element; and each run of classes of
      one namespace becomes one element. */
  lemma {:induction false} GroupByNamespaceSpec<T>(es: seq<Entry<T>>)
    ensures var bs := GroupByNamespace(es);
      Flatten(bs) == es && NonEmpty(bs) && RunsMaximal(bs)
    ensures EntriesOrdered(es) ==> RunsIncreasing(GroupByNamespace(es))
  {
    GroupFlatten(es, 0, []);
    GroupRuns(es, 0, []);
    if EntriesOrdered(es) {
      GroupIncreasing(es, 0, []);
    }
  }

  /** Strictly increasing neighbours are strictly increasing throughout. */
  lemma {:induction false} IncreasingThroughout<T>(bs: seq<NamespaceBlock<T>>, j: nat, k: nat)
    requires RunsIncreasing(bs)
    requires j < k < |bs|
    ensures Ordinal(bs[j].name, bs[k].name) < 0
    decreases k - j
  {
    if j + 1 < k {
      IncreasingThroughout(bs, j + 1, k);
      OrdinalChain(bs[j].name, bs[j + 1].name, bs[k].name);
    }
  }

  /** When the classes come sorted by namespace, no namespace is written
      twice. */
  lemma {:induction false} OrderedGivesDistinctNamespaces<T>(es: seq<Entry<T>>)
    requires EntriesOrdered(es)
    ensures var bs := GroupByNamespace(es);
      forall j, k :: 0 <= j < k < |bs| ==> bs[j].name != bs[k].name
  {
    var bs := GroupByNamespace(es);
    GroupByNamespaceSpec(es);
    forall j, k | 0 <= j < k < |bs|
      ensures bs[j].name != bs[k].name
    {
      IncreasingThroughout(bs, j, k);
      OrdinalZeroIffEqual(bs[j].name, bs[k].name);
    }
  }

  /** A namespace has a block exactly when some labelled class carries
      it. */
  lemma {:induction false} FlattenNames<T>(bs: seq<NamespaceBlock<T>>, ns: string)
    requires NonEmpty(bs)
    ensures (exists k :: 0 <= k < |bs| && bs[k].name == ns) <==> (exists e :: e in Flatten(bs) && e.0 == ns)
    decreases |bs|
  {
    if |bs| > 0 {
      var init, last := bs[..|bs| - 1], bs[|bs| - 1];
      assert NonEmpty(init);
      FlattenNames(init, ns);
      assert Flatten(bs) == Flatten(init) + BlockEntries(last);
      assert BlockEntries(last)[0] == (last.name, last.classes[0]);
      if e :| e in Flatten(bs) && e.0 == ns {
        if e in Flatten(init) {
          var k :| 0 <= k < |init| && init[k].name == ns;
          assert bs[k].name == ns;
        } else {
          assert bs[|bs| - 1].name == ns;
        }
      }
      if k :| 0 <= k < |bs| && bs[k].name == ns {
        if k < |bs| - 1 {
          assert init[k].name == ns;
          var e :| e in Flatten(init) && e.0 == ns;
          assert e in Flatten(bs);
        } else {
          assert BlockEntries(last)[0] in Flatten(bs);
        }
      }
    }
  }

  // ------------------------------------------------------------ as written

  /** The namespace the writer starts from, standing for "no namespace
      open yet". */
  const Sentinel := "$%&$&"

  /** The writer loop as written: the open namespace is tracked as a name
      starting at `Sentinel` plus the element being filled, and a class
      whose namespace equals the tracked name goes into the open element
      when there is one and directly into "namespaces" otherwise. `out`
      are the children of "namespaces" written so far. */
  function GroupAsWritten(es: seq<Entry<Node>>, i: nat, out: seq<Node>, current: string, open: Option<NamespaceBlock<Node>>): seq<Node>
    requires i <= |es|
    decreases |es| - i
  {
    var closed := if open.Some? then [NamespaceNode(open.value)] else [];
    if i == |es| then out + closed
    else
      var (ns, n) := es[i];
      if ns != current then
        GroupAsWritten(es, i + 1, out + closed, ns, Some(NamespaceBlock(ns, [n])))
      else if open.Some? then
        GroupAsWritten(es, i + 1, out, current, Some(open.value.(classes := open.value.classes + [n])))
      else
        GroupAsWritten(es, i + 1, out + [n], current, open)
  }

  function NamespacesAsWritten(es: seq<Entry<Node>>): seq<Node> {
    GroupAsWritten(es, 0, [], Sentinel, None)
  }

  /** A class "T" in the namespace "$%&$&" is written directly into
      "namespaces", outside any namespace element, where the corrected
      loop opens a namespace element for it. */
  lemma {:induction false} SentinelNamespaceLosesElement()
    ensures var n := Node("class", map["name" := "T"], []);
      && NamespacesAsWritten([(Sentinel, n)]) == [n]
      && NamespaceNodes(GroupByNamespace([(Sentinel, n)])) == [NamespaceNode(NamespaceBlock(Sentinel, [n]))]
      && NamespacesAsWritten([(Sentinel, n)]) != NamespaceNodes(GroupByNamespace([(Sentinel, n)]))
  {
    var n := Node("class", map["name" := "T"], []);
    var es := [(Sentinel, n)];
    var b := NamespaceBlock(Sentinel, [n]);
    assert NamespacesAsWritten(es) == GroupAsWritten(es, 1, [] + [n], Sentinel, None);
    assert GroupAsWritten(es, 1, [n], Sentinel, None) == [n];
    assert GroupByNamespace(es) == Group(es, 1, [] + [b]);
    assert Group(es, 1, [b]) == [b];
    assert NamespaceNodes([b]) == [NamespaceNode(b)];
    assert NamespaceNode(b).name != n.name;
  }

  /** The elements the corrected loop writes, with the open one last. */
  function Rendered(out: seq<Node>, open: Option<NamespaceBlock<Node>>): seq<Node> {
    if open.Some? then out + [NamespaceNode(open.value)] else out
  }

  /** With no class in the namespace "$%&$&" the loop as written and the
      corrected loop write the same elements. */
  lemma {:induction false} AsWrittenAgrees(es: seq<Entry<Node>>, i: nat, bs: seq<NamespaceBlock<Node>>, current: string)
    requires i <= |es|
    requires forall k :: 0 <= k < |es| ==> es[k].0 != Sentinel
    requires |bs| == 0 ==> current == Sentinel
    requires |bs| > 0 ==> current == bs[|bs| - 1].name
    ensures var open := if |bs| > 0 then Some(bs[|bs| - 1]) else None;
      var out := if |bs| > 0 then NamespaceNodes(bs[..|bs| - 1]) else [];
      GroupAsWritten(es, i, out, current, open) == NamespaceNodes(Group(es, i, bs))
    decreases |es| - i
  {
    var open := if |bs| > 0 then Some(bs[|bs| - 1]) else None;
    var out := if |bs| > 0 then NamespaceNodes(bs[..|bs| - 1]) else [];
    assert Rendered(out, open) == NamespaceNodes(bs);
    if i < |es| {
      var (ns, n) := es[i];
      if ns != current {
        var bs' := bs + [NamespaceBlock(ns, [n])];
        assert bs'[..|bs'| - 1] == bs;
        assert out + (if open.Some? then [NamespaceNode(open.value)] else []) == NamespaceNodes(bs);
        AsWrittenAgrees(es, i + 1, bs', ns);
      } else {
        AsWrittenAgrees(es, i + 1, AddToLast(bs, n), current);
      }
    }
  }

  lemma {:induction false} NamespacesAsWrittenAgree(es: seq<Entry<Node>>)
    requires forall k :: 0 <= k < |es| ==> es[k].0 != Sentinel
    ensures NamespacesAsWritten(es) == NamespaceNodes(GroupByNamespace(es))
  {
    AsWrittenAgrees(es, 0, [], Sentinel);
  }

  // ------------------------------------------------------------ the element

  /** The assembly as an attribute provider: its custom attributes and its
      exported types. */
  function AssemblyProvider(a: Assembly): Provider {
    Provider(a.customAttributes, Some(a.exportedTypes))
  }

  function AttributesChildOf(a: Assembly, followForwarders: bool): (r: seq<Node>)
    ensures |r| <= 1
    ensures |r| == 1 <==> |a.customAttributes| > 0
    ensures |r| == 1 ==> r[0].name == "attributes"
  {
    var ps := [Some(AssemblyProvider(a))];
    var e := AttributesElement(ps, followForwarders);
    assert HasAttributes(ps[0]) <==> |a.customAttributes| > 0;
    if e.Some? then [e.value] else []
  }

  /** The class elements of the written types, in order; a type whose
      element cannot be written aborts. */
  function WrittenClasses(written: seq<TypeDef>, bases: TypeDef -> seq<TypeDef>, o: Options): (r: Result<seq<Node>>)
    ensures r.Ok? ==> |r.value| == |written|
    ensures r.Ok? ==> forall k :: 0 <= k < |written| ==> ClassNode(written[k], bases, o) == Ok(r.value[k])
    ensures r.Err? <==> exists k :: 0 <= k < |written| && ClassNode(written[k], bases, o).Err?
  {
    var f := t requires t in written => ClassNode(t, bases, o);
    var r := MapAll(written, f);
    assert forall k :: 0 <= k < |written| ==> f(written[k]) == ClassNode(written[k], bases, o);
    r
  }

  /** The namespace elements for the types to describe. */
  function NamespaceBlocks(types: seq<TypeDef>, bases: TypeDef -> seq<TypeDef>, o: Options): Result<seq<NamespaceBlock<Node>>> {
    var written := WrittenTypes(types, o.abiMode);
    var nodes :- WrittenClasses(written, bases, o);
    Ok(GroupByNamespace(Entries(written, nodes)))
  }

  /** `AssemblyData.DoOutput`. `resolve` resolves exported types, `bases`
      gives a type's resolved base types. The namespace elements come from
      the corrected grouping `GroupByNamespace`, not from the loop as
      written (`NamespacesAsWritten`); `NamespacesChildAsWritten` shows the
      two agree unless a type is in the namespace "$%&$&". */
  function AssemblyNode(a: Assembly, resolve: ExportedType -> Option<TypeDef>, bases: TypeDef -> seq<TypeDef>,
                        o: Options, followForwarders: bool): (r: Result<Node>)
  {
    var types :- DescribedTypes(a, resolve, followForwarders);
    var namespaces :- NamespacesChild(types, bases, o);
    Ok(Node("assembly", map["name" := a.name, "version" := a.version], AttributesChildOf(a, followForwarders) + namespaces))
  }

  /** The "namespaces" element, written only when there are types to
      describe. */
  function NamespacesChild(types: seq<TypeDef>, bases: TypeDef -> seq<TypeDef>, o: Options): (r: Result<seq<Node>>)
    ensures r.Ok? ==> |r.value| == (if |types| == 0 then 0 else 1)
    ensures r.Ok? && |types| > 0 ==>
      && NamespaceBlocks(types, bases, o).Ok?
      && r.value[0] == Node("namespaces", map[], NamespaceNodes(NamespaceBlocks(types, bases, o).value))
    ensures r.Err? <==> |types| > 0 && NamespaceBlocks(types, bases, o).Err?
  {
    if |types| == 0 then Ok([])
    else
      var blocks :- NamespaceBlocks(types, bases, o);
      Ok([Node("namespaces", map[], NamespaceNodes(blocks))])
  }

  /** The element is an "assembly" carrying the assembly's name and
      version, its attributes element when it has custom attributes, and a
      "namespaces" element exactly when there are types to describe. */
  lemma {:induction false} AssemblyNodeShape(a: Assembly, resolve: ExportedType -> Option<TypeDef>, bases: TypeDef -> seq<TypeDef>,
                          o: Options, followForwarders: bool)
    requires AssemblyNode(a, resolve, bases, o, followForwarders).Ok?
    ensures var n := AssemblyNode(a, resolve, bases, o, followForwarders).value;
      var types := DescribedTypes(a, resolve, followForwarders).value;
      var h := if |a.customAttributes| > 0 then 1 else 0;
      && n.name == "assembly"
      && n.attrs == map["name" := a.name, "version" := a.version]
      && |n.children| == h + (if |types| == 0 then 0 else 1)
      && (h == 1 ==> n.children[0].name == "attributes")
      && (|types| > 0 ==>
            && n.children[h].name == "namespaces"
            && NamespaceBlocks(types, bases, o).Ok?
            && n.children[h].children == NamespaceNodes(NamespaceBlocks(types, bases, o).value))
  {
    var types := DescribedTypes(a, resolve, followForwarders).value;
    var head := AttributesChildOf(a, followForwarders);
    var namespaces := NamespacesChild(types, bases, o).value;
    var n := AssemblyNode(a, resolve, bases, o, followForwarders).value;
    assert n.children == head + namespaces;
  }

  /** The "namespaces" element uses the corrected grouping; when no written
      type is in the namespace "$%&$&", its children are exactly what the
      loop as written produces, so the two programs write the same element. */
  lemma {:induction false} NamespacesChildAsWritten(types: seq<TypeDef>, bases: TypeDef -> seq<TypeDef>, o: Options)
    requires NamespacesChild(types, bases, o).Ok? && |types| > 0
    requires forall t :: t in types ==> t.namespace != Sentinel
    ensures var written := WrittenTypes(types, o.abiMode);
      && WrittenClasses(written, bases, o).Ok?
      && NamespacesChild(types, bases, o).value[0].children
         == NamespacesAsWritten(Entries(written, WrittenClasses(written, bases, o).value))
  {
    var written := WrittenTypes(types, o.abiMode);
    var es := Entries(written, WrittenClasses(written, bases, o).value);
    WrittenTypesSpec(types, o.abiMode);
    assert forall k :: 0 <= k < |es| ==> es[k].0 != Sentinel by {
      forall k | 0 <= k < |es|
        ensures es[k].0 != Sentinel
      {
        assert es[k].0 == written[k].namespace && written[k] in types;
      }
    }
    NamespacesAsWrittenAgree(es);
  }

  /** The classes inside the namespace elements are exactly the elements of
      the described types, in namespace-then-name order, each under its
      own namespace; no namespace element is empty, and no namespace is
      written twice. */
  lemma {:induction false} NamespaceBlocksSpec(types: seq<TypeDef>, bases: TypeDef -> seq<TypeDef>, o: Options)
    requires NamespaceBlocks(types, bases, o).Ok?
    ensures var written := WrittenTypes(types, o.abiMode);
      var bs := NamespaceBlocks(types, bases, o).value;
      && WrittenClasses(written, bases, o).Ok?
      && Flatten(bs) == Entries(written, WrittenClasses(written, bases, o).value)
      && NonEmpty(bs)
      && (forall j, k :: 0 <= j < k < |bs| ==> bs[j].name != bs[k].name)
  {
    var written := WrittenTypes(types, o.abiMode);
    var es := Entries(written, WrittenClasses(written, bases, o).value);
    GroupByNamespaceSpec(es);
    WrittenTypesSpec(types, o.abiMode);
    assert EntriesOrdered(es) by {
      forall j, k | 0 <= j < k < |es|
        ensures Ordinal(es[j].0, es[k].0) <= 0
      {
        assert es[j].0 == written[j].namespace && es[k].0 == written[k].namespace;
      }
    }
    OrderedGivesDistinctNamespaces(es);
  }

  /** A namespace element is written for a namespace exactly when some
      described type is in it. */
  lemma {:induction false} NamespaceBlocksCover(types: seq<TypeDef>, bases: TypeDef -> seq<TypeDef>, o: Options, ns: string)
    requires NamespaceBlocks(types, bases, o).Ok?
    ensures var bs := NamespaceBlocks(types, bases, o).value;
      (exists k :: 0 <= k < |bs| && bs[k].name == ns) <==> (exists t :: t in types && Described(t, o.abiMode) && t.namespace == ns)
  {
    var written := WrittenTypes(types, o.abiMode);
    EntriesCover(types, o.abiMode, WrittenClasses(written, bases, o).value, ns);
  }

  lemma {:induction false} EntriesCover<T>(types: seq<TypeDef>, abiMode: bool, nodes: seq<T>, ns: string)
    requires |nodes| == |WrittenTypes(types, abiMode)|
    ensures var bs := GroupByNamespace(Entries(WrittenTypes(types, abiMode), nodes));
      (exists k :: 0 <= k < |bs| && bs[k].name == ns) <==> (exists t :: t in types && Described(t, abiMode) && t.namespace == ns)
  {
    var written := WrittenTypes(types, abiMode);
    var es := Entries(written, nodes);
    GroupCover(es, ns);
    WrittenNamespaces(types, abiMode, ns);
    assert (exists j :: 0 <= j < |es| && es[j].0 == ns) <==> (exists j :: 0 <= j < |written| && written[j].namespace == ns) by {
      if j :| 0 <= j < |es| && es[j].0 == ns {
        assert written[j].namespace == ns;
      }
      if j :| 0 <= j < |written| && written[j].namespace == ns {
        assert es[j].0 == ns;
      }
    }
  }

  /** Some written type is in namespace `ns` exactly when some described
      type is. */
  lemma {:induction false} WrittenNamespaces(types: seq<TypeDef>, abiMode: bool, ns: string)
    ensures var written := WrittenTypes(types, abiMode);
      (exists j :: 0 <= j < |written| && written[j].namespace == ns) <==> (exists t :: t in types && Described(t, abiMode) && t.namespace == ns)
  {
    var written := WrittenTypes(types, abiMode);
    WrittenTypesSpec(types, abiMode);
    if j :| 0 <= j < |written| && written[j].namespace == ns {
      assert written[j] in written;
    }
    if t :| t in types && Described(t, abiMode) && t.namespace == ns {
      assert t in written;
    }
  }

  /** A namespace has an element exactly when some labelled class carries
      it. */
  lemma {:induction false} GroupCover<T>(es: seq<Entry<T>>, ns: string)
    ensures var bs := GroupByNamespace(es);
      (exists k :: 0 <= k < |bs| && bs[k].name == ns) <==> (exists j :: 0 <= j < |es| && es[j].0 == ns)
  {
    var bs := GroupByNamespace(es);
    GroupByNamespaceSpec(es);
    FlattenNames(bs, ns);
    if e :| e in es && e.0 == ns {
      var j :| 0 <= j < |es| && es[j] == e;
    }
    if j :| 0 <= j < |es| && es[j].0 == ns {
      assert es[j] in es;
    }
  }
}
