/** Shared behaviour of every diff element (XMLData.cs): the attribute-name
    filters, how an element is marked as extra, how its counters are written
    onto the output element, and how a warning is recorded. */
module XmlData {
  import opened Wrappers
  import opened Strings
  import opened XmlNodes
  import opened Counters

  const CompilerGeneratedAttribute := "System.Runtime.CompilerServices.CompilerGeneratedAttribute"

  /** Attribute names the diff ignores entirely. */
  predicate IsMeaninglessAttribute(s: Option<string>) {
    s == Some(CompilerGeneratedAttribute)
  }

  /** Name suffixes that mark a member as unfinished. The last one also
      covers `MonoTODOAttribute`. */
  const TodoSuffixes: seq<string> := [
    "MonoDocumentationNoteAttribute",
    "MonoExtensionAttribute",
    "MonoLimitationAttribute",
    "MonoNotSupportedAttribute",
    "TODOAttribute"
  ]

  predicate IsMonoTODOAttribute(s: Option<string>) {
    s.Some? &&
    (|| EndsWith(s.value, "MonoDocumentationNoteAttribute")
     || EndsWith(s.value, "MonoExtensionAttribute")
     || EndsWith(s.value, "MonoLimitationAttribute")
     || EndsWith(s.value, "MonoNotSupportedAttribute")
     || EndsWith(s.value, "TODOAttribute"))
  }

  /** The filter is exactly "ends with one of the listed suffixes"; a null name is never one. */
  lemma TodoIffSuffix(s: Option<string>)
    ensures IsMonoTODOAttribute(s) <==> s.Some? && exists i :: 0 <= i < |TodoSuffixes| && EndsWith(s.value, TodoSuffixes[i])
  {
    if IsMonoTODOAttribute(s) {
      if EndsWith(s.value, "MonoDocumentationNoteAttribute") { assert EndsWith(s.value, TodoSuffixes[0]); }
      else if EndsWith(s.value, "MonoExtensionAttribute") { assert EndsWith(s.value, TodoSuffixes[1]); }
      else if EndsWith(s.value, "MonoLimitationAttribute") { assert EndsWith(s.value, TodoSuffixes[2]); }
      else if EndsWith(s.value, "MonoNotSupportedAttribute") { assert EndsWith(s.value, TodoSuffixes[3]); }
      else { assert EndsWith(s.value, TodoSuffixes[4]); }
    }
  }

  /** The two filters never both apply: the compiler-generated marker is not a TODO marker. */
  lemma MeaninglessIsNotTodo(s: Option<string>)
    ensures IsMeaninglessAttribute(s) ==> !IsMonoTODOAttribute(s)
  {
    if IsMeaninglessAttribute(s) {
      var v := CompilerGeneratedAttribute;
      // Each suffix's first letter differs from the name's letter at that distance from the end.
      NotEndsWith(v, "MonoDocumentationNoteAttribute", 'c');
      NotEndsWith(v, "MonoExtensionAttribute", 'i');
      NotEndsWith(v, "MonoLimitationAttribute", 'p');
      NotEndsWith(v, "MonoNotSupportedAttribute", 'o');
      NotEndsWith(v, "TODOAttribute", 'a');
    }
  }

  lemma NotEndsWith(s: string, suffix: string, c: char)
    requires 0 < |suffix| <= |s| && s[|s| - |suffix|] == c && suffix[0] != c
    ensures !EndsWith(s, suffix)
  {
  }

  /** `AddExtra`: the element is marked as present only on the second side
      and counted as one complete extra item. */
  function AddExtra(n: Node): (r: Node)
    ensures r.name == n.name && r.children == n.children
    ensures r.attrs == n.attrs["presence" := "extra"]["ok" := "1"]["ok_total" := "1"]["extra" := "1"]["extra_total" := "1"]
  {
    SetAttr(SetAttr(SetAttr(SetAttr(SetAttr(n, "presence", "extra"), "ok", "1"), "ok_total", "1"), "extra", "1"), "extra_total", "1")
  }

  /** The percentage `100 * ok / total` with C#'s truncating division. */
  function Percent(ok: int, total: int): int
    requires total != 0
  {
    TruncDiv(100 * ok, total)
  }

  /** The percentage as the source computes it: `100 * counters.Ok` is a
      C# `int` product, which wraps modulo 2^32 before the division. It
      agrees with `Percent` while the product fits in 32 bits. */
  function PercentAsWritten(ok: int, total: int): (r: int)
    requires total != 0
    ensures IsInt32(100 * ok) ==> r == Percent(ok, total)
  {
    TruncDiv(Wrap32(100 * ok), total)
  }

  /** An element whose 21474837 examined items are all ok is complete, but
      the wrapped product makes the percentage as written -99 instead of
      100. */
  lemma PercentAsWrittenWraps()
    ensures PercentAsWritten(21474837, 21474837) == -99
    ensures Percent(21474837, 21474837) == 100
  {
    assert Wrap32(2147483700) == -2147483596;
  }

  /** The first half of `AddCountersAttributes`: the element's own counts,
      each written only when positive, and the completion percentage when
      anything was examined. Attributes of other names are kept; which
      names are written, and with what, `ClassificationWritten` and
      `OutcomeCountsWritten` state. */
  function WritePartialCounters(attrs: map<string, string>, c: Counters): (r: map<string, string>)
    ensures forall k :: k in attrs && k !in PartialNames ==> k in r && r[k] == attrs[k]
  {
    var m := attrs;
    var m := PutIf(m, c.Missing > 0, "missing", IntToString(c.Missing));
    var m := PutIf(m, c.Present > 0, "present", IntToString(c.Present));
    var m := PutIf(m, c.Extra > 0, "extra", IntToString(c.Extra));
    var m := PutIf(m, c.Ok() > 0, "ok", IntToString(c.Ok()));
    var m := PutIf(m, c.Total() > 0, "complete", if c.Total() > 0 then IntToString(Percent(c.Ok(), c.Total())) else "");
    var m := PutIf(m, c.Todo > 0, "todo", IntToString(c.Todo));
    var m := PutIf(m, c.Warning > 0, "warning", IntToString(c.Warning));
    m
  }

  /** Each classification count is written exactly when it is positive
      (or was there before), as its decimal text. */
  lemma ClassificationWritten(attrs: map<string, string>, c: Counters)
    ensures var r := WritePartialCounters(attrs, c);
      && ("missing" in r <==> c.Missing > 0 || "missing" in attrs)
      && ("present" in r <==> c.Present > 0 || "present" in attrs)
      && ("extra" in r <==> c.Extra > 0 || "extra" in attrs)
      && (c.Missing > 0 ==> r["missing"] == IntToString(c.Missing))
      && (c.Present > 0 ==> r["present"] == IntToString(c.Present))
      && (c.Extra > 0 ==> r["extra"] == IntToString(c.Extra))
  {
    PartialNamesDistinct();
  }

  /** The ok, completion, unfinished and warning counts are written exactly
      when positive (or there before), as decimal text; the completion is
      the ok share of the examined items, in percent. */
  lemma OutcomeCountsWritten(attrs: map<string, string>, c: Counters)
    ensures var r := WritePartialCounters(attrs, c);
      && ("ok" in r <==> c.Ok() > 0 || "ok" in attrs)
      && ("complete" in r <==> c.Total() > 0 || "complete" in attrs)
      && ("todo" in r <==> c.Todo > 0 || "todo" in attrs)
      && ("warning" in r <==> c.Warning > 0 || "warning" in attrs)
      && (c.Ok() > 0 ==> r["ok"] == IntToString(c.Ok()))
      && (c.Total() > 0 ==> r["complete"] == IntToString(Percent(c.Ok(), c.Total())))
      && (c.Todo > 0 ==> r["todo"] == IntToString(c.Todo))
      && (c.Warning > 0 ==> r["warning"] == IntToString(c.Warning))
  {
    PartialNamesDistinct();
  }

  /** The seven attribute names differ from one another. */
  lemma PartialNamesDistinct()
    ensures "missing" != "present" && "missing" != "extra" && "missing" != "ok" && "missing" != "complete"
      && "missing" != "todo" && "missing" != "warning"
    ensures "present" != "extra" && "present" != "ok" && "present" != "complete" && "present" != "todo"
      && "present" != "warning"
    ensures "extra" != "ok" && "extra" != "complete" && "extra" != "todo" && "extra" != "warning"
    ensures "ok" != "complete" && "ok" != "todo" && "ok" != "warning"
    ensures "complete" != "todo" && "complete" != "warning"
    ensures "todo" != "warning"
  {
    assert "missing"[0] == 'm' && "present"[0] == 'p' && "extra"[0] == 'e' && "ok"[0] == 'o';
    assert "complete"[0] == 'c' && "todo"[0] == 't' && "warning"[0] == 'w';
  }

  const PartialNames: set<string> := {"missing", "present", "extra", "ok", "complete", "todo", "warning"}

  /** The second part of `AddCountersAttributes`: the subtree totals of
      present, extra, missing and complete items, each written only when
      positive. Attributes of other names are kept. */
  function WriteTotalCounts(attrs: map<string, string>, c: Counters): (r: map<string, string>)
    ensures "missing_total" in r <==> c.MissingTotal > 0 || "missing_total" in attrs
    ensures "present_total" in r <==> c.PresentTotal > 0 || "present_total" in attrs
    ensures "extra_total" in r <==> c.ExtraTotal > 0 || "extra_total" in attrs
    ensures "ok_total" in r <==> c.OkTotal() > 0 || "ok_total" in attrs
    ensures c.MissingTotal > 0 ==> r["missing_total"] == IntToString(c.MissingTotal)
    ensures c.PresentTotal > 0 ==> r["present_total"] == IntToString(c.PresentTotal)
    ensures c.ExtraTotal > 0 ==> r["extra_total"] == IntToString(c.ExtraTotal)
    ensures c.OkTotal() > 0 ==> r["ok_total"] == IntToString(c.OkTotal())
    ensures forall k :: k in attrs && k !in TotalCountNames ==> k in r && r[k] == attrs[k]
  {
    var m := attrs;
    var m := if c.MissingTotal > 0 then m["missing_total" := IntToString(c.MissingTotal)] else m;
    var m := if c.PresentTotal > 0 then m["present_total" := IntToString(c.PresentTotal)] else m;
    var m := if c.ExtraTotal > 0 then m["extra_total" := IntToString(c.ExtraTotal)] else m;
    var m := if c.OkTotal() > 0 then m["ok_total" := IntToString(c.OkTotal())] else m;
    m
  }

  const TotalCountNames: set<string> := {"missing_total", "present_total", "extra_total", "ok_total"}

  /** The last part of `AddCountersAttributes`: the total completion
      percentage, the unfinished and warning totals. `error_total` is written
      together with `todo_total` but carries the partial `Todo` count, not a
      total. Attributes of other names are kept. */
  function WriteTotalRatios(attrs: map<string, string>, c: Counters): (r: map<string, string>)
    ensures "complete_total" in r <==> c.AbsTotal() > 0 || "complete_total" in attrs
    ensures "todo_total" in r <==> c.TodoTotal > 0 || "todo_total" in attrs
    ensures "error_total" in r <==> c.TodoTotal > 0 || "error_total" in attrs
    ensures "warning_total" in r <==> c.WarningTotal > 0 || "warning_total" in attrs
    ensures c.AbsTotal() > 0 ==> r["complete_total"] == IntToString(Percent(c.OkTotal(), c.AbsTotal()))
    ensures c.TodoTotal > 0 ==> r["todo_total"] == IntToString(c.TodoTotal)
    ensures c.TodoTotal > 0 ==> r["error_total"] == IntToString(c.Todo)
    ensures c.WarningTotal > 0 ==> r["warning_total"] == IntToString(c.WarningTotal)
    ensures forall k :: k in attrs && k !in TotalRatioNames ==> k in r && r[k] == attrs[k]
  {
    var m := attrs;
    var m := if c.AbsTotal() > 0 then m["complete_total" := IntToString(Percent(c.OkTotal(), c.AbsTotal()))] else m;
    var m := if c.TodoTotal > 0 then m["todo_total" := IntToString(c.TodoTotal)] else m;
    var m := if c.TodoTotal > 0 then m["error_total" := IntToString(c.Todo)] else m;
    var m := if c.WarningTotal > 0 then m["warning_total" := IntToString(c.WarningTotal)] else m;
    m
  }

  const TotalRatioNames: set<string> := {"complete_total", "todo_total", "error_total", "warning_total"}

  /** The subtree totals written on an element read back, with `Int32.Parse`,
      as the counts they came from: the round trip a package summary relies on. */
  lemma TotalsReadBack(c: Counters)
    requires IsInt32(c.MissingTotal) && IsInt32(c.ExtraTotal) && IsInt32(c.WarningTotal)
    ensures var r := WriteTotalRatios(WriteTotalCounts(map[], c), c);
      && ("missing_total" in r ==> ParseInt32(r["missing_total"]) == Some(c.MissingTotal))
      && ("extra_total" in r ==> ParseInt32(r["extra_total"]) == Some(c.ExtraTotal))
      && ("warning_total" in r ==> ParseInt32(r["warning_total"]) == Some(c.WarningTotal))
  {
    var r := WriteTotalRatios(WriteTotalCounts(map[], c), c);
    if "missing_total" in r {
      assert r["missing_total"] == IntToString(c.MissingTotal);
      IntToStringRoundTrip(c.MissingTotal);
    }
    if "extra_total" in r {
      assert r["extra_total"] == IntToString(c.ExtraTotal);
      IntToStringRoundTrip(c.ExtraTotal);
    }
    if "warning_total" in r {
      assert r["warning_total"] == IntToString(c.WarningTotal);
      IntToStringRoundTrip(c.WarningTotal);
    }
  }

  /** When nothing recorded is negative and no more items are unfinished
      than present, the completion percentage lies between 0 and 100. */
  lemma PercentInRange(c: Counters)
    requires 0 <= c.Todo <= c.Present && c.Missing >= 0 && c.Total() > 0
    ensures 0 <= Percent(c.Ok(), c.Total()) <= 100
  {
    var q := Percent(c.Ok(), c.Total());
    assert 100 * c.Ok() <= 100 * c.Total();
    assert q == (100 * c.Ok()) / c.Total();
    DivBounded(100 * c.Ok(), 100 * c.Total(), c.Total());
  }

  lemma DivBounded(a: nat, b: nat, d: nat)
    requires a <= b && d > 0 && b == 100 * d
    ensures a / d <= 100
  {
  }

  /** `AddCountersAttributes`: the counters' attributes are written onto the element. */
  function AddCountersAttributes(n: Node, c: Counters): (r: Node)
    ensures r.name == n.name && r.children == n.children
    ensures r.attrs == WriteTotalRatios(WriteTotalCounts(WritePartialCounters(n.attrs, c), c), c)
  {
    n.(attrs := WriteTotalRatios(WriteTotalCounts(WritePartialCounters(n.attrs, c), c), c))
  }

  /** `AddWarning`: one more warning is counted, the element is flagged
      `error="warning"`, and a `warning` child carrying the text is added to
      its `warnings` container, which is created the first time. */
  function AddWarning(parent: Node, c: Counters, text: string): (r: (Node, Counters))
    ensures r.1 == c.(Warning := c.Warning + 1)
    ensures r.0.name == parent.name
    ensures r.0.attrs == parent.attrs["error" := "warning"]
    ensures var i := FirstChildNamed(parent, "warnings");
      if i == -1 then
        r.0.children == parent.children + [Node("warnings", map[], [WarningNode(text)])]
      else
        && |r.0.children| == |parent.children|
        && (forall j :: 0 <= j < |parent.children| && j != i ==> r.0.children[j] == parent.children[j])
        && r.0.children[i] == AppendChild(parent.children[i], WarningNode(text))
  {
    var i := FirstChildNamed(parent, "warnings");
    var children :=
      if i == -1 then parent.children + [Node("warnings", map[], [WarningNode(text)])]
      else parent.children[i := AppendChild(parent.children[i], WarningNode(text))];
    (Node(parent.name, parent.attrs["error" := "warning"], children), c.(Warning := c.Warning + 1))
  }

  function WarningNode(text: string): Node {
    Node("warning", map["text" := text], [])
  }

  /** The texts of all warnings recorded on an element, in order. */
  function Warnings(n: Node): seq<string> {
    var i := FirstChildNamed(n, "warnings");
    if i == -1 then [] else WarningTexts(n.children[i].children)
  }

  function WarningTexts(ws: seq<Node>): seq<string> {
    if |ws| == 0 then []
    else [GetAttribute(ws[0], "text")] + WarningTexts(ws[1..])
  }

  /** Recording a warning appends exactly its text to the element's warnings. */
  lemma AddWarningAppends(parent: Node, c: Counters, text: string)
    ensures Warnings(AddWarning(parent, c, text).0) == Warnings(parent) + [text]
  {
    var r := AddWarning(parent, c, text).0;
    var i := FirstChildNamed(parent, "warnings");
    if i == -1 {
      assert FirstChildNamed(r, "warnings") == |parent.children| by {
        FirstNamedAppend(parent.children, Node("warnings", map[], [WarningNode(text)]), "warnings");
      }
      assert WarningTexts([WarningNode(text)]) == [text];
    } else {
      assert FirstChildNamed(r, "warnings") == i by {
        FirstNamedSameNames(parent.children, r.children, "warnings");
      }
      WarningTextsAppend(parent.children[i].children, WarningNode(text));
    }
  }

  lemma FirstNamedAppend(cs: seq<Node>, c: Node, name: string)
    requires FirstNamed(cs, name) == -1 && c.name == name
    ensures FirstNamed(cs + [c], name) == |cs|
  {
    if |cs| > 0 {
      assert (cs + [c])[1..] == cs[1..] + [c];
      FirstNamedAppend(cs[1..], c, name);
    }
  }

  lemma FirstNamedSameNames(cs: seq<Node>, ds: seq<Node>, name: string)
    requires |cs| == |ds| && forall j :: 0 <= j < |cs| ==> cs[j].name == ds[j].name
    ensures FirstNamed(cs, name) == FirstNamed(ds, name)
  {
    if |cs| > 0 {
      FirstNamedSameNames(cs[1..], ds[1..], name);
    }
  }

  lemma WarningTextsAppend(ws: seq<Node>, w: Node)
    ensures WarningTexts(ws + [w]) == WarningTexts(ws) + [GetAttribute(w, "text")]
  {
    if |ws| > 0 {
      assert (ws + [w])[1..] == ws[1..] + [w];
      WarningTextsAppend(ws[1..], w);
    }
  }

  /** Several `AddWarning` calls in a row, one per text. */
  function AddWarnings(parent: Node, c: Counters, texts: seq<string>): (r: (Node, Counters))
    ensures r.1 == c.(Warning := c.Warning + |texts|)
    ensures r.0.name == parent.name
    ensures |texts| > 0 ==> r.0.attrs == parent.attrs["error" := "warning"]
    ensures |texts| == 0 ==> r.0 == parent
    decreases |texts|
  {
    if |texts| == 0 then (parent, c)
    else
      var (n, c') := AddWarning(parent, c, texts[0]);
      AddWarnings(n, c', texts[1..])
  }

  /** The warnings recorded by `AddWarnings` are exactly the given texts, in order. */
  lemma {:induction false} AddWarningsAppends(parent: Node, c: Counters, texts: seq<string>)
    ensures Warnings(AddWarnings(parent, c, texts).0) == Warnings(parent) + texts
    decreases |texts|
  {
    if |texts| > 0 {
      var (n, c') := AddWarning(parent, c, texts[0]);
      AddWarningAppends(parent, c, texts[0]);
      AddWarningsAppends(n, c', texts[1..]);
      assert texts == [texts[0]] + texts[1..];
    }
  }

  /** A TODO marker found on the second side: the element is flagged
      `error="todo"` and, when the marker carried a message, `comment`. */
  function MarkTodo(n: Node, comment: Option<string>): (r: Node)
    ensures r.name == n.name && r.children == n.children
    ensures Attr(r, "error") == Some("todo")
    ensures comment.Some? ==> Attr(r, "comment") == Some(comment.value)
    ensures comment.None? ==> Attr(r, "comment") == Attr(n, "comment")
    ensures forall k :: k != "error" && k != "comment" ==> Attr(r, k) == Attr(n, k)
  {
    var n := SetAttr(n, "error", "todo");
    if comment.Some? then SetAttr(n, "comment", comment.value) else n
  }
}
