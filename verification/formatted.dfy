/** The bookkeeping of the formatted (HTML or Markdown) diff. An `ApiChange`
    accumulates the rendered text of one member's differences together with
    two flags: whether anything differs and whether any difference is
    breaking. `ApiChanges` keeps the changes worth reporting, grouped by
    header. `CreateState` derives the comparison state from the
    configuration, and `Generate` wraps the rendered body in a titled
    document. */
module FormattedDiff {
  import opened Wrappers
  import opened Strings
  import opened Seqs
  import opened Tables

  // ------------------------------------------------------------ one change

  /** How the chosen formatter renders a difference span. The HTML and
      Markdown renderings themselves are not part of this model. */
  datatype Renderer = Renderer(
    addition: (string, bool) -> string,
    removal: (string, bool) -> string,
    modification: (string, string, bool) -> string)

  /** An `ApiChange`: the rendered member text (the `StringBuilder`), the
      `Breaking`, `AnyChange` and `HasIgnoredChanges` flags, the header it
      is reported under and the description the ignore patterns see. */
  datatype Change = Change(
    header: string,
    member: string,
    breaking: bool,
    anyChange: bool,
    hasIgnoredChanges: bool,
    sourceDescription: string)

  /** A freshly constructed change: empty text, no flag set. */
  function NewChange(header: string, sourceDescription: string): (c: Change)
    ensures c.member == "" && !c.breaking && !c.anyChange && !c.hasIgnoredChanges
    ensures c.header == header && c.sourceDescription == sourceDescription
  {
    Change(header, "", false, false, false, sourceDescription)
  }

  /** `Append`: plain text, no difference recorded. */
  function Append(c: Change, text: string): (r: Change)
    ensures r.member == c.member + text
    ensures r.(member := c.member) == c
  {
    c.(member := c.member + text)
  }

  /** `AppendAdded`: the rendered addition, a difference, breaking if asked. */
  function AppendAdded(c: Change, f: Renderer, text: string, breaking: bool): (r: Change)
    ensures r.anyChange && (r.breaking <==> c.breaking || breaking)
    ensures StartsWith(r.member, c.member)
    ensures r.(member := c.member, breaking := c.breaking, anyChange := c.anyChange) == c
  {
    c.(member := c.member + f.addition(text, breaking), breaking := c.breaking || breaking, anyChange := true)
  }

  /** `AppendRemoved`: the rendered removal, a difference, breaking if asked. */
  function AppendRemoved(c: Change, f: Renderer, text: string, breaking: bool): (r: Change)
    ensures r.anyChange && (r.breaking <==> c.breaking || breaking)
    ensures StartsWith(r.member, c.member)
    ensures r.(member := c.member, breaking := c.breaking, anyChange := c.anyChange) == c
  {
    c.(member := c.member + f.removal(text, breaking), breaking := c.breaking || breaking, anyChange := true)
  }

  /** `AppendModified`: the rendered modification from `before` to `after`. */
  function AppendModified(c: Change, f: Renderer, before: string, after: string, breaking: bool): (r: Change)
    ensures r.anyChange && (r.breaking <==> c.breaking || breaking)
    ensures StartsWith(r.member, c.member)
    ensures r.(member := c.member, breaking := c.breaking, anyChange := c.anyChange) == c
  {
    c.(member := c.member + f.modification(before, after, breaking), breaking := c.breaking || breaking, anyChange := true)
  }

  /** The default `breaking` arguments: an addition is not breaking, a
      removal or modification is. */
  const AddedBreakingDefault := false
  const RemovedBreakingDefault := true
  const ModifiedBreakingDefault := true

  /** With the default arguments an addition leaves `Breaking` as it was,
      while a removal or a modification always makes the change breaking. */
  lemma DefaultBreaking(c: Change, f: Renderer, text: string, before: string, after: string)
    ensures AppendAdded(c, f, text, AddedBreakingDefault).breaking == c.breaking
    ensures AppendRemoved(c, f, text, RemovedBreakingDefault).breaking
    ensures AppendModified(c, f, before, after, ModifiedBreakingDefault).breaking
  {
  }

  /** One call on a change, as the comparers issue them. */
  datatype Step =
    | Text(text: string)
    | Added(text: string, breaking: bool)
    | Removed(text: string, breaking: bool)
    | Modified(before: string, after: string, breaking: bool)

  predicate IsDifference(s: Step) {
    !s.Text?
  }

  predicate IsBreaking(s: Step) {
    !s.Text? && s.breaking
  }

  function Apply(c: Change, f: Renderer, s: Step): Change {
    match s
    case Text(t) => Append(c, t)
    case Added(t, b) => AppendAdded(c, f, t, b)
    case Removed(t, b) => AppendRemoved(c, f, t, b)
    case Modified(x, y, b) => AppendModified(c, f, x, y, b)
  }

  /** The calls of `steps`, in order: the chained `Append…` calls. */
  function Run(c: Change, f: Renderer, steps: seq<Step>): Change
    decreases |steps|
  {
    if |steps| == 0 then c
    else Apply(Run(c, f, steps[..|steps| - 1]), f, steps[|steps| - 1])
  }

  /** After any sequence of calls, `AnyChange` is set exactly when one of
      them recorded a difference and `Breaking` exactly when one of them
      was breaking (or the flag was already set: it never returns to
      false). The text only grows, and nothing else changes. */
  lemma {:induction false} RunFlags(c: Change, f: Renderer, steps: seq<Step>)
    ensures var r := Run(c, f, steps);
      && (r.anyChange <==> c.anyChange || exists i :: 0 <= i < |steps| && IsDifference(steps[i]))
      && (r.breaking <==> c.breaking || exists i :: 0 <= i < |steps| && IsBreaking(steps[i]))
      && StartsWith(r.member, c.member)
      && r.header == c.header && r.sourceDescription == c.sourceDescription
      && r.hasIgnoredChanges == c.hasIgnoredChanges
    decreases |steps|
  {
    if |steps| > 0 {
      var init := steps[..|steps| - 1];
      var last := steps[|steps| - 1];
      RunFlags(c, f, init);
      var m := Run(c, f, init);
      var r := Apply(m, f, last);
      assert r.anyChange <==> m.anyChange || IsDifference(last);
      assert r.breaking <==> m.breaking || IsBreaking(last);
      assert StartsWith(r.member, m.member);
      if exists i :: 0 <= i < |init| && IsDifference(init[i]) {
        var i :| 0 <= i < |init| && IsDifference(init[i]);
        assert steps[i] == init[i];
      }
      if exists i :: 0 <= i < |init| && IsBreaking(init[i]) {
        var i :| 0 <= i < |init| && IsBreaking(init[i]);
        assert steps[i] == init[i];
      }
      if exists i :: 0 <= i < |steps| && IsDifference(steps[i]) {
        var i :| 0 <= i < |steps| && IsDifference(steps[i]);
        if i < |init| {
          assert init[i] == steps[i];
        }
      }
      if exists i :: 0 <= i < |steps| && IsBreaking(steps[i]) {
        var i :| 0 <= i < |steps| && IsBreaking(steps[i]);
        if i < |init| {
          assert init[i] == steps[i];
        }
      }
    }
  }

  /** A change that only ever received plain text reports no difference:
      `ApiChanges.Add` will drop it. */
  lemma TextOnlyIsNoChange(header: string, sourceDescription: string, f: Renderer, steps: seq<Step>)
    requires forall i :: 0 <= i < |steps| ==> steps[i].Text?
    ensures !Run(NewChange(header, sourceDescription), f, steps).anyChange
    ensures !Run(NewChange(header, sourceDescription), f, steps).breaking
  {
    RunFlags(NewChange(header, sourceDescription), f, steps);
  }

  // ------------------------------------------------------------ the change table

  /** A regular expression, by its source text. Matching is `Regex.IsMatch`,
      which this model leaves uninterpreted: it is the parameter `isMatch`. */
  datatype Pattern = Pattern(source: string)

  /** `Enumerable.Any(re => re.IsMatch(d))`. */
  function AnyMatch(patterns: seq<Pattern>, isMatch: (Pattern, string) -> bool, d: string): (r: bool)
    ensures r <==> exists i :: 0 <= i < |patterns| && isMatch(patterns[i], d)
  {
    if |patterns| == 0 then false
    else isMatch(patterns[0], d) || AnyMatch(patterns[1..], isMatch, d)
  }

  /** The changes kept so far, by header, headers in the order they were
      first reported. */
  type ChangeTable = Table<string, seq<Change>>

  /** A change as the comparers report it: with the namespace and type
      under comparison at that moment. */
  datatype Report = Report(namespace: string, typeName: string, change: Change)

  /** The text the ignore-removed patterns are matched against. */
  function Description(r: Report): (d: string)
    ensures StartsWith(d, r.namespace + "." + r.typeName + ": ")
    ensures EndsWith(d, ": " + r.change.sourceDescription)
  {
    var d := r.namespace + "." + r.typeName + ": " + r.change.header + ": " + r.change.sourceDescription;
    assert d == (r.namespace + "." + r.typeName + ": ") + (r.change.header + ": " + r.change.sourceDescription);
    assert d == (r.namespace + "." + r.typeName + ": " + r.change.header) + (": " + r.change.sourceDescription);
    d
  }

  /** Whether `Add` keeps a reported change: it records a difference and no
      ignore-removed pattern matches its description. */
  predicate Kept(ignoreRemoved: seq<Pattern>, isMatch: (Pattern, string) -> bool, r: Report) {
    r.change.anyChange && !AnyMatch(ignoreRemoved, isMatch, Description(r))
  }

  /** `ApiChanges.Add`: a change with no difference, or one an ignore
      pattern matches, leaves the table alone; otherwise it goes at the end
      of its header's list, which is created when the header is new. The
      debug messages it logs are not modelled. */
  function AddChange(t: ChangeTable, ignoreRemoved: seq<Pattern>, isMatch: (Pattern, string) -> bool, r: Report): (u: ChangeTable)
    ensures !Kept(ignoreRemoved, isMatch, r) ==> u == t
    ensures Kept(ignoreRemoved, isMatch, r) ==>
      && Get(u, r.change.header) == Some(Get(t, r.change.header).GetOr([]) + [r.change])
      && Keys(u) == Keys(t) + {r.change.header}
      && (r.change.header !in Keys(t) ==> KeyList(u) == KeyList(t) + [r.change.header])
    ensures forall h :: h != r.change.header ==> Get(u, h) == Get(t, h)
    ensures Distinct(t) ==> Distinct(u)
  {
    if !r.change.anyChange then t
    else if AnyMatch(ignoreRemoved, isMatch, Description(r)) then t
    else
      var h := r.change.header;
      var u := Put(t, h, Get(t, h).GetOr([]) + [r.change]);
      assert h !in Keys(t) ==> KeyList(u) == KeyList(t) + [h] by {
        if h !in Keys(t) {
          assert u == t + [Entry(h, Get(t, h).GetOr([]) + [r.change])];
        }
      }
      u
  }

  /** The table after the reports `rs`, in order. */
  function AddAll(t: ChangeTable, ignoreRemoved: seq<Pattern>, isMatch: (Pattern, string) -> bool, rs: seq<Report>): ChangeTable
    decreases |rs|
  {
    if |rs| == 0 then t
    else AddChange(AddAll(t, ignoreRemoved, isMatch, rs[..|rs| - 1]), ignoreRemoved, isMatch, rs[|rs| - 1])
  }

  function ChangesOf(rs: seq<Report>): (cs: seq<Change>)
    ensures |cs| == |rs| && forall i :: 0 <= i < |rs| ==> cs[i] == rs[i].change
  {
    seq(|rs|, i requires 0 <= i < |rs| => rs[i].change)
  }

  /** The selection of the kept changes reported under header `h`. */
  function KeptUnder(ignoreRemoved: seq<Pattern>, isMatch: (Pattern, string) -> bool, h: string): Report -> bool {
    r => Kept(ignoreRemoved, isMatch, r) && r.change.header == h
  }

  /** Starting from an empty table, the list under each header is exactly
      the kept changes with that header, in the order they were reported. */
  lemma {:induction false} AddAllGroups(ignoreRemoved: seq<Pattern>, isMatch: (Pattern, string) -> bool, rs: seq<Report>, h: string)
    ensures Get(AddAll([], ignoreRemoved, isMatch, rs), h).GetOr([]) ==
      ChangesOf(Filter(rs, KeptUnder(ignoreRemoved, isMatch, h)))
    decreases |rs|
  {
    var p := KeptUnder(ignoreRemoved, isMatch, h);
    if |rs| > 0 {
      var init := rs[..|rs| - 1];
      var last := rs[|rs| - 1];
      AddAllGroups(ignoreRemoved, isMatch, init, h);
      var t := AddAll([], ignoreRemoved, isMatch, init);
      var before := Filter(init, p);
      assert Get(t, h).GetOr([]) == ChangesOf(before);
      assert AddAll([], ignoreRemoved, isMatch, rs) == AddChange(t, ignoreRemoved, isMatch, last);
      assert Filter(rs, p) == before + (if p(last) then [last] else []);
      if p(last) {
        AppendChanges(before, last);
      } else {
        assert Filter(rs, p) == before;
      }
    }
  }

  lemma AppendChanges(rs: seq<Report>, r: Report)
    ensures ChangesOf(rs + [r]) == ChangesOf(rs) + [r.change]
  {
    assert forall i :: 0 <= i < |rs| ==> (rs + [r])[i] == rs[i];
  }

  /** Starting from an empty table, the headers are distinct and are
      exactly the headers of the kept changes. */
  lemma {:induction false} AddAllHeaders(ignoreRemoved: seq<Pattern>, isMatch: (Pattern, string) -> bool, rs: seq<Report>, h: string)
    ensures Distinct(AddAll([], ignoreRemoved, isMatch, rs))
    ensures h in Keys(AddAll([], ignoreRemoved, isMatch, rs)) <==>
      exists i :: 0 <= i < |rs| && Kept(ignoreRemoved, isMatch, rs[i]) && rs[i].change.header == h
    decreases |rs|
  {
    if |rs| > 0 {
      var init := rs[..|rs| - 1];
      var last := rs[|rs| - 1];
      AddAllHeaders(ignoreRemoved, isMatch, init, h);
      if exists i :: 0 <= i < |init| && Kept(ignoreRemoved, isMatch, init[i]) && init[i].change.header == h {
        var i :| 0 <= i < |init| && Kept(ignoreRemoved, isMatch, init[i]) && init[i].change.header == h;
        assert rs[i] == init[i];
      }
      if exists i :: 0 <= i < |rs| && Kept(ignoreRemoved, isMatch, rs[i]) && rs[i].change.header == h {
        var i :| 0 <= i < |rs| && Kept(ignoreRemoved, isMatch, rs[i]) && rs[i].change.header == h;
        if i < |init| {
          assert init[i] == rs[i];
        }
      }
    }
  }

  // ------------------------------------------------------------ the state

  /** `ApiDiffFormatter`: an enum, so any other integer value can reach
      the switch. */
  datatype FormatterKind = Html | Markdown | OtherFormatter(code: int)

  /** The formatter object the state holds. */
  datatype Formatter = HtmlFormatter | MarkdownFormatter

  /** `ApiDiffFormattedConfig`, the fields `CreateState` reads. */
  datatype Config = Config(
    colorize: bool,
    formatter: FormatterKind,
    ignoreAddedPropertySetters: bool,
    ignoreVirtualChanges: bool,
    ignoreNonbreaking: bool,
    ignoreParameterNameChanges: bool,
    ignoreDuplicateXml: bool,
    verbosity: int,
    ignoreAdded: seq<Pattern>,
    ignoreNew: seq<Pattern>,
    ignoreRemoved: seq<Pattern>)

  /** The comparison state `CreateState` fills in. */
  datatype State = State(
    colorize: bool,
    formatter: Formatter,
    ignoreAddedPropertySetters: bool,
    ignoreVirtualChanges: bool,
    ignoreNonbreaking: bool,
    ignoreParameterNameChanges: bool,
    lax: bool,
    verbosity: int,
    ignoreAdded: seq<Pattern>,
    ignoreNew: seq<Pattern>,
    ignoreRemoved: seq<Pattern>)

  /** The pattern added to ignore everything. */
  const MatchAll := Pattern(".*")

  /** The formatter switch: HTML and Markdown have one, anything else is an
      `ArgumentException` (with the message as spelled in the source). */
  function FormatterFor(k: FormatterKind): (r: Result<Formatter>)
    ensures r.Ok? <==> !k.OtherFormatter?
    ensures k.Html? ==> r == Ok(HtmlFormatter)
    ensures k.Markdown? ==> r == Ok(MarkdownFormatter)
  {
    match k
    case Html => Ok(HtmlFormatter)
    case Markdown => Ok(MarkdownFormatter)
    case OtherFormatter(_) => Err(ArgumentException("Invlid formatter specified."))
  }

  /** `CreateState`. A missing configuration is the default one, `defaults`
      (the configuration class's initial values are not part of this model).
      The flags and the three ignore lists are copied (the state's lists
      start empty); `IgnoreDuplicateXml` becomes `Lax`; and
      `IgnoreNonbreaking` then also turns on the two other ignore flags and
      ignores every addition and every new member. The formatter switch
      throws before the fallback to HTML could apply, so that fallback never
      changes the outcome. */
  function CreateState(config: Option<Config>, defaults: Config): (r: Result<State>)
    ensures r.Ok? <==> !config.GetOr(defaults).formatter.OtherFormatter?
    ensures r.Err? ==> r.error.ArgumentException?
    ensures r.Ok? ==> Ok(r.value.formatter) == FormatterFor(config.GetOr(defaults).formatter)
  {
    var c := config.GetOr(defaults);
    var formatter :- FormatterFor(c.formatter);
    var s := State(c.colorize, formatter, c.ignoreAddedPropertySetters, c.ignoreVirtualChanges,
      c.ignoreNonbreaking, c.ignoreParameterNameChanges, c.ignoreDuplicateXml, c.verbosity,
      [] + c.ignoreAdded, [] + c.ignoreNew, [] + c.ignoreRemoved);
    if s.ignoreNonbreaking then
      Ok(s.(ignoreAddedPropertySetters := true, ignoreVirtualChanges := true,
        ignoreNew := s.ignoreNew + [MatchAll], ignoreAdded := s.ignoreAdded + [MatchAll]))
    else Ok(s)
  }

  /** A missing configuration behaves exactly as the default one. */
  lemma NullConfigIsDefault(defaults: Config)
    ensures CreateState(None, defaults) == CreateState(Some(defaults), defaults)
  {
  }

  /** What the state holds: every setting copied from the configuration,
      except that `IgnoreNonbreaking` forces both ignore flags on and adds
      the match-everything pattern after the configured added and new
      patterns; the removed patterns are never touched. */
  lemma CreateStateSettings(c: Config)
    requires !c.formatter.OtherFormatter?
    ensures var r := CreateState(Some(c), c);
      && r.Ok?
      && r.value.colorize == c.colorize
      && r.value.ignoreNonbreaking == c.ignoreNonbreaking
      && r.value.ignoreParameterNameChanges == c.ignoreParameterNameChanges
      && r.value.lax == c.ignoreDuplicateXml
      && r.value.verbosity == c.verbosity
      && r.value.ignoreRemoved == c.ignoreRemoved
      && r.value.ignoreAddedPropertySetters == (c.ignoreAddedPropertySetters || c.ignoreNonbreaking)
      && r.value.ignoreVirtualChanges == (c.ignoreVirtualChanges || c.ignoreNonbreaking)
      && r.value.ignoreAdded == c.ignoreAdded + (if c.ignoreNonbreaking then [MatchAll] else [])
      && r.value.ignoreNew == c.ignoreNew + (if c.ignoreNonbreaking then [MatchAll] else [])
  {
    assert [] + c.ignoreAdded == c.ignoreAdded;
    assert [] + c.ignoreNew == c.ignoreNew;
    assert [] + c.ignoreRemoved == c.ignoreRemoved;
    assert c.ignoreAdded + [] == c.ignoreAdded;
    assert c.ignoreNew + [] == c.ignoreNew;
  }

  /** A pattern list extended by a pattern matches whatever the list or the
      pattern matches. */
  lemma {:induction false} AnyMatchAppend(ps: seq<Pattern>, p: Pattern, isMatch: (Pattern, string) -> bool, d: string)
    ensures AnyMatch(ps + [p], isMatch, d) <==> AnyMatch(ps, isMatch, d) || isMatch(p, d)
  {
    var qs := ps + [p];
    if isMatch(p, d) {
      assert qs[|ps|] == p;
    }
    if AnyMatch(qs, isMatch, d) {
      var i :| 0 <= i < |qs| && isMatch(qs[i], d);
      if i < |ps| {
        assert ps[i] == qs[i];
      }
    }
    if AnyMatch(ps, isMatch, d) {
      var i :| 0 <= i < |ps| && isMatch(ps[i], d);
      assert qs[i] == ps[i];
    }
  }

  /** With `IgnoreNonbreaking`, since ".*" matches every text, every
      description matches some added and some new pattern, while the
      removed patterns match exactly what the configuration's do. */
  lemma NonbreakingIgnoresAllAdditions(c: Config, isMatch: (Pattern, string) -> bool, d: string)
    requires !c.formatter.OtherFormatter? && c.ignoreNonbreaking
    requires isMatch(MatchAll, d)
    ensures var s := CreateState(Some(c), c).value;
      && AnyMatch(s.ignoreAdded, isMatch, d)
      && AnyMatch(s.ignoreNew, isMatch, d)
      && AnyMatch(s.ignoreRemoved, isMatch, d) == AnyMatch(c.ignoreRemoved, isMatch, d)
  {
    CreateStateSettings(c);
    AnyMatchAppend(c.ignoreAdded, MatchAll, isMatch, d);
    AnyMatchAppend(c.ignoreNew, MatchAll, isMatch, d);
  }

  // ------------------------------------------------------------ the document

  /** The document framing of the formatter (`BeginDocument`,
      `BeginAssembly`, `EndAssembly`, `EndDocument`), left uninterpreted. */
  datatype Framing = Framing(
    beginDocument: string -> string,
    beginAssembly: string,
    endAssembly: string,
    endDocument: string)

  /** The document title: the source assembly's file name, followed by the
      target's only when the two names differ. */
  function Title(source: string, target: string): (r: string)
  {
    if source != target then source + ".dll" + " vs " + target + ".dll"
    else source + ".dll"
  }

  /** The title always starts with the source's file name and ends with
      the target's; it names a single file exactly when the names agree. */
  lemma TitleNames(source: string, target: string)
    ensures StartsWith(Title(source, target), source + ".dll")
    ensures EndsWith(Title(source, target), target + ".dll")
    ensures |Title(source, target)| == |source| + 4 <==> source == target
  {
    var r := Title(source, target);
    if source != target {
      assert r == (source + ".dll") + (" vs " + target + ".dll");
      assert r == (source + ".dll" + " vs ") + (target + ".dll");
    }
  }

  /** `Generate`'s output for the comparison's rendered `body`: nothing at
      all for an empty body, otherwise the body inside the formatter's
      assembly and document framing, titled "API diff: " and the title. */
  function Document(f: Framing, source: string, target: string, body: string): (r: string)
    ensures |body| == 0 <==> r == ""
    ensures |body| > 0 ==>
      var head := f.beginDocument("API diff: " + Title(source, target)) + f.beginAssembly;
      && |r| == |head| + |body| + |f.endAssembly + f.endDocument|
      && StartsWith(r, head)
      && r[|head|..|head| + |body|] == body
      && EndsWith(r, f.endAssembly + f.endDocument)
  {
    if |body| > 0 then
      var head := f.beginDocument("API diff: " + Title(source, target)) + f.beginAssembly;
      var tail := f.endAssembly + f.endDocument;
      var r := head + body + tail;
      assert r == head + (body + tail);
      assert r[|head|..|head| + |body|] == body;
      assert r == (head + body) + tail;
      r
    else ""
  }
}
