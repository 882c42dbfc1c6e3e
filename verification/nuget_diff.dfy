/** The set logic of `NuGetDiff`. Two packages' lib folders are compared:
    - target frameworks are merged;
    - each framework's assemblies are split into added, removed and
      unchanged;
    - each framework and assembly gets its presence;
    - the assembly diffs' totals are summed for the package;
    - output file names are derived from assembly paths.
    Downloading, caching and extracting packages, and running the API diff
    itself, are not part of this model. */
module NuGetDiff {
  import opened Wrappers
  import opened Strings
  import opened Seqs
  import opened Tables
  import NuGetDiffResult

  // ------------------------------------------------------------ dll items

  /** The directory separators `Path` recognises. */
  predicate IsDirectorySeparator(c: char) {
    c == '/' || c == '\\'
  }

  /** The scan of `Path.GetExtension` over the first `i` characters, from
      the back: a '.' that is not the last character starts the extension,
      a directory separator ends the search. */
  function ExtensionScan(p: string, i: nat): (r: string)
    requires i <= |p|
    ensures r == "" || (2 <= |r| <= |p| && r[0] == '.' && r == p[|p| - |r|..])
  {
    if i == 0 then ""
    else if p[i - 1] == '.' then (if i != |p| then p[i - 1..] else "")
    else if IsDirectorySeparator(p[i - 1]) then ""
    else ExtensionScan(p, i - 1)
  }

  /** `Path.GetExtension`: the text from the last '.' of the file name, or
      "" when there is none or it ends the path. */
  function Extension(p: string): string {
    ExtensionScan(p, |p|)
  }

  /** The item filter: `Path.GetExtension(i).ToLowerInvariant() == ".dll"`. */
  predicate IsDll(p: string) {
    ToLowerAscii(Extension(p)) == ".dll"
  }

  /** An item counts as an assembly exactly when its path ends in ".dll",
      in any letter case. */
  lemma IsDllIff(p: string)
    ensures IsDll(p) <==> EndsWith(ToLowerAscii(p), ".dll")
  {
    if IsDll(p) {
      DllExtensionIsSuffix(p);
    }
    if EndsWith(ToLowerAscii(p), ".dll") {
      DllSuffixIsExtension(p);
    }
  }

  lemma DllExtensionIsSuffix(p: string)
    requires IsDll(p)
    ensures EndsWith(ToLowerAscii(p), ".dll")
  {
    var e := Extension(p);
    var le := ToLowerAscii(e);
    assert |e| == |le| == 4;
    assert e == p[|p| - 4..];
    var lp := ToLowerAscii(p);
    var n := |p|;
    forall k | 0 <= k < 4
      ensures lp[n - 4 + k] == le[k]
    {
      assert e[k] == p[n - 4 + k];
    }
    assert lp[n - 4..] == le;
  }

  lemma DllSuffixIsExtension(p: string)
    requires EndsWith(ToLowerAscii(p), ".dll")
    ensures IsDll(p)
  {
    DllSuffixChars(p);
    ExtensionOfDllSuffix(p);
    LowerOfDllSuffix(p);
  }

  /** The extension of such a path is its last four characters. */
  lemma ExtensionOfDllSuffix(p: string)
    requires |p| >= 4 && p[|p| - 4] == '.'
    requires LowerAscii(p[|p| - 3]) == 'd' && LowerAscii(p[|p| - 2]) == 'l' && LowerAscii(p[|p| - 1]) == 'l'
    ensures Extension(p) == p[|p| - 4..]
  {
    var n := |p|;
    ScanPastLetter(p, n, 'l');
    ScanPastLetter(p, n - 1, 'l');
    ScanPastLetter(p, n - 2, 'd');
    assert ExtensionScan(p, n - 3) == p[n - 4..];
  }

  /** The characters of a path whose lower-cased form ends in ".dll". */
  lemma DllSuffixChars(p: string)
    requires EndsWith(ToLowerAscii(p), ".dll")
    ensures |p| >= 4 && p[|p| - 4] == '.'
    ensures LowerAscii(p[|p| - 3]) == 'd' && LowerAscii(p[|p| - 2]) == 'l' && LowerAscii(p[|p| - 1]) == 'l'
  {
    var n := |p|;
    var lp := ToLowerAscii(p);
    EndsWithAt(lp, ".dll", 0);
    EndsWithAt(lp, ".dll", 1);
    EndsWithAt(lp, ".dll", 2);
    EndsWithAt(lp, ".dll", 3);
    assert LowerAscii(p[n - 4]) == '.';
  }

  /** The last four characters of such a path lower-case to ".dll". */
  lemma LowerOfDllSuffix(p: string)
    requires EndsWith(ToLowerAscii(p), ".dll")
    ensures ToLowerAscii(p[|p| - 4..]) == ".dll"
  {
    var n := |p|;
    var lp := ToLowerAscii(p);
    var t := ToLowerAscii(p[n - 4..]);
    forall i | 0 <= i < 4 ensures t[i] == ".dll"[i] {
      EndsWithAt(lp, ".dll", i);
      assert t[i] == LowerAscii(p[n - 4 + i]);
    }
  }

  /** The scan passes over a character that lower-cases to a letter. */
  lemma ScanPastLetter(p: string, i: nat, c: char)
    requires 0 < i <= |p| && 'a' <= c <= 'z' && LowerAscii(p[i - 1]) == c
    ensures ExtensionScan(p, i) == ExtensionScan(p, i - 1)
  {
  }

  // ------------------------------------------------------------ frameworks

  /** A `FrameworkSpecificGroup` of a package's lib folder. */
  datatype LibGroup<F> = LibGroup(framework: F, items: seq<string>)

  /** An opened package: its identity and its lib groups. */
  datatype Package<F, I> = Package(identity: I, libItems: seq<LibGroup<F>>)

  function Frameworks<F>(groups: seq<LibGroup<F>>): (r: seq<F>)
    ensures |r| == |groups| && forall i :: 0 <= i < |groups| ==> r[i] == groups[i].framework
  {
    seq(|groups|, i requires 0 <= i < |groups| => groups[i].framework)
  }

  /** `GetFrameworkAssemblies`: the dll items of the first group for `fw`,
      or none when no group targets `fw`. */
  function FrameworkAssemblies<F(==)>(fw: F, groups: seq<LibGroup<F>>): (r: seq<string>)
    ensures fw !in Frameworks(groups) ==> r == []
    ensures forall x :: x in r ==> IsDll(x)
  {
    if |groups| == 0 then []
    else if groups[0].framework == fw then Filter(groups[0].items, IsDll)
    else
      assert Frameworks(groups[1..]) == Frameworks(groups)[1..];
      FrameworkAssemblies(fw, groups[1..])
  }

  /** The dll items of the group for `fw` are exactly those of the first
      group that targets it. */
  lemma {:induction false} FrameworkAssembliesFirst<F>(fw: F, groups: seq<LibGroup<F>>, i: nat)
    requires i < |groups| && groups[i].framework == fw
    requires forall j :: 0 <= j < i ==> groups[j].framework != fw
    ensures FrameworkAssemblies(fw, groups) == Filter(groups[i].items, IsDll)
    decreases i
  {
    if i > 0 {
      FrameworkAssembliesFirst(fw, groups[1..], i - 1);
    }
  }

  /** One framework of either package with its dll items on both sides. */
  datatype FrameworkGroup<F> = FrameworkGroup(framework: F, oldItems: seq<string>, newItems: seq<string>)

  /** The old package's lib groups: none when there is no old package. */
  function OldGroups<F, I>(prev: Option<Package<F, I>>): seq<LibGroup<F>> {
    if prev.Some? then prev.value.libItems else []
  }

  /** The merged frameworks: the `Union` of both packages' frameworks. */
  function MergedFrameworks<F(==,!new), I>(prev: Option<Package<F, I>>, next: Package<F, I>): (r: seq<F>)
    ensures forall fw :: fw in r <==> fw in Frameworks(OldGroups(prev)) || fw in Frameworks(next.libItems)
    ensures NoDuplicates(r)
  {
    Dedup(Frameworks(OldGroups(prev)) + Frameworks(next.libItems))
  }

  function OldDlls<F(==), I>(prev: Option<Package<F, I>>, fw: F): seq<string> {
    FrameworkAssemblies(fw, OldGroups(prev))
  }

  function NewDlls<F(==), I>(next: Package<F, I>, fw: F): seq<string> {
    FrameworkAssemblies(fw, next.libItems)
  }

  function MergedGroups<F(==,!new), I>(prev: Option<Package<F, I>>, next: Package<F, I>): (r: seq<FrameworkGroup<F>>)
    ensures var fws := MergedFrameworks(prev, next);
      |r| == |fws| && forall i :: 0 <= i < |fws| ==> r[i] == FrameworkGroup(fws[i], OldDlls(prev, fws[i]), NewDlls(next, fws[i]))
  {
    var fws := MergedFrameworks(prev, next);
    seq(|fws|, i requires 0 <= i < |fws| => FrameworkGroup(fws[i], OldDlls(prev, fws[i]), NewDlls(next, fws[i])))
  }

  // ------------------------------------------------------------ selection

  /** `Where(p).Select(g => g.Framework)`. */
  function FrameworksWhere<F>(gs: seq<FrameworkGroup<F>>, p: FrameworkGroup<F> -> bool): (r: seq<F>)
    ensures forall i :: 0 <= i < |gs| && p(gs[i]) ==> gs[i].framework in r
    ensures forall fw :: fw in r ==> exists i :: 0 <= i < |gs| && p(gs[i]) && gs[i].framework == fw
  {
    if |gs| == 0 then []
    else
      var init := gs[..|gs| - 1];
      var g := gs[|gs| - 1];
      var r := FrameworksWhere(init, p) + (if p(g) then [g.framework] else []);
      assert forall i :: 0 <= i < |init| ==> gs[i] == init[i];
      r
  }

  /** `Except`: the distinct elements of `a` that are not in `b`. */
  function Except(a: seq<string>, b: seq<string>): (r: seq<string>)
    ensures forall x :: x in r <==> x in a && x !in b
    ensures NoDuplicates(r)
  {
    Dedup(Filter(a, x => x !in b))
  }

  /** `Intersect`: the distinct elements of `a` that are also in `b`. */
  function Intersect(a: seq<string>, b: seq<string>): (r: seq<string>)
    ensures forall x :: x in r <==> x in a && x in b
    ensures NoDuplicates(r)
  {
    Dedup(Filter(a, x => x in b))
  }

  /** `GetAssemblies(filter)`: the frameworks whose filtered list is not
      empty, with that list, gathered by `ToDictionary`, which throws on a
      repeated framework. */
  function AssembliesBy<F(==,!new)>(gs: seq<FrameworkGroup<F>>, pick: FrameworkGroup<F> -> seq<string>): (r: Result<Table<F, seq<string>>>)
    ensures r.Ok? ==> Distinct(r.value)
  {
    if |gs| == 0 then Ok([])
    else
      var t :- AssembliesBy(gs[..|gs| - 1], pick);
      var g := gs[|gs| - 1];
      if |pick(g)| > 0 then Add(t, g.framework, pick(g)) else Ok(t)
  }

  /** With distinct frameworks the dictionary is built without error, and
      each framework maps to its filtered list exactly when that list is
      not empty. */
  lemma {:induction false} AssembliesByOk<F(!new)>(gs: seq<FrameworkGroup<F>>, pick: FrameworkGroup<F> -> seq<string>)
    requires forall i, j :: 0 <= i < j < |gs| ==> gs[i].framework != gs[j].framework
    ensures AssembliesBy(gs, pick).Ok?
    ensures forall i :: 0 <= i < |gs| ==>
      Get(AssembliesBy(gs, pick).value, gs[i].framework) == (if |pick(gs[i])| > 0 then Some(pick(gs[i])) else None)
    ensures forall fw :: fw in Keys(AssembliesBy(gs, pick).value) ==> exists i :: 0 <= i < |gs| && gs[i].framework == fw
    decreases |gs|
  {
    if |gs| > 0 {
      var init := gs[..|gs| - 1];
      var g := gs[|gs| - 1];
      AssembliesByOk(init, pick);
      var t := AssembliesBy(init, pick).value;
      assert g.framework !in Keys(t);
      var u := AssembliesBy(gs, pick).value;
      forall i | 0 <= i < |gs|
        ensures Get(u, gs[i].framework) == (if |pick(gs[i])| > 0 then Some(pick(gs[i])) else None)
      {
        if i < |init| {
          assert gs[i] == init[i];
        }
      }
      forall fw | fw in Keys(u)
        ensures exists i :: 0 <= i < |gs| && gs[i].framework == fw
      {
        if fw != g.framework {
          var i :| 0 <= i < |init| && init[i].framework == fw;
          assert gs[i] == init[i];
        } else {
          assert gs[|gs| - 1].framework == fw;
        }
      }
    }
  }

  // ------------------------------------------------------------ the diff

  function AddedOf<F>(g: FrameworkGroup<F>): seq<string> {
    Except(g.newItems, g.oldItems)
  }

  function RemovedOf<F>(g: FrameworkGroup<F>): seq<string> {
    Except(g.oldItems, g.newItems)
  }

  function UnchangedOf<F>(g: FrameworkGroup<F>): seq<string> {
    Intersect(g.oldItems, g.newItems)
  }

  predicate NoOldDlls<F>(g: FrameworkGroup<F>) {
    |g.oldItems| == 0
  }

  predicate NoNewDlls<F>(g: FrameworkGroup<F>) {
    |g.newItems| == 0
  }

  predicate DllsOnBothSides<F>(g: FrameworkGroup<F>) {
    |g.oldItems| > 0 && |g.newItems| > 0
  }

  /** The comparison as `GenerateAsync` writes it, with unchanged
      assemblies as plain paths. */
  datatype Generated<F, I> = Generated(
    oldIdentity: Option<I>,
    newIdentity: I,
    addedFrameworks: seq<F>,
    removedFrameworks: seq<F>,
    unchangedFrameworks: seq<F>,
    addedAssemblies: Table<F, seq<string>>,
    removedAssemblies: Table<F, seq<string>>,
    unchangedAssemblies: Table<F, seq<string>>)

  /** `GenerateAsync(oldReader, newReader)`: no old package (a `null`
      reader) means no old identity and no old items. */
  function Generate<F(==,!new), I>(prev: Option<Package<F, I>>, next: Package<F, I>): (r: Result<Generated<F, I>>)
    ensures r.Ok? ==> r.value.oldIdentity == (if prev.Some? then Some(prev.value.identity) else None)
    ensures r.Ok? ==> r.value.newIdentity == next.identity
    ensures r.Ok? ==> Distinct(r.value.addedAssemblies) && Distinct(r.value.removedAssemblies)
    ensures r.Ok? ==> Distinct(r.value.unchangedAssemblies)
  {
    var gs := MergedGroups(prev, next);
    var added :- AssembliesBy(gs, AddedOf);
    var removed :- AssembliesBy(gs, RemovedOf);
    var same :- AssembliesBy(gs, UnchangedOf);
    Ok(Generated(
      if prev.Some? then Some(prev.value.identity) else None,
      next.identity,
      FrameworksWhere(gs, NoOldDlls),
      FrameworksWhere(gs, NoNewDlls),
      FrameworksWhere(gs, DllsOnBothSides),
      added, removed, same))
  }

  /** The merged groups carry distinct frameworks. */
  lemma MergedGroupsDistinct<F(!new), I>(prev: Option<Package<F, I>>, next: Package<F, I>)
    ensures var gs := MergedGroups(prev, next);
      forall i, j :: 0 <= i < j < |gs| ==> gs[i].framework != gs[j].framework
  {
  }

  /** The group of a merged framework. */
  lemma GroupOf<F(!new), I>(prev: Option<Package<F, I>>, next: Package<F, I>, fw: F)
    requires fw in MergedFrameworks(prev, next)
    ensures exists i :: (0 <= i < |MergedGroups(prev, next)| &&
      MergedGroups(prev, next)[i] == FrameworkGroup(fw, OldDlls(prev, fw), NewDlls(next, fw)))
  {
    var fws := MergedFrameworks(prev, next);
    var i :| 0 <= i < |fws| && fws[i] == fw;
    assert MergedGroups(prev, next)[i] == FrameworkGroup(fw, OldDlls(prev, fw), NewDlls(next, fw));
  }

  /** The comparison never throws: the dictionaries are keyed by distinct
      frameworks. */
  lemma GenerateOk<F(!new), I>(prev: Option<Package<F, I>>, next: Package<F, I>)
    ensures Generate(prev, next).Ok?
  {
    var gs := MergedGroups(prev, next);
    MergedGroupsDistinct(prev, next);
    AssembliesByOk(gs, AddedOf);
    AssembliesByOk(gs, RemovedOf);
    AssembliesByOk(gs, UnchangedOf);
  }

  /** A merged framework is selected exactly when its group qualifies. */
  lemma SelectedFramework<F(!new), I>(prev: Option<Package<F, I>>, next: Package<F, I>, fw: F, p: FrameworkGroup<F> -> bool)
    ensures fw in FrameworksWhere(MergedGroups(prev, next), p) <==>
      fw in MergedFrameworks(prev, next) && p(FrameworkGroup(fw, OldDlls(prev, fw), NewDlls(next, fw)))
  {
    var gs := MergedGroups(prev, next);
    var fws := MergedFrameworks(prev, next);
    if fw in FrameworksWhere(gs, p) {
      var i :| 0 <= i < |gs| && p(gs[i]) && gs[i].framework == fw;
      assert fws[i] == fw;
    }
    if fw in fws {
      GroupOf(prev, next, fw);
    }
  }

  /** The framework split: a merged framework is added when the old package
      has no dlls for it, removed when the new one has none, and unchanged
      when both have some. So a framework without dlls on either side is
      both added and removed, and an unchanged one is neither. */
  lemma FrameworkSplit<F(!new), I>(prev: Option<Package<F, I>>, next: Package<F, I>, fw: F)
    ensures Generate(prev, next).Ok?
    ensures var g := Generate(prev, next).value;
      var merged := MergedFrameworks(prev, next);
      && (fw in g.addedFrameworks <==> fw in merged && |OldDlls(prev, fw)| == 0)
      && (fw in g.removedFrameworks <==> fw in merged && |NewDlls(next, fw)| == 0)
      && (fw in g.unchangedFrameworks <==> fw in merged && |OldDlls(prev, fw)| > 0 && |NewDlls(next, fw)| > 0)
  {
    GenerateOk(prev, next);
    var gs := MergedGroups(prev, next);
    var g := Generate(prev, next).value;
    assert g.addedFrameworks == FrameworksWhere(gs, NoOldDlls);
    assert g.removedFrameworks == FrameworksWhere(gs, NoNewDlls);
    assert g.unchangedFrameworks == FrameworksWhere(gs, DllsOnBothSides);
    SelectedFramework(prev, next, fw, NoOldDlls);
    SelectedFramework(prev, next, fw, NoNewDlls);
    SelectedFramework(prev, next, fw, DllsOnBothSides);
  }

  /** One of the comparison's dictionaries, looked up at a framework: the
      picked list of that framework's group when it is not empty. */
  lemma PickedAt<F(!new), I>(prev: Option<Package<F, I>>, next: Package<F, I>, fw: F, pick: FrameworkGroup<F> -> seq<string>)
    ensures AssembliesBy(MergedGroups(prev, next), pick).Ok?
    ensures var v := pick(FrameworkGroup(fw, OldDlls(prev, fw), NewDlls(next, fw)));
      Get(AssembliesBy(MergedGroups(prev, next), pick).value, fw) ==
        if fw in MergedFrameworks(prev, next) && |v| > 0 then Some(v) else None
  {
    var gs := MergedGroups(prev, next);
    MergedGroupsDistinct(prev, next);
    AssembliesByOk(gs, pick);
    if fw in MergedFrameworks(prev, next) {
      GroupOf(prev, next, fw);
    } else {
      assert fw !in Keys(AssembliesBy(gs, pick).value);
    }
  }

  /** Per framework: the added assemblies are the new dlls not in the old
      package, the removed ones the old dlls not in the new package, and
      the unchanged ones the dlls in both; a framework is listed only when
      its list is not empty. */
  lemma AssemblySplit<F(!new), I>(prev: Option<Package<F, I>>, next: Package<F, I>, fw: F)
    ensures Generate(prev, next).Ok?
    ensures var g := Generate(prev, next).value;
      var o := OldDlls(prev, fw);
      var n := NewDlls(next, fw);
      && Get(g.addedAssemblies, fw) == (if |Except(n, o)| > 0 then Some(Except(n, o)) else None)
      && Get(g.removedAssemblies, fw) == (if |Except(o, n)| > 0 then Some(Except(o, n)) else None)
      && Get(g.unchangedAssemblies, fw) == (if |Intersect(o, n)| > 0 then Some(Intersect(o, n)) else None)
  {
    GenerateOk(prev, next);
    PickedAt(prev, next, fw, AddedOf<F>);
    PickedAt(prev, next, fw, RemovedOf<F>);
    PickedAt(prev, next, fw, UnchangedOf<F>);
    if fw !in MergedFrameworks(prev, next) {
      assert fw !in Frameworks(OldGroups(prev)) && fw !in Frameworks(next.libItems);
    }
  }

  /** Without an old package every framework is added, nothing is
      unchanged and no assembly is removed or unchanged; a framework is
      also removed only when the new package has no dlls for it. */
  lemma NoOldPackage<F(!new), I>(next: Package<F, I>, fw: F)
    ensures Generate(None, next).Ok?
    ensures var g := Generate(None, next).value;
      && g.oldIdentity.None?
      && (fw in g.addedFrameworks <==> fw in Frameworks(next.libItems))
      && (fw in g.removedFrameworks <==> fw in Frameworks(next.libItems) && |NewDlls(next, fw)| == 0)
      && g.unchangedFrameworks == []
      && g.removedAssemblies == [] && g.unchangedAssemblies == []
      && (fw in Keys(g.addedAssemblies) <==> |NewDlls(next, fw)| > 0)
  {
    var prev: Option<Package<F, I>> := None;
    FrameworkSplit(prev, next, fw);
    AssemblySplit(prev, next, fw);
    var g := Generate(prev, next).value;
    assert OldGroups(prev) == [];
    if |g.unchangedFrameworks| > 0 {
      FrameworkSplit(prev, next, g.unchangedFrameworks[0]);
    }
    if |g.removedAssemblies| > 0 {
      var k := g.removedAssemblies[0].key;
      EntryKeyIn(g.removedAssemblies, 0);
      AssemblySplit(prev, next, k);
    }
    if |g.unchangedAssemblies| > 0 {
      var k := g.unchangedAssemblies[0].key;
      EntryKeyIn(g.unchangedAssemblies, 0);
      AssemblySplit(prev, next, k);
    }
    var n := NewDlls(next, fw);
    if |n| > 0 {
      assert n[0] in Except(n, []);
    }
  }

  /** Comparing a package with itself adds and removes no assembly, and
      the added and removed frameworks are the same: those without dlls. */
  lemma SamePackage<F(!new), I>(p: Package<F, I>, fw: F)
    ensures Generate(Some(p), p).Ok?
    ensures var g := Generate(Some(p), p).value;
      && g.addedAssemblies == [] && g.removedAssemblies == []
      && (fw in g.addedFrameworks <==> fw in g.removedFrameworks)
      && (fw in g.unchangedFrameworks <==> fw in Frameworks(p.libItems) && |NewDlls(p, fw)| > 0)
  {
    FrameworkSplit(Some(p), p, fw);
    var g := Generate(Some(p), p).value;
    if |g.addedAssemblies| > 0 {
      var k := g.addedAssemblies[0].key;
      EntryKeyIn(g.addedAssemblies, 0);
      AssemblySplit(Some(p), p, k);
    }
    if |g.removedAssemblies| > 0 {
      var k := g.removedAssemblies[0].key;
      EntryKeyIn(g.removedAssemblies, 0);
      AssemblySplit(Some(p), p, k);
    }
  }

  // ------------------------------------------------------------ presence

  /** `CreatePresence` and `CreateAssemblyPresence`: "extra" for an added
      item (checked first), "missing" for a removed one, and no attribute
      otherwise. */
  function Presence<T(==)>(added: seq<T>, removed: seq<T>, x: T): (r: Option<string>)
    ensures r == Some("extra") <==> x in added
    ensures r == Some("missing") <==> x !in added && x in removed
    ensures r.None? <==> x !in added && x !in removed
  {
    if x in added then Some("extra")
    else if x in removed then Some("missing")
    else None
  }

  /** The presence of a framework in the package diff. */
  function FrameworkPresence<F(==,!new), I>(d: NuGetDiffResult.DiffResult<F, I>, fw: F): Option<string> {
    Presence(d.addedFrameworks, d.removedFrameworks, fw)
  }

  /** The presence of an assembly, looked up in the flattened lists. */
  function AssemblyPresence<F(==,!new), I>(d: NuGetDiffResult.DiffResult<F, I>, a: string): Option<string> {
    Presence(NuGetDiffResult.GetAllAddedAssemblies(d), NuGetDiffResult.GetAllRemovedAssemblies(d), a)
  }

  /** An assembly is "extra" when some framework lists it as added, and
      "missing" when none does but some framework lists it as removed. */
  lemma AssemblyPresenceSpec<F(!new), I>(d: NuGetDiffResult.DiffResult<F, I>, a: string)
    ensures AssemblyPresence(d, a) == Some("extra") <==>
      exists i :: 0 <= i < |d.addedAssemblies| && a in d.addedAssemblies[i].value
    ensures AssemblyPresence(d, a) == Some("missing") <==>
      (forall i :: 0 <= i < |d.addedAssemblies| ==> a !in d.addedAssemblies[i].value) &&
      exists i :: 0 <= i < |d.removedAssemblies| && a in d.removedAssemblies[i].value
  {
    NuGetDiffResult.AllAssembliesSpec(d, a);
  }

  /** For a comparison's framework split, a framework is "extra" when the
      old package has no dlls for it, "missing" when only the new one has
      none, and has no presence when both have dlls. */
  lemma GeneratedFrameworkPresence<F(!new), I>(prev: Option<Package<F, I>>, next: Package<F, I>, fw: F)
    requires fw in MergedFrameworks(prev, next)
    ensures Generate(prev, next).Ok?
    ensures var g := Generate(prev, next).value;
      Presence(g.addedFrameworks, g.removedFrameworks, fw) ==
        if |OldDlls(prev, fw)| == 0 then Some("extra")
        else if |NewDlls(next, fw)| == 0 then Some("missing")
        else None
  {
    FrameworkSplit(prev, next, fw);
  }

  // ------------------------------------------------------------ diffed assemblies

  /** The assemblies `SaveCompleteDiffToDirectoryAsync` diffs: the
      unchanged assemblies of every framework, or, unless added assemblies
      are ignored, their `Union` with the added ones (each once, in the
      order of first occurrence). With added assemblies ignored the
      flattened list is used as it is, so an assembly unchanged in two
      frameworks is diffed twice. */
  function DiffedAssemblies<F(==,!new), I>(g: Generated<F, I>, ignoreAdded: bool): (r: seq<string>)
    ensures ignoreAdded ==> |r| == SumLengths(Values(g.unchangedAssemblies))
    ensures !ignoreAdded ==> NoDuplicates(r)
  {
    var same := NuGetDiffResult.AllValues(g.unchangedAssemblies);
    if ignoreAdded then same
    else Dedup(same + NuGetDiffResult.AllValues(g.addedAssemblies))
  }

  /** An assembly is diffed exactly when some framework lists it as
      unchanged or, unless added assemblies are ignored, as added. */
  lemma DiffedAssembliesMember<F(!new), I>(g: Generated<F, I>, ignoreAdded: bool, a: string)
    ensures a in DiffedAssemblies(g, ignoreAdded) <==>
      (exists i :: 0 <= i < |g.unchangedAssemblies| && a in g.unchangedAssemblies[i].value) ||
      (!ignoreAdded && exists i :: 0 <= i < |g.addedAssemblies| && a in g.addedAssemblies[i].value)
  {
    NuGetDiffResult.AllValuesMember(g.unchangedAssemblies, a);
    NuGetDiffResult.AllValuesMember(g.addedAssemblies, a);
  }

  /** Where the old side of an assembly's API diff comes from. */
  datatype OldSide = EmptyApiInfo | OldPackageApiInfo

  /** `isNew ? CreateEmptyApiInfo(assembly) : GenerateAssemblyApiInfoAsync(oldReader, assembly)`,
      where `isNew` is membership in the flattened added assemblies. */
  function OldSideOf<F(==,!new), I>(g: Generated<F, I>, a: string): (r: OldSide)
    ensures r == EmptyApiInfo <==> exists i :: 0 <= i < |g.addedAssemblies| && a in g.addedAssemblies[i].value
  {
    NuGetDiffResult.AllValuesMember(g.addedAssemblies, a);
    if a in NuGetDiffResult.AllValues(g.addedAssemblies) then EmptyApiInfo else OldPackageApiInfo
  }

  /** A new dll of one framework is added there exactly when the old
      package's group for that framework does not have it. */
  lemma AddedAt<F(!new), I>(prev: Option<Package<F, I>>, next: Package<F, I>, fw: F, a: string)
    ensures Generate(prev, next).Ok?
    ensures var t := Generate(prev, next).value.addedAssemblies;
      (exists i :: 0 <= i < |t| && t[i].key == fw && a in t[i].value) <==>
        a in NewDlls(next, fw) && a !in OldDlls(prev, fw)
  {
    AssemblySplit(prev, next, fw);
    var t := Generate(prev, next).value.addedAssemblies;
    var v := Except(NewDlls(next, fw), OldDlls(prev, fw));
    if exists i :: 0 <= i < |t| && t[i].key == fw && a in t[i].value {
      var i :| 0 <= i < |t| && t[i].key == fw && a in t[i].value;
      GetEntry(t, i);
    }
    if a in v {
      GetFound(t, fw);
    }
  }

  /** For a comparison, the old side of an assembly is the empty API
      exactly when some framework's new dlls have it and that framework's
      old dlls do not: an assembly added under one framework is compared
      against nothing under every framework, even where it is unchanged. */
  lemma OldSideOfGenerated<F(!new), I>(prev: Option<Package<F, I>>, next: Package<F, I>, a: string)
    ensures Generate(prev, next).Ok?
    ensures OldSideOf(Generate(prev, next).value, a) == EmptyApiInfo <==>
      exists fw :: a in NewDlls(next, fw) && a !in OldDlls(prev, fw)
  {
    GenerateOk(prev, next);
    var t := Generate(prev, next).value.addedAssemblies;
    if exists i :: 0 <= i < |t| && a in t[i].value {
      var i :| 0 <= i < |t| && a in t[i].value;
      AddedAt(prev, next, t[i].key, a);
    }
    if exists fw :: a in NewDlls(next, fw) && a !in OldDlls(prev, fw) {
      var fw :| a in NewDlls(next, fw) && a !in OldDlls(prev, fw);
      AddedAt(prev, next, fw, a);
    }
  }

  // ------------------------------------------------------------ assembly listings

  /** `Path.GetFileName`: the text after the last directory separator. */
  function FileName(p: string): (r: string)
    ensures |r| <= |p| && r == p[|p| - |r|..]
    ensures forall i :: 0 <= i < |r| ==> !IsDirectorySeparator(r[i])
    ensures |r| < |p| ==> IsDirectorySeparator(p[|p| - |r| - 1])
    decreases |p|
  {
    if |p| == 0 || IsDirectorySeparator(p[|p| - 1]) then ""
    else
      var q := p[..|p| - 1];
      var f := FileName(q);
      assert p[|p| - |f| - 1..] == q[|q| - |f|..] + [p[|p| - 1]];
      f + [p[|p| - 1]]
  }

  /** The position of the last '.' of a file name. */
  function LastDot(f: string): (r: Option<nat>)
    ensures r.Some? ==> r.value < |f| && f[r.value] == '.' && forall i :: r.value < i < |f| ==> f[i] != '.'
    ensures r.None? ==> forall i :: 0 <= i < |f| ==> f[i] != '.'
    decreases |f|
  {
    if |f| == 0 then None
    else if f[|f| - 1] == '.' then Some(|f| - 1)
    else LastDot(f[..|f| - 1])
  }

  /** `Path.GetFileNameWithoutExtension`: the file name up to its last '.'. */
  function FileNameWithoutExtension(p: string): string {
    var f := FileName(p);
    match LastDot(f)
    case Some(i) => f[..i]
    case None => f
  }

  /** The listed name of a dll item is its file name without the four
      characters of its ".dll" extension. */
  lemma DllName(p: string)
    requires IsDll(p)
    ensures |FileName(p)| >= 4
    ensures FileNameWithoutExtension(p) == FileName(p)[..|FileName(p)| - 4]
    ensures FileNameWithoutExtension(p) + Extension(p) == FileName(p)
  {
    DllExtensionIsSuffix(p);
    DllSuffixChars(p);
    ExtensionOfDllSuffix(p);
    var n := |p|;
    assert LowerAscii(p[n - 3]) == 'd' && LowerAscii(p[n - 2]) == 'l' && LowerAscii(p[n - 1]) == 'l';
    assert NameChar(p[n - 3]) && NameChar(p[n - 2]) && NameChar(p[n - 1]);
    NameOfDotSuffix(p);
  }

  /** A path whose last four characters are a '.' and three characters
      that are neither '.' nor separators: its file name ends with them,
      and its name without extension is the file name without them. */
  lemma NameOfDotSuffix(p: string)
    requires |p| >= 4 && p[|p| - 4] == '.'
    requires NameChar(p[|p| - 3]) && NameChar(p[|p| - 2]) && NameChar(p[|p| - 1])
    ensures |FileName(p)| >= 4
    ensures FileNameWithoutExtension(p) == FileName(p)[..|FileName(p)| - 4]
    ensures FileNameWithoutExtension(p) + p[|p| - 4..] == FileName(p)
  {
    var f := FileName(p);
    FileNameOfDotSuffix(p);
    LastDotOfSuffix(f[..|f| - 4], p[|p| - 4..]);
  }

  /** A character of a file name other than its extension's '.'. */
  predicate NameChar(c: char) {
    c != '.' && !IsDirectorySeparator(c)
  }

  /** The file name of such a path ends with its last four characters. */
  lemma FileNameOfDotSuffix(p: string)
    requires |p| >= 4
    requires !IsDirectorySeparator(p[|p| - 4])
    requires NameChar(p[|p| - 3]) && NameChar(p[|p| - 2]) && NameChar(p[|p| - 1])
    ensures |FileName(p)| >= 4
    ensures FileName(p) == FileName(p)[..|FileName(p)| - 4] + p[|p| - 4..]
  {
    var n := |p|;
    var f := FileName(p);
    var m := |f|;
    assert m >= 4;
    assert f[m - 4..] == p[n - 4..] by {
      assert f == p[n - m..];
    }
    assert f == f[..m - 4] + f[m - 4..];
  }

  /** A file name that ends in a '.' and three other characters has its
      last '.' there. */
  lemma LastDotOfSuffix(a: string, s: string)
    requires |s| == 4 && s[0] == '.' && s[1] != '.' && s[2] != '.' && s[3] != '.'
    ensures LastDot(a + s) == Some(|a|)
  {
    var f1, f2, f3 := a + s[..1], a + s[..2], a + s[..3];
    assert LastDot(f1) == Some(|a|);
    assert f2[..|f2| - 1] == f1;
    assert LastDot(f2) == Some(|a|);
    assert f3[..|f3| - 1] == f2;
    assert LastDot(f3) == Some(|a|);
    assert (a + s)[..|a + s| - 1] == f3;
  }

  /** One `assembly` element of a framework in the package diff. */
  datatype AssemblyListing = AssemblyListing(name: string, path: string, presence: Option<string>)

  /** The paths `CreateAssemblies` lists for a framework: its unchanged
      assemblies, then, unless added assemblies are ignored, its added
      ones. */
  function ListedPaths<F(==,!new), I>(g: Generated<F, I>, fw: F, ignoreAdded: bool): seq<string> {
    Get(g.unchangedAssemblies, fw).GetOr([]) +
      if ignoreAdded then [] else Get(g.addedAssemblies, fw).GetOr([])
  }

  /** The `assembly` element of one path: its name, the path, and its
      presence looked up in the flattened lists. */
  function Listing<F(==,!new), I>(g: Generated<F, I>, p: string): AssemblyListing {
    AssemblyListing(FileNameWithoutExtension(p), p,
      Presence(NuGetDiffResult.AllValues(g.addedAssemblies), NuGetDiffResult.AllValues(g.removedAssemblies), p))
  }

  /** `CreateAssemblies(framework)`: no `assemblies` element when there is
      no path to list, otherwise one element per listed path. */
  function CreateAssemblies<F(==,!new), I>(g: Generated<F, I>, fw: F, ignoreAdded: bool): (r: Option<seq<AssemblyListing>>)
    ensures r.None? <==> |ListedPaths(g, fw, ignoreAdded)| == 0
    ensures r.Some? ==> |r.value| == |ListedPaths(g, fw, ignoreAdded)|
    ensures r.Some? ==> forall k :: 0 <= k < |r.value| ==>
      r.value[k].path == ListedPaths(g, fw, ignoreAdded)[k] &&
      r.value[k].name == FileNameWithoutExtension(r.value[k].path)
  {
    var paths := ListedPaths(g, fw, ignoreAdded);
    if |paths| == 0 then None
    else Some(seq(|paths|, k requires 0 <= k < |paths| => Listing(g, paths[k])))
  }

  /** For a comparison, a framework lists the dlls both packages have,
      then, unless added assemblies are ignored, those only the new
      package has: so each path once, and without the ignore flag exactly
      the new package's dlls. There is no `assemblies` element exactly
      when that list is empty. */
  lemma ListedPathsOfGenerated<F(!new), I>(prev: Option<Package<F, I>>, next: Package<F, I>, fw: F, ignoreAdded: bool)
    ensures Generate(prev, next).Ok?
    ensures var g := Generate(prev, next).value;
      var o := OldDlls(prev, fw);
      var n := NewDlls(next, fw);
      var paths := ListedPaths(g, fw, ignoreAdded);
      && paths == Intersect(o, n) + (if ignoreAdded then [] else Except(n, o))
      && NoDuplicates(paths)
      && (forall p :: p in paths <==> p in n && (p in o || !ignoreAdded))
      && (CreateAssemblies(g, fw, ignoreAdded).None? <==> forall p :: p in n ==> p !in o && ignoreAdded)
  {
    AssemblySplit(prev, next, fw);
    var o := OldDlls(prev, fw);
    var n := NewDlls(next, fw);
    var a := Intersect(o, n);
    var b := if ignoreAdded then [] else Except(n, o);
    assert ListedPaths(Generate(prev, next).value, fw, ignoreAdded) == a + b;
    DisjointAppend(a, b);
    if exists p :: p in n && !(p !in o && ignoreAdded) {
      var p :| p in n && !(p !in o && ignoreAdded);
      assert p in a + b;
    }
  }

  /** Two lists without repetitions and without common elements make one
      without repetitions. */
  lemma DisjointAppend(a: seq<string>, b: seq<string>)
    requires NoDuplicates(a) && NoDuplicates(b)
    requires forall x :: x in a ==> x !in b
    ensures NoDuplicates(a + b)
  {
    var s := a + b;
    forall i, j | 0 <= i < j < |s| ensures s[i] != s[j] {
      if j < |a| {
        assert s[i] == a[i] && s[j] == a[j];
      } else if i >= |a| {
        assert s[i] == b[i - |a|] && s[j] == b[j - |a|];
      } else {
        assert s[i] in a && s[j] in b;
      }
    }
  }

  // ------------------------------------------------------------ totals

  /** The totals the API diff wrote on an assembly element, each absent
      when the diff did not write it. */
  datatype AssemblyTotals = AssemblyTotals(missing: Option<string>, extra: Option<string>, warning: Option<string>)

  /** The package totals. */
  datatype Totals = Totals(missing: int, extra: int, warning: int)

  /** `int.Parse(attribute?.Value ?? "0")`: an absent attribute counts as
      the parsed "0" (see `ParseTotalOfText`). */
  function ParseTotal(v: Option<string>): (r: Result<int>)
    ensures v.None? ==> r == Ok(0)
  {
    if v.None? then Ok(0) else ParseInt32Result(v.value)
  }

  /** `ParseTotal` parses the attribute's text, or "0" when it is absent. */
  lemma ParseTotalOfText(v: Option<string>)
    ensures ParseTotal(v) == ParseInt32Result(v.GetOr("0"))
  {
    assert NumberText("0") == "0" by {
      UnpaddedNumberText("0");
    }
    assert ReadInt32Result("0") == Ok(0);
  }

  /** The totals loop of `SaveCompleteDiffToDirectoryAsync`: an assembly
      whose diff is empty (`None`) or carries none of the three totals is
      skipped; otherwise each total is parsed, the first bad one throwing,
      and added with 32-bit wrap-around. */
  function PackageTotals(diffs: seq<Option<AssemblyTotals>>): (r: Result<Totals>)
    ensures r.Ok? ==> IsInt32(r.value.missing) && IsInt32(r.value.extra) && IsInt32(r.value.warning)
    decreases |diffs|
  {
    if |diffs| == 0 then Ok(Totals(0, 0, 0))
    else
      var t :- PackageTotals(diffs[..|diffs| - 1]);
      var d := diffs[|diffs| - 1];
      if d.None? then Ok(t) else AddTotals(t, d.value)
  }

  /** One assembly's contribution to the totals loop. */
  function AddTotals(t: Totals, d: AssemblyTotals): (r: Result<Totals>)
    requires IsInt32(t.missing) && IsInt32(t.extra) && IsInt32(t.warning)
    ensures r.Ok? ==> IsInt32(r.value.missing) && IsInt32(r.value.extra) && IsInt32(r.value.warning)
  {
    if d.missing.None? && d.extra.None? && d.warning.None? then Ok(t)
    else
      var m :- ParseTotal(d.missing);
      var e :- ParseTotal(d.extra);
      var w :- ParseTotal(d.warning);
      Ok(Totals(Wrap32(t.missing + m), Wrap32(t.extra + e), Wrap32(t.warning + w)))
  }

  /** The counts an API diff writes on an assembly element: each total
      absent, or a count written in decimal. */
  datatype Counts = Counts(missing: Option<nat>, extra: Option<nat>, warning: Option<nat>)

  function WrittenCount(n: Option<nat>): (r: Option<string>)
    ensures r.None? <==> n.None?
  {
    if n.Some? then Some(IntToString(n.value)) else None
  }

  function Written(c: Counts): AssemblyTotals {
    AssemblyTotals(WrittenCount(c.missing), WrittenCount(c.extra), WrittenCount(c.warning))
  }

  function WrittenAll(cs: seq<Option<Counts>>): (r: seq<Option<AssemblyTotals>>)
    ensures |r| == |cs|
    ensures forall k :: 0 <= k < |cs| ==> r[k] == if cs[k].Some? then Some(Written(cs[k].value)) else None
  {
    seq(|cs|, k requires 0 <= k < |cs| => if cs[k].Some? then Some(Written(cs[k].value)) else None)
  }

  function CountOf(n: Option<nat>): nat {
    if n.Some? then n.value else 0
  }

  function MissingOf(c: Counts): nat { CountOf(c.missing) }
  function ExtraOf(c: Counts): nat { CountOf(c.extra) }
  function WarningOf(c: Counts): nat { CountOf(c.warning) }

  /** The mathematical sum of one total over all assemblies. */
  function Sum(cs: seq<Option<Counts>>, pick: Counts -> nat): nat
    decreases |cs|
  {
    if |cs| == 0 then 0
    else
      var c := cs[|cs| - 1];
      Sum(cs[..|cs| - 1], pick) + (if c.Some? then pick(c.value) else 0)
  }

  /** A written count reads back as itself. */
  lemma ParseWritten(n: Option<nat>)
    requires CountOf(n) <= Int32Max
    ensures ParseTotal(WrittenCount(n)) == Ok(CountOf(n))
  {
    if n.Some? {
      IntToStringRoundTrip(n.value);
    }
  }

  /** Each written count of an assembly reads back as itself. */
  lemma WrittenParses(c: Counts)
    requires MissingOf(c) <= Int32Max && ExtraOf(c) <= Int32Max && WarningOf(c) <= Int32Max
    ensures ParseTotal(Written(c).missing) == Ok(MissingOf(c))
    ensures ParseTotal(Written(c).extra) == Ok(ExtraOf(c))
    ensures ParseTotal(Written(c).warning) == Ok(WarningOf(c))
  {
    ParseWritten(c.missing);
    ParseWritten(c.extra);
    ParseWritten(c.warning);
  }

  /** An assembly whose three totals parse adds them to the package
      totals with wrap-around. */
  lemma AddParsed(t: Totals, d: AssemblyTotals, m: int, e: int, w: int)
    requires IsInt32(t.missing) && IsInt32(t.extra) && IsInt32(t.warning)
    requires ParseTotal(d.missing) == Ok(m) && ParseTotal(d.extra) == Ok(e) && ParseTotal(d.warning) == Ok(w)
    ensures AddTotals(t, d) == Ok(Totals(Wrap32(t.missing + m), Wrap32(t.extra + e), Wrap32(t.warning + w)))
  {
    if d.missing.None? && d.extra.None? && d.warning.None? {
      assert m == 0 && e == 0 && w == 0;
    }
  }

  /** The totals loop, one assembly further. */
  lemma PackageTotalsLast(ws: seq<Option<AssemblyTotals>>, t: Totals)
    requires |ws| > 0 && PackageTotals(ws[..|ws| - 1]) == Ok(t)
    ensures IsInt32(t.missing) && IsInt32(t.extra) && IsInt32(t.warning)
    ensures PackageTotals(ws) == if ws[|ws| - 1].None? then Ok(t) else AddTotals(t, ws[|ws| - 1].value)
  {
  }

  /** Adding an assembly's written counts to in-range totals whose sums
      stay in range adds them exactly. */
  lemma AddWrittenExact(t: Totals, c: Option<Counts>, sums: Totals)
    requires 0 <= t.missing && 0 <= t.extra && 0 <= t.warning
    requires sums.missing == t.missing + (if c.Some? then MissingOf(c.value) else 0)
    requires sums.extra == t.extra + (if c.Some? then ExtraOf(c.value) else 0)
    requires sums.warning == t.warning + (if c.Some? then WarningOf(c.value) else 0)
    requires sums.missing <= Int32Max && sums.extra <= Int32Max && sums.warning <= Int32Max
    ensures (if c.None? then Ok(t) else AddTotals(t, Written(c.value))) == Ok(sums)
  {
    if c.Some? {
      var v := c.value;
      assert IsInt32(sums.missing) && IsInt32(sums.extra) && IsInt32(sums.warning);
      assert Wrap32(t.missing + MissingOf(v)) == sums.missing;
      assert Wrap32(t.extra + ExtraOf(v)) == sums.extra;
      assert Wrap32(t.warning + WarningOf(v)) == sums.warning;
      WrittenParses(v);
      AddParsed(t, Written(v), MissingOf(v), ExtraOf(v), WarningOf(v));
    }
  }

  /** When the assemblies' written counts sum to values that fit in an
      `int`, the package totals are the sums: no total is lost to an
      exception and none wraps around. */
  lemma {:induction false} TotalsAreSums(cs: seq<Option<Counts>>)
    requires Sum(cs, MissingOf) <= Int32Max && Sum(cs, ExtraOf) <= Int32Max && Sum(cs, WarningOf) <= Int32Max
    ensures PackageTotals(WrittenAll(cs)) == Ok(Totals(Sum(cs, MissingOf), Sum(cs, ExtraOf), Sum(cs, WarningOf)))
    decreases |cs|
  {
    if |cs| == 0 {
      assert WrittenAll(cs) == [];
    } else {
      var init := cs[..|cs| - 1];
      var c := cs[|cs| - 1];
      TotalsAreSums(init);
      var t := Totals(Sum(init, MissingOf), Sum(init, ExtraOf), Sum(init, WarningOf));
      var ws := WrittenAll(cs);
      assert ws[..|ws| - 1] == WrittenAll(init);
      PackageTotalsLast(ws, t);
      AddWrittenExact(t, c, Totals(Sum(cs, MissingOf), Sum(cs, ExtraOf), Sum(cs, WarningOf)));
    }
  }

  /** The package element's total attributes: each only when positive. */
  function TotalsAttributes(t: Totals): (m: map<string, string>)
    ensures "missing_total" in m <==> t.missing > 0
    ensures "extra_total" in m <==> t.extra > 0
    ensures "warning_total" in m <==> t.warning > 0
    ensures forall k :: k in m ==> k in {"missing_total", "extra_total", "warning_total"}
  {
    (if t.missing > 0 then map["missing_total" := IntToString(t.missing)] else map[])
    + (if t.extra > 0 then map["extra_total" := IntToString(t.extra)] else map[])
    + (if t.warning > 0 then map["warning_total" := IntToString(t.warning)] else map[])
  }

  /** Reading the written totals back gives the totals. */
  lemma TotalsAttributesRoundTrip(t: Totals)
    requires IsInt32(t.missing) && IsInt32(t.extra) && IsInt32(t.warning)
    ensures var m := TotalsAttributes(t);
      && ("missing_total" in m ==> ParseInt32(m["missing_total"]) == Some(t.missing))
      && ("extra_total" in m ==> ParseInt32(m["extra_total"]) == Some(t.extra))
      && ("warning_total" in m ==> ParseInt32(m["warning_total"]) == Some(t.warning))
  {
    var m := TotalsAttributes(t);
    if "missing_total" in m {
      assert m["missing_total"] == IntToString(t.missing);
      IntToStringRoundTrip(t.missing);
    }
    if "extra_total" in m {
      assert m["extra_total"] == IntToString(t.extra);
      IntToStringRoundTrip(t.extra);
    }
    if "warning_total" in m {
      assert m["warning_total"] == IntToString(t.warning);
      IntToStringRoundTrip(t.warning);
    }
  }

  // ------------------------------------------------------------ output names

  predicate NoSeparator(s: string) {
    forall i :: 0 <= i < |s| ==> !IsDirectorySeparator(s[i])
  }

  /** The length of the leading run of non-separator characters. */
  function PartLength(s: string): (n: nat)
    ensures n <= |s| && NoSeparator(s[..n])
    ensures n < |s| ==> IsDirectorySeparator(s[n])
  {
    if |s| == 0 || IsDirectorySeparator(s[0]) then 0
    else
      var n := 1 + PartLength(s[1..]);
      assert s[..n] == [s[0]] + s[1..][..n - 1];
      n
  }

  /** `Split(new[] { '/', '\\' }, StringSplitOptions.RemoveEmptyEntries)`:
      the maximal runs of non-separator characters. */
  function Parts(s: string): (r: seq<string>)
    ensures forall i :: 0 <= i < |r| ==> |r[i]| > 0 && NoSeparator(r[i])
    decreases |s|
  {
    if |s| == 0 then []
    else if IsDirectorySeparator(s[0]) then Parts(s[1..])
    else
      var n := PartLength(s);
      [s[..n]] + Parts(s[n..])
  }

  /** `GetOutputFilenameBase`: a path with no parts is an
      `ArgumentException`, a single part is the name itself, and otherwise
      the first part (the lib folder) is dropped and the rest joined with
      the platform's directory separator `dirSep`. */
  function OutputFilenameBase(assembly: Option<string>, dirSep: char): (r: Result<string>)
    ensures r.Err? <==> |Parts(assembly.GetOr(""))| == 0
    ensures r.Err? ==> r.error.ArgumentException?
  {
    var a := assembly.GetOr("");
    var parts := Parts(a);
    if |parts| == 0 then Err(ArgumentException("Assembly path is not valid: " + a))
    else if |parts| == 1 then Ok(parts[0])
    else Ok(Join(parts[1..], [dirSep]))
  }

  /** A path has no parts exactly when it is made of separators only. */
  lemma {:induction false} PartsEmpty(s: string)
    ensures |Parts(s)| == 0 <==> forall i :: 0 <= i < |s| ==> IsDirectorySeparator(s[i])
    decreases |s|
  {
    if |s| > 0 {
      PartsEmpty(s[1..]);
      assert forall i :: 1 <= i < |s| ==> s[i] == s[1..][i - 1];
    }
  }

  /** A separator splits the parts of a path in two. */
  lemma {:induction false} PartsAroundSeparator(a: string, sep: char, b: string)
    requires IsDirectorySeparator(sep)
    ensures Parts(a + [sep] + b) == Parts(a) + Parts(b)
    decreases |a|
  {
    if |a| == 0 {
      assert a + [sep] + b == [sep] + b;
      PartsAfterSeparator(sep, b);
    } else if IsDirectorySeparator(a[0]) {
      PartsAroundSeparator(a[1..], sep, b);
      SeparatorFirstAround(a, sep, b);
    } else {
      var m := PartLength(a);
      if m < |a| {
        PartsAroundSeparator(a[m..], sep, b);
      }
      RunFirstAround(a, sep, b);
    }
  }

  /** The step of `PartsAroundSeparator` for a path that starts with a
      separator. */
  lemma SeparatorFirstAround(a: string, sep: char, b: string)
    requires |a| > 0 && IsDirectorySeparator(a[0])
    requires Parts(a[1..] + [sep] + b) == Parts(a[1..]) + Parts(b)
    ensures Parts(a + [sep] + b) == Parts(a) + Parts(b)
  {
    var s := a + [sep] + b;
    assert s[0] == a[0];
    assert s[1..] == a[1..] + [sep] + b;
  }

  /** The step of `PartsAroundSeparator` for a path that starts with a
      run of non-separators. */
  lemma RunFirstAround(a: string, sep: char, b: string)
    requires |a| > 0 && !IsDirectorySeparator(a[0]) && IsDirectorySeparator(sep)
    requires PartLength(a) < |a| ==>
      Parts(a[PartLength(a)..] + [sep] + b) == Parts(a[PartLength(a)..]) + Parts(b)
    ensures Parts(a + [sep] + b) == Parts(a) + Parts(b)
  {
    var m := PartLength(a);
    assert a + [sep] + b == a + ([sep] + b);
    PartsOfLeadingRun(a, [sep] + b);
    PartsOfRun(a);
    if m < |a| {
      assert a[m..] + ([sep] + b) == a[m..] + [sep] + b;
    } else {
      assert a[m..] + ([sep] + b) == [sep] + b;
      assert a[m..] == [];
      PartsAfterSeparator(sep, b);
    }
  }

  /** A leading separator contributes no part. */
  lemma PartsAfterSeparator(sep: char, b: string)
    requires IsDirectorySeparator(sep)
    ensures Parts([sep] + b) == Parts(b)
  {
    assert ([sep] + b)[1..] == b;
  }

  /** A path that starts with a run followed by a separator splits into
      that run and the parts of the remainder. */
  lemma PartsOfLeadingRun(a: string, rest: string)
    requires |a| > 0 && !IsDirectorySeparator(a[0])
    requires |rest| > 0 && IsDirectorySeparator(rest[0])
    ensures PartLength(a) <= |a|
    ensures Parts(a + rest) == [a[..PartLength(a)]] + Parts(a[PartLength(a)..] + rest)
  {
    var s := a + rest;
    var m := PartLength(a);
    PartLengthOfPrefix(a, rest);
    SlicesOfAppend(a, rest, m);
    PartsOfRun(s);
  }

  /** Cutting a concatenation inside its first operand. */
  lemma SlicesOfAppend(a: string, rest: string, m: nat)
    requires m <= |a|
    ensures (a + rest)[..m] == a[..m] && (a + rest)[m..] == a[m..] + rest
    ensures |a| > 0 ==> (a + rest)[0] == a[0]
  {
  }

  /** A path that starts with a non-separator begins with its leading run. */
  lemma PartsOfRun(s: string)
    requires |s| > 0 && !IsDirectorySeparator(s[0])
    ensures Parts(s) == [s[..PartLength(s)]] + Parts(s[PartLength(s)..])
  {
  }

  /** The leading run of a path is unchanged by what follows a separator. */
  lemma {:induction false} PartLengthOfPrefix(a: string, b: string)
    requires |b| > 0 && IsDirectorySeparator(b[0])
    ensures PartLength(a + b) == PartLength(a)
    decreases |a|
  {
    if |a| > 0 && !IsDirectorySeparator(a[0]) {
      assert (a + b)[1..] == a[1..] + b;
      PartLengthOfPrefix(a[1..], b);
    } else if |a| == 0 {
      assert a + b == b;
    }
  }

  /** A single part is its own only part. */
  lemma PartsOfPart(p: string)
    requires |p| > 0 && NoSeparator(p)
    ensures Parts(p) == [p]
  {
    assert PartLength(p) == |p|;
    assert !IsDirectorySeparator(p[0]);
    assert p[..|p|] == p;
    assert p[|p|..] == [];
  }

  /** Splitting inverts joining with a separator. */
  lemma {:induction false} PartsOfJoin(ps: seq<string>, sep: char)
    requires IsDirectorySeparator(sep)
    requires forall i :: 0 <= i < |ps| ==> |ps[i]| > 0 && NoSeparator(ps[i])
    ensures Parts(Join(ps, [sep])) == ps
    decreases |ps|
  {
    if |ps| == 1 {
      PartsOfPart(ps[0]);
    } else if |ps| > 1 {
      var init := ps[..|ps| - 1];
      var last := ps[|ps| - 1];
      PartsOfJoin(init, sep);
      assert Join(ps, [sep]) == Join(init, [sep]) + [sep] + last;
      PartsAroundSeparator(Join(init, [sep]), sep, last);
      PartsOfPart(last);
      assert ps == init + [last];
    }
  }

  /** The output name keeps every part of the assembly path but the first,
      or the single part of a bare file name. */
  lemma OutputFilenameParts(assembly: Option<string>, dirSep: char)
    requires IsDirectorySeparator(dirSep)
    ensures var parts := Parts(assembly.GetOr(""));
      var r := OutputFilenameBase(assembly, dirSep);
      r.Ok? ==> Parts(r.value) == (if |parts| == 1 then parts else parts[1..])
  {
    var parts := Parts(assembly.GetOr(""));
    if |parts| == 1 {
      PartsOfPart(parts[0]);
    } else if |parts| > 1 {
      PartsOfJoin(parts[1..], dirSep);
    }
  }
}
