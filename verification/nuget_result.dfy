/** `NuGetDiffResult`: the outcome of comparing two packages. It holds the
    target frameworks, split into added, removed and unchanged, and per
    framework the added, removed and unchanged assemblies. As declared in
    this file, an unchanged assembly is a pair of paths (new, old). Target
    frameworks are NuGet's; the model only needs their equality, so they are
    a type parameter `F` (and package identities a type parameter `I`). */
module NuGetDiffResult {
  import opened Wrappers
  import opened Seqs
  import opened Sorting
  import opened Tables

  datatype DiffResult<F, I> = DiffResult(
    oldIdentity: Option<I>,
    newIdentity: I,
    addedFrameworks: seq<F>,
    removedFrameworks: seq<F>,
    unchangedFrameworks: seq<F>,
    addedAssemblies: Table<F, seq<string>>,
    removedAssemblies: Table<F, seq<string>>,
    unchangedAssemblies: Table<F, seq<(string, string)>>)

  /** `OrderBy(fw => fw.GetShortFolderName())`: frameworks compared by
      their short folder names under the string comparer `cmp`. */
  function ByShortName<F>(shortName: F -> string, cmp: (string, string) -> int): (F, F) -> int {
    (a, b) => cmp(shortName(a), shortName(b))
  }

  lemma ByShortNameIsPreorder<F(!new)>(shortName: F -> string, cmp: (string, string) -> int)
    requires TotalPreorder(cmp)
    ensures TotalPreorder(ByShortName(shortName, cmp))
  {
    var c := ByShortName(shortName, cmp);
    forall a: F, b: F, d: F | c(a, b) <= 0 && c(b, d) <= 0
      ensures c(a, d) <= 0
    {
      assert cmp(shortName(a), shortName(b)) <= 0 && cmp(shortName(b), shortName(d)) <= 0;
    }
  }

  /** `added.Union(removed).Union(unchanged).OrderBy(short folder name)`:
      each framework once, in order of first occurrence, then ordered by
      short folder name. */
  function AllFrameworks<F(==,!new)>(added: seq<F>, removed: seq<F>, same: seq<F>,
                                     shortName: F -> string, cmp: (string, string) -> int): seq<F>
  {
    Sort(Dedup(Dedup(added + removed) + same), ByShortName(shortName, cmp))
  }

  /** Every framework of the three lists appears exactly once, nothing else
      appears, and the list is ordered by short folder name. */
  lemma AllFrameworksSpec<F(!new)>(added: seq<F>, removed: seq<F>, same: seq<F>,
                                      shortName: F -> string, cmp: (string, string) -> int)
    requires TotalPreorder(cmp)
    ensures forall fw :: fw in AllFrameworks(added, removed, same, shortName, cmp) <==>
      fw in added || fw in removed || fw in same
    ensures NoDuplicates(AllFrameworks(added, removed, same, shortName, cmp))
    ensures SortedBy(AllFrameworks(added, removed, same, shortName, cmp), ByShortName(shortName, cmp))
  {
    var u := Dedup(Dedup(added + removed) + same);
    var r := Sort(u, ByShortName(shortName, cmp));
    forall fw
      ensures fw in r <==> fw in u
    {
      assert fw in r <==> fw in multiset(r);
      assert fw in u <==> fw in multiset(u);
    }
    PermutationNoDuplicates(u, r);
    ByShortNameIsPreorder(shortName, cmp);
    SortSorted(u, ByShortName(shortName, cmp));
  }

  /** `GetAllFrameworks`. */
  function GetAllFrameworks<F(==,!new), I>(d: DiffResult<F, I>, shortName: F -> string, cmp: (string, string) -> int): seq<F> {
    AllFrameworks(d.addedFrameworks, d.removedFrameworks, d.unchangedFrameworks, shortName, cmp)
  }

  /** `Values.SelectMany(a => a)`: the lists of a table one after another,
      in the table's order. */
  function AllValues<F(==,!new), V>(t: Table<F, seq<V>>): (r: seq<V>)
    ensures |r| == SumLengths(Values(t))
  {
    Flatten(Values(t))
  }

  /** An element of the flattened lists is an element of the list stored
      under some framework, and every element of every stored list is in
      the flattening. */
  lemma {:induction false} AllValuesMember<F(!new), V>(t: Table<F, seq<V>>, x: V)
    ensures x in AllValues(t) <==> exists i :: 0 <= i < |t| && x in t[i].value
  {
    FlattenMember(Values(t), x);
    if exists i :: 0 <= i < |Values(t)| && x in Values(t)[i] {
      var i :| 0 <= i < |Values(t)| && x in Values(t)[i];
      assert x in t[i].value;
    }
    if exists i :: 0 <= i < |t| && x in t[i].value {
      var i :| 0 <= i < |t| && x in t[i].value;
      assert x in Values(t)[i];
    }
  }

  /** `GetAllAddedAssemblies`. */
  function GetAllAddedAssemblies<F(==,!new), I>(d: DiffResult<F, I>): seq<string> {
    AllValues(d.addedAssemblies)
  }

  /** `GetAllRemovedAssemblies`. */
  function GetAllRemovedAssemblies<F(==,!new), I>(d: DiffResult<F, I>): seq<string> {
    AllValues(d.removedAssemblies)
  }

  /** `GetAllUnchangedAssemblies`: pairs of paths, as this file declares them. */
  function GetAllUnchangedAssemblies<F(==,!new), I>(d: DiffResult<F, I>): seq<(string, string)> {
    AllValues(d.unchangedAssemblies)
  }

  /** The flattened assembly lists hold exactly the assemblies listed under
      some framework, as many as all the lists together. */
  lemma AllAssembliesSpec<F(!new), I>(d: DiffResult<F, I>, a: string)
    ensures a in GetAllAddedAssemblies(d) <==> exists i :: 0 <= i < |d.addedAssemblies| && a in d.addedAssemblies[i].value
    ensures a in GetAllRemovedAssemblies(d) <==> exists i :: 0 <= i < |d.removedAssemblies| && a in d.removedAssemblies[i].value
    ensures |GetAllAddedAssemblies(d)| == SumLengths(Values(d.addedAssemblies))
    ensures |GetAllRemovedAssemblies(d)| == SumLengths(Values(d.removedAssemblies))
  {
    AllValuesMember(d.addedAssemblies, a);
    AllValuesMember(d.removedAssemblies, a);
  }
}
