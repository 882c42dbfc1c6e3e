/** `PackageDiff` of the older package comparer: the same framework split
    as `NuGetDiffResult`, with unchanged assemblies as plain paths. */
module PackageDiffResult {
  import opened Wrappers
  import opened Tables
  import opened Seqs
  import opened Sorting
  import opened NuGetDiffResult

  datatype PackageDiff<F, I> = PackageDiff(
    oldIdentity: Option<I>,
    newIdentity: I,
    addedFrameworks: seq<F>,
    removedFrameworks: seq<F>,
    unchangedFrameworks: seq<F>,
    addedAssemblies: Table<F, seq<string>>,
    removedAssemblies: Table<F, seq<string>>,
    unchangedAssemblies: Table<F, seq<string>>)

  /** `GetAllFrameworks`: every framework of the three lists exactly once,
      nothing else, ordered by short folder name. */
  function GetAllFrameworks<F(==,!new), I>(d: PackageDiff<F, I>, shortName: F -> string, cmp: (string, string) -> int): (r: seq<F>)
    requires TotalPreorder(cmp)
    ensures forall fw :: fw in r <==> fw in d.addedFrameworks || fw in d.removedFrameworks || fw in d.unchangedFrameworks
    ensures NoDuplicates(r)
    ensures SortedBy(r, ByShortName(shortName, cmp))
  {
    AllFrameworksSpec(d.addedFrameworks, d.removedFrameworks, d.unchangedFrameworks, shortName, cmp);
    AllFrameworks(d.addedFrameworks, d.removedFrameworks, d.unchangedFrameworks, shortName, cmp)
  }
}
