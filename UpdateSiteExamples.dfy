/**
 * A three-plugin catalog and what `InstalledOf` and `UpdatesOf` (the lists
 * `getInstalled` and `getUpdates` build) select from it: one plugin with a newer
 * version on offer, one installed at the offered version, and one that is not
 * installed.
 */
module UpdateSiteExamples {
  import opened Wrappers
  import opened VersionStrings
  import opened SimpleUpdateSite

  const A := Plugin("a", "2.0", Some(PluginWrapper("1.5")))
  const B := Plugin("b", "1.0", Some(PluginWrapper("1.0")))
  const C := Plugin("c", "0.9", None)

  /** A is offered 2.0 over its installed 1.5; B is offered the 1.0 it has. */
  lemma ExampleVersions(cmp: (string, string) -> int)
    requires IsVersionComparator(cmp)
    requires cmp("2.0", "1.5") > 0
    ensures IsUpdate(cmp, A) && !IsUpdate(cmp, B)
  {
    IsNewerPluginOnPlainVersions(cmp, "2.0", "1.5");
    IsNewerPluginIrreflexive(cmp, "1.0");
  }

  /** Filtering three elements keeps each one that satisfies the condition, in order. */
  lemma FilterOfThree<T>(keep: T -> bool, x: T, y: T, z: T)
    ensures Filter(keep, [x, y, z]) ==
      (if keep(x) then [x] else []) + (if keep(y) then [y] else []) + (if keep(z) then [z] else [])
  {
    var s := [x, y, z];
    assert s[1..] == [y, z] && [y, z][1..] == [z] && [z][1..] == [];
    assert Filter(keep, [z]) == (if keep(z) then [z] else []);
    assert Filter(keep, [y, z]) == (if keep(y) then [y] else []) + Filter(keep, [z]);
  }

  /** Of the catalog A, B, C, `InstalledOf` selects A and B and `UpdatesOf` selects only A. */
  lemma CatalogExample(cmp: (string, string) -> int)
    requires IsVersionComparator(cmp)
    requires cmp("2.0", "1.5") > 0
    ensures InstalledOf([A, B, C]) == [A, B]
    ensures UpdatesOf(cmp, [A, B, C]) == [A]
  {
    FilterOfThree(IsInstalled, A, B, C);
    FilterOfThree(p => IsUpdate(cmp, p), A, B, C);
    ExampleVersions(cmp);
  }
}
