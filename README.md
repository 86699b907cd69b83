# simpleupdatesite-plugin: update detection

A Dafny model of the update detection in the Jenkins plugin `simpleupdatesite-plugin`
(class `hudson.plugins.simpleupdatesite.SimpleUpdateSite`):

- `getInstalled()` takes the update site's catalog and keeps the plugins that have
  an installed counterpart.
- `getUpdates()` keeps the installed plugins whose catalog version is newer than the
  installed version.
- `isNewerPlugin(newVersion, installedVersion)` decides "newer". It removes a
  parenthesised qualifier from both strings with `replaceAll("\\(.*\\)", "")`,
  trims them, and compares them with the `VersionNumber` class used at
  SimpleUpdateSite.java:134.

Files:

- `Wrappers.dfy`: `Option`. The Java code uses `null` for the same purpose.
- `VersionStrings.dfy`: Java `trim`, the qualifier rewrite and `isNewerPlugin`.
- `SimpleUpdateSite.dfy`: the catalog records, and `getInstalled`/`getUpdates` as
  methods with loops. Each method is proved equal to a filter of the catalog.
- `VersionExamples.dfy`, `UpdateSiteExamples.dfy`: concrete versions and a concrete
  three-plugin catalog.

Modelling decisions:

- The catalog (`getData()`) is an input. `None` stands for the host having no data.
  Otherwise the catalog is the sequence of plugins in the iteration order of
  `data.plugins.values()`.
- `VersionNumber.compareTo` is a parameter `cmp`. The `VersionNumber` class used at
  SimpleUpdateSite.java:134 is not among the modelled files. Two laws are assumed of it, and only where a
  property needs them: `cmp(x, x) == 0`, and `cmp(x, y) > 0` exactly when
  `cmp(y, x) < 0`. They are collected in `IsVersionComparator`.
- The qualifier rewrite follows the code: the regular expression is greedy.
  - On each line, everything from the first `(` to the last `)` is removed, so
    `"1(a).2(b)"` becomes `"1"` and not `"1.2"`.
  - The rewrite does not remove each parenthesised group on its own.
  - `.` in `java.util.regex` does not match a line terminator (`\n`, `\r`,
    U+0085, U+2028, U+2029). A match therefore never crosses one. The rewrite is
    modelled line by line, keeping the terminators.
- `trim()` removes leading and trailing characters at or below U+0020.

## Model

| member | source | states |
|---|---|---|
| SimpleUpdateSite.GetInstalled | src/main/java/hudson/plugins/simpleupdatesite/SimpleUpdateSite.java:95-107 | with no catalog data the result is the empty list; otherwise it is exactly `InstalledOf` of the catalog, built by the loop over the plugins |
| SimpleUpdateSite.GetUpdates | src/main/java/hudson/plugins/simpleupdatesite/SimpleUpdateSite.java:109-129 | with no catalog data the result is the empty list, never null; otherwise it is exactly `UpdatesOf` of the catalog, built by the loop over the plugins |
| SimpleUpdateSite.IsInstalled | src/main/java/hudson/plugins/simpleupdatesite/SimpleUpdateSite.java:102 | the test `plugin.getInstalled() != null` |
| SimpleUpdateSite.IsUpdate | src/main/java/hudson/plugins/simpleupdatesite/SimpleUpdateSite.java:123-124 | the test `installed != null && isNewerPlugin(plugin.version, installed.getVersion())`; every plugin that passes it is installed |
| SimpleUpdateSite.InstalledOf | src/main/java/hudson/plugins/simpleupdatesite/SimpleUpdateSite.java:101-106 | what `getInstalled` collects from the catalog: no more plugins than the catalog has, every one of them installed |
| SimpleUpdateSite.UpdatesOf | src/main/java/hudson/plugins/simpleupdatesite/SimpleUpdateSite.java:121-128 | what `getUpdates` collects from the catalog: no more plugins than the catalog has, every one of them installed and offered in a newer version |
| SimpleUpdateSite.InstalledOfMembers | src/main/java/hudson/plugins/simpleupdatesite/SimpleUpdateSite.java:101-106 | a plugin is in the installed list if and only if it is in the catalog and has an installed counterpart |
| SimpleUpdateSite.InstalledOfKeepsOrder | src/main/java/hudson/plugins/simpleupdatesite/SimpleUpdateSite.java:101-106 | the installed list is a subsequence of the catalog: catalog order is kept |
| SimpleUpdateSite.UpdatesOfMembers | src/main/java/hudson/plugins/simpleupdatesite/SimpleUpdateSite.java:121-128 | a plugin is in the update list if and only if it is in the catalog, is installed, and `isNewerPlugin(plugin.version, installed.version)` holds |
| SimpleUpdateSite.UpdatesOfKeepsOrder | src/main/java/hudson/plugins/simpleupdatesite/SimpleUpdateSite.java:121-128 | the update list is a subsequence of the catalog |
| SimpleUpdateSite.UpdatesAreInstalled | src/main/java/hudson/plugins/simpleupdatesite/SimpleUpdateSite.java:101-128 | the update list is the installed list filtered by "newer", so it is a subsequence of the installed list |
| SimpleUpdateSite.SelectionsHaveUniqueIds | src/main/java/hudson/plugins/simpleupdatesite/SimpleUpdateSite.java:101-128 | when catalog ids are distinct, neither list names a plugin twice |
| SimpleUpdateSite.SameNormalFormIsNoUpdate | src/main/java/hudson/plugins/simpleupdatesite/SimpleUpdateSite.java:122-134 | with the assumed comparator laws, a plugin that is not installed, or whose offered and installed versions normalise to the same string, is not in the update list |
| SimpleUpdateSite.FilterSnoc | src/main/java/hudson/plugins/simpleupdatesite/SimpleUpdateSite.java:101-106 | one more loop step appends the plugin to the selection exactly when it satisfies the condition |
| SimpleUpdateSite.FilterMembers | src/main/java/hudson/plugins/simpleupdatesite/SimpleUpdateSite.java:101-106 | a filtered list holds exactly the input's elements that satisfy the condition |
| SimpleUpdateSite.FilterIsSubsequence | src/main/java/hudson/plugins/simpleupdatesite/SimpleUpdateSite.java:101-106 | a filtered list keeps the input's order |
| SimpleUpdateSite.FilterOfFilter | src/main/java/hudson/plugins/simpleupdatesite/SimpleUpdateSite.java:102-124 | filtering by a stronger condition after a weaker one equals filtering by the stronger one |
| SimpleUpdateSite.FilterKeepsIdsUnique | src/main/java/hudson/plugins/simpleupdatesite/SimpleUpdateSite.java:101-106 | filtering a list with distinct ids leaves the ids distinct |
| UpdateSiteExamples.ExampleVersions | src/main/java/hudson/plugins/simpleupdatesite/SimpleUpdateSite.java:124 | with the assumed comparator laws and when `VersionNumber` puts 2.0 above 1.5, a plugin offered 2.0 over an installed 1.5 is an update; one offered the 1.0 it has is not |
| UpdateSiteExamples.CatalogExample | src/main/java/hudson/plugins/simpleupdatesite/SimpleUpdateSite.java:101-128 | with the assumed comparator laws and when `VersionNumber` puts 2.0 above 1.5, for a catalog of an upgradable, an up-to-date and an uninstalled plugin, `InstalledOf` is the first two and `UpdatesOf` is the first |
| VersionStrings.Trim | src/main/java/hudson/plugins/simpleupdatesite/SimpleUpdateSite.java:132-133 | `String.trim()`: the result is no longer than the input and has no character at or below space at either end |
| VersionStrings.TrimIsUniqueSlice | src/main/java/hudson/plugins/simpleupdatesite/SimpleUpdateSite.java:132-133 | `trim` returns the unique trimmed slice with only characters at or below space outside it |
| VersionStrings.TrimResult | src/main/java/hudson/plugins/simpleupdatesite/SimpleUpdateSite.java:132-133 | `trim` returns a slice of its input, cuts off only characters at or below space, and leaves none at either end |
| VersionStrings.TrimOfTrimmed | src/main/java/hudson/plugins/simpleupdatesite/SimpleUpdateSite.java:132-133 | a string with no blank at either end is unchanged by `trim` |
| VersionStrings.TrimIdempotent | src/main/java/hudson/plugins/simpleupdatesite/SimpleUpdateSite.java:132-133 | trimming twice is trimming once |
| VersionStrings.RemoveGreedyGroup | src/main/java/hudson/plugins/simpleupdatesite/SimpleUpdateSite.java:132-133 | the greedy removal on one line: afterwards no `(` precedes a `)`, the result is no longer than the input, and the line is changed if and only if some `(` preceded a `)` |
| VersionStrings.SpliceLeavesNoPair | src/main/java/hudson/plugins/simpleupdatesite/SimpleUpdateSite.java:132-133 | cutting from the first `(` to the last `)` leaves no `(` before a `)` |
| VersionStrings.GroupIsPairOnOneLine | src/main/java/hudson/plugins/simpleupdatesite/SimpleUpdateSite.java:132-133 | without line terminators the pattern matches if and only if some `(` precedes some `)` |
| VersionStrings.NoGroupInSlice | src/main/java/hudson/plugins/simpleupdatesite/SimpleUpdateSite.java:132-133 | a slice of a string the pattern does not match is not matched either |
| VersionStrings.NoGroupAcrossTerminator | src/main/java/hudson/plugins/simpleupdatesite/SimpleUpdateSite.java:132-133 | no match crosses a line terminator |
| VersionStrings.StripQualifiers | src/main/java/hudson/plugins/simpleupdatesite/SimpleUpdateSite.java:132-133 | `replaceAll("\\(.*\\)", "")`, line by line: after it the pattern matches nowhere in the result, on any number of lines, and the result is no longer than the input |
| VersionStrings.StripQualifiersKeepsGroupFree | src/main/java/hudson/plugins/simpleupdatesite/SimpleUpdateSite.java:132-133 | where the pattern matches nowhere, `replaceAll` returns its input |
| VersionStrings.StripQualifiersUnchanged | src/main/java/hudson/plugins/simpleupdatesite/SimpleUpdateSite.java:132-133 | `replaceAll` leaves a string unchanged if and only if the pattern matches nowhere in it |
| VersionStrings.StripQualifiersOnOneLine | src/main/java/hudson/plugins/simpleupdatesite/SimpleUpdateSite.java:132-133 | on a string without line terminators `replaceAll` is the single greedy removal |
| VersionStrings.Normalize | src/main/java/hudson/plugins/simpleupdatesite/SimpleUpdateSite.java:132-133 | the rewrite then `trim`, as both versions are prepared: the normal form has no blank at either end and the pattern matches nowhere in it |
| VersionStrings.NormalizeWithoutGroup | src/main/java/hudson/plugins/simpleupdatesite/SimpleUpdateSite.java:132-133 | a version the pattern does not match is only trimmed |
| VersionStrings.NormalizeWithoutPair | src/main/java/hudson/plugins/simpleupdatesite/SimpleUpdateSite.java:132-133 | a version with no `(` before a `)` is only trimmed |
| VersionStrings.NormalizeOfPlainVersion | src/main/java/hudson/plugins/simpleupdatesite/SimpleUpdateSite.java:132-133 | a trimmed version with no `(` is its own normal form |
| VersionStrings.NormalizeRemovesSpan | src/main/java/hudson/plugins/simpleupdatesite/SimpleUpdateSite.java:132-133 | on one line, the text from the first `(` to the last `)` is removed and the rest is trimmed |
| VersionStrings.NormalizeDropsTrailingQualifier | src/main/java/hudson/plugins/simpleupdatesite/SimpleUpdateSite.java:132-133 | a version `w (q)` normalises to `w` when `w` is trimmed and has no `(`, and neither `w` nor `q` holds a line terminator |
| VersionStrings.NormalizeIdempotent | src/main/java/hudson/plugins/simpleupdatesite/SimpleUpdateSite.java:132-133 | normalising twice is normalising once |
| VersionStrings.IsNewerPlugin | src/main/java/hudson/plugins/simpleupdatesite/SimpleUpdateSite.java:131-135 | `isNewerPlugin`: `compareTo > 0` on the two normal forms; with the assumed comparator laws, a newer version has a different normal form and the installed one compares below it |
| VersionStrings.IsNewerPluginRespectsNormalize | src/main/java/hudson/plugins/simpleupdatesite/SimpleUpdateSite.java:131-135 | the answer depends on the two versions only through their normal forms |
| VersionStrings.IsNewerPluginOnPlainVersions | src/main/java/hudson/plugins/simpleupdatesite/SimpleUpdateSite.java:131-135 | on trimmed versions without `(`, "newer" is exactly `compareTo > 0` |
| VersionStrings.NotNewerWhenSameNormalForm | src/main/java/hudson/plugins/simpleupdatesite/SimpleUpdateSite.java:131-135 | with the assumed comparator laws, versions with the same normal form are not newer than each other in either direction |
| VersionStrings.IsNewerPluginIrreflexive | src/main/java/hudson/plugins/simpleupdatesite/SimpleUpdateSite.java:134 | with the assumed comparator laws, no version is newer than itself |
| VersionStrings.IsNewerPluginAsymmetric | src/main/java/hudson/plugins/simpleupdatesite/SimpleUpdateSite.java:134 | with the assumed comparator laws, if `a` is newer than `b` then `b` is not newer than `a` |
| VersionExamples.GreedyExample | src/main/java/hudson/plugins/simpleupdatesite/SimpleUpdateSite.java:132-133 | `"1(a).2(b)"` normalises to `"1"`: the match is greedy |
| VersionExamples.QualifierExample | src/main/java/hudson/plugins/simpleupdatesite/SimpleUpdateSite.java:132-133 | `"1.0 (old)"` normalises to `"1.0"` |
| VersionExamples.OldQualifierIsNotNewer | src/main/java/hudson/plugins/simpleupdatesite/SimpleUpdateSite.java:131-135 | `"1.0 (old)"` and `"1.0"` are not newer than each other in either direction |

## Left out

- `doPostBack` (SimpleUpdateSite.java:74-84): it reads an HTTP request, writes a file and sets a response header. This is I/O with no logic to model.
- `getDataFile` (SimpleUpdateSite.java:91-93): it builds a file path under the host's root directory.
- `getUrl`, `getPlugin` and `isLegacyDefault` (SimpleUpdateSite.java:57-69): they delegate to the `Hudson` singleton or return a constant.
- The constructors (SimpleUpdateSite.java:49-55): they only pass their arguments to the host's `UpdateSite`.
- `VersionNumber`: the class used at SimpleUpdateSite.java:134, whose source is not among the modelled files. Its `compareTo` is the parameter `cmp`, and two laws are assumed of it (`IsVersionComparator`). No version parser is modelled. Building a `VersionNumber` from a normalised string is assumed to succeed: a constructor that throws would send the exception out of `getUpdates`, and a total `cmp` cannot represent that.
- `getData()`, `Plugin` and `PluginWrapper` internals: these belong to the host. The catalog is an input, and a plugin is reduced to its id, its offered version and the version of its installed counterpart.
- Null version strings: Java would throw on them at SimpleUpdateSite.java:132-133. Dafny strings are never null, so that exception is not modelled.
- Characters: Java strings are UTF-16 code units, while Dafny `char` values are Unicode scalar values. No character that `trim` or the pattern inspects is affected.
- Mutability of the returned lists: `Collections.emptyList()` is immutable and the `ArrayList` is not. Both are modelled as sequence values.
