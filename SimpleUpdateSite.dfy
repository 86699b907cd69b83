/**
 * `SimpleUpdateSite.getInstalled` and `getUpdates`: two passes over the plugin
 * catalog of an update site, one keeping the plugins that are installed and one
 * keeping those for which the catalog offers a newer version than the installed one.
 *
 * The catalog (`getData()`) is an input: `None` when the host has no data for
 * the site, otherwise its plugins in the iteration order of `data.plugins.values()`.
 * Each plugin carries the host's installed counterpart, if there is one.
 */
module SimpleUpdateSite {
  import opened Wrappers
  import opened VersionStrings

  /** The host's record of an installed plugin; only its version is read here. */
  datatype PluginWrapper = PluginWrapper(version: string)

  /** A catalog entry: its id, the version the site offers, and the installed counterpart. */
  datatype Plugin = Plugin(id: string, version: string, installed: Option<PluginWrapper>)

  /** The update-site data: the catalog's plugins in iteration order. */
  datatype Data = Data(plugins: seq<Plugin>)

  // ---------------------------------------------------------------------------
  // Filtering a sequence, and what it keeps
  // ---------------------------------------------------------------------------

  /** The elements of `s` that satisfy `keep`, in their order in `s`. */
  function Filter<T>(keep: T -> bool, s: seq<T>): (r: seq<T>)
    ensures |r| <= |s|
    ensures forall k :: 0 <= k < |r| ==> keep(r[k])
  {
    if s == [] then []
    else (if keep(s[0]) then [s[0]] else []) + Filter(keep, s[1..])
  }

  /** `a` is `b` with some elements left out and the rest in their order. */
  ghost predicate IsSubsequence<T>(a: seq<T>, b: seq<T>)
    decreases |b|
  {
    a == [] ||
    (b != [] && ((a[0] == b[0] && IsSubsequence(a[1..], b[1..])) || IsSubsequence(a, b[1..])))
  }

  /** Filtering one more element at the end extends the result by that element or by nothing. */
  lemma {:induction false} FilterSnoc<T>(keep: T -> bool, s: seq<T>, x: T)
    ensures Filter(keep, s + [x]) == Filter(keep, s) + (if keep(x) then [x] else [])
  {
    if s != [] {
      assert (s + [x])[1..] == s[1..] + [x];
      FilterSnoc(keep, s[1..], x);
    }
  }

  /** The result holds exactly the elements of the input that satisfy `keep`. */
  lemma {:induction false} FilterMembers<T>(keep: T -> bool, s: seq<T>, x: T)
    ensures x in Filter(keep, s) <==> x in s && keep(x)
  {
    if s != [] {
      FilterMembers(keep, s[1..], x);
      assert s == [s[0]] + s[1..];
    }
  }

  /** The result keeps the order of the input. */
  lemma {:induction false} FilterIsSubsequence<T>(keep: T -> bool, s: seq<T>)
    ensures IsSubsequence(Filter(keep, s), s)
  {
    if s != [] {
      FilterIsSubsequence(keep, s[1..]);
      var r := Filter(keep, s);
      if keep(s[0]) {
        assert r[0] == s[0] && r[1..] == Filter(keep, s[1..]);
      } else {
        assert r == Filter(keep, s[1..]);
      }
    }
  }

  /** Filtering by a stronger condition can be done after filtering by a weaker one. */
  lemma {:induction false} FilterOfFilter<T>(strong: T -> bool, weak: T -> bool, s: seq<T>)
    requires forall x :: strong(x) ==> weak(x)
    ensures Filter(strong, Filter(weak, s)) == Filter(strong, s)
  {
    if s != [] {
      FilterOfFilter(strong, weak, s[1..]);
      var w := Filter(weak, s);
      if weak(s[0]) {
        assert w == [s[0]] + Filter(weak, s[1..]);
        assert w[0] == s[0] && w[1..] == Filter(weak, s[1..]);
      } else {
        assert !strong(s[0]);
        assert w == Filter(weak, s[1..]);
      }
    }
  }

  /** No two plugins share an id: how the catalog map is keyed. */
  ghost predicate UniqueIds(plugins: seq<Plugin>) {
    forall i, j :: 0 <= i < j < |plugins| ==> plugins[i].id != plugins[j].id
  }

  /** Filtering a catalog with distinct ids leaves the ids distinct: no plugin is listed twice. */
  lemma {:induction false} FilterKeepsIdsUnique(keep: Plugin -> bool, s: seq<Plugin>)
    requires UniqueIds(s)
    ensures UniqueIds(Filter(keep, s))
  {
    if s != [] {
      assert UniqueIds(s[1..]);
      FilterKeepsIdsUnique(keep, s[1..]);
      var tail := Filter(keep, s[1..]);
      forall k | 0 <= k < |tail|
        ensures tail[k].id != s[0].id
      {
        FilterMembers(keep, s[1..], tail[k]);
        var m :| 0 <= m < |s[1..]| && s[1..][m] == tail[k];
        assert s[m + 1] == tail[k];
      }
    }
  }

  // ---------------------------------------------------------------------------
  // What getInstalled and getUpdates select
  // ---------------------------------------------------------------------------

  /** `plugin.getInstalled() != null` */
  predicate IsInstalled(plugin: Plugin) {
    plugin.installed.Some?
  }

  /** `installed != null && isNewerPlugin(plugin.version, installed.getVersion())`: only installed plugins qualify. */
  predicate IsUpdate(cmp: (string, string) -> int, plugin: Plugin): (update: bool)
    ensures update ==> IsInstalled(plugin)
  {
    plugin.installed.Some? && IsNewerPlugin(cmp, plugin.version, plugin.installed.value.version)
  }

  /** The installed plugins of a catalog, in catalog order. */
  function InstalledOf(plugins: seq<Plugin>): (r: seq<Plugin>)
    ensures |r| <= |plugins|
    ensures forall k :: 0 <= k < |r| ==> r[k].installed.Some?
  {
    Filter(IsInstalled, plugins)
  }

  /** The plugins of a catalog with a newer version on offer, in catalog order. */
  function UpdatesOf(cmp: (string, string) -> int, plugins: seq<Plugin>): (r: seq<Plugin>)
    ensures |r| <= |plugins|
    ensures forall k :: 0 <= k < |r| ==>
      r[k].installed.Some? && IsNewerPlugin(cmp, r[k].version, r[k].installed.value.version)
  {
    Filter(p => IsUpdate(cmp, p), plugins)
  }

  // ---------------------------------------------------------------------------
  // The two methods
  // ---------------------------------------------------------------------------

  /** `getInstalled()`: nothing without data, else the installed plugins in catalog order. */
  method GetInstalled(data: Option<Data>) returns (installedPlugins: seq<Plugin>)
    ensures data.None? ==> installedPlugins == []
    ensures data.Some? ==> installedPlugins == InstalledOf(data.value.plugins)
  {
    if data.None? {
      return [];
    }
    var plugins := data.value.plugins;
    installedPlugins := [];
    for i := 0 to |plugins|
      invariant installedPlugins == InstalledOf(plugins[..i])
    {
      var plugin := plugins[i];
      assert plugins[..i + 1] == plugins[..i] + [plugin];
      FilterSnoc(IsInstalled, plugins[..i], plugin);
      if plugin.installed.Some? {
        installedPlugins := installedPlugins + [plugin];
      }
    }
    assert plugins[..|plugins|] == plugins;
  }

  /**
   * `getUpdates()`, with `VersionNumber.compareTo` as `cmp`: nothing without data,
   * else the installed plugins offered in a newer version, in catalog order.
   */
  method GetUpdates(cmp: (string, string) -> int, data: Option<Data>) returns (updatablePlugins: seq<Plugin>)
    ensures data.None? ==> updatablePlugins == []
    ensures data.Some? ==> updatablePlugins == UpdatesOf(cmp, data.value.plugins)
  {
    if data.None? {
      return [];
    }
    var plugins := data.value.plugins;
    updatablePlugins := [];
    for i := 0 to |plugins|
      invariant updatablePlugins == UpdatesOf(cmp, plugins[..i])
    {
      var plugin := plugins[i];
      assert plugins[..i + 1] == plugins[..i] + [plugin];
      FilterSnoc(p => IsUpdate(cmp, p), plugins[..i], plugin);
      var installed := plugin.installed;
      if installed.Some? && IsNewerPlugin(cmp, plugin.version, installed.value.version) {
        updatablePlugins := updatablePlugins + [plugin];
      }
    }
    assert plugins[..|plugins|] == plugins;
  }

  // ---------------------------------------------------------------------------
  // Properties of the selections
  // ---------------------------------------------------------------------------

  /** A plugin is listed as installed exactly when it is in the catalog with an installed counterpart. */
  lemma InstalledOfMembers(plugins: seq<Plugin>, p: Plugin)
    ensures p in InstalledOf(plugins) <==> p in plugins && p.installed.Some?
  {
    FilterMembers(IsInstalled, plugins, p);
  }

  /** The installed plugins keep catalog order. */
  lemma InstalledOfKeepsOrder(plugins: seq<Plugin>)
    ensures IsSubsequence(InstalledOf(plugins), plugins)
  {
    FilterIsSubsequence(IsInstalled, plugins);
  }

  /**
   * A plugin is listed as an update exactly when it is in the catalog, installed,
   * and its catalog version is newer than the installed one.
   */
  lemma UpdatesOfMembers(cmp: (string, string) -> int, plugins: seq<Plugin>, p: Plugin)
    ensures p in UpdatesOf(cmp, plugins) <==>
      p in plugins && p.installed.Some? && IsNewerPlugin(cmp, p.version, p.installed.value.version)
  {
    FilterMembers(p => IsUpdate(cmp, p), plugins, p);
  }

  /** The updates keep catalog order. */
  lemma UpdatesOfKeepsOrder(cmp: (string, string) -> int, plugins: seq<Plugin>)
    ensures IsSubsequence(UpdatesOf(cmp, plugins), plugins)
  {
    FilterIsSubsequence(p => IsUpdate(cmp, p), plugins);
  }

  /** The updates are the installed plugins that have a newer version, in the order of the installed list. */
  lemma UpdatesAreInstalled(cmp: (string, string) -> int, plugins: seq<Plugin>)
    ensures UpdatesOf(cmp, plugins) == Filter(p => IsUpdate(cmp, p), InstalledOf(plugins))
    ensures IsSubsequence(UpdatesOf(cmp, plugins), InstalledOf(plugins))
  {
    FilterOfFilter(p => IsUpdate(cmp, p), IsInstalled, plugins);
    FilterIsSubsequence(p => IsUpdate(cmp, p), InstalledOf(plugins));
  }

  /** Neither list names a plugin twice when the catalog's ids are distinct. */
  lemma SelectionsHaveUniqueIds(cmp: (string, string) -> int, plugins: seq<Plugin>)
    requires UniqueIds(plugins)
    ensures UniqueIds(InstalledOf(plugins))
    ensures UniqueIds(UpdatesOf(cmp, plugins))
  {
    FilterKeepsIdsUnique(IsInstalled, plugins);
    FilterKeepsIdsUnique(p => IsUpdate(cmp, p), plugins);
  }

  /**
   * A plugin that is not installed, or whose catalog version differs from the
   * installed one only by a qualifier or surrounding blanks, is not offered as an update.
   */
  lemma SameNormalFormIsNoUpdate(cmp: (string, string) -> int, plugins: seq<Plugin>, p: Plugin)
    requires IsVersionComparator(cmp)
    requires p.installed.Some? ==> Normalize(p.version) == Normalize(p.installed.value.version)
    ensures p !in UpdatesOf(cmp, plugins)
  {
    UpdatesOfMembers(cmp, plugins, p);
    if p.installed.Some? {
      NotNewerWhenSameNormalForm(cmp, p.version, p.installed.value.version);
    }
  }
}
