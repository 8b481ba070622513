/** The lockfile side of the `vp-composer commit-composer-changes` command:
    the package map read from a decoded composer.lock, the classification of
    the differences between two such maps, and the plugin change infos built
    from that classification. */
module VpComposer {
  import opened PhpValues

  /** One package entry; `kind` is the entry's `type` key, and `homepage`
      None stands for a missing key or PHP null. */
  datatype Package = Package(name: string, version: string, kind: string, homepage: Option<string>)

  /** A lockfile snapshot: package name to package. */
  type PackageSet = map<string, Package>

  /** Every package is filed under its own name. */
  predicate KeyedByName(m: PackageSet) {
    forall k | k in m :: m[k].name == k
  }

  /** The record kept for one lockfile entry. */
  function KeptRecord(entry: Package): (p: Package)
    ensures p.name == entry.name && p.version == entry.version && p.kind == entry.kind
    ensures p.homepage.None? <==> FalsyOrNull(entry.homepage)
    ensures p.homepage.Some? ==> p.homepage == entry.homepage
  {
    entry.(homepage := if FalsyOrNull(entry.homepage) then None else entry.homepage)
  }

  /** The names the entries carry. */
  function Names(entries: seq<Package>): set<string>
  {
    set i | 0 <= i < |entries| :: entries[i].name
  }

  /** Entry `i` is the last one carrying its name. */
  predicate LastWithName(entries: seq<Package>, i: int)
    requires 0 <= i < |entries|
  {
    forall j | i < j < |entries| :: entries[j].name != entries[i].name
  }

  lemma NamesOfPrefix(entries: seq<Package>)
    requires entries != []
    ensures Names(entries) == Names(entries[..|entries| - 1]) + {entries[|entries| - 1].name}
  {
    var init := entries[..|entries| - 1];
    forall x | x in Names(entries)
      ensures x in Names(init) + {entries[|entries| - 1].name}
    {
      var i :| 0 <= i < |entries| && entries[i].name == x;
      if i < |init| {
        assert init[i] == entries[i];
      }
    }
    forall x | x in Names(init)
      ensures x in Names(entries)
    {
      var i :| 0 <= i < |init| && init[i].name == x;
      assert entries[i] == init[i];
    }
  }

  /** What `getPackagesFromLockFile` promises of its map for `entries`. */
  predicate FiledLastWins(entries: seq<Package>, m: PackageSet) {
    && m.Keys == Names(entries)
    && KeyedByName(m)
    && forall i | 0 <= i < |entries| && LastWithName(entries, i) :: m[entries[i].name] == KeptRecord(entries[i])
  }

  /** Filing one more entry over the map of the earlier ones keeps the promise. */
  lemma FileLast(entries: seq<Package>, earlier: PackageSet)
    requires entries != []
    requires FiledLastWins(entries[..|entries| - 1], earlier)
    ensures FiledLastWins(entries, earlier[entries[|entries| - 1].name := KeptRecord(entries[|entries| - 1])])
  {
    var init := entries[..|entries| - 1];
    var last := entries[|entries| - 1];
    var m := earlier[last.name := KeptRecord(last)];
    NamesOfPrefix(entries);
    forall i | 0 <= i < |entries| && LastWithName(entries, i)
      ensures m[entries[i].name] == KeptRecord(entries[i])
    {
      if i < |init| {
        assert init[i] == entries[i];
        assert entries[i].name != last.name;
        assert LastWithName(init, i) by {
          forall j | i < j < |init|
            ensures init[j].name != init[i].name
          {
            assert init[j] == entries[j];
          }
        }
      }
    }
  }

  /** `getPackagesFromLockFile` over the already decoded `packages` list:
      `array_combine` of the names with the kept records, so a name that
      occurs twice keeps its last record. */
  function PackagesFromLockFile(entries: seq<Package>): (m: PackageSet)
    ensures FiledLastWins(entries, m)
    decreases |entries|
  {
    if entries == [] then map[]
    else
      var earlier := PackagesFromLockFile(entries[..|entries| - 1]);
      var last := entries[|entries| - 1];
      FileLast(entries, earlier);
      earlier[last.name := KeptRecord(last)]
  }

  /** The three buckets of `detectChanges`, keyed by package name. */
  datatype ChangeSet = ChangeSet(installed: PackageSet, removed: PackageSet, updated: PackageSet)

  /** The `!==` test of `detectChanges` for a previous package: its version
      against the version of the current package filed under its name; a name
      missing from `current` reads as null, which differs from every string. */
  predicate VersionChanged(p: Package, current: PackageSet) {
    p.name !in current || current[p.name].version != p.version
  }

  /** The pure part of `detectChanges`: `array_diff_key` both ways, and the
      previous packages under keys of both maps whose version changed. */
  function DetectChanges(current: PackageSet, previous: PackageSet): (cs: ChangeSet)
    ensures cs.installed.Keys == current.Keys - previous.Keys
    ensures forall k | k in cs.installed :: cs.installed[k] == current[k]
    ensures cs.removed.Keys == previous.Keys - current.Keys
    ensures forall k | k in cs.removed :: cs.removed[k] == previous[k]
    ensures cs.updated.Keys <= current.Keys * previous.Keys
    ensures forall k | k in cs.updated :: cs.updated[k] == previous[k]
  {
    ChangeSet(
      map k | k in current && k !in previous :: current[k],
      map k | k in previous && k !in current :: previous[k],
      map k | k in previous && k in current && VersionChanged(previous[k], current) :: previous[k])
  }

  /** Keys present in both snapshots with the same version string. */
  function Unchanged(current: PackageSet, previous: PackageSet): set<string>
  {
    set k | k in current && k in previous && current[k].version == previous[k].version
  }

  /** On snapshots filed by name, a key of both snapshots is updated exactly
      when its two version strings differ. */
  lemma UpdatedIffVersionsDiffer(current: PackageSet, previous: PackageSet)
    requires KeyedByName(previous)
    ensures var cs := DetectChanges(current, previous);
      forall k | k in current && k in previous :: k in cs.updated <==> current[k].version != previous[k].version
  {
  }

  /** The buckets are pairwise disjoint, disjoint from the unchanged keys, and
      together with them cover both snapshots. */
  lemma ChangeSetPartition(current: PackageSet, previous: PackageSet)
    requires KeyedByName(previous)
    ensures var cs := DetectChanges(current, previous);
      && cs.installed.Keys !! cs.removed.Keys
      && cs.installed.Keys !! cs.updated.Keys
      && cs.removed.Keys !! cs.updated.Keys
      && cs.updated.Keys !! Unchanged(current, previous)
      && cs.installed.Keys !! Unchanged(current, previous)
      && cs.removed.Keys !! Unchanged(current, previous)
      && cs.installed.Keys + cs.removed.Keys + cs.updated.Keys + Unchanged(current, previous) == current.Keys + previous.Keys
  {
    var cs := DetectChanges(current, previous);
    UpdatedIffVersionsDiffer(current, previous);
    forall k | k in current.Keys + previous.Keys
      ensures k in cs.installed.Keys + cs.removed.Keys + cs.updated.Keys + Unchanged(current, previous)
    {
      if k in current && k in previous && current[k].version == previous[k].version {
        assert k in Unchanged(current, previous);
      }
    }
  }

  /** Removing the removed keys from the previous snapshot and adding the
      installed ones gives the current snapshot's keys. */
  lemma ChangeSetRebuildsKeys(current: PackageSet, previous: PackageSet)
    ensures var cs := DetectChanges(current, previous);
      (previous.Keys - cs.removed.Keys) + cs.installed.Keys == current.Keys
  {
  }

  /** A snapshot compared with itself has no changes. */
  lemma SelfDiffIsEmpty(m: PackageSet)
    requires KeyedByName(m)
    ensures DetectChanges(m, m) == ChangeSet(map[], map[], map[])
  {
    var cs := DetectChanges(m, m);
    assert cs.updated.Keys == {} by {
      UpdatedIffVersionsDiffer(m, m);
    }
  }

  /** `detectChanges` from the two decoded lockfiles to the buckets, stated
      in terms of the entries: names new to the current lockfile, names gone
      from it, and names whose last entries carry different versions. */
  function DetectChangesOfLockFiles(currentEntries: seq<Package>, previousEntries: seq<Package>): (cs: ChangeSet)
    ensures cs.installed.Keys == Names(currentEntries) - Names(previousEntries)
    ensures cs.removed.Keys == Names(previousEntries) - Names(currentEntries)
    ensures forall i, j | 0 <= i < |currentEntries| && 0 <= j < |previousEntries|
              && LastWithName(currentEntries, i) && LastWithName(previousEntries, j)
              && currentEntries[i].name == previousEntries[j].name
              :: (currentEntries[i].name in cs.updated <==> currentEntries[i].version != previousEntries[j].version)
    ensures forall k | k in cs.updated :: k in Names(currentEntries) && k in Names(previousEntries)
  {
    var current := PackagesFromLockFile(currentEntries);
    var previous := PackagesFromLockFile(previousEntries);
    UpdatedIffVersionsDiffer(current, previous);
    DetectChanges(current, previous)
  }

  // Plugin change infos

  /** The action recorded for a bucket. */
  datatype Action = Install | Delete | Update

  /** A plugin change info: plugin file, action, plugin name. */
  datatype PluginChangeInfo = PluginChangeInfo(pluginFile: string, action: Action, pluginName: string)

  /** The only package type that yields a change info. */
  const PluginType: string := "wordpress-plugin"

  /** The callback applied to every package of a bucket: a change info for a
      WordPress plugin, null for any other type. */
  function PluginChange(p: Package, action: Action): (r: Option<PluginChangeInfo>)
    ensures r.Some? <==> p.kind == PluginType
    ensures r.Some? ==> r.value.action == action && r.value.pluginFile == p.name && r.value.pluginName == p.name
  {
    if p.kind == PluginType then Some(PluginChangeInfo(p.name, action, p.name)) else None
  }

  /** `array_map` over one bucket; string keys are kept. */
  function BucketChanges(bucket: PackageSet, action: Action): (r: map<string, Option<PluginChangeInfo>>)
    ensures r.Keys == bucket.Keys
    ensures forall k | k in r :: r[k] == PluginChange(bucket[k], action)
  {
    map k | k in bucket :: PluginChange(bucket[k], action)
  }

  /** `array_merge` of the three mapped buckets; on a string key shared by
      two arrays the later one wins. */
  function ChangeInfos(cs: ChangeSet): (r: map<string, Option<PluginChangeInfo>>)
    ensures r.Keys == cs.installed.Keys + cs.removed.Keys + cs.updated.Keys
    ensures forall k | k in cs.updated :: r[k] == PluginChange(cs.updated[k], Update)
    ensures forall k | k in cs.removed && k !in cs.updated :: r[k] == PluginChange(cs.removed[k], Delete)
    ensures forall k | k in cs.installed && k !in cs.removed && k !in cs.updated :: r[k] == PluginChange(cs.installed[k], Install)
  {
    BucketChanges(cs.installed, Install) + BucketChanges(cs.removed, Delete) + BucketChanges(cs.updated, Update)
  }

  /** Because the buckets of `detectChanges` are disjoint, the merge loses
      no entry: every package of every bucket has its own change info, which
      is present exactly for plugins and carries its bucket's action. */
  lemma ChangeInfosOfDiff(current: PackageSet, previous: PackageSet)
    ensures var cs := DetectChanges(current, previous);
      var infos := ChangeInfos(cs);
      && infos.Keys == cs.installed.Keys + cs.removed.Keys + cs.updated.Keys
      && (forall k | k in cs.installed :: infos[k] == PluginChange(cs.installed[k], Install))
      && (forall k | k in cs.removed :: infos[k] == PluginChange(cs.removed[k], Delete))
      && (forall k | k in cs.updated :: infos[k] == PluginChange(cs.updated[k], Update))
  {
    var cs := DetectChanges(current, previous);
    var i, r, u := BucketChanges(cs.installed, Install), BucketChanges(cs.removed, Delete), BucketChanges(cs.updated, Update);
    assert i.Keys !! r.Keys && i.Keys !! u.Keys && r.Keys !! u.Keys;
  }

  /** With snapshots filed by name, a change info is present exactly for a
      plugin package and names the package under whose key it is filed. */
  lemma ChangeInfosNamePlugins(current: PackageSet, previous: PackageSet)
    requires KeyedByName(current) && KeyedByName(previous)
    ensures var cs := DetectChanges(current, previous);
      var infos := ChangeInfos(cs);
      forall k | k in infos :: infos[k].Some? ==> infos[k].value.pluginName == k && infos[k].value.pluginFile == k
  {
    ChangeInfosOfDiff(current, previous);
  }

  // Worked scenarios

  /** {A@1.0, B@2.0} against {A@1.0, C@1.0}: B installed, C removed, A unchanged. */
  lemma ScenarioInstallAndRemove()
    ensures var a, b, c := Package("A", "1.0", "library", None), Package("B", "2.0", "library", None), Package("C", "1.0", "library", None);
      var cs := DetectChangesOfLockFiles([a, b], [a, c]);
      cs.installed.Keys == {"B"} && cs.removed.Keys == {"C"} && cs.updated == map[]
  {
    var a, b, c := Package("A", "1.0", "library", None), Package("B", "2.0", "library", None), Package("C", "1.0", "library", None);
    var cur, prev := [a, b], [a, c];
    assert Names(cur) == {"A", "B"} by { assert cur[0].name == "A" && cur[1].name == "B"; }
    assert Names(prev) == {"A", "C"} by { assert prev[0].name == "A" && prev[1].name == "C"; }
    var cs := DetectChangesOfLockFiles(cur, prev);
    assert LastWithName(cur, 0) && LastWithName(prev, 0);
    assert cs.updated.Keys == {};
  }

  /** {A@2.0} against {A@1.0}: A updated, carrying its previous record. */
  lemma ScenarioUpdate()
    ensures var cs := DetectChangesOfLockFiles([Package("A", "2.0", "library", None)], [Package("A", "1.0", "library", None)]);
      cs.installed == map[] && cs.removed == map[] && cs.updated.Keys == {"A"} && cs.updated["A"].version == "1.0"
  {
    var cur, prev := [Package("A", "2.0", "library", None)], [Package("A", "1.0", "library", None)];
    assert Names(cur) == {"A"} by { assert cur[0].name == "A"; }
    assert Names(prev) == {"A"} by { assert prev[0].name == "A"; }
    assert LastWithName(cur, 0) && LastWithName(prev, 0);
    var cs := DetectChangesOfLockFiles(cur, prev);
    assert "A" in cs.updated;
  }
}
