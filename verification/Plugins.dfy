/** The dependency scan of `getPlugins` in packages/cli/src/plugins.ts: the
    sorted, de-duplicated names of `dependencies` and `devDependencies`, the
    presets and plugins among them, and the map of loaded plugins that the
    presets' maps are merged into and the plugins are then set in. Loading a
    preset (the recursive `getPlugins` on its resolved path) and loading a
    plugin (`require` of its resolved path) are parameters; a failure is an
    `Err`. */
module Plugins {
  import opened Wrappers
  import opened Strings
  import opened Lists
  import opened Json
  import opened Records

  // ---------------------------------------------------------------------------
  // String order

  /** `a` sorts no later than `b`: JavaScript's default `sort` order,
      character by character. */
  predicate Below(a: string, b: string)
    decreases |a|
  {
    |a| == 0 || (|b| > 0 && (a[0] < b[0] || (a[0] == b[0] && Below(a[1..], b[1..]))))
  }

  lemma {:induction false} BelowTotal(a: string, b: string)
    ensures Below(a, b) || Below(b, a)
    decreases |a|
  {
    if |a| > 0 && |b| > 0 && a[0] == b[0] {
      BelowTotal(a[1..], b[1..]);
    }
  }

  lemma {:induction false} BelowTrans(a: string, b: string, c: string)
    requires Below(a, b) && Below(b, c)
    ensures Below(a, c)
    decreases |a|
  {
    if |a| > 0 && a[0] == b[0] && b[0] == c[0] {
      BelowTrans(a[1..], b[1..], c[1..]);
    }
  }

  predicate Sorted(s: seq<string>)
  {
    forall i, j :: 0 <= i < j < |s| ==> Below(s[i], s[j])
  }

  function Insert(x: string, s: seq<string>): (r: seq<string>)
    ensures multiset(r) == multiset(s) + multiset{x}
  {
    if |s| == 0 then [x]
    else if Below(x, s[0]) then [x] + s
    else
      assert s == [s[0]] + s[1..];
      [s[0]] + Insert(x, s[1..])
  }

  /** `s.sort()` on strings, as an insertion sort. */
  function Sort(s: seq<string>): (r: seq<string>)
    ensures multiset(r) == multiset(s)
  {
    if |s| == 0 then []
    else
      assert s == [s[0]] + s[1..];
      Insert(s[0], Sort(s[1..]))
  }

  lemma {:induction false} InsertSorted(x: string, s: seq<string>)
    requires Sorted(s)
    ensures Sorted(Insert(x, s))
  {
    if |s| > 0 {
      if Below(x, s[0]) {
        forall j | 0 <= j < |s| ensures Below(x, s[j]) {
          if j > 0 { BelowTrans(x, s[0], s[j]); }
        }
        ConsSorted(x, s);
      } else {
        BelowTotal(x, s[0]);
        var tail := s[1..];
        InsertSorted(x, tail);
        assert forall j :: 0 <= j < |tail| ==> tail[j] == s[j + 1];
        InsertAbove(s[0], x, tail);
        ConsSorted(s[0], Insert(x, tail));
      }
    }
  }

  lemma ConsSorted(h: string, t: seq<string>)
    requires Sorted(t) && forall j :: 0 <= j < |t| ==> Below(h, t[j])
    ensures Sorted([h] + t)
  {
    var r := [h] + t;
    assert forall j :: 1 <= j < |r| ==> r[j] == t[j - 1];
  }

  /** Inserting a value that is not below `h` into values not below `h`
      keeps them all not below `h`. */
  lemma InsertAbove(h: string, x: string, s: seq<string>)
    requires Below(h, x) && forall j :: 0 <= j < |s| ==> Below(h, s[j])
    ensures forall j :: 0 <= j < |Insert(x, s)| ==> Below(h, Insert(x, s)[j])
  {
    var t := Insert(x, s);
    forall j | 0 <= j < |t| ensures Below(h, t[j]) {
      assert t[j] in multiset(t);
      if t[j] != x {
        assert t[j] in multiset(s);
        var k :| 0 <= k < |s| && s[k] == t[j];
      }
    }
  }

  lemma {:induction false} SortSorted(s: seq<string>)
    ensures Sorted(Sort(s))
  {
    if |s| > 0 {
      SortSorted(s[1..]);
      InsertSorted(s[0], Sort(s[1..]));
    }
  }

  // ---------------------------------------------------------------------------
  // Dependency names

  /** `Object.keys` of an array or a string: its indices as text. */
  function IndexKeys(n: nat): (r: seq<string>)
    ensures |r| == n
  {
    seq(n, i requires 0 <= i < n => NatText(i))
  }

  /** `Object.keys(pkg[section] || {})`. */
  function SectionKeys(section: Option<Json>): seq<string>
  {
    if section.None? || !Truthy(section.value) then []
    else match section.value
      case JObj(fs) => Keys(fs)
      case JArr(items) => IndexKeys(|items|)
      case JStr(s) => IndexKeys(|s|)
      case _ => []
  }

  /** The names of both sections, `dependencies` first. */
  function AllKeys(pkg: Json): seq<string>
  {
    SectionKeys(Field(pkg, "dependencies")) + SectionKeys(Field(pkg, "devDependencies"))
  }

  /** `deps`: the names sorted, then each kept at its first position. */
  function Deps(pkg: Json): seq<string>
  {
    DedupeBy(Sort(AllKeys(pkg)), Same)
  }

  lemma {:induction false} DedupeSorted(s: seq<string>)
    requires Sorted(s)
    ensures Sorted(DedupeBy(s, Same))
  {
    if |s| > 0 {
      var init := s[..|s| - 1];
      DedupeSorted(init);
      DedupeByProperties(init, Same);
      var d := DedupeBy(init, Same);
      forall k | 0 <= k < |d| ensures Below(d[k], s[|s| - 1]) {
        assert d[k] in init;
        var j :| 0 <= j < |init| && init[j] == d[k];
        assert s[j] == d[k];
      }
    }
  }

  lemma SameMap(s: seq<string>)
    ensures Map(s, Same) == s
  {
  }

  /** `deps` is sorted, has no repeated name, and holds exactly the names of
      the two sections. */
  lemma DepsProperties(pkg: Json)
    ensures Sorted(Deps(pkg))
    ensures forall i, j :: 0 <= i < j < |Deps(pkg)| ==> Deps(pkg)[i] != Deps(pkg)[j]
    ensures forall k :: k in Deps(pkg) <==> k in AllKeys(pkg)
  {
    var keys := AllKeys(pkg);
    var sorted := Sort(keys);
    var d := Deps(pkg);
    SortSorted(keys);
    DedupeSorted(sorted);
    DedupeByProperties(sorted, Same);
    DedupeBySameKeys(sorted, Same);
    SameMap(d);
    SameMap(sorted);
    assert forall k :: k in sorted <==> k in multiset(sorted);
    assert forall k :: k in keys <==> k in multiset(keys);
  }

  // ---------------------------------------------------------------------------
  // Classification

  /** `/@?tscmono[/-]preset-/` finds a match. */
  predicate IsPreset(dep: string)
  {
    Contains(dep, "tscmono/preset-") || Contains(dep, "tscmono-preset-")
  }

  /** `/@?tscmono[/-]plugin-/` finds a match. */
  predicate IsPlugin(dep: string)
  {
    Contains(dep, "tscmono/plugin-") || Contains(dep, "tscmono-plugin-")
  }

  function Presets(pkg: Json): (r: seq<string>)
    ensures forall d :: d in r <==> d in AllKeys(pkg) && IsPreset(d)
  {
    DepsProperties(pkg);
    Filter(Deps(pkg), IsPreset)
  }

  function PluginNames(pkg: Json): (r: seq<string>)
    ensures forall d :: d in r <==> d in AllKeys(pkg) && IsPlugin(d)
  {
    DepsProperties(pkg);
    Filter(Deps(pkg), IsPlugin)
  }

  // ---------------------------------------------------------------------------
  // The map of plugins

  /** `new Map(entries)`-style insertion of entries into `o`, in order. */
  function SetAll(o: Record<Json>, entries: Record<Json>): Record<Json>
    decreases |entries|
  {
    if |entries| == 0 then o else SetAll(Set(o, entries[0].0, entries[0].1), entries[1..])
  }

  /** `new Map([...a, ...b])`. */
  function Merge(a: Record<Json>, b: Record<Json>): Record<Json>
  {
    SetAll([], a + b)
  }

  /** The presets' maps merged in, one preset after another; the first that
      fails to load fails the whole. */
  function MergePresets(acc: Record<Json>, presets: seq<string>, loadPreset: string -> Result<Record<Json>>): Result<Record<Json>>
    decreases |presets|
  {
    if |presets| == 0 then Ok(acc)
    else
      var m := loadPreset(presets[0]);
      if m.Err? then Err(m.msg) else MergePresets(Merge(acc, m.value), presets[1..], loadPreset)
  }

  /** The plugins set one after another; the first that fails to load fails
      the whole. */
  function SetPlugins(acc: Record<Json>, plugins: seq<string>, loadPlugin: string -> Result<Json>): Result<Record<Json>>
    decreases |plugins|
  {
    if |plugins| == 0 then Ok(acc)
    else
      var v := loadPlugin(plugins[0]);
      if v.Err? then Err(v.msg) else SetPlugins(Set(acc, plugins[0], v.value), plugins[1..], loadPlugin)
  }

  function GetPluginsSpec(pkg: Json, loadPreset: string -> Result<Record<Json>>, loadPlugin: string -> Result<Json>): Result<Record<Json>>
  {
    var merged := MergePresets([], Presets(pkg), loadPreset);
    if merged.Err? then merged else SetPlugins(merged.value, PluginNames(pkg), loadPlugin)
  }

  /** `getPlugins(pwd, from)` given the package's manifest: presets merged in
      declaration order, then every plugin set. */
  method GetPlugins(pkg: Json, loadPreset: string -> Result<Record<Json>>, loadPlugin: string -> Result<Json>)
    returns (r: Result<Record<Json>>)
    ensures r == GetPluginsSpec(pkg, loadPreset, loadPlugin)
  {
    var presets := Presets(pkg);
    var plugins := PluginNames(pkg);
    var merged := LoadPresets(presets, loadPreset);
    if merged.Err? {
      return merged;
    }
    r := SetEachPlugin(merged.value, plugins, loadPlugin);
  }

  /** The loop over the presets, each preset's map merged into `allPlugins`. */
  method LoadPresets(presets: seq<string>, loadPreset: string -> Result<Record<Json>>) returns (r: Result<Record<Json>>)
    ensures r == MergePresets([], presets, loadPreset)
  {
    var allPlugins: Record<Json> := [];
    for i := 0 to |presets|
      invariant MergePresets([], presets, loadPreset) == MergePresets(allPlugins, presets[i..], loadPreset)
    {
      MergePresetsStep(allPlugins, presets[i..], loadPreset);
      assert presets[i..][1..] == presets[i + 1..];
      var presetPlugins := loadPreset(presets[i]);
      if presetPlugins.Err? {
        return Err(presetPlugins.msg);
      }
      allPlugins := Merge(allPlugins, presetPlugins.value);
    }
    assert presets[|presets|..] == [];
    return Ok(allPlugins);
  }

  /** The `forEach` over the plugins, each set in `allPlugins`. */
  method SetEachPlugin(allPlugins: Record<Json>, plugins: seq<string>, loadPlugin: string -> Result<Json>) returns (r: Result<Record<Json>>)
    ensures r == SetPlugins(allPlugins, plugins, loadPlugin)
  {
    var acc := allPlugins;
    for j := 0 to |plugins|
      invariant SetPlugins(allPlugins, plugins, loadPlugin) == SetPlugins(acc, plugins[j..], loadPlugin)
    {
      SetPluginsStep(acc, plugins[j..], loadPlugin);
      assert plugins[j..][1..] == plugins[j + 1..];
      var plugin := loadPlugin(plugins[j]);
      if plugin.Err? {
        return Err(plugin.msg);
      }
      acc := Set(acc, plugins[j], plugin.value);
    }
    assert plugins[|plugins|..] == [];
    return Ok(acc);
  }

  lemma MergePresetsStep(acc: Record<Json>, presets: seq<string>, loadPreset: string -> Result<Record<Json>>)
    requires |presets| > 0
    ensures var m := loadPreset(presets[0]);
            MergePresets(acc, presets, loadPreset)
            == if m.Err? then Err(m.msg) else MergePresets(Merge(acc, m.value), presets[1..], loadPreset)
  {
  }

  lemma SetPluginsStep(acc: Record<Json>, plugins: seq<string>, loadPlugin: string -> Result<Json>)
    requires |plugins| > 0
    ensures var v := loadPlugin(plugins[0]);
            SetPlugins(acc, plugins, loadPlugin)
            == if v.Err? then Err(v.msg) else SetPlugins(Set(acc, plugins[0], v.value), plugins[1..], loadPlugin)
  {
  }

  // ---------------------------------------------------------------------------
  // Properties

  lemma {:induction false} SetPluginsOthers(acc: Record<Json>, plugins: seq<string>, loadPlugin: string -> Result<Json>, k: string)
    requires k !in plugins
    ensures var r := SetPlugins(acc, plugins, loadPlugin);
            r.Ok? ==> Get(r.value, k) == Get(acc, k)
    decreases |plugins|
  {
    if |plugins| > 0 && loadPlugin(plugins[0]).Ok? {
      SetGetFirst(acc, plugins[0], loadPlugin(plugins[0]).value);
      SetPluginsOthers(Set(acc, plugins[0], loadPlugin(plugins[0]).value), plugins[1..], loadPlugin, k);
    }
  }

  lemma {:induction false} SetPluginsGet(acc: Record<Json>, plugins: seq<string>, loadPlugin: string -> Result<Json>, k: string)
    requires k in plugins
    ensures var r := SetPlugins(acc, plugins, loadPlugin);
            r.Ok? ==> loadPlugin(k).Ok? && Get(r.value, k) == Some(loadPlugin(k).value)
    decreases |plugins|
  {
    var r := SetPlugins(acc, plugins, loadPlugin);
    if r.Ok? {
      var next := Set(acc, plugins[0], loadPlugin(plugins[0]).value);
      if k in plugins[1..] {
        SetPluginsGet(next, plugins[1..], loadPlugin, k);
      } else {
        SetGetFirst(acc, plugins[0], loadPlugin(plugins[0]).value);
        SetPluginsOthers(next, plugins[1..], loadPlugin, k);
      }
    }
  }

  /** Every plugin among the dependencies is in the result with its own
      module, whatever a preset contributed under the same name. */
  lemma PluginsOverride(pkg: Json, loadPreset: string -> Result<Record<Json>>, loadPlugin: string -> Result<Json>, k: string)
    requires k in AllKeys(pkg) && IsPlugin(k)
    ensures var r := GetPluginsSpec(pkg, loadPreset, loadPlugin);
            r.Ok? ==> loadPlugin(k).Ok? && Get(r.value, k) == Some(loadPlugin(k).value)
  {
    var merged := MergePresets([], Presets(pkg), loadPreset);
    if merged.Ok? {
      SetPluginsGet(merged.value, PluginNames(pkg), loadPlugin, k);
    }
  }

  lemma {:induction false} SetAllGet(o: Record<Json>, entries: Record<Json>, k: string)
    requires KeysDistinct(entries)
    ensures k in Keys(entries) ==> Get(SetAll(o, entries), k) == Get(entries, k)
    ensures k !in Keys(entries) ==> Get(SetAll(o, entries), k) == Get(o, k)
    decreases |entries|
  {
    if |entries| > 0 {
      var next := Set(o, entries[0].0, entries[0].1);
      SetGetFirst(o, entries[0].0, entries[0].1);
      assert Keys(entries) == [entries[0].0] + Keys(entries[1..]);
      SetAllGet(next, entries[1..], k);
    }
  }

  lemma {:induction false} SetAllConcat(o: Record<Json>, a: Record<Json>, b: Record<Json>)
    ensures SetAll(o, a + b) == SetAll(SetAll(o, a), b)
    decreases |a|
  {
    if |a| > 0 {
      assert (a + b)[0] == a[0] && (a + b)[1..] == a[1..] + b;
      SetAllConcat(Set(o, a[0].0, a[0].1), a[1..], b);
    } else {
      assert a + b == b;
    }
  }

  /** A preset's map, whose keys are distinct, wins over what was merged
      before it for every key it has, and leaves every other key as it was. */
  lemma MergeGet(a: Record<Json>, b: Record<Json>, k: string)
    requires KeysDistinct(b)
    ensures k in Keys(b) ==> Get(Merge(a, b), k) == Get(b, k)
    ensures k !in Keys(b) ==> Get(Merge(a, b), k) == Get(SetAll([], a), k)
  {
    SetAllConcat([], a, b);
    SetAllGet(SetAll([], a), b, k);
  }
}
