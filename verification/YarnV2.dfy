/** `YarnV2Parser.parse` of packages/utils/src/parsers/v2.ts: the output of
    `yarn workspaces list -v --json` is one JSON object per line; the lines are
    reassembled into an array text, parsed (`JSON.parse` is a parameter), and
    folded into an object keyed by workspace name whose dependency lists are
    turned from paths into names (`fixV2Path`, which reads the package.json of
    a path, is a parameter). */
module YarnV2 {
  import opened Wrappers
  import opened Strings
  import opened Lists
  import opened Records

  /** One parsed line; a dependency list may be missing. */
  datatype V2Entry = V2Entry(
    name: string,
    location: string,
    workspaceDependencies: Option<seq<string>>,
    mismatchedWorkspaceDependencies: Option<seq<string>>)

  /** What each workspace name maps to. */
  datatype WorkspaceInfo = WorkspaceInfo(
    location: string,
    workspaceDependencies: seq<string>,
    mismatchedWorkspaceDependencies: seq<string>)

  /** The root package.json as loaded: an object. */
  datatype PackageDescriptor = PackageDescriptor(name: string)

  /** The two kinds of value the root filter compares: a string and an object.
      Strict inequality between values of different kinds always holds. */
  datatype JsValue = JsString(str: string) | JsObject(descriptor: PackageDescriptor)

  /** The array text: the lines joined by `,`, less the last character, in
      brackets. */
  function ArrayText(input: seq<string>): string
  {
    var output := Join(input, ",");
    "[" + Substr(output, 0, |output| - 1) + "]"
  }

  /** The root filter as written: the entry's name against the whole root
      descriptor. */
  predicate KeptAsWritten(pkg: PackageDescriptor, e: V2Entry)
  {
    JsString(e.name) != JsObject(pkg)
  }

  function OrEmpty(deps: Option<seq<string>>): seq<string>
  {
    if deps.Some? then deps.value else []
  }

  /** The value stored for an entry: its other fields, with both dependency
      lists mapped through `fixV2Path`, a missing list becoming empty. */
  function Convert(e: V2Entry, fixV2Path: string -> string): (r: WorkspaceInfo)
    ensures r.location == e.location
    ensures |r.workspaceDependencies| == |OrEmpty(e.workspaceDependencies)|
    ensures forall i :: 0 <= i < |r.workspaceDependencies| ==> r.workspaceDependencies[i] == fixV2Path(e.workspaceDependencies.value[i])
    ensures |r.mismatchedWorkspaceDependencies| == |OrEmpty(e.mismatchedWorkspaceDependencies)|
    ensures forall i :: 0 <= i < |r.mismatchedWorkspaceDependencies| ==>
              r.mismatchedWorkspaceDependencies[i] == fixV2Path(e.mismatchedWorkspaceDependencies.value[i])
  {
    WorkspaceInfo(
      e.location,
      Map(OrEmpty(e.workspaceDependencies), fixV2Path),
      Map(OrEmpty(e.mismatchedWorkspaceDependencies), fixV2Path))
  }

  /** The `reduce`: each entry stored under its name, a later entry replacing
      an earlier one with the same name. */
  function Fold(es: seq<V2Entry>, fixV2Path: string -> string): Record<WorkspaceInfo>
  {
    if |es| == 0 then []
    else
      var last := es[|es| - 1];
      Set(Fold(es[..|es| - 1], fixV2Path), last.name, Convert(last, fixV2Path))
  }

  function Parse(
    input: seq<string>,
    pkg: PackageDescriptor,
    jsonParse: string -> Result<seq<V2Entry>>,
    fixV2Path: string -> string): Result<Record<WorkspaceInfo>>
  {
    var packages := jsonParse(ArrayText(input));
    if packages.Err? then Err(packages.msg)
    else Ok(Fold(Filter(packages.value, (e: V2Entry) => KeptAsWritten(pkg, e)), fixV2Path))
  }

  // ---------------------------------------------------------------------------
  // Properties

  lemma {:induction false} JoinAppend(parts: seq<string>, x: string, sep: string)
    requires |parts| >= 1
    ensures Join(parts + [x], sep) == Join(parts, sep) + sep + x
  {
    if |parts| == 1 {
      assert parts + [x] == [parts[0], x];
      assert [parts[0], x][1..] == [x];
    } else {
      JoinAppend(parts[1..], x, sep);
      assert (parts + [x])[1..] == parts[1..] + [x];
    }
  }

  /** The output of a command ends with a newline, so its last line is empty:
      then the text parsed is exactly the other lines, comma-separated, in
      brackets. */
  lemma ArrayTextOfLines(lines: seq<string>)
    ensures ArrayText(lines + [""]) == "[" + Join(lines, ",") + "]"
  {
    if |lines| == 0 {
      assert lines + [""] == [""];
    } else {
      JoinAppend(lines, "", ",");
    }
  }

  /** The root filter never removes an entry: a name is a string and the root
      descriptor an object, so they always differ, and the root package stays
      in the result under its own name. */
  lemma RootFilterKeepsAll(pkg: PackageDescriptor, packages: seq<V2Entry>)
    ensures Filter(packages, (e: V2Entry) => KeptAsWritten(pkg, e)) == packages
  {
    FilterAll(packages, (e: V2Entry) => KeptAsWritten(pkg, e));
  }

  lemma {:induction false} FilterAll<T>(s: seq<T>, p: T -> bool)
    requires forall x :: x in s ==> p(x)
    ensures Filter(s, p) == s
  {
    if |s| > 0 {
      FilterAll(s[1..], p);
      assert [s[0]] + s[1..] == s;
    }
  }

  /** The keys are the names in order of first appearance, each once. */
  lemma FoldKeys(es: seq<V2Entry>, fixV2Path: string -> string)
    ensures Keys(Fold(es, fixV2Path)) == Map(DedupeBy(es, (e: V2Entry) => e.name), (e: V2Entry) => e.name)
    ensures KeysDistinct(Fold(es, fixV2Path))
  {
    FoldKeysOrder(es, fixV2Path);
    FoldKeysDistinct(es, fixV2Path);
  }

  lemma {:induction false} FoldKeysOrder(es: seq<V2Entry>, fixV2Path: string -> string)
    ensures Keys(Fold(es, fixV2Path)) == Map(DedupeBy(es, (e: V2Entry) => e.name), (e: V2Entry) => e.name)
  {
    if |es| > 0 {
      var init := es[..|es| - 1];
      var last := es[|es| - 1];
      var name := (e: V2Entry) => e.name;
      FoldKeysOrder(init, fixV2Path);
      DedupeBySameKeys(init, name);
      var d := DedupeBy(init, name);
      if last.name !in Map(init, name) {
        MapConcat(d, [last], name);
      }
    }
  }

  lemma {:induction false} FoldKeysDistinct(es: seq<V2Entry>, fixV2Path: string -> string)
    ensures KeysDistinct(Fold(es, fixV2Path))
  {
    if |es| > 0 {
      var init := es[..|es| - 1];
      var last := es[|es| - 1];
      FoldKeysDistinct(init, fixV2Path);
      SetKeepsDistinct(Fold(init, fixV2Path), last.name, Convert(last, fixV2Path));
    }
  }

  /** A name is present exactly when some entry carries it. */
  lemma FoldPresent(es: seq<V2Entry>, fixV2Path: string -> string, k: string)
    ensures Get(Fold(es, fixV2Path), k).Some? <==> exists i :: 0 <= i < |es| && es[i].name == k
  {
    var name := (e: V2Entry) => e.name;
    FoldKeys(es, fixV2Path);
    DedupeBySameKeys(es, name);
    assert k in Map(es, name) <==> exists i :: 0 <= i < |es| && es[i].name == k by {
      if k in Map(es, name) {
        var i :| 0 <= i < |es| && Map(es, name)[i] == k;
      }
      if exists i :: 0 <= i < |es| && es[i].name == k {
        var i :| 0 <= i < |es| && es[i].name == k;
        assert Map(es, name)[i] == k;
      }
    }
  }

  /** A name maps to the last entry carrying it. */
  lemma {:induction false} FoldLast(es: seq<V2Entry>, fixV2Path: string -> string, i: int)
    requires 0 <= i < |es|
    requires forall j :: i < j < |es| ==> es[j].name != es[i].name
    ensures Get(Fold(es, fixV2Path), es[i].name) == Some(Convert(es[i], fixV2Path))
  {
    var init := es[..|es| - 1];
    var last := es[|es| - 1];
    FoldKeys(init, fixV2Path);
    SetGet(Fold(init, fixV2Path), last.name, Convert(last, fixV2Path));
    if i < |es| - 1 {
      assert init[i] == es[i];
      FoldLast(init, fixV2Path, i);
    }
  }

  // ---------------------------------------------------------------------------
  // The root filter as evidently intended

  /** Leaves out the root package by comparing names. */
  predicate KeptIntended(pkg: PackageDescriptor, e: V2Entry)
  {
    e.name != pkg.name
  }

  function ParseWithoutRoot(
    input: seq<string>,
    pkg: PackageDescriptor,
    jsonParse: string -> Result<seq<V2Entry>>,
    fixV2Path: string -> string): Result<Record<WorkspaceInfo>>
  {
    var packages := jsonParse(ArrayText(input));
    if packages.Err? then Err(packages.msg)
    else Ok(Fold(NonRoot(pkg, packages.value), fixV2Path))
  }

  /** The entries other than the root package, in order. */
  function NonRoot(pkg: PackageDescriptor, packages: seq<V2Entry>): seq<V2Entry>
  {
    Filter(packages, (e: V2Entry) => KeptIntended(pkg, e))
  }

  /** As written, a listed root package stays in the result. */
  lemma RootPackageListed(
    input: seq<string>,
    pkg: PackageDescriptor,
    jsonParse: string -> Result<seq<V2Entry>>,
    fixV2Path: string -> string,
    i: int)
    requires jsonParse(ArrayText(input)).Ok?
    requires 0 <= i < |jsonParse(ArrayText(input)).value| && jsonParse(ArrayText(input)).value[i].name == pkg.name
    ensures Parse(input, pkg, jsonParse, fixV2Path).Ok?
    ensures Get(Parse(input, pkg, jsonParse, fixV2Path).value, pkg.name).Some?
  {
    var packages := jsonParse(ArrayText(input)).value;
    RootFilterKeepsAll(pkg, packages);
    FoldPresent(packages, fixV2Path, pkg.name);
  }

  /** With the names compared, the root package is never in the result and
      every other listed name is. */
  lemma RootPackageLeftOut(
    input: seq<string>,
    pkg: PackageDescriptor,
    jsonParse: string -> Result<seq<V2Entry>>,
    fixV2Path: string -> string,
    k: string)
    requires jsonParse(ArrayText(input)).Ok?
    ensures ParseWithoutRoot(input, pkg, jsonParse, fixV2Path).Ok?
    ensures var packages := jsonParse(ArrayText(input)).value;
            Get(ParseWithoutRoot(input, pkg, jsonParse, fixV2Path).value, k).Some?
            <==> k != pkg.name && exists i :: 0 <= i < |packages| && packages[i].name == k
  {
    var packages := jsonParse(ArrayText(input)).value;
    var kept := NonRoot(pkg, packages);
    assert ParseWithoutRoot(input, pkg, jsonParse, fixV2Path) == Ok(Fold(kept, fixV2Path));
    FoldPresent(kept, fixV2Path, k);
    KeptNames(packages, pkg, k);
  }

  /** The entries kept by the intended filter carry every listed name but the
      root package's. */
  lemma KeptNames(packages: seq<V2Entry>, pkg: PackageDescriptor, k: string)
    ensures var kept := NonRoot(pkg, packages);
            (exists i :: 0 <= i < |kept| && kept[i].name == k)
            <==> k != pkg.name && exists i :: 0 <= i < |packages| && packages[i].name == k
  {
    var p := (e: V2Entry) => KeptIntended(pkg, e);
    var kept := NonRoot(pkg, packages);
    assert kept == Filter(packages, p);
    var inKept := exists i :: 0 <= i < |kept| && kept[i].name == k;
    var inAll := exists i :: 0 <= i < |packages| && packages[i].name == k;
    assert inKept ==> k != pkg.name && inAll by {
      if inKept {
        var i :| 0 <= i < |kept| && kept[i].name == k;
        assert kept[i] in kept;
        assert kept[i] in packages && p(kept[i]);
        var j :| 0 <= j < |packages| && packages[j] == kept[i];
      }
    }
    assert k != pkg.name && inAll ==> inKept by {
      if k != pkg.name && inAll {
        var i :| 0 <= i < |packages| && packages[i].name == k;
        assert packages[i] in packages && p(packages[i]);
        assert packages[i] in kept;
        var j :| 0 <= j < |kept| && kept[j] == packages[i];
      }
    }
  }
}
