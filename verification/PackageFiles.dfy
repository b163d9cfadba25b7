/** The package.json helpers of packages/utils/src/package.ts and the upward
    walk of packages/utils/src/findPackageJson.ts (the two `findPackageJson`
    are the same code): whether a directory holds a package.json, which file
    `getPackageJson` reads, and the nearest directory at or above a start
    that holds one. The file system is a parameter: `fileExists` says whether a
    file is there, `readJson` what a file parses to. */
module PackageFiles {
  import opened Wrappers
  import opened Strings
  import opened PosixPath

  const PackageJson: string := "package.json"
  const PackageJsonSuffix: string := "/package.json"
  const RootReached: string := "Reached root folder"

  /** `hasPackageJson`: whether `pwd/package.json` exists. */
  predicate HasPackageJson(fileExists: string -> bool, cwd: string, pwd: string)
  {
    fileExists(Resolve(cwd, [pwd, PackageJson]))
  }

  /** The file `getPackageJson` reads: a trailing `/package.json` is taken off
      first, so a directory and its package.json name the same file. */
  function ManifestPath(cwd: string, pwd: string): string
  {
    var dir := if EndsWith(pwd, PackageJsonSuffix) then pwd[..|pwd| - |PackageJsonSuffix|] else pwd;
    Resolve(cwd, [dir, PackageJson])
  }

  function GetPackageJson<J>(readJson: string -> Result<J>, cwd: string, pwd: string): Result<J>
  {
    readJson(ManifestPath(cwd, pwd))
  }

  /** `findPackageJson(pwd, prev)`, `prev` "" standing for absent: fails once
      `dirname` stops moving, returns the first directory that has a
      package.json, otherwise goes on with the parent. `has` is
      `hasPackageJson`. */
  function FindPackageJson(has: string -> bool, pwd: string, prev: string): (r: Result<string>)
    ensures prev != "" && prev == pwd ==> r == Err(RootReached)
    ensures r.Ok? ==> has(r.value)
    decreases Height(pwd), if prev != "" && prev == pwd then 0 else 1
  {
    if prev != "" && prev == pwd then Err(RootReached)
    else if has(pwd) then Ok(pwd)
    else
      DirnameShrinks(pwd);
      FindPackageJson(has, Dirname(pwd), pwd)
  }

  /** `findPackageJson(pwd)`, without a previous directory. */
  function Find(has: string -> bool, pwd: string): Result<string>
  {
    FindPackageJson(has, pwd, "")
  }

  // ---------------------------------------------------------------------------
  // Properties

  /** The file checked is `package.json` inside `pwd`. */
  lemma ManifestName(cwd: string, pwd: string)
    ensures ResolveSegs(cwd, [pwd, PackageJson]) == ResolveSegs(cwd, [pwd]) + [PackageJson]
  {
    ResolveName(cwd, [pwd], PackageJson);
    assert [pwd] + [PackageJson] == [pwd, PackageJson];
  }

  /** Only `package.json` counts: a directory holding just a `package.yml` or
      a `package.yaml` has no package.json. */
  lemma OtherManifestsIgnored(fileExists: string -> bool, cwd: string, pwd: string)
    requires forall f :: fileExists(f) <==> f == Resolve(cwd, [pwd, "package.yml"]) || f == Resolve(cwd, [pwd, "package.yaml"])
    ensures !HasPackageJson(fileExists, cwd, pwd)
  {
    OtherName(cwd, pwd, PackageJson, "package.yml");
    OtherName(cwd, pwd, PackageJson, "package.yaml");
  }

  /** Two different file names in one directory resolve to different paths. */
  lemma OtherName(cwd: string, pwd: string, x: string, y: string)
    requires x != "" && '/' !in x && x != "." && x != ".."
    requires y != "" && '/' !in y && y != "." && y != ".."
    requires x != y
    ensures Resolve(cwd, [pwd, x]) != Resolve(cwd, [pwd, y])
  {
    var sx := ResolveSegs(cwd, [pwd, x]);
    var sy := ResolveSegs(cwd, [pwd, y]);
    ResolveName(cwd, [pwd], x);
    ResolveName(cwd, [pwd], y);
    assert [pwd] + [x] == [pwd, x] && [pwd] + [y] == [pwd, y];
    SegmentsOfResolved(sx);
    SegmentsOfResolved(sy);
    assert sx[|sx| - 1] != sy[|sy| - 1];
  }

  /** A directory and its package.json path read the same file. */
  lemma ManifestPathOfFile(cwd: string, dir: string)
    requires !EndsWith(dir, PackageJsonSuffix)
    ensures ManifestPath(cwd, dir + PackageJsonSuffix) == ManifestPath(cwd, dir)
  {
    var p := dir + PackageJsonSuffix;
    assert p[|p| - |PackageJsonSuffix|..] == PackageJsonSuffix;
    assert p[..|p| - |PackageJsonSuffix|] == dir;
  }

  lemma {:induction false} FixedIter(p: string, k: nat)
    requires Dirname(p) == p
    ensures DirnameIter(p, k) == p
    decreases k
  {
    if k > 0 {
      FixedIter(p, k - 1);
      DirnameIterShift(p, k - 1);
    }
  }

  /** `found` is `dirname` applied `k` times to `start`, for a `k` below which
      no directory has a package.json. */
  ghost predicate Nearest(has: string -> bool, start: string, found: string)
  {
    exists k: nat :: found == DirnameIter(start, k) && forall j: nat :: j < k ==> !has(DirnameIter(start, j))
  }

  /** A found directory is the start or one of its ancestors (`dirname`
      applied `k` times), and none nearer has a package.json. */
  lemma {:induction false} FindNearest(has: string -> bool, pwd: string, prev: string)
    requires !(prev != "" && prev == pwd)
    ensures FindPackageJson(has, pwd, prev).Ok? ==> Nearest(has, pwd, FindPackageJson(has, pwd, prev).value)
    decreases Height(pwd)
  {
    var r := FindPackageJson(has, pwd, prev);
    if r.Ok? {
      if has(pwd) {
        assert r.value == DirnameIter(pwd, 0);
      } else {
        var d := Dirname(pwd);
        DirnameShrinks(pwd);
        assert d != pwd;
        FindNearest(has, d, pwd);
        assert r == FindPackageJson(has, d, pwd);
        var k: nat :| r.value == DirnameIter(d, k) && forall j: nat :: j < k ==> !has(DirnameIter(d, j));
        DirnameIterShift(pwd, k);
        forall j: nat | j < k + 1 ensures !has(DirnameIter(pwd, j)) {
          if j > 0 { DirnameIterShift(pwd, j - 1); }
        }
      }
    }
  }

  lemma SomeHas(has: string -> bool, pwd: string, k: nat)
    requires has(DirnameIter(pwd, k))
    ensures !forall k: nat :: !has(DirnameIter(pwd, k))
  {
  }

  /** The walk fails exactly when neither the start nor any ancestor has a
      package.json. */
  lemma {:induction false} FindFails(has: string -> bool, pwd: string, prev: string)
    requires !(prev != "" && prev == pwd)
    ensures FindPackageJson(has, pwd, prev).Err? <==> forall k: nat :: !has(DirnameIter(pwd, k))
    decreases Height(pwd)
  {
    var r := FindPackageJson(has, pwd, prev);
    if has(pwd) {
      assert r.Ok?;
      SomeHas(has, pwd, 0);
    } else {
      var d := Dirname(pwd);
      DirnameShrinks(pwd);
      if d == pwd {
        forall k: nat ensures !has(DirnameIter(pwd, k)) { FixedIter(pwd, k); }
      } else {
        FindFails(has, d, pwd);
        if r.Err? {
          forall k: nat ensures !has(DirnameIter(pwd, k)) {
            if k > 0 { DirnameIterShift(pwd, k - 1); }
          }
        } else {
          FindNearest(has, d, pwd);
          assert r == FindPackageJson(has, d, pwd);
          var k: nat :| r.value == DirnameIter(d, k) && forall j: nat :: j < k ==> !has(DirnameIter(d, j));
          DirnameIterShift(pwd, k);
          SomeHas(has, pwd, k + 1);
        }
      }
    }
  }

  /** From the start: the start itself when it has a package.json, otherwise
      the nearest ancestor that has one. */
  lemma FindFromStart(has: string -> bool, pwd: string)
    ensures has(pwd) ==> Find(has, pwd) == Ok(pwd)
    ensures !has(pwd) && Dirname(pwd) != pwd ==> Find(has, pwd) == FindPackageJson(has, Dirname(pwd), pwd)
    ensures !has(pwd) && Dirname(pwd) == pwd ==> Find(has, pwd) == Err(RootReached)
  {
    DirnameShrinks(pwd);
  }
}
