/** The workspace root finder of packages/utils/src/package/workspace.ts: from
    a start directory, climb through the directories that hold a package.json
    until one declares workspaces whose globs match the way back down to the
    start. Reading a package.json, glob matching (`micromatch.isMatch`) and
    the package.json test are parameters. */
module WorkspaceRoot {
  import opened Wrappers
  import opened Lists
  import opened PosixPath
  import opened Json
  import opened PackageFiles

  /** The outside world: `path.relative`'s working directory, the parsed
      package.json of a directory, glob matching, and `hasPackageJson`. */
  datatype Env = Env(
    cwd: string,
    descriptor: string -> Json,
    isMatch: (string, seq<string>) -> bool,
    has: string -> bool)

  const GlobSuffix: string := "/**/*"

  /** `hasWorkspaces`: the descriptor (None for `undefined`) has a truthy
      `workspaces` property. */
  predicate HasWorkspaces(json: Option<Json>): (r: bool)
    ensures r <==> json.Some? && json.value.JObj? && Field(json.value, "workspaces").Some?
                   && Truthy(Field(json.value, "workspaces").value)
  {
    var obj := if json.Some? && Truthy(json.value) then json.value else JObj([]);
    var ws := Field(obj, "workspaces");
    ws.Some? && Truthy(ws.value)
  }

  /** `extractWorkspaces` on a descriptor that has workspaces: an array as it
      is, any other value as the only element. */
  function ExtractWorkspaces(json: Json): (r: seq<Json>)
    requires HasWorkspaces(Some(json))
    ensures Field(json, "workspaces").value.JArr? ==> r == Field(json, "workspaces").value.items
    ensures !Field(json, "workspaces").value.JArr? ==> r == [Field(json, "workspaces").value]
  {
    var ws := Field(json, "workspaces").value;
    if ws.JArr? then ws.items else [ws]
  }

  /** The globs matched against: each workspace entry as text, with `/**/*`
      appended. */
  function Patterns(ws: seq<Json>): (ps: seq<string>)
    ensures |ps| == |ws|
    ensures forall i :: 0 <= i < |ws| ==> ps[i] == Text(ws[i]) + GlobSuffix
  {
    Map(ws, (it: Json) => Text(it) + GlobSuffix)
  }

  /** `isRoot`: false without workspaces; otherwise whether the path from the
      directory matches one of its workspace globs. */
  function IsRoot(env: Env, pwd: string, relative: string): (r: bool)
    ensures r <==> HasWorkspaces(Some(env.descriptor(pwd)))
                   && env.isMatch(relative, Patterns(ExtractWorkspaces(env.descriptor(pwd))))
  {
    var pkg := env.descriptor(pwd);
    if !HasWorkspaces(Some(pkg)) then false
    else env.isMatch(relative, Patterns(ExtractWorkspaces(pkg)))
  }

  /** The candidate test of the loop: the relative path is always from the
      candidate to the original start. */
  predicate Accepts(env: Env, root: string, pwd: string)
  {
    IsRoot(env, pwd, Relative(env.cwd, pwd, root))
  }

  lemma {:induction false} FoundNoHigher(has: string -> bool, pwd: string, prev: string)
    ensures var r := FindPackageJson(has, pwd, prev);
            r.Ok? ==> Height(r.value) <= Height(pwd)
    decreases Height(pwd), if prev != "" && prev == pwd then 0 else 1
  {
    if !(prev != "" && prev == pwd) && !has(pwd) {
      DirnameShrinks(pwd);
      FoundNoHigher(has, Dirname(pwd), pwd);
    }
  }

  /** The climb from a candidate, with the loop stopping where `dirname` does:
      a rejected candidate is replaced by the nearest directory strictly above
      it that has a package.json. */
  function Climb(env: Env, root: string, pwd: string): (r: Result<string>)
    decreases Height(pwd)
  {
    if Accepts(env, root, pwd) then Ok(pwd)
    else if Dirname(pwd) == pwd then Err(RootReached)
    else
      var next := Find(env.has, Dirname(pwd));
      if next.Err? then Err(next.msg)
      else
        DirnameShrinks(pwd);
        FoundNoHigher(env.has, Dirname(pwd), "");
        Climb(env, root, next.value)
  }

  /** `find`, the first candidate being the nearest package.json directory at
      or above the start. */
  function FindRoot(env: Env, root: string): Result<string>
  {
    var first := Find(env.has, root);
    if first.Err? then Err(first.msg) else Climb(env, root, first.value)
  }

  /** `find`'s loop. */
  method FindWorkspaceRoot(env: Env, root: string) returns (r: Result<string>)
    ensures r == FindRoot(env, root)
  {
    var first := Find(env.has, root);
    if first.Err? {
      return Err(first.msg);
    }
    var pwd := first.value;
    while !Accepts(env, root, pwd)
      invariant Climb(env, root, pwd) == FindRoot(env, root)
      decreases Height(pwd)
    {
      if Dirname(pwd) == pwd {
        return Err(RootReached);
      }
      var next := Find(env.has, Dirname(pwd));
      if next.Err? {
        return Err(next.msg);
      }
      DirnameShrinks(pwd);
      FoundNoHigher(env.has, Dirname(pwd), "");
      pwd := next.value;
    }
    return Ok(pwd);
  }

  // ---------------------------------------------------------------------------
  // Properties

  /** A climb ends on an accepted candidate, `dirname` applied some number of
      times to where it started, holding a package.json if the start did; it
      fails only with the root-reached error. */
  lemma ClimbResult(env: Env, root: string, pwd: string)
    ensures var r := Climb(env, root, pwd);
            (r.Ok? ==> Accepts(env, root, r.value)
                       && (exists k: nat :: r.value == DirnameIter(pwd, k))
                       && (env.has(pwd) ==> env.has(r.value)))
            && (r.Err? ==> r.msg == RootReached)
  {
    ClimbAccepted(env, root, pwd);
    ClimbAncestor(env, root, pwd);
  }

  /** A climb ends on an accepted candidate that holds a package.json if the
      start did, or fails with the root-reached error. */
  lemma {:induction false} ClimbAccepted(env: Env, root: string, pwd: string)
    ensures var r := Climb(env, root, pwd);
            (r.Ok? ==> Accepts(env, root, r.value) && (env.has(pwd) ==> env.has(r.value)))
            && (r.Err? ==> r.msg == RootReached)
    decreases Height(pwd)
  {
    if !Accepts(env, root, pwd) && Dirname(pwd) != pwd {
      var next := Find(env.has, Dirname(pwd));
      FindErrorMessage(env.has, Dirname(pwd), "");
      if next.Ok? {
        DirnameShrinks(pwd);
        FoundNoHigher(env.has, Dirname(pwd), "");
        ClimbAccepted(env, root, next.value);
        assert env.has(next.value);
      }
    }
  }

  /** A climb that succeeds ends `dirname` applied some number of times to
      where it started. */
  lemma {:induction false} ClimbAncestor(env: Env, root: string, pwd: string)
    ensures var r := Climb(env, root, pwd);
            r.Ok? ==> exists k: nat :: r.value == DirnameIter(pwd, k)
    decreases Height(pwd)
  {
    var r := Climb(env, root, pwd);
    if !Accepts(env, root, pwd) && Dirname(pwd) != pwd {
      var next := Find(env.has, Dirname(pwd));
      if next.Ok? {
        DirnameShrinks(pwd);
        FoundNoHigher(env.has, Dirname(pwd), "");
        ClimbAncestor(env, root, next.value);
        FindIsAncestor(env.has, Dirname(pwd));
        if r.Ok? {
          assert r == Climb(env, root, next.value);
          AncestorChain(pwd, next.value, r.value);
        }
      }
    } else if r.Ok? {
      assert r.value == pwd;
      Ancestor(pwd, pwd, 0);
    }
  }

  lemma Ancestor(x: string, pwd: string, k: nat)
    requires x == DirnameIter(pwd, k)
    ensures exists k: nat :: x == DirnameIter(pwd, k)
  {
  }

  lemma FindIsAncestor(has: string -> bool, d: string)
    ensures Find(has, d).Ok? ==> exists k: nat :: Find(has, d).value == DirnameIter(d, k)
  {
    FindNearest(has, d, "");
  }

  /** An ancestor of an ancestor of the parent is an ancestor. */
  lemma AncestorChain(pwd: string, a: string, b: string)
    requires exists k: nat :: a == DirnameIter(Dirname(pwd), k)
    requires exists m: nat :: b == DirnameIter(a, m)
    ensures exists n: nat :: b == DirnameIter(pwd, n)
  {
    var k: nat :| a == DirnameIter(Dirname(pwd), k);
    var m: nat :| b == DirnameIter(a, m);
    DirnameIterAdd(Dirname(pwd), k, m);
    DirnameIterShift(pwd, k + m);
    Ancestor(b, pwd, k + m + 1);
  }

  lemma {:induction false} FindErrorMessage(has: string -> bool, pwd: string, prev: string)
    ensures var r := FindPackageJson(has, pwd, prev);
            r.Err? ==> r.msg == RootReached
    decreases Height(pwd), if prev != "" && prev == pwd then 0 else 1
  {
    if !(prev != "" && prev == pwd) && !has(pwd) {
      DirnameShrinks(pwd);
      FindErrorMessage(has, Dirname(pwd), pwd);
    }
  }

  /** The directory has a package.json and is accepted as the root for the
      path back down to the start. */
  predicate Good(env: Env, root: string, d: string)
  {
    env.has(d) && Accepts(env, root, d)
  }

  /** `found` is `dirname` applied `k` times to the start, is a good
      directory, and no directory nearer to the start is. */
  ghost predicate NearestGood(env: Env, root: string, found: string)
  {
    exists k: nat :: found == DirnameIter(root, k) && Good(env, root, found)
                     && forall j: nat :: j < k ==> !Good(env, root, DirnameIter(root, j))
  }

  /** `find` returns the nearest directory at or above the start that has a
      package.json and is accepted as the root; it fails, with the
      root-reached error, exactly when no such directory exists. */
  lemma FindRootResult(env: Env, root: string)
    ensures var r := FindRoot(env, root);
            (r.Ok? ==> NearestGood(env, root, r.value))
            && (r.Err? <==> forall k: nat :: !Good(env, root, DirnameIter(root, k)))
            && (r.Err? ==> r.msg == RootReached)
  {
    var first := Find(env.has, root);
    var r := FindRoot(env, root);
    FindErrorMessage(env.has, root, "");
    FindFails(env.has, root, "");
    if first.Ok? {
      FindNearest(env.has, root, "");
      var k0: nat :| first.value == DirnameIter(root, k0)
                     && forall j: nat :: j < k0 ==> !env.has(DirnameIter(root, j));
      ClimbNearest(env, root, first.value, k0);
      ClimbAccepted(env, root, first.value);
      if r.Ok? {
        var k: nat :| r.value == DirnameIter(root, k) && Good(env, root, r.value);
        SomeGood(env, root, k);
      }
    }
  }

  lemma SomeGood(env: Env, root: string, k: nat)
    requires Good(env, root, DirnameIter(root, k))
    ensures !forall k: nat :: !Good(env, root, DirnameIter(root, k))
  {
  }

  /** A climb from the `k0`-th directory above the start, none nearer being
      good, ends on the nearest good directory, or fails when there is none. */
  lemma {:induction false} ClimbNearest(env: Env, root: string, pwd: string, k0: nat)
    requires pwd == DirnameIter(root, k0) && env.has(pwd)
    requires forall j: nat :: j < k0 ==> !Good(env, root, DirnameIter(root, j))
    ensures Climb(env, root, pwd).Ok? ==> NearestGood(env, root, Climb(env, root, pwd).value)
    ensures Climb(env, root, pwd).Err? ==> forall k: nat :: !Good(env, root, DirnameIter(root, k))
    decreases Height(pwd)
  {
    var d := Dirname(pwd);
    if Accepts(env, root, pwd) {
      assert Good(env, root, pwd);
    } else if d == pwd {
      FixedNoneGood(env, root, k0);
    } else {
      var next := Find(env.has, d);
      FindFails(env.has, d, "");
      if next.Err? {
        NoneAboveGood(env, root, k0);
      } else {
        FindNearest(env.has, d, "");
        var m: nat :| next.value == DirnameIter(d, m)
                      && forall j: nat :: j < m ==> !env.has(DirnameIter(d, j));
        SkipNotGood(env, root, k0, m);
        DirnameShrinks(pwd);
        FoundNoHigher(env.has, d, "");
        assert Climb(env, root, pwd) == Climb(env, root, next.value);
        ClimbNearest(env, root, next.value, k0 + 1 + m);
      }
    }
  }

  /** A rejected directory that is its own parent ends the search: nothing
      at or above the start is good. */
  lemma FixedNoneGood(env: Env, root: string, k0: nat)
    requires !Accepts(env, root, DirnameIter(root, k0))
    requires Dirname(DirnameIter(root, k0)) == DirnameIter(root, k0)
    requires forall j: nat :: j < k0 ==> !Good(env, root, DirnameIter(root, j))
    ensures forall k: nat :: !Good(env, root, DirnameIter(root, k))
  {
    forall k: nat ensures !Good(env, root, DirnameIter(root, k)) {
      if k >= k0 { AboveFixed(root, k0, k); }
    }
  }

  /** A rejected directory with no package.json above it ends the search:
      nothing at or above the start is good. */
  lemma NoneAboveGood(env: Env, root: string, k0: nat)
    requires !Accepts(env, root, DirnameIter(root, k0))
    requires forall m: nat :: !env.has(DirnameIter(Dirname(DirnameIter(root, k0)), m))
    requires forall j: nat :: j < k0 ==> !Good(env, root, DirnameIter(root, j))
    ensures forall k: nat :: !Good(env, root, DirnameIter(root, k))
  {
    forall k: nat ensures !Good(env, root, DirnameIter(root, k)) {
      if k > k0 { AboveParent(root, k0, k); }
    }
  }

  /** Skipping from a rejected directory to the nearest package.json above it
      passes no good directory. */
  lemma SkipNotGood(env: Env, root: string, k0: nat, m: nat)
    requires !Accepts(env, root, DirnameIter(root, k0))
    requires forall j: nat :: j < m ==> !env.has(DirnameIter(Dirname(DirnameIter(root, k0)), j))
    requires forall j: nat :: j < k0 ==> !Good(env, root, DirnameIter(root, j))
    ensures DirnameIter(Dirname(DirnameIter(root, k0)), m) == DirnameIter(root, k0 + 1 + m)
    ensures forall j: nat :: j < k0 + 1 + m ==> !Good(env, root, DirnameIter(root, j))
  {
    var ok := (d: string) => Accepts(env, root, d);
    SkipGen(env.has, ok, root, k0, m);
  }

  /** The same, for any acceptance test `ok`. */
  lemma SkipGen(has: string -> bool, ok: string -> bool, root: string, k0: nat, m: nat)
    requires !ok(DirnameIter(root, k0))
    requires forall j: nat :: j < m ==> !has(DirnameIter(Dirname(DirnameIter(root, k0)), j))
    requires forall j: nat :: j < k0 ==> !(has(DirnameIter(root, j)) && ok(DirnameIter(root, j)))
    ensures DirnameIter(Dirname(DirnameIter(root, k0)), m) == DirnameIter(root, k0 + 1 + m)
    ensures forall j: nat :: j < k0 + 1 + m ==> !(has(DirnameIter(root, j)) && ok(DirnameIter(root, j)))
  {
    AboveParent(root, k0, k0 + 1 + m);
    forall j: nat | k0 < j < k0 + 1 + m ensures !has(DirnameIter(root, j)) {
      AboveParent(root, k0, j);
    }
  }
  /** Past a directory that is its own parent, `dirname` stays there. */
  lemma AboveFixed(root: string, k0: nat, k: nat)
    requires k0 <= k && Dirname(DirnameIter(root, k0)) == DirnameIter(root, k0)
    ensures DirnameIter(root, k) == DirnameIter(root, k0)
  {
    DirnameIterAdd(root, k0, k - k0);
    FixedIter(DirnameIter(root, k0), k - k0);
  }

  /** The directories past the `k0`-th are those above its parent. */
  lemma AboveParent(root: string, k0: nat, k: nat)
    requires k0 < k
    ensures DirnameIter(root, k) == DirnameIter(Dirname(DirnameIter(root, k0)), k - k0 - 1)
  {
    DirnameIterAdd(root, k0, k - k0);
    DirnameIterShift(DirnameIter(root, k0), k - k0 - 1);
  }

  /** When the nearest package.json directory is already accepted, it is the
      result. */
  lemma FirstCandidate(env: Env, root: string, p: string)
    requires Find(env.has, root) == Ok(p) && Accepts(env, root, p)
    ensures FindRoot(env, root) == Ok(p)
  {
  }

  // ---------------------------------------------------------------------------
  // The loop as written

  /** The loop body as written: the next candidate is searched from the
      parent directory without remembering where the search came from. */
  function AsWrittenStep(env: Env, pwd: string): Result<string>
  {
    Find(env.has, Dirname(pwd))
  }

  /** At a directory that is its own parent ("/" or "."), holds a package.json
      and is not accepted, the body as written gives the same directory back,
      so the loop condition never changes and the loop does not end. */
  lemma AsWrittenLoopRepeats(env: Env, root: string, p: string)
    requires env.has(p) && Dirname(p) == p && !Accepts(env, root, p)
    ensures AsWrittenStep(env, p) == Ok(p)
    ensures p == "/" || p == "."
  {
    DirnameShrinks(p);
  }
}
