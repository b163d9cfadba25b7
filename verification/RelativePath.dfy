/** `normalizePath` of packages/utils/src/path.ts: a path relative to the
    repository root (optionally re-expressed relative to a package root)
    that always reads as a relative specifier, i.e. starts with `.`. */
module RelativePath {
  import opened Strings
  import opened PosixPath

  /** The `./` prefix is added whenever the relative path does not already
      start with `.`; `pkgRootPath` is optional ("" stands for absent, both
      being falsy). */
  function NormalizePath(cwd: string, rootPath: string, pathToResolve: string, pkgRootPath: string): (r: string)
    ensures |r| > 0 && r[0] == '.'
  {
    var basePath := Relative(cwd, rootPath, pathToResolve);
    var newPath := if pkgRootPath != "" then Relative(cwd, pkgRootPath, basePath) else basePath;
    if |newPath| == 0 || newPath[0] != '.' then "./" + newPath else newPath
  }

  /** The path `NormalizePath` prefixes: relative from the root, then (when a
      package root is given) relative from the package root to that result. */
  function Unprefixed(cwd: string, rootPath: string, pathToResolve: string, pkgRootPath: string): string
  {
    var basePath := Relative(cwd, rootPath, pathToResolve);
    if pkgRootPath != "" then Relative(cwd, pkgRootPath, basePath) else basePath
  }

  /** Either the relative path came back as it was (it already started with
      `.`, as `..` paths and bare names such as `.hidden` do), or it got `./`
      in front. */
  lemma NormalizePathPrefix(cwd: string, rootPath: string, pathToResolve: string, pkgRootPath: string)
    ensures var u := Unprefixed(cwd, rootPath, pathToResolve, pkgRootPath);
            var r := NormalizePath(cwd, rootPath, pathToResolve, pkgRootPath);
            (|u| > 0 && u[0] == '.' ==> r == u) && (|u| == 0 || u[0] != '.' ==> r == "./" + u)
  {
  }

  /** Identical root and target give "./". */
  lemma NormalizePathSame(cwd: string, rootPath: string, pathToResolve: string)
    requires ResolveSegs(cwd, [rootPath]) == ResolveSegs(cwd, [pathToResolve])
    ensures NormalizePath(cwd, rootPath, pathToResolve, "") == "./"
  {
    RelativeEmpty(cwd, rootPath, pathToResolve);
  }

  /** `relative` never yields a path starting with `/`. */
  lemma RelativeNotAbsolute(cwd: string, from: string, to: string)
    ensures var r := Relative(cwd, from, to); |r| == 0 || r[0] != '/'
  {
    var f := ResolveSegs(cwd, [from]);
    var t := ResolveSegs(cwd, [to]);
    if f != t {
      var c := CommonPrefix(f, t);
      var parts := Repeat("..", |f| - c) + t[c..];
      assert (|f| == c && |t| == c) ==> f == t by {
        assert f[..|f|] == f && t[..|t|] == t;
      }
      JoinCleanNotEmpty(parts);
    }
  }

  /** Putting `./` in front of a relative argument does not change where `resolve` lands. */
  lemma DotSlashSameTarget(cwd: string, base: string, x: string)
    requires |x| == 0 || x[0] != '/'
    ensures ResolveSegs(cwd, [base, "./" + x]) == ResolveSegs(cwd, [base, x])
  {
    var cur := Step(cwd, base);
    assert CombineFrom(cwd, [base, "./" + x]) == Step(cur, "./" + x) by {
      assert [base, "./" + x][1..] == ["./" + x];
      assert ["./" + x][1..] == [];
      assert CombineFrom(cur, ["./" + x]) == CombineFrom(Step(cur, "./" + x), []);
    }
    assert CombineFrom(cwd, [base, x]) == Step(cur, x) by {
      assert [base, x][1..] == [x];
      assert [x][1..] == [];
      assert CombineFrom(cur, [x]) == CombineFrom(Step(cur, x), []);
    }
    assert Step(cur, "./" + x) == cur + "/" + ("." + "/" + x);
    SegmentsOfConcat(cur, "." + "/" + x);
    SegmentsOfConcat(".", x);
    assert Segments(".") == ["."] by {
      assert "."[1..] == "";
      var e := Split("", '/');
      assert e == [""];
      assert e[0] == "" && e[1..] == [];
      assert ['.'] + "" == ".";
      assert Split(".", '/') == [['.'] + e[0]] + e[1..];
      assert Split(".", '/') == ["."];
      assert NonEmpty(["."]) == ["."] + NonEmpty(["."][1..]);
      assert ["."][1..] == [];
    }
    var s := Segments(cur);
    NormFromAppend([], s, ["."] + Segments(x));
    NormFromAppend(NormFrom([], s), ["."], Segments(x));
    if x == "" {
      assert Segments("") == [] by { assert Split("", '/') == [""]; }
      assert s + [] == s;
      assert Segments(cur + "/" + ("." + "/" + x)) == s + (["."] + []);
      NormFromAppend([], s, ["."]);
    } else {
      SegmentsOfConcat(cur, x);
      NormFromAppend([], s, Segments(x));
    }
  }

  /** Without a package root, resolving the result against the root lands on
      the path that was normalised. */
  lemma NormalizePathResolves(cwd: string, rootPath: string, pathToResolve: string)
    ensures ResolveSegs(cwd, [rootPath, NormalizePath(cwd, rootPath, pathToResolve, "")])
         == ResolveSegs(cwd, [pathToResolve])
  {
    var u := Relative(cwd, rootPath, pathToResolve);
    RelativeRoundTrip(cwd, rootPath, pathToResolve);
    if |u| == 0 || u[0] != '.' {
      RelativeNotAbsolute(cwd, rootPath, pathToResolve);
      DotSlashSameTarget(cwd, rootPath, u);
    }
  }

  /** With a package root, the result is relative from the package root to the
      intermediate root-relative path — which `relative` resolves against the
      working directory, not against the root. */
  lemma NormalizePathFromPackage(cwd: string, rootPath: string, pathToResolve: string, pkgRootPath: string)
    requires pkgRootPath != ""
    ensures ResolveSegs(cwd, [pkgRootPath, NormalizePath(cwd, rootPath, pathToResolve, pkgRootPath)])
         == ResolveSegs(cwd, [Relative(cwd, rootPath, pathToResolve)])
  {
    var basePath := Relative(cwd, rootPath, pathToResolve);
    var u := Relative(cwd, pkgRootPath, basePath);
    RelativeRoundTrip(cwd, pkgRootPath, basePath);
    if |u| == 0 || u[0] != '.' {
      RelativeNotAbsolute(cwd, pkgRootPath, basePath);
      DotSlashSameTarget(cwd, pkgRootPath, u);
    }
  }
}
