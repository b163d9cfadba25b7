/** The parts of Node's POSIX `path` module the tool uses: `resolve`,
    `relative` and `dirname`. A resolved path is kept as its list of
    normalised segments; the working directory (`process.cwd()`) is a
    parameter and is taken to be absolute. */
module PosixPath {
  import opened Strings

  /** Segments left after normalisation: no empty, `.` or `..` segment, no `/`. */
  predicate Normal(segs: seq<string>)
  {
    forall i :: 0 <= i < |segs| ==> segs[i] != "" && '/' !in segs[i] && segs[i] != "." && segs[i] != ".."
  }

  /** One step of `path.resolve`'s argument scan: an empty argument is skipped,
      an absolute one restarts the path, a relative one is appended. */
  function Step(cur: string, arg: string): string
  {
    if arg == "" then cur
    else if arg[0] == '/' then arg
    else cur + "/" + arg
  }

  function CombineFrom(cur: string, args: seq<string>): string
    decreases |args|
  {
    if |args| == 0 then cur else CombineFrom(Step(cur, args[0]), args[1..])
  }

  /** Normalisation with a stack: `.` is dropped, `..` pops (and is dropped at
      the root), anything else is pushed. */
  function NormFrom(stack: seq<string>, segs: seq<string>): seq<string>
    decreases |segs|
  {
    if |segs| == 0 then stack
    else if segs[0] == "." then NormFrom(stack, segs[1..])
    else if segs[0] == ".." then NormFrom(if |stack| > 0 then stack[..|stack| - 1] else stack, segs[1..])
    else NormFrom(stack + [segs[0]], segs[1..])
  }

  /** The segments of `path.resolve(...args)` run in `cwd`. */
  function ResolveSegs(cwd: string, args: seq<string>): (segs: seq<string>)
    ensures Normal(segs)
  {
    NormFromNormal([], Segments(CombineFrom(cwd, args)));
    NormFrom([], Segments(CombineFrom(cwd, args)))
  }

  /** `path.resolve(...args)` as a string: always absolute, no trailing slash. */
  function Resolve(cwd: string, args: seq<string>): (p: string)
    ensures |p| > 0 && p[0] == '/'
  {
    "/" + Join(ResolveSegs(cwd, args), "/")
  }

  function Repeat(s: string, n: nat): (r: seq<string>)
    ensures |r| == n && forall i :: 0 <= i < n ==> r[i] == s
  {
    if n == 0 then [] else [s] + Repeat(s, n - 1)
  }

  function CommonPrefix(a: seq<string>, b: seq<string>): (c: nat)
    ensures c <= |a| && c <= |b| && a[..c] == b[..c]
    ensures c < |a| && c < |b| ==> a[c] != b[c]
  {
    if |a| == 0 || |b| == 0 || a[0] != b[0] then 0
    else
      var c := CommonPrefix(a[1..], b[1..]);
      assert a[..c + 1] == [a[0]] + a[1..][..c];
      assert b[..c + 1] == [b[0]] + b[1..][..c];
      c + 1
  }

  /** `path.relative(from, to)`: "" when both resolve to the same path, else one
      `..` per segment of `from` past the common prefix, then the rest of `to`. */
  function Relative(cwd: string, from: string, to: string): string
  {
    var f := ResolveSegs(cwd, [from]);
    var t := ResolveSegs(cwd, [to]);
    if f == t then ""
    else
      var c := CommonPrefix(f, t);
      Join(Repeat("..", |f| - c) + t[c..], "/")
  }

  lemma {:induction false} NormFromNormal(stack: seq<string>, segs: seq<string>)
    requires Normal(stack)
    requires forall i :: 0 <= i < |segs| ==> segs[i] != "" && '/' !in segs[i]
    ensures Normal(NormFrom(stack, segs))
    decreases |segs|
  {
    if |segs| > 0 {
      if segs[0] == "." {
        NormFromNormal(stack, segs[1..]);
      } else if segs[0] == ".." {
        NormFromNormal(if |stack| > 0 then stack[..|stack| - 1] else stack, segs[1..]);
      } else {
        NormFromNormal(stack + [segs[0]], segs[1..]);
      }
    }
  }

  lemma {:induction false} NormFromAppend(stack: seq<string>, x: seq<string>, y: seq<string>)
    ensures NormFrom(stack, x + y) == NormFrom(NormFrom(stack, x), y)
    decreases |x|
  {
    if |x| == 0 {
      assert x + y == y;
    } else {
      assert (x + y)[0] == x[0] && (x + y)[1..] == x[1..] + y;
      if x[0] == "." {
        NormFromAppend(stack, x[1..], y);
      } else if x[0] == ".." {
        NormFromAppend(if |stack| > 0 then stack[..|stack| - 1] else stack, x[1..], y);
      } else {
        NormFromAppend(stack + [x[0]], x[1..], y);
      }
    }
  }

  lemma {:induction false} NormFromPops(stack: seq<string>, k: nat, rest: seq<string>)
    requires k <= |stack|
    ensures NormFrom(stack, Repeat("..", k) + rest) == NormFrom(stack[..|stack| - k], rest)
    decreases k
  {
    if k > 0 {
      var r := Repeat("..", k) + rest;
      assert r[0] == ".." && r[1..] == Repeat("..", k - 1) + rest;
      NormFromPops(stack[..|stack| - 1], k - 1, rest);
      assert stack[..|stack| - 1][..|stack| - 1 - (k - 1)] == stack[..|stack| - k];
    } else {
      assert Repeat("..", 0) + rest == rest;
      assert stack[..|stack| - 0] == stack;
    }
  }

  lemma {:induction false} NormFromNormalTail(stack: seq<string>, xs: seq<string>)
    requires Normal(xs)
    ensures NormFrom(stack, xs) == stack + xs
    decreases |xs|
  {
    if |xs| == 0 {
      assert stack + xs == stack;
    } else {
      NormFromNormalTail(stack + [xs[0]], xs[1..]);
      assert stack + [xs[0]] + xs[1..] == stack + xs;
    }
  }

  /** Resolving `from` and then the relative path from `from` to `to` lands on
      `to`: `path.resolve(from, path.relative(from, to)) == path.resolve(to)`. */
  lemma RelativeRoundTrip(cwd: string, from: string, to: string)
    ensures ResolveSegs(cwd, [from, Relative(cwd, from, to)]) == ResolveSegs(cwd, [to])
  {
    var f := ResolveSegs(cwd, [from]);
    var t := ResolveSegs(cwd, [to]);
    var cur := Step(cwd, from);
    assert CombineFrom(cwd, [from]) == cur;
    var rel := Relative(cwd, from, to);
    assert CombineFrom(cwd, [from, rel]) == Step(cur, rel) by {
      assert [from, rel][1..] == [rel];
      assert [rel][1..] == [];
      assert CombineFrom(cur, [rel]) == CombineFrom(Step(cur, rel), []);
    }
    if f != t {
      var c := CommonPrefix(f, t);
      var parts := Repeat("..", |f| - c) + t[c..];
      RelativeParts(f, t, c);
      SegmentsOfJoin(parts);
      JoinCleanNotEmpty(parts);
      assert Step(cur, rel) == cur + "/" + rel;
      SegmentsOfConcat(cur, rel);
      NormFromAppend([], Segments(cur), parts);
    }
  }

  /** The parts of a relative path climb from `f` to the common prefix and go
      down to `t`; normalising them from `f` gives `t`. */
  lemma RelativeParts(f: seq<string>, t: seq<string>, c: nat)
    requires Normal(t) && f != t
    requires c <= |f| && c <= |t| && f[..c] == t[..c]
    ensures var parts := Repeat("..", |f| - c) + t[c..];
            |parts| > 0 && Clean(parts, '/') && NormFrom(f, parts) == t
  {
    var parts := Repeat("..", |f| - c) + t[c..];
    assert (|f| == c && |t| == c) ==> f == t by {
      assert f[..|f|] == f && t[..|t|] == t;
    }
    assert forall i :: c <= i < |t| ==> t[c..][i - c] == t[i];
    NormFromPops(f, |f| - c, t[c..]);
    assert f[..|f| - (|f| - c)] == t[..c];
    NormFromNormalTail(t[..c], t[c..]);
    assert t[..c] + t[c..] == t;
  }

  lemma {:induction false} JoinCleanNotEmpty(parts: seq<string>)
    requires |parts| > 0 && Clean(parts, '/')
    ensures |Join(parts, "/")| > 0 && Join(parts, "/")[0] == parts[0][0] && Join(parts, "/")[0] != '/'
  {
    if |parts| > 1 {
      assert Join(parts, "/") == parts[0] + "/" + Join(parts[1..], "/");
    }
  }

  /** Two paths resolve to the same place exactly when `relative` between them is "". */
  lemma RelativeEmpty(cwd: string, from: string, to: string)
    ensures Relative(cwd, from, to) == "" <==> ResolveSegs(cwd, [from]) == ResolveSegs(cwd, [to])
  {
    var f := ResolveSegs(cwd, [from]);
    var t := ResolveSegs(cwd, [to]);
    if f != t {
      var c := CommonPrefix(f, t);
      var parts := Repeat("..", |f| - c) + t[c..];
      assert (|f| == c && |t| == c) ==> f == t by {
        assert f[..|f|] == f && t[..|t|] == t;
      }
      JoinCleanNotEmpty(parts);
    }
  }

  lemma {:induction false} CombineFromAppend(cur: string, args: seq<string>, x: string)
    ensures CombineFrom(cur, args + [x]) == Step(CombineFrom(cur, args), x)
    decreases |args|
  {
    if |args| == 0 {
      assert args + [x] == [x];
      assert [x][1..] == [];
    } else {
      assert (args + [x])[0] == args[0] && (args + [x])[1..] == args[1..] + [x];
      CombineFromAppend(Step(cur, args[0]), args[1..], x);
    }
  }

  /** The segments of a resolved path are its normalised segments. */
  lemma SegmentsOfResolved(segs: seq<string>)
    requires Normal(segs)
    ensures Segments("/" + Join(segs, "/")) == segs
  {
    SegmentsOfConcat("", Join(segs, "/"));
    assert Segments("") == [] by { assert Split("", '/') == [""]; }
    assert "" + "/" + Join(segs, "/") == "/" + Join(segs, "/");
    SegmentsOfJoin(segs);
  }

  /** Resolving a resolved path again changes nothing. */
  lemma ResolveSame(cwd: string, args: seq<string>)
    ensures ResolveSegs(cwd, [Resolve(cwd, args)]) == ResolveSegs(cwd, args)
  {
    var segs := ResolveSegs(cwd, args);
    var r := Resolve(cwd, args);
    assert CombineFrom(cwd, [r]) == CombineFrom(Step(cwd, r), []);
    SegmentsOfResolved(segs);
    NormFromNormalTail([], segs);
    assert [] + segs == segs;
  }

  /** Resolving `x` against an already resolved path is resolving it after the
      arguments that produced that path:
      `path.resolve(path.resolve(...args), x)` is `path.resolve(...args, x)`. */
  lemma ResolveThen(cwd: string, args: seq<string>, x: string)
    ensures ResolveSegs(cwd, [Resolve(cwd, args), x]) == ResolveSegs(cwd, args + [x])
  {
    var segs := ResolveSegs(cwd, args);
    var r := Resolve(cwd, args);
    var c := CombineFrom(cwd, args);
    CombineFromAppend(cwd, args, x);
    assert CombineFrom(cwd, [r, x]) == Step(r, x) by {
      CombineFromAppend(cwd, [r], x);
      assert [r] + [x] == [r, x];
      assert CombineFrom(cwd, [r]) == CombineFrom(Step(cwd, r), []);
    }
    SegmentsOfResolved(segs);
    NormFromNormalTail([], segs);
    assert [] + segs == segs;
    if x == "" {
    } else if x[0] == '/' {
    } else {
      SegmentsOfConcat(r, x);
      SegmentsOfConcat(c, x);
      NormFromAppend([], Segments(r), Segments(x));
      NormFromAppend([], Segments(c), Segments(x));
    }
  }

  /** Resolving a plain name after some arguments appends that name:
      `path.resolve(...args, x)` is `path.resolve(...args)` + `/x`. */
  lemma ResolveName(cwd: string, args: seq<string>, x: string)
    requires x != "" && '/' !in x && x != "." && x != ".."
    ensures ResolveSegs(cwd, args + [x]) == ResolveSegs(cwd, args) + [x]
  {
    var c := CombineFrom(cwd, args);
    CombineFromAppend(cwd, args, x);
    assert x[0] != '/' by { assert x[0] in x; }
    SegmentsOfConcat(c, x);
    SegmentsOfSegment(x);
    NormFromAppend([], Segments(c), [x]);
    NormFromNormalTail(NormFrom([], Segments(c)), [x]);
  }

  // ---------------------------------------------------------------------------
  // dirname

  /** Scans down from `i` for the slash that ends the parent part; -1 if none. */
  function DirEnd(p: string, i: int, matchedSlash: bool): (e: int)
    requires i < |p|
    ensures e == -1 || (1 <= e <= i && p[e] == '/')
    ensures e != -1 && matchedSlash ==> e < i
    decreases i
  {
    if i < 1 then -1
    else if p[i] == '/' then (if !matchedSlash then i else DirEnd(p, i - 1, matchedSlash))
    else DirEnd(p, i - 1, false)
  }

  /** `path.dirname(p)`: trailing slashes are ignored, a path without a parent
      part gives "/" (absolute) or "." (relative). */
  function Dirname(p: string): string
  {
    if |p| == 0 then "."
    else
      var end := DirEnd(p, |p| - 1, true);
      if end == -1 then (if p[0] == '/' then "/" else ".")
      else if p[0] == '/' && end == 1 then "//"
      else p[..end]
  }

  /** A measure that every `dirname` step away from a fixed point lowers. */
  function Height(p: string): nat
  {
    if |p| == 0 then 3
    else 2 * |p| + (if p == "." || p == "/" then 0 else 1)
  }

  /** `dirname` either stays put or strictly lowers the height, and it stays put
      exactly at "/" and ".". */
  lemma DirnameShrinks(p: string)
    ensures Dirname(p) == p <==> p == "/" || p == "."
    ensures Dirname(p) != p ==> Height(Dirname(p)) < Height(p)
  {
    if |p| > 0 {
      var end := DirEnd(p, |p| - 1, true);
      if end != -1 && !(p[0] == '/' && end == 1) {
        assert |Dirname(p)| == end < |p| - 1;
      }
    }
  }

  /** `dirname` applied `k` times. */
  function DirnameIter(p: string, k: nat): string
    decreases k
  {
    if k == 0 then p else DirnameIter(Dirname(p), k - 1)
  }

  lemma {:induction false} DirnameIterHeight(p: string, k: nat)
    ensures Height(DirnameIter(p, k)) <= Height(p)
    ensures k > 0 && Dirname(p) != p ==> Height(DirnameIter(p, k)) < Height(p)
    decreases k
  {
    if k > 0 {
      DirnameShrinks(p);
      DirnameIterHeight(Dirname(p), k - 1);
    }
  }

  lemma {:induction false} DirnameIterShift(p: string, k: nat)
    ensures DirnameIter(Dirname(p), k) == DirnameIter(p, k + 1)
    decreases k
  {
  }

  /** `dirname` applied `a` times and then `b` times is applied `a + b` times. */
  lemma {:induction false} DirnameIterAdd(p: string, a: nat, b: nat)
    ensures DirnameIter(DirnameIter(p, a), b) == DirnameIter(p, a + b)
    decreases a
  {
    if a > 0 {
      DirnameIterAdd(Dirname(p), a - 1, b);
    }
  }
}
