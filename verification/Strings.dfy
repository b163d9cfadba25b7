/** JavaScript string primitives the tool relies on: `split` on one character,
    `join`, `indexOf`/`lastIndexOf`, `substr`, substring search, and the
    `split('/').filter(Boolean)` idiom that turns a path into its segments. */
module Strings {

  /** `s.split(c)` for a one-character separator: every piece, empty ones included. */
  function Split(s: string, c: char): (parts: seq<string>)
    ensures |parts| >= 1
    ensures forall i :: 0 <= i < |parts| ==> c !in parts[i]
  {
    if |s| == 0 then [""]
    else
      var rest := Split(s[1..], c);
      if s[0] == c then [""] + rest
      else [[s[0]] + rest[0]] + rest[1..]
  }

  /** `parts.join(sep)`. */
  function Join(parts: seq<string>, sep: string): string
  {
    if |parts| == 0 then ""
    else if |parts| == 1 then parts[0]
    else parts[0] + sep + Join(parts[1..], sep)
  }

  /** `parts.filter(Boolean)` on strings: the empty string is falsy. */
  function NonEmpty(parts: seq<string>): (r: seq<string>)
    ensures forall i :: 0 <= i < |r| ==> r[i] != "" && r[i] in parts
    ensures forall p :: p in parts && p != "" ==> p in r
    ensures |r| <= |parts|
  {
    if |parts| == 0 then []
    else if parts[0] == "" then NonEmpty(parts[1..])
    else [parts[0]] + NonEmpty(parts[1..])
  }

  /** `s.split('/').filter(Boolean)`: the non-empty segments of a path. */
  function Segments(s: string): (segs: seq<string>)
    ensures forall i :: 0 <= i < |segs| ==> segs[i] != "" && '/' !in segs[i]
  {
    NonEmpty(Split(s, '/'))
  }

  /** Pieces that can be joined with `c` and split back unchanged. */
  predicate Clean(parts: seq<string>, c: char)
  {
    forall i :: 0 <= i < |parts| ==> parts[i] != "" && c !in parts[i]
  }

  lemma {:induction false} JoinSplit(s: string, c: char)
    ensures Join(Split(s, c), [c]) == s
  {
    if |s| > 0 {
      JoinSplit(s[1..], c);
      var rest := Split(s[1..], c);
      if s[0] == c {
        assert Join([""] + rest, [c]) == "" + [c] + Join(rest, [c]);
      } else if |rest| == 1 {
        assert [s[0]] + s[1..] == s;
      } else {
        var head := [[s[0]] + rest[0]] + rest[1..];
        assert head[1..] == rest[1..];
        assert Join(rest, [c]) == rest[0] + [c] + Join(rest[1..], [c]);
        assert [s[0]] + s[1..] == s;
      }
    }
  }

  /** Splitting `a + t` where `a` holds no separator glues `a` onto the first piece of `t`. */
  lemma {:induction false} SplitPrefix(a: string, t: string, c: char)
    requires c !in a
    ensures Split(a + t, c) == [a + Split(t, c)[0]] + Split(t, c)[1..]
  {
    if |a| > 0 {
      SplitPrefix(a[1..], t, c);
      assert (a + t)[1..] == a[1..] + t;
      assert a[0] != c && (a + t)[0] == a[0];
      var s := Split(t, c);
      var r := Split(a[1..] + t, c);
      assert r[0] == a[1..] + s[0] && r[1..] == s[1..];
      assert Split(a + t, c) == [[a[0]] + r[0]] + r[1..];
      assert [a[0]] + (a[1..] + s[0]) == a + s[0];
    } else {
      assert a + t == t;
      assert a + Split(t, c)[0] == Split(t, c)[0];
    }
  }

  lemma {:induction false} SplitJoin(parts: seq<string>, c: char)
    requires |parts| >= 1
    requires forall i :: 0 <= i < |parts| ==> c !in parts[i]
    ensures Split(Join(parts, [c]), c) == parts
  {
    if |parts| == 1 {
      SplitPrefix(parts[0], "", c);
      assert parts[0] + "" == parts[0];
    } else {
      SplitJoin(parts[1..], c);
      var tail := [c] + Join(parts[1..], [c]);
      assert Join(parts, [c]) == parts[0] + tail;
      SplitPrefix(parts[0], tail, c);
      assert tail[1..] == Join(parts[1..], [c]);
      assert Split(tail, c) == [""] + parts[1..];
      assert parts[0] + "" == parts[0];
      assert [parts[0]] + parts[1..] == parts;
    }
  }

  lemma {:induction false} NonEmptyClean(parts: seq<string>)
    requires forall i :: 0 <= i < |parts| ==> parts[i] != ""
    ensures NonEmpty(parts) == parts
  {
    if |parts| > 0 {
      NonEmptyClean(parts[1..]);
      assert [parts[0]] + parts[1..] == parts;
    }
  }

  /** Joining clean segments with `/` and re-splitting them gives them back. */
  lemma SegmentsOfJoin(parts: seq<string>)
    requires Clean(parts, '/')
    ensures Segments(Join(parts, "/")) == parts
  {
    if |parts| == 0 {
      assert Split("", '/') == [""];
    } else {
      SplitJoin(parts, '/');
      NonEmptyClean(parts);
    }
  }

  lemma {:induction false} NonEmptyAppend(a: seq<string>, b: seq<string>)
    ensures NonEmpty(a + b) == NonEmpty(a) + NonEmpty(b)
  {
    if |a| > 0 {
      NonEmptyAppend(a[1..], b);
      assert (a + b)[1..] == a[1..] + b;
    } else {
      assert a + b == b;
    }
  }

  lemma {:induction false} SplitAround(a: string, b: string, c: char)
    ensures Split(a + [c] + b, c) == Split(a, c) + Split(b, c)
    decreases |a|
  {
    var w := a + [c] + b;
    if |a| == 0 {
      assert w[1..] == b;
    } else {
      assert w[0] == a[0] && w[1..] == a[1..] + [c] + b;
      SplitAround(a[1..], b, c);
      GlueFirst(a[0], c, Split(a[1..], c), Split(b, c));
    }
  }

  /** One step of `Split` over a concatenation of piece lists. */
  lemma GlueFirst(x: char, c: char, ra: seq<string>, sb: seq<string>)
    requires |ra| >= 1
    ensures x == c ==> [""] + (ra + sb) == ([""] + ra) + sb
    ensures x != c ==> [[x] + (ra + sb)[0]] + (ra + sb)[1..] == ([[x] + ra[0]] + ra[1..]) + sb
  {
    assert (ra + sb)[0] == ra[0];
    assert (ra + sb)[1..] == ra[1..] + sb;
  }

  /** The segments of `a + "/" + b` are those of `a` followed by those of `b`. */
  lemma SegmentsOfConcat(a: string, b: string)
    ensures Segments(a + "/" + b) == Segments(a) + Segments(b)
  {
    SplitAround(a, b, '/');
    NonEmptyAppend(Split(a, '/'), Split(b, '/'));
  }

  /** `s.indexOf(ch)`: the first position of `ch`, or -1. */
  function IndexOf(s: string, ch: char): (i: int)
    ensures -1 <= i < |s|
    ensures i == -1 <==> ch !in s
    ensures i >= 0 ==> s[i] == ch && forall k :: 0 <= k < i ==> s[k] != ch
  {
    IndexFrom(s, ch, 0)
  }

  function IndexFrom(s: string, ch: char, n: nat): (i: int)
    requires n <= |s|
    ensures i == -1 || n <= i < |s|
    ensures i == -1 <==> forall k :: n <= k < |s| ==> s[k] != ch
    ensures i >= 0 ==> s[i] == ch && forall k :: n <= k < i ==> s[k] != ch
    decreases |s| - n
  {
    if n == |s| then -1
    else if s[n] == ch then n
    else IndexFrom(s, ch, n + 1)
  }

  /** `s.lastIndexOf(ch)`: the last position of `ch`, or -1. */
  function LastIndexOf(s: string, ch: char): (i: int)
    ensures -1 <= i < |s|
    ensures i == -1 <==> ch !in s
    ensures i >= 0 ==> s[i] == ch && forall k :: i < k < |s| ==> s[k] != ch
  {
    LastIndexBelow(s, ch, |s|)
  }

  function LastIndexBelow(s: string, ch: char, n: nat): (i: int)
    requires n <= |s|
    ensures -1 <= i < n
    ensures i == -1 <==> forall k :: 0 <= k < n ==> s[k] != ch
    ensures i >= 0 ==> s[i] == ch && forall k :: i < k < n ==> s[k] != ch
  {
    if n == 0 then -1
    else if s[n - 1] == ch then n - 1
    else LastIndexBelow(s, ch, n - 1)
  }

  /** `s.substr(start, length)`: a negative start counts back from the end (and
      stops at 0), a start past the end gives "", the length is clipped to what
      is left and a negative length gives "". */
  function Substr(s: string, start: int, length: int): (r: string)
    ensures |r| <= |s|
    ensures 0 <= start && length >= 0 && start + length <= |s| ==> r == s[start..start + length]
  {
    var from := if start < 0 then (if |s| + start < 0 then 0 else |s| + start)
                else if start > |s| then |s| else start;
    var len := if length < 0 then 0 else length;
    var to := if from + len > |s| then |s| else from + len;
    s[from..to]
  }

  predicate StartsWith(s: string, prefix: string)
  {
    |prefix| <= |s| && s[..|prefix|] == prefix
  }

  predicate EndsWith(s: string, suffix: string)
  {
    |suffix| <= |s| && s[|s| - |suffix|..] == suffix
  }

  /** `s.includes(sub)`. */
  predicate Contains(s: string, sub: string)
    decreases |s|
  {
    StartsWith(s, sub) || (|s| > 0 && Contains(s[1..], sub))
  }
  /** A single clean segment splits back to itself. */
  lemma SegmentsOfSegment(s: string)
    requires s != "" && '/' !in s
    ensures Segments(s) == [s]
  {
    SplitPrefix(s, "", '/');
    assert Split("", '/') == [""];
    assert s + "" == s;
  }

  /** An occurrence of `m` in `a + [c] + b`, when `m` holds no `c`, lies inside
      `a` or inside `b`. */
  lemma {:induction false} ContainsAround(a: string, b: string, c: char, m: string)
    requires |m| > 0 && c !in m
    ensures Contains(a + [c] + b, m) ==> Contains(a, m) || Contains(b, m)
  {
    var w := a + [c] + b;
    if |a| == 0 {
      assert w == [c] + b && w[1..] == b;
      assert !StartsWith(w, m) by {
        if |m| <= |w| { assert w[..|m|][0] == c; }
      }
    } else {
      assert w[1..] == a[1..] + [c] + b;
      ContainsAround(a[1..], b, c, m);
      assert StartsWith(w, m) && |m| > |a| ==> w[|a|] == m[|a|];
      if StartsWith(w, m) && |m| <= |a| {
        assert a[..|m|] == w[..|m|];
      }
    }
  }

  /** Two pieces joined: the first, the separator, the second. */
  lemma JoinTwo(a: string, b: string, sep: string)
    ensures Join([a, b], sep) == a + sep + b
  {
    assert [a, b][1..] == [b];
  }

  /** An occurrence stays one when text is added around it. */
  lemma {:induction false} ContainsAfter(a: string, b: string, m: string)
    requires Contains(b, m)
    ensures Contains(a + b, m)
    decreases |a|
  {
    if |a| > 0 {
      assert (a + b)[1..] == a[1..] + b;
      ContainsAfter(a[1..], b, m);
    } else {
      assert a + b == b;
    }
  }

  lemma {:induction false} ContainsBefore(b: string, c: string, m: string)
    requires Contains(b, m)
    ensures Contains(b + c, m)
    decreases |b|
  {
    if StartsWith(b, m) {
      assert (b + c)[..|m|] == b[..|m|];
    } else {
      assert (b + c)[1..] == b[1..] + c;
      ContainsBefore(b[1..], c, m);
    }
  }

  lemma {:induction false} JoinContains(xs: seq<string>, sep: string, i: int)
    requires 0 <= i < |xs|
    ensures Contains(Join(xs, sep), xs[i])
    decreases |xs|
  {
    if i == 0 {
      var j := Join(xs, sep);
      if |xs| == 1 {
        assert j[..|xs[0]|] == xs[0];
      } else {
        assert j == xs[0] + (sep + Join(xs[1..], sep));
        assert j[..|xs[0]|] == xs[0];
      }
    } else {
      JoinContains(xs[1..], sep, i - 1);
      ContainsAfter(xs[0] + sep, Join(xs[1..], sep), xs[i]);
      assert Join(xs, sep) == xs[0] + sep + Join(xs[1..], sep);
    }
  }
}
