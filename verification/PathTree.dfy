/** `pathToTree` and `pathsToTree` of packages/utils/src/tree.ts: a
    `/`-separated path becomes a one-branch tree under a `<root>` sentinel, and
    many such trees are folded together with a deep merge.

    The deep merge is a library the repository does not ship; it is modelled by
    the assumed law: two objects merge key by key (a key already present keeps
    its place and its value is merged recursively, a new key is appended), and
    any other value from the later argument replaces the earlier one. A tree
    node is an object with the keys `path` and `children`, so two nodes merge
    into a node with the later path and merged children, and anything merged
    with a string leaf (or a leaf merged with a node) is the later value. */
module PathTree {
  import opened Wrappers
  import opened Strings

  /** A node `{path, children}` or a leaf child, which is a bare path string.
      Children are kept as a key/child list in the object's key order. */
  datatype Tree = Leaf(path: string) | Node(path: string, children: seq<Entry>)
  datatype Entry = Entry(key: string, child: Tree)

  /** `rootString`. */
  const RootString: string := "<root>"

  /** `.replace(new RegExp('<root>/?'), '')`: the leftmost `<root>`, with the
      slash right after it if there is one, is removed. */
  function StripRoot(s: string): string
    decreases |s|
  {
    if StartsWith(s, RootString) then
      var t := s[|RootString|..];
      if |t| > 0 && t[0] == '/' then t[1..] else t
    else if |s| == 0 then ""
    else [s[0]] + StripRoot(s[1..])
  }

  /** `pathToTree(input, prev)`; `prev` is optional ("" stands for absent, both
      being falsy). A path with fewer than two non-empty segments gives
      `undefined`; otherwise the node has exactly one child, keyed by the
      second segment. */
  function PathToTree(input: string, prev: string): (r: Option<Tree>)
    ensures r.Some? <==> |Segments(input)| >= 2
    ensures r.Some? ==> r.value.Node? && |r.value.children| == 1
                        && r.value.children[0].key == Segments(input)[1]
    decreases |Segments(input)|
  {
    var segs := Segments(input);
    if |segs| < 2 then None
    else
      var current := segs[0];
      var rest := segs[1..];
      var currentPath := StripRoot(Join(NonEmpty([prev, current]), "/"));
      if |rest| == 1 then
        Some(Node(currentPath, [Entry(rest[0], Leaf(Join(NonEmpty([currentPath, rest[0]]), "/")))]))
      else
        SegmentsOfJoin(rest);
        Some(Node(currentPath, [Entry(rest[0], PathToTree(Join(rest, "/"), currentPath).value)]))
  }

  // ---------------------------------------------------------------------------
  // The assumed deep merge

  function Merge(a: Tree, b: Tree): Tree
    decreases b, 0
  {
    if a.Node? && b.Node? then Node(b.path, MergeChildren(a.children, b.children)) else b
  }

  /** Merges the later children into the earlier ones, key by key in order. */
  function MergeChildren(ca: seq<Entry>, cb: seq<Entry>): seq<Entry>
    decreases cb, 0
  {
    if |cb| == 0 then ca else MergeChildren(Upsert(ca, cb[0]), cb[1..])
  }

  /** Assigns one key: merged in place when present, appended otherwise. */
  function Upsert(cs: seq<Entry>, e: Entry): seq<Entry>
    decreases e, |cs|
  {
    if |cs| == 0 then [e]
    else if cs[0].key == e.key then [Entry(e.key, Merge(cs[0].child, e.child))] + cs[1..]
    else [cs[0]] + Upsert(cs[1..], e)
  }

  /** `merge(prev, it)` where `prev` may still be the reduce's initial `{}`,
      which merges into a copy of `it`. */
  function MergeInto(prev: Option<Tree>, it: Tree): Tree
  {
    if prev.None? then it else Merge(prev.value, it)
  }

  /** The one-branch trees `pathsToTree` builds, one per input path. */
  function PathTrees(paths: seq<string>): (ts: seq<Tree>)
    requires forall i :: 0 <= i < |paths| ==> |Segments(paths[i])| >= 1
    ensures |ts| == |paths|
  {
    if |paths| == 0 then []
    else PathTrees(paths[..|paths| - 1]) + [RootTree(paths[|paths| - 1])]
  }

  /** `pathToTree(`${rootString}/${child}`)`, which exists for every path with a segment. */
  function RootTree(p: string): Tree
    requires |Segments(p)| >= 1
  {
    RootSegments(p);
    PathToTree(RootString + "/" + p, "").value
  }

  /** `pathsToTree(input)`: `None` is the reduce's initial `{}`, returned for no input. */
  function PathsToTree(paths: seq<string>): (r: Option<Tree>)
    requires forall i :: 0 <= i < |paths| ==> |Segments(paths[i])| >= 1
    ensures r.None? <==> |paths| == 0
  {
    if |paths| == 0 then None
    else Some(MergeInto(PathsToTree(paths[..|paths| - 1]), RootTree(paths[|paths| - 1])))
  }

  // ---------------------------------------------------------------------------
  // Reading a tree by key sequences

  /** The child under key `k`: the first entry with that key. */
  function ChildIn(cs: seq<Entry>, k: string): Option<Tree>
  {
    if |cs| == 0 then None
    else if cs[0].key == k then Some(cs[0].child)
    else ChildIn(cs[1..], k)
  }

  /** The node or leaf reached from `t` by following the keys `ks`. */
  function Lookup(t: Tree, ks: seq<string>): Option<Tree>
    decreases |ks|
  {
    if |ks| == 0 then Some(t)
    else if t.Leaf? then None
    else
      var c := ChildIn(t.children, ks[0]);
      if c.None? then None else Lookup(c.value, ks[1..])
  }

  predicate IsPrefix(ks: seq<string>, segs: seq<string>)
  {
    |ks| <= |segs| && segs[..|ks|] == ks
  }

  predicate StrictPrefix(ks: seq<string>, segs: seq<string>)
  {
    |ks| < |segs| && segs[..|ks|] == ks
  }

  function KeysOf(cs: seq<Entry>): set<string>
  {
    if |cs| == 0 then {} else {cs[0].key} + KeysOf(cs[1..])
  }

  predicate KeysDistinct(cs: seq<Entry>)
  {
    |cs| == 0 || (cs[0].key !in KeysOf(cs[1..]) && KeysDistinct(cs[1..]))
  }

  /** No two children of any node share a key. */
  predicate Distinct(t: Tree)
  {
    t.Node? ==> KeysDistinct(t.children) && AllDistinct(t.children)
  }

  predicate AllDistinct(cs: seq<Entry>)
  {
    |cs| == 0 || (Distinct(cs[0].child) && AllDistinct(cs[1..]))
  }

  /** Every node and leaf carries the path spelled by the keys leading to it. */
  ghost predicate Labeled(t: Tree)
  {
    forall ks :: Lookup(t, ks).Some? ==> Lookup(t, ks).value.path == Join(ks, "/")
  }

  predicate MarkerFree(s: string)
  {
    !Contains(s, RootString)
  }

  /** No leaf of `b` sits strictly above `ks`. */
  predicate NoLeafAbove(b: Tree, ks: seq<string>)
  {
    forall j :: 0 <= j < |ks| ==> !(Lookup(b, ks[..j]).Some? && Lookup(b, ks[..j]).value.Leaf?)
  }

  // ---------------------------------------------------------------------------
  // Single paths

  lemma {:induction false} StripRootAbsent(s: string)
    requires MarkerFree(s)
    ensures StripRoot(s) == s
    decreases |s|
  {
    if |s| > 0 {
      StripRootAbsent(s[1..]);
      assert [s[0]] + s[1..] == s;
    }
  }

  lemma RootSegments(p: string)
    ensures Segments(RootString + "/" + p) == [RootString] + Segments(p)
  {
    SegmentsOfConcat(RootString, p);
    SegmentsOfSegment(RootString);
  }

  /** The path accumulated at a node: the parent's path, a slash and the segment. */
  lemma CurrentPath(prev: string, current: string)
    requires current != "" && MarkerFree(prev) && MarkerFree(current)
    ensures var cp := if prev == "" then current else prev + "/" + current;
            StripRoot(Join(NonEmpty([prev, current]), "/")) == cp && MarkerFree(cp) && cp != ""
  {
    var cp := if prev == "" then current else prev + "/" + current;
    if prev == "" {
      assert NonEmpty([prev, current]) == [current] by {
        assert [prev, current][1..] == [current];
        assert NonEmpty([current]) == [current] + NonEmpty([current][1..]);
        assert [current][1..] == [];
      }
    } else {
      assert NonEmpty([prev, current]) == [prev, current] by {
        assert [prev, current][1..] == [current];
        assert NonEmpty([current]) == [current] + NonEmpty([current][1..]);
        assert [current][1..] == [];
      }
      assert Join([prev, current], "/") == prev + "/" + current by {
        assert [prev, current][1..] == [current];
      }
      ContainsAround(prev, current, '/', RootString);
    }
    StripRootAbsent(cp);
  }

  /** `[a, b].filter(Boolean).join('/')` with `a` non-empty. */
  lemma JoinTwo(a: string, b: string)
    requires a != "" && b != ""
    ensures Join(NonEmpty([a, b]), "/") == a + "/" + b
  {
    assert [a, b][1..] == [b];
    assert NonEmpty([b]) == [b] + NonEmpty([b][1..]);
    assert [b][1..] == [];
    assert NonEmpty([a, b]) == [a, b];
    assert Join([a, b], "/") == a + "/" + Join([b], "/");
  }

  /** The path of a node reached by `ks` below a node whose path is `cp`. */
  function At(cp: string, ks: seq<string>): string
  {
    if |ks| == 0 then cp else cp + "/" + Join(ks, "/")
  }

  lemma AtCons(cp: string, k: string, ks: seq<string>)
    ensures At(cp, [k] + ks) == At(cp + "/" + k, ks)
  {
    if |ks| > 0 {
      assert ([k] + ks)[1..] == ks;
      assert Join([k] + ks, "/") == k + "/" + Join(ks, "/");
    } else {
      assert [k] + ks == [k];
    }
  }

  lemma SingleDistinct(p: string, k: string, c: Tree)
    requires Distinct(c)
    ensures Distinct(Node(p, [Entry(k, c)]))
  {
    assert [Entry(k, c)][1..] == [];
  }

  lemma LookupSingle(p: string, k: string, c: Tree, ks: seq<string>)
    ensures Lookup(Node(p, [Entry(k, c)]), ks)
         == if |ks| == 0 then Some(Node(p, [Entry(k, c)]))
            else if ks[0] == k then Lookup(c, ks[1..]) else None
  {
    if |ks| > 0 {
      assert [Entry(k, c)][1..] == [];
      assert ChildIn([Entry(k, c)], ks[0]) == if ks[0] == k then Some(c) else ChildIn([], ks[0]);
    }
  }

  lemma PrefixCons(ks: seq<string>, segs: seq<string>)
    requires |segs| > 0 && |ks| > 0
    ensures IsPrefix(ks, segs) <==> ks[0] == segs[0] && IsPrefix(ks[1..], segs[1..])
  {
    if IsPrefix(ks, segs) {
      assert ks[1..] == segs[..|ks|][1..];
    }
    if ks[0] == segs[0] && IsPrefix(ks[1..], segs[1..]) {
      assert segs[..|ks|] == [segs[0]] + segs[1..][..|ks| - 1];
      assert ks == [ks[0]] + ks[1..];
    }
  }

  lemma LeafLookup(p: string, ks: seq<string>)
    ensures Lookup(Leaf(p), ks).Some? <==> |ks| == 0
  {
  }

  /** The branch `pathToTree(input, prev)` builds, for marker-free segments:
      one node per proper prefix of the segments after the first, a leaf at
      the full sequence, every path being the parent's path joined with the
      next segment. */
  lemma {:induction false} ChainShape(input: string, prev: string)
    requires |Segments(input)| >= 2
    requires MarkerFree(prev)
    requires forall i :: 0 <= i < |Segments(input)| ==> MarkerFree(Segments(input)[i])
    ensures var segs := Segments(input);
            var t := PathToTree(input, prev).value;
            var cp := if prev == "" then segs[0] else prev + "/" + segs[0];
            Distinct(t)
            && (forall ks :: Lookup(t, ks).Some? <==> IsPrefix(ks, segs[1..]))
            && (forall ks :: Lookup(t, ks).Some? ==> Lookup(t, ks).value.path == At(cp, ks))
            && (forall ks :: Lookup(t, ks).Some? ==> (Lookup(t, ks).value.Leaf? <==> ks == segs[1..]))
    decreases |Segments(input)|
  {
    var segs := Segments(input);
    var rest := segs[1..];
    var cp := if prev == "" then segs[0] else prev + "/" + segs[0];
    PathToTreeStep(input, prev);
    if |rest| == 1 {
      assert rest == [rest[0]];
      ChainLeafCase(cp, rest[0]);
    } else {
      var c := PathToTree(Join(rest, "/"), cp).value;
      assert forall i :: 0 <= i < |rest| ==> rest[i] == segs[i + 1];
      ChainShape(Join(rest, "/"), cp);
      ChainNodeCase(cp, rest, c);
    }
  }

  /** One level of `pathToTree`: a node at the accumulated path whose child is
      a leaf for the last segment, or the tree of the remaining segments. */
  lemma PathToTreeStep(input: string, prev: string)
    requires |Segments(input)| >= 2
    requires MarkerFree(prev)
    requires forall i :: 0 <= i < |Segments(input)| ==> MarkerFree(Segments(input)[i])
    ensures var segs := Segments(input);
            var rest := segs[1..];
            var cp := if prev == "" then segs[0] else prev + "/" + segs[0];
            cp != "" && MarkerFree(cp)
            && (|rest| == 1 ==> PathToTree(input, prev).value == Node(cp, [Entry(rest[0], Leaf(cp + "/" + rest[0]))]))
            && (|rest| > 1 ==> Segments(Join(rest, "/")) == rest
                               && PathToTree(input, prev).value == Node(cp, [Entry(rest[0], PathToTree(Join(rest, "/"), cp).value)]))
  {
    var segs := Segments(input);
    var rest := segs[1..];
    var cp := if prev == "" then segs[0] else prev + "/" + segs[0];
    CurrentPath(prev, segs[0]);
    if |rest| == 1 {
      JoinTwo(cp, rest[0]);
    } else {
      SegmentsOfJoin(rest);
    }
  }

  /** The last link of a chain: a node with one leaf. */
  lemma ChainLeafCase(cp: string, k: string)
    ensures var t := Node(cp, [Entry(k, Leaf(cp + "/" + k))]);
            Distinct(t)
            && (forall ks :: Lookup(t, ks).Some? <==> IsPrefix(ks, [k]))
            && (forall ks :: Lookup(t, ks).Some? ==> Lookup(t, ks).value.path == At(cp, ks))
            && (forall ks :: Lookup(t, ks).Some? ==> (Lookup(t, ks).value.Leaf? <==> ks == [k]))
  {
    var c := Leaf(cp + "/" + k);
    var t := Node(cp, [Entry(k, c)]);
    SingleDistinct(cp, k, c);
    forall ks
      ensures Lookup(t, ks).Some? <==> IsPrefix(ks, [k])
      ensures Lookup(t, ks).Some? ==> Lookup(t, ks).value.path == At(cp, ks)
      ensures Lookup(t, ks).Some? ==> (Lookup(t, ks).value.Leaf? <==> ks == [k])
    {
      LookupSingle(cp, k, c, ks);
      if |ks| > 0 {
        PrefixCons(ks, [k]);
        LeafLookup(cp + "/" + k, ks[1..]);
        if ks[0] == k && |ks| == 1 {
          assert ks == [k];
          assert Join(ks, "/") == k;
        }
        if ks == [k] {
          assert ks[1..] == [];
        }
      }
    }
  }

  /** An inner link of a chain: a node whose one child is the rest of the chain. */
  lemma ChainNodeCase(cp: string, rest: seq<string>, c: Tree)
    requires |rest| >= 2 && Distinct(c)
    requires forall ks :: Lookup(c, ks).Some? <==> IsPrefix(ks, rest[1..])
    requires forall ks :: Lookup(c, ks).Some? ==> Lookup(c, ks).value.path == At(cp + "/" + rest[0], ks)
    requires forall ks :: Lookup(c, ks).Some? ==> (Lookup(c, ks).value.Leaf? <==> ks == rest[1..])
    ensures var t := Node(cp, [Entry(rest[0], c)]);
            Distinct(t)
            && (forall ks :: Lookup(t, ks).Some? <==> IsPrefix(ks, rest))
            && (forall ks :: Lookup(t, ks).Some? ==> Lookup(t, ks).value.path == At(cp, ks))
            && (forall ks :: Lookup(t, ks).Some? ==> (Lookup(t, ks).value.Leaf? <==> ks == rest))
  {
    var t := Node(cp, [Entry(rest[0], c)]);
    SingleDistinct(cp, rest[0], c);
    forall ks
      ensures Lookup(t, ks).Some? <==> IsPrefix(ks, rest)
      ensures Lookup(t, ks).Some? ==> Lookup(t, ks).value.path == At(cp, ks)
      ensures Lookup(t, ks).Some? ==> (Lookup(t, ks).value.Leaf? <==> ks == rest)
    {
      LookupSingle(cp, rest[0], c, ks);
      if |ks| > 0 {
        PrefixCons(ks, rest);
        if ks[0] == rest[0] {
          AtCons(cp, rest[0], ks[1..]);
          assert ks == [rest[0]] + ks[1..];
          assert ks == rest <==> ks[1..] == rest[1..];
        }
      }
    }
  }

  /** The sentinel node: path "", one child keyed by the first segment of `p`. */
  lemma RootTreeIs(p: string)
    requires |Segments(p)| >= 1
    ensures var segs := Segments(p);
            var t := RootTree(p);
            t.Node? && t.path == "" && |t.children| == 1 && t.children[0].key == segs[0]
            && (|segs| == 1 ==> t.children[0].child == Leaf(segs[0]))
            && (|segs| > 1 ==> PathToTree(Join(segs, "/"), "") == Some(t.children[0].child))
  {
    var segs := Segments(p);
    RootSegments(p);
    var all := [RootString] + segs;
    assert all[1..] == segs && all[0] == RootString;
    assert StripRoot(Join(NonEmpty(["", RootString]), "/")) == "" by {
      assert ["", RootString][1..] == [RootString];
      assert NonEmpty([RootString]) == [RootString] + NonEmpty([RootString][1..]);
      assert [RootString][1..] == [];
      assert NonEmpty(["", RootString]) == [RootString];
      assert StartsWith(RootString, RootString);
    }
    if |segs| == 1 {
      assert NonEmpty(["", segs[0]]) == [segs[0]] by {
        assert ["", segs[0]][1..] == [segs[0]];
        assert NonEmpty([segs[0]]) == [segs[0]] + NonEmpty([segs[0]][1..]);
        assert [segs[0]][1..] == [];
      }
    } else {
      SegmentsOfJoin(segs);
      var cp := StripRoot(Join(NonEmpty(["", RootString]), "/"));
      assert PathToTree(RootString + "/" + p, "")
          == Some(Node(cp, [Entry(segs[0], PathToTree(Join(segs, "/"), cp).value)]));
    }
  }

  lemma RootLeafCase(s: string, ks: seq<string>)
    ensures var t := Node("", [Entry(s, Leaf(s))]);
            (Lookup(t, ks).Some? <==> IsPrefix(ks, [s]))
            && (Lookup(t, ks).Some? ==> Lookup(t, ks).value.path == Join(ks, "/"))
            && (Lookup(t, ks).Some? ==> (Lookup(t, ks).value.Leaf? <==> ks == [s]))
  {
    LookupSingle("", s, Leaf(s), ks);
    if |ks| > 0 {
      PrefixCons(ks, [s]);
      assert [s][1..] == [];
      LeafLookup(s, ks[1..]);
      if ks[0] == s && |ks| == 1 {
        assert ks == [s];
      }
      if ks == [s] {
        assert ks[1..] == [];
      }
    }
  }

  lemma RootNodeCase(segs: seq<string>, c: Tree, ks: seq<string>)
    requires |segs| >= 2
    requires forall ks :: Lookup(c, ks).Some? <==> IsPrefix(ks, segs[1..])
    requires forall ks :: Lookup(c, ks).Some? ==> Lookup(c, ks).value.path == At(segs[0], ks)
    requires forall ks :: Lookup(c, ks).Some? ==> (Lookup(c, ks).value.Leaf? <==> ks == segs[1..])
    ensures var t := Node("", [Entry(segs[0], c)]);
            (Lookup(t, ks).Some? <==> IsPrefix(ks, segs))
            && (Lookup(t, ks).Some? ==> Lookup(t, ks).value.path == Join(ks, "/"))
            && (Lookup(t, ks).Some? ==> (Lookup(t, ks).value.Leaf? <==> ks == segs))
  {
    LookupSingle("", segs[0], c, ks);
    if |ks| > 0 {
      PrefixCons(ks, segs);
      if ks[0] == segs[0] {
        var tail := ks[1..];
        assert ks == [segs[0]] + tail;
        assert ks == segs <==> tail == segs[1..];
        if |tail| > 0 {
          assert Join(ks, "/") == segs[0] + "/" + Join(tail, "/");
        } else {
          assert ks == [segs[0]];
        }
      }
    }
  }

  /** The tree of one path under the `<root>` sentinel: the sentinel node's path
      is "", every node and leaf carries the path of the keys leading to it,
      the keys present are exactly the prefixes of the path's segments, and
      the only leaf is the full path. Empty segments play no part. */
  lemma RootTreeShape(p: string)
    requires |Segments(p)| >= 1
    requires forall i :: 0 <= i < |Segments(p)| ==> MarkerFree(Segments(p)[i])
    ensures var t := RootTree(p);
            var segs := Segments(p);
            t.Node? && t.path == ""
            && Distinct(t) && Labeled(t)
            && (forall ks :: Lookup(t, ks).Some? <==> IsPrefix(ks, segs))
            && (forall ks :: Lookup(t, ks).Some? ==> (Lookup(t, ks).value.Leaf? <==> ks == segs))
  {
    var segs := Segments(p);
    var t := RootTree(p);
    RootTreeIs(p);
    assert t == Node("", [Entry(segs[0], t.children[0].child)]);
    if |segs| == 1 {
      SingleDistinct("", segs[0], Leaf(segs[0]));
    } else {
      SegmentsOfJoin(segs);
      assert MarkerFree("") by { assert !StartsWith("", RootString); }
      ChainShape(Join(segs, "/"), "");
      SingleDistinct("", segs[0], t.children[0].child);
    }
    if |segs| == 1 {
      assert segs == [segs[0]];
      forall ks
        ensures Lookup(t, ks).Some? <==> IsPrefix(ks, segs)
        ensures Lookup(t, ks).Some? ==> Lookup(t, ks).value.path == Join(ks, "/")
        ensures Lookup(t, ks).Some? ==> (Lookup(t, ks).value.Leaf? <==> ks == segs)
      {
        RootLeafCase(segs[0], ks);
      }
    } else {
      SegmentsOfJoin(segs);
      assert MarkerFree("") by { assert !StartsWith("", RootString); }
      ChainShape(Join(segs, "/"), "");
      var c := PathToTree(Join(segs, "/"), "").value;
      forall ks
        ensures Lookup(t, ks).Some? <==> IsPrefix(ks, segs)
        ensures Lookup(t, ks).Some? ==> Lookup(t, ks).value.path == Join(ks, "/")
        ensures Lookup(t, ks).Some? ==> (Lookup(t, ks).value.Leaf? <==> ks == segs)
      {
        RootNodeCase(segs, c, ks);
      }
    }
  }

  // ---------------------------------------------------------------------------
  // The merge, one key sequence at a time

  lemma {:induction false} ChildInKeys(cs: seq<Entry>, k: string)
    ensures ChildIn(cs, k).Some? <==> k in KeysOf(cs)
  {
    if |cs| > 0 {
      ChildInKeys(cs[1..], k);
    }
  }

  lemma {:induction false} ChildInDistinct(cs: seq<Entry>, k: string)
    requires AllDistinct(cs) && ChildIn(cs, k).Some?
    ensures Distinct(ChildIn(cs, k).value)
  {
    if cs[0].key != k {
      ChildInDistinct(cs[1..], k);
    }
  }

  /** Upserting one entry changes the child under its key only. */
  lemma {:induction false} UpsertChild(cs: seq<Entry>, e: Entry, k: string)
    ensures ChildIn(Upsert(cs, e), k)
         == if k == e.key then Some(MergeInto(ChildIn(cs, k), e.child)) else ChildIn(cs, k)
  {
    if |cs| > 0 && cs[0].key != e.key {
      UpsertChild(cs[1..], e, k);
      assert ([cs[0]] + Upsert(cs[1..], e))[1..] == Upsert(cs[1..], e);
    } else if |cs| > 0 {
      var u := [Entry(e.key, Merge(cs[0].child, e.child))] + cs[1..];
      assert u[1..] == cs[1..];
    }
  }

  /** The child under `k` after merging child lists: the later child merged into
      the earlier one when both have `k`, whichever exists otherwise. */
  lemma {:induction false} MergeChildrenChild(ca: seq<Entry>, cb: seq<Entry>, k: string)
    requires KeysDistinct(cb)
    decreases |cb|
    ensures ChildIn(MergeChildren(ca, cb), k)
         == if ChildIn(cb, k).None? then ChildIn(ca, k)
            else Some(MergeInto(ChildIn(ca, k), ChildIn(cb, k).value))
  {
    if |cb| > 0 {
      var ca' := Upsert(ca, cb[0]);
      MergeChildrenChild(ca', cb[1..], k);
      UpsertChild(ca, cb[0], k);
      ChildInKeys(cb[1..], k);
    }
  }

  lemma {:induction false} UpsertKeys(cs: seq<Entry>, e: Entry)
    ensures KeysOf(Upsert(cs, e)) == KeysOf(cs) + {e.key}
    ensures KeysDistinct(cs) ==> KeysDistinct(Upsert(cs, e))
  {
    if |cs| == 0 {
      assert KeysOf([e]) == {e.key} + KeysOf([]);
    } else if cs[0].key == e.key {
      var u := [Entry(e.key, Merge(cs[0].child, e.child))] + cs[1..];
      assert u[1..] == cs[1..];
    } else {
      UpsertKeys(cs[1..], e);
      var u := [cs[0]] + Upsert(cs[1..], e);
      assert u[1..] == Upsert(cs[1..], e);
    }
  }

  /** Merging keeps every node's keys distinct. */
  lemma {:induction false} MergeDistinct(a: Tree, b: Tree)
    requires Distinct(a) && Distinct(b)
    ensures Distinct(Merge(a, b))
    decreases b, 0
  {
    if a.Node? && b.Node? {
      MergeChildrenDistinct(a.children, b.children);
    }
  }

  lemma {:induction false} MergeChildrenDistinct(ca: seq<Entry>, cb: seq<Entry>)
    requires KeysDistinct(ca) && AllDistinct(ca) && AllDistinct(cb)
    ensures KeysDistinct(MergeChildren(ca, cb)) && AllDistinct(MergeChildren(ca, cb))
    decreases cb, 0
  {
    if |cb| > 0 {
      UpsertKeys(ca, cb[0]);
      UpsertDistinct(ca, cb[0]);
      MergeChildrenDistinct(Upsert(ca, cb[0]), cb[1..]);
    }
  }

  lemma {:induction false} UpsertDistinct(cs: seq<Entry>, e: Entry)
    requires AllDistinct(cs) && Distinct(e.child)
    ensures AllDistinct(Upsert(cs, e))
    decreases e, |cs|
  {
    if |cs| == 0 {
      assert [e][1..] == [];
    } else if cs[0].key == e.key {
      MergeDistinct(cs[0].child, e.child);
      var u := [Entry(e.key, Merge(cs[0].child, e.child))] + cs[1..];
      assert u[1..] == cs[1..];
    } else {
      UpsertDistinct(cs[1..], e);
      var u := [cs[0]] + Upsert(cs[1..], e);
      assert u[1..] == Upsert(cs[1..], e);
    }
  }

  lemma LookupCons(t: Tree, k: string, r: seq<string>)
    ensures Lookup(t, [k] + r)
         == if t.Leaf? || ChildIn(t.children, k).None? then None
            else Lookup(ChildIn(t.children, k).value, r)
  {
    assert ([k] + r)[0] == k && ([k] + r)[1..] == r;
  }

  /** What the merge keeps, key sequence by key sequence: whatever the later
      tree has is there with the later path and kind; whatever the later tree
      lacks is the earlier tree's; and the earlier tree's entry survives unless
      a later leaf sits above it. */
  lemma {:induction false} MergeLookup(a: Tree, b: Tree, ks: seq<string>)
    requires Distinct(b)
    ensures var m := Lookup(Merge(a, b), ks);
            var la := Lookup(a, ks);
            var lb := Lookup(b, ks);
            (lb.Some? ==> m.Some? && m.value.path == lb.value.path && m.value.Leaf? == lb.value.Leaf?)
            && (lb.None? ==> m == la || m.None?)
            && (m.Some? && lb.None? ==> m == la)
            && (la.Some? && NoLeafAbove(b, ks) ==> m.Some?)
    decreases |ks|
  {
    if |ks| > 0 {
      var k := ks[0];
      var r := ks[1..];
      assert ks == [k] + r;
      var M := Merge(a, b);
      LookupCons(a, k, r);
      LookupCons(b, k, r);
      LookupCons(M, k, r);
      if a.Node? && b.Node? {
        MergeChildrenChild(a.children, b.children, k);
        var cb := ChildIn(b.children, k);
        var ca := ChildIn(a.children, k);
        if cb.Some? {
          ChildInDistinct(b.children, k);
          if ca.Some? {
            MergeLookup(ca.value, cb.value, r);
            if Lookup(a, ks).Some? && NoLeafAbove(b, ks) {
              forall j | 0 <= j < |r|
                ensures !(Lookup(cb.value, r[..j]).Some? && Lookup(cb.value, r[..j]).value.Leaf?)
              {
                assert ks[..j + 1] == [k] + r[..j];
                LookupCons(b, k, r[..j]);
              }
            }
          }
        }
      } else if b.Leaf? {
        assert Lookup(b, ks[..0]) == Some(b);
      }
    }
  }

  lemma LookupPastLeaf(t: Tree, ks: seq<string>, k: string)
    requires Lookup(t, ks).Some? && Lookup(t, ks).value.Leaf?
    ensures Lookup(t, ks + [k]).None?
    decreases |ks|
  {
    if |ks| > 0 {
      assert (ks + [k])[0] == ks[0] && (ks + [k])[1..] == ks[1..] + [k];
      if t.Node? && ChildIn(t.children, ks[0]).Some? {
        LookupPastLeaf(ChildIn(t.children, ks[0]).value, ks[1..], k);
      }
    } else {
      assert ks + [k] == [k];
    }
  }

  // ---------------------------------------------------------------------------
  // Many paths

  /** No path is followed, later in the list, by a proper prefix of itself. */
  predicate Ordered(paths: seq<string>)
  {
    forall i, j :: 0 <= i < j < |paths| ==> !StrictPrefix(Segments(paths[j]), Segments(paths[i]))
  }

  predicate AllMarkerFree(paths: seq<string>)
  {
    forall i :: 0 <= i < |paths| ==>
      |Segments(paths[i])| >= 1
      && forall n :: 0 <= n < |Segments(paths[i])| ==> MarkerFree(Segments(paths[i])[n])
  }

  /** The last tree folded in, and the rest folded before it. */
  lemma FoldStep(paths: seq<string>)
    requires |paths| > 1 && AllMarkerFree(paths)
    ensures AllMarkerFree(paths[..|paths| - 1])
    ensures PathsToTree(paths).value
         == Merge(PathsToTree(paths[..|paths| - 1]).value, RootTree(paths[|paths| - 1]))
  {
    var init := paths[..|paths| - 1];
    AllMarkerFreeInit(paths);
    assert PathsToTree(paths) == Some(MergeInto(PathsToTree(init), RootTree(paths[|paths| - 1])));
    assert PathsToTree(init).Some?;
  }

  /** Every path but the last is still marker-free with a segment. */
  lemma AllMarkerFreeInit(paths: seq<string>)
    requires |paths| > 0 && AllMarkerFree(paths)
    ensures AllMarkerFree(paths[..|paths| - 1])
  {
    var init := paths[..|paths| - 1];
    forall i | 0 <= i < |init|
      ensures |Segments(init[i])| >= 1
      ensures forall n :: 0 <= n < |Segments(init[i])| ==> MarkerFree(Segments(init[i])[n])
    {
      assert init[i] == paths[i];
    }
  }

  /** The merged tree is rooted at "" and keeps keys distinct. */
  lemma {:induction false} PathsToTreeRoot(paths: seq<string>)
    requires |paths| > 0 && AllMarkerFree(paths)
    ensures var t := PathsToTree(paths).value;
            t.Node? && t.path == "" && Distinct(t)
    decreases |paths|
  {
    RootTreeShape(paths[|paths| - 1]);
    if |paths| > 1 {
      FoldStep(paths);
      PathsToTreeRoot(paths[..|paths| - 1]);
      MergeDistinct(PathsToTree(paths[..|paths| - 1]).value, RootTree(paths[|paths| - 1]));
    }
  }

  /** Every node and leaf of the merged tree carries the path of its keys. */
  lemma {:induction false} PathsToTreeLabeled(paths: seq<string>)
    requires |paths| > 0 && AllMarkerFree(paths)
    ensures Labeled(PathsToTree(paths).value)
    decreases |paths|
  {
    var b := RootTree(paths[|paths| - 1]);
    RootTreeShape(paths[|paths| - 1]);
    if |paths| > 1 {
      FoldStep(paths);
      var a := PathsToTree(paths[..|paths| - 1]).value;
      PathsToTreeLabeled(paths[..|paths| - 1]);
      forall ks | Lookup(Merge(a, b), ks).Some?
        ensures Lookup(Merge(a, b), ks).value.path == Join(ks, "/")
      {
        MergeLookup(a, b, ks);
      }
    }
  }

  /** The merged tree invents nothing: each of its keys is a prefix of some
      input, and each of its leaves is a whole input. */
  lemma {:induction false} PathsToTreeSound(paths: seq<string>)
    requires |paths| > 0 && AllMarkerFree(paths)
    ensures var t := PathsToTree(paths).value;
            (forall ks :: Lookup(t, ks).Some? ==>
               exists i :: 0 <= i < |paths| && IsPrefix(ks, Segments(paths[i])))
            && (forall ks :: Lookup(t, ks).Some? && Lookup(t, ks).value.Leaf? ==>
               exists i :: 0 <= i < |paths| && ks == Segments(paths[i]))
    decreases |paths|
  {
    var n := |paths|;
    var b := RootTree(paths[n - 1]);
    RootTreeShape(paths[n - 1]);
    if n > 1 {
      FoldStep(paths);
      var init := paths[..n - 1];
      assert forall i :: 0 <= i < n - 1 ==> init[i] == paths[i];
      var a := PathsToTree(init).value;
      PathsToTreeSound(init);
      forall ks | Lookup(Merge(a, b), ks).Some?
        ensures exists i :: 0 <= i < n && IsPrefix(ks, Segments(paths[i]))
        ensures Lookup(Merge(a, b), ks).value.Leaf? ==> exists i :: 0 <= i < n && ks == Segments(paths[i])
      {
        MergeLookup(a, b, ks);
        if Lookup(b, ks).None? {
          var i :| 0 <= i < n - 1 && IsPrefix(ks, Segments(init[i]));
          assert IsPrefix(ks, Segments(paths[i]));
          if Lookup(a, ks).value.Leaf? {
            var i' :| 0 <= i' < n - 1 && ks == Segments(init[i']);
            assert ks == Segments(paths[i']);
          }
        } else {
          assert IsPrefix(ks, Segments(paths[n - 1]));
        }
      }
    }
  }

  /** The last path of the list is always in the merged tree in full. */
  lemma PathsToTreeKeepsLast(paths: seq<string>)
    requires |paths| > 0 && AllMarkerFree(paths)
    ensures forall ks :: IsPrefix(ks, Segments(paths[|paths| - 1])) ==> Lookup(PathsToTree(paths).value, ks).Some?
  {
    var b := RootTree(paths[|paths| - 1]);
    RootTreeShape(paths[|paths| - 1]);
    if |paths| > 1 {
      FoldStep(paths);
      var a := PathsToTree(paths[..|paths| - 1]).value;
      forall ks | IsPrefix(ks, Segments(paths[|paths| - 1]))
        ensures Lookup(Merge(a, b), ks).Some?
      {
        MergeLookup(a, b, ks);
      }
    }
  }

  /** When no path is followed by a proper prefix of itself, no path is lost:
      every prefix of every input is in the merged tree. */
  lemma {:induction false} PathsToTreeComplete(paths: seq<string>)
    requires |paths| > 0 && AllMarkerFree(paths) && Ordered(paths)
    ensures forall i, ks :: 0 <= i < |paths| && IsPrefix(ks, Segments(paths[i])) ==>
              Lookup(PathsToTree(paths).value, ks).Some?
    decreases |paths|
  {
    var n := |paths|;
    PathsToTreeKeepsLast(paths);
    if n > 1 {
      var b := RootTree(paths[n - 1]);
      var segs := Segments(paths[n - 1]);
      RootTreeShape(paths[n - 1]);
      FoldStep(paths);
      var init := paths[..n - 1];
      assert forall i :: 0 <= i < n - 1 ==> init[i] == paths[i];
      assert Ordered(init);
      var a := PathsToTree(init).value;
      PathsToTreeComplete(init);
      forall i, ks | 0 <= i < n - 1 && IsPrefix(ks, Segments(paths[i]))
        ensures Lookup(Merge(a, b), ks).Some?
      {
        assert IsPrefix(ks, Segments(init[i]));
        NoLeafBeforeEnd(b, segs, Segments(paths[i]), ks);
        MergeLookup(a, b, ks);
      }
    }
  }

  /** Keys along a path that the one-branch tree's path is no strict prefix
      of pass no leaf of that tree before their end. */
  lemma NoLeafBeforeEnd(b: Tree, segs: seq<string>, other: seq<string>, ks: seq<string>)
    requires forall ks :: Lookup(b, ks).Some? ==> (Lookup(b, ks).value.Leaf? <==> ks == segs)
    requires IsPrefix(ks, other) && !StrictPrefix(segs, other)
    ensures NoLeafAbove(b, ks)
  {
    forall j | 0 <= j < |ks|
      ensures !(Lookup(b, ks[..j]).Some? && Lookup(b, ks[..j]).value.Leaf?)
    {
      var pre := ks[..j];
      assert |pre| == j < |other| && other[..j] == pre;
      assert pre != segs;
    }
  }

  /** A deeper path listed before one of its own prefixes is lost: the later
      leaf replaces the earlier node. */
  lemma DeeperFirstIsLost()
    ensures var t := PathsToTree(["a/b/c", "a/b"]).value;
            Lookup(t, ["a", "b"]) == Some(Leaf("a/b"))
            && Lookup(t, ["a", "b", "c"]).None?
  {
    ABCSegments();
    var b := ABTree();
    LaterLeafWins("a/b/c", "a/b", ["a", "b"], "c");
    assert ["a", "b"] + ["c"] == ["a", "b", "c"];
  }

  /** A leaf of the last path replaces whatever the earlier path put there. */
  lemma LaterLeafWins(p: string, q: string, ks: seq<string>, k: string)
    requires |Segments(p)| >= 1 && |Segments(q)| >= 1
    requires Distinct(RootTree(q)) && Lookup(RootTree(q), ks) == Some(Leaf(q))
    ensures var t := PathsToTree([p, q]).value;
            Lookup(t, ks) == Some(Leaf(q)) && Lookup(t, ks + [k]).None?
  {
    assert [p, q][..1] == [p];
    var t := PathsToTree([p, q]).value;
    assert t == Merge(PathsToTree([p]).value, RootTree(q));
    MergeLookup(PathsToTree([p]).value, RootTree(q), ks);
    LookupPastLeaf(t, ks, k);
  }

  /** The tree of `<root>/a/b`, which reaches the leaf `a/b`. */
  lemma ABTree() returns (b: Tree)
    ensures Segments("a/b") == ["a", "b"]
    ensures b == RootTree("a/b") && Distinct(b)
    ensures Lookup(b, ["a", "b"]) == Some(Leaf("a/b"))
  {
    NoAngleMarkerFree("a");
    NoAngleMarkerFree("b");
    UnderRootTwo("a", "b");
    assert "a" + "/" + "b" == "a/b";
    b := RootTree("a/b");
    var inner := Node("a", [Entry("b", Leaf("a/b"))]);
    assert b == Node("", [Entry("a", inner)]);
    assert ChildIn(b.children, "a") == Some(inner);
    assert ChildIn(inner.children, "b") == Some(Leaf("a/b"));
    assert ["a", "b"][1..] == ["b"] && ["b"][1..] == [];
    assert Distinct(inner) by {
      assert AllDistinct(inner.children[1..]);
    }
    assert AllDistinct(b.children[1..]);
  }

  lemma ABCSegments()
    ensures Segments("a/b/c") == ["a", "b", "c"]
  {
    assert Join(["a", "b", "c"], "/") == "a/b/c";
    SegmentsOfJoin(["a", "b", "c"]);
  }

  lemma {:induction false} NoAngleMarkerFree(s: string)
    requires '<' !in s
    ensures MarkerFree(s)
    decreases |s|
  {
    if |s| > 0 {
      NoAngleMarkerFree(s[1..]);
      assert !StartsWith(s, RootString) by {
        if |RootString| <= |s| {
          assert s[..|RootString|][0] == s[0];
        }
      }
    } else {
      assert !StartsWith(s, RootString);
    }
  }

  // ---------------------------------------------------------------------------
  // The documented examples

  predicate CleanSegment(s: string)
  {
    s != "" && '/' !in s && MarkerFree(s)
  }

  lemma TwoSegments(x: string, y: string, prev: string)
    requires CleanSegment(x) && CleanSegment(y) && MarkerFree(prev)
    ensures var cp := if prev == "" then x else prev + "/" + x;
            PathToTree(x + "/" + y, prev) == Some(Node(cp, [Entry(y, Leaf(cp + "/" + y))]))
  {
    SegmentsOfConcat(x, y);
    SegmentsOfSegment(x);
    SegmentsOfSegment(y);
    assert Segments(x + "/" + y) == [x, y];
    CurrentPath(prev, x);
    var cp := if prev == "" then x else prev + "/" + x;
    JoinTwo(cp, y);
    assert [x, y][1..] == [y];
  }

  lemma ThreeSegments(x: string, y: string, z: string, prev: string)
    requires CleanSegment(x) && CleanSegment(y) && CleanSegment(z) && MarkerFree(prev)
    ensures var cp := if prev == "" then x else prev + "/" + x;
            (PathToTree(x + "/" + y + "/" + z, prev)
             == Some(Node(cp, [Entry(y, Node(cp + "/" + y, [Entry(z, Leaf(cp + "/" + y + "/" + z))]))])))
  {
    var segs := [x, y, z];
    SegmentsOfThree(x, y, z);
    CurrentPath(prev, x);
    var cp := if prev == "" then x else prev + "/" + x;
    assert segs[1..] == [y, z];
    assert Join([y, z], "/") == y + "/" + z by {
      assert [y, z][1..] == [z];
    }
    TwoSegments(y, z, cp);
    assert cp + "/" + y + "/" + z == (cp + "/" + y) + "/" + z;
  }

  /** Three clean segments joined with `/` split back into themselves. */
  lemma SegmentsOfThree(x: string, y: string, z: string)
    requires CleanSegment(x) && CleanSegment(y) && CleanSegment(z)
    ensures Segments(x + "/" + y + "/" + z) == [x, y, z]
  {
    SegmentsOfConcat(x + "/" + y, z);
    SegmentsOfConcat(x, y);
    SegmentsOfSegment(x);
    SegmentsOfSegment(y);
    SegmentsOfSegment(z);
  }

  /** A single segment gives no tree (`'awesome'` gives `undefined`). */
  lemma OneSegment(x: string, prev: string)
    requires x != "" && '/' !in x
    ensures PathToTree(x, prev).None?
  {
    SegmentsOfSegment(x);
  }

  /** `<root>/x` gives the sentinel node with the leaf `x`. */
  lemma UnderRootOne(x: string)
    requires CleanSegment(x)
    ensures RootTree(x) == Node("", [Entry(x, Leaf(x))])
  {
    SegmentsOfSegment(x);
    RootTreeIs(x);
  }

  /** `<root>/x/y` gives the sentinel node, the node `x` and the leaf `x/y`. */
  lemma UnderRootTwo(x: string, y: string)
    requires CleanSegment(x) && CleanSegment(y)
    ensures Segments(x + "/" + y) == [x, y]
    ensures RootTree(x + "/" + y) == Node("", [Entry(x, Node(x, [Entry(y, Leaf(x + "/" + y))]))])
  {
    var p := x + "/" + y;
    SegmentsOfConcat(x, y);
    SegmentsOfSegment(x);
    SegmentsOfSegment(y);
    RootTreeIs(p);
    assert Join([x, y], "/") == p by {
      assert [x, y][1..] == [y];
    }
    assert MarkerFree("") by { assert !StartsWith("", RootString); }
    TwoSegments(x, y, "");
  }

  /** Sibling paths share their parent node and keep their order, as for
      `packages/utils`, `packages/things`, `packages/others`. */
  lemma Siblings(p: string, u: string, t: string, o: string)
    requires CleanSegment(p) && CleanSegment(u) && CleanSegment(t) && CleanSegment(o)
    requires u != t && t != o && u != o
    ensures PathsToTree([p + "/" + u, p + "/" + t, p + "/" + o])
         == Some(Node("", [Entry(p, Node(p, [
              Entry(u, Leaf(p + "/" + u)),
              Entry(t, Leaf(p + "/" + t)),
              Entry(o, Leaf(p + "/" + o))]))]))
  {
    UnderRootTwo(p, u);
    UnderRootTwo(p, t);
    UnderRootTwo(p, o);
    SiblingsFold(p + "/" + u, p + "/" + t, p + "/" + o, p,
      Entry(u, Leaf(p + "/" + u)), Entry(t, Leaf(p + "/" + t)), Entry(o, Leaf(p + "/" + o)));
  }

  /** Three paths that each give one child under the same parent fold into
      that parent holding the three children in input order. */
  lemma SiblingsFold(a: string, b: string, c: string, p: string, ea: Entry, eb: Entry, ec: Entry)
    requires |Segments(a)| >= 1 && |Segments(b)| >= 1 && |Segments(c)| >= 1
    requires ea.key != eb.key && eb.key != ec.key && ea.key != ec.key
    requires RootTree(a) == Node("", [Entry(p, Node(p, [ea]))])
    requires RootTree(b) == Node("", [Entry(p, Node(p, [eb]))])
    requires RootTree(c) == Node("", [Entry(p, Node(p, [ec]))])
    ensures PathsToTree([a, b, c]) == Some(Node("", [Entry(p, Node(p, [ea, eb, ec]))]))
  {
    FoldThree(a, b, c);
    SameParent(p, [ea], eb);
    assert [ea] + [eb] == [ea, eb];
    SameParent(p, [ea, eb], ec);
    assert [ea, eb] + [ec] == [ea, eb, ec];
  }

  /** `pathsToTree` on three paths, one merge at a time. */
  lemma FoldThree(a: string, b: string, c: string)
    requires |Segments(a)| >= 1 && |Segments(b)| >= 1 && |Segments(c)| >= 1
    ensures PathsToTree([a, b, c])
         == Some(Merge(Merge(RootTree(a), RootTree(b)), RootTree(c)))
  {
    var ps := [a, b, c];
    assert ps[..2] == [a, b] && [a, b][..1] == [a] && [a][..0] == [];
    assert PathsToTree([a]) == Some(RootTree(a));
    assert PathsToTree([a, b]) == Some(MergeInto(PathsToTree([a]), RootTree(b)));
  }

  /** A child with a new key under the same parent is added after the
      others. */
  lemma SameParent(p: string, cs: seq<Entry>, e: Entry)
    requires forall i :: 0 <= i < |cs| ==> cs[i].key != e.key
    ensures Merge(Node("", [Entry(p, Node(p, cs))]), Node("", [Entry(p, Node(p, [e]))]))
         == Node("", [Entry(p, Node(p, cs + [e]))])
  {
    UpsertNew(cs, e);
    assert MergeChildren(cs, [e]) == cs + [e] by {
      assert MergeChildren(cs, [e]) == MergeChildren(Upsert(cs, e), []);
    }
    var a, b := Entry(p, Node(p, cs)), Entry(p, Node(p, [e]));
    assert MergeChildren([a], [b]) == [Entry(p, Node(p, cs + [e]))] by {
      assert Upsert([a], b) == [Entry(p, Merge(a.child, b.child))] + [a][1..];
    }
  }

  /** A child whose key is new is appended at the end. */
  lemma {:induction false} UpsertNew(cs: seq<Entry>, e: Entry)
    requires forall i :: 0 <= i < |cs| ==> cs[i].key != e.key
    ensures Upsert(cs, e) == cs + [e]
  {
    if |cs| > 0 {
      UpsertNew(cs[1..], e);
      assert cs == [cs[0]] + cs[1..];
    }
  }
}
