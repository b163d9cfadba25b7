/** The path listing inside `getTree` of packages/repo/src/tree.ts: every
    location of the workspace listing, then that location with its first
    segment dropped, and so on, all gathered and kept once each, in the order
    first seen. */
module RepoPaths {
  import opened Strings
  import opened Lists

  /** What the loop lists for the pieces of a location: the pieces from the
      `i`-th on, joined with `/`, for every `i`. */
  function SuffixesOf(parts: seq<string>): (r: seq<string>)
    ensures |r| == |parts|
    ensures forall i :: 0 <= i < |parts| ==> r[i] == Join(parts[i..], "/")
  {
    seq(|parts|, i requires 0 <= i < |parts| => Join(parts[i..], "/"))
  }

  /** The `while` loop over `location.split('/')`: push the pieces joined,
      then drop the first piece, until none is left. */
  method Suffixes(location: string) returns (acc: seq<string>)
    ensures acc == SuffixesOf(Split(location, '/'))
  {
    var dirs := Split(location, '/');
    ghost var parts := dirs;
    acc := [];
    while |dirs| > 0
      invariant |acc| + |dirs| == |parts|
      invariant dirs == parts[|acc|..]
      invariant acc == SuffixesOf(parts)[..|acc|]
    {
      ghost var k := |acc|;
      ghost var all := SuffixesOf(parts);
      assert all[..k + 1] == all[..k] + [Join(dirs, "/")];
      acc := acc + [Join(dirs, "/")];
      assert dirs[1..] == parts[k + 1..];
      dirs := dirs[1..];
    }
    assert acc == SuffixesOf(parts)[..|parts|];
  }

  /** The first string is the location itself. */
  lemma SuffixesFirst(location: string)
    ensures |SuffixesOf(Split(location, '/'))| >= 1
    ensures SuffixesOf(Split(location, '/'))[0] == location
  {
    var parts := Split(location, '/');
    JoinSplit(location, '/');
    assert parts[0..] == parts;
  }

  /** Each later string is the one before with its leading segment and the
      `/` after it removed, so it is strictly shorter. */
  lemma SuffixesStep(parts: seq<string>, i: nat)
    requires i + 1 < |parts|
    ensures SuffixesOf(parts)[i] == parts[i] + "/" + SuffixesOf(parts)[i + 1]
    ensures |SuffixesOf(parts)[i + 1]| < |SuffixesOf(parts)[i]|
  {
    var tail := parts[i..];
    assert tail[1..] == parts[i + 1..];
    assert tail[0] == parts[i];
  }

  /** Every string listed for a location ends the location, and the later a
      string comes the shorter it is. */
  lemma SuffixesEndLocation(location: string, i: nat)
    requires i < |Split(location, '/')|
    ensures EndsWith(location, SuffixesOf(Split(location, '/'))[i])
    ensures forall j :: i < j < |Split(location, '/')| ==>
              |SuffixesOf(Split(location, '/'))[j]| < |SuffixesOf(Split(location, '/'))[i]|
  {
    var parts := Split(location, '/');
    SuffixEnds(location, i);
    forall j | i < j < |parts| ensures |SuffixesOf(parts)[j]| < |SuffixesOf(parts)[i]| {
      LaterShorter(parts, i, j);
    }
  }

  lemma {:induction false} SuffixEnds(location: string, i: nat)
    requires i < |Split(location, '/')|
    ensures EndsWith(location, SuffixesOf(Split(location, '/'))[i])
  {
    var parts := Split(location, '/');
    var sfx := SuffixesOf(parts);
    if i == 0 {
      SuffixesFirst(location);
    } else {
      SuffixEnds(location, i - 1);
      SuffixesStep(parts, i - 1);
      var prev := sfx[i - 1];
      assert prev == (parts[i - 1] + "/") + sfx[i];
      assert location[|location| - |prev|..] == prev;
      assert location[|location| - |sfx[i]|..] == prev[|prev| - |sfx[i]|..];
    }
  }

  lemma {:induction false} LaterShorter(parts: seq<string>, i: nat, j: nat)
    requires i < j < |parts|
    ensures |SuffixesOf(parts)[j]| < |SuffixesOf(parts)[i]|
    decreases j - i
  {
    SuffixesStep(parts, i);
    if i + 1 < j {
      LaterShorter(parts, i + 1, j);
    }
  }

  /** The strings of every location, in order (`map` then `flat`). */
  function AllSuffixes(locations: seq<string>): seq<string>
  {
    if |locations| == 0 then [] else SuffixesOf(Split(locations[0], '/')) + AllSuffixes(locations[1..])
  }

  /** The paths of `getTree`: the strings of every location, each kept once,
      in the order first seen (`[...new Set(...)]`). */
  method TreePaths(locations: seq<string>) returns (paths: seq<string>)
    ensures paths == DedupeBy(AllSuffixes(locations), Same)
  {
    var all: seq<string> := [];
    for i := 0 to |locations|
      invariant AllSuffixes(locations) == all + AllSuffixes(locations[i..])
    {
      assert locations[i..][1..] == locations[i + 1..];
      var acc := Suffixes(locations[i]);
      ConcatAssoc(all, acc, AllSuffixes(locations[i + 1..]));
      all := all + acc;
    }
    assert locations[|locations|..] == [];
    assert all + [] == all;
    paths := DedupeBy(all, Same);
  }

  /** `s` is one of the strings listed for some location. */
  predicate Listed(locations: seq<string>, s: string)
  {
    exists k :: 0 <= k < |locations| && s in SuffixesOf(Split(locations[k], '/'))
  }

  lemma {:induction false} AllSuffixesMember(locations: seq<string>, s: string)
    ensures s in AllSuffixes(locations) <==> Listed(locations, s)
  {
    if |locations| > 0 {
      var rest := locations[1..];
      AllSuffixesMember(rest, s);
      var head := SuffixesOf(Split(locations[0], '/'));
      assert AllSuffixes(locations) == head + AllSuffixes(rest);
      if Listed(rest, s) {
        var k :| 0 <= k < |rest| && s in SuffixesOf(Split(rest[k], '/'));
        assert rest[k] == locations[k + 1];
      }
      if Listed(locations, s) && s !in head {
        var k :| 0 <= k < |locations| && s in SuffixesOf(Split(locations[k], '/'));
        assert k > 0;
        assert rest[k - 1] == locations[k];
      }
    }
  }

  /** The listed paths are pairwise different, a string is listed exactly
      when it is one of the strings of some location, and the paths are the
      gathered strings at their first positions, in the order gathered. */
  lemma TreePathsProperties(locations: seq<string>)
    ensures var paths := DedupeBy(AllSuffixes(locations), Same);
            (forall i, j :: 0 <= i < j < |paths| ==> paths[i] != paths[j])
            && (forall s :: s in paths <==> Listed(locations, s))
            && |paths| == |FirstIndices(AllSuffixes(locations), Same)|
            && forall k :: 0 <= k < |paths| ==>
                 paths[k] == AllSuffixes(locations)[FirstIndices(AllSuffixes(locations), Same)[k]]
  {
    var all := AllSuffixes(locations);
    var paths := DedupeBy(all, Same);
    DedupeByProperties(all, Same);
    DedupeByFirst(all, Same);
    DedupeBySameKeys(all, Same);
    assert Map(paths, Same) == paths;
    assert Map(all, Same) == all;
    forall s ensures s in paths <==> Listed(locations, s) {
      AllSuffixesMember(locations, s);
    }
  }
}
