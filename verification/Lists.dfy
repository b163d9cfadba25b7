/** Generic sequence helpers: `map`, `flat`, and the first-occurrence
    de-duplication written in the sources as
    `filter((it, idx, arr) => arr.findIndex(...) === idx)` or `[...new Set(xs)]`. */
module Lists {

  function Map<T, U>(s: seq<T>, f: T -> U): (r: seq<U>)
    ensures |r| == |s|
    ensures forall i :: 0 <= i < |s| ==> r[i] == f(s[i])
  {
    if |s| == 0 then [] else [f(s[0])] + Map(s[1..], f)
  }

  lemma {:induction false} MapConcat<T, U>(a: seq<T>, b: seq<T>, f: T -> U)
    ensures Map(a + b, f) == Map(a, f) + Map(b, f)
  {
    var l, r := Map(a + b, f), Map(a, f) + Map(b, f);
    assert |l| == |r|;
    forall i | 0 <= i < |l| ensures l[i] == r[i] {
      if i < |a| { assert (a + b)[i] == a[i]; } else { assert (a + b)[i] == b[i - |a|]; }
    }
  }

  /** `s.filter(p)`: the elements satisfying `p`, in order. */
  function Filter<T>(s: seq<T>, p: T -> bool): (r: seq<T>)
    ensures |r| <= |s|
    ensures forall x :: x in r ==> x in s && p(x)
    ensures forall x :: x in s && p(x) ==> x in r
  {
    if |s| == 0 then [] else (if p(s[0]) then [s[0]] else []) + Filter(s[1..], p)
  }

  /** Filtering a concatenation filters each part, keeping the parts'
      order. */
  lemma {:induction false} FilterConcat<T>(a: seq<T>, b: seq<T>, p: T -> bool)
    ensures Filter(a + b, p) == Filter(a, p) + Filter(b, p)
    decreases |a|
  {
    if |a| > 0 {
      FilterConcat(a[1..], b, p);
      var h := if p(a[0]) then [a[0]] else [];
      assert (a + b)[0] == a[0] && (a + b)[1..] == a[1..] + b;
      assert Filter(a + b, p) == h + Filter(a[1..] + b, p);
      assert Filter(a, p) == h + Filter(a[1..], p);
    } else {
      assert a + b == b;
    }
  }

  /** One element is kept exactly when it satisfies the test. */
  lemma FilterOne<T>(x: T, p: T -> bool)
    ensures Filter([x], p) == if p(x) then [x] else []
  {
    assert [x][1..] == [];
  }

  /** Filtering keeps a part that passes the test whole and drops a part
      that fails it. */
  lemma FilterDropsMiddle<T>(a: seq<T>, m: seq<T>, b: seq<T>, p: T -> bool)
    requires forall i :: 0 <= i < |a| ==> p(a[i])
    requires forall i :: 0 <= i < |m| ==> !p(m[i])
    requires forall i :: 0 <= i < |b| ==> p(b[i])
    ensures Filter(a + m + b, p) == a + b
  {
    FilterAll(a, p);
    FilterAll(b, p);
    FilterNone(m, p);
    FilterConcat(a, m, p);
    assert Filter(a + m, p) == a;
    FilterConcat(a + m, b, p);
  }

  lemma {:induction false} FilterAll<T>(s: seq<T>, p: T -> bool)
    requires forall i :: 0 <= i < |s| ==> p(s[i])
    ensures Filter(s, p) == s
  {
    if |s| > 0 {
      FilterAll(s[1..], p);
      assert s == [s[0]] + s[1..];
    }
  }

  lemma {:induction false} FilterNone<T>(s: seq<T>, p: T -> bool)
    requires forall i :: 0 <= i < |s| ==> !p(s[i])
    ensures Filter(s, p) == []
  {
    if |s| > 0 {
      FilterNone(s[1..], p);
    }
  }

  /** `xss.flat()` for one level of nesting. */
  function Flatten<T>(xss: seq<seq<T>>): seq<T>
  {
    if |xss| == 0 then [] else xss[0] + Flatten(xss[1..])
  }

  /** Keeps `s[i]` exactly when no earlier element has the same key. */
  function DedupeBy<T, K(==)>(s: seq<T>, key: T -> K): seq<T>
  {
    if |s| == 0 then []
    else
      var init := s[..|s| - 1];
      if key(s[|s| - 1]) in Map(init, key) then DedupeBy(init, key)
      else DedupeBy(init, key) + [s[|s| - 1]]
  }

  predicate DistinctKeys<T, K(==)>(s: seq<T>, key: T -> K)
  {
    forall i, j :: 0 <= i < j < |s| ==> key(s[i]) != key(s[j])
  }

  /** The kept elements have pairwise different keys, every element kept comes
      from the input, and every key of the input is kept. */
  lemma DedupeByProperties<T, K>(s: seq<T>, key: T -> K)
    ensures DistinctKeys(DedupeBy(s, key), key)
    ensures forall x :: x in DedupeBy(s, key) ==> x in s
    ensures forall i :: 0 <= i < |s| ==> key(s[i]) in Map(DedupeBy(s, key), key)
  {
    DedupeByKept(s, key);
    DedupeByDistinctKeys(s, key);
    DedupeByCovers(s, key);
  }

  lemma {:induction false} DedupeByKept<T, K>(s: seq<T>, key: T -> K)
    ensures forall x :: x in DedupeBy(s, key) ==> x in s
  {
    if |s| > 0 {
      var init := s[..|s| - 1];
      DedupeByKept(init, key);
      forall x | x in DedupeBy(init, key) ensures x in s {
        var j :| 0 <= j < |init| && init[j] == x;
        assert s[j] == x;
      }
    }
  }

  lemma {:induction false} DedupeByDistinctKeys<T, K>(s: seq<T>, key: T -> K)
    ensures DistinctKeys(DedupeBy(s, key), key)
  {
    if |s| > 0 {
      var init := s[..|s| - 1];
      var last := s[|s| - 1];
      DedupeByDistinctKeys(init, key);
      DedupeByKept(init, key);
      var d := DedupeBy(init, key);
      if key(last) !in Map(init, key) {
        forall k | 0 <= k < |d| ensures key(d[k]) != key(last) {
          assert d[k] in d;
          var j :| 0 <= j < |init| && init[j] == d[k];
          assert Map(init, key)[j] == key(d[k]);
        }
        assert DedupeBy(s, key) == d + [last];
      }
    }
  }

  lemma {:induction false} DedupeByCovers<T, K>(s: seq<T>, key: T -> K)
    ensures forall i :: 0 <= i < |s| ==> key(s[i]) in Map(DedupeBy(s, key), key)
  {
    if |s| > 0 {
      var init := s[..|s| - 1];
      var last := s[|s| - 1];
      DedupeByCovers(init, key);
      var d := DedupeBy(init, key);
      forall i | 0 <= i < |init| ensures key(s[i]) in Map(d, key) {
        assert s[i] == init[i];
      }
      if key(last) !in Map(init, key) {
        MapConcat(d, [last], key);
        assert DedupeBy(s, key) == d + [last];
      }
    }
  }

  /** The positions of the first element with each key, in increasing
      order. */
  function FirstIndices<T, K(==)>(s: seq<T>, key: T -> K): (idx: seq<nat>)
    ensures forall k :: 0 <= k < |idx| ==> idx[k] < |s|
    ensures forall k, l :: 0 <= k < l < |idx| ==> idx[k] < idx[l]
  {
    if |s| == 0 then []
    else
      var init := s[..|s| - 1];
      FirstIndices(init, key) + (if key(s[|s| - 1]) in Map(init, key) then [] else [|s| - 1])
  }

  /** A position is listed exactly when no earlier element has the same
      key. */
  lemma {:induction false} FirstIndicesFirst<T, K>(s: seq<T>, key: T -> K, i: nat)
    requires i < |s|
    ensures i in FirstIndices(s, key) <==> key(s[i]) !in Map(s[..i], key)
  {
    var init := s[..|s| - 1];
    var last := if key(s[|s| - 1]) in Map(init, key) then [] else [|s| - 1];
    assert FirstIndices(s, key) == FirstIndices(init, key) + last;
    if i < |s| - 1 {
      FirstIndicesFirst(init, key, i);
      assert init[..i] == s[..i] && init[i] == s[i];
    } else {
      assert |s| - 1 !in FirstIndices(init, key);
      assert s[..i] == init;
    }
  }

  /** De-duplication keeps exactly the elements at the first positions of
      their keys, in the order of the input. */
  lemma {:induction false} DedupeByFirst<T, K>(s: seq<T>, key: T -> K)
    ensures |DedupeBy(s, key)| == |FirstIndices(s, key)|
    ensures forall k :: 0 <= k < |DedupeBy(s, key)| ==> DedupeBy(s, key)[k] == s[FirstIndices(s, key)[k]]
  {
    if |s| > 0 {
      var init := s[..|s| - 1];
      DedupeByFirst(init, key);
      var d, idx := DedupeBy(init, key), FirstIndices(init, key);
      forall k | 0 <= k < |d| ensures d[k] == s[idx[k]] {
        assert init[idx[k]] == s[idx[k]];
      }
    }
  }

  /** When no key repeats, de-duplication keeps everything, in order. */
  lemma {:induction false} DedupeByDistinct<T, K>(s: seq<T>, key: T -> K)
    requires DistinctKeys(s, key)
    ensures DedupeBy(s, key) == s
  {
    if |s| > 0 {
      var init := s[..|s| - 1];
      DedupeByDistinct(init, key);
      assert key(s[|s| - 1]) !in Map(init, key) by {
        forall j | 0 <= j < |init| ensures Map(init, key)[j] != key(s[|s| - 1]) {
          assert init[j] == s[j];
        }
      }
      assert init + [s[|s| - 1]] == s;
    }
  }

  /** De-duplication keeps exactly the keys of the input. */
  lemma DedupeBySameKeys<T, K>(s: seq<T>, key: T -> K)
    ensures forall k :: k in Map(DedupeBy(s, key), key) <==> k in Map(s, key)
  {
    DedupeByProperties(s, key);
    var d := DedupeBy(s, key);
    forall k | k in Map(d, key) ensures k in Map(s, key) {
      var i :| 0 <= i < |d| && Map(d, key)[i] == k;
      assert d[i] in s;
      var j :| 0 <= j < |s| && s[j] == d[i];
      assert Map(s, key)[j] == k;
    }
  }

  /** The identity on strings: the key `[...new Set(xs)]` and
      `arr.indexOf(it) === idx` compare by. */
  function Same(s: string): string
  {
    s
  }

  /** Regrouping a concatenation, stated apart so that callers prove it in an
      empty context. */
  lemma ConcatAssoc<T>(x: seq<T>, y: seq<T>, z: seq<T>)
    ensures x + (y + z) == (x + y) + z
  {
  }
}
