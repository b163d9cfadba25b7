/** JavaScript objects (and `Map`s) with string keys, as the list of their
    entries in insertion order: assigning to a key that is already present
    keeps its position, a new key goes last. Integer-like keys, which
    JavaScript lists first, are not distinguished. */
module Records {
  import opened Wrappers
  import opened Lists

  type Record<V> = seq<(string, V)>

  function Keys<V>(o: Record<V>): (ks: seq<string>)
    ensures |ks| == |o|
    ensures forall i :: 0 <= i < |o| ==> ks[i] == o[i].0
  {
    Map(o, (p: (string, V)) => p.0)
  }

  /** `o[k]`, None standing for `undefined`. */
  function Get<V>(o: Record<V>, k: string): (r: Option<V>)
    ensures r.None? <==> k !in Keys(o)
  {
    if |o| == 0 then None
    else if o[0].0 == k then Some(o[0].1)
    else Get(o[1..], k)
  }

  predicate KeysDistinct<V>(o: Record<V>)
  {
    forall i, j :: 0 <= i < j < |o| ==> o[i].0 != o[j].0
  }

  /** `{...o, [k]: v}`, or `o.set(k, v)` on a `Map`. */
  function Set<V>(o: Record<V>, k: string, v: V): (r: Record<V>)
    ensures Keys(r) == if k in Keys(o) then Keys(o) else Keys(o) + [k]
  {
    if |o| == 0 then [(k, v)]
    else if o[0].0 == k then [(k, v)] + o[1..]
    else [o[0]] + Set(o[1..], k, v)
  }

  /** Reading back a key just set gives the new value; every other key reads as
      before; keys stay pairwise different. */
  lemma {:induction false} SetGet<V>(o: Record<V>, k: string, v: V)
    requires KeysDistinct(o)
    ensures Get(Set(o, k, v), k) == Some(v)
    ensures forall k' :: k' != k ==> Get(Set(o, k, v), k') == Get(o, k')
    ensures KeysDistinct(Set(o, k, v))
  {
    SetGetFirst(o, k, v);
    SetKeepsDistinct(o, k, v);
  }

  lemma SetKeepsDistinct<V>(o: Record<V>, k: string, v: V)
    requires KeysDistinct(o)
    ensures KeysDistinct(Set(o, k, v))
  {
    var r := Set(o, k, v);
    var ko, kr := Keys(o), Keys(r);
    forall i, j | 0 <= i < j < |r| ensures r[i].0 != r[j].0 {
      assert r[i].0 == kr[i] && r[j].0 == kr[j];
      if j < |o| {
        assert kr[i] == ko[i] && kr[j] == ko[j];
      }
    }
  }

  /** The same without distinct keys: `Get` and `Set` both act on the first
      entry with the key. */
  lemma {:induction false} SetGetFirst<V>(o: Record<V>, k: string, v: V)
    ensures Get(Set(o, k, v), k) == Some(v)
    ensures forall k' :: k' != k ==> Get(Set(o, k, v), k') == Get(o, k')
  {
    if |o| > 0 && o[0].0 != k {
      SetGetFirst(o[1..], k, v);
      var r := Set(o, k, v);
      assert r[0] == o[0] && r[1..] == Set(o[1..], k, v);
    }
  }

  /** Assigning to a key that is present keeps every entry's key and changes
      only the value of the entry `Get` reads. */
  lemma {:induction false} SetAt<V>(o: Record<V>, k: string, v: V)
    requires k in Keys(o)
    ensures |Set(o, k, v)| == |o|
    ensures forall i :: 0 <= i < |o| ==> Set(o, k, v)[i].0 == o[i].0
    ensures forall i :: 0 <= i < |o| ==>
              Set(o, k, v)[i].1 == o[i].1 || (o[i].0 == k && Set(o, k, v)[i].1 == v && Get(o, k) == Some(o[i].1))
  {
    var r := Set(o, k, v);
    if o[0].0 == k {
      assert r[1..] == o[1..];
    } else {
      assert Keys(o) == [o[0].0] + Keys(o[1..]);
      SetAt(o[1..], k, v);
      assert r[0] == o[0] && r[1..] == Set(o[1..], k, v);
      forall i | 1 <= i < |o| ensures r[i] == Set(o[1..], k, v)[i - 1] && o[i] == o[1..][i - 1] { }
    }
  }

  lemma KeysCons<V>(p: (string, V), o: Record<V>)
    ensures Keys([p] + o) == [p.0] + Keys(o)
  {
    var l, r := Keys([p] + o), [p.0] + Keys(o);
    forall i | 1 <= i < |l| ensures l[i] == r[i] {
      assert ([p] + o)[i] == o[i - 1];
    }
  }
}
