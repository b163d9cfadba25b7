/** `resolveRef`, `getSubSchemas`, the de-duplication of sub-schemas and the
    error conditions of `loadConfig` in packages/config/src/loadConfig.ts.
    The file system, `require` of a JSON file, `nanoid`, cosmiconfig's search
    and jsonschema's validator are parameters. The schema object that
    `getSubSchemas` rewrites in place is modelled as a value: the walk returns
    the rewritten schema beside the entries it collects. */
module LoadConfig {
  import opened Wrappers
  import opened Strings
  import opened Lists
  import opened PosixPath
  import opened Json
  import Records

  /** What the code reaches outside itself for. `moduleDir` is the module's
      `__dirname`; `load` is `require` of a JSON file holding an object; the
      `k`-th call of `nanoid` gives `nanoid(k)`. */
  datatype Env = Env(
    cwd: string,
    moduleDir: string,
    fileExists: string -> bool,
    load: string -> Result<seq<(string, Json)>>,
    nanoid: nat -> string)

  const SchemasDir: string := "../schemas"
  const RefKey: string := "$ref"
  const IdKey: string := "id"
  /** The TypeError of calling `startsWith` on a `$ref` that is not a string. */
  const NotAFunction: string := "schema.$ref?.startsWith is not a function"
  /** The TypeError of `require(undefined)`. */
  const MissingSchema: string := "The \"id\" argument must be of type string. Received undefined"

  /** `resolveRef(ref, rootDir)`: the bundled schema if it exists, else the one
      under `rootDir` if it exists, else nothing. */
  function ResolveRef(env: Env, ref: string, rootDir: string): (r: Option<string>)
    ensures var internal := Resolve(env.cwd, [env.moduleDir, SchemasDir, ref]);
            var external := Resolve(env.cwd, [rootDir, ref]);
            (env.fileExists(internal) ==> r == Some(internal))
            && (!env.fileExists(internal) && env.fileExists(external) ==> r == Some(external))
            && (!env.fileExists(internal) && !env.fileExists(external) ==> r == None)
  {
    var internal := Resolve(env.cwd, [env.moduleDir, SchemasDir, ref]);
    var external := Resolve(env.cwd, [rootDir, ref]);
    var paths := [internal, external];
    assert paths[1..] == [external];
    var found := Filter(paths, env.fileExists);
    assert |found| > 0 ==> found[0] in found;
    if |found| > 0 then Some(found[0]) else None
  }

  /** `{ path, schema }`: a loaded schema registered under `path`. */
  datatype SubSchema = SubSchema(path: string, schema: Json)

  /** The outcome of walking a value: the value as rewritten, the entries
      collected and the number of `nanoid` calls made so far. */
  datatype Walk<T> = Walk(node: T, entries: seq<SubSchema>, next: nat)

  function PathOf(e: SubSchema): string
  {
    e.path
  }

  predicate IsRelative(ref: string)
  {
    StartsWith(ref, ".")
  }

  /** The ids handed out by the calls numbered `from` up to `to`. */
  function Ids(env: Env, from: nat, to: nat): (r: seq<string>)
    requires from <= to
    ensures |r| == to - from
    ensures forall i :: 0 <= i < to - from ==> r[i] == "/" + env.nanoid(from + i)
  {
    seq(to - from, i requires 0 <= i < to - from => "/" + env.nanoid(from + i))
  }

  lemma IdsConcat(env: Env, a: nat, b: nat, c: nat)
    requires a <= b <= c
    ensures Ids(env, a, b) + Ids(env, b, c) == Ids(env, a, c)
  {
    var l, r := Ids(env, a, b) + Ids(env, b, c), Ids(env, a, c);
    forall i | 0 <= i < c - a ensures l[i] == r[i] {
      if i >= b - a { assert l[i] == Ids(env, b, c)[i - (b - a)]; }
    }
  }

  /** `getSubSchemas(schema, rootDir)`, started at the `n`-th `nanoid` call.
      A falsy value or a string gives nothing. A node whose `$ref` is a string
      starting with `.` is handled by `ReplaceRef`, without looking inside it
      any further; a `$ref` of another kind than string or null throws. Any
      other node gives the entries of its values, in order. The ids of the
      entries are the ids handed out, in order. */
  function GetSubSchemas(env: Env, rootDir: string, schema: Json, n: nat): (r: Result<Walk<Json>>)
    ensures !Truthy(schema) || schema.JStr? ==> r == Ok(Walk(schema, [], n))
    ensures r.Ok? ==> r.value.next == n + |r.value.entries| && Map(r.value.entries, PathOf) == Ids(env, n, r.value.next)
    ensures var ref := Field(schema, RefKey);
            Truthy(schema) && ref.Some? && ref.value.JStr? && IsRelative(ref.value.s) ==>
              r == ReplaceRef(env, rootDir, schema.fields, ref.value.s, n)
    ensures var ref := Field(schema, RefKey);
            Truthy(schema) && ref.Some? && !ref.value.JNull? && !ref.value.JStr? ==> r == Err(NotAFunction)
    decreases schema, 3
  {
    var ref := Field(schema, RefKey);
    if !Truthy(schema) || schema.JStr? then Ok(Walk(schema, [], n))
    else if ref.Some? && ref.value.JStr? && IsRelative(ref.value.s) then
      ReplaceRef(env, rootDir, schema.fields, ref.value.s, n)
    else if ref.Some? && !ref.value.JNull? && !ref.value.JStr? then Err(NotAFunction)
    else WalkValues(env, rootDir, schema, n)
  }

  /** The entries of the values of an object or an array, in order; any
      other value gives nothing. */
  function WalkValues(env: Env, rootDir: string, schema: Json, n: nat): (r: Result<Walk<Json>>)
    ensures r.Ok? ==> r.value.next == n + |r.value.entries| && Map(r.value.entries, PathOf) == Ids(env, n, r.value.next)
    decreases schema, 2
  {
    if schema.JObj? then
      FieldsBelow(schema);
      var w := WalkFields(env, rootDir, schema, schema.fields, n);
      if w.Err? then Err(w.msg) else Ok(Walk(JObj(w.value.node), w.value.entries, w.value.next))
    else if schema.JArr? then
      var w := WalkItems(env, rootDir, schema.items, n);
      if w.Err? then Err(w.msg) else Ok(Walk(JArr(w.value.node), w.value.entries, w.value.next))
    else Ok(Walk(schema, [], n))
  }

  lemma FieldsBelow(j: Json)
    requires j.JObj?
    ensures forall i :: 0 <= i < |j.fields| ==> j.fields[i].1 < j
  {
    forall i | 0 <= i < |j.fields| ensures j.fields[i].1 < j {
      assert j.fields[i] in j.fields;
    }
  }

  lemma OneId(env: Env, n: nat, e: SubSchema)
    requires e.path == "/" + env.nanoid(n)
    ensures Map([e], PathOf) == Ids(env, n, n + 1)
  {
    assert Map([e], PathOf) == [e.path];
  }

  /** A relative `$ref`: the `n`-th id is written over it and names the one
      entry, the referenced schema (looked up before the id is made) with its
      `id` set to the same id. Every other property of the node, and of the
      loaded schema, reads as before. A reference that resolves to no file, or a file
      that does not load, throws. */
  function ReplaceRef(env: Env, rootDir: string, fields: seq<(string, Json)>, ref: string, n: nat): (r: Result<Walk<Json>>)
    ensures r.Ok? ==> r.value.next == n + 1 && |r.value.entries| == 1
    ensures r.Ok? ==> Map(r.value.entries, PathOf) == Ids(env, n, n + 1)
    ensures r.Ok? <==> ResolveRef(env, ref, rootDir).Some? && env.load(ResolveRef(env, ref, rootDir).value).Ok?
    ensures r.Ok? ==> var id := "/" + env.nanoid(n);
                      Field(r.value.node, RefKey) == Some(JStr(id))
                      && r.value.entries[0].path == id && Field(r.value.entries[0].schema, IdKey) == Some(JStr(id))
    ensures r.Ok? ==> forall k :: k != RefKey ==> Field(r.value.node, k) == Field(JObj(fields), k)
    ensures r.Ok? ==> var loaded := env.load(ResolveRef(env, ref, rootDir).value).value;
                      forall k :: k != IdKey ==> Field(r.value.entries[0].schema, k) == Field(JObj(loaded), k)
  {
    var schemaPath := ResolveRef(env, ref, rootDir);
    var id := "/" + env.nanoid(n);
    var loaded := if schemaPath.Some? then env.load(schemaPath.value) else Err(MissingSchema);
    if loaded.Err? then Err(loaded.msg)
    else
      Records.SetGetFirst(fields, RefKey, JStr(id));
      Records.SetGetFirst(loaded.value, IdKey, JStr(id));
      OneId(env, n, SubSchema(id, JObj(Records.Set(loaded.value, IdKey, JStr(id)))));
      Ok(Walk(JObj(Records.Set(fields, RefKey, JStr(id))), [SubSchema(id, JObj(Records.Set(loaded.value, IdKey, JStr(id))))], n + 1))
  }

  /** The walk over `Object.values` of an object, keeping its keys; `parent`
      is the object the fields belong to. */
  function WalkFields(env: Env, rootDir: string, ghost parent: Json, fs: seq<(string, Json)>, n: nat): (r: Result<Walk<seq<(string, Json)>>>)
    requires forall i :: 0 <= i < |fs| ==> fs[i].1 < parent
    ensures r.Ok? ==> r.value.next == n + |r.value.entries| && Map(r.value.entries, PathOf) == Ids(env, n, r.value.next)
    ensures r.Ok? ==> Records.Keys(r.value.node) == Records.Keys(fs)
    decreases parent, 1, |fs|
  {
    if |fs| == 0 then Ok(Walk([], [], n))
    else
      var h := GetSubSchemas(env, rootDir, fs[0].1, n);
      if h.Err? then Err(h.msg)
      else
        var rest := fs[1..];
        assert forall i :: 0 <= i < |rest| ==> rest[i] == fs[i + 1];
        var t := WalkFields(env, rootDir, parent, rest, h.value.next);
        if t.Err? then Err(t.msg)
        else
          MapConcat(h.value.entries, t.value.entries, PathOf);
          IdsConcat(env, n, h.value.next, t.value.next);
          var node := [(fs[0].0, h.value.node)] + t.value.node;
          Records.KeysCons((fs[0].0, h.value.node), t.value.node);
          Records.KeysCons(fs[0], rest);
          assert [fs[0]] + rest == fs;
          Ok(Walk(node, h.value.entries + t.value.entries, t.value.next))
  }

  /** The walk over the elements of an array. */
  function WalkItems(env: Env, rootDir: string, xs: seq<Json>, n: nat): (r: Result<Walk<seq<Json>>>)
    ensures r.Ok? ==> r.value.next == n + |r.value.entries| && Map(r.value.entries, PathOf) == Ids(env, n, r.value.next)
    ensures r.Ok? ==> |r.value.node| == |xs|
    decreases xs, 1
  {
    if |xs| == 0 then Ok(Walk([], [], n))
    else
      var h := GetSubSchemas(env, rootDir, xs[0], n);
      if h.Err? then Err(h.msg)
      else
        var t := WalkItems(env, rootDir, xs[1..], h.value.next);
        if t.Err? then Err(t.msg)
        else
          MapConcat(h.value.entries, t.value.entries, PathOf);
          IdsConcat(env, n, h.value.next, t.value.next);
          Ok(Walk([h.value.node] + t.value.node, h.value.entries + t.value.entries, t.value.next))
  }

  // ---------------------------------------------------------------------------
  // What the walk changes

  /** The entry of an object whose `$ref`, a relative reference, became an id. */
  predicate RefReplaced(field: (string, Json), v: Json)
  {
    field.0 == RefKey && field.1.JStr? && IsRelative(field.1.s) && v.JStr? && StartsWith(v.s, "/")
  }

  /** `b` is `a` with some relative `$ref` strings replaced by ids: same shape,
      same keys, every other value the same. */
  predicate Rewritten(a: Json, b: Json)
    decreases a
  {
    match a
    case JObj(fs) =>
      b.JObj? && |b.fields| == |fs|
      && forall i :: 0 <= i < |fs| ==>
           b.fields[i].0 == fs[i].0 && (RefReplaced(fs[i], b.fields[i].1) || Rewritten(fs[i].1, b.fields[i].1))
    case JArr(xs) => b.JArr? && |b.items| == |xs| && forall i :: 0 <= i < |xs| ==> Rewritten(xs[i], b.items[i])
    case _ => b == a
  }

  lemma {:induction false} RewrittenRefl(a: Json)
    ensures Rewritten(a, a)
    decreases a
  {
    match a
    case JObj(fs) =>
      forall i | 0 <= i < |fs| ensures Rewritten(fs[i].1, fs[i].1) {
        RewrittenRefl(fs[i].1);
      }
    case JArr(xs) =>
      forall i | 0 <= i < |xs| ensures Rewritten(xs[i], xs[i]) {
        RewrittenRefl(xs[i]);
      }
    case _ =>
  }

  /** The schema is changed only where a relative `$ref` was: such a string
      becomes a `/`-id, and nothing else, a non-relative `$ref` included, is
      touched. */
  lemma {:induction false} WalkRewrites(env: Env, rootDir: string, schema: Json, n: nat)
    ensures var r := GetSubSchemas(env, rootDir, schema, n);
            r.Ok? ==> Rewritten(schema, r.value.node)
    decreases schema, 3
  {
    var r := GetSubSchemas(env, rootDir, schema, n);
    var ref := Field(schema, RefKey);
    if r.Ok? {
      if !Truthy(schema) || schema.JStr? {
        RewrittenRefl(schema);
      } else if ref.Some? && ref.value.JStr? && IsRelative(ref.value.s) {
        var id := "/" + env.nanoid(n);
        assert r.value.node == JObj(Records.Set(schema.fields, RefKey, JStr(id)));
        RefRewritten(schema, id);
      } else if schema.JObj? {
        WalkFieldsRewrites(env, rootDir, schema, schema.fields, n);
      } else if schema.JArr? {
        WalkItemsRewrites(env, rootDir, schema.items, n);
      }
    }
  }

  /** Writing an id over a relative `$ref` is a rewrite. */
  lemma RefRewritten(schema: Json, id: string)
    requires schema.JObj? && StartsWith(id, "/")
    requires var ref := Field(schema, RefKey); ref.Some? && ref.value.JStr? && IsRelative(ref.value.s)
    ensures Rewritten(schema, JObj(Records.Set(schema.fields, RefKey, JStr(id))))
  {
    var fs := schema.fields;
    Records.SetAt(fs, RefKey, JStr(id));
    var b := JObj(Records.Set(fs, RefKey, JStr(id)));
    assert Field(schema, RefKey) == Records.Get(fs, RefKey);
    forall i | 0 <= i < |fs|
      ensures b.fields[i].0 == fs[i].0 && (RefReplaced(fs[i], b.fields[i].1) || Rewritten(fs[i].1, b.fields[i].1))
    {
      if b.fields[i].1 == fs[i].1 {
        RewrittenRefl(fs[i].1);
      }
    }
  }

  lemma {:induction false} WalkFieldsRewrites(env: Env, rootDir: string, parent: Json, fs: seq<(string, Json)>, n: nat)
    requires forall i :: 0 <= i < |fs| ==> fs[i].1 < parent
    ensures var r := WalkFields(env, rootDir, parent, fs, n);
            r.Ok? ==> forall i :: 0 <= i < |fs| ==> Rewritten(fs[i].1, r.value.node[i].1)
    decreases parent, 1, |fs|
  {
    var r := WalkFields(env, rootDir, parent, fs, n);
    if r.Ok? && |fs| > 0 {
      var h := GetSubSchemas(env, rootDir, fs[0].1, n);
      WalkRewrites(env, rootDir, fs[0].1, n);
      WalkFieldsRewrites(env, rootDir, parent, fs[1..], h.value.next);
      var t := WalkFields(env, rootDir, parent, fs[1..], h.value.next);
      assert r.value.node == [(fs[0].0, h.value.node)] + t.value.node;
      assert |Records.Keys(r.value.node)| == |fs|;
      forall i | 1 <= i < |fs| ensures Rewritten(fs[i].1, r.value.node[i].1) {
        assert fs[i] == fs[1..][i - 1] && r.value.node[i] == t.value.node[i - 1];
      }
    }
  }

  lemma {:induction false} WalkItemsRewrites(env: Env, rootDir: string, xs: seq<Json>, n: nat)
    ensures var r := WalkItems(env, rootDir, xs, n);
            r.Ok? ==> forall i :: 0 <= i < |xs| ==> Rewritten(xs[i], r.value.node[i])
    decreases xs, 1
  {
    var r := WalkItems(env, rootDir, xs, n);
    if r.Ok? && |xs| > 0 {
      var h := GetSubSchemas(env, rootDir, xs[0], n);
      WalkRewrites(env, rootDir, xs[0], n);
      WalkItemsRewrites(env, rootDir, xs[1..], h.value.next);
      var t := WalkItems(env, rootDir, xs[1..], h.value.next);
      assert r.value.node == [h.value.node] + t.value.node;
      forall i | 1 <= i < |xs| ensures Rewritten(xs[i], r.value.node[i]) {
        assert xs[i] == xs[1..][i - 1] && r.value.node[i] == t.value.node[i - 1];
      }
    }
  }

  /** Every object the walk reaches that carries a relative `$ref` has no
      other property, as in `{"$ref": "./other.json"}`. */
  predicate RefsAlone(j: Json)
    decreases j
  {
    var ref := Field(j, RefKey);
    if !Truthy(j) || j.JStr? then true
    else if ref.Some? && ref.value.JStr? && IsRelative(ref.value.s) then |j.fields| == 1
    else if j.JObj? then
      FieldsBelow(j);
      forall i :: 0 <= i < |j.fields| ==> RefsAlone(j.fields[i].1)
    else if j.JArr? then forall i :: 0 <= i < |j.items| ==> RefsAlone(j.items[i])
    else true
  }

  /** Walking a schema the walk has already rewritten finds nothing more: the
      ids written over the references start with `/`, not `.`, so when no
      relative `$ref` shares its object with other properties a second walk
      gives the schema back as it is and collects no entries. */
  lemma {:induction false} RewalkFindsNothing(env: Env, rootDir: string, schema: Json, n: nat, m: nat)
    requires RefsAlone(schema) && GetSubSchemas(env, rootDir, schema, n).Ok?
    ensures var w := GetSubSchemas(env, rootDir, schema, n).value;
            GetSubSchemas(env, rootDir, w.node, m) == Ok(Walk(w.node, [], m))
    decreases schema, 3
  {
    var w := GetSubSchemas(env, rootDir, schema, n).value;
    var ref := Field(schema, RefKey);
    if !Truthy(schema) || schema.JStr? {
    } else if ref.Some? && ref.value.JStr? && IsRelative(ref.value.s) {
      var id := "/" + env.nanoid(n);
      assert schema.fields == [(RefKey, ref.value)];
      assert w.node == JObj([(RefKey, JStr(id))]);
      RewalkId(env, rootDir, id, m);
    } else if schema.JObj? {
      FieldsBelow(schema);
      var fw := WalkFields(env, rootDir, schema, schema.fields, n).value;
      assert w.node == JObj(fw.node);
      if ref.Some? {
        WalkFieldsKeepsLeaves(env, rootDir, schema, schema.fields, n, RefKey);
      }
      assert Field(w.node, RefKey) == ref;
      FieldsBelow(w.node);
      RewalkFields(env, rootDir, schema, schema.fields, n, w.node, m);
    } else if schema.JArr? {
      RewalkItems(env, rootDir, schema.items, n, m);
    }
  }

  /** An object whose only property is a `$ref` holding an id walks to itself. */
  lemma RewalkId(env: Env, rootDir: string, id: string, m: nat)
    requires StartsWith(id, "/")
    ensures var node := JObj([(RefKey, JStr(id))]);
            GetSubSchemas(env, rootDir, node, m) == Ok(Walk(node, [], m))
  {
    var f := [(RefKey, JStr(id))];
    var node := JObj(f);
    assert !IsRelative(id) by { assert id[0] == '/'; }
    assert Field(node, RefKey) == Some(JStr(id));
    assert f[1..] == [];
    assert WalkFields(env, rootDir, node, f[1..], m) == Ok(Walk([], [], m));
    assert WalkFields(env, rootDir, node, f, m) == Ok(Walk(f, [], m)) by {
      assert [(RefKey, JStr(id))] + [] == f;
    }
  }

  lemma {:induction false} RewalkFields(env: Env, rootDir: string, parent: Json, fs: seq<(string, Json)>, n: nat,
                                        parent2: Json, m: nat)
    requires forall i :: 0 <= i < |fs| ==> fs[i].1 < parent && RefsAlone(fs[i].1)
    requires WalkFields(env, rootDir, parent, fs, n).Ok?
    requires var fs2 := WalkFields(env, rootDir, parent, fs, n).value.node;
             forall i :: 0 <= i < |fs2| ==> fs2[i].1 < parent2
    ensures var fs2 := WalkFields(env, rootDir, parent, fs, n).value.node;
            WalkFields(env, rootDir, parent2, fs2, m) == Ok(Walk(fs2, [], m))
    decreases parent, 1, |fs|
  {
    var fs2 := WalkFields(env, rootDir, parent, fs, n).value.node;
    if |fs| > 0 {
      var h := GetSubSchemas(env, rootDir, fs[0].1, n);
      var t := WalkFields(env, rootDir, parent, fs[1..], h.value.next);
      assert fs2 == [(fs[0].0, h.value.node)] + t.value.node;
      assert fs2[1..] == t.value.node;
      RewalkFindsNothing(env, rootDir, fs[0].1, n, m);
      RewalkFields(env, rootDir, parent, fs[1..], h.value.next, parent2, m);
    }
  }

  lemma {:induction false} RewalkItems(env: Env, rootDir: string, xs: seq<Json>, n: nat, m: nat)
    requires forall i :: 0 <= i < |xs| ==> RefsAlone(xs[i])
    requires WalkItems(env, rootDir, xs, n).Ok?
    ensures var xs2 := WalkItems(env, rootDir, xs, n).value.node;
            WalkItems(env, rootDir, xs2, m) == Ok(Walk(xs2, [], m))
    decreases xs, 1
  {
    var xs2 := WalkItems(env, rootDir, xs, n).value.node;
    if |xs| > 0 {
      var h := GetSubSchemas(env, rootDir, xs[0], n);
      var t := WalkItems(env, rootDir, xs[1..], h.value.next);
      assert xs2 == [h.value.node] + t.value.node;
      assert xs2[1..] == t.value.node;
      RewalkFindsNothing(env, rootDir, xs[0], n, m);
      RewalkItems(env, rootDir, xs[1..], h.value.next, m);
    }
  }

  /** The walk gives `null`, other falsy values and strings back as they are,
      so a property holding one reads the same afterwards. */
  lemma {:induction false} WalkFieldsKeepsLeaves(env: Env, rootDir: string, parent: Json, fs: seq<(string, Json)>,
                                                 n: nat, k: string)
    requires forall i :: 0 <= i < |fs| ==> fs[i].1 < parent
    requires WalkFields(env, rootDir, parent, fs, n).Ok?
    requires Records.Get(fs, k).Some? && (!Truthy(Records.Get(fs, k).value) || Records.Get(fs, k).value.JStr?)
    ensures Records.Get(WalkFields(env, rootDir, parent, fs, n).value.node, k) == Records.Get(fs, k)
    decreases |fs|
  {
    var r := WalkFields(env, rootDir, parent, fs, n).value;
    var h := GetSubSchemas(env, rootDir, fs[0].1, n);
    var t := WalkFields(env, rootDir, parent, fs[1..], h.value.next);
    assert r.node == [(fs[0].0, h.value.node)] + t.value.node;
    assert r.node[1..] == t.value.node;
    if fs[0].0 != k {
      WalkFieldsKeepsLeaves(env, rootDir, parent, fs[1..], h.value.next, k);
    }
  }

  // ---------------------------------------------------------------------------
  // De-duplication

  /** The `filter` keeping the first entry for each path, in order: the
      entries at the positions `FirstIndices` lists. */
  function Registered(entries: seq<SubSchema>): (r: seq<SubSchema>)
    ensures DistinctKeys(r, PathOf)
    ensures forall e :: e in r ==> e in entries
    ensures forall i :: 0 <= i < |entries| ==> entries[i].path in Map(r, PathOf)
    ensures |r| == |FirstIndices(entries, PathOf)|
    ensures forall k :: 0 <= k < |r| ==> r[k] == entries[FirstIndices(entries, PathOf)[k]]
  {
    DedupeByProperties(entries, PathOf);
    DedupeByFirst(entries, PathOf);
    DedupeBy(entries, PathOf)
  }

  /** When the ids handed out are all different, every collected entry is
      registered, in order. */
  lemma FreshIdsKeepAll(env: Env, rootDir: string, schema: Json, n: nat)
    requires forall i, j :: i != j ==> env.nanoid(i) != env.nanoid(j)
    ensures var r := GetSubSchemas(env, rootDir, schema, n);
            r.Ok? ==> Registered(r.value.entries) == r.value.entries
  {
    var r := GetSubSchemas(env, rootDir, schema, n);
    if r.Ok? {
      var es := r.value.entries;
      forall i, j | 0 <= i < j < |es| ensures PathOf(es[i]) != PathOf(es[j]) {
        assert Map(es, PathOf)[i] == "/" + env.nanoid(n + i);
        assert Map(es, PathOf)[j] == "/" + env.nanoid(n + j);
        assert ("/" + env.nanoid(n + i))[1..] == env.nanoid(n + i);
        assert ("/" + env.nanoid(n + j))[1..] == env.nanoid(n + j);
      }
      DedupeByDistinct(es, PathOf);
    }
  }

  // ---------------------------------------------------------------------------
  // loadConfig

  /** cosmiconfig's search result. */
  datatype Found = Found(config: Json, filepath: string, isEmpty: bool)

  /** One error of jsonschema's validation. */
  datatype Violation = Violation(property: string, message: string)

  function NotFound(name: string): string
  {
    "Configuration for " + name + " cannot be found!"
  }

  function ViolationLine(v: Violation): string
  {
    "    " + v.property + ": " + v.message
  }

  function Invalid(name: string, filepath: string, violations: seq<Violation>): string
  {
    "Configuration for " + name + " is invalid! (at: \"" + filepath + "\")\n    \n"
    + Join(Map(violations, ViolationLine), "\n") + "\n    \n    "
  }

  /** `loadConfig(schema, name, rootDir)` once the repository root is known:
      no configuration (or an empty one) is an error; otherwise the schema's
      relative references are rewritten and registered, the configuration is
      validated against the rewritten schema, and any violation is an error
      listing them all. `validate` gives the violations of a configuration
      against a schema with the registered sub-schemas. */
  function LoadConfig(env: Env, schema: Json, name: string, repoRoot: string, n: nat,
                      output: Option<Found>, validate: (Json, Json, seq<SubSchema>) -> seq<Violation>): (r: Result<Json>)
    ensures output.None? || output.value.isEmpty ==> r == Err(NotFound(name))
    ensures r.Ok? ==> output.Some? && !output.value.isEmpty && r.value == output.value.config
    ensures r.Ok? <==> output.Some? && !output.value.isEmpty && GetSubSchemas(env, repoRoot, schema, n).Ok?
                       && var w := GetSubSchemas(env, repoRoot, schema, n).value;
                          validate(output.value.config, w.node, Registered(w.entries)) == []
  {
    if output.None? || output.value.isEmpty then Err(NotFound(name))
    else
      var w := GetSubSchemas(env, repoRoot, schema, n);
      if w.Err? then Err(w.msg)
      else
        var violations := validate(output.value.config, w.value.node, Registered(w.value.entries));
        if |violations| > 0 then Err(Invalid(name, output.value.filepath, violations))
        else Ok(output.value.config)
  }

  /** An invalid configuration's error names every violation on a line. */
  lemma InvalidListsViolations(env: Env, schema: Json, name: string, repoRoot: string, n: nat,
                               output: Option<Found>, validate: (Json, Json, seq<SubSchema>) -> seq<Violation>, i: int)
    requires output.Some? && !output.value.isEmpty && GetSubSchemas(env, repoRoot, schema, n).Ok?
    requires var w := GetSubSchemas(env, repoRoot, schema, n).value;
             0 <= i < |validate(output.value.config, w.node, Registered(w.entries))|
    ensures var w := GetSubSchemas(env, repoRoot, schema, n).value;
            var vs := validate(output.value.config, w.node, Registered(w.entries));
            var r := LoadConfig(env, schema, name, repoRoot, n, output, validate);
            r.Err? && r.msg == Invalid(name, output.value.filepath, vs) && Contains(r.msg, ViolationLine(vs[i]))
  {
    var w := GetSubSchemas(env, repoRoot, schema, n).value;
    var vs := validate(output.value.config, w.node, Registered(w.entries));
    var lines := Map(vs, ViolationLine);
    JoinContains(lines, "\n", i);
    var head := "Configuration for " + name + " is invalid! (at: \"" + output.value.filepath + "\")\n    \n";
    ContainsAfter(head, Join(lines, "\n"), lines[i]);
    ContainsBefore(head + Join(lines, "\n"), "\n    \n    ", lines[i]);
  }
}
