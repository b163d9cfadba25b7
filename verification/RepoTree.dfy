/** `validConfig`, `treeNodeToTSConfig` and `reduceTreeNodeToTSConfigList` of
    packages/plugin-repo/src/tree.ts: the workspace tree becomes a list of
    tsconfig documents, with per-node file variants, a link file at the root,
    and children whose configuration does not load left out (loose mode) or
    aborting the whole run (any other mode).

    Loading a workspace configuration, the package.json test and the naming of
    tsconfig files are parameters (`Env`). The asynchronous steps run one after
    the other in declaration order, so when several fail the error reported is
    the first one in that order. */
module RepoTree {
  import opened Wrappers
  import opened Lists
  import opened PosixPath
  import opened PathTree
  import WorkspaceGraph

  /** What is written for one document: where, whether it is the root one, and
      the `references` of its content (the template it is merged into is not
      modelled). */
  datatype Template = Template(path: string, isRoot: bool, references: seq<string>)

  /** The fields of the root configuration read here: `mode`, the keys of
      `files` in order (None when `files` is unset), `defaultFileMode`, and
      `linkFile` ("" when unset). */
  datatype RootConfig = RootConfig(mode: string, files: Option<seq<string>>, defaultFileMode: string, linkFile: string)

  /** The outside world: the working directory `path.resolve` uses, the error
      loading the configuration of a workspace directory raises (None when it
      loads), whether a directory has a package.json, and the tsconfig file
      name made from a name ("" standing for `undefined`). */
  datatype Env = Env(
    cwd: string,
    configError: string -> Option<string>,
    hasPackageJson: string -> bool,
    makeFileName: string -> string)

  const Loose: string := "loose"
  const DefaultMode: string := "default"

  // ---------------------------------------------------------------------------
  // Results of lists: the first error in order wins

  function Cat<T>(a: Result<seq<T>>, b: Result<seq<T>>): Result<seq<T>>
  {
    if a.Err? then a else if b.Err? then b else Ok(a.value + b.value)
  }

  function Lift<T>(a: Result<T>): Result<seq<T>>
  {
    if a.Err? then Err(a.msg) else Ok([a.value])
  }

  lemma CatAssoc<T>(a: Result<seq<T>>, b: Result<seq<T>>, c: Result<seq<T>>)
    ensures Cat(a, Cat(b, c)) == Cat(Cat(a, b), c)
  {
    if a.Ok? && b.Ok? && c.Ok? {
      assert a.value + (b.value + c.value) == (a.value + b.value) + c.value;
    }
  }

  lemma CatUnit<T>(a: Result<seq<T>>)
    ensures Cat(Ok([]), a) == a && Cat(a, Ok([])) == a
  {
    if a.Ok? {
      assert [] + a.value == a.value + [] == a.value;
    }
  }

  lemma CatParts<T>(a: Result<seq<T>>, b: Result<seq<T>>)
    ensures Cat(a, b).Ok? <==> a.Ok? && b.Ok?
    ensures Cat(a, b).Ok? ==> Cat(a, b).value == a.value + b.value
  {
  }

  // ---------------------------------------------------------------------------
  // One document

  /** `validConfig`: whether the configuration of `workspacePath` loads; a
      failure is swallowed only in loose mode. */
  function ValidConfig(env: Env, workspacePath: string, rc: RootConfig): (r: Result<bool>)
    ensures r == Ok(true) <==> env.configError(workspacePath).None?
    ensures r == Ok(false) <==> env.configError(workspacePath).Some? && rc.mode == Loose
    ensures r.Err? <==> env.configError(workspacePath).Some? && rc.mode != Loose
    ensures r.Err? ==> r.msg == env.configError(workspacePath).value
  {
    match env.configError(workspacePath)
    case None => Ok(true)
    case Some(e) => if rc.mode != Loose then Err(e) else Ok(false)
  }

  /** The name the file name is made from: the link file for the link node,
      otherwise the variant name ("" for the primary document). */
  function FileNameArg(rc: RootConfig, isLinkFile: bool, fName: string): string
  {
    if isLinkFile && rc.linkFile != "" then rc.linkFile else fName
  }

  /** The primary document of the root refers to the file variants instead of
      the children when variants are declared and either they are not in
      default mode or this is the link file. */
  predicate UsesFiles(rc: RootConfig, treePath: string, isLinkFile: bool, fName: string)
  {
    fName == "" && treePath == "" && rc.files.Some? && (rc.defaultFileMode != DefaultMode || isLinkFile)
  }

  /** The directory of a child workspace. */
  function WorkspacePath(env: Env, projectPath: string, e: Entry): string
  {
    Resolve(env.cwd, [projectPath, e.child.path])
  }

  /** Whether a child is referred to: it has no package.json or its
      configuration loads. */
  predicate Kept(env: Env, projectPath: string, e: Entry)
  {
    var wp := WorkspacePath(env, projectPath, e);
    !env.hasPackageJson(wp) || env.configError(wp).None?
  }

  /** The references to the children, in order: the file `fileName` inside the
      directory of each child that passes `validConfig` or has no package.json.
      `validConfig` is asked first, so its error wins even without a
      package.json. */
  function ChildRefs(env: Env, projectPath: string, rc: RootConfig, fileName: string, cs: seq<Entry>): Result<seq<string>>
  {
    if |cs| == 0 then Ok([])
    else
      var wp := WorkspacePath(env, projectPath, cs[0]);
      var valid := ValidConfig(env, wp, rc);
      if valid.Err? then Err(valid.msg)
      else
        var rest := ChildRefs(env, projectPath, rc, fileName, cs[1..]);
        if rest.Err? then rest
        else if !env.hasPackageJson(wp) || valid.value then Ok([Resolve(env.cwd, [wp, fileName])] + rest.value)
        else rest
  }

  /** `treeNodeToTSConfig` for a node, whether it is the link node, and the
      variant name `fName` ("" for the primary document). */
  function TreeNodeToTSConfig(env: Env, projectPath: string, tree: Tree, isLinkFile: bool, rc: RootConfig, fName: string): (r: Result<Template>)
    requires tree.Node?
    ensures r.Ok? ==> (r.value.isRoot <==> tree.path == "")
    ensures r.Ok? ==> ResolveSegs(env.cwd, [r.value.path])
                      == ResolveSegs(env.cwd, [projectPath, tree.path, env.makeFileName(FileNameArg(rc, isLinkFile, fName))])
    ensures r.Err? ==> !UsesFiles(rc, tree.path, isLinkFile, fName) && rc.mode != Loose
  {
    var fileName := env.makeFileName(FileNameArg(rc, isLinkFile, fName));
    var refs :=
      if UsesFiles(rc, tree.path, isLinkFile, fName) then
        Ok(Map(rc.files.value, (k: string) => Resolve(env.cwd, [projectPath, tree.path, env.makeFileName(k)])))
      else ChildRefs(env, projectPath, rc, fileName, tree.children);
    LooseChildRefs(env, projectPath, rc, fileName, tree.children);
    ResolveSame(env.cwd, [projectPath, tree.path, fileName]);
    if refs.Err? then Err(refs.msg)
    else Ok(Template(Resolve(env.cwd, [projectPath, tree.path, fileName]), tree.path == "", refs.value))
  }

  lemma {:induction false} LooseChildRefs(env: Env, projectPath: string, rc: RootConfig, fileName: string, cs: seq<Entry>)
    ensures rc.mode == Loose ==> ChildRefs(env, projectPath, rc, fileName, cs).Ok?
  {
    if |cs| > 0 {
      LooseChildRefs(env, projectPath, rc, fileName, cs[1..]);
    }
  }

  // ---------------------------------------------------------------------------
  // The list of documents

  /** The variant documents of a node, one per declared file name, in order. */
  function Extras(env: Env, projectPath: string, rc: RootConfig, tree: Tree, keys: seq<string>): Result<seq<Template>>
    requires tree.Node?
  {
    if |keys| == 0 then Ok([])
    else Cat(Lift(TreeNodeToTSConfig(env, projectPath, tree, false, rc, keys[0])),
             Extras(env, projectPath, rc, tree, keys[1..]))
  }

  function FileKeys(rc: RootConfig): seq<string>
  {
    if rc.files.Some? then rc.files.value else []
  }

  /** The link node: a childless root node flagged as the link file. */
  const LinkNode: Tree := Node("", [])

  /** The root's link-file document, when a link file is configured. */
  function LinkTemplates(env: Env, projectPath: string, rc: RootConfig, tree: Tree): Result<seq<Template>>
  {
    if tree.path == "" && rc.linkFile != "" then Lift(TreeNodeToTSConfig(env, projectPath, LinkNode, true, rc, ""))
    else Ok([])
  }

  /** What one node contributes before its children: its own document, its
      variants, and (at the root) the link document. */
  function NodeGroup(env: Env, projectPath: string, rc: RootConfig, tree: Tree): Result<seq<Template>>
    requires tree.Node?
  {
    Cat(Lift(TreeNodeToTSConfig(env, projectPath, tree, false, rc, "")),
        Cat(Extras(env, projectPath, rc, tree, FileKeys(rc)), LinkTemplates(env, projectPath, rc, tree)))
  }

  /** `reduceTreeNodeToTSConfigList` as a function: the node's group, then the
      lists of its node children in order; leaf children give nothing. */
  function Reduced(env: Env, projectPath: string, rc: RootConfig, tree: Tree): Result<seq<Template>>
    requires tree.Node?
    decreases tree, 1
  {
    Cat(NodeGroup(env, projectPath, rc, tree), ReducedChildren(env, projectPath, rc, tree.children))
  }

  function ReducedChildren(env: Env, projectPath: string, rc: RootConfig, cs: seq<Entry>): Result<seq<Template>>
    decreases cs, 0
  {
    if |cs| == 0 then Ok([])
    else Cat(if cs[0].child.Leaf? then Ok([]) else Reduced(env, projectPath, rc, cs[0].child),
             ReducedChildren(env, projectPath, rc, cs[1..]))
  }

  /** The variant documents of a node, pushed one by one. */
  method ExtraTemplates(env: Env, projectPath: string, rc: RootConfig, tree: Tree, keys: seq<string>)
    returns (r: Result<seq<Template>>)
    requires tree.Node?
    ensures r == Extras(env, projectPath, rc, tree, keys)
  {
    var extraTemplates: seq<Template> := [];
    CatUnit(Extras(env, projectPath, rc, tree, keys));
    for i := 0 to |keys|
      invariant Cat(Ok(extraTemplates), Extras(env, projectPath, rc, tree, keys[i..])) == Extras(env, projectPath, rc, tree, keys)
    {
      var t := TreeNodeToTSConfig(env, projectPath, tree, false, rc, keys[i]);
      assert keys[i..][1..] == keys[i + 1..];
      CatAssoc(Ok(extraTemplates), Lift(t), Extras(env, projectPath, rc, tree, keys[i + 1..]));
      if t.Err? {
        return Err(t.msg);
      }
      extraTemplates := extraTemplates + [t.value];
    }
    assert keys[|keys|..] == [];
    CatUnit(Ok(extraTemplates));
    return Ok(extraTemplates);
  }

  /** `reduceTreeNodeToTSConfigList`: the current document, the variants, the
      link document pushed after them, then the children's lists. */
  method ReduceTreeNodeToTSConfigList(env: Env, projectPath: string, tree: Tree, rc: RootConfig)
    returns (r: Result<seq<Template>>)
    requires tree.Node?
    ensures r == Reduced(env, projectPath, rc, tree)
    decreases tree, 1
  {
    var current := TreeNodeToTSConfig(env, projectPath, tree, false, rc, "");
    if current.Err? {
      return Err(current.msg);
    }
    var extras := ExtraTemplates(env, projectPath, rc, tree, FileKeys(rc));
    if extras.Err? {
      return Err(extras.msg);
    }
    var extraTemplates := extras.value;
    if tree.path == "" && rc.linkFile != "" {
      // the link node has no children, so its document cannot fail
      var t := TreeNodeToTSConfig(env, projectPath, LinkNode, true, rc, "");
      extraTemplates := extraTemplates + [t.value];
    } else {
      assert extraTemplates + [] == extraTemplates;
    }
    assert NodeGroup(env, projectPath, rc, tree) == Ok([current.value] + extraTemplates);
    var children := ChildTemplates(env, projectPath, rc, tree.children);
    if children.Err? {
      return Err(children.msg);
    }
    return Ok([current.value] + extraTemplates + children.value);
  }

  /** The lists of the node children, in order. */
  method ChildTemplates(env: Env, projectPath: string, rc: RootConfig, cs: seq<Entry>)
    returns (r: Result<seq<Template>>)
    ensures r == ReducedChildren(env, projectPath, rc, cs)
    decreases cs, 0
  {
    var childTemplates: seq<Template> := [];
    CatUnit(ReducedChildren(env, projectPath, rc, cs));
    for i := 0 to |cs|
      invariant Cat(Ok(childTemplates), ReducedChildren(env, projectPath, rc, cs[i..])) == ReducedChildren(env, projectPath, rc, cs)
    {
      var sub: Result<seq<Template>> := Ok([]);
      if cs[i].child.Node? {
        sub := ReduceTreeNodeToTSConfigList(env, projectPath, cs[i].child, rc);
      }
      assert cs[i..][1..] == cs[i + 1..];
      CatAssoc(Ok(childTemplates), sub, ReducedChildren(env, projectPath, rc, cs[i + 1..]));
      if sub.Err? {
        return Err(sub.msg);
      }
      childTemplates := childTemplates + sub.value;
    }
    assert cs[|cs|..] == [];
    CatUnit(Ok(childTemplates));
    return Ok(childTemplates);
  }

  // ---------------------------------------------------------------------------
  // One document: properties

  /** The references fail exactly when some child's configuration does not
      load outside loose mode, whether or not that child has a package.json. */
  lemma {:induction false} ChildRefsOk(env: Env, projectPath: string, rc: RootConfig, fileName: string, cs: seq<Entry>)
    ensures ChildRefs(env, projectPath, rc, fileName, cs).Ok?
            <==> rc.mode == Loose || forall i :: 0 <= i < |cs| ==> env.configError(WorkspacePath(env, projectPath, cs[i])).None?
  {
    if |cs| > 0 {
      ChildRefsOk(env, projectPath, rc, fileName, cs[1..]);
      ConfigsLoadCons(env, projectPath, cs);
      var first := env.configError(WorkspacePath(env, projectPath, cs[0])).None?;
      assert ChildRefs(env, projectPath, rc, fileName, cs).Ok?
             <==> rc.mode == Loose || (first && ConfigsLoad(env, projectPath, cs[1..]));
    }
  }

  /** Every child's configuration loads. */
  predicate ConfigsLoad(env: Env, projectPath: string, cs: seq<Entry>)
  {
    forall i :: 0 <= i < |cs| ==> env.configError(WorkspacePath(env, projectPath, cs[i])).None?
  }

  lemma ConfigsLoadCons(env: Env, projectPath: string, cs: seq<Entry>)
    requires |cs| > 0
    ensures ConfigsLoad(env, projectPath, cs)
            <==> env.configError(WorkspacePath(env, projectPath, cs[0])).None? && ConfigsLoad(env, projectPath, cs[1..])
  {
    assert forall i :: 1 <= i < |cs| ==> cs[i] == cs[1..][i - 1];
  }

  /** A child is referred to exactly when it is kept, in children order, by the
      file `fileName` inside its directory. */
  lemma {:induction false} ChildRefsKept(env: Env, projectPath: string, rc: RootConfig, fileName: string, cs: seq<Entry>)
    ensures ChildRefs(env, projectPath, rc, fileName, cs).Ok? ==>
            ChildRefs(env, projectPath, rc, fileName, cs).value
            == Map(Filter(cs, (e: Entry) => Kept(env, projectPath, e)),
                   (e: Entry) => Resolve(env.cwd, [WorkspacePath(env, projectPath, e), fileName]))
  {
    var r := ChildRefs(env, projectPath, rc, fileName, cs);
    if |cs| > 0 && r.Ok? {
      ChildRefsKept(env, projectPath, rc, fileName, cs[1..]);
      var p := (e: Entry) => Kept(env, projectPath, e);
      var f := (e: Entry) => Resolve(env.cwd, [WorkspacePath(env, projectPath, e), fileName]);
      var head: seq<Entry> := if p(cs[0]) then [cs[0]] else [];
      var tail := Filter(cs[1..], p);
      assert Filter(cs, p) == head + tail;
      MapConcat(head, tail, f);
      var rest := ChildRefs(env, projectPath, rc, fileName, cs[1..]);
      assert rest.Ok? && rest.value == Map(tail, f);
      assert r.value == Map(head, f) + rest.value;
    }
  }

  /** Where a kept reference points: `fileName` in the child's directory below
      the project path. */
  lemma ReferenceTarget(env: Env, projectPath: string, e: Entry, fileName: string)
    ensures ResolveSegs(env.cwd, [Resolve(env.cwd, [WorkspacePath(env, projectPath, e), fileName])])
         == ResolveSegs(env.cwd, [projectPath, e.child.path, fileName])
  {
    var wp := WorkspacePath(env, projectPath, e);
    ResolveSame(env.cwd, [wp, fileName]);
    ResolveThen(env.cwd, [projectPath, e.child.path], fileName);
    assert [projectPath, e.child.path] + [fileName] == [projectPath, e.child.path, fileName];
  }

  /** The root document in files mode refers to one file per declared variant
      name, in declaration order, inside the root directory; it cannot fail. */
  lemma FilesReferences(env: Env, projectPath: string, tree: Tree, isLinkFile: bool, rc: RootConfig, fName: string)
    requires tree.Node? && UsesFiles(rc, tree.path, isLinkFile, fName)
    ensures var r := TreeNodeToTSConfig(env, projectPath, tree, isLinkFile, rc, fName);
            r.Ok? && |r.value.references| == |rc.files.value|
            && forall i :: 0 <= i < |rc.files.value| ==>
                 ResolveSegs(env.cwd, [r.value.references[i]])
                 == ResolveSegs(env.cwd, [projectPath, "", env.makeFileName(rc.files.value[i])])
  {
    var r := TreeNodeToTSConfig(env, projectPath, tree, isLinkFile, rc, fName);
    forall i | 0 <= i < |rc.files.value|
      ensures ResolveSegs(env.cwd, [r.value.references[i]])
           == ResolveSegs(env.cwd, [projectPath, "", env.makeFileName(rc.files.value[i])])
    {
      ResolveSame(env.cwd, [projectPath, "", env.makeFileName(rc.files.value[i])]);
    }
  }

  /** Any other document refers to its kept children, and fails exactly when
      some child's configuration does not load outside loose mode. */
  lemma ChildReferences(env: Env, projectPath: string, tree: Tree, isLinkFile: bool, rc: RootConfig, fName: string)
    requires tree.Node? && !UsesFiles(rc, tree.path, isLinkFile, fName)
    ensures var r := TreeNodeToTSConfig(env, projectPath, tree, isLinkFile, rc, fName);
            var fileName := env.makeFileName(FileNameArg(rc, isLinkFile, fName));
            (r.Ok? <==> rc.mode == Loose
                        || forall i :: 0 <= i < |tree.children| ==>
                             env.configError(WorkspacePath(env, projectPath, tree.children[i])).None?)
            && (r.Ok? ==> r.value.references
                          == Map(Filter(tree.children, (e: Entry) => Kept(env, projectPath, e)),
                                 (e: Entry) => Resolve(env.cwd, [WorkspacePath(env, projectPath, e), fileName])))
  {
    ChildRefsOk(env, projectPath, rc, env.makeFileName(FileNameArg(rc, isLinkFile, fName)), tree.children);
    ChildRefsKept(env, projectPath, rc, env.makeFileName(FileNameArg(rc, isLinkFile, fName)), tree.children);
  }

  // ---------------------------------------------------------------------------
  // The list of documents: properties

  /** The groups of a list of nodes, in order. */
  function Groups(env: Env, projectPath: string, rc: RootConfig, ns: seq<Tree>): Result<seq<Template>>
    requires forall i :: 0 <= i < |ns| ==> ns[i].Node?
  {
    if |ns| == 0 then Ok([]) else Cat(NodeGroup(env, projectPath, rc, ns[0]), Groups(env, projectPath, rc, ns[1..]))
  }

  lemma {:induction false} GroupsConcat(env: Env, projectPath: string, rc: RootConfig, a: seq<Tree>, b: seq<Tree>)
    requires forall i :: 0 <= i < |a| ==> a[i].Node?
    requires forall i :: 0 <= i < |b| ==> b[i].Node?
    ensures forall i :: 0 <= i < |a + b| ==> (a + b)[i].Node?
    ensures Groups(env, projectPath, rc, a + b) == Cat(Groups(env, projectPath, rc, a), Groups(env, projectPath, rc, b))
    decreases |a|
  {
    assert forall i :: 0 <= i < |a + b| ==> (a + b)[i].Node? by {
      forall i | 0 <= i < |a + b| ensures (a + b)[i].Node? {
        if i < |a| { assert (a + b)[i] == a[i]; } else { assert (a + b)[i] == b[i - |a|]; }
      }
    }
    if |a| == 0 {
      assert a + b == b;
      CatUnit(Groups(env, projectPath, rc, b));
    } else {
      var ab := a + b;
      assert ab[0] == a[0];
      assert ab[1..] == a[1..] + b;
      GroupsConcat(env, projectPath, rc, a[1..], b);
      CatAssoc(NodeGroup(env, projectPath, rc, a[0]), Groups(env, projectPath, rc, a[1..]), Groups(env, projectPath, rc, b));
    }
  }

  /** The list is the groups of the tree's nodes in pre-order: each node's own
      document, its variants and (at the root) the link document, followed by
      the same for its node children, leaves giving nothing. */
  lemma {:induction false} ReducedPreorder(env: Env, projectPath: string, rc: RootConfig, tree: Tree)
    requires tree.Node?
    ensures forall i :: 0 <= i < |WorkspaceGraph.Preorder(tree)| ==> WorkspaceGraph.Preorder(tree)[i].Node?
    ensures Reduced(env, projectPath, rc, tree) == Groups(env, projectPath, rc, WorkspaceGraph.Preorder(tree))
    decreases tree, 1
  {
    ReducedChildrenPreorder(env, projectPath, rc, tree.children);
    WorkspaceGraph.PreorderNodes(tree);
    var ps := WorkspaceGraph.PreorderChildren(tree.children);
    assert WorkspaceGraph.Preorder(tree) == [tree] + ps;
    assert ([tree] + ps)[1..] == ps;
  }

  lemma {:induction false} ReducedChildrenPreorder(env: Env, projectPath: string, rc: RootConfig, cs: seq<Entry>)
    ensures forall i :: 0 <= i < |WorkspaceGraph.PreorderChildren(cs)| ==> WorkspaceGraph.PreorderChildren(cs)[i].Node?
    ensures ReducedChildren(env, projectPath, rc, cs) == Groups(env, projectPath, rc, WorkspaceGraph.PreorderChildren(cs))
    decreases cs, 0
  {
    WorkspaceGraph.PreorderChildrenNodes(cs);
    if |cs| > 0 {
      ReducedChildrenPreorder(env, projectPath, rc, cs[1..]);
      WorkspaceGraph.PreorderNodes(cs[0].child);
      if cs[0].child.Node? {
        ReducedPreorder(env, projectPath, rc, cs[0].child);
      }
      GroupsConcat(env, projectPath, rc, WorkspaceGraph.Preorder(cs[0].child), WorkspaceGraph.PreorderChildren(cs[1..]));
    }
  }

  /** The variant documents succeed exactly when each one does. */
  lemma {:induction false} ExtrasOk(env: Env, projectPath: string, rc: RootConfig, tree: Tree, keys: seq<string>)
    requires tree.Node?
    ensures Extras(env, projectPath, rc, tree, keys).Ok?
            <==> forall i :: 0 <= i < |keys| ==> TreeNodeToTSConfig(env, projectPath, tree, false, rc, keys[i]).Ok?
  {
    if |keys| > 0 {
      ExtrasOk(env, projectPath, rc, tree, keys[1..]);
      VariantsLoadCons(env, projectPath, rc, tree, keys);
      CatParts(Lift(TreeNodeToTSConfig(env, projectPath, tree, false, rc, keys[0])), Extras(env, projectPath, rc, tree, keys[1..]));
    }
  }

  /** Every declared variant document succeeds. */
  predicate VariantsLoad(env: Env, projectPath: string, rc: RootConfig, tree: Tree, keys: seq<string>)
    requires tree.Node?
  {
    forall i :: 0 <= i < |keys| ==> TreeNodeToTSConfig(env, projectPath, tree, false, rc, keys[i]).Ok?
  }

  lemma VariantsLoadCons(env: Env, projectPath: string, rc: RootConfig, tree: Tree, keys: seq<string>)
    requires tree.Node? && |keys| > 0
    ensures VariantsLoad(env, projectPath, rc, tree, keys)
            <==> TreeNodeToTSConfig(env, projectPath, tree, false, rc, keys[0]).Ok?
                 && VariantsLoad(env, projectPath, rc, tree, keys[1..])
  {
    assert forall i :: 1 <= i < |keys| ==> keys[i] == keys[1..][i - 1];
  }

  /** The variant documents are those of the declared names, in order. */
  lemma {:induction false} ExtrasValues(env: Env, projectPath: string, rc: RootConfig, tree: Tree, keys: seq<string>)
    requires tree.Node?
    ensures Extras(env, projectPath, rc, tree, keys).Ok? ==>
            var v := Extras(env, projectPath, rc, tree, keys).value;
            |v| == |keys| && forall i :: 0 <= i < |keys| ==> Ok(v[i]) == TreeNodeToTSConfig(env, projectPath, tree, false, rc, keys[i])
  {
    if |keys| > 0 {
      ExtrasValues(env, projectPath, rc, tree, keys[1..]);
      var head := Lift(TreeNodeToTSConfig(env, projectPath, tree, false, rc, keys[0]));
      var tail := Extras(env, projectPath, rc, tree, keys[1..]);
      CatParts(head, tail);
      if head.Ok? && tail.Ok? {
        var v := head.value + tail.value;
        forall i | 0 <= i < |keys|
          ensures Ok(v[i]) == TreeNodeToTSConfig(env, projectPath, tree, false, rc, keys[i])
        {
          if i > 0 {
            assert keys[i] == keys[1..][i - 1];
            assert v[i] == tail.value[i - 1];
          }
        }
      }
    }
  }

  lemma NodeGroupLength(env: Env, projectPath: string, rc: RootConfig, tree: Tree)
    requires tree.Node?
    ensures var g := NodeGroup(env, projectPath, rc, tree);
            g.Ok? ==> |g.value| == 1 + |FileKeys(rc)| + (if tree.path == "" && rc.linkFile != "" then 1 else 0)
  {
    ExtrasValues(env, projectPath, rc, tree, FileKeys(rc));
  }

  /** One node's group: its own document first, then its variant documents,
      then the link document when the node is the root and a link file is
      configured; it fails when any of them does. */
  lemma NodeGroupShape(env: Env, projectPath: string, rc: RootConfig, tree: Tree)
    requires tree.Node?
    ensures var g := NodeGroup(env, projectPath, rc, tree);
            var own := TreeNodeToTSConfig(env, projectPath, tree, false, rc, "");
            var ex := Extras(env, projectPath, rc, tree, FileKeys(rc));
            var lk := LinkTemplates(env, projectPath, rc, tree);
            (g.Ok? <==> own.Ok? && ex.Ok? && lk.Ok?)
            && (g.Ok? ==> g.value == [own.value] + ex.value + lk.value)
            && (lk.Ok? && tree.path == "" && rc.linkFile != "" ==>
                  lk.value == [TreeNodeToTSConfig(env, projectPath, LinkNode, true, rc, "").value])
            && (!(tree.path == "" && rc.linkFile != "") ==> lk == Ok([]))
  {
    var g := NodeGroup(env, projectPath, rc, tree);
    var own := TreeNodeToTSConfig(env, projectPath, tree, false, rc, "");
    var ex := Extras(env, projectPath, rc, tree, FileKeys(rc));
    var lk := LinkTemplates(env, projectPath, rc, tree);
    GroupValues(own, ex, lk);
  }

  /** A group that succeeds holds the first value, then the other two lists. */
  lemma GroupValues<T>(own: Result<T>, ex: Result<seq<T>>, lk: Result<seq<T>>)
    ensures Cat(Lift(own), Cat(ex, lk)).Ok? <==> own.Ok? && ex.Ok? && lk.Ok?
    ensures Cat(Lift(own), Cat(ex, lk)).Ok? ==> Cat(Lift(own), Cat(ex, lk)).value == [own.value] + ex.value + lk.value
  {
    if own.Ok? && ex.Ok? && lk.Ok? {
      assert [own.value] + (ex.value + lk.value) == [own.value] + ex.value + lk.value;
    }
  }

  /** The link document never fails: the link node has no children. */
  lemma LinkNeverFails(env: Env, projectPath: string, rc: RootConfig, tree: Tree)
    ensures LinkTemplates(env, projectPath, rc, tree).Ok?
  {
  }

  /** The first document of the list is the node's own. */
  lemma ReducedFirst(env: Env, projectPath: string, rc: RootConfig, tree: Tree)
    requires tree.Node?
    ensures var r := Reduced(env, projectPath, rc, tree);
            r.Ok? ==> |r.value| >= 1 && Ok(r.value[0]) == TreeNodeToTSConfig(env, projectPath, tree, false, rc, "")
  {
    NodeGroupShape(env, projectPath, rc, tree);
  }

  /** Leaf children contribute no documents. */
  lemma {:induction false} LeafChildrenGiveNothing(env: Env, projectPath: string, rc: RootConfig, cs: seq<Entry>)
    requires forall i :: 0 <= i < |cs| ==> cs[i].child.Leaf?
    ensures ReducedChildren(env, projectPath, rc, cs) == Ok([])
  {
    if |cs| > 0 {
      LeafChildrenGiveNothing(env, projectPath, rc, cs[1..]);
      CatUnit<Template>(Ok([]));
    }
  }

  /** In loose mode nothing fails. */
  lemma {:induction false} LooseGroups(env: Env, projectPath: string, rc: RootConfig, ns: seq<Tree>)
    requires forall i :: 0 <= i < |ns| ==> ns[i].Node?
    requires rc.mode == Loose
    ensures Groups(env, projectPath, rc, ns).Ok?
  {
    if |ns| > 0 {
      ExtrasOk(env, projectPath, rc, ns[0], FileKeys(rc));
      LooseGroups(env, projectPath, rc, ns[1..]);
    }
  }

  lemma LooseNeverFails(env: Env, projectPath: string, rc: RootConfig, tree: Tree)
    requires tree.Node? && rc.mode == Loose
    ensures Reduced(env, projectPath, rc, tree).Ok?
  {
    ReducedPreorder(env, projectPath, rc, tree);
    LooseGroups(env, projectPath, rc, WorkspaceGraph.Preorder(tree));
  }

  /** Outside loose mode, a child whose configuration does not load aborts the
      whole list, even when that child has no package.json and would not have
      been referred to anyway. */
  lemma StrictChildAborts(env: Env, projectPath: string, rc: RootConfig, tree: Tree, i: int)
    requires tree.Node? && 0 <= i < |tree.children| && rc.mode != Loose
    requires !UsesFiles(rc, tree.path, false, "")
    requires env.configError(WorkspacePath(env, projectPath, tree.children[i])).Some?
    ensures Reduced(env, projectPath, rc, tree).Err?
  {
    ChildReferences(env, projectPath, tree, false, rc, "");
  }

  /** Without a link file, every node gives its document and one variant per
      declared file name. */
  lemma {:induction false} GroupsLength(env: Env, projectPath: string, rc: RootConfig, ns: seq<Tree>)
    requires forall i :: 0 <= i < |ns| ==> ns[i].Node?
    requires rc.linkFile == ""
    ensures Groups(env, projectPath, rc, ns).Ok? ==> |Groups(env, projectPath, rc, ns).value| == (1 + |FileKeys(rc)|) * |ns|
  {
    if |ns| > 0 {
      NodeGroupLength(env, projectPath, rc, ns[0]);
      GroupsLength(env, projectPath, rc, ns[1..]);
      CatParts(NodeGroup(env, projectPath, rc, ns[0]), Groups(env, projectPath, rc, ns[1..]));
      var k := 1 + |FileKeys(rc)|;
      assert |ns| == 1 + |ns[1..]|;
      assert k * (1 + |ns[1..]|) == k + k * |ns[1..]|;
    }
  }

  lemma ReducedLength(env: Env, projectPath: string, rc: RootConfig, tree: Tree)
    requires tree.Node? && rc.linkFile == ""
    ensures var r := Reduced(env, projectPath, rc, tree);
            r.Ok? ==> |r.value| == (1 + |FileKeys(rc)|) * WorkspaceGraph.NodeCount(tree)
  {
    ReducedPreorder(env, projectPath, rc, tree);
    WorkspaceGraph.PreorderNodes(tree);
    GroupsLength(env, projectPath, rc, WorkspaceGraph.Preorder(tree));
  }
}
