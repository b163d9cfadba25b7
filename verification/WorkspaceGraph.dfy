/** `treeNodeToTSConfig` and `reduceTreeNodeToTSConfigList` of
    packages/plugin-workspace/src/graph.ts: one tsconfig document per node of
    the workspace tree, listed in pre-order. Paths are resolved with
    `path.resolve` in the working directory `cwd`. The template the document
    content is merged into is not modelled: a document carries its references
    only. */
module WorkspaceGraph {
  import opened Lists
  import opened PosixPath
  import opened PathTree

  /** What is written for one node: where, whether it is the root document, and
      the `references` of its content. */
  datatype TsConfigTemplate = TsConfigTemplate(path: string, isRoot: bool, references: seq<string>)

  const TsConfigFile: string := "tsconfig.json"

  /** The document of one node. Each child is referenced by its directory: a
      leaf child is its own path, a node child has its path in `path`. */
  function TreeNodeToTSConfig(cwd: string, projectPath: string, tree: Tree): (r: TsConfigTemplate)
    requires tree.Node?
    ensures r.isRoot <==> tree.path == ""
    ensures |r.references| == |tree.children|
  {
    TsConfigTemplate(
      Resolve(cwd, [projectPath, tree.path, TsConfigFile]),
      tree.path == "",
      Map(tree.children, (e: Entry) => Resolve(cwd, [projectPath, e.child.path])))
  }

  /** `reduceTreeNodeToTSConfigList`: the node's own document, then the lists of
      its node children in order; leaf children give nothing. */
  function ReduceTreeNodeToTSConfigList(cwd: string, projectPath: string, tree: Tree): (r: seq<TsConfigTemplate>)
    requires tree.Node?
    ensures |r| >= 1 && r[0] == TreeNodeToTSConfig(cwd, projectPath, tree)
    decreases tree, 1
  {
    [TreeNodeToTSConfig(cwd, projectPath, tree)] + ChildTemplates(cwd, projectPath, tree.children)
  }

  function ChildTemplates(cwd: string, projectPath: string, cs: seq<Entry>): seq<TsConfigTemplate>
    decreases cs, 0
  {
    if |cs| == 0 then []
    else
      (if cs[0].child.Leaf? then [] else ReduceTreeNodeToTSConfigList(cwd, projectPath, cs[0].child))
      + ChildTemplates(cwd, projectPath, cs[1..])
  }

  // ---------------------------------------------------------------------------
  // Reference definitions: the nodes of a tree in pre-order

  function Preorder(tree: Tree): seq<Tree>
    decreases tree, 1
  {
    if tree.Leaf? then [] else [tree] + PreorderChildren(tree.children)
  }

  function PreorderChildren(cs: seq<Entry>): seq<Tree>
    decreases cs, 0
  {
    if |cs| == 0 then [] else Preorder(cs[0].child) + PreorderChildren(cs[1..])
  }

  /** The number of nodes (objects, not leaf strings) in a tree. */
  function NodeCount(tree: Tree): nat
    decreases tree, 1
  {
    if tree.Leaf? then 0 else 1 + NodeCountChildren(tree.children)
  }

  function NodeCountChildren(cs: seq<Entry>): nat
    decreases cs, 0
  {
    if |cs| == 0 then 0 else NodeCount(cs[0].child) + NodeCountChildren(cs[1..])
  }

  /** The documents of a list of nodes, one each, in order. */
  function Documents(cwd: string, projectPath: string, ns: seq<Tree>): (r: seq<TsConfigTemplate>)
    requires forall i :: 0 <= i < |ns| ==> ns[i].Node?
    ensures |r| == |ns|
  {
    if |ns| == 0 then [] else [TreeNodeToTSConfig(cwd, projectPath, ns[0])] + Documents(cwd, projectPath, ns[1..])
  }

  lemma {:induction false} DocumentsConcat(cwd: string, projectPath: string, a: seq<Tree>, b: seq<Tree>)
    requires forall i :: 0 <= i < |a| ==> a[i].Node?
    requires forall i :: 0 <= i < |b| ==> b[i].Node?
    ensures forall i :: 0 <= i < |a + b| ==> (a + b)[i].Node?
    ensures Documents(cwd, projectPath, a + b) == Documents(cwd, projectPath, a) + Documents(cwd, projectPath, b)
    decreases |a|
  {
    assert forall i :: 0 <= i < |a + b| ==> (a + b)[i].Node? by {
      forall i | 0 <= i < |a + b| ensures (a + b)[i].Node? {
        if i < |a| { assert (a + b)[i] == a[i]; } else { assert (a + b)[i] == b[i - |a|]; }
      }
    }
    if |a| == 0 {
      assert a + b == b;
      assert Documents(cwd, projectPath, a) == [];
    } else {
      var ab := a + b;
      assert ab[0] == a[0];
      assert ab[1..] == a[1..] + b;
      DocumentsConcat(cwd, projectPath, a[1..], b);
      var d := TreeNodeToTSConfig(cwd, projectPath, a[0]);
      assert Documents(cwd, projectPath, ab) == [d] + Documents(cwd, projectPath, ab[1..]);
      assert Documents(cwd, projectPath, a) == [d] + Documents(cwd, projectPath, a[1..]);
      ConcatAssoc([d], Documents(cwd, projectPath, a[1..]), Documents(cwd, projectPath, b));
    }
  }

  /** The reduced list is the document of every node, in pre-order. */
  lemma {:induction false} ReduceIsPreorder(cwd: string, projectPath: string, tree: Tree)
    requires tree.Node?
    ensures forall i :: 0 <= i < |Preorder(tree)| ==> Preorder(tree)[i].Node?
    ensures ReduceTreeNodeToTSConfigList(cwd, projectPath, tree) == Documents(cwd, projectPath, Preorder(tree))
    decreases tree, 1
  {
    ChildTemplatesArePreorder(cwd, projectPath, tree.children);
    PreorderNodes(tree);
    var ps := PreorderChildren(tree.children);
    assert Preorder(tree) == [tree] + ps;
    assert ([tree] + ps)[1..] == ps;
  }

  lemma {:induction false} ChildTemplatesArePreorder(cwd: string, projectPath: string, cs: seq<Entry>)
    ensures forall i :: 0 <= i < |PreorderChildren(cs)| ==> PreorderChildren(cs)[i].Node?
    ensures ChildTemplates(cwd, projectPath, cs) == Documents(cwd, projectPath, PreorderChildren(cs))
    decreases cs, 0
  {
    PreorderChildrenNodes(cs);
    if |cs| > 0 {
      ChildTemplatesArePreorder(cwd, projectPath, cs[1..]);
      PreorderNodes(cs[0].child);
      if cs[0].child.Node? {
        ReduceIsPreorder(cwd, projectPath, cs[0].child);
      }
      DocumentsConcat(cwd, projectPath, Preorder(cs[0].child), PreorderChildren(cs[1..]));
    }
  }

  /** Pre-order lists nodes only, as many as there are. */
  lemma {:induction false} PreorderNodes(tree: Tree)
    ensures forall i :: 0 <= i < |Preorder(tree)| ==> Preorder(tree)[i].Node?
    ensures |Preorder(tree)| == NodeCount(tree)
    decreases tree, 1
  {
    if tree.Node? {
      PreorderChildrenNodes(tree.children);
    }
  }

  lemma {:induction false} PreorderChildrenNodes(cs: seq<Entry>)
    ensures forall i :: 0 <= i < |PreorderChildren(cs)| ==> PreorderChildren(cs)[i].Node?
    ensures |PreorderChildren(cs)| == NodeCountChildren(cs)
    decreases cs, 0
  {
    if |cs| > 0 {
      PreorderNodes(cs[0].child);
      PreorderChildrenNodes(cs[1..]);
    }
  }

  /** One document per node of the tree. */
  lemma ReduceLength(cwd: string, projectPath: string, tree: Tree)
    requires tree.Node?
    ensures |ReduceTreeNodeToTSConfigList(cwd, projectPath, tree)| == NodeCount(tree)
  {
    ReduceIsPreorder(cwd, projectPath, tree);
    PreorderNodes(tree);
  }

  /** A node whose children are all leaves gives its own document only. */
  lemma {:induction false} LeafChildrenGiveNothing(cwd: string, projectPath: string, cs: seq<Entry>)
    requires forall i :: 0 <= i < |cs| ==> cs[i].child.Leaf?
    ensures ChildTemplates(cwd, projectPath, cs) == []
  {
    if |cs| > 0 {
      LeafChildrenGiveNothing(cwd, projectPath, cs[1..]);
    }
  }

  /** The `i`-th reference names the directory of the `i`-th child, and the
      document of a node child is the `tsconfig.json` inside that directory. */
  lemma ReferencesPointAtChildren(cwd: string, projectPath: string, tree: Tree, i: int)
    requires tree.Node? && 0 <= i < |tree.children|
    ensures var ref := TreeNodeToTSConfig(cwd, projectPath, tree).references[i];
            var c := tree.children[i].child;
            ResolveSegs(cwd, [ref]) == ResolveSegs(cwd, [projectPath, c.path])
            && (c.Node? ==>
                  ResolveSegs(cwd, [ref, TsConfigFile])
                  == ResolveSegs(cwd, [TreeNodeToTSConfig(cwd, projectPath, c).path]))
  {
    var c := tree.children[i].child;
    ResolveSame(cwd, [projectPath, c.path]);
    ResolveThen(cwd, [projectPath, c.path], TsConfigFile);
    assert [projectPath, c.path] + [TsConfigFile] == [projectPath, c.path, TsConfigFile];
    ResolveSame(cwd, [projectPath, c.path, TsConfigFile]);
  }
}
