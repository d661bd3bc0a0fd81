/**
 * The file tree that the view model annotates. The tree itself belongs to the
 * `filetree` package, which is not part of this model: only the parts the view
 * model reads or writes are kept, namely each node's path, its view annotations
 * and its ordered children, and the comparison key that selects a tree from the
 * comparer's cache.
 */
module FileTree {
  import opened Wrappers

  /** A node's view annotations (`node.Data.ViewInfo`). */
  datatype ViewInfo = ViewInfo(hidden: bool, collapsed: bool)

  /** A file node: its full path (`node.Path()`), view annotations and children. */
  datatype Node = Node(path: string, view: ViewInfo, children: seq<Node>)

  /**
   * A whole tree. The traversals of the tree never hand its root to a visitor,
   * so the root's own annotations are never changed by the view model; the root
   * is still the parent of the top-level entries.
   */
  datatype Tree = Tree(root: Node)

  /** The four-part comparison key (`filetree.NewTreeIndexKey`). */
  datatype TreeIndexKey = TreeIndexKey(bottomTreeStart: int, bottomTreeStop: int,
                                       topTreeStart: int, topTreeStop: int)

  /** The comparer's `GetTree`: a deterministic lookup that can fail with an error message. */
  type Comparer = TreeIndexKey -> Result<Tree, string>

  /** `n` with every Hidden flag of its subtree cleared: what a pass that writes only Hidden cannot change. */
  function WithoutHidden(n: Node): (r: Node)
    decreases n
  {
    Node(n.path, n.view.(hidden := false), WithoutHiddenIn(n.children))
  }

  function WithoutHiddenIn(cs: seq<Node>): (rs: seq<Node>)
    decreases cs
    ensures |rs| == |cs|
  {
    seq(|cs|, i requires 0 <= i < |cs| => WithoutHidden(cs[i]))
  }

  function TreeWithoutHidden(t: Tree): (r: Tree)
  {
    Tree(WithoutHidden(t.root))
  }

  /** `n` with every Collapsed flag of its subtree cleared: what a pass that writes only Collapsed cannot change. */
  function WithoutCollapsed(n: Node): (r: Node)
    decreases n
  {
    Node(n.path, n.view.(collapsed := false), WithoutCollapsedIn(n.children))
  }

  function WithoutCollapsedIn(cs: seq<Node>): (rs: seq<Node>)
    decreases cs
    ensures |rs| == |cs|
  {
    seq(|cs|, i requires 0 <= i < |cs| => WithoutCollapsed(cs[i]))
  }

  function TreeWithoutCollapsed(t: Tree): (r: Tree)
  {
    Tree(WithoutCollapsed(t.root))
  }
}
