/** Small concrete trees showing the intended behaviour of the view model. */
module Scenarios {
  import opened Wrappers
  import opened FileTree
  import opened FilterPropagation
  import opened Reconcile

  function Leaf(path: string, hidden: bool, collapsed: bool): (r: Node)
  {
    Node(path, ViewInfo(hidden, collapsed), [])
  }

  /** A directory `/a` without a match of its own is shown because its child `/a/b` matches. */
  lemma VisibleDescendantShowsParent(re: Regexp)
    requires MatchesPath(re, "/a/b") && !MatchesPath(re, "/a") && !MatchesPath(re, "/c")
    ensures var t := Tree(Node("/", ViewInfo(false, false),
                               [Node("/a", ViewInfo(true, false), [Leaf("/a/b", true, false)]),
                                Leaf("/c", false, false)]));
            var r := FilterTree(Some(re), t);
            && |r.root.children| == 2 && |r.root.children[0].children| == 1
            && !r.root.children[0].view.hidden
            && !r.root.children[0].children[0].view.hidden
            && r.root.children[1].view.hidden
  {
    assert FilterPass(Some(re), Leaf("/a/b", true, false)).view.hidden == false;
  }

  /** `/a` and `/a/b` collapsed on the old tree are collapsed on the new one; `/c` keeps its own flag. */
  lemma CollapseCarriedToNewTree()
    ensures var previous := Tree(Node("/", ViewInfo(false, false),
                                      [Node("/a", ViewInfo(false, true), [Leaf("/a/b", false, true)])]));
            var fetched := Tree(Node("/", ViewInfo(false, false),
                                     [Node("/a", ViewInfo(false, false), [Leaf("/a/b", false, false)]),
                                      Leaf("/c", false, false)]));
            var r := MarkTree(CollapsedPaths(previous), fetched);
            && |r.root.children| == 2 && |r.root.children[0].children| == 1
            && r.root.children[0].view.collapsed
            && r.root.children[0].children[0].view.collapsed
            && !r.root.children[1].view.collapsed
  {
    var b := Leaf("/a/b", false, true);
    var a := Node("/a", ViewInfo(false, true), [b]);
    var previous := Tree(Node("/", ViewInfo(false, false), [a]));
    assert Reached(b, Some(false)) == {b} by {
      assert ReachedIn(b.children, Some(false)) == {};
    }
    ReachedInSingleton(b, Some(false));
    assert Reached(a, Some(false)) == {a, b};
    ReachedInSingleton(a, Some(false));
    assert CollapsedPaths(previous) == {"/a", "/a/b"};
  }

  /**
   * Collapse state beneath a hidden directory is not carried over: the walk
   * never reaches `/a/b` under the hidden `/a`, so the new `/a/b` stays expanded.
   */
  lemma HiddenRegionNotCarried()
    ensures var previous := Tree(Node("/", ViewInfo(false, false),
                                      [Node("/a", ViewInfo(true, false), [Leaf("/a/b", true, true)])]));
            var fetched := Tree(Node("/", ViewInfo(false, false),
                                     [Node("/a", ViewInfo(false, false), [Leaf("/a/b", false, false)])]));
            var r := MarkTree(CollapsedPaths(previous), fetched);
            && |r.root.children| == 1 && |r.root.children[0].children| == 1
            && !r.root.children[0].children[0].view.collapsed
  {
  }
}
