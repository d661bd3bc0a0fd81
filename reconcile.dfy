/**
 * Tree-swap reconciliation (`setCurrentTree`): the paths marked Collapsed on the
 * visible part of the old tree are collected, and every node of the visible part
 * of the new tree with one of those paths is marked Collapsed. "Visible part"
 * means the nodes a parent-first walk reaches when it skips every node whose
 * parent is hidden, together with that node's subtree (`evaluateFunc`).
 */
module Reconcile {
  import opened Wrappers
  import opened FileTree

  /**
   * `evaluateFunc`: a node is visited, and the walk goes on below it, unless it
   * has a parent and that parent is hidden. `parentHidden` is the parent's
   * Hidden flag, or None for a node without a parent (the root).
   */
  predicate EvaluateFunc(parentHidden: Option<bool>)
  {
    !(parentHidden.Some? && parentHidden.value)
  }

  /** The nodes of subtree `n` that the pruned parent-first walk hands to its visitor. */
  ghost function Reached(n: Node, parentHidden: Option<bool>): set<Node>
    decreases n
  {
    if EvaluateFunc(parentHidden) then {n} + ReachedIn(n.children, Some(n.view.hidden)) else {}
  }

  ghost function ReachedIn(cs: seq<Node>, parentHidden: Option<bool>): set<Node>
    decreases cs
  {
    set i, m | 0 <= i < |cs| && m in Reached(cs[i], parentHidden) :: m
  }

  /** The nodes of a whole tree reached by the walk: the root is let through but not visited. */
  ghost function ReachedTree(t: Tree): set<Node>
  {
    ReachedIn(t.root.children, Some(t.root.view.hidden))
  }

  // Reach described by positions, independently of the walk

  /** `p` is a path of child indices leading from `n` to a node of its subtree. */
  ghost predicate ValidPos(n: Node, p: seq<nat>)
    decreases |p|
  {
    |p| == 0 || (p[0] < |n.children| && ValidPos(n.children[p[0]], p[1..]))
  }

  /** The node at position `p` of `n`. */
  ghost function At(n: Node, p: seq<nat>): Node
    requires ValidPos(n, p)
    decreases |p|
  {
    if |p| == 0 then n else At(n.children[p[0]], p[1..])
  }

  /** Every node strictly above position `p` is unhidden (`n` itself, when `p` is not empty). */
  ghost predicate ClearAbove(n: Node, p: seq<nat>)
    requires ValidPos(n, p)
    decreases |p|
  {
    |p| == 0 || (!n.view.hidden && ClearAbove(n.children[p[0]], p[1..]))
  }

  /** A node the walk reaches sits at a position with no hidden node above it. */
  lemma {:induction false} ReachedClearAbove(n: Node, parentHidden: Option<bool>, m: Node)
    requires m in Reached(n, parentHidden)
    ensures parentHidden != Some(true)
    ensures exists p :: ValidPos(n, p) && At(n, p) == m && ClearAbove(n, p)
    decreases n
  {
    if m == n {
      assert ValidPos(n, []) && At(n, []) == m && ClearAbove(n, []);
    } else {
      var i: nat :| i < |n.children| && m in Reached(n.children[i], Some(n.view.hidden));
      ReachedClearAbove(n.children[i], Some(n.view.hidden), m);
      var q :| ValidPos(n.children[i], q) && At(n.children[i], q) == m && ClearAbove(n.children[i], q);
      var p := [i] + q;
      assert p[0] == i && p[1..] == q;
      assert ValidPos(n, p) && At(n, p) == m && ClearAbove(n, p);
    }
  }

  /** Conversely, the walk reaches every position with no hidden node above it. */
  lemma {:induction false} ClearAboveReached(n: Node, parentHidden: Option<bool>, p: seq<nat>)
    requires parentHidden != Some(true) && ValidPos(n, p) && ClearAbove(n, p)
    ensures At(n, p) in Reached(n, parentHidden)
    decreases |p|
  {
    if |p| > 0 {
      var i := p[0];
      ClearAboveReached(n.children[i], Some(n.view.hidden), p[1..]);
      assert At(n, p) in Reached(n.children[i], Some(n.view.hidden));
      assert At(n, p) in ReachedIn(n.children, Some(n.view.hidden));
    }
  }

  /**
   * The nodes `evaluateFunc` lets the walk of a whole tree visit are exactly the
   * nodes below the root with no hidden node above them, the root included.
   */
  lemma ReachedTreeExactly(t: Tree, m: Node)
    ensures m in ReachedTree(t) <==>
              exists p :: |p| > 0 && ValidPos(t.root, p) && At(t.root, p) == m && ClearAbove(t.root, p)
  {
    var r := t.root;
    if m in ReachedTree(t) {
      var i: nat :| i < |r.children| && m in Reached(r.children[i], Some(r.view.hidden));
      ReachedClearAbove(r.children[i], Some(r.view.hidden), m);
      var q :| ValidPos(r.children[i], q) && At(r.children[i], q) == m && ClearAbove(r.children[i], q);
      var p := [i] + q;
      assert p[0] == i && p[1..] == q;
      assert |p| > 0 && ValidPos(r, p) && At(r, p) == m && ClearAbove(r, p);
    }
    if exists p :: |p| > 0 && ValidPos(r, p) && At(r, p) == m && ClearAbove(r, p) {
      var p :| |p| > 0 && ValidPos(r, p) && At(r, p) == m && ClearAbove(r, p);
      ClearAboveReached(r.children[p[0]], Some(r.view.hidden), p[1..]);
      assert m in Reached(r.children[p[0]], Some(r.view.hidden));
    }
  }

  ghost function CollapsedAmong(ns: set<Node>): set<string>
  {
    set m | m in ns && m.view.collapsed :: m.path
  }

  /** The keys of `collapsedList`: the paths of the reached nodes of the old tree that are collapsed. */
  ghost function CollapsedPaths(t: Tree): set<string>
  {
    CollapsedAmong(ReachedTree(t))
  }

  lemma CollapsedAmongUnion(a: set<Node>, b: set<Node>)
    ensures CollapsedAmong(a + b) == CollapsedAmong(a) + CollapsedAmong(b)
  {
  }

  lemma ReachedInSingleton(c: Node, parentHidden: Option<bool>)
    ensures ReachedIn([c], parentHidden) == Reached(c, parentHidden)
  {
    assert forall m :: m in Reached(c, parentHidden) ==> m in Reached([c][0], parentHidden);
  }

  lemma ReachedInSnoc(cs: seq<Node>, i: nat, parentHidden: Option<bool>)
    requires i < |cs|
    ensures ReachedIn(cs[..i + 1], parentHidden) == ReachedIn(cs[..i], parentHidden) + Reached(cs[i], parentHidden)
  {
    var a, b := cs[..i + 1], cs[..i];
    forall m | m in ReachedIn(a, parentHidden)
      ensures m in ReachedIn(b, parentHidden) + Reached(cs[i], parentHidden)
    {
      var j :| 0 <= j < |a| && m in Reached(a[j], parentHidden);
      if j < i {
        assert a[j] == b[j];
      }
    }
    forall m | m in ReachedIn(b, parentHidden) + Reached(cs[i], parentHidden)
      ensures m in ReachedIn(a, parentHidden)
    {
      if m in Reached(cs[i], parentHidden) {
        assert a[i] == cs[i];
      } else {
        var j :| 0 <= j < |b| && m in Reached(b[j], parentHidden);
        assert a[j] == b[j];
      }
    }
  }

  // ---------------------------------------------------------------------------
  // Collecting the collapsed paths of the old tree

  /** The pruned parent-first walk of subtree `n` with the collecting visitor, adding to `acc`. */
  method CollectCollapsed(n: Node, parentHidden: Option<bool>, acc: set<string>) returns (r: set<string>)
    decreases n, 1
    ensures r == acc + CollapsedAmong(Reached(n, parentHidden))
  {
    if !EvaluateFunc(parentHidden) {
      return acc;
    }
    r := acc;
    if n.view.collapsed {
      r := r + {n.path};
    }
    assert CollapsedAmong({n}) == if n.view.collapsed then {n.path} else {};
    CollapsedAmongUnion({n}, ReachedIn(n.children, Some(n.view.hidden)));
    r := CollectCollapsedIn(n.children, Some(n.view.hidden), r);
  }

  method CollectCollapsedIn(cs: seq<Node>, parentHidden: Option<bool>, acc: set<string>) returns (r: set<string>)
    decreases cs, 0
    ensures r == acc + CollapsedAmong(ReachedIn(cs, parentHidden))
  {
    r := acc;
    var i := 0;
    assert ReachedIn(cs[..0], parentHidden) == {};
    while i < |cs|
      invariant 0 <= i <= |cs|
      invariant r == acc + CollapsedAmong(ReachedIn(cs[..i], parentHidden))
    {
      ReachedInSnoc(cs, i, parentHidden);
      CollapsedAmongUnion(ReachedIn(cs[..i], parentHidden), Reached(cs[i], parentHidden));
      r := CollectCollapsed(cs[i], parentHidden, r);
      i := i + 1;
    }
    assert cs[..|cs|] == cs;
  }

  /** `collapsedList` of `setCurrentTree`, built by walking the old tree. */
  method CollectCollapsedTree(t: Tree) returns (collapsedList: set<string>)
    ensures collapsedList == CollapsedPaths(t)
  {
    collapsedList := CollectCollapsedIn(t.root.children, Some(t.root.view.hidden), {});
  }

  // ---------------------------------------------------------------------------
  // Marking the new tree

  /** Subtree `n` after the pruned parent-first walk with the marking visitor. */
  function Mark(listed: set<string>, n: Node, parentHidden: Option<bool>): (r: Node)
    decreases n
  {
    if !EvaluateFunc(parentHidden) then n
    else
      var view := if n.path in listed then n.view.(collapsed := true) else n.view;
      Node(n.path, view, MarkIn(listed, n.children, Some(n.view.hidden)))
  }

  function MarkIn(listed: set<string>, cs: seq<Node>, parentHidden: Option<bool>): (rs: seq<Node>)
    decreases cs
    ensures |rs| == |cs|
  {
    seq(|cs|, i requires 0 <= i < |cs| => Mark(listed, cs[i], parentHidden))
  }

  function MarkTree(listed: set<string>, t: Tree): (r: Tree)
  {
    Tree(t.root.(children := MarkIn(listed, t.root.children, Some(t.root.view.hidden))))
  }

  method MarkCollapsed(listed: set<string>, n: Node, parentHidden: Option<bool>) returns (m: Node)
    decreases n, 1
    ensures m == Mark(listed, n, parentHidden)
  {
    if !EvaluateFunc(parentHidden) {
      return n;
    }
    var view := n.view;
    if n.path in listed {
      view := view.(collapsed := true);
    }
    var cs := MarkCollapsedIn(listed, n.children, Some(n.view.hidden));
    m := Node(n.path, view, cs);
  }

  method MarkCollapsedIn(listed: set<string>, cs: seq<Node>, parentHidden: Option<bool>) returns (rs: seq<Node>)
    decreases cs, 0
    ensures rs == MarkIn(listed, cs, parentHidden)
  {
    rs := [];
    var i := 0;
    while i < |cs|
      invariant 0 <= i <= |cs|
      invariant |rs| == i
      invariant forall j :: 0 <= j < i ==> rs[j] == Mark(listed, cs[j], parentHidden)
    {
      var r := MarkCollapsed(listed, cs[i], parentHidden);
      rs := rs + [r];
      i := i + 1;
    }
  }

  /** The walk of the whole new tree in `setCurrentTree`; the root is let through but not visited. */
  method MarkCollapsedTree(listed: set<string>, t: Tree) returns (r: Tree)
    ensures r == MarkTree(listed, t)
  {
    var cs := MarkCollapsedIn(listed, t.root.children, Some(t.root.view.hidden));
    r := Tree(t.root.(children := cs));
  }

  // ---------------------------------------------------------------------------
  // What marking guarantees

  /**
   * `m` is `n` with the Collapsed flags carried over from `listed`: no flag is
   * cleared, a node whose path is not listed keeps its flag, and a subtree the
   * walk does not enter is untouched.
   */
  ghost predicate CarriedFrom(listed: set<string>, n: Node, m: Node, parentHidden: Option<bool>)
    decreases n
  {
    && (n.view.collapsed ==> m.view.collapsed)
    && (n.path !in listed ==> m.view.collapsed == n.view.collapsed)
    && (!EvaluateFunc(parentHidden) ==> m == n)
    && |m.children| == |n.children|
    && forall i :: 0 <= i < |n.children| ==>
         CarriedFrom(listed, n.children[i], m.children[i], Some(n.view.hidden))
  }

  ghost predicate TreeCarriedFrom(listed: set<string>, t: Tree, r: Tree)
  {
    && r.root == t.root.(children := r.root.children)
    && |r.root.children| == |t.root.children|
    && forall i :: 0 <= i < |t.root.children| ==>
         CarriedFrom(listed, t.root.children[i], r.root.children[i], Some(t.root.view.hidden))
  }

  /** Marking writes Collapsed flags only: shape, paths and Hidden flags stay as they were. */
  lemma {:induction false} MarkOnlyCollapsed(listed: set<string>, n: Node, parentHidden: Option<bool>)
    decreases n
    ensures WithoutCollapsed(Mark(listed, n, parentHidden)) == WithoutCollapsed(n)
  {
    if EvaluateFunc(parentHidden) {
      var m := Mark(listed, n, parentHidden);
      assert m.children == MarkIn(listed, n.children, Some(n.view.hidden));
      forall i | 0 <= i < |n.children|
        ensures WithoutCollapsed(m.children[i]) == WithoutCollapsed(n.children[i])
      {
        MarkOnlyCollapsed(listed, n.children[i], Some(n.view.hidden));
      }
      assert WithoutCollapsedIn(m.children) == WithoutCollapsedIn(n.children);
    }
  }

  /** Every reached node whose path is listed ends up collapsed. */
  lemma {:induction false} MarkSetsListed(listed: set<string>, n: Node, parentHidden: Option<bool>)
    decreases n
    ensures forall m :: m in Reached(Mark(listed, n, parentHidden), parentHidden) && m.path in listed ==>
              m.view.collapsed
  {
    if EvaluateFunc(parentHidden) {
      var top := Mark(listed, n, parentHidden);
      var below := Some(n.view.hidden);
      assert top.view.hidden == n.view.hidden;
      assert top.children == MarkIn(listed, n.children, below);
      forall m | m in ReachedIn(top.children, below) && m.path in listed
        ensures m.view.collapsed
      {
        var i :| 0 <= i < |top.children| && m in Reached(top.children[i], below);
        MarkSetsListed(listed, n.children[i], below);
      }
    }
  }

  /** No Collapsed flag is cleared and no flag is set on a path that is not listed. */
  lemma {:induction false} MarkCarries(listed: set<string>, n: Node, parentHidden: Option<bool>)
    decreases n
    ensures CarriedFrom(listed, n, Mark(listed, n, parentHidden), parentHidden)
  {
    var m := Mark(listed, n, parentHidden);
    if EvaluateFunc(parentHidden) {
      assert m.children == MarkIn(listed, n.children, Some(n.view.hidden));
      forall i | 0 <= i < |n.children|
        ensures CarriedFrom(listed, n.children[i], m.children[i], Some(n.view.hidden))
      {
        MarkCarries(listed, n.children[i], Some(n.view.hidden));
      }
    } else {
      CarriedFromRefl(listed, n, parentHidden);
    }
  }

  lemma {:induction false} CarriedFromRefl(listed: set<string>, n: Node, parentHidden: Option<bool>)
    decreases n
    ensures CarriedFrom(listed, n, n, parentHidden)
  {
    forall i | 0 <= i < |n.children|
      ensures CarriedFrom(listed, n.children[i], n.children[i], Some(n.view.hidden))
    {
      CarriedFromRefl(listed, n.children[i], Some(n.view.hidden));
    }
  }

  // ---------------------------------------------------------------------------
  // The same guarantees for the whole tree

  lemma MarkTreeOnlyCollapsed(listed: set<string>, t: Tree)
    ensures MarkTree(listed, t).root.view == t.root.view
    ensures TreeWithoutCollapsed(MarkTree(listed, t)) == TreeWithoutCollapsed(t)
  {
    var cs := t.root.children;
    var below := Some(t.root.view.hidden);
    forall i | 0 <= i < |cs|
      ensures WithoutCollapsed(MarkIn(listed, cs, below)[i]) == WithoutCollapsed(cs[i])
    {
      MarkOnlyCollapsed(listed, cs[i], below);
    }
    assert WithoutCollapsedIn(MarkIn(listed, cs, below)) == WithoutCollapsedIn(cs);
  }

  lemma MarkTreeSetsListed(listed: set<string>, t: Tree)
    ensures forall m :: m in ReachedTree(MarkTree(listed, t)) && m.path in listed ==> m.view.collapsed
  {
    var r := MarkTree(listed, t);
    var below := Some(t.root.view.hidden);
    forall m | m in ReachedTree(r) && m.path in listed
      ensures m.view.collapsed
    {
      var i :| 0 <= i < |r.root.children| && m in Reached(r.root.children[i], below);
      MarkSetsListed(listed, t.root.children[i], below);
    }
  }

  lemma MarkTreeCarries(listed: set<string>, t: Tree)
    ensures TreeCarriedFrom(listed, t, MarkTree(listed, t))
  {
    var below := Some(t.root.view.hidden);
    forall i | 0 <= i < |t.root.children|
      ensures CarriedFrom(listed, t.root.children[i], MarkTree(listed, t).root.children[i], below)
    {
      MarkCarries(listed, t.root.children[i], below);
    }
  }
}
