/**
 * The visibility filter of the tree view model (`FilterUpdate`): a child-first
 * pass over the current tree that sets every node's Hidden flag from the active
 * regular expression and from the flags its children have just been given.
 */
module FilterPropagation {
  import opened Wrappers
  import opened FileTree

  /**
   * A compiled regular expression. The regex engine is not modelled: a value
   * carries what `FindString` returns on a given string, the leftmost match, or
   * "" when there is none. `expr`, the pattern's source text, is documentation
   * only: nothing in the model reads it.
   */
  datatype Regexp = Regexp(expr: string, findString: string -> string)

  /** The filter keeps a path when `FindString` returns a non-empty match on it. */
  predicate MatchesPath(re: Regexp, path: string)
  {
    |re.findString(path)| != 0
  }

  predicate HasVisibleChild(cs: seq<Node>)
  {
    exists i :: 0 <= i < |cs| && !cs[i].view.hidden
  }

  /** The Hidden flag the visitor of `FilterUpdate` gives a node with this path and these children. */
  predicate VisitorHides(filter: Option<Regexp>, path: string, children: seq<Node>)
  {
    match filter
    case None => false
    case Some(re) => !HasVisibleChild(children) && !MatchesPath(re, path)
  }

  /** The subtree `n` after the child-first pass: children first, then the node itself. */
  function FilterPass(filter: Option<Regexp>, n: Node): (r: Node)
    decreases n
  {
    var cs := FilterIn(filter, n.children);
    Node(n.path, n.view.(hidden := VisitorHides(filter, n.path, cs)), cs)
  }

  function FilterIn(filter: Option<Regexp>, cs: seq<Node>): (rs: seq<Node>)
    decreases cs
    ensures |rs| == |cs|
  {
    seq(|cs|, i requires 0 <= i < |cs| => FilterPass(filter, cs[i]))
  }

  /** The whole tree after `FilterUpdate`: every node below the root is visited, the root is not. */
  function FilterTree(filter: Option<Regexp>, t: Tree): (r: Tree)
  {
    Tree(t.root.(children := FilterIn(filter, t.root.children)))
  }

  /**
   * The visitor of `FilterUpdate`, applied to one node whose children are
   * already final: no filter unhides the node; otherwise the first visible child
   * unhides it and ends the scan; otherwise the node is hidden exactly when the
   * filter finds no match in its path.
   */
  method FilterVisit(filter: Option<Regexp>, n: Node) returns (m: Node)
    ensures m == n.(view := n.view.(hidden := m.view.hidden))
    ensures filter.None? ==> !m.view.hidden
    ensures filter.Some? && HasVisibleChild(n.children) ==> !m.view.hidden
    ensures filter.Some? && !HasVisibleChild(n.children) ==>
              (m.view.hidden <==> !MatchesPath(filter.value, n.path))
  {
    if filter.None? {
      return n.(view := n.view.(hidden := false));
    }
    var i := 0;
    while i < |n.children|
      invariant 0 <= i <= |n.children|
      invariant forall j :: 0 <= j < i ==> n.children[j].view.hidden
    {
      if !n.children[i].view.hidden {
        return n.(view := n.view.(hidden := false));
      }
      i := i + 1;
    }
    var found := filter.value.findString(n.path);
    m := n.(view := n.view.(hidden := |found| == 0));
  }

  /** Child-first traversal of a subtree with the `FilterUpdate` visitor. */
  method FilterSubtree(filter: Option<Regexp>, n: Node) returns (m: Node)
    decreases n, 1
    ensures m == FilterPass(filter, n)
  {
    var cs := FilterChildren(filter, n.children);
    m := FilterVisit(filter, Node(n.path, n.view, cs));
  }

  method FilterChildren(filter: Option<Regexp>, cs: seq<Node>) returns (rs: seq<Node>)
    decreases cs, 0
    ensures rs == FilterIn(filter, cs)
  {
    rs := [];
    var i := 0;
    while i < |cs|
      invariant 0 <= i <= |cs|
      invariant |rs| == i
      invariant forall j :: 0 <= j < i ==> rs[j] == FilterPass(filter, cs[j])
    {
      var r := FilterSubtree(filter, cs[i]);
      rs := rs + [r];
      i := i + 1;
    }
  }

  /** `VisitDepthChildFirst` over the whole tree with the `FilterUpdate` visitor. */
  method FilterTreeChildFirst(filter: Option<Regexp>, t: Tree) returns (r: Tree)
    ensures r == FilterTree(filter, t)
  {
    var cs := FilterChildren(filter, t.root.children);
    r := Tree(t.root.(children := cs));
  }

  // ---------------------------------------------------------------------------
  // What the pass guarantees

  /** Every node of the subtree obeys the visitor's rule with respect to its own final children. */
  ghost predicate FollowsRule(filter: Option<Regexp>, m: Node)
    decreases m
  {
    && (filter.None? ==> !m.view.hidden)
    && (filter.Some? && HasVisibleChild(m.children) ==> !m.view.hidden)
    && (filter.Some? && !HasVisibleChild(m.children) ==>
          (m.view.hidden <==> !MatchesPath(filter.value, m.path)))
    && forall i :: 0 <= i < |m.children| ==> FollowsRule(filter, m.children[i])
  }

  ghost predicate TreeFollowsRule(filter: Option<Regexp>, t: Tree)
  {
    forall i :: 0 <= i < |t.root.children| ==> FollowsRule(filter, t.root.children[i])
  }

  ghost predicate AllUnhidden(m: Node)
    decreases m
  {
    !m.view.hidden && forall i :: 0 <= i < |m.children| ==> AllUnhidden(m.children[i])
  }

  /** Some node of the subtree, `n` itself or a descendant, has a path the filter matches. */
  ghost predicate AnyPathMatches(re: Regexp, n: Node)
    decreases n
  {
    MatchesPath(re, n.path) || exists i :: 0 <= i < |n.children| && AnyPathMatches(re, n.children[i])
  }

  /** Every node of the subtree is hidden exactly when neither it nor any descendant matches. */
  ghost predicate HiddenExactlyWhenNoMatch(re: Regexp, m: Node)
    decreases m
  {
    && (m.view.hidden <==> !AnyPathMatches(re, m))
    && forall i :: 0 <= i < |m.children| ==> HiddenExactlyWhenNoMatch(re, m.children[i])
  }

  /** The pass writes Hidden flags only: shape, paths and Collapsed flags stay as they were. */
  lemma {:induction false} FilterPassOnlyHidden(filter: Option<Regexp>, n: Node)
    decreases n
    ensures WithoutHidden(FilterPass(filter, n)) == WithoutHidden(n)
  {
    var m := FilterPass(filter, n);
    assert m.children == FilterIn(filter, n.children);
    forall i | 0 <= i < |n.children|
      ensures WithoutHidden(m.children[i]) == WithoutHidden(n.children[i])
    {
      assert m.children[i] == FilterPass(filter, n.children[i]);
      FilterPassOnlyHidden(filter, n.children[i]);
    }
    assert WithoutHiddenIn(m.children) == WithoutHiddenIn(n.children);
  }

  /** Every node of the result, leaves included, obeys the visitor's rule. */
  lemma {:induction false} FilterPassFollowsRule(filter: Option<Regexp>, n: Node)
    decreases n
    ensures FollowsRule(filter, FilterPass(filter, n))
  {
    var m := FilterPass(filter, n);
    assert m.children == FilterIn(filter, n.children);
    forall i | 0 <= i < |m.children|
      ensures FollowsRule(filter, m.children[i])
    {
      assert m.children[i] == FilterPass(filter, n.children[i]);
      FilterPassFollowsRule(filter, n.children[i]);
    }
  }

  /** With no filter, every node ends up unhidden, whatever its previous flag. */
  lemma {:induction false} FilterPassNoFilter(n: Node)
    decreases n
    ensures AllUnhidden(FilterPass(None, n))
  {
    var m := FilterPass(None, n);
    assert m.children == FilterIn(None, n.children);
    forall i | 0 <= i < |m.children|
      ensures AllUnhidden(m.children[i])
    {
      assert m.children[i] == FilterPass(None, n.children[i]);
      FilterPassNoFilter(n.children[i]);
    }
  }

  /** With a filter, a node ends up unhidden iff its own path or some descendant's path matches. */
  lemma {:induction false} FilterPassHiddenExactly(re: Regexp, n: Node)
    decreases n
    ensures HiddenExactlyWhenNoMatch(re, FilterPass(Some(re), n))
  {
    var m := FilterPass(Some(re), n);
    assert m.children == FilterIn(Some(re), n.children);
    forall i | 0 <= i < |m.children|
      ensures HiddenExactlyWhenNoMatch(re, m.children[i])
    {
      assert m.children[i] == FilterPass(Some(re), n.children[i]);
      FilterPassHiddenExactly(re, n.children[i]);
    }
    if HasVisibleChild(m.children) {
      var i :| 0 <= i < |m.children| && !m.children[i].view.hidden;
      assert AnyPathMatches(re, m.children[i]);
    } else if !MatchesPath(re, m.path) {
      forall i | 0 <= i < |m.children|
        ensures !AnyPathMatches(re, m.children[i])
      {
        assert m.children[i].view.hidden;
      }
    }
  }

  /**
   * The result of the pass is the only tree of the same shape, paths and
   * Collapsed flags whose every node obeys the visitor's rule.
   */
  lemma {:induction false} FilterPassUnique(filter: Option<Regexp>, n: Node, m: Node)
    decreases n
    requires WithoutHidden(m) == WithoutHidden(n)
    requires FollowsRule(filter, m)
    ensures m == FilterPass(filter, n)
  {
    assert |m.children| == |WithoutHidden(m).children| == |n.children|;
    forall i | 0 <= i < |n.children|
      ensures m.children[i] == FilterPass(filter, n.children[i])
    {
      assert WithoutHidden(m.children[i]) == WithoutHidden(m).children[i];
      FilterPassUnique(filter, n.children[i], m.children[i]);
    }
    assert m.children == FilterIn(filter, n.children);
  }

  /** Running the pass a second time with the same filter changes nothing. */
  lemma FilterPassIdempotent(filter: Option<Regexp>, n: Node)
    ensures FilterPass(filter, FilterPass(filter, n)) == FilterPass(filter, n)
  {
    FilterPassFollowsRule(filter, n);
    FilterPassUnique(filter, FilterPass(filter, n), FilterPass(filter, n));
  }

  // ---------------------------------------------------------------------------
  // The same guarantees for the whole tree

  lemma FilterTreeOnlyHidden(filter: Option<Regexp>, t: Tree)
    ensures FilterTree(filter, t).root.view == t.root.view
    ensures TreeWithoutHidden(FilterTree(filter, t)) == TreeWithoutHidden(t)
  {
    var cs := t.root.children;
    forall i | 0 <= i < |cs|
      ensures WithoutHidden(FilterIn(filter, cs)[i]) == WithoutHidden(cs[i])
    {
      FilterPassOnlyHidden(filter, cs[i]);
    }
    assert WithoutHiddenIn(FilterIn(filter, cs)) == WithoutHiddenIn(cs);
  }

  lemma FilterTreeFollowsRule(filter: Option<Regexp>, t: Tree)
    ensures TreeFollowsRule(filter, FilterTree(filter, t))
  {
    forall i | 0 <= i < |t.root.children|
      ensures FollowsRule(filter, FilterTree(filter, t).root.children[i])
    {
      FilterPassFollowsRule(filter, t.root.children[i]);
    }
  }

  lemma FilterTreeNoFilter(t: Tree)
    ensures forall i :: 0 <= i < |t.root.children| ==> AllUnhidden(FilterTree(None, t).root.children[i])
  {
    forall i | 0 <= i < |t.root.children|
      ensures AllUnhidden(FilterTree(None, t).root.children[i])
    {
      FilterPassNoFilter(t.root.children[i]);
    }
  }

  lemma FilterTreeHiddenExactly(re: Regexp, t: Tree)
    ensures forall i :: 0 <= i < |t.root.children| ==>
              HiddenExactlyWhenNoMatch(re, FilterTree(Some(re), t).root.children[i])
  {
    forall i | 0 <= i < |t.root.children|
      ensures HiddenExactlyWhenNoMatch(re, FilterTree(Some(re), t).root.children[i])
    {
      FilterPassHiddenExactly(re, t.root.children[i]);
    }
  }

  lemma FilterTreeIdempotent(filter: Option<Regexp>, t: Tree)
    ensures FilterTree(filter, FilterTree(filter, t)) == FilterTree(filter, t)
  {
    var cs := t.root.children;
    forall i | 0 <= i < |cs|
      ensures FilterPass(filter, FilterIn(filter, cs)[i]) == FilterIn(filter, cs)[i]
    {
      FilterPassIdempotent(filter, cs[i]);
    }
    assert FilterIn(filter, FilterIn(filter, cs)) == FilterIn(filter, cs);
  }
}
