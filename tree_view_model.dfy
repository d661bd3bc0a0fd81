/**
 * The tree view model: it owns the current file tree, fetches trees from the
 * comparer's cache, and composes a filter policy (the active regular
 * expression) with a layer policy (the selected layer index, which decides the
 * comparison key). Setting the filter re-runs the filter pass; switching layers
 * swaps in a new tree, carries the collapse state over and re-runs the filter.
 */
module ViewModels {
  import opened Wrappers
  import opened FileTree
  import opened FilterPropagation
  import opened Reconcile

  /** The key of the tree a new view model starts with. */
  const InitialKey := TreeIndexKey(0, 0, 0, 0)

  /** The tree `setCurrentTree` installs: the fetched tree, with the old tree's collapse state carried over, re-filtered. */
  ghost function SwapTree(filter: Option<Regexp>, previous: Tree, fetched: Tree): (r: Tree)
  {
    FilterTree(filter, MarkTree(CollapsedPaths(previous), fetched))
  }

  /**
   * The installed tree keeps exactly the Collapsed flags the marking walk gave
   * the fetched tree (the filter pass after installation writes Hidden only),
   * and is a fixpoint of the filter pass.
   */
  lemma SwapTreeKeepsMarks(filter: Option<Regexp>, previous: Tree, fetched: Tree)
    ensures TreeWithoutHidden(SwapTree(filter, previous, fetched))
         == TreeWithoutHidden(MarkTree(CollapsedPaths(previous), fetched))
    ensures FilterTree(filter, SwapTree(filter, previous, fetched)) == SwapTree(filter, previous, fetched)
  {
    var marked := MarkTree(CollapsedPaths(previous), fetched);
    FilterTreeOnlyHidden(filter, marked);
    FilterTreeIdempotent(filter, marked);
  }

  /**
   * Position by position, `final` has the Collapsed flags the reconciliation
   * promises for the fetched subtree `fetched`. `reached` says whether the pruned
   * walk reaches this position, judged by the fetched tree's own Hidden flags.
   * A reached node with a listed path is collapsed. Every other node keeps its
   * incoming flag. No flag is cleared.
   * This is `Reconcile.CarriedFrom` together with `Reconcile.MarkSetsListed`,
   * read across the filter pass: the pass may change Hidden flags, so Hidden is
   * disregarded here and reach is carried as the boolean `reached`.
   */
  ghost predicate CollapseCarriedTo(listed: set<string>, fetched: Node, final: Node, reached: bool)
    decreases fetched
  {
    && (reached && fetched.path in listed ==> final.view.collapsed)
    && (fetched.view.collapsed ==> final.view.collapsed)
    && (!reached || fetched.path !in listed ==> final.view.collapsed == fetched.view.collapsed)
    && |final.children| == |fetched.children|
    && forall i :: 0 <= i < |fetched.children| ==>
         CollapseCarriedTo(listed, fetched.children[i], final.children[i], reached && !fetched.view.hidden)
  }

  /** The filter pass alone keeps every Collapsed flag of an unreached subtree. */
  lemma {:induction false} FilterKeepsUnreachedCollapse(filter: Option<Regexp>, listed: set<string>, n: Node)
    decreases n
    ensures CollapseCarriedTo(listed, n, FilterPass(filter, n), false)
  {
    var f := FilterPass(filter, n);
    assert f.children == FilterIn(filter, n.children);
    forall i | 0 <= i < |n.children|
      ensures CollapseCarriedTo(listed, n.children[i], f.children[i], false)
    {
      assert f.children[i] == FilterPass(filter, n.children[i]);
      FilterKeepsUnreachedCollapse(filter, listed, n.children[i]);
    }
  }

  /** Marking a subtree and then filtering it leaves exactly the promised Collapsed flags. */
  lemma {:induction false} MarkThenFilterCarries(filter: Option<Regexp>, listed: set<string>, n: Node,
                                                  parentHidden: Option<bool>)
    decreases n
    ensures CollapseCarriedTo(listed, n, FilterPass(filter, Mark(listed, n, parentHidden)),
                              EvaluateFunc(parentHidden))
  {
    if !EvaluateFunc(parentHidden) {
      FilterKeepsUnreachedCollapse(filter, listed, n);
    } else {
      var below := Some(n.view.hidden);
      var m := Mark(listed, n, parentHidden);
      var f := FilterPass(filter, m);
      assert m.children == MarkIn(listed, n.children, below);
      assert f.children == FilterIn(filter, m.children);
      forall i | 0 <= i < |n.children|
        ensures CollapseCarriedTo(listed, n.children[i], f.children[i], !n.view.hidden)
      {
        assert f.children[i] == FilterPass(filter, Mark(listed, n.children[i], below));
        MarkThenFilterCarries(filter, listed, n.children[i], below);
      }
    }
  }

  /**
   * After a successful `setCurrentTree`, every top-level position of the
   * installed tree has the promised Collapsed flags: a reached node whose path
   * was collapsed on a reached node of the old tree is collapsed, and every
   * other node keeps the flag it came with.
   */
  lemma SwapTreeCarriesCollapse(filter: Option<Regexp>, previous: Tree, fetched: Tree)
    ensures |SwapTree(filter, previous, fetched).root.children| == |fetched.root.children|
    ensures forall i :: 0 <= i < |fetched.root.children| ==>
              CollapseCarriedTo(CollapsedPaths(previous), fetched.root.children[i],
                                SwapTree(filter, previous, fetched).root.children[i],
                                !fetched.root.view.hidden)
  {
    var listed := CollapsedPaths(previous);
    var below := Some(fetched.root.view.hidden);
    var marked := MarkTree(listed, fetched);
    var r := SwapTree(filter, previous, fetched);
    assert r.root.children == FilterIn(filter, marked.root.children);
    forall i | 0 <= i < |fetched.root.children|
      ensures CollapseCarriedTo(listed, fetched.root.children[i], r.root.children[i], !fetched.root.view.hidden)
    {
      assert r.root.children[i] == FilterPass(filter, Mark(listed, fetched.root.children[i], below));
      MarkThenFilterCarries(filter, listed, fetched.root.children[i], below);
    }
  }

  class TreeViewModel {
    var currentTree: Tree
    const cache: Comparer
    /** State of the embedded filter policy (`FilterModel`): the active filter, or none. */
    var filter: Option<Regexp>
    /** State of the embedded layer policy (`LayersModel`): the selected layer index. */
    var layerIndex: int
    /** Which indices the layer policy's `SetLayerIndex` accepts. */
    const acceptsLayerIndex: int -> bool
    /** The layer policy's `GetCompareIndicies`, as a function of the selected index. */
    const compareIndicies: int -> TreeIndexKey

    /** The current tree is what the filter pass makes of it: running the pass again changes nothing. */
    ghost predicate Filtered()
      reads this
    {
      FilterTree(filter, currentTree) == currentTree
    }

    constructor (tree: Tree, cache: Comparer, layerIndex: int, acceptsLayerIndex: int -> bool,
                 compareIndicies: int -> TreeIndexKey, filter: Option<Regexp>)
      ensures this.currentTree == tree && this.cache == cache && this.filter == filter
      ensures this.layerIndex == layerIndex && this.acceptsLayerIndex == acceptsLayerIndex
      ensures this.compareIndicies == compareIndicies
    {
      this.currentTree := tree;
      this.cache := cache;
      this.filter := filter;
      this.layerIndex := layerIndex;
      this.acceptsLayerIndex := acceptsLayerIndex;
      this.compareIndicies := compareIndicies;
    }

    /**
     * `NewTreeViewModel`: fetch the tree for key (0,0,0,0) and install it as it
     * comes (no filter pass); if the fetch fails there is no view model.
     */
    static method NewTreeViewModel(cache: Comparer, layerIndex: int, acceptsLayerIndex: int -> bool,
                                   compareIndicies: int -> TreeIndexKey, filter: Option<Regexp>)
      returns (tvm: TreeViewModel?, err: Option<string>)
      ensures cache(InitialKey).Failure? ==> tvm == null && err == Some(cache(InitialKey).error)
      ensures cache(InitialKey).Success? ==>
                && err.None? && tvm != null && fresh(tvm)
                && tvm.currentTree == cache(InitialKey).value && tvm.cache == cache
                && tvm.filter == filter && tvm.layerIndex == layerIndex
                && tvm.acceptsLayerIndex == acceptsLayerIndex && tvm.compareIndicies == compareIndicies
    {
      var curTreeIndex := InitialKey;
      var fetched := cache(curTreeIndex);
      if fetched.Failure? {
        return null, Some(fetched.error);
      }
      tvm := new TreeViewModel(fetched.value, cache, layerIndex, acceptsLayerIndex, compareIndicies, filter);
      err := None;
    }

    /** `SetFilter`: store the filter in the filter policy, then re-run the filter pass. */
    method SetFilter(filterRegex: Option<Regexp>)
      modifies this
      ensures filter == filterRegex
      ensures currentTree == FilterTree(filterRegex, old(currentTree))
      ensures layerIndex == old(layerIndex)
      ensures Filtered()
    {
      filter := filterRegex;
      FilterUpdate();
    }

    /** `FilterUpdate`: the child-first filter pass over the current tree with the active filter. */
    method FilterUpdate()
      modifies this
      ensures currentTree == FilterTree(filter, old(currentTree))
      ensures filter == old(filter) && layerIndex == old(layerIndex)
      ensures Filtered()
    {
      var f := filter;
      currentTree := FilterTreeChildFirst(f, currentTree);
      FilterTreeIdempotent(f, old(currentTree));
    }

    /**
     * `SetLayerIndex`: the layer policy may reject the index, and then nothing
     * changes. Once it accepts, its index is updated, and stays updated even
     * when fetching the tree for the new comparison key fails.
     */
    method SetLayerIndex(index: int) returns (ok: bool)
      modifies this
      ensures !acceptsLayerIndex(index) ==>
                !ok && layerIndex == old(layerIndex) && currentTree == old(currentTree)
      ensures acceptsLayerIndex(index) ==> layerIndex == index
      ensures ok <==> acceptsLayerIndex(index) && cache(compareIndicies(index)).Success?
      ensures ok ==> currentTree == SwapTree(filter, old(currentTree), cache(compareIndicies(index)).value)
      ensures !ok ==> currentTree == old(currentTree)
      ensures filter == old(filter)
      ensures ok ==> Filtered()
    {
      if acceptsLayerIndex(index) {
        layerIndex := index;
        var err := SetCurrentTree(compareIndicies(layerIndex));
        if err.Some? {
          return false;
        }
        return true;
      }
      return false;
    }

    /**
     * `setCurrentTree`: fetch the tree for `key`; on failure return the error
     * with nothing changed; otherwise carry the collapse state over from the
     * current tree, install the new tree and re-run the filter pass.
     */
    method SetCurrentTree(key: TreeIndexKey) returns (err: Option<string>)
      modifies this
      ensures cache(key).Failure? ==> err == Some(cache(key).error) && currentTree == old(currentTree)
      ensures cache(key).Success? ==>
                err.None? && currentTree == SwapTree(filter, old(currentTree), cache(key).value) && Filtered()
      ensures filter == old(filter) && layerIndex == old(layerIndex)
    {
      var fetched := cache(key);
      if fetched.Failure? {
        return Some(fetched.error);
      }
      var newTree := fetched.value;
      var collapsedList := CollectCollapsedTree(currentTree);
      newTree := MarkCollapsedTree(collapsedList, newTree);
      currentTree := newTree;
      FilterUpdate();
      err := None;
    }
  }
}
