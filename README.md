# Tree view model of a layer-comparing file tree browser

This project models the view-model controller `TreeViewModel` of a terminal
browser for container image layers (`runtime/ui/viewmodels/tree_view_model.go`).
The controller owns one "current" file tree. It takes trees from a cache keyed
by a four-part layer-comparison key. It combines two policies: a filter (the
active regular expression) and a layer selection (the selected layer index,
which decides the comparison key). It writes two view annotations on the tree's
nodes:

- **Hidden**, set by the filter pass `FilterUpdate`. This is a child-first walk.
  With no filter every node is unhidden. With a filter, a node with a visible
  child is unhidden. Any other node is hidden exactly when the filter finds no
  match in its path.
- **Collapsed**, carried over by `setCurrentTree` when the layer selection
  changes. The old tree is walked parent-first. The walk skips every node whose
  parent is hidden, together with that node's subtree (`evaluateFunc`). The
  walk collects the paths of collapsed nodes. The new tree is walked the same
  way, and each node whose path was collected is marked collapsed. Then the new
  tree is installed and the filter pass runs again.

Modules, one per component:

- `Wrappers`: `Option` and `Result`, for Go's nil values and error returns.
- `FileTree`: the parts of the tree the controller touches. A node has a path,
  a `ViewInfo(hidden, collapsed)` and ordered children. There are also the
  `TreeIndexKey` and the cache lookup type `Comparer`.
- `FilterPropagation`: the filter pass. The visitor and the traversal are
  methods. Each is proved equal to the function `FilterPass`/`FilterTree`,
  and that function's guarantees are lemmas.
- `Reconcile`: `evaluateFunc`, the set of nodes the pruned walk reaches, the
  collecting walk and the marking walk, and their guarantees. `EvaluateFunc`
  is the predicate that `ReachedTreeExactly` characterises: a node is reached
  iff no node above it, the root included, is hidden. So `CollapsedPaths`, the
  keys of `collapsedList`, are the paths of the collapsed nodes with no hidden
  node above them.
- `ViewModels`: the class `TreeViewModel`, with fields `currentTree`, `cache`,
  the filter policy's `filter`, and the layer policy's `layerIndex`,
  `acceptsLayerIndex` and `compareIndicies`.
- `Scenarios`: three small concrete trees that show the intended behaviour.

Modelling decisions:

- The tree is a datatype value. The passes build the annotated tree and the
  controller reassigns its `currentTree` field.
- The `filetree` package is not part of this model. Its traversals are taken to
  hand every node below the root to the visitor, and never the root itself. So
  the root's own flags never change. The root's Hidden flag still decides
  whether the pruned walk enters the top-level entries.
- A regular expression is a value that carries its `FindString` behaviour: the
  leftmost match, or "" when there is none. A node is hidden when the returned
  match is empty. This includes a pattern whose leftmost match is the empty
  string.
- The cache is a function from `TreeIndexKey` to `Result<Tree, string>`.
- The layer policy accepts or rejects an index through `acceptsLayerIndex`.
  Its comparison key is `compareIndicies` applied to the selected index.

Behaviour of the code that the model keeps as written:

- `SetLayerIndex` does not roll back the layer policy's index when the fetch
  fails. Line 110 updates the policy first, and line 113 leaves a TODO where
  the error is dropped. The model follows the code:
  `TreeViewModel.SetLayerIndex` states that once the index is accepted,
  `layerIndex` is the new index, whether or not the fetch succeeds.
- `NewTreeViewModel` installs the fetched tree as it comes (lines 34-46). It
  does not run the filter pass, even when the filter policy already holds a
  filter.

## Model

| member | source | states |
|---|---|---|
| `FilterPropagation.FilterVisit` | runtime/ui/viewmodels/tree_view_model.go:76-96 | The visitor changes only the node's Hidden flag. With no filter the node is unhidden. With a filter and some unhidden child it is unhidden. With a filter and no unhidden child it is hidden iff the filter finds no match in its path. |
| `FilterPropagation.FilterSubtree` | runtime/ui/viewmodels/tree_view_model.go:76-97 | Walking a subtree child-first with the visitor yields `FilterPass` of it: children are finished before their parent is visited. |
| `FilterPropagation.FilterChildren` | runtime/ui/viewmodels/tree_view_model.go:76-97 | Walking a sequence of siblings yields each sibling's `FilterPass`, in order. |
| `FilterPropagation.FilterTreeChildFirst` | runtime/ui/viewmodels/tree_view_model.go:73-97 | The pass over a whole tree yields `FilterTree`: every node below the root is filtered, the root is left as it is. |
| `FilterPropagation.FilterPassOnlyHidden` | runtime/ui/viewmodels/tree_view_model.go:76-97 | The pass changes Hidden flags only. Tree shape, paths and Collapsed flags are unchanged. |
| `FilterPropagation.FilterPassFollowsRule` | runtime/ui/viewmodels/tree_view_model.go:78-95 | After the pass every node, leaves included, obeys the visitor's rule with respect to its own final children. |
| `FilterPropagation.FilterPassNoFilter` | runtime/ui/viewmodels/tree_view_model.go:79-81 | With no filter every node of the result is unhidden, whatever its previous flag. |
| `FilterPropagation.FilterPassHiddenExactly` | runtime/ui/viewmodels/tree_view_model.go:84-95 | With a filter, every node of the result is hidden iff neither its own path nor any descendant's path matches (both directions). |
| `FilterPropagation.FilterPassUnique` | runtime/ui/viewmodels/tree_view_model.go:76-97 | Any tree with the input's shape, paths and Collapsed flags whose every node obeys the visitor's rule is exactly the pass's result. |
| `FilterPropagation.FilterPassIdempotent` | runtime/ui/viewmodels/tree_view_model.go:76-97 | Running the pass twice with the same filter gives the same tree as running it once. |
| `FilterPropagation.FilterTreeOnlyHidden` | runtime/ui/viewmodels/tree_view_model.go:76-97 | On a whole tree the pass leaves the root's flags alone and changes nothing but Hidden flags. |
| `FilterPropagation.FilterTreeFollowsRule` | runtime/ui/viewmodels/tree_view_model.go:78-95 | On a whole tree, every node below the root obeys the visitor's rule after the pass. |
| `FilterPropagation.FilterTreeNoFilter` | runtime/ui/viewmodels/tree_view_model.go:79-81 | On a whole tree with no filter, every node below the root ends up unhidden. |
| `FilterPropagation.FilterTreeHiddenExactly` | runtime/ui/viewmodels/tree_view_model.go:84-95 | On a whole tree with a filter, a node below the root is hidden iff no path in its subtree matches. |
| `FilterPropagation.FilterTreeIdempotent` | runtime/ui/viewmodels/tree_view_model.go:73-97 | `FilterUpdate` twice with the same filter equals `FilterUpdate` once. |
| `Reconcile.ReachedClearAbove` | runtime/ui/viewmodels/tree_view_model.go:129-141 | A node the pruned walk of a subtree reaches sits at a position of that subtree with no hidden node above it, and the subtree's own parent is not hidden. |
| `Reconcile.ClearAboveReached` | runtime/ui/viewmodels/tree_view_model.go:129-141 | Conversely, when the subtree's parent is not hidden, the walk reaches every position with no hidden node above it. |
| `Reconcile.ReachedTreeExactly` | runtime/ui/viewmodels/tree_view_model.go:129-141 | Through `evaluateFunc`, the walk of a whole tree visits exactly the nodes below the root with no hidden node above them, the root included (both directions). |
| `Reconcile.CollectCollapsed` | runtime/ui/viewmodels/tree_view_model.go:129-141 | The pruned parent-first walk of a subtree adds to the accumulated set exactly the paths of the collapsed nodes it reaches. A node under a hidden parent is skipped with its subtree. |
| `Reconcile.CollectCollapsedIn` | runtime/ui/viewmodels/tree_view_model.go:129-141 | Walking a sequence of siblings adds the collapsed paths reached in each of them. |
| `Reconcile.CollectCollapsedTree` | runtime/ui/viewmodels/tree_view_model.go:122-141 | `collapsedList` holds exactly the paths of the collapsed nodes of the old tree that the pruned walk reaches. |
| `Reconcile.MarkCollapsed` | runtime/ui/viewmodels/tree_view_model.go:129-149 | The marking walk of a subtree yields `Mark`. A reached node whose path is listed gets Collapsed set. A node under a hidden parent is skipped with its subtree. |
| `Reconcile.MarkCollapsedIn` | runtime/ui/viewmodels/tree_view_model.go:143-149 | Walking a sequence of siblings marks each of them, in order. |
| `Reconcile.MarkCollapsedTree` | runtime/ui/viewmodels/tree_view_model.go:143-149 | The marking walk of the whole new tree yields `MarkTree`; the root is not visited. |
| `Reconcile.MarkOnlyCollapsed` | runtime/ui/viewmodels/tree_view_model.go:143-149 | Marking changes Collapsed flags only. Shape, paths and Hidden flags are unchanged. |
| `Reconcile.MarkSetsListed` | runtime/ui/viewmodels/tree_view_model.go:143-149 | After marking, every node the pruned walk reaches whose path is listed is collapsed. |
| `Reconcile.MarkCarries` | runtime/ui/viewmodels/tree_view_model.go:143-149 | Marking never clears a Collapsed flag. A node whose path is not listed keeps its incoming flag. A subtree under a hidden parent is untouched. |
| `Reconcile.MarkTreeOnlyCollapsed` | runtime/ui/viewmodels/tree_view_model.go:143-149 | On a whole tree, marking leaves the root alone and changes nothing but Collapsed flags. |
| `Reconcile.MarkTreeSetsListed` | runtime/ui/viewmodels/tree_view_model.go:143-149 | On a whole tree, every reached node whose path is listed is collapsed after marking. |
| `Reconcile.MarkTreeCarries` | runtime/ui/viewmodels/tree_view_model.go:143-149 | On a whole tree, marking only sets Collapsed flags on listed paths, never clears one, and leaves unreached subtrees untouched. |
| `ViewModels.SwapTreeKeepsMarks` | runtime/ui/viewmodels/tree_view_model.go:143-155 | The tree that `setCurrentTree` installs has exactly the Collapsed flags the marking walk gave it, because the filter pass that follows writes Hidden only. Running the filter pass on it again changes nothing. |
| `ViewModels.FilterKeepsUnreachedCollapse` | runtime/ui/viewmodels/tree_view_model.go:76-97 | The filter pass keeps every Collapsed flag of a subtree the marking walk does not enter. |
| `ViewModels.MarkThenFilterCarries` | runtime/ui/viewmodels/tree_view_model.go:143-152 | Marking a subtree and then running the filter pass gives each position its promised Collapsed flag. A reached node with a listed path is collapsed, every other node keeps its incoming flag, and no flag is cleared. Reachability is judged by the fetched tree's own Hidden flags. |
| `ViewModels.SwapTreeCarriesCollapse` | runtime/ui/viewmodels/tree_view_model.go:129-155 | In the tree a successful `setCurrentTree` installs, the same holds at every position. A reached node whose path was collapsed on a reached node of the old tree is collapsed. Every other node keeps the flag it came with from the cache. |
| `ViewModels.TreeViewModel.constructor` | runtime/ui/viewmodels/tree_view_model.go:40-45 | The new view model holds the given tree, cache and policy state. |
| `ViewModels.TreeViewModel.NewTreeViewModel` | runtime/ui/viewmodels/tree_view_model.go:34-46 | Fetches key (0,0,0,0). If that fetch fails there is no model and the fetch's error is returned. Otherwise a fresh model holds the fetched tree unchanged, and the given cache and policies. |
| `ViewModels.TreeViewModel.SetFilter` | runtime/ui/viewmodels/tree_view_model.go:66-71 | Stores the filter and re-runs the filter pass on the current tree. Afterwards the tree is a fixpoint of the pass. The layer index is unchanged. |
| `ViewModels.TreeViewModel.FilterUpdate` | runtime/ui/viewmodels/tree_view_model.go:73-105 | Replaces the current tree by its filter pass under the active filter. The result is a fixpoint of the pass. Both policies' state is unchanged. |
| `ViewModels.TreeViewModel.SetLayerIndex` | runtime/ui/viewmodels/tree_view_model.go:109-119 | A rejected index returns false and changes nothing. An accepted index is stored even when the fetch then fails. The result is true iff the index is accepted and the fetch succeeds. On true the current tree is the reconciled, re-filtered new tree. On false the current tree is unchanged. |
| `ViewModels.TreeViewModel.SetCurrentTree` | runtime/ui/viewmodels/tree_view_model.go:121-156 | A failed fetch returns its error with the current tree untouched. A successful fetch installs the fetched tree, with the old tree's reached collapsed paths carried over, then re-filtered. The filter and layer index are unchanged. |
| `Scenarios.VisibleDescendantShowsParent` | runtime/ui/viewmodels/tree_view_model.go:84-95 | `/a` has no match of its own but stays shown because its child `/a/b` matches. A sibling `/c` without a match is hidden. |
| `Scenarios.CollapseCarriedToNewTree` | runtime/ui/viewmodels/tree_view_model.go:136-149 | `/a` and `/a/b` collapsed on the old tree become collapsed on the new tree. `/c` keeps its own flag. |
| `Scenarios.HiddenRegionNotCarried` | runtime/ui/viewmodels/tree_view_model.go:129-141 | Collapse state under a hidden directory is not carried over, because the walk never reaches it. |

## Left out

- In-place mutation and aliasing: nodes are values, and every pass returns the annotated tree. If the comparer hands out the same tree object again for a key, the flags written on it while it was current come back with it. The model's comparer is a pure function of the key, so they do not. This is also why switching layers and back is not proved to restore the collapse state. In the program that round trip comes from the aliasing: the re-fetched tree is the old object, and nothing in this file ever clears a Collapsed flag. The model leaves that aliasing out.
- TreeViewModel.FilterUpdate: has no error result. The traversal fails only when its visitor fails, and this visitor never does. So the error return (lines 99-102), the panic in `SetFilter` (line 69) and the error return after installation (lines 152-154) cannot happen. The `logrus` message (line 100) is output and is left out.
- The results of the two parent-first walks in `setCurrentTree` (lines 136-149) are ignored in the code. Their visitors never fail, so nothing is lost.
- The regular-expression engine: a `Regexp` carries its `FindString` behaviour as a function on strings.
- The internals of the `filetree` package: tree construction, the traversals' own code, the comparer that computes trees, and how `TreeIndexKey` values are built. The comparer is a function of the key.
- The one-line delegations `StringBetween`, `VisitDepthParentFirst`, `VisitDepthChildFirst`, `RemovePath` and `VisibleSize` (lines 48-64), and the layer policy's `GetCurrentLayer` and `GetPrintableLayers`. They have no logic in this file.
- The layer policy's other state: the comparison key depends only on the selected index here. Any other setting the policy keeps (such as how layers are compared) is fixed.
- Children of a node are an ordered sequence. The filter visitor's result does not depend on which visible child it finds first.
- Concurrency: there is none in this code. The model is sequential.
