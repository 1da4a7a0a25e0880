# Tree view reconciliation of the TDesign Vue tree component

This project models the logic at the core of the tree component `td-tree`
(src/tree/td-tree.tsx) and proves properties of it in Dafny.

The component keeps two structures:

- a rendered list `treeNodes`, with one VNode ("view") per shown node;
- an index `nodesMap`, from node value to view.

`refresh` brings both in line with the tree store, which holds every node
with its visible flag. It runs in two stages:

1. `updateNodesMap` walks the list with a manual `index`. It splices out,
   destroys and unindexes every mounted view whose node has left the store.
2. A `forEach` over `store.getNodes()` then handles each node in turn:
   - a visible node's view moves to the running position, or a new view is
     rendered there;
   - a hidden node's view is spliced out, unindexed and destroyed.

The model proves the following about this reconciliation:

- the list and the index stay in one-to-one correspondence;
- the list ends as one view per visible node, in store order, followed by
  the stale views (unmounted views whose node is gone);
- exactly the right views are destroyed;
- running `refresh` a second time changes nothing, as long as no stale view
  has been mounted in between. Once the framework mounts a stale view
  (`Tree.Mount`), the next `updateNodesMap` destroys it.

The hidden-node branch calls `componentInstance.$destroy()` without the
null check that `updateNodesMap` makes (td-tree.tsx:276 against :220). In
the model, a hidden node whose indexed view was never mounted makes
`refresh` throw: `Refresh` returns `ok == false`. The walk stops at the
first such node. That node's view has already been spliced out and
unindexed. The views of the hidden nodes before it stay destroyed. The
list is the views placed so far followed by the untouched rest. The index
is the one that corresponds to this list, which the list determines
(`CorrespondsUnique`).

Alongside the reconciliation, the model covers four small decision rules
of the same component:

- the click rule: the guard, the `trigger`/`ignore` marks, and expand
  before activate;
- the change rule: the same guard, then toggle the check;
- `setItem`, which routes `expanded`/`actived`/`checked` to their setters
  and passes the rest to `node.set`;
- `build`, which computes the initial expanded list (with ancestors under
  `expandParent`) and makes its store calls in a fixed order, only when
  there is data.

Modules:

- `Js` (js.dfy): `Array.prototype.indexOf` and `splice`, and
  `String.prototype.indexOf`.
- `Store` (store.dfy): the store as the component sees it, as a sequence of
  (value, visible) nodes and a membership test.
- `TreeView` (tree_view.dfy): the `Tree` class with `treeNodes`,
  `nodesMap` and the log of destroyed views, plus the reconciliation passes
  and their proofs.
- `TreeEvents` (tree_events.dfy): `handleClick`, `handleChange`, the
  toggles and `setItem`.
- `TreeBuild` (tree_build.dfy): `build`.

## Model

| member | source | states |
|---|---|---|
| Js.IndexOf | src/tree/td-tree.tsx:256 | `indexOf` yields -1 exactly when the element is absent; otherwise it yields the first position holding it |
| Js.SpliceRemoveOfMissing | src/tree/td-tree.tsx:273-274 | with an element missing from the list, `splice(indexOf(x), 1)` removes the last element rather than nothing, which is why the list/index correspondence is a precondition |
| Js.StringIndexOf | src/tree/td-tree.tsx:435 | `indexOf(sub, from)` yields the first occurrence at or after `from`, or -1 when there is none |
| TreeView.RenderItem | src/tree/td-tree.tsx:264 | a freshly rendered view shows the node it was rendered for and is not yet mounted |
| TreeView.Tree.constructor | src/tree/td-tree.tsx:46-50 | the component starts with an empty list and no index |
| TreeView.Tree.GetNodesMap | src/tree/td-tree.tsx:204-211 | creates an empty index on first use, otherwise returns the existing one unchanged; the correspondence is kept |
| TreeView.Tree.UpdateNodesMap | src/tree/td-tree.tsx:213-235 | the new list is the old one without the mounted views whose node left the store, in the original order; the index loses exactly those entries and keeps the others unchanged; exactly those views are destroyed; the correspondence is kept |
| TreeView.UpdatePass | src/tree/td-tree.tsx:217-234 | the `while` loop with its manual `index` computes exactly the surviving views, the reduced index and the destroyed views, and keeps the correspondence |
| TreeView.UpdateIndexOf | src/tree/td-tree.tsx:224 | during the pass, `treeNodes.indexOf(nodeView)` finds the view at the loop's own `index` |
| TreeView.SurvivingMembers | src/tree/td-tree.tsx:220-233 | a view stays in the list if and only if it was there and it is unmounted or its node is still in the store |
| TreeView.RemovedMembers | src/tree/td-tree.tsx:222-227 | a view is destroyed by the pass if and only if it was in the list, is mounted, and its node left the store |
| TreeView.UpdateResult | src/tree/td-tree.tsx:224-227 | removing the destroyed views from both list and index keeps the two in correspondence, and the index then holds exactly the entries whose view survives |
| TreeView.StaleMembers | src/tree/td-tree.tsx:220-222 | every stale view left behind the rendered head comes from the old list, is unmounted, and shows a node missing from the store |
| TreeView.StaleNone | src/tree/td-tree.tsx:220-222 | a list whose views all show store nodes has no stale views |
| TreeView.UpdateKeepsStoreEntries | src/tree/td-tree.tsx:222 | the pass never touches the index entry of a node the store holds, so `refresh` sees the same views for the store's nodes and throws in the same cases as it would on the old index |
| TreeView.Tree.Refresh | src/tree/td-tree.tsx:237-280 | the correspondence is kept. `refresh` throws exactly when some hidden node has an unmounted indexed view. Otherwise the list becomes the views of the visible nodes, in store order (the indexed view, or a new one), followed by the stale views. The destroyed log grows by the views of nodes that left the store, then by the views of the hidden nodes. When it throws, it stops at the first such node. The list is then the views placed for the nodes before it, followed by the surviving views of the nodes after it. The log holds the removed views and the views of the hidden nodes before it |
| TreeView.RefreshPass | src/tree/td-tree.tsx:250-279 | the `forEach` with its running `index` produces the rendered head plus the untouched rest of the list, destroys the hidden nodes' views, and keeps the correspondence. When it throws, it stops at the first hidden unmounted view (`ThrowsAt`). It then leaves the views placed before that node and the original views of the nodes after it, that node's view already spliced out, and the views destroyed before it (`Stopped`) |
| TreeView.RefreshNode | src/tree/td-tree.tsx:252-278 | one callback of the `forEach`: keeps the correspondence, and is ok exactly when this node is not a hidden node with an unmounted view. Then it extends the pass by this node; otherwise it leaves the view spliced out and nothing more destroyed |
| TreeView.MoveStep | src/tree/td-tree.tsx:254-261 | a visible indexed node's view ends at the running position (moved only when `indexOf` differs from `index`), with the same handle and the index unchanged |
| TreeView.RenderStep | src/tree/td-tree.tsx:262-267 | a visible node without a view gets a new view inserted at the running position and recorded in the index |
| TreeView.HideStep | src/tree/td-tree.tsx:269-277 | a hidden node's view is spliced out of the list's rest and unindexed with the correspondence kept; if it was mounted it is destroyed and the pass goes on, otherwise the node is one where `refresh` throws |
| TreeView.SkipStep | src/tree/td-tree.tsx:269-270 | a hidden node without a view changes nothing |
| Js.SpliceStart | src/tree/td-tree.tsx:259-260 | `splice`'s start: a negative start counts from the end, and the start is clamped to the array's length |
| Js.SpliceRemoveAt | src/tree/td-tree.tsx:225 | `splice(k, 1)` at a position inside the array removes exactly that element |
| Js.SpliceInsertAt | src/tree/td-tree.tsx:265 | `splice(k, 0, x)` at a position up to the length inserts `x` there |
| TreeView.MoveTo | src/tree/td-tree.tsx:256-261 | moving a view in the list to a position inside it keeps the length and puts the view at that position |
| TreeView.MoveToPermutes | src/tree/td-tree.tsx:256-261 | the move only reorders the list: the same views, each as often as before |
| TreeView.ListMove | src/tree/td-tree.tsx:256-260 | splicing the view out at `indexOf` and back in at `index` puts it right after the views already placed, and leaves the rest of the list in order without it |
| TreeView.ListRender | src/tree/td-tree.tsx:264-265 | inserting the new view at `index` puts it right after the views already placed; the rest of the list is untouched |
| TreeView.ListHide | src/tree/td-tree.tsx:273-274 | splicing out the hidden node's view leaves the placed views and the rest of the list in order without it |
| TreeView.CorrespondsRemove | src/tree/td-tree.tsx:225-227 | removing a view from the list and its entry from the index keeps them in correspondence |
| TreeView.CorrespondsInsert | src/tree/td-tree.tsx:265-266 | inserting a view of an unindexed node anywhere and indexing it keeps the correspondence |
| TreeView.CorrespondsMoveTo | src/tree/td-tree.tsx:256-260 | moving an indexed view to another position keeps the correspondence |
| TreeView.CorrespondsUnindex | src/tree/td-tree.tsx:273-275 | the indexed view is found by `indexOf`, and splicing it out and deleting its entry keeps the correspondence |
| TreeView.ThrowsAtAgree | src/tree/td-tree.tsx:218-227 | since `updateNodesMap` leaves the store's entries alone, the walk throws at the same node and has placed and destroyed the same views as on the old index |
| TreeView.CorrespondsUnique | src/tree/td-tree.tsx:237-280 | the list determines the index: two indexes in correspondence with the same list are equal |
| TreeView.RenderedShowsVisible | src/tree/td-tree.tsx:250-268 | the head of the list after `refresh` shows exactly the visible nodes' values, in `store.getNodes()` order |
| TreeView.RenderedHas | src/tree/td-tree.tsx:253-268 | every visible node has its view in the head of the list |
| TreeView.HiddenNone | src/tree/td-tree.tsx:269-277 | with no hidden node indexed, `refresh` destroys nothing |
| TreeView.StaleOfStale | src/tree/td-tree.tsx:213-235 | taking the stale views of a list of stale views changes nothing |
| TreeView.RefreshFixpoint | src/tree/td-tree.tsx:237-280 | a second `refresh` with an unchanged store is a no-op: nothing is removed or destroyed, it does not throw, and the list comes out as it went in. The views of visible nodes may have been mounted in between; the stale views must still be unmounted |
| TreeView.Tree.Mount | src/tree/td-tree.tsx:584-590 | the framework rendering the list mounts one view in place. The list keeps its order with that view mounted at the same position, the index entry shows the same mounted view, and the correspondence is kept |
| TreeView.CorrespondsMount | src/tree/td-tree.tsx:584-590 | mounting a view, which the list and the index share, keeps the correspondence |
| TreeView.MountedStaleDestroyed | src/tree/td-tree.tsx:220-227 | a stale view, once mounted, is among the views the next `updateNodesMap` destroys |
| TreeEvents.MarkValue | src/tree/td-tree.tsx:434 | a missing mark reads as the empty string, a present mark as its value |
| TreeEvents.ClickFlags | src/tree/td-tree.tsx:426-447 | expansion is `expandOnClickNode` or a trigger mark naming `expand`, unless an ignore mark names `expand` (ignore wins); activation happens exactly when the ignore mark does not name `active` |
| TreeEvents.HandleClick | src/tree/td-tree.tsx:412-463 | nothing happens for a missing node, a disabled tree or a disabled node. Otherwise the actions are exactly these, in this order: one expansion toggle when `expandOnClickNode` or a trigger mark names `expand` and no ignore mark does; one activation toggle unless an ignore mark names `active`; and one `click` emit |
| TreeEvents.Toggle | src/tree/td-tree.tsx:362-395 | `toggleExpanded`/`toggleActived`/`toggleChecked` call the matching setter on the node with the opposite of its current state |
| TreeEvents.HandleChange | src/tree/td-tree.tsx:464-471 | nothing happens under the same guard as a click; otherwise exactly one call, which sets the node's check to the opposite of its current state |
| TreeEvents.SetItem | src/tree/td-tree.tsx:474-487 | throws without a store or without options (`Object.keys` runs first); is a no-op for a value the store does not hold; otherwise makes the state-key setter calls, then `node.set` with the options minus the three state keys |
| TreeEvents.RouteStates | src/tree/td-tree.tsx:479-484 | the `forEach` over the three names produces the setter calls for the keys present, in order, and leaves the options without those keys |
| TreeEvents.DispatchRoutes | src/tree/td-tree.tsx:479-484 | each setter call passes on the option's own value, every state key present gets its call, and the calls keep the order of the key list |
| TreeEvents.SetItemRoutes | src/tree/td-tree.tsx:479-485 | for `setItem`, the calls come in the order `expanded`, `actived`, `checked`; each present key is applied once with its value; `node.set` receives every other option unchanged and never a state key |
| TreeBuild.MapSetKeys | src/tree/td-tree.tsx:340 | `Map.set` on a key adds it at the end unless present, keeps the existing keys in place, and never duplicates a key |
| TreeBuild.KeysMembers | src/tree/td-tree.tsx:348 | the map's keys are exactly the values set, each once |
| TreeBuild.VisitsMembers | src/tree/td-tree.tsx:339-347 | the values set are every element of `expanded` and, under `expandParent`, every ancestor of each |
| TreeBuild.SetEach | src/tree/td-tree.tsx:343-345 | setting each ancestor value in turn yields the keys of the values set so far followed by those ancestors |
| TreeBuild.ExpandedKeys | src/tree/td-tree.tsx:337-349 | throws exactly when `expandParent` is on and some expanded value has no node; otherwise yields the map's keys after the loop |
| TreeBuild.ExpandedKeysMembers | src/tree/td-tree.tsx:337-349 | the list passed to `setExpanded` holds every expanded value, plus every ancestor of each under `expandParent`, and nothing else, with no duplicates |
| TreeBuild.Build | src/tree/td-tree.tsx:303-360 | makes no call without data; otherwise it runs to the end exactly when the expanded list can be built |
| TreeBuild.PlanFrame | src/tree/td-tree.tsx:303-359 | without data nothing happens. With data the store is created and filled first. When `build` runs to the end it finishes with `refreshNodes` and `refresh`, and `refresh` runs only then |
| TreeBuild.PlanInOrder | src/tree/td-tree.tsx:303-359 | the calls come in the source's order (create, append, checked, expanded, actived, refreshNodes, refresh), each at most once |
| TreeBuild.PlanChecked | src/tree/td-tree.tsx:332-334 | the checked values reach the store exactly when there is data and `value` is an array, even if `build` later throws |
| TreeBuild.PlanExpanded | src/tree/td-tree.tsx:337-350 | the expanded list reaches the store exactly when there is data, `expanded` is an array and `build` runs to the end, and it is ExpandedKeys' list |
| TreeBuild.PlanActived | src/tree/td-tree.tsx:353-355 | the actived values reach the store exactly when there is data, `actived` is an array and `build` runs to the end |

## Left out

- The tree store and its nodes (common/js/tree/tree-store and tree-node)
  are not part of this model. They appear only as the sequence of
  (value, visible) nodes, a membership test for `store.getNode`, and, in
  `build`, a map from each value to its ancestor values for `getParents`.
  Cascades, `expandMutex`, lazy loading and filtering are not modelled.
- Node values are assumed unique (`ValuesUnique`), because the store keys
  its nodes by value.
- A view is modelled by the value it shows and whether it is mounted. VNode
  identity is that pair. `$destroy()` is modelled as an entry in the
  `destroyed` log.
- The list/index correspondence is a class invariant (`Tree.Valid`). The
  source does not check it. Without it, `indexOf` can yield -1 (see
  `Js.SpliceRemoveOfMissing`).
- `treeScope.scopedSlots` (td-tree.tsx:245), rendering, the prop watchers,
  `transition-group` and CSS classes are presentation and are not modelled.
  What rendering does to the views is reduced to `Tree.Mount`, one view at a
  time. The framework unmounting a view by any way other than `$destroy()`
  is not modelled.
- `getMark`, `getNode` and `callEmit` from ./util are not part of this
  model. Mark values are inputs. The events emitted by the setters and the
  final `click` emit are recorded as actions. Their context objects, and the
  `mouseEvent` field that `handleClick` sets and clears, are not modelled.
- TreeEvents.HandleClick: the activation toggle is computed from the
  node's state at click time. This assumes that `setExpanded` on the node
  does not change its actived state, which is store behaviour and not part
  of this model.
- TreeEvents.SetItem: the `delete spec[name]` also removes the keys from
  the caller's options object. The model records what `node.set` receives
  but not that aliasing. `Object.keys` on a non-object primitive is not
  modelled; options are either absent or a map.
- TreeBuild.Build: the store's constructor options and its `onLoad` and
  `onUpdate` callbacks are not modelled. `value`, `expanded` and `actived`
  stand for `Array.isArray` checks as present or absent. The calls are
  recorded, not executed.
- Map keys use Dafny equality. JavaScript's SameValueZero differs only for
  NaN, which node values do not model.
- The public getters (`getItem`, `getItems`, `getPath`, `getParents`) are
  plain reads of store results, and the other public methods forward to the
  store. They are not modelled.
