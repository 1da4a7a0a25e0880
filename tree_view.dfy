/** The tree component's view reconciliation (src/tree/td-tree.tsx): the
    rendered list `treeNodes` and the index `nodesMap` (node value to view),
    brought in line with the store's visible nodes by `updateNodesMap` and
    `refresh`. */
module TreeView {
  import opened Js
  import opened Store

  /** A rendered tree item: the VNode `renderItem` builds for one node.
      `mounted` says whether the framework has given it a component
      instance (`componentInstance`) yet. */
  datatype View = View(value: NodeValue, mounted: bool)

  /** `renderItem(node)`: a new view, not yet mounted. */
  function RenderItem(node: TreeNode): (r: View)
    ensures r.value == node.value && !r.mounted
  {
    View(node.value, false)
  }

  /** A view is kept by `updateNodesMap` unless it is mounted and its node
      has left the store. */
  predicate Survives(v: View, store: TreeStore)
  {
    !v.mounted || store.Has(v.value)
  }

  /** The views of `s` that `updateNodesMap` keeps, in order. */
  function Surviving(s: seq<View>, store: TreeStore): seq<View>
  {
    if |s| == 0 then []
    else
      var last := s[|s| - 1];
      Surviving(s[..|s| - 1], store) + (if Survives(last, store) then [last] else [])
  }

  /** The views of `s` that `updateNodesMap` destroys, in order. */
  function Removed(s: seq<View>, store: TreeStore): seq<View>
  {
    if |s| == 0 then []
    else
      var last := s[|s| - 1];
      Removed(s[..|s| - 1], store) + (if Survives(last, store) then [] else [last])
  }

  /** The views that no reconciliation takes out of the list: never
      mounted, and their node is not in the store. */
  function Stale(s: seq<View>, store: TreeStore): seq<View>
  {
    if |s| == 0 then []
    else
      var last := s[|s| - 1];
      Stale(s[..|s| - 1], store) +
        (if !last.mounted && !store.Has(last.value) then [last] else [])
  }

  /** The views of `s` whose value is not in `gone`, in order. */
  function Without(s: seq<View>, gone: seq<NodeValue>): seq<View>
  {
    if |s| == 0 then []
    else
      var last := s[|s| - 1];
      Without(s[..|s| - 1], gone) + (if last.value in gone then [] else [last])
  }

  /** The view `refresh` shows for a visible node: the indexed one, or a
      new one from `renderItem`. */
  function ViewFor(node: TreeNode, m: map<NodeValue, View>): View
  {
    if node.value in m then m[node.value] else RenderItem(node)
  }

  /** The views `refresh` puts at the head of the list, one per visible
      node, in the store's order. */
  function Rendered(nodes: seq<TreeNode>, m: map<NodeValue, View>): seq<View>
  {
    if |nodes| == 0 then []
    else
      var last := nodes[|nodes| - 1];
      Rendered(nodes[..|nodes| - 1], m) + (if last.visible then [ViewFor(last, m)] else [])
  }

  /** The views `refresh` destroys: those of the hidden nodes, in the
      store's order. */
  function Hidden(nodes: seq<TreeNode>, m: map<NodeValue, View>): seq<View>
  {
    if |nodes| == 0 then []
    else
      var last := nodes[|nodes| - 1];
      Hidden(nodes[..|nodes| - 1], m) +
        (if !last.visible && last.value in m then [m[last.value]] else [])
  }

  /** The node shown at position `p` of a list of views. Distinctness is
      stated through it so that it is only unfolded where a proof asks. */
  function ValueAt(s: seq<View>, p: int): NodeValue
    requires 0 <= p < |s|
  {
    s[p].value
  }

  /** No two views in `s` show the same node. */
  predicate DistinctValues(s: seq<View>)
  {
    forall p, q :: 0 <= p < q < |s| ==> ValueAt(s, p) != ValueAt(s, q)
  }

  /** The view at position `p` is indexed under its own value. */
  predicate IndexedAt(tn: seq<View>, m: map<NodeValue, View>, p: int)
    requires 0 <= p < |tn|
  {
    tn[p].value in m && m[tn[p].value] == tn[p]
  }

  /** The view indexed under `w` is rendered and shows node `w`. */
  predicate ShownIn(tn: seq<View>, m: map<NodeValue, View>, w: NodeValue)
    requires w in m
  {
    m[w] in tn && m[w].value == w
  }

  /** The one-to-one correspondence between the rendered list and the
      index: distinct values, every view indexed under its own value,
      every indexed view rendered. The quantifiers fire only on the named
      predicates, so that proofs unfold them where they need them. */
  predicate Corresponds(tn: seq<View>, m: map<NodeValue, View>)
  {
    && DistinctValues(tn)
    && (forall p {:trigger IndexedAt(tn, m, p)} :: 0 <= p < |tn| ==> IndexedAt(tn, m, p))
    && (forall w {:trigger ShownIn(tn, m, w)} :: w in m ==> ShownIn(tn, m, w))
  }

  /** Node `k` of the store is hidden and its indexed view was never
      mounted: `refresh` dereferences the missing component instance. */
  predicate HidesUnmountedAt(store: TreeStore, m: map<NodeValue, View>, k: int)
  {
    0 <= k < |store.nodes| && !store.nodes[k].visible &&
    store.nodes[k].value in m && !m[store.nodes[k].value].mounted
  }

  predicate HidesUnmounted(store: TreeStore, m: map<NodeValue, View>)
  {
    exists k :: 0 <= k < |store.nodes| && HidesUnmountedAt(store, m, k)
  }

  /** Node `i` is the first node of the store that hides an unmounted
      view, so the node at which `refresh`'s walk throws. */
  predicate ThrowsAt(store: TreeStore, m: map<NodeValue, View>, i: int)
  {
    && HidesUnmountedAt(store, m, i)
    && forall k :: 0 <= k < i ==> !HidesUnmountedAt(store, m, k)
  }

  // ---- updateNodesMap's pass ----

  lemma {:induction false} SurvivingMembers(s: seq<View>, store: TreeStore)
    ensures forall v :: v in Surviving(s, store) <==> v in s && Survives(v, store)
  {
    if |s| > 0 {
      SurvivingMembers(s[..|s| - 1], store);
      assert s == s[..|s| - 1] + [s[|s| - 1]];
    }
  }

  /** One step of `updateNodesMap`'s pass: the element at `index` is the
      next original view, and keeping or splicing it out extends the pass. */
  lemma SurvivingStep(T: seq<View>, j: nat, tn: seq<View>, index: nat, store: TreeStore)
    requires j < |T| && tn == Surviving(T[..j], store) + T[j..]
    requires index == |Surviving(T[..j], store)|
    ensures index < |tn| && tn[index] == T[j]
    ensures Survives(T[j], store) ==>
      tn == Surviving(T[..j + 1], store) + T[j + 1..] &&
      index + 1 == |Surviving(T[..j + 1], store)|
    ensures !Survives(T[j], store) ==>
      tn[..index] + tn[index + 1..] == Surviving(T[..j + 1], store) + T[j + 1..] &&
      index == |Surviving(T[..j + 1], store)|
  {
    assert T[..j + 1][..j] == T[..j];
    var S := Surviving(T[..j], store);
    assert T[j..] == [T[j]] + T[j + 1..];
    if !Survives(T[j], store) {
      assert tn[..index] == S;
      assert tn[index + 1..] == T[j + 1..];
    }
  }

  lemma RemovedSnoc(T: seq<View>, j: nat, store: TreeStore)
    requires j < |T|
    ensures Removed(T[..j + 1], store) ==
      Removed(T[..j], store) + (if Survives(T[j], store) then [] else [T[j]])
  {
    assert T[..j + 1][..j] == T[..j];
  }

  // ---- refresh's pass ----

  /** Extending refresh's pass by one node extends what it has seen, shown
      and destroyed. */
  lemma PassSnoc(nodes: seq<TreeNode>, i: nat, m: map<NodeValue, View>)
    requires i < |nodes|
    ensures Values(nodes[..i + 1]) == Values(nodes[..i]) + [nodes[i].value]
    ensures Rendered(nodes[..i + 1], m) ==
      Rendered(nodes[..i], m) + (if nodes[i].visible then [ViewFor(nodes[i], m)] else [])
    ensures Hidden(nodes[..i + 1], m) ==
      Hidden(nodes[..i], m) +
        (if !nodes[i].visible && nodes[i].value in m then [m[nodes[i].value]] else [])
  {
    assert nodes[..i + 1][..i] == nodes[..i];
  }

  // ---- the correspondence under splicing ----

  lemma DistinctAt(s: seq<View>, p: nat, q: nat)
    requires DistinctValues(s) && p < |s| && q < |s| && p != q
    ensures s[p].value != s[q].value
  {
    if p < q {
      assert ValueAt(s, p) != ValueAt(s, q);
    } else {
      assert ValueAt(s, q) != ValueAt(s, p);
    }
  }

  /** In a list with distinct values, indexOf finds a view at its place. */
  lemma IndexOfDistinct(tn: seq<View>, p: nat)
    requires p < |tn| && DistinctValues(tn)
    ensures IndexOf(tn, tn[p]) == p
  {
    forall q | 0 <= q < p ensures tn[q] != tn[p] {
      DistinctAt(tn, q, p);
    }
    IndexOfFirst(tn, tn[p], p);
  }

  /** Splicing a view out, and its value out of the index, keeps the
      correspondence. */
  lemma CorrespondsRemove(tn: seq<View>, m: map<NodeValue, View>, p: nat)
    requires p < |tn| && Corresponds(tn, m)
    ensures Corresponds(tn[..p] + tn[p + 1..], m - {tn[p].value})
  {
    var r := tn[..p] + tn[p + 1..];
    var m' := m - {tn[p].value};
    assert forall q :: 0 <= q < |r| ==> r[q] == tn[if q < p then q else q + 1];
    forall a, b | 0 <= a < b < |r| ensures ValueAt(r, a) != ValueAt(r, b) {
      DistinctAt(tn, if a < p then a else a + 1, if b < p then b else b + 1);
    }
    forall q | 0 <= q < |r| ensures IndexedAt(r, m', q) {
      var q' := if q < p then q else q + 1;
      assert IndexedAt(tn, m, q');
      DistinctAt(tn, q', p);
    }
    forall w | w in m' ensures ShownIn(r, m', w) {
      assert ShownIn(tn, m, w);
      var q :| 0 <= q < |tn| && tn[q] == m[w];
      assert IndexedAt(tn, m, p);
      assert q != p;
      assert r[if q < p then q else q - 1] == m[w];
    }
  }

  /** Splicing in a view whose value is not indexed, and indexing it,
      keeps the correspondence. */
  lemma CorrespondsInsert(tn: seq<View>, m: map<NodeValue, View>, k: nat, x: View)
    requires k <= |tn| && Corresponds(tn, m) && x.value !in m
    ensures Corresponds(tn[..k] + [x] + tn[k..], m[x.value := x])
  {
    var r := tn[..k] + [x] + tn[k..];
    var m' := m[x.value := x];
    assert forall q :: 0 <= q < |r| && q != k ==> r[q] == tn[if q < k then q else q - 1];
    forall a, b | 0 <= a < b < |r| ensures ValueAt(r, a) != ValueAt(r, b) {
      if a != k && b != k {
        DistinctAt(tn, if a < k then a else a - 1, if b < k then b else b - 1);
      } else {
        var q := if a == k then b else a;
        assert IndexedAt(tn, m, if q < k then q else q - 1);
      }
    }
    forall q | 0 <= q < |r| ensures IndexedAt(r, m', q) {
      if q != k {
        assert IndexedAt(tn, m, if q < k then q else q - 1);
      }
    }
    forall w | w in m' ensures ShownIn(r, m', w) {
      if w != x.value {
        assert ShownIn(tn, m, w);
        var q :| 0 <= q < |tn| && tn[q] == m[w];
        assert r[if q < k then q else q + 1] == m[w];
      } else {
        assert r[k] == x;
      }
    }
  }

  /** Lines 256-261 of `refresh`: the view `x`, found by `indexOf`, is
      spliced out and back in at position `k` unless it is already there. */
  function MoveTo(tn: seq<View>, x: View, k: int): (r: seq<View>)
    ensures x in tn && 0 <= k < |tn| ==> |r| == |tn| && r[k] == x
  {
    var p := IndexOf(tn, x);
    if p == k then tn else SpliceInsert(SpliceRemove(tn, p), k, x)
  }

  /** The move only reorders the list: no view is lost or duplicated. */
  lemma MoveToPermutes(tn: seq<View>, x: View, k: nat)
    requires x in tn && k < |tn|
    ensures multiset(MoveTo(tn, x, k)) == multiset(tn)
  {
    var p := IndexOf(tn, x);
    if p != k {
      var d := SpliceRemove(tn, p);
      SpliceRemoveAt(tn, p);
      SpliceInsertAt(d, k, x);
      calc {
        multiset(MoveTo(tn, x, k));
        multiset(d[..k] + [x] + d[k..]);
        multiset(d[..k]) + multiset{x} + multiset(d[k..]);
        { assert d == d[..k] + d[k..]; }
        multiset(d) + multiset{x};
        multiset(tn[..p]) + multiset(tn[p + 1..]) + multiset{x};
        { assert tn == tn[..p] + [x] + tn[p + 1..]; }
        multiset(tn);
      }
    }
  }

  /** Moving an indexed view to another position keeps the index. */
  lemma CorrespondsMove(tn: seq<View>, m: map<NodeValue, View>, p: nat, k: nat)
    requires p < |tn| && k < |tn| && Corresponds(tn, m)
    ensures Corresponds(SpliceInsert(SpliceRemove(tn, p), k, tn[p]), m)
  {
    var x := tn[p];
    assert IndexedAt(tn, m, p);
    CorrespondsRemove(tn, m, p);
    SpliceRemoveAt(tn, p);
    CorrespondsInsert(tn[..p] + tn[p + 1..], m - {x.value}, k, x);
    SpliceInsertAt(tn[..p] + tn[p + 1..], k, x);
    assert (m - {x.value})[x.value := x] == m;
  }

  /** Splicing out the view indexed under `v` and unindexing `v` keeps the
      index. */
  lemma CorrespondsUnindex(tn: seq<View>, m: map<NodeValue, View>, v: NodeValue)
    requires Corresponds(tn, m) && v in m
    ensures 0 <= IndexOf(tn, m[v]) < |tn|
    ensures Corresponds(SpliceRemove(tn, IndexOf(tn, m[v])), m - {v})
  {
    assert ShownIn(tn, m, v);
    var p := IndexOf(tn, m[v]);
    CorrespondsRemove(tn, m, p);
    SpliceRemoveAt(tn, p);
  }

  /** Moving the view indexed under `v` to position `k` keeps the index. */
  lemma CorrespondsMoveTo(tn: seq<View>, m: map<NodeValue, View>, v: NodeValue, k: nat)
    requires Corresponds(tn, m) && v in m && k < |tn|
    ensures Corresponds(MoveTo(tn, m[v], k), m)
  {
    assert ShownIn(tn, m, v);
    var p := IndexOf(tn, m[v]);
    CorrespondsMove(tn, m, p, k);
  }

  /** Mounting the view indexed under `v` in place, in the list and in the
      index alike (both hold the same VNode), keeps the correspondence. */
  lemma CorrespondsMount(tn: seq<View>, m: map<NodeValue, View>, v: NodeValue)
    requires Corresponds(tn, m) && v in m
    ensures 0 <= IndexOf(tn, m[v]) < |tn|
    ensures Corresponds(tn[IndexOf(tn, m[v]) := View(v, true)], m[v := View(v, true)])
  {
    assert ShownIn(tn, m, v);
    var p, x := IndexOf(tn, m[v]), View(v, true);
    var r, m' := tn[p := x], m[v := x];
    forall a, b | 0 <= a < b < |r| ensures ValueAt(r, a) != ValueAt(r, b) {
      assert ValueAt(tn, a) != ValueAt(tn, b);
    }
    forall q | 0 <= q < |r| ensures IndexedAt(r, m', q) {
      assert IndexedAt(tn, m, q);
      if q != p {
        assert ValueAt(tn, q) != ValueAt(tn, p) by {
          if q < p { assert ValueAt(tn, q) != ValueAt(tn, p); }
          else { assert ValueAt(tn, p) != ValueAt(tn, q); }
        }
      }
    }
    forall w | w in m' ensures ShownIn(r, m', w) {
      if w != v {
        assert ShownIn(tn, m, w);
        var q :| 0 <= q < |tn| && tn[q] == m[w];
        assert r[q] == m'[w];
      } else {
        assert r[p] == x;
      }
    }
  }

  /** The list determines the index: two indexes that correspond to the
      same list are the same map. */
  lemma CorrespondsUnique(tn: seq<View>, m1: map<NodeValue, View>, m2: map<NodeValue, View>)
    requires Corresponds(tn, m1) && Corresponds(tn, m2)
    ensures m1 == m2
  {
    forall w | w in m1 ensures w in m2 && m1[w] == m2[w] {
      assert ShownIn(tn, m1, w);
      var p :| 0 <= p < |tn| && tn[p] == m1[w];
      assert IndexedAt(tn, m2, p);
    }
    forall w | w in m2 ensures w in m1 {
      assert ShownIn(tn, m2, w);
      var p :| 0 <= p < |tn| && tn[p] == m2[w];
      assert IndexedAt(tn, m1, p);
    }
  }

  // ---- refresh's pass, one node at a time ----

  /** After `i` nodes, the list is the views placed so far followed by the
      original views of nodes not yet passed. */
  ghost predicate Placed(nodes: seq<TreeNode>, T: seq<View>, M: map<NodeValue, View>, i: int, tn: seq<View>)
  {
    0 <= i <= |nodes| && tn == Rendered(nodes[..i], M) + Without(T, Values(nodes[..i]))
  }

  /** The index still agrees with the original one on the nodes not yet
      passed. */
  ghost predicate Agrees(nodes: seq<TreeNode>, M: map<NodeValue, View>, i: int, m: map<NodeValue, View>)
  {
    forall k :: 0 <= i <= k < |nodes| ==>
      (nodes[k].value in m <==> nodes[k].value in M) &&
      (nodes[k].value in m ==> m[nodes[k].value] == M[nodes[k].value])
  }

  /** Every indexed view shows the node it is indexed under. */
  ghost predicate SelfIndexed(M: map<NodeValue, View>)
  {
    forall w :: w in M ==> M[w].value == w
  }

  /** What holds before the pass reaches node `i`. */
  ghost predicate PassFrame(store: TreeStore, T: seq<View>, M: map<NodeValue, View>, i: int,
                            tn: seq<View>, m: map<NodeValue, View>)
  {
    && store.ValuesUnique() && SelfIndexed(M) && 0 <= i < |store.nodes|
    && Placed(store.nodes, T, M, i, tn) && Corresponds(tn, m) && Agrees(store.nodes, M, i, m)
  }

  /** The loop invariant of refresh's pass before node `i`: `index`
      views placed, no hidden node so far had an unmounted view, and the
      views destroyed so far are those of the hidden nodes passed. */
  ghost predicate PassInv(store: TreeStore, T: seq<View>, M: map<NodeValue, View>, i: int, index: int,
                          tn: seq<View>, m: map<NodeValue, View>, gone: seq<View>)
  {
    && store.ValuesUnique() && SelfIndexed(M)
    && Placed(store.nodes, T, M, i, tn) && Corresponds(tn, m) && Agrees(store.nodes, M, i, m)
    && index == |Rendered(store.nodes[..i], M)|
    && (forall k :: 0 <= k < i ==> !HidesUnmountedAt(store, M, k))
    && gone == Hidden(store.nodes[..i], M)
  }

  /** The facts every step starts from: where the placed views end, and
      that the node reached shows in none of them. */
  lemma StepStart(store: TreeStore, T: seq<View>, M: map<NodeValue, View>, i: nat,
                  tn: seq<View>, m: map<NodeValue, View>)
    returns (F: seq<View>, W: seq<View>)
    requires PassFrame(store, T, M, i, tn, m)
    ensures F == Rendered(store.nodes[..i], M) && W == Without(T, Values(store.nodes[..i]))
    ensures tn == F + W
    ensures forall x :: x in F ==> x.value != store.nodes[i].value
    ensures Without(T, Values(store.nodes[..i + 1])) == Without(W, [store.nodes[i].value])
    ensures Rendered(store.nodes[..i + 1], M) ==
      F + (if store.nodes[i].visible then [ViewFor(store.nodes[i], M)] else [])
    ensures Hidden(store.nodes[..i + 1], M) ==
      Hidden(store.nodes[..i], M) +
        (if !store.nodes[i].visible && store.nodes[i].value in M then [M[store.nodes[i].value]] else [])
  {
    var nodes := store.nodes;
    F, W := Rendered(nodes[..i], M), Without(T, Values(nodes[..i]));
    PassSnoc(nodes, i, M);
    UniqueNext(store, i);
    RenderedIn(nodes[..i], M);
    WithoutSnoc(T, Values(nodes[..i]), nodes[i].value);
  }

  /** Node `i` hides no unmounted view unless it is hidden and its view
      is unmounted, so the invariant's prefix extends by one node. */
  lemma HiddenPrefix(store: TreeStore, M: map<NodeValue, View>, i: nat)
    requires i < |store.nodes|
    requires forall k :: 0 <= k < i ==> !HidesUnmountedAt(store, M, k)
    requires store.nodes[i].visible || store.nodes[i].value !in M || M[store.nodes[i].value].mounted
    ensures forall k :: 0 <= k < i + 1 ==> !HidesUnmountedAt(store, M, k)
  {
  }

  /** Moving the view of a node not among the placed views `F` to the
      end of them leaves the tail without that node's view. */
  lemma ListMove(F: seq<View>, W: seq<View>, m: map<NodeValue, View>, v: NodeValue)
    requires Corresponds(F + W, m) && v in m
    requires forall x :: x in F ==> x.value != v
    ensures |F| < |F + W|
    ensures MoveTo(F + W, m[v], |F|) == F + [m[v]] + Without(W, [v])
  {
    var tn, x := F + W, m[v];
    var q := LocateView(tn, F, W, m, v);
    WithoutOne(W, q, v);
    var rest := W[..q] + W[q + 1..];
    if q == 0 {
      TailHead(F, W, q, x);
      assert MoveTo(tn, x, |F|) == tn;
    } else {
      TailRemove(F, W, q);
      HeadInsert(F, rest, x);
      assert MoveTo(tn, x, |F|) == SpliceInsert(SpliceRemove(tn, |F| + q), |F|, x);
    }
  }

  /** Inserting the view of an unindexed node after the placed views
      leaves the tail as it was. */
  lemma ListRender(F: seq<View>, W: seq<View>, m: map<NodeValue, View>, v: NodeValue, x: View)
    requires Corresponds(F + W, m) && v !in m
    ensures SpliceInsert(F + W, |F|, x) == F + [x] + Without(W, [v])
    ensures Without(W, [v]) == W
  {
    NotShown(F, W, m, v);
    WithoutNone(W, v);
    HeadInsert(F, W, x);
  }

  /** Splicing out the view of a node not among the placed views takes it
      out of the tail. */
  lemma ListHide(F: seq<View>, W: seq<View>, m: map<NodeValue, View>, v: NodeValue)
    requires Corresponds(F + W, m) && v in m
    requires forall x :: x in F ==> x.value != v
    ensures SpliceRemove(F + W, IndexOf(F + W, m[v])) == F + Without(W, [v])
  {
    var q := LocateView(F + W, F, W, m, v);
    WithoutOne(W, q, v);
    TailRemove(F, W, q);
  }

  /** Agreement with the original index on the nodes after `i` survives
      any change to the entry of node `i`, whose value no later node has. */
  lemma AgreesNext(store: TreeStore, M: map<NodeValue, View>, i: nat, m: map<NodeValue, View>, x: View)
    requires store.ValuesUnique() && i < |store.nodes| && Agrees(store.nodes, M, i, m)
    ensures var v := store.nodes[i].value;
      && (v in m <==> v in M) && (v in m ==> m[v] == M[v])
      && Agrees(store.nodes, M, i + 1, m)
      && Agrees(store.nodes, M, i + 1, m - {v})
      && Agrees(store.nodes, M, i + 1, m[v := x])
  {
    UniqueNext(store, i);
  }

  /** A visible node with a view: the view is moved to the end of the
      placed views, unless it is there already. */
  lemma MoveStep(store: TreeStore, T: seq<View>, M: map<NodeValue, View>, i: nat, index: int,
                 tn: seq<View>, m: map<NodeValue, View>, gone: seq<View>)
    requires PassInv(store, T, M, i, index, tn, m, gone) && i < |store.nodes|
    requires store.nodes[i].visible && store.nodes[i].value in m
    ensures
      PassInv(store, T, M, i + 1, index + 1, MoveTo(tn, m[store.nodes[i].value], index), m, gone)
  {
    var v := store.nodes[i].value;
    var F, W := StepStart(store, T, M, i, tn, m);
    ListMove(F, W, m, v);
    CorrespondsMoveTo(tn, m, v, index);
    AgreesNext(store, M, i, m, m[v]);
    HiddenPrefix(store, M, i);
  }

  /** A visible node without a view: `renderItem` makes one, which goes
      at the end of the placed views and into the index. */
  lemma RenderStep(store: TreeStore, T: seq<View>, M: map<NodeValue, View>, i: nat, index: int,
                   tn: seq<View>, m: map<NodeValue, View>, gone: seq<View>)
    requires PassInv(store, T, M, i, index, tn, m, gone) && i < |store.nodes|
    requires store.nodes[i].visible && store.nodes[i].value !in m
    ensures
      var x := RenderItem(store.nodes[i]);
      PassInv(store, T, M, i + 1, index + 1, SpliceInsert(tn, index, x), m[store.nodes[i].value := x], gone)
  {
    var v, x := store.nodes[i].value, RenderItem(store.nodes[i]);
    var F, W := StepStart(store, T, M, i, tn, m);
    ListRender(F, W, m, v, x);
    CorrespondsInsert(tn, m, index, x);
    SpliceInsertAt(tn, index, x);
    AgreesNext(store, M, i, m, x);
    HiddenPrefix(store, M, i);
  }

  /** A hidden node with a view: the view is spliced out and unindexed. */
  lemma HideStep(store: TreeStore, T: seq<View>, M: map<NodeValue, View>, i: nat, index: int,
                 tn: seq<View>, m: map<NodeValue, View>, gone: seq<View>)
    requires PassInv(store, T, M, i, index, tn, m, gone) && i < |store.nodes|
    requires !store.nodes[i].visible && store.nodes[i].value in m
    ensures
      var v := store.nodes[i].value;
      var tn' := SpliceRemove(tn, IndexOf(tn, m[v]));
      && Corresponds(tn', m - {v})
      && tn' == Rendered(store.nodes[..i], M) + Without(T, Values(store.nodes[..i + 1]))
      && (!m[v].mounted ==> HidesUnmountedAt(store, M, i))
      && (m[v].mounted ==> PassInv(store, T, M, i + 1, index, tn', m - {v}, gone + [m[v]]))
  {
    var v := store.nodes[i].value;
    var F, W := StepStart(store, T, M, i, tn, m);
    ListHide(F, W, m, v);
    CorrespondsUnindex(tn, m, v);
    AgreesNext(store, M, i, m, m[v]);
    assert m[v] == M[v];
    if m[v].mounted {
      assert Rendered(store.nodes[..i + 1], M) == F;
      assert Hidden(store.nodes[..i + 1], M) == gone + [m[v]];
      HiddenPrefix(store, M, i);
    }
  }

  /** A hidden node without a view: nothing changes. */
  lemma SkipStep(store: TreeStore, T: seq<View>, M: map<NodeValue, View>, i: nat, index: int,
                 tn: seq<View>, m: map<NodeValue, View>, gone: seq<View>)
    requires PassInv(store, T, M, i, index, tn, m, gone) && i < |store.nodes|
    requires !store.nodes[i].visible && store.nodes[i].value !in m
    ensures PassInv(store, T, M, i + 1, index, tn, m, gone)
  {
    var v := store.nodes[i].value;
    var F, W := StepStart(store, T, M, i, tn, m);
    NotShown(F, W, m, v);
    WithoutNone(W, v);
    assert Without(T, Values(store.nodes[..i + 1])) == W;
    assert Rendered(store.nodes[..i + 1], M) == F;
    assert Hidden(store.nodes[..i + 1], M) == gone;
    AgreesNext(store, M, i, m, RenderItem(store.nodes[i]));
    HiddenPrefix(store, M, i);
  }

  /** After the last node, the invariant is the pass's result. */
  lemma PassDone(store: TreeStore, T: seq<View>, M: map<NodeValue, View>, i: nat, index: int,
                 tn: seq<View>, m: map<NodeValue, View>, gone: seq<View>)
    requires PassInv(store, T, M, i, index, tn, m, gone) && i == |store.nodes|
    ensures !HidesUnmounted(store, M)
    ensures tn == Rendered(store.nodes, M) + Without(T, Values(store.nodes))
    ensures gone == Hidden(store.nodes, M)
  {
    assert store.nodes[..i] == store.nodes;
  }

  /** Before the first node, the invariant holds of the component's own
      list and index. */
  lemma PassStart(store: TreeStore, T: seq<View>, M: map<NodeValue, View>)
    requires Corresponds(T, M) && store.ValuesUnique()
    ensures PassInv(store, T, M, 0, 0, T, M, [])
  {
    forall w | w in M ensures M[w].value == w {
      assert ShownIn(T, M, w);
    }
    WithoutNothing(T);
  }

  /** What the walk leaves when node `i` throws: the views placed for the
      nodes before it, then the original views of the nodes after it (node
      `i`'s own view is spliced out before its `$destroy()` throws), and
      the views of the hidden nodes before it destroyed. */
  ghost predicate Stopped(store: TreeStore, T: seq<View>, M: map<NodeValue, View>, i: int,
                          tn: seq<View>, gone: seq<View>)
  {
    && ThrowsAt(store, M, i)
    && tn == Rendered(store.nodes[..i], M) + Without(T, Values(store.nodes[..i + 1]))
    && gone == Hidden(store.nodes[..i], M)
  }

  /** The callback `refresh` hands to `forEach`, for node `i`: puts the
      view of a visible node, reused from the index or new from
      `renderItem`, at position `index`, and splices out, unindexes and
      destroys the view of a hidden node. Destroying a view that was never
      mounted dereferences its missing component instance and throws: `ok`
      is false then. */
  method RefreshNode(node: TreeNode, index: nat, tn: seq<View>, m: map<NodeValue, View>, gone: seq<View>,
                     ghost store: TreeStore, ghost T: seq<View>, ghost M: map<NodeValue, View>, ghost i: nat)
    returns (ok: bool, index': nat, tn': seq<View>, m': map<NodeValue, View>, gone': seq<View>)
    requires i < |store.nodes| && node == store.nodes[i]
    requires PassInv(store, T, M, i, index, tn, m, gone)
    ensures Corresponds(tn', m')
    ensures ok <==> !HidesUnmountedAt(store, M, i)
    ensures ok ==> PassInv(store, T, M, i + 1, index', tn', m', gone')
    ensures !ok ==> Stopped(store, T, M, i, tn', gone')
  {
    ok, index', tn', m', gone' := true, index, tn, m, gone;
    if node.visible {
      if node.value in m {
        // the node has a view: move it to the current position
        MoveStep(store, T, M, i, index, tn, m, gone);
        var nodeView := m[node.value];
        var nodeViewIndex := IndexOf(tn, nodeView);
        if nodeViewIndex != index {
          tn' := SpliceRemove(tn', nodeViewIndex);
          tn' := SpliceInsert(tn', index, nodeView);
        }
        assert tn' == MoveTo(tn, nodeView, index);
      } else {
        // a visible node without a view: render one here
        RenderStep(store, T, M, i, index, tn, m, gone);
        var nodeView := RenderItem(node);
        tn' := SpliceInsert(tn', index, nodeView);
        m' := m'[node.value := nodeView];
      }
      index' := index + 1;
    } else if node.value in m {
      // a hidden node with a view: take the view out and destroy it
      HideStep(store, T, M, i, index, tn, m, gone);
      var nodeView := m[node.value];
      var nodeViewIndex := IndexOf(tn, nodeView);
      tn' := SpliceRemove(tn', nodeViewIndex);
      m' := m' - {node.value};
      if !nodeView.mounted {
        ok := false;
      } else {
        gone' := gone' + [nodeView];
      }
    } else {
      SkipStep(store, T, M, i, index, tn, m, gone);
    }
  }

  /** The `forEach` of `refresh` over `store.getNodes()`, on the
      component's list and index (mutated in place through local aliases in
      the source), stopping at the first node whose callback throws. */
  method RefreshPass(treeNodes: seq<View>, nodesMap: map<NodeValue, View>, store: TreeStore)
    returns (ok: bool, tn: seq<View>, m: map<NodeValue, View>, gone: seq<View>)
    requires Corresponds(treeNodes, nodesMap) && store.ValuesUnique()
    ensures Corresponds(tn, m)
    ensures ok <==> !HidesUnmounted(store, nodesMap)
    ensures ok ==> tn == Rendered(store.nodes, nodesMap) + Without(treeNodes, Values(store.nodes))
    ensures ok ==> gone == Hidden(store.nodes, nodesMap)
    ensures !ok ==> exists i :: Stopped(store, treeNodes, nodesMap, i, tn, gone)
  {
    ghost var T, M := treeNodes, nodesMap;
    PassStart(store, T, M);
    tn, m, gone, ok := treeNodes, nodesMap, [], true;
    var allNodes := store.nodes;
    var index := 0;
    var i := 0;
    while i < |allNodes|
      invariant 0 <= i <= |allNodes| && ok
      invariant PassInv(store, T, M, i, index, tn, m, gone)
    {
      var stepOk;
      stepOk, index, tn, m, gone := RefreshNode(allNodes[i], index, tn, m, gone, store, T, M, i);
      if !stepOk {
        ok := false;
        break;
      }
      i := i + 1;
    }
    if ok {
      PassDone(store, T, M, i, index, tn, m, gone);
    }
  }

  lemma {:induction false} RemovedMembers(s: seq<View>, store: TreeStore)
    ensures forall v :: v in Removed(s, store) <==> v in s && !Survives(v, store)
  {
    if |s| > 0 {
      RemovedMembers(s[..|s| - 1], store);
      assert s == s[..|s| - 1] + [s[|s| - 1]];
    }
  }

  /** A prefix of a list with distinct values has distinct values. */
  lemma DistinctPrefix(s: seq<View>, n: nat)
    requires DistinctValues(s) && n <= |s|
    ensures DistinctValues(s[..n])
  {
    forall a, b | 0 <= a < b < n ensures ValueAt(s[..n], a) != ValueAt(s[..n], b) {
      DistinctAt(s, a, b);
    }
  }

  /** A list with distinct values, extended by a view of a node it does not
      show, has distinct values. */
  lemma DistinctSnoc(s: seq<View>, x: View)
    requires DistinctValues(s)
    requires forall v :: v in s ==> v.value != x.value
    ensures DistinctValues(s + [x])
  {
    var r := s + [x];
    forall a, b | 0 <= a < b < |r| ensures ValueAt(r, a) != ValueAt(r, b) {
      if b < |s| {
        DistinctAt(s, a, b);
      } else {
        assert r[a] in s;
      }
    }
  }

  /** `updateNodesMap` keeps a list with distinct values distinct. */
  lemma {:induction false} SurvivingDistinct(s: seq<View>, store: TreeStore)
    requires DistinctValues(s)
    ensures DistinctValues(Surviving(s, store))
  {
    if |s| > 0 {
      var init, last := s[..|s| - 1], s[|s| - 1];
      DistinctPrefix(s, |s| - 1);
      SurvivingDistinct(init, store);
      SurvivingMembers(init, store);
      forall v | v in Surviving(init, store) ensures v.value != last.value {
        var q :| 0 <= q < |init| && init[q] == v;
        DistinctAt(s, q, |s| - 1);
      }
      if Survives(last, store) {
        assert Surviving(s, store) == Surviving(init, store) + [last];
        DistinctSnoc(Surviving(init, store), last);
      } else {
        assert Surviving(s, store) == Surviving(init, store);
      }
    }
  }

  /** In `updateNodesMap`'s pass, indexOf finds the next original view at
      the current index. */
  lemma UpdateIndexOf(T: seq<View>, j: nat, tn: seq<View>, index: nat, store: TreeStore)
    requires DistinctValues(T) && j < |T|
    requires tn == Surviving(T[..j], store) + T[j..]
    requires index == |Surviving(T[..j], store)|
    ensures IndexOf(tn, T[j]) == index
  {
    SurvivingMembers(T[..j], store);
    forall q | 0 <= q < index ensures tn[q] != T[j] {
      assert tn[q] in Surviving(T[..j], store);
      var p :| 0 <= p < j && T[..j][p] == tn[q];
      DistinctAt(T, p, j);
    }
    assert tn[index] == T[j];
    IndexOfFirst(tn, T[j], index);
  }

  /** What `updateNodesMap`'s pass leaves: the surviving views, indexed by
      exactly the entries whose view survives. */
  lemma UpdateResult(T: seq<View>, M: map<NodeValue, View>, G: set<NodeValue>,
                     m: map<NodeValue, View>, store: TreeStore)
    requires Corresponds(T, M) && m == M - G
    requires forall w :: w in G ==> w in M && !Survives(M[w], store)
    requires forall v :: v in Removed(T, store) ==> v.value in G
    ensures Corresponds(Surviving(T, store), m)
    ensures forall w :: w in m <==> w in M && Survives(M[w], store)
  {
    var S := Surviving(T, store);
    SurvivingMembers(T, store);
    RemovedMembers(T, store);
    SurvivingDistinct(T, store);
    forall w | w in M ensures M[w] in T && M[w].value == w {
      assert ShownIn(T, M, w);
    }
    forall p | 0 <= p < |S| ensures IndexedAt(S, m, p) {
      assert S[p] in S;
      var q :| 0 <= q < |T| && T[q] == S[p];
      assert IndexedAt(T, M, q);
    }
    forall w | w in m ensures ShownIn(S, m, w) {
      assert M[w] in T;
    }
  }

  // ---- refresh's pass: the tail of not yet placed views ----

  /** Dropping the views of `gone + [v]` is dropping those of `gone`, then
      those of `v`. */
  lemma {:induction false} WithoutSnoc(s: seq<View>, gone: seq<NodeValue>, v: NodeValue)
    ensures Without(s, gone + [v]) == Without(Without(s, gone), [v])
  {
    if |s| > 0 {
      var init, last := s[..|s| - 1], s[|s| - 1];
      WithoutSnoc(init, gone, v);
      var a := Without(init, gone);
      if last.value !in gone {
        assert Without(s, gone) == a + [last];
        assert (a + [last])[..|a|] == a;
      } else {
        assert Without(s, gone) == a;
      }
    }
  }

  lemma {:induction false} WithoutNothing(s: seq<View>)
    ensures Without(s, []) == s
  {
    if |s| > 0 {
      WithoutNothing(s[..|s| - 1]);
    }
  }

  /** Dropping the views of a node no view in `s` shows changes nothing. */
  lemma {:induction false} WithoutNone(s: seq<View>, v: NodeValue)
    requires forall r :: 0 <= r < |s| ==> s[r].value != v
    ensures Without(s, [v]) == s
  {
    if |s| > 0 {
      WithoutNone(s[..|s| - 1], v);
    }
  }

  /** Dropping the views of a node exactly one view in `s` shows splices
      that view out. */
  lemma {:induction false} WithoutOne(s: seq<View>, q: nat, v: NodeValue)
    requires q < |s| && s[q].value == v
    requires forall r :: 0 <= r < |s| && r != q ==> s[r].value != v
    ensures Without(s, [v]) == s[..q] + s[q + 1..]
  {
    var init, last := s[..|s| - 1], s[|s| - 1];
    if q == |s| - 1 {
      WithoutNone(init, v);
      assert Without(s, [v]) == init;
      assert s[..q] == init && s[q + 1..] == [];
    } else {
      WithoutOne(init, q, v);
      assert last.value != v;
      assert Without(s, [v]) == Without(init, [v]) + [last];
      assert init[..q] == s[..q];
      assert init[q + 1..] + [last] == s[q + 1..];
    }
  }

  /** Every view `refresh` has placed shows a node it has passed. */
  lemma {:induction false} RenderedIn(nodes: seq<TreeNode>, m: map<NodeValue, View>)
    requires forall w :: w in m ==> m[w].value == w
    ensures forall x :: x in Rendered(nodes, m) ==> x.value in Values(nodes)
  {
    if |nodes| > 0 {
      var init := nodes[..|nodes| - 1];
      RenderedIn(init, m);
      assert Values(nodes) == Values(init) + [nodes[|nodes| - 1].value];
    }
  }

  /** With unique values, the node `refresh` reaches has not been passed
      and does not come again. */
  lemma UniqueNext(store: TreeStore, i: nat)
    requires store.ValuesUnique() && i < |store.nodes|
    ensures store.nodes[i].value !in Values(store.nodes[..i])
    ensures forall k :: i < k < |store.nodes| ==> store.nodes[k].value != store.nodes[i].value
  {
    var vs := Values(store.nodes[..i]);
    forall k | 0 <= k < |vs| ensures vs[k] != store.nodes[i].value {
      assert store.nodes[..i][k] == store.nodes[k];
    }
  }

  /** The view indexed under a node not yet passed stands in the tail. */
  lemma LocateView(tn: seq<View>, F: seq<View>, W: seq<View>, m: map<NodeValue, View>, v: NodeValue)
    returns (q: nat)
    requires Corresponds(tn, m) && tn == F + W && v in m
    requires forall x :: x in F ==> x.value != v
    ensures q < |W| && W[q] == m[v] && W[q].value == v && IndexOf(tn, m[v]) == |F| + q
    ensures forall r :: 0 <= r < |W| && r != q ==> W[r].value != v
  {
    assert ShownIn(tn, m, v);
    var p :| 0 <= p < |tn| && tn[p] == m[v];
    forall r | 0 <= r < |F| ensures tn[r] != m[v] {
      assert F[r] in F;
    }
    q := p - |F|;
    IndexOfDistinct(tn, p);
    forall r | 0 <= r < |W| && r != q ensures W[r].value != v {
      DistinctAt(tn, |F| + r, p);
    }
  }

  /** No view in a corresponding list shows an unindexed node. */
  lemma NotShown(F: seq<View>, W: seq<View>, m: map<NodeValue, View>, v: NodeValue)
    requires Corresponds(F + W, m) && v !in m
    ensures forall r :: 0 <= r < |W| ==> W[r].value != v
  {
    forall r | 0 <= r < |W| ensures W[r].value != v {
      assert (F + W)[|F| + r] == W[r];
      assert IndexedAt(F + W, m, |F| + r);
    }
  }

  /** Splicing out the tail's view `q` from a list made of the placed
      views `F` and the tail `W`. */
  lemma TailRemove(F: seq<View>, W: seq<View>, q: nat)
    requires q < |W|
    ensures SpliceRemove(F + W, |F| + q) == F + (W[..q] + W[q + 1..])
  {
    SpliceRemoveAt(F + W, |F| + q);
    assert (F + W)[..|F| + q] == F + W[..q];
    assert (F + W)[|F| + q + 1..] == W[q + 1..];
  }

  /** A view already at the head of the tail stays where it is. */
  lemma TailHead(F: seq<View>, W: seq<View>, q: nat, x: View)
    requires q == 0 && q < |W| && W[q] == x
    ensures F + W == F + [x] + (W[..q] + W[q + 1..])
  {
    assert W == [x] + W[1..];
  }

  /** Inserting a new view between the placed views and the tail. */
  lemma HeadInsert(F: seq<View>, W: seq<View>, x: View)
    ensures SpliceInsert(F + W, |F|, x) == F + [x] + W
  {
    SpliceInsertAt(F + W, |F|, x);
    assert (F + W)[..|F|] == F && (F + W)[|F|..] == W;
  }

  /** The loop invariant of `updateNodesMap` after `j` views of the
      original list `T`: the survivors among them, then the rest; the index
      lost exactly the values `G` of views destroyed so far. */
  ghost predicate UpdateInv(store: TreeStore, T: seq<View>, M: map<NodeValue, View>, j: int, index: int,
                            tn: seq<View>, m: map<NodeValue, View>, gone: seq<View>, G: set<NodeValue>)
  {
    && Corresponds(T, M) && 0 <= j <= |T|
    && tn == Surviving(T[..j], store) + T[j..]
    && index == |Surviving(T[..j], store)|
    && gone == Removed(T[..j], store)
    && m == M - G
    && (forall w :: w in G ==> w in M && !Survives(M[w], store))
    && (forall v :: v in gone ==> v.value in G)
  }

  /** A surviving view stays where it is. */
  lemma UpdateKeep(store: TreeStore, T: seq<View>, M: map<NodeValue, View>, j: int, index: int,
                   tn: seq<View>, m: map<NodeValue, View>, gone: seq<View>, G: set<NodeValue>)
    requires UpdateInv(store, T, M, j, index, tn, m, gone, G)
    requires index < |tn| && Survives(tn[index], store)
    ensures UpdateInv(store, T, M, j + 1, index + 1, tn, m, gone, G)
  {
    SurvivingStep(T, j, tn, index, store);
    RemovedSnoc(T, j, store);
  }

  /** A view that does not survive is spliced out from where the walk
      stands, and its value is unindexed. */
  lemma UpdateDrop(store: TreeStore, T: seq<View>, M: map<NodeValue, View>, j: int, index: int,
                   tn: seq<View>, m: map<NodeValue, View>, gone: seq<View>, G: set<NodeValue>)
    requires UpdateInv(store, T, M, j, index, tn, m, gone, G)
    requires index < |tn| && !Survives(tn[index], store)
    ensures IndexOf(tn, tn[index]) == index
    ensures
      var x := tn[index];
      UpdateInv(store, T, M, j + 1, index, SpliceRemove(tn, index), m - {x.value}, gone + [x], G + {x.value})
  {
    SurvivingStep(T, j, tn, index, store);
    RemovedSnoc(T, j, store);
    UpdateIndexOf(T, j, tn, index, store);
    SpliceRemoveAt(tn, index);
    assert IndexedAt(T, M, j);
  }

  /** At the end of the list the invariant is the pass's result. */
  lemma UpdateDone(store: TreeStore, T: seq<View>, M: map<NodeValue, View>, j: int, index: int,
                   tn: seq<View>, m: map<NodeValue, View>, gone: seq<View>, G: set<NodeValue>)
    requires UpdateInv(store, T, M, j, index, tn, m, gone, G) && index >= |tn|
    ensures Corresponds(tn, m)
    ensures tn == Surviving(T, store)
    ensures forall w :: w in m <==> w in M && Survives(M[w], store)
    ensures forall w :: w in m ==> m[w] == M[w]
    ensures gone == Removed(T, store)
  {
    assert |tn| == index + (|T| - j);
    assert T[..j] == T && T[j..] == [];
    assert tn == Surviving(T, store);
    UpdateResult(T, M, G, m, store);
  }

  /** The loop of `updateNodesMap`, on the component's list and index
      (the source mutates them in place through local aliases): walks the
      list, and splices out, unindexes and destroys every mounted view
      whose node the store no longer has. Returns the new list and index
      and the views destroyed, in order. */
  method UpdatePass(treeNodes: seq<View>, nodesMap: map<NodeValue, View>, store: TreeStore)
    returns (tn: seq<View>, m: map<NodeValue, View>, gone: seq<View>)
    requires Corresponds(treeNodes, nodesMap)
    ensures Corresponds(tn, m)
    ensures tn == Surviving(treeNodes, store)
    ensures forall w :: w in m <==> w in nodesMap && Survives(nodesMap[w], store)
    ensures forall w :: w in m ==> m[w] == nodesMap[w]
    ensures gone == Removed(treeNodes, store)
  {
    ghost var T, M := treeNodes, nodesMap;
    tn, m, gone := treeNodes, nodesMap, [];
    ghost var goneValues: set<NodeValue> := {};
    ghost var j := 0;
    var index := 0;
    assert T[..0] == [] && T[0..] == T;
    while index < |tn|
      invariant UpdateInv(store, T, M, j, index, tn, m, gone, goneValues)
      decreases |tn| - index
    {
      var nodeView := tn[index];
      if nodeView.mounted && !store.Has(nodeView.value) {
        // a view of a node the store no longer has
        UpdateDrop(store, T, M, j, index, tn, m, gone, goneValues);
        var nodeViewIndex := IndexOf(tn, nodeView);
        tn := SpliceRemove(tn, nodeViewIndex);
        gone := gone + [nodeView];
        m := m - {nodeView.value};
        goneValues := goneValues + {nodeView.value};
      } else {
        UpdateKeep(store, T, M, j, index, tn, m, gone, goneValues);
        index := index + 1;
      }
      j := j + 1;
    }
    UpdateDone(store, T, M, j, index, tn, m, gone, goneValues);
  }

  // ---- refresh as a whole ----

  /** Two indexes that agree on every node of `nodes`. */
  ghost predicate AgreeOn(nodes: seq<TreeNode>, m1: map<NodeValue, View>, m2: map<NodeValue, View>)
  {
    forall k :: 0 <= k < |nodes| ==>
      (nodes[k].value in m1 <==> nodes[k].value in m2) &&
      (nodes[k].value in m1 ==> m1[nodes[k].value] == m2[nodes[k].value])
  }

  /** What refresh renders and destroys depends on the index only through
      the store's nodes. */
  lemma {:induction false} AgreeOnPass(nodes: seq<TreeNode>, m1: map<NodeValue, View>, m2: map<NodeValue, View>)
    requires AgreeOn(nodes, m1, m2)
    ensures Rendered(nodes, m1) == Rendered(nodes, m2)
    ensures Hidden(nodes, m1) == Hidden(nodes, m2)
  {
    if |nodes| > 0 {
      var init := nodes[..|nodes| - 1];
      assert forall k :: 0 <= k < |init| ==> init[k] == nodes[k];
      AgreeOnPass(init, m1, m2);
    }
  }

  /** On indexes that agree on the store's nodes, the walk throws at the
      same node, having placed and destroyed the same views. */
  lemma ThrowsAtAgree(store: TreeStore, m1: map<NodeValue, View>, m2: map<NodeValue, View>, i: int)
    requires AgreeOn(store.nodes, m1, m2) && ThrowsAt(store, m1, i)
    ensures ThrowsAt(store, m2, i)
    ensures Rendered(store.nodes[..i], m1) == Rendered(store.nodes[..i], m2)
    ensures Hidden(store.nodes[..i], m1) == Hidden(store.nodes[..i], m2)
  {
    forall k | 0 <= k <= i ensures HidesUnmountedAt(store, m1, k) <==> HidesUnmountedAt(store, m2, k) {
      assert store.nodes[k].value in m1 <==> store.nodes[k].value in m2;
    }
    var init := store.nodes[..i];
    assert forall k :: 0 <= k < |init| ==> init[k] == store.nodes[k];
    AgreeOnPass(init, m1, m2);
  }

  /** `updateNodesMap` keeps the index entry of every node still in the
      store: a view indexed under its own value survives when the store has
      that value. */
  lemma UpdateKeepsStoreEntries(store: TreeStore, M: map<NodeValue, View>, m: map<NodeValue, View>)
    requires SelfIndexed(M)
    requires forall w :: w in m <==> w in M && Survives(M[w], store)
    requires forall w :: w in m ==> m[w] == M[w]
    ensures AgreeOn(store.nodes, m, M)
    ensures HidesUnmounted(store, m) <==> HidesUnmounted(store, M)
  {
    forall k | 0 <= k < |store.nodes| ensures store.Has(store.nodes[k].value) {
      assert Values(store.nodes)[k] == store.nodes[k].value;
    }
    forall k | 0 <= k < |store.nodes|
      ensures HidesUnmountedAt(store, m, k) <==> HidesUnmountedAt(store, M, k)
    {
    }
  }

  /** The views `updateNodesMap` keeps that are not shown for any store
      node are exactly the stale ones. */
  lemma {:induction false} SurvivingWithoutStore(s: seq<View>, store: TreeStore)
    ensures Without(Surviving(s, store), Values(store.nodes)) == Stale(s, store)
  {
    if |s| > 0 {
      var init, last := s[..|s| - 1], s[|s| - 1];
      SurvivingWithoutStore(init, store);
      var S := Surviving(init, store);
      var vs := Values(store.nodes);
      if Survives(last, store) {
        assert Surviving(s, store) == S + [last];
        assert (S + [last])[..|S|] == S;
        assert Without(S + [last], vs) == Without(S, vs) + (if last.value in vs then [] else [last]);
      } else {
        assert Surviving(s, store) == S;
      }
    }
  }

  /** The node values a list of views shows, in order. */
  function ViewValues(s: seq<View>): (r: seq<NodeValue>)
    ensures |r| == |s|
    ensures forall p :: 0 <= p < |s| ==> r[p] == s[p].value
  {
    if |s| == 0 then [] else ViewValues(s[..|s| - 1]) + [s[|s| - 1].value]
  }

  /** The head `refresh` builds shows exactly the visible nodes, in the
      store's order, whenever every indexed view shows its own node. */
  lemma {:induction false} RenderedShowsVisible(nodes: seq<TreeNode>, m: map<NodeValue, View>)
    requires SelfIndexed(m)
    ensures ViewValues(Rendered(nodes, m)) == VisibleValues(nodes)
  {
    if |nodes| > 0 {
      var init, last := nodes[..|nodes| - 1], nodes[|nodes| - 1];
      RenderedShowsVisible(init, m);
      var R := Rendered(init, m);
      if last.visible {
        assert (R + [ViewFor(last, m)])[..|R|] == R;
      }
    }
  }

  /** The view of a visible node stands in the head `refresh` builds. */
  lemma {:induction false} RenderedHas(nodes: seq<TreeNode>, m: map<NodeValue, View>, k: nat)
    requires k < |nodes| && nodes[k].visible
    ensures ViewFor(nodes[k], m) in Rendered(nodes, m)
  {
    var init := nodes[..|nodes| - 1];
    if k < |init| {
      assert init[k] == nodes[k];
      RenderedHas(init, m, k);
    }
  }

  /** The head depends on the index only through the views of the visible
      nodes. */
  lemma {:induction false} RenderedSameViews(nodes: seq<TreeNode>, m1: map<NodeValue, View>, m2: map<NodeValue, View>)
    requires forall k :: 0 <= k < |nodes| && nodes[k].visible ==> ViewFor(nodes[k], m1) == ViewFor(nodes[k], m2)
    ensures Rendered(nodes, m1) == Rendered(nodes, m2)
  {
    if |nodes| > 0 {
      var init := nodes[..|nodes| - 1];
      assert forall k :: 0 <= k < |init| ==> init[k] == nodes[k];
      RenderedSameViews(init, m1, m2);
    }
  }

  /** No hidden node indexed, nothing to destroy. */
  lemma {:induction false} HiddenNone(nodes: seq<TreeNode>, m: map<NodeValue, View>)
    requires forall k :: 0 <= k < |nodes| && !nodes[k].visible ==> nodes[k].value !in m
    ensures Hidden(nodes, m) == []
  {
    if |nodes| > 0 {
      var init := nodes[..|nodes| - 1];
      assert forall k :: 0 <= k < |init| ==> init[k] == nodes[k];
      HiddenNone(init, m);
    }
  }

  /** A list whose views all survive is left alone by `updateNodesMap`. */
  lemma {:induction false} SurvivingAll(s: seq<View>, store: TreeStore)
    requires forall p :: 0 <= p < |s| ==> Survives(s[p], store)
    ensures Surviving(s, store) == s && Removed(s, store) == []
  {
    if |s| > 0 {
      var init := s[..|s| - 1];
      assert forall p :: 0 <= p < |init| ==> init[p] == s[p];
      SurvivingAll(init, store);
      assert s == init + [s[|s| - 1]];
    }
  }

  /** The stale views of a concatenation. */
  lemma {:induction false} StaleAppend(a: seq<View>, b: seq<View>, store: TreeStore)
    ensures Stale(a + b, store) == Stale(a, store) + Stale(b, store)
  {
    if |b| > 0 {
      var init := b[..|b| - 1];
      StaleAppend(a, init, store);
      assert (a + b)[..|a + b| - 1] == a + init;
    } else {
      assert a + b == a;
    }
  }

  /** Stale views stay stale. */
  lemma {:induction false} StaleOfStale(s: seq<View>, store: TreeStore)
    ensures Stale(Stale(s, store), store) == Stale(s, store)
  {
    if |s| > 0 {
      var init, last := s[..|s| - 1], s[|s| - 1];
      StaleOfStale(init, store);
      var S := Stale(init, store);
      if !last.mounted && !store.Has(last.value) {
        assert Stale(s, store) == S + [last];
        assert (S + [last])[..|S|] == S;
        assert Stale(S + [last], store) == Stale(S, store) + [last];
      } else {
        assert Stale(s, store) == S;
      }
    } else {
      assert Stale(s, store) == [];
    }
  }

  /** Views of store nodes are never stale. */
  lemma {:induction false} StaleNone(s: seq<View>, store: TreeStore)
    requires forall p :: 0 <= p < |s| ==> store.Has(s[p].value)
    ensures Stale(s, store) == []
  {
    if |s| > 0 {
      var init := s[..|s| - 1];
      assert forall p :: 0 <= p < |init| ==> init[p] == s[p];
      StaleNone(init, store);
    }
  }

  /** Every stale view is unmounted and shows a node outside the store. */
  lemma {:induction false} StaleMembers(s: seq<View>, store: TreeStore)
    ensures forall x :: x in Stale(s, store) ==> x in s && !x.mounted && !store.Has(x.value)
  {
    if |s| > 0 {
      StaleMembers(s[..|s| - 1], store);
    }
  }

  /** A value is indexed exactly when some view shows it. */
  lemma IndexedIffShown(tn: seq<View>, m: map<NodeValue, View>, v: NodeValue)
    requires Corresponds(tn, m)
    ensures v in m <==> exists p :: 0 <= p < |tn| && tn[p].value == v
  {
    if v in m {
      assert ShownIn(tn, m, v);
    }
    if exists p :: 0 <= p < |tn| && tn[p].value == v {
      var p :| 0 <= p < |tn| && tn[p].value == v;
      assert IndexedAt(tn, m, p);
    }
  }

  /** Some visible node of the store has value `v`. */
  ghost predicate VisibleIn(store: TreeStore, v: NodeValue)
  {
    exists k :: 0 <= k < |store.nodes| && store.nodes[k].visible && store.nodes[k].value == v
  }

  /** Every view of the head `refresh` builds shows a visible node of the
      store. */
  lemma HeadShowsVisible(store: TreeStore, M: map<NodeValue, View>)
    requires store.ValuesUnique() && SelfIndexed(M)
    ensures forall p :: 0 <= p < |Rendered(store.nodes, M)| ==>
      store.Has(Rendered(store.nodes, M)[p].value) && VisibleIn(store, Rendered(store.nodes, M)[p].value)
  {
    var nodes, R := store.nodes, Rendered(store.nodes, M);
    RenderedShowsVisible(nodes, M);
    VisibleValuesMembers(nodes);
    forall p | 0 <= p < |R|
      ensures store.Has(R[p].value) && VisibleIn(store, R[p].value)
    {
      assert ViewValues(R)[p] == R[p].value;
      assert R[p].value in VisibleValues(nodes);
      var k :| 0 <= k < |nodes| && nodes[k].visible && nodes[k].value == R[p].value;
      assert Values(nodes)[k] == nodes[k].value;
    }
  }

  /** Indexed consistently with a list that starts with the head, every
      visible node keeps the view the head shows for it. */
  lemma HeadIndexed(store: TreeStore, M: map<NodeValue, View>, S: seq<View>, m: map<NodeValue, View>)
    requires SelfIndexed(M)
    requires Corresponds(Rendered(store.nodes, M) + S, m)
    ensures forall k :: 0 <= k < |store.nodes| && store.nodes[k].visible ==>
      ViewFor(store.nodes[k], m) == ViewFor(store.nodes[k], M)
  {
    var nodes, R := store.nodes, Rendered(store.nodes, M);
    forall k | 0 <= k < |nodes| && nodes[k].visible ensures ViewFor(nodes[k], m) == ViewFor(nodes[k], M) {
      RenderedHas(nodes, M, k);
      var x := ViewFor(nodes[k], M);
      var p :| 0 <= p < |R| && R[p] == x;
      assert (R + S)[p] == x;
      assert IndexedAt(R + S, m, p);
    }
  }

  /** No view of a list made of the head and stale views shows a hidden
      node, so no hidden node is indexed. */
  lemma HiddenUnindexed(store: TreeStore, M: map<NodeValue, View>, T: seq<View>, m: map<NodeValue, View>)
    requires store.ValuesUnique() && SelfIndexed(M)
    requires Corresponds(Rendered(store.nodes, M) + Stale(T, store), m)
    ensures forall k :: 0 <= k < |store.nodes| && !store.nodes[k].visible ==> store.nodes[k].value !in m
  {
    var nodes := store.nodes;
    var R, S := Rendered(nodes, M), Stale(T, store);
    var tn := R + S;
    HeadShowsVisible(store, M);
    StaleMembers(T, store);
    forall k | 0 <= k < |nodes| && !nodes[k].visible ensures nodes[k].value !in m {
      forall p | 0 <= p < |tn| ensures tn[p].value != nodes[k].value {
        if p < |R| {
          assert tn[p] == R[p];
          assert VisibleIn(store, R[p].value);
          var k' :| 0 <= k' < |nodes| && nodes[k'].visible && nodes[k'].value == R[p].value;
        } else {
          assert tn[p] == S[p - |R|] && S[p - |R|] in S;
          assert Values(nodes)[k] == nodes[k].value;
        }
      }
      IndexedIffShown(tn, m, nodes[k].value);
    }
  }

  /** Every view of a list made of the head and stale views survives
      `updateNodesMap`. */
  lemma FixSurvives(store: TreeStore, M: map<NodeValue, View>, T: seq<View>)
    requires store.ValuesUnique() && SelfIndexed(M)
    ensures var tn := Rendered(store.nodes, M) + Stale(T, store);
      Surviving(tn, store) == tn && Removed(tn, store) == []
  {
    var R, S := Rendered(store.nodes, M), Stale(T, store);
    var tn := R + S;
    HeadShowsVisible(store, M);
    StaleMembers(T, store);
    forall p | 0 <= p < |tn| ensures Survives(tn[p], store) {
      if p < |R| {
        assert tn[p] == R[p];
      } else {
        assert tn[p] == S[p - |R|] && S[p - |R|] in S;
      }
    }
    SurvivingAll(tn, store);
  }

  /** The stale views of a list made of the head and stale views are the
      latter. */
  lemma FixStale(store: TreeStore, M: map<NodeValue, View>, T: seq<View>)
    requires store.ValuesUnique() && SelfIndexed(M)
    ensures Stale(Rendered(store.nodes, M) + Stale(T, store), store) == Stale(T, store)
  {
    var R, S := Rendered(store.nodes, M), Stale(T, store);
    HeadShowsVisible(store, M);
    StaleAppend(R, S, store);
    StaleNone(R, store);
    StaleOfStale(T, store);
  }

  /** The list a successful `refresh` leaves is a fixpoint: refreshing it
      again against the same store, with the index it corresponds to,
      destroys nothing, does not throw, and leaves the same list. The
      index `M` is arbitrary, so the views of visible nodes may have been
      mounted in between; the stale views must still be the unmounted ones
      of the earlier list. Once the framework mounts a stale view (`Mount`),
      the next `updateNodesMap` destroys it, since its node has left the
      store. */
  lemma RefreshFixpoint(store: TreeStore, M: map<NodeValue, View>, T: seq<View>, m: map<NodeValue, View>)
    requires store.ValuesUnique() && SelfIndexed(M)
    requires Corresponds(Rendered(store.nodes, M) + Stale(T, store), m)
    ensures
      var tn := Rendered(store.nodes, M) + Stale(T, store);
      && Surviving(tn, store) == tn && Removed(tn, store) == []
      && !HidesUnmounted(store, m)
      && Rendered(store.nodes, m) + Stale(tn, store) == tn
      && Hidden(store.nodes, m) == []
  {
    var nodes := store.nodes;
    FixSurvives(store, M, T);
    FixStale(store, M, T);
    HiddenUnindexed(store, M, T, m);
    HiddenNone(nodes, m);
    HeadIndexed(store, M, Stale(T, store), m);
    RenderedSameViews(nodes, m, M);
  }

  /** A stale view does not stay once mounted: after the framework mounts
      it, the next `updateNodesMap` destroys it. */
  lemma MountedStaleDestroyed(tn: seq<View>, store: TreeStore, p: nat)
    requires p < |tn| && tn[p] in Stale(tn, store)
    ensures View(tn[p].value, true) in Removed(tn[p := View(tn[p].value, true)], store)
  {
    StaleMembers(tn, store);
    RemovedMembers(tn[p := View(tn[p].value, true)], store);
    assert tn[p := View(tn[p].value, true)][p] == View(tn[p].value, true);
  }

  /** The tree component's view state. */
  class Tree {
    /** The rendered list. */
    var treeNodes: seq<View>
    /** The index from node value to view; null until `getNodesMap` runs. */
    var nodesMap: Option<map<NodeValue, View>>
    /** The views `$destroy()` has been called on, in call order. */
    var destroyed: seq<View>

    /** The index as every reader sees it (through `getNodesMap`). */
    function Index(): map<NodeValue, View>
      reads this
    {
      if nodesMap.Some? then nodesMap.value else map[]
    }

    ghost predicate Valid()
      reads this
    {
      && (nodesMap.None? ==> treeNodes == [])
      && Corresponds(treeNodes, Index())
    }

    /** The component's `data()`: no views, no index yet. */
    constructor ()
      ensures Valid() && treeNodes == [] && nodesMap == None && destroyed == []
    {
      treeNodes := [];
      nodesMap := None;
      destroyed := [];
    }

    /** `getNodesMap()`: creates the index on first use. */
    method GetNodesMap() returns (m: map<NodeValue, View>)
      requires Valid()
      modifies this`nodesMap
      ensures Valid()
      ensures nodesMap == Some(m) && m == old(Index())
    {
      if nodesMap.None? {
        nodesMap := Some(map[]);
      }
      m := nodesMap.value;
    }

    /** `updateNodesMap()`: drops every mounted view whose node has left the
        store, from the list and from the index, and destroys it. */
    method UpdateNodesMap(store: TreeStore)
      requires Valid()
      modifies this
      ensures Valid() && nodesMap.Some?
      ensures treeNodes == old(Surviving(treeNodes, store))
      ensures forall w :: w in Index() <==> w in old(Index()) && Survives(old(Index())[w], store)
      ensures forall w :: w in Index() ==> Index()[w] == old(Index())[w]
      ensures destroyed == old(destroyed) + old(Removed(treeNodes, store))
    {
      var m := GetNodesMap();
      var tn, gone;
      tn, m, gone := UpdatePass(treeNodes, m, store);
      treeNodes, nodesMap, destroyed := tn, Some(m), destroyed + gone;
    }

    /** The framework mounting the rendered view of node `v` when it
        renders the list: the VNode, which the list and the index share,
        gets its component instance. */
    method Mount(v: NodeValue)
      requires Valid() && v in Index()
      modifies this`treeNodes, this`nodesMap
      ensures Valid()
      ensures var p := IndexOf(old(treeNodes), old(Index())[v]);
        0 <= p < |treeNodes| && treeNodes == old(treeNodes)[p := View(v, true)]
      ensures nodesMap == Some(old(Index())[v := View(v, true)])
    {
      CorrespondsMount(treeNodes, Index(), v);
      var p := IndexOf(treeNodes, nodesMap.value[v]);
      treeNodes := treeNodes[p := View(v, true)];
      nodesMap := Some(nodesMap.value[v := View(v, true)]);
    }

    /** `refresh()`: brings the list in line with the store. After
        `updateNodesMap`, it walks the store's nodes in order, putting the
        view of every visible node (the indexed one, or a new one from
        `renderItem`) at the next position and splicing out, unindexing and
        destroying the view of every hidden node. Unless a hidden node's
        view was never mounted (the destroy then throws, leaving the list
        and index as far as the walk got), the list ends up as one view per
        visible node, in the store's order, followed by the stale views. */
    method Refresh(store: TreeStore) returns (ok: bool)
      requires Valid() && store.ValuesUnique()
      modifies this
      ensures Valid() && nodesMap.Some?
      ensures ok <==> !HidesUnmounted(store, old(Index()))
      ensures ok ==> treeNodes == Rendered(store.nodes, old(Index())) + old(Stale(treeNodes, store))
      ensures ok ==>
        destroyed == old(destroyed) + old(Removed(treeNodes, store)) + Hidden(store.nodes, old(Index()))
    ensures !ok ==> exists i ::
      && ThrowsAt(store, old(Index()), i)
      && treeNodes ==
           Rendered(store.nodes[..i], old(Index())) + Without(old(Surviving(treeNodes, store)), Values(store.nodes[..i + 1]))
      && destroyed == old(destroyed) + old(Removed(treeNodes, store)) + Hidden(store.nodes[..i], old(Index()))
    {
      ghost var M0 := Index();
      forall w | w in M0 ensures M0[w].value == w {
        assert ShownIn(treeNodes, M0, w);
      }
      var m := GetNodesMap();
      UpdateNodesMap(store);
      UpdateKeepsStoreEntries(store, M0, Index());
      AgreeOnPass(store.nodes, Index(), M0);
      SurvivingWithoutStore(old(treeNodes), store);
      // `m` aliases the index `updateNodesMap` just edited
      m := nodesMap.value;
      ghost var T1, M1 := treeNodes, m;
      var tn, gone;
      ok, tn, m, gone := RefreshPass(treeNodes, m, store);
      treeNodes, nodesMap, destroyed := tn, Some(m), destroyed + gone;
      if !ok {
        ghost var i :| Stopped(store, T1, M1, i, tn, gone);
        ThrowsAtAgree(store, M1, M0, i);
      }
    }
  }
}
