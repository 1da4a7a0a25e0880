/** The tree store as the component sees it. The store and its nodes
    (common/js/tree/tree-store, tree-node) are not part of this model; all
    the view reconciliation needs of them is `store.getNodes()` (every node,
    in the store's depth-first order, with its visible flag) and
    `store.getNode(v)` (is a node with value v in the store). */
module Store {

  /** A tree node value: the source's TreeNodeValue is `string | number`. */
  datatype NodeValue = Num(n: int) | Str(s: string)

  /** What `store.getNodes()` reports of one node. */
  datatype TreeNode = TreeNode(value: NodeValue, visible: bool)

  datatype TreeStore = TreeStore(nodes: seq<TreeNode>)
  {
    /** The store keeps node values unique. */
    predicate ValuesUnique()
    {
      forall i, j :: 0 <= i < j < |nodes| ==> nodes[i].value != nodes[j].value
    }

    /** `store.getNode(v)` finds a node. */
    predicate Has(v: NodeValue)
    {
      v in Values(nodes)
    }
  }

  /** The values of `nodes`, in order. */
  function Values(nodes: seq<TreeNode>): (r: seq<NodeValue>)
    ensures |r| == |nodes|
    ensures forall i :: 0 <= i < |nodes| ==> r[i] == nodes[i].value
  {
    if |nodes| == 0 then [] else Values(nodes[..|nodes| - 1]) + [nodes[|nodes| - 1].value]
  }

  /** The values of the visible nodes, in order: what the rendered list
      must show. Defined from the end so that a forward pass extends it. */
  function VisibleValues(nodes: seq<TreeNode>): seq<NodeValue>
  {
    if |nodes| == 0 then []
    else
      var last := nodes[|nodes| - 1];
      VisibleValues(nodes[..|nodes| - 1]) + (if last.visible then [last.value] else [])
  }

  /** Exactly the visible nodes' values appear in VisibleValues, each at
      most once when the values are unique. */
  lemma {:induction false} VisibleValuesMembers(nodes: seq<TreeNode>)
    requires TreeStore(nodes).ValuesUnique()
    ensures forall v :: v in VisibleValues(nodes) <==>
      exists i :: 0 <= i < |nodes| && nodes[i].visible && nodes[i].value == v
    ensures forall p, q :: 0 <= p < q < |VisibleValues(nodes)| ==>
      VisibleValues(nodes)[p] != VisibleValues(nodes)[q]
  {
    if |nodes| > 0 {
      var init := nodes[..|nodes| - 1];
      var last := nodes[|nodes| - 1];
      VisibleValuesMembers(init);
      assert forall i :: 0 <= i < |init| ==> init[i] == nodes[i];
      var vs := VisibleValues(nodes);
      var front := VisibleValues(init);
      forall v | v in vs
        ensures exists i :: 0 <= i < |nodes| && nodes[i].visible && nodes[i].value == v
      {
        if v in front {
          var i :| 0 <= i < |init| && init[i].visible && init[i].value == v;
          assert nodes[i] == init[i];
        } else {
          assert nodes[|nodes| - 1].value == v;
        }
      }
      forall p, q | 0 <= p < q < |vs| ensures vs[p] != vs[q] {
        if q >= |front| {
          assert q == |front| && vs[q] == last.value;
          assert vs[p] == front[p];
          assert front[p] in front;
          var i :| 0 <= i < |init| && init[i].visible && init[i].value == front[p];
          assert nodes[i].value != nodes[|nodes| - 1].value;
        } else {
          assert vs[p] == front[p] && vs[q] == front[q];
        }
      }
    }
  }

  /** Extending the pass by one node extends VisibleValues accordingly. */
  lemma VisibleValuesSnoc(nodes: seq<TreeNode>, i: nat)
    requires i < |nodes|
    ensures VisibleValues(nodes[..i + 1]) ==
      VisibleValues(nodes[..i]) + (if nodes[i].visible then [nodes[i].value] else [])
  {
    assert nodes[..i + 1][..i] == nodes[..i];
  }
}
