/** Invalidating and recomputing update orders after an edit of the graph. `nodes` is the set of all
    nodes and `edges` the edges their child and parent lists stand for. */
module TraversalOrder {
  import opened GraphOrder
  import opened Nodes

  /** The child lists and the parent lists both stand for these edges. */
  ghost predicate Mirrored(nodes: set<INode>, edges: Edges<INode>)
    reads nodes`children, nodes`parents
  {
    && (forall e :: e in edges ==> e.0 in nodes && e.1 in nodes)
    && (forall n, c :: n in nodes && c in n.children ==> (n, c.node) in edges)
    && (forall n, c :: n in nodes && c in n.parents ==> (c.node, n) in edges)
    && (forall e :: e in edges ==> HasEntry(e.0.children, e.1) && HasEntry(e.1.parents, e.0))
  }

  lemma ChildEdge(nodes: set<INode>, edges: Edges<INode>, n: INode, i: nat)
    requires Mirrored(nodes, edges) && n in nodes && i < |n.children|
    ensures (n, n.children[i].node) in edges && n.children[i].node in nodes
  {
    assert n.children[i] in n.children;
  }

  lemma ParentEdge(nodes: set<INode>, edges: Edges<INode>, n: INode, i: nat)
    requires Mirrored(nodes, edges) && n in nodes && i < |n.parents|
    ensures (n.parents[i].node, n) in edges && n.parents[i].node in nodes
  {
    assert n.parents[i] in n.parents;
  }

  lemma EdgeListed(nodes: set<INode>, edges: Edges<INode>, a: INode, b: INode) returns (i: nat, j: nat)
    requires Mirrored(nodes, edges) && (a, b) in edges
    ensures a in nodes && b in nodes
    ensures i < |a.children| && a.children[i].node == b
    ensures j < |b.parents| && b.parents[j].node == a
  {
    assert HasEntry((a, b).0.children, b) && HasEntry((a, b).1.parents, a);
    var c :| c in a.children && c.node == b;
    i :| 0 <= i < |a.children| && a.children[i] == c;
    var d :| d in b.parents && d.node == a;
    j :| 0 <= j < |b.parents| && b.parents[j] == d;
  }

  ghost function Orders(nodes: set<INode>): (ord: map<INode, int>)
    reads nodes`updateOrder
    ensures ord.Keys == nodes
  {
    map n | n in nodes :: n.updateOrder
  }

  /** The nodes whose order is invalid. */
  ghost function Marked(nodes: set<INode>): set<INode>
    reads nodes`updateOrder
  {
    set n | n in nodes && n.updateOrder == -1
  }

  // ----- InvalidateChildren

  /** Marks a node and what is below it. The search stops at marked nodes, yet nothing below a newly
      marked node stays unmarked. */
  method InvalidateChildren(node: INode, ghost nodes: set<INode>, ghost edges: Edges<INode>)
    requires Mirrored(nodes, edges) && node in nodes
    modifies nodes`updateOrder
    ensures node in Marked(nodes) && old(Marked(nodes)) <= Marked(nodes)
    ensures forall m :: m in nodes && m !in Marked(nodes) ==> m.updateOrder == old(m.updateOrder)
    ensures forall m :: m in Marked(nodes) - old(Marked(nodes)) ==> Reaches(edges, node, m)
    ensures forall e :: e in edges && e.0 in Marked(nodes) - old(Marked(nodes)) ==> e.1 in Marked(nodes)
    decreases nodes - Marked(nodes)
  {
    hide Mirrored, Reaches;
    if node.updateOrder == -1 {
      return;
    }
    node.updateOrder := -1;
    ReachesSelf(edges, node);
    for i := 0 to |node.children|
      invariant old(Marked(nodes)) + {node} <= Marked(nodes)
      invariant forall m :: m in nodes && m !in Marked(nodes) ==> m.updateOrder == old(m.updateOrder)
      invariant forall m :: m in Marked(nodes) - old(Marked(nodes)) ==> Reaches(edges, node, m)
      invariant forall j :: 0 <= j < i ==> node.children[j].node in Marked(nodes)
      invariant forall e :: e in edges && e.0 in Marked(nodes) - old(Marked(nodes)) - {node} ==> e.1 in Marked(nodes)
    {
      var child := node.children[i].node;
      ChildEdge(nodes, edges, node, i);
      ghost var before := Marked(nodes);
      InvalidateChildren(child, nodes, edges);
      EdgeReaches(edges, node, child);
      forall m | m in Marked(nodes) - before ensures Reaches(edges, node, m) {
        ReachesTransitive(edges, node, child, m);
      }
    }
    forall e | e in edges && e.0 == node ensures e.1 in Marked(nodes) {
      var i, j := EdgeListed(nodes, edges, e.0, e.1);
    }
  }

  // ----- RecalculateUpdateOrder

  /** A valid node whose order satisfies the equation, over parents that are all valid. */
  ghost predicate SettledAt(nodes: set<INode>, edges: Edges<INode>, n: INode)
    reads nodes`updateOrder
  {
    && OrderedAt(edges, Orders(nodes), n)
    && forall e :: e in edges && e.1 == n ==> e.0 !in Marked(nodes)
  }

  ghost predicate Settled(nodes: set<INode>, edges: Edges<INode>)
    reads nodes`updateOrder
  {
    forall n {:trigger SettledAt(nodes, edges, n)} :: n in nodes && n.updateOrder != -1 ==> SettledAt(nodes, edges, n)
  }

  /** The largest order among the first i parents of a node, -1 if there are none. */
  ghost predicate IsMaxOfParents(ord: map<INode, int>, parents: seq<NodeConnection>, i: nat, max: int) {
    && max >= -1 && i <= |parents|
    && (forall j: nat :: j < i ==> parents[j].node in ord && 0 <= ord[parents[j].node] <= max)
    && (max >= 0 ==> exists j: nat :: j < i && parents[j].node in ord && ord[parents[j].node] == max)
  }

  lemma MaxExtends(nodes: set<INode>, edges: Edges<INode>, was: map<INode, int>, ord: map<INode, int>,
                   parents: seq<NodeConnection>, i: nat, max: int)
    requires Advanced(nodes, edges, was, ord) && IsMaxOfParents(was, parents, i, max)
    requires i < |parents| && parents[i].node in nodes && ord[parents[i].node] >= 0
    ensures var p := ord[parents[i].node]; IsMaxOfParents(ord, parents, i + 1, if max < p then p else max)
  {
    forall j: nat | j < i ensures ord[parents[j].node] == was[parents[j].node] {
      assert parents[j].node in was;
    }
    if max >= 0 {
      var j: nat :| j < i && parents[j].node in was && was[parents[j].node] == max;
    }
  }

  lemma SettledNode(nodes: set<INode>, edges: Edges<INode>, n: INode)
    requires Settled(nodes, edges) && n in nodes && n !in Marked(nodes)
    ensures SettledAt(nodes, edges, n) && n.updateOrder >= 0
  {
    assert SettledAt(nodes, edges, n);
  }

  /** The order a settled node has is the one its parents give it. */
  lemma SettledIsMax(nodes: set<INode>, edges: Edges<INode>, n: INode, max: int)
    requires Mirrored(nodes, edges) && n in nodes && SettledAt(nodes, edges, n)
    requires IsMaxOfParents(Orders(nodes), n.parents, |n.parents|, max)
    ensures n.updateOrder == max + 1
  {
    var ord := Orders(nodes);
    if max >= 0 {
      var j: nat :| j < |n.parents| && n.parents[j].node in ord && ord[n.parents[j].node] == max;
      ParentEdge(nodes, edges, n, j);
      assert (n.parents[j].node, n).0 in ord;
    }
    if ord[n] > 0 {
      var e :| e in edges && e.1 == n && e.0 in ord && ord[e.0] + 1 == ord[n];
      assert e == (e.0, n);
      var i, j := EdgeListed(nodes, edges, e.0, n);
    }
  }

  /** One above the highest parent is what the equation asks for. */
  lemma MaxIsSettled(nodes: set<INode>, edges: Edges<INode>, n: INode, max: int)
    requires Mirrored(nodes, edges) && n in nodes && n.updateOrder == max + 1
    requires IsMaxOfParents(Orders(nodes), n.parents, |n.parents|, max)
    ensures SettledAt(nodes, edges, n)
  {
    hide Mirrored;
    var ord := Orders(nodes);
    forall e | e in edges && e.1 == n ensures e.0 in ord && ord[e.0] < ord[n] && e.0 !in Marked(nodes) {
      assert e == (e.0, n);
      var i, j := EdgeListed(nodes, edges, e.0, n);
    }
    if max >= 0 {
      var j: nat :| j < |n.parents| && n.parents[j].node in ord && ord[n.parents[j].node] == max;
      ParentEdge(nodes, edges, n, j);
      var e := (n.parents[j].node, n);
      assert e in edges && e.1 == n && e.0 in ord && ord[e.0] + 1 == ord[n];
    }
  }

  /** The orders given out fit an int16_t: the highest parent is below the number of nodes. */
  lemma MaxFits(nodes: set<INode>, edges: Edges<INode>, n: INode, max: int)
    requires Mirrored(nodes, edges) && Settled(nodes, edges) && n in nodes
    requires IsMaxOfParents(Orders(nodes), n.parents, |n.parents|, max)
    ensures max < |nodes|
  {
    var done, ord := nodes - Marked(nodes), Orders(nodes);
    if max >= 0 {
      var j: nat :| j < |n.parents| && n.parents[j].node in ord && ord[n.parents[j].node] == max;
      ParentEdge(nodes, edges, n, j);
      var p := n.parents[j].node;
      forall m | m in done ensures OrderedAt(edges, Orders(nodes), m) { SettledNode(nodes, edges, m); }
      forall e | e in edges && e.1 in done ensures e.0 in done { SettledNode(nodes, edges, e.1); }
      OrderBelowCount(done, edges, Orders(nodes), p);
      SubsetCardinality(done, nodes);
    } else {
      SubsetCardinality({n}, nodes);
    }
  }

  /** The orders `ord` are settled; -1 stands for a marked node. */
  ghost predicate SettledOrders(nodes: set<INode>, edges: Edges<INode>, ord: map<INode, int>) {
    forall m :: m in nodes && m in ord && ord[m] != -1
      ==> OrderedAt(edges, ord, m) && forall e :: e in edges && e.1 == m && e.0 in ord ==> ord[e.0] != -1
  }

  lemma SettledHeap(nodes: set<INode>, edges: Edges<INode>)
    requires forall e :: e in edges ==> e.0 in nodes && e.1 in nodes
    ensures Settled(nodes, edges) <==> SettledOrders(nodes, edges, Orders(nodes))
  {
    if Settled(nodes, edges) {
      forall m | m in nodes && m.updateOrder != -1
        ensures OrderedAt(edges, Orders(nodes), m) && forall e :: e in edges && e.1 == m ==> Orders(nodes)[e.0] != -1
      {
        assert SettledAt(nodes, edges, m);
      }
    }
  }

  /** Settling a marked node does not disturb the settled ones, none of which has it as a parent. */
  lemma OthersStaySettled(nodes: set<INode>, edges: Edges<INode>, was: map<INode, int>, ord: map<INode, int>, n: INode)
    requires SettledOrders(nodes, edges, was) && ord.Keys == was.Keys == nodes && n in nodes && was[n] == -1
    requires forall e :: e in edges ==> e.0 in nodes && e.1 in nodes
    requires forall m :: m in nodes && m != n ==> ord[m] == was[m]
    requires OrderedAt(edges, ord, n) && forall e :: e in edges && e.1 == n ==> ord[e.0] != -1
    ensures SettledOrders(nodes, edges, ord)
  {
    forall m | m in nodes && m != n && ord[m] != -1
      ensures OrderedAt(edges, ord, m) && forall e :: e in edges && e.1 == m ==> ord[e.0] != -1
    {
      assert forall e :: e in edges && e.1 == m ==> e.0 != n && ord[e.0] == was[e.0];
      OrderedAtFrame(edges, was, ord, m);
    }
  }

  /** The assignment to update_order in RecalculateUpdateOrder. */
  method SettleNode(node: INode, order: Int16, ghost nodes: set<INode>, ghost edges: Edges<INode>,
      ghost rank: map<INode, nat>)
    requires Mirrored(nodes, edges) && node in nodes && rank.Keys == nodes && Ranks(edges, rank)
      && Settled(nodes, edges)
    requires IsMaxOfParents(Orders(nodes), node.parents, |node.parents|, order - 1)
    modifies node`updateOrder
    ensures Orders(nodes) == old(Orders(nodes))[node := order] && Settled(nodes, edges)
      && Marked(nodes) == old(Marked(nodes)) - {node}
    ensures old(node.updateOrder) != -1 ==> node.updateOrder == old(node.updateOrder)
  {
    hide Mirrored, OrderedAt;
    ParentsRankBelow(node, nodes, edges, rank);
    EdgesInside(nodes, edges);
    SettledHeap(nodes, edges);
    ghost var was := Orders(nodes);
    if node.updateOrder != -1 {
      SettledNode(nodes, edges, node);
      SettledIsMax(nodes, edges, node, order - 1);
    }
    node.updateOrder := order;
    MaxIsSettled(nodes, edges, node, order - 1);
    if was[node] == -1 {
      OthersStaySettled(nodes, edges, was, Orders(nodes), node);
    } else {
      assert Orders(nodes) == was;
    }
    SettledHeap(nodes, edges);
  }

  lemma ParentsRankBelow(node: INode, nodes: set<INode>, edges: Edges<INode>, rank: map<INode, nat>)
    requires Mirrored(nodes, edges) && node in nodes && rank.Keys == nodes && Ranks(edges, rank)
    ensures forall c :: c in node.parents ==> c.node in nodes && c.node in rank && rank[c.node] < rank[node]
  {
    forall c | c in node.parents ensures c.node in nodes && c.node in rank && rank[c.node] < rank[node] {
      assert (c.node, node) in edges;
    }
  }

  lemma EdgesInside(nodes: set<INode>, edges: Edges<INode>)
    requires Mirrored(nodes, edges)
    ensures forall e :: e in edges ==> e.0 in nodes && e.1 in nodes
  {
  }

  /** From orders `was` to orders `ord`, some marked nodes were settled: no valid order changed, and
      nothing below a newly settled node is left marked. */
  ghost predicate Advanced(nodes: set<INode>, edges: Edges<INode>, was: map<INode, int>, ord: map<INode, int>) {
    && was.Keys == ord.Keys == nodes
    && (forall m :: m in nodes && was[m] != -1 ==> ord[m] == was[m])
    && (forall e :: e in edges && e.0 in nodes && e.1 in nodes && was[e.0] == -1 && ord[e.0] != -1 ==> ord[e.1] != -1)
  }

  lemma AdvancedTwice(nodes: set<INode>, edges: Edges<INode>, was: map<INode, int>, mid: map<INode, int>,
      ord: map<INode, int>)
    requires Advanced(nodes, edges, was, mid) && Advanced(nodes, edges, mid, ord)
    ensures Advanced(nodes, edges, was, ord)
  {
  }

  /** The same when in between one node was settled before its children. */
  lemma AdvancedAround(nodes: set<INode>, edges: Edges<INode>, was: map<INode, int>, mid: map<INode, int>,
      ord: map<INode, int>, n: INode)
    requires n in nodes && Advanced(nodes, edges, was, mid) && (was[n] == -1 || mid[n] == was[n])
    requires ord.Keys == nodes && Advanced(nodes, edges, mid[n := ord[n]], ord)
    requires mid[n] != -1 ==> ord[n] == mid[n]
    requires forall e :: e in edges && e.0 == n && e.1 in nodes ==> ord[e.1] != -1
    ensures Advanced(nodes, edges, was, ord)
  {
  }

  /** Gives a marked node its order, its marked ancestors before and its marked descendants after it.
      Computing a parent reaches the node again through the parent's children, and may settle it
      before its own turn comes. */
  method RecalculateUpdateOrder(node: INode, ghost nodes: set<INode>, ghost edges: Edges<INode>,
      ghost rank: map<INode, nat>)
    returns (order: Int16)
    requires Mirrored(nodes, edges) && node in nodes && rank.Keys == nodes && Ranks(edges, rank)
    requires Settled(nodes, edges) && |nodes| <= MAX_NODES
    modifies nodes`updateOrder
    ensures Settled(nodes, edges) && Advanced(nodes, edges, old(Orders(nodes)), Orders(nodes))
    ensures node.updateOrder != -1 && order == node.updateOrder
    decreases Marked(nodes), rank[node], 1
  {
    hide Mirrored, OrderedAt, SettledAt, Settled, Advanced, Ranks, IsMaxOfParents;
    ghost var was := Orders(nodes);
    if node.updateOrder != -1 {
      AdvancedSelf(nodes, edges, was);
      return node.updateOrder;
    }
    var maxParents := HighestParent(node, nodes, edges, rank);
    ghost var mid := Orders(nodes);
    AdvancedKeeps(nodes, edges, was, mid);
    MaxFits(nodes, edges, node, maxParents);
    SettleNode(node, maxParents + 1, nodes, edges, rank);
    ghost var settled := Orders(nodes);
    UpdateChildren(node, nodes, edges, rank);
    NodeFinished(node, nodes, edges, was, mid, settled);
    order := node.updateOrder;
  }

  lemma NodeFinished(node: INode, nodes: set<INode>, edges: Edges<INode>, was: map<INode, int>, mid: map<INode, int>,
      settled: map<INode, int>)
    requires Mirrored(nodes, edges) && node in nodes
    requires Advanced(nodes, edges, was, mid) && was[node] == -1
    requires node in settled && settled[node] != -1 && settled == mid[node := settled[node]]
    requires mid[node] != -1 ==> settled[node] == mid[node]
    requires Advanced(nodes, edges, settled, Orders(nodes))
    requires forall c :: c in node.children ==> c.node in nodes && c.node.updateOrder != -1
    ensures Advanced(nodes, edges, was, Orders(nodes)) && node.updateOrder == settled[node]
  {
    hide Mirrored;
    forall e | e in edges && e.0 == node && e.1 in nodes ensures Orders(nodes)[e.1] != -1 {
      var i, j := EdgeListed(nodes, edges, e.0, e.1);
    }
    AdvancedAround(nodes, edges, was, mid, Orders(nodes), node);
  }

  lemma AdvancedKeeps(nodes: set<INode>, edges: Edges<INode>, was: map<INode, int>, ord: map<INode, int>)
    requires Advanced(nodes, edges, was, ord)
    ensures was.Keys == ord.Keys == nodes
    ensures forall m :: m in nodes && was[m] != -1 ==> ord[m] == was[m]
  {
  }

  /** The loop over the parents: computes them and returns their highest order. */
  method HighestParent(node: INode, ghost nodes: set<INode>, ghost edges: Edges<INode>, ghost rank: map<INode, nat>)
    returns (maxParents: Int16)
    requires Mirrored(nodes, edges) && node in nodes && rank.Keys == nodes && Ranks(edges, rank)
    requires Settled(nodes, edges) && |nodes| <= MAX_NODES
    modifies nodes`updateOrder
    ensures Settled(nodes, edges) && Advanced(nodes, edges, old(Orders(nodes)), Orders(nodes))
    ensures IsMaxOfParents(Orders(nodes), node.parents, |node.parents|, maxParents)
    decreases Marked(nodes), rank[node], 0
  {
    hide Mirrored, OrderedAt, SettledAt, Settled, Advanced, Ranks;
    ghost var was := Orders(nodes);
    AdvancedSelf(nodes, edges, was);
    assert IsMaxOfParents(was, node.parents, 0, -1);
    hide IsMaxOfParents;
    ParentsRankBelow(node, nodes, edges, rank);
    maxParents := -1;
    for i := 0 to |node.parents|
      invariant Settled(nodes, edges) && Advanced(nodes, edges, was, Orders(nodes))
      invariant IsMaxOfParents(Orders(nodes), node.parents, i, maxParents)
    {
      ghost var mid := Orders(nodes);
      var parent := node.parents[i].node;
      AdvancedMarks(nodes, edges, was);
      var parentOrder := RecalculateUpdateOrder(parent, nodes, edges, rank);
      AdvancedKeeps(nodes, edges, mid, Orders(nodes));
      AdvancedTwice(nodes, edges, was, mid, Orders(nodes));
      SettledNode(nodes, edges, parent);
      MaxExtends(nodes, edges, mid, Orders(nodes), node.parents, i, maxParents);
      maxParents := if maxParents < parentOrder then parentOrder else maxParents;
    }
  }

  lemma AdvancedSelf(nodes: set<INode>, edges: Edges<INode>, ord: map<INode, int>)
    requires ord.Keys == nodes
    ensures Advanced(nodes, edges, ord, ord)
  {
  }

  lemma AdvancedMarks(nodes: set<INode>, edges: Edges<INode>, was: map<INode, int>)
    requires Advanced(nodes, edges, was, Orders(nodes))
    ensures Marked(nodes) <= set m | m in nodes && was[m] == -1
  {
  }

  lemma RelativesInside(nodes: set<INode>, edges: Edges<INode>, n: INode)
    requires Mirrored(nodes, edges) && n in nodes
    ensures forall c :: c in n.parents ==> c.node in nodes
    ensures forall c :: c in n.children ==> c.node in nodes
  {
    forall c | c in n.parents ensures c.node in nodes { assert (c.node, n).0 in nodes; }
    forall c | c in n.children ensures c.node in nodes { assert (n, c.node).1 in nodes; }
  }

  /** The loop over the children. */
  method UpdateChildren(node: INode, ghost nodes: set<INode>, ghost edges: Edges<INode>, ghost rank: map<INode, nat>)
    requires Mirrored(nodes, edges) && node in nodes && rank.Keys == nodes && Ranks(edges, rank)
    requires Settled(nodes, edges) && |nodes| <= MAX_NODES
    modifies nodes`updateOrder
    ensures Settled(nodes, edges) && Advanced(nodes, edges, old(Orders(nodes)), Orders(nodes))
    ensures forall c :: c in node.children ==> c.node in nodes && c.node.updateOrder != -1
    decreases Marked(nodes)
  {
    hide Mirrored, OrderedAt, SettledAt, Settled, Advanced, Ranks;
    ghost var was := Orders(nodes);
    AdvancedSelf(nodes, edges, was);
    RelativesInside(nodes, edges, node);
    for i := 0 to |node.children|
      invariant Settled(nodes, edges) && Advanced(nodes, edges, was, Orders(nodes))
      invariant forall j :: 0 <= j < i ==> node.children[j].node.updateOrder != -1
    {
      ghost var mid := Orders(nodes);
      AdvancedMarks(nodes, edges, was);
      var childOrder := RecalculateUpdateOrder(node.children[i].node, nodes, edges, rank);
      AdvancedKeeps(nodes, edges, mid, Orders(nodes));
      AdvancedTwice(nodes, edges, was, mid, Orders(nodes));
    }
  }

  // ----- RecalculateTraversalOrder

  /** After InvalidateChildren exactly the node and its descendants are marked, and the orders left
      are settled if they were right away from the node. */
  lemma InvalidatedBelow(nodes: set<INode>, edges: Edges<INode>, node: INode, was: map<INode, int>)
    requires Mirrored(nodes, edges) && node in nodes && was.Keys == nodes
    requires forall m :: m in nodes && !Reaches(edges, node, m) ==> OrderedAt(edges, was, m)
    requires node in Marked(nodes)
    requires forall m :: m in Marked(nodes) ==> Reaches(edges, node, m)
    requires forall e :: e in edges && e.0 in Marked(nodes) ==> e.1 in Marked(nodes)
    requires forall m :: m in nodes && m !in Marked(nodes) ==> m.updateOrder == was[m]
    ensures forall m :: m in nodes ==> (m in Marked(nodes) <==> Reaches(edges, node, m))
    ensures Settled(nodes, edges)
  {
    hide Mirrored, Reaches, OrderedAt;
    EdgesInside(nodes, edges);
    MarkedIsDescendants(edges, Marked(nodes), node);
    forall n | n in nodes && n.updateOrder != -1 ensures SettledAt(nodes, edges, n) {
      OrderedAtFrame(edges, was, Orders(nodes), n);
    }
  }

  /** No descendant of a settled node is left marked. */
  lemma AllSettledBelow(nodes: set<INode>, edges: Edges<INode>, node: INode, was: map<INode, int>)
    requires Mirrored(nodes, edges) && node in nodes && node.updateOrder != -1
    requires Advanced(nodes, edges, was, Orders(nodes))
    requires forall m :: m in nodes ==> (was[m] == -1 <==> Reaches(edges, node, m))
    ensures Marked(nodes) == {}
  {
    hide Reaches;
    var ord := Orders(nodes);
    var done := set m | m in nodes && Reaches(edges, node, m) && ord[m] != -1;
    ReachesSelf(edges, node);
    forall e | e in edges && e.0 in done ensures e.1 in done {
      assert e == (e.0, e.1);
      ReachesStep(edges, node, e.0, e.1);
    }
    DoneContains(nodes, edges, node, done);
  }

  lemma DoneContains(nodes: set<INode>, edges: Edges<INode>, node: INode, done: set<INode>)
    requires node in done && forall e :: e in edges && e.0 in done ==> e.1 in done
    ensures forall m :: m in nodes && Reaches(edges, node, m) ==> m in done
  {
    forall m | m in nodes && Reaches(edges, node, m) ensures m in done {
      var k: nat :| Leads(edges, node, m, k);
      ClosedContains(edges, done, node, m, k);
    }
  }

  /** Restores all update orders after the edges into a node have changed: the descendants are
      renumbered, every other node keeps its order. */
  method RecalculateTraversalOrder(node: INode, ghost nodes: set<INode>, ghost edges: Edges<INode>,
      ghost rank: map<INode, nat>)
    requires Mirrored(nodes, edges) && node in nodes && rank.Keys == nodes && Ranks(edges, rank) && |nodes| <= MAX_NODES
    requires forall m :: m in nodes ==> m.updateOrder >= 0
    requires forall m :: m in nodes && !Reaches(edges, node, m) ==> OrderedAt(edges, Orders(nodes), m)
    modifies nodes`updateOrder
    ensures Ordered(nodes, edges, Orders(nodes))
    ensures forall m :: m in nodes && !Reaches(edges, node, m) ==> m.updateOrder == old(m.updateOrder)
  {
    hide Mirrored, Reaches, OrderedAt, Advanced;
    EdgesInside(nodes, edges);
    ghost var was := Orders(nodes);
    assert Marked(nodes) == {};
    InvalidateChildren(node, nodes, edges);
    InvalidatedBelow(nodes, edges, node, was);
    ghost var mid := Orders(nodes);
    var order := RecalculateUpdateOrder(node, nodes, edges, rank);
    AdvancedKeeps(nodes, edges, mid, Orders(nodes));
    AllSettledBelow(nodes, edges, node, mid);
    forall n | n in nodes ensures OrderedAt(edges, Orders(nodes), n) {
      assert n !in Marked(nodes);
      SettledNode(nodes, edges, n);
    }
  }
}
