/** When RecalculateUpdateOrder returns. Its recursion is written out on values, with a bound on its
    depth, so that a call that never returns shows as one that exceeds every bound. */
module CyclicOrder {
  import opened GraphOrder

  /** The parent and child lists of all nodes. */
  datatype Neighbours<V> = Neighbours(parents: map<V, seq<V>>, children: map<V, seq<V>>)

  datatype Result<V> = TooDeep | Returned(order: map<V, int>)

  ghost predicate WellFormed<V>(nodes: set<V>, lists: Neighbours<V>, order: map<V, int>) {
    && lists.parents.Keys == nodes && lists.children.Keys == nodes && order.Keys == nodes
    && (forall n, p :: n in nodes && p in lists.parents[n] ==> p in nodes)
    && (forall n, c :: n in nodes && c in lists.children[n] ==> c in nodes)
  }

  ghost function Highest<V>(list: seq<V>, order: map<V, int>): (max: int)
    requires forall n :: n in list ==> n in order
    ensures max >= -1
  {
    if list == [] then -1
    else
      var rest, last := Highest(list[..|list| - 1], order), order[list[|list| - 1]];
      if rest < last then last else rest
  }

  /** RecalculateUpdateOrder with at most `depth` nested calls. */
  ghost function Recalculate<V>(nodes: set<V>, lists: Neighbours<V>, order: map<V, int>, n: V,
      depth: nat): (r: Result<V>)
    requires WellFormed(nodes, lists, order) && n in nodes
    ensures r.Returned? ==> r.order.Keys == nodes
    decreases depth, 0
  {
    if depth == 0 then TooDeep
    else if order[n] != -1 then Returned(order)
    else
      match RecalculateAll(nodes, lists, order, lists.parents[n], depth - 1)
      case TooDeep => TooDeep
      case Returned(above) =>
        RecalculateAll(nodes, lists, above[n := Highest(lists.parents[n], above) + 1], lists.children[n], depth - 1)
  }

  /** The loops over the parents and over the children. */
  ghost function RecalculateAll<V>(nodes: set<V>, lists: Neighbours<V>, order: map<V, int>, list: seq<V>,
      depth: nat): (r: Result<V>)
    requires WellFormed(nodes, lists, order) && forall n :: n in list ==> n in nodes
    ensures r.Returned? ==> r.order.Keys == nodes
    decreases depth, |list| + 1
  {
    if list == [] then Returned(order)
    else
      match Recalculate(nodes, lists, order, list[0], depth)
      case TooDeep => TooDeep
      case Returned(order') => RecalculateAll(nodes, lists, order', list[1..], depth)
  }

  /** Every node of the trap has a parent in it. */
  ghost predicate Closed<V>(lists: Neighbours<V>, trap: set<V>) {
    forall n {:trigger n in trap} :: n in trap ==> HasParentIn(lists, trap, n)
  }

  ghost predicate HasParentIn<V>(lists: Neighbours<V>, trap: set<V>, n: V) {
    n in lists.parents && exists p :: p in lists.parents[n] && p in trap
  }

  ghost predicate AllMarked<V>(order: map<V, int>, trap: set<V>) {
    forall n {:trigger n in trap} :: n in trap ==> n in order && order[n] == -1
  }

  /** No call for a node of a closed, marked trap returns, and no call that returns has settled one. */
  lemma {:induction false} TrapHolds<V>(nodes: set<V>, lists: Neighbours<V>, order: map<V, int>, n: V, depth: nat,
      trap: set<V>)
    requires WellFormed(nodes, lists, order) && n in nodes && Closed(lists, trap) && AllMarked(order, trap)
    ensures var r := Recalculate(nodes, lists, order, n, depth);
            r.Returned? ==> n !in trap && AllMarked(r.order, trap)
    decreases depth, 0
  {
    hide RecalculateAll, Highest, Closed, HasParentIn;
    if depth > 0 && order[n] == -1 {
      TrapHoldsAll(nodes, lists, order, lists.parents[n], depth - 1, trap);
      var r := RecalculateAll(nodes, lists, order, lists.parents[n], depth - 1);
      if r.Returned? {
        NotTrapped(lists, trap, n);
        TrapHoldsAll(nodes, lists, r.order[n := Highest(lists.parents[n], r.order) + 1], lists.children[n], depth - 1,
            trap);
      }
    }
  }

  lemma NotTrapped<V>(lists: Neighbours<V>, trap: set<V>, n: V)
    requires Closed(lists, trap) && n in lists.parents && forall p :: p in lists.parents[n] ==> p !in trap
    ensures n !in trap
  {
    assert n in trap ==> HasParentIn(lists, trap, n);
  }

  lemma {:induction false} TrapHoldsAll<V>(nodes: set<V>, lists: Neighbours<V>, order: map<V, int>, list: seq<V>,
      depth: nat, trap: set<V>)
    requires WellFormed(nodes, lists, order) && (forall n :: n in list ==> n in nodes)
    requires Closed(lists, trap) && AllMarked(order, trap)
    ensures var r := RecalculateAll(nodes, lists, order, list, depth);
            r.Returned? ==> (forall n :: n in list ==> n !in trap) && AllMarked(r.order, trap)
    decreases depth, |list| + 1
  {
    hide Recalculate, Closed, AllMarked;
    if list != [] {
      TrapHolds(nodes, lists, order, list[0], depth, trap);
      var r := Recalculate(nodes, lists, order, list[0], depth);
      if r.Returned? {
        TrapHoldsAll(nodes, lists, r.order, list[1..], depth, trap);
        assert forall n :: n in list <==> n == list[0] || n in list[1..];
      }
    }
  }

  /** On the cycle that a new edge closes, every node has a parent on the cycle. */
  lemma CycleNode<V>(edges: Edges<V>, parent: V, child: V, n: V) returns (p: V)
    requires Reaches(edges, child, parent) && (parent, child) in edges
    requires Reaches(edges, child, n) && Reaches(edges, n, child)
    ensures (p, n) in edges && Reaches(edges, child, p) && Reaches(edges, p, child)
  {
    if n == child {
      p := parent;
      EdgeReaches(edges, parent, child);
    } else {
      var k: nat :| Leads(edges, child, n, k);
      var e :| e in edges && e.1 == n && Leads(edges, child, e.0, k - 1);
      assert e == (e.0, n);
      p := e.0;
      EdgeReaches(edges, p, n);
      ReachesTransitive(edges, p, n, child);
    }
  }

  /** Once everything below the child of an edge on a cycle is marked, recomputing the order of the
      child exceeds every depth. */
  lemma ClosingEdgeNeverEnds<V>(nodes: set<V>, lists: Neighbours<V>, order: map<V, int>, edges: Edges<V>, parent: V,
      child: V, depth: nat)
    requires WellFormed(nodes, lists, order) && child in nodes && Listed(nodes, lists, edges)
    requires (parent, child) in edges && Reaches(edges, child, parent)
    requires forall n :: n in nodes && Reaches(edges, child, n) ==> order[n] == -1
    ensures Recalculate(nodes, lists, order, child, depth) == TooDeep
  {
    var trap := set n | n in nodes && Reaches(edges, child, n) && Reaches(edges, n, child);
    forall n | n in trap ensures HasParentIn(lists, trap, n) {
      var p := CycleNode(edges, parent, child, n);
      assert (p, n).0 in lists.parents[n];
    }
    ReachesSelf(edges, child);
    TrapHolds(nodes, lists, order, child, depth, trap);
  }

  /** The lists stand for these edges. */
  ghost predicate Listed<V>(nodes: set<V>, lists: Neighbours<V>, edges: Edges<V>) {
    && lists.parents.Keys == nodes && lists.children.Keys == nodes
    && (forall e :: e in edges ==>
      e.0 in nodes && e.1 in nodes && e.0 in lists.parents[e.1] && e.1 in lists.children[e.0])
    && (forall n, p :: n in nodes && p in lists.parents[n] ==> (p, n) in edges)
    && (forall n, c :: n in nodes && c in lists.children[n] ==> (n, c) in edges)
  }

  // ----- without a cycle it returns

  ghost function Marked<V>(order: map<V, int>): set<V> {
    set n | n in order && order[n] == -1
  }

  /** Marked nodes left, and the rank of a node, bound the depth of the calls for it. */
  function Depth(marked: nat, ranks: nat, rank: nat): nat { marked * ranks + rank + 1 }

  lemma DepthBelow(marked: nat, ranks: nat, rank: nat)
    requires marked > 0
    ensures Depth(marked, ranks, rank) >= Depth(marked - 1, ranks, ranks)
  {
    assert marked * ranks == (marked - 1) * ranks + ranks;
  }

  /** A call as deep as that returns, and marks nothing. */
  lemma {:induction false} ReturnsWithin<V>(nodes: set<V>, lists: Neighbours<V>, order: map<V, int>, edges: Edges<V>,
      rank: map<V, nat>,
                                            ranks: nat, n: V, depth: nat)
    requires WellFormed(nodes, lists, order) && Listed(nodes, lists, edges) && n in nodes
    requires rank.Keys == nodes && Ranks(edges, rank) && forall m :: m in nodes ==> rank[m] < ranks
    requires depth >= Depth(|Marked(order)|, ranks, rank[n])
    ensures var r := Recalculate(nodes, lists, order, n, depth);
            r.Returned? && Marked(r.order) <= Marked(order)
    decreases depth, 0
  {
    hide RecalculateAll, Highest, Depth, Listed, Ranks, Marked;
    DepthPositive(|Marked(order)|, ranks, rank[n]);
    if order[n] == -1 {
      var marked := Marked(order);
      NeighboursRank(nodes, lists, edges, rank, n);
      forall p | p in lists.parents[n] ensures Depth(|marked|, ranks, rank[p]) <= depth - 1 {
        DepthOfParent(|marked|, ranks, rank[p], rank[n]);
      }
      ReturnAll(nodes, lists, order, edges, rank, ranks, lists.parents[n], depth - 1, |marked|);
      var above := RecalculateAll(nodes, lists, order, lists.parents[n], depth - 1).order;
      var highest := Highest(lists.parents[n], above);
      FewerMarked(order, above, n, highest + 1);
      DepthBelow(|marked|, ranks, rank[n]);
      forall c | c in lists.children[n] ensures Depth(|marked| - 1, ranks, rank[c]) <= depth - 1 {
        DepthOfParent(|marked| - 1, ranks, rank[c], ranks);
      }
      ReturnAll(nodes, lists, above[n := highest + 1], edges, rank, ranks, lists.children[n], depth - 1, |marked| - 1);
    }
  }

  lemma NeighboursRank<V>(nodes: set<V>, lists: Neighbours<V>, edges: Edges<V>, rank: map<V, nat>, n: V)
    requires Listed(nodes, lists, edges) && n in nodes && rank.Keys == nodes && Ranks(edges, rank)
    ensures forall p :: p in lists.parents[n] ==> p in nodes && rank[p] < rank[n]
    ensures forall c :: c in lists.children[n] ==> c in nodes
  {
    forall p | p in lists.parents[n] ensures p in nodes && rank[p] < rank[n] {
      assert (p, n) in edges;
    }
    forall c | c in lists.children[n] ensures c in nodes {
      assert (n, c) in edges;
    }
  }

  lemma FewerMarked<V>(order: map<V, int>, above: map<V, int>, n: V, settled: nat)
    requires n in order && order[n] == -1 && Marked(above) <= Marked(order)
    ensures Marked(above[n := settled]) <= Marked(order) && |Marked(above[n := settled])| <= |Marked(order)| - 1
  {
    assert Marked(above[n := settled]) <= Marked(order) - {n};
    SubsetCardinality(Marked(above[n := settled]), Marked(order) - {n});
  }

  lemma DepthPositive(marked: nat, ranks: nat, rank: nat)
    ensures Depth(marked, ranks, rank) > 0
  {
  }

  lemma DepthOfParent(marked: nat, ranks: nat, parent: nat, rank: nat)
    requires parent < rank
    ensures Depth(marked, ranks, parent) < Depth(marked, ranks, rank)
  {
  }

  lemma DepthOfFewer(fewer: nat, marked: nat, ranks: nat, rank: nat)
    requires fewer <= marked
    ensures Depth(fewer, ranks, rank) <= Depth(marked, ranks, rank)
  {
    assert (marked - fewer) * ranks >= 0;
  }

  lemma {:induction false} ReturnAll<V>(nodes: set<V>, lists: Neighbours<V>, order: map<V, int>, edges: Edges<V>,
      rank: map<V, nat>,
                                        ranks: nat, list: seq<V>, depth: nat, marked: nat)
    requires WellFormed(nodes, lists, order) && Listed(nodes, lists, edges) && forall m :: m in list ==> m in nodes
    requires rank.Keys == nodes && Ranks(edges, rank) && forall m :: m in nodes ==> rank[m] < ranks
    requires |Marked(order)| <= marked && forall m :: m in list ==> Depth(marked, ranks, rank[m]) <= depth
    ensures var r := RecalculateAll(nodes, lists, order, list, depth);
            r.Returned? && Marked(r.order) <= Marked(order)
    decreases depth, |list| + 1
  {
    hide Recalculate, Depth, Listed, Marked, Ranks;
    if list != [] {
      assert list[0] in list;
      DepthOfFewer(|Marked(order)|, marked, ranks, rank[list[0]]);
      ReturnsWithin(nodes, lists, order, edges, rank, ranks, list[0], depth);
      var r := Recalculate(nodes, lists, order, list[0], depth);
      SubsetCardinality(Marked(r.order), Marked(order));
      ReturnAll(nodes, lists, r.order, edges, rank, ranks, list[1..], depth, marked);
    }
  }

  lemma {:induction false} HighestRank<V>(nodes: set<V>, rank: map<V, nat>) returns (ranks: nat)
    requires nodes <= rank.Keys
    ensures forall n :: n in nodes ==> rank[n] < ranks
  {
    ranks := 0;
    if nodes != {} {
      var n :| n in nodes;
      ranks := HighestRank(nodes - {n}, rank);
      ranks := if rank[n] < ranks then ranks else rank[n] + 1;
    }
  }

  lemma {:induction false} LeadsInMore<V>(edges: Edges<V>, more: Edges<V>, a: V, b: V, k: nat)
    requires edges <= more && Leads(edges, a, b, k)
    ensures Leads(more, a, b, k)
    decreases k
  {
    if k > 0 {
      var e :| e in edges && e.1 == b && Leads(edges, a, e.0, k - 1);
      LeadsInMore(edges, more, a, e.0, k - 1);
    }
  }

  /** After a new edge has been listed and everything below its child marked, recomputing the order of
      the child returns exactly if the edge closes no cycle, that is, if the child did not reach the
      parent before. */
  lemma ReturnsIff<V>(nodes: set<V>, lists: Neighbours<V>, order: map<V, int>, edges: Edges<V>, was: map<V, int>,
      parent: V, child: V)
    requires Ordered(nodes, edges, was) && parent in nodes && child in nodes
    requires var more := edges + {(parent, child)};
             && WellFormed(nodes, lists, order) && Listed(nodes, lists, more)
             && forall n :: n in nodes && Reaches(more, child, n) ==> order[n] == -1
    ensures (exists depth: nat :: Recalculate(nodes, lists, order, child, depth).Returned?)
      <==> !Reaches(edges, child, parent)
  {
    var more := edges + {(parent, child)};
    if Reaches(edges, child, parent) {
      var k: nat :| Leads(edges, child, parent, k);
      LeadsInMore(edges, more, child, parent, k);
      forall depth: nat ensures Recalculate(nodes, lists, order, child, depth) == TooDeep {
        ClosingEdgeNeverEnds(nodes, lists, order, more, parent, child, depth);
      }
    } else {
      var rank := RankWith(nodes, edges, was, parent, child);
      var ranks := HighestRank(nodes, rank);
      var depth := Depth(|Marked(order)|, ranks, rank[child]);
      ReturnsWithin(nodes, lists, order, more, rank, ranks, child, depth);
      assert Recalculate(nodes, lists, order, child, depth).Returned?;
    }
  }

  // ----- what it returns

  /** The order of a node is one above the highest of its parents, all of which have one. */
  ghost predicate Settled<V>(lists: Neighbours<V>, order: map<V, int>, n: V) {
    && n in order && n in lists.parents
    && (forall p :: p in lists.parents[n] ==> p in order && order[p] != -1)
    && order[n] == Highest(lists.parents[n], order) + 1
  }

  ghost predicate Known<V>(order: map<V, int>, list: seq<V>) {
    forall n :: n in list ==> n in order && order[n] != -1
  }

  /** Between two states a node keeps its order, and one that gets an order gets it from its parents
      and passes it on to its children. */
  ghost predicate SettlesAt<V>(lists: Neighbours<V>, was: map<V, int>, now: map<V, int>, n: V) {
    && n in was && n in now && n in lists.children
    && (was[n] != -1 ==> now[n] == was[n])
    && (was[n] == -1 && now[n] != -1 ==> Settled(lists, now, n) && Known(now, lists.children[n]))
  }

  ghost predicate Settles<V>(nodes: set<V>, lists: Neighbours<V>, was: map<V, int>, now: map<V, int>) {
    forall n {:trigger SettlesAt(lists, was, now, n)} :: n in nodes ==> SettlesAt(lists, was, now, n)
  }

  lemma {:induction false} HighestFrame<V>(list: seq<V>, order: map<V, int>, order': map<V, int>)
    requires forall n :: n in list ==> n in order && n in order' && order[n] == order'[n]
    ensures Highest(list, order) == Highest(list, order')
  {
    if list != [] {
      assert list[|list| - 1] in list;
      HighestFrame(list[..|list| - 1], order, order');
    }
  }

  lemma {:induction false} HighestIsMax<V>(list: seq<V>, order: map<V, int>)
    requires forall n :: n in list ==> n in order
    ensures forall n :: n in list ==> order[n] <= Highest(list, order)
    ensures Highest(list, order) == -1 || exists n :: n in list && order[n] == Highest(list, order)
  {
    if list != [] {
      var rest, last := list[..|list| - 1], list[|list| - 1];
      HighestIsMax(rest, order);
      assert forall n :: n in list <==> n in rest || n == last;
    }
  }

  lemma SettledFrame<V>(lists: Neighbours<V>, was: map<V, int>, now: map<V, int>, n: V)
    requires Settled(lists, was, n) && n in now && now[n] == was[n]
    requires forall p :: p in lists.parents[n] ==> p in now && now[p] == was[p]
    ensures Settled(lists, now, n)
  {
    HighestFrame(lists.parents[n], was, now);
  }

  /** The parents first, the node itself, then the children: that settles the node. */
  lemma SettlesInTurn<V>(nodes: set<V>, lists: Neighbours<V>, order: map<V, int>, above: map<V, int>,
      now: map<V, int>, n: V, m: V)
    requires WellFormed(nodes, lists, order) && above.Keys == nodes && now.Keys == nodes && n in nodes && m in nodes
      && order[n] == -1
    requires Settles(nodes, lists, order, above) && Known(above, lists.parents[n])
    requires Settles(nodes, lists, above[n := Highest(lists.parents[n], above) + 1], now)
    requires Known(now, lists.children[n])
    ensures now[n] != -1 && SettlesAt(lists, order, now, m)
  {
    hide Highest;
    var mid := above[n := Highest(lists.parents[n], above) + 1];
    assert SettlesAt(lists, order, above, n) && SettlesAt(lists, mid, now, n);
    forall q | q in nodes && above[q] != -1 ensures now[q] == above[q] {
      assert SettlesAt(lists, mid, now, q);
    }
    assert SettlesAt(lists, order, above, m) && SettlesAt(lists, mid, now, m);
    if m == n {
      HighestFrame(lists.parents[n], above, now);
    } else if order[m] == -1 && above[m] != -1 {
      SettledFrame(lists, above, now, m);
    }
  }

  lemma {:induction false} SettlesNode<V>(nodes: set<V>, lists: Neighbours<V>, order: map<V, int>, n: V, depth: nat)
    requires WellFormed(nodes, lists, order) && n in nodes
    ensures var r := Recalculate(nodes, lists, order, n, depth);
            r.Returned? ==> Settles(nodes, lists, order, r.order) && r.order[n] != -1
    decreases depth, 0
  {
    hide RecalculateAll, Highest, Settled, Known, SettlesAt;
    if depth > 0 {
      if order[n] != -1 {
        SettlesSelf(nodes, lists, order);
      } else {
        SettlesAll(nodes, lists, order, lists.parents[n], depth - 1);
        var r := RecalculateAll(nodes, lists, order, lists.parents[n], depth - 1);
        if r.Returned? {
          var mid := r.order[n := Highest(lists.parents[n], r.order) + 1];
          SettlesAll(nodes, lists, mid, lists.children[n], depth - 1);
          var r' := RecalculateAll(nodes, lists, mid, lists.children[n], depth - 1);
          if r'.Returned? {
            forall m | m in nodes ensures r'.order[n] != -1 && SettlesAt(lists, order, r'.order, m) {
              SettlesInTurn(nodes, lists, order, r.order, r'.order, n, m);
            }
          }
        }
      }
    }
  }

  lemma SettlesSelf<V>(nodes: set<V>, lists: Neighbours<V>, order: map<V, int>)
    requires WellFormed(nodes, lists, order)
    ensures Settles(nodes, lists, order, order)
  {
  }

  lemma SettlesTransitive<V>(nodes: set<V>, lists: Neighbours<V>, order: map<V, int>, mid: map<V, int>,
      now: map<V, int>)
    requires WellFormed(nodes, lists, order) && mid.Keys == nodes && now.Keys == nodes
    requires Settles(nodes, lists, order, mid) && Settles(nodes, lists, mid, now)
    ensures Settles(nodes, lists, order, now) && forall n :: n in nodes && mid[n] != -1 ==> now[n] == mid[n]
  {
    hide Highest;
    forall n | n in nodes ensures mid[n] != -1 ==> now[n] == mid[n] {
      assert SettlesAt(lists, order, mid, n) && SettlesAt(lists, mid, now, n);
    }
    forall n | n in nodes ensures SettlesAt(lists, order, now, n) {
      assert SettlesAt(lists, order, mid, n) && SettlesAt(lists, mid, now, n);
      if order[n] == -1 && mid[n] != -1 { SettledFrame(lists, mid, now, n); }
    }
  }

  lemma {:induction false} SettlesAll<V>(nodes: set<V>, lists: Neighbours<V>, order: map<V, int>, list: seq<V>,
      depth: nat)
    requires WellFormed(nodes, lists, order) && forall n :: n in list ==> n in nodes
    ensures var r := RecalculateAll(nodes, lists, order, list, depth);
            r.Returned? ==> Settles(nodes, lists, order, r.order) && Known(r.order, list)
    decreases depth, |list| + 1
  {
    hide Recalculate, Settles;
    if list == [] {
      SettlesSelf(nodes, lists, order);
    } else {
      SettlesNode(nodes, lists, order, list[0], depth);
      var r := Recalculate(nodes, lists, order, list[0], depth);
      if r.Returned? {
        SettlesAll(nodes, lists, r.order, list[1..], depth);
        var r' := RecalculateAll(nodes, lists, r.order, list[1..], depth);
        if r'.Returned? {
          SettlesTransitive(nodes, lists, order, r.order, r'.order);
          assert forall n :: n in list <==> n == list[0] || n in list[1..];
        }
      }
    }
  }

  /** A settled node among nodes that all have an order meets the equation of update_order. */
  lemma SettledIsOrdered<V>(nodes: set<V>, lists: Neighbours<V>, edges: Edges<V>, order: map<V, int>, n: V)
    requires Listed(nodes, lists, edges) && n in nodes && Settled(lists, order, n)
    requires forall m :: m in order && order[m] != -1 ==> order[m] >= 0
    ensures OrderedAt(edges, order, n)
  {
    var parents := lists.parents[n];
    HighestIsMax(parents, order);
    forall e | e in edges && e.1 == n ensures e.0 in order && order[e.0] < order[n] {
      assert e.0 in parents;
    }
    if order[n] > 0 {
      var p :| p in parents && order[p] == Highest(parents, order);
      assert (p, n) in edges && (p, n).1 == n && (p, n).0 == p;
    }
  }

  /** The marks stop at no node below the child: the call passes from each one to its children. */
  lemma AllKnown<V>(nodes: set<V>, lists: Neighbours<V>, order: map<V, int>, now: map<V, int>, edges: Edges<V>,
      child: V)
    requires WellFormed(nodes, lists, order) && Listed(nodes, lists, edges) && child in nodes
    requires forall n :: n in nodes ==> (order[n] == -1 <==> Reaches(edges, child, n))
    requires Settles(nodes, lists, order, now) && now.Keys == nodes && now[child] != -1
    ensures forall n :: n in nodes ==> now[n] != -1
  {
    hide Reaches, Settled;
    var settled := set n | n in nodes && order[n] == -1 && now[n] != -1;
    ReachesSelf(edges, child);
    forall e | e in edges && e.0 in settled ensures e.1 in settled {
      assert e == (e.0, e.1) && SettlesAt(lists, order, now, e.0);
      ReachesStep(edges, child, e.0, e.1);
    }
    forall n | n in nodes ensures now[n] != -1 {
      if Reaches(edges, child, n) {
        MarkedBelow(edges, settled, child, n);
      } else {
        assert SettlesAt(lists, order, now, n);
      }
    }
  }

  lemma MarkedBelow<V>(edges: Edges<V>, s: set<V>, a: V, b: V)
    requires a in s && Reaches(edges, a, b) && forall e :: e in edges && e.0 in s ==> e.1 in s
    ensures b in s
  {
    var k: nat :| Leads(edges, a, b, k);
    ClosedContains(edges, s, a, b, k);
  }

  /** Whenever the recomputation returns, the enlarged graph is numbered: with the nodes below the
      child marked and all others numbered as before, every node ends one above its highest parent,
      and the nodes that are not below the child keep their orders. */
  lemma ReturnedIsOrdered<V>(nodes: set<V>, lists: Neighbours<V>, order: map<V, int>, edges: Edges<V>, was: map<V, int>,
      parent: V, child: V, depth: nat)
    requires Ordered(nodes, edges, was) && parent in nodes && child in nodes
    requires var more := edges + {(parent, child)};
             && WellFormed(nodes, lists, order) && Listed(nodes, lists, more)
             && forall n :: n in nodes ==> n in was && order[n] == if Reaches(more, child, n) then -1 else was[n]
    ensures var r := Recalculate(nodes, lists, order, child, depth);
            r.Returned? ==>
              && Ordered(nodes, edges + {(parent, child)}, r.order)
              && forall n :: n in nodes && !Reaches(edges + {(parent, child)}, child, n) ==> r.order[n] == was[n]
  {
    hide *;
    var r := Recalculate(nodes, lists, order, child, depth);
    SettlesNode(nodes, lists, order, child, depth);
    if r.Returned? {
      SettledBelow(nodes, lists, order, r.order, edges, was, parent, child);
    }
  }

  lemma SettledBelow<V>(nodes: set<V>, lists: Neighbours<V>, order: map<V, int>, now: map<V, int>, edges: Edges<V>,
      was: map<V, int>, parent: V, child: V)
    requires Ordered(nodes, edges, was) && parent in nodes && child in nodes
    requires var more := edges + {(parent, child)};
             && WellFormed(nodes, lists, order) && Listed(nodes, lists, more)
             && forall n :: n in nodes ==> n in was && order[n] == if Reaches(more, child, n) then -1 else was[n]
    requires Settles(nodes, lists, order, now) && now.Keys == nodes && now[child] != -1
    ensures Ordered(nodes, edges + {(parent, child)}, now)
    ensures forall n :: n in nodes && !Reaches(edges + {(parent, child)}, child, n) ==> now[n] == was[n]
  {
    hide Settled, Reaches, Listed, OrderedAt;
    var more := edges + {(parent, child)};
    forall n | n in nodes ensures order[n] == -1 <==> Reaches(more, child, n) { OrderIsNatural(nodes, edges, was, n); }
    AllKnown(nodes, lists, order, now, more, child);
    forall n | n in nodes ensures now[n] >= 0 && (!Reaches(more, child, n) ==> now[n] == was[n]) {
      assert SettlesAt(lists, order, now, n);
      OrderIsNatural(nodes, edges, was, n);
      if Reaches(more, child, n) { SettledIsNatural(lists, now, n); }
    }
    forall n | n in nodes ensures OrderedAt(more, now, n) {
      assert SettlesAt(lists, order, now, n);
      if Reaches(more, child, n) {
        SettledIsOrdered(nodes, lists, more, now, n);
      } else {
        KeepsOrdered(nodes, edges, was, now, parent, child, n);
      }
    }
  }

  lemma OrderIsNatural<V>(nodes: set<V>, edges: Edges<V>, ord: map<V, int>, n: V)
    requires Ordered(nodes, edges, ord) && n in nodes
    ensures n in ord && ord[n] >= 0
  {
    assert OrderedAt(edges, ord, n);
  }

  lemma SettledIsNatural<V>(lists: Neighbours<V>, order: map<V, int>, n: V)
    requires Settled(lists, order, n)
    ensures order[n] >= 0
  {
  }

  lemma KeepsOrdered<V>(nodes: set<V>, edges: Edges<V>, was: map<V, int>, now: map<V, int>, parent: V, child: V, n: V)
    requires Ordered(nodes, edges, was) && n in nodes && now.Keys == nodes && child in nodes
    requires var more := edges + {(parent, child)};
             && !Reaches(more, child, n)
             && forall m :: m in nodes && !Reaches(more, child, m) ==> m in was && now[m] == was[m]
    ensures OrderedAt(edges + {(parent, child)}, now, n)
  {
    hide Reaches;
    var more := edges + {(parent, child)};
    ReachesSelf(more, child);
    assert OrderedAt(edges, was, n);
    OrderedAtEdges(edges, more, was, n);
    forall e | e in more && e.1 == n ensures e.0 in now && (e.0 in was ==> now[e.0] == was[e.0]) {
      assert e == (e.0, e.1);
      if Reaches(more, child, e.0) { ReachesStep(more, child, e.0, n); }
    }
    OrderedAtFrame(more, was, now, n);
  }
}
