/** Directed graphs given by their set of edges, and the numbering of nodes that update_order is
    meant to be: each node one above its highest parent. */
module GraphOrder {

  /** An edge leads from a parent to a child. */
  type Edges<V(==)> = set<(V, V)>

  // ----- paths

  /** A path of k edges leads from a to b. */
  ghost predicate Leads<V>(edges: Edges<V>, a: V, b: V, k: nat)
    decreases k
  {
    if k == 0 then a == b else exists e :: e in edges && e.1 == b && Leads(edges, a, e.0, k - 1)
  }

  /** b is a or one of its descendants. */
  ghost predicate Reaches<V>(edges: Edges<V>, a: V, b: V) {
    exists k: nat :: Leads(edges, a, b, k)
  }

  /** A path of k edges ends at n. */
  ghost predicate EndsPath<V>(edges: Edges<V>, n: V, k: nat)
    decreases k
  {
    k == 0 || exists e :: e in edges && e.1 == n && EndsPath(edges, e.0, k - 1)
  }

  ghost predicate Acyclic<V>(edges: Edges<V>) {
    forall e :: e in edges ==> !Reaches(edges, e.1, e.0)
  }

  lemma ReachesSelf<V>(edges: Edges<V>, a: V)
    ensures Reaches(edges, a, a)
  {
    assert Leads(edges, a, a, 0);
  }

  lemma ReachesStep<V>(edges: Edges<V>, a: V, b: V, c: V)
    requires Reaches(edges, a, b) && (b, c) in edges
    ensures Reaches(edges, a, c)
  {
    var k: nat :| Leads(edges, a, b, k);
    var e := (b, c);
    assert e in edges && e.1 == c && Leads(edges, a, e.0, k);
    assert Leads(edges, a, c, k + 1);
  }

  lemma EdgeReaches<V>(edges: Edges<V>, a: V, b: V)
    requires (a, b) in edges
    ensures Reaches(edges, a, b)
  {
    ReachesSelf(edges, a);
    ReachesStep(edges, a, a, b);
  }

  lemma {:induction false} LeadsOn<V>(edges: Edges<V>, a: V, b: V, c: V, k: nat)
    requires Reaches(edges, a, b) && Leads(edges, b, c, k)
    ensures Reaches(edges, a, c)
    decreases k
  {
    if k > 0 {
      var e :| e in edges && e.1 == c && Leads(edges, b, e.0, k - 1);
      LeadsOn(edges, a, b, e.0, k - 1);
      assert e == (e.0, c);
      ReachesStep(edges, a, e.0, c);
    }
  }

  lemma ReachesTransitive<V>(edges: Edges<V>, a: V, b: V, c: V)
    requires Reaches(edges, a, b) && Reaches(edges, b, c)
    ensures Reaches(edges, a, c)
  {
    var k: nat :| Leads(edges, b, c, k);
    LeadsOn(edges, a, b, c, k);
  }

  /** A set that is closed under children contains the descendants of its members. */
  lemma {:induction false} ClosedContains<V>(edges: Edges<V>, s: set<V>, a: V, b: V, k: nat)
    requires forall e :: e in edges && e.0 in s ==> e.1 in s
    requires a in s && Leads(edges, a, b, k)
    ensures b in s
    decreases k
  {
    if k > 0 {
      var e :| e in edges && e.1 == b && Leads(edges, a, e.0, k - 1);
      ClosedContains(edges, s, a, e.0, k - 1);
    }
  }

  /** What is marked below a node by a search that stops at marked nodes: exactly its descendants. */
  lemma MarkedIsDescendants<V>(edges: Edges<V>, s: set<V>, n: V)
    requires n in s && (forall e :: e in edges && e.0 in s ==> e.1 in s)
    requires forall m :: m in s ==> Reaches(edges, n, m)
    ensures forall m :: m in s <==> Reaches(edges, n, m)
  {
    forall m | Reaches(edges, n, m) ensures m in s {
      var k: nat :| Leads(edges, n, m, k);
      ClosedContains(edges, s, n, m, k);
    }
  }

  // ----- the order

  /** The equation of update_order at one node: zero without parents, else one above the highest. */
  ghost predicate OrderedAt<V>(edges: Edges<V>, ord: map<V, int>, n: V) {
    && n in ord && ord[n] >= 0
    && (forall e :: e in edges && e.1 == n ==> e.0 in ord && ord[e.0] < ord[n])
    && (ord[n] > 0 ==> exists e :: e in edges && e.1 == n && e.0 in ord && ord[e.0] + 1 == ord[n])
  }

  ghost predicate Ordered<V>(nodes: set<V>, edges: Edges<V>, ord: map<V, int>) {
    && (forall e :: e in edges ==> e.0 in nodes && e.1 in nodes)
    && (forall n {:trigger OrderedAt(edges, ord, n)} :: n in nodes ==> OrderedAt(edges, ord, n))
  }

  /** The equation at a node is about the node and its parents only. */
  lemma OrderedAtFrame<V>(edges: Edges<V>, was: map<V, int>, ord: map<V, int>, n: V)
    requires OrderedAt(edges, was, n) && n in ord && ord[n] == was[n]
    requires forall e :: e in edges && e.1 == n ==> e.0 in ord && (e.0 in was ==> ord[e.0] == was[e.0])
    ensures OrderedAt(edges, ord, n)
  {
    if was[n] > 0 {
      var e :| e in edges && e.1 == n && e.0 in was && was[e.0] + 1 == was[n];
      assert e in edges && e.1 == n && e.0 in ord && ord[e.0] + 1 == ord[n];
    }
  }

  lemma OrderedAtEdges<V>(edges: Edges<V>, edges': Edges<V>, ord: map<V, int>, n: V)
    requires OrderedAt(edges, ord, n)
    requires forall e :: e in edges + edges' && e.1 == n ==> e in edges && e in edges'
    ensures OrderedAt(edges', ord, n)
  {
  }

  /** The longest path ending at n has k edges. */
  ghost predicate LongestPathEndsAt<V>(edges: Edges<V>, n: V, k: int) {
    k >= 0 && EndsPath(edges, n, k) && forall j: nat :: EndsPath(edges, n, j) ==> j <= k
  }

  /** Numbers that satisfy the equation everywhere are the lengths of the longest paths. */
  lemma OrderIsLongestPath<V>(nodes: set<V>, edges: Edges<V>, ord: map<V, int>, n: V)
    requires Ordered(nodes, edges, ord) && n in nodes
    ensures n in ord && LongestPathEndsAt(edges, n, ord[n])
  {
    OrderIsAttained(nodes, edges, ord, n);
    forall j: nat | EndsPath(edges, n, j) ensures j <= ord[n] {
      OrderBoundsPaths(nodes, edges, ord, n, j);
    }
  }

  lemma {:induction false} OrderIsAttained<V>(nodes: set<V>, edges: Edges<V>, ord: map<V, int>, n: V)
    requires Ordered(nodes, edges, ord) && n in nodes
    ensures n in ord && ord[n] >= 0 && EndsPath(edges, n, ord[n])
    decreases if n in ord then ord[n] else 0
  {
    assert OrderedAt(edges, ord, n);
    if ord[n] > 0 {
      var e :| e in edges && e.1 == n && e.0 in ord && ord[e.0] + 1 == ord[n];
      OrderIsAttained(nodes, edges, ord, e.0);
    }
  }

  lemma {:induction false} OrderBoundsPaths<V>(nodes: set<V>, edges: Edges<V>, ord: map<V, int>, n: V, k: nat)
    requires Ordered(nodes, edges, ord) && n in nodes && EndsPath(edges, n, k)
    ensures n in ord && k <= ord[n]
    decreases k
  {
    assert OrderedAt(edges, ord, n);
    if k > 0 {
      var e :| e in edges && e.1 == n && EndsPath(edges, e.0, k - 1);
      OrderBoundsPaths(nodes, edges, ord, e.0, k - 1);
    }
  }

  /** A node's number is below the number of nodes numbered so far, so an int16_t holds it. */
  lemma OrderBelowCount<V>(nodes: set<V>, edges: Edges<V>, ord: map<V, int>, n: V)
    requires n in nodes && (forall m {:trigger OrderedAt(edges, ord, m)} :: m in nodes ==> OrderedAt(edges, ord, m))
    requires forall e :: e in edges && e.1 in nodes ==> e.0 in nodes
    ensures n in ord && 0 <= ord[n] < |nodes|
  {
    assert OrderedAt(edges, ord, n);
    var chain := ChainBelow(nodes, edges, ord, n);
    SubsetCardinality(chain, nodes);
  }

  /** One node for each number up to that of n. */
  lemma {:induction false} ChainBelow<V>(nodes: set<V>, edges: Edges<V>, ord: map<V, int>, n: V) returns (chain: set<V>)
    requires n in nodes && (forall m {:trigger OrderedAt(edges, ord, m)} :: m in nodes ==> OrderedAt(edges, ord, m))
    requires forall e :: e in edges && e.1 in nodes ==> e.0 in nodes
    ensures n in ord && chain <= nodes && |chain| == ord[n] + 1
    ensures forall m :: m in chain ==> m in ord && ord[m] <= ord[n]
    decreases if n in ord then ord[n] else 0
  {
    assert OrderedAt(edges, ord, n);
    if ord[n] == 0 {
      chain := {n};
    } else {
      var e :| e in edges && e.1 == n && e.0 in ord && ord[e.0] + 1 == ord[n];
      assert e.0 in nodes;
      chain := ChainBelow(nodes, edges, ord, e.0);
      assert n !in chain;
      chain := chain + {n};
    }
  }

  lemma {:induction false} SubsetCardinality<V>(a: set<V>, b: set<V>)
    requires a <= b
    ensures |a| <= |b|
  {
    assert b == a + (b - a);
  }

  // ----- which edges may be added

  lemma {:induction false} OrderGrowsAlong<V>(nodes: set<V>, edges: Edges<V>, ord: map<V, int>, a: V, b: V, k: nat)
    requires Ordered(nodes, edges, ord) && a in nodes && Leads(edges, a, b, k)
    ensures b in nodes && a in ord && b in ord && ord[a] + k <= ord[b]
    decreases k
  {
    assert OrderedAt(edges, ord, a);
    if k > 0 {
      var e :| e in edges && e.1 == b && Leads(edges, a, e.0, k - 1);
      OrderGrowsAlong(nodes, edges, ord, a, e.0, k - 1);
      assert OrderedAt(edges, ord, b);
    }
  }

  /** A numbering exists on acyclic graphs only. */
  lemma OrderedIsAcyclic<V>(nodes: set<V>, edges: Edges<V>, ord: map<V, int>)
    requires Ordered(nodes, edges, ord)
    ensures Acyclic(edges)
  {
    forall e | e in edges ensures !Reaches(edges, e.1, e.0) {
      if Reaches(edges, e.1, e.0) {
        var k: nat :| Leads(edges, e.1, e.0, k);
        assert OrderedAt(edges, ord, e.1);
        OrderGrowsAlong(nodes, edges, ord, e.1, e.0, k);
        assert false;
      }
    }
  }

  /** A ranking that grows along every edge. */
  ghost predicate Ranks<V>(edges: Edges<V>, rank: map<V, nat>) {
    forall e :: e in edges ==> e.0 in rank && e.1 in rank && rank[e.0] < rank[e.1]
  }

  ghost function Descendants<V>(nodes: set<V>, edges: Edges<V>, a: V): set<V> {
    set n | n in nodes && Reaches(edges, a, n)
  }

  /** When the child does not reach the parent, the graph with the new edge can still be ranked. */
  ghost function RankWith<V>(nodes: set<V>, edges: Edges<V>, ord: map<V, int>, parent: V, child: V): (rank: map<V, nat>)
    requires Ordered(nodes, edges, ord) && parent in nodes && child in nodes
    requires !Reaches(edges, child, parent)
    ensures rank.Keys == nodes && Ranks(edges + {(parent, child)}, rank)
  {
    var below := Descendants(nodes, edges, child);
    assert forall n :: n in nodes ==> n in ord && ord[n] >= 0 by {
      forall n | n in nodes ensures n in ord && ord[n] >= 0 { assert OrderedAt(edges, ord, n); }
    }
    ReachesSelf(edges, child);
    var rank: map<V, nat> := map n | n in nodes :: if n in below then ord[n] + ord[parent] + 1 else ord[n];
    assert forall e :: e in edges && e.0 in below ==> e.1 in below by {
      forall e | e in edges && e.0 in below ensures e.1 in below {
        assert e == (e.0, e.1);
        ReachesStep(edges, child, e.0, e.1);
      }
    }
    assert forall e :: e in edges ==> e.0 in ord && e.1 in ord && ord[e.0] < ord[e.1] by {
      forall e | e in edges
          ensures e.0 in ord && e.1 in ord && ord[e.0] < ord[e.1] { assert OrderedAt(edges, ord, e.1); }
    }
    rank
  }

  /** Exactly the edges whose child does not reach the parent leave a graph that can be numbered. */
  lemma NewEdgeAllowedIff<V>(nodes: set<V>, edges: Edges<V>, ord: map<V, int>, parent: V, child: V)
    requires Ordered(nodes, edges, ord) && parent in nodes && child in nodes
    ensures !Reaches(edges, child, parent)
            <==> exists rank: map<V, nat> :: Ranks(edges + {(parent, child)}, rank)
  {
    var more := edges + {(parent, child)};
    if !Reaches(edges, child, parent) {
      var rank := RankWith(nodes, edges, ord, parent, child);
      assert Ranks(more, rank);
    } else if rank: map<V, nat> :| Ranks(more, rank) {
      var k: nat :| Leads(edges, child, parent, k);
      assert (parent, child) in more;
      RankGrowsAlong(edges, more, rank, child, parent, k);
      assert false;
    }
  }

  lemma {:induction false} RankGrowsAlong<V>(edges: Edges<V>, more: Edges<V>, rank: map<V, nat>, a: V, b: V, k: nat)
    requires edges <= more && Ranks(more, rank) && Leads(edges, a, b, k) && a in rank
    ensures b in rank && rank[a] + k <= rank[b]
    decreases k
  {
    if k > 0 {
      var e :| e in edges && e.1 == b && Leads(edges, a, e.0, k - 1);
      RankGrowsAlong(edges, more, rank, a, e.0, k - 1);
    }
  }
}
