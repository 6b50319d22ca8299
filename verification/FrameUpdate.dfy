/** One frame of the node graph: dirty nodes are updated parents first, starting from the visible
    nodes. What a node's Update() does is left open, except that through its output pins it dirties
    some of its children, each of which dirties its own children in turn. */
module FrameUpdate {
  import opened GraphOrder
  import opened Lists
  import opened Nodes
  import opened TraversalOrder
  import opened Graph = SeamGraph

  ghost function DirtyNodes(nodes: set<INode>): set<INode>
    reads nodes`dirty
  {
    set n | n in nodes && n.dirty
  }

  /** The visual nodes among the updated ones, in the order of their updates. */
  function Visuals(log: seq<INode>): seq<INode> {
    if log == [] then []
    else Visuals(log[..|log| - 1]) + if log[|log| - 1].isVisual then [log[|log| - 1]] else []
  }

  ghost predicate AncestorsFirst(edges: Edges<INode>, log: seq<INode>) {
    forall i, j :: 0 <= i < j < |log| ==> !Reaches(edges, log[j], log[i])
  }

  /** Some update in the log may have dirtied m. */
  ghost predicate Blamed(edges: Edges<INode>, log: seq<INode>, m: INode) {
    exists i :: 0 <= i < |log| && Reaches(edges, log[i], m)
  }

  /** Every update was of a node dirty from the start, or dirtied by an earlier update. */
  ghost predicate Justified(edges: Edges<INode>, start: set<INode>, log: seq<INode>) {
    forall i :: 0 <= i < |log| ==> log[i] in start || Blamed(edges, log[..i], log[i])
  }

  /** In the middle of the traversal: `start` are the nodes dirty at the start of the frame, `got` those
      that updates have dirtied, `got0` those of them dirtied before the traversal, `dirty` those dirty
      now, `done` those the traversal has finished with, `early` the updates before the traversal and
      `log` its own so far. */
  ghost predicate FrameOk(nodes: set<INode>, edges: Edges<INode>, start: set<INode>, got0: set<INode>, got: set<INode>,
                          early: seq<INode>, done: set<INode>, log: seq<INode>, dirty: set<INode>) {
    // finished nodes are clean, and so are all their ancestors
    && done <= nodes && (forall e :: e in edges && e.1 in done ==> e.0 in done)
    && done !! dirty
    // each updated once, after its ancestors, and for a reason
    && Distinct(log) && (forall m :: m in log ==> m in done) && AncestorsFirst(edges, log)
    && Justified(edges, start, early + log) && (forall m :: m in got ==> Blamed(edges, early + log, m))
    && got0 <= got && (forall m :: m in got && m !in got0 ==> Blamed(edges, log, m))
    // the updated nodes are those that were or got dirty, and the others among those are dirty still
    && (forall m :: m in done ==> (m in log <==> m in start || m in got))
    && (forall m :: m in nodes && m !in done ==> (m in dirty <==> m in start || m in got))
  }

  /** A node whose descendant is done is done. */
  lemma {:induction false} DoneAncestors(edges: Edges<INode>, done: set<INode>, a: INode, b: INode, k: nat)
    requires forall e :: e in edges && e.1 in done ==> e.0 in done
    requires b in done && Leads(edges, a, b, k)
    ensures a in done
    decreases k
  {
    if k > 0 {
      var e :| e in edges && e.1 == b && Leads(edges, a, e.0, k - 1);
      DoneAncestors(edges, done, a, e.0, k - 1);
    }
  }

  /** The traversal finishes with a clean node whose parents it has finished with. */
  lemma CleanStep(nodes: set<INode>, edges: Edges<INode>, start: set<INode>, got0: set<INode>, got: set<INode>,
                  early: seq<INode>, done: set<INode>, log: seq<INode>, dirty: set<INode>, n: INode)
    requires FrameOk(nodes, edges, start, got0, got, early, done, log, dirty) && n in nodes && n !in dirty
    requires forall e :: e in edges && e.1 == n ==> e.0 in done
    ensures FrameOk(nodes, edges, start, got0, got, early, done + {n}, log, dirty)
  {
  }

  /** The traversal updates a dirty node whose parents it has finished with. */
  lemma UpdateStep(nodes: set<INode>, edges: Edges<INode>, start: set<INode>, got0: set<INode>, got: set<INode>,
                   early: seq<INode>, done: set<INode>, log: seq<INode>, dirty: set<INode>,
                   n: INode, more: set<INode>)
    requires FrameOk(nodes, edges, start, got0, got, early, done, log, dirty) && n in nodes && n in dirty
      && dirty <= nodes
    requires forall e :: e in edges && e.1 == n ==> e.0 in done
    requires forall m :: m in more ==> m in nodes && m != n && Reaches(edges, n, m)
    ensures FrameOk(nodes, edges, start, got0, got + more, early, done + {n}, log + [n], dirty + more - {n})
  {
    hide Reaches, Blamed, Justified;
    var log', got' := log + [n], got + more;
    forall m | m in done ensures !Reaches(edges, n, m) {
      NotAbove(edges, done, n, m);
    }
    assert AncestorsFirst(edges, log');
    assert early + log' == early + log + [n];
    JustifiedMore(edges, start, early + log, n);
    forall m | m in got' ensures Blamed(edges, early + log', m) && (m !in got0 ==> Blamed(edges, log', m)) {
      if m in more { BlamedBy(edges, n, m); }
      BlamedMore(edges, early + log, [n], m);
      BlamedMore(edges, log, [n], m);
    }
  }

  lemma BlamedBy(edges: Edges<INode>, n: INode, m: INode)
    requires Reaches(edges, n, m)
    ensures Blamed(edges, [n], m)
  {
    assert [n][0] == n;
  }

  lemma BlamedMore(edges: Edges<INode>, log: seq<INode>, more: seq<INode>, m: INode)
    ensures Blamed(edges, log, m) || Blamed(edges, more, m) ==> Blamed(edges, log + more, m)
  {
    hide Reaches;
    if i :| 0 <= i < |log| && Reaches(edges, log[i], m) {
      assert (log + more)[i] == log[i];
    }
    if i :| 0 <= i < |more| && Reaches(edges, more[i], m) {
      assert (log + more)[|log| + i] == more[i];
    }
  }

  lemma JustifiedMore(edges: Edges<INode>, start: set<INode>, log: seq<INode>, n: INode)
    requires Justified(edges, start, log) && (n in start || Blamed(edges, log, n))
    ensures Justified(edges, start, log + [n])
  {
    hide Blamed;
    var log' := log + [n];
    forall i | 0 <= i < |log'| ensures log'[i] in start || Blamed(edges, log'[..i], log'[i]) {
      assert log'[..i] == log[..i];
      assert i == |log| ==> log[..i] == log;
    }
  }

  lemma NotAbove(edges: Edges<INode>, done: set<INode>, n: INode, m: INode)
    requires (forall e :: e in edges && e.1 in done ==> e.0 in done) && n !in done && m in done
    ensures !Reaches(edges, n, m)
  {
    if Reaches(edges, n, m) {
      var k: nat :| Leads(edges, n, m, k);
      DoneAncestors(edges, done, n, m, k);
      assert false;
    }
  }

  // ----- dirtying

  lemma OrderBound(nodes: set<INode>, edges: Edges<INode>, n: INode)
    requires Ordered(nodes, edges, Orders(nodes)) && n in nodes
    ensures 0 <= n.updateOrder < |nodes|
  {
    OrderBelowCount(nodes, edges, Orders(nodes), n);
  }

  lemma ChildAbove(nodes: set<INode>, edges: Edges<INode>, n: INode, i: nat)
    requires Mirrored(nodes, edges) && Ordered(nodes, edges, Orders(nodes)) && n in nodes && i < |n.children|
    ensures n.children[i].node in nodes && n.children[i].node.updateOrder > n.updateOrder
    ensures (n, n.children[i].node) in edges
  {
    ChildEdge(nodes, edges, n, i);
    assert OrderedAt(edges, Orders(nodes), n.children[i].node);
  }

  /** Dirties a node and its descendants, and nothing else. */
  method SetDirty(n: INode, ghost nodes: set<INode>, ghost edges: Edges<INode>)
    requires Mirrored(nodes, edges) && Ordered(nodes, edges, Orders(nodes)) && n in nodes
    modifies nodes`dirty
    ensures forall m :: m in nodes ==> (m.dirty <==> old(m.dirty) || Reaches(edges, n, m))
    decreases |nodes| - n.updateOrder
  {
    hide Mirrored, Reaches, Ordered;
    n.dirty := true;
    ReachesSelf(edges, n);
    OrderBound(nodes, edges, n);
    for i := 0 to |n.children|
      invariant n.dirty
      invariant forall m :: m in nodes && old(m.dirty) ==> m.dirty
      invariant forall m :: m in nodes && m.dirty ==> old(m.dirty) || Reaches(edges, n, m)
      invariant forall m, j :: m in nodes && 0 <= j < i && Reaches(edges, n.children[j].node, m) ==> m.dirty
    {
      ChildAbove(nodes, edges, n, i);
      var child := n.children[i].node;
      OrderBound(nodes, edges, child);
      EdgeReaches(edges, n, child);
      SetDirty(child, nodes, edges);
      forall m | m in nodes && Reaches(edges, child, m) ensures Reaches(edges, n, m) {
        ReachesTransitive(edges, n, child, m);
      }
    }
    forall m | m in nodes && Reaches(edges, n, m) ensures m.dirty {
      FirstStep(nodes, edges, n, m);
    }
  }

  /** A descendant is the node itself or reached through one of its children. */
  lemma FirstStep(nodes: set<INode>, edges: Edges<INode>, n: INode, m: INode)
    requires Mirrored(nodes, edges) && n in nodes && Reaches(edges, n, m)
    ensures m == n || exists j :: 0 <= j < |n.children| && Reaches(edges, n.children[j].node, m)
  {
    var k: nat :| Leads(edges, n, m, k);
    if m != n {
      var c := FirstChild(edges, n, m, k);
      var i, j := EdgeListed(nodes, edges, n, c);
    }
  }

  lemma {:induction false} FirstChild(edges: Edges<INode>, n: INode, m: INode, k: nat) returns (c: INode)
    requires Leads(edges, n, m, k) && m != n
    ensures (n, c) in edges && Reaches(edges, c, m)
    decreases k
  {
    var e :| e in edges && e.1 == m && Leads(edges, n, e.0, k - 1);
    assert e == (e.0, m);
    if e.0 == n {
      c := m;
      ReachesSelf(edges, m);
    } else {
      c := FirstChild(edges, n, e.0, k - 1);
      ReachesStep(edges, c, e.0, m);
    }
  }

  /** A call of a node's Update(), which pushes to whichever of its children it likes. Nothing else
      writes the record of the frame. */
  method UpdateNode(g: SeamGraph, n: INode, ghost nodes: set<INode>, ghost edges: Edges<INode>)
    requires Mirrored(nodes, edges) && Ordered(nodes, edges, Orders(nodes)) && n in nodes
    modifies g`updated, g`dirtied, nodes`dirty
    ensures g.updated == old(g.updated) + [n]
    ensures g.dirtied == old(g.dirtied) + (DirtyNodes(nodes) - old(DirtyNodes(nodes)))
    ensures old(DirtyNodes(nodes)) <= DirtyNodes(nodes)
    ensures forall m :: m in DirtyNodes(nodes) - old(DirtyNodes(nodes)) ==> m != n && Reaches(edges, n, m)
  {
    hide Mirrored, Reaches, Ordered;
    var pushes: seq<bool> := *;
    for i := 0 to |n.children|
      invariant g.updated == old(g.updated) && g.dirtied == old(g.dirtied)
      invariant forall m :: m in nodes && old(m.dirty) ==> m.dirty
      invariant forall m :: m in nodes && m.dirty && !old(m.dirty) ==> m != n && Reaches(edges, n, m)
    {
      if i < |pushes| && pushes[i] {
        ChildAbove(nodes, edges, n, i);
        var child := n.children[i].node;
        EdgeReaches(edges, n, child);
        SetDirty(child, nodes, edges);
        forall m | m in nodes && Reaches(edges, child, m) ensures m != n && Reaches(edges, n, m) {
          ReachesTransitive(edges, n, child, m);
          OrdersAlong(nodes, edges, child, m);
        }
      }
    }
    g.updated := g.updated + [n];
    g.dirtied := g.dirtied + (DirtyNodes(nodes) - old(DirtyNodes(nodes)));
  }

  lemma OrdersAlong(nodes: set<INode>, edges: Edges<INode>, a: INode, b: INode)
    requires Ordered(nodes, edges, Orders(nodes)) && a in nodes && Reaches(edges, a, b)
    ensures b in nodes && a.updateOrder <= b.updateOrder
  {
    var k: nat :| Leads(edges, a, b, k);
    OrderGrowsAlong(nodes, edges, Orders(nodes), a, b, k);
  }

  // ----- the traversal

  lemma ParentBelow(nodes: set<INode>, edges: Edges<INode>, n: INode, i: nat)
    requires Mirrored(nodes, edges) && Ordered(nodes, edges, Orders(nodes)) && n in nodes && i < |n.parents|
    ensures n.parents[i].node in nodes && 0 <= n.parents[i].node.updateOrder < n.updateOrder
    ensures (n.parents[i].node, n) in edges
  {
    ParentEdge(nodes, edges, n, i);
    OrderBound(nodes, edges, n.parents[i].node);
    assert OrderedAt(edges, Orders(nodes), n);
  }

  /** Updates the ancestors of a node and then the node, each if it is dirty. Every call walks its own
      list of parents. */
  method UpdateVisibleNodeGraph(g: SeamGraph, n: INode, ghost nodes: set<INode>, ghost edges: Edges<INode>,
                                ghost start: set<INode>, ghost got0: set<INode>, ghost early: seq<INode>,
                                ghost done: set<INode>, ghost log: seq<INode>)
    returns (ghost done': set<INode>, ghost log': seq<INode>)
    requires Mirrored(nodes, edges) && Ordered(nodes, edges, Orders(nodes)) && n in nodes
    requires g.updated == early + log && g.nodesToDraw == Visuals(log)
    requires FrameOk(nodes, edges, start, got0, g.dirtied, early, done, log, DirtyNodes(nodes))
    modifies g`nodesToDraw, g`updated, g`dirtied, nodes`dirty
    ensures g.updated == early + log' && g.nodesToDraw == Visuals(log')
    ensures FrameOk(nodes, edges, start, got0, g.dirtied, early, done', log', DirtyNodes(nodes))
    ensures n in done' && done <= done' && forall m :: m in done' && m !in done ==> Reaches(edges, m, n)
    decreases n.updateOrder
  {
    hide Mirrored, Reaches, Ordered, FrameOk, Visuals;
    done', log' := done, log;
    var inUseParents := n.parents;
    for i := 0 to |inUseParents|
      invariant g.updated == early + log' && g.nodesToDraw == Visuals(log')
      invariant FrameOk(nodes, edges, start, got0, g.dirtied, early, done', log', DirtyNodes(nodes))
      invariant done <= done' && forall m :: m in done' && m !in done ==> Reaches(edges, m, n)
      invariant forall j :: 0 <= j < i ==> inUseParents[j].node in done'
    {
      var p := inUseParents[i].node;
      ParentBelow(nodes, edges, n, i);
      ghost var before := done';
      done', log' := UpdateVisibleNodeGraph(g, p, nodes, edges, start, got0, early, done', log');
      forall m | m in done' && m !in before ensures Reaches(edges, m, n) {
        ReachesStep(edges, m, p, n);
      }
    }
    ParentsDone(nodes, edges, n, done');
    ReachesSelf(edges, n);
    ghost var dirty, got := DirtyNodes(nodes), g.dirtied;
    if n.dirty {
      UpdateNode(g, n, nodes, edges);
      ghost var more := DirtyNodes(nodes) - dirty;
      n.dirty := false;
      UpdateStep(nodes, edges, start, got0, got, early, done', log', dirty, n, more);
      assert DirtyNodes(nodes) == dirty + more - {n};
      if n.isVisual {
        g.nodesToDraw := g.nodesToDraw + [n];
      }
      VisualsAppend(log', n);
      assert early + log' + [n] == early + (log' + [n]);
      log' := log' + [n];
    } else {
      CleanStep(nodes, edges, start, got0, got, early, done', log', dirty, n);
    }
    done' := done' + {n};
  }

  lemma ParentsDone(nodes: set<INode>, edges: Edges<INode>, n: INode, done: set<INode>)
    requires Mirrored(nodes, edges) && n in nodes
    requires forall j :: 0 <= j < |n.parents| ==> n.parents[j].node in done
    ensures forall e :: e in edges && e.1 == n ==> e.0 in done
  {
    forall e | e in edges && e.1 == n ensures e.0 in done {
      assert e == (e.0, n);
      var i, j := EdgeListed(nodes, edges, e.0, n);
    }
  }

  lemma VisualsAppend(log: seq<INode>, n: INode)
    ensures Visuals(log + [n]) == Visuals(log) + if n.isVisual then [n] else []
  {
    assert (log + [n])[..|log|] == log;
  }

  /** m is visible or above a visible node. */
  ghost predicate AboveVisible(edges: Edges<INode>, visible: seq<INode>, m: INode) {
    exists v :: v in visible && Reaches(edges, m, v)
  }

  /** Everything a frame promises. `start` are the nodes dirty before it and those that update over
      time, `early` the updates of its first loops, `log` those of the traversal and `done` the nodes
      that are visible or above a visible node. */
  ghost predicate FrameDone(g: SeamGraph, edges: Edges<INode>, start: set<INode>,
                            early: seq<INode>, done: set<INode>, log: seq<INode>)
    reads g, g.All()`dirty
  {
    && done <= g.All() && (forall m :: m in g.All() ==> (m in done <==> AboveVisible(edges, g.visibleNodes, m)))
    && g.updated == early + log
    // the traversal updates exactly the nodes of `done` that were or got dirty, once and after their ancestors
    && Distinct(log) && (forall m :: m in log ==> m in done) && AncestorsFirst(edges, log)
    && (forall m :: m in done ==> (m in log <==> m in start || m in g.dirtied))
    // the first loops update nodes that update every frame, once, if they are dirty when their turn comes
    && EarlyInTurn(edges, start, g.dirtied, g.nodesUpdateEveryFrame, early, log)
    // no update is without a reason, and no node gets dirty without one
    && Justified(edges, start, early + log) && (forall m :: m in g.dirtied ==> Blamed(edges, early + log, m))
    && (forall m :: m in g.All() ==> (m.dirty <==> m !in done && (m in start || m in g.dirtied)))
    && g.nodesToDraw == Visuals(log) && Distinct(g.nodesToDraw)
  }

  /** How often a node is updated in a frame: a node the traversal updates is updated once, and once
      more exactly if the first loops have updated it already. */
  lemma UpdateCounts(g: SeamGraph, edges: Edges<INode>, start: set<INode>, early: seq<INode>, done: set<INode>,
      log: seq<INode>, m: INode)
    requires FrameDone(g, edges, start, early, done, log)
    ensures multiset(early + log)[m] == (if m in early then 1 else 0) + (if m in log then 1 else 0)
    ensures m in done ==> (multiset(early + log)[m] == 1 <==> m in log && m !in early)
    ensures m in done && m in early ==> multiset(early + log)[m] == 2
  {
    CountInDistinct(early, m);
    CountInDistinct(log, m);
  }

  lemma {:induction false} CountInDistinct(s: seq<INode>, m: INode)
    requires Distinct(s)
    ensures multiset(s)[m] == if m in s then 1 else 0
  {
    if s != [] {
      assert s == [s[0]] + s[1..] && s[0] !in s[1..];
      CountInDistinct(s[1..], m);
    }
  }

  lemma {:induction false} VisualsDistinct(log: seq<INode>)
    requires Distinct(log)
    ensures Distinct(Visuals(log)) && forall n :: n in Visuals(log) <==> n in log && n.isVisual
  {
    if log != [] {
      var rest, last := log[..|log| - 1], log[|log| - 1];
      assert log == rest + [last] && last !in rest;
      VisualsDistinct(rest);
    }
  }

  /** The start of the traversal. */
  lemma FrameStart(nodes: set<INode>, edges: Edges<INode>, start: set<INode>, got: set<INode>, seen: seq<INode>,
                   early: seq<INode>, dirty: set<INode>)
    requires EarlyOk(edges, start, got, seen, early) && dirty == start + got
    ensures FrameOk(nodes, edges, start, got, got, early, {}, [], dirty)
  {
    assert early + [] == early;
  }

  /** Early updates are of listed nodes, each once. A dirty node of the list is left out only if it got
      dirty after its turn: by the early update of a node further down the list, or in the traversal. */
  ghost predicate EarlyInTurn(edges: Edges<INode>, start: set<INode>, got: set<INode>, list: seq<INode>,
                              early: seq<INode>, log: seq<INode>) {
    && Distinct(early) && (forall m :: m in early ==> m in list && (m in start || m in got))
    && (forall i {:trigger MissedTurn(edges, list, early, log, i)} ::
          0 <= i < |list| && (list[i] in start || list[i] in got) && list[i] !in early ==>
            MissedTurn(edges, list, early, log, i))
    && (forall m :: m in list && m in start ==> m in early)
  }

  ghost predicate MissedTurn(edges: Edges<INode>, list: seq<INode>, early: seq<INode>, log: seq<INode>, i: nat)
    requires i < |list|
  {
    || (exists j :: i < j < |list| && list[j] in early && Reaches(edges, list[j], list[i]))
    || Blamed(edges, log, list[i])
  }

  /** What holds in the second loop of Update, with the updates so far in `early`. */
  ghost predicate EarlyOk(edges: Edges<INode>, start: set<INode>, got: set<INode>, seen: seq<INode>,
      early: seq<INode>) {
    && EarlyInTurn(edges, start, got, seen, early, [])
    && Justified(edges, start, early) && (forall m :: m in got ==> Blamed(edges, early, m))
  }

  lemma MissedStill(edges: Edges<INode>, list: seq<INode>, early: seq<INode>, n: INode, early': seq<INode>, i: nat)
    requires i < |list| && MissedTurn(edges, list, early, [], i) && forall m :: m in early ==> m in early'
    ensures MissedTurn(edges, list + [n], early', [], i)
  {
    hide Reaches;
    assert (list + [n])[i] == list[i];
    var j :| i < j < |list| && list[j] in early && Reaches(edges, list[j], list[i]);
    assert (list + [n])[j] == list[j];
  }

  lemma EarlyStep(edges: Edges<INode>, start: set<INode>, got: set<INode>, seen: seq<INode>, early: seq<INode>,
                  n: INode, more: set<INode>)
    requires EarlyOk(edges, start, got, seen, early) && n in start + got && n !in seen
    requires forall m :: m in more ==> Reaches(edges, n, m)
    ensures EarlyOk(edges, start, got + more, seen + [n], early + [n])
  {
    hide Reaches, Blamed, Justified, MissedTurn;
    var seen', early' := seen + [n], early + [n];
    JustifiedMore(edges, start, early, n);
    forall m | m in got + more ensures Blamed(edges, early', m) {
      BlamedMore(edges, early, [n], m);
      if m in more { BlamedBy(edges, n, m); }
    }
    forall i | 0 <= i < |seen'| && (seen'[i] in start || seen'[i] in got + more) && seen'[i] !in early'
      ensures MissedTurn(edges, seen', early', [], i)
    {
      assert i < |seen| && seen'[i] == seen[i];
      if seen[i] in start + got {
        MissedStill(edges, seen, early, n, early', i);
      } else {
        MissedNow(edges, seen, early, n, i);
      }
    }
  }

  lemma MissedNow(edges: Edges<INode>, seen: seq<INode>, early: seq<INode>, n: INode, i: nat)
    requires i < |seen| && Reaches(edges, n, seen[i])
    ensures MissedTurn(edges, seen + [n], early + [n], [], i)
  {
    hide Reaches;
    assert (seen + [n])[|seen|] == n && (seen + [n])[i] == seen[i];
  }

  lemma EarlySkip(edges: Edges<INode>, start: set<INode>, got: set<INode>, seen: seq<INode>, early: seq<INode>,
      n: INode)
    requires EarlyOk(edges, start, got, seen, early) && n !in start + got
    ensures EarlyOk(edges, start, got, seen + [n], early)
  {
    hide MissedTurn;
    var seen' := seen + [n];
    forall i | 0 <= i < |seen'| && (seen'[i] in start || seen'[i] in got) && seen'[i] !in early
      ensures MissedTurn(edges, seen', early, [], i)
    {
      assert i < |seen| && seen'[i] == seen[i];
      MissedStill(edges, seen, early, n, early, i);
    }
  }

  /** Nodes that the traversal dirties got dirty after their turn. */
  lemma EarlyKept(edges: Edges<INode>, start: set<INode>, got0: set<INode>, got: set<INode>, list: seq<INode>,
                  early: seq<INode>, log: seq<INode>)
    requires EarlyInTurn(edges, start, got0, list, early, []) && got0 <= got
    requires forall m :: m in got && m !in got0 ==> Blamed(edges, log, m)
    ensures EarlyInTurn(edges, start, got, list, early, log)
  {
    hide Reaches;
    forall i | 0 <= i < |list| && (list[i] in start || list[i] in got) && list[i] !in early
      ensures MissedTurn(edges, list, early, log, i)
    {
      if list[i] in start || list[i] in got0 {
        assert MissedTurn(edges, list, early, [], i);
      }
    }
  }

  /** The first two loops of Update: nodes that update over time are dirtied, nodes that update every
      frame are updated if dirty, and stay dirty. */
  method UpdateEarly(g: SeamGraph, ghost nodes: set<INode>, ghost edges: Edges<INode>, ghost start: set<INode>)
    returns (ghost early: seq<INode>)
    requires Mirrored(nodes, edges) && Ordered(nodes, edges, Orders(nodes))
    requires forall n :: n in g.nodesUpdateOverTime + g.nodesUpdateEveryFrame ==> n in nodes
    requires Distinct(g.nodesUpdateEveryFrame) && g.updated == [] && g.dirtied == {}
    requires start == DirtyNodes(nodes) + g.Members(g.nodesUpdateOverTime)
    modifies g`updated, g`dirtied, nodes`dirty
    ensures g.updated == early && DirtyNodes(nodes) == start + g.dirtied
    ensures EarlyOk(edges, start, g.dirtied, g.nodesUpdateEveryFrame, early)
  {
    hide Mirrored, Reaches, Ordered, Distinct, EarlyOk;
    early := [];
    ghost var over, list := g.nodesUpdateOverTime, g.nodesUpdateEveryFrame;
    for i := 0 to |g.nodesUpdateOverTime|
      invariant g.updated == [] && g.dirtied == {}
      invariant forall m :: m in nodes ==> (m.dirty <==> old(m.dirty) || m in over[..i])
    {
      assert over[..i + 1] == over[..i] + [over[i]];
      g.nodesUpdateOverTime[i].dirty := true;
    }
    assert over[..|over|] == over;
    EarlyStart(edges, start);
    for i := 0 to |g.nodesUpdateEveryFrame|
      invariant g.updated == early && DirtyNodes(nodes) == start + g.dirtied
      invariant EarlyOk(edges, start, g.dirtied, list[..i], early)
    {
      var n := g.nodesUpdateEveryFrame[i];
      NewIn(list, i);
      ghost var dirty, got := DirtyNodes(nodes), g.dirtied;
      if n.dirty {
        UpdateNode(g, n, nodes, edges);
        EarlyStep(edges, start, got, list[..i], early, n, DirtyNodes(nodes) - dirty);
        early := early + [n];
      } else {
        EarlySkip(edges, start, got, list[..i], early, n);
      }
    }
    assert list[..|list|] == list;
  }

  lemma EarlyStart(edges: Edges<INode>, start: set<INode>)
    ensures EarlyOk(edges, start, {}, [], [])
  {
  }

  lemma NewIn(list: seq<INode>, i: nat)
    requires Distinct(list) && i < |list|
    ensures list[i] !in list[..i] && list[..i + 1] == list[..i] + [list[i]]
  {
  }

  ghost predicate AllIn(list: seq<INode>, s: set<INode>) {
    forall n :: n in list ==> n in s
  }

  lemma FrameEnd(g: SeamGraph, nodes: set<INode>, edges: Edges<INode>, start: set<INode>, got0: set<INode>,
                 early: seq<INode>, done: set<INode>, log: seq<INode>)
    requires nodes == g.All() && g.updated == early + log && g.nodesToDraw == Visuals(log)
    requires FrameOk(nodes, edges, start, got0, g.dirtied, early, done, log, DirtyNodes(nodes))
    requires EarlyOk(edges, start, got0, g.nodesUpdateEveryFrame, early)
    requires AllIn(g.visibleNodes, done)
    requires forall m :: m in done ==> AboveVisible(edges, g.visibleNodes, m)
    ensures FrameDone(g, edges, start, early, done, log) && g.ListIn(g.nodesToDraw, g.nodes)
  {
    hide Reaches, Visuals, Blamed, Justified, EarlyInTurn;
    VisualsDistinct(log);
    EarlyKept(edges, start, got0, g.dirtied, g.nodesUpdateEveryFrame, early, log);
    forall m | m in g.All() && AboveVisible(edges, g.visibleNodes, m) ensures m in done {
      var v :| v in g.visibleNodes && Reaches(edges, m, v);
      AboveDone(edges, done, m, v);
    }
    forall m | m in g.All() ensures m.dirty <==> m !in done && (m in start || m in g.dirtied) {
      assert m in DirtyNodes(nodes) <==> m.dirty;
    }
  }

  lemma AboveDone(edges: Edges<INode>, done: set<INode>, m: INode, v: INode)
    requires (forall e :: e in edges && e.1 in done ==> e.0 in done) && v in done && Reaches(edges, m, v)
    ensures m in done
  {
    var k: nat :| Leads(edges, m, v, k);
    DoneAncestors(edges, done, m, v, k);
  }

  lemma AllAboveVisible(edges: Edges<INode>, visible: seq<INode>, before: set<INode>, done: set<INode>, i: nat)
    requires i < |visible| && forall m :: m in before ==> AboveVisible(edges, visible, m)
    requires forall m :: m in done && m !in before ==> Reaches(edges, m, visible[i])
    ensures forall m :: m in done ==> AboveVisible(edges, visible, m)
  {
    assert visible[i] in visible;
  }

  lemma OneMoreIn(list: seq<INode>, i: nat, before: set<INode>, after: set<INode>)
    requires i < |list| && AllIn(list[..i], before) && before <= after && list[i] in after
    ensures AllIn(list[..i + 1], after)
  {
    assert list[..i + 1] == list[..i] + [list[i]];
  }

  /** The loop over the visible nodes. */
  method UpdateVisible(g: SeamGraph, visible: seq<INode>, ghost nodes: set<INode>, ghost edges: Edges<INode>,
                       ghost start: set<INode>, ghost got0: set<INode>, ghost early: seq<INode>)
    returns (ghost done: set<INode>, ghost log: seq<INode>)
    requires Mirrored(nodes, edges) && Ordered(nodes, edges, Orders(nodes))
    requires g.nodesToDraw == [] && forall j :: 0 <= j < |visible| ==> visible[j] in nodes
    requires g.updated == early && FrameOk(nodes, edges, start, got0, g.dirtied, early, {}, [], DirtyNodes(nodes))
    modifies g`nodesToDraw, g`updated, g`dirtied, nodes`dirty
    ensures g.updated == early + log && g.nodesToDraw == Visuals(log)
    ensures FrameOk(nodes, edges, start, got0, g.dirtied, early, done, log, DirtyNodes(nodes))
    ensures AllIn(visible, done)
    ensures forall m :: m in done ==> AboveVisible(edges, visible, m)
  {
    assert Visuals([]) == [] && AllIn(visible[..0], {}) && early + [] == early;
    hide Mirrored, Reaches, Ordered, FrameOk, Visuals, AboveVisible, AllIn;
    done, log := {}, [];
    for i := 0 to |visible|
      invariant g.updated == early + log && g.nodesToDraw == Visuals(log)
      invariant FrameOk(nodes, edges, start, got0, g.dirtied, early, done, log, DirtyNodes(nodes))
      invariant AllIn(visible[..i], done)
      invariant forall m :: m in done ==> AboveVisible(edges, visible, m)
    {
      ghost var before := done;
      done, log := UpdateVisibleNodeGraph(g, visible[i], nodes, edges, start, got0, early, done, log);
      AllAboveVisible(edges, visible, before, done, i);
      OneMoreIn(visible, i, before, done);
    }
    assert visible[..|visible|] == visible;
  }

  /** The loops of one frame, on a record that starts empty. */
  method UpdateNodes(g: SeamGraph, ghost nodes: set<INode>, ghost edges: Edges<INode>, ghost start: set<INode>)
    returns (ghost early: seq<INode>, ghost done: set<INode>, ghost log: seq<INode>)
    requires nodes == g.All() && Mirrored(nodes, edges) && Ordered(nodes, edges, Orders(nodes))
    requires forall n :: n in g.visibleNodes + g.nodesUpdateOverTime + g.nodesUpdateEveryFrame ==> n in nodes
    requires Distinct(g.nodesUpdateEveryFrame) && start == DirtyNodes(nodes) + g.Members(g.nodesUpdateOverTime)
    modifies g`nodesToDraw, g`updated, g`dirtied, nodes`dirty
    ensures FrameDone(g, edges, start, early, done, log) && g.ListIn(g.nodesToDraw, g.nodes)
  {
    hide Mirrored, Reaches, Ordered, FrameOk, FrameDone, EarlyOk, Visuals, Distinct, g.ListIn;
    g.nodesToDraw, g.updated, g.dirtied := [], [], {};
    early := UpdateEarly(g, nodes, edges, start);
    FrameStart(nodes, edges, start, g.dirtied, g.nodesUpdateEveryFrame, early, DirtyNodes(nodes));
    ghost var got0 := g.dirtied;
    done, log := UpdateVisible(g, g.visibleNodes, nodes, edges, start, got0, early);
    FrameEnd(g, nodes, edges, start, got0, early, done, log);
  }

  /** One frame, and the record of its updates: those of the first loops, then those of the traversal. */
  method Update(g: SeamGraph) returns (ghost early: seq<INode>, ghost done: set<INode>, ghost log: seq<INode>)
    requires g.Valid()
    modifies g`nodesToDraw, g`updated, g`dirtied, g.All()`dirty
    ensures g.Valid()
    ensures FrameDone(g, g.EdgeSet(), old(DirtyNodes(g.All()) + g.Members(g.nodesUpdateOverTime)), early, done, log)
  {
    hide Mirrored, Reaches, Ordered, FrameDone, Distinct, g.OwnersIn, g.EndsIn, g.CountsFor, g.ListIn;
    ghost var nodes, edges, start := g.All(), g.EdgeSet(), DirtyNodes(g.All()) + g.Members(g.nodesUpdateOverTime);
    g.ListsMirrorEdges();
    g.ListsInside();
    early, done, log := UpdateNodes(g, nodes, edges, start);
    assert g.OwnersOk() && g.EndsOk() && g.CountsOk() && g.OrdersOk();
  }
}
