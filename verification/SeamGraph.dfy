/** The node graph: connecting and disconnecting pins, deleting nodes. The pins' own links are the
    ground truth; the parent and child lists count them and the update orders follow from them. */
module SeamGraph {
  import opened GraphOrder
  import opened Lists
  import opened Nodes
  import opened TraversalOrder

  /** Where every input pin is connected to. */
  type Wiring = map<PinInput, PinOutput?>

  /** The input pins of b that are connected to a. */
  ghost function Between(w: Wiring, a: INode, b: INode): set<PinInput> {
    set q | q in w && q.node == b && w[q] != null && w[q].node == a
  }

  ghost function EdgesOf(w: Wiring): Edges<INode> {
    set q | q in w && w[q] != null :: (w[q].node, q.node)
  }

  lemma EdgeIffBetween(w: Wiring, a: INode, b: INode)
    ensures (a, b) in EdgesOf(w) <==> Between(w, a, b) != {}
  {
    if Between(w, a, b) != {} {
      var q :| q in Between(w, a, b);
      assert (w[q].node, q.node) == (a, b);
    }
    if (a, b) in EdgesOf(w) {
      var q :| q in w && w[q] != null && (w[q].node, q.node) == (a, b);
      assert q in Between(w, a, b);
    }
  }

  /** Connecting a free pin adds it to one pair of nodes. */
  lemma WiredBetween(w: Wiring, q: PinInput, o: PinOutput, a: INode, b: INode)
    requires q in w && w[q] == null
    ensures Between(w[q := o], a, b) == Between(w, a, b) + if a == o.node && b == q.node then {q} else {}
    ensures q !in Between(w, a, b)
  {
  }

  lemma WiredEdges(w: Wiring, q: PinInput, o: PinOutput)
    requires q in w && w[q] == null
    ensures EdgesOf(w[q := o]) == EdgesOf(w) + {(o.node, q.node)}
  {
    var w' := w[q := o];
    forall e | e in EdgesOf(w') ensures e in EdgesOf(w) + {(o.node, q.node)} {
      var p :| p in w' && w'[p] != null && e == (w'[p].node, p.node);
      if p != q { assert w[p] == w'[p]; }
    }
    forall e | e in EdgesOf(w) ensures e in EdgesOf(w') {
      var p :| p in w && w[p] != null && e == (w[p].node, p.node);
      assert w'[p] == w[p];
    }
    assert w'[q] == o;
  }

  /** Disconnecting a pin takes it from one pair of nodes. */
  lemma UnwiredBetween(w: Wiring, q: PinInput, o: PinOutput, a: INode, b: INode)
    requires q in w && w[q] == o
    ensures Between(w[q := null], a, b) == Between(w, a, b) - {q}
    ensures q in Between(w, a, b) <==> a == o.node && b == q.node
  {
  }

  lemma UnwiredEdges(w: Wiring, q: PinInput, o: PinOutput)
    requires q in w && w[q] == o
    ensures EdgesOf(w[q := null]) <= EdgesOf(w) <= EdgesOf(w[q := null]) + {(o.node, q.node)}
    ensures (o.node, q.node) in EdgesOf(w)
  {
    var w' := w[q := null];
    forall e | e in EdgesOf(w') ensures e in EdgesOf(w) {
      var p :| p in w' && w'[p] != null && e == (w'[p].node, p.node);
      assert w[p] == w'[p];
    }
    forall e | e in EdgesOf(w) ensures e in EdgesOf(w') + {(o.node, q.node)} {
      var p :| p in w && w[p] != null && e == (w[p].node, p.node);
      if p != q { assert w'[p] == w[p]; }
    }
  }

  /** Unconnected pins do not count. */
  lemma UnusedBetween(w: Wiring, w': Wiring, node: INode, a: INode, b: INode)
    requires forall q :: q in w' <==> q in w && q.node != node
    requires forall q :: q in w' ==> w'[q] == w[q]
    requires b != node
    ensures Between(w', a, b) == Between(w, a, b)
  {
  }

  lemma UnusedPins(w: Wiring, w': Wiring, node: INode)
    requires forall q :: q in w' <==> q in w && q.node != node
    requires forall q :: q in w' ==> w'[q] == w[q]
    requires forall q :: q in w && w[q] != null ==> q.node != node
    ensures EdgesOf(w') == EdgesOf(w)
  {
    forall e | e in EdgesOf(w) ensures e in EdgesOf(w') {
      var p :| p in w && w[p] != null && e == (w[p].node, p.node);
      assert w'[p] == w[p];
    }
  }

  /** A node without edges does not matter to the order of the others. */
  lemma OrderedWithout(all: set<INode>, edges: Edges<INode>, ord: map<INode, int>, all': set<INode>,
      ord': map<INode, int>, node: INode)
    requires Ordered(all, edges, ord) && all' == all - {node}
    requires forall e :: e in edges ==> e.0 != node && e.1 != node
    requires ord'.Keys == all' && forall n :: n in all' && n in ord ==> ord'[n] == ord[n]
    ensures Ordered(all', edges, ord')
  {
    forall n | n in all' ensures OrderedAt(edges, ord', n) {
      assert OrderedAt(edges, ord, n);
      OrderedAtFrame(edges, ord, ord', n);
    }
  }

  lemma FreePins(w: Wiring, w': Wiring)
    requires forall q :: q in w ==> q in w' && w'[q] == w[q]
    requires forall q :: q in w' && q !in w ==> w'[q] == null
    ensures EdgesOf(w') == EdgesOf(w)
  {
    forall e | e in EdgesOf(w) ensures e in EdgesOf(w') {
      var p :| p in w && w[p] != null && e == (w[p].node, p.node);
      assert w'[p] == w[p];
    }
  }

  lemma OrderedWith(all: set<INode>, edges: Edges<INode>, ord: map<INode, int>, all': set<INode>,
      ord': map<INode, int>, node: INode)
    requires Ordered(all, edges, ord) && all' == all + {node}
    requires forall e :: e in edges ==> e.0 != node && e.1 != node
    requires ord'.Keys == all' && ord'[node] == 0 && ord.Keys == all && forall n :: n in all ==> ord'[n] == ord[n]
    ensures Ordered(all', edges, ord')
  {
    forall n | n in all' ensures OrderedAt(edges, ord', n) {
      if n in all {
        assert OrderedAt(edges, ord, n);
        OrderedAtFrame(edges, ord, ord', n);
      }
    }
  }

  lemma {:induction false} NoEntryFor(conns: seq<NodeConnection>, n: INode)
    requires forall c :: c in conns ==> c.node != n
    ensures ConnSum(conns, n) == 0
  {
    if conns != [] {
      NoEntryFor(conns[1..], n);
    }
  }

  /** A child list and a parent list count the connections of a pair of nodes. */
  ghost predicate CountedBy(w: Wiring, children: seq<NodeConnection>, parents: seq<NodeConnection>, a: INode,
      b: INode) {
    ConnSum(children, b) == |Between(w, a, b)| == ConnSum(parents, a)
  }

  class SeamGraph {
    var nodes: seq<INode>
    var nodesToDraw: seq<INode>
    var visibleNodes: seq<INode>
    var nodesUpdateEveryFrame: seq<INode>
    var nodesUpdateOverTime: seq<INode>
    ghost var ins: set<PinInput>
    ghost var outs: set<PinOutput>
    ghost var updated: seq<INode>  // the nodes whose Update() this frame has called, in order
    ghost var dirtied: set<INode>  // the nodes that these calls made dirty

    ghost function All(): set<INode>
      reads this`nodes
    {
      Members(nodes)
    }

    static ghost function WiresOf(ins: set<PinInput>): (w: Wiring)
      reads ins`connection
      ensures w.Keys == ins && forall q :: q in ins ==> w[q] == q.connection
    {
      map q | q in ins :: q.connection
    }

    ghost function Wires(): (w: Wiring)
      reads this`ins, ins`connection
      ensures w.Keys == ins && forall q :: q in ins ==> w[q] == q.connection
    {
      WiresOf(ins)
    }

    ghost function EdgeSet(): Edges<INode>
      reads this`ins, ins`connection
    {
      EdgesOf(Wires())
    }

    /** The lists name nodes of the graph, each once. */
    ghost predicate ListsOk()
      reads this
    {
      && ListIn(nodesToDraw, nodes) && ListIn(visibleNodes, nodes)
      && ListIn(nodesUpdateEveryFrame, nodes) && ListIn(nodesUpdateOverTime, nodes)
    }

    static ghost predicate ListIn(list: seq<INode>, nodes: seq<INode>) {
      Distinct(list) && forall n :: n in list ==> n in nodes
    }

    /** Pins belong to their nodes. */
    static ghost predicate OwnersIn(all: set<INode>, ins: set<PinInput>, outs: set<PinOutput>)
      reads all`inputs, all`outputs
    {
      && (forall q :: q in ins ==> q.node in all && q in q.node.inputs)
      && (forall o :: o in outs ==> o.node in all && o in o.node.outputs)
      && (forall n, q :: n in all && q in n.inputs ==> q in ins && q.node == n)
      && (forall n, o :: n in all && o in n.outputs ==> o in outs && o.node == n)
    }

    ghost predicate OwnersOk()
      reads this`nodes, this`ins, this`outs, All()`inputs, All()`outputs
    {
      OwnersIn(All(), ins, outs)
    }

    /** The two ends of a connection know each other. */
    static ghost predicate EndsIn(ins: set<PinInput>, outs: set<PinOutput>)
      reads ins`connection, outs`connections
    {
      && (forall q {:trigger InputOk(q, outs)} :: q in ins ==> InputOk(q, outs))
      && (forall o {:trigger OutputOk(o, ins)} :: o in outs ==> OutputOk(o, ins))
    }

    static ghost predicate InputOk(q: PinInput, outs: set<PinOutput>)
      reads q`connection, outs`connections
    {
      q.connection != null ==> q.connection in outs && q in q.connection.connections
    }

    static ghost predicate OutputOk(o: PinOutput, ins: set<PinInput>)
      reads o`connections, ins`connection
    {
      Distinct(o.connections) && forall q :: q in o.connections ==> q in ins && q.connection == o
    }

    ghost predicate EndsOk()
      reads this`ins, this`outs, ins`connection, outs`connections
    {
      EndsIn(ins, outs)
    }

    static ghost predicate NodeListsOk(n: INode, all: set<INode>)
      reads n`children, n`parents
    {
      && WellCounted(n.children) && NoTwin(n.children) && WellCounted(n.parents)
      && (forall c :: c in n.children ==> c.node in all)
      && (forall c :: c in n.parents ==> c.node in all)
    }

    static ghost predicate Counted(w: Wiring, a: INode, b: INode)
      reads a`children, b`parents
    {
      CountedBy(w, a.children, b.parents, a, b)
    }

    /** Every pair of nodes counts its connections on both sides. */
    static ghost predicate CountsIn(all: set<INode>, w: Wiring)
      reads all`children, all`parents
    {
      && (forall n {:trigger NodeListsOk(n, all)} :: n in all ==> NodeListsOk(n, all))
      && (forall a, b {:trigger Counted(w, a, b)} :: a in all && b in all ==> Counted(w, a, b))
    }

    ghost predicate CountsFor(w: Wiring)
      reads this`nodes, All()`children, All()`parents
    {
      CountsIn(All(), w)
    }

    ghost predicate CountsOk()
      reads this`nodes, this`ins, ins`connection, All()`children, All()`parents
    {
      CountsFor(Wires())
    }

    ghost predicate OrdersOk()
      reads this`nodes, this`ins, ins`connection, All()`updateOrder
    {
      Ordered(All(), EdgeSet(), Orders(All()))
    }

    ghost predicate Valid()
      reads this, ins`connection, outs`connections
      reads All()`inputs, All()`outputs, All()`children, All()`parents, All()`updateOrder
    {
      Distinct(nodes) && |nodes| <= MAX_NODES && ListsOk() && OwnersOk() && EndsOk() && CountsOk() && OrdersOk()
    }

    constructor ()
      ensures Valid() && nodes == [] && ins == {} && outs == {} && updated == [] && dirtied == {}
    {
      nodes, nodesToDraw, visibleNodes, nodesUpdateEveryFrame, nodesUpdateOverTime := [], [], [], [], [];
      ins, outs, updated, dirtied := {}, {}, [], {};
    }

    // ----- what the counts say about the edges

    lemma EntryIffEdge(a: INode, b: INode)
      requires OwnersOk() && EndsOk() && CountsOk() && a in All() && b in All()
      ensures (a, b) in EdgeSet() <==> HasEntry(a.children, b)
      ensures (a, b) in EdgeSet() <==> HasEntry(b.parents, a)
    {
      assert NodeListsOk(a, All()) && NodeListsOk(b, All()) && Counted(Wires(), a, b);
      EntryIffSum(a.children, b);
      EntryIffSum(b.parents, a);
      EdgeIffBetween(Wires(), a, b);
    }

    lemma PinsOnNodes(pinIn: PinInput, pinOut: PinOutput)
      requires OwnersOk() && pinIn in ins && pinOut in outs
      ensures pinIn.node in All() && pinOut.node in All()
    {
    }

    lemma EdgesBetweenNodes()
      requires OwnersOk() && EndsOk()
      ensures forall e :: e in EdgeSet() ==> e.0 in All() && e.1 in All()
    {
      forall q | q in ins && q.connection != null ensures q.connection.node in All() { assert InputOk(q, outs); }
    }

    lemma ListsMirrorEdges()
      requires OwnersOk() && EndsOk() && CountsOk()
      ensures Mirrored(All(), EdgeSet())
    {
      EdgesBetweenNodes();
      forall n, c | n in All() && c in n.children ensures (n, c.node) in EdgeSet() {
        assert NodeListsOk(n, All());
        EntryIffEdge(n, c.node);
      }
      forall n, c | n in All() && c in n.parents ensures (c.node, n) in EdgeSet() {
        assert NodeListsOk(n, All());
        EntryIffEdge(c.node, n);
      }
      forall e | e in EdgeSet() ensures HasEntry(e.0.children, e.1) && HasEntry(e.1.parents, e.0) {
        assert e == (e.0, e.1);
        EntryIffEdge(e.0, e.1);
      }
    }

    lemma FewNodes()
      ensures |All()| <= |nodes|
    {
      MembersCount(nodes);
    }

    static lemma {:induction false} MembersCount(v: seq<INode>)
      ensures |Members(v)| <= |v|
    {
      if v != [] {
        MembersCount(v[1..]);
        assert Members(v) == {v[0]} + Members(v[1..]);
      }
    }

    // ----- what a valid graph says about its numbers

    /** Every update order is the length of the longest path that ends at the node: it lies above
        the orders of all parents and fits an int16_t. */
    lemma OrdersAreLongestPaths(n: INode)
      requires Valid() && n in All()
      ensures LongestPathEndsAt(EdgeSet(), n, n.updateOrder) && Acyclic(EdgeSet())
      ensures n.updateOrder < |nodes|
      ensures forall c :: c in n.parents ==> c.node.updateOrder < n.updateOrder
      ensures forall c :: c in n.children ==> n.updateOrder < c.node.updateOrder
    {
      hide Wires, EdgesOf, Reaches, EndsPath, CountsFor;
      var all, edges, ord := All(), EdgeSet(), Orders(All());
      ListsMirrorEdges();
      FewNodes();
      EdgesBetweenNodes();
      OrderIsLongestPath(all, edges, ord, n);
      OrderBelowCount(all, edges, ord, n);
      OrderedIsAcyclic(all, edges, ord);
      assert OrderedAt(edges, ord, n);
      forall c | c in n.children ensures n.updateOrder < c.node.updateOrder {
        assert OrderedAt(edges, ord, c.node);
      }
    }

    /** The counts of an entry never exceed the number of input pins of the child, so a uint16_t
        holds them as long as no node has more than 65535 inputs. */
    lemma CountsFitInputs(a: INode, b: INode)
      requires Valid() && a in All() && b in All()
      ensures forall c :: c in a.children && c.node == b ==> 0 < c.connCount <= |b.inputs|
      ensures forall c :: c in b.parents && c.node == a ==> 0 < c.connCount <= |b.inputs|
    {
      var pins := set q | q in b.inputs;
      assert Between(Wires(), a, b) <= pins;
      SubsetCardinality(Between(Wires(), a, b), pins);
      PinsCount(b.inputs);
      assert NodeListsOk(a, All()) && NodeListsOk(b, All()) && Counted(Wires(), a, b);
      forall c | c in a.children && c.node == b ensures 0 < c.connCount <= |b.inputs| { EntryBelowSum(a.children, c); }
      forall c | c in b.parents && c.node == a ensures 0 < c.connCount <= |b.inputs| { EntryBelowSum(b.parents, c); }
    }

    static lemma {:induction false} PinsCount(v: seq<PinInput>)
      ensures |set q | q in v| <= |v|
    {
      if v != [] {
        PinsCount(v[1..]);
        assert (set q | q in v) == {v[0]} + (set q | q in v[1..]);
      }
    }

    static lemma {:induction false} EntryBelowSum(conns: seq<NodeConnection>, c: NodeConnection)
      requires WellCounted(conns) && c in conns
      ensures 0 < c.connCount <= ConnSum(conns, c.node)
    {
      if conns[0] != c {
        EntryBelowSum(conns[1..], c);
      }
    }

    // ----- Connect

    /** The two ends of a new connection (seamGraph.cpp:454-455). The ends of all connections go on
        knowing each other exactly if the input was free: the code does not tell the output that a
        taken input was connected to. */
    method WirePins(pinIn: PinInput, pinOut: PinOutput)
      requires EndsOk() && pinIn in ins && pinOut in outs
      modifies pinIn`connection, pinOut`connections
      ensures EndsOk() <==> old(pinIn.connection == null)
      ensures Wires() == old(Wires())[pinIn := pinOut]
      ensures pinOut.connections == old(pinOut.connections) + [pinIn]
    {
      ghost var was := pinIn.connection;
      assert InputOk(pinIn, outs);
      pinOut.connections := pinOut.connections + [pinIn];
      pinIn.connection := pinOut;
      if was == null {
        forall q | q in ins ensures InputOk(q, outs) { assert old(InputOk(q, outs)); }
        forall o | o in outs ensures OutputOk(o, ins) { assert old(OutputOk(o, ins)); }
      } else if was == pinOut {
        ghost var k :| 0 <= k < |old(pinOut.connections)| && old(pinOut.connections)[k] == pinIn;
        assert pinOut.connections[k] == pinOut.connections[|pinOut.connections| - 1];
        assert !OutputOk(pinOut, ins);
      } else {
        assert pinIn in was.connections && pinIn.connection != was;
        assert !OutputOk(was, ins);
      }
    }

    /** The two lists that count the new connection (seamGraph.cpp:471-473). */
    method AddEntries(parent: INode, child: INode, ghost ord: map<INode, int>)
      returns (rearranged: bool, ghost c: nat, ghost p: nat)
      requires child in All() && parent in All() && NodeListsOk(child, All()) && ord == Orders(All())
      modifies parent`children, child`parents
      ensures !rearranged ==> old(HasEntry(parent.children, child))
      ensures EntryAdded(old(parent.children), parent.children, c, child)
      ensures EntryAdded(old(child.parents), child.parents, p, parent)
      ensures if c == |old(parent.children)| then !HasEntry(old(parent.children), child)
              else old(parent.children)[c].node == child
      ensures SortedIn(old(child.parents), ord) ==> PartsIn(old(child.parents), p, ord, ord[parent])
    {
      hide WellCounted, NoTwin, HasEntry, EntryAdded, SortedByOrder, Parts, SortedIn, PartsIn;
      ghost var parents := child.parents;
      var isNewChild, isNewParent;
      isNewChild, c := parent.AddChild(child);
      SortedMeans(All(), parents, ord);
      isNewParent, p := child.AddParent(parent);
      if SortedIn(parents, ord) { PartsMeans(All(), parents, p, ord, parent); }
      rearranged := isNewParent || isNewChild;
    }

    /** Afterwards both lists count one connection more, for every pair of nodes. */
    method CountLink(pinIn: PinInput, pinOut: PinOutput, ghost w: Wiring, ghost ord: map<INode, int>)
      returns (rearranged: bool, ghost c: nat, ghost p: nat)
      requires CountsFor(w) && pinIn in w && w[pinIn] == null && pinIn.node in All() && pinOut.node in All()
      requires ord == Orders(All())
      modifies pinOut.node`children, pinIn.node`parents
      ensures CountsFor(w[pinIn := pinOut])
      ensures !rearranged ==> old(HasEntry(pinOut.node.children, pinIn.node))
      ensures EntryAdded(old(pinOut.node.children), pinOut.node.children, c, pinIn.node)
      ensures EntryAdded(old(pinIn.node.parents), pinIn.node.parents, p, pinOut.node)
      ensures c == |old(pinOut.node.children)| || old(pinOut.node.children)[c].node == pinIn.node
      ensures SortedIn(old(pinIn.node.parents), ord) ==> PartsIn(old(pinIn.node.parents), p, ord, ord[pinOut.node])
    {
      hide Between, EdgesOf, ConnSum, WellCounted, NoTwin, HasEntry, EntryAdded, SortedIn, PartsIn;
      var parent, child := pinOut.node, pinIn.node;
      ghost var children, parents := parent.children, child.parents;
      assert NodeListsOk(parent, All()) && NodeListsOk(child, All());
      rearranged, c, p := AddEntries(parent, child, ord);
      AddedListsOk(All(), children, parent.children, c, child);
      AddedListsOk(All(), parents, child.parents, p, parent);
      forall n | n in All() ensures NodeListsOk(n, All()) {
        assert old(NodeListsOk(n, All()));
      }
      forall a, b | a in All() && b in All() ensures Counted(w[pinIn := pinOut], a, b) {
        assert old(Counted(w, a, b));
        AddedSum(children, parent.children, c, child, b);
        AddedSum(parents, child.parents, p, parent, a);
        WiredBetween(w, pinIn, pinOut, a, b);
      }
    }

    static lemma AddedSum(was: seq<NodeConnection>, now: seq<NodeConnection>, k: nat, n: INode, x: INode)
      requires EntryAdded(was, now, k, n)
      ensures ConnSum(now, x) == ConnSum(was, x) + if x == n then 1 else 0
    {
      if k < |was| && was[k].node == n {
        assert now == Bumped(was, k);
        BumpedSum(was, k, x);
      } else {
        InsertedSum(was, k, n, x);
      }
    }

    static lemma AddedListsOk(nodes: set<INode>, was: seq<NodeConnection>, now: seq<NodeConnection>,
        k: nat, n: INode)
      requires EntryAdded(was, now, k, n)
      requires WellCounted(was) && n in nodes && forall c :: c in was ==> c.node in nodes
      ensures WellCounted(now) && forall c :: c in now ==> c.node in nodes
      ensures NoTwin(was) && (if k == |was| then !HasEntry(was, n) else was[k].node == n) ==> NoTwin(now)
    {
      if k == |was| || was[k].node != n {
        InsertedKeeps(was, k, n);
        assert forall c :: c in now ==> c in was || c == NodeConnection(n, 1);
      } else {
        assert now == Bumped(was, k);
        BumpedKeeps(was, k);
        assert forall i :: 0 <= i < |was| ==> now[i].node == was[i].node && was[i] in was;
      }
    }

    /** Renumbers after a change of the edges into one node; `edges` are the edges before. */
    method Renumber(child: INode, ghost edges: Edges<INode>, ghost rank: map<INode, nat>)
      requires OwnersOk() && EndsOk() && CountsOk() && |nodes| <= MAX_NODES && child in All()
      requires Ordered(All(), edges, Orders(All())) && rank.Keys == All() && Ranks(EdgeSet(), rank)
      requires forall e :: e in EdgeSet() + edges && e.1 != child ==> e in EdgeSet() && e in edges
      modifies All()`updateOrder
      ensures OrdersOk()
      ensures forall n :: n in All() && !Reaches(EdgeSet(), child, n) ==> n.updateOrder == old(n.updateOrder)
    {
      hide OwnersOk, EndsOk, CountsOk, Reaches, OrderedAt, EdgeSet, Mirrored, Ranks;
      ListsMirrorEdges();
      FewNodes();
      ReachesSelf(EdgeSet(), child);
      forall n | n in All() ensures OrderedAt(edges, Orders(All()), n) && n.updateOrder >= 0 {
        OrderNonNegative(All(), edges, n);
      }
      forall m | m in All() && !Reaches(EdgeSet(), child, m) ensures OrderedAt(EdgeSet(), Orders(All()), m) {
        OrderedAtEdges(edges, EdgeSet(), Orders(All()), m);
      }
      RecalculateTraversalOrder(child, All(), EdgeSet(), rank);
    }

    method RenumberIf(rearranged: bool, child: INode, ghost edges: Edges<INode>, ghost rank: map<INode, nat>)
      requires OwnersOk() && EndsOk() && CountsOk() && |nodes| <= MAX_NODES && child in All()
      requires Ordered(All(), edges, Orders(All())) && rank.Keys == All() && Ranks(EdgeSet(), rank)
      requires forall e :: e in EdgeSet() + edges && e.1 != child ==> e in EdgeSet() && e in edges
      requires !rearranged ==> EdgeSet() == edges
      modifies All()`updateOrder
      ensures OwnersOk() && EndsOk() && CountsOk() && OrdersOk() && Wires() == old(Wires())
      ensures forall n :: n in All() && !Reaches(EdgeSet(), child, n) ==> n.updateOrder == old(n.updateOrder)
    {
      hide OwnersOk, EndsOk, CountsOk, Reaches, EdgeSet, Wires, Ordered, Ranks;
      if rearranged {
        Renumber(child, edges, rank);
      }
    }

    static lemma SortedMeans(all: set<INode>, conns: seq<NodeConnection>, ord: map<INode, int>)
      requires ord == Orders(all) && forall c :: c in conns ==> c.node in all
      ensures SortedByOrder(conns) <==> SortedIn(conns, ord)
    {
      assert forall i :: 0 <= i < |conns| ==> conns[i] in conns;
    }

    static lemma PartsMeans(all: set<INode>, conns: seq<NodeConnection>, k: nat, ord: map<INode, int>, n: INode)
      requires ord == Orders(all) && n in all && Parts(conns, k, n.updateOrder)
      requires forall c :: c in conns ==> c.node in all
      ensures PartsIn(conns, k, ord, ord[n])
    {
      assert forall i :: 0 <= i < |conns| ==> conns[i] in conns;
    }

    /** Renumbering a node's descendants leaves its list of parents sorted, since no parent is among them. */
    lemma ParentsStaySorted(child: INode, orders: map<INode, int>)
      requires OwnersOk() && EndsOk() && CountsOk() && OrdersOk() && child in All()
      requires SortedIn(child.parents, orders) && orders.Keys == All()
      requires forall n :: n in All() && !Reaches(EdgeSet(), child, n) ==> n.updateOrder == orders[n]
      ensures SortedIn(child.parents, Orders(All()))
    {
      hide Reaches, OwnersOk, EndsOk, CountsOk, EdgeSet, Ordered;
      ListsMirrorEdges();
      OrderedIsAcyclic(All(), EdgeSet(), Orders(All()));
      forall i: nat | i < |child.parents|
        ensures child.parents[i].node in All() && child.parents[i].node.updateOrder == orders[child.parents[i].node]
      {
        ParentEdge(All(), EdgeSet(), child, i);
      }
    }

    static lemma OrderNonNegative(all: set<INode>, edges: Edges<INode>, n: INode)
      requires Ordered(all, edges, Orders(all)) && n in all
      ensures OrderedAt(edges, Orders(all), n) && n.updateOrder >= 0
    {
    }

    /** Connects an output to a free input. The new edge must not close a cycle, for which there is
        no numbering (module GraphOrder, NewEdgeAllowedIff). Descendants of the child are renumbered,
        every other node keeps its order. */
    method Connect(pinIn: PinInput, pinOut: PinOutput) returns (connected: bool, ghost c: nat, ghost p: nat)
      requires Valid() && pinIn in ins && pinOut in outs && pinIn.connection == null
      requires !Reaches(EdgeSet(), pinIn.node, pinOut.node)
      modifies pinIn`connection, pinOut`connections, pinOut.node`children, pinIn.node`parents, All()`updateOrder
      ensures connected && Valid()
      ensures Wires() == old(Wires())[pinIn := pinOut]
      ensures pinOut.connections == old(pinOut.connections) + [pinIn]
      ensures EdgeSet() == old(EdgeSet()) + {(pinOut.node, pinIn.node)}
      ensures forall n :: n in All() && !Reaches(EdgeSet(), pinIn.node, n) ==> n.updateOrder == old(n.updateOrder)
      ensures EntryAdded(old(pinOut.node.children), pinOut.node.children, c, pinIn.node)
      ensures EntryAdded(old(pinIn.node.parents), pinIn.node.parents, p, pinOut.node)
      ensures c == |old(pinOut.node.children)| || old(pinOut.node.children)[c].node == pinIn.node
      ensures SortedIn(old(pinIn.node.parents), old(Orders(All()))) ==>
        && PartsIn(old(pinIn.node.parents), p, old(Orders(All())), old(pinOut.node.updateOrder))
        && SortedIn(pinIn.node.parents, Orders(All()))
    {
      hide EntryAdded, SortedByOrder, Parts, SortedIn, PartsIn;
      hide ListsOk, OwnersOk, EndsOk, CountsFor, Reaches, OrderedAt, Mirrored, Wires, EdgesOf, Ordered, HasEntry,
          Distinct, Ranks;
      var parent, child := pinOut.node, pinIn.node;
      ghost var w, edges := Wires(), EdgeSet();
      PinsOnNodes(pinIn, pinOut);
      EntryIffEdge(parent, child);
      WiredEdges(w, pinIn, pinOut);
      ghost var rank := RankWith(All(), edges, Orders(All()), parent, child);
      ghost var parents, orders := child.parents, Orders(All());
      WirePins(pinIn, pinOut);
      var rearranged;
      rearranged, c, p := CountLink(pinIn, pinOut, w, orders);
      assert Wires() == w[pinIn := pinOut] && OwnersOk() && EndsOk();
      assert EdgeSet() == edges + {(parent, child)};
      if SortedIn(parents, orders) { AddedStaysSorted(parents, child.parents, p, parent, orders); }
      RenumberIf(rearranged, child, edges, rank);
      if SortedIn(parents, orders) { ParentsStaySorted(child, orders); }
      connected := true;
    }

    // ----- Disconnect

    /** The search for the connection to an input pin. */
    static method FindPin(connections: seq<PinInput>, pinIn: PinInput) returns (i: nat)
      requires pinIn in connections
      ensures i < |connections| && connections[i] == pinIn && pinIn !in connections[..i]
    {
      i := 0;
      while i < |connections| && connections[i] != pinIn
        invariant i <= |connections| && pinIn !in connections[..i]
      {
        i := i + 1;
      }
      assert connections[..|connections|] == connections;
    }

    /** The two ends of a connection that goes (seamGraph.cpp:492-502). */
    method UnwirePins(pinIn: PinInput, pinOut: PinOutput)
      requires EndsOk() && pinIn in ins && pinIn.connection == pinOut
      modifies pinIn`connection, pinOut`connections
      ensures EndsOk() && Wires() == old(Wires())[pinIn := null]
      ensures exists i :: 0 <= i < |old(pinOut.connections)| && old(pinOut.connections)[i] == pinIn
                          && pinOut.connections == old(pinOut.connections)[..i] + old(pinOut.connections)[i + 1..]
    {
      assert InputOk(pinIn, outs) && OutputOk(pinOut, ins);
      pinIn.connection := null;
      var i := FindPin(pinOut.connections, pinIn);
      ghost var was := pinOut.connections;
      pinOut.connections := pinOut.connections[..i] + pinOut.connections[i + 1..];
      assert forall q :: q in was && q != pinIn ==> q in pinOut.connections;
      assert forall q :: q in pinOut.connections ==> q in was && q != pinIn;
      forall q | q in ins ensures InputOk(q, outs) { assert old(InputOk(q, outs)); }
      forall o | o in outs ensures OutputOk(o, ins) { assert old(OutputOk(o, ins)); }
    }

    /** The two lists stop counting the connection (seamGraph.cpp:524-544). */
    method TakeEntries(parent: INode, child: INode) returns (rearranged: bool, ghost c: nat, ghost p: nat)
      requires HasEntry(parent.children, child) && HasEntry(child.parents, parent)
      requires WellCounted(parent.children) && WellCounted(child.parents)
      modifies parent`children, child`parents
      ensures !rearranged ==> HasEntry(parent.children, child)
      ensures EntryTaken(old(parent.children), parent.children, c, child)
      ensures EntryTaken(old(child.parents), child.parents, p, parent)
      ensures parent.children == Dropped(old(parent.children), c) && child.parents == Dropped(old(child.parents), p)
    {
      hide HasEntry, Dropped, EntryTaken;
      ghost var children, parents := parent.children, child.parents;
      var it := Find(parent.children, child);
      c := it;
      DroppedKeeps(children, c);
      DroppedTakes(children, c);
      rearranged := parent.children[it].connCount == 1;
      parent.children := Dropped(parent.children, it);
      it := Find(child.parents, parent);
      p := it;
      DroppedKeeps(parents, p);
      DroppedTakes(parents, p);
      rearranged := rearranged || child.parents[it].connCount == 1;
      child.parents := Dropped(child.parents, it);
      if !rearranged { DroppedStays(children, c); }
    }

    /** Afterwards neither list counts the connection, for any pair of nodes. */
    method CountUnlink(pinIn: PinInput, pinOut: PinOutput, ghost w: Wiring)
      returns (rearranged: bool, ghost c: nat, ghost p: nat)
      requires CountsFor(w) && pinIn in w && w[pinIn] == pinOut && pinIn.node in All() && pinOut.node in All()
      modifies pinOut.node`children, pinIn.node`parents
      ensures CountsFor(w[pinIn := null])
      ensures !rearranged ==> HasEntry(pinOut.node.children, pinIn.node)
      ensures EntryTaken(old(pinOut.node.children), pinOut.node.children, c, pinIn.node)
      ensures EntryTaken(old(pinIn.node.parents), pinIn.node.parents, p, pinOut.node)
    {
      hide Between, EdgesOf, ConnSum, WellCounted, NoTwin, HasEntry, Dropped;
      var parent, child := pinOut.node, pinIn.node;
      ghost var children, parents := parent.children, child.parents;
      assert NodeListsOk(parent, All()) && NodeListsOk(child, All()) && Counted(w, parent, child);
      UnwiredBetween(w, pinIn, pinOut, parent, child);
      EntryIffSum(children, child);
      EntryIffSum(parents, parent);
      rearranged, c, p := TakeEntries(parent, child);
      DroppedListsOk(All(), children, c);
      DroppedListsOk(All(), parents, p);
      forall n | n in All() ensures NodeListsOk(n, All()) {
        assert old(NodeListsOk(n, All()));
      }
      forall a, b | a in All() && b in All() ensures Counted(w[pinIn := null], a, b) {
        assert old(Counted(w, a, b));
        DroppedSum(children, c, b);
        DroppedSum(parents, p, a);
        UnwiredBetween(w, pinIn, pinOut, a, b);
      }
    }

    static lemma DroppedTakes(was: seq<NodeConnection>, k: nat)
      requires k < |was| && was[k].connCount > 0 && forall i :: 0 <= i < k ==> was[i].node != was[k].node
      ensures EntryTaken(was, Dropped(was, k), k, was[k].node)
    {
      assert was == was[..k] + [was[k]] + was[k + 1..];
    }

    static lemma DroppedListsOk(nodes: set<INode>, was: seq<NodeConnection>, k: nat)
      requires k < |was| && WellCounted(was) && forall c :: c in was ==> c.node in nodes
      ensures was[k].connCount > 0
      ensures WellCounted(Dropped(was, k)) && forall c :: c in Dropped(was, k) ==> c.node in nodes
      ensures NoTwin(was) ==> NoTwin(Dropped(was, k))
    {
      DroppedKeeps(was, k);
      forall c | c in Dropped(was, k) ensures c.node in nodes {
        assert was[k] in was;
        assert c in was || c.node == was[k].node;
      }
    }

    static lemma DroppedStays(was: seq<NodeConnection>, k: nat)
      requires k < |was| && was[k].connCount > 1
      ensures HasEntry(Dropped(was, k), was[k].node)
    {
      assert Dropped(was, k)[k] in Dropped(was, k);
    }

    static ghost function RankOf(all: set<INode>, edges: Edges<INode>): (rank: map<INode, nat>)
      requires Ordered(all, edges, Orders(all))
      reads all`updateOrder
      ensures rank.Keys == all && Ranks(edges, rank)
    {
      var ord := Orders(all);
      assert forall n :: n in all ==> ord[n] >= 0 by {
        forall n | n in all ensures ord[n] >= 0 { OrderNonNegative(all, edges, n); }
      }
      assert forall e :: e in edges ==> ord[e.0] < ord[e.1] by {
        forall e | e in edges ensures ord[e.0] < ord[e.1] { assert OrderedAt(edges, ord, e.1); }
      }
      map n | n in all :: ord[n]
    }

    /** Takes back a connection. Descendants of the child are renumbered if the nodes lose their last
        connection, or if a second entry for the parent goes. */
    method Disconnect(pinIn: PinInput, pinOut: PinOutput) returns (disconnected: bool, ghost c: nat, ghost p: nat)
      requires Valid() && pinIn in ins && pinOut in outs && pinIn.connection == pinOut
      modifies pinIn`connection, pinOut`connections, pinOut.node`children, pinIn.node`parents, All()`updateOrder
      ensures disconnected && Valid()
      ensures Wires() == old(Wires())[pinIn := null]
      ensures EdgeSet() <= old(EdgeSet())
      ensures exists i :: 0 <= i < |old(pinOut.connections)| && old(pinOut.connections)[i] == pinIn
                          && pinOut.connections == old(pinOut.connections)[..i] + old(pinOut.connections)[i + 1..]
      ensures forall n :: n in All() && !Reaches(EdgeSet(), pinIn.node, n) ==> n.updateOrder == old(n.updateOrder)
      ensures EntryTaken(old(pinOut.node.children), pinOut.node.children, c, pinIn.node)
      ensures EntryTaken(old(pinIn.node.parents), pinIn.node.parents, p, pinOut.node)
      ensures SortedIn(old(pinIn.node.parents), old(Orders(All()))) ==> SortedIn(pinIn.node.parents, Orders(All()))
    {
      hide EntryTaken, SortedIn;
      hide ListsOk, OwnersOk, EndsOk, CountsFor, Reaches, OrderedAt, Mirrored, Wires, EdgesOf, Ordered, HasEntry,
          Distinct, Ranks;
      var parent, child := pinOut.node, pinIn.node;
      ghost var w, edges := Wires(), EdgeSet();
      PinsOnNodes(pinIn, pinOut);
      UnwiredEdges(w, pinIn, pinOut);
      ghost var rank := RankOf(All(), edges);
      ghost var parents, orders := child.parents, Orders(All());
      ghost var sorted := SortedIn(parents, orders);
      UnwirePins(pinIn, pinOut);
      ghost var conns := pinOut.connections;
      var rearranged;
      rearranged, c, p := CountUnlink(pinIn, pinOut, w);
      assert Wires() == w[pinIn := null] && OwnersOk() && EndsOk();
      EntryIffEdge(parent, child);
      FewerRanks(edges, EdgeSet(), rank);
      if sorted { TakenStaysSorted(parents, child.parents, p, parent, orders); }
      RenumberIf(rearranged, child, edges, rank);
      if sorted { ParentsStaySorted(child, orders); }
      disconnected := true;
    }

    static lemma FewerRanks(edges: Edges<INode>, fewer: Edges<INode>, rank: map<INode, nat>)
      requires Ranks(edges, rank) && fewer <= edges
      ensures Ranks(fewer, rank)
    {
    }

    // ----- DeleteNode

    /** Some connections at a node are gone, every other one is as before. */
    ghost predicate Trimmed(was: Wiring, node: INode)
      reads this`ins, ins`connection
    {
      && was.Keys == ins
      && forall q :: q in ins ==>
           q.connection == was[q] || (q.connection == null && (q.node == node || was[q].node == node))
    }

    /** Every input of a node lets go of its output (seamGraph.cpp:396-401). */
    method DisconnectInputs(node: INode)
      requires Valid() && node in All()
      modifies ins`connection, outs`connections, All()`children, All()`parents, All()`updateOrder
      ensures Valid() && Trimmed(old(Wires()), node)
      ensures forall q :: q in node.inputs ==> q.connection == null
    {
      hide Valid;
      ghost var w := Wires();
      for i := 0 to |node.inputs|
        invariant Valid() && Trimmed(w, node)
        invariant forall k :: 0 <= k < i ==> node.inputs[k].connection == null
      {
        OwnInput(node, node.inputs[i]);
        if node.inputs[i].connection != null {
          var done, c, p := Disconnect(node.inputs[i], node.inputs[i].connection);
        }
      }
    }

    lemma OwnInput(node: INode, q: PinInput)
      requires Valid() && node in All() && q in node.inputs
      ensures q in ins && q.node == node
      ensures q.connection != null ==> q.connection in outs && q.connection.node in All()
    {
      if q.connection != null {
        assert InputOk(q, outs);
      }
    }

    lemma OwnOutput(node: INode, o: PinOutput)
      requires Valid() && node in All() && o in node.outputs
      ensures o in outs && o.node == node && Distinct(o.connections)
      ensures forall q :: q in o.connections ==> q in ins && q.connection == o && q.node in All()
    {
      assert OutputOk(o, ins);
    }

    /** One output lets go of its inputs, last first (seamGraph.cpp:406-409). */
    method DisconnectOutput(node: INode, o: PinOutput)
      requires Valid() && node in All() && o in node.outputs
      modifies ins`connection, o`connections, node`children, All()`parents, All()`updateOrder
      ensures Valid() && Trimmed(old(Wires()), node) && o.connections == []
      ensures forall q :: q in ins && old(q.connection) != o ==> q.connection == old(q.connection)
    {
      hide Valid;
      ghost var w := Wires();
      var j := |o.connections|;
      while j > 0
        invariant Valid() && Trimmed(w, node) && |o.connections| == j
        invariant forall q :: q in ins && w[q] != o ==> q.connection == w[q]
      {
        OwnOutput(node, o);
        var done, c, p := Disconnect(o.connections[j - 1], o);
        j := j - 1;
      }
    }

    /** Every output of a node does so (seamGraph.cpp:404-410). */
    method DisconnectOutputs(node: INode)
      requires Valid() && node in All()
      modifies ins`connection, outs`connections, All()`children, All()`parents, All()`updateOrder
      ensures Valid() && Trimmed(old(Wires()), node)
      ensures forall o :: o in node.outputs ==> o.connections == []
    {
      hide Valid;
      ghost var w := Wires();
      for i := 0 to |node.outputs|
        invariant Valid() && Trimmed(w, node)
        invariant forall k :: 0 <= k < i ==> node.outputs[k].connections == []
      {
        OwnOutput(node, node.outputs[i]);
        DisconnectOutput(node, node.outputs[i]);
      }
    }

    /** The graph no longer has the node, and its pins are gone. */
    ghost predicate Forgotten(node: INode)
      reads this, ins`connection, outs`connections, All()`children, All()`parents
    {
      && node !in nodes && node !in nodesToDraw && node !in visibleNodes
      && node !in nodesUpdateEveryFrame && node !in nodesUpdateOverTime
      && (forall q :: q in ins ==> q.node != node && (q.connection != null ==> q.connection.node != node))
      && (forall o, q :: o in outs && q in o.connections ==> o.node != node && q.node != node)
      && (forall n :: n in nodes ==> !HasEntry(n.children, node) && !HasEntry(n.parents, node))
    }

    lemma Unconnected(node: INode)
      requires Valid() && node in All()
      requires forall q :: q in node.inputs ==> q.connection == null
      requires forall o :: o in node.outputs ==> o.connections == []
      ensures forall q :: q in ins && q.connection != null ==> q.node != node && q.connection.node != node
      ensures forall e :: e in EdgeSet() ==> e.0 != node && e.1 != node
    {
      forall q | q in ins && q.connection != null ensures q.node != node && q.connection.node != node {
        assert InputOk(q, outs);
      }
    }

    /** The node leaves every list it is in and is deleted (seamGraph.cpp:412-427). */
    method Forget(node: INode)
      requires Valid() && node in All()
      requires forall q :: q in ins && q.connection != null ==> q.node != node && q.connection.node != node
      modifies this
      ensures Valid() && node !in nodes
      ensures All() == old(All()) - {node} && nodes == Erase(old(nodes), node)
      ensures nodesToDraw == Erase(old(nodesToDraw), node) && visibleNodes == Erase(old(visibleNodes), node)
      ensures nodesUpdateEveryFrame == Erase(old(nodesUpdateEveryFrame), node)
      ensures nodesUpdateOverTime == Erase(old(nodesUpdateOverTime), node)
      ensures ins == set q | q in old(ins) && q.node != node
      ensures outs == set o | o in old(outs) && o.node != node
    {
      hide EdgesOf, Between, Ordered, Distinct, HasEntry, CountedBy, WellCounted, NoTwin, CountsIn, EndsIn, OwnersIn,
          ListIn, Erase;
      ghost var all, edges, ord := All(), EdgeSet(), Orders(All());
      ghost var ins', outs' := set q | q in ins && q.node != node, set o | o in outs && o.node != node;
      EntriesAvoid(node);
      EraseFromDistinct(nodes, node);
      EraseFromList(nodesToDraw, nodes, node);
      EraseFromList(visibleNodes, nodes, node);
      EraseFromList(nodesUpdateEveryFrame, nodes, node);
      EraseFromList(nodesUpdateOverTime, nodes, node);
      PinsWithout(all, ins, outs, node, ins', outs');
      CountsWithout(all, Wires(), node, WiresOf(ins'));
      UnusedPins(Wires(), WiresOf(ins'), node);
      OrderedWithout(all, edges, ord, all - {node}, Orders(all - {node}), node);
      MembersOfErased(nodes, node);
      EraseEverywhere(node);
      assert OwnersOk() && EndsOk() && CountsOk() && OrdersOk();
    }

    static ghost function Members(v: seq<INode>): set<INode> {
      set n | n in v
    }

    static lemma {:induction false} MembersOfErased(v: seq<INode>, node: INode)
      requires Distinct(v)
      ensures Members(Erase(v, node)) == Members(v) - {node}
    {
      if v != [] {
        var rest := v[1..];
        assert Distinct(rest) && v[0] !in rest;
        assert Members(v) == {v[0]} + Members(rest);
        MembersOfErased(rest, node);
        if v[0] != node {
          var erased := Erase(rest, node);
          assert ([v[0]] + erased)[1..] == erased;
          assert Members([v[0]] + erased) == {v[0]} + Members(erased);
        }
      }
    }

    method EraseEverywhere(node: INode)
      modifies this
      ensures nodes == Erase(old(nodes), node)
      ensures nodesToDraw == Erase(old(nodesToDraw), node) && visibleNodes == Erase(old(visibleNodes), node)
      ensures nodesUpdateEveryFrame == Erase(old(nodesUpdateEveryFrame), node)
      ensures nodesUpdateOverTime == Erase(old(nodesUpdateOverTime), node)
      ensures ins == set q | q in old(ins) && q.node != node
      ensures outs == set o | o in old(outs) && o.node != node
    {
      nodes := Erase(nodes, node);
      nodesToDraw := Erase(nodesToDraw, node);
      visibleNodes := Erase(visibleNodes, node);
      nodesUpdateEveryFrame := Erase(nodesUpdateEveryFrame, node);
      nodesUpdateOverTime := Erase(nodesUpdateOverTime, node);
      ins := set q | q in ins && q.node != node;
      outs := set o | o in outs && o.node != node;
    }

    /** A valid graph refers to its own nodes only. */
    lemma NoOthersNamed(node: INode)
      requires Valid() && node !in nodes
      ensures Forgotten(node)
    {
      assert ListIn(nodesToDraw, nodes) && ListIn(visibleNodes, nodes);
      assert ListIn(nodesUpdateEveryFrame, nodes) && ListIn(nodesUpdateOverTime, nodes);
      forall q | q in ins && q.connection != null ensures q.connection.node != node { assert InputOk(q, outs); }
      forall o, q | o in outs && q in o.connections ensures q.node != node { assert OutputOk(o, ins); }
      forall n | n in nodes ensures !HasEntry(n.children, node) && !HasEntry(n.parents, node) {
        assert NodeListsOk(n, All());
      }
    }

    static lemma PinsWithout(all: set<INode>, ins: set<PinInput>, outs: set<PinOutput>, node: INode,
                             ins': set<PinInput>, outs': set<PinOutput>)
      requires OwnersIn(all, ins, outs) && EndsIn(ins, outs)
      requires forall q :: q in ins && q.connection != null ==> q.node != node && q.connection.node != node
      requires ins' == (set q | q in ins && q.node != node) && outs' == set o | o in outs && o.node != node
      ensures OwnersIn(all - {node}, ins', outs') && EndsIn(ins', outs')
      ensures forall o, q :: o in outs' && q in o.connections ==> q.node != node
    {
      forall q | q in ins' ensures InputOk(q, outs') { assert InputOk(q, outs); }
      forall o | o in outs' ensures OutputOk(o, ins') { assert OutputOk(o, ins); }
      forall o, q | o in outs' && q in o.connections ensures q.node != node { assert OutputOk(o, ins); }
    }

    static lemma CountsWithout(all: set<INode>, w: Wiring, node: INode, w': Wiring)
      requires CountsIn(all, w)
      requires forall n, c :: n in all && (c in n.children || c in n.parents) ==> c.node != node
      requires forall q :: q in w' <==> q in w && q.node != node
      requires forall q :: q in w' ==> w'[q] == w[q]
      ensures CountsIn(all - {node}, w')
    {
      var all' := all - {node};
      forall n | n in all' ensures NodeListsOk(n, all') { assert NodeListsOk(n, all); }
      forall a, b | a in all' && b in all' ensures Counted(w', a, b) {
        assert Counted(w, a, b);
        UnusedBetween(w, w', node, a, b);
      }
    }

    /** No list entry of another node names a node without edges. */
    lemma EntriesAvoid(node: INode)
      requires Valid() && node in All()
      requires forall q :: q in ins && q.connection != null ==> q.node != node && q.connection.node != node
      ensures forall e :: e in EdgeSet() ==> e.0 != node && e.1 != node
      ensures forall n :: n in nodes ==> !HasEntry(n.children, node) && !HasEntry(n.parents, node)
      ensures forall n, c :: n in nodes && (c in n.children || c in n.parents) ==> c.node != node
    {
      forall n | n in nodes ensures !HasEntry(n.children, node) && !HasEntry(n.parents, node) {
        EntryIffEdge(n, node);
        EntryIffEdge(node, n);
      }
    }

    static lemma EraseFromList(list: seq<INode>, nodes: seq<INode>, node: INode)
      requires ListIn(list, nodes) && Distinct(nodes)
      ensures ListIn(Erase(list, node), Erase(nodes, node)) && node !in Erase(list, node)
    {
      EraseFromDistinct(nodes, node);
      EraseFromDistinct(list, node);
    }

    /** Deletes a node with its connections. Nothing refers to it afterwards; all other connections
        stay, and so do their counts, and the update orders are those of the remaining graph. */
    method DeleteNode(node: INode)
      requires Valid() && node in All()
      modifies this, ins`connection, outs`connections, All()`children, All()`parents, All()`updateOrder
      ensures Valid() && Forgotten(node) && TakenOut(old(nodes), nodes, node)
      ensures TakenOut(old(nodesToDraw), nodesToDraw, node) && TakenOut(old(visibleNodes), visibleNodes, node)
      ensures TakenOut(old(nodesUpdateEveryFrame), nodesUpdateEveryFrame, node)
      ensures TakenOut(old(nodesUpdateOverTime), nodesUpdateOverTime, node)
      ensures ins == set q | q in old(ins) && q.node != node
      ensures forall q :: q in ins ==>
        q.connection == if old(q.connection) != null && old(q.connection).node == node then null else old(q.connection)
    {
      hide Valid, Forgotten, TakenOut, Erase;
      EraseTakesOut(nodes, node);
      EraseTakesOut(nodesToDraw, node);
      EraseTakesOut(visibleNodes, node);
      EraseTakesOut(nodesUpdateEveryFrame, node);
      EraseTakesOut(nodesUpdateOverTime, node);
      ghost var w := Wires();
      DisconnectInputs(node);
      ghost var w1 := Wires();
      DisconnectOutputs(node);
      TrimmedTwice(w, w1, node);
      Unconnected(node);
      Forget(node);
      NoOthersNamed(node);
    }

    lemma TrimmedTwice(w: Wiring, w1: Wiring, node: INode)
      requires Trimmed(w1, node) && w.Keys == w1.Keys
      requires forall q :: q in w ==> w1[q] == w[q] || (w1[q] == null && (q.node == node || w[q].node == node))
      ensures Trimmed(w, node)
    {
    }

    // ----- CreateAndAdd

    /** A node as its constructor leaves it, with pins of its own that nothing is connected to. */
    static ghost predicate Unused(node: INode)
      reads node`children, node`parents, node`inputs, node`outputs, node`updateOrder
      reads (set q | q in node.inputs)`connection, (set o | o in node.outputs)`connections
    {
      && node.children == [] && node.parents == [] && node.updateOrder == 0
      && (forall q :: q in node.inputs ==> q.node == node && q.connection == null)
      && (forall o :: o in node.outputs ==> o.node == node && o.connections == [])
    }

    /** Sorted by update order. Renumbering can undo this, since it does not move nodes in their lists. */
    static ghost predicate InOrder(v: seq<INode>)
      reads v`updateOrder
    {
      forall i, j :: 0 <= i < j < |v| ==> v[i].updateOrder <= v[j].updateOrder
    }

    /** Nothing before position k belongs after a node, nothing from k on before it. */
    static ghost predicate GoesAt(v: seq<INode>, k: nat, node: INode)
      reads v`updateOrder, node`updateOrder
    {
      && (forall i :: 0 <= i < |v| && i < k ==> v[i].updateOrder <= node.updateOrder)
      && (forall i :: 0 <= i < |v| && i >= k ==> node.updateOrder < v[i].updateOrder)
    }

    /** std::upper_bound over the visible nodes by update order: some position, and on a sorted list
        the one behind all nodes that are not above. */
    method UpperBound(node: INode) returns (first: nat)
      requires Valid() && Unused(node)
      ensures Valid() && Unused(node) && first <= |visibleNodes|
      ensures InOrder(visibleNodes) ==> GoesAt(visibleNodes, first, node)
      ensures InOrder(visibleNodes) <==> old(InOrder(visibleNodes))
    {
      hide Valid, Unused;
      first := 0;
      var len := |visibleNodes|;
      while len > 0
        invariant 0 <= len && first + len <= |visibleNodes|
        invariant InOrder(visibleNodes) ==>
          && (forall i :: 0 <= i < first ==> visibleNodes[i].updateOrder <= node.updateOrder)
          && (forall i :: first + len <= i < |visibleNodes| ==> node.updateOrder < visibleNodes[i].updateOrder)
      {
        var half := len / 2;
        if node.updateOrder < visibleNodes[first + half].updateOrder {
          len := half;
        } else {
          first := first + half + 1;
          len := len - half - 1;
        }
      }
    }

    /** A new node enters the lists it belongs in (seamGraph.cpp:359-372). */
    method Enlist(node: INode, first: nat, updatesEveryFrame: bool, updatesOverTime: bool)
      requires ListsOk() && node !in nodes && first <= |visibleNodes|
      modifies this
      ensures nodes == old(nodes) + [node] && ListsOk()
      ensures ins == old(ins) + (set q | q in node.inputs)
      ensures outs == old(outs) + (set o | o in node.outputs)
      ensures visibleNodes == if node.isVisual then InsertAt(old(visibleNodes), first, node) else old(visibleNodes)
      ensures nodesUpdateEveryFrame
        == old(if updatesEveryFrame then nodesUpdateEveryFrame + [node] else nodesUpdateEveryFrame)
      ensures nodesUpdateOverTime == old(if updatesOverTime then nodesUpdateOverTime + [node] else nodesUpdateOverTime)
      ensures nodesToDraw == old(nodesToDraw)
    {
      hide ListIn, Distinct, InsertAt;
      ListWith(nodesToDraw, nodes, |nodesToDraw|, node);
      ListWith(visibleNodes, nodes, first, node);
      ListWith(nodesUpdateEveryFrame, nodes, |nodesUpdateEveryFrame|, node);
      ListWith(nodesUpdateOverTime, nodes, |nodesUpdateOverTime|, node);
      nodes := nodes + [node];
      visibleNodes := if node.isVisual then InsertAt(visibleNodes, first, node) else visibleNodes;
      nodesUpdateEveryFrame := if updatesEveryFrame then nodesUpdateEveryFrame + [node] else nodesUpdateEveryFrame;
      nodesUpdateOverTime := if updatesOverTime then nodesUpdateOverTime + [node] else nodesUpdateOverTime;
      ins, outs := ins + (set q | q in node.inputs), outs + (set o | o in node.outputs);
    }

    static function InsertAt(v: seq<INode>, k: nat, n: INode): seq<INode>
      requires k <= |v|
    {
      v[..k] + [n] + v[k..]
    }

    static lemma StaysInOrder(v: seq<INode>, k: nat, node: INode)
      requires k <= |v| && InOrder(v) && GoesAt(v, k, node)
      ensures InOrder(InsertAt(v, k, node))
    {
    }

    static lemma ListWith(list: seq<INode>, nodes: seq<INode>, k: nat, node: INode)
      requires ListIn(list, nodes) && k <= |list| && node !in nodes
      ensures ListIn(list, nodes + [node]) && ListIn(InsertAt(list, k, node), nodes + [node])
      ensures forall n :: n in InsertAt(list, k, node) <==> n in list || n == node
      ensures k == |list| ==> InsertAt(list, k, node) == list + [node]
    {
      assert list == list[..k] + list[k..];
      var r := InsertAt(list, k, node);
      forall i, j | 0 <= i < j < |r| ensures r[i] != r[j] {
        assert i != k ==> r[i] in list;
        assert j != k ==> r[j] in list;
      }
      assert forall n :: n in r ==> n == node || n in list;
    }

    /** The same with all that a valid graph asks for; nothing is connected to the node yet. */
    method AddUnused(node: INode, first: nat, updatesEveryFrame: bool, updatesOverTime: bool)
      requires Valid() && node !in nodes && Unused(node) && |nodes| < MAX_NODES && first <= |visibleNodes|
      modifies this
      ensures Valid() && nodes == old(nodes) + [node] && EdgeSet() == old(EdgeSet())
      ensures ins == old(ins) + (set q | q in node.inputs)
      ensures outs == old(outs) + (set o | o in node.outputs)
      ensures visibleNodes == if node.isVisual then InsertAt(old(visibleNodes), first, node) else old(visibleNodes)
      ensures nodesUpdateEveryFrame
        == old(if updatesEveryFrame then nodesUpdateEveryFrame + [node] else nodesUpdateEveryFrame)
      ensures nodesUpdateOverTime == old(if updatesOverTime then nodesUpdateOverTime + [node] else nodesUpdateOverTime)
      ensures nodesToDraw == old(nodesToDraw)
    {
      hide EdgesOf, Ordered, CountsIn, EndsIn, OwnersIn, ListsOk, InsertAt, Unused, Orders, Distinct;
      ghost var all := All();
      RoomFor(node);
      Enlist(node, first, updatesEveryFrame, updatesOverTime);
      assert All() == all + {node};
    }

    /** The part of CreateAndAdd that files the new node in the lists of the graph. */
    method CreateAndAdd(node: INode, updatesEveryFrame: bool, updatesOverTime: bool) returns (ghost first: nat)
      requires Valid() && node !in nodes && Unused(node) && |nodes| < MAX_NODES
      modifies this
      ensures Valid() && nodes == old(nodes) + [node] && EdgeSet() == old(EdgeSet())
      ensures ins == old(ins) + (set q | q in node.inputs)
      ensures outs == old(outs) + (set o | o in node.outputs)
      ensures first <= |old(visibleNodes)| && (old(InOrder(visibleNodes)) ==> GoesAt(old(visibleNodes), first, node))
      ensures visibleNodes == if node.isVisual then old(visibleNodes)[..first] + [node] + old(visibleNodes)[first..]
                              else old(visibleNodes)
      ensures nodesUpdateEveryFrame
        == old(if updatesEveryFrame then nodesUpdateEveryFrame + [node] else nodesUpdateEveryFrame)
      ensures nodesUpdateOverTime == old(if updatesOverTime then nodesUpdateOverTime + [node] else nodesUpdateOverTime)
      ensures nodesToDraw == old(nodesToDraw)
      ensures old(InOrder(visibleNodes)) ==> InOrder(visibleNodes)
    {
      hide Valid, EdgeSet, Unused, InOrder, GoesAt, ListIn;
      ghost var visible, nodes0 := visibleNodes, nodes;
      VisibleIn();
      var position := UpperBound(node);
      first := position;
      ListWith(visible, nodes0, position, node);
      AddUnused(node, position, updatesEveryFrame, updatesOverTime);
      if old(InOrder(visibleNodes)) { StaysInOrder(visible, first, node); }
    }

    /** What holds of the graph holds with an unused node besides. */
    lemma RoomFor(node: INode)
      requires Valid() && node !in nodes && Unused(node)
      ensures Distinct(nodes + [node])
      ensures var all', ins' := All() + {node}, ins + (set q | q in node.inputs);
              var outs' := outs + (set o | o in node.outputs);
              && OwnersIn(all', ins', outs') && EndsIn(ins', outs') && CountsIn(all', WiresOf(ins'))
              && EdgesOf(WiresOf(ins')) == EdgeSet() && Ordered(all', EdgeSet(), Orders(all'))
    {
      assert node.children == [] && node.parents == [] && node.updateOrder == 0;
      hide EdgesOf, Between, Ordered, HasEntry, CountedBy, CountsIn, EndsIn, OwnersIn, ListsOk, Unused, Orders;
      var all, edges := All(), EdgeSet();
      var ins', outs' := ins + (set q | q in node.inputs), outs + (set o | o in node.outputs);
      OrdersValue(all);
      PinsWith(all, ins, outs, node, ins', outs');
      NoEdgesAt(node);
      CountsWith(all, Wires(), node, WiresOf(ins'));
      FreePins(Wires(), WiresOf(ins'));
      OrdersValue(all + {node});
      OrderedWith(all, edges, Orders(all), all + {node}, Orders(all + {node}), node);
    }

    lemma ListsInside()
      requires ListsOk()
      ensures forall n :: n in visibleNodes + nodesUpdateOverTime + nodesUpdateEveryFrame ==> n in All()
      ensures Distinct(nodesUpdateEveryFrame)
    {
      assert ListIn(visibleNodes, nodes) && ListIn(nodesUpdateOverTime, nodes) && ListIn(nodesUpdateEveryFrame, nodes);
    }

    static lemma OrdersValue(all: set<INode>)
      ensures forall n :: n in all ==> Orders(all)[n] == n.updateOrder
    {
    }

    lemma VisibleIn()
      requires Valid()
      ensures ListIn(visibleNodes, nodes)
    {
    }

    lemma NoEdgesAt(node: INode)
      requires OwnersOk() && EndsOk() && node !in nodes
      ensures forall e :: e in EdgeSet() ==> e.0 in All() && e.1 in All() && e.0 != node && e.1 != node
      ensures forall q :: q in ins && q.connection != null ==> q.node in All() && q.connection.node in All()
    {
      forall q | q in ins && q.connection != null ensures q.connection.node in All() { assert InputOk(q, outs); }
    }

    static lemma PinsWith(all: set<INode>, ins: set<PinInput>, outs: set<PinOutput>, node: INode,
                          ins': set<PinInput>, outs': set<PinOutput>)
      requires OwnersIn(all, ins, outs) && EndsIn(ins, outs) && Unused(node) && node !in all
      requires ins' == ins + (set q | q in node.inputs) && outs' == outs + (set o | o in node.outputs)
      ensures OwnersIn(all + {node}, ins', outs') && EndsIn(ins', outs')
      ensures forall q :: q in ins' && q !in ins ==> q.connection == null
    {
      forall q | q in ins' ensures InputOk(q, outs') { assert q in ins ==> InputOk(q, outs); }
      forall o | o in outs' ensures OutputOk(o, ins') { assert o in outs ==> OutputOk(o, ins); }
    }

    static lemma CountsWith(all: set<INode>, w: Wiring, node: INode, w': Wiring)
      requires CountsIn(all, w) && node !in all && node.children == [] && node.parents == []
      requires forall q :: q in w ==> q in w' && w'[q] == w[q]
      requires forall q :: q in w' && q !in w ==> w'[q] == null
      requires forall q :: q in w && w[q] != null ==> q.node in all && w[q].node in all
      ensures CountsIn(all + {node}, w')
    {
      var all' := all + {node};
      forall n | n in all' ensures NodeListsOk(n, all') { assert n in all ==> NodeListsOk(n, all); }
      forall a, b | a in all' && b in all' ensures Counted(w', a, b) {
        assert Between(w', a, b) == Between(w, a, b);
        if a in all && b in all {
          assert Counted(w, a, b);
        } else {
          assert Between(w, a, b) == {};
          assert (a in all ==> NodeListsOk(a, all)) && (b in all ==> NodeListsOk(b, all));
          NoEntryFor(a.children, b);
          NoEntryFor(b.parents, a);
        }
      }
    }
  }
}