/** Nodes, their pins, and the parent and child lists in which a node counts its connections. */
module Nodes {

  type Int16 = x: int | -0x8000 <= x <= 0x7FFF

  /** Number of nodes up to which an int16_t holds every update order. */
  const MAX_NODES := 0x7FFF

  class PinInput {
    const node: INode
    var connection: PinOutput?

    constructor (owner: INode)
      ensures node == owner && connection == null
    {
      node, connection := owner, null;
    }
  }

  class PinOutput {
    const node: INode
    var connections: seq<PinInput>

    constructor (owner: INode)
      ensures node == owner && connections == []
    {
      node, connections := owner, [];
    }
  }

  datatype NodeConnection = NodeConnection(node: INode, connCount: nat)

  // ----- lists of connections

  ghost predicate HasEntry(conns: seq<NodeConnection>, n: INode) {
    exists c :: c in conns && c.node == n
  }

  ghost predicate WellCounted(conns: seq<NodeConnection>) {
    forall c :: c in conns ==> c.connCount > 0
  }

  ghost predicate NoTwin(conns: seq<NodeConnection>) {
    forall i, j :: 0 <= i < j < |conns| ==> conns[i].node != conns[j].node
  }

  /** Connections to a node, over all entries for it. */
  ghost function ConnSum(conns: seq<NodeConnection>, n: INode): nat {
    if conns == [] then 0
    else (if conns[0].node == n then conns[0].connCount else 0) + ConnSum(conns[1..], n)
  }

  lemma {:induction false} ConnSumConcat(a: seq<NodeConnection>, b: seq<NodeConnection>, n: INode)
    ensures ConnSum(a + b, n) == ConnSum(a, n) + ConnSum(b, n)
  {
    if a == [] {
      assert a + b == b;
    } else {
      assert (a + b)[1..] == a[1..] + b;
      ConnSumConcat(a[1..], b, n);
    }
  }

  lemma ConnSumSplit(conns: seq<NodeConnection>, k: nat, n: INode)
    requires k < |conns|
    ensures ConnSum(conns, n)
      == ConnSum(conns[..k], n) + (if conns[k].node == n then conns[k].connCount else 0) + ConnSum(conns[k + 1..], n)
  {
    assert conns == conns[..k] + ([conns[k]] + conns[k + 1..]);
    ConnSumConcat(conns[..k], [conns[k]] + conns[k + 1..], n);
    ConnSumConcat([conns[k]], conns[k + 1..], n);
    assert [conns[k]][1..] == [];
  }

  lemma {:induction false} EntryIffSum(conns: seq<NodeConnection>, n: INode)
    requires WellCounted(conns)
    ensures HasEntry(conns, n) <==> ConnSum(conns, n) > 0
  {
    if conns != [] {
      assert WellCounted(conns[1..]);
      EntryIffSum(conns[1..], n);
      assert conns[0] in conns;
      assert forall c :: c in conns <==> c == conns[0] || c in conns[1..];
    }
  }

  /** An entry more, at any position. */
  function Inserted(conns: seq<NodeConnection>, k: nat, n: INode): seq<NodeConnection>
    requires k <= |conns|
  {
    conns[..k] + [NodeConnection(n, 1)] + conns[k..]
  }

  /** A connection more in an existing entry. */
  function Bumped(conns: seq<NodeConnection>, k: nat): seq<NodeConnection>
    requires k < |conns|
  {
    conns[k := conns[k].(connCount := conns[k].connCount + 1)]
  }

  /** A connection less; the entry goes with its last one. */
  function Dropped(conns: seq<NodeConnection>, k: nat): seq<NodeConnection>
    requires k < |conns| && conns[k].connCount > 0
  {
    if conns[k].connCount == 1 then conns[..k] + conns[k + 1..]
    else conns[k := conns[k].(connCount := conns[k].connCount - 1)]
  }

  lemma InsertedSum(conns: seq<NodeConnection>, k: nat, n: INode, x: INode)
    requires k <= |conns|
    ensures ConnSum(Inserted(conns, k, n), x) == ConnSum(conns, x) + if x == n then 1 else 0
  {
    assert conns == conns[..k] + conns[k..];
    ConnSumConcat(conns[..k], conns[k..], x);
    ConnSumConcat(conns[..k] + [NodeConnection(n, 1)], conns[k..], x);
    ConnSumConcat(conns[..k], [NodeConnection(n, 1)], x);
    assert [NodeConnection(n, 1)][1..] == [];
  }

  lemma BumpedSum(conns: seq<NodeConnection>, k: nat, x: INode)
    requires k < |conns|
    ensures ConnSum(Bumped(conns, k), x) == ConnSum(conns, x) + if x == conns[k].node then 1 else 0
  {
    ConnSumSplit(conns, k, x);
    ConnSumSplit(Bumped(conns, k), k, x);
    assert Bumped(conns, k)[..k] == conns[..k] && Bumped(conns, k)[k + 1..] == conns[k + 1..];
  }

  lemma DroppedSum(conns: seq<NodeConnection>, k: nat, x: INode)
    requires k < |conns| && conns[k].connCount > 0
    ensures ConnSum(Dropped(conns, k), x) == ConnSum(conns, x) - if x == conns[k].node then 1 else 0
  {
    ConnSumSplit(conns, k, x);
    if conns[k].connCount == 1 {
      ConnSumConcat(conns[..k], conns[k + 1..], x);
    } else {
      ConnSumSplit(Dropped(conns, k), k, x);
      assert Dropped(conns, k)[..k] == conns[..k] && Dropped(conns, k)[k + 1..] == conns[k + 1..];
    }
  }

  lemma InsertedKeeps(conns: seq<NodeConnection>, k: nat, n: INode)
    requires k <= |conns| && WellCounted(conns)
    ensures WellCounted(Inserted(conns, k, n))
    ensures NoTwin(conns) && !HasEntry(conns, n) && k == |conns| ==> NoTwin(Inserted(conns, k, n))
  {
    var r := Inserted(conns, k, n);
    forall c | c in r ensures c.connCount > 0 {
      assert c in conns || c == NodeConnection(n, 1);
    }
    if !HasEntry(conns, n) && k == |conns| {
      assert forall i :: 0 <= i < |conns| ==> conns[i] in conns && r[i] == conns[i];
    }
  }

  lemma BumpedKeeps(conns: seq<NodeConnection>, k: nat)
    requires k < |conns| && WellCounted(conns)
    ensures WellCounted(Bumped(conns, k))
    ensures NoTwin(conns) ==> NoTwin(Bumped(conns, k))
  {
  }

  lemma DroppedKeeps(conns: seq<NodeConnection>, k: nat)
    requires k < |conns| && WellCounted(conns)
    ensures conns[k].connCount > 0
    ensures WellCounted(Dropped(conns, k))
    ensures NoTwin(conns) ==> NoTwin(Dropped(conns, k))
  {
    assert conns[k] in conns;
  }

  /** A connection to n was counted at position k: in the entry there if it is the one for n, in a new
      entry before it otherwise. All other entries are as they were, in the same order. */
  ghost predicate EntryAdded(was: seq<NodeConnection>, now: seq<NodeConnection>, k: nat, n: INode) {
    k <= |was|
    && now == if k < |was| && was[k].node == n then was[..k] + [NodeConnection(n, was[k].connCount + 1)] + was[k + 1..]
              else was[..k] + [NodeConnection(n, 1)] + was[k..]
  }

  /** A connection less in the first entry for n, at position k; the entry goes with its last connection.
      All other entries are as they were, in the same order. */
  ghost predicate EntryTaken(was: seq<NodeConnection>, now: seq<NodeConnection>, k: nat, n: INode) {
    k < |was| && was[k].node == n && was[k].connCount > 0 && (forall i :: 0 <= i < k ==> was[i].node != n)
    && now == was[..k]
              + (if was[k].connCount > 1 then [NodeConnection(n, was[k].connCount - 1)] else [])
              + was[k + 1..]
  }

  // ----- order

  ghost predicate SortedByOrder(conns: seq<NodeConnection>)
    reads (set c | c in conns :: c.node)`updateOrder
  {
    forall i, j :: 0 <= i < j < |conns| ==> conns[i].node.updateOrder <= conns[j].node.updateOrder
  }

  /** The same by orders noted down. */
  ghost predicate SortedIn(conns: seq<NodeConnection>, ord: map<INode, int>) {
    forall i, j :: 0 <= i < j < |conns| ==>
      conns[i].node in ord && conns[j].node in ord && ord[conns[i].node] <= ord[conns[j].node]
  }

  ghost predicate PartsIn(conns: seq<NodeConnection>, k: nat, ord: map<INode, int>, order: int) {
    forall i :: 0 <= i < |conns| ==> conns[i].node in ord && (ord[conns[i].node] < order <==> i < k)
  }

  /** An entry that goes where the search lands leaves a sorted list sorted. */
  lemma AddedStaysSorted(was: seq<NodeConnection>, now: seq<NodeConnection>, k: nat, n: INode, ord: map<INode, int>)
    requires EntryAdded(was, now, k, n) && SortedIn(was, ord) && n in ord && PartsIn(was, k, ord, ord[n])
    ensures SortedIn(now, ord)
  {
    var inPlace := k < |was| && was[k].node == n;
    forall i, j | 0 <= i < j < |now|
      ensures now[i].node in ord && now[j].node in ord && ord[now[i].node] <= ord[now[j].node]
    {
      var i', j' := if inPlace || i < k then i else i - 1, if inPlace || j < k then j else j - 1;
      assert inPlace || i != k ==> now[i].node == was[i'].node;
      assert inPlace || j != k ==> now[j].node == was[j'].node;
    }
  }

  lemma TakenStaysSorted(was: seq<NodeConnection>, now: seq<NodeConnection>, k: nat, n: INode, ord: map<INode, int>)
    requires EntryTaken(was, now, k, n) && SortedIn(was, ord)
    ensures SortedIn(now, ord)
  {
    var stays := was[k].connCount > 1;
    forall i, j | 0 <= i < j < |now|
      ensures now[i].node in ord && now[j].node in ord && ord[now[i].node] <= ord[now[j].node]
    {
      var i', j' := if stays || i < k then i else i + 1, if stays || j < k then j else j + 1;
      assert now[i].node == was[i'].node && now[j].node == was[j'].node;
    }
  }

  /** The entries before position k are those below an update order. */
  ghost predicate Parts(conns: seq<NodeConnection>, k: nat, order: int)
    reads (set c | c in conns :: c.node)`updateOrder
  {
    forall i :: 0 <= i < |conns| ==> (conns[i].node.updateOrder < order <==> i < k)
  }

  /** std::find: the first entry for a node. */
  method Find(conns: seq<NodeConnection>, n: INode) returns (k: nat)
    ensures k <= |conns| && (forall i :: 0 <= i < k ==> conns[i].node != n)
    ensures k < |conns| ==> conns[k].node == n
    ensures k < |conns| <==> HasEntry(conns, n)
  {
    k := 0;
    while k < |conns| && conns[k].node != n
      invariant k <= |conns| && forall i :: 0 <= i < k ==> conns[i].node != n
    {
      k := k + 1;
    }
    if k < |conns| { assert conns[k] in conns; }
  }

  class INode {
    var updateOrder: Int16
    var dirty: bool
    var children: seq<NodeConnection>
    var parents: seq<NodeConnection>
    var inputs: seq<PinInput>
    var outputs: seq<PinOutput>
    const isVisual: bool

    constructor (visual: bool)
      ensures updateOrder == 0 && dirty && children == [] && parents == [] && inputs == [] && outputs == []
      ensures isVisual == visual
    {
      updateOrder, dirty, children, parents, inputs, outputs, isVisual := 0, true, [], [], [], [], visual;
    }

    /** std::lower_bound over the parents by update order. The list need not be sorted, so all that
        can be relied on is that some position comes out; on a sorted list it is the first one
        whose update order is not below. */
    method LowerBound(order: Int16) returns (first: nat)
      ensures first <= |parents|
      ensures SortedByOrder(parents) ==> Parts(parents, first, order)
    {
      first := 0;
      var len := |parents|;
      while len > 0
        invariant 0 <= len && first + len <= |parents|
        invariant SortedByOrder(parents) ==>
          && (forall i :: 0 <= i < first ==> parents[i].node.updateOrder < order)
          && (forall i :: first + len <= i < |parents| ==> parents[i].node.updateOrder >= order)
      {
        var half := len / 2;
        if parents[first + half].node.updateOrder < order {
          first := first + half + 1;
          len := len - half - 1;
        } else {
          len := half;
        }
      }
    }

    /** Counts a connection from a parent, in an entry at the position where the search lands: in the
        one that is there if it is the parent's, in a new one before it otherwise. The other entries
        stay as and where they are, and a sorted list stays sorted. */
    method AddParent(parent: INode) returns (isNew: bool, ghost at: nat)
      modifies this`parents
      ensures EntryAdded(old(parents), parents, at, parent)
      ensures isNew <==> at == |old(parents)| || old(parents)[at].node != parent
      ensures old(SortedByOrder(parents)) ==> Parts(old(parents), at, parent.updateOrder) && SortedByOrder(parents)
    {
      var k := LowerBound(parent.updateOrder);
      at := k;
      if k == |parents| || parents[k].node != parent {
        parents := Inserted(parents, k, parent);
        isNew := true;
      } else {
        assert parents == parents[..k] + [parents[k]] + parents[k + 1..];
        parents := Bumped(parents, k);
        isNew := false;
      }
    }

    /** Counts a connection to a child, in the one entry there is for it or in a new one at the end. */
    method AddChild(child: INode) returns (isNew: bool, ghost at: nat)
      modifies this`children
      ensures isNew <==> !HasEntry(old(children), child)
      ensures EntryAdded(old(children), children, at, child)
      ensures if isNew then at == |old(children)| else at < |old(children)| && old(children)[at].node == child
    {
      var k := Find(children, child);
      at := k;
      if k == |children| {
        assert children[..k] == children && children[k..] == [];
        children := children + [NodeConnection(child, 1)];
        isNew := true;
      } else {
        assert children == children[..k] + [children[k]] + children[k + 1..];
        children := Bumped(children, k);
        isNew := false;
      }
    }
  }
}
