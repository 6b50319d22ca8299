/** The sparse octree as a structure of heap nodes that Add, Remove and Update change in place.
    The ghost field `tree` is its abstract value and `cells` says which object stands at which path;
    every field of every node is determined by the two. */
module Octree {
  import opened OctreeCells
  import opened OctreeTree

  /** A uint8_t loop counter after some increments. */
  function ByteCounter(turns: nat): nat { turns % 0x100 }

  /** The loops over the items of a leaf count in a byte; they come to an end exactly when the leaf
      holds at most 255 items, which is why the capacity N is held below 256. */
  lemma ByteLoopEnds(count: nat)
    ensures (exists turns: nat :: ByteCounter(turns) >= count) <==> count <= 0xFF
  {
    if count <= 0xFF {
      assert ByteCounter(count) >= count;
    }
  }

  class OctreeNode<T> {
    var parent: OctreeNode?<T>
    var isBranch: bool
    var count: nat
    var branchChildren: seq<OctreeNode?<T>>
    var items: seq<T>
    ghost const path: Path  // the turns that lead here from the root

    constructor (asBranch: bool, newParent: OctreeNode?<T>, ghost at: Path)
      ensures path == at && parent == newParent && isBranch == asBranch && count == 0
      ensures branchChildren == seq(8, _ => null) && items == []
    {
      parent, isBranch, count := newParent, asBranch, 0;
      branchChildren, items, path := seq(8, _ => null), [], at;
    }
  }

  class Octree<T(==)> {
    const N: nat
    const box: Box
    const root: OctreeNode<T>
    ghost var tree: Tree<T>
    ghost var cells: map<Path, OctreeNode<T>>

    // ----- what the heap says about the value

    ghost predicate NodeLinked(p: Path)
      requires p in cells
      reads this, cells.Values`parent, cells.Values`isBranch, cells.Values`branchChildren, cells.Values`items
    {
      HasPath(tree, p) &&
      var n := cells[p];
      n.path == p && Links(cells, p, At(tree, p), n.parent, n.isBranch, n.branchChildren, n.items)
    }

    /** The pointers and items that the node at path p with value t must have. */
    static ghost predicate Links(cells: map<Path, OctreeNode<T>>, p: Path, t: Tree<T>, parent: OctreeNode?<T>,
                                 isBranch: bool, branchChildren: seq<OctreeNode?<T>>, items: seq<T>) {
      && (if p == [] then parent == null else p[..|p| - 1] in cells && parent == cells[p[..|p| - 1]])
      && (match t
          case Empty => false
          case Leaf(stored) => !isBranch && items == stored
          case Branch(kids) =>
            && isBranch && |branchChildren| == 8
            && forall i: int {:trigger branchChildren[i]} :: 0 <= i < 8 ==>
              branchChildren[i] == if p + [i] in cells then cells[p + [i]] else null)
    }

    ghost predicate Linked()
      reads this, cells.Values`parent, cells.Values`isBranch, cells.Values`branchChildren, cells.Values`items
    {
      && tree.Branch? && Shaped(tree)
      && [] in cells && cells[[]] == root
      && Covers(tree, cells)
      && (forall p: Path {:trigger NodeLinked(p)} :: p in cells ==> NodeLinked(p))
    }

    ghost predicate Counted()
      requires Linked()
      reads this, cells.Values
    {
      forall p: Path {:trigger NodeLinked(p)} :: p in cells ==> NodeLinked(p) && cells[p].count == |Items(At(tree, p))|
    }

    ghost predicate Valid()
      reads this, cells.Values
    {
      0 < N <= 0xFF && Linked() && Counted()
    }

    /** Nodes come and go, but none moves to another path. */
    twostate predicate SameOrFresh()
      reads this
    {
      forall p: Path :: p in cells ==> fresh(cells[p]) || (p in old(cells) && cells[p] == old(cells[p]))
    }

    /** The items are routed by these positions, all in bounds, at most N to a leaf. */
    ghost predicate Filed(pos: map<T, Vec3>)
      reads this
    {
      FiledIn(tree, pos, box, N)
    }

    constructor (capacity: nat, center: Vec3, bounds: Vec3)
      requires 0 < capacity <= 0xFF
      ensures Valid() && Items(tree) == [] && Filed(map[])
      ensures N == capacity && box == Box(center, bounds)
      ensures fresh(cells.Values)
    {
      N, box := capacity, Box(center, bounds);
      root := new OctreeNode(true, null, []);
      tree := Branch(Empties(8));
      new;
      hide ItemsOf, Items, Shaped, FiledIn, Fits, Routed;
      cells := map[[] := root];
      NewTree<T>(box, N);
      forall p: Path | HasPath(tree, p) && !At(tree, p).Empty? ensures p == [] {
        NothingBelowEmpties<T>(p);
      }
    }

    method Count() returns (n: nat)
      requires Valid()
      ensures n == |Items(tree)|
    {
      assert NodeLinked([]);
      n := root.count;
    }

    // ----- counts along the parent pointers

    lemma PrefixLinked(p: Path, k: nat)
      requires Linked() && p in cells && k <= |p|
      ensures p[..k] in cells && NodeLinked(p[..k])
      ensures k < |p| ==> At(tree, p[..k]).Branch?
    {
      assert NodeLinked(p);
      AtPrefix(tree, p, k);
      assert p[..|p|] == p;
    }

    /** The nodes from the root down to a path. */
    ghost function Chain(p: Path): (chain: seq<OctreeNode<T>>)
      requires forall k: nat :: k <= |p| ==> p[..k] in cells
      reads this
    {
      var at := cells;
      seq(|p| + 1, k requires 0 <= k <= |p| && p[..k] in at => at[p[..k]])
    }

    lemma ChainLinked(p: Path)
      requires Linked() && p in cells
      ensures forall k: nat :: k <= |p| ==> p[..k] in cells
      ensures Chained(Chain(p)) && Chain(p)[|p|] == cells[p]
      ensures forall q: Path :: q in cells ==> (cells[q] in Chain(p) <==> IsPrefix(q, p))
    {
      forall k: nat | k <= |p| ensures p[..k] in cells && NodeLinked(p[..k]) {
        PrefixLinked(p, k);
      }
      assert p[..|p|] == p;
      var chain := Chain(p);
      forall k: nat | 0 < k < |chain| ensures chain[k].parent == chain[k - 1] {
        assert p[..k][..k - 1] == p[..k - 1];
      }
      forall q: Path | q in cells && IsPrefix(q, p) ensures cells[q] in chain {
        assert chain[|q|] == cells[q];
      }
      forall q: Path | q in cells && cells[q] in chain ensures IsPrefix(q, p) {
        assert NodeLinked(q);
      }
    }

    static ghost predicate Chained(chain: seq<OctreeNode<T>>)
      reads chain`parent
    {
      && |chain| > 0 && chain[0].parent == null
      && (forall k: nat :: k < |chain| ==> |chain[k].path| == k)
      && (forall k: nat :: 0 < k < |chain| ==> chain[k].parent == chain[k - 1])
    }

    /** The loops of Add and Remove that walk up from a leaf and adjust every count. */
    static method AdjustCounts(leaf: OctreeNode<T>, delta: int, ghost chain: seq<OctreeNode<T>>)
      requires Chained(chain) && chain[|chain| - 1] == leaf
      requires forall k: nat :: k < |chain| ==> chain[k].count + delta >= 0
      modifies chain`count
      ensures forall n :: n in chain ==> n.count == old(n.count) + delta
    {
      var updated: OctreeNode?<T> := leaf;
      ghost var k := |chain| - 1;
      while updated != null
        invariant Chained(chain)
        invariant if updated == null then k == -1 else 0 <= k < |chain| && chain[k] == updated
        invariant forall j: nat :: j < |chain| ==> chain[j].count == old(chain[j].count) + if j > k then delta else 0
        decreases k
      {
        assert k > 0 ==> chain[k].parent == chain[k - 1];
        updated.count := updated.count + delta;
        updated := updated.parent;
        k := k - 1;
      }
    }

    // ----- exchanging the subtree at a path

    /** Objects that form the subtree s, standing below the path lp with `at` as their parent. */
    static ghost predicate Planted(sub: map<Path, OctreeNode<T>>, s: Tree<T>, lp: Path, at: OctreeNode<T>)
      reads sub.Values
    {
      && Shaped(s) && [] in sub
      && Covers(s, sub)
      && (forall q: Path {:trigger PlantedNode(sub, s, lp, at, q)} :: q in sub ==> PlantedNode(sub, s, lp, at, q))
    }

    static ghost predicate PlantedNode(sub: map<Path, OctreeNode<T>>, s: Tree<T>, lp: Path, at: OctreeNode<T>, q: Path)
      requires q in sub
      reads sub.Values
    {
      HasPath(s, q) &&
      var n := sub[q];
      && n.path == lp + q && n.count == |Items(At(s, q))|
      && (q == [] ==> n.parent == at)
      && Links(sub, q, At(s, q), if q == [] then null else n.parent, n.isBranch, n.branchChildren, n.items)
    }

    static ghost function Replanted(cells: map<Path, OctreeNode<T>>, lp: Path,
        sub: map<Path, OctreeNode<T>>): (r: map<Path, OctreeNode<T>>)
      ensures forall p: Path :: p in r <==> if IsPrefix(lp, p) then p[|lp|..] in sub else p in cells
      ensures forall p: Path :: p in r ==> r[p] == if IsPrefix(lp, p) then sub[p[|lp|..]] else cells[p]
    {
      var below := map p | p in (set q | q in sub :: lp + q) :: sub[p[|lp|..]];
      assert forall p: Path :: IsPrefix(lp, p) ==> p == lp + p[|lp|..];
      map p | p in cells.Keys + below.Keys && (if IsPrefix(lp, p) then p in below else p in cells)
        :: if IsPrefix(lp, p) then below[p] else cells[p]
    }

    /** The assignment branch_children[index] = node, and what it does to the value. */
    method Replace(at: OctreeNode<T>, index: Octant, node: OctreeNode<T>,
                   ghost lp: Path, ghost s: Tree<T>, ghost sub: map<Path, OctreeNode<T>>)
      requires Linked() && HasPath(tree, lp) && lp != [] && lp[|lp| - 1] == index
      requires lp[..|lp| - 1] in cells && cells[lp[..|lp| - 1]] == at
      requires Planted(sub, s, lp, at) && sub[[]] == node
      modifies this, at`branchChildren
      ensures Linked() && tree == Put(old(tree), lp, s) && cells == Replanted(old(cells), lp, sub)
    {
      ghost var t0, c0, up := tree, cells, lp[..|lp| - 1];
      assert NodeLinked(up);
      AtPrefix(tree, lp, |lp| - 1);
      ShapedPut(tree, lp, s);
      forall q: Path | q in sub ensures sub[q] != at { assert PlantedNode(sub, s, lp, at, q); }
      at.branchChildren := at.branchChildren[index := node];
      tree, cells := Put(tree, lp, s), Replanted(cells, lp, sub);
      ReplantedCovers(t0, c0, lp, s, sub);
      forall p: Path | p in cells ensures NodeLinked(p) {
        if IsPrefix(lp, p) {
          var q := p[|lp|..];
          assert p == lp + q && old(PlantedNode(sub, s, lp, at, q));
          ReplantedBelow(t0, c0, lp, s, sub, q, cells[p].parent, cells[p].isBranch, cells[p].branchChildren,
              cells[p].items);
        } else {
          assert old(NodeLinked(p));
          ReplantedElsewhere(t0, c0, lp, s, sub, index, p, cells[p].parent, cells[p].isBranch,
              old(cells[p].branchChildren), cells[p].items);
        }
      }
    }

    /** The same for an exchange that keeps the number of items, with which all counts stay right. */
    method Graft(at: OctreeNode<T>, index: Octant, node: OctreeNode<T>,
                 ghost lp: Path, ghost s: Tree<T>, ghost sub: map<Path, OctreeNode<T>>)
      requires Valid() && HasPath(tree, lp) && lp != [] && lp[|lp| - 1] == index
      requires lp[..|lp| - 1] in cells && cells[lp[..|lp| - 1]] == at
      requires Planted(sub, s, lp, at) && sub[[]] == node && |Items(s)| == |Items(At(tree, lp))|
      modifies this, at`branchChildren
      ensures Valid() && tree == Put(old(tree), lp, s) && cells == Replanted(old(cells), lp, sub)
    {
      Replace(at, index, node, lp, s, sub);
      forall p: Path | p in cells ensures NodeLinked(p) && cells[p].count == |Items(At(tree, p))| {
        if IsPrefix(lp, p) {
          AtPut(old(tree), lp, s, p);
          assert old(PlantedNode(sub, s, lp, at, p[|lp|..]));
        } else {
          assert old(NodeLinked(p));
          SizeElsewhere(old(tree), lp, s, p);
        }
        assert NodeLinked(p);
      }
    }

    static ghost predicate Covers(t: Tree<T>, cells: map<Path, OctreeNode<T>>) {
      forall p: Path {:trigger HasPath(t, p)} :: HasPath(t, p) && !At(t, p).Empty? ==> p in cells
    }

    static lemma ReplantedCovers(t: Tree<T>, cells: map<Path, OctreeNode<T>>, lp: Path, s: Tree<T>,
        sub: map<Path, OctreeNode<T>>)
      requires Covers(t, cells) && Covers(s, sub) && HasPath(t, lp)
      ensures Covers(Put(t, lp, s), Replanted(cells, lp, sub))
    {
      var t' := Put(t, lp, s);
      forall p: Path | HasPath(t', p) && !At(t', p).Empty? ensures p in Replanted(cells, lp, sub) {
        AtPut(t, lp, s, p);
        if IsPrefix(p, lp) && p != lp { AtPrefix(t, lp, |p|); }
      }
    }

    static lemma ReplantedElsewhere(t: Tree<T>, cells: map<Path, OctreeNode<T>>, lp: Path, s: Tree<T>,
        sub: map<Path, OctreeNode<T>>,
                                    index: Octant, p: Path, parent: OctreeNode?<T>,
                                    isBranch: bool, branchChildren: seq<OctreeNode?<T>>, items: seq<T>)
      requires HasPath(t, lp) && lp != [] && lp[|lp| - 1] == index && !IsPrefix(lp, p)
      requires [] in sub && HasPath(t, p) && Links(cells, p, At(t, p), parent, isBranch, branchChildren, items)
      ensures HasPath(Put(t, lp, s), p)
      ensures Links(Replanted(cells, lp, sub), p, At(Put(t, lp, s), p), parent, isBranch,
                    if p == lp[..|lp| - 1] && |branchChildren| == 8 then branchChildren[index := sub[[]]]
                    else branchChildren, items)
    {
      AtPut(t, lp, s, p);
      if IsPrefix(p, lp) { AtPrefix(t, lp, |p|); }
      var r := Replanted(cells, lp, sub);
      if p != [] {
        assert !IsPrefix(lp, p[..|p| - 1]);
      }
      forall i: int | 0 <= i < 8
        ensures p + [i] in r <==> if p + [i] == lp then true else p + [i] in cells
        ensures p + [i] in r ==> r[p + [i]] == if p + [i] == lp then sub[[]] else cells[p + [i]]
      {
        if IsPrefix(lp, p + [i]) {
          assert |lp| == |p| + 1;
          assert (p + [i])[|lp|..] == [];
        }
      }
      assert p == lp[..|lp| - 1] ==> lp == p + [index];
    }

    static lemma ReplantedBelow(t: Tree<T>, cells: map<Path, OctreeNode<T>>, lp: Path, s: Tree<T>,
        sub: map<Path, OctreeNode<T>>,
                                q: Path, parent: OctreeNode?<T>,
                                isBranch: bool, branchChildren: seq<OctreeNode?<T>>, items: seq<T>)
      requires HasPath(t, lp) && lp != [] && lp[..|lp| - 1] in cells
      requires q in sub && HasPath(s, q)
      requires q == [] ==> parent == cells[lp[..|lp| - 1]]
      requires Links(sub, q, At(s, q), if q == [] then null else parent, isBranch, branchChildren, items)
      ensures HasPath(Put(t, lp, s), lp + q)
      ensures Links(Replanted(cells, lp, sub), lp + q, At(Put(t, lp, s), lp + q),
                    parent, isBranch, branchChildren, items)
    {
      var p := lp + q;
      assert IsPrefix(lp, p) && p[|lp|..] == q;
      AtPut(t, lp, s, p);
      if q == [] {
        assert p == lp;
        assert !IsPrefix(lp, p[..|p| - 1]);
      } else {
        assert p[..|p| - 1] == lp + q[..|q| - 1];
        assert p[..|p| - 1][|lp|..] == q[..|q| - 1];
      }
      forall i: int | 0 <= i < 8 ensures IsPrefix(lp, p + [i]) && (p + [i])[|lp|..] == q + [i] {
        assert (p + [i])[..|lp|] == lp;
      }
    }

    /** Writing the items of a leaf, and what it does to the value. */
    method Store(leaf: OctreeNode<T>, items: seq<T>, ghost lp: Path)
      requires Linked() && lp in cells && cells[lp] == leaf && HasPath(tree, lp) && At(tree, lp).Leaf?
      modifies this`tree, leaf`items
      ensures Linked() && tree == Put(old(tree), lp, Leaf(items))
    {
      hide Put, Shaped, ItemsOf, HasPath;
      ghost var t0 := tree;
      assert NodeLinked(lp);
      ShapedPut(tree, lp, Leaf(items));
      leaf.items := items;
      tree := Put(tree, lp, Leaf(items));
      StoredCovers(t0, cells, lp, items);
      forall p: Path | p in cells ensures NodeLinked(p) {
        assert old(NodeLinked(p));
        StoredLinks(t0, cells, lp, items, p, cells[p].parent, cells[p].isBranch, cells[p].branchChildren,
            old(cells[p].items));
      }
    }

    static lemma StoredCovers(t: Tree<T>, cells: map<Path, OctreeNode<T>>, lp: Path, stored: seq<T>)
      requires Covers(t, cells) && HasPath(t, lp) && lp in cells
      ensures Covers(Put(t, lp, Leaf(stored)), cells) && (lp != [] ==> Put(t, lp, Leaf(stored)).Branch?)
    {
      var t' := Put(t, lp, Leaf(stored));
      forall p: Path | HasPath(t', p) && !At(t', p).Empty? ensures p in cells {
        AtPut(t, lp, Leaf(stored), p);
        if IsPrefix(p, lp) && p != lp { AtPrefix(t, lp, |p|); }
        if IsPrefix(lp, p) { assert p == lp + p[|lp|..]; }
      }
    }

    static lemma StoredLinks(t: Tree<T>, cells: map<Path, OctreeNode<T>>, lp: Path, stored: seq<T>, p: Path,
        parent: OctreeNode?<T>,
                             isBranch: bool, branchChildren: seq<OctreeNode?<T>>, items: seq<T>)
      requires HasPath(t, lp) && At(t, lp).Leaf? && HasPath(t, p)
      requires Links(cells, p, At(t, p), parent, isBranch, branchChildren, items)
      ensures HasPath(Put(t, lp, Leaf(stored)), p)
      ensures Links(cells, p, At(Put(t, lp, Leaf(stored)), p), parent, isBranch, branchChildren,
                    if p == lp then stored else items)
    {
      AtPut(t, lp, Leaf(stored), p);
      if IsPrefix(p, lp) {
        AtPrefix(t, lp, |p|);
        if p == lp { assert lp[|p|..] == []; }
      } else if IsPrefix(lp, p) {
        AtPrefix(t, p, |lp|);
      }
    }

    // ----- looking up

    lemma ChildOf(p: Path, i: Octant)
      requires Linked() && p in cells && cells[p].isBranch
      ensures HasPath(tree, p) && At(tree, p).Branch? && Shaped(At(tree, p))
      ensures HasPath(tree, p + [i]) && At(tree, p + [i]) == At(tree, p).kids[i]
      ensures |cells[p].branchChildren| == 8
      ensures cells[p].branchChildren[i] == if p + [i] in cells then cells[p + [i]] else null
      ensures p + [i] in cells ==> NodeLinked(p + [i]) && cells[p + [i]].isBranch == At(tree, p).kids[i].Branch?
      ensures p + [i] in cells <==> !At(tree, p).kids[i].Empty?
    {
      assert NodeLinked(p);
      ShapedPut(tree, p, Empty);
      PutChild(tree, p, i, Empty);
      assert p + [i] in cells ==> NodeLinked(p + [i]);
    }

    lemma LeafStored(p: Path)
      requires Valid() && p in cells && HasPath(tree, p) && At(tree, p).Leaf?
      ensures At(tree, p) == Leaf(cells[p].items) && cells[p].count == |cells[p].items|
    {
      assert NodeLinked(p);
    }

    lemma NodeKind(p: Path)
      requires Linked() && p in cells
      ensures NodeLinked(p) && HasPath(tree, p) && (cells[p].isBranch <==> At(tree, p).Branch?)
    {
      assert NodeLinked(p);
    }

    lemma AtRoot(position: Vec3)
      requires Linked()
      ensures NodeLinked([]) && HasPath(tree, []) && At(tree, []) == tree && root.isBranch
      ensures BoxAt(box, []) == box && Follows(position, [], box)
      ensures [] + DownPath(tree, position, box) == DownPath(tree, position, box)
    {
      assert NodeLinked([]);
    }

    /** The subtree at a path; the termination measure of walks down the tree. */
    ghost function Below(p: Path): Tree<T>
      reads this`tree
    {
      if HasPath(tree, p) then At(tree, p) else Empty
    }

    method FindLeaf(position: Vec3, branch: OctreeNode<T>, cell: Box, ghost bp: Path)
      returns (parent: OctreeNode<T>, leaf: OctreeNode?<T>, leafIndex: Octant, leafCell: Box, ghost lp: Path)
      requires Linked() && bp in cells && cells[bp] == branch && branch.isBranch
      ensures HasPath(tree, bp) && At(tree, bp).Branch? && Shaped(At(tree, bp))
      ensures lp == bp + DownPath(At(tree, bp), position, cell) && HasPath(tree, lp)
      ensures leafCell == BoxAt(cell, DownPath(At(tree, bp), position, cell))
      ensures lp[|lp| - 1] == leafIndex && lp[..|lp| - 1] in cells && cells[lp[..|lp| - 1]] == parent && parent.isBranch
      ensures leaf == if lp in cells then cells[lp] else null
      ensures if leaf == null then At(tree, lp).Empty? else At(tree, lp).Leaf?
      decreases Below(bp)
    {
      hide Links, Covers, HasPath, At, Put, Shaped, DownPath, BoxAt, Follows;
      leafIndex := CalculateNodeIndex(position, cell.center);
      ChildOf(bp, leafIndex);
      DownStep(At(tree, bp), position, cell);
      leaf := branch.branchChildren[leafIndex];
      leafCell := Child(cell, leafIndex);
      parent, lp := branch, bp + [leafIndex];
      if leaf != null && leaf.isBranch {
        ghost var below := DownPath(At(tree, lp), position, leafCell);
        ConcatAssociates(bp, [leafIndex], below);
        parent, leaf, leafIndex, leafCell, lp := FindLeaf(position, leaf, leafCell, lp);
      }
    }

    // ----- Add

    /** The children of a node that a leaf is being split into, after some of its items. */
    static ghost predicate SplitInto(branch: OctreeNode<T>, kids: seq<Tree<T>>)
      reads branch, branch.branchChildren
    {
      && |kids| == 8 && |branch.branchChildren| == 8
      && forall i: int {:trigger SplitChild(branch, kids, i)} :: 0 <= i < 8 ==> SplitChild(branch, kids, i)
    }

    static ghost predicate SplitChild(branch: OctreeNode<T>, kids: seq<Tree<T>>, i: Octant)
      requires |kids| == 8 && |branch.branchChildren| == 8
      reads branch, branch.branchChildren
    {
      var n := branch.branchChildren[i];
      && !kids[i].Branch? && (n == null <==> kids[i].Empty?)
      && (n != null ==> n.path == branch.path + [i] && n.parent == branch && !n.isBranch
                        && n.items == Items(kids[i]) && n.count == |n.items|)
    }

    static method SplitLeaf(branch: OctreeNode<T>, leaf: OctreeNode<T>, cell: Box, pos: map<T, Vec3>)
      requires leaf.count == |leaf.items| && forall x :: x in leaf.items ==> x in pos
      requires branch != leaf && branch.count == 0 && branch.branchChildren == seq(8, _ => null)
      modifies branch`branchChildren, branch`count
      ensures SplitInto(branch, SplitKids(leaf.items, pos, cell.center))
      ensures branch.count == leaf.count && |branch.branchChildren| == 8
      ensures forall j: int {:trigger branch.branchChildren[j]} ::
        0 <= j < 8 && branch.branchChildren[j] != null ==> fresh(branch.branchChildren[j])
    {
      assert SplitKids(leaf.items[..0], pos, cell.center) == Empties<T>(8);
      forall j: int | 0 <= j < 8
          ensures SplitChild(branch, Empties<T>(8), j) { assert branch.branchChildren[j] == null; }
      for i := 0 to leaf.count
        invariant leaf.count == |leaf.items| && branch.count == i && |branch.branchChildren| == 8
        invariant SplitInto(branch, SplitKids(leaf.items[..i], pos, cell.center))
        invariant forall j: int {:trigger branch.branchChildren[j]} ::
          0 <= j < 8 && branch.branchChildren[j] != null ==> fresh(branch.branchChildren[j])
      {
        label Step:
        ghost var kids := SplitKids(leaf.items[..i], pos, cell.center);
        assert leaf.items[..i + 1][..i] == leaf.items[..i];
        var leafIndex := CalculateNodeIndex(pos[leaf.items[i]], cell.center);
        assert SplitChild(branch, kids, leafIndex);
        var newLeaf := branch.branchChildren[leafIndex];
        if newLeaf == null {
          newLeaf := new OctreeNode(false, branch, branch.path + [leafIndex]);
          branch.branchChildren := branch.branchChildren[leafIndex := newLeaf];
        }
        newLeaf.items := newLeaf.items + [leaf.items[i]];
        newLeaf.count := newLeaf.count + 1;
        branch.count := branch.count + 1;
        ghost var kids' := SplitKids(leaf.items[..i + 1], pos, cell.center);
        assert kids' == kids[leafIndex := Leaf(Items(kids[leafIndex]) + [leaf.items[i]])];
        forall j: int | 0 <= j < 8 ensures SplitChild(branch, kids', j) {
          assert (branch.path + [j])[|branch.path|] == j;
          assert old@Step(SplitChild(branch, kids, j));
        }
      }
      assert leaf.items[..leaf.count] == leaf.items;
    }

    /** A fresh leaf for an empty child. */
    method NewLeaf(at: OctreeNode<T>, index: Octant, ghost lp: Path) returns (leaf: OctreeNode<T>)
      requires Valid() && HasPath(tree, lp) && lp != [] && lp[|lp| - 1] == index && At(tree, lp).Empty?
      requires lp[..|lp| - 1] in cells && cells[lp[..|lp| - 1]] == at
      modifies this, at`branchChildren
      ensures Valid() && tree == Put(old(tree), lp, Leaf([]))
      ensures lp in cells && cells[lp] == leaf && SameOrFresh()
      ensures lp[..|lp| - 1] in cells && cells[lp[..|lp| - 1]] == at
    {
      hide Links, Covers, HasPath, At, Put, Shaped, ItemsOf;
      leaf := new OctreeNode(false, at, lp);
      ghost var t0, s: Tree<T>, sub := tree, Leaf([]), map[[] := leaf];
      LeafPlanted(leaf, at);
      Graft(at, index, leaf, lp, s, sub);
      PutPut(t0, lp, s, s);
      assert lp[|lp|..] == [];
    }

    /** The full leaf becomes a branch (octree.h:138-143). */
    method SplitFullLeaf(at: OctreeNode<T>, leaf: OctreeNode<T>, index: Octant, cell: Box, pos: map<T, Vec3>,
        ghost lp: Path)
      returns (newBranch: OctreeNode<T>)
      requires Valid() && lp in cells && cells[lp] == leaf && lp != [] && lp[|lp| - 1] == index
      requires HasPath(tree, lp) && At(tree, lp).Leaf? && leaf.items == At(tree, lp).items
      requires lp[..|lp| - 1] in cells && cells[lp[..|lp| - 1]] == at
      requires forall x :: x in leaf.items ==> x in pos
      modifies this, at`branchChildren
      ensures Valid() && tree == Put(old(tree), lp, Branch(SplitKids(leaf.items, pos, cell.center)))
      ensures lp in cells && cells[lp] == newBranch && newBranch.isBranch && SameOrFresh()
    {
      hide Links, Covers, HasPath, At, Put, Shaped, SplitKids, SplitInto;
      LeafStored(lp);
      newBranch := new OctreeNode(true, at, lp);
      SplitLeaf(newBranch, leaf, cell, pos);
      ghost var t0, kids := tree, SplitKids(leaf.items, pos, cell.center);
      SplitKidsSameItems(leaf.items, pos, cell.center);
      ghost var sub := SplitNodes(newBranch);
      SplitPlanted(newBranch, kids, at);
      assert forall q: Path :: q in sub ==> fresh(sub[q]);
      Graft(at, index, newBranch, lp, Branch(kids), sub);
      PutPut(t0, lp, Branch(kids), Branch(kids));
      assert lp[|lp|..] == [];
    }

    /** The objects of a freshly split branch. */
    static ghost function SplitNodes(branch: OctreeNode<T>): (sub: map<Path, OctreeNode<T>>)
      requires |branch.branchChildren| == 8
      reads branch
      ensures [] in sub && sub[[]] == branch
      ensures forall q: Path :: |q| == 1 ==> (q in sub <==> branch.branchChildren[q[0]] != null)
      ensures forall q: Path :: |q| == 1 && q in sub ==> sub[q] == branch.branchChildren[q[0]]
      ensures forall q: Path :: q in sub ==> |q| <= 1
    {
      var c := branch.branchChildren;
      var keys := {[]} + (set i: Octant | 0 <= i < 8 && c[i] != null :: [i]);
      assert forall q: Path :: |q| == 1 ==> q == [q[0]];
      map q | q in keys && (q == [] || (|q| == 1 && c[q[0]] != null)) :: if q == [] then branch else c[q[0]]
    }

    static lemma LeafPlanted(leaf: OctreeNode<T>, at: OctreeNode<T>)
      requires !leaf.isBranch && leaf.parent == at && leaf.count == |leaf.items|
      ensures Planted(map[[] := leaf], Leaf(leaf.items), leaf.path, at)
    {
      assert leaf.path + [] == leaf.path;
      assert PlantedNode(map[[] := leaf], Leaf(leaf.items), leaf.path, at, []);
    }

    static lemma SplitPlanted(branch: OctreeNode<T>, kids: seq<Tree<T>>, at: OctreeNode<T>)
      requires SplitInto(branch, kids) && branch.isBranch && branch.parent == at
      requires branch.count == |ItemsOf(kids)|
      ensures Planted(SplitNodes(branch), Branch(kids), branch.path, at)
    {
      var sub, s := SplitNodes(branch), Branch(kids);
      forall i: int | 0 <= i < 8 ensures !kids[i].Branch? { assert SplitChild(branch, kids, i); }
      forall q: Path | HasPath(s, q) && !At(s, q).Empty? ensures q in sub {
        if q != [] {
          assert SplitChild(branch, kids, q[0]);
          assert HasPath(kids[q[0]], q[1..]);
          assert |q| == 1 && At(s, q) == At(kids[q[0]], []);
        }
      }
      forall q: Path | q in sub ensures PlantedNode(sub, s, branch.path, at, q) {
        if q == [] {
          assert branch.path + [] == branch.path;
          forall i: int | 0 <= i < 8
              ensures branch.branchChildren[i] == if [] + [i] in sub then sub[[] + [i]] else null {
            assert [] + [i] == [i];
          }
        } else {
          assert SplitChild(branch, kids, q[0]);
          assert q == [q[0]] && q[1..] == [] && At(s, q) == kids[q[0]];
          assert q[..|q| - 1] == [];
        }
      }
    }

    /** Writing the items of a leaf together with the counts above it. */
    method Refill(leaf: OctreeNode<T>, items: seq<T>, delta: int, ghost lp: Path)
      requires Valid() && lp in cells && cells[lp] == leaf && HasPath(tree, lp) && At(tree, lp) == Leaf(leaf.items)
      requires |items| == |leaf.items| + delta
      modifies this`tree, leaf`items, cells.Values`count
      ensures Valid() && tree == Put(old(tree), lp, Leaf(items))
    {
      hide At, HasPath, ItemsOf, Put, Shaped, Links, Covers;
      assert NodeLinked(lp);
      ChainLinked(lp);
      ghost var chain := Chain(lp);
      forall k: nat | k < |chain| ensures chain[k].count + delta >= 0 {
        assert NodeLinked(lp[..k]);
        SizeElsewhere(tree, lp, Leaf(items), lp[..k]);
      }
      Store(leaf, items, lp);
      AdjustCounts(leaf, delta, chain);
      forall p: Path | p in cells ensures NodeLinked(p) && cells[p].count == |Items(At(tree, p))| {
        assert old(NodeLinked(p));
        LeafHasNothingBelow(old(tree), lp, p);
        SizeElsewhere(old(tree), lp, Leaf(items), p);
        assert NodeLinked(p);
      }
    }

    /** Add below a branch. The depth d bounds the nested splits: at that depth the cell of the new
        item has room for it. */
    method AddBelow(item: T, position: Vec3, branch: OctreeNode<T>, cell: Box, pos: map<T, Vec3>, ghost bp: Path,
        ghost d: nat)
      requires Valid() && Filed(pos) && bp in cells && cells[bp] == branch && branch.isBranch && HasPath(tree, bp)
      requires cell == BoxAt(box, bp) && Follows(position, bp, box) && InBox(position, box)
      requires item !in Items(tree) || pos[item] == position
      requires Company(Items(At(tree, bp)), pos, position, cell, d) < N
      modifies this, cells.Values
      ensures Valid() && Filed(pos[item := position]) && SameOrFresh()
      ensures multiset(Items(tree)) == old(multiset(Items(tree))) + multiset{item}
      ensures At(old(tree), bp).Branch? && Shaped(At(old(tree), bp))
      ensures GrownAt(old(tree), tree, bp + DownPath(At(old(tree), bp), position, cell), item, N)
      decreases d, 1
    {
      hide Links, Covers, HasPath, At, Put, Shaped, Items, DownPath, BoxAt, Follows, Routed, Fits, Company, FiledIn,
        GrownAt;
      ghost var t0 := tree;
      var at, leaf, leafIndex, leafCell, lp, e := FindOrAddLeaf(item, position, branch, cell, pos, bp, d);
      AddToLeaf(item, position, at, leaf, leafIndex, leafCell, pos, lp, d, e);
      if At(t0, lp).Empty? { GrownFromEmpty(t0, tree, lp, item, N); }
    }

    /** The leaf a position leads to, created when its place is empty (octree.h:127-133). When it is
        full, e levels of the depth d remain below it. */
    method FindOrAddLeaf(item: T, position: Vec3, branch: OctreeNode<T>, cell: Box, pos: map<T, Vec3>,
        ghost bp: Path, ghost d: nat)
      returns (at: OctreeNode<T>, leaf: OctreeNode<T>, leafIndex: Octant, leafCell: Box, ghost lp: Path, ghost e: nat)
      requires Valid() && Filed(pos) && bp in cells && cells[bp] == branch && branch.isBranch && HasPath(tree, bp)
      requires cell == BoxAt(box, bp) && Follows(position, bp, box)
      requires Company(Items(At(tree, bp)), pos, position, cell, d) < N
      modifies this, cells.Values
      ensures Valid() && Filed(pos) && SameOrFresh() && multiset(Items(tree)) == multiset(Items(old(tree)))
      ensures item in Items(tree) <==> item in Items(old(tree))
      ensures At(old(tree), bp).Branch? && Shaped(At(old(tree), bp))
      ensures lp == bp + DownPath(At(old(tree), bp), position, cell) && HasPath(old(tree), lp)
      ensures tree == if At(old(tree), lp).Empty? then Put(old(tree), lp, Leaf([])) else old(tree)
      ensures lp in cells && cells[lp] == leaf && HasPath(tree, lp) && At(tree, lp) == Leaf(leaf.items)
      ensures lp != [] && lp[|lp| - 1] == leafIndex && lp[..|lp| - 1] in cells && cells[lp[..|lp| - 1]] == at
      ensures leafCell == BoxAt(box, lp) && Follows(position, lp, box) && leaf.count == |leaf.items|
      ensures leaf.count >= N ==> e < d && Company(leaf.items, pos, position, leafCell, e) < N
    {
      hide Links, Covers, HasPath, At, Put, Shaped, ItemsOf, Routed, Fits, FiledIn, DownPath, BoxAt, Follows, Company;
      ChildOf(bp, 0);
      ghost var t0, down := tree, DownPath(At(tree, bp), position, cell);
      AddRoute(tree, bp, position, pos, box, N, d);
      e := if |down| <= d then d - |down| else 0;
      var found;
      at, found, leafIndex, leafCell, lp := FindLeaf(position, branch, cell, bp);
      if found == null {
        FiledNewLeaf(tree, lp, pos, box, N);
        leaf := NewLeaf(at, leafIndex, lp);
      } else {
        leaf := found;
      }
      LeafStored(lp);
      ItemStays(item, t0, tree);
    }

    static lemma ItemStays(item: T, t: Tree<T>, t': Tree<T>)
      requires multiset(Items(t)) == multiset(Items(t'))
      ensures item in Items(t) <==> item in Items(t')
    {
      assert item in multiset(Items(t)) <==> item in multiset(Items(t'));
    }

    /** Add at the leaf the position leads to. When the leaf is full, the split and the second
        attempt go at most e levels further down. */
    method AddToLeaf(item: T, position: Vec3, at: OctreeNode<T>, leaf: OctreeNode<T>, leafIndex: Octant, leafCell: Box,
                     pos: map<T, Vec3>, ghost lp: Path, ghost d: nat, ghost e: nat)
      requires Valid() && Filed(pos) && lp in cells && cells[lp] == leaf && HasPath(tree, lp)
        && At(tree, lp) == Leaf(leaf.items)
      requires lp != [] && lp[|lp| - 1] == leafIndex && lp[..|lp| - 1] in cells && cells[lp[..|lp| - 1]] == at
      requires leafCell == BoxAt(box, lp) && Follows(position, lp, box) && InBox(position, box)
      requires item !in Items(tree) || pos[item] == position
      requires leaf.count == |leaf.items|
      requires leaf.count >= N ==> e < d && Company(leaf.items, pos, position, leafCell, e) < N
      modifies this, cells.Values
      ensures Valid() && Filed(pos[item := position]) && SameOrFresh()
      ensures multiset(Items(tree)) == old(multiset(Items(tree))) + multiset{item}
      ensures GrownAt(old(tree), tree, lp, item, N)
      decreases d, 0
    {
      hide Links, Covers, HasPath, At, Put, Shaped, ItemsOf, DownPath, BoxAt, Follows, Routed, Fits, Company, FiledIn,
        GrownAt;
      if leaf.count >= N {
        FiledSplit(tree, lp, pos, box, N);
        SplitCompany(leaf.items, pos, position, leafCell, e);
        ghost var t0 := tree;
        var newBranch := SplitFullLeaf(at, leaf, leafIndex, leafCell, pos, lp);
        ItemStays(item, t0, tree);
        ghost var t1 := tree;
        AddBelow(item, position, newBranch, leafCell, pos, lp, e);
        GrownBySplit(t0, tree, lp, At(t1, lp), DownPath(At(t1, lp), position, leafCell), item, N);
      } else {
        GrownLeaf(tree, lp, item, N);
        FiledAppend(tree, lp, item, position, pos, box, N);
        Refill(leaf, leaf.items + [item], 1, lp);
      }
    }

    /** Adds one item. Items at one position can never be parted by splitting, so fewer than N of
        them may be stored already (module OctreeTree, CoincidentFit, shows that there is no way around it). */
    method Add(item: T, position: Vec3, pos: map<T, Vec3>)
      requires Valid() && Filed(pos) && InBox(position, box)
      requires item !in Items(tree) || pos[item] == position
      requires Coincident(Items(tree), pos, position) < N
      modifies this, cells.Values
      ensures Valid() && Filed(pos[item := position]) && SameOrFresh()
      ensures multiset(Items(tree)) == old(multiset(Items(tree))) + multiset{item}
      ensures GrownAt(old(tree), tree, old(DownPath(tree, position, box)), item, N)
    {
      hide Links, Covers, Put, Shaped, ItemsOf, Items, Coincident, Company, Routed, GrownAt;
      ghost var d := CompanyThins(Items(tree), pos, position, box);
      AtRoot(position);
      AddBelow(item, position, root, box, pos, [], d);
    }

    // ----- Remove

    /** The inner loop of CollapseBranch: the items of a child join the collapsed leaf. */
    static method TakeItems(collapsed: OctreeNode<T>, leaf: OctreeNode<T>)
      requires collapsed != leaf && leaf.count == |leaf.items| && collapsed.count == |collapsed.items|
      modifies collapsed`items, collapsed`count
      ensures collapsed.items == old(collapsed.items) + leaf.items && collapsed.count == |collapsed.items|
    {
      for j := 0 to leaf.count
        invariant collapsed.items == old(collapsed.items) + leaf.items[..j] && collapsed.count == |collapsed.items|
      {
        collapsed.items := collapsed.items + [leaf.items[j]];
        collapsed.count := collapsed.count + 1;
      }
    }

    /** One round of the loop in CollapseBranch: child i is a leaf afterwards, or stays absent. */
    method CollapseChild(branch: OctreeNode<T>, i: Octant, ghost bp: Path, ghost kid: Tree<T>)
      requires Valid() && bp in cells && cells[bp] == branch && branch.isBranch && branch.count <= N
        && HasPath(tree, bp)
      requires At(tree, bp).Branch? && |At(tree, bp).kids| == 8 && At(tree, bp).kids[i] == kid
      modifies this, cells.Values
      ensures Valid() && HasPath(old(tree), bp)
      ensures tree == Put(old(tree), bp, Branch(old(At(tree, bp).kids)[i := Flat(kid)]))
      ensures SameOrFresh() && KeptOutside(bp) && bp in cells && cells[bp] == branch && branch.isBranch
      decreases kid, 2
    {
      hide Links, Covers, HasPath, At, Put, Shaped, ItemsOf;
      ChildOf(bp, i);
      var node := branch.branchChildren[i];
      ghost var kids := At(tree, bp).kids;
      PutChild(tree, bp, i, Flat(kid));
      PutPut(tree, bp, Branch(kids[i := Flat(kid)]), Empty);
      if node != null && node.isBranch {
        assert NodeLinked(bp) && NodeLinked(bp + [i]);
        ItemsOfUpdate(kids, i, Empty);
        CollapseBranch(node, i, bp + [i]);
        assert forall q: Path :: IsPrefix(bp + [i], q) ==> IsPrefix(bp, q) && q != bp;
        NodeKind(bp);
      } else {
        assert kids[i := Flat(kid)] == kids;
        PutAt(tree, bp);
      }
    }

    /** The same round including the copy of the child's items. */
    method GatherChild(branch: OctreeNode<T>, i: Octant, collapsed: OctreeNode<T>, ghost bp: Path, ghost kid: Tree<T>)
      requires Valid() && bp in cells && cells[bp] == branch && branch.isBranch && branch.count <= N
        && HasPath(tree, bp)
      requires At(tree, bp).Branch? && |At(tree, bp).kids| == 8 && At(tree, bp).kids[i] == kid
      requires collapsed !in cells.Values && collapsed.count == |collapsed.items|
      modifies this, cells.Values, collapsed`items, collapsed`count
      ensures Valid() && HasPath(old(tree), bp)
      ensures tree == Put(old(tree), bp, Branch(old(At(tree, bp).kids)[i := Flat(kid)]))
      ensures SameOrFresh() && KeptOutside(bp) && bp in cells && cells[bp] == branch && branch.isBranch
      ensures collapsed !in cells.Values
      ensures collapsed.items == old(collapsed.items) + Items(kid) && collapsed.count == |collapsed.items|
      decreases kid, 3
    {
      hide Links, Covers, HasPath, At, Put, Shaped, ItemsOf;
      PutPut(tree, bp, Branch(At(tree, bp).kids[i := Flat(kid)]), Empty);
      CollapseChild(branch, i, bp, kid);
      ChildOf(bp, i);
      if branch.branchChildren[i] != null {
        LeafStored(bp + [i]);
        TakeItems(collapsed, branch.branchChildren[i]);
      }
    }

    /** Nodes that are not at or below a path stay where they are. */
    twostate predicate KeptOutside(bp: Path)
      reads this
    {
      forall q: Path :: q in old(cells) && !(IsPrefix(bp, q) && q != bp) ==> q in cells && cells[q] == old(cells[q])
    }

    /** The whole loop of CollapseBranch. */
    method GatherChildren(branch: OctreeNode<T>, collapsed: OctreeNode<T>, ghost bp: Path, ghost kids: seq<Tree<T>>)
      requires Valid() && bp in cells && cells[bp] == branch && branch.isBranch && branch.count <= N
        && HasPath(tree, bp)
      requires |kids| == 8 && At(tree, bp) == Branch(kids)
      requires collapsed !in cells.Values && collapsed.count == 0 && collapsed.items == []
      modifies this, cells.Values, collapsed`items, collapsed`count
      ensures Valid() && HasPath(old(tree), bp) && tree == Put(old(tree), bp, Branch(FlatTo(kids, 8)))
      ensures SameOrFresh() && KeptOutside(bp) && collapsed !in cells.Values
      ensures collapsed.items == ItemsOf(kids) && collapsed.count == |collapsed.items|
      decreases Branch(kids), 0
    {
      hide Links, Covers, HasPath, At, Put, Shaped;
      ghost var t0 := tree;
      assert NodeLinked(bp) && |ItemsOf(kids)| <= N;
      assert kids == FlatTo(kids, 0);
      PutAt(tree, bp);
      for i := 0 to 8
        invariant Valid() && HasPath(tree, bp) && At(tree, bp) == Branch(FlatTo(kids, i))
        invariant tree == Put(t0, bp, Branch(FlatTo(kids, i)))
        invariant collapsed.items == ItemsOf(kids[..i]) && collapsed.count == |collapsed.items|
        invariant SameOrFresh() && KeptOutside(bp) && bp in cells && cells[bp] == branch && branch.isBranch
        invariant collapsed !in cells.Values
      {
        assert NodeLinked(bp);
        ItemsOfCongruent(kids, FlatTo(kids, i));
        ItemsOfExtend(kids, i);
        assert FlatTo(kids, i)[i := Flat(kids[i])] == FlatTo(kids, i + 1);
        PutPut(t0, bp, Branch(FlatTo(kids, i)), Branch(FlatTo(kids, i + 1)));
        PutPut(t0, bp, Branch(FlatTo(kids, i + 1)), Empty);
        GatherChild(branch, i, collapsed, bp, kids[i]);
      }
      assert kids[..8] == kids;
    }

    /** Folds a branch of at most N items into one leaf. */
    method CollapseBranch(branch: OctreeNode<T>, index: Octant, ghost bp: Path)
      requires Valid() && bp != [] && bp in cells && cells[bp] == branch && branch.isBranch && HasPath(tree, bp)
      requires bp[|bp| - 1] == index && branch.count <= N
      modifies this, cells.Values
      ensures Valid() && HasPath(old(tree), bp) && tree == Put(old(tree), bp, Leaf(Items(old(At(tree, bp)))))
      ensures SameOrFresh()
      ensures forall q: Path :: q in old(cells) && !IsPrefix(bp, q) ==> q in cells && cells[q] == old(cells[q])
      decreases Below(bp), 1
    {
      hide Covers, HasPath, Put, Shaped, ItemsOf, At;
      ChildOf(bp, 0);
      ghost var t0, kids, up := tree, At(tree, bp).kids, bp[..|bp| - 1];
      assert NodeLinked(bp) && cells[up] == branch.parent && !IsPrefix(bp, up);
      var collapsed := new OctreeNode(false, branch.parent, bp);
      GatherChildren(branch, collapsed, bp, kids);
      PutPut(t0, bp, Branch(FlatTo(kids, 8)), Leaf(collapsed.items));
      ItemsOfCongruent(kids, FlatTo(kids, 8));
      assert NodeLinked(bp);
      ghost var s: Tree<T>, sub := Leaf(collapsed.items), map[[] := collapsed];
      LeafPlanted(collapsed, branch.parent);
      Graft(branch.parent, index, collapsed, bp, s, sub);
    }

    method FindChildIndex(branch: OctreeNode<T>, ghost bp: Path) returns (index: Octant)
      requires Linked() && bp != [] && bp in cells && cells[bp] == branch
      ensures index == bp[|bp| - 1]
    {
      ghost var up := bp[..|bp| - 1];
      assert NodeLinked(bp) && NodeLinked(up);
      PrefixLinked(bp, |bp| - 1);
      assert bp == up + [bp[|bp| - 1]];
      ChildOf(up, bp[|bp| - 1]);
      index := 0;
      while branch.parent.branchChildren[index] != branch
        invariant index as int <= bp[|bp| - 1]
        decreases bp[|bp| - 1] - index
      {
        index := index + 1;
      }
      ChildOf(up, index);
      assert NodeLinked(up + [index]);
    }

    /** Removes one occurrence of an item from the leaf its position leads to. */
    method Remove(item: T, position: Vec3, ghost pos: map<T, Vec3>) returns (ghost t: Tree<T>)
      requires Valid() && Filed(pos)
      requires HasPath(tree, DownPath(tree, position, box)) && At(tree, DownPath(tree, position, box)).Leaf?
      requires item in At(tree, DownPath(tree, position, box)).items
      modifies this, cells.Values
      ensures Valid() && Filed(pos) && SameOrFresh()
      ensures multiset(Items(tree)) == old(multiset(Items(tree))) - multiset{item}
      ensures TakenAt(old(tree), t, old(DownPath(tree, position, box)), item)
      ensures var p := old(DownPath(tree, position, box)); FoldedAt(t, tree, p[..|p| - 1], N)
    {
      hide Links, Covers, HasPath, At, Put, Shaped, DownPath, FiledIn, ItemsOf, Items, TakenAt, FoldedAt, SwapRemoved,
        BoxAt;
      AtRoot(position);
      var parent, leaf, leafIndex, leafCell, lp := FindLeaf(position, root, box, []);
      LeafStored(lp);
      LeafFits(tree, lp, pos, box, N);
      var found, i := Search(leaf, item);
      FiledRemove(tree, lp, i, pos, box, N);
      TakenFirst(tree, lp, i, item);
      Refill(leaf, SwapRemoved(leaf.items, i), -1, lp);
      t := tree;
      CollapseIfSparse(parent, pos, lp[..|lp| - 1]);
    }

    /** The scan of a leaf for an item. */
    static method Search(leaf: OctreeNode<T>, item: T) returns (found: bool, i: nat)
      requires leaf.count == |leaf.items| <= 0xFF
      ensures found <==> item in leaf.items
      ensures found ==> i < |leaf.items| && leaf.items[i] == item && item !in leaf.items[..i]
    {
      found, i := false, 0;
      while i < leaf.count
        invariant i <= |leaf.items| && item !in leaf.items[..i] && !found
      {
        if leaf.items[i] == item {
          found := true;
          break;
        }
        i := ByteCounter(i + 1);
      }
      assert !found ==> leaf.items[..i] == leaf.items;
    }

    /** A branch below the root that got sparse is folded into a leaf (octree.h:188-191). */
    method CollapseIfSparse(branch: OctreeNode<T>, ghost pos: map<T, Vec3>, ghost bp: Path)
      requires Valid() && Filed(pos) && bp in cells && cells[bp] == branch && branch.isBranch
      modifies this, cells.Values
      ensures Valid() && Filed(pos) && SameOrFresh()
      ensures multiset(Items(tree)) == old(multiset(Items(tree)))
      ensures bp in old(cells) && old(NodeLinked(bp))
      ensures FoldedAt(old(tree), tree, bp, N)
      ensures tree == if old(branch.count) < N / 2 && bp != [] then Put(old(tree), bp, Leaf(Items(old(At(tree, bp)))))
                      else old(tree)
    {
      assert NodeLinked(bp);
      if branch.count < N / 2 && branch.parent != null {
        var index := FindChildIndex(branch, bp);
        FiledCollapse(tree, bp, pos, box, N);
        CollapseBranch(branch, index, bp);
      }
    }

    // ----- Update

    /** Moves an item. GetPosition still answers the old position; afterwards the tree is filed for the
        position the caller is about to write. An item that changes its leaf is stored once, since the
        new position holds for all its occurrences but only one of them moves. */
    method Update(item: T, oldPos: Vec3, newPos: Vec3, pos: map<T, Vec3>)
      requires Valid() && Filed(pos) && InBox(newPos, box)
      requires item in Items(tree) && item in pos && pos[item] == oldPos
      requires DownPath(tree, oldPos, box) == DownPath(tree, newPos, box)
               || (multiset(Items(tree))[item] == 1 && Coincident(Items(tree), pos, newPos) < N)
      modifies this, cells.Values
      ensures Valid() && Filed(pos[item := newPos]) && SameOrFresh()
      ensures multiset(Items(tree)) == old(multiset(Items(tree)))
      ensures old(DownPath(tree, oldPos, box) == DownPath(tree, newPos, box)) ==> tree == old(tree)
    {
      hide Links, Covers, HasPath, At, Put, Shaped, Items, Coincident, DownPath, BoxAt, Follows, Routed, Fits;
      var oldLeaf, oldPath := LeafAt(oldPos);
      var newLeaf, newPath := LeafAt(newPos);
      FindLeafReachesItem(tree, item, pos, box);
      if oldLeaf != newLeaf {
        Move(item, oldPos, newPos, pos);
      } else {
        assert NodeLinked(oldPath) && NodeLinked(newPath);
        SameLeafKeepsRouting(tree, item, pos, newPos, box);
      }
    }

    method LeafAt(position: Vec3) returns (leaf: OctreeNode?<T>, ghost p: Path)
      requires Valid()
      ensures p == DownPath(tree, position, box) && HasPath(tree, p)
      ensures leaf == if p in cells then cells[p] else null
      ensures if leaf == null then At(tree, p).Empty? else At(tree, p).Leaf?
    {
      hide Links, Covers, HasPath, At, Put, Shaped, DownPath;
      AtRoot(position);
      var parent, found, index, cell, lp := FindLeaf(position, root, box, []);
      leaf, p := found, lp;
    }

    method Move(item: T, oldPos: Vec3, newPos: Vec3, pos: map<T, Vec3>)
      requires Valid() && Filed(pos) && InBox(newPos, box)
      requires multiset(Items(tree))[item] == 1 && item in pos && pos[item] == oldPos
      requires Coincident(Items(tree), pos, newPos) < N
      modifies this, cells.Values
      ensures Valid() && Filed(pos[item := newPos]) && SameOrFresh()
      ensures multiset(Items(tree)) == old(multiset(Items(tree)))
    {
      hide Links, Covers, HasPath, At, Put, Shaped, Items, Coincident, DownPath, BoxAt, Follows, Routed, Fits;
      FindLeafReachesItem(tree, item, pos, box);
      ghost var before := Items(tree);
      ghost var _ := Remove(item, oldPos, pos);
      CoincidentSub(Items(tree), before, pos, newPos);
      assert item !in multiset(Items(tree));
      Add(item, newPos, pos);
    }

    // ----- FindItems

    method AddLeafItems(leaf: OctreeNode<T>, center: Vec3, radius: real, pos: map<T, Vec3>, found: seq<T>)
      returns (added: nat, found': seq<T>)
      requires leaf.count == |leaf.items| <= 0xFF
      ensures found' == found + Scan(leaf.items, pos, center, radius) && |found'| == |found| + added
    {
      added, found' := 0, found;
      var j := 0;
      while j < leaf.count
        invariant j <= leaf.count && found' == found + Scan(leaf.items[..j], pos, center, radius)
          && |found'| == |found| + added
      {
        assert leaf.items[..j + 1] == leaf.items[..j] + [leaf.items[j]];
        ScanConcat(leaf.items[..j], [leaf.items[j]], pos, center, radius);
        if leaf.items[j] in pos && Within(pos[leaf.items[j]], center, radius) {
          found' := found' + [leaf.items[j]];
          added := added + 1;
        }
        j := ByteCounter(j + 1);
      }
      assert leaf.items[..leaf.count] == leaf.items;
    }

    method AddItems(node: OctreeNode?<T>, center: Vec3, radius: real, pos: map<T, Vec3>, found: seq<T>, ghost p: Path)
      returns (added: nat, found': seq<T>)
      requires Valid() && HasPath(tree, p) && node == (if p in cells then cells[p] else null)
      requires Fits(At(tree, p), N)
      ensures found' == found + Scan(Items(At(tree, p)), pos, center, radius) && |found'| == |found| + added
      decreases At(tree, p), 1
    {
      if node == null {
        assert At(tree, p) == Empty;
        return 0, found;
      }
      assert NodeLinked(p);
      if node.isBranch {
        added, found' := AddChildrenItems(node, center, radius, pos, found, p);
      } else {
        added, found' := AddLeafItems(node, center, radius, pos, found);
      }
    }

    method AddChildrenItems(node: OctreeNode<T>, center: Vec3, radius: real, pos: map<T, Vec3>, found: seq<T>,
        ghost p: Path)
      returns (added: nat, found': seq<T>)
      requires Valid() && p in cells && cells[p] == node && node.isBranch && HasPath(tree, p)
      requires Fits(At(tree, p), N)
      ensures found' == found + Scan(Items(At(tree, p)), pos, center, radius) && |found'| == |found| + added
      decreases At(tree, p), 0
    {
      ChildOf(p, 0);
      ghost var kids := At(tree, p).kids;
      added, found' := 0, found;
      for i := 0 to 8
        invariant found' == found + ScanKids(kids, i, pos, center, radius) && |found'| == |found| + added
      {
        ChildOf(p, i);
        ScanExtend(kids, i, pos, center, radius, found);
        var more;
        more, found' := AddItems(node.branchChildren[i], center, radius, pos, found', p + [i]);
        added := added + more;
      }
    }

    method FindItemsBelow(center: Vec3, radius: real, cell: Box, node: OctreeNode<T>, pos: map<T, Vec3>,
        found: seq<T>, ghost p: Path)
      returns (added: nat, found': seq<T>)
      requires Valid() && p in cells && cells[p] == node && HasPath(tree, p) && Routed(At(tree, p), pos, cell)
      requires forall x :: x in Items(At(tree, p)) ==> x in pos && InBox(pos[x], cell)
      requires Fits(At(tree, p), N)
      ensures found' == found + Scan(Items(At(tree, p)), pos, center, radius) && |found'| == |found| + added
      decreases At(tree, p), 1
    {
      assert NodeLinked(p);
      var intersect := CalculateBoxBoundsIntersection(cell, Box(center, Cube(radius)));
      if intersect == Full {
        added, found' := AddItems(node, center, radius, pos, found, p);
      } else if intersect == Partial {
        if node.isBranch {
          added, found' := FindItemsInChildren(center, radius, cell, node, pos, found, p);
        } else {
          added, found' := AddLeafItems(node, center, radius, pos, found);
        }
      } else {
        forall x | x in Items(At(tree, p)) ensures !Within(pos[x], center, radius) {
          PrunedCellHoldsNothing(pos[x], cell, center, radius);
        }
        ScanNothing(Items(At(tree, p)), pos, center, radius);
        added, found' := 0, found;
      }
    }

    method FindItemsInChildren(center: Vec3, radius: real, cell: Box, node: OctreeNode<T>, pos: map<T, Vec3>,
        found: seq<T>, ghost p: Path)
      returns (added: nat, found': seq<T>)
      requires Valid() && p in cells && cells[p] == node && node.isBranch && HasPath(tree, p)
        && Routed(At(tree, p), pos, cell)
      requires forall x :: x in Items(At(tree, p)) ==> x in pos && InBox(pos[x], cell)
      requires Fits(At(tree, p), N)
      ensures found' == found + Scan(Items(At(tree, p)), pos, center, radius) && |found'| == |found| + added
      decreases At(tree, p), 0
    {
      ChildOf(p, 0);
      ghost var kids := At(tree, p).kids;
      added, found' := 0, found;
      for i := 0 to 8
        invariant found' == found + ScanKids(kids, i, pos, center, radius) && |found'| == |found| + added
      {
        ChildOf(p, i);
        ScanExtend(kids, i, pos, center, radius, found);
        RoutedInCells(At(tree, p), pos, cell, i);
        if node.branchChildren[i] != null {
          var more;
          more, found' := FindItemsBelow(center, radius, Child(cell, i), node.branchChildren[i], pos, found', p + [i]);
          added := added + more;
        }
      }
    }

    /** The pruned search yields what a linear scan over all stored items yields: each item within
        the radius of the center as often as it is stored. */
    method FindItems(center: Vec3, radius: real, pos: map<T, Vec3>) returns (n: nat, found: seq<T>)
      requires Valid() && Filed(pos)
      ensures found == Scan(Items(tree), pos, center, radius) && n == |found|
      ensures forall x: T ::
        multiset(found)[x] ==
          if && x in pos && radius >= 0.0
             && (pos[x].x - center.x) * (pos[x].x - center.x) + (pos[x].y - center.y) * (pos[x].y - center.y)
               + (pos[x].z - center.z) * (pos[x].z - center.z) <= radius * radius
          then multiset(Items(tree))[x] else 0
    {
      hide Links, Covers, HasPath, At, Put, Shaped, ItemsOf, Items, Fits, Routed, Scan;
      AtRoot(center);
      n, found := FindItemsBelow(center, radius, box, root, pos, [], []);
      forall x: T ensures multiset(found)[x] ==
        if && x in pos && radius >= 0.0
           && (pos[x].x - center.x) * (pos[x].x - center.x) + (pos[x].y - center.y) * (pos[x].y - center.y)
             + (pos[x].z - center.z) * (pos[x].z - center.z) <= radius * radius
        then multiset(Items(tree))[x] else 0
      {
        ScanCounts(Items(tree), pos, center, radius, x);
      }
    }
  }
}
