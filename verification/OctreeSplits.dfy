/** The nested splits of Add. A full leaf is split and the item is added again below it; this goes on
    for as long as the leaf that the item's position selects comes out full. */
module OctreeSplits {
  import opened OctreeCells
  import opened OctreeTree

  /** The items that a split leaves in the child a position selects. */
  ghost function Selected<T>(items: seq<T>, pos: map<T, Vec3>, q: Vec3, cell: Box): (r: seq<T>)
    requires forall x :: x in items ==> x in pos
    ensures forall x :: x in r ==> x in items
  {
    SelectedInside(items, pos, q, cell);
    Items(SplitKids(items, pos, cell.center)[CalculateNodeIndex(q, cell.center)])
  }

  lemma {:induction false} SelectedInside<T>(items: seq<T>, pos: map<T, Vec3>, q: Vec3, cell: Box)
    requires forall x :: x in items ==> x in pos
    ensures forall x :: x in Items(SplitKids(items, pos, cell.center)[CalculateNodeIndex(q, cell.center)]) ==>
      x in items
  {
    if items != [] {
      SelectedInside(items[..|items| - 1], pos, q, cell);
    }
  }

  lemma SelectedLast<T>(items: seq<T>, pos: map<T, Vec3>, q: Vec3, cell: Box)
    requires items != [] && forall x :: x in items ==> x in pos
    ensures var rest, last := items[..|items| - 1], items[|items| - 1];
            Selected(items, pos, q, cell) == Selected(rest, pos, q, cell)
              + if CalculateNodeIndex(pos[last], cell.center) == CalculateNodeIndex(q, cell.center) then [last] else []
  {
  }

  /** A split keeps all items that sit at a position together in the child it selects. */
  lemma {:induction false} SplitKeepsTogether<T>(items: seq<T>, pos: map<T, Vec3>, q: Vec3, cell: Box)
    requires forall x :: x in items ==> x in pos
    ensures Coincident(Selected(items, pos, q, cell), pos, q) == Coincident(items, pos, q)
  {
    if items != [] {
      var rest, last := items[..|items| - 1], items[|items| - 1];
      SplitKeepsTogether(rest, pos, q, cell);
      SelectedLast(items, pos, q, cell);
      assert items == rest + [last];
      CoincidentConcat(rest, [last], pos, q);
      CoincidentConcat(Selected(rest, pos, q, cell), [last], pos, q);
      assert [last][1..] == [];
      assert Selected(rest, pos, q, cell) + [] == Selected(rest, pos, q, cell);
    }
  }

  /** So a leaf in which n items sit at one position is split into a child with n items again. */
  lemma SplitStaysFull<T>(items: seq<T>, pos: map<T, Vec3>, q: Vec3, cell: Box, n: nat)
    requires (forall x :: x in items ==> x in pos) && Coincident(items, pos, q) >= n
    ensures |Selected(items, pos, q, cell)| >= n
  {
    SplitKeepsTogether(items, pos, q, cell);
    CoincidentSize(Selected(items, pos, q, cell), pos, q);
  }

  /** A split leaves the company of a position, counted one level less deep, in the selected child. */
  lemma {:induction false} SplitKeepsCompany<T>(items: seq<T>, pos: map<T, Vec3>, q: Vec3, cell: Box, d: nat)
    requires forall x :: x in items ==> x in pos
    ensures Company(Selected(items, pos, q, cell), pos, q, Child(cell, CalculateNodeIndex(q, cell.center)), d)
            == Company(items, pos, q, cell, d + 1)
  {
    if items != [] {
      var rest, last, below := items[..|items| - 1], items[|items| - 1],
          Child(cell, CalculateNodeIndex(q, cell.center));
      SplitKeepsCompany(rest, pos, q, cell, d);
      SelectedLast(items, pos, q, cell);
      assert items == rest + [last];
      CompanyConcat(rest, [last], pos, q, cell, d + 1);
      CompanyConcat(Selected(rest, pos, q, cell), [last], pos, q, below, d);
      assert [last][1..] == [];
      assert Selected(rest, pos, q, cell) + [] == Selected(rest, pos, q, cell);
    }
  }

  /** The items of the leaf that Add meets after splitting d times. */
  ghost function LeafAfter<T>(items: seq<T>, pos: map<T, Vec3>, q: Vec3, cell: Box, d: nat): seq<T>
    requires forall x :: x in items ==> x in pos
    decreases d
  {
    if d == 0 then items
    else LeafAfter(Selected(items, pos, q, cell), pos, q, Child(cell, CalculateNodeIndex(q, cell.center)), d - 1)
  }

  lemma {:induction false} LeafAfterIsCompany<T>(items: seq<T>, pos: map<T, Vec3>, q: Vec3, cell: Box, d: nat)
    requires forall x :: x in items ==> x in pos
    ensures |LeafAfter(items, pos, q, cell, d)| == Company(items, pos, q, cell, d)
    decreases d
  {
    if d == 0 {
      CompanyAll(items, pos, q, cell);
    } else {
      SplitKeepsCompany(items, pos, q, cell, d - 1);
      LeafAfterIsCompany(Selected(items, pos, q, cell), pos, q, Child(cell, CalculateNodeIndex(q, cell.center)), d - 1);
    }
  }

  /** Some number of splits leads to a leaf with room. */
  ghost predicate SplitsEnd<T>(items: seq<T>, pos: map<T, Vec3>, q: Vec3, cell: Box, n: nat)
    requires forall x :: x in items ==> x in pos
  {
    exists d: nat :: |LeafAfter(items, pos, q, cell, d)| < n
  }

  /** From a leaf, splitting reaches one with room exactly when fewer than n of its items sit at the
      position. */
  lemma SplitsEndIff<T>(items: seq<T>, pos: map<T, Vec3>, q: Vec3, cell: Box, n: nat)
    requires forall x :: x in items ==> x in pos && InBox(pos[x], cell)
    requires InBox(q, cell)
    ensures SplitsEnd(items, pos, q, cell, n) <==> Coincident(items, pos, q) < n
  {
    if Coincident(items, pos, q) < n {
      var d := CompanyThins(items, pos, q, cell);
      LeafAfterIsCompany(items, pos, q, cell, d);
    } else {
      forall d: nat ensures |LeafAfter(items, pos, q, cell, d)| >= n {
        LeafAfterIsCompany(items, pos, q, cell, d);
        CompanyAtLeastCoincident(items, pos, q, cell, d);
      }
    }
  }

  /** The leaf a position leads to holds all items that sit there, and its cell holds the position and
      the items. */
  lemma {:induction false} LeafHoldsPosition<T>(t: Tree<T>, pos: map<T, Vec3>, q: Vec3, box: Box)
    requires Shaped(t) && t.Branch? && Routed(t, pos, box) && InBox(q, box)
    requires forall x :: x in Items(t) ==> x in pos && InBox(pos[x], box)
    ensures var p := DownPath(t, q, box);
            && HasPath(t, p) && Coincident(Items(At(t, p)), pos, q) == Coincident(Items(t), pos, q)
            && InBox(q, BoxAt(box, p)) && forall x :: x in Items(At(t, p)) ==> x in pos && InBox(pos[x], BoxAt(box, p))
    decreases t
  {
    var i: Octant := CalculateNodeIndex(q, box.center);
    DownStep(t, q, box);
    ChildContains(q, box);
    RoutedInCells(t, pos, box, i);
    CoincidentOfChild(t, i, pos, q, box);
    if t.kids[i].Branch? {
      LeafHoldsPosition(t.kids[i], pos, q, Child(box, i));
    }
  }

  /** The splits of Add come to an end exactly when fewer than n of the stored items sit at the position
      of the new one. */
  lemma AddEndsIff<T>(t: Tree<T>, pos: map<T, Vec3>, q: Vec3, box: Box, n: nat)
    requires Shaped(t) && t.Branch? && FiledIn(t, pos, box, n) && InBox(q, box)
    ensures var p := DownPath(t, q, box);
            && HasPath(t, p) && (forall x :: x in Items(At(t, p)) ==> x in pos)
            && (SplitsEnd(Items(At(t, p)), pos, q, BoxAt(box, p), n) <==> Coincident(Items(t), pos, q) < n)
  {
    LeafHoldsPosition(t, pos, q, box);
    var p := DownPath(t, q, box);
    SplitsEndIff(Items(At(t, p)), pos, q, BoxAt(box, p), n);
  }

  // ----- an octree on which Add never ends

  ghost function Numbers(n: nat): (items: seq<nat>)
    ensures |items| == n && forall k :: k in items ==> k < n
  {
    if n == 0 then [] else Numbers(n - 1) + [n - 1]
  }

  /** A tree of capacity n with n items at the center of its root cell. */
  ghost function Crowded(n: nat): (t: Tree<nat>)
    ensures Items(t) == Numbers(n)
  {
    var kids := Empties<nat>(8)[0 := Leaf(Numbers(n))];
    ItemsOfSplit(kids, 0);
    NoItems<nat>(7);
    assert kids[1..] == Empties<nat>(7) && kids[..0] == [];
    Branch(kids)
  }

  ghost function AllAt(items: seq<nat>, q: Vec3): (pos: map<nat, Vec3>)
    ensures forall k :: k in items ==> k in pos && pos[k] == q
  {
    if items == [] then map[] else AllAt(items[1..], q)[items[0] := q]
  }

  lemma {:induction false} AllCoincide<T>(items: seq<T>, pos: map<T, Vec3>, q: Vec3)
    requires forall x :: x in items ==> x in pos && pos[x] == q
    ensures Coincident(items, pos, q) == |items|
  {
    if items != [] {
      AllCoincide(items[1..], pos, q);
    }
  }

  lemma CrowdedFiled(n: nat, pos: map<nat, Vec3>, box: Box)
    requires box.bounds.x >= 0.0 && box.bounds.y >= 0.0 && box.bounds.z >= 0.0
    requires forall k :: k in Numbers(n) ==> k in pos && pos[k] == box.center
    ensures Shaped(Crowded(n)) && FiledIn(Crowded(n), pos, box, n)
  {
    var t := Crowded(n);
    forall i: int | 0 <= i < 8
        ensures RoutedVia(t.kids[i], pos, box, i) && Routed(t.kids[i], pos, Child(box, i)) && Fits(t.kids[i], n) {
      assert t.kids[i] == if i == 0 then Leaf(Numbers(n)) else Empty;
    }
    assert Routed(t, pos, box) && Fits(t, n);
  }

  /** A proper octree, and adding at its center meets a full leaf after any number of splits. */
  lemma CrowdedNeverEnds(n: nat, box: Box, d: nat)
    requires n > 0 && box.bounds.x >= 0.0 && box.bounds.y >= 0.0 && box.bounds.z >= 0.0
    ensures var t, q, pos := Crowded(n), box.center, AllAt(Numbers(n), box.center);
            && Shaped(t) && t.Branch? && FiledIn(t, pos, box, n) && InBox(q, box)
            && var p := DownPath(t, q, box);
            && HasPath(t, p) && (forall x :: x in Items(At(t, p)) ==> x in pos)
            && |LeafAfter(Items(At(t, p)), pos, q, BoxAt(box, p), d)| >= n
  {
    var t, q, pos := Crowded(n), box.center, AllAt(Numbers(n), box.center);
    CrowdedFiled(n, pos, box);
    AllCoincide(Numbers(n), pos, q);
    AddEndsIff(t, pos, q, box, n);
  }
}
