/** The value of an octree: a tree of leaves and branches, without pointers or cached counts.
    The heap structure of module Octree is tied to such a value; what the source promises about
    routing, capacity and searching is stated and proved here. `pos` stands for the answers of the
    GetPosition callback. */
module OctreeTree {
  import opened OctreeCells

  datatype Tree<T> = Empty | Leaf(items: seq<T>) | Branch(kids: seq<Tree<T>>)

  ghost predicate Shaped<T>(t: Tree<T>) {
    t.Branch? ==> |t.kids| == 8 && forall i: int :: 0 <= i < 8 ==> Shaped(t.kids[i])
  }

  // ----- items

  /** The items of a subtree in the order the eight children are walked. */
  ghost function Items<T>(t: Tree<T>): seq<T>
    decreases t, 0
  {
    match t
    case Empty => []
    case Leaf(items) => items
    case Branch(kids) => ItemsOf(kids)
  }

  ghost function ItemsOf<T>(ts: seq<Tree<T>>): seq<T>
    decreases ts, 0
  {
    if ts == [] then [] else Items(ts[0]) + ItemsOf(ts[1..])
  }

  lemma {:induction false} ItemsOfConcat<T>(a: seq<Tree<T>>, b: seq<Tree<T>>)
    ensures ItemsOf(a + b) == ItemsOf(a) + ItemsOf(b)
  {
    if a == [] {
      assert a + b == b;
    } else {
      hide Items;
      assert (a + b)[0] == a[0] && (a + b)[1..] == a[1..] + b;
      ItemsOfConcat(a[1..], b);
    }
  }

  lemma {:induction false} ItemsOfSplit<T>(ts: seq<Tree<T>>, i: nat)
    requires i < |ts|
    ensures ItemsOf(ts) == ItemsOf(ts[..i]) + Items(ts[i]) + ItemsOf(ts[i + 1..])
  {
    assert ts == ts[..i] + ([ts[i]] + ts[i + 1..]);
    ItemsOfConcat(ts[..i], [ts[i]] + ts[i + 1..]);
    assert ([ts[i]] + ts[i + 1..])[1..] == ts[i + 1..];
  }

  /** Replacing one child exchanges its items and no others. */
  lemma {:induction false} ItemsOfUpdate<T>(ts: seq<Tree<T>>, i: nat, k: Tree<T>)
    requires i < |ts|
    ensures multiset(ItemsOf(ts[i := k])) == multiset(ItemsOf(ts)) - multiset(Items(ts[i])) + multiset(Items(k))
    ensures |ItemsOf(ts[i := k])| == |ItemsOf(ts)| - |Items(ts[i])| + |Items(k)|
    ensures multiset(Items(ts[i])) <= multiset(ItemsOf(ts))
  {
    ItemsOfSplit(ts, i);
    ItemsOfSplit(ts[i := k], i);
    assert ts[i := k][..i] == ts[..i] && ts[i := k][i + 1..] == ts[i + 1..];
  }

  lemma ItemBelow<T>(t: Tree<T>, i: Octant, x: T)
    requires t.Branch? && |t.kids| == 8 && x in Items(t.kids[i])
    ensures x in Items(t)
  {
    ItemsOfSplit(t.kids, i);
  }

  lemma {:induction false} ItemOfSome<T>(ts: seq<Tree<T>>, x: T) returns (i: nat)
    requires x in ItemsOf(ts)
    ensures i < |ts| && x in Items(ts[i])
  {
    if x in Items(ts[0]) {
      i := 0;
    } else {
      i := ItemOfSome(ts[1..], x);
      i := i + 1;
    }
  }

  // ----- addressing a subtree by its path

  ghost predicate HasPath<T>(t: Tree<T>, p: Path) {
    p == [] || (t.Branch? && |t.kids| == 8 && HasPath(t.kids[p[0]], p[1..]))
  }

  ghost function At<T>(t: Tree<T>, p: Path): Tree<T>
    requires HasPath(t, p)
  {
    if p == [] then t else At(t.kids[p[0]], p[1..])
  }

  ghost function Put<T>(t: Tree<T>, p: Path, s: Tree<T>): Tree<T>
    requires HasPath(t, p)
  {
    if p == [] then s else t.(kids := t.kids[p[0] := Put(t.kids[p[0]], p[1..], s)])
  }

  ghost predicate IsPrefix(p: Path, q: Path) {
    |p| <= |q| && q[..|p|] == p
  }

  lemma {:induction false} AtConcat<T>(t: Tree<T>, p: Path, q: Path)
    requires HasPath(t, p)
    ensures HasPath(t, p + q) <==> HasPath(At(t, p), q)
    ensures HasPath(t, p + q) ==> At(t, p + q) == At(At(t, p), q)
    decreases |p|
  {
    if p == [] {
      assert p + q == q;
    } else {
      assert (p + q)[1..] == p[1..] + q;
      AtConcat(t.kids[p[0]], p[1..], q);
    }
  }

  lemma {:induction false} AtPrefix<T>(t: Tree<T>, p: Path, k: nat)
    requires HasPath(t, p) && k <= |p|
    ensures HasPath(t, p[..k]) && HasPath(At(t, p[..k]), p[k..])
    ensures At(At(t, p[..k]), p[k..]) == At(t, p)
    ensures k < |p| ==> At(t, p[..k]).Branch?
    decreases |p|
  {
    if k > 0 {
      assert p[..k][1..] == p[1..][..k - 1] && p[k..] == p[1..][k - 1..];
      AtPrefix(t.kids[p[0]], p[1..], k - 1);
    } else {
      assert p[..k] == [] && p[k..] == p;
    }
  }

  /** After Put, subtrees off the path are as before, those above the path contain the
      replacement, and those below it are found inside the replacement. */
  lemma {:induction false} AtPut<T>(t: Tree<T>, p: Path, s: Tree<T>, q: Path)
    requires HasPath(t, p)
    ensures IsPrefix(p, q) ==>
              && (HasPath(Put(t, p, s), q) <==> HasPath(s, q[|p|..]))
              && (HasPath(Put(t, p, s), q) ==> At(Put(t, p, s), q) == At(s, q[|p|..]))
    ensures IsPrefix(q, p) ==>
              && HasPath(t, q) && HasPath(At(t, q), p[|q|..])
              && HasPath(Put(t, p, s), q)
              && At(Put(t, p, s), q) == Put(At(t, q), p[|q|..], s)
              && At(At(t, q), p[|q|..]) == At(t, p)
    ensures !IsPrefix(p, q) && !IsPrefix(q, p) ==>
              && (HasPath(Put(t, p, s), q) <==> HasPath(t, q))
              && (HasPath(t, q) ==> At(Put(t, p, s), q) == At(t, q))
    decreases |p|
  {
    if p == [] {
      assert q[0..] == q;
      if IsPrefix(q, p) { assert q == []; }
    } else if q == [] {
      assert p[0..] == p;
    } else {
      AtPut(t.kids[p[0]], p[1..], s, q[1..]);
      assert IsPrefix(p, q) <==> p[0] == q[0] && IsPrefix(p[1..], q[1..]) by { PrefixTail(p, q); }
      assert IsPrefix(q, p) <==> p[0] == q[0] && IsPrefix(q[1..], p[1..]) by { PrefixTail(q, p); }
      if IsPrefix(p, q) { assert q[|p|..] == q[1..][|p| - 1..]; }
      if IsPrefix(q, p) { assert p[|q|..] == p[1..][|q| - 1..]; }
    }
  }

  lemma PrefixTail(p: Path, q: Path)
    requires p != [] && q != []
    ensures IsPrefix(p, q) <==> p[0] == q[0] && IsPrefix(p[1..], q[1..])
  {
    if |p| <= |q| {
      assert q[..|p|][1..] == q[1..][..|p| - 1];
      assert q[..|p|] == [q[0]] + q[1..][..|p| - 1];
      assert p == [p[0]] + p[1..];
    }
  }

  lemma {:induction false} ItemsPut<T>(t: Tree<T>, p: Path, s: Tree<T>)
    requires HasPath(t, p)
    ensures multiset(Items(Put(t, p, s))) == multiset(Items(t)) - multiset(Items(At(t, p))) + multiset(Items(s))
    ensures |Items(Put(t, p, s))| == |Items(t)| - |Items(At(t, p))| + |Items(s)|
    ensures multiset(Items(At(t, p))) <= multiset(Items(t))
    decreases |p|
  {
    hide ItemsOf;
    if p != [] {
      var k, k', sub := t.kids[p[0]], Put(t.kids[p[0]], p[1..], s), At(t, p);
      ItemsPut(k, p[1..], s);
      ItemsOfUpdate(t.kids, p[0], k');
      ExchangedBelow(multiset(Items(t)), multiset(Items(k)), multiset(Items(sub)), multiset(Items(s)));
    }
  }

  lemma ExchangedBelow<T>(all: multiset<T>, part: multiset<T>, sub: multiset<T>, more: multiset<T>)
    requires sub <= part <= all
    ensures all - part + (part - sub + more) == all - sub + more && sub <= all
  {
  }

  lemma ItemsPutSame<T>(t: Tree<T>, p: Path, s: Tree<T>)
    requires HasPath(t, p) && multiset(Items(s)) == multiset(Items(At(t, p)))
    ensures multiset(Items(Put(t, p, s))) == multiset(Items(t))
  {
    ItemsPut(t, p, s);
    hide *;
  }

  lemma SameMembers<T>(a: seq<T>, b: seq<T>)
    requires multiset(a) == multiset(b)
    ensures forall x :: x in a <==> x in b
  {
    forall x | x in a ensures x in b {
      assert x in multiset(b);
    }
    forall x | x in b ensures x in a {
      assert x in multiset(a);
    }
  }

  /** What an exchange below does to the number of items in the subtrees that stay. */
  lemma SizeElsewhere<T>(t: Tree<T>, p: Path, s: Tree<T>, q: Path)
    requires HasPath(t, p) && HasPath(t, q) && !(IsPrefix(p, q) && p != q)
    ensures HasPath(Put(t, p, s), q)
    ensures |Items(At(Put(t, p, s), q))| == |Items(At(t, q))| + if IsPrefix(q, p) then |Items(s)| - |Items(At(t, p))|
      else 0
  {
    AtPut(t, p, s, q);
    if IsPrefix(q, p) {
      ItemsPut(At(t, q), p[|q|..], s);
    }
  }

  lemma LeafHasNothingBelow<T>(t: Tree<T>, p: Path, q: Path)
    requires HasPath(t, p) && At(t, p).Leaf? && HasPath(t, q)
    ensures IsPrefix(p, q) ==> p == q
  {
    if IsPrefix(p, q) && p != q {
      AtPrefix(t, q, |p|);
    }
  }

  lemma {:induction false} ShapedPut<T>(t: Tree<T>, p: Path, s: Tree<T>)
    requires Shaped(t) && HasPath(t, p) && Shaped(s)
    ensures Shaped(Put(t, p, s)) && Shaped(At(t, p))
    decreases |p|
  {
    if p != [] {
      ShapedPut(t.kids[p[0]], p[1..], s);
    }
  }

  // ----- capacity

  ghost predicate Fits<T>(t: Tree<T>, n: nat) {
    match t
    case Empty => true
    case Leaf(items) => |items| <= n
    case Branch(kids) => |kids| == 8 && forall i: int :: 0 <= i < 8 ==> Fits(kids[i], n)
  }

  lemma {:induction false} FitsPut<T>(t: Tree<T>, p: Path, s: Tree<T>, n: nat)
    requires Fits(t, n) && HasPath(t, p) && Fits(s, n)
    ensures Fits(Put(t, p, s), n) && Fits(At(t, p), n)
    decreases |p|
  {
    if p != [] {
      FitsPut(t.kids[p[0]], p[1..], s, n);
    }
  }

  // ----- routing

  /** The cell a path leads to. */
  ghost function BoxAt(box: Box, p: Path): Box
    decreases |p|
  {
    if p == [] then box else BoxAt(Child(box, p[0]), p[1..])
  }

  /** A position takes every turn of a path. */
  ghost predicate Follows(q: Vec3, p: Path, box: Box)
    decreases |p|
  {
    p == [] || (CalculateNodeIndex(q, box.center) == p[0] && Follows(q, p[1..], Child(box, p[0])))
  }

  /** Every item lies below the child its position selects, at every branch. */
  ghost predicate Routed<T>(t: Tree<T>, pos: map<T, Vec3>, box: Box) {
    match t
    case Empty => true
    case Leaf(items) => true
    case Branch(kids) =>
      && |kids| == 8
      && (forall i: int :: 0 <= i < 8 ==> RoutedVia(kids[i], pos, box, i))
      && (forall i: int :: 0 <= i < 8 ==> Routed(kids[i], pos, Child(box, i)))
  }

  ghost predicate RoutedVia<T>(t: Tree<T>, pos: map<T, Vec3>, box: Box, i: Octant) {
    forall x :: x in Items(t) ==> x in pos && CalculateNodeIndex(pos[x], box.center) == i
  }

  lemma {:induction false} RoutedAt<T>(t: Tree<T>, p: Path, pos: map<T, Vec3>, box: Box)
    requires Routed(t, pos, box) && HasPath(t, p)
    ensures Routed(At(t, p), pos, BoxAt(box, p))
    ensures p != [] ==> forall x :: x in Items(At(t, p)) ==> x in pos && Follows(pos[x], p, box)
    decreases |p|
  {
    if p != [] {
      RoutedAt(t.kids[p[0]], p[1..], pos, Child(box, p[0]));
      assert RoutedVia(t.kids[p[0]], pos, box, p[0]);
      forall x | x in Items(At(t, p)) ensures x in Items(t.kids[p[0]]) {
        ItemsPut(t.kids[p[0]], p[1..], Empty);
        assert x in multiset(Items(At(t, p)));
      }
    }
  }

  lemma {:induction false} RoutedPut<T>(t: Tree<T>, p: Path, s: Tree<T>, pos: map<T, Vec3>, box: Box)
    requires Routed(t, pos, box) && HasPath(t, p)
    requires Routed(s, pos, BoxAt(box, p))
    requires forall x :: x in Items(s) ==> x in pos && Follows(pos[x], p, box)
    ensures Routed(Put(t, p, s), pos, box)
    decreases |p|
  {
    hide ItemsOf, At;
    if p != [] {
      var k := t.kids[p[0]];
      RoutedPut(k, p[1..], s, pos, Child(box, p[0]));
      ItemsPut(k, p[1..], s);
      assert RoutedVia(k, pos, box, p[0]);
      forall x | x in Items(Put(k, p[1..], s)) ensures x in pos && CalculateNodeIndex(pos[x], box.center) == p[0] {
        assert x in multiset(Items(Put(k, p[1..], s)));
        assert x in Items(k) || x in Items(s);
      }
      assert RoutedVia(Put(k, p[1..], s), pos, box, p[0]);
      forall i: int | 0 <= i < 8 ensures RoutedVia(Put(t, p, s).kids[i], pos, box, i) {
        assert RoutedVia(t.kids[i], pos, box, i);
      }
    }
  }

  /** Routing depends on the positions of the stored items only. */
  lemma {:induction false} RoutedFrame<T>(t: Tree<T>, pos: map<T, Vec3>, pos': map<T, Vec3>, box: Box)
    requires Routed(t, pos, box)
    requires forall x :: x in Items(t) && x in pos ==> x in pos' && pos'[x] == pos[x]
    ensures Routed(t, pos', box)
    decreases t
  {
    if t.Branch? {
      forall i: int | 0 <= i < 8
        ensures RoutedVia(t.kids[i], pos', box, i) && Routed(t.kids[i], pos', Child(box, i))
      {
        assert RoutedVia(t.kids[i], pos, box, i);
        forall x | x in Items(t.kids[i]) ensures x in Items(t) { ItemBelow(t, i, x); }
        RoutedFrame(t.kids[i], pos, pos', Child(box, i));
      }
    }
  }

  lemma ConcatAssociates(a: Path, b: Path, c: Path)
    ensures a + (b + c) == a + b + c
  {
  }

  lemma {:induction false} FollowsConcat(q: Vec3, a: Path, b: Path, box: Box)
    ensures BoxAt(box, a + b) == BoxAt(BoxAt(box, a), b)
    ensures Follows(q, a + b, box) <==> Follows(q, a, box) && Follows(q, b, BoxAt(box, a))
    decreases |a|
  {
    if a == [] {
      assert a + b == b;
    } else {
      assert (a + b)[1..] == a[1..] + b;
      FollowsConcat(q, a[1..], b, Child(box, a[0]));
    }
  }

  /** The turns FindLeaf takes for a position, down to the first child that is empty or a leaf. */
  ghost function DownPath<T>(t: Tree<T>, q: Vec3, box: Box): (p: Path)
    requires Shaped(t) && t.Branch?
    ensures p != []
    decreases t
  {
    var i: Octant := CalculateNodeIndex(q, box.center);
    if t.kids[i].Branch? then [i] + DownPath(t.kids[i], q, Child(box, i)) else [i]
  }

  lemma {:induction false} DownPathReaches<T>(t: Tree<T>, q: Vec3, box: Box)
    requires Shaped(t) && t.Branch?
    ensures var p := DownPath(t, q, box);
            HasPath(t, p) && !At(t, p).Branch? && Follows(q, p, box)
    decreases t
  {
    var i: Octant := CalculateNodeIndex(q, box.center);
    if t.kids[i].Branch? {
      DownPathReaches(t.kids[i], q, Child(box, i));
      assert DownPath(t, q, box)[1..] == DownPath(t.kids[i], q, Child(box, i));
    }
  }

  /** FindLeaf at an item's own position reaches the one leaf that holds it: all occurrences of
      the item in the tree are there. */
  lemma {:induction false} FindLeafReachesItem<T>(t: Tree<T>, x: T, pos: map<T, Vec3>, box: Box)
    requires Shaped(t) && t.Branch? && Routed(t, pos, box)
    requires x in Items(t)
    ensures x in pos
    ensures var p := DownPath(t, pos[x], box);
            && HasPath(t, p) && At(t, p).Leaf?
            && multiset(At(t, p).items)[x] == multiset(Items(t))[x]
    decreases t
  {
    var i := ItemOfSome(t.kids, x);
    assert RoutedVia(t.kids[i], pos, box, i);
    OnlyInOneChild(t, i, x, pos, box);
    if t.kids[i].Branch? {
      FindLeafReachesItem(t.kids[i], x, pos, Child(box, i));
      assert DownPath(t, pos[x], box)[1..] == DownPath(t.kids[i], pos[x], Child(box, i));
    }
  }

  lemma OnlyInOneChild<T>(t: Tree<T>, i: Octant, x: T, pos: map<T, Vec3>, box: Box)
    requires t.Branch? && Routed(t, pos, box) && x in pos && CalculateNodeIndex(pos[x], box.center) == i
    ensures multiset(Items(t))[x] == multiset(Items(t.kids[i]))[x]
    ensures forall j: Octant :: j != i ==> x !in Items(t.kids[j])
  {
    forall j: Octant | j != i ensures x !in Items(t.kids[j]) {
      assert RoutedVia(t.kids[j], pos, box, j);
    }
    ItemsOfSplit(t.kids, i);
    if x in ItemsOf(t.kids[..i]) {
      var j := ItemOfSome(t.kids[..i], x);
      assert false;
    }
    if x in ItemsOf(t.kids[i + 1..]) {
      var j := ItemOfSome(t.kids[i + 1..], x);
      assert false;
    }
  }

  /** The shortcut of Update: when the old and the new position of an item lead to the same leaf,
      the tree is already routed for the position the caller is about to write. */
  lemma {:induction false} SameLeafKeepsRouting<T>(t: Tree<T>, x: T, pos: map<T, Vec3>, newPos: Vec3, box: Box)
    requires Shaped(t) && t.Branch? && Routed(t, pos, box)
    requires x in pos && DownPath(t, pos[x], box) == DownPath(t, newPos, box)
    ensures Routed(t, pos[x := newPos], box)
    decreases t
  {
    var pos' := pos[x := newPos];
    var i: Octant := CalculateNodeIndex(pos[x], box.center);
    assert DownPath(t, pos[x], box)[0] == i && DownPath(t, newPos, box)[0] == CalculateNodeIndex(newPos, box.center);
    OnlyInOneChild(t, i, x, pos, box);
    forall j: int | 0 <= j < 8
      ensures RoutedVia(t.kids[j], pos', box, j) && Routed(t.kids[j], pos', Child(box, j))
    {
      assert RoutedVia(t.kids[j], pos, box, j);
      if j != i {
        RoutedFrame(t.kids[j], pos, pos', Child(box, j));
      } else if t.kids[j].Branch? {
        assert DownPath(t, pos[x], box)[1..] == DownPath(t.kids[i], pos[x], Child(box, i));
        assert DownPath(t, newPos, box)[1..] == DownPath(t.kids[i], newPos, Child(box, i));
        SameLeafKeepsRouting(t.kids[j], x, pos, newPos, Child(box, j));
      }
    }
  }

  // ----- splitting and collapsing

  function Empties<T>(n: nat): (kids: seq<Tree<T>>)
    ensures |kids| == n && forall i: int :: 0 <= i < n ==> kids[i] == Empty
  {
    if n == 0 then [] else [Empty] + Empties(n - 1)
  }

  /** The children a full leaf is split into: each item joins the leaf of its octant. */
  ghost function SplitKids<T>(items: seq<T>, pos: map<T, Vec3>, center: Vec3): (kids: seq<Tree<T>>)
    requires forall x :: x in items ==> x in pos
    ensures |kids| == 8
    ensures forall i: int :: 0 <= i < 8 ==> !kids[i].Branch?
  {
    if items == [] then Empties(8)
    else
      var rest, last := items[..|items| - 1], items[|items| - 1];
      var kids := SplitKids(rest, pos, center);
      var i: Octant := CalculateNodeIndex(pos[last], center);
      kids[i := Leaf(Items(kids[i]) + [last])]
  }

  lemma Exchanged<T>(all: multiset<T>, part: multiset<T>, more: multiset<T>)
    requires part <= all
    ensures all - part + (part + more) == all + more
  {
  }

  lemma AppendCounts<T>(items: seq<T>, x: T)
    ensures multiset(items + [x]) == multiset(items) + multiset{x}
  {
  }

  /** Splitting loses and invents no item and leaves no empty leaf. */
  lemma {:induction false} SplitKidsSameItems<T>(items: seq<T>, pos: map<T, Vec3>, center: Vec3)
    requires forall x :: x in items ==> x in pos
    ensures multiset(ItemsOf(SplitKids(items, pos, center))) == multiset(items)
    ensures |ItemsOf(SplitKids(items, pos, center))| == |items|
  {
    hide ItemsOf;
    if items == [] {
      NoItems<T>(8);
    } else {
      var rest, last := items[..|items| - 1], items[|items| - 1];
      assert items == rest + [last];
      SplitKidsSameItems(rest, pos, center);
      var kids := SplitKids(rest, pos, center);
      var i: Octant := CalculateNodeIndex(pos[last], center);
      var leaf := Leaf(Items(kids[i]) + [last]);
      assert SplitKids(items, pos, center) == kids[i := leaf];
      ItemsOfUpdate(kids, i, leaf);
      Exchanged(multiset(ItemsOf(kids)), multiset(Items(kids[i])), multiset{last});
      AppendCounts(Items(kids[i]), last);
      AppendCounts(rest, last);
    }
  }

  /** The items of one octant, in the order they have. */
  ghost function OfOctant<T>(items: seq<T>, pos: map<T, Vec3>, center: Vec3, i: Octant): seq<T> {
    if items == [] then []
    else
      (if items[0] in pos && CalculateNodeIndex(pos[items[0]], center) == i then [items[0]] else [])
      + OfOctant(items[1..], pos, center, i)
  }

  lemma {:induction false} OfOctantConcat<T>(a: seq<T>, b: seq<T>, pos: map<T, Vec3>, center: Vec3, i: Octant)
    ensures OfOctant(a + b, pos, center, i) == OfOctant(a, pos, center, i) + OfOctant(b, pos, center, i)
  {
    if a == [] {
      assert a + b == b;
    } else {
      assert (a + b)[1..] == a[1..] + b;
      OfOctantConcat(a[1..], b, pos, center, i);
    }
  }

  /** Splitting hands each child the items of its octant, in the order they had in the leaf. */
  lemma {:induction false} SplitKidsInOrder<T>(items: seq<T>, pos: map<T, Vec3>, center: Vec3, i: Octant)
    requires forall x :: x in items ==> x in pos
    ensures Items(SplitKids(items, pos, center)[i]) == OfOctant(items, pos, center, i)
  {
    if items != [] {
      var rest, last := items[..|items| - 1], items[|items| - 1];
      SplitKidsInOrder(rest, pos, center, i);
      assert items == rest + [last];
      OfOctantConcat(rest, [last], pos, center, i);
      assert [last][1..] == [];
    }
  }

  /** Splitting files each item under its octant. */
  lemma {:induction false} SplitKidsRouted<T>(items: seq<T>, pos: map<T, Vec3>, box: Box)
    requires forall x :: x in items ==> x in pos
    ensures forall i: int :: 0 <= i < 8 ==> RoutedVia(SplitKids(items, pos, box.center)[i], pos, box, i)
  {
    if items != [] {
      SplitKidsRouted(items[..|items| - 1], pos, box);
    }
  }

  lemma {:induction false} SplitKidsSize<T>(items: seq<T>, pos: map<T, Vec3>, center: Vec3, i: Octant)
    requires forall x :: x in items ==> x in pos
    ensures |Items(SplitKids(items, pos, center)[i])| <= |items|
  {
    SplitKidsSameItems(items, pos, center);
    ItemsOfSplit(SplitKids(items, pos, center), i);
  }

  lemma {:induction false} NoItems<T>(n: nat)
    ensures ItemsOf(Empties<T>(n)) == []
  {
    if n > 0 {
      NoItems<T>(n - 1);
      assert Empties<T>(n)[1..] == Empties<T>(n - 1);
    }
  }

  lemma NothingBelowEmpties<T>(p: Path)
    requires HasPath(Branch(Empties<T>(8)), p)
    ensures p != [] ==> At(Branch(Empties<T>(8)), p) == Empty
  {
    if p != [] {
      assert At(Branch(Empties<T>(8)), p) == At(Empties<T>(8)[p[0]], p[1..]);
    }
  }

  /** Collapsing a child in place. */
  ghost function Flat<T>(t: Tree<T>): (r: Tree<T>)
    ensures Items(r) == Items(t) && !r.Branch? && (r.Empty? <==> t.Empty?)
  {
    if t.Branch? then Leaf(Items(t)) else t
  }

  lemma {:induction false} PutPut<T>(t: Tree<T>, p: Path, s: Tree<T>, s': Tree<T>)
    requires HasPath(t, p)
    ensures HasPath(Put(t, p, s), p) && Put(Put(t, p, s), p, s') == Put(t, p, s')
    ensures At(Put(t, p, s), p) == s
    decreases |p|
  {
    if p != [] {
      PutPut(t.kids[p[0]], p[1..], s, s');
    }
  }

  lemma {:induction false} PutAt<T>(t: Tree<T>, p: Path)
    requires HasPath(t, p)
    ensures Put(t, p, At(t, p)) == t
    decreases |p|
  {
    if p != [] {
      PutAt(t.kids[p[0]], p[1..]);
    }
  }

  lemma {:induction false} PutChild<T>(t: Tree<T>, p: Path, i: Octant, s: Tree<T>)
    requires HasPath(t, p) && At(t, p).Branch? && |At(t, p).kids| == 8
    ensures HasPath(t, p + [i]) && At(t, p + [i]) == At(t, p).kids[i]
    ensures Put(t, p + [i], s) == Put(t, p, Branch(At(t, p).kids[i := s]))
    decreases |p|
  {
    if p != [] {
      assert (p + [i])[1..] == p[1..] + [i];
      PutChild(t.kids[p[0]], p[1..], i, s);
    } else {
      assert p + [i] == [i] && [i][1..] == [];
    }
  }

  // ----- the invariant of a filed tree, and the exchanges that keep it

  /** The items are routed by these positions, all in bounds, at most n to a leaf. */
  ghost predicate FiledIn<T>(t: Tree<T>, pos: map<T, Vec3>, box: Box, n: nat) {
    && Routed(t, pos, box) && Fits(t, n)
    && forall x :: x in Items(t) ==> x in pos && InBox(pos[x], box)
  }

  lemma FiledPut<T>(t: Tree<T>, p: Path, s: Tree<T>, pos: map<T, Vec3>, box: Box, n: nat)
    requires FiledIn(t, pos, box, n) && HasPath(t, p)
    requires Routed(s, pos, BoxAt(box, p)) && Fits(s, n)
    requires forall x :: x in Items(s) ==> x in pos && InBox(pos[x], box) && Follows(pos[x], p, box)
    ensures FiledIn(Put(t, p, s), pos, box, n)
  {
    RoutedPut(t, p, s, pos, box);
    FitsPut(t, p, s, n);
    ItemsPut(t, p, s);
    forall x | x in Items(Put(t, p, s)) ensures x in pos && InBox(pos[x], box) {
      assert x in multiset(Items(Put(t, p, s)));
      assert x in Items(t) || x in Items(s);
    }
  }

  lemma FiledSubtree<T>(t: Tree<T>, p: Path, pos: map<T, Vec3>, box: Box, n: nat)
    requires FiledIn(t, pos, box, n) && HasPath(t, p)
    ensures Routed(At(t, p), pos, BoxAt(box, p)) && Fits(At(t, p), n)
    ensures forall x :: x in Items(At(t, p)) ==> x in pos && InBox(pos[x], box) && Follows(pos[x], p, box)
  {
    RoutedAt(t, p, pos, box);
    FitsPut(t, p, Empty, n);
    ItemsPut(t, p, Empty);
    forall x | x in Items(At(t, p)) ensures x in Items(t) { assert x in multiset(Items(At(t, p))); }
  }

  lemma LeafFits<T>(t: Tree<T>, p: Path, pos: map<T, Vec3>, box: Box, n: nat)
    requires FiledIn(t, pos, box, n) && HasPath(t, p) && At(t, p).Leaf?
    ensures |At(t, p).items| <= n
  {
    FitsPut(t, p, Empty, n);
  }

  lemma NewTree<T>(box: Box, n: nat)
    ensures Items(Branch(Empties<T>(8))) == []
    ensures Shaped(Branch(Empties<T>(8))) && FiledIn(Branch(Empties<T>(8)), map[], box, n)
  {
    hide ItemsOf;
    NoItems<T>(8);
    var s := Branch(Empties<T>(8));
    assert Items(s) == [];
    assert Shaped(s);
    assert Fits(s, n);
    assert Routed(s, map[], box);
  }

  lemma SplitFiled<T>(items: seq<T>, pos: map<T, Vec3>, cell: Box, n: nat)
    requires |items| <= n && forall x :: x in items ==> x in pos
    ensures var s := Branch(SplitKids(items, pos, cell.center));
            && Routed(s, pos, cell) && Fits(s, n) && Shaped(s)
            && multiset(Items(s)) == multiset(items) && |Items(s)| == |items|
  {
    var kids := SplitKids(items, pos, cell.center);
    SplitKidsSameItems(items, pos, cell.center);
    SplitKidsRouted(items, pos, cell);
    forall i: int | 0 <= i < 8 ensures Fits(kids[i], n) && Routed(kids[i], pos, Child(cell, i)) {
      SplitKidsSize(items, pos, cell.center, i);
      assert kids[i].Empty? || kids[i].Leaf?;
    }
  }

  /** Turning a leaf into a branch keeps the tree filed and its items as they were. */
  lemma FiledSplit<T>(t: Tree<T>, p: Path, pos: map<T, Vec3>, box: Box, n: nat)
    requires FiledIn(t, pos, box, n) && HasPath(t, p) && At(t, p).Leaf?
    ensures forall x :: x in At(t, p).items ==> x in pos
    ensures var s := Branch(SplitKids(At(t, p).items, pos, BoxAt(box, p).center));
            && FiledIn(Put(t, p, s), pos, box, n) && multiset(Items(Put(t, p, s))) == multiset(Items(t))
            && HasPath(Put(t, p, s), p) && At(Put(t, p, s), p) == s && multiset(Items(s)) == multiset(At(t, p).items)
  {
    hide At, BoxAt, Follows, Put, HasPath, ItemsOf, Shaped;
    FiledSubtree(t, p, pos, box, n);
    var items, cell := At(t, p).items, BoxAt(box, p);
    var s := Branch(SplitKids(items, pos, cell.center));
    SplitFiled(items, pos, cell, n);
    forall x | x in Items(s) ensures x in items { assert x in multiset(Items(s)); }
    FiledPut(t, p, s, pos, box, n);
    ItemsPutSame(t, p, s);
    PutPut(t, p, s, s);
  }

  lemma SplitCompany<T>(items: seq<T>, pos: map<T, Vec3>, q: Vec3, cell: Box, d: nat)
    requires forall x :: x in items ==> x in pos
    ensures var split := ItemsOf(SplitKids(items, pos, cell.center));
            Company(split, pos, q, cell, d) == Company(items, pos, q, cell, d)
  {
    var split := ItemsOf(SplitKids(items, pos, cell.center));
    SplitKidsSameItems(items, pos, cell.center);
    CompanyPermuted(items, split, pos, q, cell, d);
  }

  /** A fresh empty leaf changes nothing that matters. */
  lemma FiledNewLeaf<T>(t: Tree<T>, p: Path, pos: map<T, Vec3>, box: Box, n: nat)
    requires FiledIn(t, pos, box, n) && HasPath(t, p) && At(t, p).Empty?
    ensures FiledIn(Put(t, p, Leaf([])), pos, box, n) && multiset(Items(Put(t, p, Leaf([])))) == multiset(Items(t))
    ensures HasPath(Put(t, p, Leaf([])), p) && At(Put(t, p, Leaf([])), p) == Leaf([])
  {
    FiledPut(t, p, Leaf([]), pos, box, n);
    ItemsPut(t, p, Leaf([]));
    PutPut(t, p, Leaf([]), Empty);
  }

  /** Where Add goes from a branch at path bp: the position follows the whole way, and a full leaf
      there leaves some of the depth for the split below it. */
  lemma AddRoute<T>(t: Tree<T>, bp: Path, position: Vec3, pos: map<T, Vec3>, box: Box, n: nat, d: nat)
    requires FiledIn(t, pos, box, n) && HasPath(t, bp) && At(t, bp).Branch? && Shaped(At(t, bp))
      && Follows(position, bp, box)
    requires Company(Items(At(t, bp)), pos, position, BoxAt(box, bp), d) < n
    ensures var down := DownPath(At(t, bp), position, BoxAt(box, bp));
            var lp := bp + down;
            && HasPath(t, lp) && !At(t, lp).Branch? && Follows(position, lp, box)
            && BoxAt(box, lp) == BoxAt(BoxAt(box, bp), down)
            && (|Items(At(t, lp))| >= n ==>
              |down| <= d && Company(Items(At(t, lp)), pos, position, BoxAt(box, lp), d - |down|) < n)
  {
    var cell := BoxAt(box, bp);
    var down := DownPath(At(t, bp), position, cell);
    DownPathReaches(At(t, bp), position, cell);
    FollowsConcat(position, bp, down, box);
    FiledSubtree(t, bp, pos, box, n);
    CompanyAtLeaf(At(t, bp), pos, position, cell, d);
    AtConcat(t, bp, down);
  }

  /** One more item in a leaf with room, filed at the position that led there. */
  lemma FiledAppend<T>(t: Tree<T>, p: Path, x: T, position: Vec3, pos: map<T, Vec3>, box: Box, n: nat)
    requires FiledIn(t, pos, box, n) && HasPath(t, p) && At(t, p).Leaf? && |At(t, p).items| < n
    requires InBox(position, box) && Follows(position, p, box)
    requires x !in Items(t) || pos[x] == position
    ensures var s := Leaf(At(t, p).items + [x]);
            FiledIn(Put(t, p, s), pos[x := position], box, n)
                && multiset(Items(Put(t, p, s))) == multiset(Items(t)) + multiset{x}
  {
    var pos' := pos[x := position];
    RoutedFrame(t, pos, pos', box);
    assert FiledIn(t, pos', box, n);
    FiledSubtree(t, p, pos', box, n);
    var s := Leaf(At(t, p).items + [x]);
    FiledPut(t, p, s, pos', box, n);
    ItemsPut(t, p, s);
  }

  /** One item went in at path p and nothing elsewhere changed: an empty place got a leaf, a leaf with
      room got the item at its end, and only a full leaf became a branch. */
  ghost predicate GrownAt<T>(t: Tree<T>, t': Tree<T>, p: Path, x: T, n: nat) {
    && HasPath(t, p) && HasPath(t', p) && t' == Put(t, p, At(t', p))
    && match At(t, p)
       case Empty => At(t', p) == Leaf([x])
       case Leaf(items) => if |items| < n then At(t', p) == Leaf(items + [x]) else At(t', p).Branch?
       case Branch(_) => false
  }

  lemma GrownLeaf<T>(t: Tree<T>, p: Path, x: T, n: nat)
    requires HasPath(t, p) && At(t, p).Leaf? && |At(t, p).items| < n
    ensures GrownAt(t, Put(t, p, Leaf(At(t, p).items + [x])), p, x, n)
  {
    hide At, Put, HasPath;
    PutPut(t, p, Leaf(At(t, p).items + [x]), Empty);
  }

  lemma GrownFromEmpty<T>(t: Tree<T>, t': Tree<T>, p: Path, x: T, n: nat)
    requires HasPath(t, p) && At(t, p).Empty? && n > 0 && GrownAt(Put(t, p, Leaf([])), t', p, x, n)
    ensures GrownAt(t, t', p, x, n)
  {
    hide At, Put, HasPath;
    PutPut(t, p, Leaf([]), At(t', p));
  }

  lemma GrownBySplit<T>(t: Tree<T>, t': Tree<T>, p: Path, s: Tree<T>, q: Path, x: T, n: nat)
    requires HasPath(t, p) && At(t, p).Leaf? && |At(t, p).items| >= n
    requires s.Branch? && q != [] && GrownAt(Put(t, p, s), t', p + q, x, n)
    ensures GrownAt(t, t', p, x, n)
  {
    hide At, Put, HasPath;
    var sub := At(t', p + q);
    assert (p + q)[..|p|] == p;
    AtPrefix(t', p + q, |p|);
    AtConcat(t', p, q);
    PutPut(t, p, s, At(t', p));
    AtPut(Put(t, p, s), p + q, sub, p);
    AtConcat(Put(t, p, s), p, q);
    PutConcat(Put(t, p, s), p, q, sub);
  }

  lemma {:induction false} PutConcat<T>(t: Tree<T>, p: Path, q: Path, s: Tree<T>)
    requires HasPath(t, p + q)
    ensures HasPath(t, p) && HasPath(At(t, p), q) && Put(t, p + q, s) == Put(t, p, Put(At(t, p), q, s))
    decreases |p|
  {
    if p == [] {
      assert p + q == q;
    } else {
      assert (p + q)[1..] == p[1..] + q;
      PutConcat(t.kids[p[0]], p[1..], q, s);
    }
  }

  /** What Remove leaves in the leaf: the last item takes the place of the removed one. */
  function SwapRemoved<T>(items: seq<T>, i: nat): (r: seq<T>)
    requires i < |items|
    ensures |r| == |items| - 1
    ensures forall k :: 0 <= k < |r| ==> r[k] == if k == i then items[|items| - 1] else items[k]
  {
    items[i := items[|items| - 1]][..|items| - 1]
  }

  /** The first occurrence of an item left the leaf at path p, and nothing elsewhere changed. */
  ghost predicate TakenAt<T>(t: Tree<T>, t': Tree<T>, p: Path, x: T) {
    && HasPath(t, p) && At(t, p).Leaf?
    && var items := At(t, p).items;
       exists i :: 0 <= i < |items| && items[i] == x && x !in items[..i] && t' == Put(t, p, Leaf(SwapRemoved(items, i)))
  }

  lemma TakenFirst<T>(t: Tree<T>, p: Path, i: nat, x: T)
    requires HasPath(t, p) && At(t, p).Leaf? && i < |At(t, p).items|
    requires At(t, p).items[i] == x && x !in At(t, p).items[..i]
    ensures TakenAt(t, Put(t, p, Leaf(SwapRemoved(At(t, p).items, i))), p, x)
  {
  }

  /** A branch below the root with fewer than n / 2 items became a leaf with them, and nothing else changed. */
  ghost predicate FoldedAt<T>(t: Tree<T>, t': Tree<T>, p: Path, n: nat) {
    && HasPath(t, p)
    && t' == if p != [] && |Items(At(t, p))| < n / 2 then Put(t, p, Leaf(Items(At(t, p)))) else t
  }

  lemma SwapRemovedDropsOne<T>(items: seq<T>, i: nat)
    requires i < |items|
    ensures multiset(SwapRemoved(items, i)) == multiset(items) - multiset{items[i]}
  {
    var n := |items| - 1;
    if i == n {
      assert items == items[..n] + [items[n]];
      assert SwapRemoved(items, i) == items[..n];
    } else {
      var a, b := items[..i], items[i + 1..n];
      assert items == a + ([items[i]] + (b + [items[n]]));
      assert SwapRemoved(items, i) == a + ([items[n]] + b);
      LastForAnother(a, items[i], b, items[n]);
    }
  }

  lemma LastForAnother<T>(a: seq<T>, x: T, b: seq<T>, last: T)
    ensures multiset(a + ([last] + b)) == multiset(a + ([x] + (b + [last]))) - multiset{x}
  {
    assert multiset(b + [last]) == multiset(b) + multiset{last};
    assert multiset([x] + (b + [last])) == multiset{x} + multiset(b + [last]);
    assert multiset([last] + b) == multiset{last} + multiset(b);
  }

  lemma FiledRemove<T>(t: Tree<T>, p: Path, i: nat, pos: map<T, Vec3>, box: Box, n: nat)
    requires FiledIn(t, pos, box, n) && HasPath(t, p) && At(t, p).Leaf? && i < |At(t, p).items|
    ensures var s := Leaf(SwapRemoved(At(t, p).items, i));
            FiledIn(Put(t, p, s), pos, box, n)
                && multiset(Items(Put(t, p, s))) == multiset(Items(t)) - multiset{At(t, p).items[i]}
  {
    hide At, BoxAt, Follows, Put, HasPath, ItemsOf, SwapRemoved;
    var items := At(t, p).items;
    var s := Leaf(SwapRemoved(items, i));
    FiledSubtree(t, p, pos, box, n);
    SwapRemovedDropsOne(items, i);
    forall x | x in Items(s) ensures x in items { assert x in multiset(Items(s)); }
    FiledPut(t, p, s, pos, box, n);
    ItemsPut(t, p, s);
    assert multiset(items)[items[i]] > 0;
  }

  /** Folding a sparse branch into one leaf keeps the tree filed and its items as they were. */
  lemma FiledCollapse<T>(t: Tree<T>, p: Path, pos: map<T, Vec3>, box: Box, n: nat)
    requires FiledIn(t, pos, box, n) && HasPath(t, p) && |Items(At(t, p))| <= n
    ensures var s := Leaf(Items(At(t, p)));
            FiledIn(Put(t, p, s), pos, box, n) && multiset(Items(Put(t, p, s))) == multiset(Items(t))
  {
    var s := Leaf(Items(At(t, p)));
    FiledSubtree(t, p, pos, box, n);
    FiledPut(t, p, s, pos, box, n);
    ItemsPutSame(t, p, s);
  }

  /** The children of a branch whose first i are collapsed. */
  ghost function FlatTo<T>(kids: seq<Tree<T>>, i: nat): (r: seq<Tree<T>>)
    requires |kids| == 8 && i <= 8
    ensures |r| == 8 && forall j: int :: 0 <= j < 8 ==> r[j] == if j < i then Flat(kids[j]) else kids[j]
  {
    seq(8, j requires 0 <= j < 8 => if j < i then Flat(kids[j]) else kids[j])
  }

  lemma {:induction false} ItemsOfCongruent<T>(a: seq<Tree<T>>, b: seq<Tree<T>>)
    requires |a| == |b| && forall i: int :: 0 <= i < |a| ==> Items(a[i]) == Items(b[i])
    ensures ItemsOf(a) == ItemsOf(b)
  {
    if a != [] {
      ItemsOfCongruent(a[1..], b[1..]);
    }
  }

  lemma ItemsOfExtend<T>(kids: seq<Tree<T>>, i: nat)
    requires i < |kids|
    ensures ItemsOf(kids[..i + 1]) == ItemsOf(kids[..i]) + Items(kids[i])
  {
    assert kids[..i + 1] == kids[..i] + [kids[i]];
    ItemsOfConcat(kids[..i], [kids[i]]);
  }

  // ----- searching

  /** A linear scan: the items inside the search sphere, in order. */
  function Scan<T(==)>(items: seq<T>, pos: map<T, Vec3>, center: Vec3, radius: real): seq<T> {
    if items == [] then []
    else
      (if items[0] in pos && Within(pos[items[0]], center, radius) then [items[0]] else [])
      + Scan(items[1..], pos, center, radius)
  }

  lemma {:induction false} ScanConcat<T>(a: seq<T>, b: seq<T>, pos: map<T, Vec3>, center: Vec3, radius: real)
    ensures Scan(a + b, pos, center, radius) == Scan(a, pos, center, radius) + Scan(b, pos, center, radius)
  {
    if a == [] {
      assert a + b == b;
    } else {
      assert (a + b)[1..] == a[1..] + b;
      ScanConcat(a[1..], b, pos, center, radius);
    }
  }

  /** What a linear scan is for: each item in range as often as it occurs, nothing else. */
  lemma {:induction false} ScanCounts<T>(items: seq<T>, pos: map<T, Vec3>, center: Vec3, radius: real, x: T)
    ensures multiset(Scan(items, pos, center, radius))[x]
            == if x in pos && Within(pos[x], center, radius) then multiset(items)[x] else 0
  {
    if items != [] {
      ScanCounts(items[1..], pos, center, radius, x);
      assert items == [items[0]] + items[1..];
    }
  }

  lemma {:induction false} ScanNothing<T>(items: seq<T>, pos: map<T, Vec3>, center: Vec3, radius: real)
    requires forall x :: x in items ==> !(x in pos && Within(pos[x], center, radius))
    ensures Scan(items, pos, center, radius) == []
  {
    if items != [] {
      ScanNothing(items[1..], pos, center, radius);
    }
  }

  /** The scan of the first i children. */
  ghost function ScanKids<T>(kids: seq<Tree<T>>, i: nat, pos: map<T, Vec3>, center: Vec3, radius: real): (r: seq<T>)
    requires i <= |kids|
    ensures i == |kids| ==> r == Scan(ItemsOf(kids), pos, center, radius)
    ensures i == 0 ==> r == []
  {
    assert i == |kids| ==> kids[..i] == kids;
    Scan(ItemsOf(kids[..i]), pos, center, radius)
  }

  lemma ScanExtend<T>(kids: seq<Tree<T>>, i: nat, pos: map<T, Vec3>, center: Vec3, radius: real, found: seq<T>)
    requires i < |kids|
    ensures found + ScanKids(kids, i, pos, center, radius) + Scan(Items(kids[i]), pos, center, radius)
            == found + ScanKids(kids, i + 1, pos, center, radius)
  {
    ItemsOfExtend(kids, i);
    ScanConcat(ItemsOf(kids[..i]), Items(kids[i]), pos, center, radius);
  }

  /** The items of a routed branch lie in the cells of their children. */
  lemma RoutedInCells<T>(t: Tree<T>, pos: map<T, Vec3>, cell: Box, i: Octant)
    requires t.Branch? && Routed(t, pos, cell)
    requires forall x :: x in Items(t) ==> x in pos && InBox(pos[x], cell)
    ensures Routed(t.kids[i], pos, Child(cell, i))
    ensures forall x :: x in Items(t.kids[i]) ==> x in pos && InBox(pos[x], Child(cell, i))
  {
    assert RoutedVia(t.kids[i], pos, cell, i);
    forall x | x in Items(t.kids[i]) ensures x in pos && InBox(pos[x], Child(cell, i)) {
      ItemBelow(t, i, x);
      ChildContains(pos[x], cell);
    }
  }

  // ----- how deep a split goes

  /** How many of the items share the d-deep cell of a position. */
  ghost function Company<T>(items: seq<T>, pos: map<T, Vec3>, q: Vec3, box: Box, d: nat): nat {
    if items == [] then 0
    else (if items[0] in pos && SameCell(pos[items[0]], q, box, d) then 1 else 0) + Company(items[1..], pos, q, box, d)
  }

  /** How many of the items sit exactly at a position. */
  ghost function Coincident<T>(items: seq<T>, pos: map<T, Vec3>, q: Vec3): nat {
    if items == [] then 0
    else (if items[0] in pos && pos[items[0]] == q then 1 else 0) + Coincident(items[1..], pos, q)
  }

  /** At some finite depth a cell holds only the items that coincide. */
  lemma {:induction false} CompanyThins<T>(items: seq<T>, pos: map<T, Vec3>, q: Vec3, box: Box) returns (d: nat)
    requires forall x :: x in items ==> x in pos && InBox(pos[x], box)
    requires InBox(q, box)
    ensures Company(items, pos, q, box, d) == Coincident(items, pos, q)
  {
    if items == [] {
      d := 0;
    } else {
      d := CompanyThins(items[1..], pos, q, box);
      var u := pos[items[0]];
      if u != q {
        var e := DistinctPositionsSeparate(u, q, box);
        CompanyShrinks(items[1..], pos, q, box, d, if d < e then e else d);
        CompanyAtLeastCoincident(items[1..], pos, q, box, if d < e then e else d);
        d := if d < e then e else d;
        if SameCell(u, q, box, d) {
          SameCellShallower(u, q, box, d, e);
        }
      } else {
        SamePositionSameCell(q, box, d);
      }
    }
  }

  lemma {:induction false} CompanyShrinks<T>(items: seq<T>, pos: map<T, Vec3>, q: Vec3, box: Box, d: nat, e: nat)
    requires d <= e
    ensures Company(items, pos, q, box, e) <= Company(items, pos, q, box, d)
  {
    if items != [] {
      CompanyShrinks(items[1..], pos, q, box, d, e);
      if items[0] in pos && SameCell(pos[items[0]], q, box, e) {
        SameCellShallower(pos[items[0]], q, box, e, d);
      }
    }
  }

  /** Coinciding items share the cell at every depth, so no number of splits parts them. */
  lemma {:induction false} CompanyAtLeastCoincident<T>(items: seq<T>, pos: map<T, Vec3>, q: Vec3, box: Box, d: nat)
    ensures Company(items, pos, q, box, d) >= Coincident(items, pos, q)
  {
    if items != [] {
      CompanyAtLeastCoincident(items[1..], pos, q, box, d);
      if items[0] in pos && pos[items[0]] == q {
        SamePositionSameCell(q, box, d);
      }
    }
  }

  lemma {:induction false} CompanyConcat<T>(a: seq<T>, b: seq<T>, pos: map<T, Vec3>, q: Vec3, box: Box, d: nat)
    ensures Company(a + b, pos, q, box, d) == Company(a, pos, q, box, d) + Company(b, pos, q, box, d)
  {
    if a == [] {
      assert a + b == b;
    } else {
      assert (a + b)[1..] == a[1..] + b;
      CompanyConcat(a[1..], b, pos, q, box, d);
    }
  }

  lemma TakeOut<T>(b: seq<T>, x: T) returns (before: seq<T>, after: seq<T>)
    requires x in b
    ensures b == before + [x] + after
    ensures multiset(before + after) == multiset(b) - multiset{x}
  {
    var k :| 0 <= k < |b| && b[k] == x;
    before, after := b[..k], b[k + 1..];
    assert b == before + [x] + after;
    assert multiset(b) == multiset(before) + multiset{x} + multiset(after);
  }

  /** Company does not depend on the order of the items. */
  lemma {:induction false} CompanyPermuted<T>(a: seq<T>, b: seq<T>, pos: map<T, Vec3>, q: Vec3, box: Box, d: nat)
    requires multiset(a) == multiset(b)
    ensures Company(a, pos, q, box, d) == Company(b, pos, q, box, d)
    decreases |a|
  {
    if a == [] {
      assert |multiset(b)| == 0;
    } else {
      assert a[0] in multiset(b);
      var before, after := TakeOut(b, a[0]);
      assert a == [a[0]] + a[1..];
      assert multiset(a[1..]) == multiset(a) - multiset{a[0]};
      CompanyPermuted(a[1..], before + after, pos, q, box, d);
      CompanyConcat(before + [a[0]], after, pos, q, box, d);
      CompanyConcat(before, [a[0]], pos, q, box, d);
      CompanyConcat(before, after, pos, q, box, d);
    }
  }

  lemma {:induction false} CompanyAll<T>(items: seq<T>, pos: map<T, Vec3>, q: Vec3, box: Box)
    requires forall x :: x in items ==> x in pos
    ensures Company(items, pos, q, box, 0) == |items|
  {
    if items != [] {
      CompanyAll(items[1..], pos, q, box);
    }
  }

  /** One level down: the items of the child a position selects, counted one level less deep. */
  lemma {:induction false} CompanyInChild<T>(items: seq<T>, pos: map<T, Vec3>, q: Vec3, box: Box, d: nat)
    requires forall x :: x in items ==>
      x in pos && CalculateNodeIndex(pos[x], box.center) == CalculateNodeIndex(q, box.center)
    requires d > 0
    ensures Company(items, pos, q, box, d)
      == Company(items, pos, q, Child(box, CalculateNodeIndex(q, box.center)), d - 1)
  {
    if items != [] {
      CompanyInChild(items[1..], pos, q, box, d);
    }
  }

  /** The company of a position in the node its route reaches, at the depth that remains. */
  lemma {:induction false} CompanyAtLeaf<T>(t: Tree<T>, pos: map<T, Vec3>, q: Vec3, box: Box, d: nat)
    requires Shaped(t) && t.Branch? && Routed(t, pos, box)
    ensures var p := DownPath(t, q, box);
            && HasPath(t, p)
            && (if |p| <= d then
                  Company(Items(At(t, p)), pos, q, BoxAt(box, p), d - |p|) <= Company(Items(t), pos, q, box, d)
                else |Items(At(t, p))| <= Company(Items(t), pos, q, box, d))
    decreases t
  {
    var i: Octant := CalculateNodeIndex(q, box.center);
    var k, below := t.kids[i], Child(box, i);
    DownStep(t, q, box);
    CompanyOfChild(t, i, pos, q, box, d);
    if k.Branch? {
      CompanyAtLeaf(k, pos, q, below, if d == 0 then 0 else d - 1);
    }
  }

  /** FindLeaf takes one turn and either stops or goes on from the child. */
  lemma DownStep<T>(t: Tree<T>, q: Vec3, box: Box)
    requires Shaped(t) && t.Branch?
    ensures var i: Octant := CalculateNodeIndex(q, box.center);
            var p, k := DownPath(t, q, box), t.kids[i];
            && HasPath(t, p)
            && (k.Branch? ==> var below := DownPath(k, q, Child(box, i));
                p == [i] + below && HasPath(k, below) && At(t, p) == At(k, below)
                    && BoxAt(box, p) == BoxAt(Child(box, i), below))
            && (!k.Branch? ==> p == [i] && At(t, p) == k && BoxAt(box, p) == Child(box, i))
  {
    var i: Octant := CalculateNodeIndex(q, box.center);
    var p, k := DownPath(t, q, box), t.kids[i];
    DownPathReaches(t, q, box);
    if k.Branch? {
      assert p[1..] == DownPath(k, q, Child(box, i));
    } else {
      assert p[1..] == [];
    }
  }

  lemma CompanyOfChild<T>(t: Tree<T>, i: Octant, pos: map<T, Vec3>, q: Vec3, box: Box, d: nat)
    requires t.Branch? && Routed(t, pos, box) && i == CalculateNodeIndex(q, box.center)
    ensures if d == 0 then |Items(t.kids[i])| <= Company(Items(t), pos, q, box, d)
                           && Company(Items(t.kids[i]), pos, q, Child(box, i), 0) == |Items(t.kids[i])|
            else Company(Items(t.kids[i]), pos, q, Child(box, i), d - 1) <= Company(Items(t), pos, q, box, d)
  {
    var k := t.kids[i];
    assert RoutedVia(k, pos, box, i);
    ItemsOfSplit(t.kids, i);
    var before, after := ItemsOf(t.kids[..i]), ItemsOf(t.kids[i + 1..]);
    CompanyConcat(before + Items(k), after, pos, q, box, d);
    CompanyConcat(before, Items(k), pos, q, box, d);
    if d == 0 {
      CompanyAll(Items(k), pos, q, box);
      CompanyAll(Items(k), pos, q, Child(box, i));
    } else {
      CompanyInChild(Items(k), pos, q, box, d);
    }
  }

  /** No valid tree holds more than n items at one position: they all route to one leaf. */
  lemma {:induction false} CoincidentFit<T>(t: Tree<T>, pos: map<T, Vec3>, q: Vec3, box: Box, n: nat)
    requires Fits(t, n) && Routed(t, pos, box)
    ensures Coincident(Items(t), pos, q) <= n
    decreases t
  {
    match t
    case Empty =>
    case Leaf(items) => CoincidentSize(items, pos, q);
    case Branch(kids) =>
      var i: Octant := CalculateNodeIndex(q, box.center);
      CoincidentFit(kids[i], pos, q, Child(box, i), n);
      CoincidentOfChild(t, i, pos, q, box);
  }

  /** All items at a position lie below the child it selects. */
  lemma CoincidentOfChild<T>(t: Tree<T>, i: Octant, pos: map<T, Vec3>, q: Vec3, box: Box)
    requires t.Branch? && Routed(t, pos, box) && i == CalculateNodeIndex(q, box.center)
    ensures Coincident(Items(t), pos, q) == Coincident(Items(t.kids[i]), pos, q)
  {
    var kids := t.kids;
    ItemsOfSplit(kids, i);
    var before, after := ItemsOf(kids[..i]), ItemsOf(kids[i + 1..]);
    CoincidentConcat(before + Items(kids[i]), after, pos, q);
    CoincidentConcat(before, Items(kids[i]), pos, q);
    forall x | x in before + after ensures !(x in pos && pos[x] == q) {
      if x in before {
        var j := ItemOfSome(kids[..i], x);
        assert RoutedVia(kids[j], pos, box, j);
      } else {
        var j := ItemOfSome(kids[i + 1..], x);
        assert RoutedVia(kids[i + 1 + j], pos, box, i + 1 + j);
      }
    }
    CoincidentNone(before, pos, q);
    CoincidentNone(after, pos, q);
  }

  lemma {:induction false} CoincidentSize<T>(items: seq<T>, pos: map<T, Vec3>, q: Vec3)
    ensures Coincident(items, pos, q) <= |items|
  {
    if items != [] { CoincidentSize(items[1..], pos, q); }
  }

  lemma {:induction false} CoincidentConcat<T>(a: seq<T>, b: seq<T>, pos: map<T, Vec3>, q: Vec3)
    ensures Coincident(a + b, pos, q) == Coincident(a, pos, q) + Coincident(b, pos, q)
  {
    if a == [] {
      assert a + b == b;
    } else {
      assert (a + b)[1..] == a[1..] + b;
      CoincidentConcat(a[1..], b, pos, q);
    }
  }

  lemma {:induction false} CoincidentNone<T>(items: seq<T>, pos: map<T, Vec3>, q: Vec3)
    requires forall x :: x in items ==> !(x in pos && pos[x] == q)
    ensures Coincident(items, pos, q) == 0
  {
    if items != [] { CoincidentNone(items[1..], pos, q); }
  }

  lemma {:induction false} CoincidentSub<T>(a: seq<T>, b: seq<T>, pos: map<T, Vec3>, q: Vec3)
    requires multiset(a) <= multiset(b)
    ensures Coincident(a, pos, q) <= Coincident(b, pos, q)
    decreases |a|
  {
    if a != [] {
      assert a[0] in multiset(a) && a == [a[0]] + a[1..];
      var before, after := TakeOut(b, a[0]);
      CoincidentSub(a[1..], before + after, pos, q);
      CoincidentConcat(before + [a[0]], after, pos, q);
      CoincidentConcat(before, [a[0]], pos, q);
      CoincidentConcat(before, after, pos, q);
    }
  }
}
