/** Whole runs of the octree against the plain list it stands in for: whatever sequence of additions,
    removals, moves and searches is made, every search answers as a linear scan of the list would. */
module OctreeRun {
  import opened OctreeCells
  import opened OctreeTree
  import opened Octree

  datatype Op<T> =
    | Add(item: T, at: Vec3)
    | Remove(item: T)
    | Move(item: T, to: Vec3)
    | Find(center: Vec3, radius: real)

  /** The reference: the stored items in a list, and where each of them is. */
  datatype Flat<T> = Flat(items: seq<T>, pos: map<T, Vec3>)

  function Without<T(==)>(items: seq<T>, x: T): seq<T> {
    if items == [] then [] else if items[0] == x then items[1..] else [items[0]] + Without(items[1..], x)
  }

  lemma {:induction false} WithoutDropsOne<T>(items: seq<T>, x: T)
    ensures multiset(Without(items, x)) == multiset(items) - multiset{x}
  {
    if items != [] {
      assert items == [items[0]] + items[1..];
      if items[0] != x {
        WithoutDropsOne(items[1..], x);
        assert Without(items, x) == [items[0]] + Without(items[1..], x);
      }
    }
  }

  function Step<T(==)>(f: Flat<T>, op: Op<T>): Flat<T> {
    match op
    case Add(x, p) => Flat(f.items + [x], f.pos[x := p])
    case Remove(x) => f.(items := Without(f.items, x))
    case Move(x, p) => f.(pos := f.pos[x := p])
    case Find(_, _) => f
  }

  /** What a caller has to respect: positions in bounds, removed and moved items are stored, an item
      has one position, and fewer than n others sit exactly where an item goes. */
  ghost predicate Legal<T>(f: Flat<T>, op: Op<T>, box: Box, n: nat) {
    match op
    case Add(x, p) => InBox(p, box) && (x in f.items ==> x in f.pos && f.pos[x] == p)
        && Coincident(f.items, f.pos, p) < n
    case Remove(x) => x in f.items
    case Move(x, p) => InBox(p, box) && x in f.items
                    && ((x in f.pos && f.pos[x] == p)
                      || (multiset(f.items)[x] == 1 && Coincident(f.items, f.pos, p) < n))
    case Find(_, _) => true
  }

  ghost predicate AllLegal<T>(f: Flat<T>, ops: seq<Op<T>>, box: Box, n: nat)
    decreases |ops|
  {
    ops != [] ==> Legal(f, ops[0], box, n) && AllLegal(Step(f, ops[0]), ops[1..], box, n)
  }

  /** What the searches of a run find in the list. */
  function Answers<T(==)>(f: Flat<T>, ops: seq<Op<T>>): seq<seq<T>>
    decreases |ops|
  {
    if ops == [] then []
    else
      (if ops[0].Find? then [Scan(f.items, f.pos, ops[0].center, ops[0].radius)] else [])
      + Answers(Step(f, ops[0]), ops[1..])
  }

  function StepAll<T(==)>(f: Flat<T>, ops: seq<Op<T>>): Flat<T>
    decreases |ops|
  {
    if ops == [] then f else StepAll(Step(f, ops[0]), ops[1..])
  }

  /** The octree stores the items of the list, filed under the same positions. */
  ghost predicate Represents<T>(o: Octree<T>, f: Flat<T>)
    reads o, o.cells.Values
  {
    o.Valid() && o.Filed(f.pos) && multiset(Items(o.tree)) == multiset(f.items)
  }

  /** The order of the list does not matter to what a scan finds. */
  lemma {:induction false} SameScan<T>(a: seq<T>, b: seq<T>, pos: map<T, Vec3>, center: Vec3, radius: real)
    requires multiset(a) == multiset(b)
    ensures multiset(Scan(a, pos, center, radius)) == multiset(Scan(b, pos, center, radius))
    decreases |a|
  {
    if a == [] {
      assert |multiset(b)| == 0;
    } else {
      assert a[0] in multiset(b);
      var before, after := TakeOut(b, a[0]);
      assert a == [a[0]] + a[1..];
      assert multiset(a[1..]) == multiset(a) - multiset{a[0]};
      SameScan(a[1..], before + after, pos, center, radius);
      ScanConcat(before + [a[0]], after, pos, center, radius);
      ScanConcat(before, [a[0]], pos, center, radius);
      ScanConcat(before, after, pos, center, radius);
      ScanConcat([a[0]], a[1..], pos, center, radius);
    }
  }

  lemma {:induction false} PositionsAgree<T>(items: seq<T>, pos: map<T, Vec3>, pos': map<T, Vec3>, p: Vec3)
    requires forall x :: x in items ==> (x in pos && pos[x] == p <==> x in pos' && pos'[x] == p)
    ensures Coincident(items, pos, p) == Coincident(items, pos', p)
  {
    if items != [] {
      PositionsAgree(items[1..], pos, pos', p);
    }
  }

  /** The bound on coinciding items is the exact one: where it fails, no octree of capacity N
      stores what the list holds after the addition. */
  lemma RoomIsNeeded<T>(o: Octree<T>, f: Flat<T>, x: T, p: Vec3)
    requires x in f.items ==> x in f.pos && f.pos[x] == p
    requires Represents(o, Step(f, Add(x, p)))
    ensures Coincident(f.items, f.pos, p) < o.N
  {
    var f' := Step(f, Add(x, p));
    CoincidentFit(o.tree, f'.pos, p, o.box, o.N);
    CoincidentSub(f'.items, Items(o.tree), f'.pos, p);
    CoincidentConcat(f.items, [x], f'.pos, p);
    PositionsAgree(f.items, f.pos, f'.pos, p);
  }

  /** One operation keeps the octree in step with the list. */
  method Apply<T(==)>(o: Octree<T>, op: Op<T>, f: Flat<T>) returns (found: seq<T>)
    requires Represents(o, f) && Legal(f, op, o.box, o.N)
    modifies o, o.cells.Values
    ensures Represents(o, Step(f, op)) && o.SameOrFresh()
    ensures op.Find? ==> multiset(found) == multiset(Scan(f.items, f.pos, op.center, op.radius))
  {
    hide Scan, Coincident, Items, ItemsOf;
    SameMembers(Items(o.tree), f.items);
    found := [];
    match op
    case Add(x, p) =>
      CoincidentSub(Items(o.tree), f.items, f.pos, p);
      o.Add(x, p, f.pos);
      assert multiset(f.items + [x]) == multiset(f.items) + multiset{x};
    case Remove(x) =>
      WithoutDropsOne(f.items, x);
      FindLeafReachesItem(o.tree, x, f.pos, o.box);
      assert x in multiset(At(o.tree, DownPath(o.tree, f.pos[x], o.box)).items);
      ghost var _ := o.Remove(x, f.pos[x], f.pos);
    case Move(x, p) =>
      CoincidentSub(Items(o.tree), f.items, f.pos, p);
      o.Update(x, f.pos[x], p, f.pos);
    case Find(center, radius) =>
      var n;
      n, found := o.FindItems(center, radius, f.pos);
      SameScan(Items(o.tree), f.items, f.pos, center, radius);
  }

  /** A run yields, search by search, the items a linear scan of the list yields, each as often. */
  method Run<T(==)>(o: Octree<T>, ops: seq<Op<T>>, f: Flat<T>) returns (answers: seq<seq<T>>)
    requires Represents(o, f) && AllLegal(f, ops, o.box, o.N)
    modifies o, o.cells.Values
    ensures Represents(o, StepAll(f, ops))
    ensures |answers| == |Answers(f, ops)|
    ensures forall i :: 0 <= i < |answers| ==> multiset(answers[i]) == multiset(Answers(f, ops)[i])
    decreases |ops|
  {
    hide Represents, Scan, Legal, Step;
    answers := [];
    if ops != [] {
      var found := Apply(o, ops[0], f);
      answers := Run(o, ops[1..], Step(f, ops[0]));
      if ops[0].Find? {
        answers := [found] + answers;
      }
    }
  }
}
