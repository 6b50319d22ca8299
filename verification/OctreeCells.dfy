/** Geometry of the sparse octree: which octant of a cell a position falls in, where the cell of an
    octant lies, and when a search box touches a cell. Coordinates are reals. */
module OctreeCells {

  datatype Vec3 = Vec3(x: real, y: real, z: real)

  type Octant = i: int | 0 <= i < 8
  type Path = seq<Octant>

  datatype Box = Box(center: Vec3, bounds: Vec3)

  datatype IntersectResult = None | Partial | Full

  /** The octant of a cell with the given center: bit 2 is right, bit 1 is up, bit 0 is ahead. */
  function CalculateNodeIndex(position: Vec3, center: Vec3): Octant {
    (if position.x > center.x then 4 else 0)
    + (if position.y > center.y then 2 else 0)
    + (if position.z > center.z then 1 else 0)
  }

  function Half(v: Vec3): Vec3 { Vec3(v.x / 2.0, v.y / 2.0, v.z / 2.0) }

  function CalculateCenter(center: Vec3, bounds: Vec3, index: Octant): Vec3 {
    var right := if index / 4 % 2 == 1 then 1.0 else 0.0;
    var up := if index / 2 % 2 == 1 then 1.0 else 0.0;
    var forward := if index % 2 == 1 then 1.0 else 0.0;
    Vec3(center.x + (right - 0.5) * bounds.x,
         center.y + (up - 0.5) * bounds.y,
         center.z + (forward - 0.5) * bounds.z)
  }

  /** The cell of one octant of a cell. */
  function Child(box: Box, index: Octant): Box {
    Box(CalculateCenter(box.center, box.bounds, index), Half(box.bounds))
  }

  /** Closed containment, as the debug assertion in CalculateNodeIndex demands it. */
  predicate InBox(p: Vec3, box: Box) {
    && box.center.x - box.bounds.x <= p.x <= box.center.x + box.bounds.x
    && box.center.y - box.bounds.y <= p.y <= box.center.y + box.bounds.y
    && box.center.z - box.bounds.z <= p.z <= box.center.z + box.bounds.z
  }

  predicate OverlapsAxis(nodeMin: real, nodeMax: real, searchMin: real, searchMax: real) {
    || nodeMin <= searchMin <= nodeMax
    || nodeMin <= searchMax <= nodeMax
    || searchMin <= nodeMin <= searchMax
    || (searchMin <= nodeMin && nodeMax <= searchMax)
  }

  function CalculateBoxBoundsIntersection(node: Box, search: Box): IntersectResult {
    var nodeMin := Vec3(node.center.x - node.bounds.x, node.center.y - node.bounds.y, node.center.z - node.bounds.z);
    var nodeMax := Vec3(node.center.x + node.bounds.x, node.center.y + node.bounds.y, node.center.z + node.bounds.z);
    var searchMin := Vec3(search.center.x - search.bounds.x, search.center.y - search.bounds.y,
        search.center.z - search.bounds.z);
    var searchMax := Vec3(search.center.x + search.bounds.x, search.center.y + search.bounds.y,
        search.center.z + search.bounds.z);
    if && OverlapsAxis(nodeMin.x, nodeMax.x, searchMin.x, searchMax.x)
       && OverlapsAxis(nodeMin.y, nodeMax.y, searchMin.y, searchMax.y)
       && OverlapsAxis(nodeMin.z, nodeMax.z, searchMin.z, searchMax.z) then
      if && searchMin.x <= nodeMin.x && searchMax.x >= nodeMax.x
         && searchMin.y <= nodeMin.y && searchMax.y >= nodeMax.y
         && searchMin.z <= nodeMin.z && searchMax.z >= nodeMax.z
      then Full else Partial
    else None
  }

  function Square(r: real): real { r * r }

  /** The search sphere, without the square root: distance <= radius. */
  predicate Within(p: Vec3, center: Vec3, radius: real) {
    && radius >= 0.0
    && Square(p.x - center.x) + Square(p.y - center.y) + Square(p.z - center.z) <= Square(radius)
  }

  function Cube(radius: real): Vec3 { Vec3(radius, radius, radius) }

  /** Each bit of the index is the side of one dividing plane, a position on the plane being on the lower
      side, and the cell of the octant extends from the center of its parent to that side. */
  lemma IndexMeans(p: Vec3, box: Box)
    ensures var i: Octant := CalculateNodeIndex(p, box.center);
            && (i / 4 % 2 == 1 <==> p.x > box.center.x)
            && (i / 2 % 2 == 1 <==> p.y > box.center.y)
            && (i % 2 == 1 <==> p.z > box.center.z)
  {
  }

  lemma ChildMeans(box: Box, i: Octant)
    ensures var cell := Child(box, i);
            && cell.bounds == Vec3(box.bounds.x / 2.0, box.bounds.y / 2.0, box.bounds.z / 2.0)
            && cell.center.x == (if i / 4 % 2 == 1 then box.center.x + cell.bounds.x else box.center.x - cell.bounds.x)
            && cell.center.y == (if i / 2 % 2 == 1 then box.center.y + cell.bounds.y else box.center.y - cell.bounds.y)
            && cell.center.z == (if i % 2 == 1 then box.center.z + cell.bounds.z else box.center.z - cell.bounds.z)
  {
  }

  predicate Proper(box: Box) { box.bounds.x >= 0.0 && box.bounds.y >= 0.0 && box.bounds.z >= 0.0 }

  /** What the test of two boxes says: None if they have no position in common, Full if the search box
      contains the node's, Partial otherwise. */
  lemma IntersectionMeans(node: Box, search: Box)
    requires Proper(node) && Proper(search)
    ensures CalculateBoxBoundsIntersection(node, search) == None <==> !exists p :: InBox(p, node) && InBox(p, search)
    ensures CalculateBoxBoundsIntersection(node, search) == Full <==> forall p :: InBox(p, node) ==> InBox(p, search)
  {
    var r := CalculateBoxBoundsIntersection(node, search);
    var low := Vec3(node.center.x - node.bounds.x, node.center.y - node.bounds.y, node.center.z - node.bounds.z);
    var high := Vec3(node.center.x + node.bounds.x, node.center.y + node.bounds.y, node.center.z + node.bounds.z);
    assert InBox(low, node) && InBox(high, node);
    if r != None {
      var p := Vec3(Larger(low.x, search.center.x - search.bounds.x), Larger(low.y, search.center.y - search.bounds.y),
                    Larger(low.z, search.center.z - search.bounds.z));
      assert InBox(p, node) && InBox(p, search);
    }
    if forall p :: InBox(p, node) ==> InBox(p, search) {
      assert InBox(low, search) && InBox(high, search);
    }
  }

  function Larger(a: real, b: real): real { if a < b then b else a }

  // ----- the cells of one subdivision tile their parent

  lemma ChildContains(p: Vec3, box: Box)
    requires InBox(p, box)
    ensures InBox(p, Child(box, CalculateNodeIndex(p, box.center)))
  {
  }

  /** The eight closed cells cover the parent, stay inside it, and every position away from the
      dividing planes lies in exactly the cell of its octant. */
  lemma ChildrenTileParent(p: Vec3, box: Box, i: Octant)
    requires box.bounds.x >= 0.0 && box.bounds.y >= 0.0 && box.bounds.z >= 0.0
    ensures InBox(p, box) <==> exists k: Octant :: InBox(p, Child(box, k))
    ensures InBox(p, Child(box, i)) && p.x != box.center.x && p.y != box.center.y && p.z != box.center.z
            ==> i == CalculateNodeIndex(p, box.center)
  {
    if InBox(p, box) {
      ChildContains(p, box);
    }
    if k: Octant :| InBox(p, Child(box, k)) {
      ChildInside(p, box, k);
    }
  }

  lemma ChildInside(p: Vec3, box: Box, k: Octant)
    requires box.bounds.x >= 0.0 && box.bounds.y >= 0.0 && box.bounds.z >= 0.0
    requires InBox(p, Child(box, k))
    ensures InBox(p, box)
  {
  }

  // ----- pruning is sound

  lemma SquareMonotone(d: real, r: real)
    requires r >= 0.0
    requires d > r || d < -r
    ensures Square(d) > Square(r)
  {
    if d > r {
      ProductPositive(d - r, d + r);
      assert (d - r) * (d + r) == d * d - r * r;
    } else {
      var a, b := -d - r, r - d;
      ProductPositive(a, b);
      assert a * b == d * d - r * r;
    }
  }

  lemma ProductPositive(a: real, b: real)
    requires a > 0.0 && b > 0.0
    ensures a * b > 0.0
  {
  }

  lemma SquareNonNegative(d: real)
    ensures Square(d) >= 0.0
  {
  }

  /** A cell the intersection test rejects holds no position of the search sphere. */
  lemma PrunedCellHoldsNothing(p: Vec3, cell: Box, center: Vec3, radius: real)
    requires InBox(p, cell)
    requires CalculateBoxBoundsIntersection(cell, Box(center, Cube(radius))) == None
    ensures !Within(p, center, radius)
  {
    if radius >= 0.0 {
      SquareNonNegative(p.x - center.x);
      SquareNonNegative(p.y - center.y);
      SquareNonNegative(p.z - center.z);
      if !(-radius <= p.x - center.x <= radius) {
        SquareMonotone(p.x - center.x, radius);
      } else if !(-radius <= p.y - center.y <= radius) {
        SquareMonotone(p.y - center.y, radius);
      } else if !(-radius <= p.z - center.z <= radius) {
        SquareMonotone(p.z - center.z, radius);
      }
    }
  }

  /** Outside the root cell the test prunes what a linear scan would find, so the bounds
      assertion is needed for the two to agree. */
  lemma OutOfBoundsIsPruned(p: Vec3, cell: Box)
    requires cell.bounds.x >= 0.0 && cell.bounds.y >= 0.0 && cell.bounds.z >= 0.0
    requires !InBox(p, cell)
    ensures CalculateBoxBoundsIntersection(cell, Box(p, Cube(0.0))) == None
    ensures Within(p, p, 0.0)
  {
  }

  // ----- halving separates distinct positions

  /** Whether two positions route through the same d octants below a cell. */
  predicate SameCell(u: Vec3, v: Vec3, box: Box, d: nat)
    decreases d
  {
    d == 0 ||
    (&& CalculateNodeIndex(u, box.center) == CalculateNodeIndex(v, box.center)
     && SameCell(u, v, Child(box, CalculateNodeIndex(v, box.center)), d - 1))
  }

  /** A half extent after d subdivisions. */
  function Halved(extent: real, d: nat): real
    decreases d
  {
    if d == 0 then extent else Halved(extent / 2.0, d - 1)
  }

  lemma {:induction false} SameCellIsClose(u: Vec3, v: Vec3, box: Box, d: nat)
    requires InBox(u, box) && InBox(v, box)
    requires SameCell(u, v, box, d)
    ensures -2.0 * Halved(box.bounds.x, d) <= u.x - v.x <= 2.0 * Halved(box.bounds.x, d)
    ensures -2.0 * Halved(box.bounds.y, d) <= u.y - v.y <= 2.0 * Halved(box.bounds.y, d)
    ensures -2.0 * Halved(box.bounds.z, d) <= u.z - v.z <= 2.0 * Halved(box.bounds.z, d)
    decreases d
  {
    if d > 0 {
      ChildContains(u, box);
      ChildContains(v, box);
      SameCellIsClose(u, v, Child(box, CalculateNodeIndex(v, box.center)), d - 1);
    }
  }

  lemma {:induction false} SameCellShallower(u: Vec3, v: Vec3, box: Box, d: nat, e: nat)
    requires e <= d && SameCell(u, v, box, d)
    ensures SameCell(u, v, box, e)
    decreases d
  {
    if e > 0 {
      SameCellShallower(u, v, Child(box, CalculateNodeIndex(v, box.center)), d - 1, e - 1);
    }
  }

  lemma {:induction false} SamePositionSameCell(u: Vec3, box: Box, d: nat)
    ensures SameCell(u, u, box, d)
    decreases d
  {
    if d > 0 {
      SamePositionSameCell(u, Child(box, CalculateNodeIndex(u, box.center)), d - 1);
    }
  }

  lemma {:induction false} HalvedShrinks(extent: real, d: nat)
    requires extent >= 0.0
    ensures 0.0 <= Halved(extent, d)
    ensures Halved(extent, d) * (d + 1) as real <= extent
    decreases d
  {
    if d > 0 {
      var h := Halved(extent / 2.0, d - 1);
      HalvedShrinks(extent / 2.0, d - 1);
      MulMonotone(h, (d + 1) as real, 2.0 * d as real);
    }
  }

  lemma MulMonotone(h: real, a: real, b: real)
    requires h >= 0.0 && a <= b
    ensures h * a <= h * b
  {
  }

  /** Enough subdivisions bring a cell below any positive width. */
  lemma HalvedBelow(extent: real, gap: real) returns (d: nat)
    requires extent >= 0.0 && gap > 0.0
    ensures Halved(extent, d) < gap
  {
    d := (extent / gap).Floor;
    HalvedShrinks(extent, d);
    var h, n := Halved(extent, d), (d + 1) as real;
    assert extent / gap < n;
    assert extent < gap * n by { QuotientBound(extent, gap, n); }
    if h >= gap {
      MulMonotone(n, gap, h);
      assert false;
    }
  }

  lemma QuotientBound(a: real, g: real, n: real)
    requires g > 0.0 && a / g < n
    ensures a < g * n
  {
    var q := a / g;
    assert q * g == a;
    assert (n - q) * g > 0.0;
  }

  /** Two distinct positions of a cell part ways at some finite depth. */
  lemma DistinctPositionsSeparate(u: Vec3, v: Vec3, box: Box) returns (d: nat)
    requires InBox(u, box) && InBox(v, box) && u != v
    ensures !SameCell(u, v, box, d)
  {
    if u.x != v.x {
      d := HalvedBelow(box.bounds.x, Abs(u.x - v.x) / 2.0);
    } else if u.y != v.y {
      d := HalvedBelow(box.bounds.y, Abs(u.y - v.y) / 2.0);
    } else {
      d := HalvedBelow(box.bounds.z, Abs(u.z - v.z) / 2.0);
    }
    if SameCell(u, v, box, d) {
      SameCellIsClose(u, v, box, d);
      assert false;
    }
  }

  function Abs(r: real): real { if r < 0.0 then -r else r }
}
