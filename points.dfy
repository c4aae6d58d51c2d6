/**
 * Search nodes of the grid path finder: coordinates, the step count `path`,
 * the priority `cost`, and a parent link (an index into the node arena in
 * place of a reference-counted pointer).
 */
module Points {
  import opened Wrappers

  /** A grid cell, as (x, y). */
  type Coord = (nat, nat)

  datatype Point = Point(x: nat, y: nat, path: nat, cost: nat, parent: Option<nat>)

  function At(p: Point): Coord { (p.x, p.y) }

  function Abs(n: int): nat { if n < 0 then -n else n }

  /** The Manhattan distance between two cells. */
  function Dist(a: Coord, b: Coord): nat
  {
    Abs(a.0 - b.0) + Abs(a.1 - b.1)
  }

  /** `Point::get_dist`: the Manhattan distance between the cells of two points. */
  function GetDist(p: Point, q: Point): nat
  {
    Dist(At(p), At(q))
  }

  lemma DistSymmetric(a: Coord, b: Coord)
    ensures Dist(a, b) == Dist(b, a)
  {
  }

  lemma DistZeroIff(a: Coord, b: Coord)
    ensures Dist(a, b) == 0 <==> a == b
  {
  }

  /** Equality of points (`PartialEq`) looks at the coordinates only. */
  predicate Eq(p: Point, q: Point)
  {
    p.x == q.x && p.y == q.y
  }

  /** Two points are equal exactly when the distance between them is zero. */
  lemma {:induction false} EqIffZeroDist(p: Point, q: Point)
    ensures Eq(p, q) <==> GetDist(p, q) == 0
    ensures GetDist(p, q) == GetDist(q, p)
  {
    DistZeroIff(At(p), At(q));
    DistSymmetric(At(p), At(q));
  }

  /**
   * `Point::new`: a point with no parent has taken no steps; one with a parent
   * has taken one step more than it. Its priority is its step count plus the
   * Manhattan distance to the target.
   */
  function NewPoint(x: nat, y: nat, inparent: Option<nat>, arena: seq<Point>, target: Point): (p: Point)
    requires inparent.Some? ==> inparent.value < |arena|
    ensures At(p) == (x, y) && p.parent == inparent
    ensures inparent.None? ==> p.path == 0
    ensures inparent.Some? ==> p.path == arena[inparent.value].path + 1
    ensures p.cost >= p.path && p.cost - p.path == GetDist(p, target)
  {
    var path := if inparent.Some? then arena[inparent.value].path + 1 else 0;
    Point(x, y, path, path + Dist((x, y), At(target)), inparent)
  }

  datatype Ordering = Less | Equal | Greater

  function Compare(a: nat, b: nat): Ordering
  {
    if a < b then Less else if a == b then Equal else Greater
  }

  /** `PartialOrd` for points: the comparison of the costs, reversed. */
  function PartialCmp(p: Point, q: Point): Ordering
  {
    Compare(q.cost, p.cost)
  }

  /** Under the reversed order, a greater point is a cheaper one. */
  lemma {:induction false} PartialCmpReversesCost(p: Point, q: Point)
    ensures PartialCmp(p, q) == Greater <==> p.cost < q.cost
    ensures PartialCmp(p, q) == Less <==> q.cost < p.cost
    ensures PartialCmp(p, q) == Equal <==> p.cost == q.cost
    ensures PartialCmp(p, q) == Greater <==> PartialCmp(q, p) == Less
  {
  }

  /**
   * `PartialEq` and `PartialOrd` disagree: two points on the same cell can be
   * ordered apart by their costs.
   */
  lemma EqDisagreesWithOrder()
    ensures var p, q := Point(0, 0, 0, 0, None), Point(0, 0, 1, 1, None);
            Eq(p, q) && PartialCmp(p, q) != Equal
  {
  }

  /** Two distinct cells that differ by at most one in each coordinate. */
  predicate Adjacent8(a: Coord, b: Coord)
  {
    a != b && Abs(a.0 - b.0) <= 1 && Abs(a.1 - b.1) <= 1
  }

  /** The eight moves, in the order the search tries them. */
  const Adjacent: seq<(int, int)> := [(1, 1), (1, 0), (1, -1), (0, -1), (-1, -1), (-1, 0), (-1, 1), (0, 1)]

  /** The cell (possibly off the grid) reached from `c` by move `k`. */
  function Neighbour(c: Coord, k: nat): (int, int)
    requires k < |Adjacent|
  {
    (c.0 + Adjacent[k].0, c.1 + Adjacent[k].1)
  }

  /** The move that leads from `a` to an adjacent cell `b`. */
  function MoveTo(a: Coord, b: Coord): (k: nat)
    requires Adjacent8(a, b)
    ensures k < |Adjacent| && Neighbour(a, k) == (b.0 as int, b.1 as int)
  {
    var dx, dy := b.0 - a.0, b.1 - a.1;
    if dx == 1 then (if dy == 1 then 0 else if dy == 0 then 1 else 2)
    else if dx == 0 then (if dy == -1 then 3 else 7)
    else (if dy == -1 then 4 else if dy == 0 then 5 else 6)
  }

  /** Every move that stays on non-negative coordinates leads to an adjacent cell. */
  lemma {:induction false} NeighbourIsAdjacent(c: Coord, k: nat)
    requires k < |Adjacent| && Neighbour(c, k).0 >= 0 && Neighbour(c, k).1 >= 0
    ensures Adjacent8(c, (Neighbour(c, k).0 as nat, Neighbour(c, k).1 as nat))
  {
    assert Adjacent[k].0 != 0 || Adjacent[k].1 != 0;
  }

  /**
   * With unit-cost diagonal moves the Manhattan distance is no lower bound on
   * the remaining steps: one diagonal move covers a distance of two.
   */
  lemma ManhattanOverestimatesDiagonal()
    ensures Adjacent8((0, 0), (1, 1)) && Dist((0, 0), (1, 1)) == 2
  {
  }
}
