/**
 * The search tree as an arena: every node discovered by the search is kept in
 * a sequence, and a node's parent is the index of an earlier node. This module
 * states what the search keeps true of the arena, reconstructs paths from it
 * (`print_path`), and relates it to walks over free cells.
 */
module Arena {
  import opened Wrappers
  import opened Points
  import opened Grid

  predicate InBounds(m: Map, c: Coord)
  {
    c.0 < m.sizex && c.1 < m.sizey
  }

  /** The linear index of the cell a node stands on. */
  function CellIndex(m: Map, p: Point): nat
  {
    Index(m, p.x, p.y)
  }

  /**
   * What the search guarantees of node `i`: it lies on the map and its depth
   * is at most its arena index; the root is the start point (no parent, no
   * steps); every other node stands on a free cell adjacent to its parent's,
   * has an earlier parent, one step more than it, and a cost equal to its
   * step count plus the Manhattan distance to the target.
   */
  predicate NodeOk(m: Map, target: Point, arena: seq<Point>, i: nat)
    requires WellFormed(m) && i < |arena|
  {
    var p := arena[i];
    InBounds(m, At(p)) && p.path <= i &&
    if i == 0 then
      p.parent == None && p.path == 0
    else
      p.parent.Some? && p.parent.value < i &&
      Avail(m, p.x, p.y) &&
      Adjacent8(At(arena[p.parent.value]), At(p)) &&
      p.path == arena[p.parent.value].path + 1 &&
      p.cost == p.path + GetDist(p, target)
  }

  predicate ArenaOk(m: Map, start: Coord, target: Point, arena: seq<Point>)
    requires WellFormed(m)
  {
    |arena| >= 1 && arena[0] == Point(start.0, start.1, 0, 0, None) &&
    forall i :: 0 <= i < |arena| ==> NodeOk(m, target, arena, i)
  }

  /** Appending a node that is itself well placed keeps the arena well formed. */
  lemma {:induction false} ArenaAppend(m: Map, start: Coord, target: Point, arena: seq<Point>, p: Point)
    requires WellFormed(m) && ArenaOk(m, start, target, arena)
    requires NodeOk(m, target, arena + [p], |arena|)
    ensures ArenaOk(m, start, target, arena + [p])
  {
    var a := arena + [p];
    forall i | 0 <= i < |a| ensures NodeOk(m, target, a, i) {
      if i < |arena| {
        assert NodeOk(m, target, arena, i);
        assert a[i] == arena[i];
        if i > 0 {
          assert a[arena[i].parent.value] == arena[arena[i].parent.value];
        }
      }
    }
  }

  /** No two nodes stand on the same cell. */
  predicate Distinct(arena: seq<Point>)
  {
    forall i, j :: 0 <= i < j < |arena| ==> At(arena[i]) != At(arena[j])
  }

  /** The linear indices of the cells the nodes stand on: the `used` set. */
  function Cells(m: Map, arena: seq<Point>): set<nat>
  {
    if |arena| == 0 then {} else Cells(m, arena[..|arena| - 1]) + {CellIndex(m, arena[|arena| - 1])}
  }

  lemma {:induction false} CellsAppend(m: Map, arena: seq<Point>, p: Point)
    ensures Cells(m, arena + [p]) == Cells(m, arena) + {CellIndex(m, p)}
  {
    assert (arena + [p])[..|arena|] == arena;
  }

  /** Every node's cell is in `Cells`. */
  lemma {:induction false} CellsHas(m: Map, arena: seq<Point>)
    ensures forall i :: 0 <= i < |arena| ==> CellIndex(m, arena[i]) in Cells(m, arena)
  {
    if |arena| > 0 {
      var init := arena[..|arena| - 1];
      CellsHas(m, init);
      assert forall i :: 0 <= i < |init| ==> arena[i] == init[i];
    }
  }

  /** Conversely, every in-bounds cell whose index is in `Cells` carries a node. */
  lemma {:induction false} CellsNode(m: Map, arena: seq<Point>, c: Coord) returns (i: nat)
    requires forall j :: 0 <= j < |arena| ==> InBounds(m, At(arena[j]))
    requires InBounds(m, c) && Index(m, c.0, c.1) in Cells(m, arena)
    ensures i < |arena| && At(arena[i]) == c
  {
    var last := arena[|arena| - 1];
    if Index(m, c.0, c.1) == CellIndex(m, last) {
      IndexInjective(m, c.0, c.1, last.x, last.y);
      i := |arena| - 1;
    } else {
      var init := arena[..|arena| - 1];
      assert forall j :: 0 <= j < |init| ==> init[j] == arena[j];
      i := CellsNode(m, init, c);
    }
  }

  /**
   * A new child of node `parent` on a free, unused cell adjacent to the
   * parent's keeps the arena well formed and the cells distinct, and adds
   * exactly its own cell to `Cells`.
   */
  lemma {:induction false} AppendChild(m: Map, start: Coord, target: Point, arena: seq<Point>, parent: nat, x: nat, y: nat)
    requires WellFormed(m) && ArenaOk(m, start, target, arena) && Distinct(arena) && parent < |arena|
    requires Avail(m, x, y) && Adjacent8(At(arena[parent]), (x, y)) && Index(m, x, y) !in Cells(m, arena)
    ensures var a := arena + [NewPoint(x, y, Some(parent), arena, target)];
      ArenaOk(m, start, target, a) && Distinct(a) && Cells(m, a) == Cells(m, arena) + {Index(m, x, y)}
  {
    var p := NewPoint(x, y, Some(parent), arena, target);
    assert NodeOk(m, target, arena, parent);
    assert NodeOk(m, target, arena + [p], |arena|);
    ArenaAppend(m, start, target, arena, p);
    CellsAppend(m, arena, p);
    CellsHas(m, arena);
    var a := arena + [p];
    forall i, j | 0 <= i < j < |a| ensures At(a[i]) != At(a[j]) {
      if j == |arena| {
        assert CellIndex(m, arena[i]) in Cells(m, arena);
      } else {
        assert a[i] == arena[i] && a[j] == arena[j];
      }
    }
  }

  /** The cells of in-bounds nodes are indices below the number of cells. */
  lemma {:induction false} CellsBelow(m: Map, arena: seq<Point>)
    requires forall j :: 0 <= j < |arena| ==> InBounds(m, At(arena[j]))
    ensures forall c :: c in Cells(m, arena) ==> c < m.sizex * m.sizey
  {
    if |arena| > 0 {
      var init := arena[..|arena| - 1];
      assert forall j :: 0 <= j < |init| ==> init[j] == arena[j];
      CellsBelow(m, init);
      var last := arena[|arena| - 1];
      IndexInRange(m, last.x, last.y);
    }
  }

  /** A set of naturals below `n` has at most `n` elements. */
  lemma {:induction false} BoundedSetSize(s: set<nat>, n: nat)
    requires forall c :: c in s ==> c < n
    ensures |s| <= n
    decreases n
  {
    if n > 0 {
      var s' := s - {n - 1};
      BoundedSetSize(s', n - 1);
      assert s <= s' + {n - 1};
    } else {
      assert s == {};
    }
  }

  /**
   * A walk from `start`: a sequence of cells, beginning at `start`, in which
   * every later cell is free and adjacent to the one before.
   */
  ghost predicate IsWalk(m: Map, start: Coord, w: seq<Coord>)
    requires WellFormed(m)
  {
    |w| >= 1 && w[0] == start &&
    forall k :: 1 <= k < |w| ==> Avail(m, w[k].0, w[k].1) && Adjacent8(w[k - 1], w[k])
  }

  /** `goal` can be reached from `start` by moves between free cells. */
  ghost predicate Reachable(m: Map, start: Coord, goal: Coord)
    requires WellFormed(m)
  {
    exists w :: IsWalk(m, start, w) && w[|w| - 1] == goal
  }

  ghost predicate NoRepeats(w: seq<Coord>)
  {
    forall i, j :: 0 <= i < j < |w| ==> w[i] != w[j]
  }

  /**
   * `Point::print_path` as a function: the cells from the root down the
   * parent chain to node `i`. It has one cell more than the node's step
   * count, begins at the start cell, ends at the node's cell and is a walk.
   */
  function PathTo(m: Map, start: Coord, target: Point, arena: seq<Point>, i: nat): (r: seq<Coord>)
    requires WellFormed(m) && ArenaOk(m, start, target, arena) && i < |arena|
    ensures |r| == arena[i].path + 1
    ensures r[|r| - 1] == At(arena[i])
    ensures IsWalk(m, start, r)
    decreases i
  {
    assert NodeOk(m, target, arena, i);
    match arena[i].parent
    case None => [At(arena[i])]
    case Some(j) =>
      var r := PathTo(m, start, target, arena, j) + [At(arena[i])];
      assert forall k :: 1 <= k < |r| - 1 ==> r[k] == PathTo(m, start, target, arena, j)[k];
      r
  }

  /**
   * The cells of a reconstructed path are those of nodes no later than `i`,
   * and no cell occurs twice when nodes stand on distinct cells.
   */
  lemma {:induction false} PathNoRepeats(m: Map, start: Coord, target: Point, arena: seq<Point>, i: nat)
    requires WellFormed(m) && ArenaOk(m, start, target, arena) && Distinct(arena) && i < |arena|
    ensures forall c :: c in PathTo(m, start, target, arena, i) ==> exists n :: 0 <= n <= i && c == At(arena[n])
    ensures NoRepeats(PathTo(m, start, target, arena, i))
    decreases i
  {
    assert NodeOk(m, target, arena, i);
    var r := PathTo(m, start, target, arena, i);
    match arena[i].parent
    case None =>
      assert r == [At(arena[i])];
    case Some(j) =>
      PathNoRepeats(m, start, target, arena, j);
      var pre := PathTo(m, start, target, arena, j);
      assert r == pre + [At(arena[i])];
      forall c | c in r ensures exists n :: 0 <= n <= i && c == At(arena[n]) {
        if c in pre {
          var n :| 0 <= n <= j && c == At(arena[n]);
          assert n <= i;
        } else {
          assert c == At(arena[i]);
        }
      }
      forall a, b | 0 <= a < b < |r| ensures r[a] != r[b] {
        if b < |pre| {
          assert r[a] == pre[a] && r[b] == pre[b];
        } else {
          assert r[a] in pre;
          var n :| 0 <= n <= j && r[a] == At(arena[n]);
        }
      }
  }

  /**
   * Move `k` from cell `c` has been dealt with: if it leads to a free cell,
   * that cell's index is in `used`.
   */
  predicate Marked(m: Map, used: set<nat>, c: Coord, k: nat)
    requires WellFormed(m) && k < |Adjacent|
  {
    var n := Neighbour(c, k);
    (n.0 >= 0 && n.1 >= 0 && Avail(m, n.0 as nat, n.1 as nat)) ==> Index(m, n.0 as nat, n.1 as nat) in used
  }

  /** After expansion of cell `c`, every free cell one move away has its index in `used`. */
  predicate Expanded(m: Map, used: set<nat>, c: Coord)
    requires WellFormed(m)
  {
    forall k :: 0 <= k < |Adjacent| ==> Marked(m, used, c, k)
  }

  /** Marking only ever adds to `used`, so what was marked stays marked. */
  lemma {:induction false} ExpandedGrows(m: Map, used: set<nat>, used': set<nat>, c: Coord, i: nat)
    requires WellFormed(m) && used <= used' && i <= |Adjacent|
    requires forall k :: 0 <= k < i ==> Marked(m, used, c, k)
    ensures forall k :: 0 <= k < i ==> Marked(m, used', c, k)
  {
    forall k | 0 <= k < i ensures Marked(m, used', c, k) {
      assert Marked(m, used, c, k);
    }
  }

  /** Moves before `i` stay marked as `used` grows, so marking move `i` extends the marked prefix. */
  lemma {:induction false} MarkedStep(m: Map, used: set<nat>, used': set<nat>, c: Coord, i: nat)
    requires WellFormed(m) && used <= used' && i < |Adjacent|
    requires forall k :: 0 <= k < i ==> Marked(m, used, c, k)
    requires Marked(m, used', c, i)
    ensures forall k :: 0 <= k < i + 1 ==> Marked(m, used', c, k)
  {
    ExpandedGrows(m, used, used', c, i);
  }

  /**
   * When every node has been expanded, the cells of the nodes are closed
   * under moves to free cells, so every walk from the start stays on them.
   */
  lemma {:induction false} WalkStaysOnNodes(m: Map, start: Coord, target: Point, arena: seq<Point>, w: seq<Coord>, n: nat)
    requires WellFormed(m) && ArenaOk(m, start, target, arena)
    requires forall i :: 0 <= i < |arena| ==> Expanded(m, Cells(m, arena), At(arena[i]))
    requires IsWalk(m, start, w) && n < |w|
    ensures InBounds(m, w[n]) && Index(m, w[n].0, w[n].1) in Cells(m, arena)
    decreases n
  {
    forall j | 0 <= j < |arena| ensures InBounds(m, At(arena[j])) {
      assert NodeOk(m, target, arena, j);
    }
    if n == 0 {
      CellsHas(m, arena);
      assert At(arena[0]) == w[0];
    } else {
      WalkStaysOnNodes(m, start, target, arena, w, n - 1);
      var i := CellsNode(m, arena, w[n - 1]);
      var k := MoveTo(w[n - 1], w[n]);
      assert Expanded(m, Cells(m, arena), At(arena[i]));
      assert Marked(m, Cells(m, arena), At(arena[i]), k);
      assert Neighbour(At(arena[i]), k) == (w[n].0 as int, w[n].1 as int);
    }
  }
}
