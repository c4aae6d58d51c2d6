/**
 * The best-first search of the program's entry point: expand the current
 * node's eight neighbours, pop a cheapest queued node, remember the node
 * closest to the target, and stop when the target is reached or the queue
 * runs dry. A cell is marked used when it is first discovered and its parent
 * is never revised.
 */
module Search {
  import opened Wrappers
  import opened Points
  import opened Grid
  import opened Arena

  /**
   * The state after part of an expansion extends the state before it: the
   * old nodes and the old queue are prefixes, every new node is a child of
   * `current`, every new node's cell was added to `used` once, and the new
   * nodes are queued in order of discovery.
   */
  predicate Extends(arena: seq<Point>, used: set<nat>, openq: seq<nat>, current: nat,
                          arena': seq<Point>, used': set<nat>, openq': seq<nat>)
  {
    |arena| <= |arena'| && arena'[..|arena|] == arena &&
    (forall j :: |arena| <= j < |arena'| ==> arena'[j].parent == Some(current)) &&
    used <= used' && |used'| == |used| + (|arena'| - |arena|) &&
    |openq'| == |openq| + (|arena'| - |arena|) && openq'[..|openq|] == openq &&
    (forall k :: |openq| <= k < |openq'| ==> openq'[k] == |arena| + (k - |openq|))
  }

  /** Discovering one more child of `current` keeps the extension. */
  lemma {:induction false} ExtendsPush(arena: seq<Point>, used: set<nat>, openq: seq<nat>, current: nat,
      arena': seq<Point>, used': set<nat>, openq': seq<nat>, p: Point, index: nat)
    requires Extends(arena, used, openq, current, arena', used', openq')
    requires p.parent == Some(current) && index !in used'
    ensures Extends(arena, used, openq, current, arena' + [p], used' + {index}, openq' + [|arena'|])
  {
    assert (arena' + [p])[..|arena|] == arena'[..|arena|];
    assert (openq' + [|arena'|])[..|openq|] == openq'[..|openq|];
  }

  /**
   * The expansion step: every neighbour of node `current` that lies on the
   * map, is free and was never discovered becomes a new node whose parent is
   * `current`; its cell is marked used and its index is queued. Afterwards
   * every free neighbour of `current` is marked used.
   */
  method Expand(m: Map, start: Coord, target: Point, arena: seq<Point>, used: set<nat>, openq: seq<nat>, current: nat)
    returns (newArena: seq<Point>, newUsed: set<nat>, newQueue: seq<nat>)
    requires WellFormed(m) && ArenaOk(m, start, target, arena) && Distinct(arena)
    requires used == Cells(m, arena) && current < |arena|
    ensures ArenaOk(m, start, target, newArena) && Distinct(newArena)
    ensures newUsed == Cells(m, newArena)
    ensures Extends(arena, used, openq, current, newArena, newUsed, newQueue)
    ensures Expanded(m, newUsed, At(arena[current]))
  {
    newArena, newUsed, newQueue := arena, used, openq;
    var c := arena[current];
    for i := 0 to |Adjacent|
      invariant ArenaOk(m, start, target, newArena) && Distinct(newArena) && newUsed == Cells(m, newArena)
      invariant Extends(arena, used, openq, current, newArena, newUsed, newQueue)
      invariant forall k :: 0 <= k < i ==> Marked(m, newUsed, At(c), k)
    {
      ghost var marked := newUsed;
      var newx := c.x + Adjacent[i].0;
      var newy := c.y + Adjacent[i].1;
      assert Neighbour(At(c), i) == (newx, newy);
      if newy >= 0 && newx >= 0 && newx < m.sizex && newy < m.sizey {
        var index := Index(m, newx, newy);
        AvailAgreesWhereDefined(m, newx, newy);
        if index !in newUsed && AvailAsWritten(m, newx, newy).value {
          var p := NewPoint(newx, newy, Some(current), newArena, target);
          assert newArena[current] == c;
          NeighbourIsAdjacent(At(c), i);
          AppendChild(m, start, target, newArena, current, newx, newy);
          ExtendsPush(arena, used, openq, current, newArena, newUsed, newQueue, p, index);
          newUsed := newUsed + {index};
          newQueue := newQueue + [|newArena|];
          newArena := newArena + [p];
        }
      }
      assert Marked(m, newUsed, At(c), i);
      MarkedStep(m, marked, newUsed, At(c), i);
    }
  }

  /** `openq[k]` is a top of the heap: no queued point is greater under `PartialCmp`. */
  predicate IsHeapTop(arena: seq<Point>, openq: seq<nat>, k: nat)
    requires forall j :: 0 <= j < |openq| ==> openq[j] < |arena|
    requires k < |openq|
  {
    forall j :: 0 <= j < |openq| ==> PartialCmp(arena[openq[j]], arena[openq[k]]) != Greater
  }

  /** A non-empty queue has a top. */
  lemma {:induction false} HeapTopExists(arena: seq<Point>, openq: seq<nat>)
    requires forall j :: 0 <= j < |openq| ==> openq[j] < |arena|
    requires |openq| > 0
    ensures exists k :: 0 <= k < |openq| && IsHeapTop(arena, openq, k)
  {
    if |openq| == 1 {
      assert IsHeapTop(arena, openq, 0);
    } else {
      var init := openq[..|openq| - 1];
      HeapTopExists(arena, init);
      var k :| 0 <= k < |init| && IsHeapTop(arena, init, k);
      var last := |openq| - 1;
      if arena[openq[last]].cost < arena[openq[k]].cost {
        forall j | 0 <= j < |openq| ensures PartialCmp(arena[openq[j]], arena[openq[last]]) != Greater {
          if j < last {
            assert PartialCmp(arena[init[j]], arena[init[k]]) != Greater;
          }
        }
        assert IsHeapTop(arena, openq, last);
      } else {
        forall j | 0 <= j < |openq| ensures PartialCmp(arena[openq[j]], arena[openq[k]]) != Greater {
          if j < last {
            assert PartialCmp(arena[init[j]], arena[init[k]]) != Greater;
          }
        }
        assert IsHeapTop(arena, openq, k);
      }
    }
  }

  /**
   * `BinaryHeap::pop` on the queue of node indices: nothing from an empty
   * queue; otherwise one queued index that no other queued point is greater
   * than under the reversed-cost order (hence one of least cost), with that one
   * occurrence removed. Which of several equally cheap points comes out is left
   * open.
   */
  method Pop(arena: seq<Point>, openq: seq<nat>) returns (top: Option<nat>, rest: seq<nat>)
    requires forall j :: 0 <= j < |openq| ==> openq[j] < |arena|
    ensures top.None? <==> openq == []
    ensures top.None? ==> rest == []
    ensures top.Some? ==> top.value in openq && multiset(rest) + multiset{top.value} == multiset(openq)
    ensures top.Some? ==> |rest| == |openq| - 1 && forall j :: 0 <= j < |rest| ==> rest[j] in openq
    ensures top.Some? ==> forall j :: 0 <= j < |openq| ==> PartialCmp(arena[openq[j]], arena[top.value]) != Greater
    ensures top.Some? ==> forall j :: 0 <= j < |openq| ==> arena[top.value].cost <= arena[openq[j]].cost
  {
    if openq == [] {
      return None, [];
    }
    HeapTopExists(arena, openq);
    var k :| 0 <= k < |openq| && IsHeapTop(arena, openq, k);
    top := Some(openq[k]);
    rest := openq[..k] + openq[k + 1..];
    assert openq == openq[..k] + [openq[k]] + openq[k + 1..];
    forall j | 0 <= j < |openq| ensures arena[openq[k]].cost <= arena[openq[j]].cost {
      PartialCmpReversesCost(arena[openq[j]], arena[openq[k]]);
    }
  }

  /** `b` is at least as good a fallback as `p`: closer to the target, or as close with no more steps. */
  ghost predicate Beats(b: Point, p: Point, target: Point)
  {
    GetDist(b, target) < GetDist(p, target) ||
    (GetDist(b, target) == GetDist(p, target) && b.path <= p.path)
  }

  /**
   * The fallback update: the current node replaces the best one only when it
   * is strictly closer to the target, or as close with fewer steps. The kept
   * node beats both, and the recorded distance never grows.
   */
  method UpdateBest(arena: seq<Point>, target: Point, best: nat, bestDist: nat, current: nat)
    returns (best': nat, bestDist': nat)
    requires best < |arena| && current < |arena| && bestDist == GetDist(arena[best], target)
    ensures best' == best || best' == current
    ensures best' != best ==>
      GetDist(arena[current], target) < bestDist ||
      (GetDist(arena[current], target) == bestDist && arena[current].path < arena[best].path)
    ensures bestDist' == GetDist(arena[best'], target) && bestDist' <= bestDist
    ensures Beats(arena[best'], arena[best], target) && Beats(arena[best'], arena[current], target)
  {
    best', bestDist' := best, bestDist;
    var currentDist := GetDist(arena[current], target);
    if currentDist < bestDist || (bestDist == currentDist && arena[current].path < arena[best].path) {
      best' := current;
      bestDist' := GetDist(arena[best'], target);
    }
  }

  /** Node `i` has been expanded, is not on the target and is beaten by the fallback. */
  ghost predicate Closed(m: Map, used: set<nat>, arena: seq<Point>, best: nat, target: Point, i: nat)
    requires WellFormed(m) && i < |arena| && best < |arena|
  {
    Beats(arena[best], arena[i], target) && Expanded(m, used, At(arena[i])) && !Eq(arena[i], target)
  }

  /** Node `i` has left the queue: it is the current node or it is closed. */
  ghost predicate Settled(m: Map, used: set<nat>, arena: seq<Point>, best: nat, current: nat, target: Point, i: nat)
    requires WellFormed(m) && i < |arena| && best < |arena|
  {
    (i == current && Beats(arena[best], arena[i], target)) || Closed(m, used, arena, best, target, i)
  }

  /**
   * After the expansion of the current node (which is not on the target),
   * every node either is queued or is closed.
   */
  lemma {:induction false} ExpandCloses(m: Map, target: Point, best: nat, current: nat,
      arena0: seq<Point>, used0: set<nat>, openq0: seq<nat>,
      arena: seq<Point>, used: set<nat>, openq: seq<nat>)
    requires WellFormed(m) && best < |arena0| && current < |arena0| && !Eq(arena0[current], target)
    requires forall i :: 0 <= i < |arena0| ==> i in openq0 || Settled(m, used0, arena0, best, current, target, i)
    requires |arena0| <= |arena| && arena[..|arena0|] == arena0
    requires used0 <= used && Expanded(m, used, At(arena0[current]))
    requires |openq| == |openq0| + (|arena| - |arena0|) && openq[..|openq0|] == openq0
    requires forall k :: |openq0| <= k < |openq| ==> openq[k] == |arena0| + (k - |openq0|)
    ensures forall i :: 0 <= i < |arena| ==> i in openq || Closed(m, used, arena, best, target, i)
  {
    forall i | 0 <= i < |arena| ensures i in openq || Closed(m, used, arena, best, target, i) {
      if i < |arena0| {
        assert arena[i] == arena0[i] && arena[best] == arena0[best];
        if i in openq0 {
          var j :| 0 <= j < |openq0| && openq0[j] == i;
          assert openq[j] == i;
        } else if i != current {
          assert Closed(m, used0, arena0, best, target, i);
          ExpandedGrows(m, used0, used, At(arena[i]), |Adjacent|);
        }
      } else {
        assert openq[|openq0| + (i - |arena0|)] == i;
      }
    }
  }

  /**
   * After a pop and the fallback update, every node is queued, is the new
   * current node or is closed.
   */
  lemma {:induction false} PopSettles(m: Map, target: Point, best0: nat, best: nat, current: nat,
      arena: seq<Point>, used: set<nat>, openq: seq<nat>, rest: seq<nat>)
    requires WellFormed(m) && best0 < |arena| && best < |arena| && current < |arena|
    requires forall i :: 0 <= i < |arena| ==> i in openq || Closed(m, used, arena, best0, target, i)
    requires multiset(rest) + multiset{current} == multiset(openq)
    requires Beats(arena[best], arena[best0], target) && Beats(arena[best], arena[current], target)
    ensures forall i :: 0 <= i < |arena| ==> i in rest || Settled(m, used, arena, best, current, target, i)
  {
    forall i | 0 <= i < |arena| ensures i in rest || Settled(m, used, arena, best, current, target, i) {
      if i !in rest && i != current {
        assert i !in multiset(openq);
        assert Closed(m, used, arena, best0, target, i);
      }
    }
  }

  /**
   * Once every node is closed, no walk from the start reaches the target, and
   * every walk ends on a cell at least as far from it as the fallback node.
   */
  lemma {:induction false} ExhaustedSearch(m: Map, start: Coord, target: Point, arena: seq<Point>, used: set<nat>, best: nat)
    requires WellFormed(m) && ArenaOk(m, start, target, arena) && used == Cells(m, arena)
    requires best < |arena| && InBounds(m, At(target))
    requires forall i :: 0 <= i < |arena| ==> Closed(m, used, arena, best, target, i)
    ensures !Reachable(m, start, At(target))
    ensures forall w :: IsWalk(m, start, w) ==> GetDist(arena[best], target) <= Dist(w[|w| - 1], At(target))
  {
    forall j | 0 <= j < |arena| ensures InBounds(m, At(arena[j])) {
      assert NodeOk(m, target, arena, j);
    }
    forall i | 0 <= i < |arena| ensures Expanded(m, Cells(m, arena), At(arena[i])) {
      assert Closed(m, used, arena, best, target, i);
    }
    forall w | IsWalk(m, start, w)
      ensures GetDist(arena[best], target) <= Dist(w[|w| - 1], At(target)) && w[|w| - 1] != At(target)
    {
      WalkStaysOnNodes(m, start, target, arena, w, |w| - 1);
      var i := CellsNode(m, arena, w[|w| - 1]);
      assert Closed(m, used, arena, best, target, i);
    }
  }

  /** The arena holding only the start point is well formed, and its one cell is used. */
  lemma {:induction false} InitialArena(m: Map, start: Coord, target: Point)
    requires WellFormed(m) && InBounds(m, start)
    ensures var arena := [Point(start.0, start.1, 0, 0, None)];
      ArenaOk(m, start, target, arena) && Distinct(arena) &&
      Cells(m, arena) == {Index(m, start.0, start.1)} && 1 <= m.sizex * m.sizey
  {
    var arena := [Point(start.0, start.1, 0, 0, None)];
    assert NodeOk(m, target, arena, 0);
    assert arena[..0] == [];
    CellsBelow(m, arena);
    BoundedSetSize(Cells(m, arena), m.sizex * m.sizey);
  }

  datatype Outcome = Found(path: seq<Coord>, length: nat) | Fail(path: seq<Coord>, length: nat)

  /**
   * The search from `start` to `goal`. It reports `Found` exactly when the
   * goal can be reached over free cells, with a path to it; otherwise `Fail`
   * with a path to a reachable cell as close to the goal as any. Either path
   * is a walk from the start without repeated cells, and its length is its
   * number of moves.
   */
  method Search(m: Map, start: Coord, goal: Coord) returns (r: Outcome)
    requires WellFormed(m) && InBounds(m, start) && InBounds(m, goal)
    ensures IsWalk(m, start, r.path) && NoRepeats(r.path)
    ensures r.length == |r.path| - 1 && |r.path| <= m.sizex * m.sizey
    ensures r.Found? <==> Reachable(m, start, goal)
    ensures r.Found? ==> r.path[|r.path| - 1] == goal
    ensures r.Fail? ==> forall w :: IsWalk(m, start, w) ==> Dist(r.path[|r.path| - 1], goal) <= Dist(w[|w| - 1], goal)
  {
    var target := Point(goal.0, goal.1, 0, 0, None);
    var used: set<nat> := {};
    var openq: seq<nat> := [];
    var arena := [Point(start.0, start.1, 0, 0, None)];
    used := used + {Index(m, start.0, start.1)};
    var current: nat := 0;
    var best: nat := current;
    var bestDist := GetDist(arena[best], target);
    InitialArena(m, start, target);

    while !Eq(arena[current], target)
      invariant ArenaOk(m, start, target, arena) && Distinct(arena)
      invariant used == Cells(m, arena) && |used| == |arena| && |used| <= m.sizex * m.sizey
      invariant forall j :: 0 <= j < |openq| ==> openq[j] < |arena|
      invariant current < |arena| && best < |arena|
      invariant bestDist == GetDist(arena[best], target)
      invariant forall i :: 0 <= i < |arena| ==> i in openq || Settled(m, used, arena, best, current, target, i)
      decreases m.sizex * m.sizey - |used| + |openq|
    {
      ghost var arena0, used0, openq0 := arena, used, openq;
      arena, used, openq := Expand(m, start, target, arena, used, openq, current);
      ExpandCloses(m, target, best, current, arena0, used0, openq0, arena, used, openq);
      forall j | 0 <= j < |arena| ensures InBounds(m, At(arena[j])) {
        assert NodeOk(m, target, arena, j);
      }
      CellsBelow(m, arena);
      BoundedSetSize(used, m.sizex * m.sizey);
      forall j | 0 <= j < |openq| ensures openq[j] < |arena| {
        if j < |openq0| {
          assert openq[j] == openq0[j];
        }
      }
      ghost var queued := openq;
      var top, rest := Pop(arena, openq);
      if top.None? {
        assert forall i :: 0 <= i < |arena| ==> Closed(m, used, arena, best, target, i);
        break;
      }
      ghost var best0 := best;
      openq := rest;
      current := top.value;
      best, bestDist := UpdateBest(arena, target, best, bestDist, current);
      assert forall j :: 0 <= j < |openq| ==> openq[j] in queued;
      PopSettles(m, target, best0, best, current, arena, used, queued, openq);
    }

    if !Eq(arena[current], target) {
      r := Fail(PathTo(m, start, target, arena, best), arena[best].path);
      assert NodeOk(m, target, arena, best);
      PathNoRepeats(m, start, target, arena, best);
      ExhaustedSearch(m, start, target, arena, used, best);
    } else {
      r := Found(PathTo(m, start, target, arena, current), arena[current].path);
      assert NodeOk(m, target, arena, current);
      PathNoRepeats(m, start, target, arena, current);
      assert IsWalk(m, start, r.path) && r.path[|r.path| - 1] == goal;
    }
  }
}
