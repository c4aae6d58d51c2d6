/**
 * The obstacle map: `sizey` rows of `sizex` cells, 0 for a free cell and
 * anything else for an obstacle.
 */
module Grid {

  datatype Map = Map(data: seq<seq<nat>>, sizex: nat, sizey: nat)

  /** The shape every map built by `Map::new` has. */
  ghost predicate WellFormed(m: Map)
  {
    |m.data| == m.sizey && forall r :: 0 <= r < |m.data| ==> |m.data[r]| == m.sizex
  }

  /** `Map::index`: the row-major linear index of a cell. */
  function Index(m: Map, x: nat, y: nat): nat
  {
    y * m.sizex + x
  }

  lemma {:induction false} MulMonotone(a: nat, b: nat, s: nat)
    requires a <= b
    ensures a * s <= b * s
  {
    var d := b - a;
    assert b * s == a * s + d * s;
  }

  /** An in-bounds cell has a linear index below the number of cells. */
  lemma {:induction false} IndexInRange(m: Map, x: nat, y: nat)
    requires x < m.sizex && y < m.sizey
    ensures Index(m, x, y) < m.sizex * m.sizey
  {
    MulMonotone(y + 1, m.sizey, m.sizex);
    assert (y + 1) * m.sizex == y * m.sizex + m.sizex;
  }

  /** Distinct in-bounds cells have distinct linear indices. */
  lemma {:induction false} IndexInjective(m: Map, x1: nat, y1: nat, x2: nat, y2: nat)
    requires x1 < m.sizex && x2 < m.sizex
    requires Index(m, x1, y1) == Index(m, x2, y2)
    ensures x1 == x2 && y1 == y2
  {
    if y1 < y2 {
      assert (y1 + 1) * m.sizex == y1 * m.sizex + m.sizex;
      MulMonotone(y1 + 1, y2, m.sizex);
    } else if y2 < y1 {
      assert (y2 + 1) * m.sizex == y2 * m.sizex + m.sizex;
      MulMonotone(y2 + 1, y1, m.sizex);
    }
  }

  /** The outcome of a lookup that may index out of range. */
  datatype Checked<T> = Value(value: T) | Panic

  /**
   * `Map::avail` as written: its guard admits `x == sizex` and `y == sizey`,
   * and the row or column lookup that follows is then out of range.
   */
  function AvailAsWritten(m: Map, x: nat, y: nat): (r: Checked<bool>)
    requires WellFormed(m)
    ensures r.Panic? ==> x == m.sizex || y == m.sizey
  {
    if x <= m.sizex && y <= m.sizey then
      if y < |m.data| && x < |m.data[y]| then Value(m.data[y][x] == 0) else Panic
    else
      Value(false)
  }

  /** A cell just past the right or bottom edge passes the guard and panics. */
  lemma AvailAsWrittenPanicsOnEdge(m: Map, x: nat, y: nat)
    requires WellFormed(m)
    requires (x == m.sizex && y <= m.sizey) || (y == m.sizey && x <= m.sizex)
    ensures AvailAsWritten(m, x, y) == Panic
  {
  }

  /** `Map::avail` with the strict bounds check: the cell is on the map and free. */
  function Avail(m: Map, x: nat, y: nat): (b: bool)
    requires WellFormed(m)
    ensures b ==> x < m.sizex && y < m.sizey
    ensures x < m.sizex && y < m.sizey ==> (b <==> m.data[y][x] == 0)
  {
    x < m.sizex && y < m.sizey && m.data[y][x] == 0
  }

  /**
   * Wherever the original does not panic, and in particular behind the strict
   * bounds check the search performs first, it agrees with `Avail`.
   */
  lemma {:induction false} AvailAgreesWhereDefined(m: Map, x: nat, y: nat)
    requires WellFormed(m)
    ensures (x < m.sizex && y < m.sizey) ==> AvailAsWritten(m, x, y).Value?
    ensures AvailAsWritten(m, x, y).Value? ==> AvailAsWritten(m, x, y).value == Avail(m, x, y)
  {
  }
}
