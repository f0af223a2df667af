/**
 * The pond's grid: its fixed dimensions and touch-region constants, the
 * Coordinate value type, and the row-major mapping between coordinates and
 * linear droplet indices (Pond::index, Pond::coord, Pond::in_bounds).
 */
module Grid {
  import opened Wrappers

  const WIDTH: nat := 1024
  const HEIGHT: nat := 1024

  const FINGER_X: nat := 100
  const FINGER_Y: nat := 100
  const FINGER_WIDTH: nat := 10

  /** A cell of the grid; the source's `usize` components become `nat`. */
  datatype Coordinate = Coordinate(x: nat, y: nat)

  /** Number of cells, and so the number of droplets a pond holds. */
  function CellCount(): nat {
    WIDTH * HEIGHT
  }

  /** An in-bounds point has a linear position inside the droplet storage. */
  predicate InBounds(x: nat, y: nat): (b: bool)
    ensures b ==> x + y * WIDTH < CellCount()
  {
    x < WIDTH && y < HEIGHT
  }

  /** Linear index of (x, y); None for a point outside the grid. */
  function Index(x: nat, y: nat): (r: Option<nat>)
    ensures r.Some? <==> InBounds(x, y)
    ensures r.Some? ==> r.value < CellCount()
  {
    if InBounds(x, y) then Some(x + y * WIDTH) else None
  }

  /** The coordinate stored at linear index i; None past the last cell. */
  function Coord(i: nat): (r: Option<Coordinate>)
    ensures r.None? <==> i >= CellCount()
    ensures r.Some? ==> InBounds(r.value.x, r.value.y)
  {
    if i >= WIDTH * HEIGHT then None
    else Some(Coordinate(i % WIDTH, i / WIDTH))
  }

  /** Round trip from the coordinate side: coord(index(x, y)) == (x, y). */
  lemma CoordOfIndex(x: nat, y: nat)
    requires InBounds(x, y)
    ensures Index(x, y).Some?
    ensures Coord(Index(x, y).value) == Some(Coordinate(x, y))
  {
  }

  /** Round trip from the index side: index(coord(i)) == i. */
  lemma IndexOfCoord(i: nat)
    requires i < CellCount()
    ensures Coord(i).Some?
    ensures Index(Coord(i).value.x, Coord(i).value.y) == Some(i)
  {
  }

  /** An index names at most one cell: the one coord gives back. */
  lemma IndexDeterminesCoord(i: nat)
    ensures forall c: Coordinate :: Index(c.x, c.y) == Some(i) ==> Coord(i) == Some(c)
  {
    forall c: Coordinate | Index(c.x, c.y) == Some(i)
      ensures Coord(i) == Some(c)
    {
      CoordOfIndex(c.x, c.y);
    }
  }

  /** Distinct in-bounds cells occupy distinct indices. */
  lemma IndexInjective(a: Coordinate, b: Coordinate)
    requires InBounds(a.x, a.y) && InBounds(b.x, b.y)
    requires Index(a.x, a.y) == Index(b.x, b.y)
    ensures a == b
  {
    CoordOfIndex(a.x, a.y);
    CoordOfIndex(b.x, b.y);
  }
}
