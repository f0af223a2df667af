/**
 * The epicenter locator (Pond::get_ripple_epicenter): the cells a touch
 * affects. The source builds them with an iterator pipeline -- rows
 * FINGER_Y..FINGER_Y+FINGER_WIDTH, each row's columns
 * FINGER_X..FINGER_X+FINGER_WIDTH as (x, y) pairs, kept when in bounds and
 * turned into Coordinates -- and collects the result into a hash set.
 * The pipeline is modelled as sequences in the same order; the set is
 * the collection of that sequence.
 */
module Epicenter {
  import opened Grid

  /** The pairs (x, y) for x in [x0, x1), in increasing x. */
  function RowPairs(y: nat, x0: nat, x1: nat): (r: seq<(nat, nat)>)
    ensures |r| == if x0 <= x1 then x1 - x0 else 0
    ensures forall k :: 0 <= k < |r| ==> r[k] == (x0 + k, y)
    decreases x1 - x0
  {
    if x0 >= x1 then [] else [(x0, y)] + RowPairs(y, x0 + 1, x1)
  }

  /** The flat_map over rows y in [y0, y1) of RowPairs(y, x0, x1). */
  function SquarePairs(y0: nat, y1: nat, x0: nat, x1: nat): (r: seq<(nat, nat)>)
    ensures forall p :: p in r ==> InSquare(p.0, p.1, x0, x1, y0, y1)
    decreases y1 - y0
  {
    if y0 >= y1 then [] else RowPairs(y0, x0, x1) + SquarePairs(y0 + 1, y1, x0, x1)
  }

  /** The filter on in_bounds followed by the map to Coordinate. */
  function KeepInBounds(ps: seq<(nat, nat)>): (r: seq<Coordinate>)
    ensures |r| <= |ps|
    ensures forall c :: c in r <==> (c.x, c.y) in ps && InBounds(c.x, c.y)
  {
    if ps == [] then []
    else
      var rest := KeepInBounds(ps[1..]);
      assert forall p :: p in ps <==> p == ps[0] || p in ps[1..];
      if InBounds(ps[0].0, ps[0].1) then [Coordinate(ps[0].0, ps[0].1)] + rest else rest
  }

  /** The items get_ripple_epicenter yields, in the order it yields them: all in bounds and in the finger square. */
  function EpicenterSeq(): (r: seq<Coordinate>)
    ensures forall c :: c in r ==>
      InBounds(c.x, c.y) &&
      InSquare(c.x, c.y, FINGER_X, FINGER_X + FINGER_WIDTH, FINGER_Y, FINGER_Y + FINGER_WIDTH)
  {
    KeepInBounds(SquarePairs(FINGER_Y, FINGER_Y + FINGER_WIDTH, FINGER_X, FINGER_X + FINGER_WIDTH))
  }

  /** The epicenter collected into a set, as update_epicenter does; it never holds an out-of-range cell. */
  function RippleEpicenter(): (r: set<Coordinate>)
    ensures forall c :: c in r ==>
      InBounds(c.x, c.y) &&
      InSquare(c.x, c.y, FINGER_X, FINGER_X + FINGER_WIDTH, FINGER_Y, FINGER_Y + FINGER_WIDTH)
  {
    set c | c in EpicenterSeq()
  }

  predicate InSquare(x: nat, y: nat, x0: nat, x1: nat, y0: nat, y1: nat) {
    x0 <= x < x1 && y0 <= y < y1
  }

  lemma RowPairsHas(y: nat, x0: nat, x1: nat, x: nat)
    requires x0 <= x < x1
    ensures (x, y) in RowPairs(y, x0, x1)
  {
    assert RowPairs(y, x0, x1)[x - x0] == (x, y);
  }

  lemma {:induction false} SquarePairsMembers(y0: nat, y1: nat, x0: nat, x1: nat, x: nat, y: nat)
    ensures (x, y) in SquarePairs(y0, y1, x0, x1) <==> InSquare(x, y, x0, x1, y0, y1)
    decreases y1 - y0
  {
    if y0 < y1 && InSquare(x, y, x0, x1, y0, y1) {
      var row, rest := RowPairs(y0, x0, x1), SquarePairs(y0 + 1, y1, x0, x1);
      if y == y0 {
        RowPairsHas(y, x0, x1, x);
        assert (x, y) in row;
      } else {
        SquarePairsMembers(y0 + 1, y1, x0, x1, x, y);
        assert (x, y) in rest;
      }
      assert SquarePairs(y0, y1, x0, x1) == row + rest;
    }
  }

  /** A cell is in the epicenter exactly when it is in bounds and inside the finger square. */
  lemma EpicenterMembership(c: Coordinate)
    ensures c in RippleEpicenter() <==>
      InBounds(c.x, c.y) &&
      InSquare(c.x, c.y, FINGER_X, FINGER_X + FINGER_WIDTH, FINGER_Y, FINGER_Y + FINGER_WIDTH)
  {
    SquarePairsMembers(FINGER_Y, FINGER_Y + FINGER_WIDTH, FINGER_X, FINGER_X + FINGER_WIDTH, c.x, c.y);
  }

  /** No cell is yielded twice. */
  ghost predicate Distinct<T>(s: seq<T>) {
    forall i, j :: 0 <= i < j < |s| ==> s[i] != s[j]
  }

  lemma {:induction false} SquarePairsShape(y0: nat, y1: nat, x0: nat, x1: nat)
    requires x0 <= x1
    ensures |SquarePairs(y0, y1, x0, x1)| == (if y0 <= y1 then y1 - y0 else 0) * (x1 - x0)
    ensures Distinct(SquarePairs(y0, y1, x0, x1))
    ensures forall p :: p in SquarePairs(y0, y1, x0, x1) ==> y0 <= p.1
    decreases y1 - y0
  {
    if y0 < y1 {
      var row, rest := RowPairs(y0, x0, x1), SquarePairs(y0 + 1, y1, x0, x1);
      SquarePairsShape(y0 + 1, y1, x0, x1);
      assert |row + rest| == (x1 - x0) + (y1 - y0 - 1) * (x1 - x0);
      forall i, j | 0 <= i < j < |row + rest|
        ensures (row + rest)[i] != (row + rest)[j]
      {
        if j >= |row| && i < |row| {
          assert (row + rest)[j] in rest;
        }
      }
    }
  }

  lemma {:induction false} KeepAllInBounds(ps: seq<(nat, nat)>)
    requires forall p :: p in ps ==> InBounds(p.0, p.1)
    ensures |KeepInBounds(ps)| == |ps|
    ensures Distinct(ps) ==> Distinct(KeepInBounds(ps))
  {
    if ps != [] {
      assert forall p :: p in ps[1..] ==> p in ps;
      KeepAllInBounds(ps[1..]);
      var r := KeepInBounds(ps);
      if Distinct(ps) {
        assert Distinct(ps[1..]);
        assert r[0] == Coordinate(ps[0].0, ps[0].1);
        assert (r[0].x, r[0].y) !in ps[1..];
        assert r[0] !in r[1..];
      }
    }
  }

  lemma {:induction false} DistinctCardinality<T>(s: seq<T>)
    requires Distinct(s)
    ensures |set c | c in s| == |s|
  {
    if s != [] {
      var tail := s[1..];
      DistinctCardinality(tail);
      assert (set c | c in s) == {s[0]} + (set c | c in tail);
      assert s[0] !in tail;
    }
  }

  /** Away from the grid's edges the epicenter is the full FINGER_WIDTH square. */
  lemma EpicenterSize()
    ensures |RippleEpicenter()| == FINGER_WIDTH * FINGER_WIDTH
  {
    var ps := SquarePairs(FINGER_Y, FINGER_Y + FINGER_WIDTH, FINGER_X, FINGER_X + FINGER_WIDTH);
    SquarePairsShape(FINGER_Y, FINGER_Y + FINGER_WIDTH, FINGER_X, FINGER_X + FINGER_WIDTH);
    forall p | p in ps ensures InBounds(p.0, p.1) {
      SquarePairsMembers(FINGER_Y, FINGER_Y + FINGER_WIDTH, FINGER_X, FINGER_X + FINGER_WIDTH, p.0, p.1);
    }
    KeepAllInBounds(ps);
    DistinctCardinality(EpicenterSeq());
  }
}
