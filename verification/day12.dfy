/**
 * Day 12, Hill Climbing Algorithm: a grid of letters gives each square's
 * elevation, `a` lowest and `z` highest, with `S` (the start) at elevation `a` and
 * `E` (the goal) at elevation `z`. A step goes to an orthogonal neighbour at most
 * one higher. The answers are shortest walks, found by a graph search over the
 * steps `successors` allows.
 */
module Day12 {
  import opened Wrappers
  import opened Seqs

  /** A square: its place and its letter. */
  datatype Elevation = Elevation(row: nat, column: nat, height: char)
  {
    /** `height_value`: `S` stands at `a` and `E` at `z`. */
    function HeightValue(): (r: nat)
      ensures height != 'S' && height != 'E' ==> r == height as nat
    {
      match height
      case 'E' => 'z' as nat
      case 'S' => 'a' as nat
      case c => c as nat
    }
  }

  /** `S`, `E` and the letters all stand between `a` and `z`. */
  lemma HeightRange(e: Elevation)
    requires 'a' <= e.height <= 'z' || e.height == 'S' || e.height == 'E'
    ensures 'a' as nat <= e.HeightValue() <= 'z' as nat
    ensures e.height == 'S' ==> e.HeightValue() == Elevation(e.row, e.column, 'a').HeightValue()
    ensures e.height == 'E' ==> e.HeightValue() == Elevation(e.row, e.column, 'z').HeightValue()
  {
  }

  /** `is_passable`: a step may climb by at most one. */
  predicate IsPassable(e1: Elevation, e2: Elevation)
  {
    e2.HeightValue() <= e1.HeightValue() + 1
  }

  /** A square can step to its own height, to any lower one and to the next one up, and to nothing higher. */
  lemma PassableProperties(e1: Elevation, e2: Elevation)
    ensures IsPassable(e1, e1)
    ensures e2.HeightValue() <= e1.HeightValue() ==> IsPassable(e1, e2)
    ensures e2.HeightValue() == e1.HeightValue() + 1 ==> IsPassable(e1, e2)
    ensures e2.HeightValue() >= e1.HeightValue() + 2 ==> !IsPassable(e1, e2)
    ensures !IsPassable(e1, e2) ==> IsPassable(e2, e1)
  {
  }

  /** `Matrix::from_rows` succeeds on rows of one length. */
  predicate Rectangular(grid: seq<string>)
  {
    |grid| >= 1 && forall r :: 0 <= r < |grid| ==> |grid[r]| == |grid[0]|
  }

  predicate InBounds(grid: seq<string>, row: nat, column: nat)
    requires Rectangular(grid)
  {
    row < |grid| && column < |grid[0]|
  }

  function At(grid: seq<string>, row: nat, column: nat): (e: Elevation)
    requires Rectangular(grid) && InBounds(grid, row, column)
    ensures e.row == row && e.column == column
  {
    Elevation(row, column, grid[row][column])
  }

  predicate Adjacent(e1: Elevation, e2: Elevation)
  {
    (e1.row == e2.row && (e1.column + 1 == e2.column || e2.column + 1 == e1.column))
    || (e1.column == e2.column && (e1.row + 1 == e2.row || e2.row + 1 == e1.row))
  }

  /** `Matrix::neighbours` without diagonals: the squares of the 3×3 window around `e` sharing a side with it, in row order, inside the grid. */
  function Neighbours(grid: seq<string>, e: Elevation): (r: seq<Elevation>)
    requires Rectangular(grid) && InBounds(grid, e.row, e.column)
    ensures forall i :: 0 <= i < |r| ==> InBounds(grid, r[i].row, r[i].column) && r[i] == At(grid, r[i].row, r[i].column) && Adjacent(e, r[i])
    ensures forall row: nat, column: nat :: InBounds(grid, row, column) && Adjacent(e, At(grid, row, column)) ==> At(grid, row, column) in r
  {
    var (row, column) := (e.row, e.column);
    (if row > 0 then [At(grid, row - 1, column)] else [])
      + (if column > 0 then [At(grid, row, column - 1)] else [])
      + (if column + 1 < |grid[0]| then [At(grid, row, column + 1)] else [])
      + (if row + 1 < |grid| then [At(grid, row + 1, column)] else [])
  }

  /** The first element of `xs` that satisfies `p`. */
  function Find<T>(p: T -> bool, xs: seq<T>): (r: Option<T>)
    ensures r.None? <==> forall i :: 0 <= i < |xs| ==> !p(xs[i])
    ensures r.Some? ==> r.value in xs && p(r.value)
  {
    if xs == [] then None else if p(xs[0]) then Some(xs[0]) else Find(p, xs[1..])
  }

  predicate IsEnd(e: Elevation)
  {
    e.height == 'E'
  }

  /**
   * `successors`: the squares allowed from `e` are neighbours within reach. When none
   * of those is the end, they are all of them; otherwise the end square alone is allowed.
   */
  function Successors(grid: seq<string>, e: Elevation): (r: seq<Elevation>)
    requires Rectangular(grid) && InBounds(grid, e.row, e.column)
    ensures forall i :: 0 <= i < |r| ==> InBounds(grid, r[i].row, r[i].column) && r[i] == At(grid, r[i].row, r[i].column) && Adjacent(e, r[i]) && IsPassable(e, r[i])
    ensures var reachEnd := exists row: nat, column: nat :: InBounds(grid, row, column) && Adjacent(e, At(grid, row, column)) && IsPassable(e, At(grid, row, column)) && IsEnd(At(grid, row, column));
      (reachEnd ==> |r| == 1 && IsEnd(r[0]))
      && (!reachEnd ==> forall row: nat, column: nat :: InBounds(grid, row, column) && Adjacent(e, At(grid, row, column)) && IsPassable(e, At(grid, row, column)) ==> At(grid, row, column) in r)
  {
    var neighbours := Neighbours(grid, e);
    var horses := Filter((other: Elevation) => IsPassable(e, other), neighbours);
    PassableNeighbours(grid, e);
    match Find(IsEnd, horses)
    case Some(end) => [end]
    case None => horses
  }

  /** Every neighbour within reach survives the filter. */
  lemma PassableNeighbours(grid: seq<string>, e: Elevation)
    requires Rectangular(grid) && InBounds(grid, e.row, e.column)
    ensures var horses := Filter((other: Elevation) => IsPassable(e, other), Neighbours(grid, e));
      forall row: nat, column: nat :: InBounds(grid, row, column) && Adjacent(e, At(grid, row, column)) && IsPassable(e, At(grid, row, column)) ==> At(grid, row, column) in horses
  {
    var neighbours := Neighbours(grid, e);
    var horses := Filter((other: Elevation) => IsPassable(e, other), neighbours);
    forall row: nat, column: nat | InBounds(grid, row, column) && Adjacent(e, At(grid, row, column)) && IsPassable(e, At(grid, row, column))
      ensures At(grid, row, column) in horses
    {
      var k :| 0 <= k < |neighbours| && neighbours[k] == At(grid, row, column);
    }
  }

  const Example: seq<string> := ["Sabqponm", "abcryxxl", "accszExk", "acctuvwj", "abdefghi"]

  lemma ExampleRectangular()
    ensures Rectangular(Example)
  {
  }

  /** In the example the start may go right or down. */
  lemma ExampleStart()
    ensures Rectangular(Example)
    ensures Successors(Example, At(Example, 0, 0)) == [At(Example, 0, 1), At(Example, 1, 0)]
  {
    ExampleRectangular();
    var e := At(Example, 0, 0);
    var ns := Neighbours(Example, e);
    assert ns == [At(Example, 0, 1), At(Example, 1, 0)];
    assert e.HeightValue() == 'a' as nat;
    FilterAll((other: Elevation) => IsPassable(e, other), ns);
  }

  lemma ExampleAroundEnd()
    ensures Rectangular(Example)
    ensures Neighbours(Example, At(Example, 2, 4)) == [At(Example, 1, 4), At(Example, 2, 3), At(Example, 2, 5), At(Example, 3, 4)]
    ensures At(Example, 2, 4).height == 'z' && At(Example, 2, 5).height == 'E'
  {
    ExampleRectangular();
  }

  /** In the example the square left of the end may step only onto it. */
  lemma ExampleBesideEnd()
    ensures Rectangular(Example)
    ensures Successors(Example, At(Example, 2, 4)) == [At(Example, 2, 5)]
  {
    ExampleAroundEnd();
    var e := At(Example, 2, 4);
    var ns := Neighbours(Example, e);
    PassableProperties(e, e);
    assert forall i :: 0 <= i < |ns| ==> IsPassable(e, ns[i]) by {
      forall i | 0 <= i < |ns|
        ensures IsPassable(e, ns[i])
      {
        assert ns[i].HeightValue() <= 'z' as nat by {
          assert ns[i].height in "ysEu";
        }
      }
    }
    FilterAll((other: Elevation) => IsPassable(e, other), ns);
    assert IsEnd(ns[2]) && !IsEnd(ns[0]) && !IsEnd(ns[1]);
  }
}
