/**
 * Day 14, Regolith Reservoir: rock paths drawn in a vertical slice of a cave, sand
 * poured in at (500, 0). A grain falls straight down, else down-left, else
 * down-right, and comes to rest when all three are taken. Part 1 counts the grains
 * at rest before one falls below the lowest rock; part 2 puts a floor two rows
 * under the lowest rock and counts the grains until the source is covered.
 */
module Day14 {
  import opened Wrappers

  /** `Position(u32, u32)`: `x` grows to the right, `y` downwards. */
  datatype Pos = Pos(x: int, y: nat)

  /** The box spanned by two corners, both edges included. */
  predicate InBox(from: Pos, to: Pos, p: Pos)
  {
    (from.x <= p.x <= to.x || to.x <= p.x <= from.x) && (from.y <= p.y <= to.y || to.y <= p.y <= from.y)
  }

  /** The points `(x, lo)`, `(x, lo + 1)`, …: `h` of them. */
  function Column(x: int, lo: nat, h: nat): (r: seq<Pos>)
    ensures |r| == h
    ensures forall i :: 0 <= i < h ==> r[i] == Pos(x, lo + i)
  {
    seq(h, i requires 0 <= i < h => Pos(x, lo + i))
  }

  /** `w` columns of height `h`, from column `xlo` rightwards. */
  function Columns(xlo: int, w: nat, ylo: nat, h: nat): seq<Pos>
    decreases w
  {
    if w == 0 then [] else Column(xlo, ylo, h) + Columns(xlo + 1, w - 1, ylo, h)
  }

  /** The columns hold exactly the points of their rectangle, `w * h` of them. */
  lemma {:induction false} ColumnsMembers(xlo: int, w: nat, ylo: nat, h: nat)
    ensures |Columns(xlo, w, ylo, h)| == w * h
    ensures forall p: Pos :: p in Columns(xlo, w, ylo, h) <==> xlo <= p.x < xlo + w && ylo <= p.y < ylo + h
    decreases w
  {
    if w > 0 {
      ColumnsMembers(xlo + 1, w - 1, ylo, h);
      var c := Column(xlo, ylo, h);
      forall p: Pos | xlo <= p.x < xlo + w && ylo <= p.y < ylo + h
        ensures p in Columns(xlo, w, ylo, h)
      {
        if p.x == xlo {
          assert c[p.y - ylo] == p;
        }
      }
      assert (w - 1) * h + h == w * h by {
        MulStep(w, h);
      }
    }
  }

  lemma MulStep(k: nat, n: nat)
    requires k > 0
    ensures k * n == n + (k - 1) * n
  {
  }

  function MinOf(a: int, b: int): int { if a <= b then a else b }
  function MaxOf(a: int, b: int): int { if a >= b then a else b }

  /** `map_rock_line`: the points of the box between the two ends, column by column (the segment, for ends on one line). */
  function RockLine(from: Pos, to: Pos): seq<Pos>
  {
    var xmin, xmax := MinOf(from.x, to.x), MaxOf(from.x, to.x);
    var ymin, ymax := MinOf(from.y, to.y), MaxOf(from.y, to.y);
    Columns(xmin, xmax - xmin + 1, ymin, ymax - ymin + 1)
  }

  /** The line holds every point of the box between its ends and nothing else, one per point. */
  lemma RockLineBox(from: Pos, to: Pos)
    ensures forall p: Pos :: p in RockLine(from, to) <==> InBox(from, to, p)
    ensures |RockLine(from, to)| == (MaxOf(from.x, to.x) - MinOf(from.x, to.x) + 1) * (MaxOf(from.y, to.y) - MinOf(from.y, to.y) + 1)
  {
    var xmin, xmax := MinOf(from.x, to.x), MaxOf(from.x, to.x);
    var ymin, ymax := MinOf(from.y, to.y), MaxOf(from.y, to.y);
    var w: nat, h: nat := xmax - xmin + 1, ymax - ymin + 1;
    assert RockLine(from, to) == Columns(xmin, w, ymin, h);
    ColumnsMembers(xmin, w, ymin, h);
    forall p: Pos
      ensures p in RockLine(from, to) <==> InBox(from, to, p)
    {
      InBoxRange(from, to, p);
    }
  }

  /** The line holds every point of the box between its ends and nothing else; for ends in one column or one row that is the segment between them. */
  lemma RockLineMembers(from: Pos, to: Pos)
    ensures forall p: Pos :: p in RockLine(from, to) <==> InBox(from, to, p)
    ensures from.x == to.x ==> forall p: Pos :: p in RockLine(from, to) ==> p.x == from.x
    ensures from.y == to.y ==> forall p: Pos :: p in RockLine(from, to) ==> p.y == from.y
    ensures |RockLine(from, to)| == (MaxOf(from.x, to.x) - MinOf(from.x, to.x) + 1) * (MaxOf(from.y, to.y) - MinOf(from.y, to.y) + 1)
  {
    RockLineBox(from, to);
  }

  /** Being in the box is lying within both ranges of coordinates. */
  lemma InBoxRange(from: Pos, to: Pos, p: Pos)
    ensures InBox(from, to, p) <==>
      MinOf(from.x, to.x) <= p.x < MaxOf(from.x, to.x) + 1 && MinOf(from.y, to.y) <= p.y < MaxOf(from.y, to.y) + 1
  {
  }

  /** `dedup`: drops each element equal to the one before it. */
  function Dedup<T(==,!new)>(xs: seq<T>): (r: seq<T>)
    ensures forall v :: v in r <==> v in xs
    ensures forall i :: 0 <= i < |r| - 1 ==> r[i] != r[i + 1]
    ensures |r| <= |xs| && (xs != [] ==> r != [] && r[0] == xs[0])
  {
    if |xs| <= 1 then xs
    else if xs[0] == xs[1] then Dedup(xs[1..])
    else [xs[0]] + Dedup(xs[1..])
  }

  /** The lines between consecutive corners, one after the other (`tuple_windows` then `flatten`). */
  function Lines(corners: seq<Pos>): seq<Pos>
    decreases |corners|
  {
    if |corners| < 2 then [] else RockLine(corners[0], corners[1]) + Lines(corners[1..])
  }

  /** Whether `p` lies on the line between corners `k` and `k + 1` of a path. */
  predicate OnPath(corners: seq<Pos>, p: Pos)
  {
    exists k :: 0 <= k < |corners| - 1 && InBox(corners[k], corners[k + 1], p)
  }

  lemma {:induction false} LinesMembers(corners: seq<Pos>)
    ensures forall p: Pos :: p in Lines(corners) <==> OnPath(corners, p)
    decreases |corners|
  {
    if |corners| >= 2 {
      LinesMembers(corners[1..]);
      RockLineMembers(corners[0], corners[1]);
      forall p: Pos
        ensures p in Lines(corners) <==> OnPath(corners, p)
      {
        if OnPath(corners[1..], p) {
          var k :| 0 <= k < |corners[1..]| - 1 && InBox(corners[1..][k], corners[1..][k + 1], p);
          assert InBox(corners[k + 1], corners[k + 2], p);
        }
        if OnPath(corners, p) {
          var k :| 0 <= k < |corners| - 1 && InBox(corners[k], corners[k + 1], p);
          if k > 0 {
            assert InBox(corners[1..][k - 1], corners[1..][k], p);
          }
        }
      }
    }
  }

  /** `map_rocks` */
  function MapRocks(corners: seq<Pos>): seq<Pos>
  {
    Dedup(Lines(corners))
  }

  /** The rocks of every path, one path after another. */
  function AllRocks(paths: seq<seq<Pos>>): seq<Pos>
    decreases |paths|
  {
    if paths == [] then [] else MapRocks(paths[0]) + AllRocks(paths[1..])
  }

  /** Whether `p` lies on one of the paths. */
  predicate OnRock(paths: seq<seq<Pos>>, p: Pos)
  {
    exists i :: 0 <= i < |paths| && OnPath(paths[i], p)
  }

  lemma {:induction false} AllRocksMembers(paths: seq<seq<Pos>>)
    ensures forall p: Pos :: p in AllRocks(paths) <==> OnRock(paths, p)
    decreases |paths|
  {
    if paths != [] {
      AllRocksMembers(paths[1..]);
      LinesMembers(paths[0]);
      forall p: Pos
        ensures p in AllRocks(paths) <==> OnRock(paths, p)
      {
        if OnRock(paths[1..], p) {
          var i :| 0 <= i < |paths[1..]| && OnPath(paths[1..][i], p);
          assert OnPath(paths[i + 1], p);
        }
        if OnRock(paths, p) {
          var i :| 0 <= i < |paths| && OnPath(paths[i], p);
          if i > 0 {
            assert OnPath(paths[1..][i - 1], p);
          }
        }
      }
    }
  }

  /** The greatest of a non-empty finite set of numbers. */
  ghost function Greatest(s: set<nat>): (m: nat)
    requires s != {}
    ensures m in s && forall v :: v in s ==> v <= m
    decreases |s|
  {
    var v :| v in s;
    assert forall u :: u in s ==> u == v || u in s - {v};
    if s - {v} == {} then v
    else
      var m := Greatest(s - {v});
      if v > m then v else m
  }

  /** A number no greater than the greatest leaves it unchanged. */
  lemma GreatestAdd(s: set<nat>, v: nat)
    requires s != {} && v <= Greatest(s)
    ensures Greatest(s + {v}) == Greatest(s)
  {
    var m, m2 := Greatest(s), Greatest(s + {v});
    assert m in s + {v};
  }

  /** `Cave`: what fills each taken cell, `#` for rock and `o` for sand, and the floor if any. */
  datatype Cave = Cave(cells: map<Pos, char>, floor: Option<nat>)

  /** The lowest row that holds anything (`yrange` ends one after it). */
  ghost function YMax(cave: Cave): nat
    requires cave.cells.Keys != {}
  {
    var q :| q in cave.cells.Keys;
    var ys := set p | p in cave.cells :: p.y;
    assert q.y in ys;
    Greatest(ys)
  }

  /** `Cave::from_structures`, which needs at least one path of two corners (`max().unwrap()` panics on no rock). */
  ghost function FromStructures(paths: seq<seq<Pos>>, hasFloor: bool): (r: Cave)
    requires exists i :: 0 <= i < |paths| && |paths[i]| >= 2
    ensures forall p: Pos :: p in r.cells <==> OnRock(paths, p)
    ensures forall p: Pos :: p in r.cells ==> r.cells[p] == '#'
    ensures r.cells.Keys != {}
    ensures r.floor.Some? <==> hasFloor
    ensures r.floor.Some? ==> r.floor.value == YMax(r) + 2
  {
    var rocks := Dedup(AllRocks(paths));
    AllRocksMembers(paths);
    var i :| 0 <= i < |paths| && |paths[i]| >= 2;
    assert OnPath(paths[i], paths[i][0]) by {
      assert InBox(paths[i][0], paths[i][1], paths[i][0]);
    }
    var cells := map p | p in rocks :: '#';
    assert paths[i][0] in cells;
    var ys := set p | p in cells :: p.y;
    assert paths[i][0].y in ys;
    var ymax := Greatest(ys);
    Cave(cells, if hasFloor then Some(ymax + 2) else None)
  }

  predicate IsOpen(cave: Cave, p: Pos)
  {
    p !in cave.cells
  }

  /** `move_down`: the first open cell of straight down, down-left and down-right. */
  function MoveDown(cave: Cave, x: int, y: nat): (r: Option<Pos>)
    ensures r.None? <==> !IsOpen(cave, Pos(x, y + 1)) && !IsOpen(cave, Pos(x - 1, y + 1)) && !IsOpen(cave, Pos(x + 1, y + 1))
    ensures r.Some? ==> IsOpen(cave, r.value) && r.value.y == y + 1 && x - 1 <= r.value.x <= x + 1
    ensures r.Some? && r.value.x != x ==> !IsOpen(cave, Pos(x, y + 1))
    ensures r.Some? && r.value.x == x + 1 ==> !IsOpen(cave, Pos(x - 1, y + 1))
  {
    if IsOpen(cave, Pos(x, y + 1)) then Some(Pos(x, y + 1))
    else if IsOpen(cave, Pos(x - 1, y + 1)) then Some(Pos(x - 1, y + 1))
    else if IsOpen(cave, Pos(x + 1, y + 1)) then Some(Pos(x + 1, y + 1))
    else None
  }

  /** Whether a grain at `p` has nowhere to go. */
  predicate AtRest(cave: Cave, p: Pos)
  {
    MoveDown(cave, p.x, p.y).None?
  }

  /**
   * The loop of `drop_grain` from row `y` on, with the grain in column `x`: it moves
   * while it can and comes to rest where it cannot; past row `ymax` it is lost.
   * Where it rests it has fallen no further sideways than down, and any cell it
   * entered was open.
   */
  function DropFrom(cave: Cave, x: int, y: nat, ymax: nat): (r: Option<Pos>)
    ensures r.Some? ==> y <= r.value.y <= ymax && AtRest(cave, r.value)
    ensures r.Some? ==> r.value.x - x <= r.value.y - y && x - r.value.x <= r.value.y - y
    ensures r.Some? && r.value.y > y ==> IsOpen(cave, r.value)
    ensures r.None? ==> y > ymax || MoveDown(cave, x, y).Some?
    decreases ymax + 1 - y
  {
    if y > ymax then None
    else
      match MoveDown(cave, x, y)
      case Some(p) => DropFrom(cave, p.x, y + 1, ymax)
      case None => Some(Pos(x, y))
  }

  /** `drop_grain`: a grain poured at (500, 0), over the rows of `yrange`. */
  ghost function DropGrain(cave: Cave): Option<Pos>
    requires cave.cells.Keys != {}
  {
    DropFrom(cave, 500, 0, YMax(cave))
  }

  /**
   * The loop of `drop_grain_with_floor` from row `y` on: as `DropFrom`, except that on
   * row `last` (just above the floor) the grain rests whatever lies below.
   */
  function DropFloorFrom(cave: Cave, x: int, y: nat, last: nat): (r: Option<Pos>)
    requires y <= last
    ensures r.Some? && y <= r.value.y <= last
    ensures r.value.y < last ==> AtRest(cave, r.value)
    ensures r.value.x - x <= r.value.y - y && x - r.value.x <= r.value.y - y
    ensures r.value.y > y ==> IsOpen(cave, r.value)
    decreases last - y
  {
    match MoveDown(cave, x, y)
    case Some(p) => if y != last then DropFloorFrom(cave, p.x, y + 1, last) else Some(Pos(x, y))
    case None => Some(Pos(x, y))
  }

  /** `drop_grain_with_floor`: rows 0 to one above the floor. */
  function DropGrainWithFloor(cave: Cave): (r: Option<Pos>)
    requires cave.floor.Some? && cave.floor.value >= 1
    ensures r.Some? && r.value.y <= cave.floor.value - 1
  {
    DropFloorFrom(cave, 500, 0, cave.floor.value - 1)
  }

  /** `add_grain` */
  function AddGrain(cave: Cave, g: Pos): (r: Cave)
    ensures r.floor == cave.floor && r.cells.Keys == cave.cells.Keys + {g} && r.cells[g] == 'o'
    ensures forall p: Pos :: p in cave.cells && p != g ==> r.cells[p] == cave.cells[p]
  {
    cave.(cells := cave.cells[g := 'o'])
  }

  /** The cells within `depth` rows of the source that sand could reach: a grain moves at most one column per row. */
  function Triangle(depth: nat): set<Pos>
  {
    set y: nat, x: int | y <= depth && 500 - y <= x <= 500 + y :: Pos(x, y)
  }

  /** Sand at rest within the triangle fills one more of its open cells. */
  lemma FillsTriangle(cave: Cave, g: Pos, depth: nat)
    requires g in Triangle(depth) && IsOpen(cave, g)
    ensures |Triangle(depth) - AddGrain(cave, g).cells.Keys| < |Triangle(depth) - cave.cells.Keys|
  {
    var before, after := Triangle(depth) - cave.cells.Keys, Triangle(depth) - AddGrain(cave, g).cells.Keys;
    assert after == before - {g};
  }

  /** The grains at rest: cells holding `o`. */
  function Grains(cave: Cave): nat
  {
    |set p | p in cave.cells && cave.cells[p] == 'o'|
  }

  /** A grain at rest in an open cell adds one to the count. */
  lemma GrainsAdd(cave: Cave, g: Pos)
    requires IsOpen(cave, g)
    ensures Grains(AddGrain(cave, g)) == Grains(cave) + 1
  {
    var c2 := AddGrain(cave, g);
    var before := set p | p in cave.cells && cave.cells[p] == 'o';
    var after := set p | p in c2.cells && c2.cells[p] == 'o';
    assert after == before + {g};
  }

  /** Dropping a grain leaves the lowest row unchanged when the grain rests above it. */
  lemma YMaxAdd(cave: Cave, g: Pos)
    requires cave.cells.Keys != {} && g.y <= YMax(cave)
    ensures YMax(AddGrain(cave, g)) == YMax(cave)
  {
    var ys := set p | p in cave.cells :: p.y;
    var ys2 := set p | p in AddGrain(cave, g).cells :: p.y;
    assert ys2 == ys + {g.y};
    GreatestAdd(ys, g.y);
  }

  /**
   * Part 1's loop: pour until a grain is lost. `None` when a grain comes to rest on
   * the source cell when it is already taken: the source would then pour that same
   * grain forever. Each grain fills an open cell of the triangle above the lowest row.
   */
  ghost function PourUntilLost(cave: Cave, ymax: nat): (r: Option<Cave>)
    requires cave.cells.Keys != {} && YMax(cave) == ymax
    ensures r.Some? ==> r.value.cells.Keys != {} && DropGrain(r.value).None?
    ensures r.Some? ==> r.value.floor == cave.floor && cave.cells.Keys <= r.value.cells.Keys
    ensures r.Some? ==> forall p: Pos :: p in cave.cells ==> r.value.cells[p] == cave.cells[p]
    ensures r.Some? ==> Grains(r.value) == Grains(cave) + |r.value.cells.Keys - cave.cells.Keys|
    decreases |Triangle(ymax) - cave.cells.Keys|
  {
    match DropGrain(cave)
    case None => Some(cave)
    case Some(g) =>
      if !IsOpen(cave, g) then None
      else
        var next := AddGrain(cave, g);
        assert g in Triangle(ymax);
        FillsTriangle(cave, g, ymax);
        YMaxAdd(cave, g);
        GrainsAdd(cave, g);
        var r := PourUntilLost(next, ymax);
        if r.Some? then
          NewKeys(cave.cells.Keys, next.cells.Keys, r.value.cells.Keys, g);
          r
        else r
  }

  /**
   * `solve_part1`: `None` where the source would loop forever. Otherwise the loop ends
   * with a cave whose next grain is lost, holding the rock as it was, and the answer is
   * the number of cells the sand took.
   */
  ghost function SolvePart1(paths: seq<seq<Pos>>): (r: Option<nat>)
    requires exists i :: 0 <= i < |paths| && |paths[i]| >= 2
    ensures var cave := FromStructures(paths, false); r.Some? <==> PourUntilLost(cave, YMax(cave)).Some?
    ensures var cave := FromStructures(paths, false);
      r.Some? ==> var full := PourUntilLost(cave, YMax(cave)).value;
        DropGrain(full).None? && (forall p: Pos :: p in cave.cells ==> full.cells[p] == cave.cells[p])
        && r.value == |full.cells.Keys - cave.cells.Keys|
  {
    var cave := FromStructures(paths, false);
    NoGrainsAtFirst(paths, false);
    match PourUntilLost(cave, YMax(cave))
    case None => None
    case Some(full) => Some(Grains(full))
  }

  /** Part 2's loop: pour while the source is open. Each grain rests in an open cell of the triangle above the floor, so the loop ends. */
  function PourUntilBlocked(cave: Cave): (r: Cave)
    requires cave.floor.Some? && cave.floor.value >= 1
    ensures r.floor == cave.floor
    decreases |Triangle(cave.floor.value - 1) - cave.cells.Keys|
  {
    if !IsOpen(cave, Pos(500, 0)) then cave
    else
      FloorGrain(cave);
      PourUntilBlocked(AddGrain(cave, DropGrainWithFloor(cave).value))
  }

  /**
   * Part 2 ends with the source covered; rock stays where it was, every cell the sand
   * took lies above the floor, and the count of grains grew by the number of cells taken.
   */
  lemma {:induction false} PourUntilBlockedFills(cave: Cave)
    requires cave.floor.Some? && cave.floor.value >= 1
    ensures var r := PourUntilBlocked(cave);
      !IsOpen(r, Pos(500, 0))
      && cave.cells.Keys <= r.cells.Keys && (forall p: Pos :: p in cave.cells ==> r.cells[p] == cave.cells[p])
      && Grains(r) == Grains(cave) + |r.cells.Keys - cave.cells.Keys|
      && forall p: Pos :: p in r.cells && p !in cave.cells ==> p.y < cave.floor.value
    decreases |Triangle(cave.floor.value - 1) - cave.cells.Keys|
  {
    if IsOpen(cave, Pos(500, 0)) {
      var g := DropGrainWithFloor(cave).value;
      var next := AddGrain(cave, g);
      FloorGrain(cave);
      PourUntilBlockedFills(next);
      var r := PourUntilBlocked(next);
      NewKeys(cave.cells.Keys, next.cells.Keys, r.cells.Keys, g);
      forall p: Pos | p in r.cells && p !in cave.cells
        ensures p.y < cave.floor.value
      {
        if p != g {
          assert p !in next.cells;
        }
      }
    }
  }

  /** With the source open, the next grain rests in an open cell of the triangle above the floor. */
  lemma FloorGrain(cave: Cave)
    requires cave.floor.Some? && cave.floor.value >= 1 && IsOpen(cave, Pos(500, 0))
    ensures var g := DropGrainWithFloor(cave).value;
      IsOpen(cave, g) && g.y < cave.floor.value
      && |Triangle(cave.floor.value - 1) - AddGrain(cave, g).cells.Keys| < |Triangle(cave.floor.value - 1) - cave.cells.Keys|
      && Grains(AddGrain(cave, g)) == Grains(cave) + 1
  {
    var g := DropGrainWithFloor(cave).value;
    assert g in Triangle(cave.floor.value - 1);
    FillsTriangle(cave, g, cave.floor.value - 1);
    GrainsAdd(cave, g);
  }

  /** Keys gained in two steps, the first of them one new key. */
  lemma NewKeys(k0: set<Pos>, k1: set<Pos>, k2: set<Pos>, g: Pos)
    requires k1 == k0 + {g} && g !in k0 && k1 <= k2
    ensures |k2 - k0| == |k2 - k1| + 1
  {
    assert k2 - k0 == (k2 - k1) + {g};
  }

  /**
   * `solve_part2`: pouring stops with the source covered, the rock as it was and all sand
   * above the floor; the answer is the number of cells the sand took.
   */
  ghost function SolvePart2(paths: seq<seq<Pos>>): (r: nat)
    requires exists i :: 0 <= i < |paths| && |paths[i]| >= 2
    ensures var cave := FromStructures(paths, true); var full := PourUntilBlocked(cave);
      !IsOpen(full, Pos(500, 0)) && (forall p: Pos :: p in cave.cells ==> p in full.cells && full.cells[p] == cave.cells[p])
      && (forall p: Pos :: p in full.cells && p !in cave.cells ==> p.y < cave.floor.value)
      && r == |full.cells.Keys - cave.cells.Keys|
  {
    NoGrainsAtFirst(paths, true);
    PourUntilBlockedFills(FromStructures(paths, true));
    Grains(PourUntilBlocked(FromStructures(paths, true)))
  }

  /** A fresh cave holds no sand, so each answer counts exactly the cells the sand took. */
  lemma NoGrainsAtFirst(paths: seq<seq<Pos>>, hasFloor: bool)
    requires exists i :: 0 <= i < |paths| && |paths[i]| >= 2
    ensures Grains(FromStructures(paths, hasFloor)) == 0
  {
    var cave := FromStructures(paths, hasFloor);
    assert (set p | p in cave.cells && cave.cells[p] == 'o') == {};
  }

  /** The first line of the example, a vertical one. */
  lemma ExampleLine()
    ensures RockLine(Pos(498, 4), Pos(498, 6)) == [Pos(498, 4), Pos(498, 5), Pos(498, 6)]
  {
    assert Columns(499, 0, 4, 3) == [];
  }
}
