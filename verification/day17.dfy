/**
 * Day 17, Pyroclastic Flow: rocks of five shapes fall in turn into a chamber seven
 * columns wide, pushed left or right by a repeating pattern of jets before each step
 * down, until they come to rest. Part 1 is the tower's height after 2022 rocks;
 * part 2 finds a repeating stretch of rows and extrapolates to a trillion rocks.
 *
 * Rows are numbered from the floor up; a position names the top row and the left
 * column of a rock's sprite, whose line `r` is drawn on row `row - r`.
 */
module Day17 {
  import opened Wrappers

  /** A row of the chamber with no rock in it. */
  const EmptyRow: string := "......."

  /** `Shape` */
  datatype Shape = Minus | Plus | L | I | Box
  {
    /** `sprite`: the lines of the shape from the top down. */
    function Sprite(): seq<string>
    {
      match this
      case Minus => ["####"]
      case Plus => [".#.", "###", ".#."]
      case L => ["..#", "..#", "###"]
      case I => ["#", "#", "#", "#"]
      case Box => ["##", "##"]
    }

    /** `height`: the number of sprite lines. */
    function Height(): (h: nat)
      ensures h == |Sprite()|
    {
      |Sprite()|
    }
  }

  /** The shapes in the order they fall. */
  const Shapes: seq<Shape> := [Minus, Plus, L, I, Box]

  /** The sprite has lines of one width, and its top and bottom lines both hold rock. */
  predicate WellShaped(sprite: seq<string>)
  {
    |sprite| >= 1 && |sprite[0]| >= 1
    && (forall r :: 0 <= r < |sprite| ==> |sprite[r]| == |sprite[0]|)
    && '#' in sprite[0] && '#' in sprite[|sprite| - 1]
  }

  /** Each shape's height and width, and that its sprite is well shaped. */
  lemma ShapeSizes(shape: Shape)
    ensures WellShaped(shape.Sprite())
    ensures shape.Height() == match shape case Minus => 1 case Plus => 3 case L => 3 case I => 4 case Box => 2
    ensures |shape.Sprite()[0]| == match shape case Minus => 4 case Plus => 3 case L => 3 case I => 1 case Box => 2
  {
    var s := shape.Sprite();
    match shape
    case Minus =>
      assert s[0][0] == '#';
    case Plus =>
      assert s[0][1] == '#' && s[2][1] == '#';
    case L =>
      assert s[0][2] == '#' && s[2][0] == '#';
    case I =>
      assert s[0][0] == '#' && s[3][0] == '#';
    case Box =>
      assert s[0][0] == '#' && s[1][0] == '#';
  }

  /** Every row is seven cells wide. */
  predicate Walled(grid: seq<string>)
  {
    forall i :: 0 <= i < |grid| ==> |grid[i]| == 7
  }

  /** `Chamber::height`: one above the highest row holding rock, or 0 when there is none. */
  function Height(grid: seq<string>): (h: nat)
    ensures h <= |grid|
    ensures h > 0 ==> '#' in grid[h - 1]
    ensures forall i :: h <= i < |grid| ==> '#' !in grid[i]
  {
    if grid == [] then 0
    else if '#' in grid[|grid| - 1] then |grid|
    else Height(grid[..|grid| - 1])
  }

  /** The height is determined by the rows: it is the only number with the three properties of `Height`. */
  lemma HeightUnique(grid: seq<string>, h: nat)
    requires h <= |grid|
    requires h > 0 ==> '#' in grid[h - 1]
    requires forall i :: h <= i < |grid| ==> '#' !in grid[i]
    ensures Height(grid) == h
  {
  }

  /** The loop of `extend_height`: pushes empty rows until the grid has more than `n` of them. */
  function ExtendTo(grid: seq<string>, n: nat): (r: seq<string>)
    ensures |r| == if |grid| > n then |grid| else n + 1
    ensures r[..|grid|] == grid
    ensures forall i :: |grid| <= i < |r| ==> r[i] == EmptyRow
    decreases n + 1 - |grid|
  {
    if |grid| <= n then ExtendTo(grid + [EmptyRow], n) else grid
  }

  /** `extend_height`: room for `extension` more rows above the tower. */
  function ExtendHeight(grid: seq<string>, extension: nat): seq<string>
  {
    ExtendTo(grid, Height(grid) + extension)
  }

  /** Extending leaves more than `height + extension` rows, adds only empty rows on top, and leaves the height as it was. */
  lemma ExtendHeightKeeps(grid: seq<string>, extension: nat)
    ensures var r := ExtendHeight(grid, extension);
      |r| > Height(grid) + extension && r[..|grid|] == grid
      && (forall i :: |grid| <= i < |r| ==> r[i] == EmptyRow)
      && Height(r) == Height(grid)
      && (Walled(grid) ==> Walled(r))
  {
    var r := ExtendHeight(grid, extension);
    var h := Height(grid);
    assert forall i :: 0 <= i < |grid| ==> r[i] == grid[i] by {
      forall i | 0 <= i < |grid|
        ensures r[i] == grid[i]
      {
        assert r[..|grid|][i] == r[i];
      }
    }
    assert '#' !in EmptyRow;
    HeightUnique(r, h);
  }

  /** The sprite's place fits the chamber: inside the walls and below the top row. */
  predicate Fits(grid: seq<string>, sprite: seq<string>, row: nat, column: nat)
  {
    WellShaped(sprite) && Walled(grid) && row < |grid| && column + |sprite[0]| <= 7
  }

  /** `available`: the sprite stays above the floor and none of its rock meets rock in the chamber. */
  predicate Available(grid: seq<string>, sprite: seq<string>, row: nat, column: nat)
    requires Fits(grid, sprite, row, column)
  {
    row >= |sprite| - 1
    && forall r, c :: 0 <= r < |sprite| && 0 <= c < |sprite[0]| && sprite[r][c] == '#' ==> grid[row - r][column + c] != '#'
  }

  /** A place whose rows are all above the tower is available. */
  lemma AboveTowerAvailable(grid: seq<string>, sprite: seq<string>, row: nat, column: nat)
    requires Fits(grid, sprite, row, column)
    requires row >= |sprite| - 1 && row - (|sprite| - 1) >= Height(grid)
    ensures Available(grid, sprite, row, column)
  {
    forall r, c | 0 <= r < |sprite| && 0 <= c < |sprite[0]| && sprite[r][c] == '#'
      ensures grid[row - r][column + c] != '#'
    {
      assert '#' !in grid[row - r];
    }
  }

  lemma AboveTowerAvailableWhen(grid: seq<string>, sprite: seq<string>, row: nat, column: nat)
    requires Fits(grid, sprite, row, column)
    ensures row >= |sprite| - 1 && row - (|sprite| - 1) >= Height(grid) ==> Available(grid, sprite, row, column)
  {
    if row >= |sprite| - 1 && row - (|sprite| - 1) >= Height(grid) {
      AboveTowerAvailable(grid, sprite, row, column);
    }
  }

  /** A position: top row and left column of the sprite. */
  datatype Position = Position(row: nat, column: nat)

  /** `initial_position`: two columns from the left wall, the bottom three rows above the tower. */
  function InitialPosition(grid: seq<string>, shape: Shape): (p: Position)
    ensures p.column == 2
    ensures p.row - (shape.Height() - 1) == Height(grid) + 3
  {
    match Height(grid)
    case 0 => Position(shape.Height() + 2, 2)
    case _ => Position(Height(grid) + 2 + shape.Height(), 2)
  }

  /** `at_rest`: the sprite stands on the floor or cannot move one row down. */
  predicate AtRest(grid: seq<string>, sprite: seq<string>, p: Position)
    requires Fits(grid, sprite, p.row, p.column)
  {
    if p.row <= |sprite| - 1 then true else !Available(grid, sprite, p.row - 1, p.column)
  }

  /** `fall`: one row down when that place is available, otherwise where it was. */
  function Fall(grid: seq<string>, sprite: seq<string>, p: Position): (r: Position)
    requires Fits(grid, sprite, p.row, p.column)
    ensures r.column == p.column
    ensures r == p || (r.row + 1 == p.row && Available(grid, sprite, r.row, r.column))
    ensures p.row > 0 && Available(grid, sprite, p.row - 1, p.column) ==> r.row + 1 == p.row
  {
    if p.row == 0 then p
    else
      var next := Position(p.row - 1, p.column);
      match Available(grid, sprite, next.row, next.column)
      case true => next
      case false => p
  }

  /** A rock not at rest falls exactly one row; one at rest stays put. */
  lemma FallUnlessAtRest(grid: seq<string>, sprite: seq<string>, p: Position)
    requires Fits(grid, sprite, p.row, p.column)
    ensures AtRest(grid, sprite, p) <==> Fall(grid, sprite, p) == p
    ensures !AtRest(grid, sprite, p) ==> Fall(grid, sprite, p) == Position(p.row - 1, p.column)
  {
  }

  /** The jet characters the pattern may hold. */
  predicate IsJet(c: char)
  {
    c == '<' || c == '>'
  }

  /** `jet`: one column left or right, kept between the walls, unless that place is taken. */
  function Jet(grid: seq<string>, direction: char, sprite: seq<string>, p: Position): (r: Position)
    requires IsJet(direction) && Fits(grid, sprite, p.row, p.column)
    ensures r.row == p.row && r.column + |sprite[0]| <= 7
    ensures r == p || Available(grid, sprite, r.row, r.column)
    ensures -1 <= r.column - p.column <= 1
    ensures direction == '<' ==> r.column <= p.column
    ensures direction == '>' ==> r.column >= p.column
  {
    var column := if direction == '>' then p.column + 1 else p.column - 1;
    var bounded := MaxInt(0, MinInt(column, 7 - |sprite[0]|));
    var next := Position(p.row, bounded);
    if Available(grid, sprite, next.row, next.column) then next else p
  }

  function MaxInt(a: int, b: int): (r: int)
    ensures r >= a && r >= b && (r == a || r == b)
  {
    if a >= b then a else b
  }

  function MinInt(a: int, b: int): (r: int)
    ensures r <= a && r <= b && (r == a || r == b)
  {
    if a <= b then a else b
  }

  /** A jet moves a free rock one column towards its side unless the wall or rock is in the way. */
  lemma JetMoves(grid: seq<string>, direction: char, sprite: seq<string>, p: Position)
    requires IsJet(direction) && Fits(grid, sprite, p.row, p.column)
    ensures var target := if direction == '>' then p.column + 1 else p.column - 1;
      0 <= target && target + |sprite[0]| <= 7 && Available(grid, sprite, p.row, target)
      ==> Jet(grid, direction, sprite, p) == Position(p.row, target)
  {
  }

  /** `draw` on one row: the sprite line's rock written from `column` on. */
  function DrawLine(line: string, spriteLine: string, column: nat): (r: string)
    ensures |r| == |line|
  {
    seq(|line|, c requires 0 <= c < |line| =>
      if column <= c < column + |spriteLine| && spriteLine[c - column] == '#' then '#' else line[c])
  }

  /** Whether the sprite at `p` puts rock on cell (`i`, `c`). */
  predicate Covers(sprite: seq<string>, p: Position, i: nat, c: nat)
  {
    p.row - |sprite| < i <= p.row && p.column <= c < p.column + |sprite[p.row - i]| && sprite[p.row - i][c - p.column] == '#'
  }

  /** `draw`: the sprite's rock written into the chamber at `p`. */
  function Draw(grid: seq<string>, sprite: seq<string>, p: Position): (r: seq<string>)
    ensures |r| == |grid|
    ensures forall i :: 0 <= i < |r| ==> |r[i]| == |grid[i]|
  {
    seq(|grid|, i requires 0 <= i < |grid| =>
      if p.row - |sprite| < i <= p.row then DrawLine(grid[i], sprite[p.row - i], p.column) else grid[i])
  }

  /** After drawing, a cell holds rock exactly when it did before or the sprite covers it; other cells keep their contents. */
  lemma DrawCells(grid: seq<string>, sprite: seq<string>, p: Position, i: nat, c: nat)
    requires i < |grid| && c < |grid[i]|
    ensures var r := Draw(grid, sprite, p);
      (r[i][c] == '#' <==> grid[i][c] == '#' || Covers(sprite, p, i, c))
      && (!Covers(sprite, p, i, c) ==> r[i][c] == grid[i][c])
  {
  }

  /** Drawing a well-shaped sprite that fits makes the tower reach at least the sprite's top row, and no higher than that. */
  lemma DrawHeight(grid: seq<string>, sprite: seq<string>, p: Position)
    requires Fits(grid, sprite, p.row, p.column) && p.row >= |sprite| - 1
    ensures Walled(Draw(grid, sprite, p))
    ensures Height(Draw(grid, sprite, p)) == if Height(grid) > p.row + 1 then Height(grid) else p.row + 1
  {
    var h := if Height(grid) > p.row + 1 then Height(grid) else p.row + 1;
    DrawTop(grid, sprite, p);
    DrawLeavesAbove(grid, sprite, p, h);
    HeightUnique(Draw(grid, sprite, p), h);
  }

  /** After drawing, the higher of the old top row and the sprite's top row holds rock. */
  lemma DrawTop(grid: seq<string>, sprite: seq<string>, p: Position)
    requires Fits(grid, sprite, p.row, p.column) && p.row >= |sprite| - 1
    ensures var h := if Height(grid) > p.row + 1 then Height(grid) else p.row + 1;
      '#' in Draw(grid, sprite, p)[h - 1]
  {
    var r := Draw(grid, sprite, p);
    if Height(grid) > p.row + 1 {
      var k := Height(grid) - 1;
      assert r[k] == grid[k];
    } else {
      var line := sprite[0];
      var c :| 0 <= c < |line| && line[c] == '#';
      DrawCells(grid, sprite, p, p.row, p.column + c);
      assert r[p.row][p.column + c] == '#';
    }
  }

  /** Drawing leaves the rows above both the tower and the sprite empty. */
  lemma DrawLeavesAbove(grid: seq<string>, sprite: seq<string>, p: Position, h: nat)
    requires h >= Height(grid) && h > p.row
    ensures forall i :: h <= i < |Draw(grid, sprite, p)| ==> '#' !in Draw(grid, sprite, p)[i]
  {
    var r := Draw(grid, sprite, p);
    forall i | h <= i < |r|
      ensures '#' !in r[i]
    {
      assert r[i] == grid[i];
    }
  }

  /** The falling loop of `drop_shape`: a jet, then a step down unless the rock is at rest. Returns the resting place and the next jet. */
  function Settle(grid: seq<string>, jets: string, j: nat, sprite: seq<string>, p: Position): (r: (Position, nat))
    requires |jets| > 0 && j < |jets| && forall k :: 0 <= k < |jets| ==> IsJet(jets[k])
    requires Fits(grid, sprite, p.row, p.column)
    ensures r.1 < |jets| && r.0.row <= p.row
    ensures Fits(grid, sprite, r.0.row, r.0.column) && AtRest(grid, sprite, r.0)
    ensures Available(grid, sprite, p.row, p.column) ==> Available(grid, sprite, r.0.row, r.0.column)
    decreases p.row
  {
    var pushed := Jet(grid, jets[j], sprite, p);
    var next := (j + 1) % |jets|;
    if AtRest(grid, sprite, pushed) then (pushed, next)
    else Settle(grid, jets, next, sprite, Fall(grid, sprite, pushed))
  }

  /** A chamber and where the jet pattern and the shape cycle stand. */
  datatype State = State(grid: seq<string>, jet: nat, shape: nat)

  predicate ValidJets(jets: string)
  {
    |jets| > 0 && forall k :: 0 <= k < |jets| ==> IsJet(jets[k])
  }

  predicate ValidState(s: State, jets: string)
  {
    Walled(s.grid) && s.jet < |jets| && s.shape < |Shapes|
  }

  /**
   * `drop_shape` on the chamber: room is made above the tower, the rock settles, and
   * it is drawn where it rests. A rock never lowers the tower and raises it by at most
   * its own height. Returns the chamber and the next jet.
   */
  function Place(grid: seq<string>, shape: Shape, jets: string, j: nat): (r: (seq<string>, nat))
    requires ValidJets(jets) && j < |jets| && Walled(grid)
    ensures Walled(r.0) && r.1 < |jets|
    ensures Height(grid) <= Height(r.0) <= Height(grid) + shape.Height()
    ensures Height(r.0) <= Height(grid) + 4
  {
    var sprite := shape.Sprite();
    ShapeSizes(shape);
    var room := ExtendHeight(grid, 3 + shape.Height());
    ExtendHeightKeeps(grid, 3 + shape.Height());
    var start := InitialPosition(room, shape);
    SettleLands(room, jets, j, sprite, start);
    var (rest, next) := Settle(room, jets, j, sprite, start);
    DrawHeight(room, sprite, rest);
    (Draw(room, sprite, rest), next)
  }

  /** `drop_shape`, the shape taken in turn from the cycle. */
  function DropShape(s: State, jets: string): (r: State)
    requires ValidJets(jets) && ValidState(s, jets)
    ensures ValidState(r, jets)
    ensures r.shape == (s.shape + 1) % |Shapes|
    ensures Height(s.grid) <= Height(r.grid) <= Height(s.grid) + 4
  {
    var (grid, next) := Place(s.grid, Shapes[s.shape], jets, s.jet);
    State(grid, next, (s.shape + 1) % |Shapes|)
  }

  /** A rock let go above the tower comes to rest with its bottom row no higher than the tower's top. */
  lemma SettleLands(grid: seq<string>, jets: string, j: nat, sprite: seq<string>, p: Position)
    requires ValidJets(jets) && j < |jets|
    requires Fits(grid, sprite, p.row, p.column)
    requires p.row >= |sprite| - 1 && p.row - (|sprite| - 1) >= Height(grid)
    ensures var rest := Settle(grid, jets, j, sprite, p).0;
      Fits(grid, sprite, rest.row, rest.column)
      && rest.row >= |sprite| - 1 && rest.row - (|sprite| - 1) <= Height(grid)
  {
    AboveTowerAvailable(grid, sprite, p.row, p.column);
    var rest := Settle(grid, jets, j, sprite, p).0;
    if rest.row > |sprite| - 1 {
      AboveTowerAvailableWhen(grid, sprite, rest.row - 1, rest.column);
    }
  }

  /** Drops `n` rocks in turn: the tower never gets lower, and it grows by at most four rows per rock. */
  function Drop(s: State, jets: string, n: nat): (r: State)
    requires ValidJets(jets) && ValidState(s, jets)
    ensures ValidState(r, jets)
    ensures Height(s.grid) <= Height(r.grid) <= Height(s.grid) + 4 * n
    decreases n
  {
    if n == 0 then s else Drop(DropShape(s, jets), jets, n - 1)
  }

  /** `solve_part1`: the height after 2022 rocks in an empty chamber, at most four rows per rock. */
  function SolvePart1(jets: string): (r: nat)
    requires ValidJets(jets)
    ensures r == HeightAfter(State([], 0, 0), jets, 2022)
    ensures r <= 8088
  {
    assert Height([]) == 0;
    Height(Drop(State([], 0, 0), jets, 2022).grid)
  }

  /** The heights of the example in the `chamber_height` test. */
  lemma ExampleHeights()
    ensures Height([]) == 0
    ensures Height(["..####."]) == 1
    ensures Height(["..####.", "...#...", "..###..", "####...", "..#....", "..#...."]) == 6
  {
    assert '#' in "..####." by {
      assert "..####."[2] == '#';
    }
    var g := ["..####.", "...#...", "..###..", "####...", "..#....", "..#...."];
    assert '#' in g[5] by {
      assert g[5][2] == '#';
    }
  }

  /** `windows(n).enumerate().filter_map(..)` from index `i` on: where the pattern starts. */
  function MatchesFrom(grid: seq<string>, pattern: seq<string>, i: nat): (r: seq<nat>)
    requires |pattern| > 0
    ensures forall k :: 0 <= k < |r| ==> i <= r[k] && r[k] + |pattern| <= |grid| && grid[r[k]..r[k] + |pattern|] == pattern
    ensures forall k, m :: 0 <= k < m < |r| ==> r[k] < r[m]
    ensures forall w :: i <= w && w + |pattern| <= |grid| && grid[w..w + |pattern|] == pattern ==> w in r
    decreases |grid| - i
  {
    if i + |pattern| > |grid| then []
    else (if grid[i..i + |pattern|] == pattern then [i] else []) + MatchesFrom(grid, pattern, i + 1)
  }

  /** `matches`: in ascending order, every row where the pattern starts; `windows` rejects an empty pattern. */
  function Matches(grid: seq<string>, pattern: seq<string>): seq<nat>
    requires |pattern| > 0
  {
    MatchesFrom(grid, pattern, 0)
  }

  /** The gaps between consecutive matches. */
  function Gaps(m: seq<int>): (r: seq<int>)
    ensures |r| == if |m| < 2 then 0 else |m| - 1
    ensures forall k :: 0 <= k < |r| ==> r[k] == m[k + 1] - m[k]
  {
    if |m| < 2 then [] else [m[1] - m[0]] + Gaps(m[1..])
  }

  /** `unique`: the first occurrence of each value, in order. */
  function Unique(xs: seq<int>): (r: seq<int>)
    ensures forall x :: x in r <==> x in xs
    ensures forall k, m :: 0 <= k < m < |r| ==> r[k] != r[m]
  {
    if xs == [] then []
    else
      var u := Unique(xs[..|xs| - 1]);
      assert xs == xs[..|xs| - 1] + [xs[|xs| - 1]];
      if xs[|xs| - 1] in u then u else u + [xs[|xs| - 1]]
  }

  /** A sequence has a single distinct value exactly when it is non-empty and all of it equals its first element. */
  lemma UniqueSingle(xs: seq<int>)
    ensures |Unique(xs)| == 1 <==> xs != [] && forall k :: 0 <= k < |xs| ==> xs[k] == xs[0]
    ensures |Unique(xs)| == 1 ==> Unique(xs)[0] == xs[0]
  {
    var u := Unique(xs);
    if xs != [] && forall k :: 0 <= k < |xs| ==> xs[k] == xs[0] {
      assert xs[0] in u;
      forall k | 0 <= k < |u|
        ensures u[k] == xs[0]
      {
        assert u[k] in u;
      }
    }
    if |u| == 1 {
      forall k | 0 <= k < |xs|
        ensures xs[k] == u[0]
      {
        assert xs[k] in u;
      }
    }
  }

  /** `match_distance`: the gap between consecutive matches, when there is exactly one. */
  function MatchDistance(m: seq<int>): (r: Option<int>)
  {
    var distances := Unique(Gaps(m));
    match |distances|
    case 1 => Some(distances[0])
    case _ => None
  }

  /** There is a distance exactly when there are two matches or more, all the same distance apart. */
  lemma MatchDistanceEven(m: seq<int>)
    ensures MatchDistance(m).Some? <==> |m| >= 2 && forall k :: 0 <= k < |m| - 1 ==> m[k + 1] - m[k] == m[1] - m[0]
    ensures MatchDistance(m).Some? ==> MatchDistance(m).value == m[1] - m[0]
  {
    var g := Gaps(m);
    UniqueSingle(g);
    if |m| >= 2 && forall k :: 0 <= k < |m| - 1 ==> m[k + 1] - m[k] == m[1] - m[0] {
      forall k | 0 <= k < |g|
        ensures g[k] == g[0]
      {
        assert g[k] == m[k + 1] - m[k];
      }
    }
    if MatchDistance(m).Some? {
      forall k | 0 <= k < |m| - 1
        ensures m[k + 1] - m[k] == m[1] - m[0]
      {
        assert g[k] == g[0];
      }
    }
  }

  /** `cyclic_pattern`: where the pattern first appears and how far apart its appearances are. */
  function CyclicPattern(grid: seq<string>, pattern: seq<string>): (r: Option<(nat, int)>)
    requires |pattern| > 0
    ensures r.Some? ==> var m := Matches(grid, pattern);
      |m| >= 2 && r.value == (m[0], m[1] - m[0]) && r.value.1 > 0
      && forall k :: 0 <= k < |m| - 1 ==> m[k + 1] - m[k] == r.value.1
  {
    var m := Matches(grid, pattern);
    MatchDistanceEven(m);
    match MatchDistance(m)
    case Some(d) => Some((m[0], d))
    case None => None
  }

  /**
   * `identify_cyclic_pattern` from window `i` on: each 16-row window that repeats evenly
   * gives a candidate block of rows, from its first appearance and as long as the
   * distance; the first block that itself repeats evenly gives the answer.
   */
  function IdentifyFrom(grid: seq<string>, i: nat): (r: Option<(nat, nat)>)
    ensures r.Some? ==> r.value.1 > 0 && exists block: seq<string> | |block| > 0 :: CyclicPattern(grid, block) == Some((r.value.0, r.value.1 as int))
    decreases |grid| - i
  {
    if i + 16 > |grid| then None
    else
      match CyclicPattern(grid, grid[i..i + 16])
      case None => IdentifyFrom(grid, i + 1)
      case Some((init, size)) =>
        var m := Matches(grid, grid[i..i + 16]);
        assert init + size <= |grid| by {
          assert m[1] + 16 <= |grid|;
        }
        var block := grid[init..init + size];
        match CyclicPattern(grid, block)
        case Some((start, distance)) => assert CyclicPattern(grid, block) == Some((start, distance)); Some((start, distance))
        case None => IdentifyFrom(grid, i + 1)
  }

  /** `identify_cyclic_pattern` */
  function IdentifyCyclicPattern(grid: seq<string>): Option<(nat, nat)>
  {
    IdentifyFrom(grid, 0)
  }

  const SliceExample: seq<string> := [
    "..####.", "...#...", "..###..", "####...", "..#....", "..#....", "..####.", "...#...",
    "..###..", "####...", "..#....", "..#....", "..####.", "...#...", "..###..", "####...",
    "..#....", "..#...."]

  /** The first five rows of the example, the block `grid[0..5]` looked for. */
  const SlicePattern: seq<string> := ["..####.", "...#...", "..###..", "####...", "..#...."]

  /** A block cannot start at row `i` when that row differs from its first row at column `j`. */
  lemma NoMatchAt(grid: seq<string>, pattern: seq<string>, i: nat, j: nat)
    requires |pattern| > 0 && i + |pattern| <= |grid|
    requires j < |grid[i]| && j < |pattern[0]| && grid[i][j] != pattern[0][j]
    ensures MatchesFrom(grid, pattern, i) == MatchesFrom(grid, pattern, i + 1)
  {
    assert grid[i..i + |pattern|][0] == grid[i];
  }

  /** A block starts at row `i` when the rows from there spell it. */
  lemma MatchAt(grid: seq<string>, pattern: seq<string>, i: nat)
    requires |pattern| > 0 && i + |pattern| <= |grid| && grid[i..i + |pattern|] == pattern
    ensures MatchesFrom(grid, pattern, i) == [i] + MatchesFrom(grid, pattern, i + 1)
  {
  }

  /** Rows of the example that do not start the block. */
  lemma ExampleNoMatchAt(i: nat)
    requires 0 < i < 14 && i % 6 != 0
    ensures MatchesFrom(SliceExample, SlicePattern, i) == MatchesFrom(SliceExample, SlicePattern, i + 1)
  {
    var g, p := SliceExample, SlicePattern;
    if i == 1 || i == 7 || i == 13 {
      NoMatchAt(g, p, i, 2);
    } else if i == 2 || i == 8 {
      NoMatchAt(g, p, i, 5);
    } else if i == 3 || i == 9 {
      NoMatchAt(g, p, i, 0);
    } else {
      NoMatchAt(g, p, i, 3);
    }
  }

  /** Rows of the example that start the block. */
  lemma ExampleMatchAt(i: nat)
    requires i == 0 || i == 6 || i == 12
    ensures MatchesFrom(SliceExample, SlicePattern, i) == [i] + MatchesFrom(SliceExample, SlicePattern, i + 1)
  {
    var g, p := SliceExample, SlicePattern;
    assert g[i..i + 5] == p;
    MatchAt(g, p, i);
  }

  lemma ExampleMatchesLast()
    ensures MatchesFrom(SliceExample, SlicePattern, 7) == [12]
  {
    assert MatchesFrom(SliceExample, SlicePattern, 14) == [];
    ExampleNoMatchAt(13);
    ExampleMatchAt(12);
    ExampleNoMatchAt(11);
    ExampleNoMatchAt(10);
    ExampleNoMatchAt(9);
    ExampleNoMatchAt(8);
    ExampleNoMatchAt(7);
  }

  lemma ExampleMatchesMiddle()
    ensures MatchesFrom(SliceExample, SlicePattern, 1) == [6, 12]
  {
    ExampleMatchesLast();
    ExampleMatchAt(6);
    ExampleNoMatchAt(5);
    ExampleNoMatchAt(4);
    ExampleNoMatchAt(3);
    ExampleNoMatchAt(2);
    ExampleNoMatchAt(1);
  }

  /** The first block of the `test_slice_matching` example recurs every six rows. */
  lemma ExampleMatches()
    ensures Matches(SliceExample, SliceExample[0..5]) == [0, 6, 12]
  {
    ExampleMatchesMiddle();
    assert SliceExample[0..5] == SlicePattern;
    ExampleMatchAt(0);
  }

  /** The heights after each of the next `n` rocks: the `heights` vector of `solve_part2`. */
  function Heights(s: State, jets: string, n: nat): (r: seq<nat>)
    requires ValidJets(jets) && ValidState(s, jets)
    ensures |r| == n
    ensures forall k :: 0 <= k < n ==> r[k] == Tower(s, jets)(k + 1)
  {
    Record(Tower(s, jets), n)
  }

  /** The values of `f` at 1 to `n`. */
  function Record(f: nat -> nat, n: nat): (r: seq<nat>)
    ensures |r| == n
    ensures forall k :: 0 <= k < n ==> r[k] == f(k + 1)
  {
    seq(n, k requires 0 <= k < n => f(k + 1))
  }

  /** The tower's height after `n` rocks from state `s`. */
  function HeightAfter(s: State, jets: string, n: nat): nat
    requires ValidJets(jets) && ValidState(s, jets)
  {
    Height(Drop(s, jets, n).grid)
  }

  /** The tower's height as a function of the number of rocks dropped. */
  function Tower(s: State, jets: string): nat -> nat
    requires ValidJets(jets) && ValidState(s, jets)
  {
    (n: nat) => HeightAfter(s, jets, n)
  }

  /** The greatest rock number (counting from 1) whose recorded height satisfies `p`: `filter(..).map(rock).max()`. */
  function LastRock(p: nat -> bool, heights: seq<nat>): (r: Option<nat>)
    ensures r.None? <==> forall k :: 0 <= k < |heights| ==> !p(heights[k])
    ensures r.Some? ==> (1 <= r.value <= |heights| && p(heights[r.value - 1])
      && forall k :: r.value <= k < |heights| ==> !p(heights[k]))
  {
    if heights == [] then None
    else if p(heights[|heights| - 1]) then Some(|heights|)
    else LastRock(p, heights[..|heights| - 1])
  }

  /** The rocks after which the tower is at most `init` high end with this one. */
  function InitSteps(heights: seq<nat>, initHeight: nat): Option<nat>
  {
    LastRock(h => h <= initHeight, heights)
  }

  /** The last rock after which the tower is exactly one repeated block above that. */
  function PatternEnd(heights: seq<nat>, initHeight: nat, patternHeight: nat): Option<nat>
  {
    LastRock(h => h == initHeight + patternHeight, heights)
  }

  /**
   * The arithmetic of `solve_part2`'s extrapolation: whole repetitions of the block
   * up to `target` rocks, and the height the remaining rocks add, looked up in the
   * recorded heights. `None` where the source subtracts below zero, divides by zero or
   * finds no recorded height.
   */
  function Project(heights: seq<nat>, initSteps: nat, last: nat, initHeight: nat, patternHeight: nat, target: nat): Option<nat>
  {
    if last <= initSteps || target < initSteps then None
    else
      var patternSteps: nat := last - initSteps;
      var cycleSpace: nat := target - initSteps;
      var position := initSteps + cycleSpace % patternSteps;
      if position < 1 || position > |heights| || heights[position - 1] < initHeight then None
      else Some((cycleSpace / patternSteps) * patternHeight + initHeight + (heights[position - 1] - initHeight))
  }

  /** `solve_part2` after the heights are recorded: the rocks before the repeating stretch, the rocks of one repetition, and the projection. */
  function Extrapolate(heights: seq<nat>, initHeight: nat, patternHeight: nat, target: nat): Option<nat>
  {
    match (InitSteps(heights, initHeight), PatternEnd(heights, initHeight, patternHeight))
    case (Some(initSteps), Some(last)) => Project(heights, initSteps, last, initHeight, patternHeight, target)
    case _ => None
  }

  /** Once the tower repeats, `c` more repetitions add `c` blocks. */
  lemma {:induction false} RepeatsAdd(tower: nat -> nat, start: nat, steps: nat, rise: nat, from: nat, c: nat)
    requires steps > 0 && from >= start
    requires forall n: nat :: start + steps <= n ==> tower(n) == tower(n - steps) + rise
    ensures tower(from + c * steps) == tower(from) + c * rise
  {
    if c > 0 {
      RepeatsAdd(tower, start, steps, rise, from, c - 1);
      var m := from + (c - 1) * steps;
      OneMore(c, steps);
      OneMore(c, rise);
      assert tower(m + steps) == tower(m) + rise;
    }
  }

  lemma OneMore(c: nat, k: nat)
    requires c > 0
    ensures c * k == (c - 1) * k + k
  {
  }

  lemma DivideSteps(space: nat, steps: nat)
    requires steps > 0
    ensures space == space % steps + (space / steps) * steps
  {
  }

  /**
   * When the recorded heights are those of a tower that, from rock `initSteps` on,
   * rises by the block height every repetition, the projected height is the tower's
   * height after `target` rocks.
   */
  lemma ProjectSound(heights: seq<nat>, initSteps: nat, last: nat, initHeight: nat, patternHeight: nat, target: nat, tower: nat -> nat)
    requires forall k :: 0 <= k < |heights| ==> heights[k] == tower(k + 1)
    requires Project(heights, initSteps, last, initHeight, patternHeight, target).Some?
    requires forall n: nat :: initSteps + (last - initSteps) <= n ==> tower(n) == tower(n - (last - initSteps)) + patternHeight
    ensures Project(heights, initSteps, last, initHeight, patternHeight, target).value == tower(target)
  {
    var steps: nat := last - initSteps;
    var space: nat := target - initSteps;
    var cycles, extra := space / steps, space % steps;
    DivideSteps(space, steps);
    RepeatsAdd(tower, initSteps, steps, patternHeight, initSteps + extra, cycles);
    assert target == initSteps + extra + cycles * steps;
  }

  /** The extrapolation is right for any tower that repeats from the rock it starts at. */
  lemma ExtrapolateSound(heights: seq<nat>, initHeight: nat, patternHeight: nat, target: nat, tower: nat -> nat)
    requires forall k :: 0 <= k < |heights| ==> heights[k] == tower(k + 1)
    requires Extrapolate(heights, initHeight, patternHeight, target).Some?
    requires var s0 := InitSteps(heights, initHeight).value;
      var steps := PatternEnd(heights, initHeight, patternHeight).value - s0;
      forall n: nat :: s0 + steps <= n ==> tower(n) == tower(n - steps) + patternHeight
    ensures Extrapolate(heights, initHeight, patternHeight, target).value == tower(target)
  {
    ProjectSound(heights, InitSteps(heights, initHeight).value, PatternEnd(heights, initHeight, patternHeight).value, initHeight, patternHeight, target, tower);
  }

  /** The tower grows by `rise` rows every `last - first` rocks once `first` rocks have fallen. */
  ghost predicate RepeatsFrom(jets: string, first: nat, last: nat, rise: nat)
    requires ValidJets(jets)
  {
    first < last
    && forall n: nat :: last <= n ==> Tower(State([], 0, 0), jets)(n) == Tower(State([], 0, 0), jets)(n - (last - first)) + rise
  }

  /** With the block found in the recorded heights, the projection is the true height once the tower repeats with that block. */
  lemma ExtrapolateTower(jets: string, initHeight: nat, patternHeight: nat, target: nat)
    requires ValidJets(jets)
    ensures var heights := Heights(State([], 0, 0), jets, |jets| * 3);
      Extrapolate(heights, initHeight, patternHeight, target).Some? ==>
        InitSteps(heights, initHeight).Some? && PatternEnd(heights, initHeight, patternHeight).Some?
    ensures var heights := Heights(State([], 0, 0), jets, |jets| * 3);
      var r := Extrapolate(heights, initHeight, patternHeight, target);
      (r.Some? && RepeatsFrom(jets, InitSteps(heights, initHeight).value, PatternEnd(heights, initHeight, patternHeight).value, patternHeight))
        ==> r.value == HeightAfter(State([], 0, 0), jets, target)
  {
    var heights := Heights(State([], 0, 0), jets, |jets| * 3);
    var r := Extrapolate(heights, initHeight, patternHeight, target);
    if r.Some? {
      var s0 := InitSteps(heights, initHeight).value;
      var last := PatternEnd(heights, initHeight, patternHeight).value;
      if RepeatsFrom(jets, s0, last, patternHeight) {
        TowerRepeats(jets, heights, initHeight, patternHeight, target, s0, last);
      }
    }
  }

  /** The recorded heights are the tower's, so a repeating tower meets the extrapolation's requirement. */
  lemma TowerRepeats(jets: string, heights: seq<nat>, initHeight: nat, patternHeight: nat, target: nat, s0: nat, last: nat)
    requires ValidJets(jets)
    requires forall k :: 0 <= k < |heights| ==> heights[k] == Tower(State([], 0, 0), jets)(k + 1)
    requires Extrapolate(heights, initHeight, patternHeight, target).Some?
    requires InitSteps(heights, initHeight) == Some(s0) && PatternEnd(heights, initHeight, patternHeight) == Some(last)
    requires RepeatsFrom(jets, s0, last, patternHeight)
    ensures Extrapolate(heights, initHeight, patternHeight, target).value == HeightAfter(State([], 0, 0), jets, target)
  {
    var start := State([], 0, 0);
    var steps := last - s0;
    var tower := Tower(start, jets);
    ExtrapolateSound(heights, initHeight, patternHeight, target, tower);
  }

  /**
   * `solve_part2`: heights of three rocks per jet recorded, the repeating block found, and
   * the height after a trillion rocks extrapolated. When the tower does repeat with the
   * block found, the answer is the true height after a trillion rocks.
   */
  function SolvePart2(jets: string): (r: Option<nat>)
    requires ValidJets(jets)
    ensures var heights := Heights(State([], 0, 0), jets, |jets| * 3);
      r.Some? ==> exists initHeight: nat, patternHeight: nat ::
        IdentifyCyclicPattern(Drop(State([], 0, 0), jets, |jets| * 3).grid) == Some((initHeight, patternHeight))
        && InitSteps(heights, initHeight).Some? && PatternEnd(heights, initHeight, patternHeight).Some?
        && (RepeatsFrom(jets, InitSteps(heights, initHeight).value, PatternEnd(heights, initHeight, patternHeight).value, patternHeight)
          ==> r.value == HeightAfter(State([], 0, 0), jets, Trillion))
  {
    var start := State([], 0, 0);
    var rocks := |jets| * 3;
    var heights := Heights(start, jets, rocks);
    match IdentifyCyclicPattern(Drop(start, jets, rocks).grid)
    case None => None
    case Some((initHeight, patternHeight)) =>
      ExtrapolateTower(jets, initHeight, patternHeight, Trillion);
      Extrapolate(heights, initHeight, patternHeight, Trillion)
  }

  const Trillion: nat := 1_000_000_000_000
}
