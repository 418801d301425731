/**
 * Day 22: walking a path on the monkeys' board. Part 1 wraps around the flat board, skipping
 * the blank cells; part 2 folds the board into a cube whose faces are glued by a table of
 * edges, and walking off a face continues on the glued face, turned as the table says.
 */
module Day22 {
  import opened Wrappers
  import opened Arith

  datatype Direction = Up | Down | Left | Right

  /** The turns of the path: `R` clockwise and `L` counter-clockwise. */
  datatype Rotation = TurnRight | TurnLeft

  /** Facing value: right 0, down 1, left 2, up 3. */
  function Value(d: Direction): (v: nat)
    ensures v < 4
  {
    match d
    case Right => 0
    case Down => 1
    case Left => 2
    case Up => 3
  }

  /** The facing value tells the direction apart. */
  lemma ValueInjective(d: Direction, e: Direction)
    ensures Value(d) == Value(e) <==> d == e
  {
  }

  /** `Direction::rotate`: a quarter turn clockwise (`R`) or counter-clockwise (`L`). */
  function Rotate(d: Direction, r: Rotation): Direction
  {
    match r
    case TurnRight =>
      (match d
       case Up => Right
       case Right => Down
       case Down => Left
       case Left => Up)
    case TurnLeft =>
      (match d
       case Up => Left
       case Left => Down
       case Down => Right
       case Right => Up)
  }

  /** In facing values a clockwise turn adds one and a counter-clockwise turn takes one off, round four. */
  lemma RotateValue(d: Direction)
    ensures Value(Rotate(d, TurnRight)) == (Value(d) + 1) % 4
    ensures Value(Rotate(d, TurnLeft)) == (Value(d) + 3) % 4
  {
  }

  /** A turn one way undoes a turn the other way, and four turns the same way come back round. */
  lemma RotateInverse(d: Direction, r: Rotation)
    ensures Rotate(Rotate(d, TurnRight), TurnLeft) == d
    ensures Rotate(Rotate(d, TurnLeft), TurnRight) == d
    ensures Rotate(Rotate(Rotate(Rotate(d, r), r), r), r) == d
  {
  }

  /** The `facing_value` case. */
  lemma ExampleFacingValues()
    ensures Value(Right) == 0 && Value(Down) == 1 && Value(Left) == 2 && Value(Up) == 3
  {
  }

  // The flat board

  datatype Position = Position(facing: Direction, row: nat, column: nat)

  /** `Position::rotate`: only the facing changes. */
  function RotatePosition(p: Position, r: Rotation): (q: Position)
    ensures q.row == p.row && q.column == p.column && q.facing == Rotate(p.facing, r)
  {
    p.(facing := Rotate(p.facing, r))
  }

  /** `Position::password`: 1000 times the row plus four times the column, counted from 1, plus the facing. */
  function Password(p: Position): nat
  {
    1000 * (p.row + 1) + 4 * (p.column + 1) + Value(p.facing)
  }

  /** On boards narrower than 249 columns the password gives back the row, the column and the facing. */
  lemma PasswordDecode(p: Position)
    requires p.column < 249
    ensures Password(p) / 1000 == p.row + 1
    ensures (Password(p) % 1000) / 4 == p.column + 1
    ensures Password(p) % 4 == Value(p.facing)
  {
    var low := 4 * (p.column + 1) + Value(p.facing);
    DivModUnique(Password(p), 1000, p.row + 1, low);
    DivModUnique(low, 4, p.column + 1, Value(p.facing));
    DivModUnique(Password(p), 4, 250 * (p.row + 1) + p.column + 1, Value(p.facing));
  }

  /** Two positions with the same password on such boards are the same position. */
  lemma PasswordInjective(p: Position, q: Position)
    requires p.column < 249 && q.column < 249 && Password(p) == Password(q)
    ensures p == q
  {
    PasswordDecode(p);
    PasswordDecode(q);
    ValueInjective(p.facing, q.facing);
  }

  /** The `test_final_password` case. */
  lemma ExamplePassword()
    ensures Password(Position(Right, 5, 7)) == 6032
  {
  }

  predicate IsTileChar(c: char)
  {
    c == ' ' || c == '.' || c == '#'
  }

  /** The board: rows padded with blanks to the widest line. */
  datatype Board = Board(tiles: seq<seq<char>>, width: nat, height: nat)

  /** A board as the input gives one: at least one row, every row `width` long, only tile characters. */
  predicate ValidBoard(b: Board)
  {
    b.height == |b.tiles| >= 1 && b.width >= 1 &&
    forall r | 0 <= r < |b.tiles| ::
      |b.tiles[r]| == b.width && forall c | 0 <= c < b.width :: IsTileChar(b.tiles[r][c])
  }

  predicate InBounds(b: Board, p: Position)
  {
    p.row < b.height && p.column < b.width
  }

  function MaxLength(lines: seq<seq<char>>): (m: nat)
    requires |lines| >= 1
    ensures forall i | 0 <= i < |lines| :: |lines[i]| <= m
    ensures exists i | 0 <= i < |lines| :: |lines[i]| == m
  {
    if |lines| == 1 then |lines[0]|
    else
      var rest := MaxLength(lines[1..]);
      assert forall i | 1 <= i < |lines| :: lines[i] == lines[1..][i - 1];
      if |lines[0]| >= rest then |lines[0]| else rest
  }

  function Blanks(n: nat): (s: seq<char>)
    ensures |s| == n && forall i | 0 <= i < n :: s[i] == ' '
  {
    if n == 0 then [] else [' '] + Blanks(n - 1)
  }

  /** `Board::from`: every line padded with blanks to the widest one. */
  function BoardFrom(lines: seq<seq<char>>): (b: Board)
    requires |lines| >= 1
    ensures b.height == |lines| == |b.tiles| && b.width == MaxLength(lines)
    ensures forall i | 0 <= i < |lines| ::
      |b.tiles[i]| == b.width && b.tiles[i][..|lines[i]|] == lines[i] &&
      forall c | |lines[i]| <= c < b.width :: b.tiles[i][c] == ' '
  {
    var width := MaxLength(lines);
    Board(seq(|lines|, i requires 0 <= i < |lines| => lines[i] + Blanks(width - |lines[i]|)), width, |lines|)
  }

  /** Lines of tile characters, the first of them not empty, make a valid board. */
  lemma BoardFromValid(lines: seq<seq<char>>)
    requires |lines| >= 1 && |lines[0]| >= 1
    requires forall i | 0 <= i < |lines| :: forall c | 0 <= c < |lines[i]| :: IsTileChar(lines[i][c])
    ensures ValidBoard(BoardFrom(lines))
  {
    var b := BoardFrom(lines);
    forall r | 0 <= r < |b.tiles|
      ensures forall c | 0 <= c < b.width :: IsTileChar(b.tiles[r][c])
    {
      forall c | 0 <= c < b.width
        ensures IsTileChar(b.tiles[r][c])
      {
        if c < |lines[r]| {
          assert b.tiles[r][c] == b.tiles[r][..|lines[r]|][c];
        }
      }
    }
  }

  /** `next_right`: one column right, wrapping to the first column. */
  function NextRight(b: Board, p: Position): (q: Position)
    requires b.width > 0
    ensures q.row == p.row && q.facing == p.facing && q.column < b.width
    ensures p.column + 1 < b.width ==> q.column == p.column + 1
    ensures p.column + 1 == b.width ==> q.column == 0
  {
    p.(column := (p.column + 1) % b.width)
  }

  /** `next_left`: one column left, wrapping to the last column. */
  function NextLeft(b: Board, p: Position): (q: Position)
    requires b.width > 0
    ensures q.row == p.row && q.facing == p.facing
    ensures p.column < b.width ==> q.column < b.width
    ensures p.column > 0 ==> q.column + 1 == p.column
    ensures p.column == 0 ==> q.column + 1 == b.width
  {
    if p.column == 0 then p.(column := b.width - 1) else p.(column := p.column - 1)
  }

  /** `next_down`: one row down, wrapping to the first row. */
  function NextDown(b: Board, p: Position): (q: Position)
    requires b.height > 0
    ensures q.column == p.column && q.facing == p.facing && q.row < b.height
    ensures p.row + 1 < b.height ==> q.row == p.row + 1
    ensures p.row + 1 == b.height ==> q.row == 0
  {
    p.(row := (p.row + 1) % b.height)
  }

  /** `next_up`: one row up, wrapping to the last row. */
  function NextUp(b: Board, p: Position): (q: Position)
    requires b.height > 0
    ensures q.column == p.column && q.facing == p.facing
    ensures p.row < b.height ==> q.row < b.height
    ensures p.row > 0 ==> q.row + 1 == p.row
    ensures p.row == 0 ==> q.row + 1 == b.height
  {
    if p.row == 0 then p.(row := b.height - 1) else p.(row := p.row - 1)
  }

  /** Right and left, and down and up, undo each other on the board. */
  lemma NextInverse(b: Board, p: Position)
    requires b.width > 0 && b.height > 0 && InBounds(b, p)
    ensures NextLeft(b, NextRight(b, p)) == p && NextRight(b, NextLeft(b, p)) == p
    ensures NextUp(b, NextDown(b, p)) == p && NextDown(b, NextUp(b, p)) == p
  {
  }

  /** `next_step`: one cell in the facing direction. */
  function NextStep(b: Board, p: Position): (q: Position)
    requires ValidBoard(b) && InBounds(b, p)
    ensures InBounds(b, q) && q.facing == p.facing
  {
    match p.facing
    case Up => NextUp(b, p)
    case Down => NextDown(b, p)
    case Left => NextLeft(b, p)
    case Right => NextRight(b, p)
  }

  datatype Tile = Wall | Open | Closed

  /** `Tile::try_from`: a wall, an open tile, or a blank outside the map. */
  function TileOf(c: char): (t: Option<Tile>)
    ensures t.Some? <==> IsTileChar(c)
    ensures t == Some(Wall) <==> c == '#'
    ensures t == Some(Open) <==> c == '.'
  {
    match c
    case '#' => Some(Wall)
    case '.' => Some(Open)
    case ' ' => Some(Closed)
    case _ => None
  }

  /** `Board::tile` */
  function TileAt(b: Board, p: Position): (t: Tile)
    requires ValidBoard(b) && InBounds(b, p)
    ensures t == Open <==> b.tiles[p.row][p.column] == '.'
    ensures t == Wall <==> b.tiles[p.row][p.column] == '#'
  {
    TileOf(b.tiles[p.row][p.column]).value
  }

  /**
   * `Position::next`, with the walk past blanks cut off after `budget` cells: the open tile
   * reached, or none when a wall comes first.
   */
  function Scan(b: Board, p: Position, budget: nat): (r: Option<Position>)
    requires ValidBoard(b) && InBounds(b, p)
    ensures r.Some? ==> InBounds(b, r.value) && r.value.facing == p.facing && TileAt(b, r.value) == Open
    ensures r.Some? && (p.facing == Left || p.facing == Right) ==> r.value.row == p.row
    ensures r.Some? && (p.facing == Up || p.facing == Down) ==> r.value.column == p.column
    decreases budget
  {
    if budget == 0 then None
    else
      var next := NextStep(b, p);
      match TileAt(b, next)
      case Open => Some(next)
      case Wall => None
      case Closed => Scan(b, next, budget - 1)
  }

  /** The cells in one lap of the line `p` moves along. */
  function Lap(b: Board, d: Direction): nat
  {
    if d == Up || d == Down then b.height else b.width
  }

  /** `Position::next`: the next open tile ahead, skipping blanks, unless a wall comes first. */
  function Next(b: Board, p: Position): Option<Position>
    requires ValidBoard(b) && InBounds(b, p)
  {
    Scan(b, p, Lap(b, p.facing))
  }

  /** `Position::steps`: up to `n` moves, stopping in front of a wall. */
  function Steps(b: Board, p: Position, n: nat): (r: Position)
    requires ValidBoard(b) && InBounds(b, p)
    ensures InBounds(b, r) && r.facing == p.facing
    ensures n == 0 ==> r == p
    ensures r != p ==> TileAt(b, r) == Open
    ensures TileAt(b, p) == Open ==> TileAt(b, r) == Open
    decreases n
  {
    if n == 0 then p
    else
      match Next(b, p)
      case None => p
      case Some(q) => Steps(b, q, n - 1)
  }

  /** Walking `m` and then `n` steps is walking `m + n`: a wall that stops the first walk stops the second too. */
  lemma {:induction false} StepsAdd(b: Board, p: Position, m: nat, n: nat)
    requires ValidBoard(b) && InBounds(b, p)
    ensures Steps(b, Steps(b, p, m), n) == Steps(b, p, m + n)
    decreases m
  {
    if m == 0 {
      SameSteps(b, p, m + n, n);
    } else if Next(b, p).None? {
      StepsStuck(b, p, m);
      StepsStuck(b, p, m + n);
      StepsStuck(b, p, n);
    } else {
      var q := Next(b, p).value;
      StepsAdd(b, q, m - 1, n);
      StepsAddMove(b, p, q, m, n);
    }
  }

  /** The inductive step of `StepsAdd`: after one move, the rest of the walk adds up. */
  lemma StepsAddMove(b: Board, p: Position, q: Position, m: nat, n: nat)
    requires ValidBoard(b) && InBounds(b, p) && m >= 1 && Next(b, p) == Some(q)
    requires InBounds(b, q) && Steps(b, Steps(b, q, m - 1), n) == Steps(b, q, (m - 1) + n)
    ensures Steps(b, Steps(b, p, m), n) == Steps(b, p, m + n)
  {
    StepsUnfold(b, p, q, m, m - 1);
    StepsUnfold(b, p, q, m + n, (m - 1) + n);
  }

  lemma SameSteps(b: Board, p: Position, k: nat, k': nat)
    requires ValidBoard(b) && InBounds(b, p) && k == k'
    ensures Steps(b, p, k) == Steps(b, p, k')
  {
  }

  /** Facing a wall, any number of steps stays put. */
  lemma StepsStuck(b: Board, p: Position, k: nat)
    requires ValidBoard(b) && InBounds(b, p) && Next(b, p).None?
    ensures Steps(b, p, k) == p
  {
  }

  /** A walk of `k + 1` steps that can move is one move and then `k` steps. */
  lemma StepsUnfold(b: Board, p: Position, q: Position, k: nat, k1: nat)
    requires ValidBoard(b) && InBounds(b, p) && k == k1 + 1 && Next(b, p) == Some(q)
    ensures InBounds(b, q) && Steps(b, p, k) == Steps(b, q, k1)
  {
  }

  datatype Instruction = Turn(rotation: Rotation) | Forward(steps: nat)

  /** `Board::execute_instruction` */
  function Execute(b: Board, p: Position, i: Instruction): (q: Position)
    requires ValidBoard(b) && InBounds(b, p)
    ensures InBounds(b, q)
    ensures i.Turn? ==> q == RotatePosition(p, i.rotation)
    ensures i.Forward? ==> q.facing == p.facing
  {
    match i
    case Turn(r) => RotatePosition(p, r)
    case Forward(n) => Steps(b, p, n)
  }

  /** The instructions folded over the position. */
  function Run(b: Board, p: Position, instructions: seq<Instruction>): (q: Position)
    requires ValidBoard(b) && InBounds(b, p)
    ensures InBounds(b, q)
    ensures TileAt(b, p) == Open ==> TileAt(b, q) == Open
    decreases |instructions|
  {
    if instructions == [] then p
    else Run(b, Execute(b, p, instructions[0]), instructions[1..])
  }

  /** Running two lists of instructions one after the other is running their concatenation. */
  lemma {:induction false} RunAppend(b: Board, p: Position, xs: seq<Instruction>, ys: seq<Instruction>)
    requires ValidBoard(b) && InBounds(b, p)
    ensures Run(b, Run(b, p, xs), ys) == Run(b, p, xs + ys)
    decreases |xs|
  {
    if xs == [] {
      assert xs + ys == ys;
    } else {
      var q := Execute(b, p, xs[0]);
      RunAppend(b, q, xs[1..], ys);
      assert (xs + ys)[0] == xs[0] && (xs + ys)[1..] == xs[1..] + ys;
      assert Run(b, p, xs + ys) == Run(b, q, xs[1..] + ys);
    }
  }

  /** The first open tile of a row. */
  function FirstOpen(row: seq<char>): (c: nat)
    requires '.' in row
    ensures c < |row| && row[c] == '.' && '.' !in row[..c]
  {
    if row[0] == '.' then 0
    else
      assert row == [row[0]] + row[1..];
      1 + FirstOpen(row[1..])
  }

  /** `Board::initial_position`: facing right on the leftmost open tile of the top row. */
  function Initial(b: Board): (p: Position)
    requires ValidBoard(b) && '.' in b.tiles[0]
    ensures InBounds(b, p) && p.row == 0 && p.facing == Right && TileAt(b, p) == Open
    ensures forall c | 0 <= c < p.column :: b.tiles[0][c] != '.'
  {
    var c := FirstOpen(b.tiles[0]);
    assert forall k | 0 <= k < c :: b.tiles[0][k] == b.tiles[0][..c][k];
    DivModUnique(c, b.width, 0, c);
    Position(Right, 0, c % b.width)
  }

  /** `solve_part1`: the password where the path ends. */
  function SolvePart1(b: Board, instructions: seq<Instruction>): (r: nat)
    requires ValidBoard(b) && '.' in b.tiles[0]
    ensures exists q: Position :: InBounds(b, q) && b.tiles[q.row][q.column] == '.' && r == Password(q)
    ensures forall k | 0 <= k <= |instructions| :: r == Password(Run(b, Run(b, Initial(b), instructions[..k]), instructions[k..]))
  {
    var q := Run(b, Initial(b), instructions);
    ResumeRun(b, Initial(b), instructions);
    Password(q)
  }

  /** The path may be stopped after any instruction and resumed from where it stands. */
  lemma ResumeRun(b: Board, p: Position, instructions: seq<Instruction>)
    requires ValidBoard(b) && InBounds(b, p)
    ensures forall k | 0 <= k <= |instructions| :: Run(b, Run(b, p, instructions[..k]), instructions[k..]) == Run(b, p, instructions)
  {
    forall k | 0 <= k <= |instructions|
      ensures Run(b, Run(b, p, instructions[..k]), instructions[k..]) == Run(b, p, instructions)
    {
      var xs, ys := instructions[..k], instructions[k..];
      assert xs + ys == instructions;
      RunAppend(b, p, xs, ys);
    }
  }

  // The cube

  /** How a face is turned relative to the face across an edge. */
  datatype FaceRotation = CW | CCW | One80 | Same

  /** For each side of a face, the face glued there and its turn. */
  datatype FaceEdgeMapping = FaceEdgeMapping(north: (nat, FaceRotation), east: (nat, FaceRotation),
                                             south: (nat, FaceRotation), west: (nat, FaceRotation))

  /** `FaceEdgeMapping::next` */
  function NextEdge(m: FaceEdgeMapping, d: Direction): (nat, FaceRotation)
  {
    match d
    case Up => m.north
    case Down => m.south
    case Left => m.west
    case Right => m.east
  }

  datatype CubePosition = CubePosition(face: nat, row: nat, column: nat, facing: Direction)

  /** `CubePosition::rotate`: only the facing changes. */
  function RotateCube(p: CubePosition, r: Rotation): (q: CubePosition)
    ensures q.face == p.face && q.row == p.row && q.column == p.column && q.facing == Rotate(p.facing, r)
  {
    p.(facing := Rotate(p.facing, r))
  }

  function Opposite(d: Direction): Direction
  {
    match d
    case Up => Down
    case Down => Up
    case Left => Right
    case Right => Left
  }

  /** The turn that undoes a turn. */
  function Inverse(r: FaceRotation): FaceRotation
  {
    match r
    case CW => CCW
    case CCW => CW
    case One80 => One80
    case Same => Same
  }

  /** The facing after crossing an edge leaving in direction `d` onto a face turned by `r`. */
  function Turned(d: Direction, r: FaceRotation): Direction
  {
    match r
    case Same => d
    case CCW => Rotate(d, TurnRight)
    case CW => Rotate(d, TurnLeft)
    case One80 => Opposite(d)
  }

  /** The position is on the side of its face it is facing. */
  predicate OnExitEdge(row: nat, column: nat, d: Direction, max: nat)
  {
    match d
    case Up => row == 0
    case Down => row == max
    case Left => column == 0
    case Right => column == max
  }

  /** The position is on the side of its face it came in by, looking inwards. */
  predicate OnEntryEdge(row: nat, column: nat, d: Direction, max: nat)
  {
    OnExitEdge(row, column, Opposite(d), max)
  }

  /** The coordinate counted from the other end of a side running from 0 to `max`. */
  function Mirror(x: nat, max: nat): (m: nat)
    requires x <= max
    ensures m + x == max
  {
    max - x
  }

  /**
   * `CubePosition::map_around_edge`: the row, column and facing on the glued face, whose
   * sides run from 0 to `max`.
   */
  function MapAroundEdge(p: CubePosition, rotation: FaceRotation, max: nat): (r: (nat, nat, Direction))
    requires p.row <= max && p.column <= max
    ensures r.0 <= max && r.1 <= max
    ensures r.2 == Turned(p.facing, rotation)
  {
    match p.facing
    case Up =>
      (match rotation
       case Same => (max, p.column, Up)
       case CCW => (p.column, 0, Right)
       case CW => (Mirror(p.column, max), max, Left)
       case One80 => (0, Mirror(p.column, max), Down))
    case Down =>
      (match rotation
       case Same => (0, p.column, Down)
       case CCW => (p.column, max, Left)
       case CW => (Mirror(p.column, max), 0, Right)
       case One80 => (max, Mirror(p.column, max), Up))
    case Right =>
      (match rotation
       case Same => (p.row, 0, Right)
       case CCW => (0, Mirror(p.row, max), Down)
       case CW => (max, p.row, Up)
       case One80 => (Mirror(p.row, max), max, Left))
    case Left =>
      (match rotation
       case Same => (p.row, max, Left)
       case CCW => (max, Mirror(p.row, max), Up)
       case CW => (0, p.row, Down)
       case One80 => (Mirror(p.row, max), 0, Right))
  }

  /** The crossing lands on the side of the glued face it came in by. */
  lemma MapAroundEdgeEntry(p: CubePosition, rotation: FaceRotation, max: nat)
    requires p.row <= max && p.column <= max
    ensures var (row, column, facing) := MapAroundEdge(p, rotation, max);
      OnEntryEdge(row, column, facing, max)
  {
  }

  /**
   * Crossing an edge and coming straight back over it, with the inverse turn, returns to the
   * cell the crossing started from, facing the other way.
   */
  lemma EdgeRoundTrip(p: CubePosition, rotation: FaceRotation, max: nat, back: nat)
    requires p.row <= max && p.column <= max && OnExitEdge(p.row, p.column, p.facing, max)
    ensures var (row, column, facing) := MapAroundEdge(p, rotation, max);
      MapAroundEdge(CubePosition(back, row, column, Opposite(facing)), Inverse(rotation), max)
        == (p.row, p.column, Opposite(p.facing))
  {
  }

  /** The `test_next_face` table on a face of side 4, leaving upwards. */
  lemma ExampleLeaveUp()
    ensures MapAroundEdge(CubePosition(1, 0, 0, Up), Same, 3) == (3, 0, Up)
    ensures MapAroundEdge(CubePosition(1, 0, 3, Up), Same, 3) == (3, 3, Up)
    ensures MapAroundEdge(CubePosition(1, 0, 0, Up), CCW, 3) == (0, 0, Right)
    ensures MapAroundEdge(CubePosition(1, 0, 3, Up), CCW, 3) == (3, 0, Right)
    ensures MapAroundEdge(CubePosition(1, 0, 0, Up), CW, 3) == (3, 3, Left)
    ensures MapAroundEdge(CubePosition(1, 0, 3, Up), CW, 3) == (0, 3, Left)
    ensures MapAroundEdge(CubePosition(1, 0, 0, Up), One80, 3) == (0, 3, Down)
    ensures MapAroundEdge(CubePosition(1, 0, 3, Up), One80, 3) == (0, 0, Down)
  {
  }

  /** The `test_next_face` table leaving downwards. */
  lemma ExampleLeaveDown()
    ensures MapAroundEdge(CubePosition(1, 3, 0, Down), Same, 3) == (0, 0, Down)
    ensures MapAroundEdge(CubePosition(1, 3, 3, Down), Same, 3) == (0, 3, Down)
    ensures MapAroundEdge(CubePosition(1, 3, 0, Down), CCW, 3) == (0, 3, Left)
    ensures MapAroundEdge(CubePosition(1, 3, 3, Down), CCW, 3) == (3, 3, Left)
    ensures MapAroundEdge(CubePosition(1, 3, 0, Down), CW, 3) == (3, 0, Right)
    ensures MapAroundEdge(CubePosition(1, 3, 3, Down), CW, 3) == (0, 0, Right)
    ensures MapAroundEdge(CubePosition(1, 3, 0, Down), One80, 3) == (3, 3, Up)
    ensures MapAroundEdge(CubePosition(1, 3, 3, Down), One80, 3) == (3, 0, Up)
  {
  }

  /** The `test_next_face` table leaving rightwards. */
  lemma ExampleLeaveRight()
    ensures MapAroundEdge(CubePosition(1, 0, 3, Right), Same, 3) == (0, 0, Right)
    ensures MapAroundEdge(CubePosition(1, 3, 3, Right), Same, 3) == (3, 0, Right)
    ensures MapAroundEdge(CubePosition(1, 0, 3, Right), CCW, 3) == (0, 3, Down)
    ensures MapAroundEdge(CubePosition(1, 3, 3, Right), CCW, 3) == (0, 0, Down)
    ensures MapAroundEdge(CubePosition(1, 0, 3, Right), CW, 3) == (3, 0, Up)
    ensures MapAroundEdge(CubePosition(1, 3, 3, Right), CW, 3) == (3, 3, Up)
    ensures MapAroundEdge(CubePosition(1, 0, 3, Right), One80, 3) == (3, 3, Left)
    ensures MapAroundEdge(CubePosition(1, 3, 3, Right), One80, 3) == (0, 3, Left)
  {
  }

  /** The `test_next_face` table leaving leftwards. */
  lemma ExampleLeaveLeft()
    ensures MapAroundEdge(CubePosition(1, 0, 0, Left), Same, 3) == (0, 3, Left)
    ensures MapAroundEdge(CubePosition(1, 3, 0, Left), Same, 3) == (3, 3, Left)
    ensures MapAroundEdge(CubePosition(1, 0, 0, Left), CCW, 3) == (3, 3, Up)
    ensures MapAroundEdge(CubePosition(1, 3, 0, Left), CCW, 3) == (3, 0, Up)
    ensures MapAroundEdge(CubePosition(1, 0, 0, Left), CW, 3) == (0, 0, Down)
    ensures MapAroundEdge(CubePosition(1, 3, 0, Left), CW, 3) == (0, 3, Down)
    ensures MapAroundEdge(CubePosition(1, 0, 0, Left), One80, 3) == (3, 0, Right)
    ensures MapAroundEdge(CubePosition(1, 3, 0, Left), One80, 3) == (0, 0, Right)
  {
  }

  /** `CUBE_EDGES_4X4`: the example's net. */
  const CubeEdges4: seq<FaceEdgeMapping> := [
    FaceEdgeMapping((1, One80), (5, One80), (3, Same), (2, CW)),
    FaceEdgeMapping((0, One80), (2, Same), (4, One80), (5, CCW)),
    FaceEdgeMapping((0, CCW), (3, Same), (4, CW), (1, Same)),
    FaceEdgeMapping((0, Same), (5, CCW), (4, Same), (2, Same)),
    FaceEdgeMapping((3, Same), (5, Same), (1, One80), (2, CCW)),
    FaceEdgeMapping((3, CW), (0, One80), (1, CW), (4, Same))]

  /** `CUBE_EDGES_50X50`: the puzzle input's net. */
  const CubeEdges50: seq<FaceEdgeMapping> := [
    FaceEdgeMapping((5, CCW), (1, Same), (2, Same), (3, One80)),
    FaceEdgeMapping((5, Same), (4, One80), (2, CCW), (0, Same)),
    FaceEdgeMapping((0, Same), (1, CW), (4, Same), (3, CW)),
    FaceEdgeMapping((2, CCW), (4, Same), (5, Same), (0, One80)),
    FaceEdgeMapping((2, Same), (1, One80), (5, CCW), (3, Same)),
    FaceEdgeMapping((3, Same), (4, CW), (1, Same), (0, CW))]

  /** `cube_edges`: the net for the face sizes the puzzle uses; any other size panics. */
  function CubeEdges(size: nat): (r: Option<seq<FaceEdgeMapping>>)
    ensures r.Some? <==> size == 4 || size == 50
  {
    if size == 4 then Some(CubeEdges4) else if size == 50 then Some(CubeEdges50) else None
  }

  /**
   * A table of six faces glues consistently: leaving face `f` in direction `d` lands on a face
   * whose edge back, in the direction opposite to the new facing, leads to `f` with the inverse turn.
   */
  predicate EdgesGlued(edges: seq<FaceEdgeMapping>)
  {
    |edges| == 6 &&
    forall f, d | 0 <= f < 6 :: EdgeGlued(edges, f, d)
  }

  predicate EdgeGlued(edges: seq<FaceEdgeMapping>, f: nat, d: Direction)
    requires |edges| == 6 && f < 6
  {
    var (g, r) := NextEdge(edges[f], d);
    g < 6 && NextEdge(edges[g], Opposite(Turned(d, r))) == (f, Inverse(r))
  }

  /** Both tables glue their cubes consistently. */
  lemma CubeEdgesGlued()
    ensures EdgesGlued(CubeEdges4) && EdgesGlued(CubeEdges50)
  {
    forall f, d | 0 <= f < 6
      ensures EdgeGlued(CubeEdges4, f, d) && EdgeGlued(CubeEdges50, f, d)
    {
      assert f == 0 || f == 1 || f == 2 || f == 3 || f == 4 || f == 5;
    }
  }

  /** A face: its tiles with their positions on the board, `size` rows of `size`. */
  type Face = seq<seq<(char, (nat, nat))>>

  /** The folded board: six faces of side `size` and the table gluing their edges. */
  datatype Cube = Cube(size: nat, faces: seq<Face>, edges: seq<FaceEdgeMapping>)

  /** Face `f` is `size` rows of `size` tiles, and its four edges lead to faces of the cube. */
  predicate ValidFace(c: Cube, f: nat)
    requires f < |c.faces| && f < |c.edges|
  {
    (forall d :: NextEdge(c.edges[f], d).0 < |c.faces|) &&
    |c.faces[f]| == c.size && forall r | 0 <= r < c.size :: |c.faces[f][r]| == c.size
  }

  predicate ValidCube(c: Cube)
  {
    c.size >= 1 && |c.faces| == 6 && |c.edges| == 6 &&
    forall f | 0 <= f < 6 :: ValidFace(c, f)
  }

  predicate OnCube(c: Cube, p: CubePosition)
  {
    p.face < 6 && p.row < c.size && p.column < c.size
  }

  /** `CubePosition::next_face`: across the edge ahead onto the glued face. */
  function NextFace(c: Cube, p: CubePosition): (q: CubePosition)
    requires ValidCube(c) && OnCube(c, p)
    ensures OnCube(c, q)
    ensures q.face == NextEdge(c.edges[p.face], p.facing).0
    ensures q.facing == Turned(p.facing, NextEdge(c.edges[p.face], p.facing).1)
  {
    assert ValidFace(c, p.face);
    var (face, rotation) := NextEdge(c.edges[p.face], p.facing);
    var (row, column, facing) := MapAroundEdge(p, rotation, c.size - 1);
    CubePosition(face, row, column, facing)
  }

  /** `Cube::step`: one cell ahead, onto the glued face when at the edge. */
  function Step(c: Cube, p: CubePosition): (q: CubePosition)
    requires ValidCube(c) && OnCube(c, p)
    ensures OnCube(c, q)
    ensures !OnExitEdge(p.row, p.column, p.facing, c.size - 1) ==> q.face == p.face && q.facing == p.facing
  {
    var max := c.size - 1;
    match p.facing
    case Up => if p.row == 0 then NextFace(c, p) else p.(row := p.row - 1)
    case Down => if p.row == max then NextFace(c, p) else p.(row := p.row + 1)
    case Left => if p.column == 0 then NextFace(c, p) else p.(column := p.column - 1)
    case Right => if p.column == max then NextFace(c, p) else p.(column := p.column + 1)
  }

  /** `Cube::position_open`: the tile there is open; a place off the faces is not. */
  predicate PositionOpen(c: Cube, p: CubePosition)
  {
    p.face < |c.faces| && p.row < |c.faces[p.face]| && p.column < |c.faces[p.face][p.row]| &&
    c.faces[p.face][p.row][p.column].0 == '.'
  }

  /**
   * Up to `n` moves of `step`, stopping in front of the first place that is not `open`: the
   * recursion of `Cube::steps`.
   */
  function Walk<P>(step: P -> P, open: P -> bool, p: P, n: nat): P
    decreases n
  {
    if n == 0 then p
    else if open(step(p)) then Walk(step, open, step(p), n - 1)
    else p
  }

  /** Walking `m` and then `n` moves is walking `m + n`: a place that stops the first walk stops the second too. */
  lemma {:induction false} WalkAdd<P>(step: P -> P, open: P -> bool, p: P, m: nat, n: nat)
    ensures Walk(step, open, Walk(step, open, p, m), n) == Walk(step, open, p, m + n)
    decreases m
  {
    if m > 0 && open(step(p)) {
      WalkAdd(step, open, step(p), m - 1, n);
      assert m + n - 1 == (m - 1) + n;
    }
  }

  /** A walk either stays where it started or ends on an open place. */
  lemma {:induction false} WalkEndsOpen<P>(step: P -> P, open: P -> bool, p: P, n: nat)
    ensures Walk(step, open, p, n) == p || open(Walk(step, open, p, n))
    decreases n
  {
    if n > 0 && open(step(p)) {
      WalkEndsOpen(step, open, step(p), n - 1);
    }
  }

  /** A property every move keeps holds where the walk ends. */
  lemma {:induction false} WalkKeeps<P>(step: P -> P, open: P -> bool, keep: P -> bool, p: P, n: nat)
    requires keep(p)
    requires forall q :: keep(q) ==> keep(step(q))
    ensures keep(Walk(step, open, p, n))
    decreases n
  {
    if n > 0 && open(step(p)) {
      WalkKeeps(step, open, keep, step(p), n - 1);
    }
  }

  /** `Cube::step` on the places of the cube, and no move elsewhere. */
  function Advance(c: Cube, p: CubePosition): (q: CubePosition)
    ensures ValidCube(c) && OnCube(c, p) ==> q == Step(c, p) && OnCube(c, q)
  {
    if ValidCube(c) && OnCube(c, p) then Step(c, p) else p
  }

  /** `Cube::steps`: up to `n` moves, stopping in front of a wall. */
  function CubeSteps(c: Cube, p: CubePosition, n: nat): (r: CubePosition)
    requires ValidCube(c) && OnCube(c, p)
    ensures OnCube(c, r)
    ensures n == 0 ==> r == p
    ensures r != p ==> PositionOpen(c, r)
    ensures PositionOpen(c, p) ==> PositionOpen(c, r)
  {
    var step, open := q => Advance(c, q), q => PositionOpen(c, q);
    WalkEndsOpen(step, open, p, n);
    WalkKeeps(step, open, q => OnCube(c, q), p, n);
    Walk(step, open, p, n)
  }

  /** Walking `m` and then `n` steps on the cube is walking `m + n`. */
  lemma CubeStepsAdd(c: Cube, p: CubePosition, m: nat, n: nat)
    requires ValidCube(c) && OnCube(c, p)
    ensures CubeSteps(c, CubeSteps(c, p, m), n) == CubeSteps(c, p, m + n)
  {
    WalkAdd(q => Advance(c, q), q => PositionOpen(c, q), p, m, n);
  }

  /** `Cube::execute_instruction` */
  function ExecuteCube(c: Cube, p: CubePosition, i: Instruction): (q: CubePosition)
    requires ValidCube(c) && OnCube(c, p)
    ensures OnCube(c, q)
    ensures i.Turn? ==> q == RotateCube(p, i.rotation)
  {
    match i
    case Turn(r) => RotateCube(p, r)
    case Forward(n) => CubeSteps(c, p, n)
  }

  function RunCube(c: Cube, p: CubePosition, instructions: seq<Instruction>): (q: CubePosition)
    requires ValidCube(c) && OnCube(c, p)
    ensures OnCube(c, q)
    ensures PositionOpen(c, p) ==> PositionOpen(c, q)
    decreases |instructions|
  {
    if instructions == [] then p
    else RunCube(c, ExecuteCube(c, p, instructions[0]), instructions[1..])
  }

  /** `CubePosition::password`: the password of the board cell the face tile came from. */
  function CubePassword(c: Cube, p: CubePosition): nat
    requires ValidCube(c) && OnCube(c, p)
  {
    assert ValidFace(c, p.face);
    var (row, column) := c.faces[p.face][p.row][p.column].1;
    Password(Position(p.facing, row, column))
  }

  /** `solve_part2`, given the folded board: start facing right in the corner of face 0. */
  function SolvePart2(c: Cube, instructions: seq<Instruction>): (r: nat)
    requires ValidCube(c)
    ensures exists q: CubePosition :: OnCube(c, q) && r == CubePassword(c, q) &&
              (PositionOpen(c, CubePosition(0, 0, 0, Right)) ==> PositionOpen(c, q))
  {
    var q := RunCube(c, CubePosition(0, 0, 0, Right), instructions);
    CubePassword(c, q)
  }

  // The face size

  /** The `while b > 0` loop of `gcd`. */
  function EuclidLoop(a: nat, b: nat): (g: nat)
    ensures a > 0 || b > 0 ==> Divides(g, a) && Divides(g, b)
    ensures forall d :: Divides(d, a) && Divides(d, b) ==> Divides(d, g)
    decreases b
  {
    if b == 0 then a
    else
      var g := EuclidLoop(b, a % b);
      assert forall d :: Divides(d, a) && Divides(d, b) <==> Divides(d, b) && Divides(d, a % b) by {
        forall d {
          EuclidStep(a, b, d);
        }
      }
      g
  }

  /** `gcd`: equal arguments come back as they are; otherwise the larger goes first into Euclid's loop. */
  function Gcd(a: nat, b: nat): (g: nat)
    ensures a == b ==> g == a
    ensures a > 0 || b > 0 ==> Divides(g, a) && Divides(g, b)
    ensures forall d :: Divides(d, a) && Divides(d, b) ==> Divides(d, g)
  {
    if a == b then a
    else if b > a then EuclidLoop(b, a)
    else EuclidLoop(a, b)
  }

  /** The greatest common divisor is the largest of the common divisors. */
  lemma GcdGreatest(a: nat, b: nat, d: nat)
    requires a > 0 || b > 0
    requires Divides(d, a) && Divides(d, b)
    ensures d <= Gcd(a, b)
  {
    var g := Gcd(a, b);
    assert g % d == 0 && g > 0;
    var k := g / d;
    assert g == k * d;
    MultipleAwayFromZero(k, d);
  }

  /** The example board is 12 rows by 16 columns, so its faces have side 4; the input's 200 by 150 gives 50. */
  lemma ExampleFaceSize()
    ensures Gcd(12, 16) == 4 && Gcd(200, 150) == 50
  {
  }
}
