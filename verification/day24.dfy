/**
 * Day 24, "Blizzard Basin": a rectangular valley full of blizzards that each move one
 * step a minute in their direction and wrap around at the walls. The positions the
 * blizzards leave free over time make a graph in which a shortest walk is searched.
 * The blizzard pattern repeats after the least common multiple of the valley's height
 * and width, so time is taken modulo that period.
 */
module Day24 {
  import opened Wrappers
  import opened Arith
  import opened Text
  import opened Sums

  datatype Direction = Up | Down | Left | Right

  /** The arrow drawn for a blizzard. */
  function ToChar(d: Direction): char
  {
    match d
    case Up => '^'
    case Down => 'v'
    case Left => '<'
    case Right => '>'
  }

  /** `Direction::try_from`: the four arrows, and an error for any other character. */
  function FromChar(c: char): (r: Option<Direction>)
    ensures r.Some? <==> c in "^v<>"
  {
    match c
    case '^' => Some(Up)
    case 'v' => Some(Down)
    case '<' => Some(Left)
    case '>' => Some(Right)
    case _ => None
  }

  /** Reading the arrow of a direction gives the direction back, and a read arrow draws as itself. */
  lemma CharRoundTrip(d: Direction, c: char)
    ensures FromChar(ToChar(d)) == Some(d)
    ensures FromChar(c) == Some(d) ==> ToChar(d) == c
  {
  }

  // The period of the blizzards

  /** The loop of `gcd`: divide the larger by the smaller until the remainder is zero. */
  function GcdLoop(max: nat, min: nat): (g: nat)
    requires min > 0
    ensures Divides(g, max) && Divides(g, min)
    ensures forall d :: Divides(d, max) && Divides(d, min) ==> Divides(d, g)
    decreases min
  {
    var res := max % min;
    if res == 0 then min
    else
      assert forall d :: Divides(d, max) && Divides(d, min) <==> Divides(d, min) && Divides(d, res) by {
        forall d {
          EuclidStep(max, min, d);
        }
      }
      GcdLoop(min, res)
  }

  /** `gcd`: the larger argument goes first into the loop; a zero argument makes the source divide by zero. */
  function Gcd(first: nat, second: nat): (g: nat)
    requires first > 0 && second > 0
    ensures Divides(g, first) && Divides(g, second)
    ensures forall d :: Divides(d, first) && Divides(d, second) ==> Divides(d, g)
  {
    if second > first then GcdLoop(second, first) else GcdLoop(first, second)
  }

  /** The greatest common divisor is the largest of the common divisors. */
  lemma GcdGreatest(first: nat, second: nat, d: nat)
    requires first > 0 && second > 0
    requires Divides(d, first) && Divides(d, second)
    ensures d <= Gcd(first, second)
  {
    var g := Gcd(first, second);
    var k := g / d;
    assert g == k * d;
    MultipleAwayFromZero(k, d);
  }

  /** Dividing the product by a common divisor leaves a positive common multiple. */
  lemma CommonMultiple(first: nat, second: nat, g: nat)
    requires first > 0 && second > 0 && Divides(g, first) && Divides(g, second)
    ensures first * second / g > 0
    ensures Divides(first, first * second / g) && Divides(second, first * second / g)
  {
    var j, k := first / g, second / g;
    assert first == j * g && second == k * g;
    var product := first * second;
    assert product == (first * k) * g + 0;
    DivModUnique(product, g, first * k, 0);
    assert first * k == k * first;
    ModMultiple(k, first, 0);
    assert first * k == j * second;
    ModMultiple(j, second, 0);
    MultipleAwayFromZero(k, first);
  }

  /** `lcm`: the product over the greatest common divisor, a multiple of both. */
  function Lcm(first: nat, second: nat): (m: nat)
    requires first > 0 && second > 0
    ensures m > 0 && Divides(first, m) && Divides(second, m)
  {
    var g := Gcd(first, second);
    CommonMultiple(first, second, g);
    first * second / g
  }

  /** The example valley is 4 by 6, with period 12; a 25 by 120 valley has period 600. */
  lemma ExamplePeriods()
    ensures Lcm(4, 6) == 12 && Lcm(25, 120) == 600
  {
  }

  // The basin and its moving blizzards

  /** A row and a column inside the walls. */
  type Cell = (nat, nat)

  /** The valley inside the walls, the columns of the entrance and the exit, the period, and the blizzards where they start. */
  datatype Basin = Basin(width: nat, height: nat, start: nat, end: nat, lcm: nat, blizzards: map<Cell, Direction>)

  predicate InValley(b: Basin, p: Cell)
  {
    p.0 < b.height && p.1 < b.width
  }

  /** The basin as built from a parsed valley: a non-empty valley, its period, and blizzards inside the walls. */
  predicate ValidBasin(b: Basin)
  {
    b.height > 0 && b.width > 0 && b.lcm == Lcm(b.height, b.width)
    && forall p | p in b.blizzards :: InValley(b, p)
  }

  /** `move_up`: `time` steps up, wrapping from the top row to the bottom one. */
  function MoveUp(b: Basin, time: nat, p: Cell): (r: Cell)
    requires b.height > 0 && p.0 <= b.height
    ensures r.0 < b.height && r.1 == p.1
  {
    var adjustment := (time + (b.height - p.0)) % b.height;
    ((b.height - adjustment) % b.height, p.1)
  }

  /** Going up `time` steps is subtracting `time` from the row, modulo the height. */
  lemma MoveUpValue(b: Basin, time: nat, p: Cell)
    requires b.height > 0 && p.0 <= b.height
    ensures MoveUp(b, time, p).0 == (p.0 - time) % b.height
  {
    var h := b.height;
    var adjustment := (time + (h - p.0)) % h;
    var q := (time + (h - p.0)) / h;
    assert time + (h - p.0) == q * h + adjustment;
    UndoShift(h - adjustment, h, q, p.0 - time);
  }

  /** `move_down`: `time` steps down, wrapping from the bottom row to the top one. */
  function MoveDown(b: Basin, time: nat, p: Cell): (r: Cell)
    requires b.height > 0
    ensures r.0 < b.height && r.1 == p.1
  {
    ((time + p.0) % b.height, p.1)
  }

  /** `move_right`: `time` steps right, wrapping from the last column to the first. */
  function MoveRight(b: Basin, time: nat, p: Cell): (r: Cell)
    requires b.width > 0
    ensures r.1 < b.width && r.0 == p.0
  {
    (p.0, (time + p.1) % b.width)
  }

  /** `move_left`: `time` steps left, wrapping from the first column to the last. */
  function MoveLeft(b: Basin, time: nat, p: Cell): (r: Cell)
    requires b.width > 0 && p.1 <= b.width
    ensures r.1 < b.width && r.0 == p.0
  {
    var adjustment := (time + (b.width - p.1)) % b.width;
    (p.0, (b.width - adjustment) % b.width)
  }

  /** Going left `time` steps is subtracting `time` from the column, modulo the width. */
  lemma MoveLeftValue(b: Basin, time: nat, p: Cell)
    requires b.width > 0 && p.1 <= b.width
    ensures MoveLeft(b, time, p).1 == (p.1 - time) % b.width
  {
    var w := b.width;
    var adjustment := (time + (w - p.1)) % w;
    var q := (time + (w - p.1)) / w;
    assert time + (w - p.1) == q * w + adjustment;
    UndoShift(w - adjustment, w, q, p.1 - time);
  }

  /** Up undoes down over the same time. */
  lemma UpUndoesDown(b: Basin, time: nat, p: Cell)
    requires b.height > 0 && p.0 < b.height
    ensures MoveUp(b, time, MoveDown(b, time, p)) == p
  {
    var down := MoveDown(b, time, p);
    MoveUpValue(b, time, down);
    UpAfterDown(b.height, time, p.0, down.0);
  }

  /** Down undoes up over the same time. */
  lemma DownUndoesUp(b: Basin, time: nat, p: Cell)
    requires b.height > 0 && p.0 < b.height
    ensures MoveDown(b, time, MoveUp(b, time, p)) == p
  {
    var up := MoveUp(b, time, p);
    MoveUpValue(b, time, p);
    DownAfterUp(b.height, time, p.0, up.0);
  }

  /** Left undoes right over the same time. */
  lemma LeftUndoesRight(b: Basin, time: nat, p: Cell)
    requires b.width > 0 && p.1 < b.width
    ensures MoveLeft(b, time, MoveRight(b, time, p)) == p
  {
    var right := MoveRight(b, time, p);
    MoveLeftValue(b, time, right);
    UpAfterDown(b.width, time, p.1, right.1);
  }

  /** Right undoes left over the same time. */
  lemma RightUndoesLeft(b: Basin, time: nat, p: Cell)
    requires b.width > 0 && p.1 < b.width
    ensures MoveRight(b, time, MoveLeft(b, time, p)) == p
  {
    var left := MoveLeft(b, time, p);
    MoveLeftValue(b, time, p);
    DownAfterUp(b.width, time, p.1, left.1);
  }

  /** Adding `t` and then subtracting it, modulo `n`, gives back `x`. */
  lemma UpAfterDown(n: nat, t: nat, x: nat, y: int)
    requires n > 0 && x < n && y == (t + x) % n
    ensures (y - t) % n == x
  {
    DivModUnique(x, n, 0, x);
    var q := (t + x) / n;
    assert t + x == q * n + (t + x) % n;
    UndoShift((t + x) % n - t, n, -q, x);
  }

  /** Subtracting `t` and then adding it, modulo `n`, gives back `x`. */
  lemma DownAfterUp(n: nat, t: nat, x: nat, y: int)
    requires n > 0 && x < n && y == (x - t) % n
    ensures (t + y) % n == x
  {
    DivModUnique(x, n, 0, x);
    var q := (x - t) / n;
    assert x - t == q * n + (x - t) % n;
    UndoShift(t + (x - t) % n, n, -q, x);
  }

  /** A value that differs from `r` by a multiple of `d` has the remainder of `r`. */
  lemma UndoShift(x: int, d: int, k: int, r: int)
    requires d > 0 && x == k * d + r
    ensures x % d == r % d
  {
    ModMultiple(k, d, r);
  }

  /** Where the blizzard that starts at `p` is after `time` minutes. */
  function Landing(b: Basin, time: nat, p: Cell, d: Direction): (r: Cell)
    requires b.height > 0 && b.width > 0 && InValley(b, p)
    ensures InValley(b, r)
  {
    match d
    case Up => MoveUp(b, time, p)
    case Down => MoveDown(b, time, p)
    case Left => MoveLeft(b, time, p)
    case Right => MoveRight(b, time, p)
  }

  /** Blizzards of one direction that start apart stay apart. */
  lemma LandingInjective(b: Basin, time: nat, p: Cell, q: Cell, d: Direction)
    requires b.height > 0 && b.width > 0 && InValley(b, p) && InValley(b, q)
    requires Landing(b, time, p, d) == Landing(b, time, q, d)
    ensures p == q
  {
    match d
    case Up =>
      DownUndoesUp(b, time, p);
      DownUndoesUp(b, time, q);
    case Down =>
      UpUndoesDown(b, time, p);
      UpUndoesDown(b, time, q);
    case Left =>
      RightUndoesLeft(b, time, p);
      RightUndoesLeft(b, time, q);
    case Right =>
      LeftUndoesRight(b, time, p);
      LeftUndoesRight(b, time, q);
  }

  /** After a whole period every blizzard is back where it was. */
  lemma LandingPeriodic(b: Basin, time: nat, p: Cell, d: Direction)
    requires ValidBasin(b) && InValley(b, p)
    ensures Landing(b, time + b.lcm, p, d) == Landing(b, time, p, d)
  {
    var period := b.lcm;
    match d
    case Up =>
      MoveUpValue(b, time, p);
      MoveUpValue(b, time + period, p);
      ShiftPeriod(b.height, period, p.0 - time, -1);
    case Down =>
      ShiftPeriod(b.height, period, time + p.0, 1);
    case Left =>
      MoveLeftValue(b, time, p);
      MoveLeftValue(b, time + period, p);
      ShiftPeriod(b.width, period, p.1 - time, -1);
    case Right =>
      ShiftPeriod(b.width, period, time + p.1, 1);
  }

  /** Moving by a multiple of `n`, either way, keeps the remainder modulo `n`. */
  lemma ShiftPeriod(n: nat, period: nat, x: int, sign: int)
    requires Divides(n, period) && (sign == 1 || sign == -1)
    ensures (x + sign * period) % n == x % n
  {
    var k := period / n;
    assert period == k * n;
    UndoShift(x + sign * period, n, sign * k, x);
  }

  /** In a valley 4 high and 6 wide, like the second example, the expected positions of a blizzard starting at row 1, column 1. */
  lemma ExampleMoveUp(b: Basin)
    requires b.height == 4
    ensures MoveUp(b, 0, (1, 1)) == (1, 1) && MoveUp(b, 1, (1, 1)) == (0, 1)
    ensures MoveUp(b, 2, (1, 1)) == (3, 1) && MoveUp(b, 3, (1, 1)) == (2, 1)
    ensures MoveUp(b, 4, (1, 1)) == (1, 1) && MoveUp(b, 5, (1, 1)) == (0, 1)
    ensures MoveUp(b, 40, (1, 1)) == (1, 1)
  {
  }

  lemma ExampleMoveDown(b: Basin)
    requires b.height == 4
    ensures MoveDown(b, 0, (1, 1)) == (1, 1) && MoveDown(b, 1, (1, 1)) == (2, 1)
    ensures MoveDown(b, 2, (1, 1)) == (3, 1) && MoveDown(b, 3, (1, 1)) == (0, 1)
    ensures MoveDown(b, 4, (1, 1)) == (1, 1) && MoveDown(b, 5, (1, 1)) == (2, 1)
    ensures MoveDown(b, 44, (1, 1)) == (1, 1)
  {
  }

  lemma ExampleMoveRight(b: Basin)
    requires b.width == 6
    ensures MoveRight(b, 0, (1, 1)) == (1, 1) && MoveRight(b, 1, (1, 1)) == (1, 2)
    ensures MoveRight(b, 2, (1, 1)) == (1, 3) && MoveRight(b, 3, (1, 1)) == (1, 4)
    ensures MoveRight(b, 4, (1, 1)) == (1, 5) && MoveRight(b, 5, (1, 1)) == (1, 0)
    ensures MoveRight(b, 6, (1, 1)) == (1, 1) && MoveRight(b, 66, (1, 1)) == (1, 1)
  {
  }

  lemma ExampleMoveLeft(b: Basin)
    requires b.width == 6
    ensures MoveLeft(b, 0, (1, 1)) == (1, 1) && MoveLeft(b, 1, (1, 1)) == (1, 0)
    ensures MoveLeft(b, 2, (1, 1)) == (1, 5) && MoveLeft(b, 3, (1, 1)) == (1, 4)
    ensures MoveLeft(b, 4, (1, 1)) == (1, 3) && MoveLeft(b, 5, (1, 1)) == (1, 2)
    ensures MoveLeft(b, 6, (1, 1)) == (1, 1) && MoveLeft(b, 66, (1, 1)) == (1, 1)
  {
  }

  // The valley at a given time

  /** A blizzard where it starts, as the basin's map lists it. */
  type Entry = (Cell, Direction)

  /** `listing` is one way of iterating over the blizzards of the basin: each exactly once. */
  predicate Lists(b: Basin, listing: seq<Entry>)
  {
    (forall i | 0 <= i < |listing| :: listing[i].0 in b.blizzards && b.blizzards[listing[i].0] == listing[i].1)
    && (forall p | p in b.blizzards :: exists i | 0 <= i < |listing| :: listing[i].0 == p)
    && (forall i, j | 0 <= i < j < |listing| :: listing[i].0 != listing[j].0)
  }

  /** Every blizzard of the listing starts inside the valley. */
  predicate InsideAll(b: Basin, listing: seq<Entry>)
  {
    forall i | 0 <= i < |listing| :: InValley(b, listing[i].0)
  }

  /** A grid of the valley's height and width. */
  predicate Shaped(b: Basin, g: seq<seq<char>>)
  {
    |g| == b.height && forall r | 0 <= r < |g| :: |g[r]| == b.width
  }

  /** The valley with no blizzards: every cell `'.'`. */
  function Blank(b: Basin): (g: seq<seq<char>>)
    ensures Shaped(b, g)
    ensures forall r, c | 0 <= r < b.height && 0 <= c < b.width :: g[r][c] == '.'
  {
    seq(b.height, _ => seq(b.width, _ => '.'))
  }

  /** A cell that one more blizzard reaches: an arrow where it was empty, a count where it held
    * one or more; `None` where the source's digit arithmetic has no digit left and panics. */
  function Bump(c: char, d: Direction): Option<char>
  {
    if c == '.' then Some(ToChar(d))
    else if IsDigit(c) then
      if DigitValue(c) + 1 < 10 then Some(DigitChar(DigitValue(c) + 1)) else None
    else Some('2')
  }

  /** `valley_at`: the blizzards of the listing dropped, in order, on a blank valley. */
  function ValleyAt(b: Basin, time: nat, listing: seq<Entry>): (r: Option<seq<seq<char>>>)
    requires b.height > 0 && b.width > 0 && InsideAll(b, listing)
    ensures r.Some? ==> Shaped(b, r.value)
    decreases |listing|
  {
    if listing == [] then Some(Blank(b))
    else
      var prefix, last := listing[..|listing| - 1], listing[|listing| - 1];
      assert InsideAll(b, prefix);
      match ValleyAt(b, time, prefix)
      case None => None
      case Some(g) =>
        var cell := Landing(b, time, last.0, last.1);
        match Bump(g[cell.0][cell.1], last.1)
        case None => None
        case Some(ch) => Some(g[cell.0 := g[cell.0][cell.1 := ch]])
  }

  /** The directions of the blizzards of the listing that are on `cell` at `time`, in listing order. */
  function Landers(b: Basin, time: nat, listing: seq<Entry>, cell: Cell): seq<Direction>
    requires b.height > 0 && b.width > 0 && InsideAll(b, listing)
    decreases |listing|
  {
    if listing == [] then []
    else
      var prefix, last := listing[..|listing| - 1], listing[|listing| - 1];
      assert InsideAll(b, prefix);
      Landers(b, time, prefix, cell) + (if Landing(b, time, last.0, last.1) == cell then [last.1] else [])
  }

  /** How a cell is drawn: empty, the arrow of its one blizzard, or the count of its blizzards. */
  function Render(ds: seq<Direction>): Option<char>
  {
    if |ds| == 0 then Some('.')
    else if |ds| == 1 then Some(ToChar(ds[0]))
    else if |ds| < 10 then Some(DigitChar(|ds|))
    else None
  }

  /** One more blizzard on a cell bumps its drawing. */
  lemma RenderBump(ds: seq<Direction>, d: Direction)
    requires Render(ds + [d]).Some?
    ensures Render(ds).Some? && Bump(Render(ds).value, d) == Render(ds + [d])
  {
  }

  /** Drawing the blizzards one by one draws each cell as its blizzards, as long as no cell holds ten. */
  lemma {:induction false} ValleyAtRenders(b: Basin, time: nat, listing: seq<Entry>)
    requires b.height > 0 && b.width > 0 && InsideAll(b, listing)
    requires forall r, c | 0 <= r < b.height && 0 <= c < b.width :: |Landers(b, time, listing, (r, c))| < 10
    ensures ValleyAt(b, time, listing).Some?
    ensures forall r, c | 0 <= r < b.height && 0 <= c < b.width ::
      Some(ValleyAt(b, time, listing).value[r][c]) == Render(Landers(b, time, listing, (r, c)))
    decreases |listing|
  {
    if listing != [] {
      var prefix, last := listing[..|listing| - 1], listing[|listing| - 1];
      assert InsideAll(b, prefix);
      LandersPrefix(b, time, listing);
      ValleyAtRenders(b, time, prefix);
      var cell := Landing(b, time, last.0, last.1);
      var before := Landers(b, time, prefix, cell);
      assert Landers(b, time, listing, cell) == before + [last.1];
      RenderBump(before, last.1);
      var g := ValleyAt(b, time, prefix).value;
      var ch := Render(before + [last.1]).value;
      forall x: Cell | x != cell
        ensures Landers(b, time, listing, x) == Landers(b, time, prefix, x)
      {
        assert Landers(b, time, listing, x) == Landers(b, time, prefix, x) + [];
      }
      Redraw(b, g, cell, ch, x => Render(Landers(b, time, prefix, x)), x => Render(Landers(b, time, listing, x)));
    }
  }

  /** Dropping the last blizzard of a listing leaves no cell with more blizzards. */
  lemma LandersPrefix(b: Basin, time: nat, listing: seq<Entry>)
    requires b.height > 0 && b.width > 0 && InsideAll(b, listing) && listing != []
    ensures InsideAll(b, listing[..|listing| - 1])
    ensures forall x: Cell :: |Landers(b, time, listing[..|listing| - 1], x)| <= |Landers(b, time, listing, x)|
  {
    var prefix := listing[..|listing| - 1];
    assert InsideAll(b, prefix);
    forall x: Cell ensures |Landers(b, time, prefix, x)| <= |Landers(b, time, listing, x)| {
    }
  }

  /** Writing one cell of a grid that draws `before` gives a grid that draws `after`, when the
    * two drawings differ at most on that cell. */
  lemma Redraw(b: Basin, g: seq<seq<char>>, cell: Cell, ch: char,
               before: Cell -> Option<char>, after: Cell -> Option<char>)
    requires Shaped(b, g) && cell.0 < b.height && cell.1 < b.width
    requires forall r, c | 0 <= r < b.height && 0 <= c < b.width :: Some(g[r][c]) == before((r, c))
    requires forall x: Cell | x != cell :: after(x) == before(x)
    requires after(cell) == Some(ch)
    ensures forall r, c | 0 <= r < b.height && 0 <= c < b.width ::
      Some(g[cell.0 := g[cell.0][cell.1 := ch]][r][c]) == after((r, c))
  {
  }

  // The drawing the puzzle means, whatever order the blizzards are visited in

  /** Some blizzard heading `d` is on `cell` at `time`. */
  predicate Hit(b: Basin, time: nat, cell: Cell, d: Direction)
    requires ValidBasin(b)
  {
    exists p | p in b.blizzards && b.blizzards[p] == d :: Landing(b, time, p, d) == cell
  }

  /** The directions of `ds` with a blizzard on `cell` at `time`, in the order of `ds`. */
  function HitsAmong(b: Basin, time: nat, cell: Cell, ds: seq<Direction>): (r: seq<Direction>)
    requires ValidBasin(b)
    ensures |r| <= |ds|
    ensures forall d :: d in r <==> d in ds && Hit(b, time, cell, d)
    ensures Distinct(ds) ==> Distinct(r)
  {
    if ds == [] then []
    else (if Hit(b, time, cell, ds[0]) then [ds[0]] else []) + HitsAmong(b, time, cell, ds[1..])
  }

  const Directions := [Up, Down, Left, Right]

  /** `Directions` lists every direction once. */
  lemma EveryDirection()
    ensures Distinct(Directions)
    ensures forall d :: d in Directions
  {
    forall d ensures d in Directions {
      match d
      case Up => assert Directions[0] == d;
      case Down => assert Directions[1] == d;
      case Left => assert Directions[2] == d;
      case Right => assert Directions[3] == d;
    }
  }

  /** The directions of the blizzards on `cell` at `time`, in the fixed order up, down, left, right. */
  function Arrivals(b: Basin, time: nat, cell: Cell): (r: seq<Direction>)
    requires ValidBasin(b)
    ensures Distinct(r) && |r| <= 4
    ensures forall d :: d in r <==> Hit(b, time, cell, d)
  {
    EveryDirection();
    HitsAmong(b, time, cell, Directions)
  }

  /** How the puzzle draws `cell` at `time`: empty, one arrow, or the number of blizzards on it. */
  function Drawn(b: Basin, time: nat, cell: Cell): char
    requires ValidBasin(b)
  {
    Render(Arrivals(b, time, cell)).value
  }

  /** No blizzard is on `cell` at `time`. */
  predicate Clear(b: Basin, time: nat, cell: Cell)
    requires ValidBasin(b)
  {
    forall d :: !Hit(b, time, cell, d)
  }

  /** A cell is drawn empty exactly when no blizzard is on it. */
  lemma DrawnEmpty(b: Basin, time: nat, cell: Cell)
    requires ValidBasin(b)
    ensures Drawn(b, time, cell) == '.' <==> Clear(b, time, cell)
  {
    var r := Arrivals(b, time, cell);
    if r != [] {
      assert r[0] in r;
      if |r| == 1 {
        assert ToChar(r[0]) != '.';
      } else {
        assert DigitChar(|r|) != '.';
      }
    }
  }

  /** Each entry of the listing is a blizzard of the basin, and no blizzard appears twice. */
  predicate Faithful(b: Basin, listing: seq<Entry>)
  {
    (forall i | 0 <= i < |listing| :: listing[i].0 in b.blizzards && b.blizzards[listing[i].0] == listing[i].1)
    && (forall i, j | 0 <= i < j < |listing| :: listing[i].0 != listing[j].0)
  }

  /** The blizzards a listing drops on `cell` head in the directions of the entries that land there. */
  lemma {:induction false} LandersMembers(b: Basin, time: nat, listing: seq<Entry>, cell: Cell)
    requires b.height > 0 && b.width > 0 && InsideAll(b, listing)
    ensures forall d :: d in Landers(b, time, listing, cell) <==>
      exists i | 0 <= i < |listing| :: listing[i].1 == d && Landing(b, time, listing[i].0, d) == cell
    decreases |listing|
  {
    if listing != [] {
      var prefix, last := listing[..|listing| - 1], listing[|listing| - 1];
      assert InsideAll(b, prefix);
      LandersMembers(b, time, prefix, cell);
      var before := Landers(b, time, prefix, cell);
      assert Landers(b, time, listing, cell) ==
        before + (if Landing(b, time, last.0, last.1) == cell then [last.1] else []);
      forall d ensures d in Landers(b, time, listing, cell) <==>
        exists i | 0 <= i < |listing| :: listing[i].1 == d && Landing(b, time, listing[i].0, d) == cell
      {
        if exists i | 0 <= i < |listing| :: listing[i].1 == d && Landing(b, time, listing[i].0, d) == cell {
          var i :| 0 <= i < |listing| && listing[i].1 == d && Landing(b, time, listing[i].0, d) == cell;
          if i < |prefix| {
            assert prefix[i] == listing[i];
          }
        }
        if d in before {
          var i :| 0 <= i < |prefix| && prefix[i].1 == d && Landing(b, time, prefix[i].0, d) == cell;
          assert listing[i] == prefix[i];
        }
      }
    }
  }

  /** The blizzards of a faithful listing on `cell` head in pairwise different directions. */
  lemma {:induction false} LandersDistinct(b: Basin, time: nat, listing: seq<Entry>, cell: Cell)
    requires ValidBasin(b) && Faithful(b, listing)
    ensures InsideAll(b, listing)
    ensures Distinct(Landers(b, time, listing, cell))
    decreases |listing|
  {
    assert InsideAll(b, listing);
    if listing != [] {
      var prefix, last := listing[..|listing| - 1], listing[|listing| - 1];
      assert Faithful(b, prefix);
      LandersDistinct(b, time, prefix, cell);
      LandersMembers(b, time, prefix, cell);
      var before := Landers(b, time, prefix, cell);
      var lands := Landing(b, time, last.0, last.1) == cell;
      assert Landers(b, time, listing, cell) == before + (if lands then [last.1] else []);
      assert forall i | 0 <= i < |prefix| :: prefix[i].0 != last.0 by {
        forall i | 0 <= i < |prefix| ensures prefix[i].0 != last.0 {
          assert listing[i] == prefix[i];
        }
      }
      if lands && last.1 in before {
        var i :| 0 <= i < |prefix| && prefix[i].1 == last.1 && Landing(b, time, prefix[i].0, last.1) == cell;
        LandingInjective(b, time, prefix[i].0, last.0, last.1);
      }
    }
  }

  /** A listing of the whole map drops a blizzard heading `d` on `cell` exactly when one is there. */
  lemma ListedHit(b: Basin, time: nat, listing: seq<Entry>, cell: Cell, d: Direction)
    requires ValidBasin(b) && Lists(b, listing)
    ensures InsideAll(b, listing)
    ensures d in Landers(b, time, listing, cell) <==> Hit(b, time, cell, d)
  {
    assert InsideAll(b, listing);
    LandersMembers(b, time, listing, cell);
    if Hit(b, time, cell, d) {
      var p :| p in b.blizzards && b.blizzards[p] == d && Landing(b, time, p, d) == cell;
      var i :| 0 <= i < |listing| && listing[i].0 == p;
      assert listing[i].1 == d;
    }
  }

  /** For a listing of the whole map, the blizzards it drops on a cell are the cell's arrivals. */
  lemma ListedArrivals(b: Basin, time: nat, listing: seq<Entry>, cell: Cell)
    requires ValidBasin(b) && Lists(b, listing)
    ensures InsideAll(b, listing)
    ensures |Landers(b, time, listing, cell)| == |Arrivals(b, time, cell)|
    ensures Render(Landers(b, time, listing, cell)) == Render(Arrivals(b, time, cell))
  {
    assert Faithful(b, listing);
    LandersDistinct(b, time, listing, cell);
    var ls, rs := Landers(b, time, listing, cell), Arrivals(b, time, cell);
    forall d ensures d in ls <==> d in rs {
      ListedHit(b, time, listing, cell, d);
    }
    RenderSameMembers(ls, rs);
  }

  /** Two drawings of the same blizzards, each listed once, look alike. */
  lemma RenderSameMembers(ls: seq<Direction>, rs: seq<Direction>)
    requires Distinct(ls) && Distinct(rs)
    requires forall d :: d in ls <==> d in rs
    ensures |ls| == |rs| && Render(ls) == Render(rs)
  {
    DistinctSameLength(ls, rs);
    if |ls| == 1 {
      assert ls[0] in rs;
    }
  }

  /** `valley_at` draws every cell as the puzzle means it, for any order of visiting the map. */
  lemma ValleyAtDrawn(b: Basin, time: nat, listing: seq<Entry>)
    requires ValidBasin(b) && Lists(b, listing)
    ensures InsideAll(b, listing)
    ensures ValleyAt(b, time, listing).Some?
    ensures forall r, c | 0 <= r < b.height && 0 <= c < b.width ::
      ValleyAt(b, time, listing).value[r][c] == Drawn(b, time, (r, c))
  {
    assert InsideAll(b, listing);
    forall x: Cell ensures |Landers(b, time, listing, x)| < 10 && Render(Landers(b, time, listing, x)) == Some(Drawn(b, time, x)) {
      ListedArrivals(b, time, listing, x);
    }
    ValleyAtRenders(b, time, listing);
  }

  /** Two grids of the valley's shape that agree on every cell are equal. */
  lemma SameGrid(b: Basin, g: seq<seq<char>>, h: seq<seq<char>>)
    requires Shaped(b, g) && Shaped(b, h)
    requires forall r, c | 0 <= r < b.height && 0 <= c < b.width :: g[r][c] == h[r][c]
    ensures g == h
  {
    forall r | 0 <= r < b.height ensures g[r] == h[r] {
    }
  }

  /** The order in which the map is visited does not change the valley. */
  lemma ValleyAtOrderFree(b: Basin, time: nat, one: seq<Entry>, other: seq<Entry>)
    requires ValidBasin(b) && Lists(b, one) && Lists(b, other)
    ensures InsideAll(b, one) && InsideAll(b, other)
    ensures ValleyAt(b, time, one) == ValleyAt(b, time, other)
  {
    ValleyAtDrawn(b, time, one);
    ValleyAtDrawn(b, time, other);
    SameGrid(b, ValleyAt(b, time, one).value, ValleyAt(b, time, other).value);
  }

  // Open positions and moves

  /** A moment of the walk: the time within the period, a row and a column; the entrances lie on
    * rows -1 and `height`, outside the valley. */
  type PositionT = (nat, int, int)

  /** The empty cells of row `row` from column `from` on, at `time`. */
  function OpenInRow(time: nat, row: nat, line: seq<char>, from: nat): (r: seq<PositionT>)
    ensures forall q :: q in r <==> q.0 == time && q.1 == row && from <= q.2 < |line| && line[q.2] == '.'
    decreases |line| - from
  {
    if from >= |line| then []
    else (if line[from] == '.' then [(time, row as int, from as int)] else []) + OpenInRow(time, row, line, from + 1)
  }

  /** The empty cells of the rows from `from` on, row by row. */
  function OpenInRows(time: nat, valley: seq<seq<char>>, from: nat): (r: seq<PositionT>)
    ensures forall q :: q in r <==>
      q.0 == time && from <= q.1 < |valley| && 0 <= q.2 < |valley[q.1]| && valley[q.1][q.2] == '.'
    decreases |valley| - from
  {
    if from >= |valley| then []
    else OpenInRow(time, from, valley[from], 0) + OpenInRows(time, valley, from + 1)
  }

  /** The two entrances: above the first row at the start column, below the last at the end column. */
  predicate Entrance(b: Basin, row: int, column: int)
  {
    (row, column) == (-1, b.start as int) || (row, column) == (b.height as int, b.end as int)
  }

  /** `open_positions`: where one can stand at `time`, the empty cells of the valley and both entrances. */
  function OpenPositions(b: Basin, time: nat, valley: seq<seq<char>>): (r: seq<PositionT>)
    requires Shaped(b, valley)
    ensures forall q :: q in r <==> (q.0 == time && (Entrance(b, q.1, q.2)
      || (0 <= q.1 < b.height && 0 <= q.2 < b.width && valley[q.1][q.2] == '.')))
  {
    OpenInRows(time, valley, 0) + [(time, -1, b.start as int), (time, b.height as int, b.end as int)]
  }

  /** Every valley of a basin can be drawn: no cell ever holds ten blizzards. */
  lemma AlwaysDrawn(b: Basin, listing: seq<Entry>)
    requires ValidBasin(b) && Lists(b, listing)
    ensures InsideAll(b, listing)
    ensures forall time: nat :: ValleyAt(b, time, listing).Some?
  {
    forall time: nat ensures ValleyAt(b, time, listing).Some? {
      ValleyAtDrawn(b, time, listing);
    }
  }

  /** One can stand on a cell of the valley exactly when no blizzard is on it. */
  lemma OpenMeansClear(b: Basin, time: nat, listing: seq<Entry>, q: PositionT)
    requires ValidBasin(b) && Lists(b, listing)
    ensures InsideAll(b, listing) && ValleyAt(b, time, listing).Some?
    ensures q in OpenPositions(b, time, ValleyAt(b, time, listing).value) <==> (q.0 == time && (Entrance(b, q.1, q.2)
      || (0 <= q.1 < b.height && 0 <= q.2 < b.width && Clear(b, time, (q.1 as nat, q.2 as nat)))))
  {
    ValleyAtDrawn(b, time, listing);
    if 0 <= q.1 < b.height && 0 <= q.2 < b.width {
      DrawnEmpty(b, time, (q.1 as nat, q.2 as nat));
    }
  }

  /** The open positions at every time of one period, as `build_graph` gathers them. */
  function OpenSet(b: Basin, listing: seq<Entry>): (r: set<PositionT>)
    requires ValidBasin(b) && Lists(b, listing)
    ensures forall q :: q in r ==> q.0 < b.lcm
  {
    AlwaysDrawn(b, listing);
    set time: nat, q | time < b.lcm && q in OpenPositions(b, time, ValleyAt(b, time, listing).value) :: q
  }

  /** The gathered open positions are the entrances and the clear cells, at any time of the period. */
  lemma OpenSetClear(b: Basin, listing: seq<Entry>, q: PositionT)
    requires ValidBasin(b) && Lists(b, listing)
    ensures q in OpenSet(b, listing) <==> (q.0 < b.lcm && (Entrance(b, q.1, q.2)
      || (0 <= q.1 < b.height && 0 <= q.2 < b.width && Clear(b, q.0, (q.1 as nat, q.2 as nat)))))
  {
    OpenMeansClear(b, q.0, listing, q);
    AlwaysDrawn(b, listing);
    if q.0 < b.lcm && q in OpenPositions(b, q.0, ValleyAt(b, q.0, listing).value) {
      assert q in OpenSet(b, listing);
    }
  }

  /** One minute of the walk: the clock ticks within its period, and one moves to a neighbour or waits. */
  predicate Step(p: PositionT, q: PositionT, lcm: nat)
    requires lcm > 0
  {
    q.0 == (p.0 + 1) % lcm && Abs(q.1 - p.1) + Abs(q.2 - p.2) <= 1
  }

  function Abs(x: int): nat
  {
    if x < 0 then -x else x
  }

  /** `possible_moves`: the edges from `p` into the open positions one minute later. */
  function PossibleMoves(p: PositionT, open: set<PositionT>, lcm: nat): (r: seq<(PositionT, PositionT)>)
    requires lcm > 0
    ensures |r| <= 5
    ensures forall e :: e in r <==> e.0 == p && e.1 in open && Step(p, e.1, lcm)
  {
    var next := (p.0 + 1) % lcm;
    var candidates := [(next, p.1 + 1, p.2), (next, p.1, p.2 + 1), (next, p.1 - 1, p.2), (next, p.1, p.2 - 1), (next, p.1, p.2)];
    var r := MovesInto(p, candidates, open);
    assert forall q: PositionT :: Step(p, q, lcm) ==> q in candidates by {
      forall q: PositionT | Step(p, q, lcm) ensures q in candidates {
        if q.1 == p.1 + 1 { assert q == candidates[0]; }
        else if q.2 == p.2 + 1 { assert q == candidates[1]; }
        else if q.1 == p.1 - 1 { assert q == candidates[2]; }
        else if q.2 == p.2 - 1 { assert q == candidates[3]; }
        else { assert q == candidates[4]; }
      }
    }
    r
  }

  /** The edges from `p` to those candidates that are open, in order. */
  function MovesInto(p: PositionT, candidates: seq<PositionT>, open: set<PositionT>): (r: seq<(PositionT, PositionT)>)
    ensures |r| <= |candidates|
    ensures forall e :: e in r <==> e.0 == p && e.1 in candidates && e.1 in open
  {
    if candidates == [] then []
    else (if candidates[0] in open then [(p, candidates[0])] else []) + MovesInto(p, candidates[1..], open)
  }

  /** The edges of the graph over a set of open positions: every possible move of every position. */
  function Edges(open: set<PositionT>, lcm: nat): set<(PositionT, PositionT)>
    requires lcm > 0
  {
    set p, e | p in open && e in PossibleMoves(p, open, lcm) :: e
  }

  /** The graph links two open positions exactly when one is a step after the other. */
  lemma EdgesAreSteps(open: set<PositionT>, lcm: nat, e: (PositionT, PositionT))
    requires lcm > 0
    ensures e in Edges(open, lcm) <==> (e.0 in open && e.1 in open && Step(e.0, e.1, lcm))
  {
    if e.0 in open && e.1 in open && Step(e.0, e.1, lcm) {
      assert e in PossibleMoves(e.0, open, lcm);
    }
  }

  /** `manhattan_distance`: rows plus columns between a moment of the walk and a goal. */
  function Manhattan(from: PositionT, to: (int, int)): (r: nat)
    ensures r == 0 <==> (from.1, from.2) == to
  {
    Abs(from.1 - to.0) + Abs(from.2 - to.1)
  }

  /** The distance never drops by more than the one minute a step costs, so the A* search that
    * uses it as its estimate never overestimates. */
  lemma ManhattanConsistent(p: PositionT, q: PositionT, goal: (int, int), lcm: nat)
    requires lcm > 0 && Step(p, q, lcm)
    ensures Manhattan(p, goal) <= Manhattan(q, goal) + 1
  {
  }

  /** From any position the estimate is at most the length of a walk of `Step`s to the goal. */
  lemma {:induction false} ManhattanAdmissible(walk: seq<PositionT>, goal: (int, int), lcm: nat)
    requires lcm > 0 && |walk| >= 1
    requires forall i | 0 <= i < |walk| - 1 :: Step(walk[i], walk[i + 1], lcm)
    requires (walk[|walk| - 1].1, walk[|walk| - 1].2) == goal
    ensures Manhattan(walk[0], goal) <= |walk| - 1
  {
    if |walk| > 1 {
      ManhattanAdmissible(walk[1..], goal, lcm);
      ManhattanConsistent(walk[0], walk[1], goal, lcm);
    }
  }

  // Reading the valley

  /** The cells of a `height` by `width` grid. */
  function GridCells(height: nat, width: nat): (r: set<Cell>)
    ensures forall p :: p in r <==> p.0 < height && p.1 < width
  {
    set row: nat, column: nat | row < height && column < width :: (row, column)
  }

  /** Every row has at least `width` characters. */
  predicate Covers(valley: seq<seq<char>>, width: nat)
  {
    forall i | 0 <= i < |valley| :: |valley[i]| >= width
  }

  /** `Basin::from`: the width of the first row, the number of rows, and a blizzard for each arrow
    * of the grid; `None` where the source panics on an empty valley, on an empty first row (the
    * period's `gcd` then divides by zero) or on a row shorter than the first. */
  function BasinFrom(start: nat, valley: seq<seq<char>>, end: nat): (r: Option<Basin>)
    ensures r.Some? <==> (valley != [] && |valley[0]| > 0 && Covers(valley, |valley[0]|))
    ensures r.Some? ==> (ValidBasin(r.value) && r.value.height == |valley| && r.value.width == |valley[0]|
      && r.value.start == start && r.value.end == end)
    ensures r.Some? ==> forall p :: p in r.value.blizzards <==>
      (p.0 < r.value.height && p.1 < r.value.width && valley[p.0][p.1] in "^v<>")
    ensures r.Some? ==> forall p | p in r.value.blizzards :: ToChar(r.value.blizzards[p]) == valley[p.0][p.1]
  {
    if valley == [] || |valley[0]| == 0 || !Covers(valley, |valley[0]|) then None
    else
      var height, width := |valley|, |valley[0]|;
      Some(Basin(width, height, start, end, Lcm(height, width),
        map p | p in GridCells(height, width) && valley[p.0][p.1] in "^v<>" :: FromChar(valley[p.0][p.1]).value))
  }

  /** At time 0 every blizzard is where it starts. */
  lemma LandingAtStart(b: Basin, p: Cell, d: Direction)
    requires b.height > 0 && b.width > 0 && InValley(b, p)
    ensures Landing(b, 0, p, d) == p
  {
    DivModUnique(p.0, b.height, 0, p.0);
    DivModUnique(p.1, b.width, 0, p.1);
    match d
    case Up => MoveUpValue(b, 0, p);
    case Left => MoveLeftValue(b, 0, p);
    case _ =>
  }

  /** At time 0 a blizzard heading `d` is on `cell` exactly when it starts there. */
  lemma HitAtStart(b: Basin, cell: Cell, d: Direction)
    requires ValidBasin(b) && InValley(b, cell)
    ensures Hit(b, 0, cell, d) <==> (cell in b.blizzards && b.blizzards[cell] == d)
  {
    if Hit(b, 0, cell, d) {
      var p :| p in b.blizzards && b.blizzards[p] == d && Landing(b, 0, p, d) == cell;
      LandingAtStart(b, p, d);
    }
    if cell in b.blizzards && b.blizzards[cell] == d {
      LandingAtStart(b, cell, d);
    }
  }

  /** At time 0 a cell is drawn as the arrow of the blizzard that starts there, or empty. */
  lemma DrawnAtStart(b: Basin, cell: Cell)
    requires ValidBasin(b) && InValley(b, cell)
    ensures Drawn(b, 0, cell) == if cell in b.blizzards then ToChar(b.blizzards[cell]) else '.'
  {
    var r := Arrivals(b, 0, cell);
    forall d ensures d in r <==> (cell in b.blizzards && b.blizzards[cell] == d) {
      HitAtStart(b, cell, d);
    }
    if cell in b.blizzards {
      var only := [b.blizzards[cell]];
      DistinctSameLength(r, only);
      assert r[0] in r;
    } else {
      DistinctSameLength(r, []);
    }
  }

  /** Read from a rectangular grid of `.` and arrows, the basin drawn at time 0 is that grid again,
    * whatever order its blizzards are visited in. */
  lemma ValleyAtStart(start: nat, valley: seq<seq<char>>, end: nat, listing: seq<Entry>)
    requires BasinFrom(start, valley, end).Some?
    requires forall i | 0 <= i < |valley| :: |valley[i]| == |valley[0]|
    requires forall i, j | 0 <= i < |valley| && 0 <= j < |valley[i]| :: valley[i][j] in ".^v<>"
    requires Lists(BasinFrom(start, valley, end).value, listing)
    ensures InsideAll(BasinFrom(start, valley, end).value, listing)
    ensures ValleyAt(BasinFrom(start, valley, end).value, 0, listing) == Some(valley)
  {
    var b := BasinFrom(start, valley, end).value;
    ValleyAtDrawn(b, 0, listing);
    forall r, c | 0 <= r < b.height && 0 <= c < b.width
      ensures ValleyAt(b, 0, listing).value[r][c] == valley[r][c]
    {
      DrawnAtStart(b, (r, c));
    }
    SameGrid(b, ValleyAt(b, 0, listing).value, valley);
  }

  /** The first example of the puzzle: a 5 by 5 valley with two blizzards. */
  lemma ExampleBasin(valley: seq<seq<char>>)
    requires valley == [".....", ">....", ".....", "...v.", "....."]
    ensures BasinFrom(0, valley, 4).Some?
    ensures BasinFrom(0, valley, 4).value.width == 5 && BasinFrom(0, valley, 4).value.height == 5
    ensures BasinFrom(0, valley, 4).value.blizzards == map[(1, 0) := Right, (3, 3) := Down]
  {
    var b := BasinFrom(0, valley, 4).value;
    forall p | p in b.blizzards ensures p == (1, 0) || p == (3, 3) {
      assert valley[p.0][p.1] in "^v<>";
    }
  }
}
