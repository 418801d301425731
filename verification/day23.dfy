/**
 * Day 23: elves spreading out over a grove. Each round every elf with a neighbour proposes one
 * step towards the first side, in the current order of directions, with no elf on it; the
 * proposals made by one elf alone are carried out, and the order turns one to the left.
 */
module Day23 {
  import opened Wrappers
  import opened Sums

  datatype Elf = Elf(row: int, column: int)

  datatype Direction = North | South | East | West

  /** `transform`: the elf shifted by a row and column offset. */
  function Transform(e: Elf, offset: (int, int)): (r: Elf)
    ensures r.row - e.row == offset.0 && r.column - e.column == offset.1
  {
    Elf(e.row + offset.0, e.column + offset.1)
  }

  /** The eight neighbours in the order of the mask bits: the row above, the two beside, the row below. */
  const NeighbourOffsets: seq<(int, int)> := [(-1, -1), (-1, 0), (-1, 1), (0, -1), (0, 1), (1, -1), (1, 0), (1, 1)]

  /** The cell `dr` rows and `dc` columns away from `e`. */
  function Near(e: Elf, dr: int, dc: int): Elf
  {
    Elf(e.row + dr, e.column + dc)
  }

  /** The elves' puzzle rule: none of the eight cells around `e` holds an elf. */
  predicate Alone(e: Elf, field: set<Elf>)
  {
    Near(e, -1, -1) !in field && Near(e, -1, 0) !in field && Near(e, -1, 1) !in field &&
    Near(e, 0, -1) !in field && Near(e, 0, 1) !in field &&
    Near(e, 1, -1) !in field && Near(e, 1, 0) !in field && Near(e, 1, 1) !in field
  }

  /** The elves' puzzle rule: none of the three cells on side `d` of `e` holds an elf. */
  predicate SideClear(e: Elf, d: Direction, field: set<Elf>)
  {
    match d
    case North => Near(e, -1, -1) !in field && Near(e, -1, 0) !in field && Near(e, -1, 1) !in field
    case South => Near(e, 1, -1) !in field && Near(e, 1, 0) !in field && Near(e, 1, 1) !in field
    case West => Near(e, -1, -1) !in field && Near(e, 0, -1) !in field && Near(e, 1, -1) !in field
    case East => Near(e, -1, 1) !in field && Near(e, 0, 1) !in field && Near(e, 1, 1) !in field
  }

  /** Neighbour `i`, in the order of the mask bits, holds an elf. */
  predicate Occupied(e: Elf, field: set<Elf>, i: nat)
    requires i < 8
  {
    Transform(e, NeighbourOffsets[i]) in field
  }

  /** Bit `i` of the mask, set when that neighbour is occupied. */
  function Bit(i: nat, occupied: bool): bv8
    requires i < 8
  {
    if occupied then (1 as bv8) << i else 0
  }

  /** The neighbour mask of `propose_move`: bit `i` is set when neighbour `i` holds an elf. */
  function Mask(e: Elf, field: set<Elf>): bv8
  {
    Bit(0, Occupied(e, field, 0)) | Bit(1, Occupied(e, field, 1)) | Bit(2, Occupied(e, field, 2)) |
    Bit(3, Occupied(e, field, 3)) | Bit(4, Occupied(e, field, 4)) | Bit(5, Occupied(e, field, 5)) |
    Bit(6, Occupied(e, field, 6)) | Bit(7, Occupied(e, field, 7))
  }

  /** `direction_mask`: the bits of the three neighbours on one side. */
  function DirectionMask(d: Direction): bv8
  {
    match d
    case North => 0x07
    case East => 0x94
    case South => 0xE0
    case West => 0x29
  }

  /** The neighbours of the mask are the cells of the puzzle rule. */
  lemma OccupiedNear(e: Elf, field: set<Elf>)
    ensures Occupied(e, field, 0) == (Near(e, -1, -1) in field) && Occupied(e, field, 1) == (Near(e, -1, 0) in field)
    ensures Occupied(e, field, 2) == (Near(e, -1, 1) in field) && Occupied(e, field, 3) == (Near(e, 0, -1) in field)
    ensures Occupied(e, field, 4) == (Near(e, 0, 1) in field) && Occupied(e, field, 5) == (Near(e, 1, -1) in field)
    ensures Occupied(e, field, 6) == (Near(e, 1, 0) in field) && Occupied(e, field, 7) == (Near(e, 1, 1) in field)
  {
  }

  /** An empty mask is exactly an elf with no neighbour. */
  lemma MaskEmpty(e: Elf, field: set<Elf>)
    ensures Mask(e, field) == 0 <==> Alone(e, field)
  {
    OccupiedNear(e, field);
  }

  /** A side's mask bits are all clear exactly when the side has no elf on it. */
  lemma MaskSide(e: Elf, d: Direction, field: set<Elf>)
    ensures Clear(Mask(e, field), d) <==> SideClear(e, d, field)
  {
    OccupiedNear(e, field);
  }

  /** The step of a proposal in each direction. */
  function Offset(d: Direction): (int, int)
  {
    match d
    case North => (-1, 0)
    case East => (0, 1)
    case South => (1, 0)
    case West => (0, -1)
  }

  /** The cell a step towards `d` reaches is the middle cell of that side, so a clear side leaves it free. */
  lemma TargetOnSide(e: Elf, d: Direction, field: set<Elf>)
    requires SideClear(e, d, field)
    ensures Transform(e, Offset(d)) !in field
  {
    match d
    case North => assert Transform(e, Offset(d)) == Near(e, -1, 0);
    case South => assert Transform(e, Offset(d)) == Near(e, 1, 0);
    case West => assert Transform(e, Offset(d)) == Near(e, 0, -1);
    case East => assert Transform(e, Offset(d)) == Near(e, 0, 1);
  }

  /** `k` is the first direction of `order` whose side is clear. */
  predicate FirstClear(e: Elf, order: seq<Direction>, field: set<Elf>, k: nat)
  {
    k < |order| && SideClear(e, order[k], field) && forall j | 0 <= j < k :: !SideClear(e, order[j], field)
  }

  /** The mask has none of the bits of side `d`. */
  predicate Clear(mask: bv8, d: Direction)
  {
    mask & DirectionMask(d) == 0
  }

  /** The `find` over the order: the index of the first direction whose mask bits are clear. */
  function FindClear(mask: bv8, order: seq<Direction>): (r: Option<nat>)
    ensures r.Some? ==> r.value < |order| && Clear(mask, order[r.value]) &&
                        forall j | 0 <= j < r.value :: !Clear(mask, order[j])
    ensures r.None? ==> forall j | 0 <= j < |order| :: !Clear(mask, order[j])
  {
    if order == [] then None
    else if Clear(mask, order[0]) then Some(0)
    else
      var rest := FindClear(mask, order[1..]);
      assert forall j | 1 <= j < |order| :: order[j] == order[1..][j - 1];
      match rest
      case None => None
      case Some(k) => Some(k + 1)
  }

  /**
   * `Elf::propose_move`: nothing for an elf with no neighbour; otherwise one step towards the
   * first direction of the order whose side is clear, or nothing when no side is.
   */
  function ProposeMove(e: Elf, order: seq<Direction>, field: set<Elf>): (r: Option<Elf>)
    ensures Alone(e, field) ==> r.None?
    ensures !Alone(e, field) && (exists k | 0 <= k < |order| :: SideClear(e, order[k], field)) ==> r.Some?
    ensures r.Some? ==> exists k | 0 <= k < |order| :: FirstClear(e, order, field, k) && r.value == Transform(e, Offset(order[k]))
    ensures r.Some? ==> r.value !in field
  {
    var mask := Mask(e, field);
    MaskEmpty(e, field);
    if mask == 0 then None
    else
      match FindClear(mask, order)
      case None =>
        forall k | 0 <= k < |order|
          ensures !SideClear(e, order[k], field)
        {
          MaskSide(e, order[k], field);
        }
        None
      case Some(k) =>
        MaskSide(e, order[k], field);
        forall j | 0 <= j < k
          ensures !SideClear(e, order[j], field)
        {
          MaskSide(e, order[j], field);
        }
        TargetOnSide(e, order[k], field);
        Some(Transform(e, Offset(order[k])))
  }

  /** The first clear direction is unique, so the proposal is the step towards it. */
  lemma FirstClearUnique(e: Elf, order: seq<Direction>, field: set<Elf>, k: nat, k': nat)
    requires FirstClear(e, order, field, k) && FirstClear(e, order, field, k')
    ensures k == k'
  {
  }

  // A round

  /** The grove's field: the set of places holding an elf. */
  function Field(elves: seq<Elf>): set<Elf>
  {
    set e | e in elves
  }

  /** How many of `elves` propose to move to `t`. */
  function Proposers(elves: seq<Elf>, order: seq<Direction>, field: set<Elf>, t: Elf): nat
  {
    Count(e => ProposeMove(e, order, field) == Some(t), elves)
  }

  /** Two different places satisfying `p` make a count of at least two. */
  lemma CountTwo<T>(p: T -> bool, xs: seq<T>, i: nat, j: nat)
    requires i < j < |xs| && p(xs[i]) && p(xs[j])
    ensures Count(p, xs) >= 2
  {
    assert xs == xs[..j] + xs[j..];
    CountProperties(p, xs[..j], xs[j..]);
    assert xs[..j][i] == xs[i];
    CountProperties(p, xs[..j], []);
    assert xs[j..][0] == xs[j];
    CountProperties(p, xs[j..], []);
  }

  /** Two different places of `elves` proposing `t` make at least two proposers. */
  lemma TwoProposers(elves: seq<Elf>, order: seq<Direction>, field: set<Elf>, t: Elf, i: nat, j: nat)
    requires i < j < |elves|
    requires ProposeMove(elves[i], order, field) == Some(t) && ProposeMove(elves[j], order, field) == Some(t)
    ensures Proposers(elves, order, field, t) >= 2
  {
    CountTwo(e => ProposeMove(e, order, field) == Some(t), elves, i, j);
  }

  /** The move of one elf: its target when it alone proposes it. */
  function Moved(elves: seq<Elf>, order: seq<Direction>, e: Elf): Option<Elf>
  {
    var field := Field(elves);
    match ProposeMove(e, order, field)
    case None => None
    case Some(t) => if Proposers(elves, order, field, t) == 1 then Some(t) else None
  }

  /**
   * `Grove::execute_round`: the (new, old) pairs of the elves whose target no other elf
   * proposed, listed in the order of `elves[from..]`.
   */
  function ExecuteRound(elves: seq<Elf>, order: seq<Direction>, from: nat): (moves: seq<(Elf, Elf)>)
    requires from <= |elves|
    ensures forall m | m in moves :: m.1 in elves[from..] && Moved(elves, order, m.1) == Some(m.0)
    ensures forall i | from <= i < |elves| :: Moved(elves, order, elves[i]).Some? ==>
              (Moved(elves, order, elves[i]).value, elves[i]) in moves
    decreases |elves| - from
  {
    if from == |elves| then []
    else
      var rest := ExecuteRound(elves, order, from + 1);
      assert forall m | m in rest :: m.1 in elves[from..] by {
        assert elves[from + 1..] == elves[from..][1..];
      }
      match Moved(elves, order, elves[from])
      case None => rest
      case Some(t) => [(t, elves[from])] + rest
  }

  /** The moves of a whole round. */
  function Round(elves: seq<Elf>, order: seq<Direction>): seq<(Elf, Elf)>
  {
    ExecuteRound(elves, order, 0)
  }

  /** No two elves of a distinct listing move to the same place. */
  lemma MovedApart(elves: seq<Elf>, order: seq<Direction>, i: nat, j: nat)
    requires Distinct(elves) && i < |elves| && j < |elves| && i != j
    requires Moved(elves, order, elves[i]).Some?
    ensures Moved(elves, order, elves[i]) != Moved(elves, order, elves[j])
  {
    var t := Moved(elves, order, elves[i]).value;
    if Moved(elves, order, elves[j]) == Some(t) {
      if i < j {
        TwoProposers(elves, order, Field(elves), t, i, j);
      } else {
        TwoProposers(elves, order, Field(elves), t, j, i);
      }
    }
  }

  /** The pairs of `ExecuteRound` over a distinct listing move different elves to different free places. */
  lemma {:induction false} RoundDisjoint(elves: seq<Elf>, order: seq<Direction>, from: nat)
    requires Distinct(elves) && from <= |elves|
    ensures Disjoint(Field(elves), ExecuteRound(elves, order, from))
    decreases |elves| - from
  {
    if from < |elves| {
      RoundDisjoint(elves, order, from + 1);
      var rest := ExecuteRound(elves, order, from + 1);
      if Moved(elves, order, elves[from]).Some? {
        var t := Moved(elves, order, elves[from]).value;
        assert ExecuteRound(elves, order, from) == [(t, elves[from])] + rest;
        forall m | m in rest
          ensures m.0 != t && m.1 != elves[from]
        {
          var j :| from + 1 <= j < |elves| && elves[j] == m.1 by {
            assert m.1 in elves[from + 1..];
          }
          MovedApart(elves, order, from, j);
        }
        ApartCons((t, elves[from]), rest);
      }
    }
  }

  // Carrying out the moves

  /** `Grove::swap`: the elf at `leaver` moves to `target`. */
  function Swap(field: set<Elf>, target: Elf, leaver: Elf): (r: set<Elf>)
    ensures target != leaver ==> target in r && leaver !in r
    ensures forall e | e != target && e != leaver :: e in r <==> e in field
  {
    (field + {target}) - {leaver}
  }

  /** The swaps applied one after the other. */
  function ApplySwaps(field: set<Elf>, moves: seq<(Elf, Elf)>): set<Elf>
    decreases |moves|
  {
    if moves == [] then field else ApplySwaps(Swap(field, moves[0].0, moves[0].1), moves[1..])
  }

  function Targets(moves: seq<(Elf, Elf)>): set<Elf>
  {
    set m | m in moves :: m.0
  }

  function Leavers(moves: seq<(Elf, Elf)>): set<Elf>
  {
    set m | m in moves :: m.1
  }

  /** Different moves have different targets and different leavers. */
  predicate Apart(moves: seq<(Elf, Elf)>)
  {
    forall a, b | 0 <= a < b < |moves| :: moves[a].0 != moves[b].0 && moves[a].1 != moves[b].1
  }

  /** Moves to free, different places from different occupied places. */
  predicate Disjoint(field: set<Elf>, moves: seq<(Elf, Elf)>)
  {
    (forall m | m in moves :: m.0 !in field && m.1 in field) && Apart(moves)
  }

  lemma ApartCons(x: (Elf, Elf), rest: seq<(Elf, Elf)>)
    requires Apart(rest) && forall m | m in rest :: m.0 != x.0 && m.1 != x.1
    ensures Apart([x] + rest)
  {
    var moves := [x] + rest;
    forall a, b | 0 <= a < b < |moves|
      ensures moves[a].0 != moves[b].0 && moves[a].1 != moves[b].1
    {
      if a == 0 {
        assert moves[b] == rest[b - 1];
      } else {
        assert moves[a] == rest[a - 1] && moves[b] == rest[b - 1];
      }
    }
  }

  lemma ApartTail(moves: seq<(Elf, Elf)>)
    requires Apart(moves) && moves != []
    ensures Apart(moves[1..])
    ensures forall m | m in moves[1..] :: m.0 != moves[0].0 && m.1 != moves[0].1
  {
    var rest := moves[1..];
    forall a, b | 0 <= a < b < |rest|
      ensures rest[a].0 != rest[b].0 && rest[a].1 != rest[b].1
    {
      assert rest[a] == moves[a + 1] && rest[b] == moves[b + 1];
    }
    forall m | m in rest
      ensures m.0 != moves[0].0 && m.1 != moves[0].1
    {
      var b :| 0 <= b < |rest| && rest[b] == m;
      assert m == moves[b + 1];
    }
  }

  lemma TargetsCons(moves: seq<(Elf, Elf)>)
    requires moves != []
    ensures Targets(moves) == {moves[0].0} + Targets(moves[1..])
    ensures Leavers(moves) == {moves[0].1} + Leavers(moves[1..])
  {
    assert moves == [moves[0]] + moves[1..];
  }

  /** Such moves, in any order, empty the places left and fill the targets. */
  lemma {:induction false} ApplySwapsSets(field: set<Elf>, moves: seq<(Elf, Elf)>)
    requires Disjoint(field, moves)
    ensures ApplySwaps(field, moves) == (field - Leavers(moves)) + Targets(moves)
    decreases |moves|
  {
    if moves != [] {
      var (target, leaver) := moves[0];
      var rest := moves[1..];
      var next := Swap(field, target, leaver);
      ApartTail(moves);
      assert Disjoint(next, rest);
      ApplySwapsSets(next, rest);
      TargetsCons(moves);
    }
  }

  /** Such moves keep the number of elves: as many places are filled as are left. */
  lemma ApplySwapsCount(field: set<Elf>, moves: seq<(Elf, Elf)>)
    requires Disjoint(field, moves)
    ensures |ApplySwaps(field, moves)| == |field|
  {
    ApplySwapsSets(field, moves);
    MovesCard(moves);
    assert Leavers(moves) <= field;
    assert Targets(moves) !! field - Leavers(moves);
  }

  /** Moves with different targets and different leavers have as many targets as leavers. */
  lemma {:induction false} MovesCard(moves: seq<(Elf, Elf)>)
    requires Apart(moves)
    ensures |Targets(moves)| == |Leavers(moves)| == |moves|
    decreases |moves|
  {
    if moves != [] {
      var rest := moves[1..];
      ApartTail(moves);
      MovesCard(rest);
      TargetsCons(moves);
      assert moves[0].0 !in Targets(rest) && moves[0].1 !in Leavers(rest);
      assert |{moves[0].0} + Targets(rest)| == 1 + |Targets(rest)|;
      assert |{moves[0].1} + Leavers(rest)| == 1 + |Leavers(rest)|;
    }
  }

  /** A round keeps the number of elves in the grove. */
  lemma RoundKeepsCount(elves: seq<Elf>, order: seq<Direction>)
    requires Distinct(elves)
    ensures |ApplySwaps(Field(elves), Round(elves, order))| == |Field(elves)|
  {
    RoundDisjoint(elves, order, 0);
    ApplySwapsCount(Field(elves), Round(elves, order));
  }
  // Rounds on the listing of the elves

  /** The listing after a round: each elf that moves is replaced by its target. */
  function NextElves(elves: seq<Elf>, order: seq<Direction>): (r: seq<Elf>)
    ensures |r| == |elves|
  {
    seq(|elves|, i requires 0 <= i < |elves| => Moved(elves, order, elves[i]).UnwrapOr(elves[i]))
  }

  /** The elves that leave in a round are exactly those whose proposal goes through. */
  lemma RoundLeavers(elves: seq<Elf>, order: seq<Direction>, x: Elf)
    ensures x in Leavers(Round(elves, order)) <==> x in Field(elves) && Moved(elves, order, x).Some?
  {
    var moves := Round(elves, order);
    if x in Field(elves) && Moved(elves, order, x).Some? {
      var i :| 0 <= i < |elves| && elves[i] == x;
      assert (Moved(elves, order, x).value, x) in moves;
    }
  }

  /** The new listing holds the places the swaps of the round leave occupied. */
  lemma NextElvesField(elves: seq<Elf>, order: seq<Direction>)
    requires Distinct(elves)
    ensures Field(NextElves(elves, order)) == ApplySwaps(Field(elves), Round(elves, order))
  {
    var moves := Round(elves, order);
    var next := NextElves(elves, order);
    RoundDisjoint(elves, order, 0);
    ApplySwapsSets(Field(elves), moves);
    forall x | x in Field(next)
      ensures x in (Field(elves) - Leavers(moves)) + Targets(moves)
    {
      var i :| 0 <= i < |next| && next[i] == x;
      var e := elves[i];
      RoundLeavers(elves, order, e);
      if Moved(elves, order, e).Some? {
        assert (x, e) in moves;
      }
    }
    forall x | x in (Field(elves) - Leavers(moves)) + Targets(moves)
      ensures x in Field(next)
    {
      if x in Targets(moves) {
        var m :| m in moves && m.0 == x;
        var i :| 0 <= i < |elves| && elves[i] == m.1;
        assert next[i] == x;
      } else {
        var i :| 0 <= i < |elves| && elves[i] == x;
        RoundLeavers(elves, order, x);
        assert next[i] == x;
      }
    }
  }

  /** A round keeps a listing without repeats free of repeats. */
  lemma NextElvesDistinct(elves: seq<Elf>, order: seq<Direction>)
    requires Distinct(elves)
    ensures Distinct(NextElves(elves, order))
  {
    var next := NextElves(elves, order);
    forall i, j | 0 <= i < j < |next|
      ensures next[i] != next[j]
    {
      var mi, mj := Moved(elves, order, elves[i]), Moved(elves, order, elves[j]);
      if mi.Some? {
        MovedApart(elves, order, i, j);
        assert mi.value !in Field(elves);
      } else if mj.Some? {
        MovedApart(elves, order, j, i);
        assert mj.value !in Field(elves);
      }
    }
  }

  /** The first direction to consider goes to the back after every round. */
  function RotateLeft(order: seq<Direction>): (r: seq<Direction>)
    ensures |r| == |order|
    ensures order != [] ==> r[|r| - 1] == order[0] && r[..|r| - 1] == order[1..]
  {
    if order == [] then [] else order[1..] + [order[0]]
  }

  const InitialOrder: seq<Direction> := [North, South, West, East]

  /** Four rotations bring the four directions back to their first order. */
  lemma RotateFour()
    ensures RotateLeft(RotateLeft(RotateLeft(RotateLeft(InitialOrder)))) == InitialOrder
  {
  }

  // Repeating rounds

  /** The elves together with the order in which they consider the directions. */
  datatype Grove = Grove(elves: seq<Elf>, order: seq<Direction>)

  /** One round: the elves move and the order rotates. */
  function Step(g: Grove): (r: Grove)
    ensures |r.elves| == |g.elves| && |r.order| == |g.order|
  {
    Grove(NextElves(g.elves, g.order), RotateLeft(g.order))
  }

  /** `n` applications of `step`. */
  function Iterate<S>(step: S -> S, s: S, n: nat): S
    decreases n
  {
    if n == 0 then s else Iterate(step, step(s), n - 1)
  }

  lemma {:induction false} IterateAdd<S>(step: S -> S, s: S, m: nat, n: nat)
    ensures Iterate(step, Iterate(step, s, m), n) == Iterate(step, s, m + n)
    decreases m
  {
    if m > 0 {
      IterateAdd(step, step(s), m - 1, n);
      assert m + n - 1 == (m - 1) + n;
    }
  }

  lemma {:induction false} IterateKeeps<S>(step: S -> S, inv: S -> bool, s: S, n: nat)
    requires inv(s)
    requires forall x :: inv(x) ==> inv(step(x))
    ensures inv(Iterate(step, s, n))
    decreases n
  {
    if n > 0 {
      IterateKeeps(step, inv, step(s), n - 1);
    }
  }

  /** The grove after `rounds` rounds. */
  function Spread(elves: seq<Elf>, order: seq<Direction>, rounds: nat): Grove
  {
    Iterate(Step, Grove(elves, order), rounds)
  }

  /** Spreading for `m` and then `n` rounds is spreading for `m + n`. */
  lemma SpreadAdd(elves: seq<Elf>, order: seq<Direction>, m: nat, n: nat)
    ensures var g := Spread(elves, order, m); Spread(g.elves, g.order, n) == Spread(elves, order, m + n)
  {
    IterateAdd(Step, Grove(elves, order), m, n);
  }

  /** Elves apart and `count` of them. */
  predicate Kept(g: Grove, count: nat)
  {
    Distinct(g.elves) && |Field(g.elves)| == count
  }

  /** Spreading keeps the elves apart and keeps their number. */
  lemma SpreadKeepsCount(elves: seq<Elf>, order: seq<Direction>, rounds: nat)
    requires Distinct(elves)
    ensures Distinct(Spread(elves, order, rounds).elves)
    ensures |Field(Spread(elves, order, rounds).elves)| == |Field(elves)|
  {
    var count := |Field(elves)|;
    forall g | Kept(g, count) ensures Kept(Step(g), count) {
      NextElvesDistinct(g.elves, g.order);
      RoundKeepsCount(g.elves, g.order);
      NextElvesField(g.elves, g.order);
    }
    IterateKeeps(Step, g => Kept(g, count), Grove(elves, order), rounds);
  }

  /** The fewest steps after which `stop` holds, looking at most `fuel` steps ahead. */
  function FirstStop<S>(step: S -> S, stop: S -> bool, s: S, fuel: nat): Option<nat>
    decreases fuel
  {
    if stop(s) then Some(0)
    else if fuel == 0 then None
    else
      match FirstStop(step, stop, step(s), fuel - 1)
      case Some(k) => Some(k + 1)
      case None => None
  }

  lemma {:induction false} FirstStopFirst<S>(step: S -> S, stop: S -> bool, s: S, fuel: nat)
    ensures match FirstStop(step, stop, s, fuel)
      case Some(k) =>
        k <= fuel && stop(Iterate(step, s, k)) && forall j | 0 <= j < k :: !stop(Iterate(step, s, j))
      case None => forall j | 0 <= j <= fuel :: !stop(Iterate(step, s, j))
    decreases fuel
  {
    if !stop(s) && fuel > 0 {
      FirstStopFirst(step, stop, step(s), fuel - 1);
      forall j | 1 <= j <= fuel ensures Iterate(step, s, j) == Iterate(step, step(s), j - 1) {
      }
    }
  }

  /** No elf moves in the next round. */
  predicate Still(g: Grove)
  {
    Round(g.elves, g.order) == []
  }

  // The bounding rectangle and the empty ground in it

  /** The smallest and largest row and column of the elves, when there are any. */
  datatype Bounds = Bounds(top: int, bottom: int, left: int, right: int)

  function Rows(elves: seq<Elf>): (r: seq<int>)
    ensures |r| == |elves| && forall i | 0 <= i < |elves| :: r[i] == elves[i].row
  {
    seq(|elves|, i requires 0 <= i < |elves| => elves[i].row)
  }

  function Columns(elves: seq<Elf>): (r: seq<int>)
    ensures |r| == |elves| && forall i | 0 <= i < |elves| :: r[i] == elves[i].column
  {
    seq(|elves|, i requires 0 <= i < |elves| => elves[i].column)
  }

  /** Every elf lies inside the rectangle. */
  predicate Inside(b: Bounds, e: Elf)
  {
    b.top <= e.row <= b.bottom && b.left <= e.column <= b.right
  }

  /** Every elf lies inside the rectangle and an elf lies on each of its four sides. */
  predicate Tight(elves: seq<Elf>, b: Bounds)
  {
    (forall e | e in elves :: Inside(b, e))
    && (exists e | e in elves :: e.row == b.top)
    && (exists e | e in elves :: e.row == b.bottom)
    && (exists e | e in elves :: e.column == b.left)
    && (exists e | e in elves :: e.column == b.right)
  }

  /** The range of the grove: `None` where the source unwraps the minimum of no elves. */
  function Range(elves: seq<Elf>): (r: Option<Bounds>)
    ensures r.None? <==> elves == []
    ensures r.Some? ==> Tight(elves, r.value)
  {
    if elves == [] then None
    else
      var top, bottom := Min(Rows(elves)).value, Max(Rows(elves)).value;
      var left, right := Min(Columns(elves)).value, Max(Columns(elves)).value;
      var b := Bounds(top, bottom, left, right);
      assert forall e | e in elves :: Inside(b, e) by {
        forall e | e in elves ensures Inside(b, e) {
          var i :| 0 <= i < |elves| && elves[i] == e;
          assert Rows(elves)[i] == e.row && Columns(elves)[i] == e.column;
        }
      }
      Some(b)
  }

  /** At most one rectangle fits the elves tightly. */
  lemma TightUnique(elves: seq<Elf>, b: Bounds, c: Bounds)
    requires Tight(elves, b) && Tight(elves, c)
    ensures b == c
  {
    var e1 :| e1 in elves && e1.row == b.top;
    var e2 :| e2 in elves && e2.row == c.top;
    assert Inside(b, e2) && Inside(c, e1);
    var e3 :| e3 in elves && e3.row == b.bottom;
    var e4 :| e4 in elves && e4.row == c.bottom;
    assert Inside(b, e4) && Inside(c, e3);
    var e5 :| e5 in elves && e5.column == b.left;
    var e6 :| e6 in elves && e6.column == c.left;
    assert Inside(b, e6) && Inside(c, e5);
    var e7 :| e7 in elves && e7.column == b.right;
    var e8 :| e8 in elves && e8.column == c.right;
    assert Inside(b, e8) && Inside(c, e7);
  }

  /** The range is the one rectangle that fits the elves tightly. */
  lemma RangeTight(elves: seq<Elf>, b: Bounds)
    ensures Range(elves) == Some(b) <==> Tight(elves, b)
  {
    if Tight(elves, b) {
      var e :| e in elves && e.row == b.top;
      TightUnique(elves, Range(elves).value, b);
    }
  }

  /** The cells of one row between two columns. */
  function RowCells(row: int, left: int, right: int): set<Elf>
  {
    set c | left <= c <= right :: Elf(row, c)
  }

  /** The cells of the rectangle. */
  function Cells(b: Bounds): set<Elf>
  {
    set r, c | b.top <= r <= b.bottom && b.left <= c <= b.right :: Elf(r, c)
  }

  lemma {:induction false} RowCellsCount(row: int, left: int, right: int)
    requires left <= right + 1
    ensures |RowCells(row, left, right)| == right + 1 - left
    decreases right + 1 - left
  {
    if left <= right {
      RowCellsCount(row, left, right - 1);
      assert RowCells(row, left, right) == RowCells(row, left, right - 1) + {Elf(row, right)};
    } else {
      assert RowCells(row, left, right) == {};
    }
  }

  /** A rectangle of `h` rows and `w` columns holds `h * w` cells. */
  lemma {:induction false} CellsCount(b: Bounds)
    requires b.top <= b.bottom + 1 && b.left <= b.right + 1
    ensures |Cells(b)| == (b.bottom + 1 - b.top) * (b.right + 1 - b.left)
    decreases b.bottom + 1 - b.top
  {
    if b.top <= b.bottom {
      var shorter := b.(bottom := b.bottom - 1);
      var h, w := b.bottom - b.top, b.right + 1 - b.left;
      CellsCount(shorter);
      RowCellsCount(b.bottom, b.left, b.right);
      CellsSplit(b);
      assert (h + 1) * w == h * w + w;
    } else {
      assert Cells(b) == {};
    }
  }

  /** A rectangle is its last row together with the rows above it. */
  lemma CellsSplit(b: Bounds)
    requires b.top <= b.bottom
    ensures var shorter := b.(bottom := b.bottom - 1);
      Cells(b) == Cells(shorter) + RowCells(b.bottom, b.left, b.right)
      && Cells(shorter) !! RowCells(b.bottom, b.left, b.right)
  {
    var shorter := b.(bottom := b.bottom - 1);
    var row := RowCells(b.bottom, b.left, b.right);
    forall x | x in Cells(b) ensures x in Cells(shorter) + row {
      if x.row < b.bottom {
        assert x in Cells(shorter);
      } else {
        assert x in row;
      }
    }
    forall x | x in row ensures x !in Cells(shorter) {
    }
  }

  /** The number of cells of the rectangle. */
  function Area(b: Bounds): int
  {
    (b.bottom + 1 - b.top) * (b.right + 1 - b.left)
  }

  /** The area of the range less the number of elves. */
  function EmptyTiles(elves: seq<Elf>): (r: Option<int>)
    ensures r.None? <==> elves == []
  {
    match Range(elves)
    case None => None
    case Some(b) => Some(Area(b) - |Field(elves)|)
  }

  /** Inside a rectangle holding all the elves, the area less the elves counts the free cells. */
  lemma FreeCells(elves: seq<Elf>, b: Bounds)
    requires elves != [] && forall e | e in elves :: Inside(b, e)
    ensures Area(b) - |Field(elves)| == |Cells(b) - Field(elves)|
  {
    assert Inside(b, elves[0]);
    CellsCount(b);
    FieldInCells(elves, b);
    SubsetCount(Field(elves), Cells(b));
  }

  /** The empty tiles are the cells of the range that hold no elf. */
  lemma EmptyTilesCount(elves: seq<Elf>)
    requires elves != []
    ensures EmptyTiles(elves).value == |Cells(Range(elves).value) - Field(elves)|
    ensures EmptyTiles(elves).value >= 0
  {
    FreeCells(elves, Range(elves).value);
  }

  lemma FieldInCells(elves: seq<Elf>, b: Bounds)
    requires forall e | e in elves :: Inside(b, e)
    ensures Field(elves) <= Cells(b)
  {
    forall e | e in Field(elves) ensures e in Cells(b) {
      assert Inside(b, e);
      assert e == Elf(e.row, e.column);
    }
  }

  lemma SubsetCount<T>(a: set<T>, b: set<T>)
    requires a <= b
    ensures |b - a| == |b| - |a|
  {
    assert b == (b - a) + a;
  }

  /** A listing without repeats holds as many elves as its set. */
  lemma {:induction false} FieldCount(elves: seq<Elf>)
    requires Distinct(elves)
    ensures |Field(elves)| == |elves|
    decreases |elves|
  {
    if elves != [] {
      var rest := elves[1..];
      assert Distinct(rest) by {
        forall i, j | 0 <= i < j < |rest| ensures rest[i] != rest[j] {
          assert rest[i] == elves[i + 1] && rest[j] == elves[j + 1];
        }
      }
      FieldCount(rest);
      assert Field(elves) == {elves[0]} + Field(rest);
      assert elves[0] !in Field(rest);
    }
  }

  // Reading the map

  /** Elves are listed in reading order. */
  predicate Before(a: Elf, b: Elf)
  {
    a.row < b.row || (a.row == b.row && a.column < b.column)
  }

  predicate ReadingOrder(elves: seq<Elf>)
  {
    forall i, j | 0 <= i < j < |elves| :: Before(elves[i], elves[j])
  }

  /** The elves of one line, from column `from` on. */
  function LineElves(line: string, row: nat, from: nat): (r: seq<Elf>)
    requires from <= |line|
    ensures forall e :: e in r <==> e.row == row && from <= e.column < |line| && line[e.column] == '#'
    ensures ReadingOrder(r)
    decreases |line| - from
  {
    if from == |line| then []
    else
      var rest := LineElves(line, row, from + 1);
      if line[from] == '#' then [Elf(row, from)] + rest else rest
  }

  /** The elves of the lines from `from` on. */
  function Grid(lines: seq<string>, from: nat): (r: seq<Elf>)
    requires from <= |lines|
    ensures forall e :: e in r <==>
      from <= e.row < |lines| && 0 <= e.column < |lines[e.row]| && lines[e.row][e.column] == '#'
    ensures ReadingOrder(r)
    decreases |lines| - from
  {
    if from == |lines| then []
    else
      var line := LineElves(lines[from], from, 0);
      var rest := Grid(lines, from + 1);
      ConcatOrder(line, rest, from);
      line + rest
  }

  lemma ConcatOrder(line: seq<Elf>, rest: seq<Elf>, row: int)
    requires ReadingOrder(line) && ReadingOrder(rest)
    requires forall e | e in line :: e.row == row
    requires forall e | e in rest :: e.row > row
    ensures ReadingOrder(line + rest)
  {
    var all := line + rest;
    forall i, j | 0 <= i < j < |all| ensures Before(all[i], all[j]) {
      if j < |line| {
        assert all[i] == line[i] && all[j] == line[j];
      } else if i >= |line| {
        assert all[i] == rest[i - |line|] && all[j] == rest[j - |line|];
      } else {
        assert all[i] in line && all[j] in rest;
      }
    }
  }

  /** A listing in reading order has no repeats. */
  lemma ReadingOrderDistinct(elves: seq<Elf>)
    requires ReadingOrder(elves)
    ensures Distinct(elves)
  {
    forall i, j | 0 <= i < j < |elves| ensures elves[i] != elves[j] {
      assert Before(elves[i], elves[j]);
    }
  }

  /** The elves of the map: one for each `#`, at its line and column. */
  function ElfMap(lines: seq<string>): (r: seq<Elf>)
    ensures forall e :: e in r <==>
      0 <= e.row < |lines| && 0 <= e.column < |lines[e.row]| && lines[e.row][e.column] == '#'
    ensures ReadingOrder(r) && Distinct(r)
  {
    var r := Grid(lines, 0);
    ReadingOrderDistinct(r);
    r
  }

  // Solutions

  /** Empty ground in the range after ten rounds; `None` for a map without elves. */
  function SolvePart1(lines: seq<string>): (r: Option<int>)
    ensures r.None? <==> ElfMap(lines) == []
  {
    EmptyTiles(Spread(ElfMap(lines), InitialOrder, 10).elves)
  }

  /** The first part counts the cells of the tight rectangle around the elves after ten rounds that no elf stands on. */
  lemma SolvePart1Count(lines: seq<string>)
    requires ElfMap(lines) != []
    ensures var g := Spread(ElfMap(lines), InitialOrder, 10).elves;
      g != [] && SolvePart1(lines) == Some(|Cells(Range(g).value) - Field(g)|)
  {
    SpreadKeepsCount(ElfMap(lines), InitialOrder, 10);
    EmptyTilesCount(Spread(ElfMap(lines), InitialOrder, 10).elves);
  }

  /** Counted from zero, `FirstStop` finds the first round of a grove without moves. */
  lemma Settles(g: Grove, fuel: nat)
    ensures match FirstStop(Step, Still, g, fuel)
      case Some(k) => k <= fuel && Still(Iterate(Step, g, k)) && forall j | 0 <= j < k :: !Still(Iterate(Step, g, j))
      case None => forall j | 0 <= j <= fuel :: !Still(Iterate(Step, g, j))
  {
    FirstStopFirst(Step, Still, g, fuel);
  }

  /** The number, from one, of the first round in which no elf moves; at most `fuel` rounds past the first. */
  function SettleRound(elves: seq<Elf>, fuel: nat): Option<nat>
  {
    match FirstStop(Step, Still, Grove(elves, InitialOrder), fuel)
    case Some(k) => Some(k + 1)
    case None => None
  }

  /** `r` is the number, from one, of the first round without moves within `fuel` rounds past
   * the first, or `None` when every one of those rounds has a move. */
  ghost predicate FirstStillRound(elves: seq<Elf>, fuel: nat, r: Option<nat>)
  {
    match r
    case Some(n) =>
      1 <= n <= 1 + fuel && Still(Spread(elves, InitialOrder, n - 1))
      && forall j | 0 <= j < n - 1 :: !Still(Spread(elves, InitialOrder, j))
    case None => forall j | 0 <= j <= fuel :: !Still(Spread(elves, InitialOrder, j))
  }

  /** `SettleRound` numbers, from one, the first round without moves. */
  lemma SettleRoundFirst(elves: seq<Elf>, fuel: nat)
    ensures match SettleRound(elves, fuel)
      case Some(n) =>
        1 <= n <= 1 + fuel && Still(Spread(elves, InitialOrder, n - 1))
        && forall j | 0 <= j < n - 1 :: !Still(Spread(elves, InitialOrder, j))
      case None => forall j | 0 <= j <= fuel :: !Still(Spread(elves, InitialOrder, j))
  {
    var g := Grove(elves, InitialOrder);
    Settles(g, fuel);
    match FirstStop(Step, Still, g, fuel)
    case Some(k) =>
      assert Spread(elves, InitialOrder, k) == Iterate(Step, g, k);
    case None =>
  }

  /** The same, stated through `FirstStillRound`. */
  lemma SettleRoundIsFirstStill(elves: seq<Elf>, fuel: nat)
    ensures FirstStillRound(elves, fuel, SettleRound(elves, fuel))
  {
    SettleRoundFirst(elves, fuel);
  }

  /** The second part: the first round without moves for the elves of the map. */
  function SolvePart2(lines: seq<string>, fuel: nat): (r: Option<nat>)
    ensures FirstStillRound(ElfMap(lines), fuel, r)
  {
    SettleRoundIsFirstStill(ElfMap(lines), fuel);
    SettleRound(ElfMap(lines), fuel)
  }
}
