/**
 * Day 5, Supply Stacks: crates sit in numbered stacks (bottom first, top last) and a
 * crane carries out moves "count crates from stack `from` to stack `to`", numbered
 * from 1. The part 1 crane carries one crate at a time, the part 2 crane the whole
 * block at once; either way the answer is the top crate of every non-empty stack.
 */
module Day05 {
  import opened Wrappers
  import opened Seqs

  type Stacks = seq<seq<char>>

  /** `Move { count, from, to }`, one-based stack numbers as in the puzzle text. */
  datatype Move = Move(count: nat, from: nat, to: nat)

  function Crates(stacks: Stacks): nat
  {
    if stacks == [] then 0 else |stacks[0]| + Crates(stacks[1..])
  }

  /** Changing one stack changes the crate count by its change in height. */
  lemma {:induction false} CratesUpdate(stacks: Stacks, i: nat, s: seq<char>)
    requires i < |stacks|
    ensures Crates(stacks[i := s]) + |stacks[i]| == Crates(stacks) + |s|
  {
    if i > 0 {
      CratesUpdate(stacks[1..], i - 1, s);
      assert stacks[i := s][1..] == stacks[1..][i - 1 := s];
    } else {
      assert stacks[0 := s][1..] == stacks[1..];
    }
  }

  /** One turn of the part 1 inner loop: pop the top of `from`, push it onto `to`; none when `pop` finds nothing or a number names no stack. */
  function MoveOne(stacks: Stacks, from: nat, to: nat): (r: Option<Stacks>)
    ensures r.None? <==> !(1 <= from <= |stacks| && 1 <= to <= |stacks|) || stacks[from - 1] == []
    ensures r.Some? ==> |r.value| == |stacks| && Crates(r.value) == Crates(stacks)
    ensures r.Some? ==> forall i :: 0 <= i < |stacks| && i != from - 1 && i != to - 1 ==> r.value[i] == stacks[i]
  {
    if !(1 <= from <= |stacks| && 1 <= to <= |stacks|) || stacks[from - 1] == [] then None
    else
      var src := stacks[from - 1];
      var popped := stacks[from - 1 := src[..|src| - 1]];
      var r := popped[to - 1 := popped[to - 1] + [src[|src| - 1]]];
      CratesUpdate(stacks, from - 1, src[..|src| - 1]);
      CratesUpdate(popped, to - 1, popped[to - 1] + [src[|src| - 1]]);
      Some(r)
  }

  /** `crane_single_items` for one move: `count` turns of `MoveOne`. */
  function CraneSingle(stacks: Stacks, m: Move): (r: Option<Stacks>)
    ensures m.count == 0 ==> r == Some(stacks)
    ensures r.Some? ==> |r.value| == |stacks| && Crates(r.value) == Crates(stacks)
    ensures r.Some? ==> forall i :: 0 <= i < |stacks| && i != m.from - 1 && i != m.to - 1 ==> r.value[i] == stacks[i]
    decreases m.count
  {
    if m.count == 0 then Some(stacks)
    else
      match MoveOne(stacks, m.from, m.to)
      case None => None
      case Some(next) => CraneSingle(next, m.(count := m.count - 1))
  }

  /** What a move may ask of the stacks: both numbers name stacks, and `from` holds at least `count` crates. */
  predicate CanMove(stacks: Stacks, m: Move)
  {
    1 <= m.from <= |stacks| && 1 <= m.to <= |stacks| && m.count <= |stacks[m.from - 1]|
  }

  /** The stacks after the top `m.count` crates of stack `m.from` land on stack `m.to` in reverse order. */
  function ReverseMoved(stacks: Stacks, m: Move): Stacks
    requires CanMove(stacks, m)
  {
    var src := stacks[m.from - 1];
    var k := |src| - m.count;
    stacks[m.from - 1 := src[..k]][m.to - 1 := stacks[m.to - 1] + Reverse(src[k..])]
  }

  /** Moving the top crate across and then the rest of the load in reverse is moving the whole load in reverse. */
  lemma PopPushReverses(stacks: Stacks, m: Move, next: Stacks)
    requires CanMove(stacks, m) && m.from != m.to && m.count > 0
    requires next == MoveOne(stacks, m.from, m.to).value
    ensures CanMove(next, m.(count := m.count - 1))
    ensures ReverseMoved(next, m.(count := m.count - 1)) == ReverseMoved(stacks, m)
  {
    var f, t := m.from - 1, m.to - 1;
    var src := stacks[f];
    var k := |src| - m.count;
    var top := src[|src| - 1];
    var nsrc := src[..|src| - 1];
    assert next == stacks[f := nsrc][t := stacks[t] + [top]];
    assert nsrc[..k] == src[..k];
    assert nsrc[k..] == src[k..|src| - 1];
    assert Reverse(src[k..]) == [top] + Reverse(src[k..|src| - 1]) by {
      assert src[k..] == src[k..|src| - 1] + [top];
      ReverseAppend(src[k..|src| - 1], [top]);
    }
    assert next[t] + Reverse(nsrc[k..]) == stacks[t] + Reverse(src[k..]);
  }

  /** The part 1 crane takes the top `count` crates off `from` and stacks them onto `to` upside down. */
  lemma {:induction false} CraneSingleReverses(stacks: Stacks, m: Move)
    requires CanMove(stacks, m) && m.from != m.to
    ensures CraneSingle(stacks, m) == Some(ReverseMoved(stacks, m))
    decreases m.count
  {
    if m.count > 0 {
      var next := MoveOne(stacks, m.from, m.to).value;
      var m' := m.(count := m.count - 1);
      PopPushReverses(stacks, m, next);
      CraneSingleReverses(next, m');
    } else {
      var src := stacks[m.from - 1];
      assert src[..|src|] == src;
      assert Reverse(src[|src|..]) == [];
      assert stacks[m.to - 1] + [] == stacks[m.to - 1];
      assert ReverseMoved(stacks, m) == stacks[m.from - 1 := src][m.to - 1 := stacks[m.to - 1]];
      assert stacks[m.from - 1 := src][m.to - 1 := stacks[m.to - 1]] == stacks;
    }
  }

  /** With `from == to`, every crate goes back where it came from. */
  lemma {:induction false} CraneSingleInPlace(stacks: Stacks, m: Move)
    requires 1 <= m.from <= |stacks| && m.from == m.to
    requires m.count == 0 || stacks[m.from - 1] != []
    ensures CraneSingle(stacks, m) == Some(stacks)
    decreases m.count
  {
    if m.count > 0 {
      var f := m.from - 1;
      var src := stacks[f];
      assert src == src[..|src| - 1] + [src[|src| - 1]];
      var popped := stacks[f := src[..|src| - 1]];
      assert popped[f := popped[f] + [src[|src| - 1]]] == stacks;
      assert MoveOne(stacks, m.from, m.to) == Some(stacks);
      CraneSingleInPlace(stacks, m.(count := m.count - 1));
    }
  }

  /** Popping the top crate off `src` and then `count - 1` more is popping `count`, and the load reads top first. */
  lemma PopReverse(src: seq<char>, count: nat)
    requires 0 < count <= |src|
    ensures var nsrc := src[..|src| - 1];
      nsrc[..|src| - count] == src[..|src| - count] && Reverse(src[|src| - count..]) == [src[|src| - 1]] + Reverse(nsrc[|src| - count..])
  {
    var nsrc := src[..|src| - 1];
    assert src[|src| - count..] == nsrc[|src| - count..] + [src[|src| - 1]];
    ReverseAppend(nsrc[|src| - count..], [src[|src| - 1]]);
  }

  /** The `pop` loop of `crane_multiple_items`: the top `count` crates of `from`, topmost first; no pop, and so no indexing, when `count` is 0. */
  function Load(stacks: Stacks, from: nat, count: nat): (r: Option<(Stacks, seq<char>)>)
    ensures r.Some? <==> count == 0 || (1 <= from <= |stacks| && count <= |stacks[from - 1]|)
    ensures count == 0 ==> r == Some((stacks, []))
    ensures r.Some? && count > 0 ==> var src := stacks[from - 1];
      r.value == (stacks[from - 1 := src[..|src| - count]], Reverse(src[|src| - count..]))
    decreases count
  {
    if count == 0 then Some((stacks, []))
    else if !(1 <= from <= |stacks|) || stacks[from - 1] == [] then None
    else
      var src := stacks[from - 1];
      var top := src[|src| - 1];
      var popped := stacks[from - 1 := src[..|src| - 1]];
      match Load(popped, from, count - 1)
      case None => None
      case Some((rest, load)) =>
        PopReverse(src, count);
        assert popped[from - 1 := src[..|src| - 1][..|src| - count]] == stacks[from - 1 := src[..|src| - count]];
        Some((rest, [top] + load))
  }

  /** `crane_multiple_items` for one move: load the block, then push it back in reverse pop order; an empty load pushes nothing. */
  function CraneMultiple(stacks: Stacks, m: Move): (r: Option<Stacks>)
    ensures r.Some? <==> m.count == 0 || CanMove(stacks, m)
    ensures m.count == 0 ==> r == Some(stacks)
    ensures r.Some? ==> |r.value| == |stacks| && Crates(r.value) == Crates(stacks)
    ensures r.Some? ==> forall i :: 0 <= i < |stacks| && i != m.from - 1 && i != m.to - 1 ==> r.value[i] == stacks[i]
  {
    match Load(stacks, m.from, m.count)
    case None => None
    case Some((rest, load)) =>
      if load == [] then Some(rest)
      else if 1 <= m.to <= |stacks| then
        var r := rest[m.to - 1 := rest[m.to - 1] + Reverse(load)];
        var src := stacks[m.from - 1];
        CratesUpdate(stacks, m.from - 1, src[..|src| - m.count]);
        CratesUpdate(rest, m.to - 1, rest[m.to - 1] + Reverse(load));
        Some(r)
      else None
  }

  /** The stacks after the top `m.count` crates of stack `m.from` land on stack `m.to` in their original order. */
  function BlockMoved(stacks: Stacks, m: Move): Stacks
    requires CanMove(stacks, m)
  {
    var src := stacks[m.from - 1];
    var k := |src| - m.count;
    stacks[m.from - 1 := src[..k]][m.to - 1 := stacks[m.to - 1] + src[k..]]
  }

  /** Moving no crates leaves every stack as it was. */
  lemma BlockMovedNothing(stacks: Stacks, m: Move)
    requires CanMove(stacks, m) && m.count == 0
    ensures BlockMoved(stacks, m) == stacks
  {
    var f, t := m.from - 1, m.to - 1;
    var src := stacks[f];
    assert src[..|src|] == src && src[|src|..] == [];
    assert stacks[t] + [] == stacks[t];
    assert stacks[f := src][t := stacks[t]] == stacks;
  }

  /** A non-empty load lands on the target stack in reverse pop order. */
  lemma CraneMultipleLoaded(stacks: Stacks, m: Move, rest: Stacks, load: seq<char>)
    requires Load(stacks, m.from, m.count) == Some((rest, load)) && load != [] && 1 <= m.to <= |stacks|
    ensures CraneMultiple(stacks, m) == Some(rest[m.to - 1 := rest[m.to - 1] + Reverse(load)])
  {
  }

  /** The part 2 crane moves the top `count` crates as one block, keeping their order. */
  lemma CraneMultipleKeepsOrder(stacks: Stacks, m: Move)
    requires CanMove(stacks, m) && m.from != m.to
    ensures CraneMultiple(stacks, m) == Some(BlockMoved(stacks, m))
  {
    if m.count == 0 {
      BlockMovedNothing(stacks, m);
    } else {
      var f, t := m.from - 1, m.to - 1;
      var src := stacks[f];
      var k := |src| - m.count;
      var moved := src[k..];
      var rest, load := stacks[f := src[..k]], Reverse(moved);
      assert Load(stacks, m.from, m.count) == Some((rest, load));
      assert |load| == m.count;
      CraneMultipleLoaded(stacks, m, rest, load);
      ReverseReverse(moved);
      assert rest[t] + Reverse(load) == stacks[t] + moved;
      assert BlockMoved(stacks, m) == rest[t := stacks[t] + moved];
    }
  }

  /** The two cranes deliver the same block, in opposite orders. */
  lemma CranesDiffer(stacks: Stacks, m: Move)
    requires CanMove(stacks, m) && m.from != m.to
    ensures CraneSingle(stacks, m).Some? && CraneMultiple(stacks, m).Some?
    ensures var h := |stacks[m.to - 1]|;
      var single := CraneSingle(stacks, m).value[m.to - 1];
      var multiple := CraneMultiple(stacks, m).value[m.to - 1];
      |single| == |multiple| >= h && single[..h] == multiple[..h] && single[h..] == Reverse(multiple[h..])
  {
    var t := m.to - 1;
    var src := stacks[m.from - 1];
    var moved := src[|src| - m.count..];
    CraneSingleReverses(stacks, m);
    CraneMultipleKeepsOrder(stacks, m);
    var single, multiple := CraneSingle(stacks, m).value[t], CraneMultiple(stacks, m).value[t];
    assert single == stacks[t] + Reverse(moved);
    assert multiple == stacks[t] + moved;
    assert single[|stacks[t]|..] == Reverse(moved) && multiple[|stacks[t]|..] == moved;
  }

  /** One move with the part 2 crane when `multiple`, else with the part 1 crane. */
  function Crane(stacks: Stacks, m: Move, multiple: bool): Option<Stacks>
  {
    if multiple then CraneMultiple(stacks, m) else CraneSingle(stacks, m)
  }

  /** The moves one after another with the crane `multiple` picks; none as soon as a move cannot be made. */
  function Run(stacks: Stacks, moves: seq<Move>, multiple: bool): (r: Option<Stacks>)
    ensures r.Some? ==> |r.value| == |stacks| && Crates(r.value) == Crates(stacks)
    decreases |moves|
  {
    if moves == [] then Some(stacks)
    else
      match Crane(stacks, moves[0], multiple)
      case None => None
      case Some(next) => Run(next, moves[1..], multiple)
  }

  /** Four moves that each succeed run through to the last state. */
  lemma RunFour(s0: Stacks, s1: Stacks, s2: Stacks, s3: Stacks, s4: Stacks, moves: seq<Move>, multiple: bool)
    requires |moves| == 4
    requires Crane(s0, moves[0], multiple) == Some(s1) && Crane(s1, moves[1], multiple) == Some(s2)
    requires Crane(s2, moves[2], multiple) == Some(s3) && Crane(s3, moves[3], multiple) == Some(s4)
    ensures Run(s0, moves, multiple) == Some(s4)
  {
    assert moves[1..][1..][1..][1..] == [];
    assert Run(s3, moves[1..][1..][1..], multiple) == Some(s4);
    assert Run(s2, moves[1..][1..], multiple) == Some(s4);
    assert Run(s1, moves[1..], multiple) == Some(s4);
  }

  /** `filter_map(|s| s.last())`: the top crate of each non-empty stack, left to right. */
  function Tops(stacks: Stacks): (r: string)
    ensures |r| <= |stacks|
    ensures (forall i :: 0 <= i < |stacks| ==> stacks[i] != []) ==>
      |r| == |stacks| && forall i :: 0 <= i < |stacks| ==> r[i] == stacks[i][|stacks[i]| - 1]
  {
    if stacks == [] then ""
    else
      var rest := Tops(stacks[1..]);
      if stacks[0] == [] then rest else [stacks[0][|stacks[0]| - 1]] + rest
  }

  /** The crates of crate lines, as the parser hands them over: a crate letter or an empty slot. */
  type CrateLine = seq<Option<char>>

  /** The crates in slot `i` of `lines`, top line first, empty slots skipped. */
  function Column(lines: seq<CrateLine>, i: nat): (r: seq<char>)
    requires forall k :: 0 <= k < |lines| ==> i < |lines[k]|
    ensures |r| <= |lines|
  {
    if lines == [] then []
    else
      var rest := Column(lines[1..], i);
      match lines[0][i]
      case Some(c) => [c] + rest
      case None => rest
  }

  /** Lines as wide as the first one at least, so that every slot of the first line can be read in each. */
  predicate Rectangular(lines: seq<CrateLine>)
  {
    |lines| >= 1 && forall k :: 0 <= k < |lines| ==> |lines[0]| <= |lines[k]|
  }

  /** The transposition in `crate_stacks`: one stack per slot of the first line, bottom crate first. */
  function CrateStacks(lines: seq<CrateLine>): (r: Stacks)
    requires Rectangular(lines)
    ensures |r| == |lines[0]|
    ensures forall i :: 0 <= i < |r| ==> r[i] == Reverse(Column(lines, i))
  {
    seq(|lines[0]|, i requires 0 <= i < |lines[0]| && Rectangular(lines) => Reverse(Column(lines, i)))
  }

  /** The crate lines that draw `stacks` in `height` lines, top line first, as the puzzle input does. */
  function Draw(stacks: Stacks, height: nat): (r: seq<CrateLine>)
    ensures |r| == height
    ensures forall k :: 0 <= k < height ==> |r[k]| == |stacks|
  {
    seq(height, row requires 0 <= row < height =>
      seq(|stacks|, i requires 0 <= i < |stacks| =>
        var level := height - 1 - row;
        if level < |stacks[i]| then Some(stacks[i][level]) else None))
  }

  /** Slot `i` of the drawing reads the stack from the top down. */
  lemma {:induction false} ColumnOfDraw(stacks: Stacks, height: nat, i: nat, rows: nat)
    requires i < |stacks| && |stacks[i]| <= height && rows <= height
    ensures var s := stacks[i];
      Column(Draw(stacks, height)[height - rows..], i) ==
        if rows <= |s| then Reverse(s[..rows]) else Reverse(s)
    decreases rows
  {
    var d := Draw(stacks, height);
    var s := stacks[i];
    if rows > 0 {
      var lines := d[height - rows..];
      assert lines[1..] == d[height - (rows - 1)..];
      ColumnOfDraw(stacks, height, i, rows - 1);
      var level := rows - 1;
      assert lines[0][i] == if level < |s| then Some(s[level]) else None;
      if rows <= |s| {
        assert s[..rows] == s[..rows - 1] + [s[rows - 1]];
        ReverseAppend(s[..rows - 1], [s[rows - 1]]);
      } else if rows - 1 == |s| {
        assert s[..rows - 1] == s;
      }
    } else {
      assert Reverse(s[..0]) == [];
    }
  }

  /** Transposing a drawing of the stacks gives the stacks back. */
  lemma CrateStacksOfDraw(stacks: Stacks, height: nat)
    requires |stacks| >= 1 && height >= 1
    requires forall i :: 0 <= i < |stacks| ==> |stacks[i]| <= height
    ensures Rectangular(Draw(stacks, height))
    ensures CrateStacks(Draw(stacks, height)) == stacks
  {
    var d := Draw(stacks, height);
    forall i | 0 <= i < |stacks|
      ensures Reverse(Column(d, i)) == stacks[i]
    {
      ColumnOfDraw(stacks, height, i, height);
      assert d[height - height..] == d;
      if height <= |stacks[i]| {
        assert stacks[i][..height] == stacks[i];
      }
      ReverseReverse(stacks[i]);
    }
  }

  const ExampleStacks: Stacks := [['Z', 'N'], ['M', 'C', 'D'], ['P']]
  const ExampleMoves := [Move(1, 2, 1), Move(3, 1, 3), Move(2, 2, 1), Move(1, 1, 2)]

  /** The example's crate drawing transposes into `[[Z, N], [M, C, D], [P]]`. */
  lemma ExampleStacksParse()
    ensures CrateStacks([[None, Some('D'), None], [Some('N'), Some('C'), None], [Some('Z'), Some('M'), Some('P')]]) == ExampleStacks
  {
    var lines := [[None, Some('D'), None], [Some('N'), Some('C'), None], [Some('Z'), Some('M'), Some('P')]];
    var d := Draw(ExampleStacks, 3);
    assert d[0] == lines[0] && d[1] == lines[1] && d[2] == lines[2];
    assert d == lines;
    CrateStacksOfDraw(ExampleStacks, 3);
  }

  /** The stacks after each example move with the part 1 crane. */
  const SingleStates: seq<Stacks> := [ExampleStacks, [['Z', 'N', 'D'], ['M', 'C'], ['P']],
    [[], ['M', 'C'], ['P', 'D', 'N', 'Z']], [['C', 'M'], [], ['P', 'D', 'N', 'Z']], [['C'], ['M'], ['P', 'D', 'N', 'Z']]]

  /** The stacks after each example move with the part 2 crane. */
  const MultipleStates: seq<Stacks> := [ExampleStacks, [['Z', 'N', 'D'], ['M', 'C'], ['P']],
    [[], ['M', 'C'], ['P', 'Z', 'N', 'D']], [['M', 'C'], [], ['P', 'Z', 'N', 'D']], [['M'], ['C'], ['P', 'Z', 'N', 'D']]]

  /** A move that splits stack `from` into `kept` and the `count` crates `moved` on top gives `result` with the part 1 crane. */
  lemma SingleStepOf(stacks: Stacks, m: Move, kept: seq<char>, moved: seq<char>, result: Stacks)
    requires 1 <= m.from <= |stacks| && 1 <= m.to <= |stacks| && m.from != m.to
    requires stacks[m.from - 1] == kept + moved && |moved| == m.count
    requires result == stacks[m.from - 1 := kept][m.to - 1 := stacks[m.to - 1] + Reverse(moved)]
    ensures CraneSingle(stacks, m) == Some(result)
  {
    CraneSingleReverses(stacks, m);
    assert (kept + moved)[..|kept|] == kept && (kept + moved)[|kept|..] == moved;
  }

  /** The same split gives `result` with the part 2 crane, the block keeping its order. */
  lemma MultipleStepOf(stacks: Stacks, m: Move, kept: seq<char>, moved: seq<char>, result: Stacks)
    requires 1 <= m.from <= |stacks| && 1 <= m.to <= |stacks| && m.from != m.to
    requires stacks[m.from - 1] == kept + moved && |moved| == m.count
    requires result == stacks[m.from - 1 := kept][m.to - 1 := stacks[m.to - 1] + moved]
    ensures CraneMultiple(stacks, m) == Some(result)
  {
    CraneMultipleKeepsOrder(stacks, m);
    assert (kept + moved)[..|kept|] == kept && (kept + moved)[|kept|..] == moved;
  }

  lemma SingleStep0()
    ensures CraneSingle(SingleStates[0], ExampleMoves[0]) == Some(SingleStates[1])
  {
    assert Reverse(['D']) == ['D'];
    assert SingleStates[0][0] + ['D'] == SingleStates[1][0];
    assert SingleStates[0][1 := ['M', 'C']][0 := SingleStates[0][0] + ['D']] == SingleStates[1];
    SingleStepOf(SingleStates[0], ExampleMoves[0], ['M', 'C'], ['D'], SingleStates[1]);
  }

  lemma SingleStep1()
    ensures CraneSingle(SingleStates[1], ExampleMoves[1]) == Some(SingleStates[2])
  {
    assert Reverse(['Z', 'N', 'D']) == ['D', 'N', 'Z'];
    assert SingleStates[1][2] + ['D', 'N', 'Z'] == SingleStates[2][2];
    assert SingleStates[1][0 := []][2 := SingleStates[1][2] + ['D', 'N', 'Z']] == SingleStates[2];
    SingleStepOf(SingleStates[1], ExampleMoves[1], [], ['Z', 'N', 'D'], SingleStates[2]);
  }

  lemma SingleStep2()
    ensures CraneSingle(SingleStates[2], ExampleMoves[2]) == Some(SingleStates[3])
  {
    assert Reverse(['M', 'C']) == ['C', 'M'];
    assert SingleStates[2][0] + ['C', 'M'] == SingleStates[3][0];
    assert SingleStates[2][1 := []][0 := SingleStates[2][0] + ['C', 'M']] == SingleStates[3];
    SingleStepOf(SingleStates[2], ExampleMoves[2], [], ['M', 'C'], SingleStates[3]);
  }

  lemma SingleStep3()
    ensures CraneSingle(SingleStates[3], ExampleMoves[3]) == Some(SingleStates[4])
  {
    assert Reverse(['M']) == ['M'];
    assert SingleStates[3][1] + ['M'] == SingleStates[4][1];
    assert SingleStates[3][0 := ['C']][1 := SingleStates[3][1] + ['M']] == SingleStates[4];
    SingleStepOf(SingleStates[3], ExampleMoves[3], ['C'], ['M'], SingleStates[4]);
  }

  lemma MultipleStep0()
    ensures CraneMultiple(MultipleStates[0], ExampleMoves[0]) == Some(MultipleStates[1])
  {
    assert MultipleStates[0][0] + ['D'] == MultipleStates[1][0];
    assert MultipleStates[0][1 := ['M', 'C']][0 := MultipleStates[0][0] + ['D']] == MultipleStates[1];
    MultipleStepOf(MultipleStates[0], ExampleMoves[0], ['M', 'C'], ['D'], MultipleStates[1]);
  }

  lemma MultipleStep1()
    ensures CraneMultiple(MultipleStates[1], ExampleMoves[1]) == Some(MultipleStates[2])
  {
    assert MultipleStates[1][2] + ['Z', 'N', 'D'] == MultipleStates[2][2];
    assert MultipleStates[1][0 := []][2 := MultipleStates[1][2] + ['Z', 'N', 'D']] == MultipleStates[2];
    MultipleStepOf(MultipleStates[1], ExampleMoves[1], [], ['Z', 'N', 'D'], MultipleStates[2]);
  }

  lemma MultipleStep2()
    ensures CraneMultiple(MultipleStates[2], ExampleMoves[2]) == Some(MultipleStates[3])
  {
    assert MultipleStates[2][0] + ['M', 'C'] == MultipleStates[3][0];
    assert MultipleStates[2][1 := []][0 := MultipleStates[2][0] + ['M', 'C']] == MultipleStates[3];
    MultipleStepOf(MultipleStates[2], ExampleMoves[2], [], ['M', 'C'], MultipleStates[3]);
  }

  lemma MultipleStep3()
    ensures CraneMultiple(MultipleStates[3], ExampleMoves[3]) == Some(MultipleStates[4])
  {
    assert MultipleStates[3][1] + ['C'] == MultipleStates[4][1];
    assert MultipleStates[3][0 := ['M']][1 := MultipleStates[3][1] + ['C']] == MultipleStates[4];
    MultipleStepOf(MultipleStates[3], ExampleMoves[3], ['M'], ['C'], MultipleStates[4]);
  }

  /** The tops of three non-empty stacks are their last crates, in order. */
  lemma TopsThree(a: seq<char>, b: seq<char>, c: seq<char>)
    requires a != [] && b != [] && c != []
    ensures Tops([a, b, c]) == [a[|a| - 1], b[|b| - 1], c[|c| - 1]]
  {
  }

  /** Run on the example moves, the part 1 crane leaves C, M and Z on top. */
  lemma ExamplePart1()
    ensures Run(ExampleStacks, ExampleMoves, false) == Some(SingleStates[4])
    ensures Tops(SingleStates[4]) == "CMZ"
  {
    SingleStep0();
    SingleStep1();
    SingleStep2();
    SingleStep3();
    RunFour(SingleStates[0], SingleStates[1], SingleStates[2], SingleStates[3], SingleStates[4], ExampleMoves, false);
    TopsThree(['C'], ['M'], ['P', 'D', 'N', 'Z']);
  }

  /** Run on the example moves, the part 2 crane leaves M, C and D on top. */
  lemma ExamplePart2()
    ensures Run(ExampleStacks, ExampleMoves, true) == Some(MultipleStates[4])
    ensures Tops(MultipleStates[4]) == "MCD"
  {
    MultipleStep0();
    MultipleStep1();
    MultipleStep2();
    MultipleStep3();
    RunFour(MultipleStates[0], MultipleStates[1], MultipleStates[2], MultipleStates[3], MultipleStates[4], ExampleMoves, true);
    TopsThree(['M'], ['C'], ['P', 'Z', 'N', 'D']);
  }
}
