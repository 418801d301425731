/**
 * Day 9, Rope Bridge: a rope of knots on the integer plane. The head follows a list
 * of motions one unit step at a time; every other knot follows the knot before it
 * whenever the two stop touching. The answer is the number of distinct positions the
 * last knot visits, for a rope of 2 knots (part 1) and of 10 knots (part 2).
 */
module Day09 {
  import opened Wrappers
  import opened Text

  /** `Position = (i32, i32)` */
  datatype Pos = Pos(x: int, y: int)

  /** `Motion`: a direction and a number of unit steps (a `u8`). */
  datatype Motion = Up(steps: nat) | Down(steps: nat) | Left(steps: nat) | Right(steps: nat)

  function Abs(v: int): nat
  {
    if v < 0 then -v else v
  }

  function Sign(v: int): int
  {
    if v > 0 then 1 else if v < 0 then -1 else 0
  }

  /** Rust's `/ 2` on integers, which rounds toward zero. */
  function Half(v: int): (r: int)
    ensures Abs(r) == Abs(v) / 2 && (r == 0 || Sign(r) == Sign(v))
  {
    if v >= 0 then v / 2 else -((-v) / 2)
  }

  /** `diff(a, b)`: the vector from `a` to `b`. */
  function Diff(a: Pos, b: Pos): Pos
  {
    Pos(b.x - a.x, b.y - a.y)
  }

  /** `translate` */
  function Translate(p: Pos, t: Pos): Pos
  {
    Pos(p.x + t.x, p.y + t.y)
  }

  /** Translating by the difference reaches the target, and the difference of a translation is the vector. */
  lemma TranslateDiff(a: Pos, b: Pos, t: Pos)
    ensures Translate(a, Diff(a, b)) == b
    ensures Diff(a, Translate(a, t)) == t
  {
  }

  /** Two knots touch when they are at most one apart on each axis, diagonals included. */
  predicate Touching(a: Pos, b: Pos)
  {
    Abs(b.x - a.x) <= 1 && Abs(b.y - a.y) <= 1
  }

  /** `tail_movement`: none while the knots touch, otherwise the translation that pulls the tail along. */
  function TailMovement(head: Pos, tail: Pos): (r: Option<Pos>)
    ensures r.None? <==> Touching(head, tail)
  {
    var d := Diff(tail, head);
    if Abs(d.x) <= 1 && Abs(d.y) <= 1 then None
    else if Abs(d.x) == 1 && Abs(d.y) == 2 then Some(Pos(d.x, Half(d.y)))
    else if Abs(d.x) == 2 && Abs(d.y) == 1 then Some(Pos(Half(d.x), d.y))
    else Some(Pos(Half(d.x), Half(d.y)))
  }

  /**
   * A tail at most two away on each axis that no longer touches moves one step
   * toward the head on each axis where they differ, and then touches it.
   */
  lemma TailMovementIsStep(head: Pos, tail: Pos)
    requires Abs(head.x - tail.x) <= 2 && Abs(head.y - tail.y) <= 2
    requires !Touching(head, tail)
    ensures TailMovement(head, tail) == Some(Pos(Sign(head.x - tail.x), Sign(head.y - tail.y)))
    ensures Touching(head, Translate(tail, TailMovement(head, tail).value))
  {
  }

  /** `tail_move`: where the tail ends up, or none when it stays. */
  function TailMove(head: Pos, tail: Pos): (r: Option<Pos>)
    ensures r.None? <==> Touching(head, tail)
  {
    match TailMovement(head, tail)
    case None => None
    case Some(t) => Some(Translate(tail, t))
  }

  /** `translation_step`: the unit vector of the motion's direction. */
  function TranslationStep(m: Motion): (r: Pos)
    ensures Abs(r.x) + Abs(r.y) == 1
    ensures r.x == 0 <==> m.Up? || m.Down?
    ensures r.x + r.y == 1 <==> m.Up? || m.Right?
  {
    match m
    case Up(_) => Pos(0, 1)
    case Down(_) => Pos(0, -1)
    case Left(_) => Pos(-1, 0)
    case Right(_) => Pos(1, 0)
  }

  /** `Rope`: the knots, head first, and the positions the last knot has been seen at. */
  datatype Rope = Rope(knots: seq<Pos>, history: set<Pos>)

  /** `Rope::knots`: the history starts at the origin, whatever the knots. */
  function NewRope(knots: seq<Pos>): (r: Rope)
    ensures r.knots == knots && r.history == {Pos(0, 0)}
  {
    Rope(knots, {Pos(0, 0)})
  }

  /** The new positions of the knots `rest`, each following the already moved knot before it. */
  function Pull(previous: Pos, rest: seq<Pos>): (r: seq<Pos>)
    ensures |r| == |rest|
    ensures forall i :: 0 <= i < |rest| ==> r[i] == rest[i] || TailMove(if i == 0 then previous else r[i - 1], rest[i]) == Some(r[i])
    decreases |rest|
  {
    if rest == [] then []
    else
      var k := match TailMove(previous, rest[0]) case None => rest[0] case Some(p) => p;
      var tail := Pull(k, rest[1..]);
      assert forall i :: 1 <= i < |rest| ==> rest[i] == rest[1..][i - 1];
      [k] + tail
  }

  /** The last of the knots, which the history follows. */
  function Last(knots: seq<Pos>): Pos
    requires knots != []
  {
    knots[|knots| - 1]
  }

  /** The knots after one unit step of the head: the head moves by `step`, every other knot follows the one before it. */
  function StepKnots(knots: seq<Pos>, step: Pos): (r: seq<Pos>)
    ensures |r| == |knots|
  {
    if knots == [] then []
    else
      var head := Translate(knots[0], step);
      [head] + Pull(head, knots[1..])
  }

  /**
   * `execute_step`: the head moves by `step`, every other knot follows the one before
   * it, and the last knot's new position joins the history when it moved.
   */
  function ExecuteStep(rope: Rope, step: Pos): (r: Rope)
    ensures |r.knots| == |rope.knots|
    ensures rope.knots != [] ==> r.knots[0] == Translate(rope.knots[0], step)
    ensures rope.history <= r.history
    ensures |rope.knots| >= 2 ==> r.history <= rope.history + {Last(r.knots)}
    ensures |rope.knots| >= 2 && Last(r.knots) != Last(rope.knots) ==> Last(r.knots) in r.history
  {
    if rope.knots == [] then rope
    else
      var head := Translate(rope.knots[0], step);
      var knots := [head] + Pull(head, rope.knots[1..]);
      var n := |knots|;
      var moved := n >= 2 && TailMove(knots[n - 2], rope.knots[n - 1]).Some?;
      assert n >= 2 && !moved ==> knots[n - 1] == rope.knots[n - 1];
      Rope(knots, if moved then rope.history + {knots[n - 1]} else rope.history)
  }

  /** `count` unit steps of the same direction. */
  function Repeat(rope: Rope, step: Pos, count: nat): (r: Rope)
    ensures |r.knots| == |rope.knots|
    ensures rope.history <= r.history
    decreases count
  {
    if count == 0 then rope else Repeat(ExecuteStep(rope, step), step, count - 1)
  }

  /** Running `a` steps and then `b` more is running `a + b` steps. */
  lemma {:induction false} RepeatAdds(rope: Rope, step: Pos, a: nat, b: nat)
    ensures Repeat(Repeat(rope, step, a), step, b) == Repeat(rope, step, a + b)
    decreases a
  {
    if a > 0 {
      RepeatAdds(ExecuteStep(rope, step), step, a - 1, b);
    }
  }

  /** Over `count` steps the head travels `count` times the step. */
  lemma {:induction false} RepeatMovesHead(rope: Rope, step: Pos, count: nat)
    requires rope.knots != []
    ensures Repeat(rope, step, count).knots[0] == Pos(rope.knots[0].x + count * step.x, rope.knots[0].y + count * step.y)
    decreases count
  {
    if count > 0 {
      RepeatMovesHead(ExecuteStep(rope, step), step, count - 1);
    }
  }

  /** `advance`: as many unit steps as the motion says, in its direction. */
  function Advance(rope: Rope, m: Motion): (r: Rope)
    ensures |r.knots| == |rope.knots|
    ensures rope.history <= r.history
  {
    Repeat(rope, TranslationStep(m), m.steps)
  }

  /** Every knot touches the one before it. */
  predicate Taut(knots: seq<Pos>)
  {
    forall i :: 1 <= i < |knots| ==> Touching(knots[i - 1], knots[i])
  }

  /**
   * The rope holds together and, once it has a tail, the tail's position is in the
   * history (a rope of one knot never adds to its history: its only knot is the head).
   */
  predicate Wf(rope: Rope)
  {
    Taut(rope.knots) && (|rope.knots| >= 2 ==> Last(rope.knots) in rope.history)
  }

  /** A knot that moved at most one unit on each axis. */
  predicate Nudged(before: Pos, after: Pos)
  {
    Abs(after.x - before.x) <= 1 && Abs(after.y - before.y) <= 1
  }

  /**
   * When the knot ahead moves at most one unit per axis, the knots behind it stay
   * together, each of them also moving at most one unit per axis.
   */
  lemma {:induction false} PullKeepsTaut(before: Pos, after: Pos, rest: seq<Pos>)
    requires Nudged(before, after)
    requires Taut([before] + rest)
    ensures Taut([after] + Pull(after, rest))
    ensures forall i :: 0 <= i < |rest| ==> Nudged(rest[i], Pull(after, rest)[i])
    decreases |rest|
  {
    if rest != [] {
      var r := Pull(after, rest);
      var k := r[0];
      assert Touching(before, rest[0]) by {
        assert ([before] + rest)[0] == before && ([before] + rest)[1] == rest[0];
      }
      if !Touching(after, rest[0]) {
        TailMovementIsStep(after, rest[0]);
      }
      assert Touching(after, k) && Nudged(rest[0], k);
      assert Taut([rest[0]] + rest[1..]) by {
        assert [rest[0]] + rest[1..] == ([before] + rest)[1..];
      }
      PullKeepsTaut(rest[0], k, rest[1..]);
      assert r == [k] + Pull(k, rest[1..]);
      var full := [after] + r;
      forall i | 1 <= i < |full|
        ensures Touching(full[i - 1], full[i])
      {
        if i > 1 {
          assert full[i - 1] == ([k] + Pull(k, rest[1..]))[i - 2];
        }
      }
      forall i | 0 <= i < |rest|
        ensures Nudged(rest[i], r[i])
      {
        if i > 0 {
          assert rest[i] == rest[1..][i - 1];
        }
      }
    }
  }

  /** A unit step of the head keeps the rope together and its last knot recorded. */
  lemma ExecuteStepKeepsWf(rope: Rope, step: Pos)
    requires Wf(rope) && Abs(step.x) <= 1 && Abs(step.y) <= 1
    ensures Wf(ExecuteStep(rope, step))
  {
    if rope.knots != [] {
      var head := Translate(rope.knots[0], step);
      assert Taut([rope.knots[0]] + rope.knots[1..]) by {
        assert [rope.knots[0]] + rope.knots[1..] == rope.knots;
      }
      PullKeepsTaut(rope.knots[0], head, rope.knots[1..]);
    }
  }

  /** Repeated unit steps keep the rope well formed. */
  lemma {:induction false} RepeatKeepsWf(rope: Rope, step: Pos, count: nat)
    requires Wf(rope) && Abs(step.x) <= 1 && Abs(step.y) <= 1
    ensures Wf(Repeat(rope, step, count))
    decreases count
  {
    if count == 0 {
      RepeatZeroWf(rope, step);
    } else {
      ExecuteStepKeepsWf(rope, step);
      RepeatKeepsWf(ExecuteStep(rope, step), step, count - 1);
      RepeatStepWf(rope, step, count);
    }
  }

  lemma RepeatZeroWf(rope: Rope, step: Pos)
    requires Wf(rope)
    ensures Wf(Repeat(rope, step, 0))
  {
  }

  lemma RepeatStepWf(rope: Rope, step: Pos, count: nat)
    requires count > 0 && Wf(Repeat(ExecuteStep(rope, step), step, count - 1))
    ensures Wf(Repeat(rope, step, count))
  {
  }

  /** The motions one after the other. */
  function Run(rope: Rope, motions: seq<Motion>): (r: Rope)
    ensures |r.knots| == |rope.knots|
    ensures rope.history <= r.history
    decreases |motions|
  {
    if motions == [] then rope else Run(Advance(rope, motions[0]), motions[1..])
  }

  /** A well formed rope stays well formed through any motions. */
  lemma {:induction false} RunKeepsWf(rope: Rope, motions: seq<Motion>)
    requires Wf(rope)
    ensures Wf(Run(rope, motions))
    decreases |motions|
  {
    if motions != [] {
      RepeatKeepsWf(rope, TranslationStep(motions[0]), motions[0].steps);
      RunKeepsWf(Advance(rope, motions[0]), motions[1..]);
    }
  }

  /** `n` knots at the origin. */
  function AtOrigin(n: nat): (r: seq<Pos>)
    ensures |r| == n && forall i :: 0 <= i < n ==> r[i] == Pos(0, 0)
  {
    seq(n, i => Pos(0, 0))
  }

  /** `solve_part1` (2 knots) and `solve_part2` (10 knots): the number of places the last knot visited. */
  function Solve(motions: seq<Motion>, knots: nat): (r: nat)
    requires knots >= 1
    ensures r >= 1
  {
    var rope := Run(NewRope(AtOrigin(knots)), motions);
    assert Pos(0, 0) in rope.history;
    |rope.history|
  }

  /** The knots of a rope move as `StepKnots` says. */
  lemma ExecuteStepKnots(rope: Rope, step: Pos)
    ensures ExecuteStep(rope, step).knots == StepKnots(rope.knots, step)
  {
  }

  /** The state after feeding `steps` one at a time to `f`. */
  function Fold<K>(f: (K, Pos) -> K, k: K, steps: seq<Pos>): K
    decreases |steps|
  {
    if steps == [] then k else Fold(f, f(k, steps[0]), steps[1..])
  }

  /** What `view` shows of the state after each of the `steps`, in order. */
  function Trace<K>(f: (K, Pos) -> K, view: K -> Pos, k: K, steps: seq<Pos>): (r: seq<Pos>)
    ensures |r| == |steps|
    decreases |steps|
  {
    if steps == [] then [] else [view(f(k, steps[0]))] + Trace(f, view, f(k, steps[0]), steps[1..])
  }

  lemma {:induction false} FoldAppend<K>(f: (K, Pos) -> K, k: K, a: seq<Pos>, b: seq<Pos>)
    ensures Fold(f, k, a + b) == Fold(f, Fold(f, k, a), b)
    decreases |a|
  {
    if a != [] {
      assert (a + b)[0] == a[0] && (a + b)[1..] == a[1..] + b;
      FoldAppend(f, f(k, a[0]), a[1..], b);
    } else {
      assert a + b == b;
    }
  }

  lemma {:induction false} TraceAppend<K>(f: (K, Pos) -> K, view: K -> Pos, k: K, a: seq<Pos>, b: seq<Pos>)
    ensures Trace(f, view, k, a + b) == Trace(f, view, k, a) + Trace(f, view, Fold(f, k, a), b)
    decreases |a|
  {
    if a != [] {
      assert (a + b)[0] == a[0] && (a + b)[1..] == a[1..] + b;
      TraceAppend(f, view, f(k, a[0]), a[1..], b);
    } else {
      assert a + b == b;
    }
  }

  /** The last knot, or the origin for a rope without knots. */
  function LastOrOrigin(knots: seq<Pos>): Pos
  {
    if knots == [] then Pos(0, 0) else Last(knots)
  }

  /** The knots after the unit steps `steps`, one after the other. */
  function Moved(knots: seq<Pos>, steps: seq<Pos>): seq<Pos>
  {
    Fold(StepKnots, knots, steps)
  }

  /** Where the last knot stands after each of the unit steps `steps`, in order. */
  function Trail(knots: seq<Pos>, steps: seq<Pos>): (r: seq<Pos>)
    ensures |r| == |steps|
  {
    Trace(StepKnots, LastOrOrigin, knots, steps)
  }

  /** `count` copies of the unit step `step`. */
  function Copies(step: Pos, count: nat): (r: seq<Pos>)
    ensures |r| == count && forall i :: 0 <= i < count ==> r[i] == step
  {
    seq(count, i => step)
  }

  /** The unit steps the motions make the head take, in order. */
  function UnitSteps(motions: seq<Motion>): (r: seq<Pos>)
    decreases |motions|
  {
    if motions == [] then [] else Copies(TranslationStep(motions[0]), motions[0].steps) + UnitSteps(motions[1..])
  }

  /** The positions of a trail, as a set. */
  function Visited(trail: seq<Pos>): (r: set<Pos>)
    ensures forall p :: p in r <==> p in trail
  {
    set p | p in trail
  }

  /**
   * With a tail whose place is already recorded, `count` unit steps move the knots as
   * `Moved` says and add to the history exactly the places the last knot stands on after
   * each step.
   */
  lemma {:induction false} RepeatHistory(rope: Rope, step: Pos, count: nat)
    requires |rope.knots| >= 2 && Last(rope.knots) in rope.history
    ensures Repeat(rope, step, count).knots == Moved(rope.knots, Copies(step, count))
    ensures Repeat(rope, step, count).history == rope.history + Visited(Trail(rope.knots, Copies(step, count)))
    ensures Last(Repeat(rope, step, count).knots) in Repeat(rope, step, count).history
    decreases count
  {
    var steps := Copies(step, count);
    if count > 0 {
      var next := ExecuteStep(rope, step);
      ExecuteStepKnots(rope, step);
      assert next.history == rope.history + {Last(next.knots)};
      assert steps[0] == step && steps[1..] == Copies(step, count - 1);
      RepeatHistory(next, step, count - 1);
      assert Trail(rope.knots, steps) == [Last(next.knots)] + Trail(next.knots, steps[1..]);
    } else {
      assert steps == [];
    }
  }

  /** The same over whole motions: the history gains the last knot's place after every unit step. */
  lemma {:induction false} RunHistory(rope: Rope, motions: seq<Motion>)
    requires |rope.knots| >= 2 && Last(rope.knots) in rope.history
    ensures Run(rope, motions).knots == Moved(rope.knots, UnitSteps(motions))
    ensures Run(rope, motions).history == rope.history + Visited(Trail(rope.knots, UnitSteps(motions)))
    ensures Last(Run(rope, motions).knots) in Run(rope, motions).history
    decreases |motions|
  {
    if motions != [] {
      var m := motions[0];
      var a, b := Copies(TranslationStep(m), m.steps), UnitSteps(motions[1..]);
      var next := Advance(rope, m);
      RepeatHistory(rope, TranslationStep(m), m.steps);
      RunHistory(next, motions[1..]);
      FoldAppend(StepKnots, rope.knots, a, b);
      TraceAppend(StepKnots, LastOrOrigin, rope.knots, a, b);
      assert UnitSteps(motions) == a + b;
    }
  }

  /**
   * For ropes of two knots or more, `Solve` counts the distinct places the last knot
   * holds: the origin and where it stands after every unit step of the motions.
   */
  lemma SolveCounts(motions: seq<Motion>, knots: nat)
    requires knots >= 2
    ensures Solve(motions, knots) == |{Pos(0, 0)} + Visited(Trail(AtOrigin(knots), UnitSteps(motions)))|
  {
    RunHistory(NewRope(AtOrigin(knots)), motions);
  }

  /** The rope of `Solve` ends in one piece with its last knot counted. */
  lemma SolveWf(motions: seq<Motion>, knots: nat)
    requires knots >= 1
    ensures Wf(Run(NewRope(AtOrigin(knots)), motions))
  {
    RunKeepsWf(NewRope(AtOrigin(knots)), motions);
  }

  function DirectionLetter(m: Motion): char
  {
    match m
    case Up(_) => 'U'
    case Down(_) => 'D'
    case Left(_) => 'L'
    case Right(_) => 'R'
  }

  /** `parse_motion`: one of `UDLR`, a space and a `u8`, leaving the rest of the input. */
  function ParseMotion(s: string): (r: Option<(Motion, string)>)
    ensures r.Some? ==> r.value.0.steps <= 255 && |r.value.1| < |s|
    ensures r.Some? ==> |s| >= 2 && s[0] == DirectionLetter(r.value.0) && s[1] == ' '
  {
    if |s| < 2 || s[0] !in "UDLR" || s[1] != ' ' then None
    else
      match ParseUnsignedPrefix(s[2..], 255)
      case None => None
      case Some((steps, rest)) =>
        var m := if s[0] == 'U' then Up(steps) else if s[0] == 'D' then Down(steps)
          else if s[0] == 'L' then Left(steps) else Right(steps);
        Some((m, rest))
  }

  /** A motion as the puzzle input writes it. */
  function ShowMotion(m: Motion): string
  {
    [DirectionLetter(m), ' '] + ShowNat(m.steps)
  }

  /** A written motion followed by a non-digit parses back, leaving the rest. */
  lemma ParseShowMotion(m: Motion, rest: string)
    requires m.steps <= 255
    requires rest == [] || !IsDigit(rest[0])
    ensures ParseMotion(ShowMotion(m) + rest) == Some((m, rest))
  {
    var s := ShowMotion(m) + rest;
    assert s[2..] == ShowNat(m.steps) + rest;
    ParseUnsignedShow(m.steps, rest, 255);
  }

  /** `parse_motions`: motions separated by line endings, at least one. */
  function ParseMotions(s: string): (r: Option<(seq<Motion>, string)>)
    ensures r.Some? ==> |r.value.0| >= 1
  {
    SeparatedLines(ParseMotion, s, true)
  }

  /** Motions written one per line parse back completely. */
  lemma ParseShowMotions(ms: seq<Motion>)
    requires |ms| >= 1 && forall i :: 0 <= i < |ms| ==> ms[i].steps <= 255
    ensures ParseMotions(Join(seq(|ms|, i requires 0 <= i < |ms| => ShowMotion(ms[i])), "\n")) == Some((ms, ""))
  {
    var lines := seq(|ms|, i requires 0 <= i < |ms| => ShowMotion(ms[i]));
    var item: string -> Option<(Motion, string)> := ParseMotion;
    forall i, rest {:trigger item(lines[i] + rest)} | 0 <= i < |lines| && (rest == [] || rest[0] == '\n')
      ensures item(lines[i] + rest) == Some((ms[i], rest))
    {
      ParseShowMotion(ms[i], rest);
    }
    SeparatedLinesJoin(item, lines, ms, true);
  }

  /** The puzzle's sample lines, including those that must be rejected. */
  lemma ExampleParse()
    ensures ParseMotion("U 1") == Some((Up(1), ""))
    ensures ParseMotion("R 4") == Some((Right(4), ""))
    ensures ParseMotion("G 4").None? && ParseMotion("U -1").None?
  {
    ExampleParseUp();
    ExampleParseRight();
    ExampleParseRejects();
  }

  lemma ExampleParseUp()
    ensures ParseMotion("U 1") == Some((Up(1), ""))
  {
    ParseShowMotion(Up(1), "");
    assert ShowMotion(Up(1)) + "" == "U 1";
  }

  lemma ExampleParseRight()
    ensures ParseMotion("R 4") == Some((Right(4), ""))
  {
    ParseShowMotion(Right(4), "");
    assert ShowMotion(Right(4)) + "" == "R 4";
  }

  lemma ExampleParseRejects()
    ensures ParseMotion("G 4").None? && ParseMotion("U -1").None?
  {
    assert "U -1"[2..] == "-1";
    assert DigitRun("-1") == 0;
  }

  /** One step of a two-knot rope: the head moves, and the tail follows and is recorded when it must. */
  lemma ExecuteStepTwo(head: Pos, tail: Pos, history: set<Pos>, step: Pos)
    ensures var h := Translate(head, step);
      ExecuteStep(Rope([head, tail], history), step)
        == match TailMove(h, tail)
           case None => Rope([h, tail], history)
           case Some(p) => Rope([h, p], history + {p})
  {
    var h := Translate(head, step);
    assert [head, tail][1..] == [tail];
    assert Pull(h, [tail]) == [match TailMove(h, tail) case None => tail case Some(p) => p];
  }
}
