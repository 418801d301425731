/**
 * Day 21: monkeys that either shout a number or combine the numbers of two other monkeys.
 * Part 1 evaluates the monkey called `root`; part 2 turns `humn` into an unknown and solves
 * `root`'s two operands for equality by undoing, one node at a time, the operations on the
 * way down to the unknown.
 *
 * The source keeps the monkeys in a hash map and recurses through it; a cycle would recurse
 * forever. Here a `rank` map witnesses that the registers are acyclic: every operand ranks
 * below the expression that uses it, and every operand names a register.
 */
module Day21 {
  import opened Wrappers
  import opened Text
  import opened Arith

  /** A monkey's name: four characters. */
  type Symbol = seq<char>

  datatype MathOp = Add | Subtract | Multiply | Divide

  datatype Expression =
    | Value(value: int)
    | Binary(left: Symbol, op: MathOp, right: Symbol)
    | Variable(id: int)

  datatype Monkey = Monkey(symbol: Symbol, expression: Expression)

  /** The computer's registers: each monkey's expression under its name. */
  type Registers = map<Symbol, Expression>

  const Root: Symbol := "root"
  const Humn: Symbol := "humn"

  /** `rank` orders the registers: operands name registers and rank below their expression. */
  predicate Ranked(regs: Registers, rank: map<Symbol, nat>)
  {
    forall s | s in regs :: s in rank &&
      (regs[s].Binary? ==>
        regs[s].left in regs && regs[s].right in regs &&
        regs[s].left in rank && regs[s].right in rank &&
        rank[regs[s].left] < rank[s] && rank[regs[s].right] < rank[s])
  }

  /** At most one register holds the unknown, and it is `h`. */
  predicate OnlyVariable(regs: Registers, h: Symbol)
  {
    forall k | k in regs && regs[k].Variable? :: k == h
  }

  /** `write`: `s` now holds `e`; every other register keeps its expression. */
  function Write(regs: Registers, s: Symbol, e: Expression): (r: Registers)
    ensures r.Keys == regs.Keys + {s} && r[s] == e
    ensures forall k | k in regs && k != s :: r[k] == regs[k]
  {
    regs[s := e]
  }

  /** Overwriting a register with a number keeps the registers ranked. */
  lemma WriteValueRanked(regs: Registers, rank: map<Symbol, nat>, h: Symbol, v: int)
    requires Ranked(regs, rank) && h in regs
    ensures Ranked(Write(regs, h, Value(v)), rank)
  {
  }

  /** One operation on `i64` values; dividing by zero panics. */
  function Apply(op: MathOp, a: int, b: int): (r: Option<int>)
    ensures r.None? <==> op == Divide && b == 0
    ensures op == Add ==> r == Some(a + b)
    ensures op == Subtract ==> r == Some(a - b)
    ensures op == Multiply ==> r == Some(a * b)
    ensures op == Divide && b != 0 ==> r == Some(Quot(a, b))
  {
    match op
    case Add => Some(a + b)
    case Subtract => Some(a - b)
    case Multiply => Some(a * b)
    case Divide => if b == 0 then None else Some(Quot(a, b))
  }

  /** `contains_variable`: the unknown is reachable from `s`. */
  predicate ContainsVariable(regs: Registers, rank: map<Symbol, nat>, s: Symbol)
    requires Ranked(regs, rank) && s in regs
    decreases rank[s]
  {
    match regs[s]
    case Variable(_) => true
    case Value(_) => false
    case Binary(l, _, rt) => ContainsVariable(regs, rank, l) || ContainsVariable(regs, rank, rt)
  }

  /** `k` is `s` or an operand of `s` at any depth. */
  predicate Reaches(regs: Registers, rank: map<Symbol, nat>, s: Symbol, k: Symbol)
    requires Ranked(regs, rank) && s in regs
    decreases rank[s]
  {
    s == k ||
    (regs[s].Binary? && (Reaches(regs, rank, regs[s].left, k) || Reaches(regs, rank, regs[s].right, k)))
  }

  /** Only registers can be reached. */
  lemma {:induction false} ReachesRegister(regs: Registers, rank: map<Symbol, nat>, s: Symbol, k: Symbol)
    requires Ranked(regs, rank) && s in regs && Reaches(regs, rank, s, k)
    ensures k in regs
    decreases rank[s]
  {
    if s != k {
      if Reaches(regs, rank, regs[s].left, k) {
        ReachesRegister(regs, rank, regs[s].left, k);
      } else {
        ReachesRegister(regs, rank, regs[s].right, k);
      }
    }
  }

  /** `contains_variable(s)` holds exactly when some register reachable from `s` is the unknown. */
  lemma {:induction false} ContainsVariableReaches(regs: Registers, rank: map<Symbol, nat>, s: Symbol)
    requires Ranked(regs, rank) && s in regs
    ensures ContainsVariable(regs, rank, s) <==>
      (exists k :: Reaches(regs, rank, s, k) && k in regs && regs[k].Variable?)
    decreases rank[s]
  {
    match regs[s]
    case Variable(_) =>
      assert Reaches(regs, rank, s, s);
    case Value(_) =>
      forall k | Reaches(regs, rank, s, k)
        ensures k == s
      {
      }
    case Binary(l, _, rt) =>
      ContainsVariableReaches(regs, rank, l);
      ContainsVariableReaches(regs, rank, rt);
      if ContainsVariable(regs, rank, l) {
        var k :| Reaches(regs, rank, l, k) && k in regs && regs[k].Variable?;
        assert Reaches(regs, rank, s, k);
      } else if ContainsVariable(regs, rank, rt) {
        var k :| Reaches(regs, rank, rt, k) && k in regs && regs[k].Variable?;
        assert Reaches(regs, rank, s, k);
      } else {
        forall k | Reaches(regs, rank, s, k) && k in regs
          ensures !regs[k].Variable?
        {
          if k != s {
            assert Reaches(regs, rank, l, k) || Reaches(regs, rank, rt, k);
          }
        }
      }
  }

  /** `eval`: the number `s` shouts. An unknown on the way, or a division by zero, panics. */
  function Eval(regs: Registers, rank: map<Symbol, nat>, s: Symbol): (r: Option<int>)
    requires Ranked(regs, rank) && s in regs
    ensures ContainsVariable(regs, rank, s) ==> r.None?
    decreases rank[s]
  {
    match regs[s]
    case Value(v) => Some(v)
    case Variable(_) => None
    case Binary(l, op, rt) =>
      match (Eval(regs, rank, l), Eval(regs, rank, rt))
      case (Some(a), Some(b)) => Apply(op, a, b)
      case _ => None
  }

  /** The rank is only a witness: any two ranks of the same registers evaluate alike. */
  lemma {:induction false} EvalAnyRank(regs: Registers, rank1: map<Symbol, nat>, rank2: map<Symbol, nat>, s: Symbol)
    requires Ranked(regs, rank1) && Ranked(regs, rank2) && s in regs
    ensures Eval(regs, rank1, s) == Eval(regs, rank2, s)
    ensures ContainsVariable(regs, rank1, s) == ContainsVariable(regs, rank2, s)
    decreases rank1[s]
  {
    if regs[s].Binary? {
      EvalAnyRank(regs, rank1, rank2, regs[s].left);
      EvalAnyRank(regs, rank1, rank2, regs[s].right);
    }
  }

  /** Replacing the unknown with a number does not change what a variable-free monkey shouts. */
  lemma {:induction false} EvalWithoutVariable(regs: Registers, rank: map<Symbol, nat>, s: Symbol, h: Symbol, v: int)
    requires Ranked(regs, rank) && s in regs && h in regs && regs[h].Variable?
    requires !ContainsVariable(regs, rank, s)
    ensures Ranked(Write(regs, h, Value(v)), rank)
    ensures Eval(Write(regs, h, Value(v)), rank, s) == Eval(regs, rank, s)
    decreases rank[s]
  {
    WriteValueRanked(regs, rank, h, v);
    if regs[s].Binary? {
      EvalWithoutVariable(regs, rank, regs[s].left, h, v);
      EvalWithoutVariable(regs, rank, regs[s].right, h, v);
    }
  }

  /**
   * One inverse step of `uneval` as the source writes it: `other` is what the node must come to,
   * `c` the value of the operand without the unknown, `onLeft` whether the unknown is the left
   * operand; the result is what the unknown's side must come to.
   */
  function UndoAsWritten(op: MathOp, onLeft: bool, other: int, c: int): (r: Option<int>)
    ensures r.None? <==> (op == Multiply || (op == Divide && !onLeft)) && c == 0
  {
    match op
    case Add => Some(other - c)
    case Subtract => if onLeft then Some(other + c) else Some(c - other)
    case Multiply => if c == 0 then None else Some(Quot(other, c))
    case Divide => if onLeft then Some(other * c) else if c == 0 then None else Some(Quot(other, c))
  }

  /** For `c / x == other` the source's step gives `other / c` where `c / other` is meant. */
  lemma UndoAsWrittenDivideRight()
    ensures UndoAsWritten(Divide, false, 3, 12) == Some(0) && Apply(Divide, 12, 0) == None
    ensures Undo(Divide, false, 3, 12) == Some(4) && Apply(Divide, 12, 4) == Some(3)
  {
    QuotExact(12, 4, 3);
  }

  /** One inverse step with `c / x == other` solved as `x = c / other`. */
  function Undo(op: MathOp, onLeft: bool, other: int, c: int): (r: Option<int>)
    ensures r.None? <==> (op == Multiply && c == 0) || (op == Divide && !onLeft && other == 0)
    ensures !(op == Divide && !onLeft) ==> r == UndoAsWritten(op, onLeft, other, c)
  {
    match op
    case Add => Some(other - c)
    case Subtract => if onLeft then Some(other + c) else Some(c - other)
    case Multiply => if c == 0 then None else Some(Quot(other, c))
    case Divide => if onLeft then Some(other * c) else if other == 0 then None else Some(Quot(c, other))
  }

  /** When a step undoes exactly: always for `+` and `-`, and for `*` and `/` when the division involved leaves nothing over. */
  predicate Exact(op: MathOp, onLeft: bool, other: int, c: int)
  {
    match op
    case Add => true
    case Subtract => true
    case Multiply => c != 0 && other % c == 0
    case Divide => if onLeft then c != 0 else other != 0 && c != 0 && c % other == 0
  }

  /** The node applied to the undone value and the other operand comes to `other`. */
  function Redo(op: MathOp, onLeft: bool, x: int, c: int): Option<int>
  {
    if onLeft then Apply(op, x, c) else Apply(op, c, x)
  }

  /** An exact step is undone: redoing the operation on its result gives back `other`. */
  lemma UndoRedo(op: MathOp, onLeft: bool, other: int, c: int)
    requires Exact(op, onLeft, other, c)
    ensures Undo(op, onLeft, other, c).Some?
    ensures Redo(op, onLeft, Undo(op, onLeft, other, c).value, c) == Some(other)
  {
    match op
    case Add =>
    case Subtract =>
    case Multiply =>
      var q := other / c;
      assert other == q * c;
      QuotExact(other, c, q);
      assert Undo(op, onLeft, other, c) == Some(q);
    case Divide =>
      if onLeft {
        QuotExact(other * c, c, other);
      } else {
        var x := c / other;
        assert c == x * other;
        QuotExact(c, other, x);
        assert x != 0;
        QuotExact(c, x, other);
      }
  }

  /** For `+`, `-` and `*` a step has one solution, and it is the one undo finds. */
  lemma RedoUndo(op: MathOp, onLeft: bool, x: int, c: int)
    requires op != Divide && (op == Multiply ==> c != 0)
    ensures Redo(op, onLeft, x, c).Some?
    ensures Undo(op, onLeft, Redo(op, onLeft, x, c).value, c) == Some(x)
  {
    if op == Multiply {
      QuotExact(c * x, c, x);
    }
  }

  /** The inverse step `uneval` takes: as the source writes it, or with `c / x == other` solved as `x = c / other`. */
  function Step(corrected: bool, op: MathOp, onLeft: bool, other: int, c: int): (r: Option<int>)
    ensures !(op == Divide && !onLeft) ==> r == UndoAsWritten(op, onLeft, other, c)
  {
    if corrected then Undo(op, onLeft, other, c) else UndoAsWritten(op, onLeft, other, c)
  }

  /**
   * `uneval`: the number the unknown must take for `s` to come to `other`. A variable-free node
   * gives its own value; the unknown on both sides of a node panics, as does a division by zero.
   * With `corrected` false every step is the source's own; with it true an unknown divisor is
   * solved as intended.
   */
  function Uneval(regs: Registers, rank: map<Symbol, nat>, s: Symbol, other: int, corrected: bool): (r: Option<int>)
    requires Ranked(regs, rank) && s in regs
    ensures !ContainsVariable(regs, rank, s) ==> r == Eval(regs, rank, s)
    ensures regs[s].Variable? ==> r == Some(other)
    decreases rank[s]
  {
    match regs[s]
    case Value(v) => Some(v)
    case Variable(_) => Some(other)
    case Binary(l, op, rt) =>
      var inLeft, inRight := ContainsVariable(regs, rank, l), ContainsVariable(regs, rank, rt);
      if !inLeft && !inRight then Eval(regs, rank, s)
      else if inLeft && inRight then None
      else
        var (v, k) := if inLeft then (l, rt) else (rt, l);
        match Eval(regs, rank, k)
        case None => None
        case Some(c) =>
          match Step(corrected, op, inLeft, other, c)
          case None => None
          case Some(t) => Uneval(regs, rank, v, t, corrected)
  }

  /** No node below `s` divides by a value that depends on the unknown. */
  predicate NoUnknownDivisor(regs: Registers, rank: map<Symbol, nat>, s: Symbol)
    requires Ranked(regs, rank) && s in regs
    decreases rank[s]
  {
    match regs[s]
    case Binary(l, op, rt) =>
      (op == Divide ==> !ContainsVariable(regs, rank, rt)) &&
      NoUnknownDivisor(regs, rank, l) && NoUnknownDivisor(regs, rank, rt)
    case _ => true
  }

  /** Where no node divides by the unknown, the source's `uneval` and the corrected one agree. */
  lemma {:induction false} UnevalAgrees(regs: Registers, rank: map<Symbol, nat>, s: Symbol, other: int)
    requires Ranked(regs, rank) && s in regs && NoUnknownDivisor(regs, rank, s)
    ensures Uneval(regs, rank, s, other, false) == Uneval(regs, rank, s, other, true)
    decreases rank[s]
  {
    match regs[s]
    case Binary(l, op, rt) =>
      var inLeft, inRight := ContainsVariable(regs, rank, l), ContainsVariable(regs, rank, rt);
      if inLeft != inRight {
        var (v, k) := if inLeft then (l, rt) else (rt, l);
        if Eval(regs, rank, k).Some? {
          var c := Eval(regs, rank, k).value;
          var t := Step(false, op, inLeft, other, c);
          assert t == Step(true, op, inLeft, other, c);
          if t.Some? {
            UnevalAgrees(regs, rank, v, t.value);
          }
        }
      }
    case _ =>
  }

  /**
   * `x / humn == 3` with `x` shouting 12: the source's `uneval` answers 0, and with 0 written into
   * the unknown the node divides by zero; the corrected one answers 4, which makes the node 3.
   */
  lemma UnevalDivideRight(regs: Registers, rank: map<Symbol, nat>, s: Symbol, x: Symbol, h: Symbol)
    requires Ranked(regs, rank) && s in regs && regs[s] == Binary(x, Divide, h)
    requires regs[x] == Value(12) && regs[h].Variable?
    ensures Uneval(regs, rank, s, 3, false) == Some(0)
    ensures Eval(Write(regs, h, Value(0)), rank, s) == None
    ensures Uneval(regs, rank, s, 3, true) == Some(4)
    ensures Eval(Write(regs, h, Value(4)), rank, s) == Some(3)
  {
    assert x != h;
    assert !ContainsVariable(regs, rank, x) && ContainsVariable(regs, rank, h);
    UndoAsWrittenDivideRight();
    WriteValueRanked(regs, rank, h, 0);
    WriteValueRanked(regs, rank, h, 4);
    assert Eval(Write(regs, h, Value(4)), rank, x) == Some(12);
    assert Eval(Write(regs, h, Value(4)), rank, h) == Some(4);
  }

  /**
   * The unknown can be solved for below `s` with `s` coming to `other`: every node on the way has
   * the unknown on one side only, its other side evaluates, and each step undoes exactly.
   */
  predicate Solvable(regs: Registers, rank: map<Symbol, nat>, s: Symbol, other: int)
    requires Ranked(regs, rank) && s in regs
    decreases rank[s]
  {
    match regs[s]
    case Variable(_) => true
    case Value(_) => false
    case Binary(l, op, rt) =>
      var inLeft, inRight := ContainsVariable(regs, rank, l), ContainsVariable(regs, rank, rt);
      inLeft != inRight &&
      var (v, k) := if inLeft then (l, rt) else (rt, l);
      Eval(regs, rank, k).Some? &&
      var c := Eval(regs, rank, k).value;
      Exact(op, inLeft, other, c) && Undo(op, inLeft, other, c).Some? &&
      Solvable(regs, rank, v, Undo(op, inLeft, other, c).value)
  }

  /** A solvable monkey depends on the unknown. */
  lemma {:induction false} SolvableContainsVariable(regs: Registers, rank: map<Symbol, nat>, s: Symbol, other: int)
    requires Ranked(regs, rank) && s in regs && Solvable(regs, rank, s, other)
    ensures ContainsVariable(regs, rank, s)
    decreases rank[s]
  {
  }

  /**
   * The corrected `uneval` inverts `eval`: when the unknown `h` can be solved for below `s`,
   * writing the number it finds into `h` makes `s` come to `other`.
   */
  lemma {:induction false} UnevalSolves(regs: Registers, rank: map<Symbol, nat>, s: Symbol, h: Symbol, other: int)
    requires Ranked(regs, rank) && s in regs && h in regs && regs[h].Variable? && OnlyVariable(regs, h)
    requires Solvable(regs, rank, s, other)
    ensures Uneval(regs, rank, s, other, true).Some?
    ensures Ranked(Write(regs, h, Value(Uneval(regs, rank, s, other, true).value)), rank)
    ensures Eval(Write(regs, h, Value(Uneval(regs, rank, s, other, true).value)), rank, s) == Some(other)
    decreases rank[s]
  {
    match regs[s]
    case Variable(_) =>
      assert s == h;
      WriteValueRanked(regs, rank, h, other);
    case Binary(l, op, rt) =>
      var inLeft := ContainsVariable(regs, rank, l);
      var (v, k) := if inLeft then (l, rt) else (rt, l);
      var c := Eval(regs, rank, k).value;
      UndoRedo(op, inLeft, other, c);
      var t := Undo(op, inLeft, other, c).value;
      UnevalSolves(regs, rank, v, h, t);
      var x := Uneval(regs, rank, v, t, true).value;
      assert Uneval(regs, rank, s, other, true) == Some(x);
      EvalWithoutVariable(regs, rank, k, h, x);
      var regs' := Write(regs, h, Value(x));
      assert Eval(regs', rank, v) == Some(t);
      assert Eval(regs', rank, k) == Some(c);
      assert Eval(regs', rank, s) == Redo(op, inLeft, t, c);
  }

  /** `solve_equation`: the value of the variable-free side of `s`, unevaluated along the other side. */
  function SolveEquation(regs: Registers, rank: map<Symbol, nat>, s: Symbol, corrected: bool): (r: Option<int>)
    requires Ranked(regs, rank) && s in regs
    ensures !regs[s].Binary? ==> r.None?
  {
    match regs[s]
    case Binary(l, _, rt) =>
      var (v, k) := if ContainsVariable(regs, rank, l) then (l, rt) else (rt, l);
      (match Eval(regs, rank, k)
       case None => None
       case Some(t) => Uneval(regs, rank, v, t, corrected))
    case _ => None
  }

  /**
   * The number `solve_equation` finds balances `s`: with it written into the unknown, both
   * operands of `s` come to the same number.
   */
  lemma SolveEquationBalances(regs: Registers, rank: map<Symbol, nat>, s: Symbol, h: Symbol)
    requires Ranked(regs, rank) && s in regs && regs[s].Binary?
    requires h in regs && regs[h].Variable? && OnlyVariable(regs, h)
    requires var l, rt := regs[s].left, regs[s].right;
      var (v, k) := if ContainsVariable(regs, rank, l) then (l, rt) else (rt, l);
      Eval(regs, rank, k).Some? && Solvable(regs, rank, v, Eval(regs, rank, k).value)
    ensures SolveEquation(regs, rank, s, true).Some?
    ensures var regs' := Write(regs, h, Value(SolveEquation(regs, rank, s, true).value));
      Ranked(regs', rank) &&
      Eval(regs', rank, regs[s].left).Some? &&
      Eval(regs', rank, regs[s].left) == Eval(regs', rank, regs[s].right)
  {
    var l, rt := regs[s].left, regs[s].right;
    var (v, k) := if ContainsVariable(regs, rank, l) then (l, rt) else (rt, l);
    var t := Eval(regs, rank, k).value;
    UnevalSolves(regs, rank, v, h, t);
    var x := Uneval(regs, rank, v, t, true).value;
    EvalWithoutVariable(regs, rank, k, h, x);
  }

  /** `Computer::from`: each monkey's expression under its name; a later monkey of the same name wins. */
  function FromMonkeys(monkeys: seq<Monkey>): Registers
  {
    if monkeys == [] then map[]
    else FromMonkeys(monkeys[..|monkeys| - 1])[monkeys[|monkeys| - 1].symbol := monkeys[|monkeys| - 1].expression]
  }

  /** The names of `monkeys`. */
  function Names(monkeys: seq<Monkey>): set<Symbol>
  {
    set i | 0 <= i < |monkeys| :: monkeys[i].symbol
  }

  /** The registers hold exactly the monkeys' names. */
  lemma {:induction false} FromMonkeysKeys(monkeys: seq<Monkey>)
    ensures FromMonkeys(monkeys).Keys == Names(monkeys)
  {
    if monkeys != [] {
      var n := |monkeys| - 1;
      var init, last := monkeys[..n], monkeys[n];
      FromMonkeysKeys(init);
      forall x | x in Names(monkeys)
        ensures x in Names(init) + {last.symbol}
      {
        var i :| 0 <= i < |monkeys| && monkeys[i].symbol == x;
        if i < n {
          assert init[i].symbol == x;
        }
      }
      forall x | x in Names(init)
        ensures x in Names(monkeys)
      {
        var i :| 0 <= i < |init| && init[i].symbol == x;
        assert monkeys[i].symbol == x;
      }
    }
  }

  /** Each name holds the expression of the last monkey of that name. */
  lemma {:induction false} FromMonkeysLast(monkeys: seq<Monkey>, i: nat)
    requires i < |monkeys| && forall j | i < j < |monkeys| :: monkeys[j].symbol != monkeys[i].symbol
    ensures monkeys[i].symbol in FromMonkeys(monkeys)
    ensures FromMonkeys(monkeys)[monkeys[i].symbol] == monkeys[i].expression
  {
    var n := |monkeys| - 1;
    if i < n {
      var init := monkeys[..n];
      assert init[i] == monkeys[i];
      assert monkeys[n].symbol != monkeys[i].symbol;
      forall j | i < j < |init|
        ensures init[j].symbol != init[i].symbol
      {
        assert init[j] == monkeys[j];
      }
      FromMonkeysLast(init, i);
    }
  }

  /** `solve_part1`: what `root` shouts. */
  function SolvePart1(monkeys: seq<Monkey>, rank: map<Symbol, nat>): (r: Option<int>)
    requires Ranked(FromMonkeys(monkeys), rank) && Root in FromMonkeys(monkeys)
    ensures forall rank2 | Ranked(FromMonkeys(monkeys), rank2) :: r == Eval(FromMonkeys(monkeys), rank2, Root)
  {
    assert forall rank2 | Ranked(FromMonkeys(monkeys), rank2) :: Eval(FromMonkeys(monkeys), rank, Root) == Eval(FromMonkeys(monkeys), rank2, Root) by {
      forall rank2 | Ranked(FromMonkeys(monkeys), rank2)
        ensures Eval(FromMonkeys(monkeys), rank, Root) == Eval(FromMonkeys(monkeys), rank2, Root)
      {
        EvalAnyRank(FromMonkeys(monkeys), rank, rank2, Root);
      }
    }
    Eval(FromMonkeys(monkeys), rank, Root)
  }

  /** `solve_part2`: `humn` becomes the unknown, then `root`'s equation is solved. */
  function SolvePart2(monkeys: seq<Monkey>, rank: map<Symbol, nat>, corrected: bool): Option<int>
    requires Ranked(FromMonkeys(monkeys), rank) && Humn in rank && Root in FromMonkeys(monkeys)
  {
    var regs := Write(FromMonkeys(monkeys), Humn, Variable(5));
    assert Ranked(regs, rank);
    SolveEquation(regs, rank, Root, corrected)
  }

  /**
   * Part 2 with the corrected step: when the side of `root` holding `humn` can be solved exactly
   * for the other side's value, shouting the answer makes `root`'s two operands equal.
   */
  lemma SolvePart2Balances(monkeys: seq<Monkey>, rank: map<Symbol, nat>)
    requires Ranked(FromMonkeys(monkeys), rank) && Humn in FromMonkeys(monkeys) && Root in FromMonkeys(monkeys)
    requires forall k | k in FromMonkeys(monkeys) :: !FromMonkeys(monkeys)[k].Variable?
    requires var regs := Write(FromMonkeys(monkeys), Humn, Variable(5));
      Ranked(regs, rank) && regs[Root].Binary? &&
      var l, rt := regs[Root].left, regs[Root].right;
      var (v, k) := if ContainsVariable(regs, rank, l) then (l, rt) else (rt, l);
      Eval(regs, rank, k).Some? && Solvable(regs, rank, v, Eval(regs, rank, k).value)
    ensures SolvePart2(monkeys, rank, true).Some?
    ensures var regs := Write(FromMonkeys(monkeys), Humn, Value(SolvePart2(monkeys, rank, true).value));
      Ranked(regs, rank) && regs[Root].Binary? &&
      Eval(regs, rank, regs[Root].left).Some? &&
      Eval(regs, rank, regs[Root].left) == Eval(regs, rank, regs[Root].right)
  {
    var regs := Write(FromMonkeys(monkeys), Humn, Variable(5));
    SolveEquationBalances(regs, rank, Root, Humn);
    var x := SolveEquation(regs, rank, Root, true).value;
    assert Write(regs, Humn, Value(x)) == Write(FromMonkeys(monkeys), Humn, Value(x));
  }

  /**
   * `regs` holds the puzzle's example monkeys, with `humn` holding `humn`; other registers
   * may hold anything.
   */
  predicate HoldsExample(regs: Registers, humn: Expression)
  {
    "root" in regs && regs["root"] == Binary("pppw", Add, "sjmn") &&
    "dbpl" in regs && regs["dbpl"] == Value(5) &&
    "cczh" in regs && regs["cczh"] == Binary("sllz", Add, "lgvd") &&
    "zczc" in regs && regs["zczc"] == Value(2) &&
    "ptdq" in regs && regs["ptdq"] == Binary("humn", Subtract, "dvpt") &&
    "dvpt" in regs && regs["dvpt"] == Value(3) &&
    "lfqf" in regs && regs["lfqf"] == Value(4) &&
    "humn" in regs && regs["humn"] == humn &&
    "ljgn" in regs && regs["ljgn"] == Value(2) &&
    "sjmn" in regs && regs["sjmn"] == Binary("drzm", Multiply, "dbpl") &&
    "sllz" in regs && regs["sllz"] == Value(4) &&
    "pppw" in regs && regs["pppw"] == Binary("cczh", Divide, "lfqf") &&
    "lgvd" in regs && regs["lgvd"] == Binary("ljgn", Multiply, "ptdq") &&
    "drzm" in regs && regs["drzm"] == Binary("hmdt", Subtract, "zczc") &&
    "hmdt" in regs && regs["hmdt"] == Value(32)
  }

  /** The `part1` case: `root` shouts 152. */
  lemma ExamplePart1(regs: Registers, rank: map<Symbol, nat>)
    requires Ranked(regs, rank) && HoldsExample(regs, Value(5))
    ensures Eval(regs, rank, Root) == Some(152)
  {
    assert Eval(regs, rank, "ptdq") == Some(2);
    assert Eval(regs, rank, "lgvd") == Some(4);
    assert Eval(regs, rank, "cczh") == Some(8);
    QuotExact(8, 4, 2);
    assert Eval(regs, rank, "pppw") == Some(2);
    assert Eval(regs, rank, "drzm") == Some(30);
    assert Eval(regs, rank, "sjmn") == Some(150);
  }

  /** The `part2` case: with `humn` the unknown, it must shout 301 for `root`'s operands to agree. */
  lemma ExamplePart2(regs: Registers, rank: map<Symbol, nat>, corrected: bool)
    requires Ranked(regs, rank) && HoldsExample(regs, Variable(5))
    ensures SolveEquation(regs, rank, Root, corrected) == Some(301)
  {
    assert ContainsVariable(regs, rank, "ptdq");
    assert ContainsVariable(regs, rank, "lgvd");
    assert ContainsVariable(regs, rank, "cczh");
    assert ContainsVariable(regs, rank, "pppw");
    assert !ContainsVariable(regs, rank, "drzm");
    assert !ContainsVariable(regs, rank, "sjmn");
    assert Eval(regs, rank, "drzm") == Some(30);
    assert Eval(regs, rank, "sjmn") == Some(150);
    QuotExact(596, 2, 298);
    assert Uneval(regs, rank, "humn", 301, corrected) == Some(301);
    assert Uneval(regs, rank, "ptdq", 298, corrected) == Some(301);
    assert Uneval(regs, rank, "lgvd", 596, corrected) == Some(301);
    assert Uneval(regs, rank, "cczh", 600, corrected) == Some(301);
    assert Uneval(regs, rank, "pppw", 150, corrected) == Some(301);
  }

  // Parsing

  /** `symbol`: the next four characters, whatever they are. */
  function ParseSymbol(s: string): (r: Option<(Symbol, string)>)
    ensures r.Some? <==> |s| >= 4
    ensures r.Some? ==> |r.value.0| == 4 && s == r.value.0 + r.value.1
  {
    if |s| >= 4 then Some((s[..4], s[4..])) else None
  }

  /** `MathOp::from` on the four operator characters `one_of` lets through. */
  function ParseOp(c: char): Option<MathOp>
  {
    match c
    case '+' => Some(Add)
    case '-' => Some(Subtract)
    case '*' => Some(Multiply)
    case '/' => Some(Divide)
    case _ => None
  }

  function OpChar(op: MathOp): char
  {
    match op
    case Add => '+'
    case Subtract => '-'
    case Multiply => '*'
    case Divide => '/'
  }

  /** Each operator has exactly one character. */
  lemma ParseOpChar(c: char, op: MathOp)
    ensures ParseOp(c) == Some(op) <==> c == OpChar(op)
  {
  }

  /** `binary_expression`: a name, an operator between single spaces, and a name. */
  function ParseBinary(s: string): (r: Option<(Expression, string)>)
    ensures r.Some? <==> |s| >= 11 && s[4] == ' ' && s[6] == ' ' && s[5] in "+-*/"
    ensures r.Some? ==> r.value.0.Binary? && s == r.value.0.left + [' ', OpChar(r.value.0.op), ' '] + r.value.0.right + r.value.1
  {
    if |s| >= 11 && s[4] == ' ' && s[6] == ' ' && ParseOp(s[5]).Some? then
      assert s == s[..4] + [' ', s[5], ' '] + s[7..11] + s[11..];
      Some((Binary(s[..4], ParseOp(s[5]).value, s[7..11]), s[11..]))
    else None
  }

  /** `expression`: a binary expression if one parses, else an `i64` number. */
  function ParseExpression(s: string): (r: Option<(Expression, string)>)
    ensures r.Some? ==> |r.value.1| < |s| && !r.value.0.Variable?
  {
    match ParseBinary(s)
    case Some(b) => Some(b)
    case None =>
      match ParseSignedPrefix(s, I64Min, I64Max)
      case Some((v, rest)) => Some((Value(v), rest))
      case None => None
  }

  /** `monkey`: a name, a colon and a space, an expression. */
  function ParseMonkey(s: string): (r: Option<(Monkey, string)>)
    ensures r.Some? <==> |s| >= 6 && s[4..6] == ": " && ParseExpression(s[6..]).Some?
    ensures r.Some? ==> r.value.0.symbol == s[..4] && !r.value.0.expression.Variable?
    ensures r.Some? ==> ParseExpression(s[6..]) == Some((r.value.0.expression, r.value.1))
    ensures r.Some? ==> |r.value.1| < |s|
  {
    match ParseSymbol(s)
    case None => None
    case Some((name, t)) =>
      if |t| >= 2 && t[..2] == ": " then
        match ParseExpression(t[2..])
        case Some((e, rest)) => Some((Monkey(name, e), rest))
        case None => None
      else None
  }

  /** `read_monkeys`: one monkey per line. */
  function ReadMonkeys(s: string): Option<(seq<Monkey>, string)>
  {
    SeparatedLines(ParseMonkey, s, true)
  }

  /** Names as puzzle inputs have them: four characters, none a space. */
  predicate ValidSymbol(s: Symbol)
  {
    |s| == 4 && ' ' !in s
  }

  /** A monkey as an input line can state it. */
  predicate ValidMonkey(m: Monkey)
  {
    ValidSymbol(m.symbol) && !m.expression.Variable? &&
    (m.expression.Value? ==> I64Min <= m.expression.value <= I64Max) &&
    (m.expression.Binary? ==> ValidSymbol(m.expression.left) && ValidSymbol(m.expression.right))
  }

  function ShowExpression(e: Expression): string
    requires !e.Variable?
  {
    match e
    case Value(v) => ShowInt(v)
    case Binary(l, op, rt) => l + [' ', OpChar(op), ' '] + rt
  }

  function ShowMonkey(m: Monkey): (s: string)
    requires !m.expression.Variable?
    ensures |m.symbol| <= |s| && s[..|m.symbol|] == m.symbol
  {
    m.symbol + ": " + ShowExpression(m.expression)
  }

  /** None of the first four characters is a space. */
  predicate NoSpaceAhead(rest: string)
  {
    forall k | 0 <= k < |rest| && k < 4 :: rest[k] != ' '
  }

  /** After its first character, a printed number is all digits. */
  lemma ShowIntDigits(v: int)
    ensures forall k | 1 <= k < |ShowInt(v)| :: IsDigit(ShowInt(v)[k])
    ensures ShowInt(v)[0] == '-' || IsDigit(ShowInt(v)[0])
  {
    if v >= 0 {
      assert ShowInt(v) == ShowNat(v);
    } else {
      assert ShowInt(v) == "-" + ShowNat(-v);
    }
  }

  /** A printed number is not a binary expression while no space follows it closely. */
  lemma ShowValueNotBinary(v: int, rest: string)
    requires NoSpaceAhead(rest)
    ensures ParseBinary(ShowInt(v) + rest).None?
  {
    ShowIntDigits(v);
    var s := ShowInt(v) + rest;
    if |s| >= 11 {
      if |ShowInt(v)| > 4 {
        assert s[4] == ShowInt(v)[4];
      } else {
        assert s[4] == rest[4 - |ShowInt(v)|];
      }
    }
  }

  /** A printed expression parses back, leaving the rest. */
  lemma ParseShowExpression(e: Expression, rest: string)
    requires !e.Variable?
    requires e.Value? ==> I64Min <= e.value <= I64Max
    requires e.Binary? ==> |e.left| == 4 && |e.right| == 4
    requires NoSpaceAhead(rest) && (rest == [] || !IsDigit(rest[0]))
    ensures ParseExpression(ShowExpression(e) + rest) == Some((e, rest))
  {
    var s := ShowExpression(e) + rest;
    match e
    case Value(v) =>
      ShowValueNotBinary(v, rest);
      ParseSignedShow(v, rest, I64Min, I64Max);
    case Binary(l, op, rt) =>
      assert s == l + [' ', OpChar(op), ' '] + rt + rest;
      assert s[4] == ' ' && s[5] == OpChar(op) && s[6] == ' ';
      assert s[..4] == l && s[7..11] == rt && s[11..] == rest;
  }

  /** A printed monkey parses back, leaving the rest. */
  lemma ParseShowMonkey(m: Monkey, rest: string)
    requires ValidMonkey(m)
    requires NoSpaceAhead(rest) && (rest == [] || !IsDigit(rest[0]))
    ensures ParseMonkey(ShowMonkey(m) + rest) == Some((m, rest))
  {
    var s := ShowMonkey(m) + rest;
    var t := ShowExpression(m.expression) + rest;
    assert s == m.symbol + (": " + t);
    assert s[..4] == m.symbol && s[4..] == ": " + t;
    assert (": " + t)[..2] == ": " && (": " + t)[2..] == t;
    ParseShowExpression(m.expression, rest);
  }

  function ShowMonkeys(monkeys: seq<Monkey>): (r: seq<string>)
    requires forall i | 0 <= i < |monkeys| :: ValidMonkey(monkeys[i])
  {
    seq(|monkeys|, i requires 0 <= i < |monkeys| && ValidMonkey(monkeys[i]) => ShowMonkey(monkeys[i]))
  }

  /** Printing all but the first monkey prints all but the first line. */
  lemma ShowMonkeysTail(monkeys: seq<Monkey>)
    requires |monkeys| >= 1 && forall i | 0 <= i < |monkeys| :: ValidMonkey(monkeys[i])
    ensures ShowMonkeys(monkeys)[1..] == ShowMonkeys(monkeys[1..])
  {
    var a, b := ShowMonkeys(monkeys)[1..], ShowMonkeys(monkeys[1..]);
    assert |a| == |b|;
    forall i | 0 <= i < |a|
      ensures a[i] == b[i]
    {
      assert ValidMonkey(monkeys[i + 1]) && monkeys[1..][i] == monkeys[i + 1];
    }
  }

  /** The lines after the first start with the second monkey's name. */
  lemma JoinStartsWith(lines: seq<string>, prefix: string)
    requires |lines| >= 1 && |lines[0]| >= |prefix| && lines[0][..|prefix|] == prefix
    ensures |Join(lines, "\n")| >= |prefix| && Join(lines, "\n")[..|prefix|] == prefix
  {
    if |lines| > 1 {
      JoinCons(lines, "\n");
    }
  }

  /** One printed monkey reads back as itself. */
  lemma ReadShowLast(m: Monkey)
    requires ValidMonkey(m)
    ensures ReadMonkeys(ShowMonkey(m)) == Some(([m], ""))
  {
    ParseShowMonkey(m, "");
    assert ShowMonkey(m) + "" == ShowMonkey(m);
    SeparatedLinesLast(ParseMonkey, ShowMonkey(m), m, true);
  }

  /** A printed monkey, a line break and lines that read back, read back with the monkey first. */
  lemma ReadShowCons(m: Monkey, tail: string, rest: seq<Monkey>, next: Symbol)
    requires ValidMonkey(m) && ValidSymbol(next)
    requires |tail| >= 4 && tail[..4] == next
    requires ReadMonkeys(tail) == Some((rest, ""))
    ensures ReadMonkeys(ShowMonkey(m) + ("\n" + tail)) == Some(([m] + rest, ""))
  {
    assert NoSpaceAhead("\n" + tail) by {
      forall k | 1 <= k < 4
        ensures ("\n" + tail)[k] != ' '
      {
        assert ("\n" + tail)[k] == next[k - 1];
      }
    }
    ParseShowMonkey(m, "\n" + tail);
    SeparatedLinesCons(ParseMonkey, ShowMonkey(m) + ("\n" + tail), tail, m, rest, true);
  }

  /** Printed monkeys, one per line, read back as the same monkeys. */
  lemma {:induction false} ReadShowMonkeys(monkeys: seq<Monkey>)
    requires |monkeys| >= 1 && forall i | 0 <= i < |monkeys| :: ValidMonkey(monkeys[i])
    ensures ReadMonkeys(Join(ShowMonkeys(monkeys), "\n")) == Some((monkeys, ""))
  {
    var lines := ShowMonkeys(monkeys);
    var m := monkeys[0];
    assert ValidMonkey(m) && lines[0] == ShowMonkey(m);
    if |monkeys| == 1 {
      assert Join(lines, "\n") == ShowMonkey(m);
      ReadShowLast(m);
      assert monkeys == [m];
    } else {
      var rest := monkeys[1..];
      assert forall i | 0 <= i < |rest| :: rest[i] == monkeys[i + 1];
      ReadShowMonkeys(rest);
      ShowMonkeysTail(monkeys);
      var tail := Join(lines[1..], "\n");
      JoinCons(lines, "\n");
      assert ValidMonkey(rest[0]) && lines[1..][0] == ShowMonkey(rest[0]);
      JoinStartsWith(lines[1..], rest[0].symbol);
      ReadShowCons(m, tail, rest, rest[0].symbol);
      assert monkeys == [m] + rest;
    }
  }

  /** The `parse_symbol` case. */
  lemma ExampleSymbol()
    ensures ParseSymbol("aaaa") == Some(("aaaa", ""))
  {
    assert "aaaa"[..4] == "aaaa";
  }

  /** The `parse_monkey` case. */
  lemma ExampleMonkey()
    ensures ParseMonkey("dbpl: 5") == Some((Monkey("dbpl", Value(5)), ""))
  {
    ParseShowMonkey(Monkey("dbpl", Value(5)), "");
    assert ShowInt(5) == "5";
    assert ShowMonkey(Monkey("dbpl", Value(5))) + "" == "dbpl: 5";
  }

  /** The `parse_binary_expression` case. */
  lemma ExampleBinary()
    ensures ParseBinary("sllz + lgvd") == Some((Binary("sllz", Add, "lgvd"), ""))
  {
    var s := "sllz + lgvd";
    assert s[..4] == "sllz" && s[7..11] == "lgvd" && s[11..] == "";
  }
}
