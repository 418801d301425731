/**
 * Day 11, Monkey in the Middle: each monkey in turn inspects the items it holds,
 * which changes an item's worry level by its operation, relieves the worry, and
 * throws the item to one of two monkeys depending on whether the worry is a
 * multiple of its divisor. Part 1 relieves by dividing by 3 over 20 rounds; part 2
 * keeps worries small by reducing them modulo the product of all divisors over
 * 10000 rounds. The answer is the product of the two largest inspection counts.
 */
module Day11 {
  import opened Wrappers
  import opened Text
  import opened Arith

  datatype Operator = Plus | Times
  datatype Operand = Old | Value(v: nat)
  datatype Operation = Operation(operator: Operator, operand: Operand)
  datatype TestExpression = TestExpression(divisibleBy: nat, ifTrue: nat, ifFalse: nat)
  datatype Monkey = Monkey(number: nat, startingItems: seq<nat>, operation: Operation, test: TestExpression)

  /** The worry level after an inspection: the item combined with itself or with a constant. */
  function Inspect(op: Operation, item: nat): (r: nat)
    ensures r >= item || op == Operation(Times, Value(0))
    ensures r == 0 <==> ((item == 0 && (op.operator == Times || op.operand.Old? || op.operand == Value(0)))
      || op == Operation(Times, Value(0)))
  {
    var other := match op.operand case Old => item case Value(v) => v;
    ProductAtLeast(item, other);
    match op.operator
    case Plus => item + other
    case Times => item * other
  }

  lemma ProductAtLeast(a: nat, b: nat)
    ensures b >= 1 ==> a * b >= a
  {
    if a > 0 && b >= 1 {
      MultipleAwayFromZero(b, a);
    }
  }

  /** An inspection commutes with reduction modulo `p`. */
  lemma InspectModulo(op: Operation, w: nat, p: nat)
    requires p > 0
    ensures Inspect(op, w % p) % p == Inspect(op, w) % p
  {
    match op.operand
    case Value(v) =>
      if op.operator == Plus {
        AddModulo(w, v, p);
      } else {
        TimesModulo(w, v, p);
      }
    case Old =>
      if op.operator == Plus {
        DoubleModulo(w, p);
      } else {
        SquareModulo(w, p);
      }
  }

  lemma AddModulo(w: nat, v: nat, p: nat)
    requires p > 0
    ensures (w % p + v) % p == (w + v) % p
  {
    var q, r := w / p, w % p;
    assert w + v == q * p + (r + v);
    ModMultiple(q, p, r + v);
  }

  lemma TimesModulo(w: nat, v: nat, p: nat)
    requires p > 0
    ensures (w % p * v) % p == (w * v) % p
  {
    var q, r := w / p, w % p;
    assert w * v == (q * v) * p + r * v by {
      assert w == q * p + r;
    }
    ModMultiple(q * v, p, r * v);
  }

  lemma DoubleModulo(w: nat, p: nat)
    requires p > 0
    ensures (w % p + w % p) % p == (w + w) % p
  {
    var q, r := w / p, w % p;
    assert w + w == (2 * q) * p + 2 * r;
    ModMultiple(2 * q, p, 2 * r);
  }

  lemma SquareModulo(w: nat, p: nat)
    requires p > 0
    ensures (w % p * (w % p)) % p == (w * w) % p
  {
    var q, r := w / p, w % p;
    assert w * w == (q * q * p + 2 * q * r) * p + r * r by {
      assert w == q * p + r;
      assert w * w == (q * p + r) * (q * p + r);
    }
    ModMultiple(q * q * p + 2 * q * r, p, r * r);
  }

  /** How worry is relieved after an inspection: part 1 divides by 3, part 2 reduces modulo a product; `Unrelieved` is the plain rule both are measured against. */
  datatype Relief = DivideByThree | Modulo(p: nat) | Unrelieved

  predicate ValidRelief(relief: Relief)
  {
    relief.Modulo? ==> relief.p > 0
  }

  function Relieve(w: nat, relief: Relief): nat
    requires ValidRelief(relief)
  {
    match relief
    case DivideByThree => w / 3
    case Modulo(p) => w % p
    case Unrelieved => w
  }

  /** The monkey an item with worry `w` is thrown to. */
  function Target(test: TestExpression, w: nat): nat
    requires test.divisibleBy > 0
  {
    if w % test.divisibleBy == 0 then test.ifTrue else test.ifFalse
  }

  /** What one monkey's turn indexes among `n` monkeys is in range, and its divisor is not zero (the source panics otherwise). */
  predicate Fits(m: Monkey, n: nat)
  {
    m.number < n && m.test.ifTrue < n && m.test.ifFalse < n && m.test.divisibleBy > 0
  }

  predicate Wf(monkeys: seq<Monkey>)
  {
    forall i :: 0 <= i < |monkeys| ==> Fits(monkeys[i], |monkeys|)
  }

  /** The items each monkey holds and how many it has inspected, indexed by monkey number. */
  datatype State = State(items: seq<seq<nat>>, inspections: seq<nat>)
  {
    predicate Sized(n: nat)
    {
      |items| == n && |inspections| == n
    }
  }

  /** The innermost loop over the items `pending` of monkey `m`: count, inspect, relieve, throw. */
  function Throw(m: Monkey, pending: seq<nat>, st: State, relief: Relief): (r: State)
    requires Fits(m, |st.items|) && st.Sized(|st.items|) && ValidRelief(relief)
    ensures r.Sized(|st.items|)
    ensures r.inspections == st.inspections[m.number := st.inspections[m.number] + |pending|]
    decreases |pending|
  {
    if pending == [] then st
    else
      var w := Relieve(Inspect(m.operation, pending[0]), relief);
      var t := Target(m.test, w);
      var next := State(st.items[t := st.items[t] + [w]], st.inspections[m.number := st.inspections[m.number] + 1]);
      Throw(m, pending[1..], next, relief)
  }

  /** One monkey's turn: every item it held at the start is thrown, then its list is cleared. */
  function Turn(m: Monkey, st: State, relief: Relief): (r: State)
    requires Fits(m, |st.items|) && st.Sized(|st.items|) && ValidRelief(relief)
    ensures r.Sized(|st.items|) && r.items[m.number] == []
    ensures r.inspections == st.inspections[m.number := st.inspections[m.number] + |st.items[m.number]|]
  {
    var thrown := Throw(m, st.items[m.number], st, relief);
    thrown.(items := thrown.items[m.number := []])
  }

  /** One round: the turns of `monkeys` in order. */
  function Round(monkeys: seq<Monkey>, st: State, relief: Relief): (r: State)
    requires forall i :: 0 <= i < |monkeys| ==> Fits(monkeys[i], |st.items|)
    requires st.Sized(|st.items|) && ValidRelief(relief)
    ensures r.Sized(|st.items|)
    decreases |monkeys|
  {
    if monkeys == [] then st else Round(monkeys[1..], Turn(monkeys[0], st, relief), relief)
  }

  function Rounds(monkeys: seq<Monkey>, count: nat, st: State, relief: Relief): (r: State)
    requires Wf(monkeys) && st.Sized(|monkeys|) && ValidRelief(relief)
    ensures r.Sized(|monkeys|)
    decreases count
  {
    if count == 0 then st else Rounds(monkeys, count - 1, Round(monkeys, st, relief), relief)
  }

  /** The starting state: each monkey's starting items, by position, and no inspections. */
  function Initial(monkeys: seq<Monkey>): (r: State)
    ensures r.Sized(|monkeys|)
  {
    State(seq(|monkeys|, i requires 0 <= i < |monkeys| => monkeys[i].startingItems), seq(|monkeys|, i => 0))
  }

  /** The product of all divisors. */
  function CommonProduct(monkeys: seq<Monkey>): nat
  {
    if monkeys == [] then 1 else monkeys[0].test.divisibleBy * CommonProduct(monkeys[1..])
  }

  /** A multiple of `e`, multiplied by anything, stays a multiple of `e`. */
  lemma MultipleKeeps(d: nat, n: nat, e: nat)
    requires e > 0 && n % e == 0
    ensures (d * n) % e == 0
  {
    var q := n / e;
    assert n == q * e;
    assert d * n == (d * q) * e;
    ModMultiple(d * q, e, 0);
  }

  /** The common product is positive and a multiple of every divisor. */
  lemma {:induction false} CommonProductDivisible(monkeys: seq<Monkey>)
    requires forall i :: 0 <= i < |monkeys| ==> monkeys[i].test.divisibleBy > 0
    ensures CommonProduct(monkeys) > 0
    ensures forall i :: 0 <= i < |monkeys| ==> CommonProduct(monkeys) % monkeys[i].test.divisibleBy == 0
  {
    if monkeys != [] {
      var d, rest := monkeys[0].test.divisibleBy, CommonProduct(monkeys[1..]);
      CommonProductDivisible(monkeys[1..]);
      assert d * rest > 0;
      forall i | 0 <= i < |monkeys|
        ensures CommonProduct(monkeys) % monkeys[i].test.divisibleBy == 0
      {
        if i == 0 {
          ModMultiple(rest, d, 0);
        } else {
          assert monkeys[i] == monkeys[1..][i - 1];
          MultipleKeeps(d, rest, monkeys[i].test.divisibleBy);
        }
      }
    }
  }

  /** The two largest counts, largest first. */
  function TopTwo(xs: seq<nat>): (r: (nat, nat))
    requires |xs| >= 2
    decreases |xs|
  {
    if |xs| == 2 then
      if xs[0] >= xs[1] then (xs[0], xs[1]) else (xs[1], xs[0])
    else
      var (a, b) := TopTwo(xs[1..]);
      if xs[0] >= a then (xs[0], a) else if xs[0] >= b then (a, xs[0]) else (a, b)
  }

  /** `a` and `b` are two of the counts, `a` no smaller than any, `b` no smaller than any other. */
  predicate IsTopTwo(xs: seq<nat>, a: nat, b: nat)
  {
    a >= b && multiset{a, b} <= multiset(xs)
    && (forall x :: x in multiset(xs) ==> x <= a)
    && (forall x :: x in multiset(xs) - multiset{a} ==> x <= b)
  }

  /** One more count in front: it takes first or second place, or neither. */
  lemma TopTwoStep(x: nat, tail: seq<nat>, a: nat, b: nat)
    requires IsTopTwo(tail, a, b)
    ensures IsTopTwo([x] + tail, if x >= a then x else a, if x >= a then a else if x >= b then x else b)
  {
    if x >= a {
      TopTwoNewFirst(x, tail, a, b);
    } else if x >= b {
      TopTwoNewSecond(x, tail, a, b);
    } else {
      TopTwoUnchanged(x, tail, a, b);
    }
  }

  lemma TopTwoNewFirst(x: nat, tail: seq<nat>, a: nat, b: nat)
    requires IsTopTwo(tail, a, b) && x >= a
    ensures IsTopTwo([x] + tail, x, a)
  {
    assert multiset([x] + tail) == multiset{x} + multiset(tail);
    assert multiset([x] + tail) - multiset{x} == multiset(tail);
  }

  lemma TopTwoNewSecond(x: nat, tail: seq<nat>, a: nat, b: nat)
    requires IsTopTwo(tail, a, b) && a > x >= b
    ensures IsTopTwo([x] + tail, a, x)
  {
    assert multiset([x] + tail) == multiset{x} + multiset(tail);
    assert multiset([x] + tail) - multiset{a} == multiset{x} + (multiset(tail) - multiset{a});
    assert multiset{a, x} == multiset{x} + multiset{a};
  }

  lemma TopTwoUnchanged(x: nat, tail: seq<nat>, a: nat, b: nat)
    requires IsTopTwo(tail, a, b) && b > x
    ensures IsTopTwo([x] + tail, a, b)
  {
    assert multiset([x] + tail) == multiset{x} + multiset(tail);
    assert multiset([x] + tail) - multiset{a} == multiset{x} + (multiset(tail) - multiset{a});
  }

  lemma TopTwoPair(x: nat, y: nat)
    ensures IsTopTwo([x, y], if x >= y then x else y, if x >= y then y else x)
  {
    assert multiset([x, y]) == multiset{x, y};
  }

  /** `TopTwo` finds the two largest counts. */
  lemma {:induction false} TopTwoLargest(xs: seq<nat>)
    requires |xs| >= 2
    ensures IsTopTwo(xs, TopTwo(xs).0, TopTwo(xs).1)
    decreases |xs|
  {
    if |xs| == 2 {
      TopTwoPair(xs[0], xs[1]);
      assert xs == [xs[0], xs[1]];
    } else {
      TopTwoLargest(xs[1..]);
      TopTwoStep(xs[0], xs[1..], TopTwo(xs[1..]).0, TopTwo(xs[1..]).1);
      assert xs == [xs[0]] + xs[1..];
    }
  }

  /** The counts sorted downwards, the first two taken and multiplied (the product of none is 1). */
  function Business(inspections: seq<nat>): nat
  {
    if |inspections| == 0 then 1
    else if |inspections| == 1 then inspections[0]
    else TopTwo(inspections).0 * TopTwo(inspections).1
  }

  /** The largest count and the largest of the rest are determined by the counts. */
  lemma TopTwoUnique(xs: seq<nat>, a: nat, b: nat, a': nat, b': nat)
    requires IsTopTwo(xs, a, b) && IsTopTwo(xs, a', b')
    ensures a == a' && b == b'
  {
    assert a in multiset(xs) && a' in multiset(xs);
    assert a == a';
    assert b in multiset(xs) - multiset{a} by {
      assert multiset{a, b} == multiset{a} + multiset{b};
      assert (multiset(xs) - multiset{a})[b] >= 1;
    }
    assert b' in multiset(xs) - multiset{a} by {
      assert multiset{a, b'} == multiset{a} + multiset{b'};
      assert (multiset(xs) - multiset{a})[b'] >= 1;
    }
  }

  /** With two or more monkeys, the business is the largest count times the largest of the rest. */
  lemma BusinessOfTopTwo(inspections: seq<nat>, a: nat, b: nat)
    requires |inspections| >= 2 && IsTopTwo(inspections, a, b)
    ensures Business(inspections) == a * b
  {
    TopTwoLargest(inspections);
    TopTwoUnique(inspections, a, b, TopTwo(inspections).0, TopTwo(inspections).1);
  }

  /** Part 1 divides worry by three; part 2 keeps it modulo the common product. */
  function ReliefFor(monkeys: seq<Monkey>, div3: bool): (r: Relief)
    requires Wf(monkeys)
    ensures ValidRelief(r)
    ensures r.Modulo? ==> forall i :: 0 <= i < |monkeys| ==> r.p % monkeys[i].test.divisibleBy == 0
  {
    CommonProductDivisible(monkeys);
    if div3 then DivideByThree else Modulo(CommonProduct(monkeys))
  }

  /**
   * `r` is the product of the two largest counts (the largest, and the largest of the
   * rest), of the only count when there is one, and 1 when there are none.
   */
  ghost predicate ProductOfTopTwo(counts: seq<nat>, r: nat)
  {
    (|counts| == 0 ==> r == 1)
    && (|counts| == 1 ==> r == counts[0])
    && (|counts| >= 2 ==> exists a: nat, b: nat :: IsTopTwo(counts, a, b) && r == a * b)
  }

  /** The business of any list of counts is the product of its two largest. */
  lemma BusinessIsProduct(counts: seq<nat>)
    ensures ProductOfTopTwo(counts, Business(counts))
  {
    if |counts| >= 2 {
      TopTwoLargest(counts);
    }
  }

  /** `monkey_business`: the two largest inspection counts after the rounds, multiplied. */
  function MonkeyBusiness(monkeys: seq<Monkey>, rounds: nat, div3: bool): (r: nat)
    requires Wf(monkeys)
    ensures ProductOfTopTwo(Rounds(monkeys, rounds, Initial(monkeys), ReliefFor(monkeys, div3)).inspections, r)
  {
    BusinessIsProduct(Rounds(monkeys, rounds, Initial(monkeys), ReliefFor(monkeys, div3)).inspections);
    Business(Rounds(monkeys, rounds, Initial(monkeys), ReliefFor(monkeys, div3)).inspections)
  }

  /**
   * After the rounds, the monkey business is the product of the two highest
   * inspection counts: the highest, and the highest among the other monkeys.
   */
  lemma MonkeyBusinessOfCounts(monkeys: seq<Monkey>, rounds: nat, div3: bool, a: nat, b: nat)
    requires Wf(monkeys) && |monkeys| >= 2
    requires IsTopTwo(Rounds(monkeys, rounds, Initial(monkeys), ReliefFor(monkeys, div3)).inspections, a, b)
    ensures MonkeyBusiness(monkeys, rounds, div3) == a * b
  {
    BusinessOfTopTwo(Rounds(monkeys, rounds, Initial(monkeys), ReliefFor(monkeys, div3)).inspections, a, b);
  }

  /** `solve_part1`: the monkey business after 20 rounds that divide worry by 3. */
  function SolvePart1(monkeys: seq<Monkey>): (r: nat)
    requires Wf(monkeys)
    ensures ProductOfTopTwo(Rounds(monkeys, 20, Initial(monkeys), DivideByThree).inspections, r)
  {
    MonkeyBusiness(monkeys, 20, true)
  }

  /** `solve_part2`: the monkey business after 10000 rounds, which is that of rounds with no relief at all. */
  function SolvePart2(monkeys: seq<Monkey>): (r: nat)
    requires Wf(monkeys)
    ensures ProductOfTopTwo(Rounds(monkeys, 10000, Initial(monkeys), Unrelieved).inspections, r)
  {
    Part2IsUnrelieved(monkeys, 10000);
    BusinessIsProduct(Rounds(monkeys, 10000, Initial(monkeys), Unrelieved).inspections);
    MonkeyBusiness(monkeys, 10000, false)
  }

  /** The number of items over all monkeys. */
  function Held(items: seq<seq<nat>>): nat
  {
    if items == [] then 0 else |items[0]| + Held(items[1..])
  }

  lemma {:induction false} HeldUpdate(items: seq<seq<nat>>, i: nat, s: seq<nat>)
    requires i < |items|
    ensures Held(items[i := s]) + |items[i]| == Held(items) + |s|
  {
    if i > 0 {
      HeldUpdate(items[1..], i - 1, s);
      assert items[i := s][1..] == items[1..][i - 1 := s];
    } else {
      assert items[0 := s][1..] == items[1..];
    }
  }

  predicate ThrowsAway(m: Monkey)
  {
    m.test.ifTrue != m.number && m.test.ifFalse != m.number
  }

  /** Throwing adds every pending item to some list and, when the monkey never throws to itself, leaves its own list alone. */
  lemma {:induction false} ThrowMovesAll(m: Monkey, pending: seq<nat>, st: State, relief: Relief)
    requires Fits(m, |st.items|) && st.Sized(|st.items|) && ValidRelief(relief)
    ensures Held(Throw(m, pending, st, relief).items) == Held(st.items) + |pending|
    ensures ThrowsAway(m) ==> Throw(m, pending, st, relief).items[m.number] == st.items[m.number]
    decreases |pending|
  {
    if pending != [] {
      var w := Relieve(Inspect(m.operation, pending[0]), relief);
      var t := Target(m.test, w);
      var next := State(st.items[t := st.items[t] + [w]], st.inspections[m.number := st.inspections[m.number] + 1]);
      HeldUpdate(st.items, t, st.items[t] + [w]);
      ThrowMovesAll(m, pending[1..], next, relief);
    }
  }

  /** A turn of a monkey that never throws to itself keeps the number of items. */
  lemma TurnKeepsItems(m: Monkey, st: State, relief: Relief)
    requires Fits(m, |st.items|) && st.Sized(|st.items|) && ValidRelief(relief)
    requires ThrowsAway(m)
    ensures Held(Turn(m, st, relief).items) == Held(st.items)
  {
    var thrown := Throw(m, st.items[m.number], st, relief);
    ThrowMovesAll(m, st.items[m.number], st, relief);
    HeldUpdate(thrown.items, m.number, []);
  }

  /** A round in which no monkey throws to itself keeps the number of items. */
  lemma {:induction false} RoundKeepsItems(monkeys: seq<Monkey>, st: State, relief: Relief)
    requires forall i :: 0 <= i < |monkeys| ==> Fits(monkeys[i], |st.items|) && ThrowsAway(monkeys[i])
    requires st.Sized(|st.items|) && ValidRelief(relief)
    ensures Held(Round(monkeys, st, relief).items) == Held(st.items)
    decreases |monkeys|
  {
    if monkeys != [] {
      TurnKeepsItems(monkeys[0], st, relief);
      RoundKeepsItems(monkeys[1..], Turn(monkeys[0], st, relief), relief);
    }
  }

  /** Two lists of worries agree item by item modulo `p`. */
  predicate CongruentItems(a: seq<nat>, b: seq<nat>, p: nat)
    requires p > 0
  {
    |a| == |b| && forall j :: 0 <= j < |a| ==> a[j] % p == b[j] % p
  }

  /** Two states hold the same number of items in the same places, congruent modulo `p`, and have the same counts. */
  predicate Congruent(x: State, y: State, p: nat)
    requires p > 0
  {
    |x.items| == |y.items| && x.inspections == y.inspections
    && forall i :: 0 <= i < |x.items| ==> CongruentItems(x.items[i], y.items[i], p)
  }

  /** Reducing modulo `p` after inspecting congruent worries gives worries that are still congruent and go to the same monkey. */
  lemma ReducedStep(m: Monkey, a: nat, b: nat, p: nat)
    requires m.test.divisibleBy > 0 && p > 0 && p % m.test.divisibleBy == 0
    requires a % p == b % p
    ensures var wa, wb := Relieve(Inspect(m.operation, a), Modulo(p)), Inspect(m.operation, b);
      wa % p == wb % p && Target(m.test, wa) == Target(m.test, wb)
  {
    var d := m.test.divisibleBy;
    var ia, ib := Inspect(m.operation, a), Inspect(m.operation, b);
    var wa, wb := ia % p, ib;
    InspectModulo(m.operation, a, p);
    InspectModulo(m.operation, b, p);
    assert ia % p == ib % p;
    DivModUnique(wa, p, 0, wa);
    ReductionKeepsRemainder(wa, p, d);
    ReductionKeepsRemainder(wb, p, d);
  }

  lemma {:induction false} ThrowCongruent(m: Monkey, pa: seq<nat>, pb: seq<nat>, x: State, y: State, p: nat)
    requires p > 0 && Fits(m, |x.items|) && p % m.test.divisibleBy == 0
    requires x.Sized(|x.items|) && y.Sized(|x.items|)
    requires CongruentItems(pa, pb, p) && Congruent(x, y, p)
    ensures Congruent(Throw(m, pa, x, Modulo(p)), Throw(m, pb, y, Unrelieved), p)
    decreases |pa|
  {
    if pa != [] {
      var wa := Relieve(Inspect(m.operation, pa[0]), Modulo(p));
      var wb := Relieve(Inspect(m.operation, pb[0]), Unrelieved);
      ReducedStep(m, pa[0], pb[0], p);
      var t := Target(m.test, wa);
      var x' := State(x.items[t := x.items[t] + [wa]], x.inspections[m.number := x.inspections[m.number] + 1]);
      var y' := State(y.items[t := y.items[t] + [wb]], y.inspections[m.number := y.inspections[m.number] + 1]);
      assert CongruentItems(x.items[t] + [wa], y.items[t] + [wb], p);
      assert Congruent(x', y', p);
      assert CongruentItems(pa[1..], pb[1..], p);
      ThrowCongruent(m, pa[1..], pb[1..], x', y', p);
    }
  }

  lemma TurnCongruent(m: Monkey, x: State, y: State, p: nat)
    requires p > 0 && Fits(m, |x.items|) && p % m.test.divisibleBy == 0
    requires x.Sized(|x.items|) && y.Sized(|x.items|) && Congruent(x, y, p)
    ensures Congruent(Turn(m, x, Modulo(p)), Turn(m, y, Unrelieved), p)
  {
    ThrowCongruent(m, x.items[m.number], y.items[m.number], x, y, p);
  }

  lemma {:induction false} RoundCongruent(monkeys: seq<Monkey>, x: State, y: State, p: nat)
    requires p > 0 && forall i :: 0 <= i < |monkeys| ==> Fits(monkeys[i], |x.items|) && p % monkeys[i].test.divisibleBy == 0
    requires x.Sized(|x.items|) && y.Sized(|x.items|) && Congruent(x, y, p)
    ensures Congruent(Round(monkeys, x, Modulo(p)), Round(monkeys, y, Unrelieved), p)
    decreases |monkeys|
  {
    if monkeys != [] {
      TurnCongruent(monkeys[0], x, y, p);
      RoundCongruent(monkeys[1..], Turn(monkeys[0], x, Modulo(p)), Turn(monkeys[0], y, Unrelieved), p);
    }
  }

  lemma {:induction false} RoundsCongruent(monkeys: seq<Monkey>, count: nat, x: State, y: State, p: nat)
    requires Wf(monkeys) && p > 0 && forall i :: 0 <= i < |monkeys| ==> p % monkeys[i].test.divisibleBy == 0
    requires x.Sized(|monkeys|) && y.Sized(|monkeys|) && Congruent(x, y, p)
    ensures Congruent(Rounds(monkeys, count, x, Modulo(p)), Rounds(monkeys, count, y, Unrelieved), p)
    decreases count
  {
    if count > 0 {
      RoundCongruent(monkeys, x, y, p);
      RoundsCongruent(monkeys, count - 1, Round(monkeys, x, Modulo(p)), Round(monkeys, y, Unrelieved), p);
    }
  }

  /** Part 2's reduction changes no monkey's count: the answer is the one the unrelieved rule gives. */
  lemma Part2IsUnrelieved(monkeys: seq<Monkey>, rounds: nat)
    requires Wf(monkeys)
    ensures CommonProduct(monkeys) > 0
    ensures MonkeyBusiness(monkeys, rounds, false) == Business(Rounds(monkeys, rounds, Initial(monkeys), Unrelieved).inspections)
  {
    CommonProductDivisible(monkeys);
    var p := CommonProduct(monkeys);
    RoundsCongruent(monkeys, rounds, Initial(monkeys), Initial(monkeys), p);
  }

  const OperationPrefix: string := "  Operation: new = old "

  /** `operand`: `old`, or else a `u64`. */
  function ParseOperand(s: string): (r: Option<(Operand, string)>)
    ensures r.Some? ==> |r.value.1| < |s|
  {
    if |s| >= 3 && s[..3] == "old" then Some((Old, s[3..]))
    else
      match ParseUnsignedPrefix(s, U64Max)
      case None => None
      case Some((v, rest)) => Some((Value(v), rest))
  }

  /** `operation`: the fixed prefix, `+` or `*`, a space, then the operand. */
  function ParseOperation(s: string): (r: Option<(Operation, string)>)
    ensures r.Some? ==> |r.value.1| < |s|
  {
    var n := |OperationPrefix|;
    if |s| < n + 2 || s[..n] != OperationPrefix || !(s[n] == '+' || s[n] == '*') || s[n + 1] != ' ' then None
    else
      var operator := if s[n] == '*' then Times else Plus;
      match ParseOperand(s[n + 2..])
      case None => None
      case Some((operand, rest)) => Some((Operation(operator, operand), rest))
  }

  function ShowOperand(operand: Operand): string
  {
    match operand
    case Old => "old"
    case Value(v) => ShowNat(v)
  }

  function ShowOperation(op: Operation): string
  {
    OperationPrefix + [if op.operator == Times then '*' else '+'] + " " + ShowOperand(op.operand)
  }

  lemma ParseShowOperand(operand: Operand, rest: string)
    requires operand.Value? ==> operand.v <= U64Max
    requires rest == [] || !IsDigit(rest[0])
    ensures ParseOperand(ShowOperand(operand) + rest) == Some((operand, rest))
  {
    var t := ShowOperand(operand) + rest;
    match operand
    case Old =>
      assert t[..3] == "old" && t[3..] == rest;
    case Value(v) =>
      assert t[0] != 'o';
      ParseUnsignedShow(v, rest, U64Max);
  }

  /** A written operation followed by a non-digit parses back, leaving the rest. */
  lemma ParseShowOperation(op: Operation, rest: string)
    requires op.operand.Value? ==> op.operand.v <= U64Max
    requires rest == [] || !IsDigit(rest[0])
    ensures ParseOperation(ShowOperation(op) + rest) == Some((op, rest))
  {
    var n := |OperationPrefix|;
    var c: char := if op.operator == Times then '*' else '+';
    var t := ShowOperand(op.operand) + rest;
    var s := ShowOperation(op) + rest;
    assert s == OperationPrefix + [c, ' '] + t;
    assert s[..n] == OperationPrefix && s[n] == c && s[n + 1] == ' ';
    assert s[n + 2..] == t;
    ParseShowOperand(op.operand, rest);
  }

  /** The operations of the example's monkeys parse as written. */
  lemma ExampleOperations()
    ensures ParseOperation("  Operation: new = old * 19") == Some((Operation(Times, Value(19)), ""))
    ensures ParseOperation("  Operation: new = old + 6") == Some((Operation(Plus, Value(6)), ""))
    ensures ParseOperation("  Operation: new = old * old") == Some((Operation(Times, Old), ""))
  {
    assert ShowNat(19) == "19" by {
      assert ShowNat(1) == "1";
      assert ShowNat(19) == ShowNat(1) + [DigitChar(9)];
    }
    assert ShowNat(6) == "6";
    assert ShowOperation(Operation(Times, Value(19))) + "" == "  Operation: new = old * 19";
    assert ShowOperation(Operation(Plus, Value(6))) + "" == "  Operation: new = old + 6";
    assert ShowOperation(Operation(Times, Old)) + "" == "  Operation: new = old * old";
    ParseShowOperation(Operation(Times, Value(19)), "");
    ParseShowOperation(Operation(Plus, Value(6)), "");
    ParseShowOperation(Operation(Times, Old), "");
  }
}
