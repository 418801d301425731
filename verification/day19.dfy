/**
 * Day 19, Not Enough Minerals: a depth-first search over which robot to build next.
 * Instead of stepping minute by minute, each move waits exactly until the next robot
 * can be afforded, builds it, and collects in the meantime.
 */
module Day19 {
  import opened Wrappers
  import opened Text
  import opened Sums

  /** The largest `u16`. */
  const U16Max: nat := 0xFFFF

  /** `Blueprint`: an ore robot costs ore, a clay robot ore, an obsidian robot ore and clay, a geode robot ore and obsidian. */
  datatype Blueprint = Blueprint(id: nat, oreCost: nat, clayCost: nat, obsidianCost: (nat, nat), geodeCost: (nat, nat))

  /** The `Flag` bits: which robot kinds are still worth building. */
  datatype Flags = Flags(needOre: bool, needClay: bool, needObsidian: bool)

  /** `State`: stock, robots, flags and the minutes left. */
  datatype State = State(
    ore: nat, clay: nat, obsidian: nat, geode: nat,
    oreBots: nat, clayBots: nat, obsidianBots: nat,
    flags: Flags, minutesRemaining: nat)

  /** `State::initial`: one ore robot, nothing stocked, every kind needed. */
  function Initial(minutes: nat): State
  {
    State(0, 0, 0, 0, 1, 0, 0, Flags(true, true, true), minutes)
  }

  /** `max_ore`: no more ore robots are useful than the dearest ore price of any robot. */
  function MaxOre(bp: Blueprint): (r: nat)
    ensures r >= bp.oreCost && r >= bp.clayCost && r >= bp.obsidianCost.0 && r >= bp.geodeCost.0
    ensures r == bp.oreCost || r == bp.clayCost || r == bp.obsidianCost.0 || r == bp.geodeCost.0
  {
    var a := if bp.oreCost >= bp.clayCost then bp.oreCost else bp.clayCost;
    var b := if bp.obsidianCost.0 >= bp.geodeCost.0 then bp.obsidianCost.0 else bp.geodeCost.0;
    if a >= b then a else b
  }

  /** `quality_level` */
  function QualityLevel(bp: Blueprint, geodes: nat): nat
  {
    bp.id * geodes
  }

  /** After `m` minutes of collecting, `have` grows to at least `cost`, the robot being built in the last of them. */
  predicate AffordableAfter(have: nat, cost: nat, bots: nat, m: nat)
  {
    m >= 1 && have + bots * (m - 1) >= cost
  }

  lemma CeilDiv(needed: nat, bots: nat)
    requires bots > 0
    ensures bots * ((needed + bots - 1) / bots) >= needed
    ensures (needed + bots - 1) / bots > 0 ==> bots * ((needed + bots - 1) / bots - 1) < needed
  {
    var q, r := (needed + bots - 1) / bots, (needed + bots - 1) % bots;
    assert needed + bots - 1 == bots * q + r;
    assert bots * (q - 1) == bots * q - bots;
  }

  /**
   * `next_bot`: how many minutes until a robot costing `cost` is built, with `have` in
   * stock and `bots` robots collecting; none without any collectors. It is the least
   * number of minutes after which the robot is affordable.
   */
  function NextBot(have: nat, cost: nat, bots: nat): (r: Option<nat>)
    ensures r.None? <==> bots == 0
    ensures r.Some? ==> AffordableAfter(have, cost, bots, r.value)
    ensures r.Some? ==> !AffordableAfter(have, cost, bots, r.value - 1)
  {
    if bots == 0 then None
    else if have > cost then Some(1)
    else
      var needed := cost - have;
      CeilDiv(needed, bots);
      var n := (needed + bots - 1) / bots;
      if n == 0 then Some(1) else Some(n + 1)
  }

  /** Any later minute is affordable too. */
  lemma AffordableLater(have: nat, cost: nat, bots: nat, m: nat, later: nat)
    requires AffordableAfter(have, cost, bots, m) && m <= later
    ensures AffordableAfter(have, cost, bots, later)
    ensures have + bots * later >= cost
  {
    assert bots * (later - 1) == bots * (m - 1) + bots * (later - m);
    assert bots * later == bots * (later - 1) + bots;
  }

  /** The wait `next_bot` reports is the only one that is affordable and minimal. */
  lemma NextBotLeast(have: nat, cost: nat, bots: nat, m: nat)
    requires bots > 0
    ensures NextBot(have, cost, bots) == Some(m) <==> AffordableAfter(have, cost, bots, m) && !AffordableAfter(have, cost, bots, m - 1)
  {
    var k := NextBot(have, cost, bots).value;
    if AffordableAfter(have, cost, bots, m) && !AffordableAfter(have, cost, bots, m - 1) {
      if m < k {
        AffordableLater(have, cost, bots, m, k - 1);
      } else if k < m {
        AffordableLater(have, cost, bots, k, m - 1);
      }
    }
  }

  /** The `test_next_bot` cases. */
  lemma NextBotExamples()
    ensures NextBot(0, 0, 0) == None
    ensures NextBot(10, 1, 0) == None
    ensures NextBot(10, 2, 1) == Some(1)
    ensures NextBot(0, 4, 1) == Some(5)
    ensures NextBot(1, 4, 1) == Some(4)
    ensures NextBot(2, 4, 1) == Some(3)
  {
  }

  /** Resources after `m` minutes of collecting, before anything is paid. */
  predicate Collected(s: State, r: State, m: nat, oreCost: nat, clayCost: nat, obsidianCost: nat)
  {
    r.ore + oreCost == s.ore + s.oreBots * m
    && r.clay + clayCost == s.clay + s.clayBots * m
    && r.obsidian + obsidianCost == s.obsidian + s.obsidianBots * m
  }

  /** `next_ore_bot` */
  function NextOreBot(bp: Blueprint, s: State): (r: Option<State>)
    ensures r.Some? <==> s.flags.needOre && s.oreBots > 0 && NextBot(s.ore, bp.oreCost, s.oreBots).value < s.minutesRemaining
    ensures r.Some? ==> 0 < r.value.minutesRemaining < s.minutesRemaining
    ensures r.Some? ==> AffordableAfter(s.ore, bp.oreCost, s.oreBots, s.minutesRemaining - r.value.minutesRemaining)
    ensures r.Some? ==> Collected(s, r.value, s.minutesRemaining - r.value.minutesRemaining, bp.oreCost, 0, 0)
    ensures r.Some? ==> (r.value.oreBots == s.oreBots + 1 && r.value.clayBots == s.clayBots
      && r.value.obsidianBots == s.obsidianBots && r.value.geode == s.geode)
    ensures r.Some? ==> r.value.flags == s.flags.(needOre := s.flags.needOre && r.value.oreBots < MaxOre(bp))
  {
    if !s.flags.needOre then None
    else
      match NextBot(s.ore, bp.oreCost, s.oreBots)
      case None => None
      case Some(minutes) =>
        if minutes > s.minutesRemaining then None
        else
          var minutesRemaining := s.minutesRemaining - minutes;
          if minutesRemaining == 0 then None
          else
            var oreBots := s.oreBots + 1;
            var flags := if oreBots >= MaxOre(bp) then s.flags.(needOre := false) else s.flags;
            AffordableLater(s.ore, bp.oreCost, s.oreBots, minutes, minutes);
            Some(State(
              s.ore + s.oreBots * minutes - bp.oreCost,
              s.clay + s.clayBots * minutes,
              s.obsidian + s.obsidianBots * minutes,
              s.geode, oreBots, s.clayBots, s.obsidianBots, flags, minutesRemaining))
  }

  /** `next_clay_bot`: clay robots are paid in ore. */
  function NextClayBot(bp: Blueprint, s: State): (r: Option<State>)
    ensures r.Some? <==> s.flags.needClay && s.oreBots > 0 && NextBot(s.ore, bp.clayCost, s.oreBots).value < s.minutesRemaining
    ensures r.Some? ==> 0 < r.value.minutesRemaining < s.minutesRemaining
    ensures r.Some? ==> AffordableAfter(s.ore, bp.clayCost, s.oreBots, s.minutesRemaining - r.value.minutesRemaining)
    ensures r.Some? ==> Collected(s, r.value, s.minutesRemaining - r.value.minutesRemaining, bp.clayCost, 0, 0)
    ensures r.Some? ==> (r.value.oreBots == s.oreBots && r.value.clayBots == s.clayBots + 1
      && r.value.obsidianBots == s.obsidianBots && r.value.geode == s.geode)
    ensures r.Some? ==> r.value.flags == s.flags.(needClay := s.flags.needClay && r.value.clayBots < bp.obsidianCost.1)
  {
    if !s.flags.needClay then None
    else
      match NextBot(s.ore, bp.clayCost, s.oreBots)
      case None => None
      case Some(minutes) =>
        if minutes > s.minutesRemaining then None
        else
          var minutesRemaining := s.minutesRemaining - minutes;
          if minutesRemaining == 0 then None
          else
            var clayBots := s.clayBots + 1;
            var flags := if clayBots >= bp.obsidianCost.1 then s.flags.(needClay := false) else s.flags;
            AffordableLater(s.ore, bp.clayCost, s.oreBots, minutes, minutes);
            Some(State(
              s.ore + s.oreBots * minutes - bp.clayCost,
              s.clay + s.clayBots * minutes,
              s.obsidian + s.obsidianBots * minutes,
              s.geode, s.oreBots, clayBots, s.obsidianBots, flags, minutesRemaining))
  }

  /** The later of two waits. */
  function Later(a: nat, b: nat): (r: nat)
    ensures r >= a && r >= b && (r == a || r == b)
  {
    if a >= b then a else b
  }

  /** `next_obsidian_bot`: obsidian robots are paid in ore and clay, so the wait is the longer of the two. */
  function NextObsidianBot(bp: Blueprint, s: State): (r: Option<State>)
    ensures r.Some? <==> (s.flags.needObsidian && s.oreBots > 0 && s.clayBots > 0
      && Later(NextBot(s.clay, bp.obsidianCost.1, s.clayBots).value, NextBot(s.ore, bp.obsidianCost.0, s.oreBots).value) < s.minutesRemaining)
    ensures r.Some? ==> 0 < r.value.minutesRemaining < s.minutesRemaining
    ensures r.Some? ==> (AffordableAfter(s.ore, bp.obsidianCost.0, s.oreBots, s.minutesRemaining - r.value.minutesRemaining)
      && AffordableAfter(s.clay, bp.obsidianCost.1, s.clayBots, s.minutesRemaining - r.value.minutesRemaining))
    ensures r.Some? ==> Collected(s, r.value, s.minutesRemaining - r.value.minutesRemaining, bp.obsidianCost.0, bp.obsidianCost.1, 0)
    ensures r.Some? ==> (r.value.oreBots == s.oreBots && r.value.clayBots == s.clayBots
      && r.value.obsidianBots == s.obsidianBots + 1 && r.value.geode == s.geode)
    ensures r.Some? ==> r.value.flags == s.flags.(needObsidian := s.flags.needObsidian && r.value.obsidianBots < bp.geodeCost.1)
  {
    if !s.flags.needObsidian then None
    else
      match NextBot(s.ore, bp.obsidianCost.0, s.oreBots)
      case None => None
      case Some(oreMinutes) =>
        match NextBot(s.clay, bp.obsidianCost.1, s.clayBots)
        case None => None
        case Some(clayMinutes) =>
          var minutes := Later(clayMinutes, oreMinutes);
          if minutes > s.minutesRemaining then None
          else
            var minutesRemaining := s.minutesRemaining - minutes;
            if minutesRemaining == 0 then None
            else
              var obsidianBots := s.obsidianBots + 1;
              var flags := if obsidianBots >= bp.geodeCost.1 then s.flags.(needObsidian := false) else s.flags;
              AffordableLater(s.ore, bp.obsidianCost.0, s.oreBots, oreMinutes, minutes);
              AffordableLater(s.clay, bp.obsidianCost.1, s.clayBots, clayMinutes, minutes);
              Some(State(
                s.ore + s.oreBots * minutes - bp.obsidianCost.0,
                s.clay + s.clayBots * minutes - bp.obsidianCost.1,
                s.obsidian + s.obsidianBots * minutes,
                s.geode, s.oreBots, s.clayBots, obsidianBots, flags, minutesRemaining))
  }

  /**
   * `next_geode_bot`: geode robots are paid in ore and obsidian. The geodes the new robot
   * will crack in the minutes left are credited at once, so no geode robot count is kept.
   */
  function NextGeodeBot(bp: Blueprint, s: State): (r: Option<State>)
    ensures r.Some? <==> (s.oreBots > 0 && s.obsidianBots > 0
      && Later(NextBot(s.obsidian, bp.geodeCost.1, s.obsidianBots).value, NextBot(s.ore, bp.geodeCost.0, s.oreBots).value) < s.minutesRemaining)
    ensures r.Some? ==> 0 < r.value.minutesRemaining < s.minutesRemaining
    ensures r.Some? ==> (AffordableAfter(s.ore, bp.geodeCost.0, s.oreBots, s.minutesRemaining - r.value.minutesRemaining)
      && AffordableAfter(s.obsidian, bp.geodeCost.1, s.obsidianBots, s.minutesRemaining - r.value.minutesRemaining))
    ensures r.Some? ==> Collected(s, r.value, s.minutesRemaining - r.value.minutesRemaining, bp.geodeCost.0, 0, bp.geodeCost.1)
    ensures r.Some? ==> (r.value.oreBots == s.oreBots && r.value.clayBots == s.clayBots
      && r.value.obsidianBots == s.obsidianBots && r.value.flags == s.flags)
    ensures r.Some? ==> r.value.geode == s.geode + r.value.minutesRemaining
  {
    match NextBot(s.ore, bp.geodeCost.0, s.oreBots)
    case None => None
    case Some(oreMinutes) =>
      match NextBot(s.obsidian, bp.geodeCost.1, s.obsidianBots)
      case None => None
      case Some(obsidianMinutes) =>
        var minutes := Later(obsidianMinutes, oreMinutes);
        if minutes > s.minutesRemaining then None
        else
          var minutesRemaining := s.minutesRemaining - minutes;
          if minutesRemaining == 0 then None
          else
            AffordableLater(s.ore, bp.geodeCost.0, s.oreBots, oreMinutes, minutes);
            AffordableLater(s.obsidian, bp.geodeCost.1, s.obsidianBots, obsidianMinutes, minutes);
            Some(State(
              s.ore + s.oreBots * minutes - bp.geodeCost.0,
              s.clay + s.clayBots * minutes,
              s.obsidian + s.obsidianBots * minutes - bp.geodeCost.1,
              s.geode + minutesRemaining, s.oreBots, s.clayBots, s.obsidianBots, s.flags, minutesRemaining))
  }

  /** The most geodes the minutes left can still add: one robot finished each minute, `0 + 1 + ... + (m - 1)`. */
  function GeodeBound(m: nat): nat
  {
    if m == 0 then 0 else (m - 1) + GeodeBound(m - 1)
  }

  lemma {:induction false} GeodeBoundMonotonic(a: nat, b: nat)
    requires a <= b
    ensures GeodeBound(a) <= GeodeBound(b)
    decreases b
  {
    if a < b {
      GeodeBoundMonotonic(a, b - 1);
    }
  }

  /** A state reachable in one move from `parent`: strictly fewer minutes, and its geodes within the parent's bounds. */
  predicate Follows(parent: State, c: State)
  {
    c.minutesRemaining < parent.minutesRemaining
    && parent.geode <= c.geode
    && c.geode + GeodeBound(c.minutesRemaining) <= parent.geode + GeodeBound(parent.minutesRemaining)
  }

  /** A move that does not crack geodes follows its parent. */
  lemma FollowsWithoutGeodes(s: State, c: State)
    requires c.minutesRemaining < s.minutesRemaining && c.geode == s.geode
    ensures Follows(s, c)
  {
    GeodeBoundMonotonic(c.minutesRemaining, s.minutesRemaining);
  }

  /** Building a geode robot follows its parent: its credit is one term of the bound. */
  lemma FollowsGeode(s: State, c: State)
    requires c.minutesRemaining < s.minutesRemaining && c.geode == s.geode + c.minutesRemaining
    ensures Follows(s, c)
  {
    GeodeBoundMonotonic(c.minutesRemaining + 1, s.minutesRemaining);
  }

  lemma BuildsFollow(bp: Blueprint, s: State)
    ensures NextObsidianBot(bp, s).Some? ==> Follows(s, NextObsidianBot(bp, s).value)
    ensures NextClayBot(bp, s).Some? ==> Follows(s, NextClayBot(bp, s).value)
    ensures NextOreBot(bp, s).Some? ==> Follows(s, NextOreBot(bp, s).value)
  {
    if NextObsidianBot(bp, s).Some? { FollowsWithoutGeodes(s, NextObsidianBot(bp, s).value); }
    if NextClayBot(bp, s).Some? { FollowsWithoutGeodes(s, NextClayBot(bp, s).value); }
    if NextOreBot(bp, s).Some? { FollowsWithoutGeodes(s, NextOreBot(bp, s).value); }
  }

  /** The built options among `[obsidian, clay, ore]`, in that order. */
  function Builds(bp: Blueprint, s: State): (r: seq<State>)
    ensures forall i | 0 <= i < |r| :: Follows(s, r[i]) && r[i].geode == s.geode
    ensures |r| <= 3
  {
    var obsidian := NextObsidianBot(bp, s);
    var clay := NextClayBot(bp, s);
    var ore := NextOreBot(bp, s);
    BuildsFollow(bp, s);
    (if obsidian.Some? then [obsidian.value] else [])
    + (if clay.Some? then [clay.value] else [])
    + (if ore.Some? then [ore.value] else [])
  }

  /** The states that leave more minutes than `threshold`. */
  function LaterThan(states: seq<State>, threshold: nat): (r: seq<State>)
    ensures forall i | 0 <= i < |r| :: r[i] in states && r[i].minutesRemaining > threshold
    ensures forall i | 0 <= i < |states| :: states[i].minutesRemaining > threshold ==> states[i] in r
  {
    if states == [] then []
    else (if states[0].minutesRemaining > threshold then [states[0]] else []) + LaterThan(states[1..], threshold)
  }

  /**
   * `dfs`: the most geodes reachable from `s`. When a geode robot can be built, only the
   * other moves that finish sooner are tried besides it. The result is at least what is
   * already cracked, and at most that plus one geode robot finished every minute left.
   */
  function Dfs(bp: Blueprint, s: State): (r: nat)
    ensures s.geode <= r <= s.geode + GeodeBound(s.minutesRemaining)
    decreases s.minutesRemaining, 1, 0
  {
    var nexts := Builds(bp, s);
    var best := (
      match NextGeodeBot(bp, s)
      case Some(g) =>
        FollowsGeode(s, g);
        BestOf(bp, s, LaterThan(nexts, g.minutesRemaining) + [g], true)
      case None => BestOf(bp, s, nexts, false));
    match best
    case Some(v) => v
    case None => s.geode
  }

  /** The geodes a move leads to: searched further, or (when `guarded`) counted as they stand when no minute is left. */
  function Outcome(bp: Blueprint, parent: State, c: State, guarded: bool): (r: nat)
    requires Follows(parent, c)
    ensures parent.geode <= r <= parent.geode + GeodeBound(parent.minutesRemaining)
    decreases parent.minutesRemaining, 0, 0
  {
    if guarded && c.minutesRemaining == 0 then c.geode else Dfs(bp, c)
  }

  /** `.map(..).max()`: the best outcome among the moves, none when there are none. */
  function BestOf(bp: Blueprint, parent: State, cands: seq<State>, guarded: bool): (r: Option<nat>)
    requires forall i | 0 <= i < |cands| :: Follows(parent, cands[i])
    ensures r.None? <==> cands == []
    ensures r.Some? ==> parent.geode <= r.value <= parent.geode + GeodeBound(parent.minutesRemaining)
    ensures r.Some? ==> exists i | 0 <= i < |cands| :: r.value == Outcome(bp, parent, cands[i], guarded)
    ensures r.Some? ==> forall i | 0 <= i < |cands| :: Outcome(bp, parent, cands[i], guarded) <= r.value
    decreases parent.minutesRemaining, 0, |cands| + 1
  {
    if cands == [] then None
    else
      var first := Outcome(bp, parent, cands[0], guarded);
      match BestOf(bp, parent, cands[1..], guarded)
      case None => Some(first)
      case Some(rest) =>
        assert forall i | 1 <= i < |cands| :: cands[i] == cands[1..][i - 1];
        Some(if first >= rest then first else rest)
  }

  /** `max_geodes` */
  function MaxGeodes(bp: Blueprint, minutes: nat): (r: nat)
    ensures r <= GeodeBound(minutes)
  {
    Dfs(bp, Initial(minutes))
  }

  /** One geode robot finished every minute of a day of 24 adds up to 276; of 32, to 496. */
  lemma GeodeBoundValues()
    ensures GeodeBound(24) == 276 && GeodeBound(32) == 496
  {
    GeodeBoundClosed(24);
    GeodeBoundClosed(32);
  }

  /** The bound in closed form: `m (m - 1) / 2`. */
  lemma {:induction false} GeodeBoundClosed(m: nat)
    ensures 2 * GeodeBound(m) == m * (m - 1)
  {
    if m > 0 {
      GeodeBoundClosed(m - 1);
      assert (m - 1) * (m - 2) + 2 * (m - 1) == m * (m - 1);
    }
  }

  /** Every move keeps stocks non-negative and the flags only ever clear. */
  predicate Moves(bp: Blueprint, s: State, n: State)
  {
    NextOreBot(bp, s) == Some(n) || NextClayBot(bp, s) == Some(n)
    || NextObsidianBot(bp, s) == Some(n) || NextGeodeBot(bp, s) == Some(n)
  }

  /** Robot counts never fall, and a flag once cleared stays cleared. */
  predicate Grows(s: State, n: State)
  {
    s.oreBots <= n.oreBots && s.clayBots <= n.clayBots && s.obsidianBots <= n.obsidianBots
    && (n.flags.needOre ==> s.flags.needOre)
    && (n.flags.needClay ==> s.flags.needClay)
    && (n.flags.needObsidian ==> s.flags.needObsidian)
  }

  /** A flag is off only once its robot count has reached the cap. */
  predicate Capped(bp: Blueprint, s: State)
  {
    (!s.flags.needOre ==> s.oreBots >= MaxOre(bp))
    && (!s.flags.needClay ==> s.clayBots >= bp.obsidianCost.1)
    && (!s.flags.needObsidian ==> s.obsidianBots >= bp.geodeCost.1)
  }

  /** Every move spends time, grows the robot counts and never sets a flag again; a flag stays off only past its cap. */
  lemma MoveInvariants(bp: Blueprint, s: State, n: State)
    requires Moves(bp, s, n)
    ensures n.minutesRemaining < s.minutesRemaining
    ensures Grows(s, n)
    ensures Capped(bp, s) ==> Capped(bp, n)
  {
  }

  /** A need flag is cleared as soon as its robot count reaches the cap. */
  lemma FlagsClearAtCap(bp: Blueprint, s: State)
    ensures NextOreBot(bp, s).Some? ==> (NextOreBot(bp, s).value.flags.needOre <==> NextOreBot(bp, s).value.oreBots < MaxOre(bp))
    ensures NextClayBot(bp, s).Some? ==> (NextClayBot(bp, s).value.flags.needClay <==> NextClayBot(bp, s).value.clayBots < bp.obsidianCost.1)
    ensures NextObsidianBot(bp, s).Some? ==> (NextObsidianBot(bp, s).value.flags.needObsidian <==> NextObsidianBot(bp, s).value.obsidianBots < bp.geodeCost.1)
  {
  }

  lemma InitialCapped(bp: Blueprint, minutes: nat)
    ensures Capped(bp, Initial(minutes))
  {
  }

  /** With one minute left nothing can be finished in time, so the search returns what is cracked. */
  lemma LastMinute(bp: Blueprint, s: State)
    requires s.minutesRemaining <= 1
    ensures Dfs(bp, s) == s.geode
  {
    assert GeodeBound(s.minutesRemaining) == 0 by {
      if s.minutesRemaining == 1 {
        assert GeodeBound(1) == 0 + GeodeBound(0);
      }
    }
  }

  /** A blueprint's quality level after 24 minutes. */
  function Quality(bp: Blueprint): nat
  {
    QualityLevel(bp, MaxGeodes(bp, 24))
  }

  /** `solve_part1`: the quality levels of the blueprints after 24 minutes, added up. The sum
   * is at most 276 geodes per unit of id, at least each blueprint's own quality, and zero
   * exactly when every blueprint's quality is. */
  function SolvePart1(blueprints: seq<Blueprint>): (r: int)
    ensures 0 <= r <= 276 * SumOf((bp: Blueprint) => bp.id, blueprints)
    ensures forall k :: 0 <= k < |blueprints| ==> Quality(blueprints[k]) <= r
    ensures r == 0 <==> forall k :: 0 <= k < |blueprints| ==> Quality(blueprints[k]) == 0
  {
    QualitySum(blueprints);
    QualityTerms(blueprints);
    QualityZero(blueprints);
    SumOf((bp: Blueprint) => Quality(bp), blueprints)
  }

  /** A blueprint's quality after 24 minutes is at most 276 times its id. */
  lemma QualityBound(bp: Blueprint)
    ensures 0 <= Quality(bp) <= 276 * bp.id
  {
    GeodeBoundValues();
    MulLe(bp.id, MaxGeodes(bp, 24), 276);
  }

  lemma MulLe(a: nat, b: nat, c: nat)
    requires b <= c
    ensures 0 <= a * b <= a * c
  {
    assert a * c == a * b + a * (c - b);
  }

  /** The quality sum is at most 276 geodes for each unit of blueprint id. */
  lemma {:induction false} QualitySum(blueprints: seq<Blueprint>)
    ensures 0 <= SumOf((bp: Blueprint) => Quality(bp), blueprints) <= 276 * SumOf((bp: Blueprint) => bp.id, blueprints)
  {
    if blueprints != [] {
      QualityBound(blueprints[0]);
      QualitySum(blueprints[1..]);
    }
  }

  /** The quality sum is at least each blueprint's quality. */
  lemma {:induction false} QualityTerms(blueprints: seq<Blueprint>)
    ensures forall k :: 0 <= k < |blueprints| ==> Quality(blueprints[k]) <= SumOf((bp: Blueprint) => Quality(bp), blueprints)
  {
    if blueprints != [] {
      var tail := blueprints[1..];
      QualitySum(tail);
      QualityTerms(tail);
      assert forall k :: 1 <= k < |blueprints| ==> blueprints[k] == tail[k - 1];
    }
  }

  /** The quality sum is zero exactly when every blueprint's quality is. */
  lemma {:induction false} QualityZero(blueprints: seq<Blueprint>)
    ensures SumOf((bp: Blueprint) => Quality(bp), blueprints) == 0 <==> forall k :: 0 <= k < |blueprints| ==> Quality(blueprints[k]) == 0
  {
    if blueprints != [] {
      var tail := blueprints[1..];
      var f := (bp: Blueprint) => Quality(bp);
      assert SumOf(f, blueprints) == Quality(blueprints[0]) + SumOf(f, tail);
      QualitySum(tail);
      QualityZero(tail);
      if SumOf(f, blueprints) == 0 {
        forall k | 0 <= k < |blueprints|
          ensures Quality(blueprints[k]) == 0
        {
          if k > 0 {
            assert blueprints[k] == tail[k - 1];
          }
        }
      } else if Quality(blueprints[0]) == 0 {
        var j :| 0 <= j < |tail| && Quality(tail[j]) != 0;
        assert blueprints[j + 1] == tail[j];
      }
    }
  }

  lemma ProductBound(a: nat, b: nat, c: nat, k: nat)
    requires a <= k && b <= k && c <= k
    ensures a * b * c <= k * k * k
  {
    MulLe(b, a, k);
    MulLe(k, b, k);
    MulLe(c, a * b, k * k);
    MulLe(k * k, c, k);
    assert a * b * c == c * (a * b) && k * k * c == c * (k * k);
  }

  /** `solve_part2`: the product of the first three blueprints' geodes after 32 minutes; fewer than three blueprints panic.
   * The product is at most one geode robot a minute for each of the three, and zero exactly when one of them cracks none. */
  function SolvePart2(blueprints: seq<Blueprint>): (r: Option<int>)
    ensures r.Some? <==> |blueprints| >= 3
    ensures r.Some? ==> 0 <= r.value <= 496 * 496 * 496
    ensures r.Some? ==> (r.value == 0 <==> MaxGeodes(blueprints[0], 32) == 0 || MaxGeodes(blueprints[1], 32) == 0 || MaxGeodes(blueprints[2], 32) == 0)
  {
    if |blueprints| < 3 then None
    else
      var a, b, c := MaxGeodes(blueprints[0], 32), MaxGeodes(blueprints[1], 32), MaxGeodes(blueprints[2], 32);
      ThreeGeodeCounts(a, b, c);
      Some(a * b * c)
  }

  /** Three geode counts of at most 496 multiply to at most 496 cubed, and to zero exactly when one of them is zero. */
  lemma ThreeGeodeCounts(a: nat, b: nat, c: nat)
    requires a <= GeodeBound(32) && b <= GeodeBound(32) && c <= GeodeBound(32)
    ensures 0 <= a * b * c <= 496 * 496 * 496
    ensures a * b * c == 0 <==> a == 0 || b == 0 || c == 0
  {
    GeodeBoundValues();
    ProductBound(a, b, c, 496);
    if a != 0 && b != 0 && c != 0 {
      MulLe(a, 1, b);
      MulLe(a * b, 1, c);
    }
  }

  /** `tag(prefix)`: the input after `prefix`, if it starts with it. */
  function Tag(prefix: string, s: string): (r: Option<string>)
    ensures r.Some? ==> |r.value| == |s| - |prefix|
  {
    if |s| >= |prefix| && s[..|prefix|] == prefix then Some(s[|prefix|..]) else None
  }

  lemma TagShow(prefix: string, rest: string)
    ensures Tag(prefix, prefix + rest) == Some(rest)
  {
    assert (prefix + rest)[..|prefix|] == prefix;
    assert (prefix + rest)[|prefix|..] == rest;
  }

  /** `delimited(tag(open), u16, tag(close))` */
  function Delimited(open: string, close: string, s: string): (r: Option<(nat, string)>)
    ensures r.Some? ==> r.value.0 <= U16Max && |r.value.1| < |s| - |open| - |close| + 1
    ensures r.Some? ==> |s| >= |open| && s[..|open|] == open
  {
    match Tag(open, s)
    case None => None
    case Some(t) =>
      match ParseUnsignedPrefix(t, U16Max)
      case None => None
      case Some((v, u)) =>
        match Tag(close, u)
        case None => None
        case Some(w) => Some((v, w))
  }

  lemma DelimitedShow(open: string, v: nat, close: string, rest: string)
    requires v <= U16Max
    requires close != [] && !IsDigit(close[0])
    ensures Delimited(open, close, open + ShowNat(v) + close + rest) == Some((v, rest))
  {
    assert open + ShowNat(v) + close + rest == open + (ShowNat(v) + (close + rest));
    TagShow(open, ShowNat(v) + (close + rest));
    ParseUnsignedShow(v, close + rest, U16Max);
    TagShow(close, rest);
  }

  /** `delimited(tag(open), separated_pair(u16, tag(" ore and "), u16), tag(close))` */
  function DelimitedPair(open: string, close: string, s: string): (r: Option<((nat, nat), string)>)
    ensures r.Some? ==> r.value.0.0 <= U16Max && r.value.0.1 <= U16Max && |r.value.1| < |s|
  {
    match Delimited(open, " ore and ", s)
    case None => None
    case Some((a, t)) =>
      match Delimited("", close, t)
      case None => None
      case Some((b, u)) => Some(((a, b), u))
  }

  lemma DelimitedBareShow(v: nat, close: string, rest: string)
    requires v <= U16Max
    requires close != [] && !IsDigit(close[0])
    ensures Delimited("", close, ShowNat(v) + close + rest) == Some((v, rest))
  {
    assert "" + ShowNat(v) + close + rest == ShowNat(v) + close + rest;
    DelimitedShow("", v, close, rest);
  }

  lemma DelimitedPairShow(open: string, a: nat, b: nat, close: string, rest: string)
    requires a <= U16Max && b <= U16Max
    requires close != [] && !IsDigit(close[0])
    ensures DelimitedPair(open, close, open + ShowNat(a) + " ore and " + ShowNat(b) + close + rest) == Some(((a, b), rest))
  {
    var t := ShowNat(b) + close + rest;
    var head := open + ShowNat(a) + " ore and ";
    assert head + ShowNat(b) + close + rest == head + t;
    DelimitedShow(open, a, " ore and ", t);
    DelimitedBareShow(b, close, rest);
  }

  /** Every count in a blueprint fits a `u16`. */
  predicate Fits(bp: Blueprint)
  {
    bp.id <= U16Max && bp.oreCost <= U16Max && bp.clayCost <= U16Max
    && bp.obsidianCost.0 <= U16Max && bp.obsidianCost.1 <= U16Max
    && bp.geodeCost.0 <= U16Max && bp.geodeCost.1 <= U16Max
  }

  /** The obsidian and geode robot prices that end a blueprint. */
  function ParseDearRobots(s: string): (r: Option<((nat, nat), (nat, nat), string)>)
    ensures r.Some? ==> r.value.0.0 <= U16Max && r.value.0.1 <= U16Max && r.value.1.0 <= U16Max && r.value.1.1 <= U16Max
    ensures r.Some? ==> |r.value.2| < |s|
  {
    match DelimitedPair("Each obsidian robot costs ", " clay. ", s)
    case None => None
    case Some((obsidian, s1)) =>
      match DelimitedPair("Each geode robot costs ", " obsidian.", s1)
      case None => None
      case Some((geode, tail)) => Some((obsidian, geode, tail))
  }

  /** The ore and clay robot prices that follow the id. */
  function ParseCheapRobots(s: string): (r: Option<(nat, nat, string)>)
    ensures r.Some? ==> r.value.0 <= U16Max && r.value.1 <= U16Max && |r.value.2| < |s|
  {
    match Delimited("Each ore robot costs ", " ore. ", s)
    case None => None
    case Some((ore, s1)) =>
      match Delimited("Each clay robot costs ", " ore. ", s1)
      case None => None
      case Some((clay, tail)) => Some((ore, clay, tail))
  }

  /** `blueprint`: one line of the puzzle input. */
  function ParseBlueprint(s: string): (r: Option<(Blueprint, string)>)
    ensures r.Some? ==> Fits(r.value.0) && |r.value.1| < |s|
    ensures !(|s| >= 10 && s[..10] == "Blueprint ") ==> r.None?
  {
    match Delimited("Blueprint ", ": ", s)
    case None => None
    case Some((id, s1)) =>
      match ParseCheapRobots(s1)
      case None => None
      case Some((ore, clay, s3)) =>
        match ParseDearRobots(s3)
        case None => None
        case Some((obsidian, geode, tail)) => Some((Blueprint(id, ore, clay, obsidian, geode), tail))
  }

  function ShowObsidian(bp: Blueprint): string
  {
    "Each obsidian robot costs " + ShowNat(bp.obsidianCost.0) + " ore and " + ShowNat(bp.obsidianCost.1) + " clay. "
  }

  function ShowGeode(bp: Blueprint): string
  {
    "Each geode robot costs " + ShowNat(bp.geodeCost.0) + " ore and " + ShowNat(bp.geodeCost.1) + " obsidian."
  }

  function ShowCheap(bp: Blueprint): string
  {
    "Each ore robot costs " + ShowNat(bp.oreCost) + " ore. " + "Each clay robot costs " + ShowNat(bp.clayCost) + " ore. "
  }

  function ShowBlueprint(bp: Blueprint): string
  {
    "Blueprint " + ShowNat(bp.id) + ": " + ShowCheap(bp) + ShowObsidian(bp) + ShowGeode(bp)
  }

  lemma ParseShowCheapRobots(bp: Blueprint, rest: string)
    requires Fits(bp)
    ensures ParseCheapRobots(ShowCheap(bp) + rest) == Some((bp.oreCost, bp.clayCost, rest))
  {
    var s1 := "Each clay robot costs " + ShowNat(bp.clayCost) + " ore. " + rest;
    assert ShowCheap(bp) + rest == "Each ore robot costs " + ShowNat(bp.oreCost) + " ore. " + s1;
    DelimitedShow("Each ore robot costs ", bp.oreCost, " ore. ", s1);
    DelimitedShow("Each clay robot costs ", bp.clayCost, " ore. ", rest);
  }

  lemma ParseShowDearRobots(bp: Blueprint, rest: string)
    requires Fits(bp)
    ensures ParseDearRobots(ShowObsidian(bp) + ShowGeode(bp) + rest) == Some((bp.obsidianCost, bp.geodeCost, rest))
  {
    var s1 := ShowGeode(bp) + rest;
    assert ShowObsidian(bp) + ShowGeode(bp) + rest == ShowObsidian(bp) + s1;
    DelimitedPairShow("Each obsidian robot costs ", bp.obsidianCost.0, bp.obsidianCost.1, " clay. ", s1);
    DelimitedPairShow("Each geode robot costs ", bp.geodeCost.0, bp.geodeCost.1, " obsidian.", rest);
  }

  /** A printed blueprint whose numbers fit a `u16` parses back, whatever follows it. */
  lemma ParseShowBlueprint(bp: Blueprint, rest: string)
    requires Fits(bp)
    ensures ParseBlueprint(ShowBlueprint(bp) + rest) == Some((bp, rest))
  {
    var s3 := ShowObsidian(bp) + ShowGeode(bp) + rest;
    var s1 := ShowCheap(bp) + s3;
    assert ShowBlueprint(bp) + rest == "Blueprint " + ShowNat(bp.id) + ": " + s1;
    DelimitedShow("Blueprint ", bp.id, ": ", s1);
    ParseShowCheapRobots(bp, s3);
    ParseShowDearRobots(bp, rest);
  }

  /** `blueprints`: one blueprint per line. */
  function ReadBlueprints(s: string): Option<(seq<Blueprint>, string)>
  {
    SeparatedLines(ParseBlueprint, s, true)
  }
}
