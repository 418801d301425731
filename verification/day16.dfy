/**
 * Day 16, Proboscidea Volcanium: a branch-and-bound search for the most pressure
 * that can be released by walking between valves and opening them.
 *
 * Only the key valves (positive flow, or the entrance AA) are kept, sorted by
 * descending flow; a state holds the minutes left, the current valve, the mask of
 * valves still closed and the pressure already credited for the rest of the run.
 */
module Day16 {
  import opened Wrappers
  import opened Bits
  import opened Seqs

  const Entrance := "AA"

  /** A `u16` mask holds one bit per key valve. */
  const MaxValves := 16

  datatype Valve = Valve(name: string, flow: nat, tunnels: seq<string>)

  /**
   * `dist[a][b]` is the number of minutes to walk from key valve `a` to key valve `b`
   * (the all-pairs shortest paths of the tunnel graph).
   */
  datatype Volcano = Volcano(valves: seq<Valve>, flows: seq<nat>, dist: seq<seq<nat>>)

  datatype State = State(minutes: nat, current: nat, remaining: nat, pressure: nat)

  function Max(a: nat, b: nat): nat
  {
    if a >= b then a else b
  }

  /**
   * `flow * minutes`, the pressure a valve releases over the minutes left, written as
   * repeated addition so that the search's definitions stay linear arithmetic.
   */
  function Released(flow: nat, minutes: nat): nat
  {
    if minutes == 0 then 0 else flow + Released(flow, minutes - 1)
  }

  lemma {:induction false} ReleasedIsProduct(flow: nat, minutes: nat)
    ensures Released(flow, minutes) == flow * minutes
  {
    if minutes > 0 {
      ReleasedIsProduct(flow, minutes - 1);
    }
  }

  // ---------------------------------------------------------------------------
  // Building the volcano: filter the key valves and sort them by descending flow

  predicate IsKeyValve(v: Valve)
  {
    v.flow > 0 || v.name == Entrance
  }

  function KeyValves(all: seq<Valve>): (r: seq<Valve>)
    ensures forall v :: v in r <==> v in all && IsKeyValve(v)
    ensures multiset(r) <= multiset(all)
  {
    if all == [] then []
    else
      assert all == [all[0]] + all[1..];
      (if IsKeyValve(all[0]) then [all[0]] else []) + KeyValves(all[1..])
  }

  predicate AscendingFlow(vs: seq<Valve>)
  {
    forall i, j :: 0 <= i <= j < |vs| ==> vs[i].flow <= vs[j].flow
  }

  lemma AscendingCons(x: Valve, rest: seq<Valve>)
    requires AscendingFlow(rest)
    requires forall k :: 0 <= k < |rest| ==> x.flow <= rest[k].flow
    ensures AscendingFlow([x] + rest)
  {
  }

  /** Valves made of `v` and others all flowing at least `lo`, in any order, all flow at least `lo`. */
  lemma PermutedFlowsFrom(r: seq<Valve>, others: seq<Valve>, v: Valve, lo: nat)
    requires multiset(r) == multiset(others) + multiset{v}
    requires v.flow >= lo && forall k :: 0 <= k < |others| ==> others[k].flow >= lo
    ensures forall k :: 0 <= k < |r| ==> r[k].flow >= lo
  {
    forall k | 0 <= k < |r|
      ensures r[k].flow >= lo
    {
      assert r[k] in multiset(r);
      if r[k] != v {
        assert r[k] in multiset(others);
        var j :| 0 <= j < |others| && others[j] == r[k];
      }
    }
  }

  /** Places `v` before the first valve whose flow is at least its own. */
  function InsertByFlow(v: Valve, sorted: seq<Valve>): (r: seq<Valve>)
    requires AscendingFlow(sorted)
    ensures AscendingFlow(r)
    ensures multiset(r) == multiset(sorted) + multiset{v}
  {
    if sorted == [] || v.flow <= sorted[0].flow then [v] + sorted
    else
      assert sorted == [sorted[0]] + sorted[1..];
      var rest := InsertByFlow(v, sorted[1..]);
      PermutedFlowsFrom(rest, sorted[1..], v, sorted[0].flow);
      AscendingCons(sorted[0], rest);
      assert multiset([sorted[0]] + rest) == multiset{sorted[0]} + multiset(rest);
      [sorted[0]] + rest
  }

  /** A stable sort by ascending flow. */
  function SortByFlow(vs: seq<Valve>): (r: seq<Valve>)
    ensures AscendingFlow(r)
    ensures multiset(r) == multiset(vs)
  {
    if vs == [] then []
    else
      assert vs == [vs[0]] + vs[1..];
      InsertByFlow(vs[0], SortByFlow(vs[1..]))
  }

  predicate Descending(flows: seq<nat>)
  {
    forall i, j :: 0 <= i <= j < |flows| ==> flows[j] <= flows[i]
  }

  lemma ReverseDescending(sorted: seq<Valve>)
    requires AscendingFlow(sorted)
    ensures forall i, j :: 0 <= i <= j < |Reverse(sorted)| ==> Reverse(sorted)[j].flow <= Reverse(sorted)[i].flow
  {
    var r := Reverse(sorted);
    forall i, j | 0 <= i <= j < |r|
      ensures r[j].flow <= r[i].flow
    {
      assert r[j] == sorted[|sorted| - 1 - j] && r[i] == sorted[|sorted| - 1 - i];
    }
  }

  /** `sorted_by_key(flow).rev()` over the key valves. */
  function SortedKeyValves(all: seq<Valve>): (r: seq<Valve>)
    ensures multiset(r) == multiset(KeyValves(all))
    ensures forall v :: v in r <==> v in all && IsKeyValve(v)
    ensures forall i, j :: 0 <= i <= j < |r| ==> r[j].flow <= r[i].flow
  {
    var sorted := SortByFlow(KeyValves(all));
    ReverseMultiset(sorted);
    MultisetMembers(Reverse(sorted), KeyValves(all));
    ReverseDescending(sorted);
    Reverse(sorted)
  }

  /**
   * `build_volcano`: the key valves sorted by descending flow, their flows, and the
   * walking distances between them looked up by name.
   */
  function BuildVolcano(all: seq<Valve>, hops: map<(string, string), nat>): (r: Volcano)
    requires forall a, b :: a in all && b in all ==> (a.name, b.name) in hops
    ensures forall v :: v in r.valves <==> v in all && IsKeyValve(v)
    ensures multiset(r.valves) == multiset(KeyValves(all))
    ensures |r.flows| == |r.valves| && forall i :: 0 <= i < |r.flows| ==> r.flows[i] == r.valves[i].flow
    ensures Descending(r.flows)
    ensures |r.dist| == |r.valves|
    ensures forall a :: 0 <= a < |r.dist| ==> |r.dist[a]| == |r.valves|
    ensures forall a, b :: 0 <= a < |r.valves| && 0 <= b < |r.valves| ==>
              r.dist[a][b] == hops[(r.valves[a].name, r.valves[b].name)]
  {
    var vs := SortedKeyValves(all);
    Volcano(vs, FlowsOf(vs), DistanceTable(vs, all, hops))
  }

  function FlowsOf(vs: seq<Valve>): (r: seq<nat>)
    ensures |r| == |vs| && forall i :: 0 <= i < |vs| ==> r[i] == vs[i].flow
  {
    seq(|vs|, i requires 0 <= i < |vs| => vs[i].flow)
  }

  function DistanceTable(vs: seq<Valve>, all: seq<Valve>, hops: map<(string, string), nat>): (r: seq<seq<nat>>)
    requires forall v :: v in vs ==> v in all
    requires forall a, b :: a in all && b in all ==> (a.name, b.name) in hops
    ensures |r| == |vs| && forall a :: 0 <= a < |vs| ==> |r[a]| == |vs|
    ensures forall a, b :: 0 <= a < |vs| && 0 <= b < |vs| ==> r[a][b] == hops[(vs[a].name, vs[b].name)]
  {
    var n := |vs|;
    assert forall a :: 0 <= a < n ==> vs[a] in all;
    seq(n, a requires 0 <= a < n => seq(n, b requires 0 <= b < n => hops[(vs[a].name, vs[b].name)]))
  }

  /** No two valves of the scan share a name. */
  predicate DistinctNames(all: seq<Valve>)
  {
    forall i, j :: 0 <= i < j < |all| ==> all[i].name != all[j].name
  }

  lemma DistinctNamesOnce(all: seq<Valve>, x: Valve)
    requires DistinctNames(all)
    ensures multiset(all)[x] <= 1
  {
    if all != [] {
      assert all == [all[0]] + all[1..];
      DistinctNamesOnce(all[1..], x);
      if x == all[0] {
        assert x !in all[1..] by {
          forall k | 0 <= k < |all[1..]|
            ensures all[1..][k] != x
          {
            assert all[1..][k].name == all[k + 1].name;
          }
        }
      }
    }
  }

  lemma RepeatedTwice(s: seq<Valve>, a: nat, b: nat)
    requires a < b < |s| && s[a] == s[b]
    ensures multiset(s)[s[a]] >= 2
  {
    assert s == s[..b] + s[b..];
    assert s[a] == s[..b][a];
    assert s[b] == s[b..][0];
  }

  /** Valves drawn from a scan without repeated names keep their names apart. */
  lemma SubsetNamesDistinct(vs: seq<Valve>, all: seq<Valve>, a: nat, b: nat)
    requires DistinctNames(all) && multiset(vs) <= multiset(all)
    requires a < |vs| && b < |vs| && a != b
    ensures vs[a].name != vs[b].name
  {
    if vs[a] == vs[b] {
      var (lo, hi) := if a < b then (a, b) else (b, a);
      RepeatedTwice(vs, lo, hi);
      DistinctNamesOnce(all, vs[a]);
      assert false;
    } else {
      assert vs[a] in multiset(all) && vs[b] in multiset(all);
      var i :| 0 <= i < |all| && all[i] == vs[a];
      var j :| 0 <= j < |all| && all[j] == vs[b];
      assert i != j;
    }
  }

  /**
   * A scan with distinct names, at most 16 key valves and positive distances between
   * distinct valves builds a volcano the search can run on.
   */
  lemma BuildVolcanoValid(all: seq<Valve>, hops: map<(string, string), nat>)
    requires forall a, b :: a in all && b in all ==> (a.name, b.name) in hops
    requires DistinctNames(all) && |KeyValves(all)| <= MaxValves
    requires forall a, b :: a in all && b in all && a.name != b.name ==> hops[(a.name, b.name)] >= 1
    ensures Valid(BuildVolcano(all, hops))
  {
    var vol := BuildVolcano(all, hops);
    var n := |vol.flows|;
    assert |multiset(vol.valves)| == |multiset(KeyValves(all))|;
    forall a, b | 0 <= a < n && 0 <= b < n && a != b
      ensures vol.dist[a][b] >= 1
    {
      SubsetNamesDistinct(vol.valves, all, a, b);
      assert vol.valves[a] in vol.valves && vol.valves[b] in vol.valves;
    }
  }

  /** `Volcano::position`, `None` where the source unwraps a missing valve. */
  function Position(vol: Volcano, name: string): (r: Option<nat>)
    ensures r.Some? ==> (r.value < |vol.valves| && vol.valves[r.value].name == name
                         && forall i :: 0 <= i < r.value ==> vol.valves[i].name != name)
    ensures r.None? ==> forall i :: 0 <= i < |vol.valves| ==> vol.valves[i].name != name
  {
    PositionFrom(vol.valves, name, 0)
  }

  function PositionFrom(vs: seq<Valve>, name: string, i: nat): (r: Option<nat>)
    requires i <= |vs|
    requires forall k :: 0 <= k < i ==> vs[k].name != name
    ensures r.Some? ==> (i <= r.value < |vs| && vs[r.value].name == name
                         && forall k :: 0 <= k < r.value ==> vs[k].name != name)
    ensures r.None? ==> forall k :: 0 <= k < |vs| ==> vs[k].name != name
    decreases |vs| - i
  {
    if i == |vs| then None
    else if vs[i].name == name then Some(i)
    else PositionFrom(vs, name, i + 1)
  }

  /**
   * What the search needs of a volcano: at most 16 key valves, flows sorted
   * descending, and a distance table covering every pair, positive between
   * distinct valves.
   */
  predicate Valid(vol: Volcano)
  {
    var n := |vol.flows|;
    n <= MaxValves && |vol.valves| == n && |vol.dist| == n
    && Descending(vol.flows)
    && (forall a :: 0 <= a < n ==> |vol.dist[a]| == n)
    && (forall a, b :: 0 <= a < n && 0 <= b < n && a != b ==> vol.dist[a][b] >= 1)
  }

  /** The current valve is a key valve and is never still waiting to be opened. */
  predicate WfState(vol: Volcano, s: State)
  {
    s.current < |vol.flows| && !Has(s.remaining, s.current)
  }

  function Distance(vol: Volcano, from: nat, to: nat): nat
    requires Valid(vol) && from < |vol.flows| && to < |vol.flows|
  {
    vol.dist[from][to]
  }

  // ---------------------------------------------------------------------------
  // States and moves

  /** `State::remains` */
  predicate Remains(s: State, v: nat)
  {
    Has(s.remaining, v)
  }

  /** The valves `i <= v < n` still closed, in ascending order. */
  function ValvesFrom(m: nat, i: nat, n: nat): (r: seq<nat>)
    ensures forall v :: v in r <==> i <= v < n && Has(m, v)
    ensures forall a, b :: 0 <= a < b < |r| ==> r[a] < r[b]
    decreases n - i
  {
    if i >= n then []
    else
      var rest := ValvesFrom(m, i + 1, n);
      assert forall k :: 0 <= k < |rest| ==> rest[k] in rest;
      (if Has(m, i) then [i] else []) + rest
  }

  /** `State::remaining`: the ascending list of valves below `n` still closed. */
  function RemainingValves(s: State, n: nat): (r: seq<nat>)
    ensures forall v: nat :: v in r <==> v < n && Remains(s, v)
    ensures forall a, b :: 0 <= a < b < |r| ==> r[a] < r[b]
  {
    assert forall v :: Remains(s, v) == Has(s.remaining, v);
    ValvesFrom(s.remaining, 0, n)
  }

  /**
   * `State::travel`: walk to `v` and open it, which takes the walk plus one minute;
   * the valve then releases its flow for every minute left.
   */
  function Travel(vol: Volcano, s: State, v: nat): (r: Option<State>)
    requires Valid(vol) && s.current < |vol.flows| && v < |vol.flows|
    ensures r.Some? <==> Distance(vol, s.current, v) + 1 < s.minutes
    ensures r.Some? ==> (r.value.minutes + Distance(vol, s.current, v) + 1 == s.minutes
                         && r.value.minutes > 0
                         && r.value.current == v
                         && r.value.pressure == s.pressure + Released(vol.flows[v], r.value.minutes))
  {
    var d := Distance(vol, s.current, v);
    if s.minutes >= d + 1 then
      var minutes := s.minutes - (d + 1);
      if minutes > 0 then
        Some(State(minutes, v, AndNot(Pow2(v), s.remaining), s.pressure + Released(vol.flows[v], minutes)))
      else None
    else None
  }

  /** Travelling to `v` closes off exactly bit `v` of the mask. */
  lemma TravelClearsOnly(vol: Volcano, s: State, v: nat, i: nat)
    requires Valid(vol) && s.current < |vol.flows| && v < |vol.flows|
    requires Travel(vol, s, v).Some?
    ensures Remains(Travel(vol, s, v).value, i) <==> i != v && Remains(s, i)
  {
    HasAndNot(Pow2(v), s.remaining, i);
    HasPow2(v, i);
  }

  /** The states one `travel` away, in the order the search queues them. */
  function Branches(vol: Volcano, s: State, vs: seq<nat>): (r: seq<State>)
    requires Valid(vol) && s.current < |vol.flows|
    requires forall v :: v in vs ==> v < |vol.flows|
    ensures forall c :: c in r ==> c.minutes < s.minutes && c.current < |vol.flows|
    ensures forall c :: c in r ==> exists v :: v in vs && Travel(vol, s, v) == Some(c)
    ensures forall v :: v in vs && Travel(vol, s, v).Some? ==> Travel(vol, s, v).value in r
  {
    if vs == [] then []
    else
      assert vs[0] in vs && forall v :: v in vs[1..] ==> v in vs;
      var head := match Travel(vol, s, vs[0]) case Some(c) => [c] case None => [];
      head + Branches(vol, s, vs[1..])
  }

  function Children(vol: Volcano, s: State): (r: seq<State>)
    requires Valid(vol) && s.current < |vol.flows|
    ensures forall c :: c in r ==> c.minutes < s.minutes && c.current < |vol.flows|
  {
    Branches(vol, s, RemainingValves(s, |vol.flows|))
  }

  lemma ChildIsTravel(vol: Volcano, s: State, c: State) returns (v: nat)
    requires Valid(vol) && s.current < |vol.flows|
    requires c in Children(vol, s)
    ensures v < |vol.flows| && Remains(s, v) && Travel(vol, s, v) == Some(c)
  {
    var vs := RemainingValves(s, |vol.flows|);
    v :| v in vs && Travel(vol, s, v) == Some(c);
  }

  lemma ChildWf(vol: Volcano, s: State, c: State)
    requires Valid(vol) && WfState(vol, s) && c in Children(vol, s)
    ensures WfState(vol, c)
  {
    var v := ChildIsTravel(vol, s, c);
    TravelClearsOnly(vol, s, v, v);
  }

  // ---------------------------------------------------------------------------
  // The exhaustive optimum: the best pressure over every chain of travels

  function Reach(vol: Volcano, s: State): nat
    requires Valid(vol) && s.current < |vol.flows|
    decreases s.minutes, 1
  {
    Max(s.pressure, BestOf(vol, Children(vol, s), s.minutes))
  }

  function BestOf(vol: Volcano, cs: seq<State>, bound: nat): nat
    requires Valid(vol)
    requires forall c :: c in cs ==> c.minutes < bound && c.current < |vol.flows|
    decreases bound, 0, |cs|
  {
    if cs == [] then 0 else Max(Reach(vol, cs[0]), BestOf(vol, cs[1..], bound))
  }

  lemma {:induction false} BestOfAtLeast(vol: Volcano, cs: seq<State>, bound: nat, c: State)
    requires Valid(vol)
    requires forall c :: c in cs ==> c.minutes < bound && c.current < |vol.flows|
    requires c in cs
    ensures Reach(vol, c) <= BestOf(vol, cs, bound)
    decreases |cs|
  {
    if cs[0] != c {
      BestOfAtLeast(vol, cs[1..], bound, c);
    }
  }

  lemma {:induction false} BestOfAttained(vol: Volcano, cs: seq<State>, bound: nat) returns (i: nat)
    requires Valid(vol)
    requires forall c :: c in cs ==> c.minutes < bound && c.current < |vol.flows|
    requires BestOf(vol, cs, bound) > 0
    ensures i < |cs| && Reach(vol, cs[i]) == BestOf(vol, cs, bound)
    decreases |cs|
  {
    if Reach(vol, cs[0]) >= BestOf(vol, cs[1..], bound) {
      i := 0;
    } else {
      var j := BestOfAttained(vol, cs[1..], bound);
      i := j + 1;
    }
  }

  lemma {:induction false} BestOfAtMost(vol: Volcano, cs: seq<State>, bound: nat, x: nat)
    requires Valid(vol)
    requires forall c :: c in cs ==> c.minutes < bound && c.current < |vol.flows|
    requires forall c :: c in cs ==> Reach(vol, c) <= x
    ensures BestOf(vol, cs, bound) <= x
    decreases |cs|
  {
    if cs != [] {
      BestOfAtMost(vol, cs[1..], bound, x);
    }
  }

  /**
   * The optimum of a state is its own pressure or that of one of its children,
   * and no child can do better than its parent.
   */
  lemma ReachOfChildren(vol: Volcano, s: State)
    requires Valid(vol) && s.current < |vol.flows|
    ensures s.pressure <= Reach(vol, s)
    ensures forall c :: c in Children(vol, s) ==> Reach(vol, c) <= Reach(vol, s)
    ensures Reach(vol, s) == s.pressure
      || exists c :: c in Children(vol, s) && Reach(vol, c) == Reach(vol, s)
  {
    var cs := Children(vol, s);
    forall c | c in cs
      ensures Reach(vol, c) <= Reach(vol, s)
    {
      BestOfAtLeast(vol, cs, s.minutes, c);
    }
    if Reach(vol, s) != s.pressure {
      var i := BestOfAttained(vol, cs, s.minutes);
      assert cs[i] in cs;
    }
  }

  // ---------------------------------------------------------------------------
  // The upper bound

  /** The flows of the closed valves `i..`, in index (so descending-flow) order. */
  function FlowsFrom(vol: Volcano, m: nat, i: nat): seq<nat>
    requires i <= |vol.flows|
    decreases |vol.flows| - i
  {
    if i == |vol.flows| then []
    else (if Has(m, i) then [vol.flows[i]] else []) + FlowsFrom(vol, m, i + 1)
  }

  function Take(fs: seq<nat>, k: nat): (r: seq<nat>)
    ensures |r| <= k && |r| <= |fs| && r == fs[..|r|]
    ensures |r| == k || r == fs
  {
    if k < |fs| then fs[..k] else fs
  }

  /** The fold of `upper_bound`: each flow is credited two minutes after the previous one. */
  function Fold(minutes: nat, total: nat, fs: seq<nat>): (nat, nat)
    requires 2 * |fs| <= minutes
  {
    if fs == [] then (minutes, total)
    else Fold(minutes - 2, total + fs[0] * (minutes - 2), fs[1..])
  }

  /**
   * `State::upper_bound`: the pressure if every closed valve were one step away and
   * opened greatest flow first, at most `minutes / 2` of them.
   */
  function UpperBound(vol: Volcano, s: State): nat
    requires s.current < |vol.flows|
  {
    var fs := Take(FlowsFrom(vol, s.remaining, 0), s.minutes / 2);
    Fold(s.minutes, s.pressure, fs).1
  }

  /** Reference value of the optimistic schedule, one valve every two minutes. */
  function Bound(minutes: nat, fs: seq<nat>): nat
  {
    if fs == [] || minutes < 2 then 0
    else fs[0] * (minutes - 2) + Bound(minutes - 2, fs[1..])
  }

  lemma {:induction false} FoldIsBound(minutes: nat, total: nat, fs: seq<nat>)
    ensures Fold(minutes, total, Take(fs, minutes / 2)).1 == total + Bound(minutes, fs)
  {
    if fs != [] && minutes >= 2 {
      var t := Take(fs, minutes / 2);
      assert t == [fs[0]] + Take(fs[1..], (minutes - 2) / 2);
      assert t[1..] == Take(fs[1..], (minutes - 2) / 2);
      FoldIsBound(minutes - 2, total + fs[0] * (minutes - 2), fs[1..]);
    }
  }

  /** The bound credits the pressure already released, and nothing more once no valve is closed. */
  lemma UpperBoundAtLeastPressure(vol: Volcano, s: State)
    requires s.current < |vol.flows|
    ensures s.pressure <= UpperBound(vol, s)
    ensures (forall i :: 0 <= i < |vol.flows| ==> !Remains(s, i)) ==> UpperBound(vol, s) == s.pressure
  {
    FoldIsBound(s.minutes, s.pressure, FlowsFrom(vol, s.remaining, 0));
    if forall i :: 0 <= i < |vol.flows| ==> !Remains(s, i) {
      assert forall i :: Remains(s, i) == Has(s.remaining, i);
      NoneClosed(vol, s.remaining, 0);
    }
  }

  lemma {:induction false} NoneClosed(vol: Volcano, m: nat, i: nat)
    requires i <= |vol.flows|
    requires forall j :: i <= j < |vol.flows| ==> !Has(m, j)
    ensures FlowsFrom(vol, m, i) == []
    decreases |vol.flows| - i
  {
    if i < |vol.flows| {
      NoneClosed(vol, m, i + 1);
    }
  }

  lemma MulMono(a: nat, x: nat, y: nat)
    requires x <= y
    ensures a * x <= a * y
  {
  }

  lemma MulMono2(a: nat, b: nat, x: nat, y: nat)
    requires a <= b && x <= y
    ensures a * x <= b * y
  {
    MulMono(a, x, y);
    assert a * y <= b * y;
  }

  lemma {:induction false} BoundMono(m1: nat, m2: nat, fs: seq<nat>)
    requires m1 <= m2
    ensures Bound(m1, fs) <= Bound(m2, fs)
  {
    if fs != [] && m1 >= 2 {
      BoundMono(m1 - 2, m2 - 2, fs[1..]);
      MulMono(fs[0], m1 - 2, m2 - 2);
    }
  }

  lemma {:induction false} FlowsFromAgree(vol: Volcano, m1: nat, m2: nat, i: nat)
    requires i <= |vol.flows|
    requires forall j :: i <= j < |vol.flows| ==> (Has(m1, j) <==> Has(m2, j))
    ensures FlowsFrom(vol, m1, i) == FlowsFrom(vol, m2, i)
    decreases |vol.flows| - i
  {
    if i < |vol.flows| {
      FlowsFromAgree(vol, m1, m2, i + 1);
    }
  }

  /**
   * The heart of admissibility: opening valve `v` at least two minutes early and
   * continuing optimistically is no better than the optimistic schedule with `v`
   * still closed, because every valve before `v` has at least its flow.
   */
  lemma {:induction false} OpenEarlyBound(vol: Volcano, m1: nat, m2: nat, v: nat, i: nat, big: nat, small: nat)
    requires Valid(vol) && i <= v < |vol.flows| && Has(m1, v)
    requires forall j :: 0 <= j < |vol.flows| ==> (Has(m2, j) <==> j != v && Has(m1, j))
    requires small + 2 <= big
    ensures vol.flows[v] * small + Bound(small, FlowsFrom(vol, m2, i)) <= Bound(big, FlowsFrom(vol, m1, i))
    decreases v - i
  {
    var fv := vol.flows[v];
    if i == v {
      FlowsFromAgree(vol, m1, m2, v + 1);
      var rest := FlowsFrom(vol, m1, v + 1);
      assert FlowsFrom(vol, m1, v) == [fv] + rest;
      assert FlowsFrom(vol, m2, v) == rest;
      BoundMono(small, big - 2, rest);
      MulMono(fv, small, big - 2);
    } else if !Has(m1, i) {
      assert FlowsFrom(vol, m1, i) == FlowsFrom(vol, m1, i + 1);
      assert FlowsFrom(vol, m2, i) == FlowsFrom(vol, m2, i + 1);
      OpenEarlyBound(vol, m1, m2, v, i + 1, big, small);
    } else {
      var fi := vol.flows[i];
      var r1 := FlowsFrom(vol, m1, i + 1);
      var r2 := FlowsFrom(vol, m2, i + 1);
      assert FlowsFrom(vol, m1, i) == [fi] + r1;
      assert FlowsFrom(vol, m2, i) == [fi] + r2;
      assert Bound(big, [fi] + r1) == fi * (big - 2) + Bound(big - 2, r1);
      if small < 2 {
        assert Bound(small, [fi] + r2) == 0;
        MulMono2(fv, fi, small, big - 2);
      } else {
        OpenEarlyBound(vol, m1, m2, v, i + 1, big - 2, small - 2);
        assert Bound(small, [fi] + r2) == fi * (small - 2) + Bound(small - 2, r2);
        PassOverBigger(fv, fi, small, big, Bound(small - 2, r2), Bound(big - 2, r1));
      }
    }
  }

  /** Arithmetic of one step of `OpenEarlyBound`, past a valve with a larger flow. */
  lemma PassOverBigger(fv: nat, fi: nat, small: nat, big: nat, b2: nat, b1: nat)
    requires fv <= fi && 2 <= small && small + 2 <= big
    requires fv * (small - 2) + b2 <= b1
    ensures fv * small + (fi * (small - 2) + b2) <= fi * (big - 2) + b1
  {
    assert fv * small == fv * (small - 2) + 2 * fv;
    assert fi * (big - 2) == fi * (small - 2) + fi * (big - small);
    MulMono2(fv, fi, 2, big - small);
    assert 2 * fv <= fi * (big - small);
  }

  /** Travelling never raises the bound. */
  lemma ChildUpperBound(vol: Volcano, s: State, c: State)
    requires Valid(vol) && WfState(vol, s) && c in Children(vol, s)
    ensures UpperBound(vol, c) <= UpperBound(vol, s)
  {
    var v := ChildIsTravel(vol, s, c);
    assert v != s.current;
    forall j | 0 <= j < |vol.flows|
      ensures Has(c.remaining, j) <==> j != v && Has(s.remaining, j)
    {
      TravelClearsOnly(vol, s, v, j);
    }
    ReleasedIsProduct(vol.flows[v], c.minutes);
    OpenEarlyBound(vol, s.remaining, c.remaining, v, 0, s.minutes, c.minutes);
    FoldIsBound(s.minutes, s.pressure, FlowsFrom(vol, s.remaining, 0));
    FoldIsBound(c.minutes, c.pressure, FlowsFrom(vol, c.remaining, 0));
  }

  /** `upper_bound` is admissible: no chain of travels beats it. */
  lemma {:induction false} Admissible(vol: Volcano, s: State)
    requires Valid(vol) && WfState(vol, s)
    ensures Reach(vol, s) <= UpperBound(vol, s)
    decreases s.minutes
  {
    var cs := Children(vol, s);
    forall c | c in cs
      ensures Reach(vol, c) <= UpperBound(vol, s)
    {
      ChildWf(vol, s, c);
      Admissible(vol, c);
      ChildUpperBound(vol, s, c);
    }
    BestOfAtMost(vol, cs, s.minutes, UpperBound(vol, s));
    UpperBoundAtLeastPressure(vol, s);
  }

  // ---------------------------------------------------------------------------
  // The search

  function Size(vol: Volcano, s: State): nat
    requires Valid(vol) && s.current < |vol.flows|
    decreases s.minutes, 1
  {
    1 + SizeOf(vol, Children(vol, s), s.minutes)
  }

  function SizeOf(vol: Volcano, cs: seq<State>, bound: nat): nat
    requires Valid(vol)
    requires forall c :: c in cs ==> c.minutes < bound && c.current < |vol.flows|
    decreases bound, 0, |cs|
  {
    if cs == [] then 0 else Size(vol, cs[0]) + SizeOf(vol, cs[1..], bound)
  }

  /** The number of states still to be expanded from the queue. */
  function Pending(vol: Volcano, q: seq<State>): nat
    requires Valid(vol) && forall c :: c in q ==> c.current < |vol.flows|
  {
    if q == [] then 0 else Size(vol, q[0]) + Pending(vol, q[1..])
  }

  lemma {:induction false} PendingAppend(vol: Volcano, a: seq<State>, b: seq<State>)
    requires Valid(vol)
    requires forall c :: c in a + b ==> c.current < |vol.flows|
    ensures Pending(vol, a + b) == Pending(vol, a) + Pending(vol, b)
  {
    if a != [] {
      assert (a + b)[0] == a[0];
      assert (a + b)[1..] == a[1..] + b;
      PendingAppend(vol, a[1..], b);
    } else {
      assert a + b == b;
    }
  }

  lemma {:induction false} PendingIsSizeOf(vol: Volcano, cs: seq<State>, bound: nat)
    requires Valid(vol)
    requires forall c :: c in cs ==> c.minutes < bound && c.current < |vol.flows|
    ensures Pending(vol, cs) == SizeOf(vol, cs, bound)
  {
    if cs != [] {
      PendingIsSizeOf(vol, cs[1..], bound);
    }
  }

  /**
   * `Volcano::max_pressure`: a breadth-first search that drops a state when the best
   * pressure seen so far already beats its upper bound. It returns the exhaustive
   * optimum.
   */
  method MaxPressure(vol: Volcano, start: State) returns (best: nat)
    requires Valid(vol) && WfState(vol, start)
    ensures best == Reach(vol, start)
    ensures start.pressure <= best
  {
    ghost var opt := Reach(vol, start);
    best := 0;
    var queue := [start];
    while queue != []
      invariant forall c :: c in queue ==> WfState(vol, c) && Reach(vol, c) <= opt
      invariant best <= opt
      invariant best == opt || exists c :: c in queue && Reach(vol, c) == opt
      decreases Pending(vol, queue)
    {
      var state := queue[0];
      ghost var before := Pending(vol, queue);
      assert queue == [state] + queue[1..];
      PendingAppend(vol, [state], queue[1..]);
      queue := queue[1..];
      ReachOfChildren(vol, state);
      if state.pressure > best {
        best := state.pressure;
      } else if best > UpperBound(vol, state) {
        Admissible(vol, state);
        continue;
      }
      var children := Children(vol, state);
      forall c | c in children
        ensures WfState(vol, c)
      {
        ChildWf(vol, state, c);
      }
      PendingAppend(vol, queue, children);
      PendingIsSizeOf(vol, children, state.minutes);
      queue := queue + children;
    }
    ReachOfChildren(vol, start);
  }

  // ---------------------------------------------------------------------------
  // Start state and the two-agent split

  /** The fold of `start_state`: set bit `i` for every `lo <= i < n` except `skip`. */
  function MaskExcept(acc: nat, lo: nat, n: nat, skip: nat): nat
    decreases n - lo
  {
    if lo >= n then acc
    else MaskExcept(if lo != skip then Or(acc, Pow2(lo)) else acc, lo + 1, n, skip)
  }

  lemma {:induction false} MaskExceptHas(acc: nat, lo: nat, n: nat, skip: nat, i: nat)
    ensures Has(MaskExcept(acc, lo, n, skip), i) <==> Has(acc, i) || (lo <= i < n && i != skip)
    decreases n - lo
  {
    if lo < n {
      var next := if lo != skip then Or(acc, Pow2(lo)) else acc;
      MaskExceptHas(next, lo + 1, n, skip, i);
      HasOr(acc, Pow2(lo), i);
      HasPow2(lo, i);
    }
  }

  /** `Volcano::start_state`: at the entrance with every other key valve closed. */
  function StartState(vol: Volcano, minutes: nat): (r: State)
    requires Position(vol, Entrance).Some?
    ensures r.minutes == minutes && r.pressure == 0
    ensures r.current < |vol.valves| && vol.valves[r.current].name == Entrance
  {
    var current := Position(vol, Entrance).value;
    State(minutes, current, MaskExcept(0, 0, |vol.valves|, current), 0)
  }

  lemma StartStateRemaining(vol: Volcano, minutes: nat, i: nat)
    requires Position(vol, Entrance).Some?
    ensures Remains(StartState(vol, minutes), i) <==> i < |vol.valves| && i != StartState(vol, minutes).current
  {
    var current := Position(vol, Entrance).value;
    MaskExceptHas(0, 0, |vol.valves|, current, i);
    HasZero(i);
  }

  /** `solve_part1`: the best pressure alone in 30 minutes. */
  method SolvePart1(vol: Volcano) returns (r: nat)
    requires Valid(vol) && Position(vol, Entrance).Some?
    ensures r == Reach(vol, StartState(vol, 30))
  {
    var start := StartState(vol, 30);
    StartStateRemaining(vol, 30, start.current);
    r := MaxPressure(vol, start);
  }

  /** All valves but the last, which is the entrance whenever its flow is zero. */
  function SplitMask(vol: Volcano): nat
    requires |vol.valves| >= 1
  {
    Ones(|vol.valves| - 1)
  }

  /** `max >> 1` */
  function Half(vol: Volcano): nat
    requires |vol.valves| >= 1
  {
    SplitMask(vol) / 2
  }

  /** `generate_remaining_combinations`: `(a, !a & max)` for `a` in `1..=half`. */
  function Combinations(vol: Volcano): (r: seq<(nat, nat)>)
    requires |vol.valves| >= 1
    ensures |r| == Half(vol)
  {
    seq(Half(vol), i requires 0 <= i < Half(vol) => (i + 1, AndNot(i + 1, SplitMask(vol))))
  }

  /**
   * Every generated pair splits the valves below the entrance into two disjoint
   * halves (`a & b == 0`, `a | b == max`), the first one ranging over `1..=half`.
   */
  lemma CombinationsPartition(vol: Volcano, k: nat, i: nat)
    requires |vol.valves| >= 1 && k < |Combinations(vol)|
    ensures Combinations(vol)[k].0 == k + 1
    ensures Combinations(vol)[k].0 + Combinations(vol)[k].1 == SplitMask(vol)
    ensures !(Has(Combinations(vol)[k].0, i) && Has(Combinations(vol)[k].1, i))
    ensures Has(Combinations(vol)[k].0, i) || Has(Combinations(vol)[k].1, i) <==> Has(SplitMask(vol), i)
  {
    var a := k + 1;
    var mx := SplitMask(vol);
    AndNotOnes(a, |vol.valves| - 1);
    HasAndNot(a, mx, i);
    HasOnes(|vol.valves| - 1, i);
    if Has(a, i) && !Has(mx, i) {
      HasBelow(a, |vol.valves| - 1, i);
    }
  }

  /** The entrance is the last key valve, which `max_combo`'s masks take for granted. */
  predicate EntranceLast(vol: Volcano)
  {
    Valid(vol) && |vol.valves| >= 1 && Position(vol, Entrance) == Some(|vol.valves| - 1)
  }

  /** One agent at the last valve with `minutes` left and the valves of `mask` to open. */
  function TeamState(vol: Volcano, minutes: nat, mask: nat): State
    requires |vol.valves| >= 1
  {
    State(minutes, |vol.valves| - 1, mask, 0)
  }

  /** `State { remaining, ..start }` is `TeamState` when the entrance is last. */
  lemma TeamStateIsStart(vol: Volcano, minutes: nat, mask: nat)
    requires EntranceLast(vol)
    ensures TeamState(vol, minutes, mask) == StartState(vol, minutes).(remaining := mask)
  {
  }

  lemma TeamWf(vol: Volcano, minutes: nat, mask: nat)
    requires Valid(vol) && |vol.valves| >= 1 && mask <= SplitMask(vol)
    ensures WfState(vol, TeamState(vol, minutes, mask))
  {
    HasBelow(mask, |vol.valves| - 1, |vol.valves| - 1);
  }

  /** The best one agent can do alone with the valves of `mask`. */
  function TeamReach(vol: Volcano, minutes: nat, mask: nat): nat
    requires Valid(vol) && |vol.valves| >= 1
  {
    Reach(vol, TeamState(vol, minutes, mask))
  }

  /** Two agents sharing the valves of `mx` as `a` and its complement `mx - a`. */
  function PairValue(vol: Volcano, minutes: nat, mx: nat, a: nat): nat
    requires Valid(vol) && |vol.valves| >= 1 && a <= mx
  {
    TeamReach(vol, minutes, a) + TeamReach(vol, minutes, mx - a)
  }

  /** The best `f(a)` for `lo <= a < hi`, 0 when that range is empty. */
  function MaxBelow(f: nat -> nat, lo: nat, hi: nat): nat
    decreases hi
  {
    if hi <= lo then 0 else Max(MaxBelow(f, lo, hi - 1), f(hi - 1))
  }

  lemma {:induction false} MaxBelowBound(f: nat -> nat, lo: nat, hi: nat, a: nat)
    requires lo <= a < hi
    ensures f(a) <= MaxBelow(f, lo, hi)
    decreases hi
  {
    if a < hi - 1 {
      MaxBelowBound(f, lo, hi - 1, a);
    }
  }

  lemma {:induction false} MaxBelowAttained(f: nat -> nat, lo: nat, hi: nat) returns (a: nat)
    requires lo < hi
    ensures lo <= a < hi && f(a) == MaxBelow(f, lo, hi)
    decreases hi
  {
    if hi - 1 <= lo || f(hi - 1) >= MaxBelow(f, lo, hi - 1) {
      a := hi - 1;
    } else {
      a := MaxBelowAttained(f, lo, hi - 1);
    }
  }

  /** `PairValue` for every first share up to `mx`, 0 beyond. */
  function Pairs(vol: Volcano, minutes: nat, mx: nat): nat -> nat
    requires Valid(vol) && |vol.valves| >= 1
  {
    (a: nat) => if a <= mx then PairValue(vol, minutes, mx, a) else 0
  }

  /** Swapping the two agents' shares does not change the team's pressure. */
  lemma PairValueSymmetric(vol: Volcano, minutes: nat, mx: nat, a: nat)
    requires Valid(vol) && |vol.valves| >= 1 && a <= mx
    ensures PairValue(vol, minutes, mx, a) == PairValue(vol, minutes, mx, mx - a)
  {
    assert mx - (mx - a) == a;
  }

  /** Every split `(a, mx - a)` is matched by one whose first share is at most `mx / 2`. */
  lemma HalfCoversAll(vol: Volcano, minutes: nat, mx: nat, a: nat)
    requires Valid(vol) && |vol.valves| >= 1 && a <= mx
    ensures PairValue(vol, minutes, mx, a) <= MaxBelow(Pairs(vol, minutes, mx), 0, mx / 2 + 1)
  {
    var f := Pairs(vol, minutes, mx);
    if a <= mx / 2 {
      assert f(a) == PairValue(vol, minutes, mx, a);
      MaxBelowBound(f, 0, mx / 2 + 1, a);
    } else {
      PairValueSymmetric(vol, minutes, mx, a);
      assert f(mx - a) == PairValue(vol, minutes, mx, mx - a);
      MaxBelowBound(f, 0, mx / 2 + 1, mx - a);
    }
  }

  /** `max_pressure` from `State { remaining: mask, ..start }`. */
  method TeamPressure(vol: Volcano, minutes: nat, mask: nat) returns (p: nat)
    requires EntranceLast(vol) && mask <= SplitMask(vol)
    ensures p == TeamReach(vol, minutes, mask)
  {
    var start := StartState(vol, minutes);
    TeamStateIsStart(vol, minutes, mask);
    TeamWf(vol, minutes, mask);
    p := MaxPressure(vol, start.(remaining := mask));
  }

  /** `!a & max`: within the split mask, clearing the bits of `a` leaves the rest of it. */
  method Partner(vol: Volcano, a: nat) returns (b: nat)
    requires |vol.valves| >= 1 && a <= SplitMask(vol)
    ensures b == SplitMask(vol) - a
  {
    AndNotOnes(a, |vol.valves| - 1);
    b := AndNot(a, SplitMask(vol));
  }

  lemma PartnerReach(vol: Volcano, minutes: nat, a: nat, b: nat, pb: nat)
    requires Valid(vol) && |vol.valves| >= 1 && a <= SplitMask(vol) && b == SplitMask(vol) - a
    requires pb == TeamReach(vol, minutes, b)
    ensures pb == TeamReach(vol, minutes, SplitMask(vol) - a)
  {
  }

  lemma PairSum(vol: Volcano, minutes: nat, a: nat, pa: nat, pb: nat)
    requires Valid(vol) && |vol.valves| >= 1 && a <= SplitMask(vol)
    requires pa == TeamReach(vol, minutes, a) && pb == TeamReach(vol, minutes, SplitMask(vol) - a)
    ensures pa + pb == PairValue(vol, minutes, SplitMask(vol), a)
  {
  }

  /** The summed `max_pressure` of the pair `(a, !a & max)`. */
  method PairPressure(vol: Volcano, minutes: nat, a: nat) returns (p: nat)
    requires EntranceLast(vol) && a <= SplitMask(vol)
    ensures p == PairValue(vol, minutes, SplitMask(vol), a)
  {
    var b := Partner(vol, a);
    var pa := TeamPressure(vol, minutes, a);
    var pb := TeamPressure(vol, minutes, b);
    PartnerReach(vol, minutes, a, b, pb);
    PairSum(vol, minutes, a, pa, pb);
    p := pa + pb;
  }

  /** One round of `max_combo`'s loop: fold the pair with first share `a` into the best so far. */
  method SplitStep(vol: Volcano, minutes: nat, from: nat, a: nat, r: nat) returns (r2: nat)
    requires EntranceLast(vol) && from <= a <= Half(vol)
    requires r == MaxBelow(Pairs(vol, minutes, SplitMask(vol)), from, a)
    ensures r2 == MaxBelow(Pairs(vol, minutes, SplitMask(vol)), from, a + 1)
  {
    var p := PairPressure(vol, minutes, a);
    r2 := if p > r then p else r;
  }

  /** The best summed pressure for `a` in `from..=half`; 0 when there is none. */
  method BestSplit(vol: Volcano, minutes: nat, from: nat) returns (r: nat)
    requires EntranceLast(vol) && from <= 1
    ensures r == MaxBelow(Pairs(vol, minutes, SplitMask(vol)), from, Half(vol) + 1)
  {
    var end := Half(vol) + 1;
    r := 0;
    var a := from;
    if a > end {
      return;
    }
    while a != end
      invariant from <= a <= end
      invariant r == MaxBelow(Pairs(vol, minutes, SplitMask(vol)), from, a)
      decreases end - a
    {
      r := SplitStep(vol, minutes, from, a, r);
      a := a + 1;
    }
  }

  /** Both agents have 26 minutes, four having gone to teaching the elephant. */
  const TeamMinutes: nat := 26

  /**
   * `Volcano::max_combo` as written: the best summed `max_pressure` over the generated
   * pairs, 0 when there are none.
   */
  method MaxComboAsWritten(vol: Volcano) returns (r: nat)
    requires EntranceLast(vol)
    ensures Half(vol) == 0 ==> r == 0
    ensures forall a :: 1 <= a <= Half(vol) ==> PairValue(vol, TeamMinutes, SplitMask(vol), a) <= r
    ensures Half(vol) >= 1 ==> exists a :: 1 <= a <= Half(vol) && PairValue(vol, TeamMinutes, SplitMask(vol), a) == r
  {
    var minutes := TeamMinutes;
    r := BestSplit(vol, minutes, 1);
    var mx := SplitMask(vol);
    forall a | 1 <= a <= Half(vol)
      ensures PairValue(vol, minutes, mx, a) <= r
    {
      MaxBelowBound(Pairs(vol, minutes, mx), 1, Half(vol) + 1, a);
    }
    if Half(vol) >= 1 {
      var a := MaxBelowAttained(Pairs(vol, minutes, mx), 1, Half(vol) + 1);
    }
  }

  /** The best split over every way to share the valves, including leaving one agent idle. */
  method MaxCombo(vol: Volcano) returns (r: nat)
    requires EntranceLast(vol)
    ensures forall a :: 0 <= a <= SplitMask(vol) ==> PairValue(vol, TeamMinutes, SplitMask(vol), a) <= r
    ensures exists a :: 0 <= a <= SplitMask(vol) && PairValue(vol, TeamMinutes, SplitMask(vol), a) == r
  {
    var minutes := TeamMinutes;
    r := BestSplit(vol, minutes, 0);
    var mx := SplitMask(vol);
    forall a | 0 <= a <= mx
      ensures PairValue(vol, minutes, mx, a) <= r
    {
      HalfCoversAll(vol, minutes, mx, a);
    }
    var a := MaxBelowAttained(Pairs(vol, minutes, mx), 0, mx / 2 + 1);
  }

  /** The smallest case the generated pairs miss: one useful valve, one step away. */
  const SingleValve := Volcano(
    [Valve("BB", 10, ["AA"]), Valve(Entrance, 0, ["BB"])],
    [10, 0],
    [[0, 1], [1, 0]])

  lemma SingleValveShape()
    ensures EntranceLast(SingleValve)
    ensures SplitMask(SingleValve) == 1 && Half(SingleValve) == 0
  {
    assert SingleValve.valves[0].name != Entrance by {
      assert SingleValve.valves[0].name[0] != Entrance[0];
    }
    assert SingleValve.valves[1].name == Entrance;
    assert Position(SingleValve, Entrance) == Some(1);
    assert Pow2(1) == 2;
  }

  /** An agent with nothing to open releases nothing. */
  lemma IdleTeam()
    ensures TeamReach(SingleValve, TeamMinutes, 0) == 0
  {
    SingleValveShape();
    var idle := TeamState(SingleValve, TeamMinutes, 0);
    assert RemainingValves(idle, 2) == [] by {
      HasZero(0);
      HasZero(1);
    }
  }

  /** An agent with valve BB walks there in one minute and opens it for the other 24. */
  lemma BusyTeam()
    ensures TeamReach(SingleValve, TeamMinutes, 1) == 240
  {
    var vol := SingleValve;
    SingleValveShape();
    var busy := TeamState(vol, TeamMinutes, 1);
    assert RemainingValves(busy, 2) == [0] by {
      assert Has(1, 0);
      assert !Has(1, 1) by { HasZero(0); }
    }
    var done := State(24, 0, AndNot(Pow2(0), 1), 240);
    assert Released(10, 24) == 240 by { ReleasedIsProduct(10, 24); }
    assert Travel(vol, busy, 0) == Some(done);
    assert Branches(vol, busy, [0]) == [done] + Branches(vol, busy, []);
    assert Children(vol, busy) == [done];
    assert AndNot(1, 1) == 0;
    assert RemainingValves(done, 2) == [] by {
      HasZero(0);
      HasZero(1);
    }
    assert Children(vol, done) == [];
    assert Reach(vol, done) == 240;
    assert BestOf(vol, [done], busy.minutes) == 240;
    assert Reach(vol, busy) == 240;
  }

  /**
   * With a single valve worth opening there are no generated pairs, so `max_combo`
   * yields 0, although one agent alone releases 240 while the other stays idle.
   */
  lemma SingleValveSplitMissed()
    ensures EntranceLast(SingleValve) && Half(SingleValve) == 0
    ensures PairValue(SingleValve, TeamMinutes, SplitMask(SingleValve), 0) == 240
  {
    SingleValveShape();
    IdleTeam();
    BusyTeam();
  }
}
