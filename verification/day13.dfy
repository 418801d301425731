/**
 * Day 13, Distress Signal: packets are integers and lists of packets. Two
 * integers compare as numbers, two lists lexicographically, and an integer
 * compared with a list is first wrapped in a list of its own. Part 1 adds up the
 * one-based indices of the pairs already in order; part 2 sorts all packets with
 * the dividers `[[2]]` and `[[6]]` and multiplies the dividers' one-based places.
 */
module Day13 {
  import opened Wrappers
  import opened Text
  import opened Sums
  import opened Positions

  /** `PacketData` */
  datatype Packet = Value(v: nat) | List(items: seq<Packet>)

  /** A measure that shrinks from a packet to its items and from a list to its tail. */
  function Size(p: Packet): (r: nat)
    ensures r >= 1
    decreases p
  {
    match p
    case Value(_) => 1
    case List(xs) => 2 + SizeOfAll(xs)
  }

  function SizeOfAll(xs: seq<Packet>): (r: nat)
    ensures r >= 1
    ensures xs != [] ==> r == Size(xs[0]) + SizeOfAll(xs[1..])
    decreases xs
  {
    if xs == [] then 1 else Size(xs[0]) + SizeOfAll(xs[1..])
  }

  /** `Ord::cmp` on packets. */
  function ComparePackets(a: Packet, b: Packet): Ordering
    decreases Size(a) + Size(b), 1
  {
    match (a, b)
    case (Value(l), Value(r)) => Compare(l, r)
    case (Value(l), List(r)) => CompareLists([Value(l)], r)
    case (List(l), Value(r)) => CompareLists(l, [Value(r)])
    case (List(l), List(r)) => CompareLists(l, r)
  }

  /** `Vec::cmp`: the first pair of items that differ decides, and otherwise the shorter list comes first. */
  function CompareLists(xs: seq<Packet>, ys: seq<Packet>): Ordering
    decreases SizeOfAll(xs) + SizeOfAll(ys), 0
  {
    if xs == [] && ys == [] then Equal
    else if xs == [] then Less
    else if ys == [] then Greater
    else
      match ComparePackets(xs[0], ys[0])
      case Equal => CompareLists(xs[1..], ys[1..])
      case Less => Less
      case Greater => Greater
  }

  /** `PartialEq::eq` on packets, with the same wrapping of an integer met by a list. */
  predicate PacketEq(a: Packet, b: Packet)
    decreases Size(a) + Size(b), 1
  {
    match (a, b)
    case (Value(l), Value(r)) => l == r
    case (Value(l), List(r)) => ListsEq([Value(l)], r)
    case (List(l), Value(r)) => ListsEq(l, [Value(r)])
    case (List(l), List(r)) => ListsEq(l, r)
  }

  /** `Vec::eq`: equal lengths and items equal pairwise. */
  predicate ListsEq(xs: seq<Packet>, ys: seq<Packet>)
    decreases SizeOfAll(xs) + SizeOfAll(ys), 0
  {
    |xs| == |ys| && (xs == [] || (PacketEq(xs[0], ys[0]) && ListsEq(xs[1..], ys[1..])))
  }

  /** `eq` holds exactly when `cmp` answers `Equal`. */
  lemma {:induction false} EqIsCompareEqual(a: Packet, b: Packet)
    ensures PacketEq(a, b) <==> ComparePackets(a, b) == Equal
    decreases Size(a) + Size(b), 1
  {
    match (a, b)
    case (Value(l), Value(r)) =>
    case (Value(l), List(r)) => ListsEqIsCompareEqual([Value(l)], r);
    case (List(l), Value(r)) => ListsEqIsCompareEqual(l, [Value(r)]);
    case (List(l), List(r)) => ListsEqIsCompareEqual(l, r);
  }

  lemma {:induction false} ListsEqIsCompareEqual(xs: seq<Packet>, ys: seq<Packet>)
    ensures ListsEq(xs, ys) <==> CompareLists(xs, ys) == Equal
    decreases SizeOfAll(xs) + SizeOfAll(ys), 0
  {
    if xs != [] && ys != [] {
      EqIsCompareEqual(xs[0], ys[0]);
      ListsEqIsCompareEqual(xs[1..], ys[1..]);
      if |xs| != |ys| {
        LengthsDiffer(xs, ys);
      }
    }
  }

  /** Lists of different lengths never compare `Equal`. */
  lemma {:induction false} LengthsDiffer(xs: seq<Packet>, ys: seq<Packet>)
    requires |xs| != |ys|
    ensures CompareLists(xs, ys) != Equal
    decreases |xs|
  {
    if xs != [] && ys != [] {
      LengthsDiffer(xs[1..], ys[1..]);
    }
  }

  /** Swapping the arguments reverses the answer. */
  lemma {:induction false} CompareFlip(a: Packet, b: Packet)
    ensures ComparePackets(b, a) == ComparePackets(a, b).Reverse()
    decreases Size(a) + Size(b), 1
  {
    match (a, b)
    case (Value(l), Value(r)) =>
    case (Value(l), List(r)) => ListsFlip([Value(l)], r);
    case (List(l), Value(r)) => ListsFlip(l, [Value(r)]);
    case (List(l), List(r)) => ListsFlip(l, r);
  }

  lemma {:induction false} ListsFlip(xs: seq<Packet>, ys: seq<Packet>)
    ensures CompareLists(ys, xs) == CompareLists(xs, ys).Reverse()
    decreases SizeOfAll(xs) + SizeOfAll(ys), 0
  {
    if xs != [] && ys != [] {
      CompareFlip(xs[0], ys[0]);
      ListsFlip(xs[1..], ys[1..]);
    }
  }

  /** Every packet compares `Equal` to itself. */
  lemma {:induction false} CompareReflexive(a: Packet)
    ensures ComparePackets(a, a) == Equal
    decreases Size(a), 1
  {
    if a.List? {
      ListsReflexive(a.items);
    }
  }

  lemma {:induction false} ListsReflexive(xs: seq<Packet>)
    ensures CompareLists(xs, xs) == Equal
    decreases SizeOfAll(xs), 0
  {
    if xs != [] {
      CompareReflexive(xs[0]);
      ListsReflexive(xs[1..]);
    }
  }

  /** A proper prefix comes first. */
  lemma {:induction false} PrefixIsLess(xs: seq<Packet>, ys: seq<Packet>)
    requires ys != []
    ensures CompareLists(xs, xs + ys) == Less
    decreases |xs|
  {
    if xs != [] {
      CompareReflexive(xs[0]);
      assert (xs + ys)[0] == xs[0] && (xs + ys)[1..] == xs[1..] + ys;
      PrefixIsLess(xs[1..], ys);
    }
  }

  /** The packet as a list: an integer is wrapped in a list of its own. */
  function AsList(p: Packet): seq<Packet>
  {
    match p
    case Value(_) => [p]
    case List(xs) => xs
  }

  /** Every comparison is a comparison of lists once integers are wrapped, even that of two integers. */
  lemma CompareAsLists(a: Packet, b: Packet)
    ensures ComparePackets(a, b) == CompareLists(AsList(a), AsList(b))
  {
    if a.Value? && b.Value? {
      assert CompareLists([a], [b]) == ComparePackets(a, b) by {
        assert [a][1..] == [] && [b][1..] == [];
      }
    }
  }

  /** "Not after" is transitive, and the outer pair is `Equal` only when both steps are. */
  lemma {:induction false} CompareTransitive(a: Packet, b: Packet, c: Packet)
    requires ComparePackets(a, b) != Greater && ComparePackets(b, c) != Greater
    ensures ComparePackets(a, c) != Greater
    ensures ComparePackets(a, c) == Equal ==> ComparePackets(a, b) == Equal && ComparePackets(b, c) == Equal
    decreases Size(a) + Size(b) + Size(c), 1
  {
    if !(a.Value? && b.Value? && c.Value?) {
      CompareAsLists(a, b);
      CompareAsLists(b, c);
      CompareAsLists(a, c);
      ListsTransitive(AsList(a), AsList(b), AsList(c));
    }
  }

  lemma {:induction false} ListsTransitive(xs: seq<Packet>, ys: seq<Packet>, zs: seq<Packet>)
    requires CompareLists(xs, ys) != Greater && CompareLists(ys, zs) != Greater
    ensures CompareLists(xs, zs) != Greater
    ensures CompareLists(xs, zs) == Equal ==> CompareLists(xs, ys) == Equal && CompareLists(ys, zs) == Equal
    decreases SizeOfAll(xs) + SizeOfAll(ys) + SizeOfAll(zs), 0
  {
    if xs != [] && ys != [] && zs != [] {
      CompareTransitive(xs[0], ys[0], zs[0]);
      if ComparePackets(xs[0], zs[0]) == Equal {
        ListsTransitive(xs[1..], ys[1..], zs[1..]);
      }
    }
  }

  /** `Display`: integers in decimal, lists as `[a,b,…]`. */
  function Show(p: Packet): string
    decreases p
  {
    match p
    case Value(v) => ShowNat(v)
    case List(xs) => "[" + ShowItems(xs) + "]"
  }

  function ShowItems(xs: seq<Packet>): string
    decreases xs
  {
    if xs == [] then "" else Show(xs[0]) + ShowCommas(xs[1..])
  }

  /** Each item with the comma before it. */
  function ShowCommas(xs: seq<Packet>): string
    decreases xs
  {
    if xs == [] then "" else "," + Show(xs[0]) + ShowCommas(xs[1..])
  }

  /** `rest` is what remains of `s` once a prefix of it is read. */
  predicate Leaves(s: string, rest: string)
  {
    |rest| <= |s| && s[|s| - |rest|..] == rest
  }

  lemma LeavesTransitive(s: string, t: string, u: string)
    requires Leaves(s, t) && Leaves(t, u)
    ensures Leaves(s, u)
  {
    assert s[|s| - |u|..] == s[|s| - |t|..][|t| - |u|..];
  }

  /** `packet_data_value` or else `packet`, as `alt` tries them. */
  function ParseElement(s: string): (r: Option<(Packet, string)>)
    ensures r.Some? ==> |r.value.1| < |s| && Leaves(s, r.value.1)
    decreases |s|, 1
  {
    match ParseUnsignedPrefix(s, U32Max)
    case Some((v, rest)) => Some((Value(v), rest))
    case None => ParsePacket(s)
  }

  /** `packet`: a bracket, items separated by commas (possibly none), a closing bracket. */
  function ParsePacket(s: string): (r: Option<(Packet, string)>)
    ensures r.Some? ==> |r.value.1| < |s|
    ensures r.Some? ==> r.value.0.List? && s[0] == '[' && Leaves(s, r.value.1) && s[|s| - |r.value.1| - 1] == ']'
    ensures s == [] || s[0] != '[' ==> r.None?
    decreases |s|, 0
  {
    if s == [] || s[0] != '[' then None
    else
      var first := ParseElement(s[1..]);
      var items: Option<(seq<Packet>, string)> :=
        if first.None? then Some(([], s[1..])) else ParseCommas(first.value.1, [first.value.0]);
      match items
      case None => None
      case Some((xs, rest)) =>
        if rest != [] && rest[0] == ']' then
          assert Leaves(s[1..], rest) by {
            if first.Some? { LeavesTransitive(s[1..], first.value.1, rest); }
          }
          assert Leaves(s, rest) by { LeavesTransitive(s, s[1..], rest); }
          assert Leaves(rest, rest[1..]);
          LeavesTransitive(s, rest, rest[1..]);
          Some((List(xs), rest[1..]))
        else None
  }

  /** The rest of `separated_list0`: while a comma is followed by an item, take it; stop before a comma that is not. */
  function ParseCommas(s: string, acc: seq<Packet>): (r: Option<(seq<Packet>, string)>)
    ensures r.Some? ==> |r.value.1| <= |s| && Leaves(s, r.value.1)
    decreases |s|, 2
  {
    if s == [] || s[0] != ',' then Some((acc, s))
    else
      match ParseElement(s[1..])
      case None => Some((acc, s))
      case Some((x, rest)) =>
        var r := ParseCommas(rest, acc + [x]);
        if r.Some? then
          LeavesTransitive(s, s[1..], rest);
          LeavesTransitive(s, rest, r.value.1);
          r
        else r
  }

  /** Every integer fits in a `u32`, as the parser demands. */
  predicate Fits(p: Packet)
    decreases p
  {
    match p
    case Value(v) => v <= U32Max
    case List(xs) => forall i :: 0 <= i < |xs| ==> Fits(xs[i])
  }

  /** What may follow a printed packet: nothing, a comma, a closing bracket or a line break. */
  predicate Follows(rest: string)
  {
    rest == [] || rest[0] in ",]\n"
  }

  /** A printed packet parses back, leaving what followed it. */
  lemma {:induction false} ParseShow(p: Packet, rest: string)
    requires Fits(p) && Follows(rest)
    ensures ParseElement(Show(p) + rest) == Some((p, rest))
    decreases Size(p), 1
  {
    match p
    case Value(v) =>
      ParseUnsignedShow(v, rest, U32Max);
    case List(xs) =>
      var s := Show(p) + rest;
      assert ParseUnsignedPrefix(s, U32Max).None? by {
        assert s[0] == '[';
      }
      ParseShowList(xs, rest);
  }

  /** A printed list parses back as a packet, leaving what followed it. */
  lemma {:induction false} ParseShowList(xs: seq<Packet>, rest: string)
    requires Fits(List(xs)) && Follows(rest)
    ensures ParsePacket(Show(List(xs)) + rest) == Some((List(xs), rest))
    decreases Size(List(xs)), 0
  {
    if xs == [] {
      ParseShowEmpty(rest);
    } else {
      var tail := ShowCommas(xs[1..]) + "]" + rest;
      assert Follows(tail) by {
        if xs[1..] == [] {
          assert tail[0] == ']';
        } else {
          assert tail[0] == ',';
        }
      }
      ParseShow(xs[0], tail);
      ParseShowCommas(xs, 1, rest);
      ParseShowCons(xs, rest);
    }
  }

  /** `[]` parses as the empty list. */
  lemma ParseShowEmpty(rest: string)
    ensures ParsePacket(Show(List([])) + rest) == Some((List([]), rest))
  {
    var s := Show(List([])) + rest;
    var t := "]" + rest;
    assert ShowItems([]) == "";
    assert s[0] == '[' && s[1..] == t;
    assert ParseUnsignedPrefix(t, U32Max).None? by {
      assert t[0] == ']';
    }
    assert ParsePacket(t).None? by {
      assert t[0] == ']';
    }
  }

  /** A printed non-empty list is a bracket, its first item, then the commas and the rest. */
  lemma ShowListSplit(xs: seq<Packet>, rest: string)
    requires xs != []
    ensures (Show(List(xs)) + rest)[0] == '['
    ensures (Show(List(xs)) + rest)[1..] == Show(xs[0]) + (ShowCommas(xs[1..]) + "]" + rest)
  {
    assert ShowItems(xs) == Show(xs[0]) + ShowCommas(xs[1..]);
  }

  /** A printed non-empty list parses back once its first item and the commas after it do. */
  lemma ParseShowCons(xs: seq<Packet>, rest: string)
    requires xs != []
    requires ParseElement(Show(xs[0]) + (ShowCommas(xs[1..]) + "]" + rest)) == Some((xs[0], ShowCommas(xs[1..]) + "]" + rest))
    requires ParseCommas(ShowCommas(xs[1..]) + "]" + rest, xs[..1]) == Some((xs, "]" + rest))
    ensures ParsePacket(Show(List(xs)) + rest) == Some((List(xs), rest))
  {
    var s := Show(List(xs)) + rest;
    var tail := ShowCommas(xs[1..]) + "]" + rest;
    var close := "]" + rest;
    ShowListSplit(xs, rest);
    assert xs[..1] == [xs[0]];
    assert ParseElement(s[1..]) == Some((xs[0], tail));
    assert ParseCommas(tail, [xs[0]]) == Some((xs, close));
    assert close[0] == ']' && close[1..] == rest;
  }

  /** The commas and items after the first `k` parse back, leaving the closing bracket. */
  lemma {:induction false} ParseShowCommas(xs: seq<Packet>, k: nat, rest: string)
    requires 1 <= k <= |xs| && (forall i :: 0 <= i < |xs| ==> Fits(xs[i])) && Follows(rest)
    ensures ParseCommas(ShowCommas(xs[k..]) + "]" + rest, xs[..k]) == Some((xs, "]" + rest))
    decreases SizeOfAll(xs[k..]), 0
  {
    if k == |xs| {
      assert xs[k..] == [] && xs[..k] == xs;
      assert ShowCommas(xs[k..]) + "]" + rest == "]" + rest;
    } else {
      var tail := ShowCommas(xs[k + 1..]) + "]" + rest;
      assert Follows(tail) by {
        if xs[k + 1..] == [] {
          assert tail[0] == ']';
        } else {
          assert tail[0] == ',';
        }
      }
      ParseShow(xs[k], tail);
      ParseShowCommas(xs, k + 1, rest);
      ParseCommaStep(xs, k, rest);
    }
  }

  /** One comma and item parse back once the item and the commas after it do. */
  lemma ParseCommaStep(xs: seq<Packet>, k: nat, rest: string)
    requires 1 <= k < |xs|
    requires ParseElement(Show(xs[k]) + (ShowCommas(xs[k + 1..]) + "]" + rest)) == Some((xs[k], ShowCommas(xs[k + 1..]) + "]" + rest))
    requires ParseCommas(ShowCommas(xs[k + 1..]) + "]" + rest, xs[..k + 1]) == Some((xs, "]" + rest))
    ensures ParseCommas(ShowCommas(xs[k..]) + "]" + rest, xs[..k]) == Some((xs, "]" + rest))
  {
    var tail := ShowCommas(xs[k + 1..]) + "]" + rest;
    ShowCommasStep(xs, k, rest);
    assert xs[..k] + [xs[k]] == xs[..k + 1];
    ParseCommasUnfold(Show(xs[k]) + tail, xs[..k], xs[k], tail);
  }

  /** The commas from item `k` on are a comma, item `k`, and the commas after it. */
  lemma ShowCommasStep(xs: seq<Packet>, k: nat, rest: string)
    requires k < |xs|
    ensures ShowCommas(xs[k..]) + "]" + rest == "," + (Show(xs[k]) + (ShowCommas(xs[k + 1..]) + "]" + rest))
  {
    assert xs[k..][0] == xs[k] && xs[k..][1..] == xs[k + 1..];
  }

  /** A comma followed by an item: the item joins the list and the reading goes on after it. */
  lemma ParseCommasUnfold(s: string, acc: seq<Packet>, x: Packet, rest: string)
    requires ParseElement(s) == Some((x, rest))
    ensures ParseCommas("," + s, acc) == ParseCommas(rest, acc + [x])
  {
    assert ("," + s)[1..] == s;
  }

  /** The one-based indices of the pairs in the right order, the first numbered `k + 1`. */
  function IndexSum(pairs: seq<(Packet, Packet)>, k: nat): nat
    decreases |pairs|
  {
    if pairs == [] then 0
    else (if ComparePackets(pairs[0].0, pairs[0].1) == Less then k + 1 else 0) + IndexSum(pairs[1..], k + 1)
  }

  /** The sum of the 1-based indexes of the pairs among the first `n` that are in the right order. */
  ghost function RightOrderSum(pairs: seq<(Packet, Packet)>, n: nat): nat
    requires n <= |pairs|
  {
    if n == 0 then 0
    else RightOrderSum(pairs, n - 1) + (if ComparePackets(pairs[n - 1].0, pairs[n - 1].1) == Less then n else 0)
  }

  /** Counting from index `m` onwards completes the sum of the indexes before `m`. */
  lemma {:induction false} IndexSumCompletes(pairs: seq<(Packet, Packet)>, m: nat)
    requires m <= |pairs|
    ensures IndexSum(pairs[m..], m) + RightOrderSum(pairs, m) == RightOrderSum(pairs, |pairs|)
    decreases |pairs| - m
  {
    if m < |pairs| {
      IndexSumCompletes(pairs, m + 1);
      assert pairs[m..][1..] == pairs[m + 1..];
    }
  }

  /** `solve_part1`: the sum of the 1-based indexes of the pairs in the right order. */
  function SolvePart1(pairs: seq<(Packet, Packet)>): (r: nat)
    ensures r == RightOrderSum(pairs, |pairs|)
  {
    IndexSumCompletes(pairs, 0);
    assert pairs[0..] == pairs;
    IndexSum(pairs, 0)
  }

  function Swapped(pairs: seq<(Packet, Packet)>): seq<(Packet, Packet)>
  {
    seq(|pairs|, i requires 0 <= i < |pairs| => (pairs[i].1, pairs[i].0))
  }

  /** When no pair compares `Equal`, each index is counted either as given or with the pairs swapped. */
  lemma {:induction false} IndexSumSwapped(pairs: seq<(Packet, Packet)>, k: nat)
    requires forall i :: 0 <= i < |pairs| ==> ComparePackets(pairs[i].0, pairs[i].1) != Equal
    ensures 2 * (IndexSum(pairs, k) + IndexSum(Swapped(pairs), k)) == |pairs| * (2 * k + |pairs| + 1)
    decreases |pairs|
  {
    if pairs != [] {
      CompareFlip(pairs[0].0, pairs[0].1);
      assert Swapped(pairs)[1..] == Swapped(pairs[1..]);
      IndexSumSwapped(pairs[1..], k + 1);
      TriangleStep(|pairs|, k);
    }
  }

  lemma TriangleStep(n: nat, k: nat)
    requires n >= 1
    ensures n * (2 * k + n + 1) == (n - 1) * (2 * (k + 1) + (n - 1) + 1) + 2 * (k + 1)
  {
  }

  /** Part 1 of the pairs plus part 1 of the pairs swapped is 1 + 2 + … + n when no pair compares `Equal`. */
  lemma Part1Swapped(pairs: seq<(Packet, Packet)>)
    requires forall i :: 0 <= i < |pairs| ==> ComparePackets(pairs[i].0, pairs[i].1) != Equal
    ensures 2 * (SolvePart1(pairs) + SolvePart1(Swapped(pairs))) == |pairs| * (|pairs| + 1)
  {
    IndexSumSwapped(pairs, 0);
  }

  /** `[[2]]` and `[[6]]` */
  const Dividers: seq<Packet> := [List([List([Value(2)])]), List([List([Value(6)])])]

  /** `dividers.contains(packet)`, with packet equality. */
  predicate IsDivider(p: Packet)
  {
    PacketEq(Dividers[0], p) || PacketEq(Dividers[1], p)
  }

  /** Sorted by `cmp`: no packet comes after a later one. */
  predicate Sorted(s: seq<Packet>)
  {
    forall i, j :: 0 <= i < j < |s| ==> ComparePackets(s[i], s[j]) != Greater
  }

  /** Places `x` after every packet not after it. */
  function Insert(x: Packet, s: seq<Packet>): seq<Packet>
  {
    if s == [] then [x]
    else if ComparePackets(x, s[0]) == Less then [x] + s
    else [s[0]] + Insert(x, s[1..])
  }

  /** A packet not after any of sorted packets may lead them. */
  lemma SortedCons(y: Packet, t: seq<Packet>)
    requires Sorted(t)
    requires forall j :: 0 <= j < |t| ==> ComparePackets(y, t[j]) != Greater
    ensures Sorted([y] + t)
  {
    var r := [y] + t;
    assert forall j :: 1 <= j < |r| ==> r[j] == t[j - 1];
  }

  /** A packet before the first of sorted packets is before all of them. */
  lemma InsertFront(x: Packet, s: seq<Packet>)
    requires Sorted(s) && s != [] && ComparePackets(x, s[0]) == Less
    ensures Sorted([x] + s)
  {
    forall j | 0 <= j < |s|
      ensures ComparePackets(x, s[j]) != Greater
    {
      if j > 0 {
        CompareTransitive(x, s[0], s[j]);
      }
    }
    SortedCons(x, s);
  }

  /** The first of sorted packets may lead the others with a packet not before it inserted. */
  lemma InsertAfterHead(x: Packet, s: seq<Packet>, t: seq<Packet>)
    requires Sorted(s) && s != [] && ComparePackets(x, s[0]) != Less
    requires Sorted(t) && multiset(t) == multiset(s[1..]) + multiset{x}
    ensures Sorted([s[0]] + t) && multiset([s[0]] + t) == multiset(s) + multiset{x}
  {
    assert s == [s[0]] + s[1..];
    CompareFlip(x, s[0]);
    forall j | 0 <= j < |t|
      ensures ComparePackets(s[0], t[j]) != Greater
    {
      assert t[j] in multiset(t);
      if t[j] != x {
        assert t[j] in multiset(s[1..]);
        var k :| 0 <= k < |s[1..]| && s[1..][k] == t[j];
        assert s[k + 1] == t[j];
      }
    }
    SortedCons(s[0], t);
  }

  lemma {:induction false} InsertSorted(x: Packet, s: seq<Packet>)
    requires Sorted(s)
    ensures Sorted(Insert(x, s)) && multiset(Insert(x, s)) == multiset(s) + multiset{x}
  {
    if s != [] {
      if ComparePackets(x, s[0]) == Less {
        InsertFront(x, s);
      } else {
        InsertSorted(x, s[1..]);
        InsertAfterHead(x, s, Insert(x, s[1..]));
      }
    }
  }

  /** Insertion sort, each packet placed after those before it that compare `Equal`. */
  function Sort(s: seq<Packet>): seq<Packet>
  {
    if s == [] then [] else Insert(s[|s| - 1], Sort(s[..|s| - 1]))
  }

  lemma {:induction false} SortSorts(s: seq<Packet>)
    ensures Sorted(Sort(s)) && multiset(Sort(s)) == multiset(s)
  {
    if s != [] {
      SortSorts(s[..|s| - 1]);
      InsertSorted(s[|s| - 1], Sort(s[..|s| - 1]));
      assert s == s[..|s| - 1] + [s[|s| - 1]];
    }
  }

  /** `iter().product()` */
  function Product(xs: seq<nat>): nat
  {
    if xs == [] then 1 else xs[0] * Product(xs[1..])
  }

  /** The product of the 1-based places of the dividers among the sorted packets. */
  function DecoderKey(input: seq<Packet>): nat
  {
    Product(Places(IsDivider, Sort(input + Dividers), 0))
  }

  /**
   * `solve_part2`: when no input packet compares `Equal` to a divider, one more than the
   * number of packets before `[[2]]`, times one more than the number before `[[6]]`.
   */
  function SolvePart2(input: seq<Packet>): (r: nat)
    ensures (forall k :: 0 <= k < |input| ==> ComparePackets(input[k], Dividers[0]) != Equal && ComparePackets(input[k], Dividers[1]) != Equal)
      ==> r == (1 + CountLess(input + Dividers, Dividers[0])) * (1 + CountLess(input + Dividers, Dividers[1]))
  {
    Part2Key(input);
    DecoderKey(input)
  }

  /** The decoder key counts the packets before each divider whenever no input packet equals a divider. */
  lemma Part2Key(input: seq<Packet>)
    ensures (forall k :: 0 <= k < |input| ==> ComparePackets(input[k], Dividers[0]) != Equal && ComparePackets(input[k], Dividers[1]) != Equal)
      ==> DecoderKey(input) == (1 + CountLess(input + Dividers, Dividers[0])) * (1 + CountLess(input + Dividers, Dividers[1]))
  {
    if forall k :: 0 <= k < |input| ==> ComparePackets(input[k], Dividers[0]) != Equal && ComparePackets(input[k], Dividers[1]) != Equal {
      Part2Places(input);
    }
  }

  predicate IsLess(x: Packet, y: Packet)
  {
    ComparePackets(x, y) == Less
  }

  /** Whether a packet comes before `x`. */
  function Before(x: Packet): Packet -> bool
  {
    (y: Packet) => IsLess(y, x)
  }

  /** How many packets of `s` come before `x`. */
  function CountLess(s: seq<Packet>, x: Packet): nat
  {
    Count(Before(x), s)
  }

  lemma {:induction false} CountIsSumOf<T>(p: T -> bool, s: seq<T>)
    ensures Count(p, s) == SumOf((y: T) => if p(y) then 1 else 0, s)
  {
    if s != [] {
      CountIsSumOf(p, s[1..]);
    }
  }

  lemma CountPermutation<T>(p: T -> bool, a: seq<T>, b: seq<T>)
    requires multiset(a) == multiset(b)
    ensures Count(p, a) == Count(p, b)
  {
    CountIsSumOf(p, a);
    CountIsSumOf(p, b);
    SumOfPermutation((y: T) => if p(y) then 1 else 0, a, b);
  }

  /** In sorted packets, a packet that no other compares `Equal` to sits after exactly the packets that come before it. */
  lemma PlaceInSorted(s: seq<Packet>, i: nat)
    requires Sorted(s) && i < |s|
    requires forall j :: 0 <= j < |s| && j != i ==> ComparePackets(s[j], s[i]) != Equal
    ensures CountLess(s, s[i]) == i
  {
    var x, u, t := s[i], s[..i], s[i + 1..];
    assert s == u + ([x] + t);
    CountProperties(Before(x), u, [x] + t);
    CountProperties(Before(x), [x], t);
    forall j | 0 <= j < |u|
      ensures Before(x)(u[j])
    {
      assert u[j] == s[j];
    }
    CompareReflexive(x);
    assert !Before(x)([x][0]);
    forall j | 0 <= j < |t|
      ensures !Before(x)(t[j])
    {
      assert t[j] == s[i + 1 + j];
      CompareFlip(x, s[i + 1 + j]);
    }
    assert Count(Before(x), u) == |u|;
    CountProperties(Before(x), t, []);
    assert Count(Before(x), t) == 0;
    assert [x][1..] == [];
    assert Count(Before(x), [x]) == 0;
  }

  lemma ProductOfTwo(a: nat, b: nat)
    ensures Product([a, b]) == a * b
  {
    assert [a, b][1..] == [b];
    assert [b][1..] == [];
    assert Product([b]) == b;
  }

  /** `[[2]]` comes before `[[6]]`. */
  lemma DividersOrdered()
    ensures ComparePackets(Dividers[0], Dividers[1]) == Less
    ensures ComparePackets(Dividers[1], Dividers[0]) == Greater
  {
    CompareFlip(Dividers[0], Dividers[1]);
  }

  /** In a rearrangement of the input and the dividers, where no input packet compares `Equal` to a divider, each divider is compared `Equal` only at its own index, and the dividers are found only there. */
  lemma DividerAlone(input: seq<Packet>, s: seq<Packet>, i: nat, j: nat, m: nat)
    requires forall k :: 0 <= k < |input| ==> ComparePackets(input[k], Dividers[0]) != Equal && ComparePackets(input[k], Dividers[1]) != Equal
    requires multiset(s) == multiset(input + Dividers)
    requires i < |s| && j < |s| && m < |s| && s[i] == Dividers[0] && s[j] == Dividers[1]
    ensures m != i ==> ComparePackets(s[m], Dividers[0]) != Equal
    ensures m != j ==> ComparePackets(s[m], Dividers[1]) != Equal
    ensures IsDivider(s[m]) <==> m == i || m == j
  {
    var all := input + Dividers;
    var d2, d6 := Dividers[0], Dividers[1];
    DividersOrdered();
    CompareReflexive(d2);
    CompareReflexive(d6);
    assert multiset(all) == multiset(input) + multiset{d2, d6};
    assert d2 !in input && d6 !in input;
    assert multiset(s)[d2] == 1 && multiset(s)[d6] == 1;
    assert s[m] in multiset(all);
    var k :| 0 <= k < |all| && all[k] == s[m];
    assert k >= |input| ==> s[m] == d2 || s[m] == d6;
    Occurrences(s, i, m);
    Occurrences(s, j, m);
    EqIsCompareEqual(d2, s[m]);
    EqIsCompareEqual(d6, s[m]);
    CompareFlip(d2, s[m]);
    CompareFlip(d6, s[m]);
  }

  /** In sorted packets `[[2]]` comes before `[[6]]`. */
  lemma DividersInOrder(s: seq<Packet>, i: nat, j: nat)
    requires Sorted(s) && i < |s| && j < |s| && s[i] == Dividers[0] && s[j] == Dividers[1]
    ensures i < j
  {
    DividersOrdered();
  }

  /** In sorted packets where each divider alone compares `Equal` to itself, a divider's index counts the packets before it. */
  lemma DividerIndexes(all: seq<Packet>, s: seq<Packet>, i: nat, j: nat)
    requires Sorted(s) && multiset(s) == multiset(all)
    requires i < |s| && j < |s| && s[i] == Dividers[0] && s[j] == Dividers[1]
    requires forall m :: 0 <= m < |s| ==> (m != i ==> ComparePackets(s[m], Dividers[0]) != Equal) && (m != j ==> ComparePackets(s[m], Dividers[1]) != Equal)
    ensures CountLess(all, Dividers[0]) == i && CountLess(all, Dividers[1]) == j
  {
    PlaceInSorted(s, i);
    PlaceInSorted(s, j);
    CountPermutation(Before(Dividers[0]), s, all);
    CountPermutation(Before(Dividers[1]), s, all);
  }

  /** The decoder key of packets where the dividers stand alone at `i` and `j`. */
  lemma KeyOfPlaces(s: seq<Packet>, i: nat, j: nat)
    requires i < j < |s|
    requires forall m :: 0 <= m < |s| ==> (IsDivider(s[m]) <==> m == i || m == j)
    ensures Product(Places(IsDivider, s, 0)) == (i + 1) * (j + 1)
  {
    PlacesOfTwo(IsDivider, s, i, j);
    ProductOfTwo(i + 1, j + 1);
  }

  /** Each divider stands alone in a rearrangement of the input and the dividers. */
  lemma DividersAlone(input: seq<Packet>, s: seq<Packet>, i: nat, j: nat)
    requires forall k :: 0 <= k < |input| ==> ComparePackets(input[k], Dividers[0]) != Equal && ComparePackets(input[k], Dividers[1]) != Equal
    requires multiset(s) == multiset(input + Dividers)
    requires i < |s| && j < |s| && s[i] == Dividers[0] && s[j] == Dividers[1]
    ensures forall m :: 0 <= m < |s| ==> (m != i ==> ComparePackets(s[m], Dividers[0]) != Equal) && (m != j ==> ComparePackets(s[m], Dividers[1]) != Equal)
    ensures forall m :: 0 <= m < |s| ==> (IsDivider(s[m]) <==> m == i || m == j)
  {
    forall m | 0 <= m < |s|
      ensures (m != i ==> ComparePackets(s[m], Dividers[0]) != Equal) && (m != j ==> ComparePackets(s[m], Dividers[1]) != Equal)
      ensures IsDivider(s[m]) <==> m == i || m == j
    {
      DividerAlone(input, s, i, j, m);
    }
  }

  /** Part 2 is the product of one more than the counts, once the counts are known to be the dividers' indexes. */
  lemma KeyFromCounts(input: seq<Packet>, s: seq<Packet>, i: nat, j: nat)
    requires s == Sort(input + Dividers)
    requires Product(Places(IsDivider, s, 0)) == (i + 1) * (j + 1)
    requires CountLess(input + Dividers, Dividers[0]) == i && CountLess(input + Dividers, Dividers[1]) == j
    ensures DecoderKey(input) == (1 + CountLess(input + Dividers, Dividers[0])) * (1 + CountLess(input + Dividers, Dividers[1]))
  {
  }

  /** The dividers, at `i` and `j` in the sorted packets, give the decoder key and sit after the packets before them. */
  lemma DividersPlaced(input: seq<Packet>, s: seq<Packet>, i: nat, j: nat)
    requires forall k :: 0 <= k < |input| ==> ComparePackets(input[k], Dividers[0]) != Equal && ComparePackets(input[k], Dividers[1]) != Equal
    requires Sorted(s) && multiset(s) == multiset(input + Dividers)
    requires i < |s| && j < |s| && s[i] == Dividers[0] && s[j] == Dividers[1]
    ensures Product(Places(IsDivider, s, 0)) == (i + 1) * (j + 1)
    ensures CountLess(input + Dividers, Dividers[0]) == i && CountLess(input + Dividers, Dividers[1]) == j
  {
    DividersAlone(input, s, i, j);
    DividerIndexes(input + Dividers, s, i, j);
    DividersInOrder(s, i, j);
    KeyOfPlaces(s, i, j);
  }

  /** With no packet of the input comparing `Equal` to a divider, part 2 multiplies one more than the number of packets before each divider. */
  lemma Part2Places(input: seq<Packet>)
    requires forall k :: 0 <= k < |input| ==> ComparePackets(input[k], Dividers[0]) != Equal && ComparePackets(input[k], Dividers[1]) != Equal
    ensures DecoderKey(input) == (1 + CountLess(input + Dividers, Dividers[0])) * (1 + CountLess(input + Dividers, Dividers[1]))
  {
    var all := input + Dividers;
    var s := Sort(all);
    SortSorts(all);
    assert Dividers[0] in multiset(all) && Dividers[1] in multiset(all) by {
      assert all[|input|] == Dividers[0] && all[|input| + 1] == Dividers[1];
    }
    var i :| 0 <= i < |s| && s[i] == Dividers[0];
    var j :| 0 <= j < |s| && s[j] == Dividers[1];
    DividersPlaced(input, s, i, j);
    KeyFromCounts(input, s, i, j);
  }

  function V(n: nat): Packet { Value(n) }
  function L(xs: seq<Packet>): Packet { List(xs) }

  /** The eight pairs of the worked example. */
  const ExamplePairs: seq<(Packet, Packet)> := [
    (L([V(1), V(1), V(3), V(1), V(1)]), L([V(1), V(1), V(5), V(1), V(1)])),
    (L([L([V(1)]), L([V(2), V(3), V(4)])]), L([L([V(1)]), V(4)])),
    (L([V(9)]), L([L([V(8), V(7), V(6)])])),
    (L([L([V(4), V(4)]), V(4), V(4)]), L([L([V(4), V(4)]), V(4), V(4), V(4)])),
    (L([V(7), V(7), V(7), V(7)]), L([V(7), V(7), V(7)])),
    (L([]), L([V(3)])),
    (L([L([L([])])]), L([L([])])),
    (L([V(1), L([V(2), L([V(3), L([V(4), L([V(5), V(6), V(7)])])])]), V(8), V(9)]),
     L([V(1), L([V(2), L([V(3), L([V(4), L([V(5), V(6), V(0)])])])]), V(8), V(9)]))
  ]

  /** Pairs 1, 2, 4 and 6 of the example are in the right order, the others are not. */
  lemma ExampleComparisons()
    ensures |ExamplePairs| == 8
    ensures ComparePackets(ExamplePairs[0].0, ExamplePairs[0].1) == Less
    ensures ComparePackets(ExamplePairs[1].0, ExamplePairs[1].1) == Less
    ensures ComparePackets(ExamplePairs[2].0, ExamplePairs[2].1) == Greater
    ensures ComparePackets(ExamplePairs[3].0, ExamplePairs[3].1) == Less
    ensures ComparePackets(ExamplePairs[4].0, ExamplePairs[4].1) == Greater
    ensures ComparePackets(ExamplePairs[5].0, ExamplePairs[5].1) == Less
    ensures ComparePackets(ExamplePairs[6].0, ExamplePairs[6].1) == Greater
    ensures ComparePackets(ExamplePairs[7].0, ExamplePairs[7].1) == Greater
  {
    ExamplePair0();
    ExamplePair1();
    ExamplePair2();
    ExamplePair3();
    ExamplePair4();
    ExamplePair5();
    ExamplePair6();
    ExampleDeepPair();
  }

  /** `[1,1,3,1,1]` against `[1,1,5,1,1]`: the third integers decide. */
  lemma ExamplePair0()
    ensures ComparePackets(ExamplePairs[0].0, ExamplePairs[0].1) == Less
  {
    var a, b := [V(1), V(1), V(3), V(1), V(1)], [V(1), V(1), V(5), V(1), V(1)];
    assert CompareLists(a[2..], b[2..]) == Less;
    assert CompareLists(a[1..], b[1..]) == Less;
    assert CompareLists(a, b) == Less;
    assert ExamplePairs[0] == (L(a), L(b));
  }

  /** `[[1],[2,3,4]]` against `[[1],4]`: the 4 is wrapped into a list and 2 comes before it. */
  lemma ExamplePair1()
    ensures ComparePackets(ExamplePairs[1].0, ExamplePairs[1].1) == Less
  {
    var a, b := [L([V(1)]), L([V(2), V(3), V(4)])], [L([V(1)]), V(4)];
    assert CompareLists([V(1)], [V(1)]) == Equal;
    assert ComparePackets(L([V(2), V(3), V(4)]), V(4)) == Less;
    assert CompareLists(a[1..], b[1..]) == Less;
    assert CompareLists(a, b) == Less;
    assert ExamplePairs[1] == (L(a), L(b));
  }

  /** `[9]` against `[[8,7,6]]`: 9 is wrapped and compared with 8. */
  lemma ExamplePair2()
    ensures ComparePackets(ExamplePairs[2].0, ExamplePairs[2].1) == Greater
  {
    var a, b := [V(9)], [L([V(8), V(7), V(6)])];
    assert ComparePackets(V(9), L([V(8), V(7), V(6)])) == Greater;
    assert CompareLists(a, b) == Greater;
    assert ExamplePairs[2] == (L(a), L(b));
  }

  /** `[[4,4],4,4]` against `[[4,4],4,4,4]`: the left list runs out first. */
  lemma ExamplePair3()
    ensures ComparePackets(ExamplePairs[3].0, ExamplePairs[3].1) == Less
  {
    var a, b := [L([V(4), V(4)]), V(4), V(4)], [L([V(4), V(4)]), V(4), V(4), V(4)];
    assert CompareLists([V(4)], [V(4)]) == Equal;
    assert CompareLists([V(4), V(4)], [V(4), V(4)]) == Equal;
    assert CompareLists(a[3..], b[3..]) == Less;
    assert CompareLists(a[2..], b[2..]) == Less;
    assert CompareLists(a[1..], b[1..]) == Less;
    assert CompareLists(a, b) == Less;
    assert ExamplePairs[3] == (L(a), L(b));
  }

  /** `[7,7,7,7]` against `[7,7,7]`: the right list runs out first. */
  lemma ExamplePair4()
    ensures ComparePackets(ExamplePairs[4].0, ExamplePairs[4].1) == Greater
  {
    var a, b := [V(7), V(7), V(7), V(7)], [V(7), V(7), V(7)];
    assert CompareLists(a[3..], b[3..]) == Greater;
    assert CompareLists(a[2..], b[2..]) == Greater;
    assert CompareLists(a[1..], b[1..]) == Greater;
    assert CompareLists(a, b) == Greater;
    assert ExamplePairs[4] == (L(a), L(b));
  }

  /** `[]` against `[3]`: the empty list comes first. */
  lemma ExamplePair5()
    ensures ComparePackets(ExamplePairs[5].0, ExamplePairs[5].1) == Less
  {
    assert ExamplePairs[5] == (L([]), L([V(3)]));
  }

  /** `[[[]]]` against `[[]]`: the inner empty list runs out on the right. */
  lemma ExamplePair6()
    ensures ComparePackets(ExamplePairs[6].0, ExamplePairs[6].1) == Greater
  {
    var a, b := [L([L([])])], [L([])];
    assert CompareLists([L([])], []) == Greater;
    assert CompareLists(a, b) == Greater;
    assert ExamplePairs[6] == (L(a), L(b));
  }

  /** The last pair of the example differs only in its innermost list. */
  lemma ExampleDeepPair()
    ensures ComparePackets(ExamplePairs[7].0, ExamplePairs[7].1) == Greater
  {
    var a5, b5 := [V(5), V(6), V(7)], [V(5), V(6), V(0)];
    assert CompareLists(a5[2..], b5[2..]) == Greater;
    assert CompareLists(a5[1..], b5[1..]) == Greater;
    assert CompareLists(a5, b5) == Greater;
    var a4, b4 := [V(4), L(a5)], [V(4), L(b5)];
    assert CompareLists(a4[1..], b4[1..]) == Greater;
    assert CompareLists(a4, b4) == Greater;
    var a3, b3 := [V(3), L(a4)], [V(3), L(b4)];
    assert CompareLists(a3[1..], b3[1..]) == Greater;
    assert CompareLists(a3, b3) == Greater;
    var a2, b2 := [V(2), L(a3)], [V(2), L(b3)];
    assert CompareLists(a2[1..], b2[1..]) == Greater;
    assert CompareLists(a2, b2) == Greater;
    var a1, b1 := [V(1), L(a2), V(8), V(9)], [V(1), L(b2), V(8), V(9)];
    assert CompareLists(a1[1..], b1[1..]) == Greater;
    assert CompareLists(a1, b1) == Greater;
    assert ExamplePairs[7] == (L(a1), L(b1));
  }

  /** Part 1 of the example is 13. */
  lemma ExamplePart1()
    ensures SolvePart1(ExamplePairs) == 13
  {
    var p := ExamplePairs;
    ExampleComparisons();
    assert p[8..] == [];
    IndexSumStep(p, 7);
    IndexSumStep(p, 6);
    IndexSumStep(p, 5);
    IndexSumStep(p, 4);
    IndexSumStep(p, 3);
    IndexSumStep(p, 2);
    IndexSumStep(p, 1);
    IndexSumStep(p, 0);
    assert p[0..] == p;
  }

  lemma IndexSumStep(pairs: seq<(Packet, Packet)>, k: nat)
    requires k < |pairs|
    ensures IndexSum(pairs[k..], k) == (if ComparePackets(pairs[k].0, pairs[k].1) == Less then k + 1 else 0) + IndexSum(pairs[k + 1..], k + 1)
  {
    assert pairs[k..][1..] == pairs[k + 1..];
  }

  /** A lone integer parses as a value. */
  lemma ExampleValue()
    ensures ParseElement("1") == Some((Value(1), ""))
  {
    ParseUnsignedShow(1, "", U32Max);
  }
}
