/**
 * Day 3, Rucksack Reorganization: a rucksack's items are split into two equal
 * compartments, exactly one item type is in both, and part 1 adds up the
 * priorities of those shared types.
 */
module Day03 {
  import opened Wrappers
  import opened Sums

  predicate IsLower(c: char)
  {
    'a' <= c <= 'z'
  }

  predicate IsUpper(c: char)
  {
    'A' <= c <= 'Z'
  }

  /** `item_type_value`: a to z are 1 to 26, A to Z are 27 to 52, anything else 0. */
  function Priority(c: char): (r: int)
    ensures IsLower(c) <==> 1 <= r <= 26
    ensures IsUpper(c) <==> 27 <= r <= 52
    ensures r == 0 <==> !IsLower(c) && !IsUpper(c)
  {
    if IsLower(c) then c as int - 96
    else if IsUpper(c) then c as int - 38
    else 0
  }

  /** The item type with priority `p`. */
  function ItemOfPriority(p: int): (c: char)
    requires 1 <= p <= 52
    ensures IsLower(c) || IsUpper(c)
  {
    if p <= 26 then (p + 96) as char else (p + 38) as char
  }

  /** Priorities name the 52 item types one to one. */
  lemma PriorityRoundTrip(c: char, p: int)
    ensures 1 <= p <= 52 ==> Priority(ItemOfPriority(p)) == p
    ensures IsLower(c) || IsUpper(c) ==> ItemOfPriority(Priority(c)) == c
  {
  }

  datatype Rucksack = Rucksack(first: string, second: string)

  /** `Rucksack::new`: `split_at(len / 2)`, the second half one longer when the length is odd. */
  function NewRucksack(s: string): (r: Rucksack)
    ensures r.first + r.second == s
    ensures |r.first| == |r.second| || |r.first| + 1 == |r.second|
  {
    Rucksack(s[..|s| / 2], s[|s| / 2..])
  }

  /** `find(|c| s2.contains(c))`: the first item of `s1` that `s2` also holds. */
  function FindShared(s1: string, s2: string): Option<char>
  {
    if s1 == [] then None
    else if s1[0] in s2 then Some(s1[0])
    else FindShared(s1[1..], s2)
  }

  /** `FindShared` finds nothing exactly when no item of `s1` is in `s2`, and otherwise the first one that is. */
  lemma {:induction false} FindSharedSpec(s1: string, s2: string)
    ensures FindShared(s1, s2).None? <==> forall i :: 0 <= i < |s1| ==> s1[i] !in s2
    ensures FindShared(s1, s2).Some? ==> exists i :: 0 <= i < |s1| && s1[i] == FindShared(s1, s2).value && s1[i] in s2 && (forall j :: 0 <= j < i ==> s1[j] !in s2)
  {
    if s1 != [] && s1[0] !in s2 {
      var r := FindShared(s1, s2);
      FindSharedSpec(s1[1..], s2);
      assert forall i :: 1 <= i < |s1| ==> s1[i] == s1[1..][i - 1];
      if r.Some? {
        var i :| 0 <= i < |s1[1..]| && s1[1..][i] == r.value && r.value in s2 && (forall j :: 0 <= j < i ==> s1[1..][j] !in s2);
        assert forall j :: 1 <= j < i + 1 ==> s1[j] == s1[1..][j - 1];
        assert s1[i + 1] == r.value;
      }
    }
  }

  /** A rucksack with some item type in both compartments, the case where `shared_item` does not panic. */
  predicate HasShared(r: Rucksack)
  {
    FindShared(r.first, r.second).Some?
  }

  /** A rucksack has a shared item exactly when some item of its first compartment is in its second. */
  lemma HasSharedIff(r: Rucksack)
    ensures HasShared(r) <==> exists i :: 0 <= i < |r.first| && r.first[i] in r.second
  {
    FindSharedSpec(r.first, r.second);
  }

  /** `Rucksack::shared_item`, which panics when the compartments share nothing. */
  function SharedItem(r: Rucksack): (c: char)
    requires HasShared(r)
    ensures c in r.first && c in r.second
  {
    FindSharedSpec(r.first, r.second);
    FindShared(r.first, r.second).value
  }

  /** When exactly one item type is in both compartments, that is the one found. */
  lemma SharedItemUnique(r: Rucksack, c: char)
    requires c in r.first && c in r.second
    requires forall d :: d in r.first && d in r.second ==> d == c
    ensures HasShared(r) && SharedItem(r) == c
  {
    FindSharedSpec(r.first, r.second);
    var i :| 0 <= i < |r.first| && r.first[i] == c;
  }

  /** The priorities of the shared items, in order. */
  function SharedPriorities(sacks: seq<Rucksack>): (r: seq<int>)
    requires forall k :: 0 <= k < |sacks| ==> HasShared(sacks[k])
    ensures |r| == |sacks|
    ensures forall k :: 0 <= k < |sacks| ==> 0 <= r[k] <= 52 && r[k] == Priority(SharedItem(sacks[k]))
  {
    seq(|sacks|, k requires 0 <= k < |sacks| && HasShared(sacks[k]) => Priority(SharedItem(sacks[k])))
  }

  /** `gen`: one rucksack per input line. */
  function Gen(lines: seq<string>): (r: seq<Rucksack>)
    ensures |r| == |lines|
    ensures forall k :: 0 <= k < |lines| ==> r[k] == NewRucksack(lines[k])
  {
    seq(|lines|, k requires 0 <= k < |lines| => NewRucksack(lines[k]))
  }

  /** `solve_part1`: the sum of the shared items' priorities. */
  function SolvePart1(sacks: seq<Rucksack>): (r: Option<int>)
    requires forall k :: 0 <= k < |sacks| ==> HasShared(sacks[k])
    ensures r.Some? && 0 <= r.value <= 52 * |sacks|
    ensures sacks == [] ==> r == Some(0)
  {
    var ps := SharedPriorities(sacks);
    SumOfBounds(x => x, ps, 0, 52);
    assert SumOf(x => x, ps) == Sum(ps) by {
      SumIsSumOf(ps);
    }
    Some(Sum(ps))
  }

  /** Part 1 adds the first rucksack's shared priority to the rest's total. */
  lemma SolvePart1Cons(sack: Rucksack, rest: seq<Rucksack>)
    requires HasShared(sack)
    requires forall k :: 0 <= k < |rest| ==> HasShared(rest[k])
    ensures forall k :: 0 <= k < |[sack] + rest| ==> HasShared(([sack] + rest)[k])
    ensures SolvePart1([sack] + rest).value == Priority(SharedItem(sack)) + SolvePart1(rest).value
  {
    var all := [sack] + rest;
    assert forall k :: 0 <= k < |all| ==> HasShared(all[k]) by {
      forall k | 0 <= k < |all| ensures HasShared(all[k]) {
        if k > 0 { assert all[k] == rest[k - 1]; }
      }
    }
    assert SharedPriorities(all) == [Priority(SharedItem(sack))] + SharedPriorities(rest);
  }

  /** Part 1 on two batches of rucksacks is the sum of the two totals. */
  lemma {:induction false} SolvePart1Append(a: seq<Rucksack>, b: seq<Rucksack>)
    requires forall k :: 0 <= k < |a| ==> HasShared(a[k])
    requires forall k :: 0 <= k < |b| ==> HasShared(b[k])
    ensures forall k :: 0 <= k < |a + b| ==> HasShared((a + b)[k])
    ensures SolvePart1(a + b).value == SolvePart1(a).value + SolvePart1(b).value
  {
    assert forall k :: 0 <= k < |a + b| ==> HasShared((a + b)[k]) by {
      forall k | 0 <= k < |a + b| ensures HasShared((a + b)[k]) {
        if k < |a| { assert (a + b)[k] == a[k]; } else { assert (a + b)[k] == b[k - |a|]; }
      }
    }
    if a != [] {
      assert a + b == [a[0]] + (a[1..] + b);
      assert a == [a[0]] + a[1..];
      SolvePart1Append(a[1..], b);
      SolvePart1Cons(a[0], a[1..] + b);
      SolvePart1Cons(a[0], a[1..]);
    } else {
      assert a + b == b;
    }
  }

  /** The first item of `s1` found in `s2` is the one `FindShared` returns. */
  lemma FindSharedAt(s1: string, s2: string, i: nat)
    requires i < |s1| && s1[i] in s2
    requires forall j :: 0 <= j < i ==> s1[j] !in s2
    ensures FindShared(s1, s2) == Some(s1[i])
  {
    var r := FindShared(s1, s2);
    FindSharedSpec(s1, s2);
    var k :| 0 <= k < |s1| && s1[k] == r.value && r.value in s2 && (forall j :: 0 <= j < k ==> s1[j] !in s2);
    assert k == i;
  }

  /** The item `FindShared` returns shows the rucksack has a shared item, and is that item. */
  lemma SharedFromFind(r: Rucksack, c: char)
    requires FindShared(r.first, r.second) == Some(c)
    ensures HasShared(r) && SharedItem(r) == c
  {
  }

  /** The priorities the example's shared items have. */
  lemma ExamplePriorities()
    ensures Priority('p') == 16 && Priority('L') == 38 && Priority('P') == 42
    ensures Priority('v') == 22 && Priority('t') == 20 && Priority('s') == 19
  {
  }
  /** The six rucksacks of the example. */
  const ExampleLines: seq<string> := [
    "vJrwpWtwJgWrhcsFMMfFFhFp",
    "jqHRNqRjqzjGDLGLrsFMfFZSrLrFZsSL",
    "PmmdzqPrVvPwwTWBwg",
    "wMqvLMZHhHMvwLHjbvcjnnSBnvTQFn",
    "ttgJtRGJQctTZtZT",
    "CrZsJsPPZsGzwwsLwLmpwMDw"]

  /** A line whose halves are `first` and `second`, where `first[i]` is the first item also in `second`, has `first[i]` as its shared item. */
  lemma SharedOfLine(line: string, first: string, second: string, i: nat, c: char, p: int)
    requires line == first + second && |first| == |second|
    requires i < |first| && first[i] == c && c in second && Priority(c) == p
    requires forall j :: 0 <= j < i ==> first[j] !in second
    ensures NewRucksack(line) == Rucksack(first, second)
    ensures HasShared(NewRucksack(line)) && SharedItem(NewRucksack(line)) == c
    ensures Priority(SharedItem(NewRucksack(line))) == p
  {
    assert line[..|line| / 2] == first && line[|line| / 2..] == second;
    FindSharedAt(first, second, i);
    SharedFromFind(Rucksack(first, second), c);
  }

  lemma ExampleShared0()
    ensures HasShared(NewRucksack(ExampleLines[0])) && SharedItem(NewRucksack(ExampleLines[0])) == 'p'
    ensures Priority(SharedItem(NewRucksack(ExampleLines[0]))) == 16
  {
    var first, second := "vJrwpWtwJgWr", "hcsFMMfFFhFp";
    assert forall j :: 0 <= j < 4 ==> first[j] !in second by {
      assert first[..4] == "vJrw";
      assert forall i :: 0 <= i < |second| ==> second[i] !in "vJrw";
    }
    SharedOfLine(ExampleLines[0], first, second, 4, 'p', 16);
  }

  lemma ExampleShared1()
    ensures HasShared(NewRucksack(ExampleLines[1])) && SharedItem(NewRucksack(ExampleLines[1])) == 'L'
    ensures Priority(SharedItem(NewRucksack(ExampleLines[1]))) == 38
  {
    var first, second := "jqHRNqRjqzjGDLGL", "rsFMfFZSrLrFZsSL";
    assert forall j :: 0 <= j < 13 ==> first[j] !in second by {
      assert first[..13] == "jqHRNqRjqzjGD";
      assert forall i :: 0 <= i < |second| ==> second[i] !in "jqHRNqRjqzjGD";
    }
    SharedOfLine(ExampleLines[1], first, second, 13, 'L', 38);
  }

  lemma ExampleShared2()
    ensures HasShared(NewRucksack(ExampleLines[2])) && SharedItem(NewRucksack(ExampleLines[2])) == 'P'
    ensures Priority(SharedItem(NewRucksack(ExampleLines[2]))) == 42
  {
    SharedOfLine(ExampleLines[2], "PmmdzqPrV", "vPwwTWBwg", 0, 'P', 42);
  }

  lemma ExampleShared3()
    ensures HasShared(NewRucksack(ExampleLines[3])) && SharedItem(NewRucksack(ExampleLines[3])) == 'v'
    ensures Priority(SharedItem(NewRucksack(ExampleLines[3]))) == 22
  {
    var first, second := "wMqvLMZHhHMvwLH", "jbvcjnnSBnvTQFn";
    assert forall j :: 0 <= j < 3 ==> first[j] !in second by {
      assert first[..3] == "wMq";
      assert forall i :: 0 <= i < |second| ==> second[i] !in "wMq";
    }
    SharedOfLine(ExampleLines[3], first, second, 3, 'v', 22);
  }

  lemma ExampleShared4()
    ensures HasShared(NewRucksack(ExampleLines[4])) && SharedItem(NewRucksack(ExampleLines[4])) == 't'
    ensures Priority(SharedItem(NewRucksack(ExampleLines[4]))) == 20
  {
    SharedOfLine(ExampleLines[4], "ttgJtRGJ", "QctTZtZT", 0, 't', 20);
  }

  lemma ExampleShared5()
    ensures HasShared(NewRucksack(ExampleLines[5])) && SharedItem(NewRucksack(ExampleLines[5])) == 's'
    ensures Priority(SharedItem(NewRucksack(ExampleLines[5]))) == 19
  {
    var first, second := "CrZsJsPPZsGz", "wwsLwLmpwMDw";
    assert forall j :: 0 <= j < 3 ==> first[j] !in second by {
      assert first[..3] == "CrZ";
      assert forall i :: 0 <= i < |second| ==> second[i] !in "CrZ";
    }
    SharedOfLine(ExampleLines[5], first, second, 3, 's', 19);
  }

  lemma SumSix(a: int, b: int, c: int, d: int, e: int, f: int)
    ensures Sum([a, b, c, d, e, f]) == a + b + c + d + e + f
  {
    assert Sum([f]) == f + Sum([]);
    assert Sum([e, f]) == e + Sum([f]) by { assert [e, f][1..] == [f]; }
    assert Sum([d, e, f]) == d + Sum([e, f]) by { assert [d, e, f][1..] == [e, f]; }
    assert Sum([c, d, e, f]) == c + Sum([d, e, f]) by { assert [c, d, e, f][1..] == [d, e, f]; }
    assert Sum([b, c, d, e, f]) == b + Sum([c, d, e, f]) by { assert [b, c, d, e, f][1..] == [c, d, e, f]; }
    assert Sum([a, b, c, d, e, f]) == a + Sum([b, c, d, e, f]) by { assert [a, b, c, d, e, f][1..] == [b, c, d, e, f]; }
  }

  /** The rucksack on `line` has a shared item, of priority `p`. */
  predicate LinePriority(line: string, p: int)
  {
    HasShared(NewRucksack(line)) && Priority(SharedItem(NewRucksack(line))) == p
  }

  /** `gen` on a first line and the rest. */
  lemma GenCons(lines: seq<string>)
    requires lines != []
    ensures Gen(lines) == [NewRucksack(lines[0])] + Gen(lines[1..])
  {
  }

  /** Part 1 on a first line and the rest, given part 1 on the rest. */
  lemma SolvePart1OfLinesStep(lines: seq<string>, ps: seq<int>)
    requires lines != [] && |ps| == |lines|
    requires LinePriority(lines[0], ps[0])
    requires forall k :: 0 <= k < |Gen(lines[1..])| ==> HasShared(Gen(lines[1..])[k])
    requires SolvePart1(Gen(lines[1..])) == Some(Sum(ps[1..]))
    ensures forall k :: 0 <= k < |Gen(lines)| ==> HasShared(Gen(lines)[k])
    ensures SolvePart1(Gen(lines)) == Some(Sum(ps))
  {
    var sack, rest := NewRucksack(lines[0]), Gen(lines[1..]);
    GenCons(lines);
    SolvePart1Cons(sack, rest);
    assert SolvePart1([sack] + rest).value == Sum(ps);
  }

  /** Lines whose shared items have priorities `ps` make part 1 answer the sum of `ps`. */
  lemma {:induction false} SolvePart1OfLines(lines: seq<string>, ps: seq<int>)
    requires |ps| == |lines|
    requires forall k :: 0 <= k < |lines| ==> LinePriority(lines[k], ps[k])
    ensures forall k :: 0 <= k < |Gen(lines)| ==> HasShared(Gen(lines)[k])
    ensures SolvePart1(Gen(lines)) == Some(Sum(ps))
  {
    if lines != [] {
      assert forall k :: 0 <= k < |lines[1..]| ==> lines[1..][k] == lines[k + 1] && ps[1..][k] == ps[k + 1];
      SolvePart1OfLines(lines[1..], ps[1..]);
      SolvePart1OfLinesStep(lines, ps);
    } else {
      assert Gen(lines) == [] && ps == [];
    }
  }

  /** Six per-line facts, gathered into the form `SolvePart1OfLines` takes. */
  lemma SixLines(lines: seq<string>, ps: seq<int>)
    requires |lines| == 6 && |ps| == 6
    requires LinePriority(lines[0], ps[0])
    requires LinePriority(lines[1], ps[1])
    requires LinePriority(lines[2], ps[2])
    requires LinePriority(lines[3], ps[3])
    requires LinePriority(lines[4], ps[4])
    requires LinePriority(lines[5], ps[5])
    ensures forall k :: 0 <= k < |lines| ==> LinePriority(lines[k], ps[k])
  {
    forall k | 0 <= k < 6
      ensures LinePriority(lines[k], ps[k])
    {
      if k == 0 {} else if k == 1 {} else if k == 2 {} else if k == 3 {} else if k == 4 {} else {}
    }
  }

  /** The example's shared items have priorities 16, 38, 42, 22, 20 and 19, which add up to 157. */
  lemma ExampleSolution()
    ensures forall k :: 0 <= k < |Gen(ExampleLines)| ==> HasShared(Gen(ExampleLines)[k])
    ensures SolvePart1(Gen(ExampleLines)) == Some(157)
  {
    var ps := [16, 38, 42, 22, 20, 19];
    ExampleShared0(); ExampleShared1(); ExampleShared2();
    ExampleShared3(); ExampleShared4(); ExampleShared5();
    SixLines(ExampleLines, ps);
    SolvePart1OfLines(ExampleLines, ps);
    SumSix(16, 38, 42, 22, 20, 19);
  }
}
