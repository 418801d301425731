/**
 * Day 4, Camp Cleanup: each line holds two elves' inclusive ranges of section
 * numbers; part 1 counts the pairs where one range holds the other, part 2 the
 * pairs that share any section.
 */
module Day04 {
  import opened Wrappers
  import opened Text
  import opened Sums

  /** `RangeInclusive<u32>`: empty when `start > end`. */
  datatype Range = Range(start: nat, end: nat)
  {
    predicate Contains(x: nat)
    {
      start <= x <= end
    }

    predicate NonEmpty()
    {
      start <= end
    }
  }

  /** Every section of `b` is a section of `a`. */
  ghost predicate Covers(a: Range, b: Range)
  {
    forall x: nat :: b.Contains(x) ==> a.Contains(x)
  }

  /** `fully_contains`: both ends of one range lie in the other. */
  predicate FullyContains(r1: Range, r2: Range)
  {
    (r1.Contains(r2.start) && r1.Contains(r2.end)) || (r2.Contains(r1.start) && r2.Contains(r1.end))
  }

  /** For non-empty ranges, `FullyContains` means one range's sections are all the other's. */
  lemma FullyContainsMeansCovers(r1: Range, r2: Range)
    requires r1.NonEmpty() && r2.NonEmpty()
    ensures FullyContains(r1, r2) <==> Covers(r1, r2) || Covers(r2, r1)
  {
    if Covers(r1, r2) {
      assert r2.Contains(r2.start) && r2.Contains(r2.end);
    }
    if Covers(r2, r1) {
      assert r1.Contains(r1.start) && r1.Contains(r1.end);
    }
  }

  /** `overlap_at_all`: some end of one range lies in the other. */
  predicate Overlaps(r1: Range, r2: Range)
  {
    r1.Contains(r2.start) || r1.Contains(r2.end) || r2.Contains(r1.start) || r2.Contains(r1.end)
  }

  /** For non-empty ranges, `Overlaps` means some section is in both. */
  lemma OverlapsMeansShared(r1: Range, r2: Range)
    requires r1.NonEmpty() && r2.NonEmpty()
    ensures Overlaps(r1, r2) <==> exists x: nat :: r1.Contains(x) && r2.Contains(x)
  {
    if exists x: nat :: r1.Contains(x) && r2.Contains(x) {
      var x: nat :| r1.Contains(x) && r2.Contains(x);
      if r1.start <= r2.start {
        assert r1.Contains(r2.start);
      } else {
        assert r2.Contains(r1.start);
      }
    }
  }

  /** Both relations are symmetric, and a pair where one holds the other overlaps. */
  lemma ContainsImpliesOverlaps(r1: Range, r2: Range)
    ensures FullyContains(r1, r2) <==> FullyContains(r2, r1)
    ensures Overlaps(r1, r2) <==> Overlaps(r2, r1)
    ensures FullyContains(r1, r2) ==> Overlaps(r1, r2)
  {
  }

  /** The pieces of `pieces` that parse as `u32`, in order. */
  function ParsedNumbers(pieces: seq<string>): (r: seq<nat>)
    ensures |r| <= |pieces|
  {
    if pieces == [] then []
    else
      var rest := ParsedNumbers(pieces[1..]);
      match ParseU32(pieces[0])
      case Some(n) => [n] + rest
      case None => rest
  }

  /** Text `range_from_string` can read: at least two numbers among its dash-separated pieces. */
  predicate IsRangeText(s: string)
  {
    |ParsedNumbers(Split(s, '-'))| >= 2
  }

  /** The index of the first piece that parses as a `u32`; after it come the other numbers. */
  function FirstParsed(pieces: seq<string>): (i: nat)
    requires |ParsedNumbers(pieces)| >= 1
    ensures i < |pieces| && ParseU32(pieces[i]) == Some(ParsedNumbers(pieces)[0])
    ensures forall k :: 0 <= k < i ==> ParseU32(pieces[k]).None?
    ensures ParsedNumbers(pieces[i + 1..]) == ParsedNumbers(pieces)[1..]
  {
    if ParseU32(pieces[0]).Some? then 0
    else
      var i := FirstParsed(pieces[1..]);
      assert pieces[1..][i + 1..] == pieces[i + 2..];
      i + 1
  }

  /** `pieces[i]` and `pieces[j]` are the first two pieces that parse as `u32`s, reading `a` and `b`. */
  predicate FirstTwoNumbers(pieces: seq<string>, i: nat, j: nat, a: nat, b: nat)
  {
    i < j < |pieces| && ParseU32(pieces[i]) == Some(a) && ParseU32(pieces[j]) == Some(b) &&
    forall k :: 0 <= k < j && k != i ==> ParseU32(pieces[k]).None?
  }

  /** `range_from_string`: the first two numbers between dashes. */
  function RangeFromString(s: string): (r: Range)
    requires IsRangeText(s)
    ensures r.start <= U32Max && r.end <= U32Max
    ensures exists i, j :: FirstTwoNumbers(Split(s, '-'), i, j, r.start, r.end)
  {
    var pieces := Split(s, '-');
    var ns := ParsedNumbers(pieces);
    ParsedNumbersBound(pieces);
    var i := FirstParsed(pieces);
    var j := i + 1 + FirstParsed(pieces[i + 1..]);
    assert FirstTwoNumbers(pieces, i, j, ns[0], ns[1]) by {
      forall k | i < k < j
        ensures ParseU32(pieces[k]).None?
      {
        assert pieces[k] == pieces[i + 1..][k - i - 1];
      }
    }
    Range(ns[0], ns[1])
  }

  lemma {:induction false} ParsedNumbersBound(pieces: seq<string>)
    ensures forall i :: 0 <= i < |ParsedNumbers(pieces)| ==> ParsedNumbers(pieces)[i] <= U32Max
  {
    if pieces != [] {
      ParsedNumbersBound(pieces[1..]);
    }
  }

  /** `a-b` reads back as the range from `a` to `b`. */
  lemma RangeTextRoundTrip(a: nat, b: nat)
    requires a <= U32Max && b <= U32Max
    ensures IsRangeText(ShowNat(a) + "-" + ShowNat(b))
    ensures RangeFromString(ShowNat(a) + "-" + ShowNat(b)) == Range(a, b)
  {
    var parts := [ShowNat(a), ShowNat(b)];
    assert '-' !in ShowNat(a) && '-' !in ShowNat(b) by {
      assert !IsDigit('-');
    }
    assert Join(parts, "-") == ShowNat(a) + "-" + ShowNat(b) by {
      assert parts[1..] == [ShowNat(b)];
    }
    SplitJoin(parts, '-');
    ParseShowU32(a);
    ParseShowU32(b);
    assert parts[1..][1..] == [];
  }

  /** Lines `assignment_pair` can read: comma-separated range texts, at least two of them. */
  predicate IsPairLine(s: string)
  {
    var pieces := Split(s, ',');
    |pieces| >= 2 && forall k :: 0 <= k < |pieces| ==> IsRangeText(pieces[k])
  }

  /** `assignment_pair`: the first two comma-separated ranges. */
  function AssignmentPair(s: string): (r: (Range, Range))
    requires IsPairLine(s)
    ensures r.0 == RangeFromString(Split(s, ',')[0]) && r.1 == RangeFromString(Split(s, ',')[1])
  {
    var pieces := Split(s, ',');
    (RangeFromString(pieces[0]), RangeFromString(pieces[1]))
  }

  /** `solve_part1`: how many pairs have one range holding the other. */
  function CountContaining(pairs: seq<(Range, Range)>): (r: nat)
    ensures r <= |pairs|
  {
    Count((p: (Range, Range)) => FullyContains(p.0, p.1), pairs)
  }

  /** `solve_part2`: how many pairs overlap. */
  function CountOverlapping(pairs: seq<(Range, Range)>): (r: nat)
    ensures r <= |pairs|
  {
    Count((p: (Range, Range)) => Overlaps(p.0, p.1), pairs)
  }

  /** Every pair part 1 counts, part 2 counts too. */
  lemma {:induction false} ContainingAtMostOverlapping(pairs: seq<(Range, Range)>)
    ensures CountContaining(pairs) <= CountOverlapping(pairs)
  {
    if pairs != [] {
      ContainingAtMostOverlapping(pairs[1..]);
      ContainsImpliesOverlaps(pairs[0].0, pairs[0].1);
    }
  }

  /** The pairs read from the lines. */
  function Pairs(lines: seq<string>): (r: seq<(Range, Range)>)
    requires forall k :: 0 <= k < |lines| ==> IsPairLine(lines[k])
    ensures |r| == |lines|
    ensures forall k :: 0 <= k < |lines| ==> r[k] == AssignmentPair(lines[k])
  {
    seq(|lines|, k requires 0 <= k < |lines| && IsPairLine(lines[k]) => AssignmentPair(lines[k]))
  }

  const Example := [(Range(2, 4), Range(6, 8)), (Range(2, 3), Range(4, 5)), (Range(5, 7), Range(7, 9)),
                    (Range(2, 8), Range(3, 7)), (Range(6, 6), Range(4, 6)), (Range(2, 6), Range(4, 8))]

  /** Two example pairs have one range holding the other, and four overlap. */
  lemma ExampleCounts()
    ensures CountContaining(Example) == 2
    ensures CountOverlapping(Example) == 4
  {
    var e := Example;
    assert e[3..][1..] == e[4..] && e[4..][1..] == e[5..] && e[5..][1..] == [];
    assert e[1..][1..] == e[2..] && e[2..][1..] == e[3..];
    assert CountContaining(e[5..]) == 0 && CountOverlapping(e[5..]) == 1;
    assert CountContaining(e[4..]) == 1 && CountOverlapping(e[4..]) == 2;
    assert CountContaining(e[3..]) == 2 && CountOverlapping(e[3..]) == 3;
    assert CountContaining(e[2..]) == 2 && CountOverlapping(e[2..]) == 4;
    assert CountContaining(e[1..]) == 2 && CountOverlapping(e[1..]) == 4;
  }
}
