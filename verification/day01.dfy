/**
 * Day 1, Calorie Counting: each elf carries a list of calorie counts; part 1 is the
 * largest total, part 2 the sum of the three largest totals.
 */
module Day01 {
  import opened Wrappers
  import opened Text
  import opened Sums

  datatype Elf = Elf(calories: seq<int>)

  /** `Elf::total_calories` */
  function Total(e: Elf): int
  {
    Sum(e.calories)
  }

  /** The total of an elf whose list is two lists end to end is the sum of their totals. */
  lemma TotalSplits(a: seq<int>, b: seq<int>)
    ensures Total(Elf(a + b)) == Total(Elf(a)) + Total(Elf(b))
  {
    SumAppend(a, b);
  }

  /** `Elf::from_str` over the lines of one block: the lines that parse as `i32`, in order. */
  function FromLines(lines: seq<string>): (r: Elf)
    ensures |r.calories| <= |lines|
  {
    if lines == [] then Elf([])
    else
      var rest := FromLines(lines[1..]);
      match ParseI32(lines[0])
      case Some(x) => Elf([x] + rest.calories)
      case None => rest
  }

  /** Every count comes from a line that parses to it, and every line that parses gives its count. */
  lemma {:induction false} FromLinesMembers(lines: seq<string>)
    ensures forall x :: x in FromLines(lines).calories ==> exists l :: l in lines && ParseI32(l) == Some(x)
    ensures forall l :: l in lines && ParseI32(l).Some? ==> ParseI32(l).value in FromLines(lines).calories
  {
    if lines != [] {
      FromLinesMembers(lines[1..]);
      assert lines == [lines[0]] + lines[1..];
      assert forall l :: l in lines[1..] ==> l in lines;
    }
  }

  /** The block of one elf as the puzzle input writes it: each count on its own line. */
  function ShowLines(calories: seq<int>): (r: seq<string>)
    ensures |r| == |calories|
  {
    if calories == [] then [] else [ShowInt(calories[0])] + ShowLines(calories[1..])
  }

  /** Printing each count on its own line and reading the block back gives the same elf. */
  lemma {:induction false} FromLinesShow(calories: seq<int>)
    requires forall i :: 0 <= i < |calories| ==> I32Min <= calories[i] <= I32Max
    ensures FromLines(ShowLines(calories)) == Elf(calories)
  {
    if calories != [] {
      assert forall i :: 0 <= i < |calories[1..]| ==> calories[1..][i] == calories[i + 1];
      FromLinesShow(calories[1..]);
      ShowLinesCons(calories);
    }
  }

  lemma ShowLinesCons(calories: seq<int>)
    requires calories != [] && I32Min <= calories[0] <= I32Max
    requires FromLines(ShowLines(calories[1..])) == Elf(calories[1..])
    ensures FromLines(ShowLines(calories)) == Elf(calories)
  {
    var lines := ShowLines(calories);
    ParseShowI32(calories[0]);
    FromLinesCons(lines, calories[0], ShowLines(calories[1..]), calories[1..]);
    assert calories == [calories[0]] + calories[1..];
  }

  lemma FromLinesCons(lines: seq<string>, x: int, rest: seq<string>, xs: seq<int>)
    requires lines != [] && ParseI32(lines[0]) == Some(x) && lines[1..] == rest && FromLines(rest) == Elf(xs)
    ensures FromLines(lines) == Elf([x] + xs)
  {
  }

  /** Reading two blocks of lines one after the other keeps the counts of both, in order. */
  lemma {:induction false} FromLinesAppend(a: seq<string>, b: seq<string>)
    ensures FromLines(a + b).calories == FromLines(a).calories + FromLines(b).calories
  {
    if a == [] {
      assert a + b == b;
    } else {
      assert (a + b)[0] == a[0] && (a + b)[1..] == a[1..] + b;
      FromLinesAppend(a[1..], b);
    }
  }

  /** A single line gives its count when it parses as an `i32`, and nothing otherwise. */
  lemma FromLinesOne(line: string)
    ensures FromLines([line]).calories == match ParseI32(line) case Some(x) => [x] case None => []
  {
    assert [line][1..] == [];
  }

  /** `Ord for Elf`: elves compare by their totals only. */
  function CompareElves(a: Elf, b: Elf): (r: Ordering)
    ensures r == Equal <==> Total(a) == Total(b)
    ensures r == Less <==> Total(a) < Total(b)
  {
    Compare(Total(a), Total(b))
  }

  /** The elf order is a total preorder: flipping the arguments flips the answer, and it is transitive. */
  lemma CompareElvesOrder(a: Elf, b: Elf, c: Elf)
    ensures CompareElves(b, a) == CompareElves(a, b).Reverse()
    ensures CompareElves(a, b) != Greater && CompareElves(b, c) != Greater ==> CompareElves(a, c) != Greater
  {
  }

  /** `solve_part1`: the largest total, none when there are no elves. */
  function MaxTotal(elves: seq<Elf>): (r: Option<int>)
    ensures r.None? <==> elves == []
    ensures r.Some? ==> (exists i :: 0 <= i < |elves| && Total(elves[i]) == r.value)
    ensures r.Some? ==> forall i :: 0 <= i < |elves| ==> Total(elves[i]) <= r.value
  {
    if elves == [] then None
    else
      match MaxTotal(elves[1..])
      case None => Some(Total(elves[0]))
      case Some(m) =>
        assert forall i :: 1 <= i < |elves| ==> elves[i] == elves[1..][i - 1];
        if Total(elves[0]) >= m then Some(Total(elves[0]))
        else
          var j :| 0 <= j < |elves[1..]| && Total(elves[1..][j]) == m;
          assert elves[j + 1] == elves[1..][j];
          Some(m)
  }

  predicate DescendingTotals(elves: seq<Elf>)
  {
    forall i, j :: 0 <= i <= j < |elves| ==> Total(elves[j]) <= Total(elves[i])
  }

  /** Inserts `e` before the first elf whose total is not greater than its own. */
  function Insert(e: Elf, sorted: seq<Elf>): (r: seq<Elf>)
    requires DescendingTotals(sorted)
    ensures DescendingTotals(r)
    ensures |r| == |sorted| + 1
    ensures multiset(r) == multiset(sorted) + multiset{e}
  {
    if sorted == [] || Total(sorted[0]) <= Total(e) then
      InsertFront(e, sorted);
      [e] + sorted
    else
      var rest := Insert(e, sorted[1..]);
      InsertBehind(e, sorted, rest);
      [sorted[0]] + rest
  }

  lemma InsertFront(e: Elf, sorted: seq<Elf>)
    requires DescendingTotals(sorted) && (sorted == [] || Total(sorted[0]) <= Total(e))
    ensures DescendingTotals([e] + sorted)
  {
    var r := [e] + sorted;
    forall i, j | 0 <= i <= j < |r|
      ensures Total(r[j]) <= Total(r[i])
    {
      if i == 0 && j > 0 {
        assert r[j] == sorted[j - 1];
      } else if i > 0 {
        assert r[i] == sorted[i - 1] && r[j] == sorted[j - 1];
      }
    }
  }

  lemma InsertBehind(e: Elf, sorted: seq<Elf>, rest: seq<Elf>)
    requires DescendingTotals(sorted) && sorted != [] && Total(e) < Total(sorted[0])
    requires DescendingTotals(rest) && multiset(rest) == multiset(sorted[1..]) + multiset{e}
    ensures DescendingTotals([sorted[0]] + rest)
    ensures multiset([sorted[0]] + rest) == multiset(sorted) + multiset{e}
  {
    assert sorted == [sorted[0]] + sorted[1..];
    var r := [sorted[0]] + rest;
    forall k | 0 <= k < |rest|
      ensures Total(rest[k]) <= Total(sorted[0])
    {
      assert rest[k] in multiset(rest);
      if rest[k] != e {
        assert rest[k] in multiset(sorted[1..]);
        var m :| 0 <= m < |sorted[1..]| && sorted[1..][m] == rest[k];
        assert sorted[m + 1] == rest[k];
      }
    }
    forall i, j | 0 <= i <= j < |r|
      ensures Total(r[j]) <= Total(r[i])
    {
      if i == 0 && j > 0 {
        assert r[j] == rest[j - 1];
      } else if i > 0 {
        assert r[i] == rest[i - 1] && r[j] == rest[j - 1];
      }
    }
  }

  /** `sort_by(|a, b| b.cmp(a))`: largest total first. */
  function SortDescending(elves: seq<Elf>): (r: seq<Elf>)
    ensures DescendingTotals(r)
    ensures |r| == |elves|
    ensures multiset(r) == multiset(elves)
  {
    if elves == [] then []
    else
      assert elves == [elves[0]] + elves[1..];
      Insert(elves[0], SortDescending(elves[1..]))
  }

  /** `solve_part2`: the totals of the first three elves once sorted, or of all when fewer. */
  function TopThree(elves: seq<Elf>): (r: Option<int>)
    ensures r.Some?
  {
    var sorted := SortDescending(elves);
    Some(SumOf(Total, sorted[..if |sorted| < 3 then |sorted| else 3]))
  }

  /** The elves' totals, in order. */
  function Totals(elves: seq<Elf>): (r: seq<int>)
    ensures |r| == |elves| && forall i :: 0 <= i < |r| ==> r[i] == Total(elves[i])
  {
    seq(|elves|, i requires 0 <= i < |elves| => Total(elves[i]))
  }

  predicate Descending(xs: seq<int>)
  {
    forall i, j :: 0 <= i <= j < |xs| ==> xs[j] <= xs[i]
  }

  /**
   * `solve_part2` is the sum of the three largest totals: whichever way the totals are
   * arranged from largest to smallest, the first three of them (or all, when fewer) add
   * up to its answer.
   */
  lemma TopThreeOfSortedTotals(elves: seq<Elf>, t: seq<int>)
    requires multiset(t) == multiset(Totals(elves)) && Descending(t)
    ensures TopThree(elves) == Some(Sum(t[..if |t| < 3 then |t| else 3]))
  {
    var s := SortDescending(elves);
    var m := if |s| < 3 then |s| else 3;
    TotalsMultiset(s, elves);
    SortedUnique(Totals(s), t);
    SumOfTotals(s[..m]);
    assert Totals(s[..m]) == Totals(s)[..m];
  }

  /** Two arrangements of the same numbers from largest to smallest are the same. */
  lemma {:induction false} SortedUnique(a: seq<int>, b: seq<int>)
    requires multiset(a) == multiset(b) && Descending(a) && Descending(b)
    ensures a == b
    decreases |a|
  {
    assert |a| == |multiset(a)| == |multiset(b)| == |b|;
    if a != [] {
      SameLargest(a, b);
      SameRest(a, b);
      DescendingTail(a);
      DescendingTail(b);
      SortedUnique(a[1..], b[1..]);
      assert a == [a[0]] + a[1..] && b == [b[0]] + b[1..];
    }
  }

  lemma SameLargest(a: seq<int>, b: seq<int>)
    requires multiset(a) == multiset(b) && Descending(a) && Descending(b) && a != [] && b != []
    ensures a[0] == b[0]
  {
    assert a[0] in multiset(b) && b[0] in multiset(a);
    var i :| 0 <= i < |b| && b[i] == a[0];
    var j :| 0 <= j < |a| && a[j] == b[0];
  }

  lemma SameRest(a: seq<int>, b: seq<int>)
    requires multiset(a) == multiset(b) && a != [] && b != [] && a[0] == b[0]
    ensures multiset(a[1..]) == multiset(b[1..])
  {
    assert a == [a[0]] + a[1..] && b == [b[0]] + b[1..];
    assert multiset(a[1..]) == multiset(a) - multiset{a[0]};
    assert multiset(b[1..]) == multiset(b) - multiset{b[0]};
  }

  lemma DescendingTail(a: seq<int>)
    requires Descending(a) && a != []
    ensures Descending(a[1..])
  {
    forall i, j | 0 <= i <= j < |a| - 1
      ensures a[1..][j] <= a[1..][i]
    {
      assert a[1..][j] == a[j + 1] && a[1..][i] == a[i + 1];
    }
  }

  /** Rearranging the elves rearranges their totals. */
  lemma {:induction false} TotalsMultiset(a: seq<Elf>, b: seq<Elf>)
    requires multiset(a) == multiset(b)
    ensures multiset(Totals(a)) == multiset(Totals(b))
    decreases |a|
  {
    if a == [] {
      assert |b| == |multiset(b)| == 0;
    } else {
      assert a[0] in multiset(b);
      var idx :| 0 <= idx < |b| && b[idx] == a[0];
      var rest := RemoveAt(b, idx);
      RemoveFirst(a, b, idx);
      TotalsMultiset(a[1..], rest);
      TotalsRemoveAt(a, b, idx);
    }
  }

  lemma RemoveFirst(a: seq<Elf>, b: seq<Elf>, idx: nat)
    requires multiset(a) == multiset(b) && a != [] && idx < |b| && b[idx] == a[0]
    ensures multiset(a[1..]) == multiset(RemoveAt(b, idx))
  {
    assert a == [a[0]] + a[1..];
    assert multiset(a[1..]) == multiset(a) - multiset{a[0]};
    RemoveAtMultiset(b, idx);
  }

  lemma TotalsRemoveAt(a: seq<Elf>, b: seq<Elf>, idx: nat)
    requires a != [] && idx < |b| && b[idx] == a[0]
    requires multiset(Totals(a[1..])) == multiset(Totals(RemoveAt(b, idx)))
    ensures multiset(Totals(a)) == multiset(Totals(b))
  {
    var ta, tb := Totals(a), Totals(b);
    assert ta == [ta[0]] + Totals(a[1..]);
    assert Totals(RemoveAt(b, idx)) == RemoveAt(tb, idx);
    RemoveAtMultiset(tb, idx);
    assert tb[idx] == ta[0];
    assert multiset(ta) == multiset{ta[0]} + multiset(Totals(a[1..]));
  }

  lemma {:induction false} SumOfTotals(elves: seq<Elf>)
    ensures SumOf(Total, elves) == Sum(Totals(elves))
  {
    if elves != [] {
      assert Totals(elves)[1..] == Totals(elves[1..]);
      SumOfTotals(elves[1..]);
    }
  }

  /** No three elves carry more together than the three `TopThree` adds up. */
  lemma TopThreeIsLargest(elves: seq<Elf>, i: nat, j: nat, k: nat)
    requires i < j < k < |elves|
    ensures var s := SortDescending(elves);
      Total(s[i]) + Total(s[j]) + Total(s[k]) <= TopThree(elves).value
  {
    var s := SortDescending(elves);
    var top := s[..3];
    assert TopThree(elves).value == SumOf(Total, top);
    assert Total(s[i]) <= Total(s[0]) && Total(s[j]) <= Total(s[1]) && Total(s[k]) <= Total(s[2]);
    SumOfShort(Total, top);
  }

  /** With fewer than three elves, `TopThree` is the total of everyone. */
  lemma TopThreeFew(elves: seq<Elf>)
    requires |elves| < 3
    ensures TopThree(elves).value == SumOf(Total, elves)
  {
    var s := SortDescending(elves);
    assert s[..|s|] == s;
    SumOfPermutation(Total, s, elves);
  }

  const Example := [Elf([1000, 2000, 3000]), Elf([4000]), Elf([5000, 6000]), Elf([7000, 8000, 9000]), Elf([10000])]

  /** The largest example total is the fourth elf's 24000. */
  lemma ExamplePart1()
    ensures MaxTotal(Example) == Some(24000)
  {
    ExampleTotals();
    MaxTotalIs(Example, 3, 24000);
  }

  /** The totals of the five example elves. */
  lemma ExampleTotals()
    ensures Total(Example[0]) == 6000 && Total(Example[1]) == 4000 && Total(Example[2]) == 11000
    ensures Total(Example[3]) == 24000 && Total(Example[4]) == 10000
  {
  }

  /** A total that one elf reaches and no elf exceeds is the largest. */
  lemma MaxTotalIs(elves: seq<Elf>, i: nat, m: int)
    requires i < |elves| && Total(elves[i]) == m
    requires forall j :: 0 <= j < |elves| ==> Total(elves[j]) <= m
    ensures MaxTotal(elves) == Some(m)
  {
    var r := MaxTotal(elves);
    var j :| 0 <= j < |elves| && Total(elves[j]) == r.value;
    assert r.value == m;
  }
}
