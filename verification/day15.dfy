/**
 * Day 15, Beacon Exclusion Zone: each sensor reports its closest beacon, so no other
 * beacon lies within that Manhattan distance of it. On one row the sensors cover
 * intervals, which are sorted by start and merged; part 1 sums them up on row
 * 2000000, and part 2 looks for the one row of a square where a single cell is left
 * uncovered and reports its tuning frequency.
 */
module Day15 {
  import opened Wrappers
  import opened Text

  /** `Location(i32, i32)` */
  datatype Loc = Loc(x: int, y: int)

  /** `Sensor`: where it is, its closest beacon, and the distance between the two. */
  datatype Sensor = Sensor(at: Loc, beacon: Loc, distance: nat)

  /** `RangeInclusive<i32>`: `start..=end`, empty when `end < start`. */
  datatype Range = Range(start: int, end: int)
  {
    predicate Contains(v: int)
    {
      start <= v <= end
    }

    predicate Valid()
    {
      start <= end
    }
  }

  /** `abs_diff` */
  function AbsDiff(a: int, b: int): nat
  {
    if a >= b then a - b else b - a
  }

  /** `manhattan_distance` */
  function Manhattan(a: Loc, b: Loc): nat
  {
    AbsDiff(a.x, b.x) + AbsDiff(a.y, b.y)
  }

  /** The Manhattan distance is a metric: zero only between equal places, symmetric, and obeying the triangle inequality. */
  lemma ManhattanMetric(a: Loc, b: Loc, c: Loc)
    ensures Manhattan(a, b) == 0 <==> a == b
    ensures Manhattan(a, b) == Manhattan(b, a)
    ensures Manhattan(a, c) <= Manhattan(a, b) + Manhattan(b, c)
  {
  }

  /** `Sensor::new` */
  function NewSensor(at: Loc, beacon: Loc): (s: Sensor)
    ensures s.at == at && s.beacon == beacon && s.distance == Manhattan(at, beacon)
  {
    Sensor(at, beacon, Manhattan(at, beacon))
  }

  /** `range_at`: the cells of `row` no further from the sensor than its beacon, if any. */
  function RangeAt(s: Sensor, row: int): (r: Option<Range>)
    ensures r.None? <==> AbsDiff(s.at.y, row) > s.distance
    ensures r.Some? ==> r.value.Valid() && r.value.start + r.value.end == 2 * s.at.x
  {
    var ydiff := AbsDiff(s.at.y, row);
    if ydiff > s.distance then None
    else
      var remaining := s.distance - ydiff;
      Some(Range(s.at.x - remaining, s.at.x + remaining))
  }

  /** A cell of the row lies in the sensor's range exactly when it is within the sensor's distance. */
  lemma RangeAtMembers(s: Sensor, row: int, x: int)
    ensures (RangeAt(s, row).Some? && RangeAt(s, row).value.Contains(x)) <==> Manhattan(s.at, Loc(x, row)) <= s.distance
  {
  }

  /** `merge_range`, as its four cases read. */
  function MergeRange(left: Range, right: Range): (r: seq<Range>)
    ensures 1 <= |r| <= 2
  {
    match (left.Contains(right.start), left.Contains(right.end))
    case (true, true) => [left]
    case (true, false) => [Range(left.start, right.end)]
    case (false, true) => [Range(right.start, left.end)]
    case (false, false) =>
      if right.start == left.end + 1 then [Range(left.start, right.end)] else [left, right]
  }

  /** Whether one of the ranges contains `v`. */
  predicate Covered(rs: seq<Range>, v: int)
  {
    exists i :: 0 <= i < |rs| && rs[i].Contains(v)
  }

  /** All the ranges are non-empty. */
  predicate AllValid(rs: seq<Range>)
  {
    forall i :: 0 <= i < |rs| ==> rs[i].Valid()
  }

  /**
   * Merging two non-empty ranges, the second starting no earlier than the first,
   * covers what they covered. It gives one range when they overlap or touch, and
   * otherwise both unchanged, with a gap between.
   */
  lemma MergeRangeUnion(left: Range, right: Range)
    requires left.Valid() && right.Valid() && left.start <= right.start
    ensures var r := MergeRange(left, right);
      AllValid(r) && r[0].start == left.start
      && (forall v :: Covered(r, v) <==> left.Contains(v) || right.Contains(v))
      && (|r| == 1 <==> right.start <= left.end + 1)
      && (|r| == 2 ==> r == [left, right] && left.end + 1 < right.start)
  {
    var r := MergeRange(left, right);
    forall v
      ensures Covered(r, v) <==> left.Contains(v) || right.Contains(v)
    {
      if left.Contains(v) || right.Contains(v) {
        if |r| == 2 {
          if left.Contains(v) {
            assert r[0].Contains(v);
          } else {
            assert r[1].Contains(v);
          }
        } else {
          assert r[0].Contains(v);
        }
      }
    }
  }

  /** Consecutive ranges leave a gap of at least one cell, and each is non-empty. */
  predicate Separated(rs: seq<Range>)
  {
    AllValid(rs) && forall i :: 0 <= i < |rs| - 1 ==> rs[i].end + 1 < rs[i + 1].start
  }

  /** Separated ranges are strictly increasing and never share a cell. */
  lemma {:induction false} SeparatedOrdered(rs: seq<Range>, i: nat, j: nat)
    requires Separated(rs) && i < j < |rs|
    ensures rs[i].end + 1 < rs[j].start
    decreases j - i
  {
    if j > i + 1 {
      SeparatedOrdered(rs, i, j - 1);
    }
  }

  /** `fold_ranges`: merges the new range into the last one gathered. */
  function FoldRanges(acc: seq<Range>, range: Range): seq<Range>
  {
    if acc == [] then [range] else acc[..|acc| - 1] + MergeRange(acc[|acc| - 1], range)
  }

  /** `fold(vec![], fold_ranges)` from a given accumulator. */
  function Fold(acc: seq<Range>, rs: seq<Range>): seq<Range>
    decreases |rs|
  {
    if rs == [] then acc else Fold(FoldRanges(acc, rs[0]), rs[1..])
  }

  /** Sorted by start, as `sorted_by` leaves them. */
  predicate SortedByStart(rs: seq<Range>)
  {
    forall i, j :: 0 <= i < j < |rs| ==> rs[i].start <= rs[j].start
  }

  /** The ranges of a concatenation cover what either part covers. */
  lemma CoveredConcat(a: seq<Range>, b: seq<Range>, v: int)
    ensures Covered(a + b, v) <==> Covered(a, v) || Covered(b, v)
  {
    if Covered(a + b, v) {
      var i :| 0 <= i < |a + b| && (a + b)[i].Contains(v);
      if i >= |a| {
        assert b[i - |a|] == (a + b)[i];
      }
    }
    if Covered(a, v) {
      var i :| 0 <= i < |a| && a[i].Contains(v);
      assert (a + b)[i] == a[i];
    }
    if Covered(b, v) {
      var i :| 0 <= i < |b| && b[i].Contains(v);
      assert (a + b)[|a| + i] == b[i];
    }
  }

  /** Replacing the last of separated ranges by separated ones starting at the same place keeps them separated. */
  lemma ReplaceLastSeparated(acc: seq<Range>, m: seq<Range>)
    requires Separated(acc) && acc != [] && Separated(m) && m != []
    requires m[0].start == acc[|acc| - 1].start
    ensures Separated(acc[..|acc| - 1] + m)
  {
    var init := acc[..|acc| - 1];
    var r := init + m;
    forall i | 0 <= i < |r|
      ensures r[i].Valid()
    {
      if i < |init| {
        assert r[i] == acc[i];
      } else {
        assert r[i] == m[i - |init|];
      }
    }
    forall i | 0 <= i < |r| - 1
      ensures r[i].end + 1 < r[i + 1].start
    {
      if i + 1 < |init| {
        assert r[i] == acc[i] && r[i + 1] == acc[i + 1];
      } else if i + 1 == |init| {
        assert r[i] == acc[i] && r[i + 1] == m[0];
      } else {
        assert r[i] == m[i - |init|] && r[i + 1] == m[i - |init| + 1];
      }
    }
  }

  /** One step of the fold keeps the gathered ranges separated, starting no later than the new one, with the new range added to what they cover. */
  lemma FoldRangesStep(acc: seq<Range>, range: Range)
    requires Separated(acc) && range.Valid()
    requires acc != [] ==> acc[|acc| - 1].start <= range.start
    ensures var r := FoldRanges(acc, range);
      Separated(r) && r != [] && r[|r| - 1].start <= range.start
      && forall v :: Covered(r, v) <==> Covered(acc, v) || range.Contains(v)
  {
    var r := FoldRanges(acc, range);
    if acc != [] {
      var init, last := acc[..|acc| - 1], acc[|acc| - 1];
      var m := MergeRange(last, range);
      MergeRangeUnion(last, range);
      ReplaceLastSeparated(acc, m);
      assert acc == init + [last];
      forall v
        ensures Covered(r, v) <==> Covered(acc, v) || range.Contains(v)
      {
        CoveredConcat(init, m, v);
        CoveredConcat(init, [last], v);
        assert Covered([last], v) <==> last.Contains(v) by {
          if last.Contains(v) {
            assert [last][0] == last;
          }
        }
      }
    } else {
      assert r == [range];
      forall v | Covered(r, v)
        ensures range.Contains(v)
      {
      }
    }
  }

  /**
   * Folding non-empty ranges sorted by start yields separated ranges covering what
   * the accumulator and the ranges covered.
   */
  lemma {:induction false} FoldMerges(acc: seq<Range>, rs: seq<Range>)
    requires Separated(acc) && AllValid(rs) && SortedByStart(rs)
    requires acc != [] && rs != [] ==> acc[|acc| - 1].start <= rs[0].start
    ensures Separated(Fold(acc, rs))
    ensures forall v :: Covered(Fold(acc, rs), v) <==> Covered(acc, v) || Covered(rs, v)
    decreases |rs|
  {
    if rs != [] {
      var next := FoldRanges(acc, rs[0]);
      FoldRangesStep(acc, rs[0]);
      FoldMerges(next, rs[1..]);
      forall v
        ensures Covered(rs, v) <==> rs[0].Contains(v) || Covered(rs[1..], v)
      {
        if Covered(rs, v) {
          var i :| 0 <= i < |rs| && rs[i].Contains(v);
          if i > 0 {
            assert rs[1..][i - 1] == rs[i];
          }
        }
        if Covered(rs[1..], v) {
          var i :| 0 <= i < |rs[1..]| && rs[1..][i].Contains(v);
          assert rs[i + 1] == rs[1..][i];
        }
      }
    }
  }

  /** Places `x` after every range starting no later than it (keeping `sorted_by` stable). */
  function Insert(x: Range, rs: seq<Range>): (r: seq<Range>)
    ensures multiset(r) == multiset(rs) + multiset{x}
  {
    if rs == [] then [x]
    else if x.start < rs[0].start then [x] + rs
    else
      assert rs == [rs[0]] + rs[1..];
      [rs[0]] + Insert(x, rs[1..])
  }

  /** Inserting a range that starts no earlier than `lo` keeps every start at `lo` or later. */
  lemma {:induction false} InsertStartsFrom(x: Range, rs: seq<Range>, lo: int)
    requires x.start >= lo && forall k :: 0 <= k < |rs| ==> rs[k].start >= lo
    ensures forall j :: 0 <= j < |Insert(x, rs)| ==> Insert(x, rs)[j].start >= lo
  {
    if rs != [] && x.start >= rs[0].start {
      InsertStartsFrom(x, rs[1..], lo);
      var t := Insert(x, rs[1..]);
      assert forall j :: 1 <= j < |t| + 1 ==> ([rs[0]] + t)[j] == t[j - 1];
    }
  }

  lemma {:induction false} InsertSorted(x: Range, rs: seq<Range>)
    requires SortedByStart(rs)
    ensures SortedByStart(Insert(x, rs))
  {
    if rs != [] && x.start >= rs[0].start {
      InsertSorted(x, rs[1..]);
      var t := Insert(x, rs[1..]);
      InsertStartsFrom(x, rs[1..], rs[0].start);
      var r := [rs[0]] + t;
      assert forall j :: 1 <= j < |r| ==> r[j] == t[j - 1];
    }
  }

  /** `sorted_by(start)`: a stable insertion sort. */
  function SortByStart(rs: seq<Range>): (r: seq<Range>)
    ensures multiset(r) == multiset(rs)
  {
    if rs == [] then []
    else
      assert rs == rs[..|rs| - 1] + [rs[|rs| - 1]];
      Insert(rs[|rs| - 1], SortByStart(rs[..|rs| - 1]))
  }

  lemma {:induction false} SortByStartSorts(rs: seq<Range>)
    ensures SortedByStart(SortByStart(rs))
  {
    if rs != [] {
      SortByStartSorts(rs[..|rs| - 1]);
      InsertSorted(rs[|rs| - 1], SortByStart(rs[..|rs| - 1]));
    }
  }

  /** Rearranging ranges changes neither what they cover nor whether they are all non-empty. */
  lemma PermutedCover(a: seq<Range>, b: seq<Range>)
    requires multiset(a) == multiset(b)
    ensures forall v :: Covered(a, v) <==> Covered(b, v)
    ensures AllValid(a) <==> AllValid(b)
  {
    forall v | Covered(a, v)
      ensures Covered(b, v)
    {
      var i :| 0 <= i < |a| && a[i].Contains(v);
      assert a[i] in multiset(b);
      var j :| 0 <= j < |b| && b[j] == a[i];
    }
    forall v | Covered(b, v)
      ensures Covered(a, v)
    {
      var i :| 0 <= i < |b| && b[i].Contains(v);
      assert b[i] in multiset(a);
      var j :| 0 <= j < |a| && a[j] == b[i];
    }
    if AllValid(a) {
      forall j | 0 <= j < |b|
        ensures b[j].Valid()
      {
        assert b[j] in multiset(a);
        var i :| 0 <= i < |a| && a[i] == b[j];
      }
    }
    if AllValid(b) {
      forall j | 0 <= j < |a|
        ensures a[j].Valid()
      {
        assert a[j] in multiset(b);
        var i :| 0 <= i < |b| && b[i] == a[j];
      }
    }
  }

  /** `filter_map(range_at(row))`: the ranges of the sensors that reach the row, in sensor order. */
  function RangesAt(sensors: seq<Sensor>, row: int): (r: seq<Range>)
    ensures AllValid(r)
  {
    if sensors == [] then []
    else
      var rest := RangesAt(sensors[1..], row);
      match RangeAt(sensors[0], row)
      case Some(range) => [range] + rest
      case None => rest
  }

  /** Some sensor is no further from `at` than from its beacon. */
  predicate Reached(sensors: seq<Sensor>, at: Loc)
  {
    exists k :: 0 <= k < |sensors| && Manhattan(sensors[k].at, at) <= sensors[k].distance
  }

  lemma ReachedCons(sensors: seq<Sensor>, at: Loc)
    requires sensors != []
    ensures Reached(sensors, at) <==> Manhattan(sensors[0].at, at) <= sensors[0].distance || Reached(sensors[1..], at)
  {
    if Reached(sensors, at) {
      var k :| 0 <= k < |sensors| && Manhattan(sensors[k].at, at) <= sensors[k].distance;
      if k > 0 {
        assert sensors[1..][k - 1] == sensors[k];
      }
    }
    if Reached(sensors[1..], at) {
      var k :| 0 <= k < |sensors[1..]| && Manhattan(sensors[1..][k].at, at) <= sensors[1..][k].distance;
      assert sensors[k + 1] == sensors[1..][k];
    }
  }

  /** A cell of the row is covered by the sensors' ranges exactly when some sensor is no further from it than from its beacon. */
  lemma {:induction false} RangesAtCover(sensors: seq<Sensor>, row: int, x: int)
    ensures Covered(RangesAt(sensors, row), x) <==> Reached(sensors, Loc(x, row))
  {
    if sensors != [] {
      var first := RangeAt(sensors[0], row);
      var head := if first.Some? then [first.value] else [];
      assert RangesAt(sensors, row) == head + RangesAt(sensors[1..], row);
      RangesAtCover(sensors[1..], row, x);
      RangeAtMembers(sensors[0], row, x);
      ReachedCons(sensors, Loc(x, row));
      CoveredConcat(head, RangesAt(sensors[1..], row), x);
      if first.Some? && first.value.Contains(x) {
        assert head[0] == first.value;
      }
    }
  }

  /** The merged ranges of one row: sorted by start, then folded. */
  function RowRanges(row: int, sensors: seq<Sensor>): seq<Range>
  {
    Fold([], SortByStart(RangesAt(sensors, row)))
  }

  /** The merged ranges of a row are separated and cover exactly the cells some sensor reaches. */
  lemma RowRangesCover(row: int, sensors: seq<Sensor>)
    ensures Separated(RowRanges(row, sensors))
    ensures forall x :: Covered(RowRanges(row, sensors), x) <==> Reached(sensors, Loc(x, row))
  {
    var raw := RangesAt(sensors, row);
    var sorted := SortByStart(raw);
    SortByStartSorts(raw);
    PermutedCover(raw, sorted);
    FoldMerges([], sorted);
    forall x
      ensures Covered(RowRanges(row, sensors), x) <==> Reached(sensors, Loc(x, row))
    {
      RangesAtCover(sensors, row, x);
    }
  }

  /** The summands of `row_coverage`: each range's end minus its start. */
  function Widths(rs: seq<Range>): int
  {
    if rs == [] then 0 else (rs[0].end - rs[0].start) + Widths(rs[1..])
  }

  /** `row_coverage`: the widths of the merged ranges (the `u32` sum is not bounded here). */
  function RowCoverage(row: int, sensors: seq<Sensor>): int
  {
    Widths(RowRanges(row, sensors))
  }

  /** The cells of one range. */
  function Cells(r: Range): (c: set<int>)
    ensures forall v :: v in c <==> r.Contains(v)
    decreases r.end - r.start
  {
    if r.end < r.start then {} else Cells(Range(r.start, r.end - 1)) + {r.end}
  }

  lemma {:induction false} CellsCount(r: Range)
    requires r.Valid()
    ensures |Cells(r)| == r.end - r.start + 1
    decreases r.end - r.start
  {
    if r.start < r.end {
      var shorter := Range(r.start, r.end - 1);
      CellsCount(shorter);
    } else {
      assert Cells(Range(r.start, r.end - 1)) == {};
    }
  }

  /** The cells of all the ranges. */
  function AllCells(rs: seq<Range>): (c: set<int>)
    ensures forall v :: v in c <==> Covered(rs, v)
  {
    if rs == [] then {}
    else
      var c := Cells(rs[0]) + AllCells(rs[1..]);
      assert forall v :: Covered(rs, v) <==> rs[0].Contains(v) || Covered(rs[1..], v) by {
        forall v
          ensures Covered(rs, v) <==> rs[0].Contains(v) || Covered(rs[1..], v)
        {
          CoveredConcat([rs[0]], rs[1..], v);
          assert rs == [rs[0]] + rs[1..];
          if rs[0].Contains(v) {
            assert [rs[0]][0] == rs[0];
          }
        }
      }
      c
  }

  /** Separated ranges share no cell, so their widths add up to the cells covered less one per range. */
  lemma {:induction false} WidthsCount(rs: seq<Range>)
    requires Separated(rs)
    ensures Widths(rs) + |rs| == |AllCells(rs)|
  {
    if rs != [] {
      var rest := rs[1..];
      assert Separated(rest) by {
        assert forall i :: 0 <= i < |rest| ==> rest[i] == rs[i + 1];
      }
      WidthsCount(rest);
      CellsCount(rs[0]);
      forall v | v in Cells(rs[0])
        ensures v !in AllCells(rest)
      {
        forall i | 0 <= i < |rest|
          ensures !rest[i].Contains(v)
        {
          SeparatedOrdered(rs, 0, i + 1);
          assert rest[i] == rs[i + 1];
        }
      }
      assert Cells(rs[0]) * AllCells(rest) == {};
    }
  }

  /** What `row_coverage` counts: the cells some sensor reaches on the row, less one for each merged range. */
  lemma RowCoverageCells(row: int, sensors: seq<Sensor>)
    ensures var rs := RowRanges(row, sensors);
      RowCoverage(row, sensors) + |rs| == |AllCells(rs)|
      && forall x :: x in AllCells(rs) <==> Reached(sensors, Loc(x, row))
  {
    RowRangesCover(row, sensors);
    WidthsCount(RowRanges(row, sensors));
  }

  /**
   * `solve_part1`: on row 2000000, the cells some sensor reaches, less one per merged
   * range (the source's `end - start` per range).
   */
  function SolvePart1(sensors: seq<Sensor>): (r: int)
    ensures var rs := RowRanges(2000000, sensors);
      r + |rs| == |AllCells(rs)| && forall x :: x in AllCells(rs) <==> Reached(sensors, Loc(x, 2000000))
  {
    RowCoverageCells(2000000, sensors);
    RowCoverage(2000000, sensors)
  }

  /** `tuning_frequency` */
  function TuningFrequency(loc: Loc): int
  {
    loc.x * 4000000 + loc.y
  }

  /** Inside the square's columns, the tuning frequency determines the place. */
  lemma TuningFrequencyInjective(a: Loc, b: Loc)
    requires 0 <= a.y < 4000000 && 0 <= b.y < 4000000
    requires TuningFrequency(a) == TuningFrequency(b)
    ensures a == b
  {
    ScaleGap(a.x, b.x);
    ScaleGap(b.x, a.x);
  }

  lemma ScaleGap(p: int, q: int)
    ensures p < q ==> p * 4000000 + 4000000 <= q * 4000000
  {
    if p < q {
      assert q * 4000000 - p * 4000000 == (q - p) * 4000000;
    }
  }

  /** The first merged range holding the square's first column and not its last: the cell after it. */
  function GapIn(rs: seq<Range>, lo: int, hi: int): (r: Option<int>)
    ensures r.Some? ==> exists i :: 0 <= i < |rs| && rs[i].Contains(lo) && !rs[i].Contains(hi) && r.value == rs[i].end + 1
  {
    if rs == [] then None
    else if rs[0].Contains(lo) && !rs[0].Contains(hi) then Some(rs[0].end + 1)
    else
      var r := GapIn(rs[1..], lo, hi);
      if r.Some? then
        var i :| 0 <= i < |rs[1..]| && rs[1..][i].Contains(lo) && !rs[1..][i].Contains(hi) && r.value == rs[1..][i].end + 1;
        assert rs[i + 1] == rs[1..][i];
        r
      else r
  }

  /** In separated ranges, the cell after a range is in none of them. */
  lemma AfterRangeUncovered(rs: seq<Range>, i: nat)
    requires Separated(rs) && i < |rs|
    ensures !Covered(rs, rs[i].end + 1)
  {
    forall j | 0 <= j < |rs|
      ensures !rs[j].Contains(rs[i].end + 1)
    {
      if j < i {
        SeparatedOrdered(rs, j, i);
      } else if j > i {
        SeparatedOrdered(rs, i, j);
      }
    }
  }

  /** `find_distress_signal` from `row` on: `None` where `unwrap` would panic. */
  function FindFrom(row: int, lo: int, hi: int, sensors: seq<Sensor>): (r: Option<Loc>)
    decreases hi - row + 1
  {
    if row > hi then None
    else
      match GapIn(RowRanges(row, sensors), lo, hi)
      case Some(x) => Some(Loc(x, row))
      case None => FindFrom(row + 1, lo, hi, sensors)
  }

  /**
   * The place found lies in the square `lo..=hi` on both axes, and no sensor is as close
   * to it as to its own beacon: the distress beacon cannot have been seen.
   */
  lemma {:induction false} FindFromUnseen(row: int, lo: int, hi: int, sensors: seq<Sensor>)
    requires lo <= hi
    ensures var r := FindFrom(row, lo, hi, sensors);
      r.Some? ==> (row <= r.value.y <= hi && lo < r.value.x <= hi
        && forall k :: 0 <= k < |sensors| ==> Manhattan(sensors[k].at, r.value) > sensors[k].distance)
    decreases hi - row + 1
  {
    if row <= hi {
      if GapIn(RowRanges(row, sensors), lo, hi).Some? {
        GapUnseen(row, lo, hi, sensors);
      } else {
        FindFromUnseen(row + 1, lo, hi, sensors);
      }
    }
  }

  /** The gap found in a row lies within the square, and no sensor reaches it. */
  lemma GapUnseen(row: int, lo: int, hi: int, sensors: seq<Sensor>)
    requires lo <= hi && GapIn(RowRanges(row, sensors), lo, hi).Some?
    ensures var x := GapIn(RowRanges(row, sensors), lo, hi).value;
      lo < x <= hi && forall k :: 0 <= k < |sensors| ==> Manhattan(sensors[k].at, Loc(x, row)) > sensors[k].distance
  {
    var rs := RowRanges(row, sensors);
    var x := GapIn(rs, lo, hi).value;
    var i :| 0 <= i < |rs| && rs[i].Contains(lo) && !rs[i].Contains(hi) && x == rs[i].end + 1;
    RowRangesCover(row, sensors);
    AfterRangeUncovered(rs, i);
    assert !Reached(sensors, Loc(x, row));
  }

  /** A range holding the first column and not the last makes the search of its row succeed. */
  lemma {:induction false} GapInFinds(rs: seq<Range>, lo: int, hi: int, i: nat)
    requires i < |rs| && rs[i].Contains(lo) && !rs[i].Contains(hi)
    ensures GapIn(rs, lo, hi).Some?
  {
    if i > 0 && !(rs[0].Contains(lo) && !rs[0].Contains(hi)) {
      assert rs[1..][i - 1] == rs[i];
      GapInFinds(rs[1..], lo, hi, i - 1);
    }
  }

  /** A row with an unreached cell of the square and a reached first column has a gap. */
  lemma RowGap(row: int, lo: int, hi: int, sensors: seq<Sensor>, x: int)
    requires lo < x <= hi
    requires !Reached(sensors, Loc(x, row)) && Reached(sensors, Loc(lo, row))
    ensures GapIn(RowRanges(row, sensors), lo, hi).Some?
  {
    var rs := RowRanges(row, sensors);
    RowRangesCover(row, sensors);
    assert Covered(rs, lo);
    var i :| 0 <= i < |rs| && rs[i].Contains(lo);
    if rs[i].Contains(hi) {
      assert false;
    }
    GapInFinds(rs, lo, hi, i);
  }

  /**
   * The search misses no beacon that it can see: a cell in the square that no sensor
   * reaches, in a row whose first column some sensor does reach, makes the search
   * succeed, on that row or an earlier one.
   */
  lemma {:induction false} FindFromComplete(row: int, lo: int, hi: int, sensors: seq<Sensor>, at: Loc)
    requires row <= at.y <= hi && lo < at.x <= hi
    requires !Reached(sensors, at) && Reached(sensors, Loc(lo, at.y))
    ensures FindFrom(row, lo, hi, sensors).Some?
    ensures FindFrom(row, lo, hi, sensors).value.y <= at.y
    decreases hi - row + 1
  {
    if row == at.y {
      RowGap(row, lo, hi, sensors, at.x);
    } else if GapIn(RowRanges(row, sensors), lo, hi).None? {
      FindFromComplete(row + 1, lo, hi, sensors, at);
    }
  }

  /** `find_distress_signal`: the tuning frequency of the first gap found. */
  function FindDistressSignal(lo: int, hi: int, sensors: seq<Sensor>): Option<int>
  {
    match FindFrom(lo, lo, hi, sensors)
    case Some(loc) => Some(TuningFrequency(loc))
    case None => None
  }

  /** A cell of the square out of every sensor's reach, on a row whose first column is reached. */
  ghost predicate Findable(lo: int, hi: int, sensors: seq<Sensor>, at: Loc)
  {
    lo <= at.y <= hi && lo < at.x <= hi && !Reached(sensors, at) && Reached(sensors, Loc(lo, at.y))
  }

  /** The search's answer is the frequency of an unreached cell of the square, and it has one whenever such a cell is findable. */
  lemma DistressSignalFound(lo: int, hi: int, sensors: seq<Sensor>)
    requires lo <= hi
    ensures var r := FindDistressSignal(lo, hi, sensors);
      r.Some? ==> exists at: Loc :: r.value == TuningFrequency(at) && lo <= at.y <= hi && lo < at.x <= hi && !Reached(sensors, at)
    ensures (exists at: Loc :: Findable(lo, hi, sensors, at)) ==> FindDistressSignal(lo, hi, sensors).Some?
  {
    FindFromUnseen(lo, lo, hi, sensors);
    var r := FindFrom(lo, lo, hi, sensors);
    if r.Some? {
      assert !Reached(sensors, r.value);
    }
    if exists at: Loc :: Findable(lo, hi, sensors, at) {
      var at: Loc :| Findable(lo, hi, sensors, at);
      FindFromComplete(lo, lo, hi, sensors, at);
    }
  }

  /**
   * `solve_part2`: the tuning frequency of a cell in the square 0..=4000000 that no sensor
   * reaches; there is one whenever such a cell lies on a row whose first column is reached.
   */
  function SolvePart2(sensors: seq<Sensor>): (r: Option<int>)
    ensures r.Some? ==> exists at: Loc :: r.value == TuningFrequency(at) && 0 <= at.y <= 4000000 && 0 < at.x <= 4000000 && !Reached(sensors, at)
    ensures (exists at: Loc :: Findable(0, 4000000, sensors, at)) ==> r.Some?
  {
    DistressSignalFound(0, 4000000, sensors);
    FindDistressSignal(0, 4000000, sensors)
  }

  /** `tag(prefix)` followed by `nom_i32`: the signed number after a fixed prefix. */
  function ParseField(prefix: string, s: string): Option<(int, string)>
  {
    if |s| < |prefix| || s[..|prefix|] != prefix then None
    else ParseSignedPrefix(s[|prefix|..], I32Min, I32Max)
  }

  /** A prefix and a printed `i32` parse back as the number, leaving what followed. */
  lemma ParseFieldShow(prefix: string, v: int, rest: string)
    requires I32Min <= v <= I32Max
    requires rest == [] || !IsDigit(rest[0])
    ensures ParseField(prefix, prefix + ShowInt(v) + rest) == Some((v, rest))
  {
    var s := prefix + ShowInt(v) + rest;
    assert s[..|prefix|] == prefix && s[|prefix|..] == ShowInt(v) + rest;
    ParseSignedShow(v, rest, I32Min, I32Max);
  }

  /** `location`: `x=<i32>, y=<i32>`. */
  function ParseLocation(s: string): (r: Option<(Loc, string)>)
  {
    match ParseField("x=", s)
    case None => None
    case Some((x, rest)) =>
      match ParseField(", y=", rest)
      case None => None
      case Some((y, tail)) => Some((Loc(x, y), tail))
  }

  function ShowLocation(l: Loc): string
  {
    "x=" + ShowInt(l.x) + ", y=" + ShowInt(l.y)
  }

  /** A printed location with `i32` coordinates parses back, leaving what followed it. */
  lemma ParseShowLocation(l: Loc, rest: string)
    requires I32Min <= l.x <= I32Max && I32Min <= l.y <= I32Max
    requires rest == [] || !IsDigit(rest[0])
    ensures ParseLocation(ShowLocation(l) + rest) == Some((l, rest))
  {
    var tail := ", y=" + ShowInt(l.y) + rest;
    assert ShowLocation(l) + rest == "x=" + ShowInt(l.x) + tail;
    ParseFieldShow("x=", l.x, tail);
    ParseFieldShow(", y=", l.y, rest);
  }

  /** `tag(prefix)` followed by `location`. */
  function ParseTagged(prefix: string, s: string): Option<(Loc, string)>
  {
    if |s| < |prefix| || s[..|prefix|] != prefix then None
    else ParseLocation(s[|prefix|..])
  }

  /** `sensor`: `Sensor at <location>: closest beacon is at <location>`, its distance computed. */
  function ParseSensor(s: string): (r: Option<(Sensor, string)>)
    ensures r.Some? ==> r.value.0.distance == Manhattan(r.value.0.at, r.value.0.beacon)
    ensures r.Some? ==> exists rest :: (ParseTagged("Sensor at ", s) == Some((r.value.0.at, rest))
      && ParseTagged(": closest beacon is at ", rest) == Some((r.value.0.beacon, r.value.1)))
    ensures r.None? <==> (ParseTagged("Sensor at ", s).None?
      || ParseTagged(": closest beacon is at ", ParseTagged("Sensor at ", s).value.1).None?)
  {
    match ParseTagged("Sensor at ", s)
    case None => None
    case Some((at, rest)) =>
      match ParseTagged(": closest beacon is at ", rest)
      case None => None
      case Some((beacon, tail)) => Some((NewSensor(at, beacon), tail))
  }

  function ShowSensor(s: Sensor): string
  {
    "Sensor at " + ShowLocation(s.at) + ": closest beacon is at " + ShowLocation(s.beacon)
  }

  lemma ParseTaggedShow(prefix: string, l: Loc, rest: string)
    requires I32Min <= l.x <= I32Max && I32Min <= l.y <= I32Max
    requires rest == [] || !IsDigit(rest[0])
    ensures ParseTagged(prefix, prefix + ShowLocation(l) + rest) == Some((l, rest))
  {
    var s := prefix + ShowLocation(l) + rest;
    assert s[..|prefix|] == prefix && s[|prefix|..] == ShowLocation(l) + rest;
    ParseShowLocation(l, rest);
  }

  /** A printed sensor report parses back to the sensor, with its distance recomputed from the two places. */
  lemma ParseShowSensor(s: Sensor, rest: string)
    requires I32Min <= s.at.x <= I32Max && I32Min <= s.at.y <= I32Max
    requires I32Min <= s.beacon.x <= I32Max && I32Min <= s.beacon.y <= I32Max
    requires rest == [] || !IsDigit(rest[0])
    ensures ParseSensor(ShowSensor(s) + rest) == Some((NewSensor(s.at, s.beacon), rest))
  {
    var middle := ": closest beacon is at ";
    var tail := middle + ShowLocation(s.beacon) + rest;
    assert ShowSensor(s) + rest == "Sensor at " + ShowLocation(s.at) + tail;
    ParseTaggedShow("Sensor at ", s.at, tail);
    ParseTaggedShow(middle, s.beacon, rest);
  }

  /** The example location and a sensor's distance from its beacon. */
  lemma ExampleLocation()
    ensures ParseLocation("x=-2, y=15") == Some((Loc(-2, 15), ""))
    ensures NewSensor(Loc(2, 18), Loc(-2, 15)).distance == 7
  {
    assert ShowNat(15) == "15" by {
      assert ShowNat(1) == "1";
      assert ShowNat(15) == ShowNat(1) + [DigitChar(5)];
    }
    assert ShowLocation(Loc(-2, 15)) + "" == "x=-2, y=15";
    ParseShowLocation(Loc(-2, 15), "");
  }

  /** The ranges of the sensor at (8, 7), whose beacon is 9 away, on rows around it. */
  lemma ExampleRanges()
    ensures var s := NewSensor(Loc(8, 7), Loc(2, 10));
      s.distance == 9
      && RangeAt(s, -3) == None && RangeAt(s, -2) == Some(Range(8, 8))
      && RangeAt(s, 7) == Some(Range(-1, 17)) && RangeAt(s, 10) == Some(Range(2, 14))
      && RangeAt(s, 16) == Some(Range(8, 8)) && RangeAt(s, 17) == None
  {
  }

  /** Merging as in the examples: overlapping, inside, and apart. */
  lemma ExampleMerges()
    ensures MergeRange(Range(-2, 2), Range(2, 14)) == [Range(-2, 14)]
    ensures MergeRange(Range(2, 14), Range(2, 2)) == [Range(2, 14)]
    ensures MergeRange(Range(2, 8), Range(14, 18)) == [Range(2, 8), Range(14, 18)]
  {
  }

  /** Folding the two example lists of ranges. */
  lemma ExampleFolds()
    ensures Fold([], [Range(-2, 2), Range(2, 14), Range(2, 2), Range(12, 12), Range(14, 18), Range(16, 24)]) == [Range(-2, 24)]
    ensures Fold([], [Range(-2, 2), Range(2, 2), Range(12, 12), Range(14, 18), Range(16, 24)]) == [Range(-2, 2), Range(12, 12), Range(14, 24)]
  {
  }
}
