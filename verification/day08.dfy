/**
 * Day 8, Treetop Tree House: a rectangular grid of tree heights (digits). Part 1
 * counts the trees visible from outside the grid, part 2 finds the largest scenic
 * score, the product of how far one sees in each of the four directions.
 */
module Day08 {
  import opened Wrappers
  import opened Seqs
  import opened Sums

  type TreeRow = seq<char>
  type TreeRows = seq<TreeRow>

  /** Every row is as long as the first, and there is a first row. */
  predicate Rectangular<T>(rows: seq<seq<T>>)
  {
    |rows| >= 1 && forall j :: 0 <= j < |rows| ==> |rows[j]| == |rows[0]|
  }

  /** `transpose` and `transpose_plot`: one output row per entry of the first row. */
  function Transpose<T>(rows: seq<seq<T>>): (r: seq<seq<T>>)
    requires Rectangular(rows)
    ensures |r| == |rows[0]|
    ensures forall i :: 0 <= i < |r| ==> |r[i]| == |rows|
    ensures forall i, j :: 0 <= i < |r| && 0 <= j < |rows| ==> r[i][j] == rows[j][i]
  {
    seq(|rows[0]|, i requires 0 <= i < |rows[0]| => seq(|rows|, j requires 0 <= j < |rows| => rows[j][i]))
  }

  /** Transposing twice gives the grid back. */
  lemma TransposeTwice<T>(rows: seq<seq<T>>)
    requires Rectangular(rows) && |rows[0]| >= 1
    ensures Rectangular(Transpose(rows))
    ensures Transpose(Transpose(rows)) == rows
  {
    var t := Transpose(rows);
    var tt := Transpose(t);
    assert |tt| == |rows|;
    forall j | 0 <= j < |rows|
      ensures tt[j] == rows[j]
    {
      assert |tt[j]| == |rows[j]|;
    }
  }

  /** `taller`: the tree is strictly higher than every other one listed. */
  function Taller(tree: char, others: seq<char>): (r: bool)
    ensures r <==> forall k :: 0 <= k < |others| ==> others[k] < tree
  {
    if others == [] then true
    else
      assert forall k :: 1 <= k < |others| ==> others[k] == others[1..][k - 1];
      tree > others[0] && Taller(tree, others[1..])
  }

  /** `directional_visibility`: each tree seen from the start or from the end of its line. */
  function DirectionalVisibility(row: TreeRow): (r: seq<bool>)
    ensures |r| == |row|
    ensures forall i :: 0 <= i < |row| ==>
      (r[i] <==> (forall k :: 0 <= k < i ==> row[k] < row[i]) || (forall k :: i < k < |row| ==> row[k] < row[i]))
  {
    seq(|row|, i requires 0 <= i < |row| => Taller(row[i], row[..i]) || Taller(row[i], row[i + 1..]))
  }

  /** The first and last tree of a line are always seen. */
  lemma EndsVisible(row: TreeRow)
    requires |row| >= 1
    ensures DirectionalVisibility(row)[0] && DirectionalVisibility(row)[|row| - 1]
  {
  }

  /** Seen from outside: strictly higher than every tree between it and one edge of the grid. */
  ghost predicate Visible(rows: TreeRows, x: nat, y: nat)
    requires Rectangular(rows) && y < |rows| && x < |rows[0]|
  {
    (forall k :: 0 <= k < x ==> rows[y][k] < rows[y][x])
    || (forall k :: x < k < |rows[0]| ==> rows[y][k] < rows[y][x])
    || (forall k :: 0 <= k < y ==> rows[k][x] < rows[y][x])
    || (forall k :: y < k < |rows| ==> rows[k][x] < rows[y][x])
  }

  /** A tree is seen from outside exactly when its row or its column shows it. */
  lemma CellVisible(rows: TreeRows, x: nat, y: nat)
    requires Rectangular(rows) && y < |rows| && x < |rows[0]|
    ensures DirectionalVisibility(rows[y])[x] || DirectionalVisibility(Transpose(rows)[x])[y] <==> Visible(rows, x, y)
  {
    var column := Transpose(rows)[x];
    assert forall k :: 0 <= k < |rows| ==> column[k] == rows[k][x];
  }

  lemma PlotCells(rows: TreeRows)
    requires Rectangular(rows)
    ensures forall y, x :: 0 <= y < |rows| && 0 <= x < |rows[0]| ==>
      (DirectionalVisibility(rows[y])[x] || DirectionalVisibility(Transpose(rows)[x])[y] <==> Visible(rows, x, y))
  {
    forall y, x | 0 <= y < |rows| && 0 <= x < |rows[0]|
      ensures DirectionalVisibility(rows[y])[x] || DirectionalVisibility(Transpose(rows)[x])[y] <==> Visible(rows, x, y)
    {
      CellVisible(rows, x, y);
    }
  }

  /**
   * `visibility_plot(rows, transpose(rows))`: a tree is marked when its row or its
   * column shows it.
   */
  function Plot(rows: TreeRows): (r: seq<seq<bool>>)
    requires Rectangular(rows) && |rows[0]| >= 1
    ensures |r| == |rows|
    ensures forall y :: 0 <= y < |r| ==> |r[y]| == |rows[0]|
    ensures forall y, x :: 0 <= y < |rows| && 0 <= x < |rows[0]| ==> (r[y][x] <==> Visible(rows, x, y))
  {
    var columns := Transpose(rows);
    var rowVisibility := seq(|rows|, y requires 0 <= y < |rows| => DirectionalVisibility(rows[y]));
    var columnVisibility := seq(|columns|, x requires 0 <= x < |columns| => DirectionalVisibility(columns[x]));
    var transposed := Transpose(columnVisibility);
    PlotCells(rows);
    seq(|rows|, y requires 0 <= y < |rows| =>
      seq(|rows[0]|, x requires 0 <= x < |rows[0]| => rowVisibility[y][x] || transposed[y][x]))
  }

  predicate IsTrue(b: bool)
  {
    b
  }

  function VisibleInRow(row: seq<bool>): int
  {
    Count(IsTrue, row)
  }

  /** The marked cells among the first `k` of row `y`. */
  function RowMarks(row: seq<bool>, y: nat, k: nat): set<(nat, nat)>
    requires k <= |row|
  {
    set x: nat | x < k && row[x] :: (y, x)
  }

  /** Extending the prefix by one cell adds that cell exactly when it is marked. */
  lemma RowMarksStep(row: seq<bool>, y: nat, k: nat)
    requires 0 < k <= |row|
    ensures RowMarks(row, y, k) == RowMarks(row, y, k - 1) + (if row[k - 1] then {(y, k - 1)} else {})
  {
  }

  /** A row's marked cells are as many as its count of marks. */
  lemma {:induction false} RowMarksCount(row: seq<bool>, y: nat, k: nat)
    requires k <= |row|
    ensures |RowMarks(row, y, k)| == Count(IsTrue, row[..k])
  {
    if k > 0 {
      RowMarksCount(row, y, k - 1);
      CountProperties(IsTrue, row[..k - 1], [row[k - 1]]);
      assert row[..k] == row[..k - 1] + [row[k - 1]];
      RowMarksStep(row, y, k);
    } else {
      assert RowMarks(row, y, k) == {};
    }
  }

  /** The marked cells of the first `n` rows of a plot `w` wide. */
  function GridMarks(plot: seq<seq<bool>>, w: nat, n: nat): set<(nat, nat)>
    requires n <= |plot| && forall y :: 0 <= y < |plot| ==> |plot[y]| == w
  {
    set y: nat, x: nat | y < n && x < w && plot[y][x] :: (y, x)
  }

  /** Summing the rows' counts counts the marked cells of the plot. */
  lemma {:induction false} GridMarksCount(plot: seq<seq<bool>>, w: nat, n: nat)
    requires n <= |plot| && forall y :: 0 <= y < |plot| ==> |plot[y]| == w
    ensures |GridMarks(plot, w, n)| == SumOf(VisibleInRow, plot[..n])
  {
    if n > 0 {
      GridMarksCount(plot, w, n - 1);
      SumOfAppend(VisibleInRow, plot[..n - 1], [plot[n - 1]]);
      assert plot[..n] == plot[..n - 1] + [plot[n - 1]];
      RowMarksCount(plot[n - 1], n - 1, w);
      assert plot[n - 1][..w] == plot[n - 1];
      assert SumOf(VisibleInRow, [plot[n - 1]]) == VisibleInRow(plot[n - 1]);
      assert GridMarks(plot, w, n) == GridMarks(plot, w, n - 1) + RowMarks(plot[n - 1], n - 1, w);
      assert GridMarks(plot, w, n - 1) !! RowMarks(plot[n - 1], n - 1, w);
    } else {
      assert GridMarks(plot, w, n) == {};
    }
  }

  /** The trees visible from some edge, as (row, column) pairs. */
  ghost function SeenFromEdge(rows: TreeRows): set<(nat, nat)>
    requires Rectangular(rows) && |rows[0]| >= 1
  {
    set y: nat, x: nat | y < |rows| && x < |rows[0]| && Visible(rows, x, y) :: (y, x)
  }

  /** `solve_part1`: the number of marked trees, which is the number of trees visible from some edge. */
  function SolvePart1(rows: TreeRows): (r: int)
    requires Rectangular(rows) && |rows[0]| >= 1
    ensures 0 <= r <= |rows| * |rows[0]|
    ensures r == |SeenFromEdge(rows)|
  {
    var plot := Plot(rows);
    SumOfBounds(VisibleInRow, plot, 0, |rows[0]|);
    PlotMarks(rows, plot);
    SumOf(VisibleInRow, plot)
  }

  /** The plot's marked cells are the trees visible from some edge, and the row sums count them. */
  lemma PlotMarks(rows: TreeRows, plot: seq<seq<bool>>)
    requires Rectangular(rows) && |rows[0]| >= 1 && plot == Plot(rows)
    ensures SumOf(VisibleInRow, plot) == |SeenFromEdge(rows)|
  {
    var w := |rows[0]|;
    GridMarksCount(plot, w, |plot|);
    assert plot[..|plot|] == plot;
    forall c | c in SeenFromEdge(rows)
      ensures c in GridMarks(plot, w, |plot|)
    {
    }
    forall c | c in GridMarks(plot, w, |plot|)
      ensures c in SeenFromEdge(rows)
    {
    }
    assert GridMarks(plot, w, |plot|) == SeenFromEdge(rows);
  }


  /** Every tree on the border of the grid is visible. */
  lemma BorderVisible(rows: TreeRows, x: nat, y: nat)
    requires Rectangular(rows) && y < |rows| && x < |rows[0]|
    requires x == 0 || y == 0 || x == |rows[0]| - 1 || y == |rows| - 1
    ensures Plot(rows)[y][x]
  {
    assert Visible(rows, x, y);
  }

  /** `up`: the trees above, nearest first. */
  function Up(x: nat, y: nat, trees: TreeRows): (r: TreeRow)
    requires y <= |trees| && forall i :: 0 <= i < y ==> x < |trees[i]|
    ensures |r| == y
  {
    seq(y, k requires 0 <= k < y => trees[y - 1 - k][x])
  }

  /** `down`: the trees below, nearest first. */
  function Down(x: nat, y: nat, trees: TreeRows): (r: TreeRow)
    requires y < |trees| && forall i :: y < i < |trees| ==> x < |trees[i]|
    ensures |r| == |trees| - y - 1
  {
    seq(|trees| - y - 1, k requires 0 <= k < |trees| - y - 1 => trees[y + 1 + k][x])
  }

  /** `left`: the trees to the left, nearest first. */
  function Left(x: nat, y: nat, trees: TreeRows): (r: TreeRow)
    requires y < |trees| && x <= |trees[y]|
    ensures |r| == x
  {
    seq(x, k requires 0 <= k < x => trees[y][x - 1 - k])
  }

  /** `right`: the trees to the right up to the width of the first row, nearest first. */
  function Right(x: nat, y: nat, trees: TreeRows): (r: TreeRow)
    requires y < |trees| && |trees| >= 1 && x < |trees[0]| <= |trees[y]|
    ensures |r| == |trees[0]| - x - 1
  {
    seq(|trees[0]| - x - 1, k requires 0 <= k < |trees[0]| - x - 1 => trees[y][x + 1 + k])
  }

  /**
   * The four sightlines cover the tree's column and row: the upward one reversed, the
   * tree itself and the downward one make up its column, and the same holds for its row.
   */
  lemma SightlinesCover(x: nat, y: nat, trees: TreeRows)
    requires Rectangular(trees) && y < |trees| && x < |trees[0]|
    ensures Reverse(Up(x, y, trees)) + [trees[y][x]] + Down(x, y, trees) == Transpose(trees)[x]
    ensures Reverse(Left(x, y, trees)) + [trees[y][x]] + Right(x, y, trees) == trees[y]
  {
    var column := Reverse(Up(x, y, trees)) + [trees[y][x]] + Down(x, y, trees);
    assert |column| == |Transpose(trees)[x]|;
    forall j | 0 <= j < |column|
      ensures column[j] == Transpose(trees)[x][j]
    {
      if j < y {
        assert column[j] == Up(x, y, trees)[y - 1 - j];
      } else if j > y {
        assert column[j] == Down(x, y, trees)[j - y - 1];
      }
    }
    var row := Reverse(Left(x, y, trees)) + [trees[y][x]] + Right(x, y, trees);
    assert |row| == |trees[y]|;
    forall j | 0 <= j < |row|
      ensures row[j] == trees[y][j]
    {
      if j < x {
        assert row[j] == Left(x, y, trees)[x - 1 - j];
      } else if j > x {
        assert row[j] == Right(x, y, trees)[j - x - 1];
      }
    }
  }

  /**
   * `visible_trees`: how many trees one sees along a sightline, stopping at and
   * counting the first tree at least as high as the tree house, or all of them.
   */
  function VisibleTrees(treehouse: char, trees: TreeRow): (r: nat)
    ensures r <= |trees|
    ensures (r == |trees| && forall k :: 0 <= k < |trees| ==> trees[k] < treehouse)
      || (1 <= r && treehouse <= trees[r - 1] && forall k :: 0 <= k < r - 1 ==> trees[k] < treehouse)
  {
    if trees == [] then 0
    else if trees[0] >= treehouse then 1
    else
      assert forall k :: 1 <= k < |trees| ==> trees[k] == trees[1..][k - 1];
      1 + VisibleTrees(treehouse, trees[1..])
  }

  /** A tree house taller than the whole sightline sees all of it; one that sees fewer is not. */
  lemma VisibleTreesAll(treehouse: char, trees: TreeRow)
    ensures Taller(treehouse, trees) ==> VisibleTrees(treehouse, trees) == |trees|
    ensures VisibleTrees(treehouse, trees) < |trees| ==> !Taller(treehouse, trees)
  {
  }

  /** A non-empty sightline always shows at least its nearest tree. */
  lemma VisibleTreesPositive(treehouse: char, trees: TreeRow)
    ensures VisibleTrees(treehouse, trees) == 0 <==> trees == []
  {
  }

  /** `scenic_score`: the product of the four sightline counts. */
  function ScenicScore(x: nat, y: nat, trees: TreeRows, treehouse: char): (r: nat)
    requires Rectangular(trees) && y < |trees| && x < |trees[0]|
    ensures r == 0 <==> x == 0 || y == 0 || x == |trees[0]| - 1 || y == |trees| - 1
  {
    var u := VisibleTrees(treehouse, Up(x, y, trees));
    var d := VisibleTrees(treehouse, Down(x, y, trees));
    var l := VisibleTrees(treehouse, Left(x, y, trees));
    var rt := VisibleTrees(treehouse, Right(x, y, trees));
    VisibleTreesPositive(treehouse, Up(x, y, trees));
    VisibleTreesPositive(treehouse, Down(x, y, trees));
    VisibleTreesPositive(treehouse, Left(x, y, trees));
    VisibleTreesPositive(treehouse, Right(x, y, trees));
    ProductZero(u, d, l, rt);
    u * d * l * rt
  }

  lemma ProductZero(a: nat, b: nat, c: nat, d: nat)
    ensures a * b * c * d >= 0
    ensures a * b * c * d == 0 <==> a == 0 || b == 0 || c == 0 || d == 0
  {
    assert a * b >= 0 && a * b * c >= 0;
    if a != 0 && b != 0 && c != 0 && d != 0 {
      assert a * b >= 1;
      assert a * b * c >= 1;
    }
  }

  /** The scores of rows `0 .. n`, row by row and left to right. */
  function Scores(trees: TreeRows, n: nat): (r: seq<nat>)
    requires Rectangular(trees) && n <= |trees|
    ensures |r| == n * |trees[0]|
  {
    if n == 0 then []
    else Scores(trees, n - 1) + ScoreRow(trees, n - 1)
  }

  /** The scores of row `y`, left to right. */
  function ScoreRow(trees: TreeRows, y: nat): (r: seq<nat>)
    requires Rectangular(trees) && y < |trees|
    ensures |r| == |trees[0]|
    ensures forall x :: 0 <= x < |r| ==> r[x] == ScenicScore(x, y, trees, trees[y][x])
  {
    seq(|trees[0]|, x requires 0 <= x < |trees[0]| => ScenicScore(x, y, trees, trees[y][x]))
  }

  /** The list holds exactly the scores of the trees in rows `0 .. n`. */
  lemma {:induction false} ScoresSpec(trees: TreeRows, n: nat)
    requires Rectangular(trees) && n <= |trees|
    ensures forall s :: s in Scores(trees, n) <==> exists x, y :: 0 <= y < n && 0 <= x < |trees[0]| && s == ScenicScore(x, y, trees, trees[y][x])
  {
    if n > 0 {
      ScoresSpec(trees, n - 1);
      var y := n - 1;
      var row := ScoreRow(trees, y);
      var r := Scores(trees, n);
      assert r == Scores(trees, n - 1) + row;
      forall s | s in r
        ensures exists x, y' :: 0 <= y' < n && 0 <= x < |trees[0]| && s == ScenicScore(x, y', trees, trees[y'][x])
      {
        if s !in Scores(trees, n - 1) {
          var x :| 0 <= x < |row| && row[x] == s;
        }
      }
      forall s | exists x, y' :: 0 <= y' < n && 0 <= x < |trees[0]| && s == ScenicScore(x, y', trees, trees[y'][x])
        ensures s in r
      {
        var x, y' :| 0 <= y' < n && 0 <= x < |trees[0]| && s == ScenicScore(x, y', trees, trees[y'][x]);
        if y' == y {
          assert row[x] == s;
        }
      }
    }
  }


  /** `solve_part2`: the best scenic score of any tree; a grid with no tree has none. */
  function SolvePart2(trees: TreeRows): (r: nat)
    requires Rectangular(trees) && |trees[0]| >= 1
    ensures exists x, y :: 0 <= y < |trees| && 0 <= x < |trees[0]| && r == ScenicScore(x, y, trees, trees[y][x])
    ensures forall x, y :: 0 <= y < |trees| && 0 <= x < |trees[0]| ==> ScenicScore(x, y, trees, trees[y][x]) <= r
  {
    var scores := Scores(trees, |trees|);
    ScoresSpec(trees, |trees|);
    assert ScenicScore(0, 0, trees, trees[0][0]) in scores;
    var m := Max(scores);
    forall x, y | 0 <= y < |trees| && 0 <= x < |trees[0]|
      ensures ScenicScore(x, y, trees, trees[y][x]) <= m.value
    {
      var s := ScenicScore(x, y, trees, trees[y][x]);
      assert s in scores;
      var k :| 0 <= k < |scores| && scores[k] == s;
    }
    m.value
  }

  /** A score some tree reaches and no tree exceeds is the answer to part 2. */
  /** No tree of the grid scores more than `best`. */
  predicate ScoresAtMost(trees: TreeRows, best: nat)
    requires Rectangular(trees)
  {
    forall x, y :: 0 <= y < |trees| && 0 <= x < |trees[0]| ==> ScenicScore(x, y, trees, trees[y][x]) <= best
  }

  lemma BestScore(trees: TreeRows, x: nat, y: nat, best: nat)
    requires Rectangular(trees) && y < |trees| && x < |trees[0]|
    requires ScenicScore(x, y, trees, trees[y][x]) == best
    requires ScoresAtMost(trees, best)
    ensures SolvePart2(trees) == best
  {
  }

  const Example: TreeRows := ["30373", "25512", "65332", "33549", "35390"]

  /** A tree with a tree at least as high in each of the four directions is not marked. */
  lemma Hidden(rows: TreeRows, x: nat, y: nat, left: nat, right: nat, up: nat, down: nat)
    requires Rectangular(rows) && y < |rows| && x < |rows[0]|
    requires left < x < right < |rows[0]| && up < y < down < |rows|
    requires rows[y][left] >= rows[y][x] && rows[y][right] >= rows[y][x]
    requires rows[up][x] >= rows[y][x] && rows[down][x] >= rows[y][x]
    ensures !Plot(rows)[y][x]
  {
  }

  /** The four inner example trees that cannot be seen, each with a blocker in every direction. */
  lemma ExampleHidden()
    ensures !Plot(Example)[1][3] && !Plot(Example)[2][2] && !Plot(Example)[3][1] && !Plot(Example)[3][3]
  {
    assert Example[0] == "30373" && Example[1] == "25512" && Example[2] == "65332" && Example[3] == "33549" && Example[4] == "35390";
    Hidden(Example, 3, 1, 1, 4, 0, 2);
    Hidden(Example, 2, 2, 1, 3, 1, 3);
    Hidden(Example, 1, 3, 0, 2, 2, 4);
    Hidden(Example, 3, 3, 2, 4, 0, 4);
  }

  /** The five inner example trees that can be seen, and from where. */
  lemma ExampleSeenTop()
    ensures Plot(Example)[1][1] && Plot(Example)[1][2] && Plot(Example)[2][1]
  {
    assert Example[0] == "30373" && Example[1] == "25512" && Example[2] == "65332";
    assert Visible(Example, 1, 1) && Visible(Example, 2, 1);
    assert forall k :: 1 < k < 5 ==> Example[2][k] < Example[2][1];
    assert Visible(Example, 1, 2);
  }

  lemma ExampleSeenBottom()
    ensures Plot(Example)[2][3] && Plot(Example)[3][2]
  {
    assert Example[2] == "65332" && Example[3] == "33549" && Example[4] == "35390";
    assert Visible(Example, 3, 2);
    assert forall k :: 0 <= k < 2 ==> Example[3][k] < Example[3][2];
    assert Visible(Example, 2, 3);
  }

  lemma ExampleSeen()
    ensures Plot(Example)[1][1] && Plot(Example)[1][2] && Plot(Example)[2][1] && Plot(Example)[2][3] && Plot(Example)[3][2]
  {
    ExampleSeenTop();
    ExampleSeenBottom();
  }


  /** One for a marked tree. */
  function Bit(b: bool): nat
  {
    if b then 1 else 0
  }

  /** The marked trees of a five-tree row, one by one. */
  lemma CountFive(row: seq<bool>)
    requires |row| == 5
    ensures VisibleInRow(row) == Bit(row[0]) + Bit(row[1]) + Bit(row[2]) + Bit(row[3]) + Bit(row[4])
  {
    var r1 := row[1..];
    var r2 := r1[1..];
    var r3 := r2[1..];
    var r4 := r3[1..];
    assert Count(IsTrue, r4) == Bit(row[4]) + Count(IsTrue, r4[1..]);
    assert Count(IsTrue, r3) == Bit(row[3]) + Count(IsTrue, r4);
    assert Count(IsTrue, r2) == Bit(row[2]) + Count(IsTrue, r3);
    assert Count(IsTrue, r1) == Bit(row[1]) + Count(IsTrue, r2);
    assert Count(IsTrue, row) == Bit(row[0]) + Count(IsTrue, r1);
  }

  /** A five-by-five plot marked as the example's is counts 21 trees. */
  lemma CountFromFacts(p: seq<seq<bool>>)
    requires |p| == 5 && forall y :: 0 <= y < 5 ==> |p[y]| == 5
    requires p[0][0] && p[0][1] && p[0][2] && p[0][3] && p[0][4]
    requires p[1][0] && p[1][1] && p[1][2] && !p[1][3] && p[1][4]
    requires p[2][0] && p[2][1] && !p[2][2] && p[2][3] && p[2][4]
    requires p[3][0] && !p[3][1] && p[3][2] && !p[3][3] && p[3][4]
    requires p[4][0] && p[4][1] && p[4][2] && p[4][3] && p[4][4]
    ensures SumOf(VisibleInRow, p) == 21
  {
    CountFive(p[0]);
    CountFive(p[1]);
    CountFive(p[2]);
    CountFive(p[3]);
    CountFive(p[4]);
    assert p == p[..3] + p[3..];
    SumOfAppend(VisibleInRow, p[..3], p[3..]);
    SumOfShort(VisibleInRow, p[..3]);
    SumOfShort(VisibleInRow, p[3..]);
  }

  /** The example grid has 21 visible trees. */
  lemma ExamplePart1()
    ensures SolvePart1(Example) == 21
  {
    var p := Plot(Example);
    forall x | 0 <= x < 5
      ensures p[0][x] && p[4][x] && p[x][0] && p[x][4]
    {
      BorderVisible(Example, x, 0);
      BorderVisible(Example, x, 4);
      BorderVisible(Example, 0, x);
      BorderVisible(Example, 4, x);
    }
    ExampleHidden();
    ExampleSeen();
    CountFromFacts(p);
  }

  /** The scenic score from the four sightlines. */
  lemma ScoreOf(x: nat, y: nat, trees: TreeRows, treehouse: char, up: TreeRow, down: TreeRow, left: TreeRow, right: TreeRow)
    requires Rectangular(trees) && y < |trees| && x < |trees[0]|
    requires Up(x, y, trees) == up && Down(x, y, trees) == down && Left(x, y, trees) == left && Right(x, y, trees) == right
    ensures ScenicScore(x, y, trees, treehouse)
      == VisibleTrees(treehouse, up) * VisibleTrees(treehouse, down) * VisibleTrees(treehouse, left) * VisibleTrees(treehouse, right)
  {
  }

  /** The sightlines and scores of the nine inner example trees; the two described in the puzzle score 4 and 8. */
  lemma ExampleLines11()
    ensures Rectangular(Example)
    ensures Example[1][1] == '5'
    ensures Up(1, 1, Example) == "0" && Down(1, 1, Example) == "535"
    ensures Left(1, 1, Example) == "2" && Right(1, 1, Example) == "512"
  {
    assert Example[1] == "25512";
  }

  lemma ExampleScore11()
    ensures ScenicScore(1, 1, Example, Example[1][1]) == 1
  {
    ExampleLines11();
    ScoreOf(1, 1, Example, '5', "0", "535", "2", "512");
    assert VisibleTrees('5', "0") == 1 && VisibleTrees('5', "535") == 1;
    assert VisibleTrees('5', "2") == 1 && VisibleTrees('5', "512") == 1;
  }

  lemma ExampleLines21()
    ensures Rectangular(Example)
    ensures Example[1][2] == '5'
    ensures Up(2, 1, Example) == "3" && Down(2, 1, Example) == "353"
    ensures Left(2, 1, Example) == "52" && Right(2, 1, Example) == "12"
  {
    assert Example[1] == "25512";
  }

  lemma ExampleScore21()
    ensures ScenicScore(2, 1, Example, Example[1][2]) == 4
  {
    ExampleLines21();
    ScoreOf(2, 1, Example, '5', "3", "353", "52", "12");
    assert VisibleTrees('5', "3") == 1 && VisibleTrees('5', "353") == 2;
    assert VisibleTrees('5', "52") == 1 && VisibleTrees('5', "12") == 2;
  }

  lemma ExampleLines31()
    ensures Rectangular(Example)
    ensures Example[1][3] == '1'
    ensures Up(3, 1, Example) == "7" && Down(3, 1, Example) == "349"
    ensures Left(3, 1, Example) == "552" && Right(3, 1, Example) == "2"
  {
    assert Example[1] == "25512";
  }

  lemma ExampleScore31()
    ensures ScenicScore(3, 1, Example, Example[1][3]) == 1
  {
    ExampleLines31();
    ScoreOf(3, 1, Example, '1', "7", "349", "552", "2");
    assert VisibleTrees('1', "7") == 1 && VisibleTrees('1', "349") == 1;
    assert VisibleTrees('1', "552") == 1 && VisibleTrees('1', "2") == 1;
  }

  lemma ExampleLines12()
    ensures Rectangular(Example)
    ensures Example[2][1] == '5'
    ensures Up(1, 2, Example) == "50" && Down(1, 2, Example) == "35"
    ensures Left(1, 2, Example) == "6" && Right(1, 2, Example) == "332"
  {
    assert Example[2] == "65332";
  }

  lemma ExampleScore12()
    ensures ScenicScore(1, 2, Example, Example[2][1]) == 6
  {
    ExampleLines12();
    ScoreOf(1, 2, Example, '5', "50", "35", "6", "332");
    assert VisibleTrees('5', "50") == 1 && VisibleTrees('5', "35") == 2;
    assert VisibleTrees('5', "6") == 1 && VisibleTrees('5', "332") == 3;
  }

  lemma ExampleLines22()
    ensures Rectangular(Example)
    ensures Example[2][2] == '3'
    ensures Up(2, 2, Example) == "53" && Down(2, 2, Example) == "53"
    ensures Left(2, 2, Example) == "56" && Right(2, 2, Example) == "32"
  {
    assert Example[2] == "65332";
  }

  lemma ExampleScore22()
    ensures ScenicScore(2, 2, Example, Example[2][2]) == 1
  {
    ExampleLines22();
    ScoreOf(2, 2, Example, '3', "53", "53", "56", "32");
    assert VisibleTrees('3', "53") == 1 && VisibleTrees('3', "53") == 1;
    assert VisibleTrees('3', "56") == 1 && VisibleTrees('3', "32") == 1;
  }

  lemma ExampleLines32()
    ensures Rectangular(Example)
    ensures Example[2][3] == '3'
    ensures Up(3, 2, Example) == "17" && Down(3, 2, Example) == "49"
    ensures Left(3, 2, Example) == "356" && Right(3, 2, Example) == "2"
  {
    assert Example[2] == "65332";
  }

  lemma ExampleScore32()
    ensures ScenicScore(3, 2, Example, Example[2][3]) == 2
  {
    ExampleLines32();
    ScoreOf(3, 2, Example, '3', "17", "49", "356", "2");
    assert VisibleTrees('3', "17") == 2 && VisibleTrees('3', "49") == 1;
    assert VisibleTrees('3', "356") == 1 && VisibleTrees('3', "2") == 1;
  }

  lemma ExampleLines13()
    ensures Rectangular(Example)
    ensures Example[3][1] == '3'
    ensures Up(1, 3, Example) == "550" && Down(1, 3, Example) == "5"
    ensures Left(1, 3, Example) == "3" && Right(1, 3, Example) == "549"
  {
    assert Example[3] == "33549";
  }

  lemma ExampleScore13()
    ensures ScenicScore(1, 3, Example, Example[3][1]) == 1
  {
    ExampleLines13();
    ScoreOf(1, 3, Example, '3', "550", "5", "3", "549");
    assert VisibleTrees('3', "550") == 1 && VisibleTrees('3', "5") == 1;
    assert VisibleTrees('3', "3") == 1 && VisibleTrees('3', "549") == 1;
  }

  lemma ExampleLines23()
    ensures Rectangular(Example)
    ensures Example[3][2] == '5'
    ensures Up(2, 3, Example) == "353" && Down(2, 3, Example) == "3"
    ensures Left(2, 3, Example) == "33" && Right(2, 3, Example) == "49"
  {
    assert Example[3] == "33549";
  }

  lemma ExampleScore23()
    ensures ScenicScore(2, 3, Example, Example[3][2]) == 8
  {
    ExampleLines23();
    ScoreOf(2, 3, Example, '5', "353", "3", "33", "49");
    assert VisibleTrees('5', "353") == 2 && VisibleTrees('5', "3") == 1;
    assert VisibleTrees('5', "33") == 2 && VisibleTrees('5', "49") == 2;
  }

  lemma ExampleLines33()
    ensures Rectangular(Example)
    ensures Example[3][3] == '4'
    ensures Up(3, 3, Example) == "317" && Down(3, 3, Example) == "9"
    ensures Left(3, 3, Example) == "533" && Right(3, 3, Example) == "9"
  {
    assert Example[3] == "33549";
  }

  lemma ExampleScore33()
    ensures ScenicScore(3, 3, Example, Example[3][3]) == 3
  {
    ExampleLines33();
    ScoreOf(3, 3, Example, '4', "317", "9", "533", "9");
    assert VisibleTrees('4', "317") == 3 && VisibleTrees('4', "9") == 1;
    assert VisibleTrees('4', "533") == 1 && VisibleTrees('4', "9") == 1;
  }

  /** No example tree scores more than 8. */
  lemma ExampleScoresAtMost8(x: nat, y: nat)
    requires x < 5 && y < 5
    ensures ScenicScore(x, y, Example, Example[y][x]) <= 8
  {
    if x == 1 && y == 1 { ExampleScore11(); } else if x == 2 && y == 1 { ExampleScore21(); } else if x == 3 && y == 1 { ExampleScore31(); } else if x == 1 && y == 2 { ExampleScore12(); } else if x == 2 && y == 2 { ExampleScore22(); } else if x == 3 && y == 2 { ExampleScore32(); } else if x == 1 && y == 3 { ExampleScore13(); } else if x == 2 && y == 3 { ExampleScore23(); } else if x == 3 && y == 3 { ExampleScore33(); }
  }

  lemma ExampleScoresAtMost8All()
    ensures Rectangular(Example) && ScoresAtMost(Example, 8)
  {
    assert Rectangular(Example);
    forall x, y | 0 <= y < |Example| && 0 <= x < |Example[0]|
      ensures ScenicScore(x, y, Example, Example[y][x]) <= 8
    {
      ExampleScoresAtMost8(x, y);
    }
  }

  /** The best example score is the 8 of the middle tree in the fourth row. */
  lemma ExamplePart2()
    ensures SolvePart2(Example) == 8
  {
    ExampleScoresAtMost8All();
    ExampleScore23();
    BestScore(Example, 2, 3, 8);
  }
}
