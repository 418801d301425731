/**
 * Day 20, Grove Positioning System: mixing an encrypted file. Each number, in its
 * original order, moves along a circular list by its own value.
 */
module Day20 {
  import opened Wrappers
  import opened Text
  import opened Sums
  import opened Arith

  /** `Element`: a number tagged with its place in the original file, so that equal numbers stay apart. */
  datatype Element = Element(index: nat, value: int)

  /** `read_input`'s tagging: each number with its place. */
  function Tag(values: seq<int>): (r: seq<Element>)
    ensures |r| == |values| && Distinct(r)
    ensures forall i | 0 <= i < |r| :: r[i].value == values[i]
  {
    seq(|values|, i requires 0 <= i < |values| => Element(i, values[i]))
  }

  /** The numbers, without their tags. */
  function Values(elements: seq<Element>): (r: seq<int>)
    ensures |r| == |elements| && forall i | 0 <= i < |r| :: r[i] == elements[i].value
  {
    seq(|elements|, i requires 0 <= i < |elements| => elements[i].value)
  }

  /** `iter().position(|x| x == e)`: the first place holding `e`. */
  function Position<T(==)>(xs: seq<T>, e: T): (r: nat)
    requires e in xs
    ensures r < |xs| && xs[r] == e
    ensures forall i | 0 <= i < r :: xs[i] != e
  {
    if xs[0] == e then 0 else 1 + Position(xs[1..], e)
  }

  /** Among unique elements, the first place holding `e` is the only one. */
  lemma UniquePosition<T>(xs: seq<T>, e: T, p: nat)
    requires Distinct(xs) && p < |xs| && xs[p] == e
    ensures Position(xs, e) == p
  {
  }

  /** `Vec::insert`: `e` placed at `idx`, the elements from there on moved up by one. */
  function Insert<T>(xs: seq<T>, idx: nat, e: T): (r: seq<T>)
    requires idx <= |xs|
    ensures |r| == |xs| + 1 && r[idx] == e
  {
    xs[..idx] + [e] + xs[idx..]
  }

  lemma InsertMultiset<T>(xs: seq<T>, idx: nat, e: T)
    requires idx <= |xs|
    ensures multiset(Insert(xs, idx, e)) == multiset(xs) + multiset{e}
  {
    assert xs == xs[..idx] + xs[idx..];
  }

  /** Inserting and removing at the same place undo each other. */
  lemma InsertRemoveAt<T>(xs: seq<T>, idx: nat, e: T)
    requires idx <= |xs|
    ensures RemoveAt(Insert(xs, idx, e), idx) == xs
  {
    var r := Insert(xs, idx, e);
    assert r[..idx] == xs[..idx] && r[idx + 1..] == xs[idx..];
  }

  lemma RemoveAtInsert<T>(xs: seq<T>, idx: nat)
    requires idx < |xs|
    ensures Insert(RemoveAt(xs, idx), idx, xs[idx]) == xs
  {
    var r := RemoveAt(xs, idx);
    assert r[..idx] == xs[..idx] && r[idx..] == xs[idx + 1..];
  }

  /** Where `make_move` puts `e`: its old place plus its value, around a circle one shorter. */
  function Landing(elements: seq<Element>, e: Element): (r: nat)
    requires e in elements && |elements| >= 2
    ensures r < |elements| - 1
  {
    (e.value + Position(elements, e)) % (|elements| - 1)
  }

  /**
   * `make_move`: `e` is taken out and put back `e.value` places further on, counted
   * around the circle of the other elements. The result is a rearrangement of the input,
   * `e` lands at its landing place, and the other elements keep their order.
   */
  function MakeMove(elements: seq<Element>, e: Element): (r: seq<Element>)
    requires e in elements && |elements| >= 2
    ensures |r| == |elements| && multiset(r) == multiset(elements)
    ensures r[Landing(elements, e)] == e
    ensures RemoveAt(r, Landing(elements, e)) == RemoveAt(elements, Position(elements, e))
    ensures Distinct(elements) ==> Distinct(r)
  {
    var position := Position(elements, e);
    var rest := RemoveAt(elements, position);
    RemoveAtMultiset(elements, position);
    var r := Insert(rest, Landing(elements, e), e);
    InsertMultiset(rest, Landing(elements, e), e);
    InsertRemoveAt(rest, Landing(elements, e), e);
    UniqueByMultiset(elements, r);
    r
  }

  /** The moved list is the rest with `e` inserted at its landing place. */
  lemma MakeMoveIs(elements: seq<Element>, e: Element)
    requires e in elements && |elements| >= 2
    ensures MakeMove(elements, e) == Insert(RemoveAt(elements, Position(elements, e)), Landing(elements, e), e)
  {
  }

  /** Being free of repeats depends only on the multiset. */
  lemma UniqueByMultiset<T>(a: seq<T>, b: seq<T>)
    requires multiset(a) == multiset(b)
    ensures Distinct(a) ==> Distinct(b)
  {
    if Distinct(a) && !Distinct(b) {
      var i, j :| 0 <= i < j < |b| && b[i] == b[j];
      assert multiset(b)[b[i]] >= 2 by {
        assert b == b[..i] + [b[i]] + b[i + 1..j] + [b[j]] + b[j + 1..];
      }
      UniqueCount(a, b[i]);
    }
  }

  lemma {:induction false} UniqueCount<T>(a: seq<T>, x: T)
    requires Distinct(a)
    ensures multiset(a)[x] <= 1
  {
    if a != [] {
      var init := a[..|a| - 1];
      assert a == init + [a[|a| - 1]];
      UniqueCount(init, x);
      if x == a[|a| - 1] {
        assert x !in init;
      }
    }
  }

  /** Moving each element of `order` in turn, as the `fold` does. */
  function MixAll(elements: seq<Element>, order: seq<Element>): (r: seq<Element>)
    requires |elements| >= 2 && forall i | 0 <= i < |order| :: order[i] in elements
    ensures |r| == |elements| && multiset(r) == multiset(elements)
    ensures Distinct(elements) ==> Distinct(r)
    decreases |order|
  {
    if order == [] then elements
    else
      var moved := MakeMove(elements, order[0]);
      forall i | 0 <= i < |order[1..]|
        ensures order[1..][i] in moved
      {
        assert order[1..][i] in multiset(elements);
      }
      MixAll(moved, order[1..])
  }

  /** `rounds` rounds of mixing in the file's order. */
  function Rounds(file: seq<Element>, elements: seq<Element>, rounds: nat): (r: seq<Element>)
    requires |elements| >= 2 && multiset(file) <= multiset(elements)
    ensures |r| == |elements| && multiset(r) == multiset(elements)
    ensures Distinct(elements) ==> Distinct(r)
    decreases rounds
  {
    forall i | 0 <= i < |file|
      ensures file[i] in elements
    {
      assert file[i] in multiset(file);
    }
    if rounds == 0 then elements else Rounds(file, MixAll(elements, file), rounds - 1)
  }

  /** The zero's place when the list is read from a start `k` places on. */
  function Rotate<T>(xs: seq<T>, k: nat): (r: seq<T>)
    requires k <= |xs|
    ensures |r| == |xs|
  {
    xs[k..] + xs[..k]
  }

  /**
   * `grove_coordinates`: the numbers 1000, 2000 and 3000 places after the first 0, around
   * the circle, added up; none without a 0, where the source panics.
   */
  function GroveCoordinates(numbers: seq<int>): (r: Option<int>)
    ensures r.Some? <==> 0 in numbers
  {
    if 0 !in numbers then None
    else
      var start := Position(numbers, 0);
      var size := |numbers|;
      Some(numbers[(start + 1000) % size] + numbers[(start + 2000) % size] + numbers[(start + 3000) % size])
  }

  /** Exactly one place holds zero. */
  predicate OneZero(xs: seq<int>)
  {
    0 in xs && forall i, j | 0 <= i < |xs| && 0 <= j < |xs| && xs[i] == 0 && xs[j] == 0 :: i == j
  }

  lemma RotateIndex<T>(xs: seq<T>, k: nat, i: nat)
    requires k <= |xs| && i < |xs|
    ensures Rotate(xs, k)[i] == xs[(i + k) % |xs|]
  {
    var n := |xs|;
    if i + k < n {
      DivModUnique(i + k, n, 0, i + k);
    } else {
      DivModUnique(i + k, n, 1, i + k - n);
    }
  }

  /** Reducing one summand first does not change a remainder. */
  lemma ModAdd(a: int, b: int, n: int)
    requires n > 0
    ensures (a % n + b) % n == (a + b) % n
  {
    assert a + b == (a / n) * n + (a % n + b);
    ModMultiple(a / n, n, a % n + b);
  }

  /** Where the zero of `xs` sits once the list is rotated by `k`. */
  lemma RotatedZero(xs: seq<int>, k: nat, p: nat)
    requires k <= |xs| && p < |xs| && OneZero(xs) && xs[p] == 0
    ensures OneZero(Rotate(xs, k))
    ensures Position(Rotate(xs, k), 0) == (p - k) % |xs|
  {
    var n, r := |xs|, Rotate(xs, k);
    var q := (p - k) % n;
    RotateIndex(xs, k, q);
    ModAdd(p - k, k, n);
    DivModUnique(p, n, 0, p);
    assert r[q] == 0;
    forall i: nat, j: nat | i < n && j < n && r[i] == 0 && r[j] == 0
      ensures i == j
    {
      RotateIndex(xs, k, i);
      RotateIndex(xs, k, j);
      var a, b := (i + k) % n, (j + k) % n;
      assert a == b;
      DivModUnique(i, n, 0, i);
      DivModUnique(j, n, 0, j);
      var back := -(k as int);
      ModAdd(i + k, back, n);
      ModAdd(j + k, back, n);
    }
  }

  /**
   * The grove coordinates do not depend on where the circle is cut open: with a single
   * zero, every rotation of the list gives the same answer.
   */
  lemma GroveRotation(xs: seq<int>, k: nat)
    requires k <= |xs| && OneZero(xs)
    ensures GroveCoordinates(Rotate(xs, k)) == GroveCoordinates(xs)
  {
    var n, r, p := |xs|, Rotate(xs, k), Position(xs, 0);
    RotatedZero(xs, k, p);
    var q := (p - k) % n;
    RotatedTerm(xs, k, p, q, 1000);
    RotatedTerm(xs, k, p, q, 2000);
    RotatedTerm(xs, k, p, q, 3000);
    var v := xs[(p + 1000) % n] + xs[(p + 2000) % n] + xs[(p + 3000) % n];
    GroveAt(xs, p, v);
    GroveAt(r, q, v);
  }

  /** The coordinates read from a known place of the zero. */
  lemma GroveAt(xs: seq<int>, p: nat, v: int)
    requires 0 in xs && Position(xs, 0) == p
    requires v == xs[(p + 1000) % |xs|] + xs[(p + 2000) % |xs|] + xs[(p + 3000) % |xs|]
    ensures GroveCoordinates(xs) == Some(v)
  {
    var r := GroveCoordinates(xs);
    assert r.Some? && r.value == v;
  }

  /** The number `m` places after the zero is the same in the rotated list, whose zero is at `q`. */
  lemma RotatedTerm(xs: seq<int>, k: nat, p: nat, q: int, m: nat)
    requires k <= |xs| && p < |xs| && q == (p - k) % |xs|
    ensures 0 <= (q + m) % |xs| < |xs|
    ensures Rotate(xs, k)[(q + m) % |xs|] == xs[(p + m) % |xs|]
  {
    var n := |xs|;
    ModShift(p, k, m, n);
    RotatedAt(xs, k, (q + m) % n, (p + m) % n);
  }

  /** Index `t` of the list rotated by `k` holds the entry `k` further on in the original. */
  lemma RotatedAt(xs: seq<int>, k: nat, t: int, u: int)
    requires k <= |xs| && 0 <= t < |xs| && u == (t + k) % |xs|
    ensures 0 <= u < |xs| && Rotate(xs, k)[t] == xs[u]
  {
    RotateIndex(xs, k, t);
  }

  /** Stepping back `k`, on `m`, and forward `k` again, modulo `n`. */
  lemma ModShift(p: int, k: int, m: int, n: int)
    requires n > 0
    ensures (((p - k) % n + m) % n + k) % n == (p + m) % n
  {
    var q := (p - k) % n;
    ModAdd(q + m, k, n);
    assert q + m + k == q + (m + k);
    ModAdd(p - k, m + k, n);
    assert p - k + (m + k) == p + m;
  }

  /** The `example_coordinates` case. */
  lemma ExampleCoordinates()
    ensures GroveCoordinates([1, 2, -3, 4, 0, 3, -2]) == Some(3)
  {
    var xs := [1, 2, -3, 4, 0, 3, -2];
    assert Position(xs, 0) == 4;
    assert 1004 % 7 == 3 && 2004 % 7 == 2 && 3004 % 7 == 1;
  }

  /** `solve_part1`: one round of mixing; none when the file holds no 0. */
  function SolvePart1(file: seq<Element>): (r: Option<int>)
    requires |file| >= 2
    ensures r == GroveCoordinates(Values(Rounds(file, file, 1)))
    ensures r.Some? <==> exists i :: 0 <= i < |file| && file[i].value == 0
    ensures r.Some? ==> exists i, j, k :: SumOfThree(file, i, j, k, r.value)
  {
    var mixed := MixAll(file, file);
    GroveOfMix(file, mixed);
    GroveCoordinates(Values(mixed))
  }

  /** `v` is the sum of the numbers at places `i`, `j` and `k` of the file. */
  predicate SumOfThree(file: seq<Element>, i: int, j: int, k: int, v: int)
  {
    0 <= i < |file| && 0 <= j < |file| && 0 <= k < |file| && v == file[i].value + file[j].value + file[k].value
  }

  /** Mixing only rearranges the file, so the coordinates exist exactly when the file holds a 0 and add up three of its numbers. */
  lemma GroveOfMix(file: seq<Element>, mixed: seq<Element>)
    requires multiset(mixed) == multiset(file)
    ensures GroveCoordinates(Values(mixed)).Some? <==> exists i :: 0 <= i < |file| && file[i].value == 0
    ensures GroveCoordinates(Values(mixed)).Some? ==> exists i, j, k :: SumOfThree(file, i, j, k, GroveCoordinates(Values(mixed)).value)
  {
    var vs := Values(mixed);
    forall e | e in mixed
      ensures e in file
    {
      assert e in multiset(mixed);
    }
    forall e | e in file
      ensures e in mixed
    {
      assert e in multiset(file);
    }
    if exists i :: 0 <= i < |file| && file[i].value == 0 {
      var i :| 0 <= i < |file| && file[i].value == 0;
      assert file[i] in mixed;
      var m :| 0 <= m < |mixed| && mixed[m] == file[i];
      assert vs[m] == 0;
    }
    if 0 in vs {
      var m :| 0 <= m < |vs| && vs[m] == 0;
      assert mixed[m] in file;
      var i :| 0 <= i < |file| && file[i] == mixed[m];
      assert file[i].value == 0;
      var start := Position(vs, 0);
      var a, b, c := (start + 1000) % |vs|, (start + 2000) % |vs|, (start + 3000) % |vs|;
      assert mixed[a] in file && mixed[b] in file && mixed[c] in file;
      var ia :| 0 <= ia < |file| && file[ia] == mixed[a];
      var ib :| 0 <= ib < |file| && file[ib] == mixed[b];
      var ic :| 0 <= ic < |file| && file[ic] == mixed[c];
      assert SumOfThree(file, ia, ib, ic, GroveCoordinates(vs).value);
    }
  }

  /** `decryption_key` */
  const DecryptionKey: int := 811589153

  function Decrypt(file: seq<Element>): (r: seq<Element>)
    ensures |r| == |file| && forall i | 0 <= i < |r| :: r[i] == Element(file[i].index, DecryptionKey * file[i].value)
  {
    seq(|file|, i requires 0 <= i < |file| => Element(file[i].index, DecryptionKey * file[i].value))
  }

  /** `solve_part2`: the numbers multiplied by the key, then ten rounds of mixing. */
  function SolvePart2(input: seq<Element>): (r: Option<int>)
    requires |input| >= 2
    ensures r.Some? <==> exists i :: 0 <= i < |input| && input[i].value == 0
    ensures r.Some? ==> exists i, j, k :: SumOfThree(input, i, j, k, r.value / DecryptionKey) && r.value % DecryptionKey == 0
  {
    var file := Decrypt(input);
    var mixed := Rounds(file, file, 10);
    GroveOfMix(file, mixed);
    DecryptedSums(input, file, GroveCoordinates(Values(mixed)));
    GroveCoordinates(Values(mixed))
  }

  /** The decrypted file holds a 0 where the input does, and its sums of three are the key times the input's. */
  lemma DecryptedSums(input: seq<Element>, file: seq<Element>, r: Option<int>)
    requires file == Decrypt(input)
    ensures (exists i :: 0 <= i < |file| && file[i].value == 0) <==> exists i :: 0 <= i < |input| && input[i].value == 0
    ensures r.Some? && (exists i, j, k :: SumOfThree(file, i, j, k, r.value)) ==>
              exists i, j, k :: SumOfThree(input, i, j, k, r.value / DecryptionKey) && r.value % DecryptionKey == 0
  {
    if r.Some? && exists i, j, k :: SumOfThree(file, i, j, k, r.value) {
      var i, j, k :| SumOfThree(file, i, j, k, r.value);
      var v := input[i].value + input[j].value + input[k].value;
      assert r.value == DecryptionKey * v;
      assert r.value / DecryptionKey == v && r.value % DecryptionKey == 0;
      assert SumOfThree(input, i, j, k, r.value / DecryptionKey);
    }
  }

  /** One line of the file: an `i64`. */
  function ParseNumber(s: string): (r: Option<(int, string)>)
    ensures r.Some? ==> |r.value.1| < |s|
  {
    ParseSignedPrefix(s, I64Min, I64Max)
  }

  /** `read_input`: one number per line, tagged with its place. */
  function ReadInput(s: string): Option<seq<Element>>
  {
    match SeparatedLines(ParseNumber, s, true)
    case None => None
    case Some((values, _)) => Some(Tag(values))
  }

  /** A file of `i64` numbers written one per line reads back as the numbers, tagged. */
  lemma ReadShowInput(values: seq<int>)
    requires |values| >= 1
    requires forall i | 0 <= i < |values| :: I64Min <= values[i] <= I64Max
    ensures ReadInput(Join(seq(|values|, i requires 0 <= i < |values| => ShowInt(values[i])), "\n")) == Some(Tag(values))
  {
    var lines := seq(|values|, i requires 0 <= i < |values| => ShowInt(values[i]));
    var item: string -> Option<(int, string)> := ParseNumber;
    forall i, rest {:trigger item(lines[i] + rest)} | 0 <= i < |lines| && (rest == [] || rest[0] == '\n')
      ensures item(lines[i] + rest) == Some((values[i], rest))
    {
      ParseSignedShow(values[i], rest, I64Min, I64Max);
    }
    SeparatedLinesJoin(item, lines, values, true);
  }
}
