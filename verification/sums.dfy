/** Sums and orderings the solvers share. */
module Sums {
  import opened Wrappers

  /** `iter().sum()` */
  function Sum(xs: seq<int>): int
  {
    if xs == [] then 0 else xs[0] + Sum(xs[1..])
  }

  lemma {:induction false} SumAppend(a: seq<int>, b: seq<int>)
    ensures Sum(a + b) == Sum(a) + Sum(b)
  {
    if a != [] {
      assert (a + b)[1..] == a[1..] + b;
      SumAppend(a[1..], b);
    } else {
      assert a + b == b;
    }
  }

  /** The sum of `f` over the elements of `xs`, as in `iter().map(f).sum()`. */
  function SumOf<T>(f: T -> int, xs: seq<T>): int
  {
    if xs == [] then 0 else f(xs[0]) + SumOf(f, xs[1..])
  }

  lemma {:induction false} SumOfAppend<T>(f: T -> int, a: seq<T>, b: seq<T>)
    ensures SumOf(f, a + b) == SumOf(f, a) + SumOf(f, b)
  {
    if a == [] {
      assert a + b == b;
    } else {
      assert (a + b)[1..] == a[1..] + b;
      SumOfAppend(f, a[1..], b);
    }
  }

  /** Terms between `lo` and `hi` add up to between `n * lo` and `n * hi`. */
  lemma {:induction false} SumOfBounds<T>(f: T -> int, xs: seq<T>, lo: int, hi: int)
    requires forall i :: 0 <= i < |xs| ==> lo <= f(xs[i]) <= hi
    ensures |xs| * lo <= SumOf(f, xs) <= |xs| * hi
  {
    if xs != [] {
      assert forall i :: 0 <= i < |xs[1..]| ==> xs[1..][i] == xs[i + 1];
      SumOfBounds(f, xs[1..], lo, hi);
      assert |xs| * lo == lo + (|xs| - 1) * lo;
      assert |xs| * hi == hi + (|xs| - 1) * hi;
    }
  }

  lemma SumOfShort<T>(f: T -> int, xs: seq<T>)
    requires |xs| <= 3
    ensures |xs| == 1 ==> SumOf(f, xs) == f(xs[0])
    ensures |xs| == 2 ==> SumOf(f, xs) == f(xs[0]) + f(xs[1])
    ensures |xs| == 3 ==> SumOf(f, xs) == f(xs[0]) + f(xs[1]) + f(xs[2])
  {
    if |xs| >= 2 {
      assert SumOf(f, xs[1..][1..]) == if |xs| == 3 then f(xs[2]) else 0;
    }
  }

  lemma {:induction false} SumIsSumOf(xs: seq<int>)
    ensures SumOf(x => x, xs) == Sum(xs)
  {
    if xs != [] {
      SumIsSumOf(xs[1..]);
    }
  }

  /** `xs` without the element at `idx`. */
  function RemoveAt<T>(xs: seq<T>, idx: nat): (r: seq<T>)
    requires idx < |xs|
    ensures |r| == |xs| - 1
  {
    xs[..idx] + xs[idx + 1..]
  }

  lemma RemoveAtMultiset<T>(xs: seq<T>, idx: nat)
    requires idx < |xs|
    ensures multiset(RemoveAt(xs, idx)) == multiset(xs) - multiset{xs[idx]}
  {
    assert xs == xs[..idx] + [xs[idx]] + xs[idx + 1..];
  }

  lemma {:induction false} SumOfRemoveAt<T>(f: T -> int, xs: seq<T>, idx: nat)
    requires idx < |xs|
    ensures SumOf(f, xs) == f(xs[idx]) + SumOf(f, RemoveAt(xs, idx))
  {
    var r := RemoveAt(xs, idx);
    if idx == 0 {
      assert r == xs[1..];
    } else {
      SumOfRemoveAt(f, xs[1..], idx - 1);
      assert r[0] == xs[0];
      assert r[1..] == RemoveAt(xs[1..], idx - 1);
    }
  }

  /** A sum does not depend on the order of its terms. */
  lemma {:induction false} SumOfPermutation<T>(f: T -> int, a: seq<T>, b: seq<T>)
    requires multiset(a) == multiset(b)
    ensures SumOf(f, a) == SumOf(f, b)
    decreases |a|
  {
    if a == [] {
      assert |b| == |multiset(b)| == 0;
    } else {
      assert a[0] in multiset(b);
      var idx :| 0 <= idx < |b| && b[idx] == a[0];
      assert a == [a[0]] + a[1..];
      assert multiset(a[1..]) == multiset(a) - multiset{a[0]};
      RemoveAtMultiset(b, idx);
      SumOfPermutation(f, a[1..], RemoveAt(b, idx));
      SumOfRemoveAt(f, b, idx);
    }
  }

  /** A sum of non-negative terms is at least each of its terms. */
  lemma {:induction false} SumNonNegative(xs: seq<int>)
    requires forall i :: 0 <= i < |xs| ==> xs[i] >= 0
    ensures Sum(xs) >= 0
    ensures forall i :: 0 <= i < |xs| ==> xs[i] <= Sum(xs)
  {
    if xs != [] {
      SumNonNegative(xs[1..]);
      assert forall i :: 1 <= i < |xs| ==> xs[i] == xs[1..][i - 1];
    }
  }

  /** No element occurs twice. */
  predicate Distinct<T(==)>(xs: seq<T>)
  {
    forall i, j | 0 <= i < j < |xs| :: xs[i] != xs[j]
  }

  /** A duplicate-free sequence has as many elements as its set of members. */
  lemma {:induction false} DistinctCard<T>(s: seq<T>)
    requires Distinct(s)
    ensures |(set x | x in s)| == |s|
  {
    if s != [] {
      var rest := s[1..];
      assert Distinct(rest) by {
        forall i, j | 0 <= i < j < |rest| ensures rest[i] != rest[j] {
          assert rest[i] == s[i + 1] && rest[j] == s[j + 1];
        }
      }
      DistinctCard(rest);
      assert (set x | x in s) == {s[0]} + (set x | x in rest);
      assert s[0] !in (set x | x in rest);
    }
  }

  /** Two duplicate-free sequences with the same members have the same length. */
  lemma DistinctSameLength<T>(a: seq<T>, b: seq<T>)
    requires Distinct(a) && Distinct(b)
    requires forall x :: x in a <==> x in b
    ensures |a| == |b|
  {
    DistinctCard(a);
    DistinctCard(b);
    assert (set x | x in a) == (set x | x in b);
  }

  /** `iter().filter(p).count()` */
  function Count<T>(p: T -> bool, xs: seq<T>): (r: nat)
    ensures r <= |xs|
  {
    if xs == [] then 0 else (if p(xs[0]) then 1 else 0) + Count(p, xs[1..])
  }

  /** Counting over two runs adds up, and the count is all or nothing exactly when all or none match. */
  lemma {:induction false} CountProperties<T>(p: T -> bool, a: seq<T>, b: seq<T>)
    ensures Count(p, a + b) == Count(p, a) + Count(p, b)
    ensures Count(p, a) == |a| <==> forall i :: 0 <= i < |a| ==> p(a[i])
    ensures Count(p, a) == 0 <==> forall i :: 0 <= i < |a| ==> !p(a[i])
  {
    if a == [] {
      assert a + b == b;
    } else {
      assert (a + b)[1..] == a[1..] + b;
      CountProperties(p, a[1..], b);
      assert forall i :: 1 <= i < |a| ==> a[i] == a[1..][i - 1];
    }
  }

  /** `iter().min()` */
  function Min(xs: seq<int>): (r: Option<int>)
    ensures r.None? <==> xs == []
    ensures r.Some? ==> r.value in xs && forall i :: 0 <= i < |xs| ==> r.value <= xs[i]
  {
    if xs == [] then None
    else
      match Min(xs[1..])
      case None => Some(xs[0])
      case Some(m) =>
        assert forall i :: 1 <= i < |xs| ==> xs[i] == xs[1..][i - 1];
        if xs[0] <= m then Some(xs[0]) else Some(m)
  }

  /** `iter().max()` */
  function Max(xs: seq<int>): (r: Option<int>)
    ensures r.None? <==> xs == []
    ensures r.Some? ==> r.value in xs && forall i :: 0 <= i < |xs| ==> xs[i] <= r.value
  {
    if xs == [] then None
    else
      match Max(xs[1..])
      case None => Some(xs[0])
      case Some(m) =>
        assert forall i :: 1 <= i < |xs| ==> xs[i] == xs[1..][i - 1];
        if xs[0] >= m then Some(xs[0]) else Some(m)
  }

  /** `std::cmp::Ordering` */
  datatype Ordering = Less | Equal | Greater
  {
    /** The answer with the arguments swapped. */
    function Reverse(): (r: Ordering)
      ensures (r == Equal) == (this == Equal)
      ensures (r == Less) == (this == Greater)
    {
      match this
      case Less => Greater
      case Equal => Equal
      case Greater => Less
    }
  }

  lemma ReverseTwice(o: Ordering)
    ensures o.Reverse().Reverse() == o
  {
  }

  /** `a.cmp(&b)` on integers. */
  function Compare(a: int, b: int): (r: Ordering)
    ensures r == Less <==> a < b
    ensures r == Equal <==> a == b
    ensures r == Greater <==> a > b
  {
    if a < b then Less else if a == b then Equal else Greater
  }
}
