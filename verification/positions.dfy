/**
 * The places in a sequence where a predicate holds, counted from one: the
 * positions of the divider packets in Day 13.
 */
module Positions {
  /** The one-based places `n + 1, n + 2, …` of the elements of `s` from index `n` on that satisfy `p`. */
  function Places<T>(p: T -> bool, s: seq<T>, n: nat): seq<nat>
    decreases |s| - n
  {
    if n >= |s| then [] else (if p(s[n]) then [n + 1] else []) + Places(p, s, n + 1)
  }

  /** Indexes where `p` fails add no places. */
  lemma {:induction false} SkipNone<T>(p: T -> bool, s: seq<T>, lo: nat, hi: nat)
    requires lo <= hi <= |s|
    requires forall m :: lo <= m < hi ==> !p(s[m])
    ensures Places(p, s, lo) == Places(p, s, hi)
    decreases hi - lo
  {
    if lo < hi {
      SkipNone(p, s, lo + 1, hi);
      assert Places(p, s, lo) == [] + Places(p, s, lo + 1);
    }
  }

  /** Every place lies in the range examined, and `p` holds there. */
  lemma {:induction false} PlacesSound<T>(p: T -> bool, s: seq<T>, n: nat)
    ensures forall k :: 0 <= k < |Places(p, s, n)| ==> n < Places(p, s, n)[k] <= |s| && p(s[Places(p, s, n)[k] - 1])
    decreases |s| - n
  {
    if n < |s| {
      PlacesSound(p, s, n + 1);
    }
  }

  /** When `p` holds at exactly two places, those are the places. */
  lemma PlacesOfTwo<T>(p: T -> bool, s: seq<T>, i: nat, j: nat)
    requires i < j < |s| && p(s[i]) && p(s[j])
    requires forall m :: 0 <= m < |s| && m != i && m != j ==> !p(s[m])
    ensures Places(p, s, 0) == [i + 1, j + 1]
  {
    SkipNone(p, s, 0, i);
    SkipNone(p, s, i + 1, j);
    SkipNone(p, s, j + 1, |s|);
    assert Places(p, s, j) == [j + 1] + [];
    assert Places(p, s, i) == [i + 1] + [j + 1];
  }

  /** An element at two places occurs at least twice. */
  lemma Occurrences<T>(s: seq<T>, i: nat, m: nat)
    requires i < |s| && m < |s|
    ensures i != m && s[i] == s[m] ==> multiset(s)[s[i]] >= 2
  {
    if i < m {
      assert s == s[..i] + [s[i]] + s[i + 1..m] + [s[m]] + s[m + 1..];
    } else if m < i {
      assert s == s[..m] + [s[m]] + s[m + 1..i] + [s[i]] + s[i + 1..];
    }
  }
}
