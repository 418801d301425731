/**
 * Bit masks over natural numbers. Day 16 keeps its set of closed valves in a `u16`;
 * here a mask is a `nat` whose bit `i` is `Has(m, i)`, and the bitwise operators the
 * solver uses are defined one bit at a time.
 */
module Bits {

  function Pow2(k: nat): (r: nat)
    ensures r >= 1
  {
    if k == 0 then 1 else 2 * Pow2(k - 1)
  }

  /** `2^k - 1`: the mask with the low `k` bits set. */
  function Ones(k: nat): nat
  {
    Pow2(k) - 1
  }

  /** `m & (1 << i) != 0` */
  predicate Has(m: nat, i: nat)
  {
    if i == 0 then m % 2 == 1 else Has(m / 2, i - 1)
  }

  /** `m | n` */
  function Or(m: nat, n: nat): nat
    decreases m + n
  {
    if m == 0 && n == 0 then 0
    else 2 * Or(m / 2, n / 2) + (if m % 2 == 1 || n % 2 == 1 then 1 else 0)
  }

  /** `!a & m`: the bits of `m` that are not bits of `a`. */
  function AndNot(a: nat, m: nat): nat
  {
    if m == 0 then 0
    else 2 * AndNot(a / 2, m / 2) + (if m % 2 == 1 && a % 2 == 0 then 1 else 0)
  }

  lemma {:induction false} HasPow2(k: nat, i: nat)
    ensures Has(Pow2(k), i) <==> i == k
  {
    if k > 0 && i > 0 {
      HasPow2(k - 1, i - 1);
    } else if k > 0 {
      assert Pow2(k) == 2 * Pow2(k - 1);
    } else if i > 0 {
      HasZero(i - 1);
    }
  }

  lemma {:induction false} HasZero(i: nat)
    ensures !Has(0, i)
  {
    if i > 0 {
      HasZero(i - 1);
    }
  }

  lemma {:induction false} HasOnes(k: nat, i: nat)
    ensures Has(Ones(k), i) <==> i < k
  {
    if k == 0 {
      HasZero(i);
    } else {
      assert Ones(k) == 2 * Ones(k - 1) + 1;
      if i > 0 {
        HasOnes(k - 1, i - 1);
      }
    }
  }

  lemma {:induction false} HasOr(m: nat, n: nat, i: nat)
    ensures Has(Or(m, n), i) <==> Has(m, i) || Has(n, i)
    decreases m + n
  {
    if m == 0 && n == 0 {
      HasZero(i);
    } else if i > 0 {
      HasOr(m / 2, n / 2, i - 1);
    }
  }

  lemma {:induction false} HasAndNot(a: nat, m: nat, i: nat)
    ensures Has(AndNot(a, m), i) <==> Has(m, i) && !Has(a, i)
  {
    if m == 0 {
      HasZero(i);
    } else if i > 0 {
      HasAndNot(a / 2, m / 2, i - 1);
    }
  }

  /** Clearing the bits of `a` from the all-ones mask `2^k - 1` is subtraction. */
  lemma {:induction false} AndNotOnes(a: nat, k: nat)
    requires a <= Ones(k)
    ensures AndNot(a, Ones(k)) == Ones(k) - a
  {
    if k > 0 {
      assert Ones(k) == 2 * Ones(k - 1) + 1;
      AndNotOnes(a / 2, k - 1);
    }
  }

  /** A mask below `2^k` has no bit at or above `k`. */
  lemma {:induction false} HasBelow(m: nat, k: nat, i: nat)
    requires m < Pow2(k) && k <= i
    ensures !Has(m, i)
  {
    if k == 0 {
      assert m == 0;
      HasZero(i);
    } else {
      HasBelow(m / 2, k - 1, i - 1);
    }
  }
}
