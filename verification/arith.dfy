/** Facts about Euclidean division that the solvers' modular arithmetic rests on. */
module Arith {

  /** A non-zero multiple of a positive `d` is at least `d` away from zero. */
  lemma MultipleAwayFromZero(k: int, d: int)
    requires d > 0
    ensures k >= 1 ==> d * k >= d
    ensures k <= -1 ==> d * k <= -d
  {
    if k >= 1 {
      assert d * k == d * (k - 1) + d;
    } else if k <= -1 {
      assert d * k == d * (k + 1) - d;
    }
  }

  /** A multiple of `d` strictly between `-d` and `d` is zero. */
  lemma MultipleInRange(k: int, d: int)
    requires d > 0 && -d < d * k < d
    ensures k == 0
  {
    MultipleAwayFromZero(k, d);
  }

  /** Quotient and remainder are the only pair that rebuilds `a` with the remainder in range. */
  lemma DivModUnique(a: int, d: int, q: int, r: int)
    requires d > 0 && 0 <= r < d && a == q * d + r
    ensures a / d == q && a % d == r
  {
    assert a == d * (a / d) + a % d;
    assert d * (q - a / d) == a % d - r;
    MultipleInRange(q - a / d, d);
  }

  /** Adding a multiple of `d` leaves the remainder modulo `d` alone. */
  lemma ModMultiple(q: int, d: int, r: int)
    requires d > 0
    ensures (q * d + r) % d == r % d
  {
    assert r == (r / d) * d + r % d;
    assert q * d + r == (q + r / d) * d + r % d;
    DivModUnique(q * d + r, d, q + r / d, r % d);
  }

  /** With `p` a multiple of `d`, reducing modulo `p` keeps the remainder modulo `d`. */
  lemma ReductionKeepsRemainder(w: int, p: int, d: int)
    requires d > 0 && p > 0 && p % d == 0
    ensures (w % p) % d == w % d
  {
    var k, q := p / d, w / p;
    assert p == k * d;
    assert w == (q * k) * d + w % p by {
      assert w == q * p + w % p;
    }
    ModMultiple(q * k, d, w % p);
  }

  /** Division truncated toward zero, as Rust's `/` on signed integers: the remainder left over is
    * smaller than the divisor and has the sign of the dividend. */
  function Quot(a: int, b: int): (q: int)
    requires b != 0
    ensures b > 0 ==> -b < a - q * b < b
    ensures b < 0 ==> b < a - q * b < -b
    ensures a >= 0 ==> a - q * b >= 0
    ensures a <= 0 ==> a - q * b <= 0
  {
    if a >= 0 then
      if b > 0 then DivBounds(a, b); a / b
      else DivBounds(a, -b); NegateProduct(a / -b, b); -(a / -b)
    else
      if b > 0 then DivBounds(-a, b); NegateProduct((-a) / b, b); -((-a) / b)
      else DivBounds(-a, -b); NegateProduct((-a) / (-b), b); (-a) / (-b)
  }

  /** Euclidean division of a natural number leaves a remainder below the divisor. */
  lemma DivBounds(n: int, d: int)
    requires n >= 0 && d > 0
    ensures 0 <= n - (n / d) * d < d
  {
  }

  lemma NegateProduct(x: int, y: int)
    ensures (-x) * y == x * (-y) == -(x * y)
  {
  }

  /** When `b` divides `a` exactly, the truncated quotient is the exact one. */
  lemma QuotExact(a: int, b: int, q: int)
    requires b != 0 && a == q * b
    ensures Quot(a, b) == q
  {
    var d := if b > 0 then b else -b;
    var k := if b > 0 then q - Quot(a, b) else Quot(a, b) - q;
    assert a - Quot(a, b) * b == d * k;
    MultipleInRange(k, d);
  }

  /** `d` is a positive divisor of `n`. */
  predicate Divides(d: nat, n: nat)
  {
    d > 0 && n % d == 0
  }

  /** The common divisors of `a` and `b` are those of `b` and `a % b`. */
  lemma EuclidStep(a: nat, b: nat, d: nat)
    requires b > 0
    ensures Divides(d, a) && Divides(d, b) <==> Divides(d, b) && Divides(d, a % b)
  {
    if d > 0 && b % d == 0 {
      var q, bq := a / b, b / d;
      assert b == bq * d;
      assert a == q * b + a % b;
      if a % d == 0 {
        var aq := a / d;
        assert a % b == (aq - q * bq) * d + 0;
        ModMultiple(aq - q * bq, d, 0);
      } else if a % b % d == 0 {
        var rq := (a % b) / d;
        assert a == (q * bq + rq) * d + 0;
        ModMultiple(q * bq + rq, d, 0);
      }
    }
  }
}
