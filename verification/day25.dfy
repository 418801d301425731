/**
 * Day 25, Full of Hot Air: SNAFU numerals are written in base 5 with the digits
 * `=`, `-`, `0`, `1`, `2` standing for -2 … 2. The solver reads a SNAFU numeral by
 * shifting each digit up by two into an ordinary base-5 numeral and subtracting the
 * numeral of as many 2s; it writes one by adding such a numeral and shifting back.
 */
module Day25 {
  import opened Wrappers
  import opened Text

  // Base-5 numerals

  predicate IsBase5(c: char)
  {
    '0' <= c <= '4'
  }

  predicate AllBase5(s: string)
  {
    forall i | 0 <= i < |s| :: IsBase5(s[i])
  }

  function Pow5(k: nat): (r: nat)
    ensures r >= 1
  {
    if k == 0 then 1 else 5 * Pow5(k - 1)
  }

  /** Powers of five grow strictly. */
  lemma {:induction false} Pow5Order(i: nat, j: nat)
    ensures i < j <==> Pow5(i) < Pow5(j)
    decreases i + j
  {
    if i < j {
      Pow5Order(i, j - 1);
    } else if j < i {
      Pow5Order(j, i - 1);
    }
  }

  /** The value of a base-5 numeral, most significant digit first. */
  function Radix5Value(s: string): nat
    requires AllBase5(s)
  {
    if s == [] then 0 else 5 * Radix5Value(s[..|s| - 1]) + DigitValue(s[|s| - 1])
  }

  /** A numeral of `k` digits is worth less than `5^k`. */
  lemma {:induction false} Radix5Below(s: string)
    requires AllBase5(s)
    ensures Radix5Value(s) < Pow5(|s|)
  {
    if s != [] {
      Radix5Below(s[..|s| - 1]);
    }
  }

  /** A numeral whose leading digit is not `0` is worth at least `5^(k-1)`, `k` its length, and
    * at least three times that when the leading digit is `3` or `4`. */
  lemma {:induction false} LeadingDigitWeight(s: string)
    requires s != [] && AllBase5(s) && s[0] != '0'
    ensures Radix5Value(s) >= Pow5(|s| - 1)
    ensures s[0] >= '3' ==> Radix5Value(s) >= 3 * Pow5(|s| - 1)
  {
    if |s| > 1 {
      var init := s[..|s| - 1];
      assert init[0] == s[0];
      LeadingDigitWeight(init);
      var p := Pow5(|init| - 1);
      assert Pow5(|s| - 1) == 5 * p;
    }
  }

  /** `i64::from_str_radix(s, 5)`, unwrapped: at least one base-5 digit; `None` where it panics. */
  function FromStrRadix5(s: string): (r: Option<nat>)
    ensures r.Some? <==> s != [] && AllBase5(s)
    ensures r.Some? ==> r.value < Pow5(|s|)
  {
    if s != [] && AllBase5(s) then
      Radix5Below(s);
      Some(Radix5Value(s))
    else None
  }

  /** `radix_5(n)` formatted: the base-5 numeral of `n` without leading zeros, `"0"` for zero. */
  function Radix5(n: nat): (r: string)
    ensures |r| >= 1 && AllBase5(r)
    ensures Radix5Value(r) == n
    ensures |r| > 1 ==> r[0] != '0'
  {
    if n < 5 then [DigitChar(n)]
    else
      var r := Radix5(n / 5) + [DigitChar(n % 5)];
      assert r[..|r| - 1] == Radix5(n / 5);
      r
  }

  /** A base-5 numeral without leading zero is `Radix5` of its value: the numeral is unique. */
  lemma {:induction false} Radix5Canonical(s: string)
    requires s != [] && AllBase5(s) && (|s| > 1 ==> s[0] != '0')
    ensures Radix5(Radix5Value(s)) == s
  {
    var init, last := s[..|s| - 1], s[|s| - 1];
    var n := Radix5Value(s);
    if init == [] {
      assert s == [last];
    } else {
      assert init[0] == s[0];
      Radix5Canonical(init);
      LeadingDigitWeight(init);
      var m := Radix5Value(init);
      assert n == 5 * m + DigitValue(last);
      Radix5Step(n, m, DigitValue(last));
      assert DigitChar(DigitValue(last)) == last;
      assert s == init + [last];
    }
  }

  /** Past the first digit, `Radix5` writes the quotient's numeral and then the remainder's digit. */
  lemma Radix5Step(n: nat, m: nat, d: nat)
    requires m >= 1 && d < 5 && n == 5 * m + d
    ensures Radix5(n) == Radix5(m) + [DigitChar(d)]
  {
    DivModUnique(n, m, d);
  }

  lemma DivModUnique(n: int, q: int, r: int)
    requires 0 <= r < 5 && n == 5 * q + r
    ensures n / 5 == q && n % 5 == r
  {
  }

  /** `Radix5(n)` has `k` digits when `n` lies in `[5^(k-1), 5^k)` (or `k` is 1 and `n` below 5). */
  lemma Radix5Length(n: nat, k: nat)
    requires k >= 1 && n < Pow5(k) && (k > 1 ==> Pow5(k - 1) <= n)
    ensures |Radix5(n)| == k
  {
    var r := Radix5(n);
    Radix5Below(r);
    if |r| > 1 {
      LeadingDigitWeight(r);
      Pow5Order(|r| - 1, k);
    }
    if k > 1 {
      Pow5Order(k - 1, |r|);
    }
  }

  /** The bounds on `n` that the length of `Radix5(n)` gives. */
  lemma Radix5Bounds(n: nat)
    ensures n < Pow5(|Radix5(n)|)
    ensures |Radix5(n)| > 1 ==> Pow5(|Radix5(n)| - 1) <= n
  {
    Radix5Below(Radix5(n));
    if |Radix5(n)| > 1 {
      LeadingDigitWeight(Radix5(n));
    }
  }

  // The offset

  /** `"2".repeat(k)` */
  function Twos(k: nat): (r: string)
    ensures |r| == k && AllBase5(r)
  {
    seq(k, _ => '2')
  }

  /** The shift between a SNAFU numeral of `k` digits and its base-5 form: `k` twos in base 5. */
  function Offset(k: nat): nat
  {
    if k == 0 then 0 else 5 * Offset(k - 1) + 2
  }

  /** `Offset(k)` is the value of the numeral of `k` twos. */
  lemma {:induction false} OffsetIsTwos(k: nat)
    ensures Radix5Value(Twos(k)) == Offset(k)
  {
    if k > 0 {
      assert Twos(k)[..k - 1] == Twos(k - 1);
      OffsetIsTwos(k - 1);
    }
  }

  /** The `k` twos are worth half of `5^k - 1`. */
  lemma {:induction false} OffsetValue(k: nat)
    ensures 2 * Offset(k) + 1 == Pow5(k)
  {
    if k > 0 {
      OffsetValue(k - 1);
    }
  }

  /** `offset`: the value of as many twos as the numeral has digits; `None` for the empty numeral,
    * on which the source panics. */
  function OffsetOf(k: nat): (r: Option<nat>)
    ensures r.Some? <==> k > 0
    ensures r.Some? ==> r.value == Offset(k) && 2 * r.value + 1 == Pow5(k)
  {
    OffsetValue(k);
    OffsetIsTwos(k);
    FromStrRadix5(Twos(k))
  }

  // The digit maps

  /** The five SNAFU digits `=`, `-`, `0`, `1` and `2`. */
  predicate IsSnafuDigit(c: char)
  {
    c == '=' || c == '-' || c == '0' || c == '1' || c == '2'
  }

  /** `decode_snafu_char`: a SNAFU digit shifted up by two; `None` where the source panics. */
  function DecodeChar(c: char): (r: Option<char>)
    ensures r.Some? <==> IsSnafuDigit(c)
    ensures r.Some? ==> IsBase5(r.value)
  {
    match c
    case '=' => Some('0')
    case '-' => Some('1')
    case '0' => Some('2')
    case '1' => Some('3')
    case '2' => Some('4')
    case _ => None
  }

  /** `encode_snafu_char`: a base-5 digit shifted down by two; `None` where the source panics. */
  function EncodeChar(c: char): (r: Option<char>)
    ensures r.Some? <==> IsBase5(c)
    ensures r.Some? ==> IsSnafuDigit(r.value)
  {
    match c
    case '0' => Some('=')
    case '1' => Some('-')
    case '2' => Some('0')
    case '3' => Some('1')
    case '4' => Some('2')
    case _ => None
  }

  /** The two digit maps undo each other. */
  lemma CharMapsInverse(c: char)
    ensures IsSnafuDigit(c) ==> EncodeChar(DecodeChar(c).value) == Some(c)
    ensures IsBase5(c) ==> DecodeChar(EncodeChar(c).value) == Some(c)
  {
  }

  /** The worth of a SNAFU digit, -2 … 2. */
  function SnafuDigit(c: char): int
    requires IsSnafuDigit(c)
  {
    match c
    case '=' => -2
    case '-' => -1
    case '0' => 0
    case '1' => 1
    case '2' => 2
  }

  predicate AllSnafu(s: string)
  {
    forall i | 0 <= i < |s| :: IsSnafuDigit(s[i])
  }

  /** The worth of a SNAFU numeral: each digit times the power of five of its place. */
  function SnafuValue(s: string): int
    requires AllSnafu(s)
  {
    if s == [] then 0 else 5 * SnafuValue(s[..|s| - 1]) + SnafuDigit(s[|s| - 1])
  }

  /** `map(decode_snafu_char)` over a SNAFU numeral. */
  function Decoded(s: string): (r: string)
    requires AllSnafu(s)
    ensures |r| == |s| && AllBase5(r)
    ensures forall i | 0 <= i < |s| :: r[i] == DecodeChar(s[i]).value
  {
    seq(|s|, i requires 0 <= i < |s| => DecodeChar(s[i]).value)
  }

  /** `map(encode_snafu_char)` over a base-5 numeral. */
  function EncodedDigits(d: string): (r: string)
    requires AllBase5(d)
    ensures |r| == |d| && AllSnafu(r)
    ensures forall i | 0 <= i < |d| :: r[i] == EncodeChar(d[i]).value
  {
    seq(|d|, i requires 0 <= i < |d| => EncodeChar(d[i]).value)
  }

  /** Shifting the digits down and back up gives the base-5 numeral again. */
  lemma DecodeEncoded(d: string)
    requires AllBase5(d)
    ensures Decoded(EncodedDigits(d)) == d
  {
    var r := Decoded(EncodedDigits(d));
    forall i | 0 <= i < |d|
      ensures r[i] == d[i]
    {
      CharMapsInverse(d[i]);
    }
  }

  /** Shifting the digits up and back down gives the SNAFU numeral again. */
  lemma EncodeDecoded(s: string)
    requires AllSnafu(s)
    ensures EncodedDigits(Decoded(s)) == s
  {
    var r := EncodedDigits(Decoded(s));
    forall i | 0 <= i < |s|
      ensures r[i] == s[i]
    {
      CharMapsInverse(s[i]);
    }
  }

  /** Shifting every digit up by two adds the numeral of as many twos. */
  lemma {:induction false} ShiftedValue(s: string)
    requires AllSnafu(s)
    ensures Radix5Value(Decoded(s)) == SnafuValue(s) + Offset(|s|)
  {
    if s != [] {
      var init := s[..|s| - 1];
      assert Decoded(s)[..|s| - 1] == Decoded(init);
      ShiftedValue(init);
    }
  }

  // The SNAFU numeral

  /** A SNAFU numeral as the characters it is written with. */
  datatype Snafu = Snafu(value: seq<char>)

  /** `From<&str>`: the characters of the text. */
  function FromStr(s: string): Snafu
  {
    Snafu(s)
  }

  /** `Display`: the characters again, so that a numeral shows as the text it was read from. */
  function Show(n: Snafu): (s: string)
    ensures FromStr(s) == n
  {
    n.value
  }

  /** `base5`: the numeral with every digit shifted up by two, read in base 5; `None` where a
    * digit is not a SNAFU digit or the numeral is empty, on which the source panics. */
  function Base5(n: Snafu): (r: Option<nat>)
    ensures r.Some? <==> n.value != [] && AllSnafu(n.value)
  {
    if AllSnafu(n.value) then FromStrRadix5(Decoded(n.value)) else None
  }

  /** The number a well-formed numeral stands for: its digits shifted up, read in base 5, less
    * the offset of its length. */
  function Value(n: Snafu): int
    requires n.value != [] && AllSnafu(n.value)
  {
    Radix5Value(Decoded(n.value)) - Offset(|n.value|)
  }

  /** `to_i64`: the value of the numeral; `None` where `base5` panics. */
  function ToInt(n: Snafu): (r: Option<int>)
    ensures r.Some? <==> n.value != [] && AllSnafu(n.value)
  {
    if n.value != [] && AllSnafu(n.value) then Some(Value(n)) else None
  }

  /** `to_i64` is `base5` less `offset`, each unwrapped as the source does. */
  lemma ToIntReadsBase5(n: Snafu)
    ensures ToInt(n) == match Base5(n)
      case None => None
      case Some(b) => Some(b - OffsetOf(|n.value|).value)
  {
  }

  /** `to_i64` of a well-formed numeral is its value. */
  lemma ToIntIsValue(n: Snafu)
    requires n.value != [] && AllSnafu(n.value)
    ensures ToInt(n) == Some(Value(n))
  {
  }

  /** `to_i64` is the worth of the SNAFU numeral, digit by digit. */
  lemma ToIntValue(n: Snafu)
    requires n.value != [] && AllSnafu(n.value)
    ensures ToInt(n) == Some(SnafuValue(n.value))
  {
    ShiftedValue(n.value);
    ToIntIsValue(n);
  }

  // Writing a SNAFU numeral

  /** The SNAFU numeral whose digits are those of `d` shifted down by two. */
  function Encoded(d: string): (n: Snafu)
    requires AllBase5(d)
    ensures |n.value| == |d| && AllSnafu(n.value)
  {
    Snafu(EncodedDigits(d))
  }

  /** What `Encoded` writes stands for the value of the digits less the offset of their
    * number. */
  lemma EncodedValue(d: string)
    requires d != [] && AllBase5(d)
    ensures Value(Encoded(d)) == Radix5Value(d) - Offset(|d|)
  {
    DecodeEncoded(d);
  }

  /** The numeral `From<i64>` writes for `value` with an offset of `k` twos: the digits of
    * `radix_5(value + offset)` shifted down. */
  function Written(value: nat, k: nat): (n: Snafu)
    ensures |n.value| == |Radix5(value + Offset(k))| && AllSnafu(n.value)
  {
    Encoded(Radix5(value + Offset(k)))
  }

  /** The written numeral stands for `value` less the offset of its own length plus the offset
    * of `k`. */
  lemma WrittenValue(value: nat, k: nat)
    ensures Value(Written(value, k)) == value + Offset(k) - Offset(|Radix5(value + Offset(k))|)
  {
    EncodedValue(Radix5(value + Offset(k)));
  }

  /** `From<i64>` as written: the offset is as wide as `radix_5(value)`. */
  function FromIntAsWritten(value: nat): (n: Snafu)
    ensures |n.value| >= 1
  {
    Written(value, |Radix5(value)|)
  }

  /** What `From<i64>` writes is worth `value` exactly when adding the offset keeps the digit count;
    * when it carries into a new digit the numeral is one digit longer than the offset assumed. */
  lemma FromIntAsWrittenValue(value: nat, k: nat, k': nat)
    requires k == |Radix5(value)| && k' == |Radix5(value + Offset(k))|
    ensures ToInt(FromIntAsWritten(value)) == Some(value + Offset(k) - Offset(k'))
    ensures ToInt(FromIntAsWritten(value)) == Some(value) <==> k' == k
  {
    WrittenValue(value, k);
    OffsetsApart(k, k');
    ValueToInt(FromIntAsWritten(value), value + Offset(k) - Offset(k'), value);
  }

  /** A numeral worth `x` reads back as `x`, and as `v` only when `v` is `x`. */
  lemma ValueToInt(n: Snafu, x: int, v: int)
    requires n.value != [] && AllSnafu(n.value) && Value(n) == x
    ensures ToInt(n) == Some(x) && (ToInt(n) == Some(v) <==> x == v)
  {
  }

  /** Offsets of different widths differ. */
  lemma OffsetsApart(k: nat, j: nat)
    ensures Offset(k) == Offset(j) <==> k == j
  {
    OffsetValue(k);
    OffsetValue(j);
    Pow5Order(k, j);
    Pow5Order(j, k);
  }

  /** 3 is written `-=`, which is worth -7: the carry the written conversion misses. */
  lemma ThreeAsWritten()
    ensures FromIntAsWritten(3) == Snafu("-=")
    ensures ToInt(FromIntAsWritten(3)) == Some(-7)
  {
    Radix5Canonical("3");
    assert Offset(1) == 2 && Offset(2) == 12;
    Radix5Canonical("10");
    assert FromIntAsWritten(3) == Written(3, 1);
    assert Written(3, 1) == Encoded("10");
    assert EncodedDigits("10") == "-=";
    FromIntAsWrittenValue(3, 1, 2);
  }

  /** `k` SNAFU digits reach from one past the largest `k - 1`-digit value up to `Offset(k)`. */
  predicate InWidth(value: nat, k: nat)
  {
    k >= 1 && value <= Offset(k) && (k > 1 ==> Offset(k - 1) < value)
  }

  /** The offset of `k` digits is at least `k`. */
  lemma {:induction false} OffsetAtLeast(k: nat)
    ensures k <= Offset(k)
  {
    if k > 0 {
      OffsetAtLeast(k - 1);
    }
  }

  /** The first width from `k` on that reaches `value`. */
  function WidthFrom(value: nat, k: nat): (w: nat)
    requires k >= 1 && (k > 1 ==> Offset(k - 1) < value)
    ensures InWidth(value, w) && k <= w
    decreases value - k
  {
    if value <= Offset(k) then k
    else
      OffsetAtLeast(k);
      WidthFrom(value, k + 1)
  }

  /** The number of digits the SNAFU numeral of `value` has: the least `k` with
    * `value <= Offset(k)`. */
  function SnafuWidth(value: nat): (k: nat)
    ensures InWidth(value, k)
  {
    WidthFrom(value, 1)
  }

  /** Adding the offset of a width the value fits gives a base-5 numeral of that width. */
  lemma SumFitsWidth(value: nat, k: nat)
    requires InWidth(value, k)
    ensures |Radix5(value + Offset(k))| == k
  {
    OffsetValue(k);
    if k > 1 {
      OffsetValue(k - 1);
    }
    Radix5Length(value + Offset(k), k);
  }

  /** Adding the twos numeral of the value's own width carries into at most one more digit. */
  lemma WidthGrows(value: nat)
    ensures var k := |Radix5(value)|; var k' := |Radix5(value + Offset(k))|;
      k' == k || k' == k + 1
  {
    var k := |Radix5(value)|;
    var m := value + Offset(k);
    var k' := |Radix5(m)|;
    Radix5Ceil(value, k);
    Radix5Ceil(m, k');
    OffsetValue(k);
    Pow5Succ(k);
    assert m < Pow5(k + 1);
    if k' > 1 {
      Radix5Floor(m, k' - 1);
      Pow5Order(k' - 1, k + 1);
      assert k' - 1 < k + 1;
    }
    if k > 1 {
      Radix5Floor(value, k - 1);
      Pow5Order(k - 1, k');
      assert k - 1 < k';
    }
  }

  /** A numeral of `w` base-5 digits is worth less than `5^w`. */
  lemma Radix5Ceil(n: nat, w: nat)
    requires w == |Radix5(n)|
    ensures n < Pow5(w)
  {
    Radix5Bounds(n);
  }

  lemma Pow5Succ(k: nat)
    ensures Pow5(k + 1) == 5 * Pow5(k)
  {
  }

  /** A numeral of `j + 1` base-5 digits is worth at least `5^j`. */
  lemma Radix5Floor(n: nat, j: nat)
    requires j >= 1 && j + 1 == |Radix5(n)|
    ensures Pow5(j) <= n
  {
    Radix5Bounds(n);
  }

  /** The length of `radix_5(value + offset)`, with the offset as wide as `radix_5(value)`, is a
    * width the value fits. */
  lemma CarryWidth(value: nat)
    ensures InWidth(value, |Radix5(value + Offset(|Radix5(value)|))|)
  {
    var k := |Radix5(value)|;
    var m := value + Offset(k);
    var k' := |Radix5(m)|;
    WidthGrows(value);
    Radix5Bounds(value);
    Radix5Bounds(m);
    OffsetValue(k);
    if k' == k {
      if k > 1 {
        OffsetValue(k - 1);
        assert Offset(k - 1) < value;
      }
      assert value <= Offset(k);
    } else {
      assert Offset(k + 1) == 5 * Offset(k) + 2;
      Radix5Floor(m, k);
      assert Offset(k) < value <= Offset(k + 1);
    }
  }

  /** `From<i64>` as written has the right number of digits: its error, where there is one, is
    * in the digits alone. */
  lemma WrittenWidth(value: nat)
    ensures |FromIntAsWritten(value).value| == SnafuWidth(value)
  {
    var k := |Radix5(value)|;
    assert FromIntAsWritten(value) == Written(value, k);
    CarryWidth(value);
    WidthUnique(value, |Radix5(value + Offset(k))|, SnafuWidth(value));
  }

  /** `From<i64>` with the offset taken as wide as the result: the digits of `value` plus the twos
    * numeral of `SnafuWidth(value)` digits, shifted down. It reads back as `value`. */
  function FromInt(value: nat): (n: Snafu)
    ensures |n.value| == SnafuWidth(value)
    ensures ToInt(n) == Some(value)
  {
    SumFitsWidth(value, SnafuWidth(value));
    WrittenValue(value, SnafuWidth(value));
    ToIntIsValue(Written(value, SnafuWidth(value)));
    Written(value, SnafuWidth(value))
  }

  /** A value fits exactly one width. */
  lemma WidthUnique(value: nat, k: nat, j: nat)
    requires InWidth(value, k) && InWidth(value, j)
    ensures k == j
  {
    OffsetValue(k);
    OffsetValue(j);
    OffsetValue(k - 1);
    OffsetValue(j - 1);
    Pow5Order(j - 1, k);
    Pow5Order(k - 1, j);
  }

  /** A SNAFU numeral whose first digit is `1` or `2` is worth a value that fits its length. */
  lemma {:induction false} CanonicalWidth(s: string)
    requires s != [] && AllSnafu(s) && (s[0] == '1' || s[0] == '2')
    ensures SnafuValue(s) >= 1 && InWidth(SnafuValue(s), |s|)
  {
    var n := |s|;
    if n == 1 {
      assert SnafuValue(s) == SnafuDigit(s[0]);
      assert Offset(1) == 2;
    } else {
      var init := s[..n - 1];
      assert init[0] == s[0];
      CanonicalWidth(init);
      assert Offset(n) == 5 * Offset(n - 1) + 2;
      if n > 2 {
        assert Offset(n - 1) == 5 * Offset(n - 2) + 2;
      }
    }
  }

  /** The shifted numeral of one whose first digit is `1` or `2` does not start with `0`. */
  lemma LeadingShifted(s: string)
    requires s != [] && AllSnafu(s) && (s[0] == '1' || s[0] == '2')
    ensures Decoded(s) != [] && Decoded(s)[0] != '0'
  {
  }

  /** A SNAFU numeral without leading zero (first digit `1` or `2`) is what `FromInt` writes
    * for its worth. */
  lemma FromIntCanonical(s: string)
    requires s != [] && AllSnafu(s) && (s[0] == '1' || s[0] == '2')
    ensures SnafuValue(s) >= 1
    ensures FromInt(SnafuValue(s)) == Snafu(s)
  {
    WrittenCanonical(s);
    CanonicalIsWidth(s);
  }

  /** Written with the offset of its own length, the worth of a numeral without leading zero
    * gives the numeral back. */
  lemma WrittenCanonical(s: string)
    requires s != [] && AllSnafu(s) && (s[0] == '1' || s[0] == '2')
    ensures SnafuValue(s) >= 1 && Written(SnafuValue(s), |s|) == Snafu(s)
  {
    CanonicalDigits(s);
    WrittenOfDigits(s);
  }

  /** Written from digits that decode a numeral, `Written` gives that numeral back. */
  lemma WrittenOfDigits(s: string)
    requires AllSnafu(s) && SnafuValue(s) >= 0 && Radix5(SnafuValue(s) + Offset(|s|)) == Decoded(s)
    ensures Written(SnafuValue(s), |s|) == Snafu(s)
  {
    EncodeDecoded(s);
  }

  /** `SnafuWidth` of the worth of a numeral without leading zero is its length. */
  lemma CanonicalIsWidth(s: string)
    requires s != [] && AllSnafu(s) && (s[0] == '1' || s[0] == '2')
    ensures SnafuValue(s) >= 1 && SnafuWidth(SnafuValue(s)) == |s|
  {
    CanonicalWidth(s);
    var v: nat := SnafuValue(s);
    WidthUnique(v, SnafuWidth(v), |s|);
  }

  /** The base-5 digits of the worth of a numeral without leading zero, plus the offset of its
    * length, are its digits shifted up. */
  lemma CanonicalDigits(s: string)
    requires s != [] && AllSnafu(s) && (s[0] == '1' || s[0] == '2')
    ensures SnafuValue(s) >= 1 && Radix5(SnafuValue(s) + Offset(|s|)) == Decoded(s)
  {
    CanonicalWidth(s);
    var d := Decoded(s);
    var r := Radix5Value(d);
    assert r == SnafuValue(s) + Offset(|s|) by {
      ShiftedValue(s);
    }
    assert Radix5(r) == d by {
      LeadingShifted(s);
      Radix5Canonical(d);
    }
  }

  // The puzzle

  /** The sum of the values of the requirements; `None` if one of them does not read. */
  function Total(requirements: seq<Snafu>): (r: Option<int>)
    ensures r.Some? <==> forall i | 0 <= i < |requirements| :: ToInt(requirements[i]).Some?
  {
    if requirements == [] then Some(0)
    else
      match (ToInt(requirements[0]), Total(requirements[1..]))
      case (Some(x), Some(rest)) => Some(x + rest)
      case _ => None
  }

  /** `solve_part1` as written: the numeral the written conversion gives for the total; `None`
    * where a requirement does not read or the total is negative. */
  function SolvePart1AsWritten(requirements: seq<Snafu>): (r: Option<string>)
    ensures r.Some? <==> Total(requirements).Some? && Total(requirements).value >= 0
  {
    match Total(requirements)
    case None => None
    case Some(t) => if t >= 0 then Some(Show(FromIntAsWritten(t))) else None
  }

  /** `solve_part1` with the corrected conversion: the numeral of the total, which reads back as it. */
  function SolvePart1(requirements: seq<Snafu>): (r: Option<string>)
    ensures r.Some? <==> Total(requirements).Some? && Total(requirements).value >= 0
    ensures r.Some? ==> ToInt(FromStr(r.value)) == Total(requirements)
  {
    match Total(requirements)
    case None => None
    case Some(t) => if t >= 0 then Some(Show(FromInt(t))) else None
  }

  /** Appending a digit multiplies the worth by five and adds the digit's. */
  lemma SnafuAppend(s: string, c: char)
    requires AllSnafu(s) && IsSnafuDigit(c)
    ensures AllSnafu(s + [c]) && SnafuValue(s + [c]) == 5 * SnafuValue(s) + SnafuDigit(c)
  {
    assert (s + [c])[..|s|] == s;
  }

  /** One more digit `c` after a numeral worth `v`. */
  lemma SnafuStep(s: string, c: char, v: int, t: string)
    requires AllSnafu(s) && SnafuValue(s) == v && IsSnafuDigit(c) && t == s + [c]
    ensures AllSnafu(t) && SnafuValue(t) == 5 * v + SnafuDigit(c)
  {
    SnafuAppend(s, c);
  }

  /** `2=-1=0` is worth 4890, digit by digit. */
  lemma ValueOf4890()
    ensures AllSnafu("2=-1=0") && SnafuValue("2=-1=0") == 4890
  {
    SnafuStep([], '2', 0, "2");
    SnafuStep("2", '=', 2, "2=");
    SnafuStep("2=", '-', 8, "2=-");
    SnafuStep("2=-", '1', 39, "2=-1");
    SnafuStep("2=-1", '=', 196, "2=-1=");
    SnafuStep("2=-1=", '0', 978, "2=-1=0");
  }

  /** 4890 takes six base-5 digits and six SNAFU digits. */
  lemma WidthOf4890()
    ensures |Radix5(4890)| == 6 && SnafuWidth(4890) == 6
  {
    assert Pow5(5) == 3125 && Pow5(6) == 15625;
    Radix5Length(4890, 6);
    assert Offset(5) == 1562 && Offset(6) == 7812;
    WidthUnique(4890, SnafuWidth(4890), 6);
  }

  /** 4890 is written `2=-1=0`, by the written conversion and the corrected one alike. */
  lemma Example4890()
    ensures FromInt(4890) == Snafu("2=-1=0")
    ensures FromIntAsWritten(4890) == Snafu("2=-1=0")
  {
    ValueOf4890();
    FromIntCanonical("2=-1=0");
    WidthOf4890();
    assert FromIntAsWritten(4890) == Written(4890, 6);
    assert FromInt(4890) == Written(4890, 6);
  }
}
