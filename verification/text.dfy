/**
 * The string handling the solvers share: Rust's decimal `parse` for unsigned and
 * signed integers with its range check, the decimal printing that undoes it, and
 * `str::split` on one character with the join that undoes it.
 */
module Text {
  import opened Wrappers

  predicate IsDigit(c: char)
  {
    '0' <= c <= '9'
  }

  predicate AllDigits(s: string)
  {
    forall i :: 0 <= i < |s| ==> IsDigit(s[i])
  }

  function DigitValue(c: char): nat
    requires IsDigit(c)
  {
    c as nat - '0' as nat
  }

  function DigitChar(d: nat): (c: char)
    requires d < 10
    ensures IsDigit(c) && DigitValue(c) == d
  {
    ('0' as nat + d) as char
  }

  /** The value of a string of decimal digits, most significant first. */
  function DigitsValue(s: string): nat
    requires AllDigits(s)
  {
    if s == [] then 0 else 10 * DigitsValue(s[..|s| - 1]) + DigitValue(s[|s| - 1])
  }

  const U32Max: nat := 0xFFFF_FFFF
  const I32Min: int := -0x8000_0000
  const I32Max: int := 0x7FFF_FFFF
  const U64Max: nat := 0xFFFF_FFFF_FFFF_FFFF
  const I64Min: int := -0x8000_0000_0000_0000
  const I64Max: int := 0x7FFF_FFFF_FFFF_FFFF

  /** `s.parse::<u32>()`: an optional `+` and at least one digit, within `u32`. */
  function ParseU32(s: string): (r: Option<nat>)
    ensures r.Some? ==> r.value <= U32Max
    ensures AllDigits(s) && s != [] && DigitsValue(s) <= U32Max ==> r == Some(DigitsValue(s))
  {
    var body := if s != [] && s[0] == '+' then s[1..] else s;
    if body == [] || !AllDigits(body) then None
    else if DigitsValue(body) > U32Max then None
    else Some(DigitsValue(body))
  }

  /** `s.parse::<i32>()`: an optional sign and at least one digit, within `i32`. */
  function ParseI32(s: string): (r: Option<int>)
    ensures r.Some? ==> I32Min <= r.value <= I32Max
  {
    var negative := s != [] && s[0] == '-';
    var body := if s != [] && (s[0] == '-' || s[0] == '+') then s[1..] else s;
    if body == [] || !AllDigits(body) then None
    else
      var v: int := if negative then 0 - DigitsValue(body) as int else DigitsValue(body);
      if v < I32Min || v > I32Max then None else Some(v)
  }

  /** The decimal digits of `n`, with no leading zero. */
  function ShowNat(n: nat): (s: string)
    ensures s != [] && AllDigits(s)
    ensures |s| > 1 ==> s[0] != '0'
  {
    if n < 10 then [DigitChar(n)] else ShowNat(n / 10) + [DigitChar(n % 10)]
  }

  /** `format!("{}", i)` for a signed integer. */
  function ShowInt(i: int): (s: string)
    ensures s != []
  {
    if i < 0 then "-" + ShowNat(-i) else ShowNat(i)
  }

  lemma {:induction false} ShowNatValue(n: nat)
    ensures DigitsValue(ShowNat(n)) == n
  {
    if n >= 10 {
      var s := ShowNat(n);
      assert s[..|s| - 1] == ShowNat(n / 10);
      ShowNatValue(n / 10);
    }
  }

  /** Printing and parsing back gives the number again, for every `u32`. */
  lemma ParseShowU32(n: nat)
    requires n <= U32Max
    ensures ParseU32(ShowNat(n)) == Some(n)
  {
    ShowNatValue(n);
  }

  /** The same round trip for every `i32`. */
  lemma ParseShowI32(i: int)
    requires I32Min <= i <= I32Max
    ensures ParseI32(ShowInt(i)) == Some(i)
  {
    var s := ShowInt(i);
    if i < 0 {
      var body := ShowNat(-i);
      ShowNatValue(-i);
      assert s == "-" + body;
      assert s[0] == '-' && s[1..] == body;
    } else {
      ShowNatValue(i);
      assert s == ShowNat(i) && s[0] != '-' && s[0] != '+';
    }
  }

  /** The length of the run of digits `s` starts with. */
  function DigitRun(s: string): (r: nat)
    ensures r <= |s| && AllDigits(s[..r])
    ensures r < |s| ==> !IsDigit(s[r])
  {
    if s == [] || !IsDigit(s[0]) then 0
    else
      var n := DigitRun(s[1..]);
      assert s[..n + 1] == [s[0]] + s[1..][..n];
      n + 1
  }

  /** Digits followed by a non-digit, or by nothing, are exactly the leading run. */
  lemma {:induction false} DigitRunAppend(d: string, rest: string)
    requires AllDigits(d)
    requires rest == [] || !IsDigit(rest[0])
    ensures DigitRun(d + rest) == |d|
  {
    if d != [] {
      assert (d + rest)[1..] == d[1..] + rest;
      DigitRunAppend(d[1..], rest);
    } else {
      assert d + rest == rest;
    }
  }

  /**
   * nom's decimal parsers for an unsigned type whose largest value is `max`: the
   * leading run of digits, which must not be empty nor exceed `max`, and the input
   * after it.
   */
  function ParseUnsignedPrefix(s: string, max: nat): (r: Option<(nat, string)>)
    ensures r.Some? ==> r.value.0 <= max && |r.value.1| < |s|
  {
    var n := DigitRun(s);
    if n == 0 || DigitsValue(s[..n]) > max then None
    else Some((DigitsValue(s[..n]), s[n..]))
  }

  /** A printed number followed by a non-digit parses back, leaving the rest. */
  lemma ParseUnsignedShow(v: nat, rest: string, max: nat)
    requires v <= max
    requires rest == [] || !IsDigit(rest[0])
    ensures ParseUnsignedPrefix(ShowNat(v) + rest, max) == Some((v, rest))
  {
    var d := ShowNat(v);
    DigitRunAppend(d, rest);
    assert (d + rest)[..|d|] == d;
    assert (d + rest)[|d|..] == rest;
    ShowNatValue(v);
  }

  /** nom's signed decimal parsers: an optional sign and the digits after it, within `min ..= max`. */
  function ParseSignedPrefix(s: string, min: int, max: int): (r: Option<(int, string)>)
    ensures r.Some? ==> min <= r.value.0 <= max && |r.value.1| < |s|
  {
    var negative := s != [] && s[0] == '-';
    var body := if s != [] && (s[0] == '-' || s[0] == '+') then s[1..] else s;
    var n := DigitRun(body);
    if n == 0 then None
    else
      var v: int := if negative then 0 - DigitsValue(body[..n]) as int else DigitsValue(body[..n]);
      if v < min || v > max then None else Some((v, body[n..]))
  }

  /** A printed signed number followed by a non-digit parses back, leaving the rest. */
  lemma ParseSignedShow(v: int, rest: string, min: int, max: int)
    requires min <= v <= max
    requires rest == [] || !IsDigit(rest[0])
    ensures ParseSignedPrefix(ShowInt(v) + rest, min, max) == Some((v, rest))
  {
    var n: nat := if v < 0 then -v else v;
    var d := ShowNat(n);
    DigitRunAppend(d, rest);
    assert (d + rest)[..|d|] == d;
    assert (d + rest)[|d|..] == rest;
    ShowNatValue(n);
    if v < 0 {
      ParseNegativeShow(v, rest, min, max);
    }
  }

  /** The digits after a minus sign parse back as the negative number. */
  lemma ParseNegativeShow(v: int, rest: string, min: int, max: int)
    requires min <= v <= max && v < 0
    requires DigitRun(ShowNat(-v) + rest) == |ShowNat(-v)|
    requires (ShowNat(-v) + rest)[..|ShowNat(-v)|] == ShowNat(-v) && (ShowNat(-v) + rest)[|ShowNat(-v)|..] == rest
    requires DigitsValue(ShowNat(-v)) == -v
    ensures ParseSignedPrefix(ShowInt(v) + rest, min, max) == Some((v, rest))
  {
    assert (ShowInt(v) + rest)[1..] == ShowNat(-v) + rest;
  }

  /**
   * nom's `separated_list1(newline, item)` (with `crlf`, `separated_list1(line_ending, item)`):
   * at least one item, then more while a line break is followed by an item; the input
   * left after the last item is returned with the items.
   */
  function SeparatedLines<T>(item: string -> Option<(T, string)>, s: string, crlf: bool): (r: Option<(seq<T>, string)>)
    requires forall t :: item(t).Some? ==> |item(t).value.1| < |t|
    ensures r.Some? ==> |r.value.0| >= 1 && |r.value.1| < |s|
    decreases |s|
  {
    match item(s)
    case None => None
    case Some((x, rest)) =>
      var sep := if |rest| >= 1 && rest[0] == '\n' then 1 else if crlf && |rest| >= 2 && rest[..2] == "\r\n" then 2 else 0;
      if sep == 0 then Some(([x], rest))
      else
        match SeparatedLines(item, rest[sep..], crlf)
        case None => Some(([x], rest))
        case Some((xs, tail)) => Some(([x] + xs, tail))
  }

  /** Lines each of which parses as one item, up to a line break or the end, parse back as the list of items. */
  lemma {:induction false} SeparatedLinesJoin<T>(item: string -> Option<(T, string)>, lines: seq<string>, items: seq<T>, crlf: bool)
    requires forall t :: item(t).Some? ==> |item(t).value.1| < |t|
    requires |lines| == |items| >= 1
    requires forall i, rest {:trigger item(lines[i] + rest)} :: 0 <= i < |lines| && (rest == [] || rest[0] == '\n') ==> item(lines[i] + rest) == Some((items[i], rest))
    ensures SeparatedLines(item, Join(lines, "\n"), crlf) == Some((items, ""))
  {
    if |lines| == 1 {
      assert item(lines[0] + "") == Some((items[0], ""));
      assert lines[0] + "" == lines[0];
      assert items == [items[0]];
    } else {
      var tail := Join(lines[1..], "\n");
      forall i, rest | 0 <= i < |lines| - 1 && (rest == [] || rest[0] == '\n')
        ensures item(lines[1..][i] + rest) == Some((items[1..][i], rest))
      {
        assert lines[1..][i] == lines[i + 1] && items[1..][i] == items[i + 1];
        assert item(lines[i + 1] + rest) == Some((items[i + 1], rest));
      }
      SeparatedLinesJoin(item, lines[1..], items[1..], crlf);
      assert Join(lines, "\n") == lines[0] + ("\n" + tail);
      assert ("\n" + tail)[0] == '\n';
      assert item(lines[0] + ("\n" + tail)) == Some((items[0], "\n" + tail));
      assert ("\n" + tail)[1..] == tail;
      assert items == [items[0]] + items[1..];
    }
  }

  /** A last line that parses to the end is a list of one item. */
  lemma SeparatedLinesLast<T>(item: string -> Option<(T, string)>, s: string, x: T, crlf: bool)
    requires forall t :: item(t).Some? ==> |item(t).value.1| < |t|
    requires item(s) == Some((x, ""))
    ensures SeparatedLines(item, s, crlf) == Some(([x], ""))
  {
  }

  /** A line that parses up to a line break, followed by lines that parse to the end. */
  lemma SeparatedLinesCons<T>(item: string -> Option<(T, string)>, s: string, tail: string, x: T, xs: seq<T>, crlf: bool)
    requires forall t :: item(t).Some? ==> |item(t).value.1| < |t|
    requires item(s) == Some((x, "\n" + tail))
    requires SeparatedLines(item, tail, crlf) == Some((xs, ""))
    ensures SeparatedLines(item, s, crlf) == Some(([x] + xs, ""))
  {
    assert ("\n" + tail)[1..] == tail;
  }

  /** `s.split(sep)`: the pieces between the separators, always at least one. */
  function Split(s: string, sep: char): (r: seq<string>)
    ensures |r| >= 1
    ensures forall k :: 0 <= k < |r| ==> sep !in r[k]
    decreases |s|
  {
    if s == [] then [""]
    else
      var rest := Split(s[1..], sep);
      if s[0] == sep then [""] + rest
      else [[s[0]] + rest[0]] + rest[1..]
  }

  /** `parts.join(sep)` */
  function Join(parts: seq<string>, sep: string): string
  {
    if parts == [] then ""
    else if |parts| == 1 then parts[0]
    else parts[0] + sep + Join(parts[1..], sep)
  }

  /** The join of two or more parts is the first part, a separator and the join of the rest. */
  lemma JoinCons(parts: seq<string>, sep: string)
    requires |parts| >= 2
    ensures Join(parts, sep) == parts[0] + (sep + Join(parts[1..], sep))
  {
    assert parts[0] + sep + Join(parts[1..], sep) == parts[0] + (sep + Join(parts[1..], sep));
  }

  /** Joining two non-empty lists puts one separator between their joins. */
  lemma {:induction false} JoinAppend(a: seq<string>, b: seq<string>, sep: string)
    requires a != [] && b != []
    ensures Join(a + b, sep) == Join(a, sep) + sep + Join(b, sep)
  {
    if |a| == 1 {
      assert (a + b)[1..] == b;
    } else {
      assert (a + b)[1..] == a[1..] + b;
      JoinAppend(a[1..], b, sep);
    }
  }

  /** Splitting and joining with the same separator gives the string back. */
  lemma {:induction false} JoinSplit(s: string, sep: char)
    ensures Join(Split(s, sep), [sep]) == s
    decreases |s|
  {
    if s != [] {
      var rest := Split(s[1..], sep);
      JoinSplit(s[1..], sep);
      if s[0] == sep {
        assert Split(s, sep) == [""] + rest;
        assert ([""] + rest)[1..] == rest;
      } else {
        var head := [s[0]] + rest[0];
        assert Split(s, sep) == [head] + rest[1..];
        if |rest| == 1 {
          assert s == [s[0]] + s[1..];
        } else {
          assert ([head] + rest[1..])[1..] == rest[1..];
          assert Join(rest, [sep]) == rest[0] + [sep] + Join(rest[1..], [sep]);
          assert s == [s[0]] + s[1..];
        }
      }
    }
  }

  /** A character other than the separator joins onto the first piece. */
  lemma SplitCons(c: char, t: string, sep: char)
    requires c != sep
    ensures Split([c] + t, sep) == [[c] + Split(t, sep)[0]] + Split(t, sep)[1..]
  {
    assert ([c] + t)[1..] == t;
  }

  /** Text free of the separator joins onto the first piece of what follows it. */
  lemma {:induction false} SplitPrefix(w: string, t: string, sep: char)
    requires sep !in w
    ensures Split(w + t, sep) == [w + Split(t, sep)[0]] + Split(t, sep)[1..]
    decreases |w|
  {
    var st := Split(t, sep);
    if w == [] {
      assert w + t == t;
      assert w + st[0] == st[0];
      assert st == [st[0]] + st[1..];
    } else {
      SplitPrefix(w[1..], t, sep);
      var r := Split(w[1..] + t, sep);
      assert w + t == [w[0]] + (w[1..] + t);
      SplitCons(w[0], w[1..] + t, sep);
      assert [w[0]] + (w[1..] + st[0]) == w + st[0];
    }
  }

  /** Joining pieces free of the separator and splitting again gives the pieces back. */
  lemma {:induction false} SplitJoin(parts: seq<string>, sep: char)
    requires |parts| >= 1
    requires forall k :: 0 <= k < |parts| ==> sep !in parts[k]
    ensures Split(Join(parts, [sep]), sep) == parts
  {
    if |parts| == 1 {
      SplitPrefix(parts[0], "", sep);
      assert parts[0] + "" == parts[0];
    } else {
      var tail := Join(parts[1..], [sep]);
      SplitJoin(parts[1..], sep);
      assert Join(parts, [sep]) == parts[0] + ([sep] + tail);
      SplitPrefix(parts[0], [sep] + tail, sep);
      assert ([sep] + tail)[1..] == tail;
      assert Split([sep] + tail, sep) == [""] + parts[1..];
      assert parts[0] + "" == parts[0];
      assert ([""] + parts[1..])[1..] == parts[1..];
      assert parts == [parts[0]] + parts[1..];
    }
  }

  /** `char::is_whitespace`, which `str::split_whitespace` splits on: the Unicode White_Space characters. */
  predicate IsSpace(c: char)
  {
    '\t' <= c <= '\r' || c == ' ' || c == '\U{0085}' || c == '\U{00A0}' || c == '\U{1680}'
    || '\U{2000}' <= c <= '\U{200A}' || c == '\U{2028}' || c == '\U{2029}' || c == '\U{202F}'
    || c == '\U{205F}' || c == '\U{3000}'
  }

  predicate IsWord(w: string)
  {
    w != [] && forall i :: 0 <= i < |w| ==> !IsSpace(w[i])
  }

  /** `s.split_whitespace()`: the maximal runs of non-space characters, in order. */
  function Words(s: string): (r: seq<string>)
    ensures forall k :: 0 <= k < |r| ==> IsWord(r[k])
    ensures s != [] && !IsSpace(s[0]) ==> |r| >= 1 && r[0] != [] && r[0][0] == s[0]
    decreases |s|
  {
    if s == [] then []
    else if IsSpace(s[0]) then Words(s[1..])
    else
      var rest := Words(s[1..]);
      if |s| == 1 || IsSpace(s[1]) then [[s[0]]] + rest
      else [[s[0]] + rest[0]] + rest[1..]
  }

  /** A word followed by nothing or by a space is the first word. */
  lemma {:induction false} WordsOfWord(w: string, t: string)
    requires IsWord(w)
    requires t == [] || IsSpace(t[0])
    ensures Words(w + t) == [w] + Words(t)
    decreases |w|
  {
    var s := w + t;
    assert s[1..] == w[1..] + t;
    if |w| == 1 {
      assert s[1..] == t;
      assert w == [s[0]];
    } else {
      WordsOfWord(w[1..], t);
      assert w == [w[0]] + w[1..];
    }
  }

  /** Words joined by single spaces. */
  function Unwords(ws: seq<string>): string
  {
    Join(ws, " ")
  }

  /** Splitting words joined by spaces gives the words back. */
  lemma {:induction false} WordsUnwords(ws: seq<string>)
    requires forall k :: 0 <= k < |ws| ==> IsWord(ws[k])
    ensures Words(Unwords(ws)) == ws
  {
    if |ws| == 1 {
      WordsOfWord(ws[0], "");
      assert ws[0] + "" == ws[0];
    } else if |ws| > 1 {
      var tail := Unwords(ws[1..]);
      WordsUnwords(ws[1..]);
      assert Unwords(ws) == ws[0] + (" " + tail);
      WordsOfWord(ws[0], " " + tail);
      assert (" " + tail)[1..] == tail;
    }
  }
}
