/**
 * Day 10, Cathode-Ray Tube: a CPU with one register X (starting at 1) runs `noop`
 * (one cycle) and `addx v` (two cycles, X grows by v after the second). Part 1 adds
 * up cycle × X during cycles 20, 60, 100, …; part 2 draws one pixel per cycle on a
 * screen 40 pixels wide, lit when the three-pixel sprite centred on X covers the
 * pixel being drawn.
 */
module Day10 {
  import opened Wrappers
  import opened Text

  datatype Instruction = Noop | Addx(v: int)

  /** Rust's `%` on `i32`: the remainder takes the sign of the dividend. */
  function Rem(a: int, b: int): (r: int)
    requires b > 0
    ensures a >= 0 ==> 0 <= r < b && r == a % b
    ensures a < 0 ==> -b < r <= 0
  {
    if a >= 0 then a % b else -((-a) % b)
  }

  /** How many cycles the instructions take. */
  function Cycles(instrs: seq<Instruction>): nat
  {
    if instrs == [] then 0 else (if instrs[0].Addx? then 2 else 1) + Cycles(instrs[1..])
  }

  /** The value of X during each cycle, starting from `x`: the reference both parts are checked against. */
  function Trace(instrs: seq<Instruction>, x: int): (r: seq<int>)
    ensures |r| == Cycles(instrs)
  {
    if instrs == [] then []
    else
      match instrs[0]
      case Noop => [x] + Trace(instrs[1..], x)
      case Addx(v) => [x, x] + Trace(instrs[1..], x + v)
  }

  /** `boost_signal`: adds cycle × X when the cycle is 20 more than a multiple of 40. */
  function BoostSignal(signal: int, cycle: int, x: int): (r: int)
    ensures Rem(cycle, 40) == 20 ==> r - signal == cycle * x
    ensures Rem(cycle, 40) != 20 ==> r == signal
    ensures cycle > 0 ==> (r == signal || cycle % 40 == 20)
  {
    if Rem(cycle, 40) == 20 then signal + cycle * x else signal
  }

  /** The part 1 loop from its current state: the cycle about to start, X and the signal so far. */
  function Signal(instrs: seq<Instruction>, cycle: int, x: int, signal: int): int
    decreases |instrs|
  {
    if instrs == [] then signal
    else
      var boosted := BoostSignal(signal, cycle, x);
      match instrs[0]
      case Addx(v) => Signal(instrs[1..], cycle + 2, x + v, BoostSignal(boosted, cycle + 1, x))
      case Noop => Signal(instrs[1..], cycle + 1, x, boosted)
  }

  /** `solve_part1` */
  function SolvePart1(instrs: seq<Instruction>): (r: int)
    ensures r == Strength(Trace(instrs, 1), 1)
  {
    SignalIsStrength(instrs, 1, 1, 0);
    Signal(instrs, 1, 1, 0)
  }

  /** The sum of cycle × X over the cycles of `trace` (the first one numbered `cycle`) that are 20 past a multiple of 40. */
  function Strength(trace: seq<int>, cycle: int): int
    decreases |trace|
  {
    if trace == [] then 0
    else (if cycle > 0 && cycle % 40 == 20 then cycle * trace[0] else 0) + Strength(trace[1..], cycle + 1)
  }

  /** The part 1 loop adds exactly the signal strengths of the cycles the trace lists. */
  lemma {:induction false} SignalIsStrength(instrs: seq<Instruction>, cycle: int, x: int, signal: int)
    requires cycle > 0
    ensures Signal(instrs, cycle, x, signal) == signal + Strength(Trace(instrs, x), cycle)
    decreases |instrs|
  {
    if instrs != [] {
      var t := Trace(instrs, x);
      match instrs[0]
      case Noop =>
        SignalIsStrength(instrs[1..], cycle + 1, x, BoostSignal(signal, cycle, x));
        assert t[1..] == Trace(instrs[1..], x);
      case Addx(v) =>
        var boosted := BoostSignal(BoostSignal(signal, cycle, x), cycle + 1, x);
        SignalIsStrength(instrs[1..], cycle + 2, x + v, boosted);
        assert t[1..][1..] == Trace(instrs[1..], x + v);
    }
  }

  /** `lit`: the sprite covers the three pixels from its left edge. */
  predicate Lit(n: int, sprite: int)
  {
    sprite <= n < sprite + 3
  }

  /** `pixel`: the pixel drawn in a cycle, lit when the sprite's left edge is within two to its left. */
  function Pixel(cycle: int, sprite: int): (r: char)
    ensures r == '#' || r == '.'
    ensures r == '#' <==> -1 <= Rem(cycle - 1, 40) - (sprite + 1) <= 1
  {
    if Lit(Rem(cycle - 1, 40), sprite) then '#' else '.'
  }

  /** The part 2 loop from its current state: the cycle about to start and the sprite's left edge. */
  function Image(instrs: seq<Instruction>, cycle: int, sprite: int): (r: seq<char>)
    ensures |r| == Cycles(instrs)
    decreases |instrs|
  {
    if instrs == [] then []
    else
      match instrs[0]
      case Addx(v) => [Pixel(cycle, sprite), Pixel(cycle + 1, sprite)] + Image(instrs[1..], cycle + 2, sprite + v)
      case Noop => [Pixel(cycle, sprite)] + Image(instrs[1..], cycle + 1, sprite)
  }

  /** Each pixel is drawn with the sprite centred on X during its cycle. */
  lemma {:induction false} ImageIsTrace(instrs: seq<Instruction>, cycle: int, sprite: int)
    ensures DrawsTrace(instrs, cycle, sprite)
    decreases |instrs|
  {
    if instrs != [] {
      match instrs[0]
      case Noop =>
        ImageIsTrace(instrs[1..], cycle + 1, sprite);
        NoopDrawsTrace(instrs, cycle, sprite);
      case Addx(v) =>
        ImageIsTrace(instrs[1..], cycle + 2, sprite + v);
        AddxDrawsTrace(instrs, cycle, sprite);
    }
  }

  /** Pixel `i` of the image is drawn in cycle `cycle + i` with the sprite one left of `xs[i]`. */
  predicate Draws(img: seq<char>, xs: seq<int>, cycle: int)
  {
    |img| == |xs| && forall i :: 0 <= i < |xs| ==> img[i] == Pixel(cycle + i, xs[i] - 1)
  }

  /** The pixel of each cycle is drawn with the sprite one left of the X the trace records. */
  predicate DrawsTrace(instrs: seq<Instruction>, cycle: int, sprite: int)
  {
    Draws(Image(instrs, cycle, sprite), Trace(instrs, sprite + 1), cycle)
  }

  /** Drawing one more pixel in front, one cycle earlier. */
  lemma DrawsCons(c: char, x: int, img: seq<char>, xs: seq<int>, cycle: int)
    requires Draws(img, xs, cycle + 1) && c == Pixel(cycle, x - 1)
    ensures Draws([c] + img, [x] + xs, cycle)
  {
    forall i | 0 <= i < |xs| + 1
      ensures ([c] + img)[i] == Pixel(cycle + i, ([x] + xs)[i] - 1)
    {
      if i > 0 {
        assert ([c] + img)[i] == img[i - 1] && ([x] + xs)[i] == xs[i - 1];
        assert cycle + 1 + (i - 1) == cycle + i;
      }
    }
  }

  lemma NoopDrawsTrace(instrs: seq<Instruction>, cycle: int, sprite: int)
    requires instrs != [] && instrs[0].Noop?
    requires DrawsTrace(instrs[1..], cycle + 1, sprite)
    ensures DrawsTrace(instrs, cycle, sprite)
  {
    var img', t' := Image(instrs[1..], cycle + 1, sprite), Trace(instrs[1..], sprite + 1);
    assert Trace(instrs, sprite + 1) == [sprite + 1] + t';
    assert Image(instrs, cycle, sprite) == [Pixel(cycle, sprite)] + img';
    DrawsCons(Pixel(cycle, sprite), sprite + 1, img', t', cycle);
  }

  lemma AddxTrace(instrs: seq<Instruction>, x: int)
    requires instrs != [] && instrs[0].Addx?
    ensures Trace(instrs, x) == [x] + ([x] + Trace(instrs[1..], x + instrs[0].v))
  {
    assert [x, x] == [x] + [x];
  }

  lemma AddxImage(instrs: seq<Instruction>, cycle: int, sprite: int)
    requires instrs != [] && instrs[0].Addx?
    ensures Image(instrs, cycle, sprite)
      == [Pixel(cycle, sprite)] + ([Pixel(cycle + 1, sprite)] + Image(instrs[1..], cycle + 2, sprite + instrs[0].v))
  {
    var p, q := Pixel(cycle, sprite), Pixel(cycle + 1, sprite);
    assert [p, q] == [p] + [q];
  }

  lemma AddxDrawsTrace(instrs: seq<Instruction>, cycle: int, sprite: int)
    requires instrs != [] && instrs[0].Addx?
    requires DrawsTrace(instrs[1..], cycle + 2, sprite + instrs[0].v)
    ensures DrawsTrace(instrs, cycle, sprite)
  {
    var v := instrs[0].v;
    var img', t' := Image(instrs[1..], cycle + 2, sprite + v), Trace(instrs[1..], sprite + v + 1);
    AddxTrace(instrs, sprite + 1);
    AddxImage(instrs, cycle, sprite);
    DrawsCons(Pixel(cycle + 1, sprite), sprite + 1, img', t', cycle + 1);
    DrawsCons(Pixel(cycle, sprite), sprite + 1, [Pixel(cycle + 1, sprite)] + img', [sprite + 1] + t', cycle);
  }


  /** The chunks of a list concatenated back. */
  function Flatten<T>(chunks: seq<seq<T>>): seq<T>
  {
    if chunks == [] then [] else chunks[0] + Flatten(chunks[1..])
  }

  /** `s.chunks(n)`: pieces of `n`, the last one possibly shorter, none for an empty list. */
  function Chunks<T>(s: seq<T>, n: nat): (r: seq<seq<T>>)
    requires n > 0
    ensures forall k :: 0 <= k < |r| ==> 1 <= |r[k]| <= n
    ensures forall k :: 0 <= k < |r| - 1 ==> |r[k]| == n
    decreases |s|
  {
    if s == [] then []
    else if |s| <= n then [s]
    else
      var rest := Chunks(s[n..], n);
      assert ([s[..n]] + rest)[1..] == rest;
      [s[..n]] + rest
  }

  /** The chunks concatenated back give the list. */
  lemma {:induction false} ChunksFlatten<T>(s: seq<T>, n: nat)
    requires n > 0
    ensures Flatten(Chunks(s, n)) == s
    decreases |s|
  {
    if s == [] {
    } else if |s| <= n {
      assert Flatten([s]) == s + Flatten([]);
    } else {
      var rest := Chunks(s[n..], n);
      ChunksFlatten(s[n..], n);
      assert ([s[..n]] + rest)[1..] == rest;
      assert s == s[..n] + s[n..];
    }
  }

  lemma MulStep(k: nat, n: nat)
    requires k > 0
    ensures (k - 1) * n >= 0 && k * n == n + (k - 1) * n
  {
  }

  /** Entry `j` of chunk `k` is entry `k * n + j` of the list. */
  lemma {:induction false} ChunksIndex<T>(s: seq<T>, n: nat, k: nat, j: nat)
    requires n > 0 && k < |Chunks(s, n)| && j < |Chunks(s, n)[k]|
    ensures k * n + j < |s| && Chunks(s, n)[k][j] == s[k * n + j]
    decreases k
  {
    ChunksUnfold(s, n);
    if k > 0 {
      MulStep(k, n);
      ChunksIndex(s[n..], n, k - 1, j);
      ShiftIndex(s, n, (k - 1) * n + j, k * n + j);
    }
  }

  lemma ShiftIndex<T>(s: seq<T>, n: nat, m: nat, x: nat)
    requires n <= |s| && m < |s| - n && x == n + m
    ensures x < |s| && s[n..][m] == s[x]
  {
  }

  /** The first chunk is the first `n` items, or all of them; after it come the chunks of the rest. */
  lemma ChunksUnfold<T>(s: seq<T>, n: nat)
    requires n > 0
    ensures |s| <= n ==> |Chunks(s, n)| <= 1 && (s != [] ==> Chunks(s, n)[0] == s)
    ensures |s| > n ==> Chunks(s, n) == [s[..n]] + Chunks(s[n..], n)
  {
  }


  lemma ModOffset(k: nat, j: nat)
    requires j < 40
    ensures (k * 40 + j) % 40 == j
  {
  }

  /** Every line has its pixels lit exactly where X during the pixel's cycle is within one of its column. */
  ghost predicate ShowsTrace(lines: seq<string>, t: seq<int>)
  {
    forall k, j :: 0 <= k < |lines| && 0 <= j < |lines[k]| ==> ShowsCycle(lines, t, k, j)
  }

  /** Column `j` of line `k` is the pixel of cycle `k * 40 + j`, lit exactly when X then is within one of `j`. */
  ghost predicate ShowsCycle(lines: seq<string>, t: seq<int>, k: nat, j: nat)
    requires k < |lines| && j < |lines[k]|
  {
    k * 40 + j < |t| && (lines[k][j] == '#' <==> -1 <= j - t[k * 40 + j] <= 1)
  }

  /** `solve_part2`: the screen, whose lines hold 40 pixels each but the last, one pixel per cycle. */
  function SolvePart2(instrs: seq<Instruction>): (r: string)
    ensures instrs == [] ==> r == ""
    ensures instrs != [] ==> |Flatten(Split(r, '\n'))| == |Trace(instrs, 1)|
    ensures instrs != [] ==> forall k :: 0 <= k < |Split(r, '\n')| - 1 ==> |Split(r, '\n')[k]| == 40
    ensures instrs != [] ==> ShowsTrace(Split(r, '\n'), Trace(instrs, 1))
  {
    var lines := Chunks(Image(instrs, 1, 0), 40);
    if instrs == [] then Join(lines, "\n")
    else
      ScreenLines(instrs);
      ChunksFlatten(Image(instrs, 1, 0), 40);
      Join(lines, "\n")
  }

  /** Every pixel is lit or dark. */
  lemma {:induction false} ImagePixels(instrs: seq<Instruction>, cycle: int, sprite: int)
    ensures forall i :: 0 <= i < |Image(instrs, cycle, sprite)| ==> Image(instrs, cycle, sprite)[i] in "#."
    decreases |instrs|
  {
    if instrs != [] {
      match instrs[0]
      case Addx(v) => ImagePixels(instrs[1..], cycle + 2, sprite + v);
      case Noop => ImagePixels(instrs[1..], cycle + 1, sprite);
    }
  }

  /** No line of the screen holds a line break, so splitting the joined screen gives its lines back. */
  lemma ScreenSplit(instrs: seq<Instruction>)
    requires instrs != []
    ensures var lines := Chunks(Image(instrs, 1, 0), 40); Split(Join(lines, "\n"), '\n') == lines
  {
    var img := Image(instrs, 1, 0);
    var lines := Chunks(img, 40);
    assert |img| > 0 by { assert Cycles(instrs) > 0; }
    ChunksFlatten(img, 40);
    assert lines != [] by { assert Flatten(lines) == img; }
    ImagePixels(instrs, 1, 0);
    forall k | 0 <= k < |lines|
      ensures '\n' !in lines[k]
    {
      forall j | 0 <= j < |lines[k]|
        ensures lines[k][j] != '\n'
      {
        ChunksIndex(img, 40, k, j);
      }
    }
    SplitJoin(lines, '\n');
  }

  /** The screen's lines are the image's rows of 40 pixels, each lit where the sprite covers its column. */
  lemma ScreenLines(instrs: seq<Instruction>)
    requires instrs != []
    ensures var lines := Chunks(Image(instrs, 1, 0), 40);
      Split(Join(lines, "\n"), '\n') == lines && ShowsTrace(lines, Trace(instrs, 1))
  {
    ScreenSplit(instrs);
    ScreenShows(instrs);
  }

  lemma ScreenShows(instrs: seq<Instruction>)
    ensures ShowsTrace(Chunks(Image(instrs, 1, 0), 40), Trace(instrs, 1))
  {
    var lines := Chunks(Image(instrs, 1, 0), 40);
    var t := Trace(instrs, 1);
    forall k, j | 0 <= k < |lines| && 0 <= j < |lines[k]|
      ensures ShowsCycle(lines, t, k, j)
    {
      ScreenPixel(instrs, k, j);
    }
  }

  /** Column `j` of screen line `k` is lit exactly when X during that pixel's cycle is within one of `j`. */
  lemma ScreenPixel(instrs: seq<Instruction>, k: nat, j: nat)
    requires k < |Chunks(Image(instrs, 1, 0), 40)| && j < |Chunks(Image(instrs, 1, 0), 40)[k]|
    ensures var t := Trace(instrs, 1);
      k * 40 + j < |t| && (Chunks(Image(instrs, 1, 0), 40)[k][j] == '#' <==> -1 <= j - t[k * 40 + j] <= 1)
  {
    var img := Image(instrs, 1, 0);
    ChunksIndex(img, 40, k, j);
    ImageIsTrace(instrs, 1, 0);
    ModOffset(k, j);
  }

  /** `parse_instruction`: `noop`, or `addx` and an `i32`. */
  function ParseInstruction(s: string): (r: Option<(Instruction, string)>)
    ensures r.Some? ==> |r.value.1| < |s|
    ensures r.Some? && r.value.0.Noop? ==> s == "noop" + r.value.1
    ensures r.Some? && r.value.0.Addx? ==> I32Min <= r.value.0.v <= I32Max && |s| >= 5 && s[..5] == "addx "
    ensures r.Some? && r.value.0.Addx? ==> ParseSignedPrefix(s[5..], I32Min, I32Max) == Some((r.value.0.v, r.value.1))
    ensures r.None? <==> (!(|s| >= 4 && s[..4] == "noop")
      && !(|s| >= 5 && s[..5] == "addx " && ParseSignedPrefix(s[5..], I32Min, I32Max).Some?))
  {
    if |s| >= 4 && s[..4] == "noop" then Some((Noop, s[4..]))
    else if |s| >= 5 && s[..5] == "addx " then
      match ParseSignedPrefix(s[5..], I32Min, I32Max)
      case None => None
      case Some((v, rest)) => Some((Addx(v), rest))
    else None
  }

  function ShowInstruction(i: Instruction): string
  {
    match i
    case Noop => "noop"
    case Addx(v) => "addx " + ShowInt(v)
  }

  /** A written instruction followed by a non-digit parses back, leaving the rest. */
  lemma ParseShowInstruction(i: Instruction, rest: string)
    requires i.Addx? ==> I32Min <= i.v <= I32Max
    requires rest == [] || !IsDigit(rest[0])
    ensures ParseInstruction(ShowInstruction(i) + rest) == Some((i, rest))
  {
    match i
    case Noop => ParseShowNoop(rest);
    case Addx(v) => ParseShowAddx(v, rest);
  }

  lemma ParseShowNoop(rest: string)
    ensures ParseInstruction("noop" + rest) == Some((Noop, rest))
  {
    var s := "noop" + rest;
    assert s[..4] == "noop" && s[4..] == rest;
  }

  lemma ParseShowAddx(v: int, rest: string)
    requires I32Min <= v <= I32Max
    requires rest == [] || !IsDigit(rest[0])
    ensures ParseInstruction("addx " + ShowInt(v) + rest) == Some((Addx(v), rest))
  {
    var s := "addx " + ShowInt(v) + rest;
    assert s[..4] != "noop" by {
      assert s[0] == 'a';
    }
    assert s[..5] == "addx " && s[5..] == ShowInt(v) + rest;
    ParseSignedShow(v, rest, I32Min, I32Max);
    assert ParseSignedPrefix(s[5..], I32Min, I32Max) == Some((v, rest));
  }

  function ParseInstructions(s: string): (r: Option<(seq<Instruction>, string)>)
    ensures r.Some? ==> |r.value.0| >= 1
  {
    SeparatedLines(ParseInstruction, s, false)
  }

  /** Instructions written one per line parse back completely. */
  lemma ParseShowInstructions(instrs: seq<Instruction>)
    requires |instrs| >= 1
    requires forall i :: 0 <= i < |instrs| && instrs[i].Addx? ==> I32Min <= instrs[i].v <= I32Max
    ensures ParseInstructions(Join(seq(|instrs|, i requires 0 <= i < |instrs| => ShowInstruction(instrs[i])), "\n")) == Some((instrs, ""))
  {
    var lines := seq(|instrs|, i requires 0 <= i < |instrs| => ShowInstruction(instrs[i]));
    var item: string -> Option<(Instruction, string)> := ParseInstruction;
    forall i, rest {:trigger item(lines[i] + rest)} | 0 <= i < |lines| && (rest == [] || rest[0] == '\n')
      ensures item(lines[i] + rest) == Some((instrs[i], rest))
    {
      ParseShowInstruction(instrs[i], rest);
    }
    SeparatedLinesJoin(item, lines, instrs, false);
  }

  const SmallExample: seq<Instruction> := [Noop, Addx(3), Addx(-5)]

  /** The small example: X is 1, 1, 1, 4, 4 over its five cycles, and no cycle 20 is reached. */
  lemma ExampleSmall()
    ensures Trace(SmallExample, 1) == [1, 1, 1, 4, 4]
    ensures SolvePart1(SmallExample) == 0
    ensures ParseInstruction("noop") == Some((Noop, ""))
    ensures ParseInstruction("addx 77") == Some((Addx(77), ""))
  {
    ParseShowInstruction(Noop, "");
    assert ShowNat(77) == "77" by {
      assert ShowNat(7) == "7";
      assert ShowNat(77) == ShowNat(7) + [DigitChar(7)];
    }
    assert ShowInstruction(Addx(77)) + "" == "addx 77";
    ParseShowInstruction(Addx(77), "");
  }
}
