/**
 * Day 6, Tuning Trouble: the start-of-packet marker ends after the first run of 4
 * pairwise different characters, the start-of-message marker after the first run of
 * 14; the answer is the number of characters read up to the end of that run.
 */
module Day06 {
  import opened Wrappers

  /** No character occurs twice. */
  predicate Distinct(w: string)
  {
    forall i, j :: 0 <= i < j < |w| ==> w[i] != w[j]
  }

  /** `chars().collect::<HashSet<char>>()` */
  function Chars(w: string): (r: set<char>)
    ensures forall c :: c in r <==> c in w
  {
    set i | 0 <= i < |w| :: w[i]
  }

  /** The set of a window's characters has as many elements as the window exactly when they are all different. */
  lemma {:induction false} CharsCount(w: string)
    ensures |Chars(w)| <= |w|
    ensures |Chars(w)| == |w| <==> Distinct(w)
  {
    if w != [] {
      var n := |w|;
      var init := w[..n - 1];
      CharsCount(init);
      assert Chars(w) == Chars(init) + {w[n - 1]};
      if w[n - 1] in init {
        assert Chars(w) == Chars(init);
        var k :| 0 <= k < n - 1 && init[k] == w[n - 1];
        assert w[k] == w[n - 1];
      } else {
        assert |Chars(w)| == |Chars(init)| + 1;
        if Distinct(init) {
          forall i, j | 0 <= i < j < n
            ensures w[i] != w[j]
          {
            if j < n - 1 {
              assert w[i] == init[i] && w[j] == init[j];
            } else {
              assert w[i] in init;
            }
          }
        } else {
          var i, j :| 0 <= i < j < n - 1 && init[i] == init[j];
          assert w[i] == w[j];
        }
      }
    }
  }

  /** The window of width `width` ending at `end`. */
  function Window(s: string, width: nat, end: nat): string
    requires width <= end <= |s|
  {
    s[end - width..end]
  }

  /** The `find_map` over `start..stop`: the first window start whose window has `width` different characters, plus `width`. */
  function FindMarker(s: string, width: nat, start: nat, stop: nat): (r: Option<nat>)
    requires stop + width <= |s| + 1 && start <= stop
    ensures r.Some? ==> start + width <= r.value < stop + width && r.value <= |s|
    ensures r.Some? ==> Distinct(Window(s, width, r.value))
    ensures r.Some? ==> forall e :: start + width <= e < r.value ==> !Distinct(Window(s, width, e))
    ensures r.None? ==> forall e :: start + width <= e < stop + width ==> !Distinct(Window(s, width, e))
    decreases stop - start
  {
    if start == stop then None
    else
      CharsCount(s[start..start + width]);
      if |Chars(s[start..start + width])| == width then Some(start + width)
      else FindMarker(s, width, start + 1, stop)
  }

  /** `solve_part1` and `solve_part2` as written: starts range over `0..len - width`, so the last window is never looked at. None stands for the `unwrap` panic. */
  function MarkerAsWritten(s: string, width: nat): (r: Option<nat>)
    requires width <= |s|
  {
    FindMarker(s, width, 0, |s| - width)
  }

  /** The search over every window, `0..=len - width`: the end of the first window with `width` different characters. */
  function Marker(s: string, width: nat): (r: Option<nat>)
    requires width <= |s|
    ensures r.Some? ==> width <= r.value <= |s| && Distinct(Window(s, width, r.value))
    ensures r.Some? ==> forall e :: width <= e < r.value ==> !Distinct(Window(s, width, e))
    ensures r.None? <==> forall e :: width <= e <= |s| ==> !Distinct(Window(s, width, e))
  {
    FindMarker(s, width, 0, |s| - width + 1)
  }

  /** The two searches agree except when the first marker ends the input, which the written range misses. */
  lemma {:induction false} AsWrittenMissesLast(s: string, width: nat, start: nat)
    requires width <= |s| && start <= |s| - width
    ensures FindMarker(s, width, start, |s| - width) ==
      if FindMarker(s, width, start, |s| - width + 1) == Some(|s|) then None
      else FindMarker(s, width, start, |s| - width + 1)
    decreases |s| - start
  {
    if start < |s| - width {
      AsWrittenMissesLast(s, width, start + 1);
    }
  }

  lemma MarkerAsWrittenDiffers(s: string, width: nat)
    requires width <= |s|
    ensures MarkerAsWritten(s, width) == if Marker(s, width) == Some(|s|) then None else Marker(s, width)
  {
    AsWrittenMissesLast(s, width, 0);
  }

  /** "abcd" starts with a packet marker after 4 characters, and the written search panics on it. */
  lemma ShortInputMissed()
    ensures Marker("abcd", 4) == Some(4)
    ensures MarkerAsWritten("abcd", 4) == None
  {
    var s := "abcd";
    assert Distinct(s);
    assert Window(s, 4, 4) == s;
    MarkerAsWrittenDiffers(s, 4);
  }

  /** A window with a repeated character is passed over. */
  lemma FindMarkerSkip(s: string, width: nat, start: nat, stop: nat)
    requires stop + width <= |s| + 1 && start < stop
    requires !Distinct(Window(s, width, start + width))
    ensures FindMarker(s, width, start, stop) == FindMarker(s, width, start + 1, stop)
  {
    CharsCount(s[start..start + width]);
  }

  /** A window of different characters ends the search. */
  lemma FindMarkerHit(s: string, width: nat, start: nat, stop: nat)
    requires stop + width <= |s| + 1 && start < stop
    requires Distinct(Window(s, width, start + width))
    ensures FindMarker(s, width, start, stop) == Some(start + width)
  {
    CharsCount(s[start..start + width]);
  }

  /** A window in which two positions of the input hold the same character is not a marker. */
  lemma WindowRepeat(s: string, width: nat, e: nat, a: nat, b: nat)
    requires width <= e <= |s| && e - width <= a < b < e && s[a] == s[b]
    ensures !Distinct(Window(s, width, e))
  {
    var w := Window(s, width, e);
    assert w[a - (e - width)] == s[a] && w[b - (e - width)] == s[b];
  }

  /** An input whose first three windows of 4 each repeat a character and whose fourth does not has its packet marker at 7. */
  lemma PacketMarkerAtSeven(s: string)
    requires |s| >= 7 && s[1] == s[3] && s[2] == s[5] && Distinct(Window(s, 4, 7))
    ensures Marker(s, 4) == Some(7)
  {
    var stop := |s| - 3;
    WindowRepeat(s, 4, 4, 1, 3);
    FindMarkerSkip(s, 4, 0, stop);
    WindowRepeat(s, 4, 5, 1, 3);
    FindMarkerSkip(s, 4, 1, stop);
    WindowRepeat(s, 4, 6, 2, 5);
    FindMarkerSkip(s, 4, 2, stop);
    FindMarkerHit(s, 4, 3, stop);
  }

  /** In the first example the start-of-packet marker ends after 7 characters. */
  lemma ExamplePacket()
    ensures Marker("mjqjpqmgbljsphdztnvjfqwrcgsmlb", 4) == Some(7)
  {
    ExamplePacketMarker();
    PacketMarkerAtSeven("mjqjpqmgbljsphdztnvjfqwrcgsmlb");
  }

  lemma ExamplePacketMarker()
    ensures Distinct(Window("mjqjpqmgbljsphdztnvjfqwrcgsmlb", 4, 7))
  {
    var p := "mjqjpqmgbljsphdztnvjfqwrcgsmlb"[..7];
    assert p == "mjqjpqm";
    assert Window("mjqjpqmgbljsphdztnvjfqwrcgsmlb", 4, 7) == p[3..7] == "jpqm";
  }

  /** An input whose first five windows of 14 each repeat a character and whose sixth does not has its message marker at 19. */
  lemma MessageMarkerAtNineteen(s: string)
    requires |s| >= 19 && s[1] == s[3] && s[2] == s[5] && s[3] == s[10] && s[4] == s[12]
    requires Distinct(Window(s, 14, 19))
    ensures Marker(s, 14) == Some(19)
  {
    var stop := |s| - 13;
    WindowRepeat(s, 14, 14, 1, 3);
    FindMarkerSkip(s, 14, 0, stop);
    WindowRepeat(s, 14, 15, 1, 3);
    FindMarkerSkip(s, 14, 1, stop);
    WindowRepeat(s, 14, 16, 2, 5);
    FindMarkerSkip(s, 14, 2, stop);
    WindowRepeat(s, 14, 17, 3, 10);
    FindMarkerSkip(s, 14, 3, stop);
    WindowRepeat(s, 14, 18, 4, 12);
    FindMarkerSkip(s, 14, 4, stop);
    FindMarkerHit(s, 14, 5, stop);
  }

  /** In the same input the start-of-message marker ends after 19 characters. */
  lemma ExampleMessage()
    ensures Marker("mjqjpqmgbljsphdztnvjfqwrcgsmlb", 14) == Some(19)
  {
    ExampleMessageWindow();
    ExampleMessageDistinct();
    MessageMarkerAtNineteen("mjqjpqmgbljsphdztnvjfqwrcgsmlb");
  }

  lemma ExampleMessageWindow()
    ensures Window("mjqjpqmgbljsphdztnvjfqwrcgsmlb", 14, 19) == "qmgbljsphdztnv"
  {
    var p := "mjqjpqmgbljsphdztnvjfqwrcgsmlb"[..19];
    assert p == "mjqjpqmgbljsphdztnv";
    assert Window("mjqjpqmgbljsphdztnvjfqwrcgsmlb", 14, 19) == p[5..19];
  }

  lemma ExampleMessageDistinct()
    ensures Distinct("qmgbljsphdztnv")
  {
  }

  /** A window in which two positions of the input hold the same character is passed over by the search. */
  lemma SkipRepeat(s: string, width: nat, start: nat, stop: nat, a: nat, b: nat)
    requires stop + width <= |s| + 1 && start < stop
    requires start <= a < b < start + width && s[a] == s[b]
    ensures FindMarker(s, width, start, stop) == FindMarker(s, width, start + 1, stop)
  {
    WindowRepeat(s, width, start + width, a, b);
    FindMarkerSkip(s, width, start, stop);
  }

  /** The second example input. */
  const SecondExample := "bvwbjplbgvbhsrlpgdmjqwftvncz"

  /** An input with these repeated characters, whose window of 4 ending at 5 is all different, has its packet marker there. */
  lemma SecondPacketSearch(s: string)
    requires |s| > 5 && s[0] == s[3]
    requires Distinct(Window(s, 4, 5))
    ensures Marker(s, 4) == Some(5)
  {
    var stop := |s| - 3;
    SkipRepeat(s, 4, 0, stop, 0, 3);
    FindMarkerHit(s, 4, 1, stop);
  }

  lemma SecondPacketRepeats()
    ensures var s := SecondExample; |s| == 28 && s[0] == s[3]
  {
  }

  lemma SecondPacketWindow()
    ensures Window(SecondExample, 4, 5) == "vwbj"
  {
    var p := SecondExample[..5];
    assert p == "bvwbj";
    assert Window(SecondExample, 4, 5) == p[1..5];
  }

  lemma SecondPacketDistinct()
    ensures Distinct("vwbj")
  {
  }

  /** In the second example the start-of-packet marker ends after 5 characters, for the search as written too. */
  lemma ExamplePacketSecond()
    ensures Marker(SecondExample, 4) == Some(5)
    ensures MarkerAsWritten(SecondExample, 4) == Some(5)
  {
    SecondPacketRepeats();
    SecondPacketWindow();
    SecondPacketDistinct();
    SecondPacketSearch(SecondExample);
    MarkerAsWrittenDiffers(SecondExample, 4);
  }

  /** An input with these repeated characters, whose window of 14 ending at 23 is all different, has its message marker there. */
  lemma SecondMessageSearch(s: string)
    requires |s| > 23 && s[0] == s[3] && s[3] == s[7] && s[7] == s[10] && s[8] == s[16]
    requires Distinct(Window(s, 14, 23))
    ensures Marker(s, 14) == Some(23)
  {
    var stop := |s| - 13;
    SkipRepeat(s, 14, 0, stop, 0, 3);
    SkipRepeat(s, 14, 1, stop, 3, 7);
    SkipRepeat(s, 14, 2, stop, 3, 7);
    SkipRepeat(s, 14, 3, stop, 3, 7);
    SkipRepeat(s, 14, 4, stop, 7, 10);
    SkipRepeat(s, 14, 5, stop, 7, 10);
    SkipRepeat(s, 14, 6, stop, 7, 10);
    SkipRepeat(s, 14, 7, stop, 7, 10);
    SkipRepeat(s, 14, 8, stop, 8, 16);
    FindMarkerHit(s, 14, 9, stop);
  }

  lemma SecondMessageRepeats()
    ensures var s := SecondExample; |s| == 28 && s[0] == s[3] && s[3] == s[7] && s[7] == s[10] && s[8] == s[16]
  {
  }

  lemma SecondMessageWindow()
    ensures Window(SecondExample, 14, 23) == "vbhsrlpgdmjqwf"
  {
    var p := SecondExample[..23];
    assert p == "bvwbjplbgvbhsrlpgdmjqwf";
    assert Window(SecondExample, 14, 23) == p[9..23];
  }

  lemma SecondMessageDistinct()
    ensures Distinct("vbhsrlpgdmjqwf")
  {
  }

  /** In the second example the start-of-message marker ends after 23 characters, for the search as written too. */
  lemma ExampleMessageSecond()
    ensures Marker(SecondExample, 14) == Some(23)
    ensures MarkerAsWritten(SecondExample, 14) == Some(23)
  {
    SecondMessageRepeats();
    SecondMessageWindow();
    SecondMessageDistinct();
    SecondMessageSearch(SecondExample);
    MarkerAsWrittenDiffers(SecondExample, 14);
  }

  /** The third example input. */
  const ThirdExample := "nppdvjthqldpwncqszvftbrmjlhg"

  /** An input with these repeated characters, whose window of 4 ending at 6 is all different, has its packet marker there. */
  lemma ThirdPacketSearch(s: string)
    requires |s| > 6 && s[1] == s[2]
    requires Distinct(Window(s, 4, 6))
    ensures Marker(s, 4) == Some(6)
  {
    var stop := |s| - 3;
    SkipRepeat(s, 4, 0, stop, 1, 2);
    SkipRepeat(s, 4, 1, stop, 1, 2);
    FindMarkerHit(s, 4, 2, stop);
  }

  lemma ThirdPacketRepeats()
    ensures var s := ThirdExample; |s| == 28 && s[1] == s[2]
  {
  }

  lemma ThirdPacketWindow()
    ensures Window(ThirdExample, 4, 6) == "pdvj"
  {
    var p := ThirdExample[..6];
    assert p == "nppdvj";
    assert Window(ThirdExample, 4, 6) == p[2..6];
  }

  lemma ThirdPacketDistinct()
    ensures Distinct("pdvj")
  {
  }

  /** In the third example the start-of-packet marker ends after 6 characters, for the search as written too. */
  lemma ExamplePacketThird()
    ensures Marker(ThirdExample, 4) == Some(6)
    ensures MarkerAsWritten(ThirdExample, 4) == Some(6)
  {
    ThirdPacketRepeats();
    ThirdPacketWindow();
    ThirdPacketDistinct();
    ThirdPacketSearch(ThirdExample);
    MarkerAsWrittenDiffers(ThirdExample, 4);
  }

  /** An input with these repeated characters, whose window of 14 ending at 23 is all different, has its message marker there. */
  lemma ThirdMessageSearch(s: string)
    requires |s| > 23 && s[1] == s[2] && s[3] == s[10] && s[8] == s[15]
    requires Distinct(Window(s, 14, 23))
    ensures Marker(s, 14) == Some(23)
  {
    var stop := |s| - 13;
    SkipRepeat(s, 14, 0, stop, 1, 2);
    SkipRepeat(s, 14, 1, stop, 1, 2);
    SkipRepeat(s, 14, 2, stop, 3, 10);
    SkipRepeat(s, 14, 3, stop, 3, 10);
    SkipRepeat(s, 14, 4, stop, 8, 15);
    SkipRepeat(s, 14, 5, stop, 8, 15);
    SkipRepeat(s, 14, 6, stop, 8, 15);
    SkipRepeat(s, 14, 7, stop, 8, 15);
    SkipRepeat(s, 14, 8, stop, 8, 15);
    FindMarkerHit(s, 14, 9, stop);
  }

  lemma ThirdMessageRepeats()
    ensures var s := ThirdExample; |s| == 28 && s[1] == s[2] && s[3] == s[10] && s[8] == s[15]
  {
  }

  lemma ThirdMessageWindow()
    ensures Window(ThirdExample, 14, 23) == "ldpwncqszvftbr"
  {
    var p := ThirdExample[..23];
    assert p == "nppdvjthqldpwncqszvftbr";
    assert Window(ThirdExample, 14, 23) == p[9..23];
  }

  lemma ThirdMessageDistinct()
    ensures Distinct("ldpwncqszvftbr")
  {
  }

  /** In the third example the start-of-message marker ends after 23 characters, for the search as written too. */
  lemma ExampleMessageThird()
    ensures Marker(ThirdExample, 14) == Some(23)
    ensures MarkerAsWritten(ThirdExample, 14) == Some(23)
  {
    ThirdMessageRepeats();
    ThirdMessageWindow();
    ThirdMessageDistinct();
    ThirdMessageSearch(ThirdExample);
    MarkerAsWrittenDiffers(ThirdExample, 14);
  }

  /** The fourth example input. */
  const FourthExample := "nznrnfrfntjfmvfwmzdfjlvtqnbhcprsg"

  /** An input with these repeated characters, whose window of 4 ending at 10 is all different, has its packet marker there. */
  lemma FourthPacketSearch(s: string)
    requires |s| > 10 && s[0] == s[2] && s[2] == s[4] && s[3] == s[6] && s[5] == s[7]
    requires Distinct(Window(s, 4, 10))
    ensures Marker(s, 4) == Some(10)
  {
    var stop := |s| - 3;
    SkipRepeat(s, 4, 0, stop, 0, 2);
    SkipRepeat(s, 4, 1, stop, 2, 4);
    SkipRepeat(s, 4, 2, stop, 2, 4);
    SkipRepeat(s, 4, 3, stop, 3, 6);
    SkipRepeat(s, 4, 4, stop, 5, 7);
    SkipRepeat(s, 4, 5, stop, 5, 7);
    FindMarkerHit(s, 4, 6, stop);
  }

  lemma FourthPacketRepeats()
    ensures var s := FourthExample; |s| == 33 && s[0] == s[2] && s[2] == s[4] && s[3] == s[6] && s[5] == s[7]
  {
  }

  lemma FourthPacketWindow()
    ensures Window(FourthExample, 4, 10) == "rfnt"
  {
    var p := FourthExample[..10];
    assert p == "nznrnfrfnt";
    assert Window(FourthExample, 4, 10) == p[6..10];
  }

  lemma FourthPacketDistinct()
    ensures Distinct("rfnt")
  {
  }

  /** In the fourth example the start-of-packet marker ends after 10 characters, for the search as written too. */
  lemma ExamplePacketFourth()
    ensures Marker(FourthExample, 4) == Some(10)
    ensures MarkerAsWritten(FourthExample, 4) == Some(10)
  {
    FourthPacketRepeats();
    FourthPacketWindow();
    FourthPacketDistinct();
    FourthPacketSearch(FourthExample);
    MarkerAsWrittenDiffers(FourthExample, 4);
  }

  /** An input with these repeated characters, whose window of 14 ending at 29 is all different, has its message marker there. */
  lemma FourthMessageSearch(s: string)
    requires |s| > 29 && s[0] == s[2] && s[2] == s[4] && s[3] == s[6] && s[5] == s[7] && s[7] == s[11] && s[11] == s[14] && s[12] == s[16] && s[14] == s[19]
    requires Distinct(Window(s, 14, 29))
    ensures Marker(s, 14) == Some(29)
  {
    var stop := |s| - 13;
    SkipRepeat(s, 14, 0, stop, 0, 2);
    SkipRepeat(s, 14, 1, stop, 2, 4);
    SkipRepeat(s, 14, 2, stop, 2, 4);
    SkipRepeat(s, 14, 3, stop, 3, 6);
    SkipRepeat(s, 14, 4, stop, 5, 7);
    SkipRepeat(s, 14, 5, stop, 5, 7);
    SkipRepeat(s, 14, 6, stop, 7, 11);
    SkipRepeat(s, 14, 7, stop, 7, 11);
    SkipRepeat(s, 14, 8, stop, 11, 14);
    SkipRepeat(s, 14, 9, stop, 11, 14);
    SkipRepeat(s, 14, 10, stop, 11, 14);
    SkipRepeat(s, 14, 11, stop, 11, 14);
    SkipRepeat(s, 14, 12, stop, 12, 16);
    SkipRepeat(s, 14, 13, stop, 14, 19);
    SkipRepeat(s, 14, 14, stop, 14, 19);
    FindMarkerHit(s, 14, 15, stop);
  }

  lemma FourthMessageRepeats1()
    ensures var s := FourthExample; |s| == 33 && s[0] == s[2] && s[2] == s[4] && s[3] == s[6] && s[5] == s[7] && s[7] == s[11]
  {
  }

  lemma FourthMessageRepeats2()
    ensures var s := FourthExample; s[11] == s[14] && s[12] == s[16] && s[14] == s[19]
  {
  }

  lemma FourthMessageWindow()
    ensures Window(FourthExample, 14, 29) == "wmzdfjlvtqnbhc"
  {
    var p := FourthExample[..29];
    assert p == "nznrnfrfntjfmvfwmzdfjlvtqnbhc";
    assert Window(FourthExample, 14, 29) == p[15..29];
  }

  lemma FourthMessageDistinct()
    ensures Distinct("wmzdfjlvtqnbhc")
  {
  }

  /** In the fourth example the start-of-message marker ends after 29 characters, for the search as written too. */
  lemma ExampleMessageFourth()
    ensures Marker(FourthExample, 14) == Some(29)
    ensures MarkerAsWritten(FourthExample, 14) == Some(29)
  {
    FourthMessageRepeats1();
    FourthMessageRepeats2();
    FourthMessageWindow();
    FourthMessageDistinct();
    FourthMessageSearch(FourthExample);
    MarkerAsWrittenDiffers(FourthExample, 14);
  }

  /** The fifth example input. */
  const FifthExample := "zcfzfwzzqfrljwzlrfnpqdbhtmscgvjw"

  /** An input with these repeated characters, whose window of 4 ending at 11 is all different, has its packet marker there. */
  lemma FifthPacketSearch(s: string)
    requires |s| > 11 && s[0] == s[3] && s[2] == s[4] && s[3] == s[6] && s[6] == s[7]
    requires Distinct(Window(s, 4, 11))
    ensures Marker(s, 4) == Some(11)
  {
    var stop := |s| - 3;
    SkipRepeat(s, 4, 0, stop, 0, 3);
    SkipRepeat(s, 4, 1, stop, 2, 4);
    SkipRepeat(s, 4, 2, stop, 2, 4);
    SkipRepeat(s, 4, 3, stop, 3, 6);
    SkipRepeat(s, 4, 4, stop, 6, 7);
    SkipRepeat(s, 4, 5, stop, 6, 7);
    SkipRepeat(s, 4, 6, stop, 6, 7);
    FindMarkerHit(s, 4, 7, stop);
  }

  lemma FifthPacketRepeats()
    ensures var s := FifthExample; |s| == 32 && s[0] == s[3] && s[2] == s[4] && s[3] == s[6] && s[6] == s[7]
  {
  }

  lemma FifthPacketWindow()
    ensures Window(FifthExample, 4, 11) == "zqfr"
  {
    var p := FifthExample[..11];
    assert p == "zcfzfwzzqfr";
    assert Window(FifthExample, 4, 11) == p[7..11];
  }

  lemma FifthPacketDistinct()
    ensures Distinct("zqfr")
  {
  }

  /** In the fifth example the start-of-packet marker ends after 11 characters, for the search as written too. */
  lemma ExamplePacketFifth()
    ensures Marker(FifthExample, 4) == Some(11)
    ensures MarkerAsWritten(FifthExample, 4) == Some(11)
  {
    FifthPacketRepeats();
    FifthPacketWindow();
    FifthPacketDistinct();
    FifthPacketSearch(FifthExample);
    MarkerAsWrittenDiffers(FifthExample, 4);
  }

  /** An input with these repeated characters, whose window of 14 ending at 26 is all different, has its message marker there. */
  lemma FifthMessageSearch(s: string)
    requires |s| > 26 && s[0] == s[3] && s[2] == s[4] && s[3] == s[6] && s[6] == s[7] && s[7] == s[14] && s[11] == s[15]
    requires Distinct(Window(s, 14, 26))
    ensures Marker(s, 14) == Some(26)
  {
    var stop := |s| - 13;
    SkipRepeat(s, 14, 0, stop, 0, 3);
    SkipRepeat(s, 14, 1, stop, 2, 4);
    SkipRepeat(s, 14, 2, stop, 2, 4);
    SkipRepeat(s, 14, 3, stop, 3, 6);
    SkipRepeat(s, 14, 4, stop, 6, 7);
    SkipRepeat(s, 14, 5, stop, 6, 7);
    SkipRepeat(s, 14, 6, stop, 6, 7);
    SkipRepeat(s, 14, 7, stop, 7, 14);
    SkipRepeat(s, 14, 8, stop, 11, 15);
    SkipRepeat(s, 14, 9, stop, 11, 15);
    SkipRepeat(s, 14, 10, stop, 11, 15);
    SkipRepeat(s, 14, 11, stop, 11, 15);
    FindMarkerHit(s, 14, 12, stop);
  }

  lemma FifthMessageRepeats1()
    ensures var s := FifthExample; |s| == 32 && s[0] == s[3] && s[2] == s[4] && s[3] == s[6] && s[6] == s[7] && s[7] == s[14]
  {
  }

  lemma FifthMessageRepeats2()
    ensures var s := FifthExample; s[11] == s[15]
  {
  }

  lemma FifthMessageWindow()
    ensures Window(FifthExample, 14, 26) == "jwzlrfnpqdbhtm"
  {
    var p := FifthExample[..26];
    assert p == "zcfzfwzzqfrljwzlrfnpqdbhtm";
    assert Window(FifthExample, 14, 26) == p[12..26];
  }

  lemma FifthMessageDistinct()
    ensures Distinct("jwzlrfnpqdbhtm")
  {
  }

  /** In the fifth example the start-of-message marker ends after 26 characters, for the search as written too. */
  lemma ExampleMessageFifth()
    ensures Marker(FifthExample, 14) == Some(26)
    ensures MarkerAsWritten(FifthExample, 14) == Some(26)
  {
    FifthMessageRepeats1();
    FifthMessageRepeats2();
    FifthMessageWindow();
    FifthMessageDistinct();
    FifthMessageSearch(FifthExample);
    MarkerAsWrittenDiffers(FifthExample, 14);
  }
}
