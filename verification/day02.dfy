/**
 * Day 2, Rock Paper Scissors: each line of the strategy guide names the opponent's
 * hand and either our hand (part 1) or the result we should aim for (part 2); a
 * round scores the value of our hand plus the value of its result.
 */
module Day02 {
  import opened Wrappers
  import opened Text
  import opened Sums

  datatype Hand = Rock | Paper | Scissors
  {
    /** `Hand::value` */
    function Value(): (r: int)
      ensures 1 <= r <= 3
    {
      match this
      case Rock => 1
      case Paper => 2
      case Scissors => 3
    }
  }

  datatype Outcome = Win | Draw | Lose
  {
    /** `RoundResult::value` */
    function Value(): (r: int)
      ensures r == 0 || r == 3 || r == 6
    {
      match this
      case Win => 6
      case Draw => 3
      case Lose => 0
    }
  }

  /** `RoundResult::from_hands(h1, h2)`: the result for the player of `h1`. */
  function Play(h1: Hand, h2: Hand): (r: Outcome)
    ensures r == Draw <==> h1 == h2
    ensures r == Win <==> (h1.Value() - h2.Value()) % 3 == 1
    ensures r == Lose <==> (h2.Value() - h1.Value()) % 3 == 1
  {
    match h1
    case Rock => (match h2 case Rock => Draw case Paper => Lose case Scissors => Win)
    case Paper => (match h2 case Rock => Win case Paper => Draw case Scissors => Lose)
    case Scissors => (match h2 case Rock => Lose case Paper => Win case Scissors => Draw)
  }

  /** What one player wins, the other loses. */
  lemma PlaySwapped(h1: Hand, h2: Hand)
    ensures Play(h1, h2) == Win <==> Play(h2, h1) == Lose
    ensures Play(h1, h2) == Draw <==> Play(h2, h1) == Draw
  {
  }

  datatype Round = Round(opponent: Hand, choice: Hand, result: Outcome)

  /** A round whose result is what its two hands give. */
  predicate Consistent(r: Round)
  {
    r.result == Play(r.choice, r.opponent)
  }

  /** `Round::from_hands` */
  function FromHands(opponent: Hand, choice: Hand): (r: Round)
    ensures Consistent(r)
    ensures r.opponent == opponent && r.choice == choice
  {
    Round(opponent, choice, Play(choice, opponent))
  }

  /** `Round::from_result`: the hand to play against `opponent` to get `result`. */
  function FromResult(opponent: Hand, result: Outcome): (r: Round)
    ensures Consistent(r)
    ensures r.opponent == opponent && r.result == result
  {
    var choice := match result
      case Draw => opponent
      case Win => (match opponent case Rock => Paper case Paper => Scissors case Scissors => Rock)
      case Lose => (match opponent case Rock => Scissors case Paper => Rock case Scissors => Paper);
    Round(opponent, choice, result)
  }

  /** The hand `FromResult` picks is the only one that gets that result. */
  lemma FromResultUnique(opponent: Hand, result: Outcome, c: Hand)
    ensures Play(c, opponent) == result <==> c == FromResult(opponent, result).choice
  {
  }

  /** Choosing hands and then asking for their result gives back the same round. */
  lemma FromHandsFromResult(opponent: Hand, choice: Hand)
    ensures FromResult(opponent, FromHands(opponent, choice).result) == FromHands(opponent, choice)
  {
  }

  /** `Round::score`: between 1 (rock, lost) and 9 (scissors, won). */
  function Score(r: Round): (s: int)
    ensures 1 <= s <= 9
    ensures s == r.choice.Value() + r.result.Value()
  {
    r.choice.Value() + r.result.Value()
  }

  /** A round's score determines both our hand and the result. */
  lemma ScoreDetermines(a: Round, b: Round)
    requires Score(a) == Score(b)
    ensures a.choice == b.choice && a.result == b.result
  {
  }

  /** `solve_both_parts`: the sum of the round scores. */
  function TotalScore(rounds: seq<Round>): (r: Option<int>)
    ensures r.Some?
  {
    Some(SumOf(Score, rounds))
  }

  /** The total lies between one and nine points a round, and adds up over a split guide. */
  lemma TotalScoreBounds(a: seq<Round>, b: seq<Round>)
    ensures |a| <= TotalScore(a).value <= 9 * |a|
    ensures TotalScore(a + b).value == TotalScore(a).value + TotalScore(b).value
  {
    SumOfBounds(Score, a, 1, 9);
    SumOfAppend(Score, a, b);
  }

  /** `Hand::from_str`: A/B/C and X/Y/Z both name rock, paper and scissors. */
  function ParseHand(s: string): (r: Option<Hand>)
    ensures r.Some? <==> s in {"A", "B", "C", "X", "Y", "Z"}
    ensures r == Some(Rock) <==> s in {"A", "X"}
    ensures r == Some(Paper) <==> s in {"B", "Y"}
    ensures r == Some(Scissors) <==> s in {"C", "Z"}
  {
    if s == "A" || s == "X" then Some(Rock)
    else if s == "B" || s == "Y" then Some(Paper)
    else if s == "C" || s == "Z" then Some(Scissors)
    else None
  }

  /** `RoundResult::from_str`: X loses, Y draws, Z wins. */
  function ParseOutcome(s: string): (r: Option<Outcome>)
    ensures r.Some? <==> s in {"X", "Y", "Z"}
    ensures r == Some(Lose) <==> s == "X"
    ensures r == Some(Draw) <==> s == "Y"
    ensures r == Some(Win) <==> s == "Z"
  {
    if s == "X" then Some(Lose)
    else if s == "Y" then Some(Draw)
    else if s == "Z" then Some(Win)
    else None
  }

  /** The opponent's column letter of a hand. */
  function OpponentLetter(h: Hand): string
  {
    match h
    case Rock => "A"
    case Paper => "B"
    case Scissors => "C"
  }

  /** Our own column letter of a hand in part 1. */
  function OwnLetter(h: Hand): string
  {
    match h
    case Rock => "X"
    case Paper => "Y"
    case Scissors => "Z"
  }

  /** The letter of an outcome in the second column of part 2. */
  function OutcomeLetter(o: Outcome): string
  {
    match o
    case Lose => "X"
    case Draw => "Y"
    case Win => "Z"
  }

  lemma ParseLetters(h: Hand, o: Outcome)
    ensures ParseHand(OpponentLetter(h)) == Some(h)
    ensures ParseHand(OwnLetter(h)) == Some(h)
    ensures ParseOutcome(OutcomeLetter(o)) == Some(o)
  {
  }

  /** `Round::from_part1`: both of the first two words must be hands, else the line is rejected. */
  function FromPart1(line: string): (r: Option<Round>)
    requires |Words(line)| >= 2
    ensures r.Some? <==> ParseHand(Words(line)[0]).Some? && ParseHand(Words(line)[1]).Some?
    ensures r.Some? ==> Consistent(r.value)
  {
    var w := Words(line);
    match (ParseHand(w[0]), ParseHand(w[1]))
    case (Some(o), Some(c)) => Some(FromHands(o, c))
    case _ => None
  }

  /** `Round::from_part2`: the first word a hand, the second an outcome. */
  function FromPart2(line: string): (r: Round)
    requires |Words(line)| >= 2
    requires ParseHand(Words(line)[0]).Some? && ParseOutcome(Words(line)[1]).Some?
    ensures Consistent(r)
  {
    var w := Words(line);
    FromResult(ParseHand(w[0]).value, ParseOutcome(w[1]).value)
  }

  /** `gen` for part 1: the rounds of the lines that parse, in order. */
  function Part1Rounds(lines: seq<string>): (r: seq<Round>)
    requires forall k :: 0 <= k < |lines| ==> |Words(lines[k])| >= 2
    ensures |r| <= |lines|
    ensures forall k :: 0 <= k < |r| ==> Consistent(r[k])
  {
    if lines == [] then []
    else
      var rest := Part1Rounds(lines[1..]);
      match FromPart1(lines[0])
      case Some(round) => [round] + rest
      case None => rest
  }

  lemma TwoWords(a: string, b: string)
    requires IsWord(a) && IsWord(b)
    ensures Words(a + " " + b) == [a, b]
  {
    WordsUnwords([a, b]);
    assert [a, b][1..] == [b];
    assert Join([b], " ") == b;
    assert Join([a, b], " ") == a + " " + Join([b], " ");
    assert Unwords([a, b]) == a + " " + b;
  }

  /** The example guide reads as rock against paper, paper against rock, scissors against scissors. */
  lemma ExampleLines()
    ensures Part1Rounds(["A Y", "B X", "C Z"])
      == [FromHands(Rock, Paper), FromHands(Paper, Rock), FromHands(Scissors, Scissors)]
  {
    ExampleLine("A", "Y", Rock, Paper);
    ExampleLine("B", "X", Paper, Rock);
    ExampleLine("C", "Z", Scissors, Scissors);
    Part1RoundsThree("A Y", "B X", "C Z", FromHands(Rock, Paper), FromHands(Paper, Rock), FromHands(Scissors, Scissors));
  }

  lemma Part1RoundsThree(a: string, b: string, c: string, ra: Round, rb: Round, rc: Round)
    requires |Words(a)| >= 2 && FromPart1(a) == Some(ra)
    requires |Words(b)| >= 2 && FromPart1(b) == Some(rb)
    requires |Words(c)| >= 2 && FromPart1(c) == Some(rc)
    ensures Part1Rounds([a, b, c]) == [ra, rb, rc]
  {
    Part1RoundsCons(c, [], rc);
    assert [c] + [] == [c];
    Part1RoundsCons(b, [c], rb);
    assert [b] + [c] == [b, c];
    Part1RoundsCons(a, [b, c], ra);
    assert [a] + [b, c] == [a, b, c];
  }

  lemma ExampleLine(a: string, b: string, opponent: Hand, own: Hand)
    requires (a, b, opponent, own) in {("A", "Y", Rock, Paper), ("B", "X", Paper, Rock), ("C", "Z", Scissors, Scissors)}
    ensures |Words([a[0], ' ', b[0]])| >= 2 && FromPart1([a[0], ' ', b[0]]) == Some(FromHands(opponent, own))
  {
    assert [a[0], ' ', b[0]] == a + " " + b;
    FromPart1Words(a, b, opponent, own);
  }

  /** A line of two hand letters reads as the round of those hands. */
  lemma FromPart1Words(a: string, b: string, opponent: Hand, own: Hand)
    requires IsWord(a) && IsWord(b) && ParseHand(a) == Some(opponent) && ParseHand(b) == Some(own)
    ensures |Words(a + " " + b)| >= 2 && FromPart1(a + " " + b) == Some(FromHands(opponent, own))
  {
    TwoWords(a, b);
  }

  /** A line that reads as a round puts that round in front of the rounds of the lines after it. */
  lemma Part1RoundsCons(line: string, lines: seq<string>, round: Round)
    requires |Words(line)| >= 2 && FromPart1(line) == Some(round)
    requires forall k :: 0 <= k < |lines| ==> |Words(lines[k])| >= 2
    ensures forall k :: 0 <= k < |[line] + lines| ==> |Words(([line] + lines)[k])| >= 2
    ensures Part1Rounds([line] + lines) == [round] + Part1Rounds(lines)
  {
    assert ([line] + lines)[1..] == lines;
  }

  /** The example's part 1 rounds score 8, 1 and 6. */
  lemma ExamplePart1()
    ensures TotalScore([FromHands(Rock, Paper), FromHands(Paper, Rock), FromHands(Scissors, Scissors)]) == Some(15)
  {
    SumOfShort(Score, [FromHands(Rock, Paper), FromHands(Paper, Rock), FromHands(Scissors, Scissors)]);
  }

  /** The example's part 2 rounds score 4, 1 and 7. */
  lemma ExamplePart2()
    ensures TotalScore([FromResult(Rock, Draw), FromResult(Paper, Lose), FromResult(Scissors, Win)]) == Some(12)
  {
    SumOfShort(Score, [FromResult(Rock, Draw), FromResult(Paper, Lose), FromResult(Scissors, Win)]);
  }
}
