# Advent of Code 2022 solvers in Dafny

This project models the Rust solvers `rs/src/day1.rs` … `rs/src/day25.rs` of an Advent of Code 2022
repository and proves properties of them. Each source file becomes one Dafny module (`Day01` …
`Day25` in `day01.dfy` … `day25.dfy`). The modules build on small shared ones:

- `Wrappers` (`Option`)
- `Bits` (the `u16` valve masks as naturals)
- `Seqs` and `Positions` (sequence helpers)
- `Sums` (sums, counts, orderings and permutation lemmas)
- `Text` (number parsing and printing, splitting and joining lines)
- `Arith` (truncating division and remainder)

The core is day 16, *Proboscidea Volcanium*. It is a branch-and-bound search that opens pressure
valves in a tunnel network, alone in 30 minutes or as a team of two in 26. The model covers:

- the selection and ordering of the valves worth opening (`build_volcano`);
- the `u16` mask of valves still closed;
- `travel`, and the `upper_bound` used for pruning, proved admissible;
- the queue-driven `max_pressure`, proved to return the best pressure any sequence of moves reaches;
- the split of the valves between two agents (`max_combo`).

The other days are modelled the same way: pure functions over immutable datatypes, each with a
contract that relates it to a partner (an inverse, a reference definition, or an invariant it keeps).

Modelling choices that hold throughout:

- **Sequences and maps.** Rust `Vec`s are sequences, `HashMap`s are maps and `HashSet`s are sets.
  Where the source iterates over a hash map or set, the model takes any listing of it and proves
  that the result does not depend on the order. Examples are day 23's rounds and day 24's
  `valley_at`.
- **Panics.** A panic on an `unwrap` is either a precondition (`requires`) or a `None` result. A
  one-shot computation gets a precondition. A step of a longer process, or an error path the source
  handles, gets `None`.
- **Integers.** Integers are unbounded. Where a fixed width matters, the contract says so and the
  line under "## Left out" gives the reason.
- **Foreign code is a parameter.** Results of library code the model cannot see are taken as given:
  - day 16's distance table, which the source gets from `floyd_warshall`, is a hop-count map;
  - day 22's cube faces, which the source cuts out of the board with matrix slicing, are given.

## Model

| member | source | states |
|---|---|---|
| Day16.KeyValves | rs/src/day16.rs:68-77 | the kept valves are exactly the scanned valves that have a positive flow or are named AA, each kept at most as often as it was scanned |
| Day16.SortByFlow | rs/src/day16.rs:78 | the result is ordered by ascending flow and is a permutation of the input |
| Day16.SortedKeyValves | rs/src/day16.rs:75-80 | the volcano's valves are a permutation of the key valves, ordered by non-increasing flow |
| Day16.BuildVolcano | rs/src/day16.rs:72-84 | the volcano holds exactly the key valves in descending-flow order, `flows[i]` is the flow of valve `i`, and the distance from `a` to `b` is the walking distance between the two valves' names |
| Day16.BuildVolcanoValid | rs/src/day16.rs:72-84 | a scan with distinct names, at most 16 key valves and positive walking distances between distinct valves yields a volcano the search may run on (flows descending, one flow and one distance row per valve, positive distances off the diagonal) |
| Day16.Position | rs/src/day16.rs:163-168 | the index returned is the first valve carrying the name; `None` exactly when no valve carries it |
| Day16.RemainingValves | rs/src/day16.rs:101-110 | the listed valves are exactly those below the count whose bit is set in `remaining`, in ascending order |
| Day16.Travel | rs/src/day16.rs:129-146 | travelling succeeds exactly when walking plus opening leaves at least one minute; the new state is at the valve, has spent the walk plus one minute, and adds the valve's flow times the minutes left |
| Day16.TravelClearsOnly | rs/src/day16.rs:135 | after a travel to `v` a valve is still closed exactly when it was closed before and is not `v` |
| Day16.Branches | rs/src/day16.rs:195-199 | the queued branches are exactly the successful travels to the listed valves, each with fewer minutes left |
| Day16.ReachOfChildren | rs/src/day16.rs:184-202 | the exhaustive optimum `Reach` of a state is at least its own pressure, at least that of any branch, and is attained by the state itself or by one branch |
| Day16.FoldIsBound | rs/src/day16.rs:115-127 | folding the first `minutes / 2` remaining flows two minutes apart adds exactly the optimistic bound `Bound` to the pressure so far |
| Day16.UpperBoundAtLeastPressure | rs/src/day16.rs:115-127 | the upper bound is never below the pressure already released, and equals it when no valve is closed |
| Day16.OpenEarlyBound | rs/src/day16.rs:112-127 | opening a closed valve at least two minutes earlier and then continuing optimistically never beats the optimistic schedule that keeps it closed |
| Day16.ChildUpperBound | rs/src/day16.rs:112-146 | travelling to a branch never raises the upper bound |
| Day16.Admissible | rs/src/day16.rs:112-127 | the upper bound is admissible: no sequence of travels from a state releases more than its bound |
| Day16.MaxPressure | rs/src/day16.rs:184-202 | the pruned breadth-first search returns exactly the exhaustive optimum `Reach` of the start state |
| Day16.StartState | rs/src/day16.rs:170-182 | the start state stands on the valve named AA with the given minutes and no pressure |
| Day16.StartStateRemaining | rs/src/day16.rs:170-182 | in the start state a valve is closed exactly when it is a volcano valve other than AA |
| Day16.MaskExceptHas | rs/src/day16.rs:172-175 | or-ing the bit of every valve in the range except one sets exactly those bits on top of the accumulator |
| Day16.SolvePart1 | rs/src/day16.rs:23-28 | part 1 is the exhaustive optimum from AA with 30 minutes |
| Day16.Combinations | rs/src/day16.rs:215-220 | one pair is generated for every `a` in `1..=half` |
| Day16.CombinationsPartition | rs/src/day16.rs:215-220 | the `k`-th pair has first share `k + 1`, and its two shares are disjoint and together cover exactly the valves other than AA |
| Day16.TeamStateIsStart | rs/src/day16.rs:205-209 | `State { remaining, ..start }` is the start state with only the remaining mask replaced |
| Day16.TeamPressure | rs/src/day16.rs:208-209 | one agent's `max_pressure` from the start state restricted to a share is the exhaustive optimum for that share in 26 minutes |
| Day16.Partner | rs/src/day16.rs:219 | `!a & max` is the complement of `a` within the split mask |
| Day16.PairPressure | rs/src/day16.rs:208-210 | the pair's value is the sum of the two agents' optima over complementary shares |
| Day16.PairValueSymmetric | rs/src/day16.rs:204-219 | swapping the two agents' shares does not change the team's pressure |
| Day16.HalfCoversAll | rs/src/day16.rs:216-219 | every split of the valves is matched by a split whose first share is at most `max / 2`, so stopping at `half` loses nothing beyond the split starting at 0 |
| Day16.MaxComboAsWritten | rs/src/day16.rs:204-220 | `max_combo` as written returns the largest team pressure over the generated pairs `a` in `1..=half`, and 0 when there are none |
| Day16.MaxCombo | rs/src/day16.rs:204-220 | the corrected `max_combo` returns the largest team pressure over every split of the valves, including the one leaving an agent idle |
| Day16.IdleTeam | rs/src/day16.rs:204-213 | an agent with no valve to open releases nothing |
| Day16.BusyTeam | rs/src/day16.rs:204-213 | in the two-valve volcano an agent walking one minute to BB (flow 10) releases 240 in 26 minutes |
| Day16.SingleValveSplitMissed | rs/src/day16.rs:216-219 | with AA (flow 0) and a single valve BB there is no generated pair, so `max_combo` yields 0, while the split leaving one agent idle is worth 240 |
| Day01.FromLinesMembers | rs/src/day1.rs:17-23 | an elf's list holds exactly the values of its lines that parse as 32-bit integers; other lines are dropped |
| Day01.FromLinesShow | rs/src/day1.rs:17-23 | reading back the decimal lines of a list of 32-bit values gives the same elf (round trip) |
| Day01.FromLinesAppend | rs/src/day1.rs:21 | reading two blocks of lines end to end gives the two lists end to end |
| Day01.CompareElves | rs/src/day1.rs:28-37 | elves compare by total calories: equal or less exactly when the totals are |
| Day01.CompareElvesOrder | rs/src/day1.rs:28-37 | the comparison is antisymmetric (swapping reverses it) and transitive |
| Day01.MaxTotal | rs/src/day1.rs:47-50 | part 1 is `None` exactly for no elves, otherwise the total of some elf and no elf's total exceeds it |
| Day01.SortDescending | rs/src/day1.rs:54-55 | sorting with `b.cmp(a)` gives a permutation of the elves with non-increasing totals |
| Day01.TopThreeOfSortedTotals | rs/src/day1.rs:52-57 | part 2 is the sum of the first (at most) three of the elves' totals in non-increasing order, whichever way those totals are sorted |
| Day01.TopThreeIsLargest | rs/src/day1.rs:52-57 | no three distinct elves of the sorted list total more than part 2 |
| Day01.TopThreeFew | rs/src/day1.rs:52-57 | with fewer than three elves part 2 is the total of all of them |
| Day01.ExampleTotals | rs/src/day1.rs:79-109 | the example elves total 6000, 4000, 11000, 24000 and 10000 |
| Day01.ExamplePart1 | rs/src/day1.rs:111-115 | part 1 of the example is 24000 |
| Day02.Play | rs/src/day2.rs:101-120 | a hand draws exactly against itself, wins exactly against the hand one below it in the cycle Rock, Paper, Scissors, and loses exactly against the hand one above |
| Day02.PlaySwapped | rs/src/day2.rs:101-120 | swapping the hands turns a win into a loss and keeps a draw |
| Day02.FromHands | rs/src/day2.rs:46-53 | the round keeps both hands and its result is what the two hands give |
| Day02.FromResult | rs/src/day2.rs:65-84 | the round keeps the opponent's hand and the wanted result, and its choice achieves that result |
| Day02.FromResultUnique | rs/src/day2.rs:65-84 | the chosen hand is the only one that gives the wanted result against the opponent |
| Day02.FromHandsFromResult | rs/src/day2.rs:46-84 | choosing a hand for the result of a round rebuilds that round (the part 2 decoding inverts the part 1 one) |
| Day02.Score | rs/src/day2.rs:86-88 | a round scores the value of the chosen hand plus that of the result, between 1 and 9 |
| Day02.ScoreDetermines | rs/src/day2.rs:86-88 | two rounds with the same score have the same choice and the same result |
| Day02.TotalScoreBounds | rs/src/day2.rs:20-24 | the total lies between one and nine points per round and is additive over concatenated rounds |
| Day02.ParseHand | rs/src/day2.rs:163-177 | A and X read as Rock, B and Y as Paper, C and Z as Scissors, every other text is an error |
| Day02.ParseOutcome | rs/src/day2.rs:130-141 | X reads as a loss, Y as a draw, Z as a win, every other text is an error |
| Day02.ParseLetters | rs/src/day2.rs:130-177 | the letter of every hand in either column and of every outcome reads back as that hand or outcome |
| Day02.FromPart1 | rs/src/day2.rs:34-44 | a line gives a round exactly when its first two words both read as hands, and that round is consistent |
| Day02.FromPart2 | rs/src/day2.rs:55-63 | a line whose words read as a hand and an outcome gives a consistent round |
| Day02.Part1Rounds | rs/src/day2.rs:4-10 | the part 1 rounds are the consistent rounds of the lines that read, at most one per line |
| Day02.ExampleLines | rs/src/day2.rs:184-212 | the example lines read as Rock against Paper, Paper against Rock and Scissors against Scissors |
| Day02.ExamplePart1 | rs/src/day2.rs:214-218 | the example rounds of part 1 total 15 |
| Day02.ExamplePart2 | rs/src/day2.rs:251-280 | the example rounds of part 2 total 12 |
| Day03.Priority | rs/src/day3.rs:39-45 | lower-case letters have priorities 1 to 26, upper-case letters 27 to 52, and every other character 0 |
| Day03.PriorityRoundTrip | rs/src/day3.rs:39-45 | priority and the item of a priority are inverse on letters and on 1 to 52 |
| Day03.NewRucksack | rs/src/day3.rs:29-32 | the two compartments are the line split at half its length, the second one taking the odd character |
| Day03.FindSharedSpec | rs/src/day3.rs:47-52 | the search finds nothing exactly when no item of the first compartment is in the second, and otherwise finds the first item of the first compartment that the second also holds |
| Day03.SharedItem | rs/src/day3.rs:34-36 | the shared item lies in both compartments |
| Day03.SharedItemUnique | rs/src/day3.rs:47-52 | when exactly one item type lies in both compartments, that type is the shared item |
| Day03.SharedPriorities | rs/src/day3.rs:15-18 | one priority per rucksack, the priority of its shared item |
| Day03.Gen | rs/src/day3.rs:3-9 | one rucksack per line, the k-th made from the k-th line |
| Day03.SolvePart1 | rs/src/day3.rs:12-21 | when every rucksack has a shared item the sum exists, lies between 0 and 52 per rucksack, and is 0 for no rucksacks |
| Day03.SolvePart1Cons | rs/src/day3.rs:12-21 | part 1 adds the priority of the first rucksack's shared item to that of the rest |
| Day03.SolvePart1Append | rs/src/day3.rs:12-21 | part 1 is additive over concatenated lists of rucksacks |
| Day03.SolvePart1OfLines | rs/src/day3.rs:3-21 | when each line's shared item has priority `ps[k]`, part 1 of the lines is the sum of `ps` |
| Day03.ExamplePriorities | rs/src/day3.rs:117-122 | p, L, P, v, t and s have priorities 16, 38, 42, 22, 20 and 19 |
| Day03.ExampleShared0 | rs/src/day3.rs:73-85 | the first example rucksack shares p, of priority 16 |
| Day03.ExampleShared1 | rs/src/day3.rs:73-85 | the second example rucksack shares L, of priority 38 |
| Day03.ExampleShared2 | rs/src/day3.rs:73-85 | the third example rucksack shares P, of priority 42 |
| Day03.ExampleShared3 | rs/src/day3.rs:88 | the fourth example rucksack shares v, of priority 22 |
| Day03.ExampleShared4 | rs/src/day3.rs:89 | the fifth example rucksack shares t, of priority 20 |
| Day03.ExampleShared5 | rs/src/day3.rs:90 | the sixth example rucksack shares s, of priority 19 |
| Day03.ExampleSolution | rs/src/day3.rs:93-99 | part 1 of the example lines is 157 |
| Day04.FullyContainsMeansCovers | rs/src/day4.rs:36-39 | for non-empty ranges, the end-point test holds exactly when every section of one range is a section of the other |
| Day04.OverlapsMeansShared | rs/src/day4.rs:41-46 | for non-empty ranges, the end-point test holds exactly when the two ranges share a section |
| Day04.ContainsImpliesOverlaps | rs/src/day4.rs:36-46 | both tests are symmetric, and a pair where one range contains the other also overlaps |
| Day04.RangeFromString | rs/src/day4.rs:48-51 | the range runs between the first two dash-separated pieces that read as `u32`, every earlier piece failing to read; both ends fit in a `u32` |
| Day04.RangeTextRoundTrip | rs/src/day4.rs:48-51 | the text `a-b` of two `u32` values reads back as the range from `a` to `b` |
| Day04.AssignmentPair | rs/src/day4.rs:27-34 | a line gives the ranges read from its first two comma-separated pieces |
| Day04.ContainingAtMostOverlapping | rs/src/day4.rs:9-25 | part 1 never counts more pairs than part 2 |
| Day04.Pairs | rs/src/day4.rs:4-7 | one pair per line, read by `assignment_pair` |
| Day04.ExampleCounts | rs/src/day4.rs:72-86 | in the example 2 pairs have one range containing the other and 4 pairs overlap |
| Day05.MoveOne | rs/src/day5.rs:43-44 | moving one crate fails exactly when a stack number is out of range or the source stack is empty; otherwise the crate count is kept and only the two named stacks change |
| Day05.CraneSingle | rs/src/day5.rs:41-46 | one part 1 move keeps the number of stacks and of crates and changes only the two named stacks |
| Day05.CraneSingleReverses | rs/src/day5.rs:41-46 | between two distinct stacks, the part 1 crane lands the top `count` crates of the source on the target in reverse order |
| Day05.CraneSingleInPlace | rs/src/day5.rs:41-46 | moving crates from a stack onto itself leaves every stack as it was |
| Day05.Load | rs/src/day5.rs:56-59 | loading nothing always succeeds and changes nothing; otherwise it succeeds exactly when the stack exists and holds at least `count` crates, leaving the rest below and holding the top crates with the topmost first |
| Day05.CraneMultiple | rs/src/day5.rs:55-63 | a move of no crates always succeeds and changes nothing; otherwise one part 2 move succeeds exactly when both stacks exist and the source holds enough crates; it keeps the crates and changes only the two named stacks |
| Day05.CraneMultipleKeepsOrder | rs/src/day5.rs:55-63 | between two distinct stacks, the part 2 crane lands the top `count` crates on the target in their original order |
| Day05.CranesDiffer | rs/src/day5.rs:38-63 | the two cranes leave the target stack with the same crates below and, above them, the moved crates in opposite orders |
| Day05.Run | rs/src/day5.rs:38-63 | running the moves keeps the number of stacks and of crates |
| Day05.Tops | rs/src/day5.rs:26 | the message holds the top crate of each non-empty stack, one per stack when none is empty |
| Day05.CrateStacks | rs/src/day5.rs:136-153 | stack `i` is column `i` of the crate lines read bottom up, one stack per slot of the first line |
| Day05.CrateStacksOfDraw | rs/src/day5.rs:136-153 | reading the crate lines drawn from any stacks gives those stacks back (round trip) |
| Day05.ExampleStacksParse | rs/src/day5.rs:208-213 | the example crate lines read as the stacks ZN, MCD and P |
| Day05.SingleStep0 | rs/src/day5.rs:202 | the first example move with the part 1 crane |
| Day05.SingleStep1 | rs/src/day5.rs:203 | the second example move with the part 1 crane |
| Day05.SingleStep2 | rs/src/day5.rs:204 | the third example move with the part 1 crane |
| Day05.SingleStep3 | rs/src/day5.rs:205 | the fourth example move with the part 1 crane |
| Day05.MultipleStep0 | rs/src/day5.rs:202 | the first example move with the part 2 crane |
| Day05.MultipleStep1 | rs/src/day5.rs:203 | the second example move with the part 2 crane |
| Day05.MultipleStep2 | rs/src/day5.rs:204 | the third example move with the part 2 crane |
| Day05.MultipleStep3 | rs/src/day5.rs:205 | the fourth example move with the part 2 crane |
| Day05.ExamplePart1 | rs/src/day5.rs:261-267 | the example ends with tops CMZ under the part 1 crane |
| Day05.ExamplePart2 | rs/src/day5.rs:269-272 | the example ends with tops MCD under the part 2 crane |
| Day06.CharsCount | rs/src/day6.rs:10 | a window's set of characters is as large as the window exactly when its characters are pairwise distinct |
| Day06.FindMarker | rs/src/day6.rs:6-15 | the search returns the end of the first window, among the starts searched, whose characters are all distinct, and `None` exactly when no searched window has distinct characters |
| Day06.Marker | rs/src/day6.rs:4-30 | the corrected marker search tries every window up to the end of the text: it returns the end of the first all-distinct window and `None` exactly when there is none |
| Day06.MarkerAsWrittenDiffers | rs/src/day6.rs:6 | the search as written, over starts `0..len - width`, agrees with the corrected one except that a marker ending exactly at the end of the text is missed |
| Day06.ShortInputMissed | rs/src/day6.rs:6 | on `abcd` the marker ends at 4, but the search as written finds none |
| Day06.WindowRepeat | rs/src/day6.rs:10 | a window holding the same character twice is not a marker |
| Day06.ExamplePacket | rs/src/day6.rs:38 | the packet marker of the first example ends at 7 |
| Day06.ExampleMessageWindow | rs/src/day6.rs:47 | the 14-character window ending at 19 in the first example is `qmgbljsphdztnv` |
| Day06.ExampleMessage | rs/src/day6.rs:47 | the message marker of the first example ends at 19 |
| Day06.SkipRepeat | rs/src/day6.rs:6-15 | the search passes over a window in which two positions hold the same character |
| Day06.SecondPacketSearch | rs/src/day6.rs:39 | any text with the second example's repeated characters before its first all-different window of 4, ending at 5, has its packet marker there |
| Day06.ExamplePacketSecond | rs/src/day6.rs:39 | the packet marker of the second example ends at 5, both for the corrected search and for the search as written |
| Day06.SecondMessageSearch | rs/src/day6.rs:48 | any text with the second example's repeated characters before its first all-different window of 14, ending at 23, has its message marker there |
| Day06.ExampleMessageSecond | rs/src/day6.rs:48 | the message marker of the second example ends at 23, both for the corrected search and for the search as written |
| Day06.ThirdPacketSearch | rs/src/day6.rs:40 | any text with the third example's repeated characters before its first all-different window of 4, ending at 6, has its packet marker there |
| Day06.ExamplePacketThird | rs/src/day6.rs:40 | the packet marker of the third example ends at 6, both for the corrected search and for the search as written |
| Day06.ThirdMessageSearch | rs/src/day6.rs:49 | any text with the third example's repeated characters before its first all-different window of 14, ending at 23, has its message marker there |
| Day06.ExampleMessageThird | rs/src/day6.rs:49 | the message marker of the third example ends at 23, both for the corrected search and for the search as written |
| Day06.FourthPacketSearch | rs/src/day6.rs:41 | any text with the fourth example's repeated characters before its first all-different window of 4, ending at 10, has its packet marker there |
| Day06.ExamplePacketFourth | rs/src/day6.rs:41 | the packet marker of the fourth example ends at 10, both for the corrected search and for the search as written |
| Day06.FourthMessageSearch | rs/src/day6.rs:50 | any text with the fourth example's repeated characters before its first all-different window of 14, ending at 29, has its message marker there |
| Day06.ExampleMessageFourth | rs/src/day6.rs:50 | the message marker of the fourth example ends at 29, both for the corrected search and for the search as written |
| Day06.FifthPacketSearch | rs/src/day6.rs:42 | any text with the fifth example's repeated characters before its first all-different window of 4, ending at 11, has its packet marker there |
| Day06.ExamplePacketFifth | rs/src/day6.rs:42 | the packet marker of the fifth example ends at 11, both for the corrected search and for the search as written |
| Day06.FifthMessageSearch | rs/src/day6.rs:51 | any text with the fifth example's repeated characters before its first all-different window of 14, ending at 26, has its message marker there |
| Day06.ExampleMessageFifth | rs/src/day6.rs:51 | the message marker of the fifth example ends at 26, both for the corrected search and for the search as written |
| Day07.BuildPath | rs/src/day7.rs:83-88 | a path starts and ends with `/`, and is `/` alone exactly for the root |
| Day07.BuildPathExtends | rs/src/day7.rs:83-88 | the path of a directory is a prefix of the path of everything below it |
| Day07.Lookup | rs/src/day7.rs:12 | looking a path up finds nothing exactly when no entry has that path, and otherwise finds an entry's size |
| Day07.Insert | rs/src/day7.rs:63 | after `insert` the keys stay unique, the path maps to the new size and every other path keeps its size |
| Day07.InsertAppends | rs/src/day7.rs:63 | inserting a path not yet present adds one entry at the end |
| Day07.Step | rs/src/day7.rs:45-66 | `cd` only moves the working directory; `ls` records the summed file sizes under the working directory's path and changes no other path |
| Day07.CdMoves | rs/src/day7.rs:47-53 | `cd /` returns to the root, and `cd name` followed by `cd ..` returns to where the shell was |
| Day07.LsAppends | rs/src/day7.rs:54-64 | listing a directory for the first time appends its path with the summed sizes of its files, directories counting 0 |
| Day07.BuildFs | rs/src/day7.rs:42-69 | the file system built from a session has unique keys, each a path |
| Day07.DirTotalSelf | rs/src/day7.rs:71-78 | a directory's total includes its own listed size |
| Day07.DirTotalMonotone | rs/src/day7.rs:71-78 | a directory's total is at least that of any directory whose path it prefixes |
| Day07.RootTotal | rs/src/day7.rs:32 | the root's total is all the space used |
| Day07.FilterDirSize | rs/src/day7.rs:71-81 | the kept sizes are exactly the directory totals (sizes of every path the key prefixes) that pass the predicate |
| Day07.SolvePart1 | rs/src/day7.rs:14-23 | part 1 is the sum, over every directory, of its total when that total is at most 100000 |
| Day07.SolvePart1Permutation | rs/src/day7.rs:14-23 | part 1 does not depend on the order in which the map lists its keys |
| Day07.SolvePart2 | rs/src/day7.rs:25-40 | part 2 is the smallest directory total freeing the required space, and `None` (the panic) exactly when no directory frees it |
| Day07.SolvePart2Permutation | rs/src/day7.rs:25-40 | part 2 does not depend on the order in which the map lists its keys |
| Day07.Part2HasAnswer | rs/src/day7.rs:39 | once the root is listed, the `unwrap` in part 2 always succeeds: the root itself frees enough |
| Day07.ExampleBuild | rs/src/day7.rs:164-193 | replaying the ten example commands builds the example file system |
| Day07.ExampleTotals | rs/src/day7.rs:240-243 | the example directories `/`, `a`, `e` and `d` total 48381165, 94853, 584 and 24933642 |
| Day07.ExamplePart1 | rs/src/day7.rs:244-247 | part 1 of the example is 95437 |
| Day07.ExamplePart2 | rs/src/day7.rs:249-252 | part 2 of the example is 24933642 |
| Day08.Transpose | rs/src/day8.rs:81-87 | column `i` of the grid becomes row `i`: `r[i][j] == rows[j][i]` |
| Day08.TransposeTwice | rs/src/day8.rs:81-95 | transposing twice gives the grid back |
| Day08.Taller | rs/src/day8.rs:97-99 | a tree is taller exactly when every other tree listed is strictly shorter |
| Day08.DirectionalVisibility | rs/src/day8.rs:101-108 | a tree is visible along its line exactly when all trees before it, or all trees after it, are shorter |
| Day08.EndsVisible | rs/src/day8.rs:101-108 | the first and last trees of a line are always visible |
| Day08.Plot | rs/src/day8.rs:110-122 | the plot marks a tree exactly when it is visible from one of the four edges of the grid |
| Day08.BorderVisible | rs/src/day8.rs:110-122 | every tree on the border of the grid is marked visible |
| Day08.Hidden | rs/src/day8.rs:110-122 | a tree with a tree at least as tall on each of the four sides is not marked |
| Day08.SolvePart1 | rs/src/day8.rs:12-21 | part 1 is the number of grid cells holding a tree visible from one of the four edges, at most the size of the grid |
| Day08.PlotMarks | rs/src/day8.rs:12-21 | the marks of the visibility plot, row by row, add up to the set of trees visible from an edge |
| Day08.RowMarksCount | rs/src/day8.rs:17-19 | the marks counted in a row are the marked cells of that row |
| Day08.SightlinesCover | rs/src/day8.rs:50-66 | the up and down sightlines, reversed and joined around the tree, make its column; left and right make its row |
| Day08.VisibleTrees | rs/src/day8.rs:68-79 | the count is the whole sightline when every tree on it is shorter, and otherwise runs up to and including the first tree at least as tall |
| Day08.VisibleTreesAll | rs/src/day8.rs:68-99 | a tree taller than its whole sightline sees all of it, and one that sees less is not taller than all of it |
| Day08.VisibleTreesPositive | rs/src/day8.rs:68-79 | a tree sees nothing exactly along an empty sightline |
| Day08.ScenicScore | rs/src/day8.rs:38-48 | a tree's scenic score is 0 exactly when it stands on the border |
| Day08.ScoreRow | rs/src/day8.rs:28-33 | one row yields the scenic score of each of its trees in order |
| Day08.ScoresSpec | rs/src/day8.rs:24-36 | the flattened scores are exactly the scenic scores of the trees in the first `n` rows |
| Day08.SolvePart2 | rs/src/day8.rs:23-36 | part 2 is the scenic score of some tree and no tree scores higher |
| Day08.ExampleHidden | rs/src/day8.rs:137-146 | four inner example trees are hidden |
| Day08.ExampleSeen | rs/src/day8.rs:137-146 | the other five inner example trees are visible |
| Day08.ExamplePart1 | rs/src/day8.rs:148-151 | 21 example trees are visible |
| Day08.ExampleLines21 | rs/src/day8.rs:158-181 | the sightlines of the middle 5 in the second row are 3, 353, 52 and 12 |
| Day08.ExampleScore21 | rs/src/day8.rs:158-184 | that tree's scenic score is 4 |
| Day08.ExampleLines23 | rs/src/day8.rs:186-211 | the sightlines of the 5 in the middle of the fourth row are 353, 3, 33 and 49 |
| Day08.ExampleScore23 | rs/src/day8.rs:186-213 | that tree's scenic score is 8 |
| Day08.ExampleScoresAtMost8All | rs/src/day8.rs:199 | no example tree scores more than 8 |
| Day08.ExamplePart2 | rs/src/day8.rs:153-156 | part 2 of the example is 8 |
| Day09.Half | rs/src/day9.rs:181-183 | `/ 2` on an `i32` truncates toward zero: half the magnitude, with the sign kept |
| Day09.TranslateDiff | rs/src/day9.rs:187-193 | translating by the difference of two positions reaches the second one, and the difference undoes a translation |
| Day09.TailMovement | rs/src/day9.rs:177-185 | the tail stays put exactly while it touches the head |
| Day09.TailMovementIsStep | rs/src/day9.rs:177-185 | a tail at most two away on each axis that does not touch the head moves one unit toward it on each axis where they differ, and then touches it |
| Day09.TailMove | rs/src/day9.rs:173-175 | the tail gets a new position exactly when it does not touch the head |
| Day09.TranslationStep | rs/src/day9.rs:195-202 | each motion steps one unit, vertically for Up and Down, in the positive direction for Up and Right |
| Day09.NewRope | rs/src/day9.rs:65-70 | a new rope keeps its knots and its history holds only the origin |
| Day09.Pull | rs/src/day9.rs:86-99 | each following knot either stays or takes the tail move toward the knot ahead of it, already moved |
| Day09.ExecuteStep | rs/src/day9.rs:85-102 | a step translates the head, keeps the number of knots, never forgets history and only adds the tail's new position to it |
| Day09.PullKeepsTaut | rs/src/day9.rs:85-102 | when the head moves at most one unit per axis, every knot still touches the one ahead and each moves at most one unit per axis |
| Day09.ExecuteStepKeepsWf | rs/src/day9.rs:85-102 | a unit step keeps the rope together and the tail's position in the history |
| Day09.RepeatAdds | rs/src/day9.rs:82 | repeating a step `a` then `b` times is repeating it `a + b` times |
| Day09.RepeatMovesHead | rs/src/day9.rs:82-89 | repeating a step `count` times moves the head by `count` times the step |
| Day09.Advance | rs/src/day9.rs:72-83 | a motion keeps the number of knots and never forgets history |
| Day09.RunKeepsWf | rs/src/day9.rs:13-46 | a whole run keeps the rope together and the tail's position in the history |
| Day09.Solve | rs/src/day9.rs:13-46 | the number of tail positions is at least one (the origin) |
| Day09.SolveCounts | rs/src/day9.rs:13-46 | the answer is the number of distinct cells the tail occupies, the origin included, along the knot trail of the motions broken into unit steps |
| Day09.SolveWf | rs/src/day9.rs:13-46 | a rope of any number of knots starting at the origin stays together through any motions |
| Day09.ParseMotion | rs/src/day9.rs:208-216 | a parsed motion starts with its direction letter and a space, and its step count fits in a `u8` |
| Day09.ParseShowMotion | rs/src/day9.rs:208-216 | a motion with a `u8` count written out reads back as itself, leaving what follows (round trip) |
| Day09.ParseShowMotions | rs/src/day9.rs:204-206 | motions written one per line read back as the same list (round trip) |
| Day09.ExampleParseUp | rs/src/day9.rs:242 | `U 1` reads as Up(1) |
| Day09.ExampleParseRight | rs/src/day9.rs:245 | `R 4` reads as Right(4) |
| Day09.ExampleParseRejects | rs/src/day9.rs:247-248 | `G 4` and `U -1` do not read |
| Day09.ExecuteStepTwo | rs/src/day9.rs:85-99 | with two knots a step moves the head and then pulls the tail, recording its new position |
| Day10.Rem | rs/src/day10.rs:71-83 | Rust's `%` on `i32` truncates toward zero: it agrees with the Euclidean remainder for non-negative operands and is never positive for negative ones |
| Day10.Trace | rs/src/day10.rs:15-32 | the trace records X for each cycle the instructions take: one for `noop`, two for `addx` |
| Day10.BoostSignal | rs/src/day10.rs:82-87 | the signal grows by cycle times X exactly in the cycles 20 past a multiple of 40 |
| Day10.SignalIsStrength | rs/src/day10.rs:15-32 | the part 1 loop adds exactly the signal strengths of the cycles of the trace |
| Day10.SolvePart1 | rs/src/day10.rs:15-32 | part 1 is the sum of cycle times X over cycles 20, 60, 100 and so on of the trace starting with X = 1 |
| Day10.SolvePart2 | rs/src/day10.rs:34-54 | the screen holds one pixel per cycle of the trace in rows of 40; pixel j of row k is lit exactly when the sprite's X for that cycle is within one of j; no instructions give an empty screen |
| Day10.ScreenShows | rs/src/day10.rs:36-53 | the image cut into rows of 40 lights a pixel exactly when the sprite covers its column at that cycle |
| Day10.ParseInstruction | rs/src/day10.rs:99-111 | `noop` reads as Noop; `addx ` followed by an `i32` reads as Addx of it; anything else is rejected |
| Day10.Pixel | rs/src/day10.rs:70-80 | a pixel is lit exactly when its column is within one of the sprite's middle |
| Day10.Image | rs/src/day10.rs:35-49 | the image has one pixel per cycle |
| Day10.ImageIsTrace | rs/src/day10.rs:35-49 | the pixel of each cycle is drawn with the X value the trace records for that cycle |
| Day10.Chunks | rs/src/day10.rs:50-51 | every line has between 1 and 40 pixels, and every line but the last has 40 |
| Day10.ChunksFlatten | rs/src/day10.rs:50-51 | the lines joined end to end give the image back |
| Day10.ChunksIndex | rs/src/day10.rs:50-51 | pixel `j` of line `k` is pixel `k * 40 + j` of the image |
| Day10.ScreenPixel | rs/src/day10.rs:34-54 | column `j` of screen line `k` is lit exactly when X during that cycle is within one of `j` |
| Day10.ParseShowInstruction | rs/src/day10.rs:99-111 | an instruction written out reads back as itself, leaving what follows (round trip) |
| Day10.ParseShowInstructions | rs/src/day10.rs:95-97 | instructions written one per line read back as the same list (round trip) |
| Day10.ExampleSmall | rs/src/day10.rs:120-161 | the small program traces X as 1, 1, 1, 4, 4, part 1 of it is 0, and `noop` and `addx 77` read as expected |
| Day11.InspectModulo | rs/src/day11.rs:41-51 | inspecting commutes with reduction modulo any positive `p`: the new worry level is the same modulo `p` |
| Day11.Throw | rs/src/day11.rs:39-58 | throwing the pending items counts one inspection each for the throwing monkey and changes no other count |
| Day11.ThrowMovesAll | rs/src/day11.rs:39-58 | every pending item lands on some monkey, and a monkey that never throws to itself keeps its own list |
| Day11.Turn | rs/src/day11.rs:38-60 | after its turn a monkey holds nothing and has inspected each item it held once |
| Day11.TurnKeepsItems | rs/src/day11.rs:38-60 | a turn of a monkey that never throws to itself keeps the number of items held overall |
| Day11.RoundKeepsItems | rs/src/day11.rs:37-61 | a round in which no monkey throws to itself keeps the number of items held overall |
| Day11.Rounds | rs/src/day11.rs:37-61 | the rounds keep one item list and one count per monkey |
| Day11.Initial | rs/src/day11.rs:26-36 | every monkey starts with its starting items and no inspections |
| Day11.CommonProductDivisible | rs/src/day11.rs:31-34 | the product of the divisors is positive and divisible by every monkey's divisor |
| Day11.ReliefFor | rs/src/day11.rs:49-52 | part 1 divides by 3; part 2 reduces modulo a number every divisor divides |
| Day11.ReducedStep | rs/src/day11.rs:41-56 | reducing modulo the common product before inspecting keeps the worry level congruent and the monkey it is thrown to |
| Day11.RoundsCongruent | rs/src/day11.rs:37-61 | any number of rounds with reduction modulo the common product keeps the same counts and congruent items as rounds without any relief |
| Day11.Part2IsUnrelieved | rs/src/day11.rs:20-23 | part 2's reduction is sound: its monkey business equals that of the same rounds with no relief at all |
| Day11.TopTwoLargest | rs/src/day11.rs:62 | sorting descending and taking two yields the largest count and the largest of the rest |
| Day11.TopTwoUnique | rs/src/day11.rs:62 | the two largest counts are determined by the list |
| Day11.BusinessOfTopTwo | rs/src/day11.rs:62 | the monkey business is the product of the two largest counts |
| Day11.MonkeyBusinessOfCounts | rs/src/day11.rs:25-63 | `monkey_business` is the product of the two largest inspection counts reached after the given rounds |
| Day11.ParseShowOperand | rs/src/day11.rs:83-95 | an operand written out reads back as itself (round trip) |
| Day11.ParseShowOperation | rs/src/day11.rs:72-104 | an operation line written out reads back as itself (round trip) |
| Day11.ExampleOperations | rs/src/day11.rs:299-331 | the example operation lines read as times 19, plus 6 and times old |
| Day11.Inspect | rs/src/day11.rs:41-48 | inspecting never lowers the worry level unless the operation multiplies by zero, and the result is zero exactly in the cases that force it |
| Day11.MonkeyBusiness | rs/src/day11.rs:25-63 | monkey business is the product of the two largest inspection counts after the rounds, the single count for one monkey, and 1 for none |
| Day11.BusinessIsProduct | rs/src/day11.rs:58-62 | the descending sort's first two counts multiply to the product of the two largest |
| Day11.SolvePart1 | rs/src/day11.rs:15-18 | part 1 is monkey business over 20 rounds with worry divided by three |
| Day11.SolvePart2 | rs/src/day11.rs:20-23 | part 2 is monkey business over 10000 rounds with no relief, the reduction modulo the product of the divisors changing no count |
| Day12.HeightRange | rs/src/day12.rs:99-107 | S counts as height a and E as height z, so every square of a map has a height from a to z |
| Day12.PassableProperties | rs/src/day12.rs:78-84 | a step may go down any distance or up by one, never up by two or more, and a step that is not allowed can be taken in reverse |
| Day12.At | rs/src/day12.rs:7-26 | the square read at a row and column records that row and column |
| Day12.Neighbours | rs/src/day12.rs:67-69 | the neighbours of a square are exactly the in-bounds squares next to it horizontally or vertically |
| Day12.Find | rs/src/day12.rs:72 | the search finds an element satisfying the test, and nothing exactly when none does |
| Day12.Successors | rs/src/day12.rs:66-76 | the successors are passable neighbours; when the end is one of them it is the only successor, and otherwise every passable neighbour is a successor |
| Day12.ExampleStart | rs/src/day12.rs:113-117 | from the example's start the successors are the squares to the right and below |
| Day12.ExampleAroundEnd | rs/src/day12.rs:113-117 | the square left of E (height z) has four neighbours, one of them E |
| Day12.ExampleBesideEnd | rs/src/day12.rs:113-117 | from the square left of E the only successor is E |
| Day13.EqIsCompareEqual | rs/src/day13.rs:98-124 | packet equality, which treats a number and the list holding just that number as equal, holds exactly when the comparison says Equal |
| Day13.LengthsDiffer | rs/src/day13.rs:115-124 | lists of different lengths never compare Equal |
| Day13.CompareFlip | rs/src/day13.rs:115-124 | swapping the packets reverses the comparison |
| Day13.CompareReflexive | rs/src/day13.rs:115-124 | every packet compares Equal to itself |
| Day13.PrefixIsLess | rs/src/day13.rs:115-124 | a list compares Less than any longer list it is a prefix of |
| Day13.CompareAsLists | rs/src/day13.rs:115-124 | comparing packets is comparing them as lists, a number standing for the list holding just it |
| Day13.CompareTransitive | rs/src/day13.rs:115-124 | the comparison is transitive, and an Equal result at the ends means Equal in both steps, so `sort` sees a total preorder |
| Day13.ParseShow | rs/src/day13.rs:65-96 | a packet whose numbers fit in a `u32`, displayed and followed by a non-digit, reads back as itself (round trip) |
| Day13.ParseShowList | rs/src/day13.rs:65-74 | a displayed list reads back as that list (round trip) |
| Day13.ParsePacket | rs/src/day13.rs:65-74 | a packet is a list: it reads only from text starting with `[`, and what it consumes ends with `]`, the rest being the tail of the input |
| Day13.ParseElement | rs/src/day13.rs:65-86 | an element consumes input and leaves a tail of it |
| Day13.ExampleValue | rs/src/day13.rs:166-169 | `1` reads as the number 1 |
| Day13.Part1Swapped | rs/src/day13.rs:25-34 | when no pair compares Equal, the part 1 sums of the pairs and of the swapped pairs add up to `1 + 2 + … + n` |
| Day13.SolvePart1 | rs/src/day13.rs:25-34 | part 1 is the sum of the one-based indexes of the pairs that compare Less |
| Day13.IndexSumCompletes | rs/src/day13.rs:25-34 | the sum over the pairs from index m on, with the sum of the first m, gives the sum over all pairs |
| Day13.ExamplePair0 | rs/src/day13.rs:135-136 | the first example pair is in the right order |
| Day13.ExamplePair1 | rs/src/day13.rs:138-139 | the second example pair is in the right order |
| Day13.ExamplePair2 | rs/src/day13.rs:141-142 | the third example pair is not |
| Day13.ExamplePair3 | rs/src/day13.rs:144-145 | the fourth example pair is in the right order |
| Day13.ExamplePair4 | rs/src/day13.rs:147-148 | the fifth example pair is not |
| Day13.ExamplePair5 | rs/src/day13.rs:150-151 | the sixth example pair is in the right order |
| Day13.ExamplePair6 | rs/src/day13.rs:153-154 | the seventh example pair is not |
| Day13.ExampleDeepPair | rs/src/day13.rs:156-157 | the eighth example pair is not |
| Day13.ExampleComparisons | rs/src/day13.rs:179-189 | of the eight example pairs, the first, second, fourth and sixth are in the right order |
| Day13.ExamplePart1 | rs/src/day13.rs:191-194 | part 1 of the example is 13 |
| Day13.InsertSorted | rs/src/day13.rs:46 | inserting into a sorted list keeps it sorted and adds exactly that packet |
| Day13.SortSorts | rs/src/day13.rs:46 | sorting gives a sorted permutation of the packets |
| Day13.PlaceInSorted | rs/src/day13.rs:46-53 | in a sorted list, a packet equal to no other sits at the index counting the packets less than it |
| Day13.DividersOrdered | rs/src/day13.rs:38 | `[[2]]` comes before `[[6]]` |
| Day13.DividersInOrder | rs/src/day13.rs:46-53 | after sorting, `[[2]]` sits before `[[6]]` |
| Day13.Part2Places | rs/src/day13.rs:36-55 | when no input packet equals a divider, part 2 is (1 + the number of packets less than `[[2]]`) times (1 + the number less than `[[6]]`), whatever order the sort leaves equal packets in |
| Day13.Part2Key | rs/src/day13.rs:36-55 | for any input, if no packet equals a divider, the decoder key is (1 + the number of packets less than `[[2]]`) times (1 + the number less than `[[6]]`) |
| Day13.SolvePart2 | rs/src/day13.rs:36-55 | when no input packet equals a divider, part 2 is (1 + the number of packets less than `[[2]]`) times (1 + the number less than `[[6]]`), counted among the input and the dividers |
| Day14.RockLineMembers | rs/src/day14.rs:56-69 | a rock line holds exactly the cells of the box its two corners span (a vertical line keeps its x and a horizontal one its y), one per cell |
| Day14.Dedup | rs/src/day14.rs:52 | dropping repeated neighbours keeps the same members, leaves no two equal neighbours and keeps the first element |
| Day14.LinesMembers | rs/src/day14.rs:45-54 | a rock path covers exactly the cells on the segments between its consecutive corners |
| Day14.AllRocksMembers | rs/src/day14.rs:78-84 | the rocks of all structures are exactly the cells that lie on some path |
| Day14.FromStructures | rs/src/day14.rs:78-99 | the cave holds rock on exactly the path cells and nothing else; with a floor, the floor is two below the lowest rock |
| Day14.MoveDown | rs/src/day14.rs:146-151 | a grain moves down, then down-left, then down-right, to the first open cell; it stays only when all three are blocked |
| Day14.DropFrom | rs/src/day14.rs:115-124 | a dropped grain lands at rest no lower than the lowest rock and within its falling cone, or is reported lost below it |
| Day14.DropFloorFrom | rs/src/day14.rs:127-137 | with a floor, a grain always lands, at rest or on the row above the floor, within its falling cone |
| Day14.DropGrainWithFloor | rs/src/day14.rs:127-137 | with a floor, a grain from the source always lands above the floor |
| Day14.AddGrain | rs/src/day14.rs:139-141 | adding a grain marks its cell as sand and changes nothing else |
| Day14.FillsTriangle | rs/src/day14.rs:24-26 | a grain resting in an open cell of the triangle below the source leaves fewer open cells there, which bounds the pouring loops |
| Day14.GrainsAdd | rs/src/day14.rs:28 | adding a grain to an open cell raises the sand count by one |
| Day14.PourUntilLost | rs/src/day14.rs:21-29 | part 1's loop ends with a cave where the next grain is lost; rock is kept and the sand count is the number of cells sand took |
| Day14.PourUntilBlocked | rs/src/day14.rs:32-38 | part 2's loop keeps the floor |
| Day14.PourUntilBlockedFills | rs/src/day14.rs:32-42 | part 2's loop ends with the source covered; rock is kept, every cell sand took lies above the floor, and the count is the number of cells taken |
| Day14.NoGrainsAtFirst | rs/src/day14.rs:78-99 | a cave built from the rock structures holds no sand |
| Day14.SolvePart1 | rs/src/day14.rs:20-29 | part 1 ends when a grain falls past the lowest rock; the final cave takes no more sand, keeps every rock and the answer is the number of cells the sand took |
| Day14.SolvePart2 | rs/src/day14.rs:31-43 | part 2 ends when the source cell is blocked; the final cave keeps every rock, all sand lies above the floor and the answer is the number of cells the sand took |
| Day14.ExampleLine | rs/src/day14.rs:212 | the rock line from 498,4 to 498,6 is the three cells between them |
| Day15.ManhattanMetric | rs/src/day15.rs:118-120 | the Manhattan distance is zero exactly between equal points, symmetric, and obeys the triangle inequality |
| Day15.NewSensor | rs/src/day15.rs:96-103 | a sensor keeps its position and beacon and its reach is the distance between them |
| Day15.RangeAt | rs/src/day15.rs:105-115 | a sensor sees nothing on a row farther than its reach, and otherwise a valid range centred on its column |
| Day15.RangeAtMembers | rs/src/day15.rs:105-115 | a column is in a sensor's range on a row exactly when that cell is within the sensor's reach |
| Day15.MergeRange | rs/src/day15.rs:73-83 | merging two ranges gives one or two ranges |
| Day15.MergeRangeUnion | rs/src/day15.rs:73-83 | for ranges ordered by start, the merge covers exactly their union, gives one range exactly when they touch or overlap, and otherwise keeps both with a gap between them |
| Day15.SeparatedOrdered | rs/src/day15.rs:62-71 | in a merged list, every range ends more than one cell before any later range starts |
| Day15.FoldRangesStep | rs/src/day15.rs:62-71 | one folding step keeps the list separated and adds exactly the new range's cells |
| Day15.FoldMerges | rs/src/day15.rs:62-71 | folding ranges sorted by start yields separated ranges covering exactly the same cells |
| Day15.Insert | rs/src/day15.rs:37 | inserting a range adds exactly that range to the multiset |
| Day15.SortByStart | rs/src/day15.rs:37 | sorting by start permutes the ranges |
| Day15.SortByStartSorts | rs/src/day15.rs:37 | sorting by start orders the ranges by start |
| Day15.PermutedCover | rs/src/day15.rs:37 | reordering ranges changes neither the cells they cover nor their validity |
| Day15.RangesAt | rs/src/day15.rs:54 | the ranges the sensors see on a row are all valid |
| Day15.RangesAtCover | rs/src/day15.rs:34-36 | a cell is covered by the ranges on its row exactly when some sensor reaches it |
| Day15.RowRangesCover | rs/src/day15.rs:51-56 | the sorted, folded ranges of a row are separated and cover exactly the cells some sensor reaches |
| Day15.CellsCount | rs/src/day15.rs:58 | an inclusive range holds end - start + 1 cells |
| Day15.WidthsCount | rs/src/day15.rs:58-59 | the summed widths (end - start) of separated ranges plus their number is the number of cells they cover |
| Day15.RowCoverageCells | rs/src/day15.rs:51-60 | row coverage plus the number of merged ranges equals the number of cells on the row that some sensor reaches |
| Day15.SolvePart1 | rs/src/day15.rs:16-19 | part 1 plus the number of merged ranges on row 2000000 is the number of cells of that row some sensor reaches, and those cells are exactly the reached ones |
| Day15.TuningFrequencyInjective | rs/src/day15.rs:26-28 | for rows within 0..4000000, different locations have different tuning frequencies |
| Day15.GapIn | rs/src/day15.rs:40-45 | a gap found on a row sits just past a range that holds the low end of the search and not the high end |
| Day15.AfterRangeUncovered | rs/src/day15.rs:42 | the cell just past a range of a separated list is covered by none of them |
| Day15.GapUnseen | rs/src/day15.rs:40-45 | a gap found on a row lies inside the search bounds and is out of every sensor's reach |
| Day15.FindFromUnseen | rs/src/day15.rs:30-47 | a location the row search finds lies within the bounds and out of every sensor's reach |
| Day15.RowGap | rs/src/day15.rs:40-45 | if the low end of a row is reached and some cell inside the bounds is not, the row has a gap |
| Day15.FindFromComplete | rs/src/day15.rs:30-47 | if an unreached cell exists inside the bounds on a row whose low end is reached, the search finds a location, on that row or an earlier one |
| Day15.DistressSignalFound | rs/src/day15.rs:30-47 | a found signal is the tuning frequency of a cell inside the bounds that no sensor reaches, and such a cell on a row whose low end is reached is always found |
| Day15.SolvePart2 | rs/src/day15.rs:21-24 | part 2 is the tuning frequency of a cell inside 0..4000000 that no sensor reaches, and a result exists whenever such a cell lies on a row whose low end is reached |
| Day15.ParseFieldShow | rs/src/day15.rs:136-144 | a prefixed `i32`, written out and followed by a non-digit, reads back (round trip) |
| Day15.ParseShowLocation | rs/src/day15.rs:136-144 | a written location reads back as itself (round trip) |
| Day15.ParseTaggedShow | rs/src/day15.rs:126-134 | a tagged, written location reads back (round trip) |
| Day15.ParseShowSensor | rs/src/day15.rs:126-134 | a written sensor line reads back as the sensor with its reach (round trip) |
| Day15.ParseSensor | rs/src/day15.rs:126-134 | a sensor line reads exactly when both tagged locations read in turn; the sensor's reach is the distance to its beacon |
| Day15.ExampleLocation | rs/src/day15.rs:168-191 | `x=-2, y=15` reads as (-2, 15), and the sensor at 2,18 with that beacon has reach 7 |
| Day15.ExampleRanges | rs/src/day15.rs:210-220 | the sensor at 8,7 with beacon 2,10 sees nothing on rows -3 and 17 and the ranges the source lists on rows -2, 7, 10 and 16 |
| Day15.ExampleMerges | rs/src/day15.rs:227-233 | the three example merges give the listed ranges |
| Day15.ExampleFolds | rs/src/day15.rs:235-250 | the two example folds give `[-2..=24]` and `[-2..=2, 12..=12, 14..=24]` |
| Day17.ShapeSizes | rs/src/day17.rs:276-293 | each sprite is rectangular with its bottom row first drawn; Minus is 1 high and 4 wide, Plus 3 by 3, L 3 by 3, I 4 by 1, Box 2 by 2 |
| Day17.Height | rs/src/day17.rs:111-119 | the tower height is one past the highest row holding rock: that row holds rock and none above it does |
| Day17.HeightUnique | rs/src/day17.rs:111-119 | any height with those two properties is the tower height |
| Day17.ExtendTo | rs/src/day17.rs:121-127 | extending keeps the existing rows and adds empty rows until the grid reaches past the target row |
| Day17.ExtendHeightKeeps | rs/src/day17.rs:121-127 | making room above the tower keeps the rows, adds only empty rows, leaves the height alone and keeps the grid seven wide |
| Day17.AboveTowerAvailable | rs/src/day17.rs:163-173 | a sprite lying wholly above the tower is in a free place |
| Day17.InitialPosition | rs/src/day17.rs:148-153 | a rock appears two columns from the left wall with its bottom three rows above the tower |
| Day17.Fall | rs/src/day17.rs:175-185 | falling moves the rock one row down when that place is free and otherwise leaves it |
| Day17.FallUnlessAtRest | rs/src/day17.rs:154-161 | a rock is at rest exactly when falling leaves it where it is, and otherwise it falls by one row |
| Day17.Jet | rs/src/day17.rs:187-206 | a jet moves the rock at most one column, toward the jet's side, never through a wall, and only into a free place |
| Day17.JetMoves | rs/src/day17.rs:187-206 | when the column the jet points to is inside the walls and free, the rock moves there |
| Day17.Draw | rs/src/day17.rs:208-217 | drawing a rock keeps the grid's shape |
| Day17.DrawCells | rs/src/day17.rs:208-217 | after drawing, a cell holds rock exactly when it held rock before or the sprite covers it, and cells the sprite misses are unchanged |
| Day17.DrawHeight | rs/src/day17.rs:208-217 | drawing a rock keeps the grid walled and raises the height to the rock's top row when it is higher |
| Day17.Settle | rs/src/day17.rs:134-144 | alternating jet and fall ends with the rock at rest in a valid place no higher than it started, and keeps a free rock free |
| Day17.SettleLands | rs/src/day17.rs:134-144 | a rock starting above the tower settles with its bottom row no higher than the tower's top |
| Day17.Place | rs/src/day17.rs:129-146 | dropping a rock keeps the grid walled and raises the height by no more than the rock's height |
| Day17.DropShape | rs/src/day17.rs:129-146 | one drop keeps the state valid, advances the shape cycle and raises the height by at most four |
| Day17.Drop | rs/src/day17.rs:18-20 | n drops keep the state valid and raise the height by at most 4n |
| Day17.SolvePart1 | rs/src/day17.rs:9-22 | part 1 is the tower height after 2022 rocks from an empty chamber, and at most 8088 |
| Day17.ExampleHeights | rs/src/day17.rs:311-329 | the empty chamber has height 0, the one-row chamber 1 and the six-row example 6 |
| Day17.MatchesFrom | rs/src/day17.rs:238-247 | the matches of a pattern are exactly the ascending start rows of the windows equal to it |
| Day17.Gaps | rs/src/day17.rs:78-84 | the gaps are the differences between consecutive matches |
| Day17.Unique | rs/src/day17.rs:83 | removing duplicates keeps the same members with no value twice |
| Day17.UniqueSingle | rs/src/day17.rs:83-88 | one distinct value remains exactly when the list is non-empty and constant |
| Day17.MatchDistanceEven | rs/src/day17.rs:78-89 | there is a match distance exactly when there are two matches or more, all evenly spaced, and it is that spacing |
| Day17.CyclicPattern | rs/src/day17.rs:249-252 | a cyclic pattern is its first match and the positive, even spacing between all its matches |
| Day17.IdentifyFrom | rs/src/day17.rs:254-264 | an identified pattern is the start and positive period of some block that repeats evenly |
| Day17.ExampleMatches | rs/src/day17.rs:386-387 | in the example grid the first five rows match at rows 0, 6 and 12 |
| Day17.Heights | rs/src/day17.rs:36-41 | one height is recorded per rock dropped, the k-th being the tower after k + 1 rocks |
| Day17.Record | rs/src/day17.rs:36-41 | the record holds one value per step, the k-th being the function at k + 1 |
| Day17.LastRock | rs/src/day17.rs:53-66 | the chosen rock is the last one whose recorded height passes the test, and none passes when it finds none |
| Day17.RepeatsAdd | rs/src/day17.rs:68-75 | once the tower grows by the same rise every period, c more periods add c times that rise |
| Day17.ProjectSound | rs/src/day17.rs:68-75 | if the tower repeats with the found period, the projected height is the true height after the target number of rocks |
| Day17.ExtrapolateSound | rs/src/day17.rs:24-76 | if the tower repeats with the period found from the recorded heights, part 2's answer is the true height after the target number of rocks |
| Day17.TowerRepeats | rs/src/day17.rs:24-76 | when the recorded heights are the tower's and it repeats from the found start with the found period, the extrapolated height is the tower after the target number of rocks |
| Day17.ExtrapolateTower | rs/src/day17.rs:53-76 | an extrapolation needs both rock numbers, and is the true tower height whenever the tower repeats between them |
| Day17.SolvePart2 | rs/src/day17.rs:24-76 | a part 2 answer comes from a cyclic pattern found in the tower after three times the jet count of rocks, and is the true height after a trillion rocks whenever the tower repeats with that period |
| Day18.TryFrom | rs/src/day18.rs:94-103 | a cube exists exactly when all three coordinates fit in a byte, and keeps them |
| Day18.Translate | rs/src/day18.rs:85-91 | moving a cube succeeds exactly when the moved coordinates fit in a byte, and gives the moved cube |
| Day18.TranslateAllMembers | rs/src/day18.rs:67-78 | the translated cubes are exactly the successful translations by the offsets |
| Day18.FaceOffsets | rs/src/day18.rs:67-78 | two cubes share a face exactly when their difference is one of the six unit offsets |
| Day18.AdjacentMembers | rs/src/day18.rs:67-78 | the adjacent cubes are exactly the cubes sharing a face, at most six of them |
| Day18.AdjacentSymmetric | rs/src/day18.rs:67-78 | adjacency is symmetric |
| Day18.AdjacentInner | rs/src/day18.rs:67-78 | a cube away from the byte bounds has all six neighbours, in the order of the offsets |
| Day18.AdjacentCorner | rs/src/day18.rs:67-78 | the cube at the origin has only its three positive neighbours |
| Day18.Distinct | rs/src/day18.rs:18 | collecting into a set keeps the same members, each once |
| Day18.DistinctPermutation | rs/src/day18.rs:18-19 | two duplicate-free lists with the same members are permutations of each other, so the set's iteration order does not matter |
| Day18.SolvePart1SetOnly | rs/src/day18.rs:16-26 | the surface area depends only on the set of cubes, not on their order or repeats |
| Day18.OpenFacesRange | rs/src/day18.rs:20-24 | a cube shows between 0 and 6 open faces, and 6 exactly when no neighbour is in the droplet |
| Day18.SolvePart1 | rs/src/day18.rs:16-26 | the surface area is six faces per distinct cube less the ordered pairs of droplet cubes sharing a face, and lies between 0 and six per cube |
| Day18.TranslateAllDistinct | rs/src/day18.rs:67-78 | distinct offsets give distinct neighbours, so no adjacent cube is listed twice |
| Day18.NeighboursTouching | rs/src/day18.rs:20-23 | the filtered count of adjacent cubes is the number of droplet cubes sharing a face with the cube |
| Day18.OpenFacesSum | rs/src/day18.rs:19-25 | over distinct cubes the open faces add up to six per cube less the touching pairs starting at those cubes |
| Day18.SurfaceArea | rs/src/day18.rs:18-25 | summed over the set, the open faces are six per cube less all touching pairs, between 0 and six per cube |
| Day18.OneSharedFace | rs/src/day18.rs:20-24 | in a droplet of two face-sharing cubes, each shows five faces |
| Day18.ExampleTwoCubes | rs/src/day18.rs:16-26 | the two adjacent cubes 1,1,1 and 2,1,1 have surface area 10 |
| Day18.SolvePart2IsPart1 | rs/src/day18.rs:28-57 | part 2 as written counts the same faces as part 1 |
| Day18.SolvePart2 | rs/src/day18.rs:28-57 | part 2 as written gives six faces per distinct cube less the touching pairs: the whole surface, interior pockets included |
| Day18.ParseCommaByte | rs/src/day18.rs:109-114 | a parsed coordinate fits in a byte and consumes input |
| Day18.ParseShowCube | rs/src/day18.rs:109-114 | a cube written as `x,y,z` and followed by a non-digit reads back (round trip) |
| Day18.ExampleParse | rs/src/day18.rs:134-137 | `1,2,3` reads as the cube (1, 2, 3) |
| Day19.MaxOre | rs/src/day19.rs:99-104 | the most ore any robot costs: at least every ore cost, and equal to one of them |
| Day19.NextBot | rs/src/day19.rs:73-84 | with no collecting robot there is no answer; otherwise the answer is the first minute by which the stock covers the cost, counting the build minute |
| Day19.NextBotLeast | rs/src/day19.rs:73-84 | with a robot, the answer is m exactly when m minutes suffice and m - 1 do not |
| Day19.AffordableLater | rs/src/day19.rs:73-84 | waiting longer never makes a robot unaffordable |
| Day19.NextBotExamples | rs/src/day19.rs:560-568 | the six `next_bot` cases from the tests give None, None, 1, 5, 4 and 3 |
| Day19.NextOreBot | rs/src/day19.rs:109-144 | an ore robot is built exactly when ore is still needed and affordable before time runs out; then time passes, stock grows by the robots' output less the cost, one ore robot is added, and the ore flag clears once ore robots reach the largest ore cost |
| Day19.NextClayBot | rs/src/day19.rs:146-181 | the same for a clay robot, whose flag clears once clay robots reach the obsidian robot's clay cost |
| Day19.NextObsidianBot | rs/src/day19.rs:183-228 | an obsidian robot waits for the later of its ore and clay; its flag clears once obsidian robots reach the geode robot's obsidian cost |
| Day19.NextGeodeBot | rs/src/day19.rs:230-264 | a geode robot waits for the later of its ore and obsidian and at once credits every geode it will crack in the minutes left; the flags stay as they were |
| Day19.FlagsClearAtCap | rs/src/day19.rs:115-119 | after a build, the robot's flag is set exactly when fewer robots of that kind than its cap exist |
| Day19.MoveInvariants | rs/src/day19.rs:109-264 | every build uses up time, never loses a robot, and keeps robot counts within their caps |
| Day19.InitialCapped | rs/src/day19.rs:281-293 | the initial state, with one ore robot and all flags set, is within the caps |
| Day19.BuildsFollow | rs/src/day19.rs:42-49 | each build other than a geode robot leads to a later state with the same geodes |
| Day19.Builds | rs/src/day19.rs:42-49 | the candidate builds are at most three later states that keep the geode count |
| Day19.LaterThan | rs/src/day19.rs:52-55 | the kept candidates are exactly those with more minutes left than the geode build |
| Day19.Dfs | rs/src/day19.rs:41-71 | the best outcome is at least the geodes held and at most those plus the most the remaining minutes could add |
| Day19.Outcome | rs/src/day19.rs:56-62 | a candidate's outcome is bounded the same way relative to its parent |
| Day19.BestOf | rs/src/day19.rs:63-70 | the best of the candidates exists exactly when there are candidates, is one of their outcomes and is at least every one |
| Day19.LastMinute | rs/src/day19.rs:41-71 | with one minute or less left, nothing more is cracked |
| Day19.GeodeBoundClosed | rs/src/day19.rs:41-71 | the most geodes m minutes could add is m(m - 1)/2 |
| Day19.GeodeBoundValues | rs/src/day19.rs:25-39 | that bound is 276 for 24 minutes and 496 for 32 |
| Day19.MaxGeodes | rs/src/day19.rs:96-98 | a blueprint cracks at most the bound for its minutes |
| Day19.QualityBound | rs/src/day19.rs:105-107 | a quality level is at most 276 times the blueprint's id |
| Day19.SolvePart1 | rs/src/day19.rs:25-31 | the quality sum is at most 276 times the sum of the ids, at least every blueprint's own quality level, and zero exactly when every blueprint's quality level is zero |
| Day19.QualitySum | rs/src/day19.rs:25-31 | the sum of quality levels over any list of blueprints is at most 276 times the sum of their ids |
| Day19.QualityTerms | rs/src/day19.rs:25-31 | the sum of quality levels is at least the quality level of every blueprint in the list |
| Day19.QualityZero | rs/src/day19.rs:25-31 | the sum of quality levels is zero exactly when every blueprint's quality level is zero |
| Day19.SolvePart2 | rs/src/day19.rs:33-39 | part 2 has an answer exactly when there are at least three blueprints; it is at most 496 cubed and zero exactly when one of the first three blueprints cracks no geode in 32 minutes |
| Day19.ThreeGeodeCounts | rs/src/day19.rs:33-39 | three geode counts within the 32-minute bound multiply to at most 496 cubed, and to zero exactly when one of them is zero |
| Day19.TagShow | rs/src/day19.rs:385-411 | a tag followed by text reads back, leaving that text |
| Day19.DelimitedShow | rs/src/day19.rs:385-395 | a `u16` between an opening and a closing tag reads back (round trip) |
| Day19.DelimitedPairShow | rs/src/day19.rs:397-411 | two `u16`s joined by ` ore and ` between tags read back (round trip) |
| Day19.ParseShowCheapRobots | rs/src/day19.rs:389-395 | the ore and clay robot costs, written out, read back (round trip) |
| Day19.ParseShowDearRobots | rs/src/day19.rs:397-411 | the obsidian and geode robot costs, written out, read back (round trip) |
| Day19.ParseBlueprint | rs/src/day19.rs:372-383 | a parsed blueprint's numbers fit in a `u16` and input is consumed; a line not starting with `Blueprint ` is rejected |
| Day19.ParseShowBlueprint | rs/src/day19.rs:372-383 | a blueprint whose numbers fit in a `u16`, written out, reads back (round trip) |
| Day20.Tag | rs/src/day20.rs:9-17 | tagging pairs each number with its index: same length, same values in order, no two elements alike |
| Day20.Position | rs/src/day20.rs:46 | the position found holds the element and no earlier slot does |
| Day20.UniquePosition | rs/src/day20.rs:46 | in a list without repeats, the position of the element at p is p |
| Day20.InsertRemoveAt | rs/src/day20.rs:47-49 | removing what was just inserted gives the list back |
| Day20.RemoveAtInsert | rs/src/day20.rs:47-49 | putting a removed element back where it was gives the list back |
| Day20.InsertMultiset | rs/src/day20.rs:49 | inserting adds exactly that element |
| Day20.Landing | rs/src/day20.rs:48 | the new position, the Euclidean remainder by the shortened length, lies inside the shortened list |
| Day20.MakeMove | rs/src/day20.rs:45-51 | a move permutes the list, puts the element at its landing place and leaves the other elements in their relative order; a list without repeats stays so |
| Day20.MakeMoveIs | rs/src/day20.rs:45-51 | a move is removal at the element's position followed by insertion at its landing place |
| Day20.UniqueByMultiset | rs/src/day20.rs:45-51 | a permutation of a list without repeats has none |
| Day20.MixAll | rs/src/day20.rs:20-28 | one round of mixing permutes the list and keeps it free of repeats |
| Day20.Rounds | rs/src/day20.rs:37-40 | any number of rounds permutes the list and keeps it free of repeats |
| Day20.GroveCoordinates | rs/src/day20.rs:53-61 | the grove coordinates exist exactly when a 0 is present |
| Day20.GroveAt | rs/src/day20.rs:53-61 | with the first 0 at p, the coordinates are the numbers 1000, 2000 and 3000 places after p, wrapping around |
| Day20.RotateIndex | rs/src/day20.rs:53-61 | rotating by k moves the number at (i + k) mod n to slot i |
| Day20.GroveRotation | rs/src/day20.rs:53-61 | for a circle with one 0, the coordinates do not depend on where the list starts, so mixing may end with any rotation |
| Day20.ExampleCoordinates | rs/src/day20.rs:89-93 | the coordinates of `1, 2, -3, 4, 0, 3, -2` are 3 |
| Day20.SolvePart1 | rs/src/day20.rs:19-28 | part 1 is the coordinates after one round of the general mixing; they exist exactly when the file holds a 0, and are then the sum of three of the file's numbers |
| Day20.GroveOfMix | rs/src/day20.rs:21-27 | for any rearrangement of the file, the coordinates exist exactly when the file holds a 0 and add up three of its numbers |
| Day20.Decrypt | rs/src/day20.rs:30-36 | decryption keeps each index and multiplies each value by 811589153 |
| Day20.DecryptedSums | rs/src/day20.rs:32-36 | the decrypted file holds a 0 exactly where the input does, and a sum of three decrypted numbers is 811589153 times a sum of three input numbers |
| Day20.SolvePart2 | rs/src/day20.rs:30-43 | part 2 exists exactly when the input holds a 0, and is then a multiple of 811589153 whose quotient is the sum of three input numbers |
| Day20.ParseNumber | rs/src/day20.rs:63-65 | a parsed number consumes input |
| Day20.ReadShowInput | rs/src/day20.rs:9-17 | numbers that fit in an `i64`, written one per line, read back as the tagged file (round trip) |
| Day21.Write | rs/src/day21.rs:87-89 | writing a register sets it to the expression and leaves every other register alone |
| Day21.WriteValueRanked | rs/src/day21.rs:87-89 | writing a number over a register keeps the registers free of cycles |
| Day21.Apply | rs/src/day21.rs:43-52 | each operation is the sum, difference, product or truncating quotient of unbounded integers, and division by zero has no result |
| Day21.ContainsVariableReaches | rs/src/day21.rs:91-99 | a register contains the unknown exactly when the unknown's register is reachable from it |
| Day21.ReachesRegister | rs/src/day21.rs:39-40 | every register reachable from a present one is present |
| Day21.Eval | rs/src/day21.rs:39-55 | evaluating a register that reaches the unknown has no result |
| Day21.EvalAnyRank | rs/src/day21.rs:39-55 | the value does not depend on which acyclic ranking orders the registers |
| Day21.EvalWithoutVariable | rs/src/day21.rs:17-24 | filling in the unknown does not change any register that does not reach it |
| Day21.UndoAsWritten | rs/src/day21.rs:64-75 | the source's inverse step fails only when it divides by a zero operand |
| Day21.UndoAsWrittenDivideRight | rs/src/day21.rs:74 | for `12 / x == 3` the source's step gives 0, which makes the node divide by zero; the intended step gives 4, and `12 / 4 == 3` |
| Day21.Undo | rs/src/day21.rs:64-75 | the corrected inverse step agrees with the source's except for an unknown divisor, and fails only when it would divide by zero |
| Day21.UndoRedo | rs/src/day21.rs:64-75 | when no division leaves a remainder, applying the operation to the undone value gives the target back |
| Day21.RedoUndo | rs/src/day21.rs:64-73 | for `+`, `-` and `*` by a non-zero value, undoing an applied operation gives the operand back |
| Day21.Step | rs/src/day21.rs:64-75 | the inverse step is the source's own for every case but an unknown divisor, whichever version is chosen |
| Day21.Uneval | rs/src/day21.rs:57-81 | a register without the unknown gives its own value, and the unknown's register gives the target, both with the source's steps and with the corrected one |
| Day21.UnevalAgrees | rs/src/day21.rs:57-81 | where no node divides by a value holding the unknown, the source's `uneval` and the corrected one give the same answer |
| Day21.UnevalDivideRight | rs/src/day21.rs:57-81 | for `12 / humn` to come to 3 the source's `uneval` gives 0, at which the node divides by zero; the corrected one gives 4, at which it comes to 3 |
| Day21.SolvableContainsVariable | rs/src/day21.rs:57-81 | a register that can be solved for a target reaches the unknown |
| Day21.UnevalSolves | rs/src/day21.rs:57-81 | when the equation has an exact solution, writing the value found into the unknown makes the register come to the target |
| Day21.SolveEquation | rs/src/day21.rs:101-112 | only a binary register can be solved |
| Day21.SolveEquationBalances | rs/src/day21.rs:101-112 | when the side with the unknown can be solved exactly for the other side's value, writing the result into the unknown makes both sides of the register equal |
| Day21.SolvePart1 | rs/src/day21.rs:12-15 | part 1 is what `root` evaluates to, the same under every acyclic ranking of the registers |
| Day21.SolvePart2Balances | rs/src/day21.rs:17-24 | with the corrected step, when `root`'s side holding `humn` can be solved exactly, shouting part 2's answer makes both operands of `root` equal |
| Day21.FromMonkeysKeys | rs/src/day21.rs:30-36 | the registers are exactly the monkeys' names |
| Day21.FromMonkeysLast | rs/src/day21.rs:30-36 | a name's register holds the expression of the last monkey with that name |
| Day21.ExamplePart1 | rs/src/day21.rs:216-220 | with the example monkeys, `root` comes to 152 |
| Day21.ExamplePart2 | rs/src/day21.rs:222-226 | with the example monkeys and `humn` unknown, the equation gives 301 |
| Day21.ParseSymbol | rs/src/day21.rs:185-189 | a symbol is taken exactly when four characters remain, and it is those four |
| Day21.ParseOpChar | rs/src/day21.rs:138-148 | a character reads as an operation exactly when it is that operation's symbol |
| Day21.ParseBinary | rs/src/day21.rs:170-179 | a binary expression reads exactly when two symbols are joined by a spaced operator, and the text is rebuilt from what was read |
| Day21.ParseMonkey | rs/src/day21.rs:159-164 | a monkey line reads exactly when a name of four characters and `: ` come before an expression, giving that name and a non-variable expression |
| Day21.ParseShowExpression | rs/src/day21.rs:166-183 | a written value or binary expression reads back (round trip) |
| Day21.ParseShowMonkey | rs/src/day21.rs:159-164 | a written monkey reads back (round trip) |
| Day21.ReadShowMonkeys | rs/src/day21.rs:150-157 | a list of monkeys written one per line reads back (round trip) |
| Day21.ExampleSymbol | rs/src/day21.rs:228-232 | `aaaa` reads as a symbol |
| Day21.ExampleMonkey | rs/src/day21.rs:234-241 | `dbpl: 5` reads as the monkey `dbpl` holding 5 |
| Day21.ExampleBinary | rs/src/day21.rs:243-247 | `sllz + lgvd` reads as the sum of those two registers |
| Day22.ValueInjective | rs/src/day22.rs:597-605 | different facings have different values, all below 4 |
| Day22.ExampleFacingValues | rs/src/day22.rs:597-605 | right is 0, down 1, left 2 and up 3 |
| Day22.RotateValue | rs/src/day22.rs:580-595 | turning right adds one to the facing value modulo 4, and turning left subtracts one |
| Day22.RotateInverse | rs/src/day22.rs:580-595 | a left turn undoes a right turn and the reverse, and four equal turns come back to the start |
| Day22.RotatePosition | rs/src/day22.rs:379-384 | turning changes the facing only |
| Day22.PasswordDecode | rs/src/day22.rs:386-388 | for columns below 249, the row, the column and the facing can be read back from the password |
| Day22.PasswordInjective | rs/src/day22.rs:386-388 | for such columns, different positions have different passwords |
| Day22.ExamplePassword | rs/src/day22.rs:386-388 | row 5, column 7, facing right gives 6032, the example's part 1 password |
| Day22.MaxLength | rs/src/day22.rs:455 | the width is the length of the longest line |
| Day22.BoardFrom | rs/src/day22.rs:453-465 | the board has one row per line, each padded with blanks to the width of the longest line |
| Day22.BoardFromValid | rs/src/day22.rs:453-465 | lines made of tile characters give a valid board |
| Day22.NextRight | rs/src/day22.rs:399-402 | moving right goes one column on, wrapping from the last column to the first |
| Day22.NextLeft | rs/src/day22.rs:404-410 | moving left goes one column back, wrapping from the first column to the last |
| Day22.NextDown | rs/src/day22.rs:412-415 | moving down goes one row on, wrapping from the last row to the first |
| Day22.NextUp | rs/src/day22.rs:417-423 | moving up goes one row back, wrapping from the first row to the last |
| Day22.NextInverse | rs/src/day22.rs:399-423 | a move left undoes a move right and up undoes down, in both orders |
| Day22.NextStep | rs/src/day22.rs:390-397 | one move along the facing stays on the board and keeps the facing |
| Day22.TileOf | rs/src/day22.rs:545-556 | a character is a tile exactly when it is `#`, `.` or a blank; `#` is a wall and `.` is open |
| Day22.TileAt | rs/src/day22.rs:478-487 | the tile at a position is open exactly for `.` and a wall exactly for `#` |
| Day22.Scan | rs/src/day22.rs:435-443 | looking ahead, blanks are skipped, and what is found is an open tile in the same row or column with the same facing |
| Day22.Steps | rs/src/day22.rs:425-433 | walking stays on the board, keeps the facing, and ends on an open tile unless it never moved |
| Day22.StepsAdd | rs/src/day22.rs:425-433 | walking m and then n steps is walking m + n steps |
| Day22.StepsStuck | rs/src/day22.rs:425-433 | facing a wall, no number of steps moves |
| Day22.Execute | rs/src/day22.rs:529-534 | a turn instruction only turns, and a step instruction keeps the facing |
| Day22.Run | rs/src/day22.rs:15-26 | running instructions from an open tile ends on an open tile of the board |
| Day22.RunAppend | rs/src/day22.rs:19-23 | running two instruction lists one after the other is running their concatenation |
| Day22.FirstOpen | rs/src/day22.rs:470 | the start column is the first `.` of the row |
| Day22.Initial | rs/src/day22.rs:468-476 | the start is the first open tile of the top row, facing right |
| Day22.SolvePart1 | rs/src/day22.rs:15-26 | the answer is the password of a position on an open tile of the board, and equals the password reached by stopping after any instruction and resuming from there |
| Day22.ResumeRun | rs/src/day22.rs:19-23 | folding the instructions may be split at any point: resuming from the intermediate position gives the same end |
| Day22.RotateCube | rs/src/day22.rs:222-225 | turning on the cube changes the facing only |
| Day22.Mirror | rs/src/day22.rs:236-257 | `max - x` mirrors a coordinate across the face |
| Day22.MapAroundEdge | rs/src/day22.rs:236-257 | crossing an edge lands on the new face with the facing turned by the edge's rotation |
| Day22.MapAroundEdgeEntry | rs/src/day22.rs:236-257 | crossing an edge lands on the entry edge of the new face for the new facing |
| Day22.EdgeRoundTrip | rs/src/day22.rs:236-257 | crossing an edge and walking back across it with the inverse rotation returns to the same cell, facing the other way |
| Day22.ExampleLeaveUp | rs/src/day22.rs:792-840 | the sixteen edge crossings the test lists for leaving upward land where it says |
| Day22.ExampleLeaveDown | rs/src/day22.rs:792-840 | the same for leaving downward |
| Day22.ExampleLeaveRight | rs/src/day22.rs:792-840 | the same for leaving to the right |
| Day22.ExampleLeaveLeft | rs/src/day22.rs:792-840 | the same for leaving to the left |
| Day22.CubeEdges | rs/src/day22.rs:139-145 | edge tables exist exactly for faces of size 4 and 50 |
| Day22.CubeEdgesGlued | rs/src/day22.rs:50-137 | in both tables, every edge crossed from one face is crossed back to that face by the inverse rotation from the other |
| Day22.NextFace | rs/src/day22.rs:226-235 | crossing an edge moves to the face the table names, turned by its rotation |
| Day22.Step | rs/src/day22.rs:294-318 | a step stays on the cube, and away from an edge it stays on the face with the same facing |
| Day22.WalkAdd | rs/src/day22.rs:282-293 | walking m and then n steps is walking m + n steps |
| Day22.WalkEndsOpen | rs/src/day22.rs:282-293 | a walk ends where it began or on an open place |
| Day22.CubeSteps | rs/src/day22.rs:282-293 | walking on the cube stays on it and, from an open tile, ends on an open tile |
| Day22.CubeStepsAdd | rs/src/day22.rs:282-293 | walking m and then n steps on the cube is walking m + n steps |
| Day22.ExecuteCube | rs/src/day22.rs:40-43 | a turn instruction only turns |
| Day22.RunCube | rs/src/day22.rs:36-44 | running instructions on the cube from an open tile ends on an open tile |
| Day22.SolvePart2 | rs/src/day22.rs:28-46 | the answer is the password of a cube position, which is open whenever the corner of face 0 is |
| Day22.EuclidLoop | rs/src/day22.rs:195-199 | the loop's result divides both numbers, and every common divisor divides it |
| Day22.Gcd | rs/src/day22.rs:186-201 | `gcd` gives its argument for equal arguments, and otherwise the greatest common divisor |
| Day22.GcdGreatest | rs/src/day22.rs:186-201 | every common divisor is at most the result |
| Day22.ExampleFaceSize | rs/src/day22.rs:29-34 | the 12 by 16 example folds into faces of size 4, and a 200 by 150 board into faces of size 50 |
| Day23.Transform | rs/src/day23.rs:147-152 | moving an elf shifts its row and column by the offset |
| Day23.OccupiedNear | rs/src/day23.rs:112-130 | bit i of the mask is set exactly when the i-th of the eight neighbours, in the source's order, holds an elf |
| Day23.MaskEmpty | rs/src/day23.rs:125-133 | the mask is zero exactly when no neighbour holds an elf |
| Day23.MaskSide | rs/src/day23.rs:154-161 | a direction's mask test passes exactly when its three neighbours on that side are empty |
| Day23.TargetOnSide | rs/src/day23.rs:134-143 | when a side is clear, the cell one step that way is empty |
| Day23.FindClear | rs/src/day23.rs:134-136 | the direction chosen is the first in the order whose side is clear, and none is chosen when no side is |
| Day23.ProposeMove | rs/src/day23.rs:110-144 | an elf with no neighbours proposes nothing; otherwise it proposes the empty cell one step toward the first clear direction, and some move whenever a side is clear |
| Day23.FirstClearUnique | rs/src/day23.rs:134-136 | the first clear direction is unique |
| Day23.TwoProposers | rs/src/day23.rs:234-237 | two elves proposing the same cell count as at least two proposers |
| Day23.ExecuteRound | rs/src/day23.rs:226-242 | the round's moves are exactly the moves of elves whose proposed cell no other elf proposed |
| Day23.MovedApart | rs/src/day23.rs:237 | two different elves never both move to the same cell |
| Day23.RoundDisjoint | rs/src/day23.rs:226-242 | no two moves share a target or an elf, and no target is a cell an elf stands on |
| Day23.Swap | rs/src/day23.rs:244-247 | a swap fills the target, empties the old cell and changes nothing else |
| Day23.ApplySwapsSets | rs/src/day23.rs:40-44 | applying the round's swaps removes exactly the moving elves and adds exactly their targets |
| Day23.ApplySwapsCount | rs/src/day23.rs:40-44 | applying the swaps keeps the number of elves |
| Day23.RoundKeepsCount | rs/src/day23.rs:40-44 | a round keeps the number of elves |
| Day23.RoundLeavers | rs/src/day23.rs:226-242 | an elf leaves its cell exactly when it is on the field and its move went through |
| Day23.NextElvesField | rs/src/day23.rs:40-44 | the elves after a round stand exactly on the cells the swaps leave occupied |
| Day23.NextElvesDistinct | rs/src/day23.rs:40-44 | after a round no two elves share a cell |
| Day23.RotateLeft | rs/src/day23.rs:46 | rotating the order moves its first direction to the back |
| Day23.RotateFour | rs/src/day23.rs:32-46 | four rotations bring the initial order back |
| Day23.Step | rs/src/day23.rs:40-47 | a round keeps the number of elves and of directions |
| Day23.IterateAdd | rs/src/day23.rs:40-47 | m rounds and then n rounds are m + n rounds |
| Day23.SpreadAdd | rs/src/day23.rs:40-47 | spreading for m and then n rounds is spreading for m + n rounds |
| Day23.SpreadKeepsCount | rs/src/day23.rs:40-47 | any number of rounds keeps the elves on distinct cells and their number unchanged |
| Day23.FirstStopFirst | rs/src/day23.rs:66-76 | the search returns the first round at which the condition holds, or none within the fuel |
| Day23.Range | rs/src/day23.rs:206-217 | the bounds exist exactly when there are elves, and they are the tight rectangle around them |
| Day23.TightUnique | rs/src/day23.rs:206-217 | the tight rectangle is unique |
| Day23.RangeTight | rs/src/day23.rs:206-217 | the bounds are b exactly when b is the tight rectangle |
| Day23.CellsCount | rs/src/day23.rs:219-224 | a rectangle holds height times width cells |
| Day23.EmptyTiles | rs/src/day23.rs:219-224 | the empty count exists exactly when there are elves |
| Day23.EmptyTilesCount | rs/src/day23.rs:219-224 | the empty count is the number of cells in the tight rectangle that no elf stands on |
| Day23.FieldCount | rs/src/day23.rs:202-204 | the number of cells the elves occupy is the number of elves, when no two share a cell |
| Day23.LineElves | rs/src/day23.rs:12-20 | the elves of a line are exactly its `#` cells, in reading order |
| Day23.Grid | rs/src/day23.rs:9-22 | the elves of the map are exactly its `#` cells, in reading order |
| Day23.ReadingOrderDistinct | rs/src/day23.rs:9-22 | elves in reading order are distinct |
| Day23.ElfMap | rs/src/day23.rs:7-23 | the elves read are exactly the `#` cells, in reading order and distinct |
| Day23.SolvePart1 | rs/src/day23.rs:25-50 | part 1 has an answer exactly when there are elves |
| Day23.SolvePart1Count | rs/src/day23.rs:25-50 | for a map with elves, part 1 is the number of cells of the tight rectangle around the elves after ten rounds on which no elf stands |
| Day23.Settles | rs/src/day23.rs:66-76 | the search for a still round finds the first one within the fuel, or shows none occurs |
| Day23.SettleRoundFirst | rs/src/day23.rs:52-78 | part 2 numbers from one the first round in which no elf moves, and every earlier round had a move |
| Day23.SolvePart2 | rs/src/day23.rs:52-78 | for the elves read from the map, the answer is the number, from one, of the first round without moves, every earlier round having one; `None` means each round within the fuel had a move |
| Day24.FromChar | rs/src/day24.rs:267-279 | a character names a direction exactly when it is one of the four arrows |
| Day24.CharRoundTrip | rs/src/day24.rs:257-279 | reading back the arrow a direction draws gives that direction, and a character read as a direction is the arrow that direction draws |
| Day24.GcdLoop | rs/src/day24.rs:294-302 | the remainder loop ends at a common divisor that every other common divisor divides |
| Day24.Gcd | rs/src/day24.rs:287-303 | after ordering the two sizes, the result divides both and is divided by every common divisor |
| Day24.GcdGreatest | rs/src/day24.rs:287-303 | no common divisor exceeds the computed gcd |
| Day24.CommonMultiple | rs/src/day24.rs:283-285 | the product divided by a common divisor is a positive common multiple |
| Day24.Lcm | rs/src/day24.rs:283-285 | the blizzard period is positive and a multiple of both the height and the width |
| Day24.ExamplePeriods | rs/src/day24.rs:86-93 | the example valley 4 by 6 repeats every 12 minutes and a 25 by 120 valley every 600 |
| Day24.MoveUp | rs/src/day24.rs:196-199 | an upward blizzard stays in its column and inside the valley's rows |
| Day24.MoveUpValue | rs/src/day24.rs:196-199 | the double wrap in the source lands on the start row minus the time, taken modulo the height |
| Day24.MoveDown | rs/src/day24.rs:200-202 | a downward blizzard stays in its column and inside the valley's rows |
| Day24.MoveRight | rs/src/day24.rs:203-205 | a rightward blizzard stays in its row and inside the valley's columns |
| Day24.MoveLeft | rs/src/day24.rs:206-209 | a leftward blizzard stays in its row and inside the valley's columns |
| Day24.MoveLeftValue | rs/src/day24.rs:206-209 | the double wrap in the source lands on the start column minus the time, taken modulo the width |
| Day24.UpUndoesDown | rs/src/day24.rs:196-202 | moving up for a time undoes moving down for the same time |
| Day24.DownUndoesUp | rs/src/day24.rs:196-202 | moving down for a time undoes moving up for the same time |
| Day24.LeftUndoesRight | rs/src/day24.rs:203-209 | moving left for a time undoes moving right for the same time |
| Day24.RightUndoesLeft | rs/src/day24.rs:203-209 | moving right for a time undoes moving left for the same time |
| Day24.Landing | rs/src/day24.rs:213-219 | a blizzard's position at any time is a cell of the valley |
| Day24.LandingInjective | rs/src/day24.rs:213-219 | two blizzards that share a direction never land on the same cell unless they started there together |
| Day24.LandingPeriodic | rs/src/day24.rs:86-89 | every blizzard is back where it was after one period of the height and width |
| Day24.ExampleMoveUp | rs/src/day24.rs:337-355 | on a valley four rows high the upward blizzard from (1, 1) visits the positions the source's test lists, for times 0 to 5 and 40 |
| Day24.ExampleMoveDown | rs/src/day24.rs:357-375 | on a valley four rows high the downward blizzard from (1, 1) visits the positions the source's test lists, for times 0 to 5 and 44 |
| Day24.ExampleMoveRight | rs/src/day24.rs:377-396 | on a valley six columns wide the rightward blizzard from (1, 1) visits the positions the source's test lists, for times 0 to 6 and 66 |
| Day24.ExampleMoveLeft | rs/src/day24.rs:398-417 | on a valley six columns wide the leftward blizzard from (1, 1) visits the positions the source's test lists, for times 0 to 6 and 66 |
| Day24.Blank | rs/src/day24.rs:212 | the starting grid has the valley's shape and every cell is empty |
| Day24.ValleyAt | rs/src/day24.rs:211-229 | drawing the blizzards keeps the valley's shape; a tenth blizzard on one cell has no digit and yields nothing |
| Day24.ValleyAtRenders | rs/src/day24.rs:211-229 | while no cell gets ten blizzards, every cell shows the rendering of the blizzards that land on it: empty, their arrow, or their count |
| Day24.RenderBump | rs/src/day24.rs:220-226 | one more blizzard on a cell turns its mark into the mark for the longer list |
| Day24.DrawnEmpty | rs/src/day24.rs:220-226 | a cell is drawn empty exactly when no blizzard lands on it |
| Day24.LandersMembers | rs/src/day24.rs:213-220 | a direction is among a cell's landers exactly when some listed blizzard of that direction lands there |
| Day24.LandersDistinct | rs/src/day24.rs:213-220 | since each position holds one blizzard, no direction lands twice on a cell |
| Day24.ListedHit | rs/src/day24.rs:211-220 | for any listing of the blizzard map, a direction lands on a cell exactly when the map's blizzard of that direction reaches it |
| Day24.ListedArrivals | rs/src/day24.rs:211-226 | any listing of the blizzard map gives each cell the same number and rendering of arrivals |
| Day24.RenderSameMembers | rs/src/day24.rs:220-226 | the mark of a cell depends only on which directions arrive, not on their order |
| Day24.ValleyAtDrawn | rs/src/day24.rs:211-229 | for any listing of the blizzard map, the drawn valley is defined and every cell shows the mark of the blizzards reaching it |
| Day24.SameGrid | rs/src/day24.rs:211-229 | two grids of the valley's shape that agree on every cell are equal |
| Day24.ValleyAtOrderFree | rs/src/day24.rs:213 | the drawn valley does not depend on the hash map's iteration order |
| Day24.OpenInRow | rs/src/day24.rs:236-241 | a row yields exactly its empty cells at the given time |
| Day24.OpenInRows | rs/src/day24.rs:236-241 | the rows yield exactly the empty cells of the grid at the given time |
| Day24.OpenPositions | rs/src/day24.rs:231-245 | the open positions are the empty grid cells and the two entrances, all stamped with the time |
| Day24.AlwaysDrawn | rs/src/day24.rs:100 | the valley can be drawn at every time |
| Day24.OpenMeansClear | rs/src/day24.rs:231-245 | a position is open exactly when it is an entrance or a valley cell no blizzard reaches at that time |
| Day24.OpenSet | rs/src/day24.rs:99-107 | every open position lies within one blizzard period |
| Day24.OpenSetClear | rs/src/day24.rs:99-107 | the set of open positions holds exactly the entrances and the blizzard-free cells at each time of the period |
| Day24.PossibleMoves | rs/src/day24.rs:121-134 | a position's moves are exactly the open positions one step away or in place, at the next time modulo the period, at most five of them |
| Day24.MovesInto | rs/src/day24.rs:128-133 | the kept moves are exactly the candidates that are open |
| Day24.EdgesAreSteps | rs/src/day24.rs:109-114 | the graph's edges join exactly the pairs of open positions one legal step apart |
| Day24.Manhattan | rs/src/day24.rs:117-119 | the heuristic is zero exactly at the goal |
| Day24.ManhattanConsistent | rs/src/day24.rs:117-134 | one step lowers the heuristic by at most one |
| Day24.ManhattanAdmissible | rs/src/day24.rs:71-84 | the heuristic never exceeds the number of steps of any walk that reaches the goal, so the search it guides finds a shortest walk |
| Day24.GridCells | rs/src/day24.rs:176-177 | the product of the row and column ranges is exactly the cells inside the valley |
| Day24.BasinFrom | rs/src/day24.rs:171-195 | a rectangular non-empty valley gives a basin of its size with the given entrances, whose blizzard map holds exactly the arrow cells, each with the direction its arrow names |
| Day24.LandingAtStart | rs/src/day24.rs:196-209 | at time zero every blizzard is where it started |
| Day24.HitAtStart | rs/src/day24.rs:196-219 | at time zero a direction reaches a cell exactly when the map places that blizzard there |
| Day24.DrawnAtStart | rs/src/day24.rs:211-226 | at time zero a cell shows its own blizzard's arrow, or empty |
| Day24.ValleyAtStart | rs/src/day24.rs:171-229 | drawing a parsed valley at time zero gives back the valley that was read |
| Day24.ExampleBasin | rs/src/day24.rs:449-461 | the source's small basin has width 5, height 5 and the two blizzards at (1, 0) going right and (3, 3) going down |
| Day25.Pow5 | rs/src/day25.rs:15 | every power of five is at least one |
| Day25.Pow5Order | rs/src/day25.rs:15-18 | powers of five are ordered as their exponents, in both directions |
| Day25.Radix5Below | rs/src/day25.rs:17-28 | a base-5 numeral of k digits is worth less than 5 to the k |
| Day25.LeadingDigitWeight | rs/src/day25.rs:55-57 | a numeral without a leading zero is worth at least 5 to the length less one, and at least three times that when it starts with 3 or more |
| Day25.FromStrRadix5 | rs/src/day25.rs:15-27 | reading base 5 succeeds exactly on a non-empty string of the digits 0 to 4, and the value stays below 5 to its length |
| Day25.Radix5 | rs/src/day25.rs:55 | formatting in base 5 gives a non-empty numeral without a leading zero that reads back as the number |
| Day25.Radix5Canonical | rs/src/day25.rs:55-57 | every base-5 numeral without a leading zero is what formatting its own value gives, so formatting and reading are inverse |
| Day25.Radix5Length | rs/src/day25.rs:55-56 | a number between 5 to the k less one and 5 to the k is formatted with exactly k digits |
| Day25.Radix5Bounds | rs/src/day25.rs:55-56 | the formatted length is the least k for which the number stays below 5 to the k |
| Day25.Twos | rs/src/day25.rs:15 | the repeated "2" string has the requested length and is a base-5 numeral |
| Day25.OffsetIsTwos | rs/src/day25.rs:14-16 | the offset of a width is what reading k twos in base 5 gives |
| Day25.OffsetValue | rs/src/day25.rs:14-16 | twice the offset of k digits plus one is 5 to the k, so the offset is the centre of the k-digit range |
| Day25.OffsetOf | rs/src/day25.rs:14-16 | the offset of a numeral can be read exactly when it has at least one digit, and it is the centre of the k-digit range |
| Day25.DecodeChar | rs/src/day25.rs:31-40 | exactly the five SNAFU digits are decoded, each to a base-5 digit; any other character is the panic case |
| Day25.EncodeChar | rs/src/day25.rs:42-51 | exactly the five base-5 digits are encoded, each to a SNAFU digit; any other character is the panic case |
| Day25.CharMapsInverse | rs/src/day25.rs:31-51 | decoding and encoding a digit are inverse in both directions |
| Day25.Decoded | rs/src/day25.rs:19-23 | the decoded string keeps the length and decodes each digit in place |
| Day25.EncodedDigits | rs/src/day25.rs:57-60 | the encoded string keeps the length and encodes each digit in place |
| Day25.DecodeEncoded | rs/src/day25.rs:19-23 | decoding an encoded numeral gives back the base-5 numeral |
| Day25.EncodeDecoded | rs/src/day25.rs:57-60 | encoding a decoded numeral gives back the SNAFU numeral |
| Day25.ShiftedValue | rs/src/day25.rs:11-28 | the decoded numeral is worth the SNAFU value plus the offset of its width, which is why subtracting the offset recovers the value |
| Day25.Show | rs/src/day25.rs:66-86 | reading back what a numeral displays gives the same numeral |
| Day25.Base5 | rs/src/day25.rs:17-28 | the base-5 reading succeeds exactly on a non-empty numeral of SNAFU digits |
| Day25.ToInt | rs/src/day25.rs:11-13 | a numeral has a value exactly when it is non-empty and made of SNAFU digits |
| Day25.ToIntReadsBase5 | rs/src/day25.rs:11-16 | the value is the base-5 reading of the decoded digits less the offset of the width |
| Day25.ToIntIsValue | rs/src/day25.rs:11-28 | the source's conversion gives the digit-by-digit SNAFU worth |
| Day25.ToIntValue | rs/src/day25.rs:11-28 | the conversion of a well-formed numeral is the weighted sum of its digits with = as -2 and - as -1 |
| Day25.Encoded | rs/src/day25.rs:57-62 | encoding a base-5 numeral gives a SNAFU numeral of the same length |
| Day25.EncodedValue | rs/src/day25.rs:56-62 | an encoded numeral is worth its base-5 value less the offset of its width |
| Day25.Written | rs/src/day25.rs:56-62 | shifting by the offset of width k and encoding gives a SNAFU numeral as long as the shifted base-5 numeral |
| Day25.WrittenValue | rs/src/day25.rs:56-62 | the shifted numeral reads back as the value exactly when the shift did not change the width |
| Day25.FromIntAsWritten | rs/src/day25.rs:53-64 | the conversion as written always yields at least one digit |
| Day25.FromIntAsWrittenValue | rs/src/day25.rs:53-64 | the conversion as written reads back as the value plus the difference of the two offsets, so it round-trips exactly when adding the offset keeps the number of base-5 digits |
| Day25.ThreeAsWritten | rs/src/day25.rs:53-64 | the conversion as written turns 3 into "-=", which reads back as -7 |
| Day25.OffsetAtLeast | rs/src/day25.rs:14-16 | the offset of k digits is at least k |
| Day25.WidthFrom | rs/src/day25.rs:53-64 | the search from a candidate width finds a width whose range holds the value |
| Day25.SnafuWidth | rs/src/day25.rs:53-64 | every natural number has a SNAFU width whose range holds it |
| Day25.SumFitsWidth | rs/src/day25.rs:56-57 | in the right width, the value plus the offset takes exactly that many base-5 digits |
| Day25.WidthGrows | rs/src/day25.rs:55-57 | adding the offset lengthens the base-5 numeral by at most one digit |
| Day25.CarryWidth | rs/src/day25.rs:55-57 | the width the source ends with, after its one carry, is the right SNAFU width |
| Day25.WrittenWidth | rs/src/day25.rs:53-64 | the conversion as written has the correct SNAFU width for every value |
| Day25.FromInt | rs/src/day25.rs:53-64 | the corrected conversion has the SNAFU width of the value and reads back as the value |
| Day25.WidthUnique | rs/src/day25.rs:53-64 | a value lies in the range of one width only |
| Day25.CanonicalWidth | rs/src/day25.rs:53-64 | a numeral led by 1 or 2 is positive and lies in the range of its own width |
| Day25.LeadingShifted | rs/src/day25.rs:31-40 | a numeral led by 1 or 2 decodes to one without a leading zero |
| Day25.FromIntCanonical | rs/src/day25.rs:53-64 | every numeral led by 1 or 2 is what the corrected conversion gives for its value, so converting and reading are inverse |
| Day25.WrittenCanonical | rs/src/day25.rs:56-62 | shifting the value of a canonical numeral by its width's offset and encoding gives the numeral back |
| Day25.WrittenOfDigits | rs/src/day25.rs:56-62 | whenever the shifted value formats to the decoded digits, encoding gives back the numeral |
| Day25.CanonicalIsWidth | rs/src/day25.rs:53-64 | the width of the value of a numeral led by 1 or 2 is its length |
| Day25.CanonicalDigits | rs/src/day25.rs:56-57 | the value of a canonical numeral plus its offset formats to its decoded digits |
| Day25.Total | rs/src/day25.rs:96-99 | the sum exists exactly when every requirement converts |
| Day25.SolvePart1AsWritten | rs/src/day25.rs:93-102 | the answer as written exists exactly when every requirement converts and the sum is not negative |
| Day25.SolvePart1 | rs/src/day25.rs:93-102 | with the corrected conversion, the answer reads back as the sum of the requirements |
| Day25.SnafuAppend | rs/src/day25.rs:11-28 | appending a digit multiplies the worth by five and adds the digit's worth |
| Day25.ValueOf4890 | rs/src/day25.rs:128-131 | "2=-1=0" is a SNAFU numeral worth 4890 |
| Day25.WidthOf4890 | rs/src/day25.rs:128-131 | 4890 has six base-5 digits and a SNAFU width of six |
| Day25.Example4890 | rs/src/day25.rs:128-131 | both the corrected and the as-written conversion turn 4890 into "2=-1=0" |

## Left out

### Library code and program structure

- The `nom` parser front-ends are not modelled as `nom` code, because that library is not part of this model. Examples are `valves`, `monkeys`, `rock_structure`, `blueprints`, `parse_input`, and day 24's `exit`, `valley_line`, `valley` and `basin`. The model starts from the parsed datatypes. Where a parser matters, it is a hand-written parser with a print-and-parse round trip (days 9, 10, 11, 13, 15, 18, 19, 20 and 21).
- Day 1's generator `gen` (rs/src/day1.rs:39-45) splits the input into blocks with `split_terminator("\n\n")`. The model starts from the lines of one block (`Day01.FromLines`).
- Day 11's monkey parsers, other than the operation line, are not modelled. The monkeys are given as data.
- The `yaah` attribute macros (`aoc`, `aoc_generator`), the `Display` implementations used only for printing, `print_valley`, `dbg!`, and the `stdout`/`debug` feature blocks are not modelled: the macros only register the solvers with the runner, and the rest only prints.
- `rayon` parallelism (rs/src/day16.rs:207, rs/src/day19.rs:27-38) is modelled as a sequential maximum, sum or product.
- `petgraph::floyd_warshall` (rs/src/day16.rs:50-66) is foreign code. `Day16.BuildVolcano` takes the hop counts between valves as a parameter `hops`, in its place.
- `petgraph::astar` is not modelled, because it is foreign library code. This covers:
  - day 12's hike (rs/src/day12.rs:29-64), with its example answers 31 and 29 (rs/src/day12.rs:127, rs/src/day12.rs:132);
  - day 24's `walk`, `solve_part1` and `solve_part2` (rs/src/day24.rs:43-84), with the example answers 18 and 54 (rs/src/day24.rs:328, rs/src/day24.rs:334).
  For day 24 the model proves what the search relies on instead: the edge set (`Day24.EdgesAreSteps`) and that the Manhattan heuristic never overestimates (`Day24.ManhattanAdmissible`). It does not model the `DiGraphMap` built from those edges.
- Day 22's `Board::faces` and `grid` (rs/src/day22.rs:489-527) cut the cube faces out of the board with `pathfinding::Matrix` slicing, which is foreign code. `Day22.SolvePart2` takes the cube, with its faces and edge table, as given.
- The cycle search of day 17's part 2 is modelled through `Day17.Heights`, `Day17.IdentifyCyclicPattern` and `Day17.Extrapolate`. The source's `HashMap` from rock number to height is a sequence indexed by rock number.
- `Day21.Uneval`, `Day21.SolveEquation` and `Day21.SolvePart2` take a `corrected` flag. With it false they follow the source step for step, including its inverse step for an unknown divisor (rs/src/day21.rs:74), listed under "## Findings". With it true that one step solves `c / x == other` as `x = c / other`; every other step is the source's (`Day21.Step`, `Day21.UnevalAgrees`). The balance results `Day21.UnevalSolves`, `Day21.SolveEquationBalances` and `Day21.SolvePart2Balances` are proved for the corrected version only; the source's version is promised nothing beyond `Day21.UnevalAgrees`.
- `Day21.Eval`: the registers come with a rank map that orders every symbol before its operands. The rank map stands for the acyclic input that the source assumes; the source itself would recurse without end on a cycle.
- `Day18.SolvePart2`: the source's part 2 (rs/src/day18.rs:28-57) is unfinished. It recomputes the part-1 sum, so `Day18.SolvePart2IsPart1` proves it equal to part 1. The source's own test expects 58 (rs/src/day18.rs:153), which needs the exterior surface that the code never computes, so 58 is neither modelled nor proved.
- `Day15.RowCoverage` is the source's sum of `end - start` over the merged ranges. `Day15.RowCoverageCells` relates it to the covered cells: it is the covered cell count less one per merged range. It therefore matches "cells where no beacon can be" only when each merged range on the row holds exactly one beacon. This is faithful to the code, and the model does not add the beacon count.
- `Day19.SolvePart2` returns `None` for fewer than three blueprints, where the source's slice `blueprints[0..3]` panics (rs/src/day19.rs:35).

### Fixed-width integers

- `Day01.Total`: calorie counts and totals are unbounded integers. The source's `i32` overflow is not modelled, because puzzle totals stay far below 2^31.
- `Day07.NeedsDeletion` is a precondition of `Day07.SolvePart2`. It rules out the `u32` underflow of the subtractions in `solve_part2` (rs/src/day7.rs:30-39). The model does not give a result for a disk that is fuller than its size, or one that already has enough free space.
- `Day11.Inspect`: worry levels are unbounded naturals. The `u64` overflow is not modelled. In part 2 the reduction modulo the common product keeps every value below the square of that product.
- `Day14.MoveDown`: `x` is an integer, so `x - 1` at `x = 0` gives -1. The source's `u32` subtraction (rs/src/day14.rs:147) would panic or wrap there instead. Sand starts at column 500 and moves at most one column per row, so puzzle inputs never reach column 0.
- `Day16.Valid`: a volcano is limited to at most 16 valves (`MaxValves`), so every mask fits the source's `u16`. Beyond that the masks are naturals, and `u16` wrap-around is not modelled.
- `Day19.Fits`: a parsed blueprint's numbers fit a `u16`, as `nom`'s `u16` parser demands. Resource and robot counts in a search state are unbounded naturals. The `u16` overflow there is not modelled, because a 32-minute search cannot collect 65536 of anything.
- `Day20.Decrypt`: values are unbounded integers. The source's `i64` product `decryption_key * e` (rs/src/day20.rs:32-35) and the sum of the grove coordinates could overflow, and that is not modelled. The model therefore matches the source only on inputs whose decrypted values and coordinate sums fit in an `i64`.
- `Day21.Apply`: registers hold unbounded integers. The source's `i64` `add`, `sub`, `mul` and `div` (rs/src/day21.rs:43-52) would overflow, panicking in a debug build and wrapping in a release build, and that is not modelled. The model therefore matches the source only on inputs whose intermediate values fit in an `i64`.
- `Day25.FromInt`: the conversion is defined on natural numbers instead of all of `i64`. `Day25.SolvePart1` returns `None` for a negative total, and `i64` overflow is not modelled.

### Bytes versus characters

- `Day03.NewRucksack`: strings are sequences of characters. The source halves the line by byte length and reads bytes, which agrees with the model only on ASCII input. Puzzle input is ASCII.
- `Day06.Marker`: windows are taken over characters. The source slices `&input[i..i + 4]` by bytes and would panic inside a multi-byte character. Puzzle input is ASCII.

### Panics stated as preconditions

- `Day06.MarkerAsWritten` and `Day06.Marker` require `width <= |s|`. On shorter input the source's `input.len() - 4` (rs/src/day6.rs:6, rs/src/day6.rs:20) underflows and panics.
- `Day20.MakeMove` requires at least two elements. With a single element, `rem_euclid` by `len - 1 == 0` (rs/src/day20.rs:48) panics.
- `Day16.MaxCombo` and `Day16.MaxComboAsWritten` require `Day16.EntranceLast`, meaning AA is the last key valve. The masks of `generate_remaining_combinations` (rs/src/day16.rs:216-219) cover every valve except the last one, and assume that one is the entrance. That holds when AA has flow 0, which puzzle inputs give it, but the source does not check it. For an input where AA has positive flow, the model says nothing.
- `Day17.SolvePart1` and `Day17.SolvePart2` require `Day17.ValidJets`: a non-empty pattern of `<` and `>`. The source would panic on any other character, and would never draw a jet from an empty cycle.

### Loops bounded in the model

- `Day14.PourUntilLost` returns `None` when a grain comes to rest on the source cell while that cell is taken. The source's `while let` loop (rs/src/day14.rs:24-26) would then pour the same grain forever.
- `Day22.Scan`: the walk past blank tiles stops after one lap of the row or column, and returns `None` when the budget runs out. The source loops until it meets a tile (rs/src/day22.rs:425-443). The model does not prove that one lap always suffices from an open tile.
- `Day23.SolvePart2` takes a `fuel` bound on the number of rounds and returns `None` when the elves do not settle within it. The source loops `for round in 1..` without a bound (rs/src/day23.rs:53-75).
- `Day17.SolvePart2` records the heights of `3 * |jets|` rocks, where `jets` is the trimmed pattern. The source takes `jet_pattern.len() * 3` of the untrimmed input (rs/src/day17.rs:33-34), so a trailing newline adds three rocks there.

### Example answers not proved

Stating these answers would mean unfolding every step of a whole puzzle on the example input inside one proof, and the model does not carry such proofs. The operations are modelled and their contracts proved for all inputs, but the answers to the following examples are not stated:

- `Day16.SolvePart1`: 1651 (rs/src/day16.rs:344).
- `Day16.MaxCombo`: 1707 (rs/src/day16.rs:349).
- `Day09.Solve`: 13 and 36 (rs/src/day9.rs:274, rs/src/day9.rs:280). Only the motion parser's examples are proved.
- `Day10.SolvePart1`: 13140 (rs/src/day10.rs:163). The small program's trace and its signal 0 are proved (`Day10.ExampleSmall`).
- `Day10.SolvePart2`: the six-line image (rs/src/day10.rs:167-176).
- `Day11.SolvePart1` and `Day11.SolvePart2`: 10605 and 2713310158 (rs/src/day11.rs:388, rs/src/day11.rs:393).
- `Day13.SolvePart2`: 140 (rs/src/day13.rs:198). The comparisons and part 1 (13) are proved.
- `Day14.SolvePart1` and `Day14.SolvePart2`: 24 and 93 (rs/src/day14.rs:256, rs/src/day14.rs:261).
- `Day15.SolvePart1` and `Day15.SolvePart2`: 26 and 56000011 (rs/src/day15.rs:224, rs/src/day15.rs:254-258). The example's ranges and merges are proved.
- `Day17.SolvePart1` and `Day17.SolvePart2`: 3068 and 1514285714288 (rs/src/day17.rs:303, rs/src/day17.rs:308). The heights of the source's small example chambers and the pattern matches are proved.
- `Day18.SolvePart1`: 64 (rs/src/day18.rs:148). Two adjacent cubes giving 10 is proved.
- `Day19.MaxGeodes`: 9 and 12 in 24 minutes, and 56 and 62 in 32 minutes (rs/src/day19.rs:446, rs/src/day19.rs:510, rs/src/day19.rs:522, rs/src/day19.rs:534). Also `simple_dfs`'s 9 (rs/src/day19.rs:590).
- `Day19.SolvePart1`: the quality sum 33 (rs/src/day19.rs:434).
- `Day20.SolvePart1` and `Day20.SolvePart2`: 3 and 1623178306 (rs/src/day20.rs:97, rs/src/day20.rs:102). The coordinates of the mixed example list (3) are proved by `Day20.ExampleCoordinates`.
- `Day22.SolvePart1` and `Day22.SolvePart2`: 6032 and 5031 as whole runs (rs/src/day22.rs:896, rs/src/day22.rs:902). The password of part 1's final position (6032) and the edge table's examples are proved.
- `Day23.SolvePart1`: 110 and 25 (rs/src/day23.rs:286, rs/src/day23.rs:298), and the test grove's bounds and 110 empty tiles (rs/src/day23.rs:327-329).
- `Day23.SolvePart2`: 20 (rs/src/day23.rs:292).
- `Day25.SolvePart1`: "2=-1=0" for the example list (rs/src/day25.rs:125). The conversion of its total, 4890, is proved (`Day25.Example4890`).

## Findings

Verifying the natural contracts showed four places where the code does not do what its own comments, tests or surrounding logic evidently intend. Nothing was executed.

| source | as written | input that shows it | evidently intended | confidence | as-written member | corrected member |
|---|---|---|---|---|---|---|
| rs/src/day16.rs:216-219 | the split masks range over `1..=half`, so the split that gives every valve to one agent and none to the other is never evaluated | AA with flow 0, plus one valve BB with flow 10 at distance 1: no pair is generated and `max_combo` yields 0 | 240, one agent opening BB in 26 minutes while the other stays idle | not executed | Day16.MaxComboAsWritten, Day16.SingleValveSplitMissed | Day16.MaxCombo |
| rs/src/day6.rs:6 | window starts range over `0..len - 4`, so the window ending at the last character is never examined, and input shorter than 4 underflows | `abcd`: no marker is found and the `unwrap` panics | 4, the end of the first all-distinct window | not executed | Day06.MarkerAsWritten, Day06.ShortInputMissed | Day06.Marker, Day06.MarkerAsWrittenDiffers |
| rs/src/day25.rs:53-64 | the offset of twos is as wide as `radix_5(value)`, but adding it can carry into one more digit | 3: `radix_5(3) = "3"`, the offset is 2, `radix_5(5) = "10"`, giving `-=`, which reads as -7 | `1=`, which reads as 3 | not executed | Day25.FromIntAsWritten, Day25.FromIntAsWrittenValue, Day25.ThreeAsWritten | Day25.FromInt, Day25.FromIntCanonical |
| rs/src/day21.rs:74 | with the variable on the right of `/`, the inverse step computes `other / x`, as for `*` | `12 / humn == 3`: the step gives `humn = 3 / 12 = 0`, which divides by zero | `humn = 12 / 3 = 4`, since `12 / 4 == 3` | not executed | Day21.UndoAsWritten, Day21.UndoAsWrittenDivideRight, Day21.Uneval, Day21.UnevalDivideRight | Day21.Undo, Day21.UndoRedo, Day21.RedoUndo, Day21.UnevalAgrees, Day21.UnevalSolves, Day21.SolveEquationBalances, Day21.SolvePart2Balances |
