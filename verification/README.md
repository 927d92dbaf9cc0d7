# Advent of Code 2022 puzzle solvers, modelled in Dafny

The repository solves the Advent of Code 2022 puzzles with one Python script per day. The scripts read a puzzle input, simulate or search, and print one number or one picture. This project models the puzzle logic of days 1 to 15, 17, 18, 21 and 22 as pure Dafny functions over immutable data. It also proves what each script promises. In outline:

- Day 1 (calorie counting): the blank-line grouping, and a top-k sum taken from a descending sort.
- Day 2 (rock paper scissors): the outcome and move rules and the score of a round.
- Day 3 (rucksacks): the priority of the common item, per rucksack and per group of three.
- Day 4 (camp cleanup): containment and overlap of section ranges, decided from their endpoints.
- Day 5 (supply stacks): parsing the crate drawing, and crane moves that keep every crate.
- Day 6 (tuning trouble): the first window of distinct characters.
- Day 7 (no space left): the directory tree a shell transcript builds, and the sizes of its directories.
- Day 8 (treetop tree house): visibility sweeps and scenic scores.
- Day 9 (rope bridge): a knot following the knot ahead of it, and the tail positions visited.
- Day 10 (cathode-ray tube): the register trace and the pixels of the screen.
- Day 11 (monkey in the middle): the game with plain integers, and the script that keeps worry levels reduced modulo the product of the divisors. Both give the same game.
- Day 12 (hill climbing): a level-by-level search that returns the length of the shortest climb.
- Day 13 (distress signal): the packet order, a selection sort and the divider insertion.
- Day 14 (regolith reservoir): sand grains falling into the cave until none comes to rest.
- Day 15 (beacon exclusion zone): the covered cells of a row, and the one spot no sensor reaches.
- Day 17 (pyroclastic flow): rocks pushed by jets and dropped into the chamber.
- Day 18 (boiling boulders): the surface area of the droplet, and a flood fill of the air around it.
- Day 21 (monkey math): evaluating the expression tree, and solving it for the human's number.
- Day 22 (monkey map): walking the board with wrap-around, and the password.

Python's raised exceptions become `Err("IndexError")`, `Err("ValueError")` and so on. They are the `Result`/`Option` values of `results.dfy`. Python's own string, slice and list behaviour is written out once, in `pytext.dfy`, `pyslice.dfy` and `seqs.dfy`. File input, argument parsing and printing are left out: each script's input lines become a parameter, and its printed number becomes the result.

Every module has an independent reference to check against, and a lemma ties each operation to it:

- the breadth-first search against the set of climbs (`ClimbIsShortest`);
- the remainder-tracking monkey script against the plain one (`TrackedMatchesPlain`);
- `SelectionSort` against sortedness and permutation;
- the day 15 answer against the unique unreached spot (`Part2Sound`);
- a falling rock against the chamber's invariant (`AddRockSound`);
- the flood fill against reachability by face steps (`MarchReaches`);
- the human's solved number against re-evaluating the tree (`SolveSound`);
- the path parser against rendering a path (`ParseRender`).

## Model

| member | source | states |
|---|---|---|
| CalorieCounting.ParseShownLines | day1/day1.py:34-36 | writing lines back as a file holds them (a blank line as a lone newline, an item as its number) and reading them again (`ParseLine`, line by line) gives the same lines; with `GroupSumsOfLayout` a file written group by group reads back to the groups' totals |
| CalorieCounting.ParseLines | day1/day1.py:28-36 | the file is accepted exactly when every line is, and line `i` of the result is the reading of raw line `i` |
| CalorieCounting.GroupSumsCount | day1/day1.py:34-39 | one total is recorded per blank line |
| CalorieCounting.TrailingGroupDropped | day1/day1.py:34-39 | item lines after the last blank line are never recorded: a final group without a closing blank line is lost |
| CalorieCounting.PendingOfItems | day1/day1.py:35-36 | after a blank line (or at the start) the running total over a group's items is their sum |
| CalorieCounting.PendingSnoc | day1/day1.py:35-36 | one more item line adds its calories to the running total |
| CalorieCounting.GroupSumsBlank | day1/day1.py:37-39 | a blank line appends the running total to the recorded totals |
| CalorieCounting.GroupSumsOfLayout | day1/day1.py:32-39 | reading back a file laid out group by group, each group closed by a blank line, recovers every group's total in order |
| CalorieCounting.SweepGroups | day1/day1.py:32-39 | the sweep over the lines records exactly the group totals defined line by line |
| CalorieCounting.TopOneIsMaximum | day1/day1.py:41-43 | with `--top-k 1` the answer is one of the totals and no total exceeds it |
| CalorieCounting.TopSumOfAll | day1/day1.py:41-43 | once `k` reaches the number of groups the answer is the sum of all totals (the `min` in the slice) |
| CalorieCounting.TopSumMonotone | day1/day1.py:41-43 | with non-negative totals, a larger `k` never gives a smaller answer |
| CalorieCounting.Answer | day1/day1.py:23-43 | `k <= 0` fails the assertion; otherwise the script answers exactly when every line parses |
| RockPaperScissors.DetermineOutcome | day2/day2.py:10-33 | 3 exactly when the codes match after shifting the second by 23, 6 exactly for differences -1 and 2, 0 exactly for 1 and -2, and NotImplementedError exactly when the codes are more than 2 apart |
| RockPaperScissors.OutcomeFollowsRules | day2/day2.py:10-33 | on the shapes A-C against X-Z the code arithmetic never raises: a draw is the same shape, a win beats the opponent's shape and a loss is beaten by it |
| RockPaperScissors.OutcomeToMove | day2/day2.py:36-63 | for an opponent shape the chosen move is always one of X, Y, Z |
| RockPaperScissors.OutcomeToMoveRoundTrip | day2/day2.py:36-63 | the move chosen for an outcome produces it when scored: X loses, Y draws and any other token wins |
| RockPaperScissors.RoundScore | day2/day2.py:90-91 | a round scores exactly when the outcome is defined, and on real shapes it is the puzzle's score: 1-3 for the shape plus 0, 3 or 6 |
| RockPaperScissors.TotalScoreConcat | day2/day2.py:83-91 | the total of a file is the sum of the totals of its parts, and it fails exactly when one part fails |
| RockPaperScissors.LineScoreByRules | day2/day2.py:84-91 | a well-formed line (split into two tokens by `Tokens`, each one character for `Ord`) scores by the rules of the game: the second column is the shape played in part 1, the requested outcome in part 2 |
| Rucksacks.Priority | day3/day3_part1.py:24-27 | lower-case items score 1-26 and upper-case items 27-52 |
| Rucksacks.PriorityOnto | day3/day3_part1.py:24-27 | every priority from 1 to 52 is the score of some letter |
| Rucksacks.PriorityInjective | day3/day3_part1.py:24-27 | two letters with the same priority are the same letter |
| Rucksacks.Halves | day3/day3_part1.py:21 | the two compartments put together give the line, the first holds `len // 2` items and the second at most one more |
| Rucksacks.FirstCommon | day3/day3_part1.py:22-23 | an item is found exactly when the two compartments share one, and it occurs in both |
| Rucksacks.FirstCommon3 | day3/day3_part2.py:22-23 | an item is found exactly when the three lines share one, and it occurs in all three |
| Rucksacks.FirstCommonOfSingleton | day3/day3_part1.py:22-23 | when the compartments share exactly one item, that item is the one found, whatever the set order |
| Rucksacks.FirstCommon3OfSingleton | day3/day3_part2.py:22-23 | when three lines share exactly one item, that item is the one found |
| Rucksacks.RucksackPriority | day3/day3_part1.py:21-27 | a line scores exactly when its halves share an item, and the score is the priority of a shared item; otherwise `[0]` raises IndexError |
| Rucksacks.BadgePriority | day3/day3_part2.py:22-27 | a group of three or more lines scores exactly when its first three lines share an item, and the score is the priority of a shared item; a shorter group or one without a shared item raises IndexError |
| Rucksacks.Groups | day3/day3_part2.py:18 | the lines are cut into `ceil(n / 3)` groups of three, the last holding the remainder (the slicing itself is `Chunks`, shaped by `ChunksShape`) |
| Rucksacks.GroupsConcat | day3/day3_part2.py:18 | the groups put back together give the lines |
| Rucksacks.SumResults | day3/day3_part1.py:19-27 | the running total succeeds exactly when every item's score does |
| Rucksacks.SumResultsConcat | day3/day3_part1.py:19-27 | the total over two runs of scores is the sum of their totals |
| Rucksacks.LineScores | day3/day3_part1.py:17-27 | line `i` is scored from raw line `i` after stripping |
| Rucksacks.Part1Succeeds | day3/day3_part1.py:17-29 | part 1 answers exactly when every stripped line has halves with an item in common |
| Rucksacks.GroupScores | day3/day3_part2.py:20-27 | group `g` is scored by its badge |
| Rucksacks.Part2 | day3/day3_part2.py:17-29 | a line count that is not a multiple of three makes part 2 fail, because the last group is short (`ShortGroupFails`, `LastGroupShort`) |
| Rucksacks.StripAll | day3/day3_part2.py:17 | line `i` of the result is raw line `i` stripped |
| Rucksacks.GroupsAt | day3/day3_part2.py:18 | group `g` holds lines `3g` to `3g + 2`, cut short at the end of the file |
| Rucksacks.GroupsConcatThree | day3/day3_part2.py:18 | a file whose first part is a whole number of groups is grouped part by part |
| Rucksacks.GroupScoreAt | day3/day3_part2.py:20-27 | with whole groups, group `g` scores exactly when its three stripped lines share an item |
| Rucksacks.Part2Succeeds | day3/day3_part2.py:17-29 | part 2 answers exactly when the line count is a multiple of three and the three stripped lines of every group share an item (`Shared`; through `WholeGroupsSucceed`) |
| Rucksacks.Part2Group | day3/day3_part2.py:20-29 | a file of one group whose lines share an item totals the priority of a shared item |
| Rucksacks.Part2Concat | day3/day3_part2.py:20-29 | the part-2 total of two files, the first a whole number of groups, is the sum of their totals (with `GroupScoresConcat` and `StripAllConcat`) |
| Rucksacks.LineScoresConcat | day3/day3_part1.py:17-27 | scoring two files read one after the other is scoring each in turn |
| Rucksacks.Part1Concat | day3/day3_part1.py:19-29 | the part-1 total of two files read one after the other is the sum of their totals |
| CampCleanup.Sections | day4/day4.py:32-33 | the sections of a range are exactly the integers from its start to its end, both included |
| CampCleanup.ContainmentByEndpoints | day4/day4.py:35-40 | for ranges written low to high, part 1 counts exactly the pairs where one range's endpoints lie within the other's |
| CampCleanup.OverlapByEndpoints | day4/day4.py:35-40 | for ranges written low to high, part 2 counts exactly the overlapping pairs |
| CampCleanup.EmptyRangeCounts | day4/day4.py:32-40 | a range written high to low is empty, lies inside any intersection, and so its pair is counted in both parts |
| CampCleanup.CountsSymmetric | day4/day4.py:35-40 | swapping the two elves does not change whether a pair is counted |
| CampCleanup.PartOneImpliesPartTwo | day4/day4.py:37-40 | every pair counted in part 1 is counted in part 2 (the `elif` still runs when there is no overlap) |
| CampCleanup.ParsePair | day4/day4.py:25-31 | an accepted line splits on the comma into exactly two ranges, and the pair holds the endpoints those two ranges read as |
| CampCleanup.ParseShowRange | day4/day4.py:29-31 | a range written `a-b` reads back as the range from `a` to `b` |
| CampCleanup.ParsePairShow | day4/day4.py:25-31 | a line written `a-b,c-d` parses back to the pair of those two ranges |
| CampCleanup.CountPairs | day4/day4.py:27-40 | the count never exceeds the number of pairs |
| CampCleanup.PartOneAtMostPartTwo | day4/day4.py:27-40 | the part-1 count never exceeds the part-2 count |
| CampCleanup.CountPairsSymmetric | day4/day4.py:27-40 | both counts are unchanged when every pair lists its elves the other way round |
| CampCleanup.Answer | day4/day4.py:25-42 | the printed count is at most the number of lines |
| CampCleanup.ParseAll | day4/day4.py:25-31 | the file is read line by line: pair `i` is the reading of line `i` |
| SupplyStacks.Chunks | day5/day5.py:23 | a drawing line of length `n` gives `ceil(n / 4)` chunks, each at most one character |
| SupplyStacks.ChunkIsColumnCharacter | day5/day5.py:23 | chunk `k` is the character at position `4k + 1` whenever the line reaches it |
| SupplyStacks.PlaceRow | day5/day5.py:24-27 | a row is placed exactly when every crate in it has a stack (IndexError otherwise); stack `k` gains crate `k` unless that is a space |
| SupplyStacks.PlaceRowsByColumn | day5/day5.py:22-27 | filling row by row gives every stack its column of the drawing, read bottom-up |
| SupplyStacks.LinesToStacks | day5/day5.py:10-29 | no lines raise IndexError; there are as many stacks as the stripped label line has non-space characters, and stack `k` is column `k` read from the bottom row up |
| SupplyStacks.ParseCommand | day5/day5.py:39-41 | a command line is accepted exactly when it has six space-separated tokens and tokens 2, 4 and 6 are integers (ValueError otherwise); the count and the 1-based stack numbers are those integers |
| SupplyStacks.ParseShowCommand | day5/day5.py:39-41 | the line `move n from a to b` written out for any command parses back to that command (through `ShowCommandWords`, which splits the written line back into its six words) |
| SupplyStacks.Move | day5/day5.py:68-73 | a move succeeds exactly when both stack numbers index the list (negatives count from the end), and every other stack is unchanged |
| SupplyStacks.MoveBlock | day5/day5.py:69-73 | moving `n` crates between two stacks cuts the top `n` off the source and puts them on the target, reversed for part 1 and in order for part 2 |
| SupplyStacks.MoveZeroTakesAll | day5/day5.py:69-73 | a count of 0 moves the whole source stack, because `[-0:]` is the whole list |
| SupplyStacks.MoveConserves | day5/day5.py:68-73 | a move neither creates nor destroys a crate |
| SupplyStacks.RunConserves | day5/day5.py:68-73 | the whole procedure keeps every crate and the number of stacks |
| SupplyStacks.TopCrates | day5/day5.py:75 | the message exists exactly when no stack is empty, and it is the top crate of every stack in order |
| SupplyStacks.FirstBlank | day5/day5.py:61 | the split is the first line that is exactly a newline, if any |
| TuningTrouble.ElementsCount | day6/day6.py:28 | a window has at most as many different characters as characters, and exactly as many when no character repeats |
| TuningTrouble.FindMarker | day6/day6.py:27-30 | a reported position ends a window of `len` different characters, and no earlier window has them; no report means no window anywhere has them |
| TuningTrouble.Marker | day6/day6.py:23-30 | an empty file raises IndexError; otherwise, on the stripped first line, with length 4 or 14 by part, the printed value ends a marker and no earlier window is one, and nothing is printed exactly when there is no marker |
| NoSpaceLeft.LookupFirst | day7/day7.py:85-86 | `Lookup` (`d.get(key)`) gives a value exactly when some entry holds the key with that value and no earlier entry has the key, so it gives nothing exactly when the key is absent |
| NoSpaceLeft.Assign | day7/day7.py:90-92 | after `d[key] = value` the key holds the value, every other key is unchanged, an existing key keeps its place and a new key goes last |
| NoSpaceLeft.AssignSame | day7/day7.py:90-92 | storing the value a key already holds changes nothing |
| NoSpaceLeft.SizeIsTotalOfFiles | day7/day7.py:37-47 | the size of a directory is the total of every file anywhere below it |
| NoSpaceLeft.SizeOfChildrenIsTotal | day7/day7.py:43-46 | the sizes of the subdirectories add up to the total of the files below them |
| NoSpaceLeft.DirSizesArePreOrder | day7/day7.py:10-20 | the collected sizes are the sizes of the directories strictly below, one each, in pre-order |
| NoSpaceLeft.ChildrenSizesArePreOrder | day7/day7.py:17-19 | the sizes collected from the subdirectories are, in order, the sizes of their descendants |
| NoSpaceLeft.DirSizesBounded | day7/day7.py:10-20 | with non-negative file sizes no collected size is negative or larger than the root's |
| NoSpaceLeft.ChildrenSizesBounded | day7/day7.py:17-19 | with non-negative file sizes each size collected from the subdirectories lies between 0 and their total |
| NoSpaceLeft.Up | day7/day7.py:82-83 | `cd ..` has a parent to go to exactly when the directory is not the root, and then drops the last step of the path |
| NoSpaceLeft.Down | day7/day7.py:84-86 | `cd name` succeeds exactly when `name` is a subdirectory (AssertionError otherwise), and moves into that subdirectory |
| NoSpaceLeft.DownUp | day7/day7.py:80-86 | `cd name` followed by `cd ..` returns to the same directory with the same contents |
| NoSpaceLeft.RootOfUp | day7/day7.py:49-56 | the root of the root is itself, and going up never changes the root |
| NoSpaceLeft.Step | day7/day7.py:79-92 | commands other than `cd` change nothing; `cd` goes up or down; a listing line that is not two tokens raises ValueError; `dir` adds an empty subdirectory and a size line records the file's integer; after leaving the root, `cd` and `dir` raise AttributeError |
| NoSpaceLeft.CdUpLine | day7/day7.py:79-83 | `$ cd ..` is a `cd` command whose last token is `..` |
| NoSpaceLeft.DirLine | day7/day7.py:88-90 | `dir a` is a listing line of two tokens, the first `dir` |
| NoSpaceLeft.DetachedStays | day7/day7.py:78-92 | once the current directory is `None` the replay never gets one back: it fails or ends without one |
| NoSpaceLeft.BuildTree | day7/day7.py:72-95 | a session that ends outside the root fails with AttributeError in `get_root` |
| NoSpaceLeft.LeaveRoot | day7/day7.py:82-83 | `cd ..` at the root leaves no current directory instead of failing |
| NoSpaceLeft.DetachedLines | day7/day7.py:79-92 | without a current directory `$ ls` changes nothing, a line that is not two tokens raises ValueError and `dir a` raises AttributeError |
| NoSpaceLeft.MalformedAfterLeavingRoot | day7/day7.py:78-92 | after leaving the root a malformed line raises ValueError before any attribute is read, while `dir a` raises AttributeError |
| NoSpaceLeft.Below | day7/day7.py:110 | the sizes kept for part 1 are exactly those under the bound |
| NoSpaceLeft.AtLeast | day7/day7.py:105-106 | the candidates for deletion are exactly the sizes at or above the bound |
| NoSpaceLeft.BelowAtLeastPartition | day7/day7.py:105-110 | the sizes under a bound and those at or above it together sum to all sizes |
| NoSpaceLeft.Part2 | day7/day7.py:101-107 | the answer is a collected size that frees enough space and no larger than any other that does; IndexError exactly when none does |
| TreetopTreeHouse.GetVisibleTrees | day8/day8_part1.py:10-24 | the running-maximum sweep answers exactly for non-empty lines (IndexError otherwise), and its flags are `VisibleFlags`: tree `k` is flagged 1 exactly when it is strictly taller than every tree before it |
| TreetopTreeHouse.ReversedSweep | day8/day8_part1.py:43 | sweeping a reversed line and reversing the flags back marks exactly the trees taller than everything after them |
| TreetopTreeHouse.CountedIffSeen | day8/day8_part1.py:35-57 | a tree is counted exactly when, along its row or its column (`Column`), every tree between it and some edge is shorter |
| TreetopTreeHouse.BorderCounted | day8/day8_part1.py:35-57 | every tree on the border is counted |
| TreetopTreeHouse.CountRow | day8/day8_part1.py:56-58 | a row contributes at most its width |
| TreetopTreeHouse.CountVisible | day8/day8_part1.py:56-58 | the count is at most the number of trees |
| TreetopTreeHouse.BorderRowCounted | day8/day8_part1.py:56-58 | the first and the last row count in full |
| TreetopTreeHouse.ViewDistance | day8/day8_part2.py:22-27 | looking along a view a tree sees at least one tree when there is one, every tree before the last seen is shorter, and the view stops at the first tree at least as tall |
| TreetopTreeHouse.Look | day8/day8_part2.py:22-27 | the loop with its early break counts exactly that viewing distance |
| TreetopTreeHouse.ScenicScoreBounds | day8/day8_part2.py:10-52 | an interior tree scores at least 1 and at most the product of its distances to the four edges |
| TreetopTreeHouse.GetScenicScore | day8/day8_part2.py:10-52 | the four loops sharing one counter compute the product of the four viewing distances, a direction with no trees leaving the score unchanged (`Factor`) |
| TreetopTreeHouse.BestScenicScoreIsBest | day8/day8_part2.py:62-68 | the printed maximum is not negative, no interior tree scores more, and it is either 0 or some interior tree's score |
| RopeBridge.KernelMembership | day9/day9.py:93-100 | the 4-kernel holds exactly the cells at Manhattan distance 1 from the offset, the 8-kernel exactly those at Chebyshev distance at most 1; `ConnectionKernel` gives the first for `'4'`, the second for `'8'` and NotImplementedError otherwise |
| RopeBridge.Only | day9/day9.py:57 | `list(s)[0]` of a one-element set is its element |
| RopeBridge.Follow | day9/day9.py:43-59 | a knot touching its parent does not move |
| RopeBridge.FollowStep | day9/day9.py:45-59 | a parent two cells away makes the knot step one cell towards it on each axis where they differ |
| RopeBridge.FollowDiagonal | day9/day9.py:46-55 | for a parent diagonally two cells away no orthogonal neighbour touches the knot and exactly one diagonal neighbour does |
| RopeBridge.FollowStraight | day9/day9.py:46-51 | for a parent two cells away on one axis exactly one orthogonal neighbour touches the knot |
| RopeBridge.Chase | day9/day9.py:43-59 | a follower moves by at most one cell per axis, answers exactly when its parent is at most two cells away, and then ends up touching it |
| RopeBridge.FollowIsChase | day9/day9.py:43-59 | the kernel-intersection rule (`Intersection` of the kernels), with its assertion, agrees with one step towards the parent on every offset |
| RopeBridge.NewKnot | day9/day9.py:16-26 | a new knot has recorded exactly its own position |
| RopeBridge.MoveHead | day9/day9.py:34-41 | L, R, U and D move the head by one cell along the named axis and record the new position; any other direction fails |
| RopeBridge.Pull | day9/day9.py:60-63 | the knots before `k` are unchanged and every knot from `k` on records its new position |
| RopeBridge.Step | day9/day9.py:28-63 | one head move keeps the rope's length and records one position for every knot |
| RopeBridge.GapsElsewhere | day9/day9.py:58-60 | moving one knot changes no gap except its own and its child's |
| RopeBridge.FollowerMoves | day9/day9.py:43-63 | a knot whose parent is at most two cells away ends up touching it, and its child is then at most two cells away |
| RopeBridge.PullTaut | day9/day9.py:62-63 | propagating through the children never trips the assertion and leaves every knot touching its parent |
| RopeBridge.StepTaut | day9/day9.py:28-63 | a rope whose knots all touch their parents keeps that property through any head move L, R, U or D |
| RopeBridge.NewRope | day9/day9.py:152-157 | the head and its `n` followers all start at the origin, touching |
| RopeBridge.Run | day9/day9.py:159-161 | running the moves keeps the rope's length |
| RopeBridge.RunTaut | day9/day9.py:159-161 | with valid directions the whole run succeeds, keeps the rope taut, records one position per head step for every knot, and the last recorded position is the knot's own (`Repeat` plays a movement its count of times) |
| RopeBridge.VisitedCount | day9/day9.py:166 | the tail visits at most as many different cells as it recorded positions after the first |
| RopeBridge.ParseMovement | day9/day9.py:148-150 | a line is accepted exactly when it splits into two tokens and the second is an integer, and then it is that direction and count |
| CathodeRayTube.Cycles | day10/day10_part1.py:19-29 | a program takes exactly one cycle per instruction plus one more per `addx` (`AddxCount`) |
| CathodeRayTube.ParseForTrace | day10/day10_part1.py:20-24 | exactly `noop` is a no-op; every other line is accepted exactly when its last token is an integer, and adds it |
| CathodeRayTube.ParseForCrt | day10/day10_part2.py:45-51 | a line starting with `addx` is accepted exactly when its last token is an integer and adds it; every other line only draws |
| CathodeRayTube.Trace | day10/day10_part1.py:17-29 | both lists start at 1 and get one entry per cycle |
| CathodeRayTube.DuringIsPreviousAfter | day10/day10_part1.py:19-29 | the value during a cycle is the value after the previous cycle |
| CathodeRayTube.AddedBeforeAll | day10/day10_part1.py:19-29 | after the last instruction has finished, the register no longer changes |
| CathodeRayTube.AddedBeforeLater | day10/day10_part1.py:23-29 | an instruction that has not finished contributes nothing |
| CathodeRayTube.TraceIsRegister | day10/day10_part1.py:17-29 | the value during cycle `p` is 1 plus the operands of the `addx` instructions finished before it, and the value after it also counts the one finishing in it |
| CathodeRayTube.SignalStrengthOfRegister | day10/day10_part1.py:31-35 | the part-1 sum (`SignalStrength`, over the cycles 20, 60, ..., 220 of `SamplePositions`) in terms of the register: the sum over the sampled cycles of cycle times 1 plus the operands finished before it |
| CathodeRayTube.Render | day10/day10_part2.py:32 | the image is as long as its rows plus one newline per row (see also line 42) |
| CathodeRayTube.RenderJoin | day10/day10_part2.py:32 | the printed image is the rows joined at newlines, ending in a newline (through `JoinNewline` and `PyText.JoinSnoc`); see also line 42 |
| CathodeRayTube.RenderSplit | day10/day10_part2.py:32 | splitting the printed image at newlines gives back the rows, in order, followed by the empty piece after the final newline, when no row holds a newline |
| CathodeRayTube.Expected | day10/day10_part2.py:30-51 | the pixels predicted from the register trace: one per cycle |
| CathodeRayTube.FlushKeeps | day10/day10_part2.py:31-33 | the reset moves a full row into the image and changes nothing else, leaving room for another pixel |
| CathodeRayTube.DrawAppends | day10/day10_part2.py:35-39 | drawing adds the pixel for the current counter and sprite |
| CathodeRayTube.ExecuteDraws | day10/day10_part2.py:30-51 | one instruction draws one pixel per cycle with the sprite where it was, then an `addx` moves the sprite by its operand |
| CathodeRayTube.ExpectedStep | day10/day10_part2.py:30-51 | an instruction adds one predicted pixel for `noop` and two for `addx`, both with the sprite at the register's value |
| CathodeRayTube.RunCrtDraws | day10/day10_part2.py:26-51 | the display draws exactly the pixels the part-1 register trace predicts, one per cycle, and ends with the sprite at the register's last value (each pixel as `Pixel` draws it) |
| CathodeRayTube.PendingRowDropped | day10/day10_part2.py:41-53 | when the last pixel completes a row and comes from an `addx`, that row is never moved into the printed image |
| WorryLevels.ModulusIsProduct | day11/day11.py:52 | the modulus is the product of the default divisors 3, 13, 2, 11, 19, 17, 5 and 7 (see also lines 114-116) |
| WorryLevels.DividendsDivideModulus | day11/day11.py:52 | every default divisor divides the modulus |
| WorryLevels.DivTest | day11/day11.py:101-107 | with a non-zero divisor the test is true exactly when the divisor divides the level; a zero divisor raises |
| WorryLevels.Reduce | day11/day11.py:109-116 | a level below the modulus is kept, a larger one becomes its non-negative remainder, and the result is below the modulus |
| WorryLevels.CongruentMultiple | day11/day11.py:45-51 | two levels are congruent exactly when they differ by a multiple of the modulus |
| WorryLevels.CongruentTests | day11/day11.py:101-107 | congruent levels pass and fail the same test for every divisor of the modulus |
| WorryLevels.ReduceCongruent | day11/day11.py:109-116 | reducing keeps the level congruent to the unreduced one |
| WorryLevels.ReduceKeepsTests | day11/day11.py:109-116 | reducing keeps the outcome of every default test |
| WorryLevels.MulCongruent | day11/day11.py:82-91 | multiplying (`Mul`: by the factor, or squaring for `old`) congruent levels gives congruent levels |
| WorryLevels.AddCongruent | day11/day11.py:93-99 | adding a number to congruent levels gives congruent levels (`Add` of `old` raises TypeError instead) |
| WorryLevels.CongruentTransitive | day11/day11.py:45-51 | congruence is transitive |
| MonkeyInTheMiddle.Apply | day11/day11.py:150-154 | the operation succeeds except when the combined script adds `old`, and then gives `old * x` or `old + x` |
| MonkeyInTheMiddle.Examine | day11/day11_part1.py:78-88 | the front item is inspected and the count goes up; with division by three the level is the floor of a third; without, it is exact in the plain script and a congruent level below the modulus in the combined one (day11.py:148-172); the level's divisibility picks the target; a zero divisor raises |
| MonkeyInTheMiddle.Inspections | day11/day11_part1.py:35 | entry `k` is monkey `k`'s inspection count |
| MonkeyInTheMiddle.Catch | day11/day11_part1.py:34 | a throw succeeds exactly when the target indexes the list (negatives count from the end), appends the item to the target and changes no other monkey |
| MonkeyInTheMiddle.Step | day11/day11_part1.py:32-34 | an inspection needs an existing monkey with an item to pop, keeps the number of monkeys and takes at most one item from the thrower |
| MonkeyInTheMiddle.TurnStepsKeep | day11/day11_part1.py:31-34 | inspections keep the rules and the number of items in play, count one per item for the monkey and none for the others, and leave it the items not yet inspected (items counted by `Holdings`) |
| MonkeyInTheMiddle.StepKeeps | day11/day11_part1.py:32-34 | one inspection and throw keeps the rules and the items in play, and adds one to the thrower's count only |
| MonkeyInTheMiddle.StepFacts | day11/day11_part1.py:32-34 | popping the front item and appending a level to the target keeps the rules and the items in play |
| MonkeyInTheMiddle.Turn | day11/day11_part1.py:31-34 | a turn keeps the number of monkeys |
| MonkeyInTheMiddle.RoundFrom | day11/day11.py:30-34 | the rest of a round keeps the number of monkeys, and in the combined script a single monkey raises IndexError in `get_monkey_business` |
| MonkeyInTheMiddle.RoundFromKeeps | day11/day11_part1.py:30-34 | the rest of a round keeps the rules and the items in play, never lowers a count and leaves the counts of monkeys already done |
| MonkeyInTheMiddle.Round | day11/day11_part1.py:30-34 | a round keeps the number of monkeys |
| MonkeyInTheMiddle.Play | day11/day11_part1.py:22-35 | the history has one entry per round |
| MonkeyInTheMiddle.LaterPreorder | day11/day11_part1.py:22-35 | being a later state of the same game is reflexive and transitive |
| MonkeyInTheMiddle.RoundIsLater | day11/day11_part1.py:29-35 | a round leads to a later state: same rules, same items in play, no smaller count |
| MonkeyInTheMiddle.PlayHistory | day11/day11_part1.py:22-35 | the game keeps the rules and the items in play; the history has one row of counts per round, each between the starting and the final counts, the last being the final counts |
| MonkeyInTheMiddle.MonkeyBusiness | day11/day11_part1.py:37-45 | the monkey business exists exactly when there are at least two monkeys |
| MonkeyInTheMiddle.MonkeyBusinessIsBest | day11/day11_part1.py:37-45 | the monkey business is the largest product of the counts of two different monkeys, and some pair attains it |
| MonkeyInTheMiddle.TracksAll | day11/day11.py:45-51 | the combined script tracks the plain game exactly when each monkey holds congruent stand-ins for the plain items |
| MonkeyInTheMiddle.ReducibleKept | day11/day11.py:141-172 | the conditions the combined script needs survive every change that keeps the rules |
| MonkeyInTheMiddle.OperationCongruent | day11/day11.py:150-154 | the operation keeps congruent levels congruent |
| MonkeyInTheMiddle.ExamineTracks | day11/day11.py:141-172 | without division by three one inspection in the combined script throws a congruent item to the same monkey as the plain game |
| MonkeyInTheMiddle.AppendTracks | day11/day11.py:34 | appending congruent items keeps the tracking |
| MonkeyInTheMiddle.StepTracks | day11/day11.py:33-34 | one inspection and throw succeeds in both games or in neither, and keeps the tracking |
| MonkeyInTheMiddle.TurnStepsTrack | day11/day11.py:32-34 | a turn succeeds in both games or in neither, and keeps the tracking |
| MonkeyInTheMiddle.RoundFromTracks | day11/day11.py:30-34 | the rest of a round succeeds in both games or in neither, and keeps the tracking |
| MonkeyInTheMiddle.TracksInspections | day11/day11.py:41 | tracking games have the same inspection counts |
| MonkeyInTheMiddle.RoundTracks | day11/day11.py:29-34 | a round keeps the tracking and gives the same counts in both games |
| MonkeyInTheMiddle.TrackedMatchesPlain | day11/day11.py:203-207 | when no monkey adds an item to itself and every divisor divides the modulus, part 2 of the combined script plays the plain game: the same counts after every round and the same monkey business |
| MonkeyInTheMiddle.NoSelfAdditionKept | day11/day11.py:93-99 | that no monkey adds an item to itself survives every change that keeps the rules |
| MonkeyInTheMiddle.DecreasingScriptsAgree | day11/day11.py:159-167 | with division by three both scripts play the same game, as long as no monkey adds an item to itself |
| MonkeyInTheMiddle.RoundsAgree | day11/day11.py:159-167 | with division by three, the rest of a round is the same in both scripts |
| MonkeyInTheMiddle.TurnsAgree | day11/day11.py:159-167 | with division by three, a turn is the same in both scripts |
| MonkeyInTheMiddle.StartingItems | day11/day11_part1.py:102-103 | the items line is read exactly when every word after the first two, commas dropped, is an integer (ValueError otherwise), and the items are those integers in order (through `Ints`, the list comprehension over the words) |
| MonkeyInTheMiddle.ParseItemsLine | day11/day11_part1.py:102-103 | `Starting items: 79, 98` written out for any list of integers, the empty one included, reads back as that list |
| MonkeyInTheMiddle.OperationTokens | day11/day11_part1.py:104 | the operator and the operand are the last two words of the line; a line of fewer than two words cannot be unpacked (ValueError) |
| MonkeyInTheMiddle.ReadOperand | day11/day11_part1.py:65 | the operand is `old` exactly for the word `old`; any other word must be an integer (ValueError otherwise) and gives that integer |
| MonkeyInTheMiddle.ParseOperation | day11/day11_part1.py:104 | the last two tokens are the operator and the operand, which is `old` or an integer (see also line 65) |
| MonkeyInTheMiddle.ParseOperationLine | day11/day11_part1.py:104 | `Operation: new = old * x`, with `+` or with `old` for `x`, written out reads back as its operator and operand |
| MonkeyInTheMiddle.ParseLastNumber | day11/day11_part1.py:105-107 | a line that ends in a space and a written integer, such as `Test: divisible by 23`, gives that integer |
| MonkeyInTheMiddle.ParseMonkey | day11/day11_part1.py:102-111 | a monkey is read exactly when its five lines exist (`Line` raises IndexError) and each of them reads; it has no inspections, and its operation is that of its operation line; the operand word is converted last, by the constructor (line 65), so a missing test line raises IndexError even when the operand is not an integer |
| MonkeyInTheMiddle.ParseBlock | day11/day11_part1.py:101-112 | the lines written for a monkey with no inspections read back as that monkey |
| MonkeyInTheMiddle.ParseMonkeys | day11/day11_part1.py:100-112 | the input is read in blocks of seven lines (`Blocks`, the last one possibly short): it is accepted exactly when every block reads as a monkey, giving one monkey per block in order, and otherwise raises the error of the first block that fails |
| MonkeyInTheMiddle.ParseRender | day11/day11_part1.py:100-112 | the whole input written for monkeys with no inspections, seven lines per monkey, reads back as those monkeys |
| HillClimbing.Elevation | day12/day12.py:118-123 | `a`..`z` become 1..26, `S` becomes 0 and `E` becomes 27 |
| HillClimbing.ElevationOrder | day12/day12.py:121-123 | elevations keep the alphabetical order of the letters, with the start below and the summit above all of them |
| HillClimbing.ParseGridLetters | day12/day12.py:118-123 | on a map drawn with `a`..`z`, `S` and `E`, the grid (`ParseGrid`: one row per stripped line) has a square for every letter, and it lies at 0 exactly under `S`, at 1 exactly under `a` and at the summit exactly under `E` |
| HillClimbing.Neighbours | day12/day12.py:21-37 | the four candidates are exactly the orthogonal neighbours |
| HillClimbing.Admit | day12/day12.py:20-41 | the admitted squares are exactly the candidates that are legal moves and not yet visited, each once, and they become visited |
| HillClimbing.ValidLocations | day12/day12.py:11-41 | the valid locations are exactly the unvisited squares one legal move away (on the map, at most one higher), each once, and they become visited |
| HillClimbing.Expand | day12/day12.py:70-76 | a level's children are exactly the unvisited squares one legal move from some square of the level, each once, and they become visited |
| HillClimbing.Propagate | day12/day12.py:63-86 | the result is -1 or a depth beyond the current level |
| HillClimbing.Climb | day12/day12.py:131-136 | the search from a start square gives -1 or a positive depth |
| HillClimbing.Bfs | day12/day12.py:63-86 | each breadth-first layer lies within the squares seen so far |
| HillClimbing.ExpandIsSucc | day12/day12.py:70-76 | the children are the successors of the level (`Succ`: the squares of the grid, `AllCells`, one legal move from a member) minus the visited squares |
| HillClimbing.EmptyLayersStay | day12/day12.py:78-79 | once a layer is empty no later layer holds the summit |
| HillClimbing.EmptyLayerStays | day12/day12.py:78-79 | once a layer is empty every later layer is empty |
| HillClimbing.FirstSummitLayer | day12/day12.py:84-86 | the first summit layer after `k + 1`, when layer `k + 1` lacks the summit, is the first one after `k` |
| HillClimbing.PropagateLevel | day12/day12.py:70-86 | one level of `propagate`: -1 on no children, the child depth when a child is the summit, otherwise the child's search |
| HillClimbing.SummitLevel | day12/day12.py:84 | `27 in child_elevations` holds exactly when the level's set of squares holds the summit |
| HillClimbing.ExpandIsNextLayer | day12/day12.py:70-76 | expanding breadth-first layer `k` gives layer `k + 1` and marks the squares seen within `k + 1` moves |
| HillClimbing.PropagateFollowsLayers | day12/day12.py:63-86 | `propagate` returns the depth of the first layer holding the summit, and -1 only when no later layer does |
| HillClimbing.PathSnoc | day12/day12.py:11-37 | appending a legal move extends a climb |
| HillClimbing.LayerReached | day12/day12.py:63-86 | every square of layer `k` is reached by a climb of `k` moves |
| HillClimbing.SeenLayers | day12/day12.py:63-86 | a square seen within `k` moves lies on some layer up to `k` |
| HillClimbing.SeenGrows | day12/day12.py:24-37 | the seen squares only grow |
| HillClimbing.ClimbSeen | day12/day12.py:63-86 | the end of any climb of `n` moves is seen within `n` moves |
| HillClimbing.ClimbIsShortest | day12/day12.py:131-136 | a search result other than -1 is the length of some climb to the summit and no climb to the summit is shorter; -1 means there is none |
| HillClimbing.RowZeros | day12/day12.py:99 | the zeros of a row, left to right |
| HillClimbing.ZeroCells | day12/day12.py:99 | `np.where(grid == 0)` lists exactly the zero squares, in row-major order |
| HillClimbing.StartingPositions | day12/day12.py:89-102 | the start squares are exactly the 0 squares, plus the 1 squares in part 2, in row-major order, and part 2 leaves the grid with every 0 raised to 1 |
| HillClimbing.Found | day12/day12.py:127-138 | `path_lenghts` holds exactly the results other than -1 of the start squares' searches |
| HillClimbing.AnswerIsShortest | day12/day12.py:125-140 | the answer is the length of the shortest climb from any start square to the summit; `min` of an empty list raises ValueError exactly when no start square has one |
| DistressSignal.CompareIntegers | day13/day13.py:28-33 | two integers are 'equal', 'smaller' or 'larger' exactly as their values compare |
| DistressSignal.ComparePromotes | day13/day13.py:35-36 | an integer against a list compares as the one-element list holding it |
| DistressSignal.CompareViaLists | day13/day13.py:35-49 | every comparison is the item-by-item comparison of both sides as lists, the first non-equal item deciding and otherwise the shorter list being 'smaller' (`ToList` wraps an integer) |
| DistressSignal.CompareFlips | day13/day13.py:21-49 | swapping the packets turns 'smaller' into 'larger' and back and keeps 'equal' |
| DistressSignal.CompareListsFlip | day13/day13.py:38-49 | swapping two lists flips their comparison |
| DistressSignal.CompareReflexive | day13/day13.py:21-49 | every packet is 'equal' to itself |
| DistressSignal.CompareListsReflexive | day13/day13.py:38-49 | every list is 'equal' to itself |
| DistressSignal.CompareTransitive | day13/day13.py:21-49 | "not larger" is transitive, and strictly so when either step is 'smaller' |
| DistressSignal.CompareListsTransitive | day13/day13.py:38-49 | the list comparison is transitive in the same way |
| DistressSignal.Smallest | day13/day13.py:61-65 | the scan ends on a packet no other packet is 'smaller' than |
| DistressSignal.Without | day13/day13.py:66 | `pop` removes exactly one copy of the packet at the index |
| DistressSignal.NextIndex | day13/day13.py:61-66 | the packet popped next is not 'larger' than any packet left |
| DistressSignal.SelectionSort | day13/day13.py:52-67 | `sort_packets` returns a permutation of its input in which no packet is 'larger' than a later one |
| DistressSignal.SmallestFirst | day13/day13.py:66 | the smallest packet before a sorted arrangement of the others gives a sorted list |
| DistressSignal.PairKeptIffOrdered | day13/day13.py:110-112 | sorting a pair leaves it as it is exactly when the first packet is not 'larger' than the second |
| DistressSignal.SortOne | day13/day13.py:59-66 | a single packet sorts to itself |
| DistressSignal.SortTwo | day13/day13.py:59-66 | a pair sorts to itself when in order, and swapped otherwise |
| DistressSignal.SortTwoKept | day13/day13.py:59-66 | a pair in order sorts to itself |
| DistressSignal.SortTwoSwapped | day13/day13.py:59-66 | a pair out of order sorts swapped |
| DistressSignal.InsertFrom | day13/day13.py:77-80 | -1 with the list unchanged exactly when the packet is 'smaller' than none of the remaining ones; otherwise the packet goes in before the first one it is 'smaller' than and the answer is that position plus one |
| DistressSignal.CountNotBelowPermutation | day13/day13.py:77-80 | the number of packets the new one is not 'smaller' than does not depend on their order |
| DistressSignal.CountWithout | day13/day13.py:66 | popping a packet takes its share out of the count |
| DistressSignal.InsertPosition | day13/day13.py:70-80 | in a sorted list the packet lands at the 1-based position one past the packets it is not 'smaller' than, and the list stays sorted; -1 exactly when it is not 'smaller' than any |
| DistressSignal.CountSplit | day13/day13.py:77-79 | when the first `n` packets are not above the new one and the rest are, the count is `n` |
| DistressSignal.InsertKeepsSorted | day13/day13.py:79 | inserting before the first packet the new one is 'smaller' than keeps a sorted list sorted |
| DistressSignal.DecoderKeyCounts | day13/day13.py:114-120 | when some packet sorts after `[[6]]` the decoder key is (packets not above `[[2]]` + 1) * (packets not above `[[6]]` + 2) |
| DistressSignal.KeyCounts | day13/day13.py:114-120 | the same for any two dividers, the first 'smaller' than the second |
| DistressSignal.DividersOrdered | day13/day13.py:115-118 | `[[2]]` is 'smaller' than `[[6]]` |
| DistressSignal.SomeAfter | day13/day13.py:110 | a packet that sorts after a divider is still in the sorted list |
| DistressSignal.InsertBelow | day13/day13.py:115-116 | inserting the first divider before a packet it is below gives its counted position and a sorted list |
| DistressSignal.InsertSecond | day13/day13.py:117-118 | inserting the second divider after the first gives its count plus two |
| DistressSignal.CountInserted | day13/day13.py:117-118 | the first divider adds one to the count of the second |
| DistressSignal.Pairs | day13/day13.py:104-106 | the packets pair up two at a time in order; an odd count raises IndexError |
| DistressSignal.RightOrderPositionsListed | day13/day13.py:108-112 | a position is listed exactly when its pair is in the right order, and the positions increase |
| DistressSignal.ScoreSumsRightOrder | day13/day13.py:108-112 | the part 1 total is the sum of the positions of the pairs in the right order |
| DistressSignal.ScoreStep | day13/day13.py:109-112 | one more pair adds its position exactly when it is in the right order |
| DistressSignal.PositionsSumStep | day13/day13.py:109-112 | the sum of the listed positions grows the same way |
| DistressSignal.Part1 | day13/day13.py:104-122 | part 1 succeeds exactly for an even number of packets and gives the sum of the positions of the pairs in the right order |
| FallingSand.RectSymmetric | day14/day14.py:20-23 | the rectangle of two corners (`Rect`) does not depend on their order |
| FallingSand.RectMonotone | day14/day14.py:20-26 | a rectangle lies in every rectangle whose corners bound its own |
| FallingSand.PathRocks | day14/day14.py:272-277 | the rocks of a path cover the rectangle of every consecutive pair of points, read as (row, column) |
| FallingSand.PathRocksOnSegment | day14/day14.py:272-277 | every rock cell of a path lies on the rectangle of some consecutive pair of points, so with `PathRocks` the path is exactly the union of its segments |
| FallingSand.NormaliseAligns | day14/day14.py:54-64 | after the shift every rock lies in the box from row and column 0 to the largest rock row and column, the origin is at non-negative coordinates, and each box edge is touched (`Normalise` fails on an empty rock set) |
| FallingSand.FloorCloses | day14/day14.py:89-93 | every cell of the new last row, and the one left of it, is rock, and the older rocks end two rows higher (after `AddGroundFloor`) |
| FallingSand.NewCave | day14/day14.py:44-70 | building the cave fails exactly for an empty rock set |
| FallingSand.BorderCells | day14/day14.py:96-109 | the abyss border is exactly the columns either side of the box down to the row under it, plus that row, and lies outside the box (see also lines 201-209) |
| FallingSand.Fall | day14/day14.py:223-243 | a grain stays put exactly when the three cells under it are filled; otherwise it moves to a free one of them, preferring down, then down-left, then down-right |
| FallingSand.Pour | day14/day14.py:211-251 | the grain comes to rest on a free cell (or its start) below its start, inside the fan it can reach, whose cells under it are filled, never at the origin; it stops with no rest when a free cell under it is on the border; from inside the box it never recurses for ever and rests inside |
| FallingSand.BelowBoxFallsForever | day14/day14.py:223-243 | below the box no cell is filled or on the border, so the grain keeps falling |
| FallingSand.PourOne | day14/day14.py:211-251 | one grain keeps rocks, origin and box; it either leaves the cave unchanged (False) or adds one resting grain on a free cell whose cells under it are filled (True) |
| FallingSand.PourAll | day14/day14.py:285-288 | pouring until `pour_sand` returns False keeps the rocks, only adds sand, and ends in a cave where the next grain does not rest; from inside the box it ends with all sand in the box |
| FallingSand.PourTakesReach | day14/day14.py:245-251 | a resting grain takes a free cell the origin can reach (`Reach`: one row down and at most one column aside per row), so the loop ends, and it lies in the box when the origin does |
| FallingSand.RestingSand | day14/day14.py:281-293 | the printed count is the resting grains plus one in part 2, at most the box's cell count (plus one) |
| FallingSand.BoxSize | day14/day14.py:201-209 | the box (`BoxCells`, the cells inside the borders) has (rows + 1) * (columns + 1) cells |
| FallingSand.RowsSize | day14/day14.py:201-209 | a grid (`Grid`) of `rows` rows and `cols` columns has `rows * cols` cells |
| FallingSand.GridLastRow | day14/day14.py:201-209 | a grid is the grid one row shorter plus its last row |
| BeaconExclusion.ManhattanMetric | day15/day15_part1.py:9-16 | the Manhattan distance is non-negative, zero exactly on equal cells, symmetric and obeys the triangle inequality |
| BeaconExclusion.KernelInRow | day15/day15_part1.py:19-31 | the kernel holds exactly the cells of the row within the distance of the centre |
| BeaconExclusion.KernelMember | day15/day15_part1.py:19-31 | a cell is in the kernel exactly when it is in the row and within the distance |
| BeaconExclusion.KernelSize | day15/day15_part1.py:28-30 | the row meets the diamond in 2 * (distance - row offset) + 1 cells, and not at all when it is farther than the distance |
| BeaconExclusion.CoveredInRow | day15/day15_part1.py:52-55 | the union of the kernels is exactly the row's cells some sensor reaches |
| BeaconExclusion.Excluded | day15/day15_part1.py:52-58 | the excluded cells are exactly those of the row that some sensor reaches and that are neither a sensor nor a known beacon |
| BeaconExclusion.Part1 | day15/day15_part1.py:51-60 | the answer counts the excluded cells of row 2000000, at most the covered ones |
| BeaconExclusion.DiamondExact | day15/day15_part2.py:42-54 | the four zipped sides hold exactly the cells at the given distance |
| BeaconExclusion.BorderKernel | day15/day15_part2.py:33-59 | the border kernel holds only cells at exactly the distance that lie in the square [0, max]^2 |
| BeaconExclusion.BorderComplete | day15/day15_part2.py:33-59 | every cell of the square at exactly the distance is in the border kernel |
| BeaconExclusion.Candidates | day15/day15_part2.py:80-85 | every candidate lies in the square, one step outside some sensor's radius |
| BeaconExclusion.CandidatesComplete | day15/day15_part2.py:80-85 | every cell of the square one step outside some sensor's radius is a candidate |
| BeaconExclusion.CandidatesSplit | day15/day15_part2.py:83-85 | the candidates are the first sensor's border plus those of the others |
| BeaconExclusion.Select | day15/day15_part2.py:20-30 | the selection keeps exactly the entries farther than the distance from the centre, without adding duplicates |
| BeaconExclusion.FilterAll | day15/day15_part2.py:91-93 | after filtering for every sensor exactly the candidates no sensor reaches remain |
| BeaconExclusion.Enumerate | day15/day15_part2.py:90 | the array lists every element of the set once |
| BeaconExclusion.Part2 | day15/day15_part2.py:78-97 | the answer exists exactly when one candidate survives, and is its tuning frequency (column * 4000000 + row); otherwise the assertion fails, or numpy raises ValueError on an empty candidate array |
| BeaconExclusion.DistinctCount | day15/day15_part2.py:95 | a duplicate-free list is as long as the set it lists, and a one-element one names it |
| BeaconExclusion.FrequencyDecodes | day15/day15_part2.py:96-97 | inside the square the frequency determines the spot |
| BeaconExclusion.Part2Sound | day15/day15_part2.py:78-97 | an answer is the frequency of a spot in the square that no sensor reaches, one step outside some sensor's radius, and the only such spot |
| BeaconExclusion.HiddenSingleton | day15/day15_part2.py:91-95 | the one survivor is in the square, unreached, on some sensor's ring, and the only such cell |
| BeaconExclusion.HiddenComplete | day15/day15_part2.py:80-93 | every unreached cell of the square on some sensor's ring survives the filtering |
| FallingRocks.ShapeBounds | day17/day17_part1.py:22-31 | every shape starts in row 0, is at most four rows tall and keeps to columns 3 to 6, two units from the left wall |
| FallingRocks.ShapeSize | day17/day17_part1.py:22-31 | every shape has four or five cells |
| FallingRocks.CellsMember | day17/day17_part1.py:32 | a cell belongs to a rock exactly when it is a shape cell shifted by the rock's offset |
| FallingRocks.CellsTranslate | day17/day17_part1.py:32 | a rock's cells are its shape translated by its offset, with as many cells |
| FallingRocks.SpawnCells | day17/day17_part1.py:32 | a new rock (`Spawn`) holds the shape's cells lifted by the offset |
| FallingRocks.RockBounds | day17/day17_part1.py:22-32 | a rock spans at most four rows from its offset, keeps to columns 3 to 6 shifted by its column, and has a cell in its lowest row |
| FallingRocks.MoveRock | day17/day17_part1.py:34-46 | moving keeps the shape |
| FallingRocks.MoveCells | day17/day17_part1.py:39-46 | `<`, `>`, `down` and any other direction move every cell one unit left, right, down or up |
| FallingRocks.MoveMember | day17/day17_part1.py:39-46 | a cell is in the moved rock exactly when the cell one step back is in the rock |
| FallingRocks.HitsMeet | day17/day17_part1.py:121 | a hit is a non-empty intersection with the parts (see also line 129) |
| FallingRocks.Push | day17/day17_part1.py:117-122 | the jet's move is kept when it hits nothing; for `<` or `>` a hit moves the rock back to where it was; the shape is kept |
| FallingRocks.MaxRow | day17/day17_part1.py:49-55 | the highest row of a set of cells, and 0 for none |
| FallingRocks.KindCycles | day17/day17_part1.py:158-164 | the shapes come round in the order 1, 2, 3, 4, 5, 1, ... |
| FallingRocks.JetCycles | day17/day17_part1.py:166-172 | the jet index advances modulo the pattern's length |
| FallingRocks.AddWall | day17/day17_part1.py:148-156 | both walls gain exactly the rows from the current top of the left wall up to the height, nothing else changes |
| FallingRocks.WallRows | day17/day17_part1.py:154-156 | the loop adds exactly rows `from` to `height` to both walls |
| FallingRocks.Fall | day17/day17_part1.py:113-133 | a fall that ends adds the final rock's cells to the stopped rocks, moves only the jet index, keeps the shape, and the rock one row lower would hit the floor or a stopped rock; one that does not end is a RecursionError |
| FallingRocks.Round | day17/day17_part1.py:117-133 | one push and one drop, with the same guarantees |
| FallingRocks.AddRock | day17/day17_part1.py:84-94 | a new rock keeps the jets and the floor, advances the shape and only adds stopped cells |
| FallingRocks.InitialSound | day17/day17_part1.py:71-82 | a new tower has a nine-wide floor, walls up to row 3 and no rocks |
| FallingRocks.PushInShaft | day17/day17_part1.py:117-122 | a push keeps a rock between the walls and off the stopped rocks |
| FallingRocks.DropInShaft | day17/day17_part1.py:127-133 | a free rock hits no static part, and a drop that hits nothing leaves it free one row lower |
| FallingRocks.FallStep | day17/day17_part1.py:117-133 | one step of `move`: push, advance the jet, then stop and join the stopped rocks on a hit, or fall on one row lower |
| FallingRocks.FallOnce | day17/day17_part1.py:117-133 | one step either settles the rock or leaves it free one row lower with the next jet and the same static parts |
| FallingRocks.FallSettles | day17/day17_part1.py:113-133 | with enough fuel a free rock comes to rest on the floor or a stopped rock |
| FallingRocks.FallContinues | day17/day17_part1.py:133 | a fall that goes on ends as the continued fall does |
| FallingRocks.SpawnFree | day17/day17_part1.py:88-91 | the new rock is free in the shaft whose walls are raised to its top row, at most seven rows above the old top |
| FallingRocks.AddRockSound | day17/day17_part1.py:84-94 | with only `<` and `>` jets, `add_rock` ends, keeps the tower sound, adds exactly the shape's cells and raises the wall top by at most seven rows |
| FallingRocks.SettleRock | day17/day17_part1.py:84-94 | the rock settles in the shaft below the new top, clear of the stopped rocks it joins (see also lines 128-131) |
| FallingRocks.WallsRaised | day17/day17_part1.py:153-156 | raising solid walls keeps them solid up to the higher top |
| FallingRocks.WallTop | day17/day17_part1.py:153 | the top of solid walls is their highest row |
| FallingRocks.OnTrackStep | day17/day17_part1.py:283-284 | one more `add_rock` keeps a run on track (`OnTrack`): sound, same jets, four or five cells and at most seven wall rows more, fuel for the rest |
| FallingRocks.SimulateOnTrack | day17/day17_part1.py:283-284 | a run of `n` rocks started on track ends on track after all `n` calls of `add_rock` succeed (through `OnTrackSteps` and `Iteration.RepeatBudget`) |
| FallingRocks.SimulateSound | day17/day17_part1.py:283-284 | with only `<` and `>` jets and fuel of the wall top plus seven a rock, `n` calls of `add_rock` (`Simulate`) all end, keep the tower sound and the jets, only add stopped cells, four or five a rock, and raise the walls by at most seven rows a rock |
| FallingRocks.MaxRowInShaft | day17/day17_part1.py:49-55 | the highest row of cells in the shaft lies between row 1 and the wall top |
| FallingRocks.Part1Height | day17/day17_part1.py:279-290 | for a jet line of `<` and `>` only once its line break is stripped, the reported height (`Part1`) exists and lies between 1 and three plus seven rows per rock |
| FallingRocks.Part1AsWrittenAgrees | day17/day17_part1.py:279-290 | for a jet line without a line break, the height the program reports (`Part1AsWritten`, the line used as read) exists and equals the stripped reading's |
| FallingRocks.NewlineJetLifts | day17/day17_part1.py:45-46 | a line-break jet lifts the rock a row, and on a hit moves it left instead of back (see also lines 109-111) |
| BoilingBoulders.AdjacentDirection | day18/day18.py:21-27 | two cubes share a face (coordinates differing by one in total) exactly when one is a face step away from the other (see also line 72) |
| BoilingBoulders.SurfaceArea | day18/day18.py:61-75 | the surface is six faces per cube minus two for every pair of cubes that share a face |
| BoilingBoulders.TouchingSnoc | day18/day18.py:70-73 | a cube listed after the others forms a face-sharing pair with exactly its partners among them |
| BoilingBoulders.SurfaceSnoc | day18/day18.py:61-75 | listing one more cube adds six faces and removes two for each listed cube it shares a face with |
| BoilingBoulders.CountDistinct | day18/day18.py:88 | a cube occurs at most once in a list of distinct cubes |
| BoilingBoulders.CountAbsent | day18/day18.py:88 | a cube that is not listed occurs zero times |
| BoilingBoulders.PartnersAround | day18/day18.py:72 | counting the face partners of a cube one by one is counting them direction by direction |
| BoilingBoulders.PartnersBound | day18/day18.py:72 | among distinct cubes one cube has at most six face partners |
| BoilingBoulders.PartnersCons | day18/day18.py:70-73 | one more listed cube adds one partner exactly when it shares a face |
| BoilingBoulders.DegreesCons | day18/day18.py:70-73 | the partner counts grow by the new cube's partners |
| BoilingBoulders.DegreesFront | day18/day18.py:70-73 | one more counted cube adds its partners |
| BoilingBoulders.Handshake | day18/day18.py:70-73 | every face-sharing pair the double loop counts once is seen once from each of its cubes |
| BoilingBoulders.DegreesBound | day18/day18.py:70-73 | the partner counts of distinct cubes add up to at most six per cube |
| BoilingBoulders.SurfaceBounds | day18/day18.py:61-75 | for distinct cubes the surface lies between 0 and six faces per cube |
| BoilingBoulders.PartnersShift | day18/day18.py:96-97 | moving everything keeps each cube's partners |
| BoilingBoulders.TouchingShift | day18/day18.py:96-97 | moving the droplet (`Shift`: every cube by the same amount) keeps which cubes share a face |
| BoilingBoulders.MinCoord | day18/day18.py:96 | `cubes.min()` is the least coordinate of any cube, attained by one |
| BoilingBoulders.MaxCoord | day18/day18.py:101 | `cubes.max()` is the largest coordinate of any cube, attained by one |
| BoilingBoulders.NormaliseSound | day18/day18.py:93-97 | after normalising (`Normalise`) the least coordinate is 2 and the same cubes share faces |
| BoilingBoulders.BorderMembers | day18/day18.py:42-58 | the border holds exactly the cubes of the box with some coordinate at 0 or size - 1 |
| BoilingBoulders.NeighbourOf | day18/day18.py:20-27 | the next cubes are exactly those one face step from a current cube |
| BoilingBoulders.NeighbourAdjacent | day18/day18.py:20-27 | every next cube shares a face with a current cube |
| BoilingBoulders.March | day18/day18.py:11-39 | the march keeps the cubes it starts from, adds no invalid cube, and fails with RecursionError only when it recurses too deep |
| BoilingBoulders.NeighboursMonotone | day18/day18.py:20-27 | more current cubes give more next cubes |
| BoilingBoulders.ReachesStep | day18/day18.py:29-38 | whatever is reachable from valid next cubes is reachable from the current ones in one more step |
| BoilingBoulders.ReachesLayer | day18/day18.py:33-39 | the current cubes plus what the next layer reaches are reachable from the current cubes in one more step |
| BoilingBoulders.MarchReaches | day18/day18.py:11-39 | every cube the march fills is reached from the start by face steps that avoid the invalid cubes |
| BoilingBoulders.MarchInside | day18/day18.py:11-39 | starting inside a box whose border is invalid, the march stays strictly inside the box (see also line 102) |
| BoilingBoulders.Fill | day18/day18.py:96-108 | no cubes raise ValueError |
| BoilingBoulders.FillSound | day18/day18.py:93-108 | the filled air contains (1, 1, 1), stays strictly inside the box and never enters the lava |
| BoilingBoulders.FillBoxSound | day18/day18.py:101-108 | the same for a droplet already starting at 2 |
| BoilingBoulders.AirOutsideLava | day18/day18.py:102-104 | filled cubes other than the start are not invalid, so none is lava |
| BoilingBoulders.OuterSurface | day18/day18.py:96-114 | part 2 succeeds exactly when the fill does, and is the surface of the filled air, listed once per cube, minus the six inner faces of the box |
| BoilingBoulders.Enumerate | day18/day18.py:109 | the filled set is listed with each cube once |
| MonkeyMath.OperatorOf | day21/day21.py:175 | a token other than `+`, `-` and `*` is kept as an operator the script treats as division |
| MonkeyMath.OperatorSymbol | day21/day21.py:175 | printing an operator and reading it back gives the operator |
| MonkeyMath.Inverse | day21/day21.py:27-39 | `+` and `-` invert each other, `*` inverts to `/`, and every other operator inverts to `*` |
| MonkeyMath.InverseInvolution | day21/day21.py:27-39 | on `+`, `-`, `*` and `/` inverting twice gives the operator back |
| MonkeyMath.Apply | day21/day21.py:42-57 | the operation fails exactly when it divides by zero, with ZeroDivisionError |
| MonkeyMath.ApplyUndo | day21/day21.py:27-57 | with a non-zero right operand, applying the inverse operator undoes the operation |
| MonkeyMath.Cancel | day21/day21.py:55-57 | multiplying and dividing by the same non-zero number cancel |
| MonkeyMath.Eval | day21/day21.py:127-143 | a number monkey yields its number, and the only failure is a division by zero |
| MonkeyMath.SearchFinds | day21/day21.py:10-24 | the search finds `humn` exactly when it occurs in the tree |
| MonkeyMath.WithHuman | day21/day21.py:60-69 | replacing `humn`'s number keeps the monkey's name |
| MonkeyMath.WithoutHuman | day21/day21.py:10-24 | a tree without `humn` does not depend on its number |
| MonkeyMath.SolveExact | day21/day21.py:60-88 | at `humn` the target is the answer; any other number monkey has no operands (AttributeError) |
| MonkeyMath.Trunc | day21/day21.py:69 | `int` truncates toward zero (see also line 190) |
| MonkeyMath.SolveSound | day21/day21.py:60-88 | with `humn` once in the tree and no zero on its path, yelling the solved value (`SolveExact`, which `Solve` truncates) makes the tree evaluate to the target |
| MonkeyMath.UndoLeft | day21/day21.py:74-78 | one step down the left operand recovers the parent's target |
| MonkeyMath.UndoRightInverse | day21/day21.py:84-87 | one step down the right operand of `+` or `*` recovers the parent's target |
| MonkeyMath.UndoRight | day21/day21.py:81-83 | one step down the right operand of `-` or `/` recovers the parent's target |
| MonkeyMath.Tokenize | day21/day21.py:166 | a stripped line without colons splits into at least one token (see also line 171) |
| MonkeyMath.ParseLine | day21/day21.py:170-180 | four tokens give an operation monkey named by the first token; any other count of at least two gives a number monkey whose value is the second token read as an integer (ValueError when it is not one); fewer raise IndexError |
| MonkeyMath.ParseFormat | day21/day21.py:170-180 | parsing the line `name: job` gives back the monkey and its job |
| MonkeyMath.ParseYell | day21/day21.py:176-177 | parsing `name: n` gives the number monkey |
| MonkeyMath.ParseMath | day21/day21.py:174-175 | parsing `name: a op b` gives the operation monkey |
| MonkeyMath.JoinThree | day21/day21.py:171 | three words joined by spaces |
| MonkeyMath.Tokens | day21/day21.py:166 | the tokens of `name: w1 w2 ...` are the name and the words (see also line 171) |
| MonkeyMath.Cleaned | day21/day21.py:166 | stripping `name: w1 w2 ...` and dropping its colon gives `name w1 w2 ...` (see also line 171) |
| MonkeyMath.SplitSpaced | day21/day21.py:171 | splitting `name w1 w2 ...` at spaces gives the name and the words |
| MonkeyMath.StripLine | day21/day21.py:166 | a line `name: rest` not ending in whitespace is already stripped |
| MonkeyMath.DropColon | day21/day21.py:171 | dropping the colon from `name: rest` gives `name rest` |
| MonkeyMath.JoinWords | day21/day21.py:171 | words joined by spaces are non-empty, colon-free and do not end in whitespace |
| MonkeyMath.ShowIntWord | day21/day21.py:177 | a printed integer is a word |
| MonkeyMath.NoSpace | day21/day21.py:171 | a word contains no space |
| PyText.RemoveAbsent | day21/day21.py:171 | removing a character that does not occur changes nothing |
| PyText.RemoveConcat | day21/day21.py:171 | removing a character distributes over concatenation |
| PyText.RemoveJoin | day11/day11_part1.py:103 | removing a character other than the separator from joined pieces is joining the pieces with it removed |
| PyText.SplitJoinTokens | day5/day5.py:40 | words without whitespace joined by single spaces are already stripped and split back into the words |
| PyText.ShowIntChars | day21/day21.py:177 | `str(n)` is non-empty, holds only digits and at most a leading minus sign, and ends in a digit |
| MonkeyMath.TableKeys | day21/day21.py:169-180 | the monkey list holds exactly the parsed names |
| MonkeyMath.TableLast | day21/day21.py:178-180 | each monkey has the job of its last line |
| MonkeyMath.Value | day21/day21.py:117-143 | a value fails only with KeyError (unknown operand), RecursionError (too deep) or ZeroDivisionError |
| MonkeyMath.Tree | day21/day21.py:117-125 | the linked tree under a monkey has that monkey at its root |
| MonkeyMath.ValueIsTree | day21/day21.py:117-143 | a monkey with a value has a linked tree, and the tree evaluates to that value |
| MonkeyMath.Part1IsTree | day21/day21.py:165-190 | the part 1 answer (`Part1`) is the truncated value of the tree of monkeys under `root`, which exists whenever `root` has a value |
| MonkeyMath.Part2 | day21/day21.py:187-203 | a part 2 answer needs the parsed, linked list and a value for `root`, computed first, and is the balancing answer for the tree under `root` |
| MonkeyMath.Part2Sound | day21/day21.py:187-203 | when `humn` occurs once under `root`, no division on its path is by zero and the solved value is whole, `humn` yelling the printed answer makes both sides of `root` equal |
| MonkeyMath.Balance | day21/day21.py:193-203 | the answer is the truncation of the exact balancing value |
| MonkeyMath.BalanceSound | day21/day21.py:193-203 | with `humn` once in the tree and no zero on its path, yelling the balancing value (`BalanceExact`: the side holding `humn` is solved for the other side's value) makes both sides of `root` equal |
| MonkeyMath.BalanceWhole | day21/day21.py:69 | a whole balancing value is the printed answer (see also line 203) |
| MonkeyMap.Index | day22/day22_part1.py:13 | a facing's place in `CW_TURNS` is below 4 (see also lines 114-115) |
| MonkeyMap.FacingAt | day22/day22_part1.py:13 | `CW_TURNS[i]` is the facing whose place is `i` (see also line 108) |
| MonkeyMap.Turn | day22/day22_part1.py:96-108 | `L` steps one place back in the clockwise order (index -1 wraps to the last entry), every other letter one place forward, 4 wrapping to 0 |
| MonkeyMap.TurnInverse | day22/day22_part1.py:96-108 | a left turn undoes any other turn and the other way round |
| MonkeyMap.FourTurns | day22/day22_part1.py:96-108 | four turns the same way face the original way again |
| MonkeyMap.Pick | day22/day22_part1.py:28 | `argmin`/`argmax` picks a listed tile with no listed tile strictly beyond it, and there is none for an empty list |
| MonkeyMap.Filter | day22/day22_part1.py:27 | keeps exactly the tiles whose other coordinate is the fixed index |
| MonkeyMap.Extreme | day22/day22_part1.py:16-28 | the search returns a candidate tile with no candidate beyond it, and raises IndexError exactly when there is no candidate |
| MonkeyMap.Wrap | day22/day22_part1.py:71-87 | the re-entry tile is the one the extreme-tile search picks on the opposite side: the left-most tile of the row facing right, the right-most facing left, the bottom-most of the column facing up and the top-most facing down; it is a tile of the board |
| MonkeyMap.Move | day22/day22_part1.py:50-94 | a move keeps the facing; it reports no progress exactly when the tile ahead is a wall, and then stays; an open tile ahead is where it steps; off the board it goes to the tile `Wrap` picks, or stays put when that tile is a wall, answering True either way; the only failure is IndexError |
| MonkeyMap.MoveSound | day22/day22_part1.py:65-94 | from an open tile a move never fails and ends on an open tile |
| MonkeyMap.StaysInLine | day22/day22_part1.py:71-87 | with the corrected search a move keeps the row facing right or left and the column facing up or down |
| MonkeyMap.ZeroRowWrap | day22/day22_part1.py:26-27 | on a board whose top row lacks its left-most column, leaving row 0 to the right re-enters in row 1 instead of row 0 (see also lines 72-75) |
| MonkeyMap.NotchedWraps | day22/day22_part1.py:26-28 | where the written and the corrected searches re-enter that board (see also lines 72-75) |
| MonkeyMap.Blocked | day22/day22_part1.py:241-244 | against a wall any number of moves changes nothing |
| MonkeyMap.BreakIsShortcut | day22/day22_part1.py:241-246 | breaking out of the loop at a wall ends where the unbroken loop ends |
| MonkeyMap.StepsSound | day22/day22_part1.py:241-246 | a walk (`Steps`) from an open tile never fails, stays on open tiles and keeps the facing (see also lines 249-251) |
| MonkeyMap.FollowSound | day22/day22_part1.py:240-247 | following the path (`Follow`) from an open tile never fails and ends on an open tile |
| MonkeyMap.Runs | day22/day22_part1.py:233 | `re.split(r'(\d+)')` with empty pieces dropped gives maximal, alternating runs of digits and non-digits that glue back to the text |
| MonkeyMap.RunsFront | day22/day22_part1.py:233 | a run before text starting with the other kind becomes a run of its own |
| MonkeyMap.RunsConcat | day22/day22_part1.py:233 | splitting glued alternating runs gives them back |
| MonkeyMap.Chunks | day22/day22_part1.py:238 | the runs taken two at a time, in order |
| MonkeyMap.PairsOf | day22/day22_part1.py:238 | all pairs succeed exactly when every count parses, one pair per chunk; otherwise ValueError |
| MonkeyMap.PlanOf | day22/day22_part1.py:235-238 | an odd run count pops the last run as the final count; the remaining runs pair up, failing exactly when a count does not parse |
| MonkeyMap.RenderRuns | day22/day22_part1.py:233 | a path as the puzzle writes it splits into alternating runs: counts and turn letters, then the final count |
| MonkeyMap.ParseRender | day22/day22_part1.py:233-238 | reading back a written path (`ParsePlan`) gives its pairs and its final count |
| MonkeyMap.PairShown | day22/day22_part1.py:238 | a printed count parses back to itself: `Pair` of it and a letter holds that value and the letter |
| MonkeyMap.PlanOfPaired | day22/day22_part1.py:235-238 | runs whose counts parse pair up into exactly those pairs, the odd run becoming the final count |
| MonkeyMap.RowMarks | day22/day22_part1.py:222 | `np.where(row == c)` lists exactly the columns holding the character, left to right (see also line 227) |
| MonkeyMap.Marked | day22/day22_part1.py:218-229 | every map position holding the character, reading row by row |
| MonkeyMap.StartIsFirst | day22/day22_part1.py:222-225 | the start is the first open tile reading row by row |
| MonkeyMap.BoardDisjoint | day22/day22_part1.py:219-229 | no position is both open and a wall |
| MonkeyMap.Thousands | day22/day22_part1.py:114 | the thousands place holds the row |
| MonkeyMap.Quarters | day22/day22_part1.py:114-115 | the last two bits hold the facing |
| MonkeyMap.DecodePassword | day22/day22_part1.py:110-115 | the password (`Password`) determines the final row, column and facing while the column leaves room below the thousands |
| MonkeyMap.Finish | day22/day22_part1.py:207-251 | an empty file raises IndexError, and a map without an open tile makes the grid fail to unpack its start (TypeError) |
| MonkeyMap.FinishSound | day22/day22_part1.py:231-251 | once the walk starts only a malformed path (ValueError) can stop it, and it ends on an open tile |
| MonkeyMap.Part1OnMap | day22/day22_part1.py:249-256 | the printed password (`Part1` with the search as written, `AsWritten`) names an open tile of the map, and so does the one the corrected search gives |
| Results.Collect | day21/day21.py:170-180 | a loop over lines that parses each in turn succeeds exactly when every line parses, giving the values in order, and otherwise raises the error of the first line that fails |
| PyText.LeftStrip | day21/day21.py:166 | the left strip is a suffix that starts with no whitespace, everything dropped being whitespace |
| PyText.RightStrip | day21/day21.py:166 | the right strip is a prefix that ends with no whitespace, everything dropped being whitespace |
| PyText.Strip | day21/day21.py:166 | `strip()` is the middle part of the text, starting and ending with no whitespace, everything dropped on either side being whitespace |
| PyText.StripUnpadded | day21/day21.py:166 | text with no whitespace at either end is its own strip |
| PyText.StripIdempotent | day4/day4.py:25 | stripping twice strips nothing more |
| PyText.Remove | day21/day21.py:171 | `replace(c, '')` keeps exactly the other characters and never lengthens the text |
| PyText.Split | day4/day4.py:29-31 | `split(sep)` gives at least one piece, none holding the separator, that join back to the text |
| PyText.SplitJoin | day21/day21.py:171 | splitting undoes joining when no piece holds the separator |
| PyText.SplitPlain | day4/day4.py:29 | text without the separator is one piece |
| PyText.SplitFirst | day4/day4.py:29-31 | the text before the first separator is the first piece, and the rest splits on its own |
| PyText.DigitChar | day21/day21.py:177 | the digit character for 0 to 9 is a digit with that value |
| PyText.ShowNat | day21/day21.py:177 | `str(n)` of a natural number is a non-empty string of digits |
| PyText.DigitsOfShowNat | day21/day21.py:177 | the digits of `str(n)` read back as `n` |
| PyText.ParseShow | day21/day21.py:177 | `int(str(n)) == n` for every integer |
| PySlice.Slice | day6/day6.py:28 | a slice is never longer than the list |
| PySlice.ToFrom | day22/day22_part1.py:210-211 | the prefix and the suffix at any bound (`Bound` clips it to the list, a negative one counting from the end) give the list back |
| PySlice.NegativeSuffix | day5/day5.py:69 | `s[-h:]` holds the last `h` items for `1 <= h`, and the whole list for `h == 0` |
| PySlice.Window | day6/day6.py:28 | `s[i:i+len]` has `len` items when it fits, and is cut short at the end otherwise |
| Seqs.SumConcat | day1/day1.py:43 | `sum` distributes over concatenation |
| Seqs.SumNonNegative | day1/day1.py:43 | a sum of non-negative numbers is non-negative and bounds each of them |
| Seqs.SumPermutation | day1/day1.py:41-43 | the sum depends only on the multiset of summands |
| Seqs.SumUpdate | day1/day1.py:36 | changing one summand changes the sum by the difference |
| Seqs.Max | day8/day8_part2.py:68 | `max` of a non-empty list is an element no element exceeds |
| Seqs.Min | day12/day12.py:140 | `min` of a non-empty list is an element no element is below |
| Seqs.Insert | day1/day1.py:41 | inserting into a descending list keeps it descending and adds exactly that element |
| Seqs.SortDescending | day1/day1.py:41 | `sorted(s, reverse=True)` is a descending permutation of `s` |
| Seqs.SortedHeadIsLargest | day1/day1.py:41-43 | the head of a descending list is its largest element |
| Seqs.SortedUnique | day1/day1.py:41 | two descending permutations of the same numbers are equal, so the sorted list is determined |
| Plane.RowCells | day14/day14.py:24-26 | a row run holds exactly the cells of that row between the bounds |
| Plane.ColumnCells | day14/day14.py:24-26 | a column run holds exactly the cells of that column between the bounds |
| Plane.RowSize | day14/day14.py:24-26 | a row run holds one cell per column |
| Plane.TranslateMember | day14/day14.py:30-37 | a cell is in the moved set exactly when the cell it came from is in the original |
| Plane.TranslateInverse | day14/day14.py:30-37 | moving by (0, 0) changes nothing and moving back undoes a move |
| Plane.TranslateSize | day14/day14.py:30-37 | moving keeps the number of cells |
| Plane.Lowest | day14/day14.py:54 | the minimum along an axis is attained and bounds every cell |
| Plane.Highest | day14/day14.py:55 | the maximum along an axis is attained and bounds every cell |
| Iteration.RepeatSimulation | day11/day11.py:29-34 | steps that keep two states related give repetitions that fail together and end in related states |
| Iteration.RepeatAgreement | day11/day11.py:159-167 | steps that agree on the states they keep give the same repetition |
| Iteration.RepeatBudget | day17/day17_part1.py:283-284 | steps that take a state good for `k` more steps to one good for `k - 1` make `n` steps from a state good for `n` all succeed |
| Iteration.Iterate | day11/day11_part1.py:29-35 | the rounds give one observation per round |
| Iteration.Simulation | day11/day11.py:29-35 | related runs fail together, end related and make the same observations |
| Iteration.Agreement | day11/day11.py:29-35 | steps that agree on the states they keep give the same run |
| Iteration.Progress | day11/day11_part1.py:29-35 | each observation comes from a state between the start and the end, and the last is of the final state |

## Left out

- File reading, `argparse`, printing and the `cv2` visualisations of days 14, 17 and 22. Each script's lines are a parameter, and its printed value is the result.
- WorryLevels.DivTest: integers are unbounded. The scripts hold worry levels in `np.int64`: after `np.floor(item / 3).astype(int)` (day11/day11_part1.py:85) and after the `%` reduction (day11/day11.py:116). Overflow is not modelled.
- WorryLevels.DivTest: a zero divisor is `Err("ZeroDivisionError")`. numpy's integer `% 0` gives 0 with a warning, so the script would take the "true" branch. The puzzle's divisors are never 0.
- MonkeyInTheMiddle.Examine: the division by three is the exact floor of `item / 3`. It is not computed in floating point (day11/day11_part1.py:84-85), and int64 overflow is not modelled. A zero divisor raises, as in `DivTest`.
- Rucksacks.FirstCommon: the first character of the first half that also occurs in the second half. `list(set)[0]` (day3/day3_part1.py:23) picks by hash order when several characters are common; the puzzle guarantees exactly one.
- Rucksacks.FirstCommon3: the same for groups (day3/day3_part2.py:22-23).
- Rucksacks.IsUpper: ASCII letters only; other cased characters are not modelled.
- RockPaperScissors.Chr: a surrogate code point (0xD800 to 0xDFFF) is not a Dafny character, so the model raises ValueError where Python's `chr` returns a lone surrogate. Only a move character near the top of the Basic Multilingual Plane, such as `'\uD7E9'`, reaches that range.
- HillClimbing.Propagate: recursion ends by the number of unvisited squares. Python's limit of about 1000 frames (RecursionError, day12/day12.py:86) is not modelled.
- HillClimbing.ParseGrid: rows of different lengths are accepted. `np.array` of ragged rows would fail at day12/day12.py:118.
- FallingSand.Pour: recursion ends by the rows left above the box bottom. Only the grain that falls for ever is a RecursionError. Python's limit of about 1000 frames is not modelled (day14/day14.py:240-243).
- FallingSand.PathRocks: the rock paths are given as coordinate lists. The text parsing of `x,y -> x,y` lines (day14/day14.py:272-279) is not modelled.
- BeaconExclusion.Part1: the sensor reports are given as coordinates. The text cleanup and `split` of each report line (day15/day15_part1.py:44-48 and day15/day15_part2.py:72-76) is not modelled.
- BeaconExclusion.Part2: the order of `np.array(list(set))` is one fixed but unspecified enumeration. The answer does not depend on it.
- FallingRocks.Fall: the recursion depth of `Tower.move` is a `fuel` parameter, not Python's frame limit. `AddRockSound` shows that a fuel of the wall height plus seven always suffices.
- FallingRocks.Part1: `Tower.cut_off` and `floodfill` (day17/day17_part1.py:135-146, 242-266, 288-289) are left out. They are a speed-up that removes rows below a flood-filled layer, and the height they report is not modelled.
- BoilingBoulders.Normalise: the cubes are given as coordinates. The `eval` of each line (day18/day18.py:88) and numpy's int64 arithmetic are not modelled.
- BoilingBoulders.March: the recursion depth of `cube_march` is a `fuel` parameter. The fill is proved sound: it stays in the box, avoids the lava, and every filled cube is reachable. It is not proved complete, that is, that it fills every reachable air cube.
- BoilingBoulders.OuterSurface: the set of filled cubes is listed in an order the model chooses. The surface does not depend on the order.
- BoilingBoulders.Enumerate: day18/day18.py:109 passes a generator to NumPy's `np.stack`. Only older NumPy releases accept that (with a deprecation warning), and newer ones raise TypeError. The model assumes a release that stacks the generator's rows, and does not model the TypeError.
- MonkeyMath.Value: Python evaluates with `int` and `float` and caches each monkey's value. The model evaluates exactly over `real` and recomputes, which gives the same values whenever no rounding happens. The recursion depth is a `fuel` parameter.
- MonkeyMath.Solve: the solver's intermediate `float` divisions are exact rational divisions.
- MonkeyMap.Extreme: ties on the extreme coordinate go to the first candidate in the order the board lists tiles. Python's order comes from the set `open_tiles.union(walls)`. On a rectangular row or column there is only one extreme tile.
- MonkeyMap.Runs: `\d` also matches non-ASCII decimal digits. Only `0`-`9` are digits here.
- PyText.ParseInt: `int(text)` is modelled for ASCII digits `0`-`9` after an optional sign. Python also accepts `_` between digits (`int("1_000")`) and any Unicode decimal digit; the model raises ValueError for both. Every day's number parsing goes through it.
- PyText.IsSpace: the characters `str.strip()` removes are written out as a fixed list: the ASCII whitespace, `\x1c`-`\x1f`, `\x85`, `\xa0`, and the Unicode space, line and paragraph separators. The list follows the Unicode tables of current Python versions and does not track Unicode versions.

## Findings

| source | as written | input that shows it | evidently intended | confidence | as-written member | corrected member |
|---|---|---|---|---|---|---|
| day17/day17_part1.py:280 | `file.readlines()[0]` keeps the trailing line break, and `Rock.move` treats every character other than `<`, `>` and `down` as a move up (day17/day17_part1.py:45-46) | a jet pattern line ending in `\n`: once per pass through the pattern the rock is lifted a row instead of pushed, and on a hit it is moved left | the jet pattern without its line break | not executed | FallingRocks.NewlineJetLifts | FallingRocks.AddRockSound |
| day22/day22_part1.py:26-28 | `if fixed_index:` skips the row or column filter when the fixed index is 0 | the two-row board whose top row lacks its left-most column: leaving row 0 to the right re-enters in row 1 | filter on `fixed_index is not None` | not executed | MonkeyMap.ZeroRowWrap | MonkeyMap.StaysInLine |
