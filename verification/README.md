# Advent of Code 2025 solvers, modelled in Dafny

This project models the puzzle solvers of the Rust repository
`advent_of_code_2025`, plus the grid point type they share. Each solver
reads its puzzle text and returns one number per part. The model covers all
of them:

| module | solver |
|---|---|
| `Day01` | a safe dial: rotations that land on zero, and clicks that pass zero |
| `Day02` | ranges of ids whose decimal text is a repeated block |
| `Day03` | largest two-digit and twelve-digit numbers kept from a digit line |
| `Day04` | rolls of paper with fewer than four neighbours, peeled until stable |
| `Day05` | fresh-ingredient id ranges, sorted, merged and searched |
| `Day06` | worksheet arithmetic, read by rows and by right-to-left columns |
| `Day07` | a beam-splitter grid, with presence and multiplicity counts |
| `Day08` | junction boxes joined by their shortest links |
| `Day09` | the largest rectangle with two red tiles as corners |

Day07 is the centre of the model. `DisjointSets` is the union-find of
`day_08.rs`, and `Point` is `point.rs`.

Four support modules model only the parts of Rust's standard library the
solvers call:

- `Results`: the `Result` type. Every panic of the source, whether from
  `unwrap`, `expect`, `assert!`, `unreachable!` or an integer underflow,
  becomes an `Err` carrying the panic's message.
- `Text`: `lines`, `trim`, `split`, `split_once`, `split_whitespace`, and
  integer parsing and printing.
- `Seqs`: sums and products.
- `Arith`: `max` on integers, and three facts about multiplication.

Every operation is a pure function, or a method whose contract relates it
to one. Each one comes with an independent description of what it computes:

- a set-level characterisation of its result;
- the other part of the same puzzle;
- a text printer it inverts.

A lemma over all inputs ties each operation to its description.

## Model

| member | source | states |
|---|---|---|
| Day01.EntriesMembers | rust/src/solutions/day_01.rs:48-52 | a text is kept iff it is non-empty and is the trim of some input line |
| Day01.EntriesConcat | rust/src/solutions/day_01.rs:48-52 | the kept lines come in input order: the entries of two blocks of lines are the first block's followed by the second's |
| Day01.ParseAll | rust/src/solutions/day_01.rs:53-59 | a successful parse yields exactly one rotation per kept line |
| Day01.ParseRotationsText | rust/src/solutions/day_01.rs:48-60 | parsing the printed text of any rotations whose direction is not whitespace returns those rotations |
| Day01.Turn | rust/src/solutions/day_01.rs:16-20 | the new position is defined exactly for 'L' and 'R'; it lies in 0..99 and is congruent to the old position moved by the signed distance |
| Day01.Positions | rust/src/solutions/day_01.rs:14-22 | the scan succeeds iff every direction is 'L' or 'R', and then gives one in-range position per rotation |
| Day01.LandingsFrom | rust/src/solutions/day_01.rs:14-24 | the count of zero landings exists iff every direction is valid |
| Day01.HitsZeroCounts | rust/src/solutions/day_01.rs:62-80 | `hits_zero_during_rotation` equals the number of clicks 1..dist that show 0, and is 0 for a non-positive distance |
| Day01.FirstZero | rust/src/solutions/day_01.rs:67-73 | the `first` distance lies in 1..100 and is a click at which the dial shows 0 |
| Day01.CrossingsFormula | rust/src/solutions/day_01.rs:73-79 | counting the clicks at which the dial shows 0 one by one gives the closed form `1 + (dist - first) / 100`, or 0 below `first` |
| Day01.HitsFrom | rust/src/solutions/day_01.rs:30-42 | the fold of `second` succeeds iff every direction is valid |
| Day01.HitsCoverLandings | rust/src/solutions/day_01.rs:13-45 | with positive distances, every landing on 0 is also counted as a pass, so the pass count is at least the landing count |
| Day01.SecondAtLeastFirst | rust/src/solutions/day_01.rs:13-45 | both parts fail on the same inputs, and with positive distances the second answer is at least the first |
| Day01.ZeroDistanceCounts | rust/src/solutions/day_01.rs:62-65 | a zero-distance rotation at 0 counts as a landing but not as a pass, so the second answer can fall below the first |
| Day02.NonEmpty | rust/src/solutions/day_02.rs:30-34 | the pieces kept after splitting on ',' are all non-empty |
| Day02.ParseEach | rust/src/solutions/day_02.rs:35-41 | a successful parse yields one range per piece |
| Day02.ParseRangesText | rust/src/solutions/day_02.rs:30-42 | parsing the comma-joined text of non-empty ranges with non-negative lower bounds returns those ranges |
| Day02.RangeTextParses | rust/src/solutions/day_02.rs:35-41 | one range with a non-negative lower bound prints without ',' and parses back to itself |
| Day02.Repeat | rust/src/solutions/day_02.rs:61 | `pat.repeat(k)` has length `k` times the pattern's length |
| Day02.DoubleRepeatIsTwice | rust/src/solutions/day_02.rs:44-51 | `is_double_repeat(n)` holds iff the decimal text of `n` is some string written twice |
| Day02.HasPeriodUpToWitness | rust/src/solutions/day_02.rs:56-62 | the `any` over pattern lengths up to `m` holds iff some length in 1..m repeats to the whole text |
| Day02.RepeatedIsRepetition | rust/src/solutions/day_02.rs:53-63 | `is_repeated_at_least_twice(n)` holds iff the decimal text of `n` is some block written two or more times |
| Day02.PeriodIsRepetition | rust/src/solutions/day_02.rs:56-62 | a pattern length that divides the text and repeats to it makes the text a repetition |
| Day02.RepetitionHasPeriod | rust/src/solutions/day_02.rs:56-62 | a text written as a block repeated k >= 2 times has a pattern length the loop tries |
| Day02.DoubleImpliesRepeated | rust/src/solutions/day_02.rs:44-63 | every id invalid under the first rule is invalid under the second |
| Day02.SmallAndNegativeValid | rust/src/solutions/day_02.rs:44-63 | a number below 10 is invalid under neither rule |
| Day02.NegativeNotDouble | rust/src/solutions/day_02.rs:44-51 | a negative number is never a double repeat, because of its leading '-' |
| Day02.NegativeNotRepeated | rust/src/solutions/day_02.rs:53-63 | a negative number is never a repetition under the second rule |
| Day02.SumInvalidMonotone | rust/src/solutions/day_02.rs:12-24 | over any inclusive range, the sum of second-rule ids is at least the sum of first-rule ids |
| Day02.SumRangesMonotone | rust/src/solutions/day_02.rs:11-27 | the same holds summed over a list of ranges |
| Day02.SecondAtLeastFirst | rust/src/solutions/day_02.rs:11-27 | both parts fail on the same inputs, and the second answer is at least the first |
| Arith.Max | rust/src/solutions/day_03.rs:26 | `max` is an upper bound of both arguments and equals one of them |
| Day03.PairScan | rust/src/solutions/day_03.rs:20-32 | the right-to-left fold succeeds iff no byte is below '0', and its state summarises the line |
| Day03.PairScanStep | rust/src/solutions/day_03.rs:23-31 | one fold step keeps the summary: the best pair value and the best digit to the right |
| Day03.MaxPairValueIsLargest | rust/src/solutions/day_03.rs:19-34 | `max_pair_value` is at least `10*d[i] + d[j]` for every i < j and equals one of them (or 0), and lies in 0..99 on digit lines |
| Day03.SumPairsOk | rust/src/solutions/day_03.rs:6-10 | the first answer exists iff every line's pair value does, and lies in 0..99 per line on lines of digits |
| Day03.Keep12 | rust/src/solutions/day_03.rs:36-55 | the stack keeps a 12-character subsequence of the line that is lexicographically at least every other 12-character subsequence |
| Day03.Feed | rust/src/solutions/day_03.rs:42-48 | one turn of the byte loop pops some of the stack's top bytes, spending one unit of budget each, then pushes the byte; it keeps the stack invariant |
| Day03.PopSmaller | rust/src/solutions/day_03.rs:43-46 | the popping loop stops with no budget, an empty stack or a top at least the arriving byte; the stack is a prefix of the old one, shorter by the budget spent |
| Day03.DropTrailing | rust/src/solutions/day_03.rs:50-53 | popping the remaining budget leaves the first twelve bytes of the stack, and keeps the invariant |
| Day03.KeptIsLargest | rust/src/solutions/day_03.rs:36-55 | a kept subsequence with the final window property dominates every subsequence of equal length |
| Day03.KeptWindows | rust/src/solutions/day_03.rs:42-55 | the final stack picks each digit as the first maximum of its window of the line |
| Day03.Max12 | rust/src/solutions/day_03.rs:36-61 | lines shorter than 12 underflow; otherwise the result is the parse of the lexicographically greatest 12-byte subsequence of the line; on digit lines it is below 10^12 and at least every 12-digit subsequence's value |
| Day03.LexLeAntisymmetric | rust/src/solutions/day_03.rs:36-55 | two byte strings of one length that are each at most the other in dictionary order are equal |
| Day03.Max12Unique | rust/src/solutions/day_03.rs:36-61 | the result `max_12` must give for a line is unique, so it is determined by the line |
| Day03.DigitsKept | rust/src/solutions/day_03.rs:57-60 | a subsequence of a digit line is all digits and parses to its decimal value |
| Day03.LexLeValue | rust/src/solutions/day_03.rs:57-60 | for digit strings of equal length, the lexicographic order is the numeric order |
| Day03.SumMax12 | rust/src/solutions/day_03.rs:13 | the sum succeeds iff every line's `max_12` does, and is then the sum of those values; on failure the error is that of the first failing line; digit lines of at least 12 bytes give at most 999999999999 per line |
| Day03.SecondAnswer | rust/src/solutions/day_03.rs:12-16 | part two is the sum over the input's lines of what `max_12` gives for each, or the first line's error |
| Day04.RowRolls | rust/src/solutions/day_04.rs:66-75 | a point is collected from a row iff it is on that row, at or after the start column, and holds '@' |
| Day04.GridRolls | rust/src/solutions/day_04.rs:62-77 | a point is collected from the rows iff it is in the grid and holds '@' |
| Day04.Paper | rust/src/solutions/day_04.rs:61-79 | `Paper::new` holds exactly the '@' cells of the input lines, as (line, column) |
| Day04.CountIn | rust/src/solutions/day_04.rs:17-20 | the occupied-neighbour count is at most the number of neighbours |
| Day04.CountInMonotone | rust/src/solutions/day_04.rs:36-42 | removing rolls never raises a neighbour count |
| Day04.KeepSplits | rust/src/solutions/day_04.rs:33-52 | each round splits the rolls into survivors and accessible rolls, with sizes adding up |
| Day04.FirstAnswerRemoved | rust/src/solutions/day_04.rs:11-23 | the first answer is the number of rolls one round removes: the paper size minus the survivors |
| Day04.SameSizeFixpoint | rust/src/solutions/day_04.rs:45-47 | the loop's size test succeeds iff the round removed nothing |
| Day04.StableSurvives | rust/src/solutions/day_04.rs:32-50 | a set in which every roll has four neighbours in the set survives any round applied to a superset |
| Day04.Peel | rust/src/solutions/day_04.rs:32-50 | the loop stops at the largest stable subset of the paper |
| Day04.SecondAnswer | rust/src/solutions/day_04.rs:28-55 | the removed count is the paper size minus the largest stable subset's size, and at least the first answer |
| Point.AddLaws | rust/src/point.rs:29-38 | point addition is commutative and associative, has the origin as identity, and adds coordinates |
| Point.Neighbors | rust/src/point.rs:15-26 | a point has eight neighbours |
| Point.NeighborsRing | rust/src/point.rs:15-26 | the eight neighbours are distinct, and they are exactly the points at king's-move distance 1 |
| Point.NeighborsSymmetric | rust/src/point.rs:10-26 | q neighbours p iff p neighbours q |
| Day05.Interval | rust/src/solutions/day_05.rs:79-88 | an id is in a range's set iff it lies between `from` and `to` inclusive |
| Day05.RangeCount | rust/src/solutions/day_05.rs:36-38 | `count` is defined iff `from <= to` (else the subtraction underflows), and then equals the number of ids in the range |
| Day05.Count | rust/src/solutions/day_05.rs:90-92 | the sum of counts is defined iff every range is well formed |
| Day05.Insert | rust/src/solutions/day_05.rs:62 | inserting into a list sorted by `from` keeps it sorted and adds exactly the new range |
| Day05.SortByFrom | rust/src/solutions/day_05.rs:62 | the sort by `from` is a sorted permutation of the ranges |
| Day05.SortSorted | rust/src/solutions/day_05.rs:62 | sorting an already sorted list leaves it unchanged |
| Day05.SameCover | rust/src/solutions/day_05.rs:62 | a permutation of the ranges covers the same ids |
| Day05.MergeStepKeeps | rust/src/solutions/day_05.rs:66-74 | one merge step keeps the merged list separated and covers exactly the old ids plus the new range |
| Day05.MergeAllKeeps | rust/src/solutions/day_05.rs:64-76 | the merge loop yields a separated list covering exactly what the merged prefix and the rest covered |
| Day05.MergedShape | rust/src/solutions/day_05.rs:61-77 | `merged` yields ranges that are sorted, separated by gaps of at least one id, and cover exactly the input's ids |
| Day05.MergeAllSeparated | rust/src/solutions/day_05.rs:64-76 | merging an already separated list changes nothing |
| Day05.MergedIdempotent | rust/src/solutions/day_05.rs:61-77 | merging twice is merging once |
| Day05.SortPairStable | rust/src/solutions/day_05.rs:62 | the sort by `from` keeps two ranges with the same `from` in input order, as the stable `sort_by_key` does |
| Day05.MergedPairApart | rust/src/solutions/day_05.rs:61-77 | of two ranges with one `from`, a first that ends two or more IDs before that `from` is not merged with the second |
| Day05.MergedPairAbsorbs | rust/src/solutions/day_05.rs:61-77 | of two ranges with one `from`, a well-formed first absorbs a second that ends no later |
| Day05.InvertedOrderMatters | rust/src/solutions/day_05.rs:19-26 | the order of equal-`from` ranges decides part two when one is inverted: `5-3, 5-10` underflows in `count`, `5-10, 5-3` counts 6 |
| Day05.MergedWellFormed | rust/src/solutions/day_05.rs:61-77 | merging well-formed ranges gives well-formed ranges |
| Day05.CountCovered | rust/src/solutions/day_05.rs:90-92 | on separated well-formed ranges, the sum of counts is the number of distinct covered ids |
| Day05.PartitionPoint | rust/src/solutions/day_05.rs:80 | on a list sorted by `from`, the index splits the ranges with `from <= x` from the others |
| Day05.Contains | rust/src/solutions/day_05.rs:79-88 | a true answer means a range covers x; on separated ranges the answer is true iff some range covers x |
| Day05.FirstAnswer | rust/src/solutions/day_05.rs:6-17 | without a blank-line separator the answer is the `split_once` unwrap error; otherwise it counts the available ids that parse and lie in some of the original, unmerged ranges |
| Day05.RangeTextParses | rust/src/solutions/day_05.rs:45-56 | a range line written as `from-to` parses back to that range |
| Day05.SectionsNone | rust/src/solutions/day_05.rs:7 | an input without a blank line is the `split_once` unwrap error |
| Day05.SectionsSome | rust/src/solutions/day_05.rs:7-8 | split at the first blank line, the ranges are read iff every line above parses, one range per line in order, and the IDs are the lines below |
| Day05.SampleFresh | rust/src/solutions/day_05.rs:101-118 | in the puzzle's example, three of the available IDs are fresh |
| Day05.SecondCountsCovered | rust/src/solutions/day_05.rs:19-26 | the second answer is the number of distinct ids covered by the fresh ranges, and exists when every range is well formed |
| Day05.MergedCountsCovered | rust/src/solutions/day_05.rs:61-92 | the count of the merged ranges is the number of distinct IDs the input ranges cover, and exists when every range is well formed |
| Day05.CoveredTwoSpans | rust/src/solutions/day_05.rs:90-92 | ranges covering two spans with a gap between them cover as many IDs as both spans hold |
| Day05.SampleCount | rust/src/solutions/day_05.rs:101-125 | in the puzzle's example, the merged ranges hold 14 IDs |
| Day06.ParseOps | rust/src/solutions/day_06.rs:10-17 | the operator line parses iff every token is "+" or "*", one operator per token |
| Day06.Token | rust/src/solutions/day_06.rs:23 | the i-th token is read iff it exists and parses, and then has the parsed value |
| Day06.Column | rust/src/solutions/day_06.rs:19-25 | a column holds one value per number line |
| Day06.ColumnOk | rust/src/solutions/day_06.rs:19-25 | a column is read iff its token on every line is read |
| Day06.ColumnTokens | rust/src/solutions/day_06.rs:19-25 | each value of a read column is the token of its line |
| Day06.Columns | rust/src/solutions/day_06.rs:19-27 | the columns read hold one column per operator |
| Day06.ColumnsOk | rust/src/solutions/day_06.rs:19-27 | the columns are read iff each one is |
| Day06.ColumnsTokensOk | rust/src/solutions/day_06.rs:19-27 | the columns are read iff every token of every number line, up to the operator count, is read |
| Day06.ColumnsEach | rust/src/solutions/day_06.rs:19-27 | each column read is the column on its own |
| Day06.FirstAnswer | rust/src/solutions/day_06.rs:6-44 | an input without lines is the `pop().unwrap()` error |
| Day06.FirstAnswerOk | rust/src/solutions/day_06.rs:6-44 | part one succeeds iff the operators parse and every needed token on every number line is read |
| Day06.FirstAnswerAllAdd | rust/src/solutions/day_06.rs:35-41 | when every operator is '+', the answer equals the sum of the per-line sums: columns and rows may be exchanged |
| Day06.AllAddTotal | rust/src/solutions/day_06.rs:29-41 | summing the columns of an all-'+' sheet equals summing its rows |
| Day06.AllAddSumsRows | rust/src/solutions/day_06.rs:35-41 | with only additions, the total of the problems equals the sum of the row sums |
| Day06.SumExchange | rust/src/solutions/day_06.rs:35-41 | summing a rectangle by columns equals summing it by rows |
| Day06.MaxLen | rust/src/solutions/day_06.rs:87 | the width is the longest line's length, or 0 without lines |
| Day06.Pad | rust/src/solutions/day_06.rs:92-96 | a grid row is the line followed by spaces up to the width |
| Day06.FindProblemRanges | rust/src/solutions/day_06.rs:121-143 | the ranges are in order, non-empty, contain no separator column, are bounded by separator columns or the grid's edge, and cover every non-separator column |
| Day06.ProblemOp | rust/src/solutions/day_06.rs:149-159 | a problem adds iff its operator slice holds '+', and multiplies iff it holds '*' but no '+'; otherwise it panics |
| Day06.BuildProblems | rust/src/solutions/day_06.rs:145-165 | the problems are built iff every range has an operator, one problem per range in order |
| Day06.RangeIsRun | rust/src/solutions/day_06.rs:121-143 | each problem range starts at the first non-separator column after the range before it and ends at the next separator or the edge |
| Day06.ProblemRangesUnique | rust/src/solutions/day_06.rs:125-143 | a grid has exactly one list of problem ranges: the maximal runs of non-separator columns, left to right |
| Day06.SheetDetermined | rust/src/solutions/day_06.rs:84-106 | the problem ranges of the padded grid are unique, and the input parses to at most one worksheet, the one those ranges give |
| Day06.ParseWorksheet | rust/src/solutions/day_06.rs:84-106 | an input without lines underflows `height - 1`; otherwise the result is the worksheet or error the grid's problem ranges give, and a parsed worksheet is the only one the input parses to |
| Day06.ColumnDigits | rust/src/solutions/day_06.rs:178-186 | the digits collected from a column above the operator row are digits, at most one per row |
| Day06.ColumnDigitsEmpty | rust/src/solutions/day_06.rs:178-186 | no digit is collected iff no row above the operator row has a digit in that column |
| Day06.ReadNumberParses | rust/src/solutions/day_06.rs:178-194 | reading a column is parsing its collected digits, with no digits being the parse error |
| Day06.ReadNumberDigits | rust/src/solutions/day_06.rs:178-194 | a column reads iff some row above the operator row has a digit there, and then gives the digits' decimal value |
| Day06.ReadNumbers | rust/src/solutions/day_06.rs:167-176 | a problem's numbers are one per column |
| Day06.ReadNumbersOk | rust/src/solutions/day_06.rs:167-176 | a problem's numbers are read iff every column of its range reads |
| Day06.ReadNumbersRightToLeft | rust/src/solutions/day_06.rs:167-176 | the i-th number read is the number of column `end - 1 - i` |
| Day06.SolveFromOk | rust/src/solutions/day_06.rs:108-110 | the sum over problems is defined iff every problem evaluates |
| Day06.EvalOrderFree | rust/src/solutions/day_06.rs:112-119 | the right-to-left reading order does not change a problem's sum or product |
| Day06.SheetAnswerMeaning | rust/src/solutions/day_06.rs:46-50 | the answer the ranges give exists iff the input parses to a worksheet whose every problem evaluates, and is then that worksheet's sum |
| Day06.SecondAnswer | rust/src/solutions/day_06.rs:46-50 | an input without lines is the underflow error; otherwise the answer is the one the grid's problem ranges give, and it exists iff the input parses and every problem evaluates |
| Day07.FindStart | rust/src/solutions/day_07.rs:59-72 | the scan finds a start iff some row holds 'S' and every row up to it has the first row's width; it finds the first 'S' in row-major order |
| Day07.Parse | rust/src/solutions/day_07.rs:50-87 | parsing succeeds iff a start is reachable; the simulation keeps the lines, their count and the first row's width, and starts one beam and one timeline at the first 'S' |
| Day07.PresenceRowSaturates | rust/src/solutions/day_07.rs:97-121 | after a row is resolved, every beam is inside the row and none stands on a splitter |
| Day07.PresenceRowIdempotent | rust/src/solutions/day_07.rs:97-121 | resolving a resolved row again changes nothing and counts no split |
| Day07.ResolveRowSplitters | rust/src/solutions/day_07.rs:97-121 | the find-remove-insert loop ends at the saturated frontier, and adds one split per distinct splitter reached |
| Day07.SplitBeam | rust/src/solutions/day_07.rs:107-119 | a split removes the beam and adds its in-bounds left and right neighbours |
| Day07.SaturatedFrontier | rust/src/solutions/day_07.rs:97-121 | when no beam stands on a splitter, the splitters removed are exactly those reached, and the frontier is the row's result |
| Day07.SplitGrowth | rust/src/solutions/day_07.rs:142-175 | one split of t timelines adds t to the total of in-flight plus finished timelines |
| Day07.ResolveRowSplittersQuantum | rust/src/solutions/day_07.rs:123-177 | the queue loop yields the row's counts and finished timelines; counts stay non-negative, `finished` never falls, and no splitter keeps timelines |
| Day07.QueueSplitters | rust/src/solutions/day_07.rs:124-130 | the initial queue holds, in increasing order, exactly the splitter columns with timelines |
| Day07.FiringOrderSorted | rust/src/solutions/day_07.rs:126-130 | the queue's column order is increasing |
| Day07.FiringOrderMembers | rust/src/solutions/day_07.rs:126-130 | the queue holds exactly the firing columns |
| Day07.DrainQueue | rust/src/solutions/day_07.rs:132-176 | draining the queue fires each queued splitter once, giving the counts and exits of firing that set |
| Day07.SpillTimelines | rust/src/solutions/day_07.rs:142-175 | one firing moves t timelines to each neighbour, or to `finished` at an edge, and enqueues nothing on a grid without adjacent splitters |
| Day07.QuantumRowFacts | rust/src/solutions/day_07.rs:123-177 | after a row, counts are non-negative, exits are non-negative, and no splitter column keeps timelines |
| Day07.QuantumRowIdempotent | rust/src/solutions/day_07.rs:123-177 | resolving a resolved row again changes nothing and finishes nothing |
| Day07.SupportAfterRow | rust/src/solutions/day_07.rs:97-177 | the columns with timelines after a row are exactly the beam frontier after the row |
| Day07.QuantumGrowth | rust/src/solutions/day_07.rs:142-175 | across a row, finished plus in-flight timelines grow by exactly the timelines that fired |
| Day07.BeamRun | rust/src/solutions/day_07.rs:11-19 | the row loop never lowers the split count |
| Day07.First | rust/src/solutions/day_07.rs:8-20 | `first` computes the presence-mode run from the row below the source |
| Day07.RunBeams | rust/src/solutions/day_07.rs:11-17 | the imperative row loop, with its early exit, computes the presence-mode run |
| Day07.BeamRow | rust/src/solutions/day_07.rs:12-16 | one turn of the loop: an empty frontier ends the run with the current count, and otherwise the rest of the run is unchanged |
| Day07.Second | rust/src/solutions/day_07.rs:22-35 | `second` computes the multiplicity-mode run from the row below the source |
| Day07.RunTimelines | rust/src/solutions/day_07.rs:26-34 | the imperative row loop, with its all-zero exit, computes the multiplicity-mode run |
| Day07.TimelineRow | rust/src/solutions/day_07.rs:27-31 | one turn of the loop: all-zero counts end the run at finished plus in-flight, and otherwise the rest of the run is unchanged |
| Day07.AllZeroIffNoSupport | rust/src/solutions/day_07.rs:14-29 | the two loops' exit tests agree: all counts are zero iff no column has timelines |
| Day07.RowAgree | rust/src/solutions/day_07.rs:97-177 | per row, the multiplicity frontier's support is the presence frontier, both exits agree, and the total grows by at least the splits |
| Day07.RunsAgree | rust/src/solutions/day_07.rs:8-35 | the two runs from the same frontier fail together, and the multiplicity total grows by at least as much as the split count |
| Day07.NoSplitsBelow | rust/src/solutions/day_07.rs:11-19 | below a source with no splitter under it, the split count never changes |
| Day07.NoTimelineSplitsBelow | rust/src/solutions/day_07.rs:26-34 | with no splitter below, the timelines are all still in flight at the bottom |
| Day07.InitialAgrees | rust/src/solutions/day_07.rs:74-76 | initially the timeline support is the one beam and the total is one timeline |
| Day07.SecondExceedsFirst | rust/src/solutions/day_07.rs:8-35 | both parts fail on the same inputs, and the second answer is at least the first plus one |
| Day07.NoSplittersAnswers | rust/src/solutions/day_07.rs:8-35 | a grid without splitters below the source gives answers 0 and 1 |
| Day08.FieldValues | rust/src/solutions/day_08.rs:26-29 | each field is trimmed and parsed |
| Day08.Coordinate | rust/src/solutions/day_08.rs:27-29 | a coordinate is read iff its field exists and parses; a missing field and a bad field are the two distinct unwrap errors |
| Day08.ParsePointOk | rust/src/solutions/day_08.rs:25-32 | a line parses iff its first three comma fields parse, giving the point of those values |
| Day08.ParsePointErrors | rust/src/solutions/day_08.rs:25-32 | a bad first field is a parse error, and fewer than three good fields is the missing-field error |
| Day08.ParseShowPoint | rust/src/solutions/day_08.rs:25-32 | parsing the printed form of any point returns it |
| Day08.NonBlank | rust/src/solutions/day_08.rs:99-101 | the kept lines are exactly the lines that are not blank once trimmed |
| Day08.NonBlankConcat | rust/src/solutions/day_08.rs:99-103 | the kept lines come in input order with repeats kept: the kept lines of two blocks are the first block's followed by the second's, so each box's index is its place among the non-blank lines |
| Day08.DistSymmetric | rust/src/solutions/day_08.rs:34-39 | the squared distance is symmetric |
| Day08.DistZero | rust/src/solutions/day_08.rs:34-39 | the squared distance is zero iff the points are equal |
| Day08.RowEdges | rust/src/solutions/day_08.rs:110-116 | the inner loop yields, in loop order, exactly the edges from box i to the boxes from j on |
| Day08.EdgesFrom | rust/src/solutions/day_08.rs:109-117 | the loops from box i on yield, in loop order, exactly the edges whose first end is at least i |
| Day08.Edges | rust/src/solutions/day_08.rs:107-117 | the edge list holds exactly the pairs a < b of boxes, with their distance, in loop order |
| Day08.EdgeCount | rust/src/solutions/day_08.rs:107 | there are n(n-1)/2 edges, the capacity the source reserves |
| Day08.SortEdges | rust/src/solutions/day_08.rs:119 | the sort is a permutation ordered by (dist, a, b) |
| Day08.SortedUnique | rust/src/solutions/day_08.rs:119 | any two lists sorted by that key with the same elements are equal, so the unstable sort's result is determined |
| Day08.UnionKeepsJoins | rust/src/solutions/day_08.rs:123-125 | one more union keeps every earlier edge's ends in one set and joins the new edge's ends |
| Day08.LabelsJoin | rust/src/solutions/day_08.rs:121-125 | in the reference labelling, the ends of each of the first t edges share a label |
| Day08.LabelsFinest | rust/src/solutions/day_08.rs:121-125 | any labelling that joins the ends of the first t edges also joins every pair the reference labelling joins: no other pair is connected |
| Day08.UnionTracks | rust/src/solutions/day_08.rs:71-86 | one union of a union-find whose roots are the reference labels gives roots that are the labels after the same join, the larger set's label kept |
| Day08.TrackedSizes | rust/src/solutions/day_08.rs:88-95 | the component sizes of a union-find whose roots are the reference labels are the reference class sizes |
| Day08.Take | rust/src/solutions/day_08.rs:123-124 | one turn of the union loop keeps the sizes counted, the set count, and the roots equal to the reference labels after one more edge |
| Day08.Cluster | rust/src/solutions/day_08.rs:121-125 | after the union loop the roots are exactly the reference labels of the first k edges: two boxes share a root iff those edges connect them; sizes are counted and each merge removes one set |
| Day08.CircuitSizesFacts | rust/src/solutions/day_08.rs:127-134 | the circuit sizes after joining the k shortest edges are positive and sum to the number of boxes |
| Day08.TriangleCircuits | rust/src/solutions/day_08.rs:121-127 | four boxes joined by the edges 0-1, 1-2 and 0-2 form circuits of sizes 3 and 1 |
| Day08.TriangleAnswer | rust/src/solutions/day_08.rs:128-136 | circuit sizes 3 and 1 give the product 3 |
| Day08.SortDesc | rust/src/solutions/day_08.rs:128 | the descending sort is a permutation in non-increasing order |
| Day08.Largest | rust/src/solutions/day_08.rs:130-134 | `take(3)` keeps min(3, n) sizes |
| Day08.LargestAreLargest | rust/src/solutions/day_08.rs:128-134 | the kept sizes are in descending order, drawn from the sizes, and no left-out size exceeds any kept one |
| Day08.Solve | rust/src/solutions/day_08.rs:105-136 | no boxes underflows `n - 1`; otherwise the answer is the product of the three largest circuit sizes after joining the k shortest edges |
| Day08.SolveFirst | rust/src/solutions/day_08.rs:98-137 | parse errors pass through; an empty list underflows; otherwise the answer is the product of the three largest circuit sizes of the parsed boxes |
| Day08.FirstAnswer | rust/src/solutions/day_08.rs:8-10 | part one joins the 1000 shortest edges, succeeds iff the points parse and there is at least one, and is the product of the three largest circuit sizes |
| DisjointSets.Root | rust/src/solutions/day_08.rs:63-69 | the root reached by following parents is its own parent |
| DisjointSets.RootIsSelf | rust/src/solutions/day_08.rs:63-69 | an element is its own root iff it is its own parent |
| DisjointSets.NewCounts | rust/src/solutions/day_08.rs:56-61 | a new structure is valid, its sizes count members, and it has n sets |
| DisjointSets.Compress | rust/src/solutions/day_08.rs:64-67 | pointing an element straight at its root changes no element's root |
| DisjointSets.Find | rust/src/solutions/day_08.rs:63-69 | `find` returns the root, keeps the sizes and every element's root, and leaves `x` pointing at its root |
| DisjointSets.FindKeepsSizes | rust/src/solutions/day_08.rs:63-69 | path compression keeps every root's size equal to its member count |
| DisjointSets.Union | rust/src/solutions/day_08.rs:71-86 | `union` reports a merge iff the roots differ; the larger set's root absorbs the other, its size becoming the sum, and every other root is unchanged |
| DisjointSets.UnionKeepsSizes | rust/src/solutions/day_08.rs:71-86 | after a union, every root's size still equals its member count |
| DisjointSets.UnionRootCount | rust/src/solutions/day_08.rs:71-86 | a merging union lowers the number of sets by one, and a non-merging one keeps it |
| DisjointSets.UnionConnects | rust/src/solutions/day_08.rs:71-86 | after a union, its two arguments share a root, and elements that shared a root still do |
| DisjointSets.ComponentSizes | rust/src/solutions/day_08.rs:88-95 | the map has exactly the roots as keys, each mapped to the number of elements under it |
| DisjointSets.ComponentSizesTotal | rust/src/solutions/day_08.rs:88-95 | the map's values number one per set and sum to the number of elements |
| DisjointSets.ComponentListFacts | rust/src/solutions/day_08.rs:88-95 | the sizes, in root order, are positive and sum to the number of elements |
| DisjointSets.RootSizesList | rust/src/solutions/day_08.rs:94 | the values of the map, in root order, are the member counts of the roots |
| Day09.ParsePoint | rust/src/solutions/day_09.rs:40-46 | a line without ',' is the `split_once` unwrap error |
| Day09.ParsePointFields | rust/src/solutions/day_09.rs:40-46 | a line with ',' parses iff both halves parse, giving the point of their values |
| Day09.ParseShowPoint | rust/src/solutions/day_09.rs:37-48 | parsing the printed form of any point returns it |
| Day09.Area | rust/src/solutions/day_09.rs:30-34 | a rectangle spans at least one tile and is at least as long as each side |
| Day09.AreaSymmetric | rust/src/solutions/day_09.rs:30-34 | the two corners may be swapped |
| Day09.AreaSelf | rust/src/solutions/day_09.rs:30-34 | a rectangle with equal corners covers one tile |
| Day09.InnerFold | rust/src/solutions/day_09.rs:12-15 | the inner fold is at least its seed and every pair's area from j on |
| Day09.InnerFoldAttained | rust/src/solutions/day_09.rs:12-15 | the inner fold is its seed or the area of one of the pairs |
| Day09.OuterFold | rust/src/solutions/day_09.rs:11-17 | the outer fold is at least its seed and every later pair's area |
| Day09.OuterFoldAttained | rust/src/solutions/day_09.rs:11-17 | the outer fold is its seed or the area of one of the pairs |
| Day09.LargestAreaIsMax | rust/src/solutions/day_09.rs:9-20 | the answer is the largest area over all pairs of distinct points, attained by one, and 0 with fewer than two points |
| Day09.LargestAreaAttained | rust/src/solutions/day_09.rs:9-20 | a pair's area that no pair exceeds is the answer |
| Day09.SampleLargestArea | rust/src/solutions/day_09.rs:56-70 | in the puzzle's example of eight tiles, the largest rectangle covers 50 tiles |
| Day09.FirstAnswer | rust/src/solutions/day_09.rs:9-20 | part one succeeds iff every line parses, and is then the largest area |
| Text.ParseIntToString | rust/src/solutions/day_02.rs:38-45 | parsing the decimal text of any integer returns it |
| Text.LinesOfJoinLines | rust/src/solutions/day_01.rs:49-50 | splitting joined lines returns them |
| Text.Lines | rust/src/solutions/day_01.rs:49-50 | no line holds a line break, and a text has lines exactly when it is non-empty |
| Text.SplitCons | rust/src/solutions/day_02.rs:33 | splitting a piece without the separator followed by the separator yields that piece first |
| Text.SplitJoin | rust/src/solutions/day_02.rs:33 | splitting joined pieces on a separator they lack returns them |
| Text.SplitOnceJoin | rust/src/solutions/day_02.rs:36 | `split_once` splits at the first separator |
| Text.TrimStart | rust/src/solutions/day_01.rs:51 | the result is a suffix of the text, everything cut off is whitespace, and it does not start with whitespace |
| Text.TrimEnd | rust/src/solutions/day_01.rs:51 | the result is a prefix of the text, everything cut off is whitespace, and it does not end with whitespace |
| Text.ParseInt | rust/src/solutions/day_02.rs:38-39 | a parse needs a non-empty text, a negative value needs a leading '-', and an unsigned text parses exactly when it is a numeral |
| Results.Collect | rust/src/solutions/day_08.rs:99-103 | a successful collection has one value per item |
| Results.CollectOk | rust/src/solutions/day_08.rs:99-103 | collecting succeeds iff every item does, and keeps the values in order |
| Results.CollectFirstError | rust/src/solutions/day_08.rs:99-103 | a failed collection reports the first failing item's error, as a lazy iterator panics at the first bad item |

## Left out

- Machine integers: `i32`, `i64`, `i128`, `isize` and `usize` are
  unbounded `int`/`nat`. Overflow, including the checked additions of
  day_07.rs and the `as` casts, is not modelled. Neither is the range
  limit of `parse`, so a numeral that would not fit is read as its value.
  Only these integer underflows, which the code can reach on small
  inputs, are modelled, as errors: the `u8` subtraction `b - b'0'` and
  the `usize` subtraction `n - 12` in day_03.rs, `to - from + 1` in
  day_05.rs, `height - 1` in day_06.rs, and `n - 1` in day_08.rs.
- Text is `seq<char>`, and every byte is one character. Day06 pads rows
  by character count where the source uses byte length. They agree on
  ASCII input.
- Error messages are fixed strings. The exact text of Rust's parse errors
  is not modelled.
- Panic order: `Results.Collect` reports the first failing item. This
  matches the lazy iterators when every item fails the same way; it does
  not track side effects before a panic.
- Day08 second part (`todo!`) and Day09 second part (a constant 0) are not
  modelled.
- `main.rs`, `solvable.rs` and the module list are not part of this model.
  The `Solution` wrapper is the plain number.
- Library sorts are insertion sorts with a sortedness-and-permutation
  contract. `Day08.SortedUnique` shows the unstable sort's result is
  determined by its key. `Day05.SortByFrom` is stable like `sort_by_key`
  (`Day05.SortPairStable` shows it for two ranges), but its contract
  states only sortedness and permutation. The merged list depends on the
  order of equal-`from` ranges only when one of them is inverted:
  `Day05.InvertedOrderMatters` shows `5-3, 5-10` underflowing in part two
  while `5-10, 5-3` counts 6.
- Hash sets and hash maps are Dafny sets and maps. `DisjointSets.ComponentList`
  lists a `HashMap`'s values in increasing key order. The source's order
  is unspecified, and only the sorted result is used.
- `partition_point` is modelled by `Day05.PartitionPoint` as a binary
  search with the same result on sorted input.
- Day06.ReadNumber: defined from the collected digits. `Day06.ReadNumberParses`
  proves this equals `parse::<i128>` of the digit string.
- Day07.Simulable: both row loops run forever when a beam reaches a
  splitter with another splitter beside it. The answers are stated only
  for grids with no adjacent splitters anywhere below the source. This
  precondition is stronger than the source needs: a pair of adjacent
  splitters that no beam reaches does not make the loops diverge, but
  such grids are still left out. The same holds for `Day07.RowsFrom`.
- Day07.BeamRun and Day07.TimelineRun return an error for a row below the
  source whose width differs from the first row's. The source panics only
  on a shorter row, and only if a beam reaches its missing column; a
  longer row is accepted.
- Day02.ParseRangesText: the round trip holds only for non-negative lower
  bounds. The '-' of a negative lower bound would be taken as the
  separator.
- Day01.SecondAtLeastFirst: holds only when every distance is positive.
  `Day01.ZeroDistanceCounts` shows a zero distance at position 0 counted
  by the first part but not the second.
- Whitespace: `Text.Trim` and `Text.SplitWhitespace` treat only ASCII
  space, tab, line feed, vertical tab, form feed and carriage return as
  whitespace. Rust's `str::trim` and `split_whitespace` also strip the
  other Unicode whitespace characters, so the two differ on such input.
- Worked examples: only the examples of day_05.rs and day_09.rs are
  stated as lemmas. The Day05 lemmas start from the parsed ranges and
  IDs, not from the input text. The examples of the other days are not
  stated, because evaluating their answers symbolically is too costly
  for the verifier. Day08's example joins 10 edges among 20 boxes;
  `Day08.TriangleCircuits` states a four-box instance instead.
