# Five puzzle solvers, modelled and verified in Dafny

This project models five small, independent puzzle solvers written in Rust, one
module per source file. It proves what each of them computes.

- `Day1` (src/day1.rs) models a dial with positions 0 to 99 that starts at 50.
  It parses `L<n>`/`R<n>` turns. It counts the turns that leave the dial at 0
  (`execute`), and the times the dial shows 0 at any click (`execute_p2`).
- `Day2` (src/day2.rs) models ids whose decimal form is one block of digits
  repeated. `is_invalid` checks for a block repeated twice; `is_invalid_p2` for a
  block repeated at least twice. It also models the comma-separated `a-b` id
  ranges and the filters over them.
- `Day3` (src/day3.rs) models battery banks: a line of digits. The bank's power
  is the largest number written by k of its digits kept in order. `max_power`
  computes it for k = 2; `max_power_v2` for any k, with a windowed greedy loop.
- `Day4` (src/day4.rs) models a grid of paper rolls (`@`). A roll with fewer than
  four of its eight neighbours occupied can be moved. `remove_moveable` takes
  away all such rolls at once; `cleanup` repeats that until nothing can move.
- `Day5` (src/day5.rs) models an inventory of id ranges and items. It counts the
  items inside some range. It merges overlapping ranges until none overlap, then
  sums their sizes.

Shared modules:

- `Text` holds the `Result` type and the Rust `str` operations the parsers use.
  These are `trim`, `lines`, `split`, `split_once`, `parse::<usize>`, and
  `collect` into a `Result`.
- `Decimal` holds powers of ten, the value of a digit string, and the exact
  digit count of a number.
- `Ranges` holds `RangeInclusive`.

Each loop in the source is a `method` with loop invariants. The loops are
`execute`, `execute_p2`, the two loops of `is_invalid_p2`, the fold of
`max_power_v2`, all loops of `Grid`, and the loops of `Inventory`. Each method
is proved against a specification function whose properties are lemmas. `Grid`
and `Inventory` are classes. Their methods update `cells` and `ranges` in place
and state the new state in their postconditions. Iterator pipelines become
functions.

Three modelling choices for the bank solver:

- A selection length of 0 gives 0 in `max_power_v2`, as the empty fold does.
  It is not an error.
- The parse error for a bank names the bad character but not its position.
- The two tie-break policies of `max_power` are kept as written: earliest
  maximum on the left, latest on the right. `Day3.MaxPowerMatchesGreedy` proves
  that the result never differs from the greedy k = 2 result.

## Model

| member | source | states |
|---|---|---|
| Day1.ParseInstruction | src/day1.rs:28-42 | Parsing succeeds exactly when the first character is `L` or `R` and the rest parses as a number. The direction follows that character and the count is the number. An empty line is an error (the source panics in `split_at`). Any other first character gives "Invalid direction: c". A bad count gives "Invalid count: " plus the parse error. |
| Day1.ParseShowInstruction | src/day1.rs:28-42 | Writing an instruction as text and parsing it back gives the same instruction. |
| Day1.ParseList | src/day1.rs:46-51 | The list parses exactly when every trimmed line parses. The instructions are in line order. On failure the error is that of the first line that fails. |
| Day1.PosAt | src/day1.rs:55-62 | The dial starts at 50 and is below 100 after every instruction. |
| Day1.ClicksClosedForm | src/day1.rs:58-62 | n single clicks move the dial to (pos - n) mod 100 turning left and (pos + n) mod 100 turning right. |
| Day1.TurnIsClicks | src/day1.rs:58-62 | One turn ends where `count` single clicks end, and also where `count % 100` clicks end. |
| Day1.Execute | src/day1.rs:53-69 | The loop returns the number of instructions after which the dial shows 0, so at most the list length. |
| Day1.LandingsAreLandingSet | src/day1.rs:57-68 | That count is the size of the set of instruction numbers after which the dial shows 0. |
| Day1.ExecuteP2 | src/day1.rs:71-94 | The loop returns the sum of the per-instruction rule: full turns plus one if the partial turn ends on 0 or wraps past 0 from a non-zero start. The result is at least what `execute` returns. |
| Day1.PassesAtLeastLandings | src/day1.rs:64-66 | Every landing on 0 is also counted by the rule of `execute_p2` (line 85-86). |
| Day1.ClickZerosClosedForm | src/day1.rs:76-88 | Counted click by click, a right turn shows 0 (pos + n) / 100 times. A left turn shows 0 n / 100 times from 0 and (n + 100 - pos) / 100 times from elsewhere. |
| Day1.PassCountIsClickZeros | src/day1.rs:76-88 | The per-instruction rule equals the click-by-click count, except for a turn that starts at 0 with `count % 100 == 0`. |
| Day1.PassesAreClickZeros | src/day1.rs:71-94 | Over a list with no such turn, `execute_p2` counts exactly the clicks that leave the dial at 0. |
| Day1.IdleTurnOvercounts | src/day1.rs:84-86 | On `L50, R100` the dial reaches 0 after the first turn. `execute_p2` then gives 3, but the clicks show 0 twice. |
| Day1.FixedPassCountIsClickZeros | src/day1.rs:76-88 | The rule with the start at 0 excluded from the partial-turn test equals the click-by-click count on every input. |
| Day1.FixedExecuteP2 | src/day1.rs:71-94 | The loop with the corrected rule returns the number of clicks that leave the dial at 0. |
| Day1.ExampleCounts | src/day1.rs:101-120 | On the ten-turn example the dial lands on 0 three times, and `execute_p2` counts 6. |
| Day2.IdPairToRangeSpec | src/day2.rs:8-22 | `id_pair_to_range` succeeds exactly when some '-' has a number on each side. That '-' is then the only one, and the result is the range from the left number to the right. |
| Day2.IdPairToRangeErrors | src/day2.rs:9-19 | With no '-' the error is "Invalid ID pair format". Otherwise, at the first '-', a bad left side gives the start-ID error and a bad right side gives the end-ID error. |
| Day2.IdPairShowRange | src/day2.rs:8-22 | A range written as "start-end" parses back to itself. |
| Day2.FromList | src/day2.rs:86-93 | The list parses exactly when every trimmed comma-separated piece parses. The ranges are in order. On failure the error is that of the first failing piece. |
| Day2.FromListShow | src/day2.rs:86-93 | Ranges joined with ',' parse back to the same list. |
| Day2.IsInvalidIff | src/day2.rs:24-31 | For an id of at least 1, `is_invalid` holds exactly when the digit count is even and the two halves are the same digits. |
| Day2.TwoDigitIsInvalid | src/day2.rs:24-31 | A two-digit id is flagged exactly when its two digits agree. |
| Day2.RepeatOfIff | src/day2.rs:33-70 | "ds is block b repeated" holds exactly when the length of ds is a multiple of that of b and digit i of ds is digit i mod the block length of b. |
| Day2.IsInvalidP2 | src/day2.rs:33-70 | The nested loops return true exactly when, for some width e from 1 to half the digit count, the digits are the first e digits repeated. |
| Day2.ChunksMatch | src/day2.rs:48-60 | The inner loop returns whether every chunk of the divisor's width, from the lowest, equals the lowest chunk. |
| Day2.ChunkTestIsRepeat | src/day2.rs:48-60 | For a width e that divides the digit count, the chunk test with divisor 10^e holds exactly when the digits are their first e digits repeated. |
| Day2.NoBlockOfWidth | src/day2.rs:42-46 | A width that does not divide the digit count cannot repeat, so skipping it changes nothing. |
| Day2.IsInvalidImpliesRepeatedBlock | src/day2.rs:24-40 | Every id of at least 1 that `is_invalid` flags is also flagged by `is_invalid_p2`. 0 is flagged by `is_invalid` but not by `is_invalid_p2`. |
| Day2.NotRepeated10101 | src/day2.rs:105-108 | 10101 is not flagged by `is_invalid_p2`. |
| Day2.Repeated2424 | src/day2.rs:34-35 | 2424 is flagged by `is_invalid_p2`. |
| Day2.SelectInvalid | src/day2.rs:72-74 | The result holds exactly the ids of the range that `is_invalid` flags, in ascending order. |
| Day2.SelectInvalidDetermined | src/day2.rs:72-74 | Any ascending list of exactly those ids is the result. |
| Day2.ExampleInvalidIds | src/day2.rs:4 | In the example range 11-22 the flagged ids are exactly 11 and 22. |
| Day2.SelectInvalidP2 | src/day2.rs:76-78 | The loop returns exactly the ids of the range that `is_invalid_p2` flags, in ascending order. |
| Day3.ParseBank | src/day3.rs:14-24 | Parsing succeeds exactly when every character of the trimmed line is a digit. The bank has one digit per character, with that character's value. Otherwise the error names the first non-digit. |
| Day3.ParseShowBank | src/day3.rs:14-24 | A bank written as digits parses back to itself. |
| Day3.ReadList | src/day3.rs:76-78 | The list parses exactly when every trimmed line parses. The banks are in line order. On failure the error is that of the first line that fails. |
| Day3.ArgMaxEarliestIsMax | src/day3.rs:40-44 | The left scan finds a largest digit of the window, and every digit before it is smaller. |
| Day3.ArgMaxLatestIsMax | src/day3.rs:46-52 | The right scan finds a largest digit of the window, and every digit after it is smaller. |
| Day3.MaxPower | src/day3.rs:32-55 | `max_power` fails, with the panic's message, exactly when the bank has fewer than two digits. Otherwise the result is below 100. |
| Day3.MaxPowerIsBestPair | src/day3.rs:32-55 | The result is at least 10 * d[i] + d[j] for every pair i < j, and equals it for one such pair. |
| Day3.GreedyPicks | src/day3.rs:60-70 | The greedy choice gives k indices inside the bank, strictly increasing. That is, each window is non-empty and the cursor only moves forward. |
| Day3.IncreasingIff | src/day3.rs:66-70 | Each index is below the next exactly when every earlier index is below every later one. |
| Day3.GreedyDigits | src/day3.rs:58-73 | The fold loop with its moving cursor computes the greedy accumulation. |
| Day3.GreedyAccumValue | src/day3.rs:60-73 | The accumulator equals the digits at the greedy indices written as one number. |
| Day3.GreedyIsOptimal | src/day3.rs:57-74 | No selection of k digits in order, starting at or after the cursor, writes a larger number than the greedy one. |
| Day3.GreedyIsBest | src/day3.rs:57-74 | The greedy value is below 10^k and is the largest over all selections. When k is the bank length it is the whole bank's value. |
| Day3.MaxPowerV2 | src/day3.rs:57-74 | `max_power_v2` fails exactly when more digits are asked for than the bank has. The error is the message of the source's panic: the `unwrap` of an empty window (line 68) for one digit too many, the underflow of `len - reserve` (line 62) for more. Otherwise it returns the greedy digits' value. That value is below 10^k, at least every in-order selection of k digits, and the whole bank's value when k is its length. |
| Day3.MaxPowerMatchesGreedy | src/day3.rs:32-74 | For a bank of two or more digits `max_power` equals `max_power_v2(2)`, despite the different tie-break on the right. |
| Day3.MaxPowerAt | src/day3.rs:32-55 | The converse of `MaxPowerIsBestPair`: if `left` holds the earliest largest digit before the last position and `right` the last largest digit after it, `max_power` is the number those two digits write. |
| Day3.ExampleMaxPower1 | src/day3.rs:4 | On "987654321111111" the two-digit power is 98. |
| Day3.ExampleMaxPower2 | src/day3.rs:5 | On "811111111111119" the two-digit power is 89. |
| Day3.ExampleMaxPower3 | src/day3.rs:6 | On "234234234234278" the two-digit power is 78. |
| Day3.ExampleMaxPower4 | src/day3.rs:7 | On "818181911112111" the two-digit power is 92. |
| Day3.ExampleTotalPower | src/day3.rs:85-90 | The example banks' two-digit powers add up to 357, the value the source's test expects. |
| Day3.TieBreaksDiffer | src/day3.rs:43-51 | On "999" the right scan of `max_power` picks index 2 and the greedy picks index 1. Both give 99. |
| Day4.NeighborCountBound | src/day4.rs:62-78 | The occupied neighbours lie among the eight cells around, so there are at most 8. |
| Day4.Grid.Neighbors | src/day4.rs:62-78 | The loop returns the number of occupied cells among the eight around the position, itself excluded. |
| Day4.Grid.TryFrom | src/day4.rs:27-58 | An empty trimmed text gives "Input grid is empty". Parsing succeeds exactly when every character is '@' or '.'. The grid then holds (x, y) exactly where row y has '@' at column x, and width and height are the first row's length and the row count. Otherwise the error names the first bad character and its column and row. |
| Day4.Grid.ScanRows | src/day4.rs:36-51 | The row loop collects exactly the '@' cells, or fails at the first bad character. |
| Day4.Grid.ScanRow | src/day4.rs:37-50 | The column loop adds exactly the '@' cells of one row, or fails at its first bad character. |
| Day4.Grid.CountMovable | src/day4.rs:80-86 | The count of rolls with fewer than four neighbours is at most the number of rolls. It is 0 exactly when every roll has at least four. |
| Day4.StableIffNoneMovable | src/day4.rs:80-86 | A grid has no movable roll exactly when every roll has at least four neighbours. |
| Day4.Grid.MovableCells | src/day4.rs:89-94 | The filter collects exactly the rolls with fewer than four neighbours. |
| Day4.Grid.RemoveMovable | src/day4.rs:88-103 | The grid loses exactly the rolls that were movable on the grid before any removal. The result is that number, which is `count_moveable` of the old grid and the drop in roll count. Width and height are unchanged. |
| Day4.Grid.Cleanup | src/day4.rs:105-115 | The loop ends with the settled grid: erosion repeated until nothing moves. It returns the number of rolls removed. Afterwards every roll has at least four neighbours and `count_moveable` is 0. |
| Day4.SettleIsStable | src/day4.rs:105-115 | The settled grid keeps only original rolls, and none of them is movable. |
| Day4.SettleIsLargest | src/day4.rs:105-115 | Every set of rolls in which each has four neighbours within the set survives the cleanup, so the settled grid is the largest such set. |
| Day4.BlockExample | src/day4.rs:80-115 | In a 2 by 2 block every roll has three neighbours, all four are movable, and cleanup removes them all. |
| Day5.CountFreshIsPositions | src/day5.rs:23-29 | The fresh count is the number of item positions whose item some range contains, repeats included. |
| Day5.Inventory.FreshCount | src/day5.rs:23-29 | `fresh_count` is that number of positions, so at most the number of items. |
| Day5.CountFreshSameCover | src/day5.rs:23-29 | Two range lists that cover the same ids give the same fresh count. |
| Day5.ParseRangeLineShow | src/day5.rs:74-85 | A range written as "start-end" reads back as itself. |
| Day5.ParseRangeLineNoDash | src/day5.rs:74-76 | A range line without '-' fails with "Invalid range line". |
| Day5.ParseRanges | src/day5.rs:73-86 | The range loop gives the ranges in line order, or the error of the first line that fails. |
| Day5.Inventory.FromStr | src/day5.rs:66-99 | Without a blank line the input fails with "Invalid inventory input". Otherwise the first bad range line decides the error, then the first bad item line. If all parse, the inventory holds the ranges and the items in order. |
| Day5.HullCovers | src/day5.rs:50-52 | The hull of two overlapping well-formed ranges covers exactly what the two cover. |
| Day5.MergeShorter | src/day5.rs:53-54 | Removing the pair and appending their hull shortens the list. |
| Day5.MergeCovers | src/day5.rs:49-54 | On well-formed ranges the merge keeps the ranges well-formed and covers exactly the same ids. |
| Day5.Inventory.Compact | src/day5.rs:42-59 | Without a change the ranges are unchanged and no two at different positions overlap by the test on line 49. With a change, the first overlapping pair in the loops' order is merged, and the list is shorter. Items are unchanged. |
| Day5.NoOverlapIsDisjoint | src/day5.rs:49 | When no range contains another's start or end, no id lies in two ranges. |
| Day5.Inventory.MaxCompact | src/day5.rs:36-40 | Repeated compaction ends with ranges that pairwise neither overlap nor share an id, and the list is no longer. For well-formed ranges the same ids are covered. |
| Day5.SumCountsIsUnion | src/day5.rs:33 | On disjoint ranges the sum of the counts is the number of ids covered. |
| Ranges.CountIsMembers | src/day5.rs:33 | `RangeInclusive::count` is the number of ids in the range. |
| Day5.Inventory.PossibleFreshCount | src/day5.rs:31-34 | The result is the number of ids the compacted ranges cover. The ranges are left compacted: no two overlap, and there are no more of them than before. For well-formed ranges the compacted ranges cover the same ids as the original ones, the result is the number the original ranges cover, and `fresh_count` is unchanged. |
| Day5.ExampleFreshCount | src/day5.rs:106-110 | On the example inventory `fresh_count` is 3, the value the source's test expects. |
| Day5.ExampleCoveredIds | src/day5.rs:118-122 | The example ranges are well formed and cover 14 ids. By `PossibleFreshCount`'s contract, `possible_fresh_count` returns 14 on them, the value the source's test expects. |
| Text.ParseNat | src/day1.rs:37-39 | `parse::<usize>` succeeds exactly on a non-empty string of ASCII digits. Its errors are "cannot parse integer from empty string" and "invalid digit found in string". |
| Text.ParseShowNat | src/day1.rs:37-39 | A number's decimal form parses back to the number. |
| Text.TrimIsSlice | src/day1.rs:49 | `trim` returns a slice of the line with only whitespace cut from either end. |
| Text.TrimIdempotent | src/day3.rs:77 | Trimming twice, as `read_list` and `try_from` together do, is the same as trimming once. |
| Text.UnlinesLines | src/day1.rs:48 | Splitting a text into lines and ending each line with "\n" gives the text back, with a final "\n" added if it lacked one. |
| Text.SplitJoin | src/day2.rs:88 | Splitting pieces joined by ',' at ',' gives the pieces back when none of them contains ','. |
| Text.SplitOnceChar | src/day2.rs:9-11 | `split_once` on a one-character separator splits at its first occurrence. |
| Text.CollectAll | src/day1.rs:47-50 | `collect` into a `Result` gives all values in order if every item succeeds. Otherwise it gives the error of the first item that fails. |

## Left out

- The embedded puzzle inputs (`include_str!`) and the `*_solution` tests that use them are not part of this model.
- The `println!` logging in `max_compact` is left out.
- The floating-point digit count (`log10`) in `is_invalid` and `is_invalid_p2` is replaced by an exact digit count, `Decimal.NumDigits`. For 0 both give one digit, so `is_invalid(0)` is true in the model as in the source.
- Machine integers: ids, counts and results are unbounded `nat`, so `usize` overflow is not modelled.
- `Day1.ParseInstruction`: the panic of `split_at(1)` on an empty line becomes an error carrying the panic's message. Non-ASCII first characters (a `split_at` panic in the source) are not distinguished.
- `Day3.MaxPower` and `Day3.MaxPowerV2`: the source's panics on too-short banks become errors carrying the panic's message. For `max_power_v2` the underflow message is the one a debug build gives. A release build wraps around and then panics on the out-of-range slice instead.
- `Text.ParseNat`: the leading '+' that `usize::from_str` accepts, and its overflow error, are not modelled.
- `Text.IsSpace` follows Unicode White_Space, but digits are ASCII only: `char::to_digit(10)` accepts nothing else.
- Day5's ill-formed ranges (start past end): `Day5.Inventory.MaxCompact` and `Day5.Inventory.PossibleFreshCount` promise preserved coverage only for well-formed ranges. For such ranges the hull in `compact` can cover more ids than the merged pair.
- `HashSet` iteration order in `Grid` is not modelled: the cells are a set, and the filters visit the rolls in no particular order. No result depends on that order. The `Vec` order of `ranges` is modelled: `retain` keeps the remaining ranges in order, the hull goes last, and `compact` merges the first overlapping pair in the order of its two loops.
- `Grid`'s `width` and `height` are stored, set by `try_from` and preserved, but never used, as in the source.
- Worked examples: Day3's 357 and Day5's 3 and 14 are proved. The examples are typed in as values (`Day1.Example`, `Day3.ExampleBank1` to `Day3.ExampleBank4`, `Day5.ExampleRanges` and `Day5.ExampleItems`); that the parsers turn the example texts into exactly these values is not proved. Not proved at all:
  - Day3's k = 12 total 3121910778619. It would take a chain of twelve greedy rounds for each of the four banks, and that chain is not written out.
  - Day4's 13 and 43. They need the neighbour count of each of the grid's 71 rolls, round after round.
  - Day2's sums 1227775554 and 4174379265. They need the digit tests of each of the 106 ids in the example ranges.
  - Smaller checks stand in for these: `Day4.BlockExample`, `Day2.ExampleInvalidIds`, `Day2.NotRepeated10101` and `Day2.Repeated2424`.
- Some loops are their own methods, for proof cost: the inner loop of `is_invalid_p2` (`Day2.ChunksMatch`), the loops of `try_from` (`Day4.Grid.ScanRows`, `Day4.Grid.ScanRow`), the filter of `remove_moveable` (`Day4.Grid.MovableCells`; `count_moveable` is the function `Day4.Grid.CountMovable` on the set of movable rolls), the fold of `max_power_v2` (`Day3.GreedyDigits`) and the range loop of `from_str` (`Day5.ParseRanges`).
- The cloning of `ranges` in `compact` and its quadratic cost are not modelled.

## Findings

| source | as written | input that shows it | evidently intended | confidence | as-written member | corrected member |
|---|---|---|---|---|---|---|
| src/day1.rs:84-86 | A partial turn that ends on 0 adds one, even when it starts on 0 and so makes no move. | `L50` then `R100`: the second turn starts on 0 and shows 0 once (after its last click). `execute_p2` adds 1 for the full turn and 1 for `new_pos == 0`, giving 3 in total instead of 2. | Count each click that leaves the dial at 0, so skip the partial-turn test when the start is 0. | medium; not executed | Day1.IdleTurnOvercounts | Day1.FixedExecuteP2 |
