# Advent of Code 2022, days 15, 17 and 23, in Dafny

This project models three puzzle solutions of the LuciMouse/AOC2022 repository and proves properties of them.

- **Day 15 (beacon exclusion).** Sensor/beacon readings are parsed from text. Each sensor rules out, on a given row, the x positions no farther from it (in Manhattan distance) than its closest beacon. `range_collapse` merges these ranges into a set of pairwise non-overlapping ranges. `beacon_exclusion` sums their widths. `find_tuning_frequency` scans rows 0 to `max_value` for the first row whose merged ranges are more than one.
- **Day 17 (falling rocks).** Five rock shapes fall in turn into a chamber seven units wide. Each rock is pushed alternately by the next jet of a cycled jet pattern and falls one unit, until a fall is blocked. The result is the height of the tower.
- **Day 23 (elf dispersion).** The implemented helpers are modelled: grid parsing, the eight-neighbour occupancy vector, the proposed move, and the collision-aware move.

## Files

- `wrappers.dfy`: the `Option` type.
- `strings.dfy`: Python's `str.split` with an explicit separator, `int()` on decimal literals, and decimal formatting. Formatting is used to state the parsers' round trips.
- `day15_parsing.dfy`: `parse_location`, `parse_row` and `parse_input` of Day15.py.
- `day15_ranges.dfy`: ranges, `is_overlapping_range`, `extend_ranges` and `range_collapse`.
- `day15.dfy`: distances, excluded ranges, `is_crossing`, `crossing_locations`, `beacon_exclusion` and `find_tuning_frequency`.
- `day17.dfy`: the rock and jet cycles, the `FallingRock` class and `model_falling_rocks`.
- `day23.dfy`: `ElfLocationMap`, `parse_input`, `find_surrounding_elves`, `determine_proposed_move` and `move_elves`.

## How the source maps to the model

- Python exceptions are modelled as `None`, or as an error outcome. This covers an `IndexError` on a missing piece of a line, a `ValueError` from `int()`, `UnknownPatternError`, and the `StopIteration` raised by cycling an empty jet string.
- `itertools.cycle` is indexing modulo the length.
- `next(iter(s))` and `for` over a set are an arbitrary choice (`:|`). `ExtendRanges`, `SumWidths` and `FirstSorted` are proved equal to a deterministic function for every input, so their result does not depend on the choice. `MergeOverlapping` and `RangeCollapse` are proved equal to one only for a well-formed new range (see "Left out").
- State the source changes in place is imperative Dafny with loop invariants:
  - `model_falling_rocks` with its `FallingRock` object;
  - the `while` loop of `range_collapse`;
  - the accumulation loops of `beacon_exclusion`, `find_tuning_frequency` and `parse_input`;
  - the early-return loops of Day23.py.
- Each such method is proved against a specification function: `DropRock`, `Simulate` and `Tower`; `Collapsed` and `CollapseAll`; `FirstSplitFrom`; `Parse`; `Surrounding`; `Proposal`. Lemmas then state what those functions mean.

## Model

| member | source | states |
|---|---|---|
| Strings.Split | Day15.py:44 | `str.split` with an explicit separator always yields at least one piece |
| Strings.JoinSplit | Day15.py:44 | joining the pieces of a split with its separator gives back the string |
| Strings.SplitJoin | Day15.py:44 | splitting a join gives back the pieces, for a non-empty separator and pieces free of its first character (which also rules out a separator straddling two pieces) |
| Strings.SplitAfterAbsent | Day15.py:32 | a string whose first piece lacks the separator splits into that piece followed by the split of the rest |
| Strings.SplitAbsent | Day15.py:16 | a string without the separator splits into itself alone |
| Strings.IndexFrom | Day15.py:16 | the search finds the first occurrence of the separator at or after the start, or reports that there is none |
| Strings.ParseNat | Day15.py:17 | `int()` on unsigned text succeeds exactly when the text is a non-empty run of digits |
| Strings.ParseFormatNat | Day15.py:17 | `int()` reads back the decimal text of every natural number |
| Strings.ParseFormatInt | Day15.py:17 | `int()` reads back the decimal text of every integer, negative ones included |
| Day15Parsing.ParseRowsMeaning | Day15.py:44-46 | the readings parse exactly when every line parses, one reading per line in order |
| Day15Parsing.Collect | Day15.py:45 | a sequence of optional values succeeds exactly when every item is present, and then holds each item's value at its position |
| Day15Parsing.SplitLocation | Day15.py:16 | a location text splits on "at " into its label and its coordinates |
| Day15Parsing.SplitCoordinates | Day15.py:16 | coordinates split on ", " into the x and the y assignment |
| Day15Parsing.SplitAssignment | Day15.py:17 | an assignment splits on "=" into the name and the number |
| Day15Parsing.ParseFormatLocation | Day15.py:4-18 | `parse_location` reads back every location written with a label, any integer coordinates |
| Day15Parsing.SplitRow | Day15.py:32 | an input line splits on ": " into the sensor part and the beacon part |
| Day15Parsing.ParseFormatRow | Day15.py:21-35 | `parse_row` reads back every reading written as an input line, negative coordinates included |
| Day15Parsing.RowLacksNewline | Day15.py:44 | a formatted input line holds no newline, so splitting the input on newlines cannot cut it |
| Day15Parsing.ParseRowsEach | Day15.py:44-46 | lines that each parse to a reading give the readings in order |
| Day15Parsing.ParseFormatInput | Day15.py:38-46 | `parse_input` reads back every non-empty list of readings written one per line |
| Day15Parsing.ParseSensorExample | Day15.py:10-11 | "Sensor at x=9, y=16" gives (9, 16) |
| Day15Parsing.ParseBeaconExample | Day15.py:13-14 | "closest beacon is at x=10, y=16" gives (10, 16) |
| Day15Parsing.FormatRowExample | Day15.py:24 | the reading ((2, 18), (-2, 15)) is written as the docstring's line |
| Day15Parsing.ParseRowExample | Day15.py:28-29 | the docstring line gives ((2, 18), (-2, 15)) |
| Day15.Abs | Day15.py:62 | the absolute value is the value or its negation, and is never negative |
| Day15.Manhattan | Day15.py:49-63 | the distance is zero exactly for equal points, and at least each coordinate difference |
| Day15.ManhattanSymmetric | Day15.py:62 | the distance is symmetric in its two points |
| Day15.ManhattanTriangle | Day15.py:62 | the distance satisfies the triangle inequality |
| Day15.ManhattanExamples | Day15.py:56-60 | the docstring distances 9 and 3 |
| Day15.ExcludedRowPositions | Day15.py:66-92 | the range covers exactly the positions within the half-width of the centre, cut to [0, max_value] when `max_value` is truthy (0 counts as absent); unclamped it is 2·half-width wide |
| Day15.ExcludedRowPositionsExamples | Day15.py:74-81 | the three docstring ranges |
| Day15.FindExcludedRange | Day15.py:95-123 | the range covers exactly the in-bounds positions of the row within the given distance of the sensor |
| Day15.ExcludePositions | Day15.py:126-146 | the range covers exactly the in-bounds positions of the row that the reading rules out |
| Day15.ExcludePositionsExamples | Day15.py:104-138 | the docstring ranges of `find_excluded_range` and `exclude_positions` |
| Day15.IsCrossing | Day15.py:149-202 | the three branches together hold exactly when the row is within the sensor's beacon distance of the sensor's row |
| Day15.CrossingMeansReach | Day15.py:189-202 | a reading crosses a row exactly when it rules out some position on it |
| Day15.CrossingRangeWellFormed | Day15.py:126-146 | the unclamped range of a crossing reading has low ≤ high |
| Day15.IsCrossingExamples | Day15.py:156-183 | the fourteen docstring answers |
| Day15.CrossingLocations | Day15.py:205-216 | the kept readings all cross the row, and each crossing reading is kept exactly as many times as it occurs in the input |
| Day15.CrossingInOrder | Day15.py:215 | the kept readings are the input at increasing indices, so in input order |
| Day15.SubsequenceSkip | Day15.py:215 | dropping a reading keeps the rest a subsequence of the input |
| Day15.SubsequenceKeep | Day15.py:215 | keeping a reading puts it first, ahead of the later ones |
| Day15.RowRanges | Day15.py:357-358 | one range per crossing reading |
| Day15.UnclampedRowWellFormed | Day15.py:353-358 | every range `beacon_exclusion` merges is well-formed |
| Day15.RowWithinWellFormed | Day15.py:379-383 | with every sensor's x in [0, max_value], each clamped range of a row holds its sensor's column and is well-formed |
| Day15.SensorsWithinWellFormed | Day15.py:375-383 | with every sensor's x in [0, max_value], every range `find_tuning_frequency` merges is well-formed |
| Day15.RangeFromReading | Day15.py:357-358 | each merged range is the range of some input reading |
| Day15.ReadingHasRange | Day15.py:353-358 | every reading that rules out a position of the row contributes its range |
| Day15.RowRangesCover | Day15.py:353-360 | a row position is covered by some range exactly when it is in bounds and some reading rules it out |
| Day15.RowSetMeaning | Day15.py:353-360 | the merged ranges of a row are well-formed and pairwise non-overlapping, and cover exactly the in-bounds positions some reading rules out |
| Day15.CollapseRow | Day15.py:355-360 | the merging loop yields the merged set of the row's ranges, whatever order `range_collapse` picks in |
| Day15.SumWidths | Day15.py:362 | the sum of high − low over the set |
| Day15.BeaconExclusion | Day15.py:344-362 | fails exactly when the input does not parse; otherwise the summed widths of the merged ranges of the row |
| Day15.LeastRange | Day15.py:386 | the least range of a non-empty set in tuple order |
| Day15.FirstSorted | Day15.py:386-387 | `sorted(s)[0]` is the least range in tuple order |
| Day15.RowSets | Day15.py:375-383 | one merged set per row 0 to `max_value`, clamped to [0, max_value] |
| Day15.FirstSplitStep | Day15.py:385-389 | the scan reports a row's own frequency when its set splits, and otherwise moves on to the next row |
| Day15.CheckRow | Day15.py:378-389 | one row: its frequency (high of the least range + 1) · 4000000 + row when the merged set has more than one range |
| Day15.ScanRows | Day15.py:375-389 | the row loop returns the frequency of the first split row, or nothing |
| Day15.FindTuningFrequency | Day15.py:365-389 | fails exactly when the input does not parse; otherwise, whenever the merged ranges are well-formed (in particular when every sensor's x is in [0, max_value]), the first split row's frequency, or no gap |
| Day15.FirstSplitMeaning | Day15.py:375-389 | a reported frequency comes from the first split row and names the position past the least of its ranges |
| Day15.NoSplitMeaning | Day15.py:375-389 | no frequency means no row in [0, max_value] splits |
| Day15Ranges.IsOverlapping | Day15.py:219-277 | for well-formed ranges the four branches hold exactly when a.lo ≤ b.hi and b.lo ≤ a.hi |
| Day15Ranges.OverlapSymmetric | Day15.py:268-277 | overlap of well-formed ranges is symmetric |
| Day15Ranges.OverlapSharesPosition | Day15.py:268-277 | well-formed ranges overlap exactly when they share a position, so ranges sharing an endpoint overlap |
| Day15Ranges.OverlapExamples | Day15.py:226-266 | the fourteen docstring answers, among them (10,13) and (14,18) not overlapping |
| Day15Ranges.Extend | Day15.py:292-294 | the extended range covers both ranges and takes its ends from them |
| Day15Ranges.ExtendAllAdd | Day15.py:290-294 | extending a set with one more member adds that member's extension |
| Day15Ranges.ExtendRanges | Day15.py:280-295 | the loop yields every member extended by the new range, and no more members than it started with |
| Day15Ranges.ExtendAllExample | Day15.py:287-288 | the docstring example of `extend_ranges` |
| Day15Ranges.OverlappingWith | Day15.py:323-324 | the members overlapping the new range are members |
| Day15Ranges.OverlappingAmong | Day15.py:330-331 | the members overlapping another member are members |
| Day15Ranges.MinLo | Day15.py:292 | the least low of a non-empty set, attained by a member |
| Day15Ranges.MaxHi | Day15.py:293 | the greatest high of a non-empty set, attained by a member |
| Day15Ranges.AmongIsAll | Day15.py:330-331 | when every member contains the new range, all of them overlap each other |
| Day15Ranges.HoldersOverlap | Day15.py:330-331 | two ranges that both contain a well-formed range overlap |
| Day15Ranges.SingleOrOverlapping | Day15.py:332-335 | a member is the only one left or still overlaps another |
| Day15Ranges.ExtendFirstSpan | Day15.py:328 | the first extension yields members that all contain the new range and together span the hull |
| Day15Ranges.ExtendRoundKeepsSpan | Day15.py:334 | a round of the loop keeps every member containing the new range and the span of the hull |
| Day15Ranges.CollapseRound | Day15.py:333-337 | a full loop round keeps the loop invariant |
| Day15Ranges.LoopExitSingle | Day15.py:332-338 | when the loop stops, one range is left, the hull of the overlapping members and the new range |
| Day15Ranges.MergeOverlapping | Day15.py:330-337 | the `while` loop terminates with no overlaps left and, for a well-formed new range, exactly the hull |
| Day15Ranges.RangeCollapse | Day15.py:298-341 | non-overlapping members are kept; a range nothing overlaps is added, whatever its ends; for a well-formed new range the result is the set with the overlapping members and the new range replaced by their hull |
| Day15Ranges.HullCoverage | Day15.py:328-338 | the hull of the new range and the members overlapping it covers exactly what they cover |
| Day15Ranges.CollapsedWellFormed | Day15.py:298-341 | merging keeps every range well-formed |
| Day15Ranges.CollapsedCoverage | Day15.py:298-341 | the merged set covers exactly the old coverage plus the new range |
| Day15Ranges.HullApart | Day15.py:325-338 | the hull overlaps none of the members kept aside |
| Day15Ranges.CollapsedDisjoint | Day15.py:298-341 | merging keeps the members pairwise non-overlapping |
| Day15Ranges.CollapsedAbsorbed | Day15.py:298-341 | a range inside a member leaves the set unchanged |
| Day15Ranges.CollapsedIdempotent | Day15.py:298-341 | merging the same range twice is merging it once |
| Day15Ranges.HullIs | Day15.py:292-293 | the hull is the range from the least low to the greatest high |
| Day15Ranges.CollapsedApartExample | Day15.py:305-306 | docstring: (5,10) into {(1,2),(15,20)} |
| Day15Ranges.CollapsedLowExample | Day15.py:308-309 | docstring: (5,10) into {(1,5),(15,20)} |
| Day15Ranges.CollapsedHighExample | Day15.py:311-312 | docstring: (20,30) into {(1,2),(15,20)} |
| Day15Ranges.CollapsedInsideExample | Day15.py:314-315 | docstring: (17,30) into {(1,2),(15,20)} |
| Day15Ranges.CollapsedWidenExample | Day15.py:317-318 | docstring: (3,17) into {(1,2),(15,20)} |
| Day15Ranges.CollapsedBridgeExample | Day15.py:320-321 | docstring: (3,17) into {(1,5),(15,20)} gives {(1,20)} |
| Day15Ranges.CollapseAllInvariant | Day15.py:357-360 | merging a sequence of well-formed ranges gives well-formed, pairwise non-overlapping ranges that cover exactly the union |
| Day15Ranges.CollapsedNoGaps | Day15.py:322-338 | after a merge, neighbouring positions within a member are still held together by one input range |
| Day15Ranges.CollapsedAbsorbs | Day15.py:322-341 | after a merge, every input range and the new range lie within a single member |
| Day15Ranges.CollapseAllMerged | Day15.py:357-360 | merging well-formed ranges in order gives a merge of them: disjoint, exact coverage, no gap inside a member, no input split |
| Day15Ranges.InputWithin | Day15.py:298-341 | in a merge, an input range sharing a position with a member lies within it |
| Day15Ranges.MergedMember | Day15.py:298-341 | every member of one merge of the inputs is a member of any other |
| Day15Ranges.MergedUnique | Day15.py:298-341 | the input ranges determine their merge |
| Day15Ranges.CollapseAllOrderFree | Day15.py:357-360 | merging the same well-formed ranges in any order, with any repetitions, gives the same set |
| Day15Ranges.TotalWidthRemove | Day15.py:362 | the sum of widths splits off any member |
| Day15Ranges.TotalWidthNonNegative | Day15.py:362 | well-formed ranges have a non-negative width sum |
| Day17.RockNamesExample | Day17.py:27-83 | the rock generator yields "-+LI.-+LI.-+" for its first twelve rocks |
| Day17.JetAt | Day17.py:5-11 | every jet comes from the pattern |
| Day17.JetCycle | Day17.py:5-11 | the jets are the pattern followed by the pattern again, wrapping at its length |
| Day17.TranslateTwice | Day17.py:140-142 | moving cells twice moves them by the sum |
| Day17.ShapeIsRock | Day17.py:33-80 | each shape table entry is its rock at the origin |
| Day17.RockIsShapeMoved | Day17.py:137-142 | a spawned rock is its shape moved by the offsets |
| Day17.RockMoved | Day17.py:151-168 | moving a rock cell by cell moves its corner |
| Day17.RockBox | Day17.py:33-80 | each rock fills its bounding box: it lies inside it and touches its first and last column and top row |
| Day17.FitsMeaning | Day17.py:150-158 | a rock lies within columns 0 to 6 exactly when its corner leaves room for its width |
| Day17.WallMeaning | Day17.py:150-158 | the source's max/min column tests are tests on the rock's corner |
| Day17.FloorMeaning | Day17.py:132 | the floor is exactly the cells (x, −1) with 0 ≤ x ≤ 6 |
| Day17.FloorHolds | Day17.py:165-171 | over the floor a rock at height 0 cannot fall |
| Day17.FallValid | Day17.py:145-176 | the jet/fall alternation keeps the chamber valid: floor kept, settled cells within the walls and under the top, the top attained |
| Day17.FallAddsShape | Day17.py:162-176 | a settling rock adds exactly its shape's number of cells |
| Day17.FloorValid | Day17.py:131-132 | the starting chamber is valid |
| Day17.TopIsHighest | Day17.py:175-176 | the new `top_point` is the larger of the old top and the rock's top row |
| Day17.DropRockValid | Day17.py:134-176 | dropping one rock keeps the chamber valid |
| Day17.SettleValid | Day17.py:172-176 | a rock that comes to rest leaves a valid chamber |
| Day17.SimulateStep | Day17.py:134-176 | n + 1 rocks are n rocks and one more drop |
| Day17.SimulateNoneStep | Day17.py:160 | after an error no further rock is dropped |
| Day17.SimulateSomeBefore | Day17.py:134 | a simulation that reaches n + 1 rocks reached n |
| Day17.SimulateStaysNone | Day17.py:160 | an error stops every longer simulation |
| Day17.TowerStops | Day17.py:160 | a failing drop makes the whole run end in `UnknownPatternError` |
| Day17.SimulateValid | Day17.py:131-176 | every reached chamber is valid |
| Day17.SimulateValidStep | Day17.py:134-176 | one drop preserves validity |
| Day17.FallTop | Day17.py:172-176 | `top_point` never decreases, and rises by at most the rock's height |
| Day17.DropRockRaises | Day17.py:137-176 | one rock raises `top_point` by at most 4 |
| Day17.TowerGrows | Day17.py:176 | `top_point` never decreases from one rock to the next |
| Day17.SimulateHeight | Day17.py:131-178 | after n rocks the top is between −1 and 4n − 1 |
| Day17.FallSucceeds | Day17.py:145-176 | with only '<' and '>' jets a rock always comes to rest |
| Day17.DropRockSucceeds | Day17.py:145-176 | with only '<' and '>' jets every drop succeeds |
| Day17.SimulateSucceeds | Day17.py:134-176 | with only '<' and '>' jets every run succeeds |
| Day17.FirstJetFails | Day17.py:159-160 | a first jet other than '<' or '>' raises `UnknownPatternError` |
| Day17.TowerOutcome | Day17.py:120-178 | the result: height 0 for no rocks; a height between 0 and 4·rocks for a valid pattern; an error for a bad first jet or an empty pattern |
| Day17.RockSize | Day17.py:140-142 | moving a rock keeps its number of cells |
| Day17.DropRockDisjoint | Day17.py:162-175 | a settled rock never overlaps the settled cells, so it adds all its cells |
| Day17.SimulateCount | Day17.py:132-175 | after n rocks the settled cells are the floor plus every rock's cells |
| Day17.FallingRock.constructor | Day17.py:14-24 | a rock object holds its name and cells |
| Day17.MaxCoord | Day17.py:150 | the maximum column of the rock's cells |
| Day17.MinCoord | Day17.py:155 | the minimum column of the rock's cells |
| Day17.MaxBelowWall | Day17.py:150 | the right-wall test holds exactly when the rock's corner leaves room |
| Day17.MinAboveWall | Day17.py:155 | the left-wall test holds exactly when the rock's corner is right of the wall |
| Day17.JetPush | Day17.py:147-164 | a jet moves the rock exactly when there is room and the moved cells are free |
| Day17.FallJet | Day17.py:146-164 | a jet step advances the jet pattern by one and then falls |
| Day17.FallDrop | Day17.py:165-171 | a free fall lowers the rock by one and then pushes |
| Day17.Shift | Day17.py:140-168 | moving the cells moves the rock |
| Day17.RoomToMove | Day17.py:149-158 | the wall test for the jet's direction |
| Day17.FallRests | Day17.py:172-176 | a blocked fall settles the rock and sets the new top |
| Day17.FallStops | Day17.py:159-160 | a jet other than '<' or '>' stops the run with an error |
| Day17.JetMove | Day17.py:147-164 | a jet step on the rock object, stale `test_coord_set` included, moves it as the jet rule says |
| Day17.FallMove | Day17.py:165-176 | a fall step on the rock object lowers it or reports it blocked |
| Day17.SpawnRock | Day17.py:135-142 | the next rock of the cycle, placed at (2, top + 4) |
| Day17.DropOne | Day17.py:143-176 | the inner `while` loop drops one rock exactly as the jet/fall rule prescribes, or raises on a bad jet |
| Day17.NextRock | Day17.py:134-176 | one iteration of the rock loop advances the simulation by one rock |
| Day17.ModelFallingRocks | Day17.py:120-178 | the whole loop returns the tower height after `num_rocks` rocks, or the error the source raises |
| Day23.ParseInput | Day23.py:10-32 | the nested loops yield the parsed map, or fail on a line shorter than the first |
| Day23.CollectRow | Day23.py:25-27 | the inner loop succeeds exactly when the line is as wide as the first, and then appends that row's elves in column order |
| Day23.GridElvesStep | Day23.py:24-27 | the elves of the first r+1 rows are those of the first r followed by row r's |
| Day23.RowElvesMembers | Day23.py:25-27 | one row yields exactly the columns holding '#' |
| Day23.GridElvesMembers | Day23.py:24-27 | the grid yields exactly the (row, column) cells holding '#' |
| Day23.ParsedElves | Day23.py:20-27 | a parsed elf is at a position exactly when the input has '#' there |
| Day23.RowElvesSorted | Day23.py:25-27 | one row's elves come in column order |
| Day23.GridElvesSorted | Day23.py:24-27 | the grid's elves come in row-major order |
| Day23.ParsedInReadingOrder | Day23.py:24-27 | parsed elves are listed in row-major order, each once |
| Day23.ParseFailsOnShortLine | Day23.py:26 | a line shorter than the first raises `IndexError` |
| Day23.ParseExample | Day23.py:29-32 | a 2×2 grid gives its two elves and the rectangle [(0,0),(0,2),(2,2),(2,0)] |
| Day23.FindSurroundingElves | Day23.py:35-68 | the loop yields the occupancy vector of the elf at the index, negative indices counting from the end |
| Day23.SurroundingFlags | Day23.py:59-67 | eight entries, N to NW, each 1 exactly when that neighbour is an elf and 0 otherwise |
| Day23.DetermineProposedMove | Day23.py:71-83 | as written: only the first direction is consulted, and an empty direction list returns nothing |
| Day23.FirstDirectionOnlyMissesSouth | Day23.py:80-83 | as written, an elf blocked to the north stays put although the south is free |
| Day23.ProposeMove | Day23.py:80-83 | the loop yields the first free direction's move, or the elf's own position |
| Day23.ProposalIsFirstFree | Day23.py:80-83 | the proposal is the move of the first direction whose flags sum to 0, or staying when none does |
| Day23.SumZero | Day23.py:81 | 0/1 flags sum to 0 exactly when every consulted flag is 0 |
| Day23.ProposalToEmptyCell | Day23.py:59-83 | when each direction consults its own target cell, the proposal is to stay or to an empty cell |
| Day23.MoveElves | Day23.py:86-95 | one position per elf |
| Day23.CountedTwice | Day23.py:94 | a proposal made by two elves counts more than once |
| Day23.MoveEach | Day23.py:93-95 | an elf takes its proposal exactly when no other elf made the same one, and otherwise stays |
| Day23.CountedOnce | Day23.py:94 | a proposal made by no other elf has `count` 1 |
| Day23.MoveAllDistinct | Day23.py:93-95 | when all proposals differ, the elves take exactly their proposals |
| Day23.MoveCollision | Day23.py:93-95 | two elves proposing the same cell both stay |
| Day23.MoveKeepsApart | Day23.py:93-95 | elves at distinct positions proposing to stay or to empty cells stay at distinct positions |
| Day23.RoundKeepsApart | Day23.py:59-95 | a round of proposals and moves never puts two elves on one cell |

## Left out

- Input and output. `from aocd import data`, the `__main__` blocks (Day15.py:392-394, Day17.py:181-182, Day23.py:153-154) and the progress print in `find_tuning_frequency` (Day15.py:376-377) are I/O. The raw input is a parameter.
- `draw_chamber` (Day17.py:86-113) only draws the chamber as text.
- The Day23.py functions with `...` bodies (Day23.py:98-150) have no behaviour.
- Python exceptions are an error value, not an exception object. The model does not say which exception type is raised, except for `UnknownPatternError`.
- `int()` is modelled for an optional sign followed by ASCII digits. Surrounding whitespace and `_` separators, which Python also accepts, are not modelled.
- Day15Parsing.ParseLocation and Day15Parsing.ParseRow: a location with other than two coordinates, or a line with other than two ": "-separated parts, is an error in the model, so the input is rejected as a whole. In Python `parse_input` builds shorter or longer tuples and the failure, if any, comes later, in `is_crossing`. A location with one coordinate, or a line with one part, raises `IndexError` at Day15.py:186-187. Extra coordinates of a location are ignored. A line with three or more parts raises `TypeError` at Day15.py:197, where `find_manhattan_distance(*curr_tuple)` gets too many arguments; it does so only when the sensor's or beacon's row does not settle `is_crossing` first (Day15.py:189-195), and otherwise the extra parts are ignored (Day15.py:140-141). Since these failures happen only when `is_crossing` is reached, `find_tuning_frequency` with a negative `max_value` returns None on such input, where Day15.FindTuningFrequency answers Malformed; a row-dependent `TypeError` may also come after an earlier row has already returned a frequency.
- Day15Ranges.RangeCollapse: for an ill-formed new range (low > high, which clamping can produce) that overlaps some members, only the kept non-overlapping members are stated. The model leaves the merged part of that case unproved. A range nothing overlaps is stated for every range, and the whole result for every well-formed range.
- Day15Ranges.MergeOverlapping: the single resulting hull is stated only for a well-formed new range. The ill-formed case is left unproved, as above.
- Day15Ranges.IsOverlapping: the interval reading is stated for well-formed ranges. Ill-formed ones evaluate the same four branches but without a simple meaning.
- Day15.CollapseRow: the merged set is stated only when every range of the row is well-formed. This always holds without `max_value` (Day15.UnclampedRowWellFormed). With clamping it holds whenever every sensor's x lies in [0, max_value] (Day15.SensorsWithinWellFormed). A sensor outside [0, max_value] that reaches the row only outside it gives low > high, and the model leaves that case unproved.
- Day15.CheckRow, Day15.ScanRows and Day15.FindTuningFrequency: the frequency is stated under the same well-formedness condition, for the same reason. FindTuningFrequency also states it when every sensor's x lies in [0, max_value].
- `range_collapse` adds to its argument set in place (Day15.py:340). The model returns the new set as a value. Every caller immediately replaces its set with the result, so the aliasing is not observable.
- Day17.Fall: the fall rule tests `dy > 0` besides the overlap with the settled cells, which gives a termination measure. Day17.FloorHolds proves the test is implied whenever the floor is settled, as it always is.
- Day17.JetMove: the stale `test_coord_set` from an earlier step is modelled as an optional set. The model states only what the step needs: a stale set is either the rock's own cells or overlaps the settled cells.
- Day23.FindSurroundingElves, Day23.DetermineProposedMove and Day23.ProposeMove take as preconditions the index bounds whose violation raises `IndexError` in Python.
- Day23.MoveElves: the same holds for at least as many proposals as elves.
- Day23.RoundKeepsApart: elves are proved to stay apart only for direction lists in which every direction consults its own target cell, as the puzzle's lists do. The source's direction list is built in code that is not implemented.

## Findings

| source | as written | input that shows it | evidently intended | confidence | as-written member | corrected member |
|---|---|---|---|---|---|---|
| Day23.py:80-83 | the `return curr_elf_position` sits inside the `for` loop, so only the first direction is ever consulted; an empty direction list returns None | flags [1,0,0,0,0,0,0,0] (an elf to the north), directions N [0,1,7] then S [4,3,5], elf at (5,5): returns (5,5) | try each direction in turn and move by the first free one, staying only when none is free; (6,5) here | not executed | Day23.DetermineProposedMove, Day23.FirstDirectionOnlyMissesSouth | Day23.ProposeMove, Day23.ProposalIsFirstFree |
