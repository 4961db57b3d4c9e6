/**
 * Day23.py: elves stand on the '#' cells of a grid. Each elf looks at its
 * eight neighbouring cells, proposes a move by the first direction whose
 * checked neighbours are all empty, and then moves unless another elf
 * proposed the same cell. Positions are (row, column) with (0, 0) the
 * upper-left (north-west) corner; rows grow southwards, columns eastwards.
 */
module Day23 {
  import opened Wrappers
  import opened Strings

  type Pos = (int, int)

  /** `ElfLocationMap`: the elves' positions and the corners of the grid's rectangle. */
  datatype ElfLocationMap = ElfLocationMap(elfPositions: seq<Pos>, boundingRectangle: seq<Pos>)

  /** Python's `ls[i]`, where a negative index counts from the end. */
  function PyIndex<T>(ls: seq<T>, i: int): T
    requires -|ls| <= i < |ls|
  {
    if i < 0 then ls[|ls| + i] else ls[i]
  }

  // ---------------------------------------------------------------------------
  // parse_input
  // ---------------------------------------------------------------------------

  /** Every line is at least `cols` characters long. */
  predicate WideEnough(lines: seq<string>, cols: nat) {
    forall r :: 0 <= r < |lines| ==> cols <= |lines[r]|
  }

  /** The elves in the first `cols` characters of `line`, row `r`, left to right. */
  function RowElves(line: string, r: int, cols: nat): seq<Pos>
    requires cols <= |line|
  {
    if cols == 0 then []
    else RowElves(line, r, cols - 1) + (if line[cols - 1] == '#' then [(r, cols - 1)] else [])
  }

  /** The elves of the grid `lines`, `cols` columns wide, in row-major order. */
  function GridElves(lines: seq<string>, cols: nat): seq<Pos>
    requires WideEnough(lines, cols)
  {
    if |lines| == 0 then []
    else GridElves(lines[..|lines| - 1], cols) + RowElves(lines[|lines| - 1], |lines| - 1, cols)
  }

  /**
   * What `parse_input` gives for `rawData`: the grid is as wide as its first
   * line, and a shorter line makes the indexing raise IndexError (None).
   * The rectangle's corners are listed as (0, 0), (0, cols), (rows, cols),
   * (rows, 0).
   */
  function Parse(rawData: string): Option<ElfLocationMap> {
    var lines := Split(rawData, "\n");
    var cols := |lines[0]|;
    if WideEnough(lines, cols) then
      Some(ElfLocationMap(GridElves(lines, cols), [(0, 0), (0, cols), (|lines|, cols), (|lines|, 0)]))
    else None
  }

  /**
   * The inner loop of `parse_input` over row `rowIndex`: appends the row's
   * elves to `elves0`, or fails where the row is shorter than `numCols`.
   */
  method CollectRow(row: string, rowIndex: int, numCols: nat, elves0: seq<Pos>) returns (ok: bool, elves: seq<Pos>)
    ensures ok <==> numCols <= |row|
    ensures ok ==> elves == elves0 + RowElves(row, rowIndex, numCols)
  {
    elves := elves0;
    for colIndex := 0 to numCols
      invariant colIndex <= |row|
      invariant elves == elves0 + RowElves(row, rowIndex, colIndex)
    {
      if colIndex >= |row| {
        // `split_data[row_index][col_index]` raises IndexError
        return false, elves;
      }
      if row[colIndex] == '#' {
        elves := elves + [(rowIndex, colIndex)];
      }
    }
    return true, elves;
  }

  /** One more row of the grid adds that row's elves. */
  lemma GridElvesStep(lines: seq<string>, cols: nat, r: nat)
    requires r < |lines| && WideEnough(lines[..r + 1], cols)
    ensures GridElves(lines[..r + 1], cols) == GridElves(lines[..r], cols) + RowElves(lines[r], r, cols)
  {
    assert lines[..r + 1][..r] == lines[..r];
  }

  /** `parse_input`: the nested loops over rows and columns that collect the elves. */
  method ParseInput(rawData: string) returns (r: Option<ElfLocationMap>)
    ensures r == Parse(rawData)
  {
    var elfPositions: seq<Pos> := [];
    var splitData := Split(rawData, "\n");
    var numRows := |splitData|;
    var numCols := |splitData[0]|;
    for rowIndex := 0 to numRows
      invariant WideEnough(splitData[..rowIndex], numCols)
      invariant elfPositions == GridElves(splitData[..rowIndex], numCols)
    {
      var ok;
      ok, elfPositions := CollectRow(splitData[rowIndex], rowIndex, numCols, elfPositions);
      if !ok {
        assert |splitData[rowIndex]| < numCols;
        return None;
      }
      GridElvesStep(splitData, numCols, rowIndex);
    }
    assert splitData[..numRows] == splitData;
    return Some(ElfLocationMap(elfPositions, [(0, 0), (0, numCols), (numRows, numCols), (numRows, 0)]));
  }

  lemma {:induction false} RowElvesMembers(line: string, r: int, cols: nat)
    requires cols <= |line|
    ensures forall p :: p in RowElves(line, r, cols) <==> p.0 == r && 0 <= p.1 < cols && line[p.1] == '#'
  {
    if cols > 0 {
      RowElvesMembers(line, r, cols - 1);
    }
  }

  lemma {:induction false} GridElvesMembers(lines: seq<string>, cols: nat)
    requires WideEnough(lines, cols)
    ensures forall p :: p in GridElves(lines, cols) <==>
              0 <= p.0 < |lines| && 0 <= p.1 < cols && lines[p.0][p.1] == '#'
  {
    if |lines| > 0 {
      var n := |lines| - 1;
      GridElvesMembers(lines[..n], cols);
      RowElvesMembers(lines[n], n, cols);
    }
  }

  /** The elves are exactly the '#' cells of the grid. */
  lemma ParsedElves(rawData: string)
    requires Parse(rawData).Some?
    ensures forall p :: p in Parse(rawData).value.elfPositions <==>
              var lines := Split(rawData, "\n");
              0 <= p.0 < |lines| && 0 <= p.1 < |lines[0]| && lines[p.0][p.1] == '#'
  {
    var lines := Split(rawData, "\n");
    GridElvesMembers(lines, |lines[0]|);
  }

  /** (r, c) comes before (r', c') in reading order. */
  predicate Before(a: Pos, b: Pos) {
    a.0 < b.0 || (a.0 == b.0 && a.1 < b.1)
  }

  /** The positions are listed in strictly increasing reading order. */
  predicate RowMajor(ps: seq<Pos>) {
    forall i, j :: 0 <= i < j < |ps| ==> Before(ps[i], ps[j])
  }

  lemma {:induction false} RowElvesSorted(line: string, r: int, cols: nat)
    requires cols <= |line|
    ensures RowMajor(RowElves(line, r, cols))
  {
    if cols > 0 {
      RowElvesSorted(line, r, cols - 1);
      RowElvesMembers(line, r, cols - 1);
      var s := RowElves(line, r, cols - 1);
      assert forall i :: 0 <= i < |s| ==> s[i] in s;
    }
  }

  lemma {:induction false} GridElvesSorted(lines: seq<string>, cols: nat)
    requires WideEnough(lines, cols)
    ensures RowMajor(GridElves(lines, cols))
  {
    if |lines| > 0 {
      var n := |lines| - 1;
      GridElvesSorted(lines[..n], cols);
      GridElvesMembers(lines[..n], cols);
      RowElvesSorted(lines[n], n, cols);
      RowElvesMembers(lines[n], n, cols);
      var a, b := GridElves(lines[..n], cols), RowElves(lines[n], n, cols);
      assert forall i :: 0 <= i < |a| ==> a[i] in a;
      assert forall j :: 0 <= j < |b| ==> b[j] in b;
    }
  }

  /**
   * The elves come out in reading order (row by row, left to right), so no
   * position is listed twice.
   */
  lemma ParsedInReadingOrder(rawData: string)
    requires Parse(rawData).Some?
    ensures RowMajor(Parse(rawData).value.elfPositions)
    ensures Distinct(Parse(rawData).value.elfPositions)
  {
    var lines := Split(rawData, "\n");
    GridElvesSorted(lines, |lines[0]|);
  }

  /** A grid whose lines are not all as long as the first cannot be parsed. */
  lemma ParseFailsOnShortLine(rawData: string, r: nat)
    requires var lines := Split(rawData, "\n"); r < |lines| && |lines[r]| < |lines[0]|
    ensures Parse(rawData).None?
  {
  }

  /** Two rows, `.#` over `#.`: the elves at (0, 1) and (1, 0) in a 2 by 2 rectangle. */
  lemma ParseExample()
    ensures Parse(".#\n#.") == Some(ElfLocationMap([(0, 1), (1, 0)], [(0, 0), (0, 2), (2, 2), (2, 0)]))
  {
    SplitAfterAbsent(".#", "\n", "#.");
    SplitAbsent("#.", "\n");
    assert ".#" + "\n" + "#." == ".#\n#.";
    var lines := [".#", "#."];
    assert Split(".#\n#.", "\n") == lines;
    assert RowElves(".#", 0, 2) == [(0, 1)] by {
      assert RowElves(".#", 0, 1) == [];
    }
    assert RowElves("#.", 1, 2) == [(1, 0)] by {
      assert RowElves("#.", 1, 1) == [(1, 0)];
    }
    assert lines[..1] == [".#"] && lines[..1][..0] == [];
    assert GridElves(lines[..1], 2) == [(0, 1)];
    assert GridElves(lines, 2) == [(0, 1), (1, 0)];
  }

  // ---------------------------------------------------------------------------
  // find_surrounding_elves
  // ---------------------------------------------------------------------------

  /** `position_array`: the steps to the neighbours N, NE, E, SE, S, SW, W, NW. */
  const PositionArray: seq<Pos> := [(-1, 0), (-1, 1), (0, 1), (1, 1), (1, 0), (1, -1), (0, -1), (-1, -1)]

  /** Position `p` moved by the step `diff`. */
  function Step(p: Pos, diff: Pos): Pos {
    (p.0 + diff.0, p.1 + diff.1)
  }

  /** For each neighbour of `p` in the order of PositionArray, 1 if an elf stands there, else 0. */
  function Surrounding(elves: seq<Pos>, p: Pos): seq<int> {
    seq(8, i requires 0 <= i < 8 => if Step(p, PositionArray[i]) in elves then 1 else 0)
  }

  /** `find_surrounding_elves`: the loop over the eight neighbours of elf `currIndex`. */
  method FindSurroundingElves(currIndex: int, elfPositionMap: ElfLocationMap) returns (surroundingElves: seq<int>)
    requires -|elfPositionMap.elfPositions| <= currIndex < |elfPositionMap.elfPositions|
    ensures surroundingElves == Surrounding(elfPositionMap.elfPositions, PyIndex(elfPositionMap.elfPositions, currIndex))
  {
    var elfPositions := elfPositionMap.elfPositions;
    var currElfPosition := PyIndex(elfPositions, currIndex);
    surroundingElves := [];
    for k := 0 to |PositionArray|
      invariant surroundingElves == Surrounding(elfPositions, currElfPosition)[..k]
    {
      var currPositionDiff := PositionArray[k];
      var surroundingPosition := (currElfPosition.0 + currPositionDiff.0, currElfPosition.1 + currPositionDiff.1);
      if surroundingPosition in elfPositions {
        surroundingElves := surroundingElves + [1];
      } else {
        surroundingElves := surroundingElves + [0];
      }
    }
  }

  /** There are eight flags, each 0 or 1, and flag i is 1 exactly when the i-th neighbour is an elf. */
  lemma SurroundingFlags(elves: seq<Pos>, p: Pos)
    ensures |Surrounding(elves, p)| == 8
    ensures forall i :: 0 <= i < 8 ==>
              (Surrounding(elves, p)[i] == 1 <==> Step(p, PositionArray[i]) in elves)
              && (Surrounding(elves, p)[i] == 0 <==> Step(p, PositionArray[i]) !in elves)
  {
  }

  // ---------------------------------------------------------------------------
  // determine_proposed_move
  // ---------------------------------------------------------------------------

  /** An entry of `direction_ls`: the neighbour indices to check, and the step to take. */
  datatype Direction = Direction(indices: seq<int>, diff: Pos)

  /** Each index can be used on `s`, counting negative ones from the end. */
  predicate IndicesIn(s: seq<int>, indices: seq<int>) {
    forall k :: 0 <= k < |indices| ==> -|s| <= indices[k] < |s|
  }

  /** `sum([s[index] for index in indices])`. */
  function SumAt(s: seq<int>, indices: seq<int>): int
    requires IndicesIn(s, indices)
  {
    if |indices| == 0 then 0 else PyIndex(s, indices[0]) + SumAt(s, indices[1..])
  }

  /** No elf is flagged at any index of direction `d`. */
  predicate Free(s: seq<int>, d: Direction)
    requires IndicesIn(s, d.indices)
  {
    SumAt(s, d.indices) == 0
  }

  /**
   * `determine_proposed_move` as written: the `return curr_elf_position`
   * sits inside the loop, so only the first direction is ever consulted,
   * and an empty direction list falls off the end (None).
   */
  function FirstDirectionOnly(currElfPosition: Pos, s: seq<int>, directions: seq<Direction>): Option<Pos>
    requires |directions| > 0 ==> IndicesIn(s, directions[0].indices)
  {
    if |directions| == 0 then None
    else if Free(s, directions[0]) then Some(Step(currElfPosition, directions[0].diff))
    else Some(currElfPosition)
  }

  /** `determine_proposed_move`, with its loop, as written. */
  method DetermineProposedMove(currElfPosition: Pos, surroundingElves: seq<int>, directions: seq<Direction>)
    returns (r: Option<Pos>)
    requires |directions| > 0 ==> IndicesIn(surroundingElves, directions[0].indices)
    ensures r == FirstDirectionOnly(currElfPosition, surroundingElves, directions)
  {
    for d := 0 to |directions|
      invariant d == 0
    {
      var currDirection := directions[d];
      if SumAt(surroundingElves, currDirection.indices) == 0 {
        return Some(Step(currElfPosition, currDirection.diff));
      }
      return Some(currElfPosition);
    }
    return None;
  }

  /** Every direction's indices can be used on `s`. */
  predicate AllIndicesIn(s: seq<int>, directions: seq<Direction>) {
    forall d :: 0 <= d < |directions| ==> IndicesIn(s, directions[d].indices)
  }

  /**
   * The proposal the docstring describes: the step of the first direction,
   * in order, whose flags are all clear; the current position when there is
   * none.
   */
  function Proposal(currElfPosition: Pos, s: seq<int>, directions: seq<Direction>): Pos
    requires AllIndicesIn(s, directions)
  {
    if |directions| == 0 then currElfPosition
    else if Free(s, directions[0]) then Step(currElfPosition, directions[0].diff)
    else Proposal(currElfPosition, s, directions[1..])
  }

  /** The corrected `determine_proposed_move`: the loop returns the current position only after it. */
  method ProposeMove(currElfPosition: Pos, surroundingElves: seq<int>, directions: seq<Direction>)
    returns (r: Pos)
    requires AllIndicesIn(surroundingElves, directions)
    ensures r == Proposal(currElfPosition, surroundingElves, directions)
  {
    for d := 0 to |directions|
      invariant Proposal(currElfPosition, surroundingElves, directions[d..])
                == Proposal(currElfPosition, surroundingElves, directions)
    {
      var currDirection := directions[d];
      if SumAt(surroundingElves, currDirection.indices) == 0 {
        return Step(currElfPosition, currDirection.diff);
      }
      assert directions[d..][1..] == directions[d + 1..];
    }
    assert directions[|directions|..] == [];
    return currElfPosition;
  }

  /**
   * Proposal takes the first free direction: the step of a direction `d`
   * that is free while every earlier one is not, and the current position
   * when no direction is free.
   */
  lemma {:induction false} ProposalIsFirstFree(currElfPosition: Pos, s: seq<int>, directions: seq<Direction>, d: nat)
    requires AllIndicesIn(s, directions) && d <= |directions|
    requires forall e :: 0 <= e < d ==> !Free(s, directions[e])
    ensures d < |directions| && Free(s, directions[d]) ==>
              Proposal(currElfPosition, s, directions) == Step(currElfPosition, directions[d].diff)
    ensures d == |directions| ==> Proposal(currElfPosition, s, directions) == currElfPosition
  {
    if d > 0 {
      assert !Free(s, directions[0]);
      var rest := directions[1..];
      assert forall e :: 0 <= e < d - 1 ==> rest[e] == directions[e + 1];
      ProposalIsFirstFree(currElfPosition, s, rest, d - 1);
    }
  }

  /**
   * Surroundings with an elf to the north only, and the directions north
   * (N, NE, NW) then south (S, SE, SW): as written the elf stays put,
   * although the south is free.
   */
  lemma FirstDirectionOnlyMissesSouth()
    ensures var s := [1, 0, 0, 0, 0, 0, 0, 0];
            var directions := [Direction([0, 1, 7], (-1, 0)), Direction([4, 3, 5], (1, 0))];
            FirstDirectionOnly((5, 5), s, directions) == Some((5, 5))
            && Proposal((5, 5), s, directions) == (6, 5)
  {
    var s := [1, 0, 0, 0, 0, 0, 0, 0];
    var directions := [Direction([0, 1, 7], (-1, 0)), Direction([4, 3, 5], (1, 0))];
    assert directions[1..] == [Direction([4, 3, 5], (1, 0))];
    assert SumAt(s, [0, 1, 7]) == 1 by {
      assert [0, 1, 7][1..] == [1, 7] && [1, 7][1..] == [7] && [7][1..] == [];
    }
    assert SumAt(s, [4, 3, 5]) == 0 by {
      assert [4, 3, 5][1..] == [3, 5] && [3, 5][1..] == [5] && [5][1..] == [];
    }
  }

  /** With 0/1 flags, a direction is free exactly when each of its flags is 0. */
  lemma {:induction false} SumZero(s: seq<int>, indices: seq<int>)
    requires IndicesIn(s, indices)
    requires forall i :: 0 <= i < |s| ==> s[i] == 0 || s[i] == 1
    ensures SumAt(s, indices) >= 0
    ensures SumAt(s, indices) == 0 <==> forall k :: 0 <= k < |indices| ==> PyIndex(s, indices[k]) == 0
  {
    if |indices| > 0 {
      SumZero(s, indices[1..]);
      assert forall k :: 1 <= k < |indices| ==> indices[1..][k - 1] == indices[k];
    }
  }

  /** Direction `d` checks, among others, the neighbour its step leads to. */
  predicate ChecksTarget(d: Direction) {
    exists k :: 0 <= k < |d.indices| && 0 <= d.indices[k] < 8 && PositionArray[d.indices[k]] == d.diff
  }

  /**
   * When every direction checks the cell it steps to (as N with its flags
   * N, NE, NW does), an elf proposes either to stay or to step into a cell
   * where no elf stands.
   */
  lemma {:induction false} ProposalToEmptyCell(elves: seq<Pos>, p: Pos, directions: seq<Direction>)
    requires AllIndicesIn(Surrounding(elves, p), directions)
    requires forall d :: 0 <= d < |directions| ==> ChecksTarget(directions[d])
    ensures Proposal(p, Surrounding(elves, p), directions) == p
            || Proposal(p, Surrounding(elves, p), directions) !in elves
  {
    var s := Surrounding(elves, p);
    if |directions| > 0 {
      var d := directions[0];
      if Free(s, d) {
        SurroundingFlags(elves, p);
        SumZero(s, d.indices);
        var k :| 0 <= k < |d.indices| && 0 <= d.indices[k] < 8 && PositionArray[d.indices[k]] == d.diff;
        assert PyIndex(s, d.indices[k]) == 0;
      } else {
        ProposalToEmptyCell(elves, p, directions[1..]);
      }
    }
  }

  // ---------------------------------------------------------------------------
  // move_elves
  // ---------------------------------------------------------------------------

  /**
   * `move_elves`: each elf takes its proposal unless some other elf proposed
   * the same cell (`proposed_moves_ls.count(...) > 1`), in which case it
   * stays.
   */
  function MoveElves(elfPositions: seq<Pos>, proposedMoves: seq<Pos>): (r: seq<Pos>)
    requires |elfPositions| <= |proposedMoves|
    ensures |r| == |elfPositions|
  {
    seq(|elfPositions|, i requires 0 <= i < |elfPositions| =>
      if multiset(proposedMoves)[proposedMoves[i]] > 1 then elfPositions[i] else proposedMoves[i])
  }

  /** No two entries of `s` are equal. */
  predicate Distinct<T(==)>(s: seq<T>) {
    forall i, j :: 0 <= i < j < |s| ==> s[i] != s[j]
  }

  /** A value at two indices of `s` is counted at least twice. */
  lemma CountedTwice<T>(s: seq<T>, i: nat, j: nat)
    requires i < j < |s| && s[i] == s[j]
    ensures multiset(s)[s[i]] >= 2
  {
    assert s == s[..j] + [s[j]] + s[j + 1..];
    assert s[..j][i] == s[i];
    assert s[i] in multiset(s[..j]);
  }

  /** No index of `s` other than `i` holds the value at `i`. */
  predicate UniqueAt<T(==)>(s: seq<T>, i: nat)
    requires i < |s|
  {
    forall j :: 0 <= j < |s| && j != i ==> s[j] != s[i]
  }

  /** A value found at no other index of `s` is counted once. */
  lemma CountedOnce<T>(s: seq<T>, i: nat)
    requires i < |s| && UniqueAt(s, i)
    ensures multiset(s)[s[i]] == 1
  {
    var x := s[i];
    var rest := s[..i] + s[i + 1..];
    assert s == s[..i] + [x] + s[i + 1..];
    assert x !in rest by {
      forall k | 0 <= k < |rest| ensures rest[k] != x {
        if k < i {
          assert rest[k] == s[k];
        } else {
          assert rest[k] == s[k + 1];
        }
      }
    }
    assert multiset(s) == multiset(rest) + multiset([x]);
  }

  /**
   * Each elf takes its proposal exactly when no other elf made the same
   * one, and otherwise stays.
   */
  lemma MoveEach(elfPositions: seq<Pos>, proposedMoves: seq<Pos>)
    requires |elfPositions| <= |proposedMoves|
    ensures forall i :: 0 <= i < |elfPositions| ==>
              MoveElves(elfPositions, proposedMoves)[i] == elfPositions[i]
              || (MoveElves(elfPositions, proposedMoves)[i] == proposedMoves[i] && UniqueAt(proposedMoves, i))
    ensures forall i :: 0 <= i < |elfPositions| && UniqueAt(proposedMoves, i) ==>
              MoveElves(elfPositions, proposedMoves)[i] == proposedMoves[i]
  {
    forall i, j | 0 <= i < |elfPositions| && 0 <= j < |proposedMoves| && j != i && proposedMoves[j] == proposedMoves[i]
      ensures MoveElves(elfPositions, proposedMoves)[i] == elfPositions[i]
    {
      if i < j {
        CountedTwice(proposedMoves, i, j);
      } else {
        CountedTwice(proposedMoves, j, i);
      }
    }
    forall i | 0 <= i < |elfPositions| && UniqueAt(proposedMoves, i)
      ensures MoveElves(elfPositions, proposedMoves)[i] == proposedMoves[i]
    {
      CountedOnce(proposedMoves, i);
    }
  }

  /** With pairwise different proposals, every elf moves to its proposal. */
  lemma MoveAllDistinct(elfPositions: seq<Pos>, proposedMoves: seq<Pos>)
    requires |elfPositions| <= |proposedMoves| && Distinct(proposedMoves)
    ensures MoveElves(elfPositions, proposedMoves) == proposedMoves[..|elfPositions|]
  {
    forall i | 0 <= i < |elfPositions|
      ensures multiset(proposedMoves)[proposedMoves[i]] == 1
    {
      CountedOnce(proposedMoves, i);
    }
  }

  /** Two elves whose proposals collide both stay where they are. */
  lemma MoveCollision(elfPositions: seq<Pos>, proposedMoves: seq<Pos>, i: nat, j: nat)
    requires |elfPositions| <= |proposedMoves| && i < |elfPositions| && j < |elfPositions|
    requires i != j && proposedMoves[i] == proposedMoves[j]
    ensures MoveElves(elfPositions, proposedMoves)[i] == elfPositions[i]
    ensures MoveElves(elfPositions, proposedMoves)[j] == elfPositions[j]
  {
    if i < j {
      CountedTwice(proposedMoves, i, j);
    } else {
      CountedTwice(proposedMoves, j, i);
    }
  }

  /**
   * No two elves end up on the same cell when they start on different cells
   * and each proposes to stay or to step into a cell where no elf stands.
   */
  lemma MoveKeepsApart(elfPositions: seq<Pos>, proposedMoves: seq<Pos>)
    requires |elfPositions| <= |proposedMoves| && Distinct(elfPositions)
    requires forall i :: 0 <= i < |elfPositions| ==>
               proposedMoves[i] == elfPositions[i] || proposedMoves[i] !in elfPositions
    ensures Distinct(MoveElves(elfPositions, proposedMoves))
  {
    var r := MoveElves(elfPositions, proposedMoves);
    MoveEach(elfPositions, proposedMoves);
    forall i, j | 0 <= i < j < |r| ensures r[i] != r[j] {
      assert elfPositions[i] in elfPositions && elfPositions[j] in elfPositions;
    }
  }

  /**
   * One round, as far as the source implements it: every elf proposes by
   * Proposal from its surroundings, with directions that each check the
   * cell they step to, and move_elves keeps the elves on different cells.
   */
  lemma RoundKeepsApart(elfPositions: seq<Pos>, proposedMoves: seq<Pos>, directions: seq<Direction>)
    requires |elfPositions| == |proposedMoves| && Distinct(elfPositions)
    requires forall d :: 0 <= d < |directions| ==> ChecksTarget(directions[d])
    requires forall i :: 0 <= i < |elfPositions| ==>
               AllIndicesIn(Surrounding(elfPositions, elfPositions[i]), directions)
               && proposedMoves[i] == Proposal(elfPositions[i], Surrounding(elfPositions, elfPositions[i]), directions)
    ensures Distinct(MoveElves(elfPositions, proposedMoves))
  {
    forall i | 0 <= i < |elfPositions|
      ensures proposedMoves[i] == elfPositions[i] || proposedMoves[i] !in elfPositions
    {
      ProposalToEmptyCell(elfPositions, elfPositions[i], directions);
    }
    MoveKeepsApart(elfPositions, proposedMoves);
  }
}
