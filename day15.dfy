/**
 * Day15.py above the parser: each sensor excludes the positions no farther
 * from it (in Manhattan distance) than its closest beacon. On one row that
 * is a range of x positions; `beacon_exclusion` merges the ranges of every
 * sensor reaching the row and sums their widths, and
 * `find_tuning_frequency` looks, row by row in [0, max_value], for the first
 * row whose merged ranges fall apart into more than one piece.
 */
module Day15 {
  import opened Wrappers
  import opened Day15Parsing
  import opened Day15Ranges

  function Abs(v: int): (a: nat)
    ensures a == v || a == -v
  {
    if v < 0 then -v else v
  }

  /** `find_manhattan_distance`. */
  function Manhattan(a: Point, b: Point): (d: nat)
    ensures d == 0 <==> a == b
    ensures d >= Abs(a.0 - b.0) && d >= Abs(a.1 - b.1)
  {
    Abs(a.0 - b.0) + Abs(a.1 - b.1)
  }

  lemma ManhattanSymmetric(a: Point, b: Point)
    ensures Manhattan(a, b) == Manhattan(b, a)
  {
  }

  lemma ManhattanTriangle(a: Point, b: Point, c: Point)
    ensures Manhattan(a, c) <= Manhattan(a, b) + Manhattan(b, c)
  {
  }

  /** The docstring examples of `find_manhattan_distance`. */
  lemma ManhattanExamples()
    ensures Manhattan((8, 7), (2, 10)) == 9
    ensures Manhattan((0, 11), (2, 10)) == 3
  {
  }

  /** The reading rules out position `p`: it is no farther from the sensor than the beacon is. */
  predicate Reaches(reading: Reading, p: Point) {
    Manhattan(reading.sensor, p) <= Manhattan(reading.sensor, reading.beacon)
  }

  /** Python truthiness of the optional `max_value`: None and 0 both leave the range unclamped. */
  predicate Clamps(maxValue: Option<int>) {
    maxValue.Some? && maxValue.value != 0
  }

  /** Position `p` lies within [0, max_value] when the range is clamped. */
  predicate InBounds(maxValue: Option<int>, p: int) {
    Clamps(maxValue) ==> 0 <= p <= maxValue.value
  }

  /**
   * `excluded_row_positions`: the x positions at most `horizDistance` from
   * the center, cut to [0, max_value] when `max_value` is truthy.
   */
  function ExcludedRowPositions(center: Point, horizDistance: int, maxValue: Option<int>): (r: Range)
    ensures forall p :: Covers(r, p) <==> Abs(p - center.0) <= horizDistance && InBounds(maxValue, p)
    ensures !Clamps(maxValue) ==> r.hi - r.lo == 2 * horizDistance
  {
    var x := center.0;
    if Clamps(maxValue) then
      var m := maxValue.value;
      Range(if x - horizDistance < 0 then 0 else x - horizDistance,
            if x + horizDistance + 1 > m then m else x + horizDistance)
    else
      Range(x - horizDistance, x + horizDistance)
  }

  /** The docstring examples of `excluded_row_positions`. */
  lemma ExcludedRowPositionsExamples()
    ensures ExcludedRowPositions((0, 8), 0, None) == Range(0, 0)
    ensures ExcludedRowPositions((0, 10), 2, None) == Range(-2, 2)
    ensures ExcludedRowPositions((0, 10), 2, Some(1)) == Range(0, 1)
  {
  }

  /** `find_excluded_range`: the positions on row `yRow` within `distance` of the sensor. */
  function FindExcludedRange(sensor: Point, distance: int, yRow: int, maxValue: Option<int>): (r: Range)
    ensures forall p :: Covers(r, p) <==> Manhattan(sensor, (p, yRow)) <= distance && InBounds(maxValue, p)
  {
    ExcludedRowPositions((sensor.0, yRow), distance - Abs(sensor.1 - yRow), maxValue)
  }

  /** `exclude_positions`: the positions on row `yRow` a reading rules out. */
  function ExcludePositions(reading: Reading, yRow: int, maxValue: Option<int>): (r: Range)
    ensures forall p :: Covers(r, p) <==> Reaches(reading, (p, yRow)) && InBounds(maxValue, p)
  {
    FindExcludedRange(reading.sensor, Manhattan(reading.sensor, reading.beacon), yRow, maxValue)
  }

  /** The docstring examples of `find_excluded_range` and `exclude_positions`. */
  lemma ExcludePositionsExamples()
    ensures FindExcludedRange((0, 11), 3, 10, None) == Range(-2, 2)
    ensures FindExcludedRange((0, 10), 2, 10, Some(1)) == Range(0, 1)
    ensures ExcludePositions(Reading((0, 11), (2, 10)), 10, None) == Range(-2, 2)
    ensures ExcludePositions(Reading((0, 11), (2, 10)), 10, Some(1)) == Range(0, 1)
  {
  }

  /**
   * `is_crossing`, branch for branch: the sensor's row or the beacon's row is
   * `yRow`, `yRow` lies between them, or `yRow` is within the sensor's reach.
   * All three amount to the reach test alone.
   */
  function IsCrossing(reading: Reading, yRow: int): (r: bool)
    ensures r <==> Abs(reading.sensor.1 - yRow) <= Manhattan(reading.sensor, reading.beacon)
  {
    var sensorY := reading.sensor.1;
    var beaconY := reading.beacon.1;
    if sensorY == yRow || beaconY == yRow then true
    else if (sensorY < yRow && beaconY > yRow) || (sensorY > yRow && beaconY < yRow) then true
    else
      var distance := Manhattan(reading.sensor, reading.beacon);
      sensorY - distance <= yRow && sensorY + distance >= yRow
  }

  /** A reading crosses a row exactly when it rules out some position on it. */
  lemma CrossingMeansReach(reading: Reading, yRow: int)
    ensures IsCrossing(reading, yRow) <==> exists p :: Reaches(reading, (p, yRow))
  {
    if IsCrossing(reading, yRow) {
      assert Reaches(reading, (reading.sensor.0, yRow));
    }
  }

  /** An unclamped range of a crossing reading is well-formed. */
  lemma CrossingRangeWellFormed(reading: Reading, yRow: int)
    requires IsCrossing(reading, yRow)
    ensures WellFormed(ExcludePositions(reading, yRow, None))
  {
    assert Covers(ExcludePositions(reading, yRow, None), reading.sensor.0);
  }

  /** The docstring examples of `is_crossing`. */
  lemma IsCrossingExamples()
    ensures !IsCrossing(Reading((2, 18), (-2, 15)), 10)
    ensures !IsCrossing(Reading((9, 16), (10, 16)), 10)
    ensures !IsCrossing(Reading((13, 2), (15, 3)), 10)
    ensures IsCrossing(Reading((12, 14), (10, 16)), 10)
    ensures !IsCrossing(Reading((10, 20), (10, 16)), 10)
    ensures !IsCrossing(Reading((14, 17), (10, 16)), 10)
    ensures IsCrossing(Reading((8, 7), (2, 10)), 10)
    ensures IsCrossing(Reading((2, 0), (2, 10)), 10)
    ensures IsCrossing(Reading((0, 11), (2, 10)), 10)
    ensures IsCrossing(Reading((20, 14), (25, 17)), 10)
    ensures !IsCrossing(Reading((17, 20), (21, 22)), 10)
    ensures IsCrossing(Reading((16, 7), (15, 3)), 10)
    ensures !IsCrossing(Reading((14, 3), (15, 3)), 10)
    ensures !IsCrossing(Reading((20, 1), (15, 3)), 10)
  {
  }

  /** `crossing_locations`: the readings crossing `yRow`, in input order. */
  function CrossingLocations(readings: seq<Reading>, yRow: int): (r: seq<Reading>)
    ensures forall i :: 0 <= i < |r| ==> IsCrossing(r[i], yRow)
    ensures forall x :: x in readings && IsCrossing(x, yRow) ==> x in r
    ensures multiset(r) <= multiset(readings)
    ensures forall x :: IsCrossing(x, yRow) ==> multiset(r)[x] == multiset(readings)[x]
    decreases |readings|
  {
    if |readings| == 0 then []
    else
      var rest := CrossingLocations(readings[1..], yRow);
      assert readings == [readings[0]] + readings[1..];
      if IsCrossing(readings[0], yRow) then [readings[0]] + rest else rest
  }

  /** `r` is `s` with some entries dropped: entry `k` of `r` is entry `idx[k]` of `s`, and `idx` increases. */
  ghost predicate SubsequenceAt<T>(r: seq<T>, s: seq<T>, idx: seq<nat>) {
    && |idx| == |r|
    && (forall k :: 0 <= k < |idx| ==> idx[k] < |s| && r[k] == s[idx[k]])
    && (forall k, l :: 0 <= k < l < |idx| ==> idx[k] < idx[l])
  }

  /** Indices into a sequence, each moved one place on. */
  function Shift(idx: seq<nat>): (r: seq<nat>)
    ensures |r| == |idx| && forall k :: 0 <= k < |idx| ==> r[k] == idx[k] + 1
  {
    seq(|idx|, k requires 0 <= k < |idx| => idx[k] + 1)
  }

  /** Dropping the head of `s`: indices into the tail, shifted by one, index `s` itself. */
  lemma SubsequenceSkip<T>(r: seq<T>, s: seq<T>, idx: seq<nat>)
    requires |s| > 0 && SubsequenceAt(r, s[1..], idx)
    ensures SubsequenceAt(r, s, Shift(idx))
  {
  }

  /** Keeping the head of `s`: it goes first, at index 0. */
  lemma SubsequenceKeep<T>(r: seq<T>, s: seq<T>, idx: seq<nat>)
    requires |s| > 0 && SubsequenceAt(r, s[1..], idx)
    ensures SubsequenceAt([s[0]] + r, s, [0] + Shift(idx))
  {
    var shifted := Shift(idx);
    var full := [0] + shifted;
    var kept := [s[0]] + r;
    SubsequenceSkip(r, s, idx);
    forall k | 0 <= k < |full| ensures full[k] < |s| && kept[k] == s[full[k]] {
      if k > 0 {
        assert full[k] == shifted[k - 1] && kept[k] == r[k - 1];
      }
    }
    forall k, l | 0 <= k < l < |full| ensures full[k] < full[l] {
      assert full[l] == shifted[l - 1];
      if k > 0 {
        assert full[k] == shifted[k - 1];
      }
    }
  }

  /** Where the crossing readings sit in the input. */
  ghost function CrossingIndices(readings: seq<Reading>, yRow: int): seq<nat>
    decreases |readings|
  {
    if |readings| == 0 then []
    else
      var rest := Shift(CrossingIndices(readings[1..], yRow));
      if IsCrossing(readings[0], yRow) then [0] + rest else rest
  }

  /** The crossing readings keep their input order: they are the input at increasing indices. */
  lemma {:induction false} CrossingInOrder(readings: seq<Reading>, yRow: int)
    ensures SubsequenceAt(CrossingLocations(readings, yRow), readings, CrossingIndices(readings, yRow))
    decreases |readings|
  {
    if |readings| > 0 {
      var rest := CrossingLocations(readings[1..], yRow);
      var idx := CrossingIndices(readings[1..], yRow);
      CrossingInOrder(readings[1..], yRow);
      if IsCrossing(readings[0], yRow) {
        SubsequenceKeep(rest, readings, idx);
      } else {
        SubsequenceSkip(rest, readings, idx);
      }
    }
  }

  /** The ranges `beacon_exclusion` and `find_tuning_frequency` merge on row `yRow`, in order. */
  function RowRanges(readings: seq<Reading>, yRow: int, maxValue: Option<int>): (r: seq<Range>)
    ensures |r| == |CrossingLocations(readings, yRow)|
  {
    var crossing := CrossingLocations(readings, yRow);
    seq(|crossing|, i requires 0 <= i < |crossing| => ExcludePositions(crossing[i], yRow, maxValue))
  }

  /** The merged ranges of row `yRow`. */
  ghost function RowSet(readings: seq<Reading>, yRow: int, maxValue: Option<int>): set<Range> {
    CollapseAll(RowRanges(readings, yRow, maxValue))
  }

  /** Every range merged on the row is well-formed; always so when unclamped. */
  ghost predicate RowWellFormed(readings: seq<Reading>, yRow: int, maxValue: Option<int>) {
    forall i :: 0 <= i < |RowRanges(readings, yRow, maxValue)| ==> WellFormed(RowRanges(readings, yRow, maxValue)[i])
  }

  lemma UnclampedRowWellFormed(readings: seq<Reading>, yRow: int)
    ensures RowWellFormed(readings, yRow, None)
  {
    var crossing := CrossingLocations(readings, yRow);
    forall i | 0 <= i < |crossing| ensures WellFormed(RowRanges(readings, yRow, None)[i]) {
      CrossingRangeWellFormed(crossing[i], yRow);
    }
  }

  /** Each range of the row is the one some reading rules out. */
  lemma RangeFromReading(readings: seq<Reading>, yRow: int, maxValue: Option<int>, i: nat)
    requires i < |RowRanges(readings, yRow, maxValue)|
    ensures exists j :: 0 <= j < |readings| && RowRanges(readings, yRow, maxValue)[i] == ExcludePositions(readings[j], yRow, maxValue)
  {
    var crossing := CrossingLocations(readings, yRow);
    assert crossing[i] in multiset(readings);
    var j :| 0 <= j < |readings| && readings[j] == crossing[i];
    assert RowRanges(readings, yRow, maxValue)[i] == ExcludePositions(readings[j], yRow, maxValue);
  }

  /** Every reading that rules out a position of the row contributes a range. */
  lemma ReadingHasRange(readings: seq<Reading>, yRow: int, maxValue: Option<int>, j: nat, p: int)
    requires j < |readings| && Reaches(readings[j], (p, yRow))
    ensures exists i :: 0 <= i < |RowRanges(readings, yRow, maxValue)| && RowRanges(readings, yRow, maxValue)[i] == ExcludePositions(readings[j], yRow, maxValue)
  {
    var crossing := CrossingLocations(readings, yRow);
    CrossingMeansReach(readings[j], yRow);
    var i :| 0 <= i < |crossing| && crossing[i] == readings[j];
    assert RowRanges(readings, yRow, maxValue)[i] == ExcludePositions(readings[j], yRow, maxValue);
  }

  /** Some range of the row covers `p` exactly when `p` is in bounds and some reading reaches it. */
  lemma RowRangesCover(readings: seq<Reading>, yRow: int, maxValue: Option<int>, p: int)
    ensures (exists i :: 0 <= i < |RowRanges(readings, yRow, maxValue)| && Covers(RowRanges(readings, yRow, maxValue)[i], p))
        <==> InBounds(maxValue, p) && exists i :: 0 <= i < |readings| && Reaches(readings[i], (p, yRow))
  {
    var ranges := RowRanges(readings, yRow, maxValue);
    if exists i :: 0 <= i < |ranges| && Covers(ranges[i], p) {
      var i :| 0 <= i < |ranges| && Covers(ranges[i], p);
      RangeFromReading(readings, yRow, maxValue, i);
      var j :| 0 <= j < |readings| && ranges[i] == ExcludePositions(readings[j], yRow, maxValue);
      assert Reaches(readings[j], (p, yRow));
    }
    if InBounds(maxValue, p) && exists j :: 0 <= j < |readings| && Reaches(readings[j], (p, yRow)) {
      var j :| 0 <= j < |readings| && Reaches(readings[j], (p, yRow));
      ReadingHasRange(readings, yRow, maxValue, j, p);
      var i :| 0 <= i < |ranges| && ranges[i] == ExcludePositions(readings[j], yRow, maxValue);
      assert Covers(ranges[i], p);
    }
  }

  /**
   * The merged ranges of a row are pairwise disjoint and cover exactly the
   * positions of the row (within [0, max_value] when clamped) that some
   * reading rules out.
   */
  lemma RowSetMeaning(readings: seq<Reading>, yRow: int, maxValue: Option<int>)
    requires RowWellFormed(readings, yRow, maxValue)
    ensures AllWellFormed(RowSet(readings, yRow, maxValue)) && PairwiseDisjoint(RowSet(readings, yRow, maxValue))
    ensures forall p :: Covered(RowSet(readings, yRow, maxValue), p)
                    <==> InBounds(maxValue, p) && exists i :: 0 <= i < |readings| && Reaches(readings[i], (p, yRow))
  {
    CollapseAllInvariant(RowRanges(readings, yRow, maxValue));
    forall p ensures Covered(RowSet(readings, yRow, maxValue), p)
                 <==> InBounds(maxValue, p) && exists i :: 0 <= i < |readings| && Reaches(readings[i], (p, yRow))
    {
      RowRangesCover(readings, yRow, maxValue, p);
    }
  }

  /**
   * The loop shared by `beacon_exclusion` and `find_tuning_frequency`:
   * `range_collapse` each crossing reading's range into the set, in order.
   */
  method CollapseRow(readings: seq<Reading>, yRow: int, maxValue: Option<int>) returns (excluded: set<Range>)
    ensures RowWellFormed(readings, yRow, maxValue) ==> excluded == RowSet(readings, yRow, maxValue)
  {
    var crossing := CrossingLocations(readings, yRow);
    ghost var ranges := RowRanges(readings, yRow, maxValue);
    excluded := {};
    var i := 0;
    while i < |crossing|
      invariant 0 <= i <= |crossing| == |ranges|
      invariant RowWellFormed(readings, yRow, maxValue) ==> excluded == CollapseAll(ranges[..i])
    {
      var newRange := ExcludePositions(crossing[i], yRow, maxValue);
      RowRangeAt(readings, yRow, maxValue, i);
      CollapseAllStep(ranges, i);
      excluded := RangeCollapse(newRange, excluded);
      i := i + 1;
    }
    assert ranges[..i] == ranges;
  }

  /** Range `i` of the row is the one crossing reading `i` rules out. */
  lemma RowRangeAt(readings: seq<Reading>, yRow: int, maxValue: Option<int>, i: nat)
    requires i < |CrossingLocations(readings, yRow)|
    ensures RowRanges(readings, yRow, maxValue)[i] == ExcludePositions(CrossingLocations(readings, yRow)[i], yRow, maxValue)
  {
  }

  /** `sum([x[1] - x[0] for x in excluded_ranges_set])`. */
  method SumWidths(s: set<Range>) returns (total: int)
    ensures total == TotalWidth(s)
  {
    total := 0;
    var rest := s;
    while rest != {}
      invariant rest <= s
      invariant total + TotalWidth(rest) == TotalWidth(s)
      decreases rest
    {
      var r :| r in rest;
      TotalWidthRemove(rest, r);
      total := total + (r.hi - r.lo);
      rest := rest - {r};
    }
  }

  /**
   * `beacon_exclusion`: the summed widths of the merged ranges of row
   * `yRow`. None stands for the exception a malformed input raises.
   */
  method BeaconExclusion(rawInput: string, yRow: int) returns (r: Option<int>)
    ensures r.None? <==> ParseInput(rawInput).None?
    ensures r.Some? ==> r.value == TotalWidth(RowSet(ParseInput(rawInput).value, yRow, None))
  {
    var parsed := ParseInput(rawInput);
    if parsed.None? {
      return None;
    }
    UnclampedRowWellFormed(parsed.value, yRow);
    var excluded := CollapseRow(parsed.value, yRow, None);
    var total := SumWidths(excluded);
    return Some(total);
  }

  /** Python's order on `(low, high)` tuples. */
  predicate TupleLeq(a: Range, b: Range) {
    a.lo < b.lo || (a.lo == b.lo && a.hi <= b.hi)
  }

  /** `sorted(s)[0]`: the least range in tuple order. */
  ghost function LeastRange(s: set<Range>): (m: Range)
    requires s != {}
    ensures m in s && forall q :: q in s ==> TupleLeq(m, q)
    decreases s
  {
    var r :| r in s;
    if s == {r} then r
    else
      var m := LeastRange(s - {r});
      if TupleLeq(r, m) then
        assert forall q :: q in s ==> q == r || q in s - {r};
        r
      else m
  }

  /** `sorted(s)[0]`, found by one pass over the set. */
  method FirstSorted(s: set<Range>) returns (m: Range)
    requires s != {}
    ensures m == LeastRange(s)
  {
    m :| m in s;
    var rest := s - {m};
    while rest != {}
      invariant rest <= s && m in s
      invariant forall q :: q in s - rest ==> TupleLeq(m, q)
      decreases rest
    {
      var r :| r in rest;
      assert forall q :: q in s - (rest - {r}) ==> q == r || q in s - rest;
      if !TupleLeq(m, r) {
        m := r;
      }
      rest := rest - {r};
    }
    assert s - rest == s;
  }

  /** What `find_tuning_frequency` reports. */
  datatype Tuning =
    | Malformed          // the input does not parse: the source raises
    | NoGap              // no row in [0, max_value] splits: the source returns None
    | Frequency(value: int)

  /** The merged ranges of rows 0 to `maxValue`, each clamped to [0, max_value]. */
  ghost function RowSets(readings: seq<Reading>, maxValue: int): (rows: seq<set<Range>>)
    ensures |rows| == if maxValue < 0 then 0 else maxValue + 1
    ensures forall y :: 0 <= y < |rows| ==> rows[y] == RowSet(readings, y, Some(maxValue))
  {
    if maxValue < 0 then []
    else seq(maxValue + 1, y requires 0 <= y <= maxValue => RowSet(readings, y, Some(maxValue)))
  }

  /** Every range merged on rows 0 to `maxValue` is well-formed. */
  ghost predicate AllRowsWellFormed(readings: seq<Reading>, maxValue: int) {
    forall row :: 0 <= row <= maxValue ==> RowWellFormed(readings, row, Some(maxValue))
  }

  /** Every sensor's x lies in [0, max_value]. */
  predicate SensorsWithin(readings: seq<Reading>, maxValue: int) {
    forall i :: 0 <= i < |readings| ==> 0 <= readings[i].sensor.0 <= maxValue
  }

  /** A clamped range of a sensor inside [0, max_value] holds the sensor's own column, so it is well-formed. */
  lemma RowWithinWellFormed(readings: seq<Reading>, yRow: int, maxValue: int)
    requires SensorsWithin(readings, maxValue)
    ensures RowWellFormed(readings, yRow, Some(maxValue))
  {
    var crossing := CrossingLocations(readings, yRow);
    forall i | 0 <= i < |crossing| ensures WellFormed(RowRanges(readings, yRow, Some(maxValue))[i]) {
      var x := crossing[i];
      assert x in multiset(readings);
      var j :| 0 <= j < |readings| && readings[j] == x;
      assert Covers(ExcludePositions(x, yRow, Some(maxValue)), x.sensor.0);
    }
  }

  /** With every sensor inside [0, max_value], every clamped range of rows 0 to `maxValue` is well-formed. */
  lemma SensorsWithinWellFormed(readings: seq<Reading>, maxValue: int)
    requires SensorsWithin(readings, maxValue)
    ensures AllRowsWellFormed(readings, maxValue)
  {
    forall row | 0 <= row <= maxValue ensures RowWellFormed(readings, row, Some(maxValue)) {
      RowWithinWellFormed(readings, row, maxValue);
    }
  }

  /** The frequency of the first row at or after `y` whose merged ranges split. */
  ghost function FirstSplitFrom(rows: seq<set<Range>>, y: nat): Option<int>
    decreases |rows| - y
  {
    if y >= |rows| then None
    else if |rows[y]| > 1 then RowFrequency(rows[y], y)
    else FirstSplitFrom(rows, y + 1)
  }

  /** Row `y` is the first row from `start` on whose merged ranges split. */
  ghost predicate FirstSplitRow(rows: seq<set<Range>>, start: nat, y: nat) {
    && start <= y < |rows|
    && |rows[y]| > 1
    && forall y' :: start <= y' < y ==> |rows[y']| <= 1
  }

  lemma RowSetsAt(readings: seq<Reading>, maxValue: int, y: int, excluded: set<Range>)
    requires 0 <= y <= maxValue && AllRowsWellFormed(readings, maxValue)
    requires RowWellFormed(readings, y, Some(maxValue)) ==> excluded == RowSet(readings, y, Some(maxValue))
    ensures excluded == RowSets(readings, maxValue)[y]
  {
  }

  /** One step of the scan: a row's own frequency, or else the scan from the next row. */
  lemma FirstSplitStep(rows: seq<set<Range>>, y: nat, found: Option<int>)
    requires y < |rows| && found == RowFrequency(rows[y], y)
    ensures FirstSplitFrom(rows, y) == if found.Some? then found else FirstSplitFrom(rows, y + 1)
  {
  }

  /** What one row contributes to the scan: its frequency when its merged ranges split. */
  ghost function RowFrequency(s: set<Range>, y: int): Option<int> {
    if |s| > 1 then Some((LeastRange(s).hi + 1) * 4000000 + y) else None
  }

  /** The body of the row loop of `find_tuning_frequency`, for row `rowNum`. */
  method CheckRow(readings: seq<Reading>, maxValue: int, rowNum: int, ghost rows: seq<set<Range>>)
    returns (found: Option<int>)
    requires 0 <= rowNum <= maxValue && rows == RowSets(readings, maxValue)
    ensures AllRowsWellFormed(readings, maxValue) ==> found == RowFrequency(rows[rowNum], rowNum)
    ensures AllRowsWellFormed(readings, maxValue) ==>
              FirstSplitFrom(rows, rowNum) == if found.Some? then found else FirstSplitFrom(rows, rowNum + 1)
  {
    var excluded := CollapseRow(readings, rowNum, Some(maxValue));
    if AllRowsWellFormed(readings, maxValue) {
      RowSetsAt(readings, maxValue, rowNum, excluded);
    }
    if |excluded| > 1 {
      var first := FirstSorted(excluded);
      var xPosn := first.hi + 1;
      found := Some(xPosn * 4000000 + rowNum);
    } else {
      found := None;
    }
    if AllRowsWellFormed(readings, maxValue) {
      FirstSplitStep(rows, rowNum, found);
    }
  }

  /**
   * The row loop of `find_tuning_frequency`: scans rows 0 to `maxValue`;
   * the first row whose merged ranges are more than one gives
   * x = (high of the least range) + 1 and the frequency x * 4000000 + row.
   * Exact when every clamped range is well-formed.
   */
  method ScanRows(readings: seq<Reading>, maxValue: int) returns (r: Option<int>)
    ensures AllRowsWellFormed(readings, maxValue) ==> r == FirstSplitFrom(RowSets(readings, maxValue), 0)
  {
    ghost var wellFormed := AllRowsWellFormed(readings, maxValue);
    ghost var rows := RowSets(readings, maxValue);
    var rowNum := 0;
    while rowNum <= maxValue
      invariant rowNum >= 0
      invariant wellFormed ==> FirstSplitFrom(rows, 0) == FirstSplitFrom(rows, rowNum)
      decreases maxValue + 1 - rowNum
    {
      var found := CheckRow(readings, maxValue, rowNum, rows);
      if found.Some? {
        return found;
      }
      rowNum := rowNum + 1;
    }
    return None;
  }

  /** `find_tuning_frequency`: parse, then scan the rows. */
  method FindTuningFrequency(rawInput: string, maxValue: int) returns (r: Tuning)
    ensures r.Malformed? <==> ParseInput(rawInput).None?
    ensures ParseInput(rawInput).Some?
              && (AllRowsWellFormed(ParseInput(rawInput).value, maxValue) || SensorsWithin(ParseInput(rawInput).value, maxValue)) ==>
              r == match FirstSplitFrom(RowSets(ParseInput(rawInput).value, maxValue), 0)
                   case None => NoGap
                   case Some(f) => Frequency(f)
  {
    var parsed := ParseInput(rawInput);
    if parsed.None? {
      return Malformed;
    }
    if SensorsWithin(parsed.value, maxValue) {
      SensorsWithinWellFormed(parsed.value, maxValue);
    }
    var found := ScanRows(parsed.value, maxValue);
    match found
    case None => r := NoGap;
    case Some(f) => r := Frequency(f);
  }

  /**
   * A reported frequency comes from the first row whose merged ranges split,
   * and names the position just past the least of them.
   */
  lemma {:induction false} FirstSplitMeaning(rows: seq<set<Range>>, start: nat)
    requires FirstSplitFrom(rows, start).Some?
    ensures exists y: nat :: FirstSplitRow(rows, start, y)
                          && FirstSplitFrom(rows, start) == RowFrequency(rows[y], y)
    decreases |rows| - start
  {
    if |rows[start]| > 1 {
      assert FirstSplitRow(rows, start, start);
    } else {
      FirstSplitMeaning(rows, start + 1);
      var y: nat :| FirstSplitRow(rows, start + 1, y)
                 && FirstSplitFrom(rows, start + 1) == RowFrequency(rows[y], y);
      assert FirstSplitRow(rows, start, y);
    }
  }

  /** No frequency means no row from `start` on splits. */
  lemma {:induction false} NoSplitMeaning(rows: seq<set<Range>>, start: nat)
    requires FirstSplitFrom(rows, start).None?
    ensures forall y :: start <= y < |rows| ==> |rows[y]| <= 1
    decreases |rows| - start
  {
    if start < |rows| {
      NoSplitMeaning(rows, start + 1);
    }
  }
}
