/**
 * Reading the puzzle input of Day15.py: one line per sensor, in the form
 * "Sensor at x=2, y=18: closest beacon is at x=-2, y=15".
 * Python exceptions (an IndexError on a missing piece, a ValueError from
 * `int()`) become None.
 */
module Day15Parsing {
  import opened Wrappers
  import opened Strings

  /** A grid position (x, y). */
  type Point = (int, int)

  /** One input line: a sensor and the beacon closest to it. */
  datatype Reading = Reading(sensor: Point, beacon: Point)

  /** `parse_location`: the text after "at " holds "x=<int>, y=<int>". */
  function ParseLocation(s: string): Option<Point> {
    var halves := Split(s, "at ");
    if |halves| < 2 then None
    else
      var coords := Split(halves[1], ", ");
      if |coords| != 2 then None
      else
        var xs := Split(coords[0], "=");
        var ys := Split(coords[1], "=");
        if |xs| < 2 || |ys| < 2 then None
        else
          match (ParseInt(xs[1]), ParseInt(ys[1]))
          case (Some(x), Some(y)) => Some((x, y))
          case _ => None
  }

  /** `parse_row`: the two locations on either side of ": ". */
  function ParseRow(s: string): Option<Reading> {
    var parts := Split(s, ": ");
    if |parts| != 2 then None
    else
      match (ParseLocation(parts[0]), ParseLocation(parts[1]))
      case (Some(sensor), Some(beacon)) => Some(Reading(sensor, beacon))
      case _ => None
  }

  /** All the values of `items`, in order, when none is missing. */
  function Collect<T>(items: seq<Option<T>>): (r: Option<seq<T>>)
    ensures r.Some? <==> forall i :: 0 <= i < |items| ==> items[i].Some?
    ensures r.Some? ==> |r.value| == |items| && forall i :: 0 <= i < |items| ==> items[i] == Some(r.value[i])
    decreases |items|
  {
    if |items| == 0 then Some([])
    else
      var rest := Collect(items[1..]);
      assert forall i :: 1 <= i < |items| ==> items[1..][i - 1] == items[i];
      if items[0].Some? && rest.Some? then Some([items[0].value] + rest.value) else None
  }

  /** `tuple(map(parse_row, lines))`, failing when some line fails. */
  function ParseRows(lines: seq<string>): Option<seq<Reading>> {
    Collect(ParsedLines(lines))
  }

  /** `map(parse_row, lines)`: the outcome of each line. */
  function ParsedLines(lines: seq<string>): (items: seq<Option<Reading>>)
    ensures |items| == |lines|
  {
    seq(|lines|, i requires 0 <= i < |lines| => ParseRow(lines[i]))
  }

  /** The readings parse exactly when every line does, one reading per line, in order. */
  lemma ParseRowsMeaning(lines: seq<string>)
    ensures ParseRows(lines).Some? <==> forall i :: 0 <= i < |lines| ==> ParseRow(lines[i]).Some?
    ensures ParseRows(lines).Some? ==> |ParseRows(lines).value| == |lines|
    ensures ParseRows(lines).Some? ==> forall i :: 0 <= i < |lines| ==> ParseRow(lines[i]) == Some(ParseRows(lines).value[i])
  {
    var items := ParsedLines(lines);
    assert forall i :: 0 <= i < |lines| ==> items[i] == ParseRow(lines[i]);
  }

  /** `parse_input`: one reading per line of the raw input. */
  function ParseInput(raw: string): Option<seq<Reading>> {
    ParseRows(Split(raw, "\n"))
  }

  /** "<name>=<value>", one coordinate as the puzzle writes it. */
  function Assignment(name: char, v: int): string {
    [name] + "=" + FormatInt(v)
  }

  /** "x=<x>, y=<y>". */
  function Coordinates(p: Point): string {
    Assignment('x', p.0) + ", " + Assignment('y', p.1)
  }

  /** The text `parse_location` expects: a prefix, then "at ", then the coordinates. */
  function FormatLocation(prefix: string, p: Point): string {
    prefix + "at " + Coordinates(p)
  }

  /** One input line as the puzzle writes it. */
  function FormatRow(r: Reading): string {
    FormatLocation("Sensor ", r.sensor) + ": " + FormatLocation("closest beacon is ", r.beacon)
  }

  /** A whole input: the lines joined by newlines. */
  function FormatInput(rs: seq<Reading>): string {
    Join(seq(|rs|, i requires 0 <= i < |rs| => FormatRow(rs[i])), "\n")
  }

  lemma SensorLabel()
    ensures IndexOf("Sensor " + "at ", "at ") == Some(7)
  {
    IndexOfAfterAbsent("Sensor ", "at ");
  }

  lemma BeaconLabel()
    ensures IndexOf("closest beacon is " + "at ", "at ") == Some(18)
  {
    var x, w := "closest be", "con is ";
    var t := x + "a" + w + "at ";
    assert t == "closest beacon is " + "at ";
    forall i: nat | i < 18 ensures !MatchesAt(t, "at ", i) {
      if i < 10 {
        assert t[i] == x[i];
        NoMatchAt(t, "at ", i);
      } else if i == 10 {
        assert t[10..13] == "aco";
      } else {
        assert t[i] == w[i - 11];
        NoMatchAt(t, "at ", i);
      }
    }
    assert t[18..21] == "at ";
    IndexOfFirst(t, "at ", 18);
  }

  lemma SplitAssignment(name: char, v: int)
    requires name != '='
    ensures Split(Assignment(name, v), "=") == [[name], FormatInt(v)]
  {
    SplitAfterAbsent([name], "=", FormatInt(v));
    SplitAbsent(FormatInt(v), "=");
  }

  lemma SplitCoordinates(p: Point)
    ensures Split(Coordinates(p), ", ") == [Assignment('x', p.0), Assignment('y', p.1)]
  {
    SplitAfterAbsent(Assignment('x', p.0), ", ", Assignment('y', p.1));
    SplitAbsent(Assignment('y', p.1), ", ");
  }

  lemma SplitLocation(prefix: string, p: Point)
    requires IndexOf(prefix + "at ", "at ") == Some(|prefix|)
    ensures Split(FormatLocation(prefix, p), "at ") == [prefix, Coordinates(p)]
  {
    SplitAfter(prefix, "at ", Coordinates(p));
    CoordinatesLack(p, 'a');
    SplitAbsent(Coordinates(p), "at ");
  }

  /** A location written after a prefix parses back, negative coordinates included. */
  lemma ParseFormatLocation(prefix: string, p: Point)
    requires IndexOf(prefix + "at ", "at ") == Some(|prefix|)
    ensures ParseLocation(FormatLocation(prefix, p)) == Some(p)
  {
    SplitLocation(prefix, p);
    SplitCoordinates(p);
    SplitAssignment('x', p.0);
    SplitAssignment('y', p.1);
    ParseFormatInt(p.0);
    ParseFormatInt(p.1);
  }

  lemma SplitRow(r: Reading)
    ensures Split(FormatRow(r), ": ")
         == [FormatLocation("Sensor ", r.sensor), FormatLocation("closest beacon is ", r.beacon)]
  {
    var sensor := FormatLocation("Sensor ", r.sensor);
    var beacon := FormatLocation("closest beacon is ", r.beacon);
    LocationLacks("Sensor ", r.sensor, ':');
    LocationLacks("closest beacon is ", r.beacon, ':');
    SplitAfterAbsent(sensor, ": ", beacon);
    SplitAbsent(beacon, ": ");
  }

  /** `parse_row` reads back every line the puzzle can write. */
  lemma ParseFormatRow(r: Reading)
    ensures ParseRow(FormatRow(r)) == Some(r)
  {
    SplitRow(r);
    SensorLabel();
    BeaconLabel();
    ParseFormatLocation("Sensor ", r.sensor);
    ParseFormatLocation("closest beacon is ", r.beacon);
  }

  lemma CoordinatesLack(p: Point, c: char)
    requires !IsDigit(c) && c !in "-=xy, "
    ensures c !in Coordinates(p)
  {
    var x, y := FormatInt(p.0), FormatInt(p.1);
    assert c !in x && c !in y;
    assert Coordinates(p) == ['x'] + "=" + x + ", " + (['y'] + "=" + y);
  }

  lemma LocationLacks(prefix: string, p: Point, c: char)
    requires !IsDigit(c) && c !in "-=xy, " && c !in prefix && c !in "at "
    ensures c !in FormatLocation(prefix, p)
  {
    CoordinatesLack(p, c);
  }

  lemma RowLacksNewline(r: Reading)
    ensures '\n' !in FormatRow(r)
  {
    LocationLacks("Sensor ", r.sensor, '\n');
    LocationLacks("closest beacon is ", r.beacon, '\n');
  }

  lemma ParseRowsEach(lines: seq<string>, rs: seq<Reading>)
    requires |lines| == |rs|
    requires forall i :: 0 <= i < |lines| ==> ParseRow(lines[i]) == Some(rs[i])
    ensures ParseRows(lines) == Some(rs)
  {
    ParseRowsMeaning(lines);
    var r := ParseRows(lines);
    assert r.Some?;
    assert r.value == rs;
  }

  /** `parse_input` reads back every non-empty list of readings written one per line. */
  lemma ParseFormatInput(rs: seq<Reading>)
    requires |rs| > 0
    ensures ParseInput(FormatInput(rs)) == Some(rs)
  {
    var lines := seq(|rs|, i requires 0 <= i < |rs| => FormatRow(rs[i]));
    forall k | 0 <= k < |lines| ensures '\n' !in lines[k] {
      RowLacksNewline(rs[k]);
    }
    SplitJoin(lines, "\n");
    forall i | 0 <= i < |rs| ensures ParseRow(lines[i]) == Some(rs[i]) {
      ParseFormatRow(rs[i]);
    }
    ParseRowsEach(lines, rs);
  }

  /** The first docstring example of parse_location. */
  lemma ParseSensorExample()
    ensures ParseLocation("Sensor at x=9, y=16") == Some((9, 16))
  {
    assert FormatLocation("Sensor ", (9, 16)) == "Sensor at x=9, y=16" by {
      assert Coordinates((9, 16)) == "x=9, y=16";
    }
    SensorLabel();
    ParseFormatLocation("Sensor ", (9, 16));
  }

  /** The second docstring example of parse_location. */
  lemma ParseBeaconExample()
    ensures ParseLocation("closest beacon is at x=10, y=16") == Some((10, 16))
  {
    assert FormatLocation("closest beacon is ", (10, 16)) == "closest beacon is at x=10, y=16" by {
      assert Coordinates((10, 16)) == "x=10, y=16";
    }
    BeaconLabel();
    ParseFormatLocation("closest beacon is ", (10, 16));
  }

  lemma SensorPartExample()
    ensures FormatLocation("Sensor ", (2, 18)) == "Sensor at x=2, y=18"
  {
    assert Coordinates((2, 18)) == "x=2, y=18";
  }

  lemma BeaconPartExample()
    ensures FormatLocation("closest beacon is ", (-2, 15)) == "closest beacon is at x=-2, y=15"
  {
    assert FormatInt(-2) == "-2";
    assert Coordinates((-2, 15)) == "x=-2, y=15";
  }

  /** A line of the puzzle input, assembled from its two halves. */
  lemma FormatRowExample()
    ensures FormatRow(Reading((2, 18), (-2, 15)))
         == "Sensor at x=2, y=18" + ": " + "closest beacon is at x=-2, y=15"
  {
    SensorPartExample();
    BeaconPartExample();
  }

  /** The docstring example of parse_row: negative coordinates read back too. */
  lemma ParseRowExample()
    ensures ParseRow("Sensor at x=2, y=18" + ": " + "closest beacon is at x=-2, y=15")
         == Some(Reading((2, 18), (-2, 15)))
  {
    FormatRowExample();
    ParseFormatRow(Reading((2, 18), (-2, 15)));
  }
}
