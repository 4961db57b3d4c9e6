/**
 * Day17.py: rocks of five shapes fall, one after another, into a chamber
 * seven units wide. Each rock appears with its left edge two units from the
 * left wall and its bottom three units above the highest settled cell; it is
 * then pushed one unit by the next jet of the (cycled) jet pattern and falls
 * one unit, alternately, until a fall is blocked and it comes to rest. The
 * answer is the height of the tower after a given number of rocks.
 *
 * Cells are (x, y) with 0 <= x <= 6; the floor is the row y = -1.
 */
module Day17 {
  import opened Wrappers

  type Cell = (int, int)

  /** The name of rock type `k` in `make_rock_generator`: '-', '+', 'L', 'I', '.'. */
  function RockName(k: nat): char
    requires k < 5
  {
    "-+LI."[k]
  }

  /** The cells of rock type `k`, relative to its lower-left corner. */
  function Shape(k: nat): set<Cell>
    requires k < 5
  {
    if k == 0 then {(0, 0), (1, 0), (2, 0), (3, 0)}
    else if k == 1 then {(1, 0), (0, 1), (1, 1), (2, 1), (1, 2)}
    else if k == 2 then {(0, 0), (1, 0), (2, 0), (2, 1), (2, 2)}
    else if k == 3 then {(0, 0), (0, 1), (0, 2), (0, 3)}
    else {(0, 0), (1, 0), (0, 1), (1, 1)}
  }

  /**
   * The rock generator cycles through the five types: the names of the first
   * twelve rocks.
   */
  lemma RockNamesExample()
    ensures seq(12, i requires 0 <= i => RockName(i % 5)) == "-+LI.-+LI.-+"
  {
  }

  /** `make_jet_pattern_generator`: the `j`-th jet of the endlessly repeated pattern. */
  function JetAt(jets: string, j: nat): (c: char)
    requires |jets| > 0
    ensures c in jets
  {
    jets[j % |jets|]
  }

  /** The first `|jets| + k` jets are the pattern followed by its first `k` characters. */
  lemma ModOneLap(j: nat, n: nat)
    requires 0 < n && j < 2 * n
    ensures j % n == (if j < n then j else j - n)
  {
  }

  lemma JetCycle(jets: string, k: nat)
    requires 0 < |jets| && k <= |jets|
    ensures seq(|jets| + k, j requires 0 <= j => JetAt(jets, j)) == jets + jets[..k]
  {
    var s := seq(|jets| + k, j requires 0 <= j => JetAt(jets, j));
    forall j | 0 <= j < |jets| + k ensures s[j] == (jets + jets[..k])[j] {
      var n := |jets|;
      if j >= n {
        ModOneLap(j, n);
        assert (jets + jets[..k])[j] == jets[j - n];
      } else {
        ModOneLap(j, n);
        assert (jets + jets[..k])[j] == jets[j];
      }
    }
  }

  /** Every cell moved by (dx, dy). */
  function Translate(cells: set<Cell>, dx: int, dy: int): set<Cell> {
    set c | c in cells :: (c.0 + dx, c.1 + dy)
  }

  lemma TranslateTwice(cells: set<Cell>, dx: int, dy: int, a: int, b: int)
    ensures Translate(Translate(cells, dx, dy), a, b) == Translate(cells, dx + a, dy + b)
  {
    var t := Translate(Translate(cells, dx, dy), a, b);
    forall c | c in Translate(cells, dx + a, dy + b) ensures c in t {
      var s :| s in cells && c == (s.0 + dx + a, s.1 + dy + b);
      assert (s.0 + dx, s.1 + dy) in Translate(cells, dx, dy);
    }
  }

  /** Rock type `k` with its lower-left corner at (dx, dy), cell by cell. */
  function Rock(k: nat, dx: int, dy: int): set<Cell>
    requires k < 5
  {
    if k == 0 then {(dx, dy), (dx + 1, dy), (dx + 2, dy), (dx + 3, dy)}
    else if k == 1 then {(dx + 1, dy), (dx, dy + 1), (dx + 1, dy + 1), (dx + 2, dy + 1), (dx + 1, dy + 2)}
    else if k == 2 then {(dx, dy), (dx + 1, dy), (dx + 2, dy), (dx + 2, dy + 1), (dx + 2, dy + 2)}
    else if k == 3 then {(dx, dy), (dx, dy + 1), (dx, dy + 2), (dx, dy + 3)}
    else {(dx, dy), (dx + 1, dy), (dx, dy + 1), (dx + 1, dy + 1)}
  }

  /** Each shape is its rock with the lower-left corner at the origin. */
  lemma ShapeIsRock(k: nat)
    requires k < 5
    ensures Shape(k) == Rock(k, 0, 0)
  {
  }

  /** Moving a shape by (dx, dy) gives Rock(k, dx, dy). */
  lemma RockIsShapeMoved(k: nat, dx: int, dy: int)
    requires k < 5
    ensures Translate(Shape(k), dx, dy) == Rock(k, dx, dy)
  {
    var t := Translate(Shape(k), dx, dy);
    forall c | c in Rock(k, dx, dy) ensures c in t {
      assert (c.0 - dx, c.1 - dy) in Shape(k);
    }
  }

  /** Moving a rock again moves its corner. */
  lemma RockMoved(k: nat, dx: int, dy: int, a: int, b: int)
    requires k < 5
    ensures Translate(Rock(k, dx, dy), a, b) == Rock(k, dx + a, dy + b)
  {
    calc {
      Translate(Rock(k, dx, dy), a, b);
      { RockIsShapeMoved(k, dx, dy); }
      Translate(Translate(Shape(k), dx, dy), a, b);
      { TranslateTwice(Shape(k), dx, dy, a, b); }
      Translate(Shape(k), dx + a, dy + b);
      { RockIsShapeMoved(k, dx + a, dy + b); }
      Rock(k, dx + a, dy + b);
    }
  }

  /** How many columns rock type `k` spans. */
  function Width(k: nat): nat {
    if k == 0 then 4 else if k == 3 then 1 else if k == 4 then 2 else 3
  }

  /** How many rows rock type `k` spans. */
  function Tall(k: nat): nat {
    if k == 0 then 1 else if k == 3 then 4 else if k == 4 then 2 else 3
  }

  /** The x of a cell every rock type has on its bottom row. */
  function BaseX(k: nat): nat {
    if k == 1 then 1 else 0
  }

  /**
   * A rock fills a box Width(k) wide and Tall(k) high: its cells lie inside
   * it, and it has cells in the box's first and last column and in its top
   * row, and the cell (dx + BaseX(k), dy) on its bottom row.
   */
  lemma RockBox(k: nat, dx: int, dy: int)
    requires k < 5
    ensures forall c :: c in Rock(k, dx, dy) ==> dx <= c.0 < dx + Width(k) && dy <= c.1 < dy + Tall(k)
    ensures (dx + BaseX(k), dy) in Rock(k, dx, dy)
    ensures exists c :: c in Rock(k, dx, dy) && c.0 == dx
    ensures exists c :: c in Rock(k, dx, dy) && c.0 == dx + Width(k) - 1
    ensures exists c :: c in Rock(k, dx, dy) && c.1 == dy + Tall(k) - 1
  {
    var r := Rock(k, dx, dy);
    if k == 0 {
      assert (dx, dy) in r && (dx + 3, dy) in r;
    } else if k == 1 {
      assert (dx, dy + 1) in r && (dx + 2, dy + 1) in r && (dx + 1, dy + 2) in r;
    } else if k == 2 {
      assert (dx, dy) in r && (dx + 2, dy + 2) in r;
    } else if k == 3 {
      assert (dx, dy + 3) in r;
    } else {
      assert (dx, dy) in r && (dx + 1, dy + 1) in r;
    }
  }

  /** Rock type `k` at offset `dx` lies between the walls. */
  predicate Fits(k: nat, dx: int) {
    0 <= dx && dx + Width(k) <= 7
  }

  /** Fits says that every cell of the rock lies between the walls. */
  lemma FitsMeaning(k: nat, dx: int, dy: int)
    requires k < 5
    ensures Fits(k, dx) <==> forall c :: c in Rock(k, dx, dy) ==> 0 <= c.0 <= 6
  {
    RockBox(k, dx, dy);
  }

  /**
   * The wall checks of a jet: the rock has no cell in the last column exactly
   * when dx + Width(k) < 7, and none in the first column exactly when dx > 0.
   */
  lemma WallMeaning(k: nat, dx: int, dy: int)
    requires k < 5
    ensures (forall c :: c in Rock(k, dx, dy) ==> c.0 < 6) <==> dx + Width(k) < 7
    ensures (forall c :: c in Rock(k, dx, dy) ==> c.0 > 0) <==> dx > 0
  {
    RockBox(k, dx, dy);
  }

  /** `{(x, -1) for x in range(7)}`: the floor row under the chamber. */
  function Floor(): set<Cell> {
    {(0, -1), (1, -1), (2, -1), (3, -1), (4, -1), (5, -1), (6, -1)}
  }

  lemma FloorMeaning()
    ensures forall c :: c in Floor() <==> c.1 == -1 && 0 <= c.0 <= 6
  {
  }

  /**
   * One jet push of rock type `k` at (dx, dy): the new offset, or None for a
   * character other than '<' and '>'. The rock moves when no cell is at the
   * wall it is pushed towards (WallMeaning) and the moved rock misses every
   * settled cell.
   */
  ghost function Push(jet: char, k: nat, settled: set<Cell>, dx: int, dy: int): Option<int>
    requires k < 5
  {
    if jet == '>' then
      Some(if dx + Width(k) < 7 && Rock(k, dx + 1, dy) !! settled then dx + 1 else dx)
    else if jet == '<' then
      Some(if dx > 0 && Rock(k, dx - 1, dy) !! settled then dx - 1 else dx)
    else None
  }

  /** A rock between the walls never falls through the floor: a free fall starts above it. */
  lemma FloorHolds(k: nat, settled: set<Cell>, dx: int, dy: int)
    requires k < 5 && Fits(k, dx) && Floor() <= settled && dy >= 0
    ensures Rock(k, dx, dy - 1) !! settled ==> dy > 0
  {
    if dy == 0 {
      RockBox(k, dx, -1);
      FloorMeaning();
      assert (dx + BaseX(k), -1) in Floor();
    }
  }

  /**
   * The rest of the fall of rock type `k` from offset (dx, dy) into the
   * chamber `c`, starting with a jet when `jetTurn` and reading jets from
   * index `j` on: the chamber once the rock has come to rest, its cells
   * joined to the settled ones, the top raised to its top row if that is
   * higher and `j` the jets used by then; or None for an unknown jet. The
   * rock drops while the cells one row down miss the settled ones; the
   * `dy > 0` guard only bounds the recursion, since over the floor row the
   * drop from dy == 0 is always blocked (FloorHolds).
   */
  ghost function Fall(jets: string, k: nat, c: Chamber, dx: int, dy: int, j: nat, jetTurn: bool): Option<Chamber>
    requires |jets| > 0 && k < 5
    decreases dy, jetTurn
  {
    if jetTurn then
      match Push(JetAt(jets, j), k, c.settled, dx, dy)
      case None => None
      case Some(dx') => Fall(jets, k, c, dx', dy, j + 1, false)
    else if dy > 0 && Rock(k, dx, dy - 1) !! c.settled then
      Fall(jets, k, c, dx, dy - 1, j, true)
    else Some(Chamber(c.settled + Rock(k, dx, dy), Max(c.top, dy + Tall(k) - 1), j))
  }

  /** A rock that starts between the walls and above the floor keeps a valid chamber valid. */
  lemma {:induction false} FallValid(
    jets: string, k: nat, c: Chamber, dx: int, dy: int, j: nat, jetTurn: bool)
    requires |jets| > 0 && k < 5 && Valid(c) && Fits(k, dx) && dy >= 0
    ensures Fall(jets, k, c, dx, dy, j, jetTurn).Some? ==> Valid(Fall(jets, k, c, dx, dy, j, jetTurn).value)
    decreases dy, jetTurn
  {
    if jetTurn {
      match Push(JetAt(jets, j), k, c.settled, dx, dy)
      case None =>
      case Some(dx') =>
        FallValid(jets, k, c, dx', dy, j + 1, false);
    } else if dy > 0 && Rock(k, dx, dy - 1) !! c.settled {
      FallValid(jets, k, c, dx, dy - 1, j, true);
    } else {
      SettleValid(c, k, dx, dy, j);
    }
  }

  /**
   * A rock that starts clear of the settled cells stays clear of them, so
   * it adds as many cells as its shape has.
   */
  lemma {:induction false} FallAddsShape(
    jets: string, k: nat, c: Chamber, dx: int, dy: int, j: nat, jetTurn: bool)
    requires |jets| > 0 && k < 5 && Rock(k, dx, dy) !! c.settled
    ensures Fall(jets, k, c, dx, dy, j, jetTurn).Some? ==>
              |Fall(jets, k, c, dx, dy, j, jetTurn).value.settled| == |c.settled| + |Shape(k)|
    decreases dy, jetTurn
  {
    if jetTurn {
      match Push(JetAt(jets, j), k, c.settled, dx, dy)
      case None =>
      case Some(dx') =>
        FallAddsShape(jets, k, c, dx', dy, j + 1, false);
    } else if dy > 0 && Rock(k, dx, dy - 1) !! c.settled {
      FallAddsShape(jets, k, c, dx, dy - 1, j, true);
    } else {
      RockSize(k, dx, dy);
      assert c.settled * Rock(k, dx, dy) == {};
    }
  }

  /** The chamber between rocks: settled cells, the highest y among them, jets used so far. */
  datatype Chamber = Chamber(settled: set<Cell>, top: int, jet: nat)

  /** The settled cells include the floor, lie between the walls, and `top` is their highest y. */
  ghost predicate Valid(c: Chamber) {
    && Floor() <= c.settled
    && (forall cell :: cell in c.settled ==> 0 <= cell.0 <= 6 && -1 <= cell.1 <= c.top)
    && (exists cell :: cell in c.settled && cell.1 == c.top)
  }

  /** The floor is a valid chamber with top -1. */
  lemma FloorValid()
    ensures Valid(Chamber(Floor(), -1, 0))
  {
    assert (0, -1) in Floor();
  }

  function Max(a: int, b: int): int {
    if a >= b then a else b
  }

  /**
   * Rock number `i` (type `i % 5`) falls from (2, top + 4) until it rests and
   * joins the settled cells; the new top is the higher of the old top and
   * the rock's top row (TopIsHighest: the highest settled y).
   */
  ghost function DropRock(jets: string, c: Chamber, i: nat): Option<Chamber>
    requires |jets| > 0
  {
    Fall(jets, i % 5, c, 2, c.top + 4, c.jet, true)
  }

  /** A new top `m` that is the highest y of the settled cells and the rock is DropRock's. */
  lemma TopIsHighest(c: Chamber, k: nat, dx: int, dy: int, m: int)
    requires k < 5 && Valid(c)
    requires forall cell :: cell in c.settled + Rock(k, dx, dy) ==> cell.1 <= m
    requires exists cell :: cell in c.settled + Rock(k, dx, dy) && cell.1 == m
    ensures m == Max(c.top, dy + Tall(k) - 1)
  {
    RockBox(k, dx, dy);
    var w :| w in c.settled && w.1 == c.top;
    var v :| v in Rock(k, dx, dy) && v.1 == dy + Tall(k) - 1;
    assert w in c.settled + Rock(k, dx, dy) && v in c.settled + Rock(k, dx, dy);
  }

  /** Dropping a rock into a valid chamber leaves a valid chamber. */
  lemma DropRockValid(jets: string, c: Chamber, i: nat)
    requires |jets| > 0 && Valid(c)
    ensures DropRock(jets, c, i).Some? ==> Valid(DropRock(jets, c, i).value)
  {
    assert (0, -1) in Floor();
    FallValid(jets, i % 5, c, 2, c.top + 4, c.jet, true);
  }

  /** A rock resting between the walls, at or above the floor, keeps the chamber valid. */
  lemma SettleValid(c: Chamber, k: nat, dx: int, dy: int, j: nat)
    requires k < 5 && Valid(c) && Fits(k, dx) && dy >= 0
    ensures Valid(Chamber(c.settled + Rock(k, dx, dy), Max(c.top, dy + Tall(k) - 1), j))
  {
    RockBox(k, dx, dy);
    FitsMeaning(k, dx, dy);
    var w :| w in c.settled && w.1 == c.top;
    var v :| v in Rock(k, dx, dy) && v.1 == dy + Tall(k) - 1;
    assert w in c.settled + Rock(k, dx, dy) && v in c.settled + Rock(k, dx, dy);
  }

  /** The chamber after `n` rocks, or None once an unknown jet is met. */
  ghost function Simulate(jets: string, n: nat): Option<Chamber>
    requires |jets| > 0
  {
    if n == 0 then Some(Chamber(Floor(), -1, 0))
    else
      match Simulate(jets, n - 1)
      case None => None
      case Some(c) => DropRock(jets, c, n - 1)
  }

  /** What `model_falling_rocks` ends with. */
  datatype Outcome =
    | Height(height: int)  // top_point + 1
    | UnknownPattern       // UnknownPatternError: a jet other than '<' and '>'
    | NoJets               // StopIteration: cycling an empty jet pattern

  /** The tower height after `numRocks` rocks, or the error the source raises. */
  ghost function Tower(jets: string, numRocks: int): Outcome {
    if numRocks <= 0 then Height(0)
    else if |jets| == 0 then NoJets
    else
      match Simulate(jets, numRocks)
      case None => UnknownPattern
      case Some(c) => Height(c.top + 1)
  }

  lemma SimulateStep(jets: string, m: nat)
    requires |jets| > 0 && Simulate(jets, m).Some?
    ensures Simulate(jets, m + 1) == DropRock(jets, Simulate(jets, m).value, m)
  {
  }

  lemma SimulateNoneStep(jets: string, m: nat)
    requires |jets| > 0 && Simulate(jets, m).None?
    ensures Simulate(jets, m + 1).None?
  {
  }

  lemma SimulateSomeBefore(jets: string, m: nat)
    requires |jets| > 0 && Simulate(jets, m + 1).Some?
    ensures Simulate(jets, m).Some?
  {
  }

  /** Once a jet is unknown, every longer simulation fails too. */
  lemma {:induction false} SimulateStaysNone(jets: string, m: nat, n: nat)
    requires |jets| > 0 && m <= n && Simulate(jets, m).None?
    ensures Simulate(jets, n).None?
  {
    if m < n {
      var p := n - 1;
      assert p + 1 == n;
      SimulateStaysNone(jets, m, p);
      SimulateNoneStep(jets, p);
    }
  }

  /** An unknown jet met by rock number m < n makes the whole run fail. */
  lemma TowerStops(jets: string, m: nat, n: int)
    requires |jets| > 0 && m < n && Simulate(jets, m).Some?
    requires DropRock(jets, Simulate(jets, m).value, m).None?
    ensures Tower(jets, n) == UnknownPattern
  {
    SimulateStep(jets, m);
    SimulateStaysNone(jets, m + 1, n);
  }

  /** Every chamber the simulation reaches is valid. */
  lemma {:induction false} SimulateValid(jets: string, n: nat)
    requires |jets| > 0
    ensures Simulate(jets, n).Some? ==> Valid(Simulate(jets, n).value)
  {
    if n == 0 {
      FloorValid();
    } else {
      SimulateValid(jets, n - 1);
      SimulateValidStep(jets, n - 1);
    }
  }

  lemma SimulateValidStep(jets: string, m: nat)
    requires |jets| > 0
    requires Simulate(jets, m).Some? ==> Valid(Simulate(jets, m).value)
    ensures Simulate(jets, m + 1).Some? ==> Valid(Simulate(jets, m + 1).value)
  {
    if Simulate(jets, m).Some? {
      var c := Simulate(jets, m).value;
      DropRockValid(jets, c, m);
      SimulateStep(jets, m);
    } else {
      SimulateNoneStep(jets, m);
    }
  }

  /**
   * A rock falls freely down to one row above the top settled cell, so the
   * new top is at most Tall(k) above the old one.
   */
  lemma {:induction false} FallTop(
    jets: string, k: nat, c: Chamber, dx: int, dy: int, j: nat, jetTurn: bool)
    requires |jets| > 0 && k < 5 && c.top >= -1
    requires forall cell :: cell in c.settled ==> cell.1 <= c.top
    ensures Fall(jets, k, c, dx, dy, j, jetTurn).Some? ==>
              c.top <= Fall(jets, k, c, dx, dy, j, jetTurn).value.top <= c.top + Tall(k)
    decreases dy, jetTurn
  {
    if jetTurn {
      match Push(JetAt(jets, j), k, c.settled, dx, dy)
      case None =>
      case Some(dx') =>
        FallTop(jets, k, c, dx', dy, j + 1, false);
    } else {
      if dy - 1 > c.top {
        RockBox(k, dx, dy - 1);
        assert Rock(k, dx, dy - 1) !! c.settled;
      }
      if dy > 0 && Rock(k, dx, dy - 1) !! c.settled {
        FallTop(jets, k, c, dx, dy - 1, j, true);
      }
    }
  }

  /** Each rock raises the tower by at most four and never lowers it. */
  lemma DropRockRaises(jets: string, c: Chamber, i: nat)
    requires |jets| > 0 && Valid(c) && DropRock(jets, c, i).Some?
    ensures c.top <= DropRock(jets, c, i).value.top <= c.top + 4
  {
    assert (0, -1) in Floor();
    FallTop(jets, i % 5, c, 2, c.top + 4, c.jet, true);
  }

  /** The tower never shrinks from one rock to the next, and grows by at most four. */
  lemma TowerGrows(jets: string, n: nat)
    requires |jets| > 0 && Simulate(jets, n + 1).Some?
    ensures Simulate(jets, n).Some?
    ensures Simulate(jets, n).value.top <= Simulate(jets, n + 1).value.top <= Simulate(jets, n).value.top + 4
  {
    SimulateSomeBefore(jets, n);
    SimulateValid(jets, n);
    SimulateStep(jets, n);
    DropRockRaises(jets, Simulate(jets, n).value, n);
  }

  /** After `n` rocks the tower is between 0 and 4n high. */
  lemma {:induction false} SimulateHeight(jets: string, n: nat)
    requires |jets| > 0 && Simulate(jets, n).Some?
    ensures -1 <= Simulate(jets, n).value.top <= 4 * n - 1
  {
    if n > 0 {
      var m := n - 1;
      assert m + 1 == n;
      TowerGrows(jets, m);
      SimulateHeight(jets, m);
      var a, b := Simulate(jets, m).value.top, Simulate(jets, n).value.top;
      assert a <= b <= a + 4;
      assert -1 <= a <= 4 * m - 1;
    }
  }

  /** With only '<' and '>' in the pattern, every rock comes to rest. */
  lemma {:induction false} FallSucceeds(
    jets: string, k: nat, c: Chamber, dx: int, dy: int, j: nat, jetTurn: bool)
    requires |jets| > 0 && k < 5
    requires forall x :: x in jets ==> x == '<' || x == '>'
    ensures Fall(jets, k, c, dx, dy, j, jetTurn).Some?
    decreases dy, jetTurn
  {
    if jetTurn {
      var dx' := Push(JetAt(jets, j), k, c.settled, dx, dy).value;
      FallSucceeds(jets, k, c, dx', dy, j + 1, false);
    } else if dy > 0 && Rock(k, dx, dy - 1) !! c.settled {
      FallSucceeds(jets, k, c, dx, dy - 1, j, true);
    }
  }

  lemma DropRockSucceeds(jets: string, c: Chamber, i: nat)
    requires |jets| > 0 && forall c :: c in jets ==> c == '<' || c == '>'
    ensures DropRock(jets, c, i).Some?
  {
    FallSucceeds(jets, i % 5, c, 2, c.top + 4, c.jet, true);
  }

  lemma {:induction false} SimulateSucceeds(jets: string, n: nat)
    requires |jets| > 0 && forall c :: c in jets ==> c == '<' || c == '>'
    ensures Simulate(jets, n).Some?
  {
    if n > 0 {
      var m := n - 1;
      assert m + 1 == n;
      SimulateSucceeds(jets, m);
      DropRockSucceeds(jets, Simulate(jets, m).value, m);
      SimulateStep(jets, m);
    }
  }

  /** The first rock meets the first jet, so a bad first jet is an UnknownPatternError. */
  lemma {:induction false} FirstJetFails(jets: string, n: nat)
    requires n > 0 && |jets| > 0 && jets[0] != '<' && jets[0] != '>'
    ensures Simulate(jets, n).None?
  {
    assert JetAt(jets, 0) == jets[0];
    assert Simulate(jets, 1).None?;
    SimulateStaysNone(jets, 1, n);
  }

  /**
   * `model_falling_rocks` gives a height from 0 to 4 * num_rocks when the
   * pattern holds only '<' and '>' and is not empty (or no rock falls), and
   * raises UnknownPatternError when the very first jet is something else.
   */
  lemma TowerOutcome(jets: string, numRocks: int)
    ensures (numRocks <= 0 || (|jets| > 0 && forall c :: c in jets ==> c == '<' || c == '>')) ==>
              Tower(jets, numRocks).Height? && 0 <= Tower(jets, numRocks).height <= 4 * Max(numRocks, 0)
    ensures numRocks > 0 && |jets| > 0 && jets[0] != '<' && jets[0] != '>' ==> Tower(jets, numRocks) == UnknownPattern
    ensures numRocks > 0 && |jets| == 0 ==> Tower(jets, numRocks) == NoJets
  {
    if numRocks > 0 && |jets| > 0 {
      if forall c :: c in jets ==> c == '<' || c == '>' {
        SimulateSucceeds(jets, numRocks);
        SimulateHeight(jets, numRocks);
      }
      if jets[0] != '<' && jets[0] != '>' {
        FirstJetFails(jets, numRocks);
      }
    }
  }

  /**
   * Rocks never overlap: a rock that comes to rest adds as many cells as its
   * shape has, so after n rocks the settled cells number 7 (the floor) plus
   * the sizes of the n shapes.
   */
  ghost function ShapeCells(n: nat): nat {
    if n == 0 then 0 else ShapeCells(n - 1) + |Shape((n - 1) % 5)|
  }

  lemma RockSize(k: nat, dx: int, dy: int)
    requires k < 5
    ensures |Rock(k, dx, dy)| == |Shape(k)|
  {
    if k == 0 {
      assert |Rock(0, dx, dy)| == 4 == |Shape(0)|;
    } else if k == 1 {
      assert |Rock(1, dx, dy)| == 5 == |Shape(1)|;
    } else if k == 2 {
      assert |Rock(2, dx, dy)| == 5 == |Shape(2)|;
    } else if k == 3 {
      assert |Rock(3, dx, dy)| == 4 == |Shape(3)|;
    } else {
      assert |Rock(4, dx, dy)| == 4 == |Shape(4)|;
    }
  }

  lemma DropRockDisjoint(jets: string, c: Chamber, i: nat)
    requires |jets| > 0 && Valid(c) && DropRock(jets, c, i).Some?
    ensures |DropRock(jets, c, i).value.settled| == |c.settled| + |Shape(i % 5)|
  {
    var k := i % 5;
    RockBox(k, 2, c.top + 4);
    assert Rock(k, 2, c.top + 4) !! c.settled;
    FallAddsShape(jets, k, c, 2, c.top + 4, c.jet, true);
  }

  lemma {:induction false} SimulateCount(jets: string, n: nat)
    requires |jets| > 0 && Simulate(jets, n).Some?
    ensures |Simulate(jets, n).value.settled| == 7 + ShapeCells(n)
  {
    if n > 0 {
      var m := n - 1;
      assert m + 1 == n;
      SimulateSomeBefore(jets, m);
      SimulateCount(jets, m);
      SimulateValid(jets, m);
      SimulateStep(jets, m);
      DropRockDisjoint(jets, Simulate(jets, m).value, m);
    }
  }

  /** `FallingRock`: a rock's name and the cells it occupies, which the simulation moves. */
  class FallingRock {
    const name: char
    var coordSet: set<Cell>

    constructor(name: char, coordSet: set<Cell>)
      ensures this.name == name && this.coordSet == coordSet
    {
      this.name := name;
      this.coordSet := coordSet;
    }
  }

  /** The x (axis 0) or y (axis 1) of a cell. */
  function Coord(c: Cell, axis: nat): int {
    if axis == 0 then c.0 else c.1
  }

  /** `max([x[axis] for x in cells])`. */
  method MaxCoord(cells: set<Cell>, axis: nat) returns (m: int)
    requires cells != {}
    ensures forall c :: c in cells ==> Coord(c, axis) <= m
    ensures exists c :: c in cells && Coord(c, axis) == m
  {
    var first :| first in cells;
    m := Coord(first, axis);
    var rest := cells - {first};
    while rest != {}
      invariant rest <= cells && first in cells - rest
      invariant forall c :: c in cells - rest ==> Coord(c, axis) <= m
      invariant exists c :: c in cells && Coord(c, axis) == m
      decreases |rest|
    {
      var c :| c in rest;
      if Coord(c, axis) > m {
        m := Coord(c, axis);
      }
      rest := rest - {c};
    }
  }

  /** `min([x[axis] for x in cells])`. */
  method MinCoord(cells: set<Cell>, axis: nat) returns (m: int)
    requires cells != {}
    ensures forall c :: c in cells ==> m <= Coord(c, axis)
    ensures exists c :: c in cells && Coord(c, axis) == m
  {
    var first :| first in cells;
    m := Coord(first, axis);
    var rest := cells - {first};
    while rest != {}
      invariant rest <= cells && first in cells - rest
      invariant forall c :: c in cells - rest ==> m <= Coord(c, axis)
      invariant exists c :: c in cells && Coord(c, axis) == m
      decreases |rest|
    {
      var c :| c in rest;
      if Coord(c, axis) < m {
        m := Coord(c, axis);
      }
      rest := rest - {c};
    }
  }

  /** The largest x `m` of the rock's cells is below 6 exactly when the rock clears the right wall. */
  lemma MaxBelowWall(k: nat, dx: int, dy: int, cells: set<Cell>, m: int)
    requires k < 5 && cells == Rock(k, dx, dy)
    requires forall c :: c in cells ==> Coord(c, 0) <= m
    requires exists c :: c in cells && Coord(c, 0) == m
    ensures m < 6 <==> dx + Width(k) < 7
  {
    WallMeaning(k, dx, dy);
    var w :| w in cells && Coord(w, 0) == m;
  }

  /** The smallest x `m` of the rock's cells is above 0 exactly when the rock clears the left wall. */
  lemma MinAboveWall(k: nat, dx: int, dy: int, cells: set<Cell>, m: int)
    requires k < 5 && cells == Rock(k, dx, dy)
    requires forall c :: c in cells ==> m <= Coord(c, 0)
    requires exists c :: c in cells && Coord(c, 0) == m
    ensures m > 0 <==> dx > 0
  {
    WallMeaning(k, dx, dy);
    var w :| w in cells && Coord(w, 0) == m;
  }

  /**
   * A push as the loop performs it: with `room` the wall test on the rock's
   * extreme x, the rock moves to `moved` exactly when there is room and
   * the moved rock misses the settled cells (`free`).
   */
  lemma JetPush(jet: char, k: nat, settled: set<Cell>, dx: int, dy: int, room: bool, moved: int, free: bool)
    requires k < 5 && (jet == '<' || jet == '>')
    requires jet == '>' ==> (room <==> dx + Width(k) < 7) && (room ==> moved == dx + 1)
    requires jet == '<' ==> (room <==> dx > 0) && (room ==> moved == dx - 1)
    requires room ==> (free <==> Rock(k, moved, dy) !! settled)
    ensures Push(jet, k, settled, dx, dy) == Some(if room && free then moved else dx)
  {
  }

  /** One jet turn of Fall: a known jet moves the rock as Push says, then a drop follows. */
  lemma FallJet(jets: string, k: nat, c: Chamber, dx: int, dy: int, j: nat, ndx: int)
    requires |jets| > 0 && k < 5 && Push(JetAt(jets, j), k, c.settled, dx, dy) == Some(ndx)
    ensures Fall(jets, k, c, dx, dy, j, true) == Fall(jets, k, c, ndx, dy, j + 1, false)
  {
  }

  /** One drop turn of Fall: a rock whose next row down is free drops by one and a jet follows. */
  lemma FallDrop(jets: string, k: nat, c: Chamber, dx: int, dy: int, j: nat)
    requires |jets| > 0 && k < 5 && dy > 0 && Rock(k, dx, dy - 1) !! c.settled
    ensures Fall(jets, k, c, dx, dy, j, false) == Fall(jets, k, c, dx, dy - 1, j, true)
  {
  }

  /**
   * The comprehensions that move the rock's cells by (a, b): applied to
   * rock type `k` at (dx, dy) they give the rock at (dx + a, dy + b).
   */
  method Shift(cells: set<Cell>, a: int, b: int, ghost k: nat, ghost dx: int, ghost dy: int) returns (moved: set<Cell>)
    requires k < 5 && cells == Rock(k, dx, dy)
    ensures moved == Rock(k, dx + a, dy + b)
  {
    moved := Translate(cells, a, b);
    RockMoved(k, dx, dy, a, b);
  }

  /**
   * The wall tests of the loop: for '>' whether the largest x of the rock's
   * cells is below 6, for '<' whether the smallest is above 0; that is,
   * whether the rock at (dx, dy) clears the wall it is pushed towards.
   */
  method RoomToMove(jet: char, k: nat, cells: set<Cell>, ghost dx: int, ghost dy: int) returns (room: bool)
    requires k < 5 && (jet == '<' || jet == '>') && cells == Rock(k, dx, dy)
    ensures room <==> if jet == '>' then dx + Width(k) < 7 else dx > 0
  {
    if jet == '>' {
      var m := MaxCoord(cells, 0);
      MaxBelowWall(k, dx, dy, cells, m);
      room := m < 6;
    } else {
      var m := MinCoord(cells, 0);
      MinAboveWall(k, dx, dy, cells, m);
      room := m > 0;
    }
  }

  /** The rock comes to rest where the drop is blocked. */
  lemma FallRests(jets: string, k: nat, c: Chamber, dx: int, dy: int, j: nat)
    requires |jets| > 0 && k < 5 && !(dy > 0 && Rock(k, dx, dy - 1) !! c.settled)
    ensures Fall(jets, k, c, dx, dy, j, false) == Some(Chamber(c.settled + Rock(k, dx, dy), Max(c.top, dy + Tall(k) - 1), j))
  {
  }

  /** An unknown jet ends the fall with None. */
  lemma FallStops(jets: string, k: nat, c: Chamber, dx: int, dy: int, j: nat)
    requires |jets| > 0 && k < 5 && JetAt(jets, j) != '<' && JetAt(jets, j) != '>'
    ensures Fall(jets, k, c, dx, dy, j, true).None?
  {
  }

  /**
   * The jet half of one pass of the `while falling` loop for a known jet.
   * The rock is at (dx, dy) between the walls; `test` is the set left from
   * the previous step, possibly by the previous rock, or None while still
   * unbound. It is consulted only when the push has no room, which never
   * happens at the spawn column (dx == 2). The rock ends at (ndx, dy)
   * with ndx the offset Push gives, and the new test set is the rock itself
   * or hits a settled cell.
   */
  method JetMove(jet: char, k: nat, rock: FallingRock, settled: set<Cell>, ghost dx: int, ghost dy: int, test: Option<set<Cell>>)
    returns (ghost ndx: int, test': Option<set<Cell>>)
    requires k < 5 && (jet == '<' || jet == '>') && Fits(k, dx)
    requires rock.coordSet == Rock(k, dx, dy)
    requires dx == 2 || (test.Some? && (test.value == rock.coordSet || !(test.value !! settled)))
    modifies rock
    ensures Push(jet, k, settled, dx, dy) == Some(ndx)
    ensures rock.coordSet == Rock(k, ndx, dy)
    ensures test'.Some? && (test'.value == rock.coordSet || !(test'.value !! settled))
  {
    var cells := rock.coordSet;
    var room := RoomToMove(jet, k, cells, dx, dy);
    ghost var moved := dx;
    test' := test;
    if jet == '>' {
      if room {
        var pushed := Shift(cells, 1, 0, k, dx, dy);
        test' := Some(pushed);
        moved := dx + 1;
      }
    } else {
      if room {
        var pushed := Shift(cells, -1, 0, k, dx, dy);
        test' := Some(pushed);
        moved := dx - 1;
      }
    }
    var t := test'.value;
    assert !room ==> moved == dx && (t == cells || !(t !! settled));
    var free := t !! settled;
    ndx := if free then moved else dx;
    JetPush(jet, k, settled, dx, dy, room, moved, free);
    if free {
      rock.coordSet := t;
    }
  }

  /**
   * The fall half of one pass of the loop: the rock at (dx, dy), between the
   * walls and at or above the floor, drops one row when that row misses the
   * settled cells (`dropped`); the new test set is the rock itself or hits
   * a settled cell.
   */
  method FallMove(k: nat, rock: FallingRock, settled: set<Cell>, ghost dx: int, ghost dy: int)
    returns (dropped: bool, test: set<Cell>)
    requires k < 5 && Fits(k, dx) && Floor() <= settled && dy >= 0
    requires rock.coordSet == Rock(k, dx, dy)
    modifies rock
    ensures dropped <==> dy > 0 && Rock(k, dx, dy - 1) !! settled
    ensures dropped ==> rock.coordSet == Rock(k, dx, dy - 1) && test == rock.coordSet
    ensures !dropped ==> rock.coordSet == Rock(k, dx, dy) && !(test !! settled)
  {
    test := Shift(rock.coordSet, 0, -1, k, dx, dy);
    FloorHolds(k, settled, dx, dy);
    dropped := test !! settled;
    if dropped {
      rock.coordSet := test;
    }
  }

  /**
   * The start of each pass of the rock loop: the next rock from the cycling
   * generator, which for rock number `i` is type `i % 5`, moved so that its
   * lower-left corner is two columns from the left wall and three rows above
   * the highest settled cell.
   */
  method SpawnRock(i: nat, topPoint: int) returns (rock: FallingRock)
    ensures fresh(rock)
    ensures rock.name == RockName(i % 5) && rock.coordSet == Rock(i % 5, 2, topPoint + 4)
  {
    var k := i % 5;
    rock := new FallingRock(RockName(k), Shape(k));
    var xOffset, yOffset := 2, topPoint + 4;
    ShapeIsRock(k);
    rock.coordSet := Shift(rock.coordSet, xOffset, yOffset, k, 0, 0);
  }

  /**
   * The `while falling` loop for rock number `i`, starting at (2, top + 4) in
   * the chamber (topLayer, topPoint) with `jetIndex` jets already taken. It
   * ends with the error the source raises, or with the chamber DropRock gives.
   */
  method DropOne(rawInput: string, i: nat,
                 topLayer0: set<Cell>, topPoint0: int, jetIndex0: nat, test0: Option<set<Cell>>)
    returns (err: Option<Outcome>, topLayer: set<Cell>, topPoint: int, jetIndex: nat, testCoordSet: Option<set<Cell>>)
    requires |rawInput| > 0 && Valid(Chamber(topLayer0, topPoint0, jetIndex0))
    ensures err.Some? <==> DropRock(rawInput, Chamber(topLayer0, topPoint0, jetIndex0), i).None?
    ensures err.Some? ==> err == Some(UnknownPattern)
    ensures err.None? ==>
              DropRock(rawInput, Chamber(topLayer0, topPoint0, jetIndex0), i) == Some(Chamber(topLayer, topPoint, jetIndex))
  {
    var k := i % 5;
    var rock := SpawnRock(i, topPoint0);
    topLayer, topPoint, jetIndex, testCoordSet := topLayer0, topPoint0, jetIndex0, test0;
    ghost var start := Chamber(topLayer0, topPoint0, jetIndex0);
    ghost var dx, dy := 2, topPoint0 + 4;
    var falling, jetTurn := true, true;  // next_step_gen cycles "jet", "fall"
    while falling
      invariant rock.coordSet == Rock(k, dx, dy)
      invariant falling ==> topLayer == topLayer0 && topPoint == topPoint0 && Fits(k, dx) && dy >= 0
      invariant falling ==>
                  Fall(rawInput, k, start, dx, dy, jetIndex, jetTurn) == DropRock(rawInput, start, i)
      invariant !falling ==> DropRock(rawInput, start, i) == Some(Chamber(topLayer, topPoint, jetIndex))
      invariant falling && jetTurn ==>
                  dx == 2 || (testCoordSet.Some? && (testCoordSet.value == rock.coordSet || !(testCoordSet.value !! topLayer)))
      decreases falling, dy, jetTurn
    {
      if jetTurn {
        var jet := JetAt(rawInput, jetIndex);
        if jet != '>' && jet != '<' {
          FallStops(rawInput, k, start, dx, dy, jetIndex);
          return Some(UnknownPattern), topLayer, topPoint, jetIndex + 1, testCoordSet;
        }
        ghost var ndx;
        ndx, testCoordSet := JetMove(jet, k, rock, topLayer, dx, dy, testCoordSet);
        FallJet(rawInput, k, start, dx, dy, jetIndex, ndx);
        dx := ndx;
        jetIndex := jetIndex + 1;
      } else {
        var dropped, test := FallMove(k, rock, topLayer, dx, dy);
        testCoordSet := Some(test);
        if dropped {
          FallDrop(rawInput, k, start, dx, dy, jetIndex);
          dy := dy - 1;
        } else {
          FallRests(rawInput, k, start, dx, dy, jetIndex);
          falling := false;
          topLayer := topLayer + rock.coordSet;
          topPoint := MaxCoord(topLayer, 1);
          TopIsHighest(start, k, dx, dy, topPoint);
        }
      }
      jetTurn := !jetTurn;
    }
    err := None;
  }

  /**
   * One pass of the rock loop of `model_falling_rocks`, for rock number `i`
   * in the chamber after `i` rocks: the chamber after `i + 1` rocks, or the
   * error the source raises.
   */
  method NextRock(rawInput: string, i: nat,
                  topLayer0: set<Cell>, topPoint0: int, jetIndex0: nat, test0: Option<set<Cell>>)
    returns (err: Option<Outcome>, topLayer: set<Cell>, topPoint: int, jetIndex: nat, testCoordSet: Option<set<Cell>>)
    requires |rawInput| > 0 ==> Simulate(rawInput, i) == Some(Chamber(topLayer0, topPoint0, jetIndex0))
    ensures |rawInput| == 0 ==> err == Some(NoJets)
    ensures |rawInput| > 0 && err.Some? ==> err == Some(UnknownPattern) && Simulate(rawInput, i + 1).None?
    ensures |rawInput| > 0 && err.None? ==> Simulate(rawInput, i + 1) == Some(Chamber(topLayer, topPoint, jetIndex))
  {
    if |rawInput| == 0 {
      // the first `next(jet_pattern_gen)` of an empty cycle raises StopIteration
      return Some(NoJets), topLayer0, topPoint0, jetIndex0, test0;
    }
    SimulateValid(rawInput, i);
    SimulateStep(rawInput, i);
    err, topLayer, topPoint, jetIndex, testCoordSet := DropOne(rawInput, i, topLayer0, topPoint0, jetIndex0, test0);
  }

  /**
   * `model_falling_rocks`: drops `numRocks` rocks, pushed by the jets of
   * `rawInput` in a cycle, and gives the tower's height; it fails with
   * UnknownPatternError on a jet other than '<' and '>' and with
   * StopIteration when there are no jets. What it computes is Tower.
   */
  method ModelFallingRocks(rawInput: string, numRocks: int) returns (r: Outcome)
    ensures r == Tower(rawInput, numRocks)
  {
    var jetIndex: nat := 0;  // jets taken so far from the cycling generator
    var topPoint := -1;
    var topLayer := Floor();
    var testCoordSet: Option<set<Cell>> := None;  // unbound until first assigned
    var i := 0;
    while i < numRocks
      invariant 0 <= i && (numRocks < 0 ==> i == 0) && (numRocks >= 0 ==> i <= numRocks)
      invariant i == 0 ==> topPoint == -1
      invariant i > 0 ==> |rawInput| > 0
      invariant |rawInput| > 0 ==> Simulate(rawInput, i) == Some(Chamber(topLayer, topPoint, jetIndex))
    {
      var err;
      err, topLayer, topPoint, jetIndex, testCoordSet :=
        NextRock(rawInput, i, topLayer, topPoint, jetIndex, testCoordSet);
      if err.Some? {
        if |rawInput| > 0 {
          SimulateStaysNone(rawInput, i + 1, numRocks);
        }
        return err.value;
      }
      i := i + 1;
    }
    return Height(topPoint + 1);
  }
}
