/**
 * The interval bookkeeping of Day15.py: closed integer ranges (low, high) of
 * x positions on one row, the overlap test `is_overlapping_range`, and
 * `range_collapse`, which merges a new range into a set of ranges so that no
 * two members overlap.
 */
module Day15Ranges {

  /** A closed range of positions, the source's `(low, high)` tuple. */
  datatype Range = Range(lo: int, hi: int)

  predicate WellFormed(r: Range) {
    r.lo <= r.hi
  }

  predicate Covers(r: Range, p: int) {
    r.lo <= p <= r.hi
  }

  /** Some member of `s` covers position `p`. */
  predicate Covered(s: set<Range>, p: int) {
    exists r :: r in s && Covers(r, p)
  }

  predicate AllWellFormed(s: set<Range>) {
    forall r :: r in s ==> WellFormed(r)
  }

  /** `is_overlapping_range`, branch for branch: for well-formed ranges, each reaches the other. */
  function IsOverlapping(a: Range, b: Range): (r: bool)
    ensures WellFormed(a) && WellFormed(b) ==> (r <==> a.lo <= b.hi && b.lo <= a.hi)
  {
    if b.lo <= a.lo && a.lo <= b.hi then true
    else if b.lo <= a.hi && a.hi <= b.hi then true
    else if b.lo <= a.lo && a.hi <= b.hi then true
    else if b.hi <= a.hi && a.lo <= b.lo then true
    else false
  }

  /** No two distinct members overlap: the state `range_collapse` keeps. */
  predicate PairwiseDisjoint(s: set<Range>) {
    forall a, b :: a in s && b in s && a != b ==> !IsOverlapping(a, b)
  }

  /** For well-formed ranges the overlap test is symmetric. */
  lemma OverlapSymmetric(a: Range, b: Range)
    requires WellFormed(a) && WellFormed(b)
    ensures IsOverlapping(a, b) == IsOverlapping(b, a)
  {
  }

  /** Two well-formed ranges overlap exactly when some position lies in both. */
  lemma OverlapSharesPosition(a: Range, b: Range)
    requires WellFormed(a) && WellFormed(b)
    ensures IsOverlapping(a, b) <==> exists p :: Covers(a, p) && Covers(b, p)
  {
    if IsOverlapping(a, b) {
      var p := if a.lo <= b.lo then b.lo else a.lo;
      assert Covers(a, p) && Covers(b, p);
    }
  }

  /** The docstring examples of `is_overlapping_range`: a shared endpoint overlaps, adjacency does not. */
  lemma OverlapExamples()
    ensures IsOverlapping(Range(12, 12), Range(12, 14))
    ensures IsOverlapping(Range(12, 12), Range(10, 12))
    ensures IsOverlapping(Range(12, 16), Range(10, 14))
    ensures IsOverlapping(Range(12, 16), Range(14, 18))
    ensures IsOverlapping(Range(12, 16), Range(12, 14))
    ensures IsOverlapping(Range(12, 16), Range(16, 18))
    ensures IsOverlapping(Range(12, 16), Range(10, 12))
    ensures IsOverlapping(Range(4, 16), Range(10, 12))
    ensures IsOverlapping(Range(12, 16), Range(13, 14))
    ensures IsOverlapping(Range(11, 11), Range(10, 12))
    ensures IsOverlapping(Range(12, 16), Range(14, 14))
    ensures IsOverlapping(Range(12, 16), Range(14, 16))
    ensures IsOverlapping(Range(12, 16), Range(12, 18))
    ensures !IsOverlapping(Range(10, 13), Range(14, 18))
  {
  }

  /** One element of `extend_ranges`: `r` widened to take in `other`. */
  function Extend(r: Range, other: Range): (e: Range)
    ensures forall p :: Covers(r, p) || Covers(other, p) ==> Covers(e, p)
    ensures e.lo == r.lo || e.lo == other.lo
    ensures e.hi == r.hi || e.hi == other.hi
  {
    Range(if r.lo <= other.lo then r.lo else other.lo, if r.hi >= other.hi then r.hi else other.hi)
  }

  /** What `extend_ranges(other, s)` returns: every member of `s` widened by `other`. */
  function ExtendAll(other: Range, s: set<Range>): set<Range> {
    set r | r in s :: Extend(r, other)
  }

  lemma ExtendAllAdd(other: Range, s: set<Range>, r: Range)
    ensures ExtendAll(other, s + {r}) == ExtendAll(other, s) + {Extend(r, other)}
  {
  }

  /** `extend_ranges`: fills a fresh set member by member. */
  method ExtendRanges(newRange: Range, overlapping: set<Range>) returns (processed: set<Range>)
    ensures processed == ExtendAll(newRange, overlapping)
    ensures |processed| <= |overlapping|
  {
    processed := {};
    var rest := overlapping;
    while rest != {}
      invariant rest <= overlapping
      invariant processed == ExtendAll(newRange, overlapping - rest)
      invariant |processed| <= |overlapping - rest|
      decreases rest
    {
      var r :| r in rest;
      assert overlapping - (rest - {r}) == (overlapping - rest) + {r};
      ExtendAllAdd(newRange, overlapping - rest, r);
      processed := processed + {Extend(r, newRange)};
      rest := rest - {r};
    }
  }

  lemma SubsetSize<T>(a: set<T>, b: set<T>)
    requires a <= b
    ensures |a| <= |b|
  {
    assert b == a + (b - a);
  }

  /** The members of `s` that overlap `n`: `overlapping_ranges` in `range_collapse`. */
  function OverlappingWith(n: Range, s: set<Range>): (o: set<Range>)
    ensures o <= s
  {
    set r | r in s && IsOverlapping(n, r)
  }

  /** Some other member of `s` overlaps `r`. */
  predicate OverlapsAnother(s: set<Range>, r: Range) {
    exists r1 :: r1 in s && r1 != r && IsOverlapping(r1, r)
  }

  /** `overlapping_processed_ranges`: the members some other member overlaps. */
  function OverlappingAmong(s: set<Range>): (o: set<Range>)
    ensures o <= s
  {
    set r | r in s && OverlapsAnother(s, r)
  }

  ghost function MinLo(s: set<Range>): (m: int)
    requires s != {}
    ensures forall r :: r in s ==> m <= r.lo
    ensures exists r :: r in s && r.lo == m
    decreases s
  {
    var r :| r in s;
    if s == {r} then r.lo
    else
      var m := MinLo(s - {r});
      if r.lo <= m then r.lo else m
  }

  ghost function MaxHi(s: set<Range>): (m: int)
    requires s != {}
    ensures forall r :: r in s ==> r.hi <= m
    ensures exists r :: r in s && r.hi == m
    decreases s
  {
    var r :| r in s;
    if s == {r} then r.hi
    else
      var m := MaxHi(s - {r});
      if r.hi >= m then r.hi else m
  }

  /** The smallest range holding every member of `s`. */
  ghost function Hull(s: set<Range>): Range
    requires s != {}
  {
    Range(MinLo(s), MaxHi(s))
  }

  /**
   * What `range_collapse(n, s)` returns: `s` plus `n` when nothing overlaps
   * `n`; otherwise the overlapping members and `n` are replaced by the one
   * range spanning them all, and the other members are kept.
   */
  ghost function Collapsed(n: Range, s: set<Range>): set<Range> {
    var o := OverlappingWith(n, s);
    if o == {} then s + {n} else (s - o) + {Hull(o + {n})}
  }

  /** Every member of `s` holds all of `n`. */
  ghost predicate AllContain(s: set<Range>, n: Range) {
    forall r :: r in s ==> r.lo <= n.lo && n.hi <= r.hi
  }

  /** Every member of `s` lies within `h`, and some members reach each end of `h`. */
  ghost predicate SpansExactly(s: set<Range>, h: Range) {
    && (forall r :: r in s ==> h.lo <= r.lo && r.hi <= h.hi)
    && (exists r :: r in s && r.lo == h.lo)
    && (exists r :: r in s && r.hi == h.hi)
  }

  /** Once two members hold a well-formed `n`, every member overlaps another. */
  lemma AmongIsAll(s: set<Range>, n: Range, c: Range)
    requires WellFormed(n) && AllContain(s, n)
    requires c in OverlappingAmong(s)
    ensures OverlappingAmong(s) == s
    ensures s - {c} != {}
  {
    var other :| other in s && other != c && IsOverlapping(other, c);
    assert other in s - {c};
    forall r | r in s ensures r in OverlappingAmong(s) {
      var q := if r != c then c else other;
      HoldersOverlap(q, r, n);
      assert q in s && q != r;
    }
  }

  /** Two ranges that both hold a well-formed `n` overlap. */
  lemma HoldersOverlap(a: Range, b: Range, n: Range)
    requires WellFormed(n) && a.lo <= n.lo && n.hi <= a.hi && b.lo <= n.lo && n.hi <= b.hi
    ensures IsOverlapping(a, b)
  {
  }

  /** Members that all hold a well-formed `n`: one alone, or each overlaps another. */
  lemma SingleOrOverlapping(s: set<Range>, n: Range, x: Range)
    requires WellFormed(n) && AllContain(s, n) && x in s
    ensures s == {x} || x in OverlappingAmong(s)
  {
    if s != {x} {
      assert s - {x} != {};
      var r :| r in s - {x};
      assert IsOverlapping(r, x);
    }
  }

  /** One round of the `while` loop keeps every member around `n` and the overall span. */
  lemma ExtendRoundKeepsSpan(processed: set<Range>, curr: Range, n: Range, h: Range)
    requires WellFormed(n) && AllContain(processed, n) && SpansExactly(processed, h)
    requires curr in processed && processed - {curr} != {}
    ensures AllContain(ExtendAll(curr, processed - {curr}), n)
    ensures SpansExactly(ExtendAll(curr, processed - {curr}), h)
  {
    var rest := processed - {curr};
    var next := ExtendAll(curr, rest);
    var other :| other in rest;
    var wLo :| wLo in processed && wLo.lo == h.lo;
    var wHi :| wHi in processed && wHi.hi == h.hi;
    var lo := if wLo == curr then other else wLo;
    var hi := if wHi == curr then other else wHi;
    assert Extend(lo, curr) in next && Extend(lo, curr).lo == h.lo;
    assert Extend(hi, curr) in next && Extend(hi, curr).hi == h.hi;
  }

  /** Before the loop: the members widened by `n` span the hull of the overlapping members and `n`. */
  lemma ExtendFirstSpan(o: set<Range>, n: Range)
    requires WellFormed(n) && o != {}
    ensures AllContain(ExtendAll(n, o), n)
    ensures SpansExactly(ExtendAll(n, o), Hull(o + {n}))
  {
    var h := Hull(o + {n});
    var ext := ExtendAll(n, o);
    var other :| other in o;
    var wLo :| wLo in o + {n} && wLo.lo == h.lo;
    var wHi :| wHi in o + {n} && wHi.hi == h.hi;
    var lo := if wLo == n then other else wLo;
    var hi := if wHi == n then other else wHi;
    assert Extend(lo, n) in ext && Extend(lo, n).lo == h.lo;
    assert Extend(hi, n) in ext && Extend(hi, n).hi == h.hi;
  }

  /** One round of the `while` loop, stated over the members the round itself computes. */
  lemma CollapseRound(processed: set<Range>, curr: Range, n: Range, h: Range)
    requires WellFormed(n) && AllContain(processed, n) && SpansExactly(processed, h)
    requires curr in OverlappingAmong(processed)
    ensures AllContain(ExtendAll(curr, OverlappingAmong(processed) - {curr}), n)
    ensures SpansExactly(ExtendAll(curr, OverlappingAmong(processed) - {curr}), h)
  {
    AmongIsAll(processed, n, curr);
    ExtendRoundKeepsSpan(processed, curr, n, h);
  }

  /** After the loop: members that all hold `n`, none overlapping another, are the hull alone. */
  lemma LoopExitSingle(processed: set<Range>, n: Range, h: Range)
    requires WellFormed(n) && AllContain(processed, n) && SpansExactly(processed, h)
    requires OverlappingAmong(processed) == {}
    ensures processed == {h}
  {
    var x :| x in processed && x.lo == h.lo;
    SingleOrOverlapping(processed, n, x);
    var y :| y in processed && y.hi == h.hi;
    assert y == x;
  }

  /**
   * The `while` loop of `range_collapse`: while some member overlaps
   * another, an arbitrary one of those (the source takes the first in set
   * iteration order) absorbs the others. When every member holds a
   * well-formed `n`, one range remains, spanning exactly what the members
   * spanned, whichever member each round picks.
   */
  method MergeOverlapping(start: set<Range>, ghost n: Range, ghost h: Range) returns (processed: set<Range>)
    requires WellFormed(n) ==> AllContain(start, n) && SpansExactly(start, h)
    ensures OverlappingAmong(processed) == {}
    ensures WellFormed(n) ==> processed == {h}
  {
    processed := start;
    var overlappingProcessed := OverlappingAmong(processed);
    while overlappingProcessed != {}
      invariant overlappingProcessed == OverlappingAmong(processed)
      invariant WellFormed(n) ==> AllContain(processed, n) && SpansExactly(processed, h)
      decreases |processed|
    {
      var curr :| curr in overlappingProcessed;
      if WellFormed(n) {
        CollapseRound(processed, curr, n, h);
      }
      SubsetSize(overlappingProcessed, processed);
      processed := ExtendRanges(curr, overlappingProcessed - {curr});
      overlappingProcessed := OverlappingAmong(processed);
    }
    if WellFormed(n) {
      LoopExitSingle(processed, n, h);
    }
  }

  /**
   * `range_collapse`: with no overlapping member the new range is added;
   * otherwise the overlapping members are widened by it and merged, and the
   * members it does not overlap are kept. For a well-formed new range the
   * result is `Collapsed`.
   */
  method RangeCollapse(newRange: Range, excludedRanges: set<Range>) returns (result: set<Range>)
    ensures forall r :: r in excludedRanges && !IsOverlapping(newRange, r) ==> r in result
    ensures OverlappingWith(newRange, excludedRanges) == {} ==> result == excludedRanges + {newRange}
    ensures WellFormed(newRange) ==> result == Collapsed(newRange, excludedRanges)
  {
    var overlapping := OverlappingWith(newRange, excludedRanges);
    var nonOverlapping := excludedRanges - overlapping;
    if overlapping != {} {
      var processed := ExtendRanges(newRange, overlapping);
      ghost var h := Hull(overlapping + {newRange});
      if WellFormed(newRange) {
        ExtendFirstSpan(overlapping, newRange);
      }
      processed := MergeOverlapping(processed, newRange, h);
      result := processed + nonOverlapping;
    } else {
      result := excludedRanges + {newRange};
    }
  }

  /** The hull of a well-formed `n` and ranges overlapping it covers exactly what they cover. */
  lemma HullCoverage(n: Range, o: set<Range>, p: int)
    requires WellFormed(n) && AllWellFormed(o)
    requires forall r :: r in o ==> IsOverlapping(n, r)
    ensures WellFormed(Hull(o + {n}))
    ensures Covers(Hull(o + {n}), p) <==> Covers(n, p) || Covered(o, p)
  {
    var h := Hull(o + {n});
    assert n in o + {n};
    if Covers(h, p) && !Covers(n, p) {
      if p < n.lo {
        var w :| w in o + {n} && w.lo == h.lo;
        assert w in o && Covers(w, p);
      } else {
        var w :| w in o + {n} && w.hi == h.hi;
        assert w in o && Covers(w, p);
      }
    }
    if Covered(o, p) {
      var r :| r in o && Covers(r, p);
      assert r in o + {n};
    }
  }

  /** Merging a well-formed range keeps every member well-formed. */
  lemma CollapsedWellFormed(n: Range, s: set<Range>)
    requires WellFormed(n) && AllWellFormed(s)
    ensures AllWellFormed(Collapsed(n, s))
  {
    var o := OverlappingWith(n, s);
    if o != {} {
      HullCoverage(n, o, n.lo);
    }
  }

  /** A position is covered after the merge exactly when it was covered before or lies in the new range. */
  lemma CollapsedCoverage(n: Range, s: set<Range>, p: int)
    requires WellFormed(n) && AllWellFormed(s)
    ensures Covered(Collapsed(n, s), p) <==> Covered(s, p) || Covers(n, p)
  {
    var o := OverlappingWith(n, s);
    var c := Collapsed(n, s);
    if o == {} {
      if Covers(n, p) {
        assert n in c;
      }
      if Covered(s, p) {
        var r :| r in s && Covers(r, p);
        assert r in c;
      }
    } else {
      var h := Hull(o + {n});
      HullCoverage(n, o, p);
      assert h in c;
      if Covered(s, p) {
        var r :| r in s && Covers(r, p);
        if r in o {
          assert Covered(o, p);
        } else {
          assert r in c;
        }
      }
      if Covered(c, p) {
        var r :| r in c && Covers(r, p);
        if r != h {
          assert r in s;
        }
      }
    }
  }

  /** The merged range meets none of the members it did not absorb. */
  lemma HullApart(n: Range, s: set<Range>, b: Range)
    requires WellFormed(n) && AllWellFormed(s) && PairwiseDisjoint(s)
    requires OverlappingWith(n, s) != {}
    requires b in s && b !in OverlappingWith(n, s)
    ensures !IsOverlapping(Hull(OverlappingWith(n, s) + {n}), b)
    ensures !IsOverlapping(b, Hull(OverlappingWith(n, s) + {n}))
  {
    var o := OverlappingWith(n, s);
    var h := Hull(o + {n});
    forall p ensures !(Covers(h, p) && Covers(b, p)) {
      HullCoverage(n, o, p);
      if Covers(n, p) {
        OverlapSharesPosition(n, b);
      } else if Covered(o, p) {
        var w :| w in o && Covers(w, p);
        OverlapSharesPosition(w, b);
      }
    }
    OverlapSharesPosition(h, b);
    OverlapSharesPosition(b, h);
  }

  /** Merging a well-formed range into pairwise disjoint ranges leaves them pairwise disjoint. */
  lemma CollapsedDisjoint(n: Range, s: set<Range>)
    requires WellFormed(n) && AllWellFormed(s) && PairwiseDisjoint(s)
    ensures PairwiseDisjoint(Collapsed(n, s))
  {
    var o := OverlappingWith(n, s);
    if o == {} {
      forall b | b in s ensures !IsOverlapping(n, b) && !IsOverlapping(b, n) {
        assert b !in o;
        OverlapSymmetric(n, b);
      }
    } else {
      forall b | b in s - o
        ensures !IsOverlapping(Hull(o + {n}), b) && !IsOverlapping(b, Hull(o + {n}))
      {
        HullApart(n, s, b);
      }
    }
  }

  /** A new range inside a member of pairwise disjoint ranges changes nothing. */
  lemma CollapsedAbsorbed(n: Range, s: set<Range>, m: Range)
    requires WellFormed(n) && AllWellFormed(s) && PairwiseDisjoint(s)
    requires m in s && m.lo <= n.lo && n.hi <= m.hi
    ensures Collapsed(n, s) == s
  {
    var o := OverlappingWith(n, s);
    forall r | r in s && r != m ensures r !in o {
      OverlapSharesPosition(m, r);
      OverlapSharesPosition(n, r);
    }
    assert m in o;
    assert o == {m};
    var h := Hull({m} + {n});
    assert h == m;
  }

  /** `range_collapse` is idempotent on pairwise disjoint ranges. */
  lemma CollapsedIdempotent(n: Range, s: set<Range>)
    requires WellFormed(n) && AllWellFormed(s) && PairwiseDisjoint(s)
    ensures Collapsed(n, Collapsed(n, s)) == Collapsed(n, s)
  {
    var o := OverlappingWith(n, s);
    var c := Collapsed(n, s);
    CollapsedWellFormed(n, s);
    CollapsedDisjoint(n, s);
    if o == {} {
      CollapsedAbsorbed(n, c, n);
    } else {
      var h := Hull(o + {n});
      assert n in o + {n};
      CollapsedAbsorbed(n, c, h);
    }
  }

  /** The docstring example of `extend_ranges`. */
  lemma ExtendAllExample()
    ensures ExtendAll(Range(5, 10), {Range(1, 5), Range(10, 20), Range(2, 7), Range(8, 15)})
         == {Range(1, 10), Range(5, 20), Range(2, 10), Range(5, 15)}
  {
    var s := {Range(1, 5), Range(10, 20), Range(2, 7), Range(8, 15)};
    assert Extend(Range(1, 5), Range(5, 10)) == Range(1, 10);
    assert Extend(Range(10, 20), Range(5, 10)) == Range(5, 20);
    assert Extend(Range(2, 7), Range(5, 10)) == Range(2, 10);
    assert Extend(Range(8, 15), Range(5, 10)) == Range(5, 15);
  }

  /** A range that bounds every member and whose ends some members reach is the hull. */
  lemma HullIs(s: set<Range>, h: Range, a: Range, b: Range)
    requires a in s && a.lo == h.lo && b in s && b.hi == h.hi
    requires forall r :: r in s ==> h.lo <= r.lo && r.hi <= h.hi
    ensures Hull(s) == h
  {
  }

  /** The docstring examples of `range_collapse`, one per lemma. */
  lemma CollapsedApartExample()
    ensures Collapsed(Range(5, 10), {Range(1, 2), Range(15, 20)}) == {Range(1, 2), Range(15, 20), Range(5, 10)}
  {
    assert OverlappingWith(Range(5, 10), {Range(1, 2), Range(15, 20)}) == {};
  }

  lemma CollapsedLowExample()
    ensures Collapsed(Range(5, 10), {Range(1, 5), Range(15, 20)}) == {Range(1, 10), Range(15, 20)}
  {
    assert OverlappingWith(Range(5, 10), {Range(1, 5), Range(15, 20)}) == {Range(1, 5)};
    HullIs({Range(1, 5)} + {Range(5, 10)}, Range(1, 10), Range(1, 5), Range(5, 10));
  }

  lemma CollapsedHighExample()
    ensures Collapsed(Range(20, 30), {Range(1, 2), Range(15, 20)}) == {Range(1, 2), Range(15, 30)}
  {
    assert OverlappingWith(Range(20, 30), {Range(1, 2), Range(15, 20)}) == {Range(15, 20)};
    HullIs({Range(15, 20)} + {Range(20, 30)}, Range(15, 30), Range(15, 20), Range(20, 30));
  }

  lemma CollapsedInsideExample()
    ensures Collapsed(Range(17, 30), {Range(1, 2), Range(15, 20)}) == {Range(1, 2), Range(15, 30)}
  {
    assert OverlappingWith(Range(17, 30), {Range(1, 2), Range(15, 20)}) == {Range(15, 20)};
    HullIs({Range(15, 20)} + {Range(17, 30)}, Range(15, 30), Range(15, 20), Range(17, 30));
  }

  lemma CollapsedWidenExample()
    ensures Collapsed(Range(3, 17), {Range(1, 2), Range(15, 20)}) == {Range(1, 2), Range(3, 20)}
  {
    assert OverlappingWith(Range(3, 17), {Range(1, 2), Range(15, 20)}) == {Range(15, 20)};
    HullIs({Range(15, 20)} + {Range(3, 17)}, Range(3, 20), Range(3, 17), Range(15, 20));
  }

  lemma CollapsedBridgeExample()
    ensures Collapsed(Range(3, 17), {Range(1, 5), Range(15, 20)}) == {Range(1, 20)}
  {
    var s := {Range(1, 5), Range(15, 20)};
    assert OverlappingWith(Range(3, 17), s) == s;
    HullIs(s + {Range(3, 17)}, Range(1, 20), Range(1, 5), Range(15, 20));
    assert s - s == {};
  }

  /** The set `range_collapse` builds when it is applied to `ranges` in order, starting from no ranges. */
  ghost function CollapseAll(ranges: seq<Range>): set<Range>
    decreases |ranges|
  {
    if |ranges| == 0 then {}
    else Collapsed(ranges[|ranges| - 1], CollapseAll(ranges[..|ranges| - 1]))
  }

  /** Merging one range more: the set for the first `i + 1` ranges merges range `i` into the set for the first `i`. */
  lemma CollapseAllStep(ranges: seq<Range>, i: nat)
    requires i < |ranges|
    ensures CollapseAll(ranges[..i + 1]) == Collapsed(ranges[i], CollapseAll(ranges[..i]))
  {
    assert ranges[..i + 1][..i] == ranges[..i];
  }

  /**
   * Merging well-formed ranges one by one gives well-formed, pairwise
   * disjoint ranges that cover exactly the positions some input range covers.
   */
  lemma {:induction false} CollapseAllInvariant(ranges: seq<Range>)
    requires forall i :: 0 <= i < |ranges| ==> WellFormed(ranges[i])
    ensures AllWellFormed(CollapseAll(ranges)) && PairwiseDisjoint(CollapseAll(ranges))
    ensures forall p :: Covered(CollapseAll(ranges), p) <==> exists i :: 0 <= i < |ranges| && Covers(ranges[i], p)
    decreases |ranges|
  {
    if |ranges| > 0 {
      var k := |ranges| - 1;
      var prefix := ranges[..k];
      CollapseAllInvariant(prefix);
      CollapsedWellFormed(ranges[k], CollapseAll(prefix));
      CollapsedDisjoint(ranges[k], CollapseAll(prefix));
      forall p ensures Covered(CollapseAll(ranges), p) <==> exists i :: 0 <= i < |ranges| && Covers(ranges[i], p) {
        CollapsedCoverage(ranges[k], CollapseAll(prefix), p);
        if exists i :: 0 <= i < |ranges| && Covers(ranges[i], p) {
          var i :| 0 <= i < |ranges| && Covers(ranges[i], p);
          if i < k {
            assert prefix[i] == ranges[i];
          }
        }
        if exists i :: 0 <= i < k && Covers(prefix[i], p) {
          var i :| 0 <= i < k && Covers(prefix[i], p);
          assert ranges[i] == prefix[i];
        }
      }
    }
  }

  /** The distinct ranges of `ranges`, whatever their order and repetitions. */
  ghost function Inputs(ranges: seq<Range>): set<Range> {
    set x | x in ranges
  }

  /** `x` lies within `a`. */
  predicate Inside(x: Range, a: Range) {
    a.lo <= x.lo && x.hi <= a.hi
  }

  /** Every pair of neighbouring positions within a member is held together by a single input. */
  ghost predicate NoGaps(s: set<Range>, inputs: set<Range>) {
    forall a, p :: a in s && Covers(a, p) && p < a.hi ==>
      exists x :: x in inputs && Covers(x, p) && Covers(x, p + 1)
  }

  /** Every input lies within a single member. */
  ghost predicate Absorbs(s: set<Range>, inputs: set<Range>) {
    forall x :: x in inputs ==> exists a :: a in s && Inside(x, a)
  }

  /**
   * `s` is a merge of `inputs`: well-formed, pairwise disjoint members that
   * cover exactly the inputs' positions, each member one piece the inputs
   * hold together, and no input split between members.
   */
  ghost predicate MergedFrom(s: set<Range>, inputs: set<Range>) {
    && AllWellFormed(s)
    && PairwiseDisjoint(s)
    && (forall p :: Covered(s, p) <==> Covered(inputs, p))
    && NoGaps(s, inputs)
    && Absorbs(s, inputs)
  }

  /** Merging a well-formed range keeps every member held together by the inputs. */
  lemma CollapsedNoGaps(n: Range, s: set<Range>, inputs: set<Range>)
    requires WellFormed(n) && AllWellFormed(s) && NoGaps(s, inputs)
    ensures NoGaps(Collapsed(n, s), inputs + {n})
  {
    var o := OverlappingWith(n, s);
    var c := Collapsed(n, s);
    forall a, p | a in c && Covers(a, p) && p < a.hi
      ensures exists x :: x in inputs + {n} && Covers(x, p) && Covers(x, p + 1)
    {
      if o == {} || a != Hull(o + {n}) {
        if a == n {
          assert n in inputs + {n} && Covers(n, p) && Covers(n, p + 1);
        } else {
          assert a in s;
          var x :| x in inputs && Covers(x, p) && Covers(x, p + 1);
          assert x in inputs + {n};
        }
      } else {
        HullCoverage(n, o, p);
        HullCoverage(n, o, p + 1);
        var w: Range;
        if n.lo <= p < n.hi {
          assert n in inputs + {n} && Covers(n, p) && Covers(n, p + 1);
        } else {
          if p < n.lo {
            w :| w in o && Covers(w, p);
          } else {
            w :| w in o && Covers(w, p + 1);
          }
          assert IsOverlapping(n, w);
          assert w in s && Covers(w, p) && p < w.hi;
          var x :| x in inputs && Covers(x, p) && Covers(x, p + 1);
          assert x in inputs + {n};
        }
      }
    }
  }

  /** Merging a well-formed range leaves every input, and the new range, within a single member. */
  lemma CollapsedAbsorbs(n: Range, s: set<Range>, inputs: set<Range>)
    requires WellFormed(n) && Absorbs(s, inputs)
    ensures Absorbs(Collapsed(n, s), inputs + {n})
  {
    var o := OverlappingWith(n, s);
    var c := Collapsed(n, s);
    forall x | x in inputs + {n} ensures exists a :: a in c && Inside(x, a) {
      if o == {} {
        if x == n {
          assert n in c && Inside(n, n);
        } else {
          var a :| a in s && Inside(x, a);
          assert a in c;
        }
      } else {
        var h := Hull(o + {n});
        assert h in c;
        if x == n {
          assert n in o + {n};
          assert Inside(n, h);
        } else {
          var a :| a in s && Inside(x, a);
          if a in o {
            assert a in o + {n};
            assert Inside(x, h);
          } else {
            assert a in c;
          }
        }
      }
    }
  }

  /** Merging well-formed ranges one by one gives a merge of those ranges. */
  lemma {:induction false} CollapseAllMerged(ranges: seq<Range>)
    requires forall i :: 0 <= i < |ranges| ==> WellFormed(ranges[i])
    ensures MergedFrom(CollapseAll(ranges), Inputs(ranges))
    decreases |ranges|
  {
    if |ranges| > 0 {
      var k := |ranges| - 1;
      var prefix := ranges[..k];
      var before := CollapseAll(prefix);
      CollapseAllMerged(prefix);
      CollapsedNoGaps(ranges[k], before, Inputs(prefix));
      CollapsedAbsorbs(ranges[k], before, Inputs(prefix));
      assert Inputs(ranges) == Inputs(prefix) + {ranges[k]} by {
        assert ranges == prefix + [ranges[k]];
      }
      CollapseAllInvariant(ranges);
      forall p ensures Covered(CollapseAll(ranges), p) <==> Covered(Inputs(ranges), p) {
        if Covered(Inputs(ranges), p) {
          var x :| x in Inputs(ranges) && Covers(x, p);
          var i :| 0 <= i < |ranges| && ranges[i] == x;
        }
      }
    }
  }

  /** In a merge, an input that shares a position with a member lies within that member. */
  lemma InputWithin(s: set<Range>, inputs: set<Range>, m: Range, x: Range, p: int)
    requires MergedFrom(s, inputs) && m in s && x in inputs && Covers(x, p) && Covers(m, p)
    ensures Inside(x, m)
  {
    var m' :| m' in s && Inside(x, m');
    assert WellFormed(m') && WellFormed(m);
    assert IsOverlapping(m', m);
  }

  /** A member of one merge is a member of any other merge of the same inputs. */
  lemma MergedMember(a1: set<Range>, a2: set<Range>, inputs: set<Range>, m: Range)
    requires MergedFrom(a1, inputs) && MergedFrom(a2, inputs) && m in a1
    ensures m in a2
  {
    assert Covered(a1, m.lo);
    var b :| b in a2 && Covers(b, m.lo);
    assert WellFormed(m) && WellFormed(b);
    if b.lo < m.lo {
      assert Covers(b, m.lo - 1) && m.lo - 1 < b.hi;
      var x :| x in inputs && Covers(x, m.lo - 1) && Covers(x, m.lo);
      InputWithin(a1, inputs, m, x, m.lo);
      assert false;
    }
    if b.hi < m.hi {
      assert Covers(m, b.hi) && b.hi < m.hi;
      var x :| x in inputs && Covers(x, b.hi) && Covers(x, b.hi + 1);
      InputWithin(a2, inputs, b, x, b.hi);
      assert false;
    }
    if m.hi < b.hi {
      assert Covers(b, m.hi) && m.hi < b.hi;
      var x :| x in inputs && Covers(x, m.hi) && Covers(x, m.hi + 1);
      InputWithin(a1, inputs, m, x, m.hi);
      assert false;
    }
  }

  /** The inputs determine their merge. */
  lemma MergedUnique(a1: set<Range>, a2: set<Range>, inputs: set<Range>)
    requires MergedFrom(a1, inputs) && MergedFrom(a2, inputs)
    ensures a1 == a2
  {
    forall m | m in a1 ensures m in a2 {
      MergedMember(a1, a2, inputs, m);
    }
    forall m | m in a2 ensures m in a1 {
      MergedMember(a2, a1, inputs, m);
    }
  }

  /**
   * The merged set does not depend on the order in which `range_collapse`
   * takes the ranges, nor on repeated ranges.
   */
  lemma CollapseAllOrderFree(p: seq<Range>, q: seq<Range>)
    requires forall i :: 0 <= i < |p| ==> WellFormed(p[i])
    requires forall x :: x in p <==> x in q
    ensures CollapseAll(p) == CollapseAll(q)
  {
    forall i | 0 <= i < |q| ensures WellFormed(q[i]) {
      assert q[i] in p;
    }
    assert Inputs(p) == Inputs(q);
    CollapseAllMerged(p);
    CollapseAllMerged(q);
    MergedUnique(CollapseAll(p), CollapseAll(q), Inputs(p));
  }

  /** The sum of `hi - lo` over the members, what `beacon_exclusion` returns. */
  ghost function TotalWidth(s: set<Range>): int
    decreases s
  {
    if s == {} then 0
    else
      var r :| r in s;
      (r.hi - r.lo) + TotalWidth(s - {r})
  }

  /** The sum does not depend on which member is taken first. */
  lemma {:induction false} TotalWidthRemove(s: set<Range>, r: Range)
    requires r in s
    ensures TotalWidth(s) == (r.hi - r.lo) + TotalWidth(s - {r})
    decreases s
  {
    var q :| q in s && TotalWidth(s) == (q.hi - q.lo) + TotalWidth(s - {q});
    if q != r {
      TotalWidthRemove(s - {q}, r);
      TotalWidthRemove(s - {r}, q);
      assert s - {q} - {r} == s - {r} - {q};
    }
  }

  /** Summing well-formed ranges never goes below zero. */
  lemma {:induction false} TotalWidthNonNegative(s: set<Range>)
    requires AllWellFormed(s)
    ensures TotalWidth(s) >= 0
    decreases s
  {
    if s != {} {
      var r :| r in s;
      TotalWidthRemove(s, r);
      TotalWidthNonNegative(s - {r});
    }
  }
}
