/** The reactor's signed-volume ledger as values: what `addCube` appends, the
    fold of `countCubes`, and the proof that the running total is the number
    of lit cells. */
module Ledger {
  import opened Geometry
  import opened Cells
  import opened Replay

  predicate AllWellFormed(cs: seq<Cube>)
  {
    forall i :: 0 <= i < |cs| ==> WellFormed(cs[i])
  }

  predicate AllInside(cs: seq<Cube>, u: Cube)
  {
    forall i :: 0 <= i < |cs| ==> Inside(cs[i], u)
  }

  /** The sum of `lit()` over the entries. */
  function LitSum(cs: seq<Cube>): int
  {
    if cs == [] then 0 else LitSum(cs[..|cs| - 1]) + Lit(cs[|cs| - 1])
  }

  /** The loop of `addCube`: for each entry present when the call starts, in
      order, the intersection with `c` when the two overlap. */
  function NegatedOverlaps(cs: seq<Cube>, c: Cube): seq<Cube>
  {
    if cs == [] then []
    else
      var e := cs[|cs| - 1];
      NegatedOverlaps(cs[..|cs| - 1], c) + (if Overlaps(e, c) then [Intersection(e, c)] else [])
  }

  /** Everything one `addCube(c)` appends: the negated overlaps, then `c`
      itself when it is an "on" step. */
  function Appended(cs: seq<Cube>, c: Cube): (r: seq<Cube>)
    ensures c.on ==> |r| > 0 && r[|r| - 1] == c
  {
    NegatedOverlaps(cs, c) + (if c.on then [c] else [])
  }

  /** The entries after folding `addCube` over `steps` from an empty reactor. */
  function Entries(steps: seq<Cube>): seq<Cube>
  {
    if steps == [] then []
    else
      var cs := Entries(steps[..|steps| - 1]);
      cs + Appended(cs, steps[|steps| - 1])
  }

  /** The value `countCubes` returns for (already trimmed) `steps`. */
  function Count(steps: seq<Cube>): int
  {
    LitSum(Entries(steps))
  }

  /** The signed weight of entry `r` at cell `p`. */
  function Weight(r: Cube, p: Point): int
  {
    if Contains(r, p) then Sign(r) else 0
  }

  /** Σ over the entries of (on ? 1 : -1)·[p ∈ entry]. */
  function Coverage(cs: seq<Cube>, p: Point): int
  {
    if cs == [] then 0 else Coverage(cs[..|cs| - 1], p) + Weight(cs[|cs| - 1], p)
  }

  lemma {:induction false} LitSumConcat(a: seq<Cube>, b: seq<Cube>)
    ensures LitSum(a + b) == LitSum(a) + LitSum(b)
    decreases |b|
  {
    if b == [] {
      assert a + b == a;
    } else {
      var b' := b[..|b| - 1];
      assert (a + b)[..|a + b| - 1] == a + b';
      assert (a + b)[|a + b| - 1] == b[|b| - 1];
      LitSumConcat(a, b');
    }
  }

  lemma LitSumSnoc(a: seq<Cube>, x: Cube)
    ensures LitSum(a + [x]) == LitSum(a) + Lit(x)
  {
    assert (a + [x])[..|a|] == a;
  }

  /** One more pre-existing entry visited by the loop of `addCube`: the
      overlap is appended when there is one, and the total grows by its
      signed volume. */
  lemma NegatedOverlapsStep(entries: seq<Cube>, i: nat, c: Cube)
    requires i < |entries|
    ensures NegatedOverlaps(entries[..i + 1], c) ==
      NegatedOverlaps(entries[..i], c) + (if Overlaps(entries[i], c) then [Intersection(entries[i], c)] else [])
    ensures LitSum(NegatedOverlaps(entries[..i + 1], c)) ==
      LitSum(NegatedOverlaps(entries[..i], c)) + (if Overlaps(entries[i], c) then Lit(Intersection(entries[i], c)) else 0)
  {
    assert entries[..i + 1][..i] == entries[..i];
    var done := NegatedOverlaps(entries[..i], c);
    if Overlaps(entries[i], c) {
      LitSumSnoc(done, Intersection(entries[i], c));
    } else {
      assert done + [] == done;
    }
  }

  /** The end of `addCube`: the step itself is appended when it is "on". */
  lemma AppendedAfterLoop(entries: seq<Cube>, c: Cube)
    ensures Appended(entries, c) == NegatedOverlaps(entries, c) + (if c.on then [c] else [])
    ensures LitSum(Appended(entries, c)) == LitSum(NegatedOverlaps(entries, c)) + (if c.on then Lit(c) else 0)
    ensures LitSum(entries + Appended(entries, c)) == LitSum(entries) + LitSum(Appended(entries, c))
  {
    var done := NegatedOverlaps(entries, c);
    if c.on {
      LitSumSnoc(done, c);
    } else {
      assert done + [] == done;
    }
    LitSumConcat(entries, Appended(entries, c));
  }

  lemma {:induction false} CoverageConcat(a: seq<Cube>, b: seq<Cube>, p: Point)
    ensures Coverage(a + b, p) == Coverage(a, p) + Coverage(b, p)
    decreases |b|
  {
    if b == [] {
      assert a + b == a;
    } else {
      var b' := b[..|b| - 1];
      assert (a + b)[..|a + b| - 1] == a + b';
      assert (a + b)[|a + b| - 1] == b[|b| - 1];
      CoverageConcat(a, b', p);
    }
  }

  /** The negated overlaps are well formed and lie inside the step. */
  lemma {:induction false} NegatedOverlapsInside(cs: seq<Cube>, c: Cube)
    requires AllWellFormed(cs) && WellFormed(c)
    ensures AllWellFormed(NegatedOverlaps(cs, c)) && AllInside(NegatedOverlaps(cs, c), c)
  {
    if cs != [] {
      NegatedOverlapsInside(cs[..|cs| - 1], c);
    }
  }

  /** `e` is the intersection of `c` with some entry of `cs` that overlaps it. */
  ghost predicate OverlapOf(cs: seq<Cube>, c: Cube, e: Cube)
  {
    exists j :: 0 <= j < |cs| && Overlaps(cs[j], c) && e == Intersection(cs[j], c)
  }

  /** At most one entry is appended per pre-existing entry, and each appended
      entry is the intersection of the step with an overlapping pre-existing
      entry, so it carries the opposite sign of that entry. */
  lemma {:induction false} NegatedOverlapsShape(cs: seq<Cube>, c: Cube)
    ensures |NegatedOverlaps(cs, c)| <= |cs|
    ensures forall k :: 0 <= k < |NegatedOverlaps(cs, c)| ==> OverlapOf(cs, c, NegatedOverlaps(cs, c)[k])
  {
    if cs != [] {
      var n := |cs| - 1;
      var init := cs[..n];
      NegatedOverlapsShape(init, c);
      var front := NegatedOverlaps(init, c);
      var all := NegatedOverlaps(cs, c);
      assert all == front + (if Overlaps(cs[n], c) then [Intersection(cs[n], c)] else []);
      forall k | 0 <= k < |all|
        ensures OverlapOf(cs, c, all[k])
      {
        if k < |front| {
          assert OverlapOf(init, c, front[k]);
          var j :| 0 <= j < |init| && Overlaps(init[j], c) && front[k] == Intersection(init[j], c);
          assert cs[j] == init[j] && all[k] == front[k];
        } else {
          assert Overlaps(cs[n], c) && all[k] == Intersection(cs[n], c);
        }
      }
    }
  }

  /** Every entry of the ledger is well formed. */
  lemma {:induction false} EntriesWellFormed(steps: seq<Cube>)
    requires AllWellFormed(steps)
    ensures AllWellFormed(Entries(steps))
  {
    if steps != [] {
      var init := steps[..|steps| - 1];
      var c := steps[|steps| - 1];
      EntriesWellFormed(init);
      NegatedOverlapsInside(Entries(init), c);
    }
  }

  /** Every entry of the ledger lies inside any box holding every step. */
  lemma {:induction false} EntriesInside(steps: seq<Cube>, u: Cube)
    requires AllWellFormed(steps) && AllInside(steps, u)
    ensures AllInside(Entries(steps), u)
  {
    if steps != [] {
      var init := steps[..|steps| - 1];
      var c := steps[|steps| - 1];
      EntriesInside(init, u);
      EntriesWellFormed(init);
      NegatedOverlapsInside(Entries(init), c);
      var no := NegatedOverlaps(Entries(init), c);
      assert forall i :: 0 <= i < |no| ==> Inside(no[i], u) by {
        forall i | 0 <= i < |no| ensures Inside(no[i], u) {
          assert Inside(no[i], c);
        }
      }
    }
  }

  /** The ledger is append-only: later steps only add entries after those
      already there. */
  lemma {:induction false} EntriesAppendOnly(steps: seq<Cube>, more: seq<Cube>)
    ensures Entries(steps) <= Entries(steps + more)
    decreases |more|
  {
    if more == [] {
      assert steps + more == steps;
    } else {
      var init := more[..|more| - 1];
      EntriesAppendOnly(steps, init);
      assert (steps + more)[..|steps + more| - 1] == steps + init;
    }
  }

  /** The negated overlaps cancel the old coverage on the step's cells and
      contribute nothing elsewhere. */
  lemma {:induction false} CoverageOfNegatedOverlaps(cs: seq<Cube>, c: Cube, p: Point)
    ensures Coverage(NegatedOverlaps(cs, c), p) == if Contains(c, p) then -Coverage(cs, p) else 0
  {
    if cs != [] {
      var init := cs[..|cs| - 1];
      var e := cs[|cs| - 1];
      CoverageOfNegatedOverlaps(init, c, p);
      var tail := if Overlaps(e, c) then [Intersection(e, c)] else [];
      CoverageConcat(NegatedOverlaps(init, c), tail, p);
      if Overlaps(e, c) {
        assert Coverage(tail, p) == Weight(Intersection(e, c), p) by {
          assert tail[..0] == [];
        }
      } else {
        assert Contains(c, p) ==> !Contains(e, p);
      }
    }
  }

  /** One `addCube(c)`: cells of c end with coverage 1 if c is on and 0 if it
      is off; other cells keep their coverage. */
  lemma CoverageAfterAddCube(cs: seq<Cube>, c: Cube, p: Point)
    ensures Coverage(cs + Appended(cs, c), p) ==
      if Contains(c, p) then (if c.on then 1 else 0) else Coverage(cs, p)
  {
    var on := if c.on then [c] else [];
    CoverageOfNegatedOverlaps(cs, c, p);
    CoverageConcat(cs, Appended(cs, c), p);
    CoverageConcat(NegatedOverlaps(cs, c), on, p);
    if c.on {
      assert Coverage(on, p) == Weight(c, p) by {
        assert on[..0] == [];
      }
    }
  }

  /** Pointwise correctness: after the fold, each cell's coverage is 1 if the
      cell is on under cell-by-cell replay and 0 otherwise. */
  lemma {:induction false} CoverageIsLit(steps: seq<Cube>, p: Point)
    ensures Coverage(Entries(steps), p) == if LitAfter(steps, p) then 1 else 0
  {
    if steps != [] {
      var init := steps[..|steps| - 1];
      CoverageIsLit(init, p);
      CoverageAfterAddCube(Entries(init), steps[|steps| - 1], p);
    }
  }

  /** Σ over the listed cells of the coverage. */
  function CoverageSum(cs: seq<Cube>, ps: seq<Point>): int
  {
    if ps == [] then 0 else CoverageSum(cs, ps[..|ps| - 1]) + Coverage(cs, ps[|ps| - 1])
  }

  /** Σ over the entries of sign · (how many listed cells the entry holds). */
  function WeightedCount(cs: seq<Cube>, ps: seq<Point>): int
  {
    if cs == [] then 0 else WeightedCount(cs[..|cs| - 1], ps) + Sign(cs[|cs| - 1]) * CountIn(cs[|cs| - 1], ps)
  }

  lemma {:induction false} CoverageSumSnoc(cs: seq<Cube>, r: Cube, ps: seq<Point>)
    ensures CoverageSum(cs + [r], ps) == CoverageSum(cs, ps) + Sign(r) * CountIn(r, ps)
  {
    if ps != [] {
      var ps' := ps[..|ps| - 1];
      CoverageSumSnoc(cs, r, ps');
      assert (cs + [r])[..|cs + [r]| - 1] == cs;
      var last := if Contains(r, ps[|ps| - 1]) then 1 else 0;
      assert Sign(r) * CountIn(r, ps) == Sign(r) * CountIn(r, ps') + Sign(r) * last;
    }
  }

  /** Summing coverage cell by cell equals summing entry by entry. */
  lemma {:induction false} CoverageSumExchange(cs: seq<Cube>, ps: seq<Point>)
    ensures CoverageSum(cs, ps) == WeightedCount(cs, ps)
  {
    if cs == [] {
      CoverageSumOfEmpty(ps);
    } else {
      var init := cs[..|cs| - 1];
      CoverageSumExchange(init, ps);
      assert init + [cs[|cs| - 1]] == cs;
      CoverageSumSnoc(init, cs[|cs| - 1], ps);
    }
  }

  lemma {:induction false} CoverageSumOfEmpty(ps: seq<Point>)
    ensures CoverageSum([], ps) == 0
  {
    if ps != [] {
      CoverageSumOfEmpty(ps[..|ps| - 1]);
    }
  }

  /** Over the cells of a box holding every entry, the weighted count is the
      sum of the signed volumes. */
  lemma {:induction false} WeightedCountIsLitSum(cs: seq<Cube>, u: Cube)
    requires AllWellFormed(cs) && AllInside(cs, u)
    ensures WeightedCount(cs, CellsOf(u)) == LitSum(cs)
  {
    if cs != [] {
      var init := cs[..|cs| - 1];
      WeightedCountIsLitSum(init, u);
      CountInCellsOf(cs[|cs| - 1], u);
    }
  }

  /** Summing the coverage of the ledger over some cells counts the lit ones. */
  lemma {:induction false} CoverageSumIsLitCount(steps: seq<Cube>, ps: seq<Point>)
    ensures CoverageSum(Entries(steps), ps) == LitCount(steps, ps)
  {
    if ps != [] {
      CoverageSumIsLitCount(steps, ps[..|ps| - 1]);
      CoverageIsLit(steps, ps[|ps| - 1]);
    }
  }

  /** The running total is the number of lit cells: for well-formed steps
      that all lie inside the box `u`, it equals the number of cells of `u`
      left on by cell-by-cell replay. */
  lemma CountIsLitCells(steps: seq<Cube>, u: Cube)
    requires AllWellFormed(steps) && AllInside(steps, u)
    ensures Count(steps) == LitCellsIn(steps, u)
  {
    var cs := Entries(steps);
    EntriesWellFormed(steps);
    EntriesInside(steps, u);
    WeightedCountIsLitSum(cs, u);
    CoverageSumExchange(cs, CellsOf(u));
    CoverageSumIsLitCount(steps, CellsOf(u));
  }

  /** The smallest box holding both cubes. */
  function Hull(a: Cube, b: Cube): (h: Cube)
    ensures Inside(a, h) && Inside(b, h)
  {
    Cube(false, Min(a.xMin, b.xMin), Max(a.xMax, b.xMax),
                Min(a.yMin, b.yMin), Max(a.yMax, b.yMax),
                Min(a.zMin, b.zMin), Max(a.zMax, b.zMax))
  }

  /** A box holding every step. */
  function BoundingBox(steps: seq<Cube>): (u: Cube)
    ensures AllInside(steps, u)
  {
    if steps == [] then ZeroCube
    else if |steps| == 1 then steps[0]
    else
      var prefix := BoundingBox(steps[..|steps| - 1]);
      Hull(prefix, steps[|steps| - 1])
  }

  /** The running total of any well-formed steps is the number of cells of
      their bounding box left on, so it is never negative. */
  lemma CountIsLitCellsOfBoundingBox(steps: seq<Cube>)
    requires AllWellFormed(steps)
    ensures Count(steps) == LitCellsIn(steps, BoundingBox(steps))
    ensures Count(steps) >= 0
  {
    CountIsLitCells(steps, BoundingBox(steps));
  }

  /** The same lit cells give the same count, however the steps got there. */
  lemma SameLitCellsSameCount(s1: seq<Cube>, s2: seq<Cube>, u: Cube)
    requires AllWellFormed(s1) && AllWellFormed(s2)
    requires AllInside(s1, u) && AllInside(s2, u)
    requires forall p :: LitAfter(s1, p) == LitAfter(s2, p)
    ensures Count(s1) == Count(s2)
  {
    CountIsLitCells(s1, u);
    CountIsLitCells(s2, u);
    LitCountAgrees(s1, s2, CellsOf(u));
  }

  /** Repeating an "on" step leaves the count unchanged. */
  lemma RepeatedOnIsIdempotent(steps: seq<Cube>, c: Cube)
    requires AllWellFormed(steps) && WellFormed(c) && c.on
    ensures Count(steps + [c, c]) == Count(steps + [c])
  {
    var once, twice := steps + [c], steps + [c, c];
    var u := BoundingBox(once);
    assert twice[..|twice| - 1] == once;
    assert AllInside(twice, u) by {
      forall i | 0 <= i < |twice| ensures Inside(twice[i], u) {
        if i < |once| { assert twice[i] == once[i]; } else { assert twice[i] == once[|once| - 1]; }
      }
    }
    SameLitCellsSameCount(twice, once, u);
  }

  /** An "off" step over the region of an earlier "on" step cancels it: the
      pair counts as the "off" step alone. */
  lemma OffCancelsOn(steps: seq<Cube>, c: Cube)
    requires AllWellFormed(steps) && WellFormed(c) && c.on
    ensures Count(steps + [c, c.(on := false)]) == Count(steps + [c.(on := false)])
  {
    var off := c.(on := false);
    var both, alone := steps + [c, off], steps + [off];
    var u := BoundingBox(both);
    assert both[..|both| - 1] == steps + [c];
    assert (steps + [c])[..|steps|] == steps;
    assert alone[..|alone| - 1] == steps;
    assert AllInside(alone, u) by {
      forall i | 0 <= i < |alone| ensures Inside(alone[i], u) {
        if i < |steps| { assert alone[i] == both[i]; } else { assert alone[i] == both[|both| - 1]; }
      }
    }
    SameLitCellsSameCount(both, alone, u);
  }

  /** An "off" step over the region of an earlier step cancels it, whatever
      came in between: the earlier step can be left out. */
  lemma OffCancelsEarlierStep(steps: seq<Cube>, c: Cube, between: seq<Cube>)
    requires AllWellFormed(steps) && WellFormed(c) && AllWellFormed(between)
    ensures Count(steps + [c] + between + [c.(on := false)]) == Count(steps + between + [c.(on := false)])
  {
    var off := c.(on := false);
    var long, short := steps + [c] + between + [off], steps + between + [off];
    var u := BoundingBox(long);
    assert AllInside(short, u) by {
      forall i | 0 <= i < |short| ensures Inside(short[i], u) {
        if i < |steps| {
          assert short[i] == long[i];
        } else {
          assert short[i] == long[i + 1];
        }
      }
    }
    forall p
      ensures LitAfter(long, p) == LitAfter(short, p)
    {
      assert long[..|long| - 1] == steps + [c] + between;
      assert short[..|short| - 1] == steps + between;
      if !Contains(c, p) {
        StepMissingCellIsIrrelevant(steps, c, between, p);
      }
    }
    assert AllWellFormed(long) by {
      forall i | 0 <= i < |long| ensures WellFormed(long[i]) {
        if i < |steps| { assert long[i] == steps[i]; }
        else if i == |steps| { assert long[i] == c; }
        else if i < |long| - 1 { assert long[i] == between[i - |steps| - 1]; }
      }
    }
    assert AllWellFormed(short) by {
      forall i | 0 <= i < |short| ensures WellFormed(short[i]) {
        assert short[i] == long[if i < |steps| then i else i + 1];
      }
    }
    SameLitCellsSameCount(long, short, u);
  }
}
