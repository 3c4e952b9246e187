/** The imperative part of day22/main.go: the `Reactor` with its append-only
    entry list and running total, `countCubes`, and the trim filter of
    `parseSteps`. */
module Day22 {
  import opened Geometry
  import opened Cells
  import opened Replay
  import opened Ledger

  /** The append-only ledger `cs` and the running total `lit`. */
  class Reactor {
    var cs: seq<Cube>
    var lit: int

    /** The ledger invariant: the total is the sum of the entries' `lit()`. */
    ghost predicate Valid()
      reads this
    {
      lit == LitSum(cs)
    }

    /** `var r Reactor`: no entries and a zero total. */
    constructor ()
      ensures cs == [] && lit == 0
      ensures Valid()
    {
      cs := [];
      lit := 0;
    }

    /** `r.addCube(c)`: append the negated overlap with every entry present
        at the start of the call, then `c` itself if it is "on", adding each
        appended entry's signed volume to the total. */
    method AddCube(c: Cube)
      modifies this
      ensures cs == old(cs) + Appended(old(cs), c)
      ensures lit == old(lit) + LitSum(Appended(old(cs), c))
      ensures old(Valid()) ==> Valid()
    {
      // Go's `range r.cs` evaluates the slice once: only these are visited.
      var entries := cs;
      var i := 0;
      while i < |entries|
        invariant 0 <= i <= |entries|
        invariant cs == entries + NegatedOverlaps(entries[..i], c)
        invariant lit == old(lit) + LitSum(NegatedOverlaps(entries[..i], c))
      {
        var cube := entries[i];
        NegatedOverlapsStep(entries, i, c);
        if Overlaps(cube, c) {
          var overlap := Intersection(cube, c);
          lit := lit + Lit(overlap);
          cs := cs + [overlap];
        }
        i := i + 1;
      }
      assert entries[..i] == entries;
      AppendedAfterLoop(entries, c);
      if c.on {
        cs := cs + [c];
        lit := lit + Lit(c);
      }
    }
  }

  /** The lower and upper limits of the trimmed region, inclusive. */
  const TrimLow := -50
  const TrimHigh := 50

  /** The region [-50, 50]³ (its flag plays no part). */
  const TrimRegion := Cube(false, TrimLow, TrimHigh, TrimLow, TrimHigh, TrimLow, TrimHigh)

  /** The test in `parseSteps`: with `trim`, a step is dropped when a lower
      bound is below -50 or an upper bound above 50. */
  function Kept(c: Cube, trim: bool): (keep: bool)
    ensures !trim ==> keep
    ensures WellFormed(c) ==> (keep <==> !trim || Inside(c, TrimRegion))
  {
    !trim ||
    !(c.xMin < TrimLow || c.yMin < TrimLow || c.zMin < TrimLow ||
      c.xMax > TrimHigh || c.yMax > TrimHigh || c.zMax > TrimHigh)
  }

  /** The steps `parseSteps` returns from the parsed lines, in order. */
  function Trimmed(lines: seq<Cube>, trim: bool): (steps: seq<Cube>)
    ensures |steps| <= |lines|
    ensures forall k :: 0 <= k < |steps| ==> Kept(steps[k], trim)
  {
    if lines == [] then []
    else
      var c := lines[|lines| - 1];
      Trimmed(lines[..|lines| - 1], trim) + (if Kept(c, trim) then [c] else [])
  }

  /** For a well-formed step, the trim test keeps it exactly when all six
      bounds lie in [-50, 50], that is when it lies inside the region. */
  lemma KeptIffInsideRegion(c: Cube)
    requires WellFormed(c)
    ensures Kept(c, true) <==>
      (TrimLow <= c.xMin <= TrimHigh && TrimLow <= c.xMax <= TrimHigh &&
       TrimLow <= c.yMin <= TrimHigh && TrimLow <= c.yMax <= TrimHigh &&
       TrimLow <= c.zMin <= TrimHigh && TrimLow <= c.zMax <= TrimHigh)
    ensures Kept(c, true) <==> Inside(c, TrimRegion)
  {
  }

  /** A step with any cell outside the region is dropped whole, not clipped. */
  lemma PartlyOutsideIsDropped(c: Cube, p: Point)
    requires Contains(c, p) && !Contains(TrimRegion, p)
    ensures !Kept(c, true)
  {
  }

  /** The filter keeps steps whole: what it returns are exactly the input
      steps that pass the test, and each is unchanged. */
  lemma {:induction false} TrimmedKeepsWholeSteps(lines: seq<Cube>, trim: bool)
    ensures |Trimmed(lines, trim)| <= |lines|
    ensures forall c :: c in Trimmed(lines, trim) <==> c in lines && Kept(c, trim)
  {
    if lines != [] {
      var init := lines[..|lines| - 1];
      TrimmedKeepsWholeSteps(init, trim);
      assert lines == init + [lines[|lines| - 1]];
    }
  }

  /** Without trim every step is kept. */
  lemma {:induction false} UntrimmedKeepsAll(lines: seq<Cube>)
    ensures Trimmed(lines, false) == lines
  {
    if lines != [] {
      var init := lines[..|lines| - 1];
      UntrimmedKeepsAll(init);
      assert lines == init + [lines[|lines| - 1]];
    }
  }

  /** With trim, every kept well-formed step lies inside the region. */
  lemma {:induction false} TrimmedInsideRegion(lines: seq<Cube>)
    requires AllWellFormed(lines)
    ensures AllWellFormed(Trimmed(lines, true)) && AllInside(Trimmed(lines, true), TrimRegion)
  {
    if lines != [] {
      var init := lines[..|lines| - 1];
      TrimmedInsideRegion(init);
    }
  }

  /** Every step the trim test drops shares no cell with the region. */
  predicate DroppedStepsMissRegion(lines: seq<Cube>)
  {
    forall i :: 0 <= i < |lines| && !Kept(lines[i], true) ==> !Overlaps(lines[i], TrimRegion)
  }

  /** When the dropped steps miss the region, trimming does not change the
      state of any cell of the region. */
  lemma {:induction false} TrimmedLightsRegionAlike(lines: seq<Cube>, p: Point)
    requires DroppedStepsMissRegion(lines) && Contains(TrimRegion, p)
    ensures LitAfter(Trimmed(lines, true), p) == LitAfter(lines, p)
  {
    if lines != [] {
      var init, c := lines[..|lines| - 1], lines[|lines| - 1];
      assert DroppedStepsMissRegion(init) by {
        forall i | 0 <= i < |init| && !Kept(init[i], true)
          ensures !Overlaps(init[i], TrimRegion)
        {
          assert init[i] == lines[i];
        }
      }
      TrimmedLightsRegionAlike(init, p);
      var front := Trimmed(init, true);
      if Kept(c, true) {
        assert (front + [c])[..|front|] == front;
      } else {
        assert front + [] == front;
        assert !Contains(c, p);
      }
    }
  }

  /** Steps inside `u` that light the cells of `u` as `lines` does count the
      cells of `u` that `lines` leaves on. */
  lemma CountAgreesIn(kept: seq<Cube>, lines: seq<Cube>, u: Cube)
    requires AllWellFormed(kept) && AllInside(kept, u)
    requires forall p :: Contains(u, p) ==> LitAfter(kept, p) == LitAfter(lines, p)
    ensures Count(kept) == LitCellsIn(lines, u)
  {
    CountIsLitCells(kept, u);
    LitCellsAgreeIn(kept, lines, u);
  }

  /** When the dropped steps miss the region, the trimmed count is the number
      of cells of [-50, 50]³ that the full, untrimmed sequence leaves on. */
  lemma TrimmedCountsRegion(lines: seq<Cube>)
    requires AllWellFormed(lines) && DroppedStepsMissRegion(lines)
    ensures Count(Trimmed(lines, true)) == LitCellsIn(lines, TrimRegion)
  {
    var kept := Trimmed(lines, true);
    TrimmedInsideRegion(lines);
    forall p | Contains(TrimRegion, p)
      ensures LitAfter(kept, p) == LitAfter(lines, p)
    {
      TrimmedLightsRegionAlike(lines, p);
    }
    CountAgreesIn(kept, lines, TrimRegion);
  }

  /** With trim, the total counts the cells of the region left on by the
      kept steps. */
  lemma TrimmedCountsKeptInRegion(lines: seq<Cube>)
    requires AllWellFormed(lines)
    ensures Count(Trimmed(lines, true)) == LitCellsIn(Trimmed(lines, true), TrimRegion)
  {
    TrimmedInsideRegion(lines);
    CountIsLitCells(Trimmed(lines, true), TrimRegion);
  }

  /** The step loop of `parseSteps`, over lines already read and parsed:
      a step is appended unless the trim test drops it. */
  method ParseSteps(lines: seq<Cube>, trim: bool) returns (steps: seq<Cube>)
    ensures steps == Trimmed(lines, trim)
  {
    steps := [];
    var i := 0;
    while i < |lines|
      invariant 0 <= i <= |lines|
      invariant steps == Trimmed(lines[..i], trim)
    {
      var c := lines[i];
      assert lines[..i + 1][..i] == lines[..i];
      if Kept(c, trim) {
        steps := steps + [c];
      }
      i := i + 1;
    }
    assert lines[..i] == lines;
  }

  /** `countCubes`: fold `addCube` over the kept steps, starting from an
      empty reactor, and return the running total. For well-formed steps
      with trim, that is the number of cells of [-50, 50]³ left on by the
      steps that pass the trim test; a step crossing the boundary is dropped
      whole. When every dropped step misses the region, it is also the
      number left on by all steps. Without trim it is the number of
      cells of the bounding box of all steps left on. */
  method CountCubes(lines: seq<Cube>, trim: bool) returns (count: int)
    ensures count == Count(Trimmed(lines, trim))
    ensures AllWellFormed(lines) && trim ==> count == LitCellsIn(Trimmed(lines, trim), TrimRegion)
    ensures AllWellFormed(lines) && trim && DroppedStepsMissRegion(lines) ==>
      count == LitCellsIn(lines, TrimRegion)
    ensures AllWellFormed(lines) && !trim ==> count == LitCellsIn(lines, BoundingBox(lines))
  {
    var r := new Reactor();
    var cubes := ParseSteps(lines, trim);
    var i := 0;
    while i < |cubes|
      invariant 0 <= i <= |cubes|
      invariant r.cs == Entries(cubes[..i])
      invariant r.Valid()
    {
      assert cubes[..i + 1][..i] == cubes[..i];
      r.AddCube(cubes[i]);
      i := i + 1;
    }
    assert cubes[..i] == cubes;
    count := r.lit;
    if AllWellFormed(lines) {
      if trim {
        if DroppedStepsMissRegion(lines) {
          TrimmedCountsRegion(lines);
        }
        TrimmedCountsKeptInRegion(lines);
      } else {
        UntrimmedKeepsAll(lines);
        CountIsLitCells(lines, BoundingBox(lines));
      }
    }
  }
}
