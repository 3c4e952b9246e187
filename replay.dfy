/** The reference meaning of a reboot sequence: replayed cell by cell, the
    last step whose cuboid contains a cell decides whether the cell is on. */
module Replay {
  import opened Geometry
  import opened Cells

  /** Whether `p` is on after applying `steps` in order to an all-off reactor. */
  predicate LitAfter(steps: seq<Cube>, p: Point)
  {
    if steps == [] then false
    else if Contains(steps[|steps| - 1], p) then steps[|steps| - 1].on
    else LitAfter(steps[..|steps| - 1], p)
  }

  /** A cell is on exactly when some step contains it and the last such step
      is an "on" step. */
  lemma {:induction false} LitAfterIsLastContainingStep(steps: seq<Cube>, p: Point)
    ensures LitAfter(steps, p) <==>
      exists i :: 0 <= i < |steps| && Contains(steps[i], p) && steps[i].on &&
        forall j :: i < j < |steps| ==> !Contains(steps[j], p)
  {
    if steps != [] {
      var n := |steps| - 1;
      var init := steps[..n];
      LitAfterIsLastContainingStep(init, p);
      if Contains(steps[n], p) {
        if steps[n].on {
          assert 0 <= n < |steps| && Contains(steps[n], p) && steps[n].on;
        } else {
          forall i | 0 <= i < |steps| && Contains(steps[i], p) && steps[i].on
            ensures exists j :: i < j < |steps| && Contains(steps[j], p)
          {
            assert i < n;
          }
        }
      } else {
        if LitAfter(init, p) {
          var i :| 0 <= i < n && Contains(init[i], p) && init[i].on &&
            forall j :: i < j < n ==> !Contains(init[j], p);
          assert Contains(steps[i], p) && steps[i].on;
          assert forall j :: i < j < |steps| ==> !Contains(steps[j], p);
        } else {
          forall i | 0 <= i < |steps| && Contains(steps[i], p) && steps[i].on
            ensures exists j :: i < j < |steps| && Contains(steps[j], p)
          {
            assert i < n;
            assert Contains(init[i], p) && init[i].on;
            var j :| i < j < n && Contains(init[j], p);
            assert Contains(steps[j], p);
          }
        }
      }
    }
  }

  /** How many entries of `ps` are on after `steps`. */
  function LitCount(steps: seq<Cube>, ps: seq<Point>): nat
  {
    if ps == [] then 0
    else LitCount(steps, ps[..|ps| - 1]) + (if LitAfter(steps, ps[|ps| - 1]) then 1 else 0)
  }

  /** The number of cells of the box `u` that are on after `steps`, counted
      one cell at a time. */
  function LitCellsIn(steps: seq<Cube>, u: Cube): nat
  {
    LitCount(steps, CellsOf(u))
  }

  /** Two step sequences that light the same cells light equally many of them. */
  lemma {:induction false} LitCountAgrees(s1: seq<Cube>, s2: seq<Cube>, ps: seq<Point>)
    requires forall p :: LitAfter(s1, p) == LitAfter(s2, p)
    ensures LitCount(s1, ps) == LitCount(s2, ps)
  {
    if ps != [] {
      LitCountAgrees(s1, s2, ps[..|ps| - 1]);
    }
  }

  /** Two step sequences that agree on every listed cell light equally many
      of them. */
  lemma {:induction false} LitCountAgreesOn(s1: seq<Cube>, s2: seq<Cube>, ps: seq<Point>)
    requires forall i :: 0 <= i < |ps| ==> LitAfter(s1, ps[i]) == LitAfter(s2, ps[i])
    ensures LitCount(s1, ps) == LitCount(s2, ps)
  {
    if ps != [] {
      var init := ps[..|ps| - 1];
      assert forall i :: 0 <= i < |init| ==> init[i] == ps[i];
      LitCountAgreesOn(s1, s2, init);
    }
  }

  /** A step that does not contain `p` plays no part in its state, wherever
      it stands in the sequence. */
  lemma {:induction false} StepMissingCellIsIrrelevant(before: seq<Cube>, c: Cube, after: seq<Cube>, p: Point)
    requires !Contains(c, p)
    ensures LitAfter(before + [c] + after, p) == LitAfter(before + after, p)
    decreases |after|
  {
    if after == [] {
      assert (before + [c] + after)[..|before|] == before;
      assert before + after == before;
    } else {
      var init := after[..|after| - 1];
      StepMissingCellIsIrrelevant(before, c, init, p);
      assert (before + [c] + after)[..|before + [c] + after| - 1] == before + [c] + init;
      assert (before + after)[..|before + after| - 1] == before + init;
    }
  }

  /** Two step sequences that agree on every cell of `u` light equally many
      cells of `u`. */
  lemma LitCellsAgreeIn(s1: seq<Cube>, s2: seq<Cube>, u: Cube)
    requires forall p :: Contains(u, p) ==> LitAfter(s1, p) == LitAfter(s2, p)
    ensures LitCellsIn(s1, u) == LitCellsIn(s2, u)
  {
    CellsOfInside(u);
    LitCountAgreesOn(s1, s2, CellsOf(u));
  }
}
