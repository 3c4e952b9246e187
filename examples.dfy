/** Concrete reboot sequences and what the ledger counts for them. */
module Examples {
  import opened Geometry
  import opened Replay
  import opened Ledger
  import opened Day22

  /** The ledger after a single step. */
  lemma {:induction false} EntriesOfOne(c: Cube)
    ensures Entries([c]) == if c.on then [c] else []
  {
    assert [c][..0] == [];
  }

  /** The ledger after two steps. */
  lemma {:induction false} EntriesOfTwo(a: Cube, b: Cube)
    ensures Entries([a, b]) == Entries([a]) + Appended(Entries([a]), b)
  {
    assert [a, b][..1] == [a];
  }

  /** `on x=0..1,y=0..1,z=0..1` lights 8 cells. */
  lemma SingleCubeOn()
    ensures Count([Cube(true, 0, 1, 0, 1, 0, 1)]) == 8
  {
    var c := Cube(true, 0, 1, 0, 1, 0, 1);
    EntriesOfOne(c);
    LitSumSnoc([], c);
  }

  /** The same cube switched on and then off leaves nothing lit. */
  lemma OnThenOffCancels()
    ensures Count([Cube(true, 0, 1, 0, 1, 0, 1), Cube(false, 0, 1, 0, 1, 0, 1)]) == 0
  {
    var c := Cube(true, 0, 1, 0, 1, 0, 1);
    OffCancelsOn([], c);
    assert [] + [c, c.(on := false)] == [c, c.(on := false)];
    assert [] + [c.(on := false)] == [c.(on := false)];
    EntriesOfOne(c.(on := false));
  }

  /** Two 10×10×10 cubes sharing a 5×5×5 corner: 1000 + 1000 - 125 cells. */
  lemma PartialOverlap()
    ensures Count([Cube(true, 0, 9, 0, 9, 0, 9), Cube(true, 5, 14, 5, 14, 5, 14)]) == 1875
  {
    var a, b := Cube(true, 0, 9, 0, 9, 0, 9), Cube(true, 5, 14, 5, 14, 5, 14);
    EntriesOfOne(a);
    EntriesOfTwo(a, b);
    var overlap := Intersection(a, b);
    assert overlap == Cube(false, 5, 9, 5, 9, 5, 9);
    assert NegatedOverlaps([a], b) == [overlap] by {
      assert [a][..0] == [];
    }
    var cs := [a] + ([overlap] + [b]);
    assert cs == [a, overlap, b];
    LitSumConcat([a], [overlap] + [b]);
    LitSumSnoc([], a);
    LitSumSnoc([overlap], b);
    LitSumSnoc([], overlap);
    assert [] + [a] == [a] && [] + [overlap] == [overlap];
  }

  /** Order matters: "on X" then "off Y" with Y inside X leaves X minus Y,
      while "off Y" first has nothing to switch off. */
  lemma OrderMatters(x: Cube, y: Cube)
    requires WellFormed(x) && WellFormed(y) && x.on && !y.on && Inside(y, x)
    ensures Count([x, y]) == Volume(x) - Volume(y)
    ensures Count([y, x]) == Volume(x)
  {
    EntriesOfOne(x);
    EntriesOfTwo(x, y);
    assert Intersection(x, y) == y;
    assert NegatedOverlaps([x], y) == [y] by {
      assert [x][..0] == [];
    }
    assert Entries([x, y]) == [x, y];
    LitSumSnoc([], x);
    LitSumSnoc([x], y);
    assert [] + [x] == [x] && [x] + [y] == [x, y];

    EntriesOfOne(y);
    EntriesOfTwo(y, x);
    assert Entries([y, x]) == [x];
  }

  /** A step entirely outside [-50, 50]³ counts only without trim. */
  lemma FarStepIsTrimmed()
    ensures Count(Trimmed([Cube(true, 100, 101, 0, 0, 0, 0)], true)) == 0
    ensures Count(Trimmed([Cube(true, 100, 101, 0, 0, 0, 0)], false)) == 2
  {
    var c := Cube(true, 100, 101, 0, 0, 0, 0);
    assert [c][..0] == [];
    assert Trimmed([c], true) == [];
    assert Trimmed([c], false) == [c];
    EntriesOfOne(c);
    LitSumSnoc([], c);
    assert [] + [c] == [c];
  }

  /** A step crossing the boundary of [-50, 50]³ is dropped whole with trim:
      the origin, which it lights and which lies in the region, is not
      counted. */
  lemma CrossingStepIsDroppedWhole()
    ensures Contains(TrimRegion, Point(0, 0, 0))
    ensures LitAfter([Cube(true, -60, 0, 0, 0, 0, 0)], Point(0, 0, 0))
    ensures Count(Trimmed([Cube(true, -60, 0, 0, 0, 0, 0)], true)) == 0
  {
    var c := Cube(true, -60, 0, 0, 0, 0, 0);
    assert [c][..0] == [];
    assert Trimmed([c], true) == [];
  }
}
