/** An explicit listing of the cells of a box, and the number of listed cells
    that fall inside a cube. This is the yardstick against which the signed
    volumes of the ledger are measured: it lets a count of cells be stated
    without enumerating anything at run time. */
module Cells {
  import opened Geometry

  /** The cells (x, y, zLo) .. (x, y, zHi), in increasing z. */
  function Column(x: int, y: int, zLo: int, zHi: int): (ps: seq<Point>)
    decreases zHi - zLo
  {
    if zHi < zLo then [] else Column(x, y, zLo, zHi - 1) + [Point(x, y, zHi)]
  }

  /** The cells of the plane x, with y in yLo..yHi and z in zLo..zHi. */
  function Slab(x: int, yLo: int, yHi: int, zLo: int, zHi: int): (ps: seq<Point>)
    decreases yHi - yLo
  {
    if yHi < yLo then [] else Slab(x, yLo, yHi - 1, zLo, zHi) + Column(x, yHi, zLo, zHi)
  }

  /** The cells with x in xLo..xHi, y in yLo..yHi and z in zLo..zHi. */
  function Block(xLo: int, xHi: int, yLo: int, yHi: int, zLo: int, zHi: int): (ps: seq<Point>)
    decreases xHi - xLo
  {
    if xHi < xLo then [] else Block(xLo, xHi - 1, yLo, yHi, zLo, zHi) + Slab(xHi, yLo, yHi, zLo, zHi)
  }

  /** Every cell within the bounds of `u`. */
  function CellsOf(u: Cube): seq<Point>
  {
    Block(u.xMin, u.xMax, u.yMin, u.yMax, u.zMin, u.zMax)
  }

  /** How many entries of `ps` lie in `c`. */
  function CountIn(c: Cube, ps: seq<Point>): nat
  {
    if ps == [] then 0
    else CountIn(c, ps[..|ps| - 1]) + (if Contains(c, ps[|ps| - 1]) then 1 else 0)
  }

  /** The number of integers t with a <= t <= b and lo <= t <= hi. */
  function Span(a: int, b: int, lo: int, hi: int): (n: nat)
  {
    var first, last := Max(a, lo), Min(b, hi);
    if first <= last then last - first + 1 else 0
  }

  lemma {:induction false} CountInConcat(c: Cube, ps: seq<Point>, qs: seq<Point>)
    ensures CountIn(c, ps + qs) == CountIn(c, ps) + CountIn(c, qs)
    decreases |qs|
  {
    if qs == [] {
      assert ps + qs == ps;
    } else {
      var qs' := qs[..|qs| - 1];
      assert (ps + qs)[..|ps + qs| - 1] == ps + qs';
      assert (ps + qs)[|ps + qs| - 1] == qs[|qs| - 1];
      CountInConcat(c, ps, qs');
    }
  }

  /** Extending the range lo..hi-1 by hi adds one exactly when a <= hi <= b. */
  lemma SpanStep(a: int, b: int, lo: int, hi: int)
    requires lo <= hi
    ensures Span(a, b, lo, hi) == Span(a, b, lo, hi - 1) + (if a <= hi <= b then 1 else 0)
  {
  }

  lemma {:induction false} CountInColumn(c: Cube, x: int, y: int, zLo: int, zHi: int)
    ensures CountIn(c, Column(x, y, zLo, zHi)) ==
      if c.xMin <= x <= c.xMax && c.yMin <= y <= c.yMax then Span(c.zMin, c.zMax, zLo, zHi) else 0
    decreases zHi - zLo
  {
    if zLo <= zHi {
      CountInColumn(c, x, y, zLo, zHi - 1);
      CountInConcat(c, Column(x, y, zLo, zHi - 1), [Point(x, y, zHi)]);
      assert CountIn(c, [Point(x, y, zHi)]) == if Contains(c, Point(x, y, zHi)) then 1 else 0 by {
        assert [Point(x, y, zHi)][..0] == [];
      }
      SpanStep(c.zMin, c.zMax, zLo, zHi);
    }
  }

  lemma {:induction false} CountInSlab(c: Cube, x: int, yLo: int, yHi: int, zLo: int, zHi: int)
    ensures CountIn(c, Slab(x, yLo, yHi, zLo, zHi)) ==
      if c.xMin <= x <= c.xMax then Span(c.yMin, c.yMax, yLo, yHi) * Span(c.zMin, c.zMax, zLo, zHi) else 0
    decreases yHi - yLo
  {
    if yLo <= yHi {
      var front, last := Slab(x, yLo, yHi - 1, zLo, zHi), Column(x, yHi, zLo, zHi);
      CountInSlab(c, x, yLo, yHi - 1, zLo, zHi);
      CountInConcat(c, front, last);
      CountInColumn(c, x, yHi, zLo, zHi);
      SpanStep(c.yMin, c.yMax, yLo, yHi);
      var inX, inY := c.xMin <= x <= c.xMax, c.yMin <= yHi <= c.yMax;
      var sz := Span(c.zMin, c.zMax, zLo, zHi);
      AddRow(inX, inY, Span(c.yMin, c.yMax, yLo, yHi - 1), Span(c.yMin, c.yMax, yLo, yHi), sz,
             CountIn(c, front), CountIn(c, last));
    } else {
      assert Slab(x, yLo, yHi, zLo, zHi) == [];
    }
  }

  /** The arithmetic of adding one row of k cells to a count of n rows. */
  lemma AddRow(inA: bool, inB: bool, n: int, n': int, k: int, front: int, last: int)
    requires n' == n + (if inB then 1 else 0)
    requires front == (if inA then n * k else 0)
    requires last == (if inA && inB then k else 0)
    ensures front + last == (if inA then n' * k else 0)
  {
    if inA && inB {
      assert n' * k == n * k + k;
    }
  }

  lemma MulAssoc(a: int, b: int, k: int)
    ensures a * (b * k) == a * b * k
  {
  }

  lemma {:induction false} CountInBlock(c: Cube, xLo: int, xHi: int, yLo: int, yHi: int, zLo: int, zHi: int)
    ensures CountIn(c, Block(xLo, xHi, yLo, yHi, zLo, zHi)) ==
      Span(c.xMin, c.xMax, xLo, xHi) * (Span(c.yMin, c.yMax, yLo, yHi) * Span(c.zMin, c.zMax, zLo, zHi))
    decreases xHi - xLo
  {
    if xLo <= xHi {
      var front, last := Block(xLo, xHi - 1, yLo, yHi, zLo, zHi), Slab(xHi, yLo, yHi, zLo, zHi);
      CountInBlock(c, xLo, xHi - 1, yLo, yHi, zLo, zHi);
      CountInConcat(c, front, last);
      CountInSlab(c, xHi, yLo, yHi, zLo, zHi);
      SpanStep(c.xMin, c.xMax, xLo, xHi);
      var syz := Span(c.yMin, c.yMax, yLo, yHi) * Span(c.zMin, c.zMax, zLo, zHi);
      AddRow(true, c.xMin <= xHi <= c.xMax, Span(c.xMin, c.xMax, xLo, xHi - 1), Span(c.xMin, c.xMax, xLo, xHi), syz,
             CountIn(c, front), CountIn(c, last));
    } else {
      assert Block(xLo, xHi, yLo, yHi, zLo, zHi) == [];
    }
  }

  /** A well-formed cube inside `u` has exactly Volume(c) of u's cells: the
      volume counts cells. */
  lemma CountInCellsOf(c: Cube, u: Cube)
    requires WellFormed(c) && Inside(c, u)
    ensures CountIn(c, CellsOf(u)) == Volume(c)
  {
    CountInBlock(c, u.xMin, u.xMax, u.yMin, u.yMax, u.zMin, u.zMax);
    var dx, dy, dz := c.xMax - c.xMin + 1, c.yMax - c.yMin + 1, c.zMax - c.zMin + 1;
    assert Span(c.xMin, c.xMax, u.xMin, u.xMax) == dx;
    assert Span(c.yMin, c.yMax, u.yMin, u.yMax) == dy;
    assert Span(c.zMin, c.zMax, u.zMin, u.zMax) == dz;
    assert Volume(c) == dx * dy * dz;
    MulAssoc(dx, dy, dz);
  }

  /** The single cell at `p`, as a cube. */
  function UnitCube(p: Point): (c: Cube)
    ensures WellFormed(c) && Contains(c, p)
  {
    Cube(true, p.x, p.x, p.y, p.y, p.z, p.z)
  }

  /** CellsOf(u) lists each cell of u exactly once, and no cell outside u. */
  lemma CellsOfListsEachCellOnce(u: Cube, p: Point)
    ensures CountIn(UnitCube(p), CellsOf(u)) == if Contains(u, p) then 1 else 0
  {
    CountInBlock(UnitCube(p), u.xMin, u.xMax, u.yMin, u.yMax, u.zMin, u.zMax);
  }

  /** A cube holding a listed cell counts it at least once. */
  lemma {:induction false} CountInListed(c: Cube, ps: seq<Point>, i: nat)
    requires i < |ps| && Contains(c, ps[i])
    ensures CountIn(c, ps) >= 1
  {
    if i < |ps| - 1 {
      CountInListed(c, ps[..|ps| - 1], i);
    }
  }

  /** Every cell CellsOf(u) lists lies in u. */
  lemma CellsOfInside(u: Cube)
    ensures forall i :: 0 <= i < |CellsOf(u)| ==> Contains(u, CellsOf(u)[i])
  {
    var ps := CellsOf(u);
    forall i | 0 <= i < |ps|
      ensures Contains(u, ps[i])
    {
      CountInListed(UnitCube(ps[i]), ps, i);
      CellsOfListsEachCellOnce(u, ps[i]);
    }
  }
}
