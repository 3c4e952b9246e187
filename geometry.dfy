/** Cuboid geometry of the reactor: the `Cube` record of day22/main.go and the
    pure operations on it (`overlaps`, `intersection`, `lit`, `min`, `max`). */
module Geometry {

  /** A unit cell of 3-D integer space. */
  datatype Point = Point(x: int, y: int, z: int)

  /** A reboot step, or an entry of the reactor's ledger: an on/off flag and
      inclusive bounds on each axis. In a ledger entry the flag is a sign. */
  datatype Cube = Cube(on: bool, xMin: int, xMax: int, yMin: int, yMax: int, zMin: int, zMax: int)

  /** Go's zero value `Cube{}`: an "off" single cell at the origin. */
  const ZeroCube := Cube(false, 0, 0, 0, 0, 0, 0)

  /** Bounds in order on every axis; the source assumes this of its input. */
  predicate WellFormed(c: Cube)
  {
    c.xMin <= c.xMax && c.yMin <= c.yMax && c.zMin <= c.zMax
  }

  /** The cell `p` lies within the bounds of `c` (the flag plays no part). */
  predicate Contains(c: Cube, p: Point)
  {
    c.xMin <= p.x <= c.xMax && c.yMin <= p.y <= c.yMax && c.zMin <= p.z <= c.zMax
  }

  /** The bounds of `inner` lie within those of `outer`. */
  predicate Inside(inner: Cube, outer: Cube)
  {
    outer.xMin <= inner.xMin && inner.xMax <= outer.xMax &&
    outer.yMin <= inner.yMin && inner.yMax <= outer.yMax &&
    outer.zMin <= inner.zMin && inner.zMax <= outer.zMax
  }

  function Max(a: int, b: int): (r: int)
    ensures r >= a && r >= b && (r == a || r == b)
  {
    if a > b then a else b
  }

  function Min(a: int, b: int): (r: int)
    ensures r <= a && r <= b && (r == a || r == b)
  {
    if a < b then a else b
  }

  /** `c.overlaps(other)`: the inclusive ranges meet on all three axes. */
  predicate Overlaps(c: Cube, other: Cube)
  {
    (other.xMax >= c.xMin && other.xMin <= c.xMax) &&
    (other.yMax >= c.yMin && other.yMin <= c.yMax) &&
    (other.zMax >= c.zMin && other.zMin <= c.zMax)
  }

  lemma OverlapsSymmetric(a: Cube, b: Cube)
    ensures Overlaps(a, b) == Overlaps(b, a)
  {
  }

  /** For well-formed cubes, overlapping means sharing at least one cell. */
  lemma OverlapsIffSharedCell(a: Cube, b: Cube)
    requires WellFormed(a) && WellFormed(b)
    ensures Overlaps(a, b) <==> exists p :: Contains(a, p) && Contains(b, p)
  {
    if Overlaps(a, b) {
      var p := Point(Max(a.xMin, b.xMin), Max(a.yMin, b.yMin), Max(a.zMin, b.zMin));
      assert Contains(a, p) && Contains(b, p);
    }
  }

  /** `c.intersection(other)`: the common box, signed with the negation of the
      receiver's flag; the zero cube when the two do not overlap. */
  function Intersection(c: Cube, other: Cube): (r: Cube)
    ensures !Overlaps(c, other) ==> r == ZeroCube
    ensures Overlaps(c, other) ==> r.on == !c.on
    ensures Overlaps(c, other) && WellFormed(c) && WellFormed(other) ==>
      WellFormed(r) && Inside(r, c) && Inside(r, other)
    ensures Overlaps(c, other) ==>
      forall p :: Contains(r, p) <==> Contains(c, p) && Contains(other, p)
  {
    if !Overlaps(c, other) then
      ZeroCube
    else
      Cube(!c.on,
           Max(c.xMin, other.xMin), Min(c.xMax, other.xMax),
           Max(c.yMin, other.yMin), Min(c.yMax, other.yMax),
           Max(c.zMin, other.zMin), Min(c.zMax, other.zMax))
  }

  /** The zero cube is a real "off" cell at the origin, not an empty box:
      its signed volume is -1. */
  lemma ZeroCubeIsOffCellAtOrigin()
    ensures WellFormed(ZeroCube) && !ZeroCube.on
    ensures forall p :: Contains(ZeroCube, p) <==> p == Point(0, 0, 0)
    ensures Lit(ZeroCube) == -1
  {
  }

  /** The intersection is the largest box inside both cubes. */
  lemma IntersectionIsLargestCommonBox(c: Cube, other: Cube, b: Cube)
    requires Overlaps(c, other)
    requires Inside(b, c) && Inside(b, other)
    ensures Inside(b, Intersection(c, other))
  {
  }

  /** The sign of an intersection depends on the receiver only. */
  lemma IntersectionSignIgnoresOther(c: Cube, other: Cube)
    ensures Intersection(c, other) == Intersection(c, other.(on := !other.on))
  {
  }

  /** The unsigned number of cells spanned, Π(max - min + 1). */
  function Volume(c: Cube): (v: int)
    ensures WellFormed(c) ==> v >= 1
  {
    var dx, dy, dz := c.xMax - c.xMin + 1, c.yMax - c.yMin + 1, c.zMax - c.zMin + 1;
    assert dx >= 1 && dy >= 1 ==> dx * dy >= 1;
    assert dx * dy >= 1 && dz >= 1 ==> dx * dy * dz >= 1;
    dx * dy * dz
  }

  /** +1 for an "on" entry, -1 for an "off" one. */
  function Sign(c: Cube): int
  {
    if c.on then 1 else -1
  }

  /** `c.lit()`: the signed volume. */
  function Lit(c: Cube): (r: int)
    ensures WellFormed(c) ==> (r > 0 <==> c.on) && r != 0
  {
    var volume := Volume(c);
    if c.on then volume else -volume
  }
}
