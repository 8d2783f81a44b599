/**
 * Vectors and axis-aligned bounding boxes, and the subdivision of a box into
 * its eight octants (subdivide_aabb in src/physics/collisions/utils/utils.rs).
 *
 * f32 components are modelled as `real`; bevy's `Vec3` and nalgebra's
 * `Point3` are both `Vec3` here, and parry's `Aabb` is the pair of its
 * corners `mins` and `maxs`.
 */
module Geometry {

  datatype Vec3 = Vec3(x: real, y: real, z: real)

  const Zero := Vec3(0.0, 0.0, 0.0)

  function Add(a: Vec3, b: Vec3): Vec3 { Vec3(a.x + b.x, a.y + b.y, a.z + b.z) }

  function Sub(a: Vec3, b: Vec3): Vec3 { Vec3(a.x - b.x, a.y - b.y, a.z - b.z) }

  function Scale(a: Vec3, k: real): Vec3 { Vec3(a.x * k, a.y * k, a.z * k) }

  function Dot(a: Vec3, b: Vec3): real { a.x * b.x + a.y * b.y + a.z * b.z }

  /** The squared length of a vector. */
  function NormSq(a: Vec3): real { Dot(a, a) }

  // Vector algebra used by the contact proofs. Products of scalars are passed
  // in as named values (`c == a * b`) so that callers never need the solver
  // to match a product inside a vector.

  lemma ScaleTwice(v: Vec3, a: real, b: real, c: real)
    requires c == a * b
    ensures Scale(Scale(v, a), b) == Scale(v, c)
  {
    assert v.x * a * b == v.x * c && v.y * a * b == v.y * c && v.z * a * b == v.z * c;
  }

  lemma ScaleFactors(v: Vec3, a: real, b: real, c: real)
    requires c == a + b
    ensures Add(Scale(v, a), Scale(v, b)) == Scale(v, c)
  {
    assert v.x * a + v.x * b == v.x * c && v.y * a + v.y * b == v.y * c && v.z * a + v.z * b == v.z * c;
  }

  lemma ScaleAdd(u: Vec3, v: Vec3, k: real)
    ensures Scale(Add(u, v), k) == Add(Scale(u, k), Scale(v, k))
  {
    assert (u.x + v.x) * k == u.x * k + v.x * k;
    assert (u.y + v.y) * k == u.y * k + v.y * k;
    assert (u.z + v.z) * k == u.z * k + v.z * k;
  }

  lemma ScaleSub(u: Vec3, v: Vec3, k: real)
    ensures Scale(Sub(u, v), k) == Sub(Scale(u, k), Scale(v, k))
  {
    assert (u.x - v.x) * k == u.x * k - v.x * k;
    assert (u.y - v.y) * k == u.y * k - v.y * k;
    assert (u.z - v.z) * k == u.z * k - v.z * k;
  }

  /** Along a unit vector `n`, adding `k n` adds `k` to the component along `n`. */
  lemma DotAddUnit(w: Vec3, n: Vec3, k: real)
    requires NormSq(n) == 1.0
    ensures Dot(Add(w, Scale(n, k)), n) == Dot(w, n) + k
  {
    var nn := n.x * n.x + n.y * n.y + n.z * n.z;
    assert (w.x + n.x * k) * n.x == w.x * n.x + k * (n.x * n.x);
    assert (w.y + n.y * k) * n.y == w.y * n.y + k * (n.y * n.y);
    assert (w.z + n.z * k) * n.z == w.z * n.z + k * (n.z * n.z);
    assert k * (n.x * n.x) + k * (n.y * n.y) + k * (n.z * n.z) == k * nn;
    assert nn == 1.0;
  }

  /** Along a unit vector `n`, removing `k n` takes `k` from the component along `n`. */
  lemma DotSubUnit(w: Vec3, n: Vec3, k: real)
    requires NormSq(n) == 1.0
    ensures Dot(Sub(w, Scale(n, k)), n) == Dot(w, n) - k
  {
    var nn := n.x * n.x + n.y * n.y + n.z * n.z;
    assert (w.x - n.x * k) * n.x == w.x * n.x - k * (n.x * n.x);
    assert (w.y - n.y * k) * n.y == w.y * n.y - k * (n.y * n.y);
    assert (w.z - n.z * k) * n.z == w.z * n.z - k * (n.z * n.z);
    assert k * (n.x * n.x) + k * (n.y * n.y) + k * (n.z * n.z) == k * nn;
    assert nn == 1.0;
  }

  /** parry's `Aabb`: the box spanned by the corners `mins` and `maxs`. */
  datatype Aabb = Aabb(mins: Vec3, maxs: Vec3)

  /** `Aabb::center`: the midpoint of the two corners. */
  function Center(b: Aabb): Vec3 { Scale(Add(b.mins, b.maxs), 0.5) }

  /** The corners are ordered on every axis. */
  predicate WellFormed(b: Aabb) {
    b.mins.x <= b.maxs.x && b.mins.y <= b.maxs.y && b.mins.z <= b.maxs.z
  }

  /** Closed containment of a point. */
  predicate ContainsPoint(b: Aabb, p: Vec3) {
    b.mins.x <= p.x <= b.maxs.x && b.mins.y <= p.y <= b.maxs.y && b.mins.z <= p.z <= b.maxs.z
  }

  /** The point lies strictly inside the box on every axis. */
  predicate StrictlyInside(b: Aabb, p: Vec3) {
    b.mins.x < p.x < b.maxs.x && b.mins.y < p.y < b.maxs.y && b.mins.z < p.z < b.maxs.z
  }

  /** `Aabb::contains`: `inner` lies within `outer`, boundaries included, on every axis. */
  predicate AabbContains(outer: Aabb, inner: Aabb) {
    && outer.mins.x <= inner.mins.x && outer.mins.y <= inner.mins.y && outer.mins.z <= inner.mins.z
    && inner.maxs.x <= outer.maxs.x && inner.maxs.y <= outer.maxs.y && inner.maxs.z <= outer.maxs.z
  }

  /** `Aabb::intersects`: the closed boxes overlap on every axis. */
  predicate AabbIntersects(a: Aabb, b: Aabb) {
    && a.mins.x <= b.maxs.x && b.mins.x <= a.maxs.x
    && a.mins.y <= b.maxs.y && b.mins.y <= a.maxs.y
    && a.mins.z <= b.maxs.z && b.mins.z <= a.maxs.z
  }

  /** Each coordinate of `c` is a coordinate of a corner of `o`. */
  predicate HasCorner(o: Aabb, c: Vec3) {
    && (c.x == o.mins.x || c.x == o.maxs.x)
    && (c.y == o.mins.y || c.y == o.maxs.y)
    && (c.z == o.mins.z || c.z == o.maxs.z)
  }

  /**
   * The octant numbering: octant `i` is on the high side of the center in x
   * when bit 0 of `i` is set, in z when bit 1 is set and in y when bit 2 is
   * set; on the low side it spans from the parent's minimum to the center,
   * on the high side from the center to the parent's maximum.
   */
  predicate OctantLayout(b: Aabb, i: int, o: Aabb) {
    var c := Center(b);
    && (if i % 2 == 1 then o.mins.x == c.x && o.maxs.x == b.maxs.x
        else o.mins.x == b.mins.x && o.maxs.x == c.x)
    && (if i >= 4 then o.mins.y == c.y && o.maxs.y == b.maxs.y
        else o.mins.y == b.mins.y && o.maxs.y == c.y)
    && (if (i / 2) % 2 == 1 then o.mins.z == c.z && o.maxs.z == b.maxs.z
        else o.mins.z == b.mins.z && o.maxs.z == c.z)
  }

  /** `subdivide_aabb`: the eight octants of a box, split at its center. */
  function SubdivideAabb(b: Aabb): (r: seq<Aabb>)
    ensures |r| == 8
    ensures r[0] == Aabb(b.mins, Center(b)) && r[7] == Aabb(Center(b), b.maxs)
    ensures forall i :: 0 <= i < 8 ==> OctantLayout(b, i, r[i])
  {
    var min, max, center := b.mins, b.maxs, Center(b);
    var r := [
      Aabb(min, center),
      Aabb(Vec3(center.x, min.y, min.z), Vec3(max.x, center.y, center.z)),
      Aabb(Vec3(min.x, min.y, center.z), Vec3(center.x, center.y, max.z)),
      Aabb(Vec3(center.x, min.y, center.z), Vec3(max.x, center.y, max.z)),
      Aabb(Vec3(min.x, center.y, min.z), Vec3(center.x, max.y, center.z)),
      Aabb(Vec3(center.x, center.y, min.z), Vec3(max.x, max.y, center.z)),
      Aabb(Vec3(min.x, center.y, center.z), Vec3(center.x, max.y, max.z)),
      Aabb(center, max)
    ];
    r
  }

  /**
   * For a well-formed box, every octant is well formed, lies inside the
   * parent and has the parent's center as one of its corners.
   */
  lemma OctantsInsideParent(b: Aabb, i: int)
    requires WellFormed(b) && 0 <= i < 8
    ensures WellFormed(SubdivideAabb(b)[i])
    ensures AabbContains(b, SubdivideAabb(b)[i])
    ensures HasCorner(SubdivideAabb(b)[i], Center(b))
  {
    assert OctantLayout(b, i, SubdivideAabb(b)[i]);
  }

  /** The octant whose sides of the center match those of `p`. */
  function OctantOf(b: Aabb, p: Vec3): (i: int)
    ensures 0 <= i < 8
  {
    var c := Center(b);
    (if p.x >= c.x then 1 else 0) + (if p.z >= c.z then 2 else 0) + (if p.y >= c.y then 4 else 0)
  }

  /**
   * The eight octants of a well-formed box cover exactly the box: a point
   * lies in the parent if and only if it lies in some octant.
   */
  lemma OctantsUnionIsParent(b: Aabb, p: Vec3)
    requires WellFormed(b)
    ensures ContainsPoint(b, p) <==> exists i :: 0 <= i < 8 && ContainsPoint(SubdivideAabb(b)[i], p)
  {
    var octants := SubdivideAabb(b);
    if ContainsPoint(b, p) {
      var i := OctantOf(b, p);
      assert OctantLayout(b, i, octants[i]);
      assert ContainsPoint(octants[i], p);
    }
    if exists i :: 0 <= i < 8 && ContainsPoint(octants[i], p) {
      var i :| 0 <= i < 8 && ContainsPoint(octants[i], p);
      OctantsInsideParent(b, i);
    }
  }

  /** Two different octants share at most a boundary: no point is strictly inside both. */
  lemma OctantInteriorsDisjoint(b: Aabb, i: int, j: int, p: Vec3)
    requires 0 <= i < 8 && 0 <= j < 8 && i != j
    ensures !(StrictlyInside(SubdivideAabb(b)[i], p) && StrictlyInside(SubdivideAabb(b)[j], p))
  {
    var octants := SubdivideAabb(b);
    assert OctantLayout(b, i, octants[i]) && OctantLayout(b, j, octants[j]);
    assert i == i % 2 + 2 * ((i / 2) % 2) + (if i >= 4 then 4 else 0);
    assert j == j % 2 + 2 * ((j / 2) % 2) + (if j >= 4 then 4 else 0);
  }
}
