/**
 * Broad and narrow phase and contact resolution of
 * src/physics/collisions/collisions.rs.
 *
 * The parry queries the code calls (`compute_aabb`, `intersection_test`,
 * `contact`) are not modelled: they arrive as a `ShapeQueries` record of
 * functions of the bodies involved. Bevy's queries over entities become a
 * walk over `World.bodies` in index order.
 */
module Collisions {
  import opened Wrappers
  import opened Geometry
  import opened Physics
  import Octree

  const MAX_ENTITIES: nat := 50
  const MAX_DEPTH: nat := 5
  const TOLERANCE: real := 0.0
  const RESTITUTION: real := 0.3

  /** The root box `broad_phase` builds its octree over. */
  const WORLD_BOUNDS := Aabb(Vec3(-50.0, -50.0, -50.0), Vec3(50.0, 50.0, 50.0))

  /**
   * parry's `Contact`, as far as resolution reads it: the normal on each
   * body and the signed distance (negative when penetrating).
   */
  datatype Contact = Contact(normal1: Vec3, normal2: Vec3, dist: real)

  /**
   * The parry queries on a body's shape under its transform: its AABB,
   * `intersection_test` (false also when parry reports an error) and
   * `contact` with tolerance 0 (`None` also when parry reports an error).
   */
  datatype ShapeQueries = ShapeQueries(
    computeAabb: Body -> Aabb,
    intersectionTest: (Body, Body) -> bool,
    contact: (Body, Body) -> Option<Contact>)

  /**
   * The chunk filter of `narrow_phase`: some chunk of the second list is in
   * the first one.
   */
  function ChunksOverlap(chunk1: seq<int>, chunk2: seq<int>): (r: bool)
    ensures r <==> exists c :: c in chunk1 && c in chunk2
    decreases |chunk2|
  {
    if chunk2 == [] then false
    else
      assert forall c :: c in chunk2 <==> c == chunk2[0] || c in chunk2[1..];
      chunk2[0] in chunk1 || ChunksOverlap(chunk1, chunk2[1..])
  }

  /**
   * `broad_phase`: reset the chunk counter, build a fresh octree over
   * `WORLD_BOUNDS` and insert every entity that has a collider, clearing its
   * chunk list first. With nothing ever stored in a node no split happens,
   * so every such entity ends in the root's chunk 0 and the counter stays 0.
   */
  method BroadPhase(world: World, queries: ShapeQueries)
    modifies world`chunks, world`chunkNumber
    ensures world.chunkNumber == 0
    ensures forall e: nat :: e in world.chunks <==>
      e in old(world.chunks) || (e < |world.bodies| && world.bodies[e].collider.Some?)
    ensures forall e: nat :: e in world.chunks ==>
      world.chunks[e] == if e < |world.bodies| && world.bodies[e].collider.Some? then [0] else old(world.chunks)[e]
  {
    var octree := new Octree.Octree(WORLD_BOUNDS, world.chunkNumber, world.chunks);
    octree.chunkNumber := 0;
    var e := 0;
    while e < |world.bodies|
      invariant 0 <= e <= |world.bodies|
      invariant octree.Valid() && octree.nodes == [Octree.Leaf(WORLD_BOUNDS, 0)] && octree.chunkNumber == 0
      invariant forall x: nat :: x in octree.chunks <==>
        x in old(world.chunks) || (x < e && world.bodies[x].collider.Some?)
      invariant forall x: nat :: x in octree.chunks ==>
        octree.chunks[x] == if x < e && world.bodies[x].collider.Some? then [0] else old(world.chunks)[x]
    {
      var body := world.bodies[e];
      if body.collider.Some? {
        var physicsEntity := Octree.PhysicsEntity(e, queries.computeAabb(body));
        if e in octree.chunks {
          octree.chunks := octree.chunks[e := []];
        }
        octree.Insert(0, physicsEntity, MAX_ENTITIES, MAX_DEPTH);
      }
      e := e + 1;
    }
    world.chunks := octree.chunks;
    world.chunkNumber := octree.chunkNumber;
  }

  /**
   * The one-body correction of `separate_objects` along normal `n`: nothing
   * when the distance exceeds `TOLERANCE`; otherwise the translation moves
   * by `n * -dist`, and a velocity that points against `n` loses
   * `(1 + RESTITUTION)` times its component along `n`.
   */
  ghost predicate ObjectSeparated(t: Vec3, v: Vec3, dist: real, n: Vec3, t': Vec3, v': Vec3) {
    if dist > TOLERANCE then t' == t && v' == v
    else
      && Sub(t', t) == Scale(n, -dist)
      && if Dot(v, n) < 0.0 then v' == Sub(v, Scale(n, (1.0 + RESTITUTION) * Dot(v, n))) else v' == v
  }

  /**
   * The two-body correction of `separate_dynamic` along normal `n`: nothing
   * when the distance exceeds `TOLERANCE`; otherwise the separation
   * `s = n * -dist` is shared, body 1 moving by `-s * m2 / (m1 + m2)` and
   * body 2 by `s * m1 / (m1 + m2)`; when the bodies approach along `n` an
   * impulse `j` changes their velocities by `-j / m1` and `j / m2` along `n`.
   */
  ghost predicate PairSeparated(
    t1: Vec3, v1: Vec3, m1: real, t2: Vec3, v2: Vec3, m2: real, dist: real, n: Vec3,
    t1': Vec3, v1': Vec3, t2': Vec3, v2': Vec3)
    requires m1 > 0.0 && m2 > 0.0
  {
    if dist > TOLERANCE then t1' == t1 && v1' == v1 && t2' == t2 && v2' == v2
    else
      var s, total := Scale(n, -dist), m1 + m2;
      var approach := Dot(Sub(v2, v1), n);
      && t1' == Sub(t1, Scale(s, m2 / total))
      && t2' == Add(t2, Scale(s, m1 / total))
      && if approach >= 0.0 then v1' == v1 && v2' == v2
         else
           var j := -(1.0 + RESTITUTION) * approach / (1.0 / m1 + 1.0 / m2);
           v1' == Sub(v1, Scale(n, j / m1)) && v2' == Add(v2, Scale(n, j / m2))
  }

  /** The one-body correction as a value: the only pair `ObjectSeparated` admits. */
  function ObjectSeparation(t: Vec3, v: Vec3, dist: real, n: Vec3): (r: (Vec3, Vec3))
    ensures ObjectSeparated(t, v, dist, n, r.0, r.1)
  {
    if dist > TOLERANCE then (t, v)
    else
      var d := Dot(v, n);
      (Add(t, Scale(n, -dist)), if d < 0.0 then Sub(v, Scale(n, (1.0 + RESTITUTION) * d)) else v)
  }

  /** `ObjectSeparated` determines its result. */
  lemma ObjectSeparatedUnique(t: Vec3, v: Vec3, dist: real, n: Vec3, t': Vec3, v': Vec3)
    requires ObjectSeparated(t, v, dist, n, t', v')
    ensures (t', v') == ObjectSeparation(t, v, dist, n)
  {
    if dist <= TOLERANCE {
      var s := Scale(n, -dist);
      assert t'.x == t.x + s.x && t'.y == t.y + s.y && t'.z == t.z + s.z;
    }
  }

  /** The two-body correction as a value: the only quadruple `PairSeparated` admits. */
  function PairSeparation(t1: Vec3, v1: Vec3, m1: real, t2: Vec3, v2: Vec3, m2: real, dist: real, n: Vec3)
    : (r: (Vec3, Vec3, Vec3, Vec3))
    requires m1 > 0.0 && m2 > 0.0
    ensures PairSeparated(t1, v1, m1, t2, v2, m2, dist, n, r.0, r.1, r.2, r.3)
  {
    if dist > TOLERANCE then (t1, v1, t2, v2)
    else
      var s, total := Scale(n, -dist), m1 + m2;
      var approach := Dot(Sub(v2, v1), n);
      var t1', t2' := Sub(t1, Scale(s, m2 / total)), Add(t2, Scale(s, m1 / total));
      if approach >= 0.0 then (t1', v1, t2', v2)
      else
        var j := -(1.0 + RESTITUTION) * approach / (1.0 / m1 + 1.0 / m2);
        (t1', Sub(v1, Scale(n, j / m1)), t2', Add(v2, Scale(n, j / m2)))
  }

  /** `PairSeparated` determines its result. */
  lemma PairSeparatedUnique(
    t1: Vec3, v1: Vec3, m1: real, t2: Vec3, v2: Vec3, m2: real, dist: real, n: Vec3,
    t1': Vec3, v1': Vec3, t2': Vec3, v2': Vec3)
    requires m1 > 0.0 && m2 > 0.0
    requires PairSeparated(t1, v1, m1, t2, v2, m2, dist, n, t1', v1', t2', v2')
    ensures (t1', v1', t2', v2') == PairSeparation(t1, v1, m1, t2, v2, m2, dist, n)
  {
  }

  /** `separate_objects`: entity 1 is pushed along `normal2`, any other along `normal1`. */
  method SeparateObjects(translation: Vec3, velocity: Vec3, contact: Contact, entity: int)
    returns (translation': Vec3, velocity': Vec3)
    ensures ObjectSeparated(translation, velocity, contact.dist,
      if entity == 1 then contact.normal2 else contact.normal1, translation', velocity')
  {
    translation', velocity' := translation, velocity;
    if contact.dist > TOLERANCE {
      return;
    }
    var normal := if entity == 1 then contact.normal2 else contact.normal1;
    var separation := Scale(normal, -contact.dist);
    translation' := Add(translation', separation);
    var normalVelocity := Dot(velocity', normal);
    if normalVelocity < 0.0 {
      var impulse := (1.0 + RESTITUTION) * normalVelocity;
      velocity' := Sub(velocity', Scale(normal, impulse));
    }
  }

  /** `separate_dynamic`: both bodies along `normal1`. */
  method SeparateDynamic(
    translation1: Vec3, velocity1: Vec3, mass1: real,
    translation2: Vec3, velocity2: Vec3, mass2: real,
    contact: Contact)
    returns (translation1': Vec3, velocity1': Vec3, translation2': Vec3, velocity2': Vec3)
    requires mass1 > 0.0 && mass2 > 0.0
    ensures PairSeparated(translation1, velocity1, mass1, translation2, velocity2, mass2, contact.dist, contact.normal1,
      translation1', velocity1', translation2', velocity2')
  {
    translation1', velocity1', translation2', velocity2' := translation1, velocity1, translation2, velocity2;
    if contact.dist > TOLERANCE {
      return;
    }
    var normal := contact.normal1;
    var separation := Scale(normal, -contact.dist);
    var totalMass := mass1 + mass2;
    translation1' := Sub(translation1', Scale(separation, mass2 / totalMass));
    translation2' := Add(translation2', Scale(separation, mass1 / totalMass));
    var relativeVelocity := Sub(velocity2', velocity1');
    var normalVelocity := Dot(relativeVelocity, normal);
    if normalVelocity >= 0.0 {
      return;
    }
    var impulse := -(1.0 + RESTITUTION) * normalVelocity / (1.0 / mass1 + 1.0 / mass2);
    velocity1' := Sub(velocity1', Scale(normal, impulse / mass1));
    velocity2' := Add(velocity2', Scale(normal, impulse / mass2));
  }

  /**
   * A one-body correction along a unit normal pushes the body out by the
   * penetration depth and leaves it not moving into the contact: a velocity
   * that pointed into it keeps its tangential part and has its normal
   * component reflected and damped by `RESTITUTION`.
   */
  lemma ObjectSeparationReflects(t: Vec3, v: Vec3, dist: real, n: Vec3, t': Vec3, v': Vec3)
    requires NormSq(n) == 1.0 && dist <= TOLERANCE
    requires ObjectSeparated(t, v, dist, n, t', v')
    ensures Dot(Sub(t', t), n) == -dist
    ensures Dot(v', n) >= 0.0
    ensures Dot(v, n) < 0.0 ==> Dot(v', n) == -RESTITUTION * Dot(v, n)
    ensures Sub(v', Scale(n, Dot(v', n))) == Sub(v, Scale(n, Dot(v, n)))
  {
    DotAddUnit(Zero, n, -dist);
    assert Add(Zero, Scale(n, -dist)) == Sub(t', t);
    var d := Dot(v, n);
    if d < 0.0 {
      var c := (1.0 + RESTITUTION) * d;
      DotSubUnit(v, n, c);
      var d' := Dot(v', n);
      assert d' == d - c;
      ScaleFactors(n, c, d', d);
      assert Sub(v', Scale(n, d')) == Sub(v, Add(Scale(n, c), Scale(n, d')));
    }
  }

  /** The arguments of a two-body correction that has an effect. */
  ghost predicate PairPenetrating(
    t1: Vec3, v1: Vec3, m1: real, t2: Vec3, v2: Vec3, m2: real, dist: real, n: Vec3,
    t1': Vec3, v1': Vec3, t2': Vec3, v2': Vec3)
  {
    && m1 > 0.0 && m2 > 0.0 && dist <= TOLERANCE
    && PairSeparated(t1, v1, m1, t2, v2, m2, dist, n, t1', v1', t2', v2')
  }

  /** The shares `a = m2 / (m1 + m2)` and `b = m1 / (m1 + m2)` of the separation, and the mass ratio `r = m2 / m1`. */
  lemma MassShares(m1: real, m2: real, a: real, b: real, r: real)
    requires m1 > 0.0 && m2 > 0.0
    requires a == m2 / (m1 + m2) && b == m1 / (m1 + m2) && r == m2 / m1
    ensures a + b == 1.0 && a * m1 == b * m2 && b * r == a
    ensures m1 < m2 ==> r > 1.0
  {
    var total := m1 + m2;
    assert a * total == m2 && b * total == m1 && r * m1 == m2;
    assert (a + b) * total == a * total + b * total;
    assert (a * m1 - b * m2) * total == a * total * m1 - b * total * m2;
    assert (b * r - a) * total == b * total * r - a * total;
    if m1 < m2 {
      assert (r - 1.0) * m1 == m2 - m1;
    }
  }

  /** The impulse shares `q1 = j / m1` and `q2 = j / m2`, with `inv = 1/m1 + 1/m2`. */
  lemma ImpulseShares(j: real, m1: real, m2: real, q1: real, q2: real, inv: real)
    requires m1 > 0.0 && m2 > 0.0
    requires q1 == j / m1 && q2 == j / m2 && inv == 1.0 / m1 + 1.0 / m2
    ensures q1 * m1 == j && q2 * m2 == j && q1 + q2 == j * inv && inv > 0.0
  {
    var p1, p2 := 1.0 / m1, 1.0 / m2;
    assert p1 * m1 == 1.0 && p2 * m2 == 1.0;
    assert p1 > 0.0 && p2 > 0.0;
    assert (q1 - j * p1) * m1 == q1 * m1 - j * (p1 * m1);
    assert (q2 - j * p2) * m2 == q2 * m2 - j * (p2 * m2);
  }

  /** The displacements of a two-body correction, as shares of the separation `s = n * -dist`. */
  lemma PairDisplacements(
    t1: Vec3, v1: Vec3, m1: real, t2: Vec3, v2: Vec3, m2: real, dist: real, n: Vec3,
    t1': Vec3, v1': Vec3, t2': Vec3, v2': Vec3)
    requires PairPenetrating(t1, v1, m1, t2, v2, m2, dist, n, t1', v1', t2', v2')
    ensures Sub(t1, t1') == Scale(Scale(n, -dist), m2 / (m1 + m2))
    ensures Sub(t2', t2) == Scale(Scale(n, -dist), m1 / (m1 + m2))
  {
  }

  /** A two-body correction moves the bodies apart by the whole separation `n * -dist`. */
  lemma PairSeparationWidensGap(
    t1: Vec3, v1: Vec3, m1: real, t2: Vec3, v2: Vec3, m2: real, dist: real, n: Vec3,
    t1': Vec3, v1': Vec3, t2': Vec3, v2': Vec3)
    requires PairPenetrating(t1, v1, m1, t2, v2, m2, dist, n, t1', v1', t2', v2')
    ensures Sub(Sub(t2', t1'), Sub(t2, t1)) == Scale(n, -dist)
  {
    var s := Scale(n, -dist);
    var a, b := m2 / (m1 + m2), m1 / (m1 + m2);
    MassShares(m1, m2, a, b, m2 / m1);
    PairDisplacements(t1, v1, m1, t2, v2, m2, dist, n, t1', v1', t2', v2');
    ScaleFactors(s, b, a, 1.0);
    assert Sub(Sub(t2', t1'), Sub(t2, t1)) == Add(Sub(t2', t2), Sub(t1, t1'));
  }

  /**
   * The two displacements of a two-body correction are opposite and in the
   * inverse ratio of the masses, so the lighter body is moved further.
   */
  lemma PairSeparationMovesLighterMore(
    t1: Vec3, v1: Vec3, m1: real, t2: Vec3, v2: Vec3, m2: real, dist: real, n: Vec3,
    t1': Vec3, v1': Vec3, t2': Vec3, v2': Vec3)
    requires PairPenetrating(t1, v1, m1, t2, v2, m2, dist, n, t1', v1', t2', v2')
    ensures Sub(t1, t1') == Scale(Sub(t2', t2), m2 / m1)
    ensures m1 < m2 ==> m2 / m1 > 1.0
  {
    var s := Scale(n, -dist);
    var a, b, r := m2 / (m1 + m2), m1 / (m1 + m2), m2 / m1;
    MassShares(m1, m2, a, b, r);
    PairDisplacements(t1, v1, m1, t2, v2, m2, dist, n, t1', v1', t2', v2');
    ScaleTwice(s, b, r, a);
  }

  /**
   * A two-body correction keeps the bodies' mass-weighted centre where it
   * was: `m1` times body 1's displacement balances `m2` times body 2's.
   */
  lemma PairSeparationKeepsCentre(
    t1: Vec3, v1: Vec3, m1: real, t2: Vec3, v2: Vec3, m2: real, dist: real, n: Vec3,
    t1': Vec3, v1': Vec3, t2': Vec3, v2': Vec3)
    requires PairPenetrating(t1, v1, m1, t2, v2, m2, dist, n, t1', v1', t2', v2')
    ensures Scale(Sub(t1, t1'), m1) == Scale(Sub(t2', t2), m2)
  {
    var s := Scale(n, -dist);
    var a, b := m2 / (m1 + m2), m1 / (m1 + m2);
    MassShares(m1, m2, a, b, m2 / m1);
    PairDisplacements(t1, v1, m1, t2, v2, m2, dist, n, t1', v1', t2', v2');
    var c := a * m1;
    ScaleTwice(s, a, m1, c);
    ScaleTwice(s, b, m2, c);
  }

  /** A two-body correction conserves momentum. */
  lemma PairSeparationConservesMomentum(
    t1: Vec3, v1: Vec3, m1: real, t2: Vec3, v2: Vec3, m2: real, dist: real, n: Vec3,
    t1': Vec3, v1': Vec3, t2': Vec3, v2': Vec3)
    requires PairPenetrating(t1, v1, m1, t2, v2, m2, dist, n, t1', v1', t2', v2')
    ensures Add(Scale(v1', m1), Scale(v2', m2)) == Add(Scale(v1, m1), Scale(v2, m2))
  {
    var approach := Dot(Sub(v2, v1), n);
    if approach < 0.0 {
      var j := -(1.0 + RESTITUTION) * approach / (1.0 / m1 + 1.0 / m2);
      var q1, q2 := j / m1, j / m2;
      ImpulseShares(j, m1, m2, q1, q2, 1.0 / m1 + 1.0 / m2);
      ScaleSub(v1, Scale(n, q1), m1);
      ScaleAdd(v2, Scale(n, q2), m2);
      ScaleTwice(n, q1, m1, j);
      ScaleTwice(n, q2, m2, j);
      assert Scale(v1', m1) == Sub(Scale(v1, m1), Scale(n, j));
      assert Scale(v2', m2) == Add(Scale(v2, m2), Scale(n, j));
    }
  }

  /**
   * When two bodies approach along a unit normal, their relative normal
   * velocity is reflected and damped by `RESTITUTION`, so afterwards they
   * are no longer approaching.
   */
  lemma PairSeparationReflects(
    t1: Vec3, v1: Vec3, m1: real, t2: Vec3, v2: Vec3, m2: real, dist: real, n: Vec3,
    t1': Vec3, v1': Vec3, t2': Vec3, v2': Vec3)
    requires PairPenetrating(t1, v1, m1, t2, v2, m2, dist, n, t1', v1', t2', v2')
    requires NormSq(n) == 1.0
    ensures Dot(Sub(v2', v1'), n) >= 0.0
    ensures Dot(Sub(v2, v1), n) < 0.0 ==> Dot(Sub(v2', v1'), n) == -RESTITUTION * Dot(Sub(v2, v1), n)
  {
    var approach := Dot(Sub(v2, v1), n);
    if approach < 0.0 {
      var inv := 1.0 / m1 + 1.0 / m2;
      var x := -(1.0 + RESTITUTION) * approach;
      var j := x / inv;
      var q1, q2 := j / m1, j / m2;
      ImpulseShares(j, m1, m2, q1, q2, inv);
      assert j * inv == x;
      ScaleFactors(n, q1, q2, x);
      assert Sub(v2', v1') == Add(Sub(v2, v1), Scale(n, x));
      DotAddUnit(Sub(v2, v1), n, x);
    }
  }

  /**
   * The `unwrap`s of `contact_handling`: a dynamic body must have a velocity,
   * and when both are dynamic both need a mass (positive here, see README).
   */
  predicate CanHandle(b1: Body, b2: Body) {
    && (b1.rigidBody.Dynamic? ==> b1.velocity.Some?)
    && (b2.rigidBody.Dynamic? ==> b2.velocity.Some?)
    && (b1.rigidBody.Dynamic? && b2.rigidBody.Dynamic? ==>
          b1.mass.Some? && b2.mass.Some? && b1.mass.value > 0.0 && b2.mass.value > 0.0)
  }

  /** The outcome of `contact_handling`, by the kinds of the two bodies. */
  ghost predicate ContactHandled(contact: Contact, b1: Body, b2: Body, b1': Body, b2': Body)
    requires CanHandle(b1, b2)
  {
    match (b1.rigidBody, b2.rigidBody)
    case (Static, Static) => b1' == b1 && b2' == b2
    case (Static, Dynamic) =>
      && b1' == b1 && SameButMotion(b2, b2')
      && ObjectSeparated(b2.translation, b2.velocity.value, contact.dist, contact.normal1, b2'.translation, b2'.velocity.value)
    case (Dynamic, Static) =>
      && b2' == b2 && SameButMotion(b1, b1')
      && ObjectSeparated(b1.translation, b1.velocity.value, contact.dist, contact.normal2, b1'.translation, b1'.velocity.value)
    case (Dynamic, Dynamic) =>
      && SameButMotion(b1, b1') && SameButMotion(b2, b2')
      && PairSeparated(
           b1.translation, b1.velocity.value, b1.mass.value, b2.translation, b2.velocity.value, b2.mass.value,
           contact.dist, contact.normal1, b1'.translation, b1'.velocity.value, b2'.translation, b2'.velocity.value)
  }

  /** `contact_handling` as a value: the two bodies after the contact is handled. */
  function Handled(contact: Contact, b1: Body, b2: Body): (r: (Body, Body))
    requires CanHandle(b1, b2)
    ensures ContactHandled(contact, b1, b2, r.0, r.1)
  {
    match (b1.rigidBody, b2.rigidBody)
    case (Static, Static) => (b1, b2)
    case (Static, Dynamic) =>
      var s := ObjectSeparation(b2.translation, b2.velocity.value, contact.dist, contact.normal1);
      (b1, b2.(translation := s.0, velocity := Some(s.1)))
    case (Dynamic, Static) =>
      var s := ObjectSeparation(b1.translation, b1.velocity.value, contact.dist, contact.normal2);
      (b1.(translation := s.0, velocity := Some(s.1)), b2)
    case (Dynamic, Dynamic) =>
      var s := PairSeparation(
        b1.translation, b1.velocity.value, b1.mass.value,
        b2.translation, b2.velocity.value, b2.mass.value, contact.dist, contact.normal1);
      (b1.(translation := s.0, velocity := Some(s.1)), b2.(translation := s.2, velocity := Some(s.3)))
  }

  /** `ContactHandled` determines both bodies: they are the ones `Handled` gives. */
  lemma ContactHandledUnique(contact: Contact, b1: Body, b2: Body, b1': Body, b2': Body)
    requires CanHandle(b1, b2) && ContactHandled(contact, b1, b2, b1', b2')
    ensures (b1', b2') == Handled(contact, b1, b2)
  {
    match (b1.rigidBody, b2.rigidBody) {
      case (Static, Static) =>
      case (Static, Dynamic) =>
        ObjectSeparatedUnique(b2.translation, b2.velocity.value, contact.dist, contact.normal1,
          b2'.translation, b2'.velocity.value);
      case (Dynamic, Static) =>
        ObjectSeparatedUnique(b1.translation, b1.velocity.value, contact.dist, contact.normal2,
          b1'.translation, b1'.velocity.value);
      case (Dynamic, Dynamic) =>
        PairSeparatedUnique(
          b1.translation, b1.velocity.value, b1.mass.value, b2.translation, b2.velocity.value, b2.mass.value,
          contact.dist, contact.normal1, b1'.translation, b1'.velocity.value, b2'.translation, b2'.velocity.value);
    }
  }

  /** `contact_handling`: dispatch on the kinds of the two bodies. */
  method ContactHandling(contact: Contact, b1: Body, b2: Body) returns (b1': Body, b2': Body)
    requires CanHandle(b1, b2)
    ensures ContactHandled(contact, b1, b2, b1', b2')
    ensures b1.rigidBody.Static? ==> b1' == b1
    ensures b2.rigidBody.Static? ==> b2' == b2
  {
    b1', b2' := b1, b2;
    match (b1.rigidBody, b2.rigidBody)
    case (Static, Static) =>
    case (Static, Dynamic) =>
      var t, v := SeparateObjects(b2.translation, b2.velocity.value, contact, 2);
      b2' := b2.(translation := t, velocity := Some(v));
    case (Dynamic, Static) =>
      var t, v := SeparateObjects(b1.translation, b1.velocity.value, contact, 1);
      b1' := b1.(translation := t, velocity := Some(v));
    case (Dynamic, Dynamic) =>
      var t1, v1, t2, v2 := SeparateDynamic(
        b1.translation, b1.velocity.value, b1.mass.value,
        b2.translation, b2.velocity.value, b2.mass.value, contact);
      b1' := b1.(translation := t1, velocity := Some(v1));
      b2' := b2.(translation := t2, velocity := Some(v2));
  }

  /** `collision_check`: resolve the pair when parry reports a contact. */
  method CollisionCheck(queries: ShapeQueries, b1: Body, b2: Body) returns (b1': Body, b2': Body)
    requires CanHandle(b1, b2)
    ensures queries.contact(b1, b2).None? ==> b1' == b1 && b2' == b2
    ensures queries.contact(b1, b2).Some? ==> ContactHandled(queries.contact(b1, b2).value, b1, b2, b1', b2')
    ensures b1.rigidBody.Static? ==> b1' == b1
    ensures b2.rigidBody.Static? ==> b2' == b2
  {
    b1', b2' := b1, b2;
    var contact := queries.contact(b1, b2);
    match contact
    case Some(c) =>
      b1', b2' := ContactHandling(c, b1, b2);
    case None =>
  }

  /**
   * One pair of `narrow_phase` as a value: the contact is handled only when
   * the chunk lists share a chunk, the AABBs intersect, the shapes intersect
   * and parry reports a contact; otherwise both bodies stay as they were.
   */
  function Resolved(queries: ShapeQueries, chunk1: seq<int>, chunk2: seq<int>, b1: Body, b2: Body): (r: (Body, Body))
    requires CanHandle(b1, b2)
    ensures SameButMotion(b1, r.0) && SameButMotion(b2, r.1)
    ensures b1.rigidBody.Static? ==> r.0 == b1
    ensures b2.rigidBody.Static? ==> r.1 == b2
    ensures !ChunksOverlap(chunk1, chunk2) ==> r == (b1, b2)
  {
    if && ChunksOverlap(chunk1, chunk2)
       && AabbIntersects(queries.computeAabb(b1), queries.computeAabb(b2))
       && queries.intersectionTest(b1, b2)
       && queries.contact(b1, b2).Some?
    then Handled(queries.contact(b1, b2).value, b1, b2)
    else (b1, b2)
  }

  /**
   * One pair of `narrow_phase`: only when the chunk lists share a chunk, the
   * AABBs intersect and the shapes intersect is the contact resolved.
   */
  method ResolvePair(queries: ShapeQueries, chunk1: seq<int>, chunk2: seq<int>, b1: Body, b2: Body)
    returns (b1': Body, b2': Body)
    requires CanHandle(b1, b2)
    ensures !ChunksOverlap(chunk1, chunk2) ==> b1' == b1 && b2' == b2
    ensures !AabbIntersects(queries.computeAabb(b1), queries.computeAabb(b2)) ==> b1' == b1 && b2' == b2
    ensures !queries.intersectionTest(b1, b2) ==> b1' == b1 && b2' == b2
    ensures queries.contact(b1, b2).None? ==> b1' == b1 && b2' == b2
    ensures
      && ChunksOverlap(chunk1, chunk2)
      && AabbIntersects(queries.computeAabb(b1), queries.computeAabb(b2))
      && queries.intersectionTest(b1, b2)
      && queries.contact(b1, b2).Some?
      ==> ContactHandled(queries.contact(b1, b2).value, b1, b2, b1', b2')
    ensures b1.rigidBody.Static? ==> b1' == b1
    ensures b2.rigidBody.Static? ==> b2' == b2
    ensures (b1', b2') == Resolved(queries, chunk1, chunk2, b1, b2)
  {
    b1', b2' := b1, b2;
    if ChunksOverlap(chunk1, chunk2) {
      var aabb1 := queries.computeAabb(b1);
      var aabb2 := queries.computeAabb(b2);
      if AabbIntersects(aabb1, aabb2) {
        if queries.intersectionTest(b1, b2) {
          b1', b2' := CollisionCheck(queries, b1, b2);
          if queries.contact(b1, b2).Some? {
            ContactHandledUnique(queries.contact(b1, b2).value, b1, b2, b1', b2');
          }
        }
      }
    }
  }

  /** The entities `narrow_phase` queries: those with a `Chunk` and a `Collider`. */
  predicate InNarrowQuery(bodies: seq<Body>, chunks: map<nat, seq<int>>, i: nat)
    requires i < |bodies|
  {
    i in chunks && bodies[i].collider.Some?
  }

  /** Entity `i` shares a chunk with another queried entity. */
  ghost predicate HasChunkPartner(bodies: seq<Body>, chunks: map<nat, seq<int>>, i: nat)
    requires i < |bodies|
  {
    && InNarrowQuery(bodies, chunks, i)
    && exists j: nat :: j < |bodies| && j != i && InNarrowQuery(bodies, chunks, j) && ChunksOverlap(chunks[i], chunks[j])
  }

  /** A dynamic body has a velocity and a positive mass. */
  predicate Resolvable(b: Body) {
    b.rigidBody.Dynamic? ==> b.velocity.Some? && b.mass.Some? && b.mass.value > 0.0
  }

  /** Every queried entity can be resolved against any other. */
  predicate QueriedResolvable(bodies: seq<Body>, chunks: map<nat, seq<int>>) {
    forall i :: 0 <= i < |bodies| && InNarrowQuery(bodies, chunks, i) ==> Resolvable(bodies[i])
  }

  /** `b'` keeps everything of `b` but its translation and velocity, and a velocity if it had one. */
  ghost predicate SameButMotion(b: Body, b': Body) {
    b' == b.(translation := b'.translation, velocity := b'.velocity) && b'.velocity.Some? == b.velocity.Some?
  }

  /** Pair `(i, j)` of `narrow_phase`: resolved when both entities are in its query. */
  function NarrowStep(bodies: seq<Body>, chunks: map<nat, seq<int>>, queries: ShapeQueries, i: nat, j: nat)
    : (r: seq<Body>)
    requires i < j < |bodies| && QueriedResolvable(bodies, chunks)
    ensures |r| == |bodies| && QueriedResolvable(r, chunks)
    ensures forall k :: 0 <= k < |r| ==> SameButMotion(bodies[k], r[k])
    ensures forall k :: 0 <= k < |r| && bodies[k].rigidBody.Static? ==> r[k] == bodies[k]
    ensures forall k :: 0 <= k < |r| && r[k] != bodies[k] ==>
      && (k == i || k == j)
      && InNarrowQuery(bodies, chunks, i) && InNarrowQuery(bodies, chunks, j)
      && ChunksOverlap(chunks[i], chunks[j])
  {
    if InNarrowQuery(bodies, chunks, i) && InNarrowQuery(bodies, chunks, j) then
      var p := Resolved(queries, chunks[i], chunks[j], bodies[i], bodies[j]);
      bodies[i := p.0][j := p.1]
    else bodies
  }

  /** The pairs `(i, j)`, `(i, j + 1)`, ..., `(i, n - 1)`, in that order, each seeing the bodies the previous one left. */
  function NarrowRow(bodies: seq<Body>, chunks: map<nat, seq<int>>, queries: ShapeQueries, i: nat, j: nat)
    : (r: seq<Body>)
    requires i < j <= |bodies| && QueriedResolvable(bodies, chunks)
    ensures |r| == |bodies| && QueriedResolvable(r, chunks)
    decreases |bodies| - j
  {
    if j == |bodies| then bodies
    else NarrowRow(NarrowStep(bodies, chunks, queries, i, j), chunks, queries, i, j + 1)
  }

  /** The rows `i`, `i + 1`, ..., `n - 1` of pairs, in that order. */
  function NarrowRows(bodies: seq<Body>, chunks: map<nat, seq<int>>, queries: ShapeQueries, i: nat)
    : (r: seq<Body>)
    requires i <= |bodies| && QueriedResolvable(bodies, chunks)
    ensures |r| == |bodies| && QueriedResolvable(r, chunks)
    decreases |bodies| - i
  {
    if i == |bodies| then bodies
    else NarrowRows(NarrowRow(bodies, chunks, queries, i, i + 1), chunks, queries, i + 1)
  }

  /**
   * What `narrow_phase` leaves: every pair `(i, j)` with `i < j`, in
   * lexicographic order (the order of bevy's `iter_combinations_mut`), each
   * pair seeing the bodies as the earlier pairs left them.
   */
  function NarrowAll(bodies: seq<Body>, chunks: map<nat, seq<int>>, queries: ShapeQueries): seq<Body>
    requires QueriedResolvable(bodies, chunks)
  {
    NarrowRows(bodies, chunks, queries, 0)
  }

  /**
   * `b` is `b0` after some pairs were resolved: no body changes but in its
   * motion, and a static body or one without a chunk partner not at all.
   */
  ghost predicate Evolved(b0: seq<Body>, b: seq<Body>, chunks: map<nat, seq<int>>) {
    && |b| == |b0|
    && (forall k :: 0 <= k < |b| ==> SameButMotion(b0[k], b[k]))
    && (forall k :: 0 <= k < |b| && b0[k].rigidBody.Static? ==> b[k] == b0[k])
    && (forall k :: 0 <= k < |b| && !HasChunkPartner(b0, chunks, k) ==> b[k] == b0[k])
  }

  lemma StepEvolves(
    b0: seq<Body>, b: seq<Body>, chunks: map<nat, seq<int>>, queries: ShapeQueries, i: nat, j: nat)
    requires i < j < |b| && QueriedResolvable(b, chunks) && Evolved(b0, b, chunks)
    ensures Evolved(b0, NarrowStep(b, chunks, queries, i, j), chunks)
  {
    var r := NarrowStep(b, chunks, queries, i, j);
    forall k | 0 <= k < |r| && r[k] != b[k]
      ensures HasChunkPartner(b0, chunks, k)
    {
      assert InNarrowQuery(b0, chunks, i) && InNarrowQuery(b0, chunks, j);
      var c :| c in chunks[i] && c in chunks[j];
      assert ChunksOverlap(chunks[j], chunks[i]);
      if k == i {
        assert HasChunkPartner(b0, chunks, i);
      } else {
        assert HasChunkPartner(b0, chunks, j);
      }
    }
  }

  lemma {:induction false} RowEvolves(
    b0: seq<Body>, b: seq<Body>, chunks: map<nat, seq<int>>, queries: ShapeQueries, i: nat, j: nat)
    requires i < j <= |b| && QueriedResolvable(b, chunks) && Evolved(b0, b, chunks)
    ensures Evolved(b0, NarrowRow(b, chunks, queries, i, j), chunks)
    decreases |b| - j
  {
    if j < |b| {
      StepEvolves(b0, b, chunks, queries, i, j);
      RowEvolves(b0, NarrowStep(b, chunks, queries, i, j), chunks, queries, i, j + 1);
    }
  }

  lemma {:induction false} RowsEvolves(
    b0: seq<Body>, b: seq<Body>, chunks: map<nat, seq<int>>, queries: ShapeQueries, i: nat)
    requires i <= |b| && QueriedResolvable(b, chunks) && Evolved(b0, b, chunks)
    ensures Evolved(b0, NarrowRows(b, chunks, queries, i), chunks)
    decreases |b| - i
  {
    if i < |b| {
      RowEvolves(b0, b, chunks, queries, i, i + 1);
      RowsEvolves(b0, NarrowRow(b, chunks, queries, i, i + 1), chunks, queries, i + 1);
    }
  }

  /**
   * The narrow phase changes no body but in its translation and velocity,
   * and leaves alone every static body, every entity outside its query and
   * every entity that shares no chunk with another queried one.
   */
  lemma NarrowAllFrame(bodies: seq<Body>, chunks: map<nat, seq<int>>, queries: ShapeQueries)
    requires QueriedResolvable(bodies, chunks)
    ensures Evolved(bodies, NarrowAll(bodies, chunks, queries), chunks)
  {
    RowsEvolves(bodies, bodies, chunks, queries, 0);
  }

  /** With two queried entities the narrow phase is their one pair. */
  lemma NarrowTwo(bodies: seq<Body>, chunks: map<nat, seq<int>>, queries: ShapeQueries)
    requires |bodies| == 2 && QueriedResolvable(bodies, chunks)
    requires InNarrowQuery(bodies, chunks, 0) && InNarrowQuery(bodies, chunks, 1)
    ensures var p := Resolved(queries, chunks[0], chunks[1], bodies[0], bodies[1]);
      NarrowAll(bodies, chunks, queries) == [p.0, p.1]
  {
    var r := NarrowStep(bodies, chunks, queries, 0, 1);
    assert NarrowRow(bodies, chunks, queries, 0, 1) == r;
    assert NarrowRow(r, chunks, queries, 1, 2) == r;
    assert NarrowRows(r, chunks, queries, 1) == r;
  }

  /** One turn of `narrow_phase`'s loop: pair `(i, j)`, when both entities are in its query. */
  method NarrowPair(world: World, queries: ShapeQueries, i: nat, j: nat)
    requires i < j < |world.bodies| && QueriedResolvable(world.bodies, world.chunks)
    modifies world`bodies
    ensures world.bodies == NarrowStep(old(world.bodies), world.chunks, queries, i, j)
  {
    if InNarrowQuery(world.bodies, world.chunks, i) && InNarrowQuery(world.bodies, world.chunks, j) {
      var b1, b2 := ResolvePair(queries, world.chunks[i], world.chunks[j], world.bodies[i], world.bodies[j]);
      world.bodies := world.bodies[i := b1][j := b2];
    }
  }

  /**
   * `narrow_phase`: every unordered pair of queried entities, in order, each
   * pair seeing the bodies as earlier pairs left them.
   */
  method NarrowPhase(world: World, queries: ShapeQueries)
    requires QueriedResolvable(world.bodies, world.chunks)
    modifies world`bodies
    ensures world.bodies == NarrowAll(old(world.bodies), world.chunks, queries)
  {
    ghost var bodies0 := world.bodies;
    var n := |world.bodies|;
    var i := 0;
    while i < n
      invariant 0 <= i <= n == |world.bodies|
      invariant QueriedResolvable(world.bodies, world.chunks)
      invariant NarrowRows(world.bodies, world.chunks, queries, i) == NarrowAll(bodies0, world.chunks, queries)
    {
      var j := i + 1;
      while j < n
        invariant i + 1 <= j <= n == |world.bodies|
        invariant QueriedResolvable(world.bodies, world.chunks)
        invariant NarrowRows(NarrowRow(world.bodies, world.chunks, queries, i, j), world.chunks, queries, i + 1)
          == NarrowAll(bodies0, world.chunks, queries)
      {
        NarrowPair(world, queries, i, j);
        j := j + 1;
      }
      i := i + 1;
    }
  }
}
