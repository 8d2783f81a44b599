/**
 * `PhysicsPlugin` of src/physics/physics.rs: each fixed update runs
 * `apply_gravity`, `apply_velocity`, `broad_phase` and `narrow_phase`, in
 * that order. The fixed 30 Hz schedule itself is not modelled; `Tick` is one
 * of its updates.
 */
module PhysicsPlugin {
  import opened Geometry
  import opened Physics
  import opened Collisions

  /** Kind, mass and collider of a body, which no system changes. */
  predicate SameKind(b: Body, b': Body) {
    b'.rigidBody == b.rigidBody && b'.mass == b.mass && b'.collider == b.collider
      && b'.velocity.Some? == b.velocity.Some?
  }

  /** Every body after `apply_gravity` and then `apply_velocity`. */
  function Integrated(bodies: seq<Body>): seq<Body> {
    seq(|bodies|, i requires 0 <= i < |bodies| => VelocityStep(GravityStep(bodies[i])))
  }

  /**
   * One fixed update: the integrated bodies go through the narrow phase over
   * the chunks the broad phase leaves. Hence a static body does not move; a
   * body without a collider, and every body when no other body has a
   * collider, is only integrated.
   */
  method Tick(world: World, queries: ShapeQueries)
    requires forall i :: 0 <= i < |world.bodies| && world.bodies[i].collider.Some? ==> Resolvable(world.bodies[i])
    modifies world
    ensures |world.bodies| == |old(world.bodies)|
    ensures world.chunkNumber == 0
    ensures forall e: nat :: e in world.chunks <==>
      e in old(world.chunks) || (e < |world.bodies| && world.bodies[e].collider.Some?)
    ensures forall e: nat :: e in world.chunks ==>
      world.chunks[e] == if e < |world.bodies| && world.bodies[e].collider.Some? then [0] else old(world.chunks)[e]
    ensures QueriedResolvable(Integrated(old(world.bodies)), world.chunks)
    ensures world.bodies == NarrowAll(Integrated(old(world.bodies)), world.chunks, queries)
    ensures forall i :: 0 <= i < |world.bodies| ==> SameKind(old(world.bodies[i]), world.bodies[i])
    ensures forall i :: 0 <= i < |world.bodies| && old(world.bodies[i]).rigidBody.Static? ==>
      world.bodies[i] == old(world.bodies[i])
    ensures forall i :: 0 <= i < |world.bodies| && old(world.bodies[i]).collider.None? ==>
      world.bodies[i] == VelocityStep(GravityStep(old(world.bodies[i])))
    ensures (forall i, j :: 0 <= i < j < |world.bodies| ==> old(world.bodies[i]).collider.None? || old(world.bodies[j]).collider.None?) ==>
      forall i :: 0 <= i < |world.bodies| ==> world.bodies[i] == VelocityStep(GravityStep(old(world.bodies[i])))
  {
    ApplyGravity(world);
    ApplyVelocity(world);
    assert world.bodies == Integrated(old(world.bodies));
    BroadPhase(world, queries);
    TickOutcome(old(world.bodies), world.chunks, queries);
    NarrowPhase(world, queries);
  }

  /**
   * What one fixed update leaves: kinds, masses and colliders are kept, a
   * static body does not move, a body without a collider is only
   * integrated, and so is every body when at most one has a collider.
   */
  lemma TickOutcome(b0: seq<Body>, chunks: map<nat, seq<int>>, queries: ShapeQueries)
    requires forall i :: 0 <= i < |b0| && b0[i].collider.Some? ==> Resolvable(b0[i])
    ensures QueriedResolvable(Integrated(b0), chunks)
    ensures var r := NarrowAll(Integrated(b0), chunks, queries);
      && |r| == |b0|
      && (forall i :: 0 <= i < |r| ==> SameKind(b0[i], r[i]))
      && (forall i :: 0 <= i < |r| && b0[i].rigidBody.Static? ==> r[i] == b0[i])
      && (forall i :: 0 <= i < |r| && b0[i].collider.None? ==> r[i] == VelocityStep(GravityStep(b0[i])))
      && ((forall i, j :: 0 <= i < j < |r| ==> b0[i].collider.None? || b0[j].collider.None?) ==>
            r == Integrated(b0))
  {
    var integrated := Integrated(b0);
    assert forall i :: 0 <= i < |b0| ==> SameKind(b0[i], integrated[i]);
    NarrowAllFrame(integrated, chunks, queries);
    var r := NarrowAll(integrated, chunks, queries);
    forall i | 0 <= i < |r| && b0[i].collider.None?
      ensures r[i] == integrated[i]
    {
      assert !HasChunkPartner(integrated, chunks, i);
    }
    if forall i, j :: 0 <= i < j < |r| ==> b0[i].collider.None? || b0[j].collider.None? {
      forall i | 0 <= i < |r|
        ensures r[i] == integrated[i]
      {
        assert !HasChunkPartner(integrated, chunks, i) by {
          forall j: nat | j < |integrated| && j != i && InNarrowQuery(integrated, chunks, j)
            ensures integrated[i].collider.None?
          {
            if i < j {} else {}
          }
        }
      }
    }
  }
}
