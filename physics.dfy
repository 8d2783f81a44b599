/**
 * Bodies and the integrator of src/physics/physics.rs: the `RigidBody`,
 * `Velocity` and `Mass` components, the constants, and the systems
 * `apply_gravity` and `apply_velocity`.
 */
module Physics {
  import opened Wrappers
  import opened Geometry

  datatype RigidBody = Static | Dynamic

  /** The rotation of a bevy `Transform`; only the shape queries read it. */
  datatype Quat = Quat(x: real, y: real, z: real, w: real)

  /** A `Collider` component, by an opaque handle on its parry shape. */
  datatype Collider = Collider(shape: nat)

  /**
   * The components of one entity that the physics systems read or write:
   * its transform, its kind, the optional `Velocity` and `Mass`, and the
   * `Collider` (absent while a mesh collider has not been built).
   */
  datatype Body = Body(
    translation: Vec3,
    rotation: Quat,
    rigidBody: RigidBody,
    velocity: Option<Vec3>,
    mass: Option<real>,
    collider: Option<Collider>)

  const UPDATE_FREQUENCY: real := 30.0
  const GRAVITY: real := 9.8
  const DELTA: real := 1.0 / UPDATE_FREQUENCY
  const TERMINAL_VELOCITY: real := 100.0

  /**
   * The simulated world: every entity's body, indexed by entity, the `Chunk`
   * component of the entities that have one, and the process-wide chunk
   * counter that the octree bumps while it is built.
   */
  class World {
    var bodies: seq<Body>
    var chunks: map<nat, seq<int>>
    var chunkNumber: int
  }

  function Max(a: real, b: real): real { if a >= b then a else b }

  /**
   * What `apply_gravity` does to one body. Its query holds the bodies with
   * both a velocity and a mass; of those, a dynamic body's vertical velocity
   * drops by `mass / GRAVITY` and is then clamped at `-TERMINAL_VELOCITY`.
   */
  function GravityStep(b: Body): (r: Body)
    ensures b.rigidBody.Static? || b.velocity.None? || b.mass.None? ==> r == b
    ensures b.rigidBody.Dynamic? && b.velocity.Some? && b.mass.Some? ==>
      var v, fallen := b.velocity.value, b.velocity.value.y - b.mass.value / GRAVITY;
      && r.velocity.Some?
      && r == b.(velocity := r.velocity)
      && r.velocity.value.x == v.x && r.velocity.value.z == v.z
      && r.velocity.value.y >= -TERMINAL_VELOCITY
      && (fallen > -TERMINAL_VELOCITY ==> r.velocity.value.y == fallen)
      && (fallen <= -TERMINAL_VELOCITY ==> r.velocity.value.y == -TERMINAL_VELOCITY)
      && (v.y > -TERMINAL_VELOCITY && b.mass.value > 0.0 ==> r.velocity.value.y < v.y)
  {
    if b.rigidBody.Dynamic? && b.velocity.Some? && b.mass.Some? then
      var v := b.velocity.value;
      b.(velocity := Some(v.(y := Max(v.y - b.mass.value / GRAVITY, -TERMINAL_VELOCITY))))
    else b
  }

  /**
   * What `apply_velocity` does to one body. Its query holds the bodies with a
   * velocity; a dynamic one moves by `velocity * DELTA`, nothing else changes.
   */
  function VelocityStep(b: Body): (r: Body)
    ensures b.rigidBody.Static? || b.velocity.None? ==> r == b
    ensures b.rigidBody.Dynamic? && b.velocity.Some? ==>
      && r == b.(translation := r.translation)
      && Sub(r.translation, b.translation) == Scale(b.velocity.value, DELTA)
  {
    if b.rigidBody.Dynamic? && b.velocity.Some? then
      b.(translation := Add(b.translation, Scale(b.velocity.value, DELTA)))
    else b
  }

  /** `apply_gravity`: every body in place, in order. */
  method ApplyGravity(world: World)
    modifies world`bodies
    ensures |world.bodies| == |old(world.bodies)|
    ensures forall i :: 0 <= i < |world.bodies| ==> world.bodies[i] == GravityStep(old(world.bodies[i]))
  {
    var i := 0;
    while i < |world.bodies|
      invariant 0 <= i <= |world.bodies| == |old(world.bodies)|
      invariant forall j :: 0 <= j < i ==> world.bodies[j] == GravityStep(old(world.bodies[j]))
      invariant forall j :: i <= j < |world.bodies| ==> world.bodies[j] == old(world.bodies[j])
    {
      var body := world.bodies[i];
      if body.velocity.Some? && body.mass.Some? {
        match body.rigidBody
        case Static =>
        case Dynamic =>
          var velocity := body.velocity.value;
          velocity := velocity.(y := velocity.y - body.mass.value / GRAVITY);
          if velocity.y <= -TERMINAL_VELOCITY {
            velocity := velocity.(y := -TERMINAL_VELOCITY);
          }
          world.bodies := world.bodies[i := body.(velocity := Some(velocity))];
      }
      i := i + 1;
    }
  }

  /** `apply_velocity`: every body in place, in order. */
  method ApplyVelocity(world: World)
    modifies world`bodies
    ensures |world.bodies| == |old(world.bodies)|
    ensures forall i :: 0 <= i < |world.bodies| ==> world.bodies[i] == VelocityStep(old(world.bodies[i]))
  {
    var i := 0;
    while i < |world.bodies|
      invariant 0 <= i <= |world.bodies| == |old(world.bodies)|
      invariant forall j :: 0 <= j < i ==> world.bodies[j] == VelocityStep(old(world.bodies[j]))
      invariant forall j :: i <= j < |world.bodies| ==> world.bodies[j] == old(world.bodies[j])
    {
      var body := world.bodies[i];
      if body.velocity.Some? {
        match body.rigidBody
        case Static =>
        case Dynamic =>
          var translation := body.translation;
          translation := Add(translation, Scale(body.velocity.value, DELTA));
          world.bodies := world.bodies[i := body.(translation := translation)];
      }
      i := i + 1;
    }
  }

  /** A body after `k` runs of `apply_gravity`. */
  function Fall(b: Body, k: nat): Body {
    if k == 0 then b else GravityStep(Fall(b, k - 1))
  }

  /**
   * Repeated gravity on a dynamic body that starts at or above terminal
   * speed: after `k` ticks its vertical velocity is its start value less
   * `k * mass / GRAVITY`, but never below `-TERMINAL_VELOCITY`; nothing
   * else about the body changes.
   */
  lemma {:induction false} FallVelocity(b: Body, k: nat)
    requires b.rigidBody.Dynamic? && b.velocity.Some? && b.mass.Some?
    requires b.mass.value >= 0.0 && b.velocity.value.y >= -TERMINAL_VELOCITY
    ensures Fall(b, k) == b.(velocity := Some(b.velocity.value.(y :=
      Max(b.velocity.value.y - k as real * b.mass.value / GRAVITY, -TERMINAL_VELOCITY))))
  {
    FallDrop(b, k);
    DropIsProduct(b.mass.value, k);
    assert Drop(b.mass.value, k) == k as real * b.mass.value / GRAVITY;
    assert b.velocity.value.y - Drop(b.mass.value, k) == b.velocity.value.y - k as real * b.mass.value / GRAVITY;
  }

  /** The total fall of `k` updates of `m / GRAVITY` each. */
  function Drop(m: real, k: nat): real {
    if k == 0 then 0.0 else Drop(m, k - 1) + m / GRAVITY
  }

  /** `Drop` in closed form. */
  lemma {:induction false} DropIsProduct(m: real, k: nat)
    ensures Drop(m, k) == k as real * m / GRAVITY
  {
    if k > 0 {
      DropIsProduct(m, k - 1);
      FallStep(k, m);
    }
  }

  /** `FallVelocity` with the total fall left as `Drop`. */
  lemma {:induction false} FallDrop(b: Body, k: nat)
    requires b.rigidBody.Dynamic? && b.velocity.Some? && b.mass.Some?
    requires b.mass.value >= 0.0 && b.velocity.value.y >= -TERMINAL_VELOCITY
    ensures Fall(b, k) == b.(velocity := Some(b.velocity.value.(y :=
      Max(b.velocity.value.y - Drop(b.mass.value, k), -TERMINAL_VELOCITY))))
  {
    if k > 0 {
      var before := b.velocity.value.y - Drop(b.mass.value, k - 1);
      var yp := Max(before, -TERMINAL_VELOCITY);
      FallDrop(b, k - 1);
      GravityOnVelocity(b, yp);
      ClampTwice(before, b.mass.value / GRAVITY);
    }
  }

  /**
   * Once `k * mass / GRAVITY` covers the distance from the start velocity to
   * `-TERMINAL_VELOCITY`, the body falls at exactly terminal velocity.
   */
  lemma FallReachesTerminal(b: Body, k: nat)
    requires b.rigidBody.Dynamic? && b.velocity.Some? && b.mass.Some?
    requires b.mass.value >= 0.0 && b.velocity.value.y >= -TERMINAL_VELOCITY
    requires k as real * b.mass.value / GRAVITY >= b.velocity.value.y + TERMINAL_VELOCITY
    ensures Fall(b, k) == b.(velocity := Some(b.velocity.value.(y := -TERMINAL_VELOCITY)))
  {
    FallVelocity(b, k);
  }

  /** One gravity update of `b` with vertical velocity `y`. */
  lemma GravityOnVelocity(b: Body, y: real)
    requires b.rigidBody.Dynamic? && b.velocity.Some? && b.mass.Some?
    ensures GravityStep(b.(velocity := Some(b.velocity.value.(y := y)))) ==
      b.(velocity := Some(b.velocity.value.(y := Max(y - b.mass.value / GRAVITY, -TERMINAL_VELOCITY))))
  {
  }

  /** One more update lowers the unclamped velocity by one more `m / GRAVITY`. */
  lemma FallStep(k: nat, m: real)
    requires k > 0
    ensures k as real * m / GRAVITY == (k - 1) as real * m / GRAVITY + m / GRAVITY
  {
    assert k as real * m == (k - 1) as real * m + m;
  }

  /** Clamping, falling by `d >= 0` and clamping again is falling and clamping once. */
  lemma ClampTwice(y: real, d: real)
    requires d >= 0.0
    ensures Max(Max(y, -TERMINAL_VELOCITY) - d, -TERMINAL_VELOCITY) == Max(y - d, -TERMINAL_VELOCITY)
  {
  }
}
