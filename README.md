# bevy-physics-engine collision core, modelled in Dafny

This project models the physics core of a small Bevy physics engine. Each fixed update of `PhysicsPlugin` runs four systems in order:

1. **Gravity.** Every dynamic body that has a velocity and a mass has its vertical velocity lowered by `mass / GRAVITY`. The result is clamped at `-TERMINAL_VELOCITY`.
2. **Velocity.** Every dynamic body that has a velocity is moved by `velocity * DELTA`.
3. **Broad phase.** An octree over the world box `[-50, 50]^3` is rebuilt. Every entity with a collider gets a `Chunk` component: the chunk number of the octree node it lands in.
4. **Narrow phase.** Every pair of entities is visited. A pair is tested further only when the two entities share a chunk and their AABBs intersect. When the shapes touch, the contact is resolved:
   - a dynamic body against a static one is pushed out along the contact normal, and its velocity is reflected with a restitution of 0.3;
   - for two dynamic bodies, the push and an impulse are shared by mass.

The mesh-to-collider helper `extract_mesh_vertices_indices` is modelled as well. It regroups a mesh's flat vertex and index buffers into points and triangles.

Modules, one per source file:

- `Geometry` (`geometry.dfy`): vectors, AABBs and `subdivide_aabb`, from `src/physics/collisions/utils/utils.rs`.
- `MeshExtract` (`mesh_extract.dfy`): `extract_mesh_vertices_indices`. It appears word for word in both `src/physics/collisions/utils/utils.rs:13-43` and `src/physics/collisions/utils.rs:14-44`, so one function models both.
- `Octree` (`octree.dfy`): `OctreeNode::new`, `insert` and `split`, from `src/physics/collisions/classes/octree.rs`.
  - The class `Octree` holds the nodes as an arena. Node 0 is the root, and children are arena indices.
  - It also holds the global `CHUNK_NUMBER` and the `Chunk` component of every entity.
- `Physics` (`physics.dfy`): the body components, the constants and the systems `apply_gravity` and `apply_velocity`, from `src/physics/physics.rs`.
  - The ECS world is the class `World`. Its fields are the bodies, indexed by entity, the `Chunk` components and the chunk counter.
- `Collisions` (`collisions.dfy`): `broad_phase`, `narrow_phase`, `collision_check`, `contact_handling`, `separate_objects` and `separate_dynamic`, from `src/physics/collisions/collisions.rs`.
- `PhysicsPlugin` (`plugin.dfy`): one fixed update, in the order `PhysicsPlugin::build` chains the systems.

How source values are represented:

- f32 values are `real`. bevy's `Vec3` and nalgebra's `Point3` are `Geometry.Vec3`, and parry's `Aabb` is its pair of corners.
- The parry queries the code calls are the fields of a `ShapeQueries` value, passed in by the caller. They are `compute_aabb`, `intersection_test` and `contact` with tolerance 0, each applied to a shape under its transform.
- parry's `Contact` is the record `(normal1, normal2, dist)`.

The two source files do not agree on the octree API:

- `collisions.rs` calls `insert` with a chunk query, and it treats `Chunk` as a list.
- `octree.rs` declares `Chunk(pub i32)`, and `insert` there replaces the component through `Commands`.

The model follows `octree.rs` for the tree. A `Chunk` is a `seq<int>`: `broad_phase` clears it, and `insert` overwrites it with `[chunk_num]`.

## Model

| member | source | states |
|---|---|---|
| Geometry.SubdivideAabb | src/physics/collisions/utils/utils.rs:46-72 | Exactly eight boxes. Box 0 is `[mins, center]` and box 7 is `[center, maxs]`. Box `i` spans the upper half of x iff `i` is odd, the upper half of y iff `i >= 4`, and the upper half of z iff `i` is in {2,3,6,7}; otherwise it spans the lower half. |
| Geometry.OctantsInsideParent | src/physics/collisions/utils/utils.rs:50-71 | For a box with `mins <= maxs`, each octant is well formed, lies inside the parent, and has the parent's center as one of its corners. |
| Geometry.OctantsUnionIsParent | src/physics/collisions/utils/utils.rs:54-71 | For a well-formed box, a point lies in the box iff it lies in at least one of the eight octants. |
| Geometry.OctantInteriorsDisjoint | src/physics/collisions/utils/utils.rs:54-71 | No point lies strictly inside two different octants. |
| MeshExtract.GroupPoints | src/physics/collisions/utils/utils.rs:18-22 | A flat `Float32` buffer whose length is a multiple of 3 becomes `len / 3` points, point `k` being `(v[3k], v[3k+1], v[3k+2])`. |
| MeshExtract.GroupTriangles | src/physics/collisions/utils/utils.rs:31-37 | An index buffer becomes `floor(n / 3)` triangles, triangle `k` being `(i[3k], i[3k+1], i[3k+2])`. A trailing one or two indices are dropped. |
| MeshExtract.ExtractMeshVerticesIndices | src/physics/collisions/utils/utils.rs:13-43 | The same function as src/physics/collisions/utils.rs:14-44. `None` exactly when the position attribute is missing, the index buffer is missing, or the positions are in a format other than `Float32`/`Float32x3`. Otherwise `Float32x3` points pass through one to one and in order, `Float32` points are grouped by three, and `U16` indices are widened unchanged before being grouped into triangles. |
| Octree.FirstContainingFrom | src/physics/collisions/classes/octree.rs:37-44 | The first child from position `k` on whose box contains the AABB. Every child before it does not contain the AABB, and when there is none, no child from `k` on does. |
| Octree.FirstContaining | src/physics/collisions/classes/octree.rs:36-44 | For a node with children: the first child in array order whose box contains the AABB, with no earlier child containing it. `None` for a leaf or when no child contains it. |
| Octree.Route | src/physics/collisions/classes/octree.rs:36-51 | The node where an insertion stops, and the depth left there. That node exists, and none of its children contains the AABB. It is the start node or a node whose box contains the AABB, and the depth left is at most the depth given. |
| Octree.SplitKeepsShape | src/physics/collisions/classes/octree.rs:74-79 | A split keeps the node-shape invariant: every node has no children or eight existing ones. It grows the arena by eight nodes. |
| Octree.SplitNodesLayout | src/physics/collisions/classes/octree.rs:69-82 | After a split, the node keeps its box and chunk number, has eight children and no objects. The children are leaves without objects, over the octants of `subdivide_aabb` in order, and they all carry the one new chunk number. Every other node is unchanged. |
| Octree.Octree.constructor | src/physics/collisions/classes/octree.rs:102-111 | The tree is a single root leaf over the given box, with no children, no objects and chunk number 0. |
| Octree.Octree.Insert | src/physics/collisions/classes/octree.rs:26-58 | The entity follows `Route`, that is the first containing child at each level, with the depth decreasing by one per level. The entity's chunk becomes exactly `[chunk_num]` of the node where it stops. The tree is split there iff that node holds more than `max_objects` objects and depth is left; otherwise the nodes and the counter are unchanged. When no node holds objects, as in every tree built by `new`, there is never a split. |
| Octree.Octree.Split | src/physics/collisions/classes/octree.rs:62-100 | The counter goes up by exactly one, and the node gets the eight leaves of `SplitNodesLayout`, sharing the new counter value. Its objects are taken. Each object is re-inserted into the first child containing it, so it gets the new chunk number; an object that fits in no child is dropped and keeps its chunk. The shape invariant is kept. |
| Physics.GravityStep | src/physics/physics.rs:47-65 | A static body, or one without a velocity or a mass, is unchanged. A dynamic body's `velocity.y` becomes `y - mass / GRAVITY`, or `-TERMINAL_VELOCITY` when that is not above it, so afterwards it is at least `-TERMINAL_VELOCITY`. Its x and z and the rest of the body are unchanged, and with a positive mass `y` strictly decreases while above the terminal velocity. |
| Physics.VelocityStep | src/physics/physics.rs:67-79 | A static body, or one without a velocity, is unchanged. A dynamic body moves by exactly `velocity * DELTA`, and nothing else about it changes. |
| Physics.ApplyGravity | src/physics/physics.rs:47-65 | Every body in the world becomes `GravityStep` of itself, and the number of bodies is unchanged. |
| Physics.ApplyVelocity | src/physics/physics.rs:67-79 | Every body in the world becomes `VelocityStep` of itself, and the number of bodies is unchanged. |
| Physics.FallVelocity | src/physics/physics.rs:55-59 | After `k` gravity updates, a dynamic body of mass `m >= 0` that starts at `velocity.y == y0 >= -TERMINAL_VELOCITY` has `velocity.y == max(y0 - k*m/GRAVITY, -TERMINAL_VELOCITY)`, and nothing else about it changes: clamping at each step is the same as clamping once at the end. |
| Physics.FallReachesTerminal | src/physics/physics.rs:55-59 | Once `k*m/GRAVITY >= y0 + TERMINAL_VELOCITY`, the body falls at exactly `-TERMINAL_VELOCITY` after `k` updates. |
| Collisions.ChunksOverlap | src/physics/collisions/collisions.rs:92-95 | True iff some chunk of one list is in the other. |
| Collisions.BroadPhase | src/physics/collisions/collisions.rs:34-67 | The counter is reset to 0 and a fresh root over `[-50,50]^3` is built. Every entity with a collider ends with chunk list exactly `[0]`, since no split can happen in a fresh tree. Every other `Chunk` component is unchanged. |
| Collisions.SeparateObjects | src/physics/collisions/collisions.rs:242-281 | Nothing changes when `dist > TOLERANCE` (0.0). Otherwise the translation moves by `n * -dist`, where `n` is `normal2` for entity 1 and `normal1` otherwise. A velocity with `v.n < 0` loses `(1 + RESTITUTION) (v.n) n`, and any other velocity is unchanged. |
| Collisions.SeparateDynamic | src/physics/collisions/collisions.rs:285-325 | Nothing changes when `dist > TOLERANCE`. Otherwise, with `s = normal1 * -dist`, body 1 moves by `-s m2/(m1+m2)` and body 2 by `s m1/(m1+m2)`. When the bodies approach along the normal, an impulse `j = -(1+R) vn / (1/m1 + 1/m2)` changes the velocities by `-j/m1` and `+j/m2` along the normal; otherwise the velocities are unchanged. |
| Collisions.ObjectSeparation | src/physics/collisions/collisions.rs:242-281 | The one-body correction as a value, satisfying the relational statement of `SeparateObjects`: unchanged above `TOLERANCE`, otherwise pushed by `n * -dist` with an inward velocity reflected. |
| Collisions.ObjectSeparatedUnique | src/physics/collisions/collisions.rs:242-281 | Any translation and velocity meeting that relational statement are exactly `ObjectSeparation`'s: the correction is deterministic. |
| Collisions.PairSeparation | src/physics/collisions/collisions.rs:285-325 | The two-body correction as a value, satisfying the relational statement of `SeparateDynamic` for positive masses. |
| Collisions.PairSeparatedUnique | src/physics/collisions/collisions.rs:285-325 | Any four results meeting that relational statement are exactly `PairSeparation`'s. |
| Collisions.ObjectSeparationReflects | src/physics/collisions/collisions.rs:266-279 | With a unit normal and penetration, the body is pushed out by the depth along the normal. Afterwards it is not moving into the contact: a velocity that pointed into it has its normal component replaced by `-RESTITUTION` times the old one, and its tangential part is unchanged. |
| Collisions.PairSeparationWidensGap | src/physics/collisions/collisions.rs:303-307 | The two shares of the push add up to the full separation `s`: the relative displacement is exactly `s`. |
| Collisions.PairSeparationMovesLighterMore | src/physics/collisions/collisions.rs:303-307 | Entity 1 moves back by `t1 - t1' = (m2/m1)(t2' - t2)`, a positive multiple of how far entity 2 moves forward, so the two displacements are opposite and in the inverse ratio of the masses. When `m1 < m2` that factor exceeds 1, so the lighter body moves further. |
| Collisions.PairSeparationKeepsCentre | src/physics/collisions/collisions.rs:303-307 | `m1 (t1 - t1') = m2 (t2' - t2)`: the mass-weighted displacements cancel, so the centre of mass does not move. |
| Collisions.PairSeparationConservesMomentum | src/physics/collisions/collisions.rs:310-323 | `m1 v1 + m2 v2` is the same before and after. |
| Collisions.PairSeparationReflects | src/physics/collisions/collisions.rs:310-323 | With a unit normal, the relative normal velocity after the correction is non-negative. When the bodies were approaching, it is exactly `-RESTITUTION` times the old one. |
| Collisions.ContactHandling | src/physics/collisions/collisions.rs:192-236 | Static/Static changes nothing. Static/Dynamic moves only body 2, by `separate_objects` along `normal1`, and Dynamic/Static moves only body 1, along `normal2`. Dynamic/Dynamic applies `separate_dynamic` to both. Only translation and velocity change, and a static body is never changed. |
| Collisions.Handled | src/physics/collisions/collisions.rs:192-236 | `contact_handling` as a value: the pair it returns meets the kind-by-kind outcome stated for `ContactHandling`. |
| Collisions.ContactHandledUnique | src/physics/collisions/collisions.rs:192-236 | That kind-by-kind outcome admits exactly one pair of bodies, the one `Handled` returns. |
| Collisions.CollisionCheck | src/physics/collisions/collisions.rs:143-187 | Without a contact nothing changes; with one, the result is that of `contact_handling`. |
| Collisions.Resolved | src/physics/collisions/collisions.rs:92-131 | One pair as a value. Each body keeps everything but its translation and velocity, a static body is unchanged, and the pair is unchanged when the chunk lists share no chunk. |
| Collisions.ResolvePair | src/physics/collisions/collisions.rs:92-131 | A pair changes only when the chunk lists overlap, the AABBs intersect, the shapes intersect and a contact is found, and then as `contact_handling` says. A static body is never changed. The result is exactly `Resolved`. |
| Collisions.NarrowStep | src/physics/collisions/collisions.rs:86-131 | Pair `(i, j)` with `i < j`: only bodies `i` and `j` can change, and only when both are queried and their chunk lists overlap. Every body keeps all but its motion, and a static body is unchanged. |
| Collisions.NarrowPair | src/physics/collisions/collisions.rs:92-131 | One turn of the pair loop: the bodies become exactly `NarrowStep` of what they were for pair `(i, j)`. |
| Collisions.NarrowPhase | src/physics/collisions/collisions.rs:72-138 | The bodies end as `NarrowAll` of the bodies it started with: every pair `(i, j)` with `i < j`, in lexicographic order, is passed through `NarrowStep`, each pair seeing the bodies as the earlier pairs left them. |
| Collisions.NarrowAllFrame | src/physics/collisions/collisions.rs:86-137 | After the narrow phase no body has changed but in its translation and velocity. A static body is unchanged. An entity outside the query, or one sharing no chunk with another queried entity, is unchanged. |
| Collisions.NarrowTwo | src/physics/collisions/collisions.rs:86-137 | With two queried entities, the narrow phase is exactly their one pair, `Resolved`. |
| PhysicsPlugin.Tick | src/physics/physics.rs:12-24 | One fixed update runs gravity, velocity, broad phase and narrow phase, in that order. The bodies end as `NarrowAll` of the integrated bodies `VelocityStep(GravityStep(b))`, over the chunks the broad phase leaves. The counter is 0. Kind, mass and collider never change, and static bodies do not move. A body without a collider ends integrated, and so does every body when at most one body has a collider. |
| PhysicsPlugin.TickOutcome | src/physics/physics.rs:12-24 | For the state `Tick` leaves: kinds, masses and colliders are kept and a static body does not move. A body without a collider is only integrated, and every body is only integrated when at most one has a collider. |

## Left out

- parry3d and nalgebra are foreign libraries and are not modelled. This covers `compute_aabb`, `intersection_test`, `contact`, `SharedShape::trimesh` and `transform_to_isometry` (src/physics/collisions/utils/utils.rs:76-98). The queries are functions supplied by the caller. When `intersection_test` or `contact` reports an error, the source does nothing, which the supplied function represents by returning false or `None`.
- `Collider::from_mesh` (src/physics/collisions/utils.rs:47-65) and `assign_mesh_collider` in `classes/collider.rs` are ECS plumbing around parry. Only the extraction they call is modelled.
- `main.rs`, the camera and the world spawning are bootstrap and rendering code, with no logic to verify.
- f32 rounding, infinities and NaN are not modelled: all arithmetic is over `real`. Momentum conservation and the other equalities hold exactly in the model, not bit for bit in f32.
- The `i32` chunk counter's overflow is not modelled. It is reset every update and goes up by one per split.
- Bevy `Commands` are deferred to the end of a system. The model applies the `Chunk` writes of `insert` at once. Every write in one `broad_phase` targets a different entity, and `narrow_phase` runs after the commands are applied, so the difference cannot be observed.
- Bevy's query and `iter_combinations_mut` order is not modelled: entities are visited in index order, and pairs `(i, j)` with `i < j` in lexicographic order.
- The fixed 30 Hz schedule (`Time::<Fixed>::from_hz`) is not modelled. `PhysicsPlugin.Tick` is one update.
- Physics.Body: every body has a `RigidBody`. The queries of `apply_gravity`, `apply_velocity` and `narrow_phase` skip an entity that has none, and the model has no such entity.
- Collisions.SeparateDynamic: requires both masses to be positive. The source divides by `m1 + m2`, `m1` and `m2` in f32, where a zero gives infinity or NaN instead of a panic.
- Collisions.ContactHandling: requires the `unwrap`s to succeed, which the source needs too. It also requires positive masses, as `SeparateDynamic` does.
- Collisions.NarrowPhase: requires (`QueriedResolvable`) every queried dynamic body to have a velocity and a positive mass. This is stronger than the source, which panics only when such a pair actually reaches `contact_handling`.
- PhysicsPlugin.Tick: requires every dynamic body with a collider to have a velocity and a positive mass, for the same reason.
- Octree.Octree.Insert: requires `max_depth` not to run out on the way down (`RoutesWithinDepth`). Otherwise `max_depth - 1` on a `usize` underflows: it panics in a debug build and wraps in a release build. This never happens in a tree built by `new`, which has no children.
- `PhysicsEntity` in the octree keeps the entity and its AABB. The shape and transform are used only to compute that AABB.
