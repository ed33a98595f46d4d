# bevy_xpbd, rigid circles in 2D: a Dafny model

This project models the simulation core of `bevy_xpbd`, a Bevy plugin for
extended position-based dynamics (XPBD) of circles in the plane. The plugin
runs one stage per fixed tick of `DELTA_TIME` = 1/60 s. The stage's systems
run in their labelled order:

1. `integrate`: one semi-implicit Euler step under gravity for every body
   with a mass.
2. `solve_pos`: pushes every overlapping pair of bodies with a mass apart,
   in proportion to their inverse masses. It records each such pair in the
   `Contacts` resource.
3. `update_vel`: derives each velocity from the distance the body travelled
   during the tick.
4. `solve_vel`: applies a restitution impulse along the normal of every
   recorded contact.

The `marble_poor` example adds seven systems of its own: `startup`,
`spawn_marbles`, copies of `solve_pos` and `solve_vel`, and the three
modelled here (the others are under "## Left out"):

- `solve_pos_statics` and `solve_vel_statics` do the same work against
  static colliders (bodies without a `Mass`) and use the `StaticContacts`
  resource.
- `despawn_marbles` removes every entity that falls below y = −20.

Files:

- `vectors.dfy` (module `Vectors`): `Vec2` over the reals, plus length and
  normalisation. The square root is a parameter `sqrt` constrained by
  `IsSqrt`.
- `component.dfy` (module `Component`): the components and their defaults.
  - An entity is an index into the world's list of bodies.
  - A body is `Dynamic` (it has a mass), `Static` (a collider without a
    mass) or `Despawned`.
- `entity.dfy` (module `Particle`): `ParticleBundle`.
- `xpbd.dfy` (module `Xpbd`): each system of the plugin as a function on
  values, and the properties proved about those functions:
  - contact lists are ordered and free of repeats;
  - `solve_vel` keeps momentum;
  - `solve_pos` keeps the centre of mass;
  - over a whole tick, momentum grows by exactly the impulse of gravity;
  - free flight;
  - the bookkeeping of `PrevPos` and `PreSolveVel`;
  - which panics can happen.
- `world.dfy` (module `World`): the class `World`.
  - It holds the bodies, `Contacts`, `StaticContacts` and `Gravity`.
  - Each system is a method that updates the world in place and is proved
    to leave it as the matching function of `Xpbd` says.
- `marble.dfy` (module `Marble`): the example's three systems, as functions
  with their properties and as methods on `World`.

Where the source panics (`assert!`, `unwrap`), the model returns
`Failure(SameEntity)` or `Failure(MissingComponents)`.

Where the source divides by a zero distance between two centres, it carries
on with NaN. The model returns `Failure(CoincidentCentres)` instead.

Each method reports these cases with `ok == false`.

## Model

| member | source | states |
|---|---|---|
| Vectors.Length | src/lib.rs:56-58 | `ab_sqr_len.sqrt()`: a non-negative number whose square is the squared length, positive when the vector is not zero |
| Vectors.Normalize | src/lib.rs:91 | `normalize()` of a non-zero vector: a unit vector with no component across the vector, whose dot product with the vector is its length |
| Component.DefaultMass | src/component.rs:12-16 | the default mass is positive and its inverse (the weight `1 / mass`) is one |
| Component.DefaultRadius | src/component.rs:30-34 | the default collider is a circle of positive radius, one unit across |
| Component.DefaultRestitution | src/component.rs:46-50 | the default restitution is 3/10, strictly between a plastic and an elastic bounce |
| Component.StaticColliderBundle | src/component.rs:35-40 | a static collider bundle has the given position, radius and restitution and no mass |
| Component.DefaultStaticColliderBundle | src/component.rs:35-40 | the default static collider sits at the origin with the default radius and restitution and no mass |
| Particle.DefaultParticleBundle | src/entity.rs:5-14 | the default particle has a mass; it is at rest at the origin, previous position included, with the default mass, radius and restitution |
| Particle.NewWithPosAndVel | src/entity.rs:17-24 | the particle has the given position and velocity; its previous position is one tick's travel back; everything else is as in the default bundle |
| Particle.NewWithPosAndVelAgreesWithUpdateVel | src/entity.rs:20 | the chosen previous position makes `update_vel` give back exactly the velocity the particle was created with |
| Xpbd.DefaultGravity | src/lib.rs:14-18 | default gravity points straight down with magnitude 9.81 |
| Xpbd.IntegrateBody | src/lib.rs:30-38 | a body with a mass: previous position = old position, velocity += g·dt, position += new velocity·dt, pre-solve velocity = new velocity; any other body is unchanged |
| Xpbd.IntegrateAll | src/lib.rs:26-39 | integration keeps every body's kind and the positivity of masses |
| Xpbd.UpdateVelBody | src/lib.rs:73-75 | only the velocity changes; for a body with a mass, previous position + velocity·dt = position |
| Xpbd.UpdateVelAll | src/lib.rs:72-76 | `update_vel` changes velocities only |
| Xpbd.UpdateVelAfterIntegrate | src/lib.rs:72-76 | right after `integrate`, `update_vel` recovers the integrated velocity: it leaves the body unchanged |
| Xpbd.InverseMassSplit | src/lib.rs:62-67 | the inverse-mass weights split a correction into two parts that add up to it, with m_a·share_a = m_b·share_b, and share_a = c·m_b/(m_a+m_b) |
| Xpbd.PenetrationDepth | src/lib.rs:55-59 | for an overlapping pair, the penetration depth is positive and at most the combined radius |
| Xpbd.CorrectPair | src/lib.rs:54-67 | only the two positions change; m_a·Δx_a + m_b·Δx_b = 0, so the centre of mass stays put; afterwards the circles exactly touch |
| Xpbd.CorrectPairShares | src/lib.rs:60-67 | body a moves back along n by depth·m_b/(m_a+m_b), body b moves forward by depth·m_a/(m_a+m_b), and the two moves add up to depth along n |
| Xpbd.CorrectPairSeparates | src/lib.rs:54-67 | an overlapping pair of distinct centres is pushed apart: along n the gap between the centres grows by exactly the penetration depth, up to the combined radius |
| Xpbd.CorrectPairMoment | src/lib.rs:62-67 | one correction keeps m_a·x_a + m_b·x_b, the pair's centre of mass |
| Xpbd.PairStep | src/lib.rs:53-69 | one pair of `iter_combinations_mut`: the step fails (coincident centres) iff both bodies have a mass, they overlap and their centres coincide; a pair that does not overlap changes nothing; an overlapping pair is corrected and pushed onto the contacts, and every other body is unchanged |
| Xpbd.SolvePosRow | src/lib.rs:45-53 | the pairs (i, j), (i, j+1), …: positions only change, and the only fault is coincident centres |
| Xpbd.SolvePosFrom | src/lib.rs:45-53 | the rows i, i+1, …: positions only change, and the only fault is coincident centres |
| Xpbd.SolvePosSpec | src/lib.rs:40-71 | `solve_pos` from a cleared contact list changes positions only and fails only on coincident centres |
| Xpbd.SolvePosContacts | src/lib.rs:44-68 | each recorded contact is (a, b) with a < b, both bodies with a mass; the list is strictly increasing in visiting order and has no repeats |
| Xpbd.NoOverlapsNoContacts | src/lib.rs:57 | when no two bodies with a mass overlap, `solve_pos` changes nothing and records no contact |
| Xpbd.SolvePosMassMoment | src/lib.rs:62-67 | `solve_pos` keeps Σ m·x over the bodies with a mass, i.e. their centre of mass |
| Xpbd.CombinedRestitution | src/lib.rs:97 | the combined restitution is the midpoint of the two: equidistant from both and between them |
| Xpbd.ExchangeImpulse | src/lib.rs:99-104 | an impulse j·n split by inverse mass leaves both velocities unchanged across n, keeps m_a·v_a + m_b·v_b, and changes the relative normal velocity by exactly j |
| Xpbd.ImpulsePair | src/lib.rs:91-104 | only velocities change; neither changes across the normal; m_a·v_a + m_b·v_b is kept; the relative normal velocity becomes −e times the pre-solve relative normal velocity |
| Xpbd.ContactImpulse | src/lib.rs:82-104 | one contact of `solve_vel`: SameEntity iff a = b; MissingComponents iff a ≠ b and either lacks a mass; CoincidentCentres iff the centres coincide; otherwise the pair gets the impulse and every other body is unchanged |
| Xpbd.SolveVelFrom | src/lib.rs:82 | contacts k, k+1, … in list order change velocities only |
| Xpbd.SolveVelSpec | src/lib.rs:78-108 | `solve_vel` changes velocities only |
| Xpbd.SolveVelValidContacts | src/lib.rs:86-90 | on a contact list as `solve_pos` leaves it, `solve_vel` never hits the `assert!` or an `unwrap`; it can only fail on coincident centres |
| Xpbd.SolveVelMomentum | src/lib.rs:99-104 | `solve_vel` keeps Σ m·v over the bodies with a mass |
| Xpbd.IntegrateMassMoment | src/lib.rs:35-36 | integration moves Σ m·x by Σ (m·v + m·g·dt)·dt |
| Xpbd.UpdateVelMomentum | src/lib.rs:72-76 | (Σ m·v after `update_vel`)·dt = Σ m·x now − Σ m·x at the previous positions |
| Xpbd.MomentumBeforeSolveVel | src/lib.rs:26-76 | after `integrate`, `solve_pos` and `update_vel`, Σ m·v equals the starting momentum plus (Σ m·g)·dt, whatever corrections were made |
| Xpbd.StepSpec | src/lib.rs:130-139 | a tick (integrate, solve positions, update velocities, solve velocities) keeps every body's kind and positive masses |
| Xpbd.StepFaults | src/lib.rs:130-139 | a tick never panics: its only fault is coincident centres, and the contact list it leaves is valid, ordered and free of repeats |
| Xpbd.StepBookkeeping | src/lib.rs:30-37 | after a tick, each body with a mass has previous position = its position at the start and pre-solve velocity = its starting velocity + g·dt; other bodies are untouched |
| Xpbd.StepFreeFlight | src/lib.rs:130-139 | if no bodies overlap after integration, the tick's result is exactly the integrated bodies with an empty contact list |
| Xpbd.StepMomentum | src/lib.rs:130-139 | over a tick, Σ m·v grows by exactly (Σ m·g)·dt: contacts neither create nor destroy momentum |
| World.World.constructor | src/lib.rs:122-124 | a new world has the default gravity and both contact lists empty |
| World.World.Integrate | src/lib.rs:26-39 | the bodies become `IntegrateAll` of the old bodies; contacts and gravity are unchanged |
| World.World.SolvePos | src/lib.rs:40-71 | the nested loop over index pairs succeeds iff `SolvePosSpec` does; when it succeeds, it leaves the bodies and `Contacts` as `SolvePosSpec` says |
| World.World.SolvePosRowLoop | src/lib.rs:46-69 | the pairs (i, i+1), (i, i+2), … of one row: succeeds iff `SolvePosRow` does, and then leaves the bodies and `Contacts` as it says |
| World.World.SolvePair | src/lib.rs:53-69 | one loop turn leaves the bodies and `Contacts` as `PairStep` says |
| World.World.UpdateVel | src/lib.rs:72-76 | the bodies become `UpdateVelAll` of the old bodies |
| World.World.SolveVel | src/lib.rs:78-108 | the loop over `Contacts` succeeds iff `SolveVelSpec` does; when it succeeds, it leaves the bodies as `SolveVelSpec` says, and `Contacts` is unchanged |
| World.World.Step | src/lib.rs:130-139 | running the four systems in label order succeeds iff `StepSpec` does, and gives its bodies and contacts |
| Marble.CorrectAgainstStatic | examples/marble_poor.rs:180-187 | only the dynamic body's position changes; it moves back along the unit normal by exactly the penetration depth and nothing across it; the two circles end up exactly touching |
| Marble.CorrectAgainstStaticSeparates | examples/marble_poor.rs:180-187 | an overlapping dynamic body is pushed off the static one: along n the gap grows by exactly the penetration depth, up to the combined radius |
| Marble.StaticPairStep | examples/marble_poor.rs:180-189 | one (dynamic, static) pair: fails iff the pair overlaps with coincident centres; a pair that does not overlap changes nothing; an overlapping one corrects the dynamic body and pushes the pair onto `StaticContacts` |
| Marble.StaticRow | examples/marble_poor.rs:179-190 | the inner loop over static bodies changes positions only and fails only on coincident centres |
| Marble.StaticFrom | examples/marble_poor.rs:178-191 | the outer loop over dynamic bodies changes positions only and fails only on coincident centres |
| Marble.SolvePosStaticsSpec | examples/marble_poor.rs:172-192 | `solve_pos_statics` changes positions only, never moves a static body, and fails only on coincident centres |
| Marble.SolvePosStaticsContacts | examples/marble_poor.rs:177-188 | each static contact pairs a body with a mass with one without; the list is in visiting order and has no repeats |
| Marble.NoStaticOverlapsNoContacts | examples/marble_poor.rs:183 | when no dynamic body overlaps a static one, `solve_pos_statics` changes nothing and records no contact |
| Marble.StaticImpulse | examples/marble_poor.rs:203-208 | only the dynamic body's velocity changes; its tangential component is kept and its normal component becomes −e times the pre-solve normal velocity |
| Marble.StaticContactImpulse | examples/marble_poor.rs:198-208 | one static contact: MissingComponents iff the first entity lacks a mass or the second is not static; CoincidentCentres iff the centres coincide; otherwise only the dynamic body gets the impulse |
| Marble.SolveVelStaticsFrom | examples/marble_poor.rs:198 | static contacts k, k+1, … change velocities only |
| Marble.SolveVelStaticsSpec | examples/marble_poor.rs:193-210 | `solve_vel_statics` changes velocities only and never changes a static body |
| Marble.SolveVelStaticsValidContacts | examples/marble_poor.rs:199-202 | on a list as `solve_pos_statics` leaves it, neither `unwrap` panics; the only fault is coincident centres |
| Marble.DespawnSpec | examples/marble_poor.rs:164-170 | an entity is despawned iff it already was or its position is below −20; all others are unchanged; no fallen entity is left; identifiers are kept |
| Marble.DespawnIdempotent | examples/marble_poor.rs:164-170 | despawning a second time removes nothing more |
| Marble.SolveStaticPair | examples/marble_poor.rs:180-189 | one inner loop turn leaves the bodies and `StaticContacts` as `StaticPairStep` says |
| Marble.SolveStaticRow | examples/marble_poor.rs:179-190 | the inner loop leaves the world as `StaticRow` says |
| Marble.SolvePosStatics | examples/marble_poor.rs:172-192 | the system succeeds iff `SolvePosStaticsSpec` does; when it succeeds, it leaves the bodies and `StaticContacts` as `SolvePosStaticsSpec` says |
| Marble.SolveVelStatics | examples/marble_poor.rs:193-210 | the system succeeds iff `SolveVelStaticsSpec` does; when it succeeds, it leaves the bodies as `SolveVelStaticsSpec` says |
| Marble.DespawnMarbles | examples/marble_poor.rs:164-170 | the bodies become `DespawnSpec` of the old bodies; contacts and gravity are unchanged |

## Left out

- 32-bit floating point. All arithmetic is on the reals, so rounding, overflow and NaN are not modelled.
  - Where the source divides by a zero distance (`ab / ab_length` with `ab_length` = 0, or `normalize()` of the zero vector), it carries on with NaN. The model stops that system with `CoincidentCentres` instead.
  - `Xpbd.UpdateVelAfterIntegrate` and `Particle.NewWithPosAndVelAgreesWithUpdateVel` hold exactly on the reals but only approximately in `f32`.
- The square root is a parameter constrained by `IsSqrt`, not glam's `sqrt`.
- Masses are assumed positive (`WellFormed`). The source divides by any mass, including zero or negative ones, and never checks it.
- Scheduling is not modelled.
  - Not modelled: Bevy's `App`, stages, `FixedTimestep`, the parallel executor, and system labels. `Xpbd.StepSpec` / `World.World.Step` run the four systems in their labelled order, once per tick.
  - The example puts `solve_pos` with `solve_pos_statics`, and `solve_vel` with `solve_vel_statics`, in unordered system sets under its own labels. The model gives each as a separate operation and does not model how they interleave.
- Query iteration order is modelled as ascending entity index.
  - `iter_combinations_mut` yields each pair (i, j) with i < j once.
  - The static queries yield dynamic bodies in the outer loop and static bodies in the inner loop.
  - Bevy's archetype/table order is not modelled.
- The example's own copies of `solve_pos` and `solve_vel` (examples/marble_poor.rs:211-242 and 31-61) are line for line the plugin's and are modelled once, by the plugin's.
- `sync_transforms` (copying positions into render transforms), `collect_collision_pairs` (an empty system) and `main` are not modelled. Neither are the example's `startup` and `spawn_marbles` (meshes, materials, random spawning) nor rendering.
- `despawn_marbles` issues despawn commands that Bevy applies at the end of the stage. The model applies them at once. A despawned entity keeps its index as a `Despawned` slot, and Bevy's reuse of entity identifiers is not modelled.
- Friction, which the source leaves as a TODO, is not modelled.
- `solve_vel` reads pairs from `Contacts` through `get_unchecked`. The aliasing safety argument behind `unsafe` is represented only by the `SameEntity` check that precedes it.
