/** `ParticleBundle`: the components a dynamic particle is spawned with. */
module Particle {
  import opened Vectors
  import opened Component
  import opened Xpbd

  /** `ParticleBundle::default()`: a particle at rest at the origin (its previous
      position too), with every component at its default; it has a mass, so it is dynamic. */
  function DefaultParticleBundle(): (b: Body)
    ensures HasMass(b) && WellFormedBody(b)
    ensures b.pos == Zero && b.prevPos == Zero && b.vel == Zero && b.preSolveVel == Zero
    ensures b.mass == DefaultMass() && b.radius == DefaultRadius() && b.restitution == DefaultRestitution()
  {
    Dynamic(Zero, Zero, Zero, Zero, DefaultMass(), DefaultRadius(), DefaultRestitution())
  }

  /** `ParticleBundle::new_with_pos_and_vel`: a particle at `pos` moving with
      `vel`, whose previous position is where that velocity would have carried it
      from one tick earlier; everything else takes the bundle's defaults. */
  function NewWithPosAndVel(pos: Vec2, vel: Vec2): (b: Body)
    ensures HasMass(b) && WellFormedBody(b)
    ensures b.pos == pos && b.vel == vel
    ensures Add(b.prevPos, Scale(vel, DeltaTime)) == pos
    ensures b.preSolveVel == DefaultParticleBundle().preSolveVel
    ensures b.mass == DefaultParticleBundle().mass && b.radius == DefaultParticleBundle().radius
    ensures b.restitution == DefaultParticleBundle().restitution
  {
    var d := DefaultParticleBundle();
    Dynamic(pos, Sub(pos, Scale(vel, DeltaTime)), vel, d.preSolveVel, d.mass, d.radius, d.restitution)
  }

  /** The previous position is chosen so that `update_vel` would derive exactly
      the velocity the particle was given. */
  lemma NewWithPosAndVelAgreesWithUpdateVel(pos: Vec2, vel: Vec2)
    ensures UpdateVelBody(NewWithPosAndVel(pos, vel)) == NewWithPosAndVel(pos, vel)
  {
    var b := NewWithPosAndVel(pos, vel);
    DifferenceQuotient(pos.x, vel.x, DeltaTime);
    DifferenceQuotient(pos.y, vel.y, DeltaTime);
    assert Div(Sub(b.pos, b.prevPos), DeltaTime) == vel;
  }

  lemma DifferenceQuotient(x: real, v: real, dt: real)
    requires dt != 0.0
    ensures (x - (x - v * dt)) / dt == v
  {}
}
