/** The plain-data components a body is made of, and their defaults.
    A body is one entity: a dynamic particle carries Pos, PrevPos, Vel,
    PreSolveVel, Mass, CircleCollider and Restitution; a static collider
    carries Pos, CircleCollider and Restitution and no Mass. An entity that
    was despawned keeps its identifier but no component. */
module Component {
  import opened Vectors

  /** Identifier of an entity: its place in the world's body list. */
  type Entity = nat

  datatype Body =
    | Dynamic(pos: Vec2, prevPos: Vec2, vel: Vec2, preSolveVel: Vec2,
              mass: real, radius: real, restitution: real)
    | Static(pos: Vec2, radius: real, restitution: real)
    | Despawned

  /** Having a `Mass` component is what makes a body take part in the dynamic queries. */
  predicate HasMass(b: Body) { b.Dynamic? }

  /** `Mass::default()`: one kilogram, positive, so the inverse-mass weight 1/m exists and is 1. */
  function DefaultMass(): (m: real)
    ensures m > 0.0 && 1.0 / m == 1.0
  {
    1.0
  }

  /** `CircleCollider::default()`: a circle one unit across. */
  function DefaultRadius(): (r: real)
    ensures r > 0.0 && r + r == 1.0
  {
    0.5
  }

  /** `Restitution::default()`: three tenths, strictly between a perfectly
      plastic and a perfectly elastic bounce. */
  function DefaultRestitution(): (e: real)
    ensures 0.0 < e < 1.0 && 10.0 * e == 3.0
  {
    0.3
  }

  /** A `StaticColliderBundle` with the given position and collider; its restitution
      is the default one unless given, and it never has a mass. */
  function StaticColliderBundle(pos: Vec2, radius: real, restitution: real): (b: Body)
    ensures !HasMass(b) && !b.Despawned?
    ensures b.pos == pos && b.radius == radius && b.restitution == restitution
  {
    Static(pos, radius, restitution)
  }

  /** `StaticColliderBundle::default()`: every component takes its own default. */
  function DefaultStaticColliderBundle(): (b: Body)
    ensures !HasMass(b) && !b.Despawned?
    ensures b.pos == Zero && b.radius == DefaultRadius() && b.restitution == DefaultRestitution()
  {
    StaticColliderBundle(Zero, DefaultRadius(), DefaultRestitution())
  }
}
