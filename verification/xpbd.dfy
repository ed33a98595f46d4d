/** The rigid-circle XPBD step of the engine's plugin, one fixed tick at a time:
    integrate, solve positions, update velocities, solve velocities.
    This module holds the value-level definitions every pass is specified by,
    and the properties proved about them; the passes that update the world in
    place are the methods of World. */
module Xpbd {
  import opened Vectors
  import opened Component

  /** `DELTA_TIME`: the fixed tick, one sixtieth of a second. */
  const DeltaTime: real := 1.0 / 60.0

  /** `Gravity::default()`: straight down, at 9.81 m/s². */
  function DefaultGravity(): (g: Vec2)
    ensures g.x == 0.0 && g.y < 0.0
    ensures LengthSquared(g) == 9.81 * 9.81
  {
    Vec2(0.0, -9.81)
  }

  /** Why a pass does not reach the end: the source either panics
      (`assert!` or `unwrap`) or divides by a zero distance and goes on with NaN. */
  datatype Fault = SameEntity | MissingComponents | CoincidentCentres

  datatype Result<T> = Ok(value: T) | Failure(fault: Fault)

  /** Every body with a mass has a positive one, so that its inverse mass exists. */
  predicate WellFormedBody(b: Body)
  {
    b.Dynamic? ==> b.mass > 0.0
  }

  predicate WellFormed(bodies: seq<Body>)
  {
    forall i :: 0 <= i < |bodies| ==> WellFormedBody(bodies[i])
  }

  /** `b` is the same entity as `a`, of the same kind, with the same mass,
      radius and restitution: only its motion (positions and velocities) may differ. */
  predicate SameKind(a: Body, b: Body)
  {
    match a
    case Dynamic(_, _, _, _, m, r, e) => b.Dynamic? && b.mass == m && b.radius == r && b.restitution == e
    case Static(_, _, _) => b == a
    case Despawned => b == a
  }

  predicate SameKinds(before: seq<Body>, after: seq<Body>)
  {
    |before| == |after| && forall i :: 0 <= i < |before| ==> SameKind(before[i], after[i])
  }

  lemma SameKindsWellFormed(before: seq<Body>, after: seq<Body>)
    requires WellFormed(before) && SameKinds(before, after)
    ensures WellFormed(after)
  {}

  /** The dynamic body `b` moved to `p`, all its other components unchanged. */
  function WithPos(b: Body, p: Vec2): (r: Body)
    requires b.Dynamic?
    ensures r.Dynamic? && r.pos == p && SameKind(b, r)
  {
    Dynamic(p, b.prevPos, b.vel, b.preSolveVel, b.mass, b.radius, b.restitution)
  }

  /** `b` differs from `a` at most in the position of a dynamic body. */
  predicate PosOnly(a: Body, b: Body)
  {
    if a.Dynamic? then b.Dynamic? && b == WithPos(a, b.pos) else b == a
  }

  /** `b` differs from `a` at most in the velocity of a dynamic body. */
  predicate VelOnly(a: Body, b: Body)
  {
    if a.Dynamic? then b.Dynamic? && b == a.(vel := b.vel) else b == a
  }

  predicate PositionsOnly(before: seq<Body>, after: seq<Body>)
  {
    |before| == |after| && forall i {:trigger PosOnly(before[i], after[i])} :: 0 <= i < |before| ==> PosOnly(before[i], after[i])
  }

  predicate VelocitiesOnly(before: seq<Body>, after: seq<Body>)
  {
    |before| == |after| && forall i :: 0 <= i < |before| ==> VelOnly(before[i], after[i])
  }

  lemma PositionsOnlyTransitive(a: seq<Body>, b: seq<Body>, c: seq<Body>)
    requires PositionsOnly(a, b) && PositionsOnly(b, c)
    ensures PositionsOnly(a, c)
  {
    forall i | 0 <= i < |a|
      ensures PosOnly(a[i], c[i])
    {
      assert PosOnly(a[i], b[i]) && PosOnly(b[i], c[i]);
    }
  }

  lemma VelocitiesOnlyTransitive(a: seq<Body>, b: seq<Body>, c: seq<Body>)
    requires VelocitiesOnly(a, b) && VelocitiesOnly(b, c)
    ensures VelocitiesOnly(a, c)
  {
    forall i | 0 <= i < |a|
      ensures VelOnly(a[i], c[i])
    {
      assert VelOnly(a[i], b[i]) && VelOnly(b[i], c[i]);
    }
  }

  lemma PositionsOnlyKinds(a: seq<Body>, b: seq<Body>)
    requires PositionsOnly(a, b)
    ensures SameKinds(a, b)
  {
    forall i | 0 <= i < |a|
      ensures SameKind(a[i], b[i])
    {
      assert PosOnly(a[i], b[i]);
    }
  }

  lemma VelocitiesOnlyKinds(a: seq<Body>, b: seq<Body>)
    requires VelocitiesOnly(a, b)
    ensures SameKinds(a, b)
  {
    forall i | 0 <= i < |a|
      ensures SameKind(a[i], b[i])
    {
      assert VelOnly(a[i], b[i]);
    }
  }

  // ---------------------------------------------------------------- integrate

  /** The body of the loop in `integrate`, for one entity of the query. */
  function IntegrateBody(b: Body, gravity: Vec2): (r: Body)
    requires WellFormedBody(b)
    ensures SameKind(b, r)
    ensures !HasMass(b) ==> r == b
    ensures HasMass(b) ==> r.prevPos == b.pos
    ensures HasMass(b) ==> r.vel == Add(b.vel, Scale(gravity, DeltaTime))
    ensures HasMass(b) ==> r.pos == Add(b.pos, Scale(r.vel, DeltaTime))
    ensures HasMass(b) ==> r.preSolveVel == r.vel
  {
    match b
    case Dynamic(pos, _, vel, _, mass, radius, restitution) =>
      var gravitationForce := Scale(gravity, mass);
      var externalForces := gravitationForce;
      var v := Add(vel, Div(Scale(externalForces, DeltaTime), mass));
      Dynamic(Add(pos, Scale(v, DeltaTime)), pos, v, v, mass, radius, restitution)
    case _ => b
  }

  function IntegrateAll(bodies: seq<Body>, gravity: Vec2): (r: seq<Body>)
    requires WellFormed(bodies)
    ensures SameKinds(bodies, r) && WellFormed(r)
  {
    seq(|bodies|, i requires 0 <= i < |bodies| => IntegrateBody(bodies[i], gravity))
  }

  // --------------------------------------------------------------- update_vel

  /** The body of the loop in `update_vel`: the velocity that carries the body
      from its previous position to its current one in one tick. */
  function UpdateVelBody(b: Body): (r: Body)
    ensures VelOnly(b, r)
    ensures HasMass(b) ==> Add(b.prevPos, Scale(r.vel, DeltaTime)) == b.pos
  {
    match b
    case Dynamic(pos, prevPos, _, _, _, _, _) => b.(vel := Div(Sub(pos, prevPos), DeltaTime))
    case _ => b
  }

  function UpdateVelAll(bodies: seq<Body>): (r: seq<Body>)
    ensures VelocitiesOnly(bodies, r)
  {
    seq(|bodies|, i requires 0 <= i < |bodies| => UpdateVelBody(bodies[i]))
  }

  /** Re-deriving the velocity right after integration, with no correction in
      between, gives back the integrated velocity. */
  lemma UpdateVelAfterIntegrate(b: Body, gravity: Vec2)
    requires WellFormedBody(b)
    ensures UpdateVelBody(IntegrateBody(b, gravity)) == IntegrateBody(b, gravity)
  {
  }

  // ------------------------------------------------------- inverse-mass split

  /** The share `(c * w_a) / w_sum` of a correction `c` that the body of mass
      `ma` takes when paired with a body of mass `mb`. */
  function Share(c: Vec2, ma: real, mb: real): Vec2
    requires ma > 0.0 && mb > 0.0
  {
    Div(Scale(c, 1.0 / ma), 1.0 / ma + 1.0 / mb)
  }

  lemma InversePositive(m: real)
    requires m > 0.0
    ensures 1.0 / m > 0.0
  {}

  /** The inverse-mass weights w_a / (w_a + w_b) and w_b / (w_b + w_a): they add up
      to one, give equal momentum, and the first is m_b / (m_a + m_b). */
  lemma {:induction false} InverseWeights(ma: real, mb: real)
    requires ma > 0.0 && mb > 0.0
    ensures (1.0 / ma) / (1.0 / ma + 1.0 / mb) + (1.0 / mb) / (1.0 / mb + 1.0 / ma) == 1.0
    ensures (1.0 / ma) / (1.0 / ma + 1.0 / mb) * ma == (1.0 / mb) / (1.0 / mb + 1.0 / ma) * mb
    ensures (1.0 / ma) / (1.0 / ma + 1.0 / mb) == mb / (ma + mb)
  {
    InversePositive(ma);
    InversePositive(mb);
  }

  /** Splitting by inverse mass: the two shares add up to the whole correction,
      carry equal and opposite momentum, and are in the ratio m_b : m_a. */
  lemma {:induction false} InverseMassSplit(c: Vec2, ma: real, mb: real)
    requires ma > 0.0 && mb > 0.0
    ensures Add(Share(c, ma, mb), Share(c, mb, ma)) == c
    ensures Scale(Share(c, ma, mb), ma) == Scale(Share(c, mb, ma), mb)
    ensures Share(c, ma, mb) == Scale(c, mb / (ma + mb))
  {
    var wa := (1.0 / ma) / (1.0 / ma + 1.0 / mb);
    var wb := (1.0 / mb) / (1.0 / mb + 1.0 / ma);
    InverseWeights(ma, mb);
    DivScale(c, 1.0 / ma, 1.0 / ma + 1.0 / mb);
    DivScale(c, 1.0 / mb, 1.0 / mb + 1.0 / ma);
    ScaleSum(c, wa, wb);
    ScaleEqual(c, wa + wb, 1.0);
    ScaleOne(c);
    ScaleScale(c, wa, ma);
    ScaleScale(c, wb, mb);
    ScaleEqual(c, wa * ma, wb * mb);
  }

  // ---------------------------------------------------------------- solve_pos

  /** The test of `solve_pos`: the squared distance between the centres is below
      the square of the combined radius. */
  predicate Overlapping(a: Body, b: Body)
    requires !a.Despawned? && !b.Despawned?
  {
    LengthSquared(Sub(b.pos, a.pos)) < (a.radius + b.radius) * (a.radius + b.radius)
  }

  /** `combined_radius - ab_length` */
  function PenetrationDepth(a: Body, b: Body, sqrt: real -> real): (depth: real)
    requires IsSqrt(sqrt)
    requires !a.Despawned? && !b.Despawned?
    requires Overlapping(a, b) && a.radius + b.radius > 0.0
    ensures 0.0 < depth <= a.radius + b.radius
  {
    var ab := Sub(b.pos, a.pos);
    var l := Length(ab, sqrt);
    RootBelow(LengthSquared(ab), a.radius + b.radius, l);
    a.radius + b.radius - l
  }

  /** The correction of one overlapping dynamic pair in `solve_pos`: `a` moves back
      and `b` forward along the unit vector `n` from `a` to `b`, sharing the
      penetration depth by inverse mass. Only the positions change; the weighted
      sum of the moves is zero (the centre of mass stays put), and the two
      circles are left exactly touching. */
  function CorrectPair(a: Body, b: Body, sqrt: real -> real): (r: (Body, Body))
    requires IsSqrt(sqrt)
    requires a.Dynamic? && b.Dynamic? && a.mass > 0.0 && b.mass > 0.0
    requires LengthSquared(Sub(b.pos, a.pos)) > 0.0
    ensures r.0.Dynamic? && r.1.Dynamic?
    ensures r.0 == WithPos(a, r.0.pos) && r.1 == WithPos(b, r.1.pos)
    ensures Add(Scale(Sub(r.0.pos, a.pos), a.mass), Scale(Sub(r.1.pos, b.pos), b.mass)) == Zero
    ensures LengthSquared(Sub(r.1.pos, r.0.pos)) == (a.radius + b.radius) * (a.radius + b.radius)
  {
    var ab := Sub(b.pos, a.pos);
    var combinedRadius := a.radius + b.radius;
    var abLength := Length(ab, sqrt);
    var depth := combinedRadius - abLength;
    var n := Normalize(ab, sqrt);
    var correction := Scale(n, depth);
    InverseMassSplit(correction, a.mass, b.mass);
    SeparateShares(a.pos, b.pos, correction, Share(correction, a.mass, b.mass), Share(correction, b.mass, a.mass), a.mass, b.mass);
    ExtendTo(ab, combinedRadius, sqrt);
    (WithPos(a, Sub(a.pos, Share(correction, a.mass, b.mass))),
     WithPos(b, Add(b.pos, Share(correction, b.mass, a.mass))))
  }

  /** Two shares `sa`, `sb` of a correction `c` with equal momentum, `sa`
      taken from `pa` and `sb` added to `pb`: the offset from `pa` to `pb`
      grows by `c`, and the mass moment does not change. */
  lemma {:induction false} SeparateShares(pa: Vec2, pb: Vec2, c: Vec2, sa: Vec2, sb: Vec2, ma: real, mb: real)
    requires Add(sa, sb) == c && Scale(sa, ma) == Scale(sb, mb)
    ensures var qa := Sub(pa, sa);
            var qb := Add(pb, sb);
            Sub(qb, qa) == Add(Sub(pb, pa), c) &&
            Add(Scale(Sub(qa, pa), ma), Scale(Sub(qb, pb), mb)) == Zero
  {
    var qa := Sub(pa, sa);
    var qb := Add(pb, sb);
    assert Sub(qa, pa) == Neg(sa) && Sub(qb, pb) == sb;
    assert sa.x * ma == sb.x * mb && sa.y * ma == sb.y * mb;
    assert Scale(Neg(sa), ma) == Neg(Scale(sb, mb));
  }

  /** How the penetration depth is shared in CorrectPair: `a` moves by the
      fraction m_b / (m_a + m_b) of it, backwards along `n`, `b` by the fraction
      m_a / (m_a + m_b), forwards, and together they cover the whole depth. */
  lemma {:induction false} CorrectPairShares(a: Body, b: Body, sqrt: real -> real)
    requires IsSqrt(sqrt)
    requires a.Dynamic? && b.Dynamic? && a.mass > 0.0 && b.mass > 0.0
    requires LengthSquared(Sub(b.pos, a.pos)) > 0.0
    ensures var n := Normalize(Sub(b.pos, a.pos), sqrt);
            var depth := a.radius + b.radius - Length(Sub(b.pos, a.pos), sqrt);
            var r := CorrectPair(a, b, sqrt);
            Sub(a.pos, r.0.pos) == Scale(Scale(n, depth), b.mass / (a.mass + b.mass)) &&
            Sub(r.1.pos, b.pos) == Scale(Scale(n, depth), a.mass / (b.mass + a.mass)) &&
            Add(Sub(a.pos, r.0.pos), Sub(r.1.pos, b.pos)) == Scale(n, depth)
  {
    var n := Normalize(Sub(b.pos, a.pos), sqrt);
    var depth := a.radius + b.radius - Length(Sub(b.pos, a.pos), sqrt);
    InverseMassSplit(Scale(n, depth), a.mass, b.mass);
    InverseMassSplit(Scale(n, depth), b.mass, a.mass);
  }

  /** An overlapping pair of circles with positive radii is pushed apart, not
      together: along `n` their centres were `Length` apart and end up the
      combined radius apart, which is the old distance plus the penetration depth. */
  lemma {:induction false} CorrectPairSeparates(a: Body, b: Body, sqrt: real -> real)
    requires IsSqrt(sqrt)
    requires a.Dynamic? && b.Dynamic? && a.mass > 0.0 && b.mass > 0.0
    requires LengthSquared(Sub(b.pos, a.pos)) > 0.0
    requires Overlapping(a, b) && a.radius + b.radius > 0.0
    ensures var n := Normalize(Sub(b.pos, a.pos), sqrt);
            var r := CorrectPair(a, b, sqrt);
            Dot(Sub(r.1.pos, r.0.pos), n) == Dot(Sub(b.pos, a.pos), n) + PenetrationDepth(a, b, sqrt) &&
            Dot(Sub(r.1.pos, r.0.pos), n) == a.radius + b.radius &&
            Dot(Sub(r.1.pos, r.0.pos), n) > Dot(Sub(b.pos, a.pos), n)
  {
    var ab := Sub(b.pos, a.pos);
    var n := Normalize(ab, sqrt);
    var depth := PenetrationDepth(a, b, sqrt);
    var r := CorrectPair(a, b, sqrt);
    CorrectPairShares(a, b, sqrt);
    assert Sub(r.1.pos, r.0.pos) == Add(ab, Add(Sub(a.pos, r.0.pos), Sub(r.1.pos, b.pos)));
    assert Sub(r.1.pos, r.0.pos) == Add(ab, Scale(n, depth));
    DotAddAlongUnit(ab, n, depth);
    assert Dot(ab, n) == Dot(n, ab);
  }

  // ------------------------------------------------------ solve_pos, the pass

  /** What a pass has produced so far: the bodies and the contact list it pushed. */
  datatype Pass = Pass(bodies: seq<Body>, contacts: seq<(Entity, Entity)>)

  /** Pair (i, j) is one that `iter_combinations_mut` yields: both bodies have a mass. */
  predicate InQuery(bodies: seq<Body>, i: nat, j: nat)
  {
    i < |bodies| && j < |bodies| && bodies[i].Dynamic? && bodies[j].Dynamic?
  }

  /** One turn of the loop of `solve_pos`, on the pair (i, j) with i < j. A pair the
      query does not yield, or whose circles do not overlap, changes nothing; an
      overlapping pair is corrected and pushed onto the contact list, unless the
      two centres coincide (the source then divides by zero). */
  function PairStep(p: Pass, i: nat, j: nat, sqrt: real -> real): (r: Result<Pass>)
    requires IsSqrt(sqrt) && WellFormed(p.bodies) && i < j < |p.bodies|
    ensures r.Ok? ==> PositionsOnly(p.bodies, r.value.bodies) && WellFormed(r.value.bodies)
    ensures r.Failure? <==> InQuery(p.bodies, i, j) && Overlapping(p.bodies[i], p.bodies[j])
                            && LengthSquared(Sub(p.bodies[j].pos, p.bodies[i].pos)) == 0.0
    ensures r.Failure? ==> r.fault == CoincidentCentres
    ensures r.Ok? && !(InQuery(p.bodies, i, j) && Overlapping(p.bodies[i], p.bodies[j])) ==> r.value == p
    ensures r.Ok? && InQuery(p.bodies, i, j) && Overlapping(p.bodies[i], p.bodies[j]) ==>
              r.value.contacts == p.contacts + [(i, j)] &&
              (r.value.bodies[i], r.value.bodies[j]) == CorrectPair(p.bodies[i], p.bodies[j], sqrt) &&
              forall k :: 0 <= k < |p.bodies| && k != i && k != j ==> r.value.bodies[k] == p.bodies[k]
  {
    var a := p.bodies[i];
    var b := p.bodies[j];
    if !InQuery(p.bodies, i, j) || !Overlapping(a, b) then
      Ok(p)
    else if LengthSquaredNonNegative(Sub(b.pos, a.pos)); LengthSquared(Sub(b.pos, a.pos)) <= 0.0 then
      // `ab_length` is zero: `n = ab / ab_length` is NaN
      Failure(CoincidentCentres)
    else
      var r := CorrectPair(a, b, sqrt);
      Ok(Pass(p.bodies[i := r.0][j := r.1], p.contacts + [(i, j)]))
  }

  /** The pairs (i, j), (i, j + 1), ..., (i, n - 1), in that order. */
  function SolvePosRow(p: Pass, i: nat, j: nat, sqrt: real -> real): (r: Result<Pass>)
    requires IsSqrt(sqrt) && WellFormed(p.bodies) && i < j <= |p.bodies|
    ensures r.Ok? ==> PositionsOnly(p.bodies, r.value.bodies) && WellFormed(r.value.bodies)
    ensures r.Failure? ==> r.fault == CoincidentCentres
    decreases |p.bodies| - j
  {
    if j == |p.bodies| then Ok(p)
    else
      match PairStep(p, i, j, sqrt)
      case Failure(f) => Failure(f)
      case Ok(q) =>
        var r := SolvePosRow(q, i, j + 1, sqrt);
        if r.Ok? then PositionsOnlyTransitive(p.bodies, q.bodies, r.value.bodies); r else r
  }

  /** The pairs of row `i` from `j` on: none left, or the first pair's fault,
      or the rest of the row from the first pair's result. */
  lemma SolvePosRowStep(p: Pass, i: nat, j: nat, sqrt: real -> real)
    requires IsSqrt(sqrt) && WellFormed(p.bodies) && i < j <= |p.bodies|
    ensures j == |p.bodies| ==> SolvePosRow(p, i, j, sqrt) == Ok(p)
    ensures j < |p.bodies| && PairStep(p, i, j, sqrt).Failure? ==> SolvePosRow(p, i, j, sqrt).Failure?
    ensures j < |p.bodies| && PairStep(p, i, j, sqrt).Ok? ==>
              SolvePosRow(p, i, j, sqrt) == SolvePosRow(PairStep(p, i, j, sqrt).value, i, j + 1, sqrt)
  {}

  /** The rows i, i + 1, ..., n - 1: every pair (i', j') with i <= i' < j' < n,
      in the order `iter_combinations_mut` yields them. */
  function SolvePosFrom(p: Pass, i: nat, sqrt: real -> real): (r: Result<Pass>)
    requires IsSqrt(sqrt) && WellFormed(p.bodies) && i <= |p.bodies|
    ensures r.Ok? ==> PositionsOnly(p.bodies, r.value.bodies) && WellFormed(r.value.bodies)
    ensures r.Failure? ==> r.fault == CoincidentCentres
    decreases |p.bodies| - i
  {
    if i == |p.bodies| then Ok(p)
    else
      match SolvePosRow(p, i, i + 1, sqrt)
      case Failure(f) => Failure(f)
      case Ok(q) =>
        var r := SolvePosFrom(q, i + 1, sqrt);
        if r.Ok? then PositionsOnlyTransitive(p.bodies, q.bodies, r.value.bodies); r else r
  }

  /** The rows from `i` on: none left, or the first row's fault, or the rest
      of the rows from the first row's result. */
  lemma SolvePosFromStep(p: Pass, i: nat, sqrt: real -> real)
    requires IsSqrt(sqrt) && WellFormed(p.bodies) && i <= |p.bodies|
    ensures i == |p.bodies| ==> SolvePosFrom(p, i, sqrt) == Ok(p)
    ensures i < |p.bodies| && SolvePosRow(p, i, i + 1, sqrt).Failure? ==> SolvePosFrom(p, i, sqrt).Failure?
    ensures i < |p.bodies| && SolvePosRow(p, i, i + 1, sqrt).Ok? ==>
              SolvePosFrom(p, i, sqrt) == SolvePosFrom(SolvePosRow(p, i, i + 1, sqrt).value, i + 1, sqrt)
  {}

  /** `solve_pos`: clear the contact list, then visit every pair once. */
  function SolvePosSpec(bodies: seq<Body>, sqrt: real -> real): (r: Result<Pass>)
    requires IsSqrt(sqrt) && WellFormed(bodies)
    ensures r.Ok? ==> PositionsOnly(bodies, r.value.bodies) && WellFormed(r.value.bodies)
    ensures r.Failure? ==> r.fault == CoincidentCentres
  {
    SolvePosFrom(Pass(bodies, []), 0, sqrt)
  }

  /** A contact of `solve_pos`: two different bodies with a mass, the first one
      earlier in the query than the second. */
  predicate ValidContact(bodies: seq<Body>, c: (Entity, Entity))
  {
    c.0 < c.1 && InQuery(bodies, c.0, c.1)
  }

  /** Contact `c` was pushed before pair (i, j) was visited. */
  predicate Before(c: (Entity, Entity), i: nat, j: nat)
  {
    c.0 < i || (c.0 == i && c.1 < j)
  }

  /** Every contact is valid, and the list is strictly increasing in the order
      the pairs are visited, so no unordered pair appears twice. */
  predicate ContactsInOrder(bodies: seq<Body>, contacts: seq<(Entity, Entity)>)
  {
    (forall k :: 0 <= k < |contacts| ==> ValidContact(bodies, contacts[k])) &&
    (forall k, l :: 0 <= k < l < |contacts| ==> Before(contacts[k], contacts[l].0, contacts[l].1))
  }

  lemma ContactsInOrderKinds(before: seq<Body>, after: seq<Body>, contacts: seq<(Entity, Entity)>)
    requires ContactsInOrder(before, contacts) && SameKinds(before, after)
    ensures ContactsInOrder(after, contacts)
  {
    forall k | 0 <= k < |contacts|
      ensures ValidContact(after, contacts[k])
    {
      assert ValidContact(before, contacts[k]);
      assert SameKind(before[contacts[k].0], after[contacts[k].0]);
      assert SameKind(before[contacts[k].1], after[contacts[k].1]);
    }
  }

  /** One pair keeps the contact list in order, and every contact on it now
      comes before the next pair of the row. */
  lemma {:induction false} PairStepContacts(p: Pass, i: nat, j: nat, sqrt: real -> real)
    requires IsSqrt(sqrt) && WellFormed(p.bodies) && i < j < |p.bodies|
    requires ContactsInOrder(p.bodies, p.contacts)
    requires forall k :: 0 <= k < |p.contacts| ==> Before(p.contacts[k], i, j)
    ensures var s := PairStep(p, i, j, sqrt);
            s.Ok? ==> ContactsInOrder(s.value.bodies, s.value.contacts) &&
                      forall k :: 0 <= k < |s.value.contacts| ==> Before(s.value.contacts[k], i, j + 1)
  {
    var s := PairStep(p, i, j, sqrt);
    if s.Ok? {
      var q := s.value;
      PositionsOnlyKinds(p.bodies, q.bodies);
      ContactsInOrderKinds(p.bodies, q.bodies, p.contacts);
      if InQuery(p.bodies, i, j) && Overlapping(p.bodies[i], p.bodies[j]) {
        assert q.contacts == p.contacts + [(i, j)];
        assert ValidContact(q.bodies, (i, j));
      } else {
        assert q == p;
      }
    }
  }

  lemma {:induction false} SolvePosRowContacts(p: Pass, i: nat, j: nat, sqrt: real -> real)
    requires IsSqrt(sqrt) && WellFormed(p.bodies) && i < j <= |p.bodies|
    requires ContactsInOrder(p.bodies, p.contacts)
    requires forall k :: 0 <= k < |p.contacts| ==> Before(p.contacts[k], i, j)
    ensures var r := SolvePosRow(p, i, j, sqrt);
            r.Ok? ==> ContactsInOrder(r.value.bodies, r.value.contacts) &&
                      forall k :: 0 <= k < |r.value.contacts| ==> Before(r.value.contacts[k], i + 1, 0)
    decreases |p.bodies| - j
  {
    SolvePosRowStep(p, i, j, sqrt);
    if j < |p.bodies| && PairStep(p, i, j, sqrt).Ok? {
      PairStepContacts(p, i, j, sqrt);
      SolvePosRowContacts(PairStep(p, i, j, sqrt).value, i, j + 1, sqrt);
    }
  }

  lemma {:induction false} SolvePosFromContacts(p: Pass, i: nat, sqrt: real -> real)
    requires IsSqrt(sqrt) && WellFormed(p.bodies) && i <= |p.bodies|
    requires ContactsInOrder(p.bodies, p.contacts)
    requires forall k :: 0 <= k < |p.contacts| ==> Before(p.contacts[k], i, 0)
    ensures var r := SolvePosFrom(p, i, sqrt);
            r.Ok? ==> ContactsInOrder(r.value.bodies, r.value.contacts)
    decreases |p.bodies| - i
  {
    SolvePosFromStep(p, i, sqrt);
    if i < |p.bodies| && SolvePosRow(p, i, i + 1, sqrt).Ok? {
      assert forall k :: 0 <= k < |p.contacts| ==> Before(p.contacts[k], i, i + 1);
      SolvePosRowContacts(p, i, i + 1, sqrt);
      SolvePosFromContacts(SolvePosRow(p, i, i + 1, sqrt).value, i + 1, sqrt);
    }
  }

  /** After `solve_pos` every contact names two different bodies with a mass,
      the lower index first, and no unordered pair is recorded twice. */
  lemma SolvePosContacts(bodies: seq<Body>, sqrt: real -> real)
    requires IsSqrt(sqrt) && WellFormed(bodies)
    ensures var r := SolvePosSpec(bodies, sqrt);
            r.Ok? ==> ContactsInOrder(r.value.bodies, r.value.contacts)
    ensures var r := SolvePosSpec(bodies, sqrt);
            r.Ok? ==> forall k, l :: 0 <= k < l < |r.value.contacts| ==> r.value.contacts[k] != r.value.contacts[l]
  {
    SolvePosFromContacts(Pass(bodies, []), 0, sqrt);
  }

  /** No two bodies with a mass overlap. */
  predicate NoOverlaps(bodies: seq<Body>)
  {
    forall i, j :: 0 <= i < j < |bodies| && InQuery(bodies, i, j) ==> !Overlapping(bodies[i], bodies[j])
  }

  lemma {:induction false} NoOverlapsRow(p: Pass, i: nat, j: nat, sqrt: real -> real)
    requires IsSqrt(sqrt) && WellFormed(p.bodies) && i < j <= |p.bodies| && NoOverlaps(p.bodies)
    ensures SolvePosRow(p, i, j, sqrt) == Ok(p)
    decreases |p.bodies| - j
  {
    if j < |p.bodies| {
      assert PairStep(p, i, j, sqrt) == Ok(p);
      NoOverlapsRow(p, i, j + 1, sqrt);
    }
  }

  lemma {:induction false} NoOverlapsFrom(p: Pass, i: nat, sqrt: real -> real)
    requires IsSqrt(sqrt) && WellFormed(p.bodies) && i <= |p.bodies| && NoOverlaps(p.bodies)
    ensures SolvePosFrom(p, i, sqrt) == Ok(p)
    decreases |p.bodies| - i
  {
    if i < |p.bodies| {
      NoOverlapsRow(p, i, i + 1, sqrt);
      NoOverlapsFrom(p, i + 1, sqrt);
    }
  }

  /** When no two bodies overlap, `solve_pos` moves nothing and records no contact. */
  lemma NoOverlapsNoContacts(bodies: seq<Body>, sqrt: real -> real)
    requires IsSqrt(sqrt) && WellFormed(bodies) && NoOverlaps(bodies)
    ensures SolvePosSpec(bodies, sqrt) == Ok(Pass(bodies, []))
  {
    NoOverlapsFrom(Pass(bodies, []), 0, sqrt);
  }

  // ---------------------------------------------------------------- solve_vel

  /** `(restitution_a + restitution_b) / 2`: the mean, so it lies between the two. */
  function CombinedRestitution(ea: real, eb: real): (e: real)
    ensures e - ea == eb - e
    ensures (ea <= eb ==> ea <= e <= eb) && (eb <= ea ==> eb <= e <= ea)
  {
    (ea + eb) / 2.0
  }

  /** The velocity update of one contact in `solve_vel`. With `n` the unit vector
      from `a` to `b`, the impulse changes each velocity only along `n`, keeps
      the momentum m_a·v_a + m_b·v_b, and leaves the relative normal velocity
      equal to −e times the relative normal velocity before the solve. */
  function ImpulsePair(a: Body, b: Body, sqrt: real -> real): (r: (Body, Body))
    requires IsSqrt(sqrt)
    requires a.Dynamic? && b.Dynamic? && a.mass > 0.0 && b.mass > 0.0
    requires LengthSquared(Sub(b.pos, a.pos)) > 0.0
    ensures r.0.Dynamic? && r.1.Dynamic?
    ensures r.0 == a.(vel := r.0.vel) && r.1 == b.(vel := r.1.vel)
    ensures var n := Normalize(Sub(b.pos, a.pos), sqrt);
            Dot(Sub(r.0.vel, a.vel), Perp(n)) == 0.0 && Dot(Sub(r.1.vel, b.vel), Perp(n)) == 0.0
    ensures Add(Scale(r.0.vel, a.mass), Scale(r.1.vel, b.mass)) == Add(Scale(a.vel, a.mass), Scale(b.vel, b.mass))
    ensures var n := Normalize(Sub(b.pos, a.pos), sqrt);
            Dot(Sub(r.0.vel, r.1.vel), n)
              == -CombinedRestitution(a.restitution, b.restitution) * Dot(Sub(a.preSolveVel, b.preSolveVel), n)
  {
    var n := Normalize(Sub(b.pos, a.pos), sqrt);
    var preSolveRelativeVel := Sub(a.preSolveVel, b.preSolveVel);
    var preSolveNormalVel := Dot(preSolveRelativeVel, n);
    var relativeVel := Sub(a.vel, b.vel);
    var normalVel := Dot(relativeVel, n);
    var restitution := CombinedRestitution(a.restitution, b.restitution);
    var impulse := Scale(n, -normalVel - restitution * preSolveNormalVel);
    ExchangeImpulse(a.vel, b.vel, n, -normalVel - restitution * preSolveNormalVel, a.mass, b.mass);
    (a.(vel := Add(a.vel, Share(impulse, a.mass, b.mass))),
     b.(vel := Sub(b.vel, Share(impulse, b.mass, a.mass))))
  }

  /** An impulse `n·j` along a unit `n`, shared by inverse mass, added to `va`
      and taken from `vb`: each velocity changes only along `n`, the momentum
      is kept, and the relative velocity along `n` grows by exactly `j`. */
  lemma {:induction false} ExchangeImpulse(va: Vec2, vb: Vec2, n: Vec2, j: real, ma: real, mb: real)
    requires ma > 0.0 && mb > 0.0 && LengthSquared(n) == 1.0
    ensures var ra := Add(va, Share(Scale(n, j), ma, mb));
            var rb := Sub(vb, Share(Scale(n, j), mb, ma));
            Dot(Sub(ra, va), Perp(n)) == 0.0 && Dot(Sub(rb, vb), Perp(n)) == 0.0 &&
            Add(Scale(ra, ma), Scale(rb, mb)) == Add(Scale(va, ma), Scale(vb, mb)) &&
            Dot(Sub(ra, rb), n) == Dot(Sub(va, vb), n) + j
  {
    InverseMassSplit(Scale(n, j), ma, mb);
    ShareAlong(n, j, ma, mb);
    ShareAlong(n, j, mb, ma);
    ExchangeShares(va, vb, n, j, Share(Scale(n, j), ma, mb), Share(Scale(n, j), mb, ma), ma, mb);
  }

  /** The same, for any two shares `sa`, `sb` along `n` that add up to the impulse
      and carry equal momentum. */
  lemma {:induction false} ExchangeShares(va: Vec2, vb: Vec2, n: Vec2, j: real, sa: Vec2, sb: Vec2, ma: real, mb: real)
    requires LengthSquared(n) == 1.0 && Add(sa, sb) == Scale(n, j) && Scale(sa, ma) == Scale(sb, mb)
    requires Dot(sa, Perp(n)) == 0.0 && Dot(sb, Perp(n)) == 0.0
    ensures var ra := Add(va, sa);
            var rb := Sub(vb, sb);
            Dot(Sub(ra, va), Perp(n)) == 0.0 && Dot(Sub(rb, vb), Perp(n)) == 0.0 &&
            Add(Scale(ra, ma), Scale(rb, mb)) == Add(Scale(va, ma), Scale(vb, mb)) &&
            Dot(Sub(ra, rb), n) == Dot(Sub(va, vb), n) + j
  {
    var ra := Add(va, sa);
    var rb := Sub(vb, sb);
    assert Sub(ra, va) == sa;
    assert Sub(rb, vb) == Neg(sb);
    assert Dot(Neg(sb), Perp(n)) == -Dot(sb, Perp(n));
    MomentumKept(va, vb, sa, sb, ma, mb);
    assert Sub(ra, rb) == Add(Sub(va, vb), Scale(n, j));
    DotAddAlongUnit(Sub(va, vb), n, j);
  }

  lemma {:induction false} MomentumKept(va: Vec2, vb: Vec2, sa: Vec2, sb: Vec2, ma: real, mb: real)
    requires Scale(sa, ma) == Scale(sb, mb)
    ensures Add(Scale(Add(va, sa), ma), Scale(Sub(vb, sb), mb)) == Add(Scale(va, ma), Scale(vb, mb))
  {
    assert sa.x * ma == sb.x * mb && sa.y * ma == sb.y * mb;
    MomentumComponent(va.x, vb.x, sa.x, sb.x, ma, mb);
    MomentumComponent(va.y, vb.y, sa.y, sb.y, ma, mb);
  }

  lemma MomentumComponent(va: real, vb: real, sa: real, sb: real, ma: real, mb: real)
    requires sa * ma == sb * mb
    ensures (va + sa) * ma + (vb - sb) * mb == va * ma + vb * mb
  {
    assert (va + sa) * ma == va * ma + sa * ma;
    assert (vb - sb) * mb == vb * mb - sb * mb;
  }

  /** A share of a correction along `n` is itself along `n`. */
  lemma {:induction false} ShareAlong(n: Vec2, k: real, ma: real, mb: real)
    requires ma > 0.0 && mb > 0.0
    ensures Dot(Share(Scale(n, k), ma, mb), Perp(n)) == 0.0
  {
    InverseMassSplit(Scale(n, k), ma, mb);
    AlongHasNoTangent(n, k * (mb / (ma + mb)));
  }

  // ------------------------------------------------------ solve_vel, the pass

  /** One turn of the loop of `solve_vel`, on the contact (a, b). The source
      asserts that the two entities differ, then unwraps the query for each of
      them, which panics unless the entity has a velocity and a mass; a zero
      distance between the centres makes `normalize` return NaN. */
  function ContactImpulse(bodies: seq<Body>, c: (Entity, Entity), sqrt: real -> real): (r: Result<seq<Body>>)
    requires IsSqrt(sqrt) && WellFormed(bodies)
    ensures r.Ok? ==> VelocitiesOnly(bodies, r.value) && WellFormed(r.value)
    ensures r == Failure(SameEntity) <==> c.0 == c.1
    ensures r == Failure(MissingComponents) <==> c.0 != c.1 && !InQuery(bodies, c.0, c.1)
    ensures r == Failure(CoincidentCentres) <==>
              c.0 != c.1 && InQuery(bodies, c.0, c.1) && LengthSquared(Sub(bodies[c.1].pos, bodies[c.0].pos)) == 0.0
    ensures r.Ok? ==>
              c.0 != c.1 && InQuery(bodies, c.0, c.1) &&
              (r.value[c.0], r.value[c.1]) == ImpulsePair(bodies[c.0], bodies[c.1], sqrt) &&
              forall k :: 0 <= k < |bodies| && k != c.0 && k != c.1 ==> r.value[k] == bodies[k]
  {
    if c.0 == c.1 then
      Failure(SameEntity)
    else if !InQuery(bodies, c.0, c.1) then
      Failure(MissingComponents)
    else
      var a := bodies[c.0];
      var b := bodies[c.1];
      LengthSquaredNonNegative(Sub(b.pos, a.pos));
      if LengthSquared(Sub(b.pos, a.pos)) <= 0.0 then
        Failure(CoincidentCentres)
      else
        var r := ImpulsePair(a, b, sqrt);
        Ok(bodies[c.0 := r.0][c.1 := r.1])
  }

  /** The contacts k, k + 1, ..., in the order of the contact list. */
  function SolveVelFrom(bodies: seq<Body>, contacts: seq<(Entity, Entity)>, k: nat, sqrt: real -> real): (r: Result<seq<Body>>)
    requires IsSqrt(sqrt) && WellFormed(bodies) && k <= |contacts|
    ensures r.Ok? ==> VelocitiesOnly(bodies, r.value) && WellFormed(r.value)
    decreases |contacts| - k
  {
    if k == |contacts| then Ok(bodies)
    else
      match ContactImpulse(bodies, contacts[k], sqrt)
      case Failure(f) => Failure(f)
      case Ok(next) =>
        var r := SolveVelFrom(next, contacts, k + 1, sqrt);
        if r.Ok? then VelocitiesOnlyTransitive(bodies, next, r.value); r else r
  }

  /** `solve_vel`: every contact of the list, in order. */
  function SolveVelSpec(bodies: seq<Body>, contacts: seq<(Entity, Entity)>, sqrt: real -> real): (r: Result<seq<Body>>)
    requires IsSqrt(sqrt) && WellFormed(bodies)
    ensures r.Ok? ==> VelocitiesOnly(bodies, r.value) && WellFormed(r.value)
  {
    SolveVelFrom(bodies, contacts, 0, sqrt)
  }

  lemma {:induction false} SolveVelFromValid(bodies: seq<Body>, contacts: seq<(Entity, Entity)>, k: nat, sqrt: real -> real)
    requires IsSqrt(sqrt) && WellFormed(bodies) && k <= |contacts|
    requires ContactsInOrder(bodies, contacts)
    ensures SolveVelFrom(bodies, contacts, k, sqrt).Failure? ==>
              SolveVelFrom(bodies, contacts, k, sqrt).fault == CoincidentCentres
    decreases |contacts| - k
  {
    if k < |contacts| {
      assert ValidContact(bodies, contacts[k]);
      var s := ContactImpulse(bodies, contacts[k], sqrt);
      if s.Ok? {
        VelocitiesOnlyKinds(bodies, s.value);
        ContactsInOrderKinds(bodies, s.value, contacts);
        SolveVelFromValid(s.value, contacts, k + 1, sqrt);
      }
    }
  }

  /** On a contact list `solve_pos` could have produced, `solve_vel` never reaches
      its `assert!` or an `unwrap` that fails: the only way it can go wrong is a
      pair whose centres coincide. */
  lemma SolveVelValidContacts(bodies: seq<Body>, contacts: seq<(Entity, Entity)>, sqrt: real -> real)
    requires IsSqrt(sqrt) && WellFormed(bodies)
    requires ContactsInOrder(bodies, contacts)
    ensures SolveVelSpec(bodies, contacts, sqrt).Failure? ==> SolveVelSpec(bodies, contacts, sqrt).fault == CoincidentCentres
  {
    SolveVelFromValid(bodies, contacts, 0, sqrt);
  }

  // ---------------------------------------------------- conserved quantities

  /** The sum of `f` over the bodies. */
  function Total(bodies: seq<Body>, f: Body -> Vec2): Vec2
  {
    if |bodies| == 0 then Zero else Add(Total(bodies[..|bodies| - 1], f), f(bodies[|bodies| - 1]))
  }

  /** Replacing one body changes the sum by the difference of the two terms. */
  lemma {:induction false} TotalUpdate(bodies: seq<Body>, i: nat, b: Body, f: Body -> Vec2)
    requires i < |bodies|
    ensures Total(bodies[i := b], f) == Add(Sub(Total(bodies, f), f(bodies[i])), f(b))
  {
    var n := |bodies| - 1;
    if i == n {
      assert bodies[i := b][..n] == bodies[..n];
    } else {
      assert bodies[i := b][..n] == bodies[..n][i := b];
      TotalUpdate(bodies[..n], i, b, f);
    }
  }

  /** Replacing two bodies by two whose terms have the same sum keeps the total. */
  lemma {:induction false} TotalPairUpdate(bodies: seq<Body>, i: nat, j: nat, a: Body, b: Body, f: Body -> Vec2)
    requires i < |bodies| && j < |bodies| && i != j
    requires Add(f(a), f(b)) == Add(f(bodies[i]), f(bodies[j]))
    ensures Total(bodies[i := a][j := b], f) == Total(bodies, f)
  {
    TotalUpdate(bodies, i, a, f);
    TotalUpdate(bodies[i := a], j, b, f);
  }

  /** m·v of a body with a mass, nothing for any other. */
  function Momentum(b: Body): Vec2
  {
    if b.Dynamic? then Scale(b.vel, b.mass) else Zero
  }

  /** m·x of a body with a mass: the sum over the bodies, divided by the total
      mass, is their centre of mass. */
  function MassMoment(b: Body): Vec2
  {
    if b.Dynamic? then Scale(b.pos, b.mass) else Zero
  }

  lemma {:induction false} SolveVelFromMomentum(bodies: seq<Body>, contacts: seq<(Entity, Entity)>, k: nat, sqrt: real -> real)
    requires IsSqrt(sqrt) && WellFormed(bodies) && k <= |contacts|
    ensures var r := SolveVelFrom(bodies, contacts, k, sqrt);
            r.Ok? ==> Total(r.value, Momentum) == Total(bodies, Momentum)
    decreases |contacts| - k
  {
    if k < |contacts| {
      var c := contacts[k];
      var s := ContactImpulse(bodies, c, sqrt);
      if s.Ok? {
        var r := ImpulsePair(bodies[c.0], bodies[c.1], sqrt);
        TotalPairUpdate(bodies, c.0, c.1, r.0, r.1, Momentum);
        SolveVelFromMomentum(s.value, contacts, k + 1, sqrt);
      }
    }
  }

  /** `solve_vel` keeps the total momentum of the bodies with a mass. */
  lemma SolveVelMomentum(bodies: seq<Body>, contacts: seq<(Entity, Entity)>, sqrt: real -> real)
    requires IsSqrt(sqrt) && WellFormed(bodies)
    ensures var r := SolveVelSpec(bodies, contacts, sqrt);
            r.Ok? ==> Total(r.value, Momentum) == Total(bodies, Momentum)
  {
    SolveVelFromMomentum(bodies, contacts, 0, sqrt);
  }

  /** The correction of one pair keeps the pair's mass moment m_a·x_a + m_b·x_b. */
  lemma {:induction false} CorrectPairMoment(a: Body, b: Body, sqrt: real -> real)
    requires IsSqrt(sqrt)
    requires a.Dynamic? && b.Dynamic? && a.mass > 0.0 && b.mass > 0.0
    requires LengthSquared(Sub(b.pos, a.pos)) > 0.0
    ensures var r := CorrectPair(a, b, sqrt);
            Add(MassMoment(r.0), MassMoment(r.1)) == Add(MassMoment(a), MassMoment(b))
  {
    var r := CorrectPair(a, b, sqrt);
    assert MassMoment(r.0) == Scale(r.0.pos, a.mass) && MassMoment(r.1) == Scale(r.1.pos, b.mass);
    assert MassMoment(a) == Scale(a.pos, a.mass) && MassMoment(b) == Scale(b.pos, b.mass);
    MomentShift(a.pos, b.pos, r.0.pos, r.1.pos, a.mass, b.mass);
  }

  lemma {:induction false} MomentShift(pa: Vec2, pb: Vec2, qa: Vec2, qb: Vec2, ma: real, mb: real)
    requires Add(Scale(Sub(qa, pa), ma), Scale(Sub(qb, pb), mb)) == Zero
    ensures Add(Scale(qa, ma), Scale(qb, mb)) == Add(Scale(pa, ma), Scale(pb, mb))
  {
    assert (qa.x - pa.x) * ma + (qb.x - pb.x) * mb == 0.0 && (qa.y - pa.y) * ma + (qb.y - pb.y) * mb == 0.0;
    ShiftComponent(pa.x, pb.x, qa.x, qb.x, ma, mb);
    ShiftComponent(pa.y, pb.y, qa.y, qb.y, ma, mb);
  }

  lemma ShiftComponent(pa: real, pb: real, qa: real, qb: real, ma: real, mb: real)
    requires (qa - pa) * ma + (qb - pb) * mb == 0.0
    ensures qa * ma + qb * mb == pa * ma + pb * mb
  {
    assert (qa - pa) * ma == qa * ma - pa * ma;
    assert (qb - pb) * mb == qb * mb - pb * mb;
  }

  /** One pair keeps the total mass moment. */
  lemma {:induction false} PairStepMoment(p: Pass, i: nat, j: nat, sqrt: real -> real)
    requires IsSqrt(sqrt) && WellFormed(p.bodies) && i < j < |p.bodies|
    ensures var s := PairStep(p, i, j, sqrt);
            s.Ok? ==> Total(s.value.bodies, MassMoment) == Total(p.bodies, MassMoment)
  {
    var s := PairStep(p, i, j, sqrt);
    if s.Ok? && InQuery(p.bodies, i, j) && Overlapping(p.bodies[i], p.bodies[j]) {
      var r := CorrectPair(p.bodies[i], p.bodies[j], sqrt);
      assert s.value.bodies == p.bodies[i := r.0][j := r.1];
      CorrectPairMoment(p.bodies[i], p.bodies[j], sqrt);
      TotalPairUpdate(p.bodies, i, j, r.0, r.1, MassMoment);
    }
  }

  lemma {:induction false} SolvePosRowMoment(p: Pass, i: nat, j: nat, sqrt: real -> real)
    requires IsSqrt(sqrt) && WellFormed(p.bodies) && i < j <= |p.bodies|
    ensures var r := SolvePosRow(p, i, j, sqrt);
            r.Ok? ==> Total(r.value.bodies, MassMoment) == Total(p.bodies, MassMoment)
    decreases |p.bodies| - j
  {
    SolvePosRowStep(p, i, j, sqrt);
    if j < |p.bodies| && PairStep(p, i, j, sqrt).Ok? {
      PairStepMoment(p, i, j, sqrt);
      SolvePosRowMoment(PairStep(p, i, j, sqrt).value, i, j + 1, sqrt);
    }
  }

  lemma {:induction false} SolvePosFromMoment(p: Pass, i: nat, sqrt: real -> real)
    requires IsSqrt(sqrt) && WellFormed(p.bodies) && i <= |p.bodies|
    ensures var r := SolvePosFrom(p, i, sqrt);
            r.Ok? ==> Total(r.value.bodies, MassMoment) == Total(p.bodies, MassMoment)
    decreases |p.bodies| - i
  {
    SolvePosFromStep(p, i, sqrt);
    if i < |p.bodies| && SolvePosRow(p, i, i + 1, sqrt).Ok? {
      var q := SolvePosRow(p, i, i + 1, sqrt).value;
      SolvePosRowMoment(p, i, i + 1, sqrt);
      SolvePosFromMoment(q, i + 1, sqrt);
      assert Total(q.bodies, MassMoment) == Total(p.bodies, MassMoment);
    }
  }

  /** `solve_pos` keeps the centre of mass of the bodies with a mass where it is. */
  lemma SolvePosMassMoment(bodies: seq<Body>, sqrt: real -> real)
    requires IsSqrt(sqrt) && WellFormed(bodies)
    ensures var r := SolvePosSpec(bodies, sqrt);
            r.Ok? ==> Total(r.value.bodies, MassMoment) == Total(bodies, MassMoment)
  {
    SolvePosFromMoment(Pass(bodies, []), 0, sqrt);
  }

  /** The sum of a linear combination is the combination of the sums. */
  lemma {:induction false} TotalLinear(t: seq<Body>, a: seq<Body>, b: seq<Body>, f: Body -> Vec2, g: Body -> Vec2, h: Body -> Vec2)
    requires |t| == |a| == |b|
    requires forall i :: 0 <= i < |t| ==> f(t[i]) == Add(g(a[i]), h(b[i]))
    ensures Total(t, f) == Add(Total(a, g), Total(b, h))
  {
    if |t| > 0 {
      var n := |t| - 1;
      TotalLinear(t[..n], a[..n], b[..n], f, g, h);
    }
  }

  lemma {:induction false} TotalScale(s: seq<Body>, f: Body -> Vec2, g: Body -> Vec2, k: real)
    requires forall i :: 0 <= i < |s| ==> g(s[i]) == Scale(f(s[i]), k)
    ensures Total(s, g) == Scale(Total(s, f), k)
  {
    if |s| > 0 {
      TotalScale(s[..|s| - 1], f, g, k);
    }
  }

  /** m·g of a body with a mass: the weight gravity puts on it. */
  function WeightOf(gravity: Vec2): Body -> Vec2
  {
    (b: Body) => if b.Dynamic? then Scale(gravity, b.mass) else Zero
  }

  function ScaledBy(f: Body -> Vec2, k: real): Body -> Vec2
  {
    (b: Body) => Scale(f(b), k)
  }

  lemma ScaledByApply(f: Body -> Vec2, k: real, b: Body)
    ensures ScaledBy(f, k)(b) == Scale(f(b), k)
  {}

  /** m·v + m·g·dt: the momentum of a body with a mass after integration. */
  function IntegratedMomentum(gravity: Vec2): Body -> Vec2
  {
    (b: Body) => if b.Dynamic? then Add(Scale(b.vel, b.mass), Scale(Scale(gravity, b.mass), DeltaTime)) else Zero
  }

  lemma IntegratedMomentumSplit(gravity: Vec2, b: Body)
    ensures IntegratedMomentum(gravity)(b) == Add(Momentum(b), ScaledBy(WeightOf(gravity), DeltaTime)(b))
  {
    ScaledByApply(WeightOf(gravity), DeltaTime, b);
    if b.Dynamic? {
      assert WeightOf(gravity)(b) == Scale(gravity, b.mass);
    } else {
      assert WeightOf(gravity)(b) == Zero && IntegratedMomentum(gravity)(b) == Zero;
    }
  }

  lemma QuotientTimesDivisor(a: real, dt: real)
    requires dt != 0.0
    ensures a / dt * dt == a
  {}

  lemma SwapFactors(d: real, m: real, dt: real)
    ensures (d * m) * dt == (d * dt) * m
  {}

  lemma {:induction false} DifferenceComponent(p: real, q: real, m: real, dt: real)
    requires dt != 0.0
    ensures ((p - q) / dt * m) * dt == p * m + q * m * -1.0
  {
    var d := (p - q) / dt;
    QuotientTimesDivisor(p - q, dt);
    SwapFactors(d, m, dt);
    MultiplyEqual(m, d * dt, p - q);
  }

  /** x + (v + g·dt)·dt, times m, is m·x plus (m·v + m·g·dt)·dt. */
  lemma {:induction false} IntegrateVec(x: Vec2, v: Vec2, g: Vec2, m: real, dt: real)
    ensures Scale(Add(x, Scale(Add(v, Scale(g, dt)), dt)), m)
              == Add(Scale(x, m), Scale(Add(Scale(v, m), Scale(Scale(g, m), dt)), dt))
  {
    var a := Add(v, Scale(g, dt));
    ScaleAdd(x, Scale(a, dt), m);
    ScaleSwap(a, dt, m);
    ScaleAdd(v, Scale(g, dt), m);
    ScaleSwap(g, dt, m);
  }

  lemma {:induction false} DifferenceVec(p: Vec2, q: Vec2, m: real, dt: real)
    requires dt != 0.0
    ensures Scale(Scale(Div(Sub(p, q), dt), m), dt) == Add(Scale(p, m), Scale(Scale(q, m), -1.0))
  {
    DifferenceComponent(p.x, q.x, m, dt);
    DifferenceComponent(p.y, q.y, m, dt);
  }

  lemma CancelComponent(x: real, y: real, k: real)
    requires k != 0.0 && x * k == y * k
    ensures x == y
  {
    assert x == (x * k) / k;
  }

  /** A body moved from x to x + (v + g·dt)·dt, its mass kept, moves its mass
      moment by (m·v + m·g·dt)·dt. */
  lemma {:induction false} IntegratedBodyMoment(b: Body, r: Body, gravity: Vec2)
    requires b.Dynamic? ==> r.Dynamic? && r.mass == b.mass &&
                            r.pos == Add(b.pos, Scale(Add(b.vel, Scale(gravity, DeltaTime)), DeltaTime))
    requires !b.Dynamic? ==> r == b
    ensures MassMoment(r) == Add(MassMoment(b), Scale(IntegratedMomentum(gravity)(b), DeltaTime))
  {
    if b.Dynamic? {
      IntegrateVec(b.pos, b.vel, gravity, b.mass, DeltaTime);
    }
  }

  /** Integration moves the mass moment of the bodies by (Σ m·v + Σ m·g·dt)·dt. */
  lemma {:induction false} IntegrateMassMoment(bodies: seq<Body>, gravity: Vec2)
    requires WellFormed(bodies)
    ensures Total(IntegrateAll(bodies, gravity), MassMoment)
              == Add(Total(bodies, MassMoment), Total(bodies, ScaledBy(IntegratedMomentum(gravity), DeltaTime)))
  {
    var integrated := IntegrateAll(bodies, gravity);
    forall i | 0 <= i < |integrated|
      ensures MassMoment(integrated[i]) == Add(MassMoment(bodies[i]), ScaledBy(IntegratedMomentum(gravity), DeltaTime)(bodies[i]))
    {
      IntegratedBodyMoment(bodies[i], integrated[i], gravity);
      ScaledByApply(IntegratedMomentum(gravity), DeltaTime, bodies[i]);
    }
    TotalLinear(integrated, bodies, bodies, MassMoment, MassMoment, ScaledBy(IntegratedMomentum(gravity), DeltaTime));
  }

  /** The momentum `update_vel` derives for one body, times dt, is its mass
      moment minus that of its previous position. */
  lemma {:induction false} UpdatedBodyMomentum(c: Body, start: Body)
    requires SameKind(start, c) && (c.Dynamic? ==> c.prevPos == start.pos)
    ensures Scale(Momentum(UpdateVelBody(c)), DeltaTime) == Add(MassMoment(c), Scale(MassMoment(start), -1.0))
  {
    if c.Dynamic? {
      var v := Div(Sub(c.pos, c.prevPos), DeltaTime);
      assert UpdateVelBody(c) == c.(vel := v);
      assert Momentum(UpdateVelBody(c)) == Scale(v, c.mass);
      assert MassMoment(c) == Scale(c.pos, c.mass);
      assert MassMoment(start) == Scale(c.prevPos, c.mass);
      DifferenceVec(c.pos, c.prevPos, c.mass, DeltaTime);
    } else {
      assert UpdateVelBody(c) == c && start == c;
      assert Momentum(c) == Zero && MassMoment(c) == Zero;
    }
  }

  /** The momentum `update_vel` derives, times dt, is the mass moment of the
      bodies minus that of their previous positions. */
  lemma {:induction false} UpdateVelMomentum(solved: seq<Body>, start: seq<Body>)
    requires |solved| == |start|
    requires forall i :: 0 <= i < |solved| ==>
               SameKind(start[i], solved[i]) && (solved[i].Dynamic? ==> solved[i].prevPos == start[i].pos)
    ensures Scale(Total(UpdateVelAll(solved), Momentum), DeltaTime)
              == Add(Total(solved, MassMoment), Scale(Total(start, MassMoment), -1.0))
  {
    var updated := UpdateVelAll(solved);
    forall i | 0 <= i < |updated|
      ensures ScaledBy(Momentum, DeltaTime)(updated[i])
                == Add(MassMoment(solved[i]), ScaledBy(MassMoment, -1.0)(start[i]))
    {
      assert updated[i] == UpdateVelBody(solved[i]);
      ScaledByApply(Momentum, DeltaTime, updated[i]);
      ScaledByApply(MassMoment, -1.0, start[i]);
      UpdatedBodyMomentum(solved[i], start[i]);
    }
    TotalScale(updated, Momentum, ScaledBy(Momentum, DeltaTime), DeltaTime);
    TotalLinear(updated, solved, start, ScaledBy(Momentum, DeltaTime), MassMoment, ScaledBy(MassMoment, -1.0));
    TotalScale(start, MassMoment, ScaledBy(MassMoment, -1.0), -1.0);
  }

  // --------------------------------------------------------------- one tick

  /** One tick of the plugin's stage: integrate, then solve positions (which
      rebuilds the contact list), then update velocities, then solve velocities. */
  function StepSpec(bodies: seq<Body>, gravity: Vec2, sqrt: real -> real): (r: Result<Pass>)
    requires IsSqrt(sqrt) && WellFormed(bodies)
    ensures r.Ok? ==> SameKinds(bodies, r.value.bodies) && WellFormed(r.value.bodies)
  {
    var integrated := IntegrateAll(bodies, gravity);
    match SolvePosSpec(integrated, sqrt)
    case Failure(f) => Failure(f)
    case Ok(p) =>
      var updated := UpdateVelAll(p.bodies);
      PositionsOnlyKinds(integrated, p.bodies);
      VelocitiesOnlyKinds(p.bodies, updated);
      SameKindsWellFormed(p.bodies, updated);
      match SolveVelSpec(updated, p.contacts, sqrt)
      case Failure(f) => Failure(f)
      case Ok(solved) =>
        VelocitiesOnlyKinds(updated, solved);
        Ok(Pass(solved, p.contacts))
  }

  /** A tick never panics: the contacts `solve_pos` hands to `solve_vel` are
      always pairs of two different bodies with a mass, and the only thing that
      can go wrong is a pair of coincident centres. The contact list a tick
      leaves behind is ordered and free of repeats. */
  lemma StepFaults(bodies: seq<Body>, gravity: Vec2, sqrt: real -> real)
    requires IsSqrt(sqrt) && WellFormed(bodies)
    ensures var r := StepSpec(bodies, gravity, sqrt);
            r.Failure? ==> r.fault == CoincidentCentres
    ensures var r := StepSpec(bodies, gravity, sqrt);
            r.Ok? ==> ContactsInOrder(r.value.bodies, r.value.contacts)
  {
    var integrated := IntegrateAll(bodies, gravity);
    var p := SolvePosSpec(integrated, sqrt);
    if p.Ok? {
      SolvePosContacts(integrated, sqrt);
      var updated := UpdateVelAll(p.value.bodies);
      VelocitiesOnlyKinds(p.value.bodies, updated);
      ContactsInOrderKinds(p.value.bodies, updated, p.value.contacts);
      SolveVelValidContacts(updated, p.value.contacts, sqrt);
      var v := SolveVelSpec(updated, p.value.contacts, sqrt);
      if v.Ok? {
        VelocitiesOnlyKinds(updated, v.value);
        ContactsInOrderKinds(updated, v.value, p.value.contacts);
        assert StepSpec(bodies, gravity, sqrt) == Ok(Pass(v.value, p.value.contacts));
      } else {
        assert StepSpec(bodies, gravity, sqrt) == Failure(v.fault);
      }
    }
  }

  /** After a tick every body with a mass remembers where it was at the start of
      the tick and the velocity integration gave it, and every other body is
      untouched. */
  lemma StepBookkeeping(bodies: seq<Body>, gravity: Vec2, sqrt: real -> real)
    requires IsSqrt(sqrt) && WellFormed(bodies)
    ensures var r := StepSpec(bodies, gravity, sqrt);
            r.Ok? ==> forall i :: 0 <= i < |bodies| ==>
              if bodies[i].Dynamic? then
                r.value.bodies[i].Dynamic? &&
                r.value.bodies[i].prevPos == bodies[i].pos &&
                r.value.bodies[i].preSolveVel == Add(bodies[i].vel, Scale(gravity, DeltaTime))
              else r.value.bodies[i] == bodies[i]
  {
    var integrated := IntegrateAll(bodies, gravity);
    var p := SolvePosSpec(integrated, sqrt);
    if p.Ok? {
      var updated := UpdateVelAll(p.value.bodies);
      var v := SolveVelSpec(updated, p.value.contacts, sqrt);
      if v.Ok? {
        forall i | 0 <= i < |bodies|
          ensures if bodies[i].Dynamic? then
                    v.value[i].Dynamic? &&
                    v.value[i].prevPos == bodies[i].pos &&
                    v.value[i].preSolveVel == Add(bodies[i].vel, Scale(gravity, DeltaTime))
                  else v.value[i] == bodies[i]
        {
          assert integrated[i] == IntegrateBody(bodies[i], gravity);
          assert PosOnly(integrated[i], p.value.bodies[i]);
          assert VelOnly(p.value.bodies[i], updated[i]);
          assert VelOnly(updated[i], v.value[i]);
        }
      }
    }
  }

  /** A tick in which no two bodies overlap after integration is free flight:
      positions and velocities are the integrated ones and no contact is recorded. */
  lemma StepFreeFlight(bodies: seq<Body>, gravity: Vec2, sqrt: real -> real)
    requires IsSqrt(sqrt) && WellFormed(bodies)
    requires NoOverlaps(IntegrateAll(bodies, gravity))
    ensures StepSpec(bodies, gravity, sqrt) == Ok(Pass(IntegrateAll(bodies, gravity), []))
  {
    var integrated := IntegrateAll(bodies, gravity);
    NoOverlapsNoContacts(integrated, sqrt);
    forall i | 0 <= i < |integrated|
      ensures UpdateVelAll(integrated)[i] == integrated[i]
    {
      UpdateVelAfterIntegrate(bodies[i], gravity);
    }
    assert UpdateVelAll(integrated) == integrated;
  }

  /** Σ (m·v + m·g·dt)·dt = (Σ m·v + (Σ m·g)·dt)·dt */
  lemma {:induction false} IntegratedMomentumTotal(bodies: seq<Body>, gravity: Vec2)
    ensures Total(bodies, ScaledBy(IntegratedMomentum(gravity), DeltaTime))
              == Scale(Add(Total(bodies, Momentum), Scale(Total(bodies, WeightOf(gravity)), DeltaTime)), DeltaTime)
  {
    forall i | 0 <= i < |bodies|
      ensures ScaledBy(IntegratedMomentum(gravity), DeltaTime)(bodies[i])
                == Scale(IntegratedMomentum(gravity)(bodies[i]), DeltaTime)
      ensures IntegratedMomentum(gravity)(bodies[i])
                == Add(Momentum(bodies[i]), ScaledBy(WeightOf(gravity), DeltaTime)(bodies[i]))
      ensures ScaledBy(WeightOf(gravity), DeltaTime)(bodies[i]) == Scale(WeightOf(gravity)(bodies[i]), DeltaTime)
    {
      ScaledByApply(IntegratedMomentum(gravity), DeltaTime, bodies[i]);
      ScaledByApply(WeightOf(gravity), DeltaTime, bodies[i]);
      IntegratedMomentumSplit(gravity, bodies[i]);
    }
    TotalScale(bodies, IntegratedMomentum(gravity), ScaledBy(IntegratedMomentum(gravity), DeltaTime), DeltaTime);
    TotalLinear(bodies, bodies, bodies, IntegratedMomentum(gravity), Momentum, ScaledBy(WeightOf(gravity), DeltaTime));
    TotalScale(bodies, WeightOf(gravity), ScaledBy(WeightOf(gravity), DeltaTime), DeltaTime);
  }

  lemma {:induction false} CancelVec(u: Vec2, v: Vec2, k: real)
    requires k != 0.0 && Scale(u, k) == Scale(v, k)
    ensures u == v
  {
    CancelComponent(u.x, v.x, k);
    CancelComponent(u.y, v.y, k);
  }

  /** Chains the four totals of a tick: what `update_vel` derives (`after`, times
      dt, is the mass moment `solved` minus the starting one), what `solve_pos`
      keeps (`solved == integrated`) and what integration adds (`gain`, times dt). */
  lemma {:induction false} MomentumBalance(after: Vec2, solved: Vec2, integrated: Vec2, start: Vec2, moved: Vec2, gain: Vec2)
    requires Scale(after, DeltaTime) == Add(solved, Scale(start, -1.0))
    requires solved == integrated && integrated == Add(start, moved)
    requires moved == Scale(gain, DeltaTime)
    ensures after == gain
  {
    assert Scale(after, DeltaTime) == Scale(gain, DeltaTime);
    CancelVec(after, gain, DeltaTime);
  }

  /** The momentum the bodies have once `update_vel` has run: the momentum at the
      start of the tick plus the impulse of their weight, whatever `solve_pos` did. */
  lemma {:induction false} MomentumBeforeSolveVel(bodies: seq<Body>, gravity: Vec2, sqrt: real -> real)
    requires IsSqrt(sqrt) && WellFormed(bodies)
    ensures var p := SolvePosSpec(IntegrateAll(bodies, gravity), sqrt);
            p.Ok? ==> Total(UpdateVelAll(p.value.bodies), Momentum)
                        == Add(Total(bodies, Momentum), Scale(Total(bodies, WeightOf(gravity)), DeltaTime))
  {
    var integrated := IntegrateAll(bodies, gravity);
    var p := SolvePosSpec(integrated, sqrt);
    if p.Ok? {
      var solved := p.value.bodies;
      forall i | 0 <= i < |solved|
        ensures SameKind(bodies[i], solved[i]) && (solved[i].Dynamic? ==> solved[i].prevPos == bodies[i].pos)
      {
        assert PosOnly(integrated[i], solved[i]);
      }
      UpdateVelMomentum(solved, bodies);
      SolvePosMassMoment(integrated, sqrt);
      IntegrateMassMoment(bodies, gravity);
      IntegratedMomentumTotal(bodies, gravity);
      MomentumBalance(Total(UpdateVelAll(solved), Momentum), Total(solved, MassMoment),
                      Total(integrated, MassMoment), Total(bodies, MassMoment),
                      Total(bodies, ScaledBy(IntegratedMomentum(gravity), DeltaTime)),
                      Add(Total(bodies, Momentum), Scale(Total(bodies, WeightOf(gravity)), DeltaTime)));
    }
  }

  /** Over a whole tick, contacts neither create nor destroy momentum: the total
      momentum of the bodies with a mass grows by exactly the impulse of their
      total weight over one tick. */
  lemma StepMomentum(bodies: seq<Body>, gravity: Vec2, sqrt: real -> real)
    requires IsSqrt(sqrt) && WellFormed(bodies)
    ensures var r := StepSpec(bodies, gravity, sqrt);
            r.Ok? ==> Total(r.value.bodies, Momentum)
                        == Add(Total(bodies, Momentum), Scale(Total(bodies, WeightOf(gravity)), DeltaTime))
  {
    var integrated := IntegrateAll(bodies, gravity);
    var p := SolvePosSpec(integrated, sqrt);
    if p.Ok? {
      var updated := UpdateVelAll(p.value.bodies);
      MomentumBeforeSolveVel(bodies, gravity, sqrt);
      SolveVelMomentum(updated, p.value.contacts, sqrt);
    }
  }
}
