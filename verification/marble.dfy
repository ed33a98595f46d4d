/** The systems the marble example adds to the plugin's stage: position and
    velocity projection against static colliders (bodies without a mass), and
    the removal of every entity that has fallen below the floor. */
module Marble {
  import opened Vectors
  import opened Component
  import opened Xpbd
  import opened World

  // ------------------------------------------------------- solve_pos_statics

  /** The correction of one overlapping (dynamic, static) pair in
      `solve_pos_statics`: only the dynamic body moves, backwards along the unit
      vector `n` from it to the static one, by the whole penetration depth, and
      the two circles are left exactly touching. */
  function CorrectAgainstStatic(a: Body, s: Body, sqrt: real -> real): (r: Body)
    requires IsSqrt(sqrt)
    requires a.Dynamic? && s.Static?
    requires LengthSquared(Sub(s.pos, a.pos)) > 0.0
    ensures r.Dynamic? && r == WithPos(a, r.pos)
    ensures LengthSquared(Sub(s.pos, r.pos)) == (a.radius + s.radius) * (a.radius + s.radius)
    ensures var ab := Sub(s.pos, a.pos);
            var depth := a.radius + s.radius - Length(ab, sqrt);
            Dot(Sub(a.pos, r.pos), Normalize(ab, sqrt)) == depth &&
            Dot(Sub(a.pos, r.pos), Perp(ab)) == 0.0 &&
            LengthSquared(Sub(a.pos, r.pos)) == depth * depth
  {
    var ab := Sub(s.pos, a.pos);
    var combinedRadius := a.radius + s.radius;
    var abLength := Length(ab, sqrt);
    var depth := combinedRadius - abLength;
    var n := Normalize(ab, sqrt);
    ExtendTo(ab, combinedRadius, sqrt);
    AlongTangentFree(n, ab, depth);
    DotAddAlongUnit(Zero, n, depth);
    ScaledLength(n, depth);
    WithPos(a, Sub(a.pos, Scale(n, depth)))
  }

  /** An overlapping dynamic body with a static collider of positive combined
      radius is pushed away from it: along `n` the distance grows by the
      penetration depth, to the combined radius. */
  lemma {:induction false} CorrectAgainstStaticSeparates(a: Body, s: Body, sqrt: real -> real)
    requires IsSqrt(sqrt)
    requires a.Dynamic? && s.Static?
    requires LengthSquared(Sub(s.pos, a.pos)) > 0.0
    requires Overlapping(a, s) && a.radius + s.radius > 0.0
    ensures var n := Normalize(Sub(s.pos, a.pos), sqrt);
            var r := CorrectAgainstStatic(a, s, sqrt);
            Dot(Sub(s.pos, r.pos), n) == Dot(Sub(s.pos, a.pos), n) + PenetrationDepth(a, s, sqrt) &&
            Dot(Sub(s.pos, r.pos), n) == a.radius + s.radius &&
            Dot(Sub(s.pos, r.pos), n) > Dot(Sub(s.pos, a.pos), n)
  {
    var ab := Sub(s.pos, a.pos);
    var n := Normalize(ab, sqrt);
    var back := Sub(a.pos, CorrectAgainstStatic(a, s, sqrt).pos);
    assert Sub(s.pos, CorrectAgainstStatic(a, s, sqrt).pos) == Add(ab, back);
    assert Dot(Add(ab, back), n) == Dot(ab, n) + Dot(back, n);
    assert Dot(ab, n) == Dot(n, ab);
  }

  lemma AlongTangentFree(n: Vec2, v: Vec2, k: real)
    requires Dot(n, Perp(v)) == 0.0
    ensures Dot(Scale(n, k), Perp(v)) == 0.0
  {
    assert Dot(Scale(n, k), Perp(v)) == k * Dot(n, Perp(v));
  }

  /** A unit vector scaled by `k` has length |k|. */
  lemma {:induction false} ScaledLength(n: Vec2, k: real)
    requires LengthSquared(n) == 1.0
    ensures LengthSquared(Scale(n, k)) == k * k
  {
    ScaledSquares(n.x, n.y, k);
    MultiplyEqual(k * k, LengthSquared(n), 1.0);
  }

  /** Pair (i, j) is one the two queries of `solve_pos_statics` yield: `i` has
      a mass, `j` has none. */
  predicate InStaticQueries(bodies: seq<Body>, i: nat, j: nat)
  {
    i < |bodies| && j < |bodies| && bodies[i].Dynamic? && bodies[j].Static?
  }

  /** One turn of the inner loop of `solve_pos_statics`. */
  function StaticPairStep(p: Pass, i: nat, j: nat, sqrt: real -> real): (r: Result<Pass>)
    requires IsSqrt(sqrt) && WellFormed(p.bodies) && i < |p.bodies| && j < |p.bodies|
    ensures r.Ok? ==> PositionsOnly(p.bodies, r.value.bodies) && WellFormed(r.value.bodies)
    ensures r.Failure? <==> InStaticQueries(p.bodies, i, j) && Overlapping(p.bodies[i], p.bodies[j])
                            && LengthSquared(Sub(p.bodies[j].pos, p.bodies[i].pos)) == 0.0
    ensures r.Failure? ==> r.fault == CoincidentCentres
    ensures r.Ok? && !(InStaticQueries(p.bodies, i, j) && Overlapping(p.bodies[i], p.bodies[j])) ==> r.value == p
    ensures r.Ok? && InStaticQueries(p.bodies, i, j) && Overlapping(p.bodies[i], p.bodies[j]) ==>
              r.value.contacts == p.contacts + [(i, j)] &&
              r.value.bodies == p.bodies[i := CorrectAgainstStatic(p.bodies[i], p.bodies[j], sqrt)]
  {
    if !InStaticQueries(p.bodies, i, j) || !Overlapping(p.bodies[i], p.bodies[j]) then
      Ok(p)
    else
      var a := p.bodies[i];
      var s := p.bodies[j];
      LengthSquaredNonNegative(Sub(s.pos, a.pos));
      if LengthSquared(Sub(s.pos, a.pos)) <= 0.0 then
        Failure(CoincidentCentres)
      else
        Ok(Pass(p.bodies[i := CorrectAgainstStatic(a, s, sqrt)], p.contacts + [(i, j)]))
  }

  /** The statics j, j + 1, ..., n - 1 against the dynamic body `i`. */
  function StaticRow(p: Pass, i: nat, j: nat, sqrt: real -> real): (r: Result<Pass>)
    requires IsSqrt(sqrt) && WellFormed(p.bodies) && i < |p.bodies| && j <= |p.bodies|
    ensures r.Ok? ==> PositionsOnly(p.bodies, r.value.bodies) && WellFormed(r.value.bodies)
    ensures r.Failure? ==> r.fault == CoincidentCentres
    decreases |p.bodies| - j
  {
    if j == |p.bodies| then Ok(p)
    else
      match StaticPairStep(p, i, j, sqrt)
      case Failure(f) => Failure(f)
      case Ok(q) =>
        var r := StaticRow(q, i, j + 1, sqrt);
        if r.Ok? then PositionsOnlyTransitive(p.bodies, q.bodies, r.value.bodies); r else r
  }

  /** The dynamic bodies i, i + 1, ..., n - 1, each against every static. */
  function StaticFrom(p: Pass, i: nat, sqrt: real -> real): (r: Result<Pass>)
    requires IsSqrt(sqrt) && WellFormed(p.bodies) && i <= |p.bodies|
    ensures r.Ok? ==> PositionsOnly(p.bodies, r.value.bodies) && WellFormed(r.value.bodies)
    ensures r.Failure? ==> r.fault == CoincidentCentres
    decreases |p.bodies| - i
  {
    if i == |p.bodies| then Ok(p)
    else
      match StaticRow(p, i, 0, sqrt)
      case Failure(f) => Failure(f)
      case Ok(q) =>
        var r := StaticFrom(q, i + 1, sqrt);
        if r.Ok? then PositionsOnlyTransitive(p.bodies, q.bodies, r.value.bodies); r else r
  }

  /** `solve_pos_statics`: clear `StaticContacts`, then every dynamic body (outer
      loop) against every static one (inner loop). Static bodies never move. */
  function SolvePosStaticsSpec(bodies: seq<Body>, sqrt: real -> real): (r: Result<Pass>)
    requires IsSqrt(sqrt) && WellFormed(bodies)
    ensures r.Ok? ==> PositionsOnly(bodies, r.value.bodies) && WellFormed(r.value.bodies)
    ensures r.Ok? ==> forall k :: 0 <= k < |bodies| && !bodies[k].Dynamic? ==> r.value.bodies[k] == bodies[k]
    ensures r.Failure? ==> r.fault == CoincidentCentres
  {
    var r := StaticFrom(Pass(bodies, []), 0, sqrt);
    if r.Ok? then
      assert forall k :: 0 <= k < |bodies| ==> PosOnly(bodies[k], r.value.bodies[k]);
      r
    else r
  }

  /** A contact of `solve_pos_statics`: a body with a mass, then one without. */
  predicate ValidStaticContact(bodies: seq<Body>, c: (Entity, Entity))
  {
    InStaticQueries(bodies, c.0, c.1)
  }

  /** Every static contact is valid, and the list is strictly increasing in the
      order the pairs are visited (dynamic body first, then static body). */
  predicate StaticContactsInOrder(bodies: seq<Body>, contacts: seq<(Entity, Entity)>)
  {
    (forall k :: 0 <= k < |contacts| ==> ValidStaticContact(bodies, contacts[k])) &&
    (forall k, l :: 0 <= k < l < |contacts| ==> Before(contacts[k], contacts[l].0, contacts[l].1))
  }

  lemma StaticContactsInOrderKinds(before: seq<Body>, after: seq<Body>, contacts: seq<(Entity, Entity)>)
    requires StaticContactsInOrder(before, contacts) && SameKinds(before, after)
    ensures StaticContactsInOrder(after, contacts)
  {
    forall k | 0 <= k < |contacts|
      ensures ValidStaticContact(after, contacts[k])
    {
      assert ValidStaticContact(before, contacts[k]);
      assert SameKind(before[contacts[k].0], after[contacts[k].0]);
      assert SameKind(before[contacts[k].1], after[contacts[k].1]);
    }
  }

  /** The statics from `j` on: none left, or the first pair's fault, or the
      rest of the row from the first pair's result. */
  lemma StaticRowStep(p: Pass, i: nat, j: nat, sqrt: real -> real)
    requires IsSqrt(sqrt) && WellFormed(p.bodies) && i < |p.bodies| && j <= |p.bodies|
    ensures j == |p.bodies| ==> StaticRow(p, i, j, sqrt) == Ok(p)
    ensures j < |p.bodies| && StaticPairStep(p, i, j, sqrt).Failure? ==> StaticRow(p, i, j, sqrt).Failure?
    ensures j < |p.bodies| && StaticPairStep(p, i, j, sqrt).Ok? ==>
              StaticRow(p, i, j, sqrt) == StaticRow(StaticPairStep(p, i, j, sqrt).value, i, j + 1, sqrt)
  {}

  /** The dynamic bodies from `i` on: none left, or the first row's fault, or
      the rest from the first row's result. */
  lemma StaticFromStep(p: Pass, i: nat, sqrt: real -> real)
    requires IsSqrt(sqrt) && WellFormed(p.bodies) && i <= |p.bodies|
    ensures i == |p.bodies| ==> StaticFrom(p, i, sqrt) == Ok(p)
    ensures i < |p.bodies| && StaticRow(p, i, 0, sqrt).Failure? ==> StaticFrom(p, i, sqrt).Failure?
    ensures i < |p.bodies| && StaticRow(p, i, 0, sqrt).Ok? ==>
              StaticFrom(p, i, sqrt) == StaticFrom(StaticRow(p, i, 0, sqrt).value, i + 1, sqrt)
  {}

  /** One (dynamic, static) pair keeps the static contact list in order, and
      every contact on it now comes before the next pair. */
  lemma {:induction false} StaticPairContacts(p: Pass, i: nat, j: nat, sqrt: real -> real)
    requires IsSqrt(sqrt) && WellFormed(p.bodies) && i < |p.bodies| && j < |p.bodies|
    requires StaticContactsInOrder(p.bodies, p.contacts)
    requires forall k :: 0 <= k < |p.contacts| ==> Before(p.contacts[k], i, j)
    ensures var s := StaticPairStep(p, i, j, sqrt);
            s.Ok? ==> StaticContactsInOrder(s.value.bodies, s.value.contacts) &&
                      forall k :: 0 <= k < |s.value.contacts| ==> Before(s.value.contacts[k], i, j + 1)
  {
    var s := StaticPairStep(p, i, j, sqrt);
    if s.Ok? {
      var q := s.value;
      PositionsOnlyKinds(p.bodies, q.bodies);
      StaticContactsInOrderKinds(p.bodies, q.bodies, p.contacts);
      if InStaticQueries(p.bodies, i, j) && Overlapping(p.bodies[i], p.bodies[j]) {
        assert q.contacts == p.contacts + [(i, j)];
        assert ValidStaticContact(q.bodies, (i, j));
      } else {
        assert q == p;
      }
    }
  }

  lemma {:induction false} StaticRowContacts(p: Pass, i: nat, j: nat, sqrt: real -> real)
    requires IsSqrt(sqrt) && WellFormed(p.bodies) && i < |p.bodies| && j <= |p.bodies|
    requires StaticContactsInOrder(p.bodies, p.contacts)
    requires forall k :: 0 <= k < |p.contacts| ==> Before(p.contacts[k], i, j)
    ensures var r := StaticRow(p, i, j, sqrt);
            r.Ok? ==> StaticContactsInOrder(r.value.bodies, r.value.contacts) &&
                      forall k :: 0 <= k < |r.value.contacts| ==> Before(r.value.contacts[k], i + 1, 0)
    decreases |p.bodies| - j
  {
    StaticRowStep(p, i, j, sqrt);
    if j < |p.bodies| && StaticPairStep(p, i, j, sqrt).Ok? {
      StaticPairContacts(p, i, j, sqrt);
      StaticRowContacts(StaticPairStep(p, i, j, sqrt).value, i, j + 1, sqrt);
    }
  }

  lemma {:induction false} StaticFromContacts(p: Pass, i: nat, sqrt: real -> real)
    requires IsSqrt(sqrt) && WellFormed(p.bodies) && i <= |p.bodies|
    requires StaticContactsInOrder(p.bodies, p.contacts)
    requires forall k :: 0 <= k < |p.contacts| ==> Before(p.contacts[k], i, 0)
    ensures var r := StaticFrom(p, i, sqrt);
            r.Ok? ==> StaticContactsInOrder(r.value.bodies, r.value.contacts)
    decreases |p.bodies| - i
  {
    StaticFromStep(p, i, sqrt);
    if i < |p.bodies| && StaticRow(p, i, 0, sqrt).Ok? {
      StaticRowContacts(p, i, 0, sqrt);
      StaticFromContacts(StaticRow(p, i, 0, sqrt).value, i + 1, sqrt);
    }
  }

  /** After `solve_pos_statics` every static contact pairs a body with a mass and
      one without, in dynamic-outer, static-inner order, and none is repeated. */
  lemma SolvePosStaticsContacts(bodies: seq<Body>, sqrt: real -> real)
    requires IsSqrt(sqrt) && WellFormed(bodies)
    ensures var r := SolvePosStaticsSpec(bodies, sqrt);
            r.Ok? ==> StaticContactsInOrder(r.value.bodies, r.value.contacts)
    ensures var r := SolvePosStaticsSpec(bodies, sqrt);
            r.Ok? ==> forall k, l :: 0 <= k < l < |r.value.contacts| ==> r.value.contacts[k] != r.value.contacts[l]
  {
    StaticFromContacts(Pass(bodies, []), 0, sqrt);
  }

  /** No body with a mass overlaps a body without one. */
  predicate NoStaticOverlaps(bodies: seq<Body>)
  {
    forall i, j :: 0 <= i < |bodies| && 0 <= j < |bodies| && InStaticQueries(bodies, i, j) ==> !Overlapping(bodies[i], bodies[j])
  }

  lemma {:induction false} NoStaticOverlapsRow(p: Pass, i: nat, j: nat, sqrt: real -> real)
    requires IsSqrt(sqrt) && WellFormed(p.bodies) && i < |p.bodies| && j <= |p.bodies|
    requires NoStaticOverlaps(p.bodies)
    ensures StaticRow(p, i, j, sqrt) == Ok(p)
    decreases |p.bodies| - j
  {
    if j < |p.bodies| {
      assert StaticPairStep(p, i, j, sqrt) == Ok(p);
      NoStaticOverlapsRow(p, i, j + 1, sqrt);
    }
  }

  lemma {:induction false} NoStaticOverlapsFrom(p: Pass, i: nat, sqrt: real -> real)
    requires IsSqrt(sqrt) && WellFormed(p.bodies) && i <= |p.bodies|
    requires NoStaticOverlaps(p.bodies)
    ensures StaticFrom(p, i, sqrt) == Ok(p)
    decreases |p.bodies| - i
  {
    if i < |p.bodies| {
      NoStaticOverlapsRow(p, i, 0, sqrt);
      NoStaticOverlapsFrom(p, i + 1, sqrt);
    }
  }

  /** When nothing overlaps a static collider, `solve_pos_statics` moves nothing
      and records no contact. */
  lemma NoStaticOverlapsNoContacts(bodies: seq<Body>, sqrt: real -> real)
    requires IsSqrt(sqrt) && WellFormed(bodies) && NoStaticOverlaps(bodies)
    ensures SolvePosStaticsSpec(bodies, sqrt) == Ok(Pass(bodies, []))
  {
    NoStaticOverlapsFrom(Pass(bodies, []), 0, sqrt);
  }

  // ------------------------------------------------------- solve_vel_statics

  /** The velocity update of one static contact in `solve_vel_statics`. With `n`
      the unit vector from the static body to the dynamic one, the dynamic
      body's velocity changes only along `n`, so its tangential component is
      kept, and its normal component becomes −e times the one before the solve. */
  function StaticImpulse(a: Body, s: Body, sqrt: real -> real): (r: Body)
    requires IsSqrt(sqrt)
    requires a.Dynamic? && s.Static?
    requires LengthSquared(Sub(a.pos, s.pos)) > 0.0
    ensures r.Dynamic? && r == a.(vel := r.vel)
    ensures var n := Normalize(Sub(a.pos, s.pos), sqrt);
            Dot(r.vel, Perp(n)) == Dot(a.vel, Perp(n)) &&
            Dot(r.vel, n) == -CombinedRestitution(a.restitution, s.restitution) * Dot(a.preSolveVel, n)
  {
    var n := Normalize(Sub(a.pos, s.pos), sqrt);
    var preSolveNormalVel := Dot(a.preSolveVel, n);
    var normalVel := Dot(a.vel, n);
    var restitution := CombinedRestitution(a.restitution, s.restitution);
    var k := -normalVel - restitution * preSolveNormalVel;
    AlongHasNoTangent(n, k);
    DotAddAlongUnit(a.vel, n, k);
    a.(vel := Add(a.vel, Scale(n, k)))
  }

  /** One turn of the loop of `solve_vel_statics`, on the contact (a, s): both
      `unwrap`s panic unless `a` has a mass and `s` is a static collider. */
  function StaticContactImpulse(bodies: seq<Body>, c: (Entity, Entity), sqrt: real -> real): (r: Result<seq<Body>>)
    requires IsSqrt(sqrt) && WellFormed(bodies)
    ensures r.Ok? ==> VelocitiesOnly(bodies, r.value) && WellFormed(r.value)
    ensures r == Failure(MissingComponents) <==> !InStaticQueries(bodies, c.0, c.1)
    ensures r == Failure(CoincidentCentres) <==>
              InStaticQueries(bodies, c.0, c.1) && LengthSquared(Sub(bodies[c.0].pos, bodies[c.1].pos)) == 0.0
    ensures r.Failure? ==> r.fault != SameEntity
    ensures r.Ok? ==>
              InStaticQueries(bodies, c.0, c.1) &&
              r.value == bodies[c.0 := StaticImpulse(bodies[c.0], bodies[c.1], sqrt)]
  {
    if !InStaticQueries(bodies, c.0, c.1) then
      Failure(MissingComponents)
    else
      var a := bodies[c.0];
      var s := bodies[c.1];
      LengthSquaredNonNegative(Sub(a.pos, s.pos));
      if LengthSquared(Sub(a.pos, s.pos)) <= 0.0 then
        Failure(CoincidentCentres)
      else
        Ok(bodies[c.0 := StaticImpulse(a, s, sqrt)])
  }

  /** The static contacts k, k + 1, ..., in the order of the list. */
  function SolveVelStaticsFrom(bodies: seq<Body>, contacts: seq<(Entity, Entity)>, k: nat, sqrt: real -> real)
    : (r: Result<seq<Body>>)
    requires IsSqrt(sqrt) && WellFormed(bodies) && k <= |contacts|
    ensures r.Ok? ==> VelocitiesOnly(bodies, r.value) && WellFormed(r.value)
    decreases |contacts| - k
  {
    if k == |contacts| then Ok(bodies)
    else
      match StaticContactImpulse(bodies, contacts[k], sqrt)
      case Failure(f) => Failure(f)
      case Ok(next) =>
        var r := SolveVelStaticsFrom(next, contacts, k + 1, sqrt);
        if r.Ok? then VelocitiesOnlyTransitive(bodies, next, r.value); r else r
  }

  /** `solve_vel_statics`: every static contact of the list, in order. Bodies
      without a mass are never written. */
  function SolveVelStaticsSpec(bodies: seq<Body>, contacts: seq<(Entity, Entity)>, sqrt: real -> real)
    : (r: Result<seq<Body>>)
    requires IsSqrt(sqrt) && WellFormed(bodies)
    ensures r.Ok? ==> VelocitiesOnly(bodies, r.value) && WellFormed(r.value)
    ensures r.Ok? ==> forall k :: 0 <= k < |bodies| && !bodies[k].Dynamic? ==> r.value[k] == bodies[k]
  {
    SolveVelStaticsFrom(bodies, contacts, 0, sqrt)
  }

  lemma {:induction false} SolveVelStaticsFromValid(bodies: seq<Body>, contacts: seq<(Entity, Entity)>, k: nat, sqrt: real -> real)
    requires IsSqrt(sqrt) && WellFormed(bodies) && k <= |contacts|
    requires StaticContactsInOrder(bodies, contacts)
    ensures SolveVelStaticsFrom(bodies, contacts, k, sqrt).Failure? ==>
              SolveVelStaticsFrom(bodies, contacts, k, sqrt).fault == CoincidentCentres
    decreases |contacts| - k
  {
    if k < |contacts| {
      assert ValidStaticContact(bodies, contacts[k]);
      var s := StaticContactImpulse(bodies, contacts[k], sqrt);
      if s.Ok? {
        VelocitiesOnlyKinds(bodies, s.value);
        StaticContactsInOrderKinds(bodies, s.value, contacts);
        SolveVelStaticsFromValid(s.value, contacts, k + 1, sqrt);
      }
    }
  }

  /** On a static contact list `solve_pos_statics` could have produced, no
      `unwrap` of `solve_vel_statics` fails. */
  lemma SolveVelStaticsValidContacts(bodies: seq<Body>, contacts: seq<(Entity, Entity)>, sqrt: real -> real)
    requires IsSqrt(sqrt) && WellFormed(bodies)
    requires StaticContactsInOrder(bodies, contacts)
    ensures SolveVelStaticsSpec(bodies, contacts, sqrt).Failure? ==>
              SolveVelStaticsSpec(bodies, contacts, sqrt).fault == CoincidentCentres
  {
    SolveVelStaticsFromValid(bodies, contacts, 0, sqrt);
  }

  // --------------------------------------------------------- despawn_marbles

  /** The floor below which `despawn_marbles` removes an entity. */
  const FloorY: real := -20.0

  /** An entity with a position below the floor. */
  predicate Fallen(b: Body)
  {
    !b.Despawned? && b.pos.y < FloorY
  }

  /** `despawn_marbles`: every entity with a position below the floor is
      despawned, whether or not it has a mass; its identifier stays unused. */
  function DespawnSpec(bodies: seq<Body>): (r: seq<Body>)
    ensures |r| == |bodies|
    ensures forall i :: 0 <= i < |r| ==> (r[i].Despawned? <==> bodies[i].Despawned? || Fallen(bodies[i]))
    ensures forall i :: 0 <= i < |r| && !Fallen(bodies[i]) ==> r[i] == bodies[i]
    ensures forall i :: 0 <= i < |r| ==> !Fallen(r[i])
    ensures WellFormed(bodies) ==> WellFormed(r)
  {
    seq(|bodies|, i requires 0 <= i < |bodies| => if Fallen(bodies[i]) then Despawned else bodies[i])
  }

  /** Despawning twice in a row removes nothing more. */
  lemma DespawnIdempotent(bodies: seq<Body>)
    ensures DespawnSpec(DespawnSpec(bodies)) == DespawnSpec(bodies)
  {
    var once := DespawnSpec(bodies);
    assert forall i :: 0 <= i < |once| ==> DespawnSpec(once)[i] == once[i];
  }

  // --------------------------------------------------- the systems, in place

  /** One turn of the inner loop of `solve_pos_statics`, on the world. */
  method SolveStaticPair(w: World, i: nat, j: nat) returns (ok: bool)
    requires w.Valid() && i < |w.bodies| && j < |w.bodies|
    modifies w
    ensures w.Valid()
    ensures ok == StaticPairStep(old(Pass(w.bodies, w.staticContacts)), i, j, w.sqrt).Ok?
    ensures ok ==> Pass(w.bodies, w.staticContacts) == StaticPairStep(old(Pass(w.bodies, w.staticContacts)), i, j, w.sqrt).value
    ensures w.contacts == old(w.contacts) && w.gravity == old(w.gravity)
  {
    if InStaticQueries(w.bodies, i, j) {
      var a := w.bodies[i];
      var s := w.bodies[j];
      var ab := Sub(s.pos, a.pos);
      if Overlapping(a, s) {
        LengthSquaredNonNegative(ab);
        if LengthSquared(ab) <= 0.0 {
          return false;
        }
        w.bodies := w.bodies[i := CorrectAgainstStatic(a, s, w.sqrt)];
        w.staticContacts := w.staticContacts + [(i, j)];
      }
    }
    ok := true;
  }

  /** The inner loop of `solve_pos_statics`: the dynamic body `i` against every static. */
  method SolveStaticRow(w: World, i: nat) returns (ok: bool)
    requires w.Valid() && i < |w.bodies|
    modifies w
    ensures w.Valid()
    ensures ok == StaticRow(old(Pass(w.bodies, w.staticContacts)), i, 0, w.sqrt).Ok?
    ensures ok ==> Pass(w.bodies, w.staticContacts) == StaticRow(old(Pass(w.bodies, w.staticContacts)), i, 0, w.sqrt).value
    ensures w.contacts == old(w.contacts) && w.gravity == old(w.gravity)
  {
    ghost var spec := StaticRow(Pass(w.bodies, w.staticContacts), i, 0, w.sqrt);
    var n := |w.bodies|;
    var j := 0;
    while j < n
      invariant 0 <= j <= n == |w.bodies| && i < n && w.Valid()
      invariant spec == StaticRow(Pass(w.bodies, w.staticContacts), i, j, w.sqrt)
      invariant w.contacts == old(w.contacts) && w.gravity == old(w.gravity)
    {
      ghost var p := Pass(w.bodies, w.staticContacts);
      StaticRowStep(p, i, j, w.sqrt);
      var stepped := SolveStaticPair(w, i, j);
      if !stepped {
        return false;
      }
      j := j + 1;
    }
    ok := true;
  }

  /** `solve_pos_statics` on the world: `ok` is false when a dynamic body's
      centre coincides with a static one's. */
  method SolvePosStatics(w: World) returns (ok: bool)
    requires w.Valid()
    modifies w
    ensures w.Valid()
    ensures ok == SolvePosStaticsSpec(old(w.bodies), w.sqrt).Ok?
    ensures ok ==> Pass(w.bodies, w.staticContacts) == SolvePosStaticsSpec(old(w.bodies), w.sqrt).value
    ensures w.contacts == old(w.contacts) && w.gravity == old(w.gravity)
  {
    ghost var spec := SolvePosStaticsSpec(w.bodies, w.sqrt);
    w.staticContacts := [];
    var n := |w.bodies|;
    var i := 0;
    while i < n
      invariant 0 <= i <= n == |w.bodies| && w.Valid()
      invariant spec == StaticFrom(Pass(w.bodies, w.staticContacts), i, w.sqrt)
      invariant w.contacts == old(w.contacts) && w.gravity == old(w.gravity)
    {
      ghost var p := Pass(w.bodies, w.staticContacts);
      StaticFromStep(p, i, w.sqrt);
      ok := SolveStaticRow(w, i);
      if !ok {
        return;
      }
      i := i + 1;
    }
    ok := true;
  }

  /** `solve_vel_statics` on the world: `ok` is false when an `unwrap` fails or
      the centres of a contact coincide. */
  method SolveVelStatics(w: World) returns (ok: bool)
    requires w.Valid()
    modifies w
    ensures w.Valid()
    ensures ok == SolveVelStaticsSpec(old(w.bodies), w.staticContacts, w.sqrt).Ok?
    ensures ok ==> w.bodies == SolveVelStaticsSpec(old(w.bodies), w.staticContacts, w.sqrt).value
    ensures w.contacts == old(w.contacts) && w.staticContacts == old(w.staticContacts) && w.gravity == old(w.gravity)
  {
    ghost var spec := SolveVelStaticsSpec(w.bodies, w.staticContacts, w.sqrt);
    var k := 0;
    while k < |w.staticContacts|
      invariant 0 <= k <= |w.staticContacts| && w.Valid()
      invariant spec == SolveVelStaticsFrom(w.bodies, w.staticContacts, k, w.sqrt)
      invariant w.contacts == old(w.contacts) && w.staticContacts == old(w.staticContacts) && w.gravity == old(w.gravity)
    {
      var (ea, es) := w.staticContacts[k];
      if !InStaticQueries(w.bodies, ea, es) {
        return false;
      }
      var a := w.bodies[ea];
      var s := w.bodies[es];
      LengthSquaredNonNegative(Sub(a.pos, s.pos));
      if LengthSquared(Sub(a.pos, s.pos)) <= 0.0 {
        return false;
      }
      w.bodies := w.bodies[ea := StaticImpulse(a, s, w.sqrt)];
      k := k + 1;
    }
    ok := true;
  }

  /** `despawn_marbles` on the world. */
  method DespawnMarbles(w: World)
    requires w.Valid()
    modifies w
    ensures w.Valid()
    ensures w.bodies == DespawnSpec(old(w.bodies))
    ensures w.contacts == old(w.contacts) && w.staticContacts == old(w.staticContacts) && w.gravity == old(w.gravity)
  {
    ghost var before := w.bodies;
    var i := 0;
    while i < |w.bodies|
      invariant |w.bodies| == |before| && 0 <= i <= |w.bodies|
      invariant forall k :: 0 <= k < i ==> w.bodies[k] == DespawnSpec(before)[k]
      invariant forall k :: i <= k < |w.bodies| ==> w.bodies[k] == before[k]
      invariant w.contacts == old(w.contacts) && w.staticContacts == old(w.staticContacts) && w.gravity == old(w.gravity)
    {
      if !w.bodies[i].Despawned? && w.bodies[i].pos.y < FloorY {
        w.bodies := w.bodies[i := Despawned];
      }
      i := i + 1;
    }
    assert w.bodies == DespawnSpec(before);
  }
}
