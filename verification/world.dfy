/** The world the plugin's systems run on: the bodies (entities and their
    components), the `Contacts` and `StaticContacts` resources and the
    `Gravity` resource. Each system of the stage is a method that updates the
    world in place and is proved to leave it as the matching function of Xpbd
    says. */
module World {
  import opened Vectors
  import opened Component
  import opened Xpbd

  /** What is left of `solve_pos` once row `i` has produced `r`. */
  class World {
    /** Entity `e` is `bodies[e]`. */
    var bodies: seq<Body>
    var contacts: seq<(Entity, Entity)>
    var staticContacts: seq<(Entity, Entity)>
    var gravity: Vec2
    /** The square root of the math library. */
    const sqrt: real -> real

    ghost predicate Valid()
      reads this
    {
      IsSqrt(sqrt) && WellFormed(bodies)
    }

    /** A world as the plugin sets it up: the default gravity and the two
        contact lists empty, as `init_resource` leaves them. */
    constructor (bodies: seq<Body>, sqrt: real -> real)
      requires IsSqrt(sqrt) && WellFormed(bodies)
      ensures Valid()
      ensures this.bodies == bodies && this.sqrt == sqrt
      ensures contacts == [] && staticContacts == [] && gravity == DefaultGravity()
    {
      this.bodies := bodies;
      this.sqrt := sqrt;
      contacts := [];
      staticContacts := [];
      gravity := DefaultGravity();
    }

    /** `integrate`: every body with a mass takes one semi-implicit Euler step. */
    method Integrate()
      requires Valid()
      modifies this
      ensures Valid()
      ensures bodies == IntegrateAll(old(bodies), gravity)
      ensures contacts == old(contacts) && staticContacts == old(staticContacts) && gravity == old(gravity)
    {
      var before := bodies;
      var i := 0;
      while i < |bodies|
        invariant |bodies| == |before| && 0 <= i <= |bodies|
        invariant forall k :: 0 <= k < i ==> bodies[k] == IntegrateBody(before[k], gravity)
        invariant forall k :: i <= k < |bodies| ==> bodies[k] == before[k]
        invariant contacts == old(contacts) && staticContacts == old(staticContacts) && gravity == old(gravity)
      {
        bodies := bodies[i := IntegrateBody(bodies[i], gravity)];
        i := i + 1;
      }
      assert bodies == IntegrateAll(before, gravity);
    }

    /** `solve_pos`: clear `Contacts`, then correct and record every overlapping
        pair of bodies with a mass, in the order `iter_combinations_mut` yields
        them. `ok` is false when a pair with coincident centres was met; the
        source would go on with NaN positions from there. */
    method SolvePos() returns (ok: bool)
      requires Valid()
      modifies this
      ensures Valid()
      ensures ok == SolvePosSpec(old(bodies), sqrt).Ok?
      ensures ok ==> Pass(bodies, contacts) == SolvePosSpec(old(bodies), sqrt).value
      ensures staticContacts == old(staticContacts) && gravity == old(gravity)
    {
      ghost var spec := SolvePosSpec(bodies, sqrt);
      contacts := [];
      var n := |bodies|;
      var i := 0;
      while i < n
        invariant 0 <= i <= n == |bodies| && Valid()
        invariant spec == SolvePosFrom(Pass(bodies, contacts), i, sqrt)
        invariant staticContacts == old(staticContacts) && gravity == old(gravity)
      {
        ghost var p := Pass(bodies, contacts);
        SolvePosFromStep(p, i, sqrt);
        ok := SolvePosRowLoop(i);
        if !ok {
          return;
        }
        i := i + 1;
      }
      ok := true;
    }

    /** The inner loop of `solve_pos`: the pairs (i, i + 1), ..., (i, n - 1). */
    method SolvePosRowLoop(i: nat) returns (ok: bool)
      requires Valid() && i < |bodies|
      modifies this
      ensures Valid()
      ensures ok == SolvePosRow(old(Pass(bodies, contacts)), i, i + 1, sqrt).Ok?
      ensures ok ==> Pass(bodies, contacts) == SolvePosRow(old(Pass(bodies, contacts)), i, i + 1, sqrt).value
      ensures staticContacts == old(staticContacts) && gravity == old(gravity)
    {
      ghost var spec := SolvePosRow(Pass(bodies, contacts), i, i + 1, sqrt);
      var n := |bodies|;
      var j := i + 1;
      while j < n
        invariant i < j <= n == |bodies| && Valid()
        invariant spec == SolvePosRow(Pass(bodies, contacts), i, j, sqrt)
        invariant staticContacts == old(staticContacts) && gravity == old(gravity)
      {
        ghost var p := Pass(bodies, contacts);
        SolvePosRowStep(p, i, j, sqrt);
        var stepped := SolvePair(i, j);
        if !stepped {
          return false;
        }
        j := j + 1;
      }
      ok := true;
    }

    /** One turn of the loop of `solve_pos`, on the pair (i, j). */
    method SolvePair(i: nat, j: nat) returns (ok: bool)
      requires Valid() && i < j < |bodies|
      modifies this
      ensures Valid()
      ensures ok == PairStep(old(Pass(bodies, contacts)), i, j, sqrt).Ok?
      ensures ok ==> Pass(bodies, contacts) == PairStep(old(Pass(bodies, contacts)), i, j, sqrt).value
      ensures staticContacts == old(staticContacts) && gravity == old(gravity)
    {
      ghost var p := Pass(bodies, contacts);
      if InQuery(bodies, i, j) {
        var a := bodies[i];
        var b := bodies[j];
        var ab := Sub(b.pos, a.pos);
        if Overlapping(a, b) {
          LengthSquaredNonNegative(ab);
          if LengthSquared(ab) <= 0.0 {
            return false;
          }
          var r := CorrectPair(a, b, sqrt);
          bodies := bodies[i := r.0][j := r.1];
          contacts := contacts + [(i, j)];
        }
      }
      ok := true;
    }

    /** `update_vel`: every body with a mass takes the velocity that carried it
        from its previous position to its current one. */
    method UpdateVel()
      requires Valid()
      modifies this
      ensures Valid()
      ensures bodies == UpdateVelAll(old(bodies))
      ensures contacts == old(contacts) && staticContacts == old(staticContacts) && gravity == old(gravity)
    {
      var before := bodies;
      var i := 0;
      while i < |bodies|
        invariant |bodies| == |before| && 0 <= i <= |bodies|
        invariant forall k :: 0 <= k < i ==> bodies[k] == UpdateVelBody(before[k])
        invariant forall k :: i <= k < |bodies| ==> bodies[k] == before[k]
        invariant contacts == old(contacts) && staticContacts == old(staticContacts) && gravity == old(gravity)
      {
        bodies := bodies[i := UpdateVelBody(bodies[i])];
        i := i + 1;
      }
      assert bodies == UpdateVelAll(before);
      SameKindsWellFormed(before, bodies) by {
        VelocitiesOnlyKinds(before, bodies);
      }
    }

    /** `solve_vel`: apply the restitution impulse of every contact, in the order
        of the list. `ok` is false when the source panics (a contact of an entity
        with itself, or of one that lacks a component) or meets coincident centres. */
    method SolveVel() returns (ok: bool)
      requires Valid()
      modifies this
      ensures Valid()
      ensures ok == SolveVelSpec(old(bodies), contacts, sqrt).Ok?
      ensures ok ==> bodies == SolveVelSpec(old(bodies), contacts, sqrt).value
      ensures contacts == old(contacts) && staticContacts == old(staticContacts) && gravity == old(gravity)
    {
      ghost var spec := SolveVelSpec(bodies, contacts, sqrt);
      var k := 0;
      while k < |contacts|
        invariant 0 <= k <= |contacts| && WellFormed(bodies)
        invariant spec == SolveVelFrom(bodies, contacts, k, sqrt)
        invariant contacts == old(contacts) && staticContacts == old(staticContacts) && gravity == old(gravity)
      {
        var (ea, eb) := contacts[k];
        if ea == eb {
          return false;
        }
        if !(ea < |bodies| && eb < |bodies| && bodies[ea].Dynamic? && bodies[eb].Dynamic?) {
          return false;
        }
        var a := bodies[ea];
        var b := bodies[eb];
        LengthSquaredNonNegative(Sub(b.pos, a.pos));
        if LengthSquared(Sub(b.pos, a.pos)) <= 0.0 {
          return false;
        }
        var r := ImpulsePair(a, b, sqrt);
        bodies := bodies[ea := r.0][eb := r.1];
        k := k + 1;
      }
      ok := true;
    }

    /** One tick of the plugin's stage, its systems in their labelled order. */
    method Step() returns (ok: bool)
      requires Valid()
      modifies this
      ensures Valid()
      ensures ok == StepSpec(old(bodies), old(gravity), sqrt).Ok?
      ensures ok ==> Pass(bodies, contacts) == StepSpec(old(bodies), old(gravity), sqrt).value
      ensures staticContacts == old(staticContacts) && gravity == old(gravity)
    {
      Integrate();
      ok := SolvePos();
      if !ok {
        return;
      }
      UpdateVel();
      ok := SolveVel();
    }
  }
}
