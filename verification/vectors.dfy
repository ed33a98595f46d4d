/** Two-dimensional vectors over the reals, standing in for the Vec2 of the
    math library the engine uses. Rounding of 32-bit floats is not modelled.
    The square root is a library call the model cannot see: every operation
    that needs one receives it as a parameter `sqrt` that satisfies IsSqrt. */
module Vectors {

  datatype Vec2 = Vec2(x: real, y: real)

  const Zero: Vec2 := Vec2(0.0, 0.0)

  function Add(a: Vec2, b: Vec2): Vec2 { Vec2(a.x + b.x, a.y + b.y) }

  function Sub(a: Vec2, b: Vec2): Vec2 { Vec2(a.x - b.x, a.y - b.y) }

  function Neg(v: Vec2): Vec2 { Vec2(-v.x, -v.y) }

  /** `v * k` */
  function Scale(v: Vec2, k: real): Vec2 { Vec2(v.x * k, v.y * k) }

  /** `v / k` */
  function Div(v: Vec2, k: real): Vec2
    requires k != 0.0
  {
    Vec2(v.x / k, v.y / k)
  }

  function Dot(a: Vec2, b: Vec2): real { a.x * b.x + a.y * b.y }

  function LengthSquared(v: Vec2): real { Dot(v, v) }

  /** `v` turned a quarter turn: the tangent direction of a contact whose normal is `v`. */
  function Perp(v: Vec2): Vec2 { Vec2(-v.y, v.x) }

  /** What the model assumes of the library's square root on the non-negative reals. */
  ghost predicate IsSqrt(sqrt: real -> real)
  {
    forall x: real :: 0.0 <= x ==> 0.0 <= sqrt(x) && sqrt(x) * sqrt(x) == x
  }

  // Small facts about real products, each stated over plain variables so that
  // the solver meets every product in the same shape as in the goal.

  lemma SumOfSquaresNonNegative(x: real, y: real)
    ensures x * x + y * y >= 0.0
  {}

  lemma RootPositive(l: real, t: real)
    requires 0.0 <= l && l * l == t && t > 0.0
    ensures l > 0.0
  {
    if l == 0.0 {
      assert false;
    }
  }

  /** A non-negative root of a quantity below `r * r` is below `r`. */
  lemma RootBelow(t: real, r: real, l: real)
    requires t < r * r && r > 0.0 && 0.0 <= l && l * l == t
    ensures l < r
  {}

  lemma MultiplyEqual(c: real, t: real, u: real)
    requires t == u
    ensures c * t == c * u
  {}

  lemma QuotientIsProduct(a: real, l: real)
    requires l != 0.0
    ensures a / l == a * (1.0 / l)
  {}

  lemma ScaledSquares(x: real, y: real, s: real)
    ensures (x * s) * (x * s) + (y * s) * (y * s) == (s * s) * (x * x + y * y)
  {}

  lemma InverseSquared(i: real, l: real)
    requires i * l == 1.0
    ensures (i * i) * (l * l) == 1.0
  {
    assert (i * i) * (l * l) == (i * l) * (i * l);
  }

  /** `(x, y) / l` has unit length when `l` is the length of `(x, y)`. */
  lemma {:induction false} UnitQuotient(x: real, y: real, l: real)
    requires l > 0.0 && l * l == x * x + y * y
    ensures (x / l) * (x / l) + (y / l) * (y / l) == 1.0
  {
    var i := 1.0 / l;
    QuotientIsProduct(x, l);
    QuotientIsProduct(y, l);
    ScaledSquares(x, y, i);
    MultiplyEqual(i * i, x * x + y * y, l * l);
    InverseSquared(i, l);
  }

  lemma QuotientDot(x: real, y: real, l: real)
    requires l > 0.0 && l * l == x * x + y * y
    ensures (x / l) * x + (y / l) * y == l
  {}

  lemma QuotientExtend(x: real, l: real, k: real)
    requires l != 0.0
    ensures x + x / l * k == x * ((l + k) / l)
  {}

  lemma RatioSquared(l: real, k: real)
    requires l != 0.0
    ensures ((l + k) / l) * ((l + k) / l) * (l * l) == (l + k) * (l + k)
  {}

  /** Moving the tip of `(x, y)` by `k` along its own direction turns its length `l` into `l + k`. */
  lemma {:induction false} ExtendComponents(x: real, y: real, l: real, k: real)
    requires l > 0.0 && l * l == x * x + y * y
    ensures (x + x / l * k) * (x + x / l * k) + (y + y / l * k) * (y + y / l * k) == (l + k) * (l + k)
  {
    var s := (l + k) / l;
    QuotientExtend(x, l, k);
    QuotientExtend(y, l, k);
    ScaledSquares(x, y, s);
    MultiplyEqual(s * s, x * x + y * y, l * l);
    RatioSquared(l, k);
  }

  lemma LengthSquaredNonNegative(v: Vec2)
    ensures LengthSquared(v) >= 0.0
  {
    SumOfSquaresNonNegative(v.x, v.y);
  }

  /** `v.length()`: the non-negative root of the squared length. */
  function Length(v: Vec2, sqrt: real -> real): (l: real)
    requires IsSqrt(sqrt)
    ensures 0.0 <= l && l * l == LengthSquared(v)
    ensures LengthSquared(v) > 0.0 ==> l > 0.0
  {
    LengthSquaredNonNegative(v);
    var l := sqrt(LengthSquared(v));
    if LengthSquared(v) > 0.0 then
      RootPositive(l, LengthSquared(v));
      l
    else
      l
  }

  /** Dividing a non-zero vector by its length gives a unit vector pointing the same way. */
  lemma {:induction false} DivideByLength(v: Vec2, l: real)
    requires l > 0.0 && l * l == LengthSquared(v)
    ensures LengthSquared(Div(v, l)) == 1.0
    ensures Dot(Div(v, l), v) == l
    ensures Dot(Div(v, l), Perp(v)) == 0.0
  {
    UnitQuotient(v.x, v.y, l);
    QuotientDot(v.x, v.y, l);
  }

  /** `v.normalize()`, for a `v` of positive length (the library returns NaN for the zero
      vector): a unit vector, with no component across `v`, whose projection on `v` is `v`'s length. */
  function Normalize(v: Vec2, sqrt: real -> real): (n: Vec2)
    requires IsSqrt(sqrt)
    requires LengthSquared(v) > 0.0
    ensures LengthSquared(n) == 1.0
    ensures Dot(n, Perp(v)) == 0.0
    ensures Dot(n, v) == Length(v, sqrt)
  {
    var l := Length(v, sqrt);
    DivideByLength(v, l);
    Div(v, l)
  }

  /** Moving the tip of `v` by `k` along its own unit direction changes its length from `l` to `l + k`. */
  lemma {:induction false} ExtendAlong(v: Vec2, l: real, k: real)
    requires l > 0.0 && l * l == LengthSquared(v)
    ensures LengthSquared(Add(v, Scale(Div(v, l), k))) == (l + k) * (l + k)
  {
    ExtendComponents(v.x, v.y, l, k);
  }

  /** Moving the tip of a non-zero `v` along its own direction by `r` minus its
      length gives it length `r`. */
  lemma {:induction false} ExtendTo(v: Vec2, r: real, sqrt: real -> real)
    requires IsSqrt(sqrt) && LengthSquared(v) > 0.0
    ensures LengthSquared(Add(v, Scale(Normalize(v, sqrt), r - Length(v, sqrt)))) == r * r
  {
    var l := Length(v, sqrt);
    assert Normalize(v, sqrt) == Div(v, l);
    ExtendAlong(v, l, r - l);
  }

  /** Scaling distributes over a sum. */
  lemma ScaleAdd(u: Vec2, w: Vec2, k: real)
    ensures Scale(Add(u, w), k) == Add(Scale(u, k), Scale(w, k))
  {}

  lemma ScaleSum(v: Vec2, k: real, l: real)
    ensures Add(Scale(v, k), Scale(v, l)) == Scale(v, k + l)
  {}

  lemma ScaleScale(v: Vec2, k: real, l: real)
    ensures Scale(Scale(v, k), l) == Scale(v, k * l)
  {}

  lemma ScaleEqual(v: Vec2, k: real, l: real)
    requires k == l
    ensures Scale(v, k) == Scale(v, l)
  {}

  lemma ScaleOne(v: Vec2)
    ensures Scale(v, 1.0) == v
  {}

  lemma DivScale(v: Vec2, k: real, w: real)
    requires w != 0.0
    ensures Div(Scale(v, k), w) == Scale(v, k / w)
  {}

  /** Two scalings commute. */
  lemma ScaleSwap(v: Vec2, k: real, l: real)
    ensures Scale(Scale(v, k), l) == Scale(Scale(v, l), k)
  {}

  /** A vector of the form `n * k` has no component along the perpendicular of `n`. */
  lemma AlongHasNoTangent(n: Vec2, k: real)
    ensures Dot(Scale(n, k), Perp(n)) == 0.0
  {}

  /** Adding `n * k` to `u` changes its component along a unit `n` by exactly `k`. */
  lemma {:induction false} DotAddAlongUnit(u: Vec2, n: Vec2, k: real)
    requires LengthSquared(n) == 1.0
    ensures Dot(Add(u, Scale(n, k)), n) == Dot(u, n) + k
  {
    assert Dot(Add(u, Scale(n, k)), n) == Dot(u, n) + k * LengthSquared(n);
    MultiplyEqual(k, LengthSquared(n), 1.0);
  }
}
