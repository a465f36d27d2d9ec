/**
 * Three-component real vectors (`math/Vec3.java`): points, directions and
 * linear RGB colours. The Java class works on doubles; here every operation
 * is exact over the reals, so the algebraic identities hold without rounding.
 */
module Vectors {
  import opened Options
  import opened RealMath

  datatype Vec3 = Vec3(x: real, y: real, z: real)

  const Zero: Vec3 := Vec3(0.0, 0.0, 0.0)

  /** The near-zero threshold of `nearZero`. */
  const NearZeroEpsilon: real := 0.00000001

  /** `v[axis]`, read with the Java code's `axis == 0 ? x : axis == 1 ? y : z`. */
  function Component(v: Vec3, axis: int): real {
    if axis == 0 then v.x else if axis == 1 then v.y else v.z
  }

  function Add(a: Vec3, b: Vec3): Vec3 {
    Vec3(a.x + b.x, a.y + b.y, a.z + b.z)
  }

  function Sub(a: Vec3, b: Vec3): Vec3 {
    Vec3(a.x - b.x, a.y - b.y, a.z - b.z)
  }

  function Scale(a: Vec3, t: real): Vec3 {
    Vec3(a.x * t, a.y * t, a.z * t)
  }

  function Dot(a: Vec3, b: Vec3): real {
    a.x * b.x + a.y * b.y + a.z * b.z
  }

  function Cross(a: Vec3, b: Vec3): Vec3 {
    Vec3(a.y * b.z - a.z * b.y,
         a.z * b.x - a.x * b.z,
         a.x * b.y - a.y * b.x)
  }

  /** Component-wise product, used to tint a colour by an attenuation. */
  function Multiply(a: Vec3, b: Vec3): Vec3 {
    Vec3(a.x * b.x, a.y * b.y, a.z * b.z)
  }

  function LengthSquared(v: Vec3): real {
    v.x * v.x + v.y * v.y + v.z * v.z
  }

  function Length(v: Vec3, f: Transcendentals): real {
    f.sqrt(LengthSquared(v))
  }

  /**
   * `normalize`: divides by the length, except that a zero length gives the
   * zero vector instead of a division by zero.
   */
  function Normalize(v: Vec3, f: Transcendentals): (u: Vec3)
    ensures v == Zero ==> u == Zero
    ensures Length(v, f) == 0.0 ==> u == Zero
  {
    var len := Length(v, f);
    if len == 0.0 then Zero else Scale(v, 1.0 / len)
  }

  /**
   * Mirror image of `v` in the plane with normal `n`: about a unit normal the
   * component along the normal changes sign, and for any normal the
   * components across it are kept.
   */
  function Reflect(v: Vec3, n: Vec3): (w: Vec3)
    ensures Dot(n, n) == 1.0 ==> Dot(w, n) == -Dot(v, n)
    ensures forall c :: Dot(c, n) == 0.0 ==> Dot(w, c) == Dot(v, c)
  {
    DotSub(v, Scale(n, 2.0 * Dot(v, n)), n);
    DotScale(n, 2.0 * Dot(v, n), n);
    Sub(v, Scale(n, 2.0 * Dot(v, n)))
  }

  /**
   * Snell's-law refraction of the unit direction `uv` through normal `n`.
   * The square root is taken of `|1 - |perp|^2|`, as in the Java code (which
   * guards with `Math.abs`, not with a clamp to zero).
   */
  function Refract(uv: Vec3, n: Vec3, etaiOverEtat: real, f: Transcendentals): Vec3 {
    var cosTheta := Min(Dot(Scale(uv, -1.0), n), 1.0);
    var rOutPerp := Scale(Add(uv, Scale(n, cosTheta)), etaiOverEtat);
    var rOutParallel := Scale(n, -f.sqrt(Abs(1.0 - LengthSquared(rOutPerp))));
    Add(rOutPerp, rOutParallel)
  }

  /** Every component is strictly within `1e-8` of zero. */
  predicate NearZero(v: Vec3) {
    Abs(v.x) < NearZeroEpsilon && Abs(v.y) < NearZeroEpsilon && Abs(v.z) < NearZeroEpsilon
  }

  /** `random(min, max)`: one component `min + (max - min) * u` from a uniform draw `u`. */
  function RandomIn(min: real, max: real, u: real): real {
    min + (max - min) * u
  }

  function RandomCandidate(u: Vec3): (p: Vec3)
    requires UnitDraws(u)
    ensures -1.0 <= p.x < 1.0 && -1.0 <= p.y < 1.0 && -1.0 <= p.z < 1.0
  {
    Vec3(RandomIn(-1.0, 1.0, u.x), RandomIn(-1.0, 1.0, u.y), RandomIn(-1.0, 1.0, u.z))
  }

  predicate UnitDraws(u: Vec3) {
    0.0 <= u.x < 1.0 && 0.0 <= u.y < 1.0 && 0.0 <= u.z < 1.0
  }

  /**
   * `randomInUnitSphere`: rejection sampling over a finite prefix of the
   * uniform-draw stream. The result is the first candidate strictly inside
   * the unit sphere, with the number of candidates rejected before it; `None`
   * when every candidate of the prefix is rejected (the Java loop would draw
   * again).
   */
  method RandomInUnitSphere(draws: seq<Vec3>) returns (p: Option<Vec3>, rejected: nat)
    requires forall k :: 0 <= k < |draws| ==> UnitDraws(draws[k])
    ensures rejected <= |draws|
    ensures p.Some? ==> rejected < |draws| && p.value == RandomCandidate(draws[rejected])
    ensures p.Some? ==> LengthSquared(p.value) < 1.0
    ensures p.None? ==> rejected == |draws|
    ensures forall k :: 0 <= k < rejected ==> LengthSquared(RandomCandidate(draws[k])) >= 1.0
  {
    rejected := 0;
    while rejected < |draws|
      invariant rejected <= |draws|
      invariant forall k :: 0 <= k < rejected ==> LengthSquared(RandomCandidate(draws[k])) >= 1.0
    {
      var candidate := RandomCandidate(draws[rejected]);
      if LengthSquared(candidate) < 1.0 {
        return Some(candidate), rejected;
      }
      rejected := rejected + 1;
    }
    return None, rejected;
  }

  // ---------------------------------------------------------------------------
  // Algebra

  lemma DotSub(a: Vec3, b: Vec3, c: Vec3)
    ensures Dot(Sub(a, b), c) == Dot(a, c) - Dot(b, c)
  {
  }

  lemma DotAdd(a: Vec3, b: Vec3, c: Vec3)
    ensures Dot(Add(a, b), c) == Dot(a, c) + Dot(b, c)
  {
  }

  lemma DotScale(a: Vec3, k: real, c: Vec3)
    ensures Dot(Scale(a, k), c) == k * Dot(a, c)
  {
  }

  /** Negating one factor negates the dot product; negation keeps the length. */
  lemma Negated(a: Vec3, b: Vec3)
    ensures Dot(a, Scale(b, -1.0)) == -Dot(a, b)
    ensures LengthSquared(Scale(b, -1.0)) == LengthSquared(b)
    ensures Add(Scale(b, -1.0), b) == Zero
  {
  }

  lemma DotSymmetric(a: Vec3, b: Vec3)
    ensures Dot(a, b) == Dot(b, a)
  {
  }

  /** Adding then subtracting the same vector gives the original back. */
  lemma AddSubCancel(a: Vec3, b: Vec3)
    ensures Sub(Add(a, b), b) == a
  {
  }

  /** `lengthSquared` is the self dot product, hence never negative. */
  lemma LengthSquaredIsDot(v: Vec3)
    ensures LengthSquared(v) == Dot(v, v)
    ensures 0.0 <= LengthSquared(v)
  {
    SquareNonneg(v.x);
    SquareNonneg(v.y);
    SquareNonneg(v.z);
  }

  /** Only the zero vector has zero squared length. */
  lemma LengthSquaredPositive(v: Vec3)
    ensures v != Zero ==> 0.0 < LengthSquared(v)
    ensures v == Zero ==> LengthSquared(v) == 0.0
  {
    if v != Zero {
      SumOfSquaresPositive(v.x, v.y, v.z);
      // The sign is carried across the unfolding by congruence on `Positive`.
      assert Positive(v.x * v.x + v.y * v.y + v.z * v.z);
      assert LengthSquared(v) == v.x * v.x + v.y * v.y + v.z * v.z;
      assert Positive(LengthSquared(v));
    }
  }

  lemma SumOfSquaresPositive(a: real, b: real, c: real)
    requires a != 0.0 || b != 0.0 || c != 0.0
    ensures 0.0 < a * a + b * b + c * c
  {
    SquarePositiveIfNonzero(a);
    SquarePositiveIfNonzero(b);
    SquarePositiveIfNonzero(c);
  }

  lemma SquarePositiveIfNonzero(a: real)
    ensures a != 0.0 ==> 0.0 < a * a
    ensures 0.0 <= a * a
  {
    if a < 0.0 {
      assert (-a) * (-a) == a * a;
      assert 0.0 < (-a) * (-a);
    } else if a > 0.0 {
      assert 0.0 < a * a;
    }
  }

  lemma SquaresNonneg(v: Vec3)
    ensures 0.0 <= v.x * v.x && 0.0 <= v.y * v.y && 0.0 <= v.z * v.z
  {
    SquareNonneg(v.x);
    SquareNonneg(v.y);
    SquareNonneg(v.z);
  }

  /** The cross product is orthogonal to both of its factors. */
  lemma CrossOrthogonal(a: Vec3, b: Vec3)
    ensures Dot(Cross(a, b), a) == 0.0
    ensures Dot(Cross(a, b), b) == 0.0
  {
  }

  /**
   * Lagrange's identity: `|a|^2 |b|^2 - (a.b)^2 == |a x b|^2`, so the
   * Cauchy-Schwarz inequality `(a.b)^2 <= |a|^2 |b|^2` follows.
   */
  lemma CauchySchwarz(a: Vec3, b: Vec3)
    ensures LengthSquared(a) * LengthSquared(b) - Dot(a, b) * Dot(a, b) == LengthSquared(Cross(a, b))
    ensures Dot(a, b) * Dot(a, b) <= LengthSquared(a) * LengthSquared(b)
  {
    LengthSquaredIsDot(Cross(a, b));
  }

  /** Scaling multiplies the squared length by the square of the factor. */
  lemma LengthSquaredScale(v: Vec3, k: real)
    ensures LengthSquared(Scale(v, k)) == k * k * LengthSquared(v)
  {
  }

  /** A sound `sqrt` makes `Normalize` of a non-zero vector a unit vector in the same direction. */
  lemma NormalizeUnit(v: Vec3, f: Transcendentals)
    requires SqrtSound(f) && v != Zero
    ensures LengthSquared(Normalize(v, f)) == 1.0
    ensures 0.0 < Length(v, f) && Normalize(v, f) == Scale(v, 1.0 / Length(v, f))
  {
    LengthSquaredPositive(v);
    LengthSquaredIsDot(v);
    var l2 := LengthSquared(v);
    var len := Length(v, f);
    assert len * len == l2;
    assert len != 0.0;
    LengthSquaredScale(v, 1.0 / len);
    assert (1.0 / len) * (1.0 / len) * l2 == 1.0;
  }

  /** A unit vector has no component larger than one in magnitude. */
  lemma UnitComponents(u: Vec3)
    requires LengthSquared(u) == 1.0
    ensures -1.0 <= u.x <= 1.0 && -1.0 <= u.y <= 1.0 && -1.0 <= u.z <= 1.0
  {
    SquaresNonneg(u);
    SumOfNonneg(u.x * u.x, u.y * u.y, u.z * u.z);
    SquareBound(u.x, 1.0);
    SquareBound(u.y, 1.0);
    SquareBound(u.z, 1.0);
  }

  /** A near-zero vector has squared length below `3e-16`; the zero vector is near zero. */
  lemma NearZeroBound(v: Vec3)
    ensures NearZero(v) ==> LengthSquared(v) < 3.0 * NearZeroEpsilon * NearZeroEpsilon
    ensures NearZero(Zero)
  {
    if NearZero(v) {
      var e := NearZeroEpsilon;
      assert Abs(v.x) * Abs(v.x) == v.x * v.x;
      assert Abs(v.y) * Abs(v.y) == v.y * v.y;
      assert Abs(v.z) * Abs(v.z) == v.z * v.z;
      SquareLtMono(Abs(v.x), e);
      SquareLtMono(Abs(v.y), e);
      SquareLtMono(Abs(v.z), e);
    }
  }

  /** A unit vector is never near zero. */
  lemma UnitNotNearZero(u: Vec3)
    requires LengthSquared(u) == 1.0
    ensures !NearZero(u)
  {
    NearZeroBound(u);
  }

  /** Multiplying a colour by `(1, 1, 1)` leaves it unchanged. */
  lemma MultiplyByOnes(c: Vec3)
    ensures Multiply(Vec3(1.0, 1.0, 1.0), c) == c
  {
  }

  // ---------------------------------------------------------------------------
  // Reflection about a unit normal

  /** Reflection preserves length. */
  lemma ReflectPreservesLength(v: Vec3, n: Vec3)
    requires Dot(n, n) == 1.0
    ensures LengthSquared(Reflect(v, n)) == LengthSquared(v)
  {
    var d := Dot(v, n);
    var k := 2.0 * d;
    var w := Scale(n, k);
    var r := Reflect(v, n);
    assert Dot(r, n) == -d;
    LengthSquaredIsDot(r);
    LengthSquaredIsDot(v);
    DotSub(v, w, r);
    DotSymmetric(v, r);
    DotSub(v, w, v);
    DotScale(n, k, r);
    DotSymmetric(n, r);
    DotScale(n, k, v);
    DotSymmetric(n, v);
    assert Dot(w, r) == -k * d;
    assert Dot(w, v) == k * d;
  }


  /** Reflecting twice about the same unit normal is the identity. */
  lemma ReflectInvolution(v: Vec3, n: Vec3)
    requires Dot(n, n) == 1.0
    ensures Reflect(Reflect(v, n), n) == v
  {
  }
}
