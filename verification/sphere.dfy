/**
 * Spheres (`hittable/Sphere.java`): the ray-sphere intersection solved as a
 * quadratic in the ray parameter, nearer root first, and the bounding box.
 */
module Spheres {
  import opened Options
  import opened RealMath
  import opened Vectors
  import opened Rays
  import opened Boxes
  import opened Materials
  import opened HitRecords

  datatype Sphere = Sphere(center: Vec3, radius: real, material: Material)

  /**
   * `a t^2 + 2 halfB t + c`, whose roots are the parameters at which the ray
   * meets the sphere; `halfB` is half the linear coefficient, as in the Java code.
   */
  datatype Quadratic = Quadratic(a: real, halfB: real, c: real)

  function Coefficients(s: Sphere, r: Ray): Quadratic {
    var oc := Sub(r.origin, s.center);
    Quadratic(LengthSquared(r.direction), Dot(oc, r.direction), Dot(oc, oc) - s.radius * s.radius)
  }

  function Discriminant(q: Quadratic): real {
    q.halfB * q.halfB - q.a * q.c
  }

  /** The point `p` lies on the sphere's surface. */
  predicate OnSphere(s: Sphere, p: Vec3) {
    LengthSquared(Sub(p, s.center)) == s.radius * s.radius
  }

  /** A ray parameter strictly inside the open window `(tMin, tMax)`. */
  predicate InWindow(t: real, tMin: real, tMax: Limit) {
    tMin < t && Below(t, tMax)
  }

  /**
   * A positive discriminant rules out both divisions by zero in `hit`: the
   * direction is not the zero vector, and the radius is not zero (a sphere
   * of radius zero is a point, which a ray at best touches).
   */
  lemma DiscriminantPositive(s: Sphere, r: Ray)
    requires 0.0 < Discriminant(Coefficients(s, r))
    ensures 0.0 < Coefficients(s, r).a && s.radius != 0.0
  {
    ZeroDirectionNoRoots(s, r);
    LengthSquaredPositive(r.direction);
    ZeroRadiusNoRoots(s, r);
  }

  lemma ZeroDirectionNoRoots(s: Sphere, r: Ray)
    ensures r.direction == Zero ==> Discriminant(Coefficients(s, r)) == 0.0
  {
  }

  /** By Cauchy-Schwarz, a ray never crosses a sphere of radius zero. */
  lemma ZeroRadiusNoRoots(s: Sphere, r: Ray)
    ensures s.radius == 0.0 ==> Discriminant(Coefficients(s, r)) <= 0.0
  {
    var q := Coefficients(s, r);
    var oc := Sub(r.origin, s.center);
    CauchySchwarz(oc, r.direction);
    LengthSquaredIsDot(oc);
    var hb := q.halfB;
    var a := q.a;
    var l := LengthSquared(oc);
    assert hb * hb <= l * a;
    if s.radius == 0.0 {
      assert q.c == l;
      NoRootsWithinCauchySchwarz(hb, a, l);
    }
  }

  lemma NoRootsWithinCauchySchwarz(hb: real, a: real, l: real)
    requires hb * hb <= l * a
    ensures hb * hb - a * l <= 0.0
  {
  }

  /** The two candidate parameters, nearer first when `sqrt` is a square root. */
  function NearRoot(q: Quadratic, root: real): real
    requires q.a != 0.0
  {
    (-q.halfB - root) / q.a
  }

  function FarRoot(q: Quadratic, root: real): real
    requires q.a != 0.0
  {
    (-q.halfB + root) / q.a
  }

  /** The record for a hit at parameter `t`: the outward normal is `(p - center) / radius`. */
  function Surface(s: Sphere, r: Ray, t: real): HitRecord
    requires s.radius != 0.0
  {
    var p := At(r, t);
    Record(r, t, Scale(Sub(p, s.center), 1.0 / s.radius), s.material)
  }

  /**
   * `hit(ray, tMin, tMax, rec)`: `None` is the Java `false`, which leaves the
   * record untouched. Both bounds are strict; a tangent ray (zero
   * discriminant) is a miss.
   */
  function Hit(s: Sphere, r: Ray, tMin: real, tMax: Limit, f: Transcendentals): (h: Option<HitRecord>)
    ensures Discriminant(Coefficients(s, r)) <= 0.0 ==> h.None?
    ensures h.Some? ==> InWindow(h.value.t, tMin, tMax)
    ensures h.Some? ==> h.value.p == At(r, h.value.t) && h.value.material == s.material
    ensures h.Some? ==> Dot(r.direction, h.value.normal) <= 0.0
  {
    var q := Coefficients(s, r);
    var disc := Discriminant(q);
    if disc > 0.0 then
      DiscriminantPositive(s, r);
      var root := f.sqrt(disc);
      var near := NearRoot(q, root);
      if InWindow(near, tMin, tMax) then Some(Surface(s, r, near))
      else
        var far := FarRoot(q, root);
        if InWindow(far, tMin, tMax) then Some(Surface(s, r, far)) else None
    else None
  }

  /**
   * The nearer root wins whenever it lies in the window; the farther one is
   * reported only when the nearer one does not.
   */
  lemma NearRootFirst(s: Sphere, r: Ray, tMin: real, tMax: Limit, f: Transcendentals)
    requires 0.0 < Discriminant(Coefficients(s, r))
    ensures Coefficients(s, r).a != 0.0
    ensures var q := Coefficients(s, r);
      var root := f.sqrt(Discriminant(q));
      var h := Hit(s, r, tMin, tMax, f);
      (InWindow(NearRoot(q, root), tMin, tMax) ==> h.Some? && h.value.t == NearRoot(q, root)) &&
      (h.Some? && h.value.t != NearRoot(q, root) ==> h.value.t == FarRoot(q, root)) &&
      (h.None? <==> !InWindow(NearRoot(q, root), tMin, tMax) && !InWindow(FarRoot(q, root), tMin, tMax))
  {
    DiscriminantPositive(s, r);
  }

  // ---------------------------------------------------------------------------
  // Geometry of the roots

  /** Along the ray, the squared distance to the centre is the quadratic plus `radius^2`. */
  lemma DistanceAlongRay(s: Sphere, r: Ray, t: real)
    ensures var q := Coefficients(s, r);
      LengthSquared(Sub(At(r, t), s.center)) == q.a * t * t + 2.0 * q.halfB * t + q.c + s.radius * s.radius
  {
    var oc := Sub(r.origin, s.center);
    var d := r.direction;
    assert Sub(At(r, t), s.center) == Add(oc, Scale(d, t));
    ExpandAlong(oc, d, t);
  }

  lemma ExpandAlong(oc: Vec3, d: Vec3, t: real)
    ensures LengthSquared(Add(oc, Scale(d, t))) == LengthSquared(d) * t * t + 2.0 * Dot(oc, d) * t + Dot(oc, oc)
  {
  }

  /** `t` solves `a t^2 + 2 halfB t + c == 0`. */
  predicate IsRoot(q: Quadratic, t: real) {
    q.a * t * t + 2.0 * q.halfB * t + q.c == 0.0
  }

  /** The ray meets the sphere at `t` exactly when `t` is a root of the quadratic. */
  lemma OnSphereIffRoot(s: Sphere, r: Ray, t: real)
    ensures OnSphere(s, At(r, t)) <==> IsRoot(Coefficients(s, r), t)
  {
    DistanceAlongRay(s, r, t);
    OnSphereIff(s, At(r, t), Coefficients(s, r), t);
  }

  lemma OnSphereIff(s: Sphere, p: Vec3, q: Quadratic, t: real)
    requires LengthSquared(Sub(p, s.center)) == q.a * t * t + 2.0 * q.halfB * t + q.c + s.radius * s.radius
    ensures OnSphere(s, p) <==> IsRoot(q, t)
  {
  }

  /** `t` with `a t + halfB == e` and `e^2 == halfB^2 - a c` solves the quadratic. */
  lemma RootSolves(a: real, hb: real, c: real, e: real, t: real)
    requires a != 0.0 && e * e == hb * hb - a * c && a * t == -hb + e
    ensures a * t * t + 2.0 * hb * t + c == 0.0
  {
    var u := a * t;
    assert a * (a * t * t + 2.0 * hb * t + c) == u * u + 2.0 * hb * u + a * c;
    assert u * u + 2.0 * hb * u + a * c == e * e - hb * hb + a * c;
    ZeroProduct(a, a * t * t + 2.0 * hb * t + c);
  }

  lemma ZeroProduct(a: real, x: real)
    requires a != 0.0 && a * x == 0.0
    ensures x == 0.0
  {
    assert a * x == a * 0.0;
    MulCancel(a, x, 0.0);
  }

  /** Every root of the quadratic makes `a t + halfB` one of the two square roots of the discriminant. */
  lemma RootIsCandidate(a: real, hb: real, c: real, root: real, t: real)
    requires 0.0 <= root && root * root == hb * hb - a * c
    requires a * t * t + 2.0 * hb * t + c == 0.0
    ensures a * t == -hb - root || a * t == -hb + root
  {
    var u := a * t + hb;
    assert u * u == a * (a * t * t + 2.0 * hb * t + c) + hb * hb - a * c;
    assert u * u == root * root;
    assert (u - root) * (u + root) == 0.0;
    if u - root != 0.0 {
      ZeroProduct(u - root, u + root);
    }
  }

  /** Dividing by a positive `a` keeps the order. */
  lemma DivideOrdered(a: real, x: real, y: real)
    requires 0.0 < a && x <= y
    ensures x / a <= y / a
  {
    var p := x / a;
    var q := y / a;
    assert p * a == x && q * a == y;
    if q < p {
      MulLtMono(q, p, a);
    }
  }

  /** With `root` a square root of the discriminant, the nearer candidate solves the quadratic. */
  lemma NearSolves(q: Quadratic, root: real)
    requires q.a != 0.0 && root * root == Discriminant(q)
    ensures IsRoot(q, NearRoot(q, root))
  {
    var a, hb, c := q.a, q.halfB, q.c;
    var near := NearRoot(q, root);
    assert a * near == -hb - root;
    assert (-root) * (-root) == root * root;
    RootSolves(a, hb, c, -root, near);
  }

  /** With `root` a square root of the discriminant, the farther candidate solves the quadratic. */
  lemma FarSolves(q: Quadratic, root: real)
    requires q.a != 0.0 && root * root == Discriminant(q)
    ensures IsRoot(q, FarRoot(q, root))
  {
    var a, hb, c := q.a, q.halfB, q.c;
    var far := FarRoot(q, root);
    assert a * far == -hb + root;
    RootSolves(a, hb, c, root, far);
  }

  /** The quadratic has no roots besides the two candidates. */
  lemma OnlyCandidates(q: Quadratic, root: real, t: real)
    requires q.a != 0.0 && 0.0 <= root && root * root == Discriminant(q) && IsRoot(q, t)
    ensures t == NearRoot(q, root) || t == FarRoot(q, root)
  {
    var a, hb, c := q.a, q.halfB, q.c;
    RootIsCandidate(a, hb, c, root, t);
    var near := NearRoot(q, root);
    var far := FarRoot(q, root);
    assert a * near == -hb - root;
    assert a * far == -hb + root;
    if a * t == -hb - root {
      MulCancel(a, t, near);
    } else {
      MulCancel(a, t, far);
    }
  }

  /**
   * With a sound `sqrt`: both candidates are points of the sphere, the
   * nearer is at most the farther, and the ray meets the sphere nowhere else.
   */
  lemma Candidates(s: Sphere, r: Ray, f: Transcendentals)
    requires SqrtSound(f) && 0.0 < Discriminant(Coefficients(s, r))
    ensures Coefficients(s, r).a != 0.0
    ensures var q := Coefficients(s, r);
      var root := f.sqrt(Discriminant(q));
      OnSphere(s, At(r, NearRoot(q, root))) && OnSphere(s, At(r, FarRoot(q, root))) &&
      NearRoot(q, root) <= FarRoot(q, root) &&
      forall t :: OnSphere(s, At(r, t)) ==> t == NearRoot(q, root) || t == FarRoot(q, root)
  {
    var q := Coefficients(s, r);
    DiscriminantPositive(s, r);
    var root := f.sqrt(Discriminant(q));
    NearSolves(q, root);
    FarSolves(q, root);
    OnSphereIffRoot(s, r, NearRoot(q, root));
    OnSphereIffRoot(s, r, FarRoot(q, root));
    DivideOrdered(q.a, -q.halfB - root, -q.halfB + root);
    forall t | OnSphere(s, At(r, t))
      ensures t == NearRoot(q, root) || t == FarRoot(q, root)
    {
      OnSphereIffRoot(s, r, t);
      OnlyCandidates(q, root, t);
    }
  }

  /** With a sound `sqrt` and a positive discriminant, the nearer root is strictly the smaller. */
  lemma RootsDistinct(s: Sphere, r: Ray, f: Transcendentals)
    requires SqrtSound(f) && 0.0 < Discriminant(Coefficients(s, r))
    ensures Coefficients(s, r).a != 0.0
    ensures var q := Coefficients(s, r);
      var root := f.sqrt(Discriminant(q));
      NearRoot(q, root) < FarRoot(q, root)
  {
    var q := Coefficients(s, r);
    DiscriminantPositive(s, r);
    var root := f.sqrt(Discriminant(q));
    assert 0.0 <= root && root * root == Discriminant(q);
    assert root != 0.0;
    DivideOrderedStrict(q.a, -q.halfB - root, -q.halfB + root);
  }

  lemma DivideOrderedStrict(a: real, x: real, y: real)
    requires 0.0 < a && x < y
    ensures x / a < y / a
  {
    var p := x / a;
    var q := y / a;
    assert p * a == x && q * a == y;
    if q <= p {
      MulLeMono(q, p, a);
    }
  }

  /** With a sound `sqrt`, a reported hit point lies on the sphere. */
  lemma HitOnSphere(s: Sphere, r: Ray, tMin: real, tMax: Limit, f: Transcendentals)
    requires SqrtSound(f) && Hit(s, r, tMin, tMax, f).Some?
    ensures OnSphere(s, Hit(s, r, tMin, tMax, f).value.p)
  {
    Candidates(s, r, f);
  }

  /**
   * With a sound `sqrt`, `hit` reports the nearest parameter in the open
   * window at which the ray meets the sphere, and misses only when the ray
   * meets it nowhere in the window (or just touches it).
   */
  lemma HitIsNearest(s: Sphere, r: Ray, tMin: real, tMax: Limit, f: Transcendentals, t: real)
    requires SqrtSound(f) && InWindow(t, tMin, tMax) && OnSphere(s, At(r, t))
    ensures var h := Hit(s, r, tMin, tMax, f);
      (h.Some? ==> h.value.t <= t) &&
      (h.None? ==> Discriminant(Coefficients(s, r)) <= 0.0)
  {
    if 0.0 < Discriminant(Coefficients(s, r)) {
      Candidates(s, r, f);
    }
  }

  /** The normal stored on a hit has unit length when `sqrt` is a square root. */
  lemma HitNormalUnit(s: Sphere, r: Ray, tMin: real, tMax: Limit, f: Transcendentals)
    requires SqrtSound(f) && Hit(s, r, tMin, tMax, f).Some?
    ensures LengthSquared(Hit(s, r, tMin, tMax, f).value.normal) == 1.0
  {
    var h := Hit(s, r, tMin, tMax, f).value;
    HitOnSphere(s, r, tMin, tMax, f);
    DiscriminantPositive(s, r);
    var v := Sub(h.p, s.center);
    LengthSquaredScale(v, 1.0 / s.radius);
    InverseSquare(s.radius, LengthSquared(v));
  }

  lemma InverseSquare(k: real, l: real)
    requires k != 0.0 && l == k * k
    ensures (1.0 / k) * (1.0 / k) * l == 1.0
  {
    assert (1.0 / k) * k == 1.0;
    assert (1.0 / k) * (1.0 / k) * (k * k) == ((1.0 / k) * k) * ((1.0 / k) * k);
  }

  /**
   * Narrowing the upper end of the window keeps a hit that still lies below
   * it, as `HittableList` relies on when it shrinks `closestSoFar`.
   */
  lemma Narrowing(s: Sphere, r: Ray, tMin: real, wide: Limit, narrow: Limit, f: Transcendentals)
    requires LimitLe(narrow, wide) && Hit(s, r, tMin, wide, f).Some?
    requires Below(Hit(s, r, tMin, wide, f).value.t, narrow)
    ensures Hit(s, r, tMin, narrow, f) == Hit(s, r, tMin, wide, f)
  {
  }

  /**
   * Widening the window keeps a hit: with a sound `sqrt` the nearer root is
   * the smaller, so a window that reported the farther root had the nearer
   * one at or below `tMin`.
   */
  lemma Widening(s: Sphere, r: Ray, tMin: real, narrow: Limit, wide: Limit, f: Transcendentals)
    requires SqrtSound(f) && LimitLe(narrow, wide) && Hit(s, r, tMin, narrow, f).Some?
    ensures Hit(s, r, tMin, wide, f) == Hit(s, r, tMin, narrow, f)
  {
    RootsDistinct(s, r, f);
  }

  // ---------------------------------------------------------------------------
  // Bounding box

  /** `boundingBox()`: the cube `center -+ (radius, radius, radius)`. */
  function BoundingBox(s: Sphere): (b: AABB)
    ensures 0.0 <= s.radius ==> WellFormed(b)
  {
    var extent := Vec3(s.radius, s.radius, s.radius);
    AABB(Sub(s.center, extent), Add(s.center, extent))
  }

  /** The box holds exactly the points within `radius` of the center along every axis. */
  lemma InBoundingBox(s: Sphere, p: Vec3)
    ensures ContainsPoint(BoundingBox(s), p) <==>
      Abs(p.x - s.center.x) <= s.radius && Abs(p.y - s.center.y) <= s.radius && Abs(p.z - s.center.z) <= s.radius
  {
  }

  /** A point of a sphere of non-negative radius lies in its bounding box. */
  lemma OnSphereInBox(s: Sphere, p: Vec3)
    requires 0.0 <= s.radius && OnSphere(s, p)
    ensures ContainsPoint(BoundingBox(s), p)
  {
    var v := Sub(p, s.center);
    SquaresNonneg(v);
    SumOfNonneg(v.x * v.x, v.y * v.y, v.z * v.z);
    SquareBound(v.x, s.radius);
    SquareBound(v.y, s.radius);
    SquareBound(v.z, s.radius);
    InBoundingBox(s, p);
  }

  /** So the box of a sphere of non-negative radius holds the whole sphere. */
  lemma BoxHoldsSphere(s: Sphere)
    requires 0.0 <= s.radius
    ensures forall p :: OnSphere(s, p) ==> ContainsPoint(BoundingBox(s), p)
  {
    forall p | OnSphere(s, p)
      ensures ContainsPoint(BoundingBox(s), p)
    {
      OnSphereInBox(s, p);
    }
  }

  /** Every reported hit point of a sphere of non-negative radius lies in its box. */
  lemma HitInBox(s: Sphere, r: Ray, tMin: real, tMax: Limit, f: Transcendentals)
    requires 0.0 <= s.radius && SqrtSound(f) && Hit(s, r, tMin, tMax, f).Some?
    ensures ContainsPoint(BoundingBox(s), Hit(s, r, tMin, tMax, f).value.p)
  {
    HitOnSphere(s, r, tMin, tMax, f);
    OnSphereInBox(s, Hit(s, r, tMin, tMax, f).value.p);
  }

  /**
   * The slab test of the sphere's box lets through every hit of a sphere of
   * non-negative radius: both roots lie in the box, and the window holds the
   * nearer one (closed below) or the farther one (closed above).
   */
  lemma HitPassesBox(s: Sphere, r: Ray, tMin: real, tMax: Limit, f: Transcendentals)
    requires 0.0 <= s.radius && SqrtSound(f) && Hit(s, r, tMin, tMax, f).Some?
    ensures Boxes.Hit(BoundingBox(s), r, tMin, tMax)
  {
    var q := Coefficients(s, r);
    Candidates(s, r, f);
    RootsDistinct(s, r, f);
    var root := f.sqrt(Discriminant(q));
    var near, far := NearRoot(q, root), FarRoot(q, root);
    OnSphereInBox(s, At(r, near));
    OnSphereInBox(s, At(r, far));
    SegmentHit(BoundingBox(s), r, tMin, tMax, near, far);
  }
}
