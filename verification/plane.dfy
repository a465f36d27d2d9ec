/**
 * Infinite planes (`hittable/Plane.java`): a point on the plane and a unit
 * normal, hit by any ray that is not (nearly) parallel to it.
 */
module Planes {
  import opened Options
  import opened RealMath
  import opened Vectors
  import opened Rays
  import opened Boxes
  import opened Materials
  import opened HitRecords

  datatype Plane = Plane(point: Vec3, normal: Vec3, material: Material)

  /** Rays whose direction has a smaller dot product with the normal count as parallel. */
  const ParallelEpsilon: real := 0.000001

  /** Half the side of the box `boundingBox()` returns along `x` and `z`. */
  const HalfExtent: real := 1000000000.0

  /** Half the thickness of that box along `y`. */
  const HalfThickness: real := 0.01

  /** `new Plane(point, normal, material)` stores the normal normalized. */
  function NewPlane(point: Vec3, normal: Vec3, material: Material, f: Transcendentals): (p: Plane)
    ensures p.point == point && p.material == material
    ensures normal == Zero ==> p.normal == Zero
  {
    Plane(point, Normalize(normal, f), material)
  }

  /** With a sound `sqrt`, a plane built from a non-zero normal has a unit normal. */
  lemma NewPlaneUnitNormal(point: Vec3, normal: Vec3, material: Material, f: Transcendentals)
    requires SqrtSound(f) && normal != Zero
    ensures LengthSquared(NewPlane(point, normal, material, f).normal) == 1.0
  {
    NormalizeUnit(normal, f);
  }

  /** The point `q` lies on the plane. */
  predicate OnPlane(p: Plane, q: Vec3) {
    Dot(Sub(q, p.point), p.normal) == 0.0
  }

  /** A ray parameter in the closed window `[tMin, tMax]`. */
  predicate InClosedWindow(t: real, tMin: real, tMax: Limit) {
    tMin <= t && AtMost(t, tMax)
  }

  /** The parameter at which a non-parallel ray crosses the plane. */
  function Crossing(p: Plane, r: Ray): real
    requires Dot(r.direction, p.normal) != 0.0
  {
    Dot(Sub(p.point, r.origin), p.normal) / Dot(r.direction, p.normal)
  }

  /**
   * `hit(r, tMin, tMax, rec)`: a miss for a nearly parallel ray, and a miss
   * unless the crossing lies in the closed window (both bounds are
   * inclusive here, unlike the sphere's).
   */
  function Hit(p: Plane, r: Ray, tMin: real, tMax: Limit): (h: Option<HitRecord>)
    ensures Abs(Dot(r.direction, p.normal)) < ParallelEpsilon ==> h.None?
    ensures h.Some? ==> InClosedWindow(h.value.t, tMin, tMax)
    ensures h.Some? ==> h.value.p == At(r, h.value.t) && h.value.material == p.material
    ensures h.Some? ==> Dot(r.direction, h.value.normal) <= 0.0
  {
    var denominator := Dot(r.direction, p.normal);
    if Abs(denominator) < ParallelEpsilon then None
    else
      var t := Crossing(p, r);
      if t < tMin || !AtMost(t, tMax) then None
      else Some(Record(r, t, p.normal, p.material))
  }

  /** Along a non-parallel ray, the plane is met exactly at the crossing parameter. */
  lemma OnPlaneIffCrossing(p: Plane, r: Ray, t: real)
    requires Dot(r.direction, p.normal) != 0.0
    ensures OnPlane(p, At(r, t)) <==> t == Crossing(p, r)
  {
    var denominator := Dot(r.direction, p.normal);
    var numerator := Dot(Sub(p.point, r.origin), p.normal);
    assert Sub(At(r, t), p.point) == Add(Scale(r.direction, t), Sub(r.origin, p.point));
    DotAdd(Scale(r.direction, t), Sub(r.origin, p.point), p.normal);
    DotScale(r.direction, t, p.normal);
    assert Dot(Sub(r.origin, p.point), p.normal) == -numerator;
    CrossingSolves(numerator, denominator, t);
  }

  lemma CrossingSolves(numerator: real, denominator: real, t: real)
    requires denominator != 0.0
    ensures t * denominator - numerator == 0.0 <==> t == numerator / denominator
  {
    var c := numerator / denominator;
    assert c * denominator == numerator;
    if t * denominator == numerator {
      MulCancel(denominator, t, c);
    }
  }

  /**
   * `hit` succeeds exactly when the ray is not nearly parallel and meets the
   * plane somewhere in the closed window; the point it reports is on the
   * plane, and it is the only point of the ray on the plane.
   */
  lemma HitIffCrossing(p: Plane, r: Ray, tMin: real, tMax: Limit)
    requires ParallelEpsilon <= Abs(Dot(r.direction, p.normal))
    ensures var h := Hit(p, r, tMin, tMax);
      (h.Some? <==> exists t :: InClosedWindow(t, tMin, tMax) && OnPlane(p, At(r, t))) &&
      (h.Some? ==> OnPlane(p, h.value.p) && forall t :: OnPlane(p, At(r, t)) ==> t == h.value.t)
  {
    var c := Crossing(p, r);
    OnPlaneIffCrossing(p, r, c);
    forall t | OnPlane(p, At(r, t))
      ensures t == c
    {
      OnPlaneIffCrossing(p, r, t);
    }
  }

  /** Narrowing the window keeps a hit that still lies within it. */
  lemma Narrowing(p: Plane, r: Ray, tMin: real, wide: Limit, narrow: Limit)
    requires LimitLe(narrow, wide) && Hit(p, r, tMin, wide).Some?
    requires AtMost(Hit(p, r, tMin, wide).value.t, narrow)
    ensures Hit(p, r, tMin, narrow) == Hit(p, r, tMin, wide)
  {
  }

  /** Widening the window keeps a hit. */
  lemma Widening(p: Plane, r: Ray, tMin: real, narrow: Limit, wide: Limit)
    requires LimitLe(narrow, wide) && Hit(p, r, tMin, narrow).Some?
    ensures Hit(p, r, tMin, wide) == Hit(p, r, tMin, narrow)
  {
  }

  // ---------------------------------------------------------------------------
  // Bounding box

  /**
   * `boundingBox()`: `1e9` either way along `x` and `z`, and `point.y -+ 0.01`
   * along `y`, whatever the normal.
   */
  function BoundingBox(p: Plane): (b: AABB)
    ensures WellFormed(b)
  {
    AABB(Vec3(-HalfExtent, p.point.y - HalfThickness, -HalfExtent),
         Vec3(HalfExtent, p.point.y + HalfThickness, HalfExtent))
  }

  /** The box holds exactly the points within `1e9` of the `y` axis and `0.01` of the plane's height. */
  lemma InBoundingBox(p: Plane, q: Vec3)
    ensures ContainsPoint(BoundingBox(p), q) <==>
      Abs(q.x) <= HalfExtent && Abs(q.z) <= HalfExtent && Abs(q.y - p.point.y) <= HalfThickness
  {
  }

  /**
   * For a horizontal plane the box holds every point of the plane within
   * `1e9` of the `y` axis.
   */
  lemma HorizontalPlaneInBox(p: Plane, q: Vec3)
    requires p.normal.x == 0.0 && p.normal.z == 0.0 && p.normal.y != 0.0
    requires OnPlane(p, q) && Abs(q.x) <= HalfExtent && Abs(q.z) <= HalfExtent
    ensures ContainsPoint(BoundingBox(p), q)
  {
    assert Dot(Sub(q, p.point), p.normal) == (q.y - p.point.y) * p.normal.y;
    ZeroFactor(q.y - p.point.y, p.normal.y);
    InBoundingBox(p, q);
  }

  lemma ZeroFactor(x: real, k: real)
    requires k != 0.0 && x * k == 0.0
    ensures x == 0.0
  {
    assert k * x == k * 0.0;
    MulCancel(k, x, 0.0);
  }

  /**
   * The box ignores the normal: a ray along `x` at any height above `0.01`
   * hits the vertical plane `x == 0` through the origin at a point outside
   * the plane's box.
   */
  lemma VerticalPlaneOutsideBox(height: real)
    requires HalfThickness < height
    ensures var p := Plane(Zero, Vec3(1.0, 0.0, 0.0), Debug);
      var r := Ray(Vec3(-1.0, height, 0.0), Vec3(1.0, 0.0, 0.0));
      var h := Hit(p, r, 0.0, Infinite);
      h.Some? && OnPlane(p, h.value.p) && !ContainsPoint(BoundingBox(p), h.value.p)
  {
    var p := Plane(Zero, Vec3(1.0, 0.0, 0.0), Debug);
    var r := Ray(Vec3(-1.0, height, 0.0), Vec3(1.0, 0.0, 0.0));
    var q := Vec3(0.0, height, 0.0);
    assert At(r, 1.0) == q;
    assert Dot(Sub(q, p.point), p.normal) == 0.0;
    assert Dot(r.direction, p.normal) == 1.0;
    OnPlaneIffCrossing(p, r, 1.0);
    InBoundingBox(p, q);
  }
  /**
   * The box test therefore hides that hit: the ray crosses the plane inside
   * the window, yet the slab test against the plane's box fails, because the
   * ray runs parallel to the box's thin `y` slab outside it.
   */
  lemma BoxTestHidesHit(height: real, tMin: real)
    requires HalfThickness < height && tMin <= 1.0
    ensures var p := Plane(Zero, Vec3(1.0, 0.0, 0.0), Debug);
      var r := Ray(Vec3(-1.0, height, 0.0), Vec3(1.0, 0.0, 0.0));
      Hit(p, r, tMin, Infinite).Some? && !Boxes.Hit(BoundingBox(p), r, tMin, Infinite)
  {
    var p := Plane(Zero, Vec3(1.0, 0.0, 0.0), Debug);
    var r := Ray(Vec3(-1.0, height, 0.0), Vec3(1.0, 0.0, 0.0));
    var q := Vec3(0.0, height, 0.0);
    assert At(r, 1.0) == q;
    assert Dot(Sub(q, p.point), p.normal) == 0.0;
    assert Dot(r.direction, p.normal) == 1.0;
    OnPlaneIffCrossing(p, r, 1.0);
    ParallelOutsideSlabMisses(BoundingBox(p), r, tMin, Infinite);
  }

  /** The corrected box of the same plane lets that ray through. */
  lemma EnclosingBoxCatchesHit(height: real, tMin: real)
    requires HalfThickness < height < HalfExtent && tMin < 1.0
    ensures var p := Plane(Zero, Vec3(1.0, 0.0, 0.0), Debug);
      var r := Ray(Vec3(-1.0, height, 0.0), Vec3(1.0, 0.0, 0.0));
      Boxes.Hit(EnclosingBox(p), r, tMin, Infinite)
  {
    var p := Plane(Zero, Vec3(1.0, 0.0, 0.0), Debug);
    var r := Ray(Vec3(-1.0, height, 0.0), Vec3(1.0, 0.0, 0.0));
    assert !IsHorizontal(p);
    var q := Vec3(0.0, height, 0.0);
    assert At(r, 1.0) == q;
    assert InteriorPoint(EnclosingBox(p), q);
    InteriorHit(EnclosingBox(p), r, tMin, Infinite, 1.0);
  }

  /** A ray parallel to the `y` slab of a box and outside it misses the box. */
  lemma ParallelOutsideSlabMisses(b: AABB, r: Ray, tMin: real, tMax: Limit)
    requires r.direction.y == 0.0 && !(b.min.y <= r.origin.y <= b.max.y)
    ensures !Boxes.Hit(b, r, tMin, tMax)
  {
    var w := Window(tMin, tMax);
    match AxisStep(b, r, 0, w)
    case None =>
    case Some(w1) =>
      assert AxisStep(b, r, 1, w1).None?;
  }

  /** A normal along the `y` axis. */
  predicate IsHorizontal(p: Plane) {
    p.normal.x == 0.0 && p.normal.z == 0.0 && p.normal.y != 0.0
  }

  /**
   * The box `boundingBox()` is evidently meant to be: one that holds every
   * point of the plane within `1e9` of the origin along all three axes. For
   * a horizontal plane that is the thin slab the code builds; for any other
   * normal (or a zero one) it is the whole `1e9` cube.
   */
  function EnclosingBox(p: Plane): (b: AABB)
    ensures WellFormed(b)
    ensures IsHorizontal(p) ==> b == BoundingBox(p)
  {
    if IsHorizontal(p) then BoundingBox(p)
    else AABB(Vec3(-HalfExtent, -HalfExtent, -HalfExtent), Vec3(HalfExtent, HalfExtent, HalfExtent))
  }

  /** Every point of the plane within `1e9` of the origin on every axis lies in the enclosing box. */
  lemma EnclosingBoxContainsPlane(p: Plane, q: Vec3)
    requires OnPlane(p, q) && Abs(q.x) <= HalfExtent && Abs(q.y) <= HalfExtent && Abs(q.z) <= HalfExtent
    ensures ContainsPoint(EnclosingBox(p), q)
  {
    if IsHorizontal(p) {
      HorizontalPlaneInBox(p, q);
    }
  }

  /** So every hit point within `1e9` of the origin on every axis lies in the enclosing box. */
  lemma HitInEnclosingBox(p: Plane, r: Ray, tMin: real, tMax: Limit)
    requires Hit(p, r, tMin, tMax).Some?
    requires var q := Hit(p, r, tMin, tMax).value.p;
      Abs(q.x) <= HalfExtent && Abs(q.y) <= HalfExtent && Abs(q.z) <= HalfExtent
    ensures ContainsPoint(EnclosingBox(p), Hit(p, r, tMin, tMax).value.p)
  {
    HitIffCrossing(p, r, tMin, tMax);
    EnclosingBoxContainsPlane(p, Hit(p, r, tMin, tMax).value.p);
  }

  /** Where the ray meets the plane, if it does, lies strictly inside the cube of half side `1e9`. */
  predicate CrossesInsideCube(p: Plane, r: Ray) {
    ParallelEpsilon <= Abs(Dot(r.direction, p.normal)) ==>
      var q := At(r, Crossing(p, r));
      Abs(q.x) < HalfExtent && Abs(q.y) < HalfExtent && Abs(q.z) < HalfExtent
  }

  /**
   * For a horizontal plane, the slab test of the plane's own box lets
   * through every hit inside the cube, in any window that is not a single
   * point: the hit point is strictly inside the thin slab.
   */
  lemma HitPassesBox(p: Plane, r: Ray, tMin: real, tMax: Limit)
    requires IsHorizontal(p) && CrossesInsideCube(p, r)
    requires Below(tMin, tMax) && Hit(p, r, tMin, tMax).Some?
    ensures Boxes.Hit(BoundingBox(p), r, tMin, tMax)
  {
    var h := Hit(p, r, tMin, tMax).value;
    HitIffCrossing(p, r, tMin, tMax);
    HorizontalHeight(p, h.p);
    assert InteriorPoint(BoundingBox(p), At(r, h.t));
    InteriorHitClosed(BoundingBox(p), r, tMin, tMax, h.t);
  }

  /** A point on a horizontal plane is at the plane's height. */
  lemma HorizontalHeight(p: Plane, q: Vec3)
    requires IsHorizontal(p) && Dot(Sub(q, p.point), p.normal) == 0.0
    ensures q.y == p.point.y
  {
    assert Dot(Sub(q, p.point), p.normal) == (q.y - p.point.y) * p.normal.y;
    ZeroFactor(q.y - p.point.y, p.normal.y);
  }

  /**
   * Whatever the normal, the slab test of the corrected box lets through
   * every hit inside the cube, in any window that is not a single point.
   */
  lemma HitPassesEnclosingBox(p: Plane, r: Ray, tMin: real, tMax: Limit)
    requires CrossesInsideCube(p, r)
    requires Below(tMin, tMax) && Hit(p, r, tMin, tMax).Some?
    ensures Boxes.Hit(EnclosingBox(p), r, tMin, tMax)
  {
    var h := Hit(p, r, tMin, tMax).value;
    if IsHorizontal(p) {
      HitPassesBox(p, r, tMin, tMax);
    } else {
      assert InteriorPoint(EnclosingBox(p), At(r, h.t));
      InteriorHitClosed(EnclosingBox(p), r, tMin, tMax, h.t);
    }
  }
}
