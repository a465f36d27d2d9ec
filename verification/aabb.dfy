/**
 * Axis-aligned bounding boxes (`hittable/AABB.java`): the slab test of a ray
 * against a box, and the smallest box around two boxes.
 *
 * The Java slab test divides by each direction component. For a non-zero
 * component the model follows the code step by step. For a zero component
 * IEEE arithmetic produces infinities (and NaN on the slab boundary); worked
 * through the code's comparisons, the axis then leaves the parameter window
 * unchanged when the origin coordinate lies in the closed slab `[min, max]`
 * and rejects the ray otherwise, which is what `SlabStep` states.
 */
module Boxes {
  import opened Options
  import opened RealMath
  import opened Vectors
  import opened Rays

  datatype AABB = AABB(min: Vec3, max: Vec3)

  /** `min <= max` on every axis. */
  predicate WellFormed(b: AABB) {
    b.min.x <= b.max.x && b.min.y <= b.max.y && b.min.z <= b.max.z
  }

  /** `inner` lies within `outer` on every axis. */
  predicate ContainsBox(outer: AABB, inner: AABB) {
    outer.min.x <= inner.min.x && outer.min.y <= inner.min.y && outer.min.z <= inner.min.z &&
    inner.max.x <= outer.max.x && inner.max.y <= outer.max.y && inner.max.z <= outer.max.z
  }

  /** `p` lies in the closed box. */
  predicate ContainsPoint(b: AABB, p: Vec3) {
    b.min.x <= p.x <= b.max.x && b.min.y <= p.y <= b.max.y && b.min.z <= p.z <= b.max.z
  }

  /** `p` lies strictly inside the box. */
  predicate InteriorPoint(b: AABB, p: Vec3) {
    b.min.x < p.x < b.max.x && b.min.y < p.y < b.max.y && b.min.z < p.z < b.max.z
  }

  // ---------------------------------------------------------------------------
  // surroundingBox

  /** `surroundingBox`: the component-wise minimum of the mins and maximum of the maxes. */
  function Surrounding(a: AABB, b: AABB): (s: AABB)
    ensures ContainsBox(s, a) && ContainsBox(s, b)
    ensures WellFormed(a) && WellFormed(b) ==> WellFormed(s)
  {
    AABB(Vec3(Min(a.min.x, b.min.x), Min(a.min.y, b.min.y), Min(a.min.z, b.min.z)),
         Vec3(Max(a.max.x, b.max.x), Max(a.max.y, b.max.y), Max(a.max.z, b.max.z)))
  }

  /** The union is the least box containing both arguments. */
  lemma SurroundingLeast(a: AABB, b: AABB, c: AABB)
    requires ContainsBox(c, a) && ContainsBox(c, b)
    ensures ContainsBox(c, Surrounding(a, b))
  {
  }

  lemma SurroundingCommutative(a: AABB, b: AABB)
    ensures Surrounding(a, b) == Surrounding(b, a)
  {
  }

  lemma SurroundingAssociative(a: AABB, b: AABB, c: AABB)
    ensures Surrounding(Surrounding(a, b), c) == Surrounding(a, Surrounding(b, c))
  {
  }

  lemma SurroundingIdempotent(a: AABB)
    ensures Surrounding(a, a) == a
  {
  }

  /** Containment is a partial order on boxes. */
  lemma ContainsBoxOrder(a: AABB, b: AABB, c: AABB)
    ensures ContainsBox(a, a)
    ensures ContainsBox(a, b) && ContainsBox(b, c) ==> ContainsBox(a, c)
    ensures ContainsBox(a, b) && ContainsBox(b, a) ==> a == b
  {
  }

  /** A box containing `a` contains every point of `a`. */
  lemma ContainsBoxPoint(outer: AABB, inner: AABB, p: Vec3)
    requires ContainsBox(outer, inner) && ContainsPoint(inner, p)
    ensures ContainsPoint(outer, p)
  {
  }

  // ---------------------------------------------------------------------------
  // The slab test

  /** The open parameter interval `(lo, hi)` still allowed for a hit. */
  datatype Window = Window(lo: real, hi: Limit)

  predicate NonEmpty(w: Window) {
    Below(w.lo, w.hi)
  }

  /** `w` lies within `v`. */
  predicate WithinWindow(w: Window, v: Window) {
    v.lo <= w.lo && LimitLe(w.hi, v.hi)
  }

  /** Where the ray enters the slab `[lo, hi]` along a non-zero direction `d`. */
  function Near(lo: real, hi: real, o: real, d: real): real
    requires d != 0.0
  {
    var invD := 1.0 / d;
    if invD < 0.0 then (hi - o) * invD else (lo - o) * invD
  }

  /** Where the ray leaves the slab `[lo, hi]` along a non-zero direction `d`. */
  function Far(lo: real, hi: real, o: real, d: real): real
    requires d != 0.0
  {
    var invD := 1.0 / d;
    if invD < 0.0 then (lo - o) * invD else (hi - o) * invD
  }

  /**
   * One iteration of the loop in `hit`: narrow the window to the slab's entry
   * and exit, then reject when the window has become empty.
   */
  function SlabStep(lo: real, hi: real, o: real, d: real, w: Window): (r: Option<Window>)
    ensures r.Some? ==> NonEmpty(r.value) && WithinWindow(r.value, w)
    ensures NonEmpty(w) && d == 0.0 && lo <= o <= hi ==> r == Some(w)
    ensures d == 0.0 && !(lo <= o <= hi) ==> r.None?
  {
    var next :=
      if d == 0.0 then
        if lo <= o <= hi then w else Window(w.lo, Bounded(w.lo))
      else
        var near := Near(lo, hi, o, d);
        Window(if near > w.lo then near else w.lo, Narrow(Far(lo, hi, o, d), w.hi));
    if NonEmpty(next) then Some(next) else None
  }

  /** The slab step for one axis of box `b`. */
  function AxisStep(b: AABB, r: Ray, axis: int, w: Window): Option<Window> {
    SlabStep(Component(b.min, axis), Component(b.max, axis),
             Component(r.origin, axis), Component(r.direction, axis), w)
  }

  /** The loop of `hit` from `axis` on; an early `return false` is a `None` step. */
  function SlabsFrom(b: AABB, r: Ray, axis: nat, w: Window): bool
    requires axis <= 3
    decreases 3 - axis
  {
    if axis == 3 then true
    else
      match AxisStep(b, r, axis, w)
      case None => false
      case Some(w') => SlabsFrom(b, r, axis + 1, w')
  }

  /**
   * `hit(r, tMin, tMax)`: never for an empty parameter range and, with no
   * zero direction component, exactly when `tMin` and the three slab entries
   * all lie below `tMax` and the three slab exits.
   */
  function Hit(b: AABB, r: Ray, tMin: real, tMax: Limit): (hit: bool)
    ensures hit ==> Below(tMin, tMax)
    ensures NoZeroComponent(r) ==> (hit <==> Overlap(b, r, 0, Window(tMin, tMax)))
  {
    if NoZeroComponent(r) then
      SlabsFromIffOverlap(b, r, 0, Window(tMin, tMax));
      SlabsFrom(b, r, 0, Window(tMin, tMax))
    else
      SlabsFrom(b, r, 0, Window(tMin, tMax))
  }

  // ---------------------------------------------------------------------------
  // Closed form for non-zero directions

  /** The three direction components are non-zero. */
  predicate NoZeroComponent(r: Ray) {
    r.direction.x != 0.0 && r.direction.y != 0.0 && r.direction.z != 0.0
  }

  function Entry(b: AABB, r: Ray, axis: int): real
    requires NoZeroComponent(r)
  {
    Near(Component(b.min, axis), Component(b.max, axis), Component(r.origin, axis), Component(r.direction, axis))
  }

  function Exit(b: AABB, r: Ray, axis: int): real
    requires NoZeroComponent(r)
  {
    Far(Component(b.min, axis), Component(b.max, axis), Component(r.origin, axis), Component(r.direction, axis))
  }

  /**
   * From `axis` on, every lower bound (the window's `lo` and each slab entry)
   * is strictly below every upper bound (the window's `hi` and each slab exit).
   */
  predicate Overlap(b: AABB, r: Ray, axis: nat, w: Window)
    requires NoZeroComponent(r)
  {
    NonEmpty(w) &&
    (forall j :: axis <= j < 3 ==> w.lo < Exit(b, r, j)) &&
    (forall i :: axis <= i < 3 ==> Below(Entry(b, r, i), w.hi)) &&
    (forall i, j :: axis <= i < 3 && axis <= j < 3 ==> Entry(b, r, i) < Exit(b, r, j))
  }

  lemma {:induction false} SlabsFromIffOverlap(b: AABB, r: Ray, axis: nat, w: Window)
    requires NoZeroComponent(r) && axis < 3
    ensures SlabsFrom(b, r, axis, w) <==> Overlap(b, r, axis, w)
    decreases 3 - axis
  {
    var near := Entry(b, r, axis);
    var far := Exit(b, r, axis);
    var w' := Window(if near > w.lo then near else w.lo, Narrow(far, w.hi));
    assert AxisStep(b, r, axis, w) == if NonEmpty(w') then Some(w') else None;
    if axis < 2 {
      SlabsFromIffOverlap(b, r, axis + 1, w');
    }
  }

  // ---------------------------------------------------------------------------
  // Soundness and completeness against the box's points

  /** The coordinate of `At(r, t)` on `axis` lies within the slab of `b`. */
  predicate InSlab(b: AABB, r: Ray, axis: int, t: real) {
    Component(b.min, axis) <= Component(At(r, t), axis) <= Component(b.max, axis)
  }

  /** Strictly within the slab. */
  predicate InOpenSlab(b: AABB, r: Ray, axis: int, t: real) {
    Component(b.min, axis) < Component(At(r, t), axis) < Component(b.max, axis)
  }

  lemma AtComponent(r: Ray, t: real, axis: int)
    ensures Component(At(r, t), axis) == Component(r.origin, axis) + Component(r.direction, axis) * t
  {
  }

  /** A `t` strictly between a slab's entry and exit puts the coordinate inside the slab. */
  lemma BetweenNearFar(lo: real, hi: real, o: real, d: real, t: real)
    requires d != 0.0
    ensures Near(lo, hi, o, d) < t < Far(lo, hi, o, d) <==> lo < o + d * t < hi
  {
    ReciprocalSign(d);
    var s := d * t;
    assert t * d == s;
    if d < 0.0 {
      assert Near(lo, hi, o, d) == (hi - o) * (1.0 / d);
      assert Far(lo, hi, o, d) == (lo - o) * (1.0 / d);
      ScaledLt(hi - o, d, t);
      ScaledLt(lo - o, d, t);
    } else {
      assert Near(lo, hi, o, d) == (lo - o) * (1.0 / d);
      assert Far(lo, hi, o, d) == (hi - o) * (1.0 / d);
      ScaledLt(lo - o, d, t);
      ScaledLt(hi - o, d, t);
    }
  }

  /** A successful slab test leaves a parameter `t` in the window whose point lies in every later slab. */
  lemma {:induction false} SlabsFromWitness(b: AABB, r: Ray, axis: nat, w: Window) returns (t: real)
    requires axis <= 3 && SlabsFrom(b, r, axis, w)
    requires axis == 3 ==> NonEmpty(w)
    ensures w.lo < t && Below(t, w.hi)
    ensures forall k :: axis <= k < 3 ==> InSlab(b, r, k, t)
    decreases 3 - axis
  {
    if axis == 3 {
      t := if w.hi.Infinite? then w.lo + 1.0 else (w.lo + w.hi.value) / 2.0;
    } else {
      var w' := AxisStep(b, r, axis, w).value;
      t := SlabsFromWitness(b, r, axis + 1, w');
      AxisStepWitness(b, r, axis, w, t);
    }
  }

  /** Any `t` left in the window after the step for `axis` puts `At(r, t)` within that slab. */
  lemma AxisStepWitness(b: AABB, r: Ray, axis: int, w: Window, t: real)
    requires AxisStep(b, r, axis, w).Some?
    requires AxisStep(b, r, axis, w).value.lo < t && Below(t, AxisStep(b, r, axis, w).value.hi)
    ensures InSlab(b, r, axis, t)
  {
    SlabStepWitness(Component(b.min, axis), Component(b.max, axis),
                    Component(r.origin, axis), Component(r.direction, axis), w, t);
    AtComponent(r, t, axis);
  }

  /** Any `t` left in the narrowed window puts the coordinate within the slab. */
  lemma SlabStepWitness(lo: real, hi: real, o: real, d: real, w: Window, t: real)
    requires SlabStep(lo, hi, o, d, w).Some?
    requires SlabStep(lo, hi, o, d, w).value.lo < t && Below(t, SlabStep(lo, hi, o, d, w).value.hi)
    ensures lo <= o + d * t <= hi
  {
    if d != 0.0 {
      BetweenNearFar(lo, hi, o, d, t);
    }
  }

  /** `hit` implies some `t` in `(tMin, tMax)` whose point lies in the closed box. */
  lemma HitWitness(b: AABB, r: Ray, tMin: real, tMax: Limit) returns (t: real)
    requires Hit(b, r, tMin, tMax)
    ensures tMin < t && Below(t, tMax)
    ensures ContainsPoint(b, At(r, t))
  {
    t := SlabsFromWitness(b, r, 0, Window(tMin, tMax));
    assert InSlab(b, r, 0, t) && InSlab(b, r, 1, t) && InSlab(b, r, 2, t);
  }

  lemma {:induction false} SlabsFromInterior(b: AABB, r: Ray, axis: nat, w: Window, t: real)
    requires axis <= 3
    requires w.lo < t && Below(t, w.hi)
    requires forall k :: axis <= k < 3 ==> InOpenSlab(b, r, k, t)
    ensures SlabsFrom(b, r, axis, w)
    decreases 3 - axis
  {
    if axis < 3 {
      var lo, hi := Component(b.min, axis), Component(b.max, axis);
      var o, d := Component(r.origin, axis), Component(r.direction, axis);
      assert InOpenSlab(b, r, axis, t);
      AtComponent(r, t, axis);
      InteriorSlabStep(lo, hi, o, d, w, t);
      var w' := AxisStep(b, r, axis, w).value;
      SlabsFromInterior(b, r, axis + 1, w', t);
    }
  }

  /** A slab that holds the ray strictly at a `t` inside the window keeps `t` inside the narrowed window. */
  lemma InteriorSlabStep(lo: real, hi: real, o: real, d: real, w: Window, t: real)
    requires lo < o + d * t < hi && w.lo < t && Below(t, w.hi)
    ensures var next := SlabStep(lo, hi, o, d, w);
      next.Some? && next.value.lo < t && Below(t, next.value.hi)
  {
    if d != 0.0 {
      BetweenNearFar(lo, hi, o, d, t);
    }
  }

  /** A point strictly inside the box at some `t` in `(tMin, tMax)` makes `hit` succeed. */
  lemma InteriorHit(b: AABB, r: Ray, tMin: real, tMax: Limit, t: real)
    requires tMin < t && Below(t, tMax)
    requires InteriorPoint(b, At(r, t))
    ensures Hit(b, r, tMin, tMax)
  {
    assert InOpenSlab(b, r, 0, t) && InOpenSlab(b, r, 1, t) && InOpenSlab(b, r, 2, t);
    SlabsFromInterior(b, r, 0, Window(tMin, tMax), t);
  }

  // ---------------------------------------------------------------------------
  // Hits through the ends of a segment

  /** With a sign of `d`, a closed slab is the closed interval between entry and exit. */
  lemma BetweenNearFarClosed(lo: real, hi: real, o: real, d: real, t: real)
    requires d != 0.0
    ensures Near(lo, hi, o, d) <= t <= Far(lo, hi, o, d) <==> lo <= o + d * t <= hi
  {
    ReciprocalSign(d);
    var s := d * t;
    assert t * d == s;
    if d < 0.0 {
      assert Near(lo, hi, o, d) == (hi - o) * (1.0 / d);
      assert Far(lo, hi, o, d) == (lo - o) * (1.0 / d);
      ScaledLt(hi - o, d, t);
      ScaledLt(lo - o, d, t);
    } else {
      assert Near(lo, hi, o, d) == (lo - o) * (1.0 / d);
      assert Far(lo, hi, o, d) == (hi - o) * (1.0 / d);
      ScaledLt(lo - o, d, t);
      ScaledLt(hi - o, d, t);
    }
  }

  /** At `t` the coordinate `o + d * t` is inside `[lo, hi]`, or entering it, but not leaving it. */
  predicate EntersSlab(lo: real, hi: real, o: real, d: real, t: real) {
    if d == 0.0 then lo <= o <= hi else Near(lo, hi, o, d) <= t < Far(lo, hi, o, d)
  }

  /** At `t` the coordinate `o + d * t` is inside `[lo, hi]`, or leaving it, but not entering it. */
  predicate LeavesSlab(lo: real, hi: real, o: real, d: real, t: real) {
    if d == 0.0 then lo <= o <= hi else Near(lo, hi, o, d) < t <= Far(lo, hi, o, d)
  }

  /** At `t` the ray is inside the slab on `axis`, or entering it, but not leaving it. */
  predicate EntersBy(b: AABB, r: Ray, axis: int, t: real) {
    EntersSlab(Component(b.min, axis), Component(b.max, axis), Component(r.origin, axis), Component(r.direction, axis), t)
  }

  /** At `t` the ray is inside the slab on `axis`, or leaving it, but not entering it. */
  predicate LeavesBy(b: AABB, r: Ray, axis: int, t: real) {
    LeavesSlab(Component(b.min, axis), Component(b.max, axis), Component(r.origin, axis), Component(r.direction, axis), t)
  }

  /** A `t` at which the ray enters or is inside every later slab survives the loop from the window's closed low end. */
  lemma {:induction false} SlabsFromOnward(b: AABB, r: Ray, axis: nat, w: Window, t: real)
    requires axis <= 3 && w.lo <= t && Below(t, w.hi)
    requires forall k :: axis <= k < 3 ==> EntersBy(b, r, k, t)
    ensures SlabsFrom(b, r, axis, w)
    decreases 3 - axis
  {
    if axis < 3 {
      assert EntersBy(b, r, axis, t);
      var w' := AxisStep(b, r, axis, w);
      assert w'.Some? && w'.value.lo <= t && Below(t, w'.value.hi);
      SlabsFromOnward(b, r, axis + 1, w'.value, t);
    }
  }

  /** A `t` at which the ray leaves or is inside every later slab survives the loop up to the window's closed high end. */
  lemma {:induction false} SlabsFromUpTo(b: AABB, r: Ray, axis: nat, w: Window, t: real)
    requires axis <= 3 && w.lo < t && AtMost(t, w.hi)
    requires forall k :: axis <= k < 3 ==> LeavesBy(b, r, k, t)
    ensures SlabsFrom(b, r, axis, w)
    decreases 3 - axis
  {
    if axis < 3 {
      assert LeavesBy(b, r, axis, t);
      var w' := AxisStep(b, r, axis, w);
      assert w'.Some? && w'.value.lo < t && AtMost(t, w'.value.hi);
      SlabsFromUpTo(b, r, axis + 1, w'.value, t);
    }
  }

  /** Two points of the ray in the closed slab: the ray enters by the first and leaves by the second. */
  lemma SegmentAxis(b: AABB, r: Ray, axis: int, t1: real, t2: real)
    requires t1 < t2 && InSlab(b, r, axis, t1) && InSlab(b, r, axis, t2)
    ensures EntersBy(b, r, axis, t1) && LeavesBy(b, r, axis, t2)
  {
    SlabScalar(b, r, axis, t1);
    SlabScalar(b, r, axis, t2);
    SegmentSlabAxis(b, r, axis, t1, t2);
  }

  lemma SegmentSlabAxis(b: AABB, r: Ray, axis: int, t1: real, t2: real)
    requires t1 < t2
    requires Component(b.min, axis) <= Component(r.origin, axis) + Component(r.direction, axis) * t1 <= Component(b.max, axis)
    requires Component(b.min, axis) <= Component(r.origin, axis) + Component(r.direction, axis) * t2 <= Component(b.max, axis)
    ensures EntersBy(b, r, axis, t1) && LeavesBy(b, r, axis, t2)
  {
    SegmentSlab(Component(b.min, axis), Component(b.max, axis), Component(r.origin, axis), Component(r.direction, axis), t1, t2);
  }

  lemma SlabScalar(b: AABB, r: Ray, axis: int, t: real)
    requires InSlab(b, r, axis, t)
    ensures Component(b.min, axis) <= Component(r.origin, axis) + Component(r.direction, axis) * t <= Component(b.max, axis)
  {
    AtComponent(r, t, axis);
  }

  lemma SegmentSlab(lo: real, hi: real, o: real, d: real, t1: real, t2: real)
    requires t1 < t2 && lo <= o + d * t1 <= hi && lo <= o + d * t2 <= hi
    ensures EntersSlab(lo, hi, o, d, t1) && LeavesSlab(lo, hi, o, d, t2)
  {
    if d == 0.0 {
      assert d * t1 == 0.0;
    } else {
      BetweenNearFarClosed(lo, hi, o, d, t1);
      BetweenNearFarClosed(lo, hi, o, d, t2);
    }
  }

  /**
   * Two points of the ray at `t1 < t2` in the closed box make `hit` succeed
   * when the window holds `t1` (closed below) or holds `t2` (closed above).
   */
  lemma SegmentHit(b: AABB, r: Ray, tMin: real, tMax: Limit, t1: real, t2: real)
    requires t1 < t2 && ContainsPoint(b, At(r, t1)) && ContainsPoint(b, At(r, t2))
    requires (tMin <= t1 && Below(t1, tMax)) || (tMin < t2 && AtMost(t2, tMax))
    ensures Hit(b, r, tMin, tMax)
  {
    assert InSlab(b, r, 0, t1) && InSlab(b, r, 1, t1) && InSlab(b, r, 2, t1);
    assert InSlab(b, r, 0, t2) && InSlab(b, r, 1, t2) && InSlab(b, r, 2, t2);
    SegmentAxis(b, r, 0, t1, t2);
    SegmentAxis(b, r, 1, t1, t2);
    SegmentAxis(b, r, 2, t1, t2);
    if tMin <= t1 && Below(t1, tMax) {
      SlabsFromOnward(b, r, 0, Window(tMin, tMax), t1);
    } else {
      SlabsFromUpTo(b, r, 0, Window(tMin, tMax), t2);
    }
  }

  /** Strictly inside a slab, the ray is both entering-or-inside and leaving-or-inside. */
  lemma InteriorAxis(b: AABB, r: Ray, axis: int, t: real)
    requires InOpenSlab(b, r, axis, t)
    ensures EntersBy(b, r, axis, t) && LeavesBy(b, r, axis, t)
  {
    var lo, hi := Component(b.min, axis), Component(b.max, axis);
    var o, d := Component(r.origin, axis), Component(r.direction, axis);
    AtComponent(r, t, axis);
    if d != 0.0 {
      BetweenNearFar(lo, hi, o, d, t);
    }
  }

  /**
   * A point strictly inside the box at a `t` of the closed window
   * `[tMin, tMax]`, which is not a single point, makes `hit` succeed.
   */
  lemma InteriorHitClosed(b: AABB, r: Ray, tMin: real, tMax: Limit, t: real)
    requires tMin <= t && AtMost(t, tMax) && Below(tMin, tMax)
    requires InteriorPoint(b, At(r, t))
    ensures Hit(b, r, tMin, tMax)
  {
    assert InOpenSlab(b, r, 0, t) && InOpenSlab(b, r, 1, t) && InOpenSlab(b, r, 2, t);
    InteriorAxis(b, r, 0, t);
    InteriorAxis(b, r, 1, t);
    InteriorAxis(b, r, 2, t);
    if tMin < t {
      SlabsFromUpTo(b, r, 0, Window(tMin, tMax), t);
    } else {
      SlabsFromOnward(b, r, 0, Window(tMin, tMax), t);
    }
  }

  // ---------------------------------------------------------------------------
  // Monotonicity

  lemma MulLeAntitone(a: real, b: real, c: real)
    requires c < 0.0 && a <= b
    ensures b * c <= a * c
  {
    MulLeMono(a, b, -c);
    assert a * (-c) == -(a * c) && b * (-c) == -(b * c);
  }

  /** A wider slab has an earlier entry and a later exit. */
  lemma NearFarMono(lo1: real, hi1: real, lo2: real, hi2: real, o: real, d: real)
    requires d != 0.0 && lo2 <= lo1 && hi1 <= hi2
    ensures Near(lo2, hi2, o, d) <= Near(lo1, hi1, o, d)
    ensures Far(lo1, hi1, o, d) <= Far(lo2, hi2, o, d)
  {
    var invD := 1.0 / d;
    if invD < 0.0 {
      MulLeAntitone(hi1 - o, hi2 - o, invD);
      MulLeAntitone(lo2 - o, lo1 - o, invD);
    } else {
      MulLeMono(lo2 - o, lo1 - o, invD);
      MulLeMono(hi1 - o, hi2 - o, invD);
    }
  }

  /** A larger box passes the slab test over a wider window whenever the smaller one does. */
  lemma {:induction false} SlabsFromMono(b1: AABB, b2: AABB, r: Ray, axis: nat, w1: Window, w2: Window)
    requires axis <= 3 && ContainsBox(b2, b1) && WithinWindow(w1, w2)
    requires SlabsFrom(b1, r, axis, w1)
    ensures SlabsFrom(b2, r, axis, w2)
    decreases 3 - axis
  {
    if axis < 3 {
      var d := Component(r.direction, axis);
      if d != 0.0 {
        NearFarMono(Component(b1.min, axis), Component(b1.max, axis),
                    Component(b2.min, axis), Component(b2.max, axis), Component(r.origin, axis), d);
      }
      var v1 := AxisStep(b1, r, axis, w1).value;
      var v2 := AxisStep(b2, r, axis, w2).value;
      SlabsFromMono(b1, b2, r, axis + 1, v1, v2);
    }
  }

  /** `hit` is monotone in the box and in the parameter range. */
  lemma HitMono(b1: AABB, b2: AABB, r: Ray, tMin1: real, tMax1: Limit, tMin2: real, tMax2: Limit)
    requires ContainsBox(b2, b1) && tMin2 <= tMin1 && LimitLe(tMax1, tMax2)
    requires Hit(b1, r, tMin1, tMax1)
    ensures Hit(b2, r, tMin2, tMax2)
  {
    SlabsFromMono(b1, b2, r, 0, Window(tMin1, tMax1), Window(tMin2, tMax2));
  }

  /** A ray that hits a box hits its union with any other box. */
  lemma HitSurrounding(a: AABB, b: AABB, r: Ray, tMin: real, tMax: Limit)
    requires Hit(a, r, tMin, tMax)
    ensures Hit(Surrounding(a, b), r, tMin, tMax) && Hit(Surrounding(b, a), r, tMin, tMax)
  {
    HitMono(a, Surrounding(a, b), r, tMin, tMax, tMin, tMax);
    HitMono(a, Surrounding(b, a), r, tMin, tMax, tMin, tMax);
  }
}
