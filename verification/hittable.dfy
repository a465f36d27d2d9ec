/**
 * Everything a ray can hit (the `Hittable` interface) as one closed sum
 * type: spheres, planes, lists scanned for the closest hit
 * (`hittable/HittableList.java`) and nodes of a bounding volume hierarchy
 * (`hittable/BVHNode.java`), with their bounding boxes.
 */
module Hittables {
  import opened Options
  import opened RealMath
  import opened Vectors
  import opened Rays
  import Boxes
  import opened HitRecords
  import Materials
  import Spheres
  import Planes

  datatype Hittable =
    | SphereObject(sphere: Spheres.Sphere)
    | PlaneObject(plane: Planes.Plane)
    | List(objects: seq<Hittable>)
    | Node(left: Hittable, right: Hittable, box: Boxes.AABB)

  /** `closestSoFar` after a query: the hit's parameter, or the old bound on a miss. */
  function Closest(h: Option<HitRecord>, tMax: Limit): (c: Limit)
    ensures h.None? ==> c == tMax
    ensures h.Some? && AtMost(h.value.t, tMax) ==> LimitLe(c, tMax)
  {
    if h.Some? then Bounded(h.value.t) else tMax
  }

  /**
   * `hit(r, tMin, tMax, rec)` dispatched on the kind of object. A reported
   * parameter lies in `[tMin, tMax]` (open at both ends for spheres, closed
   * for planes), the point is on the ray, and the normal opposes the ray.
   */
  function Hit(h: Hittable, r: Ray, tMin: real, tMax: Limit, f: Transcendentals): (res: Option<HitRecord>)
    ensures res.Some? ==> tMin <= res.value.t && AtMost(res.value.t, tMax)
    ensures res.Some? ==> res.value.p == At(r, res.value.t)
    ensures res.Some? ==> Dot(r.direction, res.value.normal) <= 0.0
    decreases h
  {
    match h
    case SphereObject(s) => Spheres.Hit(s, r, tMin, tMax, f)
    case PlaneObject(p) => Planes.Hit(p, r, tMin, tMax)
    case List(objects) => ListHit(objects, r, tMin, tMax, f)
    case Node(left, right, box) =>
      if !Boxes.Hit(box, r, tMin, tMax) then None
      else
        var hitLeft := Hit(left, r, tMin, tMax, f);
        var hitRight := Hit(right, r, tMin, Closest(hitLeft, tMax), f);
        if hitRight.Some? then hitRight else hitLeft
  }

  /**
   * `HittableList.hit`: the state of the scan after the members in
   * `objects`. Each member is queried with the window narrowed to the
   * closest hit so far; a member that hits replaces the record.
   */
  function ListHit(objects: seq<Hittable>, r: Ray, tMin: real, tMax: Limit, f: Transcendentals): (res: Option<HitRecord>)
    ensures res.Some? ==> tMin <= res.value.t && AtMost(res.value.t, tMax)
    ensures res.Some? ==> res.value.p == At(r, res.value.t)
    ensures res.Some? ==> Dot(r.direction, res.value.normal) <= 0.0
    decreases objects
  {
    if |objects| == 0 then None
    else
      var previous := ListHit(objects[..|objects| - 1], r, tMin, tMax, f);
      var current := Hit(objects[|objects| - 1], r, tMin, Closest(previous, tMax), f);
      if current.Some? then current else previous
  }

  /** `HittableList.add`: append at the end. */
  function Add(list: seq<Hittable>, member: Hittable): (list': seq<Hittable>)
    ensures |list'| == |list| + 1 && list'[..|list|] == list && list'[|list|] == member
  {
    list + [member]
  }

  // ---------------------------------------------------------------------------
  // The list scan

  /**
   * The scan reports a hit exactly when some member hits in the full
   * window: the first member that hits is queried with `tMax` itself.
   */
  lemma {:induction false} ListHitIff(objects: seq<Hittable>, r: Ray, tMin: real, tMax: Limit, f: Transcendentals)
    ensures ListHit(objects, r, tMin, tMax, f).Some? <==>
      exists k :: 0 <= k < |objects| && Hit(objects[k], r, tMin, tMax, f).Some?
  {
    if |objects| > 0 {
      var n := |objects|;
      var prefix := objects[..n - 1];
      ListHitIff(prefix, r, tMin, tMax, f);
      if exists k :: 0 <= k < n && Hit(objects[k], r, tMin, tMax, f).Some? {
        var k :| 0 <= k < n && Hit(objects[k], r, tMin, tMax, f).Some?;
        if k < n - 1 {
          assert prefix[k] == objects[k];
        }
      }
      if ListHit(prefix, r, tMin, tMax, f).Some? {
        var k :| 0 <= k < n - 1 && Hit(prefix[k], r, tMin, tMax, f).Some?;
        assert prefix[k] == objects[k];
      }
    }
  }

  /** An empty list never hits. */
  lemma EmptyListMisses(r: Ray, tMin: real, tMax: Limit, f: Transcendentals)
    ensures Hit(List([]), r, tMin, tMax, f).None?
  {
  }

  /**
   * `closestSoFar` never grows: once a prefix of the list has hit, the whole
   * scan hits, no later than that prefix did.
   */
  lemma {:induction false} ListHitFromMember(objects: seq<Hittable>, r: Ray, tMin: real, tMax: Limit, f: Transcendentals, n: nat)
    requires n <= |objects|
    ensures var res := ListHit(objects, r, tMin, tMax, f);
      var prefix := ListHit(objects[..n], r, tMin, tMax, f);
      prefix.Some? ==> res.Some? && res.value.t <= prefix.value.t
    decreases |objects|
  {
    if n < |objects| {
      var m := |objects|;
      assert objects[..m - 1][..n] == objects[..n];
      ListHitFromMember(objects[..m - 1], r, tMin, tMax, f, n);
    } else {
      assert objects[..n] == objects;
    }
  }

  /** Spheres and planes, whose `hit` keeps its answer when the window narrows past it. */
  predicate Primitive(h: Hittable) {
    h.SphereObject? || h.PlaneObject?
  }

  lemma PrimitiveNarrowing(h: Hittable, r: Ray, tMin: real, wide: Limit, narrow: Limit, f: Transcendentals)
    requires Primitive(h) && LimitLe(narrow, wide) && Hit(h, r, tMin, wide, f).Some?
    requires Below(Hit(h, r, tMin, wide, f).value.t, narrow)
    ensures Hit(h, r, tMin, narrow, f) == Hit(h, r, tMin, wide, f)
  {
    match h
    case SphereObject(s) => Spheres.Narrowing(s, r, tMin, wide, narrow, f);
    case PlaneObject(p) => Planes.Narrowing(p, r, tMin, wide, narrow);
  }

  /**
   * Closest hit: over a list of spheres and planes, the reported parameter is
   * at most the parameter at which any single member reports a hit in the
   * full window.
   */
  lemma {:induction false} ListClosest(objects: seq<Hittable>, r: Ray, tMin: real, tMax: Limit, f: Transcendentals, k: nat)
    requires forall j :: 0 <= j < |objects| ==> Primitive(objects[j])
    requires k < |objects| && Hit(objects[k], r, tMin, tMax, f).Some?
    ensures ListHit(objects, r, tMin, tMax, f).Some?
    ensures ListHit(objects, r, tMin, tMax, f).value.t <= Hit(objects[k], r, tMin, tMax, f).value.t
  {
    var n := |objects|;
    var prefix := objects[..n - 1];
    var previous := ListHit(prefix, r, tMin, tMax, f);
    var last := objects[n - 1];
    var tk := Hit(objects[k], r, tMin, tMax, f).value.t;
    if k < n - 1 {
      assert prefix[k] == objects[k];
      ListClosest(prefix, r, tMin, tMax, f, k);
    } else if previous.Some? && tk < previous.value.t {
      PrimitiveNarrowing(last, r, tMin, tMax, Closest(previous, tMax), f);
    }
  }

  // ---------------------------------------------------------------------------
  // BVH nodes

  /** A node whose box the ray misses reports no hit, whatever its children. */
  lemma NodeBoxGates(left: Hittable, right: Hittable, box: Boxes.AABB, r: Ray, tMin: real, tMax: Limit, f: Transcendentals)
    requires !Boxes.Hit(box, r, tMin, tMax)
    ensures Hit(Node(left, right, box), r, tMin, tMax, f).None?
  {
  }

  /**
   * Inside its box a node is the two-element list of its children: the left
   * child is queried first and the right one with the window narrowed to
   * the left child's hit.
   */
  lemma NodeIsPair(left: Hittable, right: Hittable, box: Boxes.AABB, r: Ray, tMin: real, tMax: Limit, f: Transcendentals)
    ensures Hit(Node(left, right, box), r, tMin, tMax, f) ==
      if Boxes.Hit(box, r, tMin, tMax) then ListHit([left, right], r, tMin, tMax, f) else None
  {
    var pair := [left, right];
    assert pair[..1] == [left];
    assert [left][..0] == [];
    assert ListHit([], r, tMin, tMax, f) == None;
    var hitLeft := ListHit([left], r, tMin, tMax, f);
    assert hitLeft == Hit(left, r, tMin, tMax, f);
    assert pair[1] == right;
    if Boxes.Hit(box, r, tMin, tMax) {
      assert ListHit(pair, r, tMin, tMax, f) == Hit(Node(left, right, box), r, tMin, tMax, f);
    }
  }

  /**
   * Inside its box a node hits exactly when one of its children does, and a
   * right child that is a sphere or a plane makes the reported hit the
   * nearer of the two children's.
   */
  lemma NodeNearer(left: Hittable, right: Hittable, box: Boxes.AABB, r: Ray, tMin: real, tMax: Limit, f: Transcendentals)
    requires Boxes.Hit(box, r, tMin, tMax)
    ensures var res := Hit(Node(left, right, box), r, tMin, tMax, f);
      (res.Some? <==> Hit(left, r, tMin, tMax, f).Some? || Hit(right, r, tMin, tMax, f).Some?) &&
      (res.Some? && Hit(left, r, tMin, tMax, f).Some? ==> res.value.t <= Hit(left, r, tMin, tMax, f).value.t)
    ensures Primitive(right) && Hit(right, r, tMin, tMax, f).Some? ==>
      Hit(Node(left, right, box), r, tMin, tMax, f).value.t <= Hit(right, r, tMin, tMax, f).value.t
  {
    var pair := [left, right];
    NodeIsPair(left, right, box, r, tMin, tMax, f);
    ListHitIff(pair, r, tMin, tMax, f);
    assert pair[0] == left && pair[1] == right;
    assert pair[..1] == [left];
    ListHitFromMember(pair, r, tMin, tMax, f, 1);
    if Primitive(right) && Hit(right, r, tMin, tMax, f).Some? {
      var previous := ListHit([left], r, tMin, tMax, f);
      if previous.Some? && Hit(right, r, tMin, tMax, f).value.t < previous.value.t {
        PrimitiveNarrowing(right, r, tMin, tMax, Closest(previous, tMax), f);
      }
    }
  }

  // ---------------------------------------------------------------------------
  // The box of a plane inside a node

  /**
   * With the plane's own `boundingBox()`, which ignores the normal, the node
   * `new BVHNode` builds over a one-plane list hides the plane's hits: for a
   * vertical plane and a ray along `x` above the box's thin slab, the plane
   * reports a hit and the node reports none.
   */
  lemma AsWrittenPlaneNodeMisses(height: real, tMin: real, f: Transcendentals)
    requires Planes.HalfThickness < height && tMin <= 1.0
    ensures var p := Planes.Plane(Zero, Vec3(1.0, 0.0, 0.0), Materials.Debug);
      var r := Ray(Vec3(-1.0, height, 0.0), Vec3(1.0, 0.0, 0.0));
      var box := Boxes.Surrounding(Planes.BoundingBox(p), Planes.BoundingBox(p));
      Hit(PlaneObject(p), r, tMin, Infinite, f).Some? &&
      Hit(Node(PlaneObject(p), PlaneObject(p), box), r, tMin, Infinite, f).None?
  {
    var p := Planes.Plane(Zero, Vec3(1.0, 0.0, 0.0), Materials.Debug);
    var r := Ray(Vec3(-1.0, height, 0.0), Vec3(1.0, 0.0, 0.0));
    Planes.BoxTestHidesHit(height, tMin);
    PlaneNodeOverBox(p, Planes.BoundingBox(p), r, tMin, f);
  }

  /**
   * With the enclosing box, the same node over the same plane reports
   * exactly the plane's hit for every such ray below the `1e9` ceiling.
   */
  lemma CorrectedPlaneNodeHits(height: real, tMin: real, f: Transcendentals)
    requires Planes.HalfThickness < height < Planes.HalfExtent && tMin < 1.0
    ensures var p := Planes.Plane(Zero, Vec3(1.0, 0.0, 0.0), Materials.Debug);
      var r := Ray(Vec3(-1.0, height, 0.0), Vec3(1.0, 0.0, 0.0));
      var box := Boxes.Surrounding(Planes.EnclosingBox(p), Planes.EnclosingBox(p));
      Hit(PlaneObject(p), r, tMin, Infinite, f).Some? &&
      Hit(Node(PlaneObject(p), PlaneObject(p), box), r, tMin, Infinite, f) == Hit(PlaneObject(p), r, tMin, Infinite, f)
  {
    var p := Planes.Plane(Zero, Vec3(1.0, 0.0, 0.0), Materials.Debug);
    var r := Ray(Vec3(-1.0, height, 0.0), Vec3(1.0, 0.0, 0.0));
    Planes.BoxTestHidesHit(height, tMin);
    Planes.EnclosingBoxCatchesHit(height, tMin);
    PlaneNodeOverBox(p, Planes.EnclosingBox(p), r, tMin, f);
  }

  /**
   * A node whose two children are the same plane, over the box `b` of that
   * plane, reports the plane's hit exactly when the box test passes and the
   * plane reports one.
   */
  lemma PlaneNodeOverBox(p: Planes.Plane, b: Boxes.AABB, r: Ray, tMin: real, f: Transcendentals)
    ensures var h := Hit(PlaneObject(p), r, tMin, Infinite, f);
      Hit(Node(PlaneObject(p), PlaneObject(p), Boxes.Surrounding(b, b)), r, tMin, Infinite, f)
        == if Boxes.Hit(b, r, tMin, Infinite) then h else None
  {
    Boxes.SurroundingIdempotent(b);
    var h := Hit(PlaneObject(p), r, tMin, Infinite, f);
    if Boxes.Hit(b, r, tMin, Infinite) && h.Some? {
      Planes.Narrowing(p, r, tMin, Infinite, Bounded(h.value.t));
    }
  }

  // ---------------------------------------------------------------------------
  // Bounding boxes

  /**
   * Which box a plane reports: `AsWritten` is `Plane.boundingBox()` as the
   * code has it, a thin slab whatever the normal; `Corrected` is
   * `Planes.EnclosingBox`, which encloses the plane (see
   * `AsWrittenPlaneNodeMisses`). The two agree on horizontal planes.
   */
  datatype BoxRule = AsWritten | Corrected

  /**
   * `boundingBox()`; `None` is the Java `null` of an empty list. Spheres,
   * planes and nodes always have a box; a sphere's holds the whole sphere;
   * under `AsWritten`, and under either rule for a horizontal plane, a
   * plane's box is the thin slab `Plane.boundingBox` builds.
   */
  function BoundingBox(h: Hittable, rule: BoxRule): (b: Option<Boxes.AABB>)
    ensures !h.List? ==> b.Some?
    ensures h.PlaneObject? && (rule.AsWritten? || Planes.IsHorizontal(h.plane)) ==> b == Some(Planes.BoundingBox(h.plane))
    ensures h.SphereObject? && 0.0 <= h.sphere.radius ==>
      forall q :: Spheres.OnSphere(h.sphere, q) ==> Boxes.ContainsPoint(b.value, q)
    decreases h
  {
    match h
    case SphereObject(s) =>
      if 0.0 <= s.radius then
        Spheres.BoxHoldsSphere(s);
        Some(Spheres.BoundingBox(s))
      else
        Some(Spheres.BoundingBox(s))
    case PlaneObject(p) => Some(if rule.AsWritten? then Planes.BoundingBox(p) else Planes.EnclosingBox(p))
    case List(objects) => ListBox(objects, rule)
    case Node(_, _, box) => Some(box)
  }

  /**
   * `HittableList.boundingBox`: the first member's box widened by each
   * further member's. A missing box among two or more members would throw
   * in `surroundingBox`; that case is `None` here as well.
   */
  function ListBox(objects: seq<Hittable>, rule: BoxRule): (b: Option<Boxes.AABB>)
    ensures b.Some? <==> |objects| > 0 && AllBoxed(objects, rule)
    ensures b.Some? ==>
      forall k :: 0 <= k < |objects| ==> Boxes.ContainsBox(b.value, BoundingBox(objects[k], rule).value)
    decreases objects
  {
    if |objects| == 0 then None
    else if |objects| == 1 then BoundingBox(objects[0], rule)
    else
      assert forall k :: 0 <= k < |objects| - 1 ==> objects[..|objects| - 1][k] == objects[k];
      var previous := ListBox(objects[..|objects| - 1], rule);
      var last := BoundingBox(objects[|objects| - 1], rule);
      if previous.Some? && last.Some? then Some(Boxes.Surrounding(previous.value, last.value)) else None
  }

  /** Every member has a box. */
  predicate AllBoxed(objects: seq<Hittable>, rule: BoxRule) {
    forall h :: h in objects ==> BoundingBox(h, rule).Some?
  }

  lemma {:induction false} ListBoxLeast(objects: seq<Hittable>, c: Boxes.AABB, rule: BoxRule)
    requires |objects| > 0 && AllBoxed(objects, rule)
    requires forall k :: 0 <= k < |objects| ==> Boxes.ContainsBox(c, BoundingBox(objects[k], rule).value)
    ensures ListBox(objects, rule).Some? && Boxes.ContainsBox(c, ListBox(objects, rule).value)
  {
    var n := |objects|;
    if n > 1 {
      var prefix := objects[..n - 1];
      assert forall k :: 0 <= k < n - 1 ==> prefix[k] == objects[k];
      ListBoxLeast(prefix, c, rule);
      Boxes.SurroundingLeast(ListBox(prefix, rule).value, BoundingBox(objects[n - 1], rule).value, c);
    }
  }

  /** Adding a boxed object to a boxed list widens the box by exactly the new object's box. */
  lemma AddBox(list: seq<Hittable>, member: Hittable, rule: BoxRule)
    requires ListBox(list, rule).Some? && BoundingBox(member, rule).Some?
    ensures ListBox(Add(list, member), rule) == Some(Boxes.Surrounding(ListBox(list, rule).value, BoundingBox(member, rule).value))
  {
    var list' := Add(list, member);
    assert list'[..|list'| - 1] == list;
  }

  // ---------------------------------------------------------------------------
  // A tree of nodes answers like the list of its leaves

  /** The objects of a sequence, as a set. */
  function Elements(objects: seq<Hittable>): set<Hittable> {
    set h | h in objects
  }

  /** The objects at the bottom of a tree of nodes; anything that is not a node is its own leaf. */
  function Leaves(h: Hittable): set<Hittable>
    decreases h
  {
    match h
    case Node(left, right, _) => Leaves(left) + Leaves(right)
    case _ => {h}
  }

  /**
   * A tree of nodes over spheres and planes in which every node's box
   * contains the box of every leaf below it.
   */
  predicate BoxedTree(h: Hittable, rule: BoxRule)
    decreases h
  {
    match h
    case Node(left, right, box) =>
      BoxedTree(left, rule) && BoxedTree(right, rule) &&
      forall leaf :: leaf in Leaves(h) ==>
        BoundingBox(leaf, rule).Some? && Boxes.ContainsBox(box, BoundingBox(leaf, rule).value)
    case _ => Primitive(h)
  }

  lemma {:induction false} LeavesPrimitive(h: Hittable, rule: BoxRule)
    requires BoxedTree(h, rule)
    ensures forall leaf :: leaf in Leaves(h) ==> Primitive(leaf)
    decreases h
  {
    if h.Node? {
      LeavesPrimitive(h.left, rule);
      LeavesPrimitive(h.right, rule);
    }
  }

  /**
   * The slab test of the object's box passes whenever the object itself
   * reports a hit in a window that is not a single point.
   */
  ghost predicate BoxCatches(h: Hittable, rule: BoxRule, r: Ray, tMin: real, f: Transcendentals) {
    BoundingBox(h, rule).Some? &&
    forall w: Limit :: Below(tMin, w) && Hit(h, r, tMin, w, f).Some? ==>
      Boxes.Hit(BoundingBox(h, rule).value, r, tMin, w)
  }

  /**
   * The objects whose box is known to catch their hits: spheres of
   * non-negative radius, and planes that the ray crosses inside the `1e9`
   * cube, when their box encloses them (the corrected box, or a horizontal
   * plane).
   */
  predicate Catchable(h: Hittable, rule: BoxRule, r: Ray) {
    match h
    case SphereObject(s) => 0.0 <= s.radius
    case PlaneObject(p) => Planes.CrossesInsideCube(p, r) && (rule.Corrected? || Planes.IsHorizontal(p))
    case _ => false
  }

  lemma CatchableCatches(h: Hittable, rule: BoxRule, r: Ray, tMin: real, f: Transcendentals)
    requires SqrtSound(f) && Catchable(h, rule, r)
    ensures Primitive(h) && BoxCatches(h, rule, r, tMin, f)
  {
    forall w: Limit | Below(tMin, w) && Hit(h, r, tMin, w, f).Some?
      ensures Boxes.Hit(BoundingBox(h, rule).value, r, tMin, w)
    {
      match h
      case SphereObject(s) => Spheres.HitPassesBox(s, r, tMin, w, f);
      case PlaneObject(p) =>
        if rule.AsWritten? {
          Planes.HitPassesBox(p, r, tMin, w);
        } else {
          Planes.HitPassesEnclosingBox(p, r, tMin, w);
        }
    }
  }

  /** Widening the window keeps the hit of a sphere or a plane. */
  lemma PrimitiveWidening(h: Hittable, r: Ray, tMin: real, narrow: Limit, wide: Limit, f: Transcendentals)
    requires SqrtSound(f) && Primitive(h) && LimitLe(narrow, wide) && Hit(h, r, tMin, narrow, f).Some?
    ensures Hit(h, r, tMin, wide, f) == Hit(h, r, tMin, narrow, f)
  {
    match h
    case SphereObject(s) => Spheres.Widening(s, r, tMin, narrow, wide, f);
    case PlaneObject(p) => Planes.Widening(p, r, tMin, narrow, wide);
  }

  /**
   * `res` is the nearest hit among the objects of `objects` in the window
   * `w`: it is the answer of one of them, and, when the window is more than
   * a point, no object that hits reports a smaller parameter.
   */
  ghost predicate NearestOver(res: Option<HitRecord>, objects: set<Hittable>, r: Ray, tMin: real, w: Limit, f: Transcendentals) {
    (res.Some? ==> exists h :: h in objects && Hit(h, r, tMin, w, f) == res) &&
    (Below(tMin, w) ==>
      forall h :: h in objects && Hit(h, r, tMin, w, f).Some? ==>
        res.Some? && res.value.t <= Hit(h, r, tMin, w, f).value.t)
  }

  /** Two nearest hits over the same objects agree on whether there is a hit and where. */
  lemma SameNearest(a: Option<HitRecord>, b: Option<HitRecord>, objects: set<Hittable>, r: Ray, tMin: real, w: Limit, f: Transcendentals)
    requires Below(tMin, w)
    requires NearestOver(a, objects, r, tMin, w, f) && NearestOver(b, objects, r, tMin, w, f)
    ensures a.Some? <==> b.Some?
    ensures a.Some? ==> a.value.t == b.value.t
  {
    if a.Some? {
      var h :| h in objects && Hit(h, r, tMin, w, f) == a;
    }
    if b.Some? {
      var h :| h in objects && Hit(h, r, tMin, w, f) == b;
    }
  }

  /** The list scan reports the nearest hit among its members. */
  lemma ListNearest(objects: seq<Hittable>, r: Ray, tMin: real, w: Limit, f: Transcendentals)
    requires SqrtSound(f) && forall j :: 0 <= j < |objects| ==> Primitive(objects[j])
    ensures NearestOver(ListHit(objects, r, tMin, w, f), Elements(objects), r, tMin, w, f)
  {
    ListSound(objects, r, tMin, w, f);
    forall h | h in Elements(objects) && Hit(h, r, tMin, w, f).Some?
      ensures ListHit(objects, r, tMin, w, f).Some?
      ensures ListHit(objects, r, tMin, w, f).value.t <= Hit(h, r, tMin, w, f).value.t
    {
      var k :| 0 <= k < |objects| && objects[k] == h;
      ListClosest(objects, r, tMin, w, f, k);
    }
  }

  /** The list's hit is the hit one of its members reports in the full window. */
  lemma {:induction false} ListSound(objects: seq<Hittable>, r: Ray, tMin: real, w: Limit, f: Transcendentals)
    requires SqrtSound(f) && forall j :: 0 <= j < |objects| ==> Primitive(objects[j])
    ensures var res := ListHit(objects, r, tMin, w, f);
      res.Some? ==> exists k :: 0 <= k < |objects| && Hit(objects[k], r, tMin, w, f) == res
    decreases |objects|
  {
    var n := |objects|;
    if n > 0 {
      var prefix := objects[..n - 1];
      var previous := ListHit(prefix, r, tMin, w, f);
      var current := Hit(objects[n - 1], r, tMin, Closest(previous, w), f);
      if current.Some? {
        PrimitiveWidening(objects[n - 1], r, tMin, Closest(previous, w), w, f);
      } else if previous.Some? {
        ListSound(prefix, r, tMin, w, f);
        var k :| 0 <= k < n - 1 && Hit(prefix[k], r, tMin, w, f) == previous;
        assert prefix[k] == objects[k];
      }
    }
  }

  /**
   * A tree of nodes whose boxes catch their leaves' hits reports the nearest
   * hit among its leaves, whatever the shape of the tree.
   */
  lemma {:induction false} TreeNearest(h: Hittable, rule: BoxRule, r: Ray, tMin: real, w: Limit, f: Transcendentals)
    requires SqrtSound(f) && BoxedTree(h, rule)
    requires forall leaf :: leaf in Leaves(h) ==> BoxCatches(leaf, rule, r, tMin, f)
    ensures NearestOver(Hit(h, r, tMin, w, f), Leaves(h), r, tMin, w, f)
    decreases h
  {
    match h
    case Node(left, right, box) =>
      var hitLeft := Hit(left, r, tMin, w, f);
      assert BoxedTree(left, rule) && BoxedTree(right, rule);
      assert Leaves(h) == Leaves(left) + Leaves(right);
      TreeNearest(left, rule, r, tMin, w, f);
      TreeNearest(right, rule, r, tMin, Closest(hitLeft, w), f);
      NodeSound(left, right, box, rule, r, tMin, w, f);
      if Below(tMin, w) {
        NodeComplete(left, right, box, rule, r, tMin, w, f);
      }
    case _ =>
  }

  /** A node's hit is the hit one of its leaves reports in the node's window. */
  lemma NodeSound(left: Hittable, right: Hittable, box: Boxes.AABB, rule: BoxRule, r: Ray, tMin: real, w: Limit, f: Transcendentals)
    requires SqrtSound(f) && BoxedTree(Node(left, right, box), rule)
    requires NearestOver(Hit(left, r, tMin, w, f), Leaves(left), r, tMin, w, f)
    requires var w' := Closest(Hit(left, r, tMin, w, f), w);
      NearestOver(Hit(right, r, tMin, w', f), Leaves(right), r, tMin, w', f)
    ensures var res := Hit(Node(left, right, box), r, tMin, w, f);
      res.Some? ==> exists leaf :: leaf in Leaves(Node(left, right, box)) && Hit(leaf, r, tMin, w, f) == res
  {
    var hitLeft := Hit(left, r, tMin, w, f);
    var w' := Closest(hitLeft, w);
    var hitRight := Hit(right, r, tMin, w', f);
    LeavesPrimitive(Node(left, right, box), rule);
    if Boxes.Hit(box, r, tMin, w) && hitRight.Some? {
      var leaf :| leaf in Leaves(right) && Hit(leaf, r, tMin, w', f) == hitRight;
      PrimitiveWidening(leaf, r, tMin, w', w, f);
    }
  }

  /**
   * No leaf of a node reports a hit nearer than the node's, nor a hit where
   * the node reports none: the node's box catches every leaf's hit, and a
   * right leaf nearer than the left child's hit survives the narrowed window.
   */
  lemma NodeComplete(left: Hittable, right: Hittable, box: Boxes.AABB, rule: BoxRule, r: Ray, tMin: real, w: Limit, f: Transcendentals)
    requires BoxedTree(Node(left, right, box), rule)
    requires forall leaf :: leaf in Leaves(Node(left, right, box)) ==> BoxCatches(leaf, rule, r, tMin, f)
    requires NearestOver(Hit(left, r, tMin, w, f), Leaves(left), r, tMin, w, f)
    requires var w' := Closest(Hit(left, r, tMin, w, f), w);
      NearestOver(Hit(right, r, tMin, w', f), Leaves(right), r, tMin, w', f)
    requires Below(tMin, w)
    ensures var res := Hit(Node(left, right, box), r, tMin, w, f);
      forall leaf :: leaf in Leaves(Node(left, right, box)) && Hit(leaf, r, tMin, w, f).Some? ==>
        res.Some? && res.value.t <= Hit(leaf, r, tMin, w, f).value.t
  {
    var node := Node(left, right, box);
    var hitLeft := Hit(left, r, tMin, w, f);
    var w' := Closest(hitLeft, w);
    LeavesPrimitive(node, rule);
    forall leaf | leaf in Leaves(node) && Hit(leaf, r, tMin, w, f).Some?
      ensures Hit(node, r, tMin, w, f).Some?
      ensures Hit(node, r, tMin, w, f).value.t <= Hit(leaf, r, tMin, w, f).value.t
    {
      var leafBox := BoundingBox(leaf, rule).value;
      Boxes.HitMono(leafBox, box, r, tMin, w, tMin, w);
      var t := Hit(leaf, r, tMin, w, f).value.t;
      if leaf !in Leaves(left) && hitLeft.Some? && t < hitLeft.value.t {
        PrimitiveNarrowing(leaf, r, tMin, w, w', f);
      }
    }
  }
}
