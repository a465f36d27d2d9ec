/**
 * Building a bounding volume hierarchy (`hittable/BVHNode.java`): the
 * recursive constructor over the index range `[start, end)` of a shared
 * object list, which it sorts in place along a randomly chosen axis.
 */
module Bvh {
  import opened Options
  import opened RealMath
  import opened Vectors
  import opened Rays
  import Boxes
  import opened Hittables
  import opened Sorting
  import Planes
  import Materials

  /**
   * The comparator's key: the minimum corner of the object's box along
   * `axis`. For a sphere that is its center less its radius, a lower bound on
   * the sphere's extent along the axis; for the Java plane box it is the
   * plane's height less `0.01` on `y` and `-1e9` on `x` and `z`.
   */
  function Key(h: Hittable, axis: int, rule: BoxRule): (k: real)
    ensures h.SphereObject? ==> k == Component(h.sphere.center, axis) - h.sphere.radius
    ensures h.SphereObject? && 0.0 <= h.sphere.radius ==>
      forall q :: Spheres.OnSphere(h.sphere, q) ==> k <= Component(q, axis)
    ensures h.PlaneObject? && (rule.AsWritten? || Planes.IsHorizontal(h.plane)) ==>
      k == if axis == 1 then h.plane.point.y - Planes.HalfThickness else -Planes.HalfExtent
  {
    match BoundingBox(h, rule)
    case Some(b) => Component(b.min, axis)
    case None => 0.0
  }

  function AxisKey(axis: int, rule: BoxRule): Hittable -> real {
    h => Key(h, axis, rule)
  }

  /** The box of an object known to have one. */
  function BoxOf(h: Hittable, rule: BoxRule): Boxes.AABB
    requires BoundingBox(h, rule).Some?
  {
    BoundingBox(h, rule).value
  }

  /** Every object at an index in `[start, end)` has a box. */
  predicate Boxed(objects: seq<Hittable>, start: nat, end: nat, rule: BoxRule)
    requires start <= end <= |objects|
  {
    forall i :: start <= i < end ==> BoundingBox(objects[i], rule).Some?
  }

  /** What a build over `[start, end)` leaves alone: the length and every entry outside the range. */
  predicate Frame(objects: seq<Hittable>, objects': seq<Hittable>, start: nat, end: nat)
    requires start <= end <= |objects|
  {
    |objects'| == |objects| &&
    forall i :: 0 <= i < |objects| && !(start <= i < end) ==> objects'[i] == objects[i]
  }

  /** A frame that also keeps the multiset of the range: an in-place permutation of `[start, end)`. */
  predicate PermutesRange(objects: seq<Hittable>, objects': seq<Hittable>, start: nat, end: nat)
    requires start <= end <= |objects|
  {
    Frame(objects, objects', start, end) &&
    multiset(objects'[start..end]) == multiset(objects[start..end])
  }

  /** The box contains the box of every object at an index in `[start, end)`. */
  predicate Covers(box: Boxes.AABB, objects: seq<Hittable>, start: nat, end: nat, rule: BoxRule)
    requires start <= end <= |objects| && Boxed(objects, start, end, rule)
  {
    forall i :: start <= i < end ==> Boxes.ContainsBox(box, BoxOf(objects[i], rule))
  }

  /** `objects.subList(start, end).sort(comparator)` on the list as a value. */
  function SortRange(objects: seq<Hittable>, start: nat, end: nat, axis: int, rule: BoxRule): (sorted: seq<Hittable>)
    requires start <= end <= |objects|
    ensures PermutesRange(objects, sorted, start, end)
    ensures SortedBy(sorted[start..end], AxisKey(axis, rule))
    ensures Boxed(objects, start, end, rule) ==> Boxed(sorted, start, end, rule)
  {
    var range := SortBy(objects[start..end], AxisKey(axis, rule));
    assert |range| == end - start by {
      assert |multiset(range)| == |multiset(objects[start..end])|;
    }
    var sorted := objects[..start] + range + objects[end..];
    assert sorted[start..end] == range;
    PermutationKeepsBoxes(objects, sorted, start, end, rule);
    sorted
  }

  /** Where an entry of a permuted range came from. */
  lemma IndexInPermutation(a: seq<Hittable>, b: seq<Hittable>, start: nat, end: nat, i: nat) returns (j: nat)
    requires start <= i < end <= |a| == |b| && multiset(a[start..end]) == multiset(b[start..end])
    ensures start <= j < end && b[j] == a[i]
  {
    var x := a[i];
    assert a[start..end][i - start] == x;
    assert x in multiset(a[start..end]);
    assert x in b[start..end];
    var k :| 0 <= k < end - start && b[start..end][k] == x;
    j := start + k;
  }

  /** Permuting a range keeps every object of it boxed. */
  lemma PermutationKeepsBoxes(objects: seq<Hittable>, objects': seq<Hittable>, start: nat, end: nat, rule: BoxRule)
    requires start <= end <= |objects| == |objects'|
    requires multiset(objects'[start..end]) == multiset(objects[start..end])
    ensures Boxed(objects, start, end, rule) ==> Boxed(objects', start, end, rule)
  {
    if Boxed(objects, start, end, rule) {
      forall i | start <= i < end
        ensures BoundingBox(objects'[i], rule).Some?
      {
        var j := IndexInPermutation(objects', objects, start, end, i);
      }
    }
  }

  /**
   * `new BVHNode(objects, start, end)`. The random axis of each node is
   * `axisOf(start, end)`: within one build no two nodes share a range, so
   * this covers every sequence of draws. The result is the node and the
   * object list as the in-place sort leaves it. Every object of the range
   * needs a box (the Java code throws otherwise), and the range must be
   * non-empty (an empty one recurses without end).
   */
  function Build(objects: seq<Hittable>, start: nat, end: nat, axisOf: (nat, nat) -> int, rule: BoxRule): (res: (Hittable, seq<Hittable>))
    requires start < end <= |objects| && Boxed(objects, start, end, rule)
    ensures res.0.Node? && Frame(objects, res.1, start, end)
    decreases end - start, 1
  {
    var span := end - start;
    if span == 1 then Leaf(objects, start, rule)
    else if span == 2 then Pair(objects, start, axisOf(start, end), rule)
    else Split(objects, start, end, axisOf, rule)
  }

  /** Span one: both children are the one object. */
  function Leaf(objects: seq<Hittable>, start: nat, rule: BoxRule): (res: (Hittable, seq<Hittable>))
    requires start < |objects| && BoundingBox(objects[start], rule).Some?
    ensures res.0.Node? && res.1 == objects
    ensures res.0.left == objects[start] && res.0.right == objects[start]
    ensures res.0.box == Boxes.Surrounding(BoxOf(objects[start], rule), BoxOf(objects[start], rule))
  {
    var only := objects[start];
    (Node(only, only, Boxes.Surrounding(BoxOf(only, rule), BoxOf(only, rule))), objects)
  }

  /** Span two: one comparison, no sort; the first object goes left only when its key is smaller. */
  function Pair(objects: seq<Hittable>, start: nat, axis: int, rule: BoxRule): (res: (Hittable, seq<Hittable>))
    requires start + 2 <= |objects| && BoundingBox(objects[start], rule).Some? && BoundingBox(objects[start + 1], rule).Some?
    ensures res.0.Node? && res.1 == objects
    ensures (res.0.left, res.0.right) == (objects[start], objects[start + 1]) ||
            (res.0.left, res.0.right) == (objects[start + 1], objects[start])
    ensures BoundingBox(res.0.left, rule).Some? && BoundingBox(res.0.right, rule).Some?
    ensures res.0.box == Boxes.Surrounding(BoxOf(res.0.left, rule), BoxOf(res.0.right, rule))
  {
    var first := objects[start];
    var second := objects[start + 1];
    var left := if Key(first, axis, rule) < Key(second, axis, rule) then first else second;
    var right := if Key(first, axis, rule) < Key(second, axis, rule) then second else first;
    (Node(left, right, Boxes.Surrounding(BoxOf(left, rule), BoxOf(right, rule))), objects)
  }

  /** Where a range of three or more is cut: `start + span / 2`. */
  function Middle(start: nat, end: nat): (mid: nat)
    requires start + 2 < end
    ensures start < mid < end
  {
    start + (end - start) / 2
  }

  /** Span three or more: sort the range, then build each half of it. */
  function Split(objects: seq<Hittable>, start: nat, end: nat, axisOf: (nat, nat) -> int, rule: BoxRule): (res: (Hittable, seq<Hittable>))
    requires start + 2 < end <= |objects| && Boxed(objects, start, end, rule)
    ensures res.0.Node? && Frame(objects, res.1, start, end)
    decreases end - start, 0
  {
    var sorted := SortRange(objects, start, end, axisOf(start, end), rule);
    var mid := Middle(start, end);
    var lower := Build(sorted, start, mid, axisOf, rule);
    var upper := Build(lower.1, mid, end, axisOf, rule);
    (Node(lower.0, upper.0, Boxes.Surrounding(lower.0.box, upper.0.box)), upper.1)
  }

  /** `new BVHNode(list)`: the whole list, which must be non-empty. */
  function BuildFromList(objects: seq<Hittable>, axisOf: (nat, nat) -> int, rule: BoxRule): (res: (Hittable, seq<Hittable>))
    requires |objects| > 0 && AllBoxed(objects, rule)
    ensures res.0.Node? && |res.1| == |objects|
  {
    assert Boxed(objects, 0, |objects|, rule) by {
      forall i | 0 <= i < |objects|
        ensures BoundingBox(objects[i], rule).Some?
      {
        assert objects[i] in objects;
      }
    }
    Build(objects, 0, |objects|, axisOf, rule)
  }

  // ---------------------------------------------------------------------------
  // Bookkeeping for the recursive case

  lemma Reassemble(objects: seq<Hittable>, sorted: seq<Hittable>, objects1: seq<Hittable>, objects2: seq<Hittable>,
                   start: nat, mid: nat, end: nat)
    requires start <= mid <= end <= |objects|
    requires PermutesRange(objects, sorted, start, end)
    requires PermutesRange(sorted, objects1, start, mid)
    requires PermutesRange(objects1, objects2, mid, end)
    ensures PermutesRange(objects, objects2, start, end)
  {
    assert objects2[start..mid] == objects1[start..mid];
    assert objects1[mid..end] == sorted[mid..end];
    assert objects2[start..end] == objects2[start..mid] + objects2[mid..end];
    assert objects1[start..end] == objects1[start..mid] + objects1[mid..end];
    assert sorted[start..end] == sorted[start..mid] + sorted[mid..end];
  }

  /** Covering depends only on which objects the range holds, not on their order. */
  lemma CoversPermutation(box: Boxes.AABB, a: seq<Hittable>, b: seq<Hittable>, start: nat, end: nat, rule: BoxRule)
    requires start <= end <= |a| == |b| && multiset(a[start..end]) == multiset(b[start..end])
    requires Boxed(a, start, end, rule) && Boxed(b, start, end, rule) && Covers(box, a, start, end, rule)
    ensures Covers(box, b, start, end, rule)
  {
    forall i | start <= i < end
      ensures Boxes.ContainsBox(box, BoxOf(b[i], rule))
    {
      var j := IndexInPermutation(b, a, start, end, i);
    }
  }

  /** A box around the boxes of both halves covers the range, in the original order too. */
  lemma CoverHalves(objects: seq<Hittable>, sorted: seq<Hittable>, objects1: seq<Hittable>,
                    lowerBox: Boxes.AABB, upperBox: Boxes.AABB, start: nat, mid: nat, end: nat, rule: BoxRule)
    requires start <= mid <= end <= |objects| && Boxed(objects, start, end, rule)
    requires PermutesRange(objects, sorted, start, end) && Boxed(sorted, start, end, rule)
    requires Frame(sorted, objects1, start, mid) && Boxed(objects1, mid, end, rule)
    requires Covers(lowerBox, sorted, start, mid, rule) && Covers(upperBox, objects1, mid, end, rule)
    ensures Covers(Boxes.Surrounding(lowerBox, upperBox), objects, start, end, rule)
  {
    var box := Boxes.Surrounding(lowerBox, upperBox);
    forall i | start <= i < end
      ensures Boxes.ContainsBox(box, BoxOf(sorted[i], rule))
    {
      if i < mid {
        Boxes.ContainsBoxOrder(box, lowerBox, BoxOf(sorted[i], rule));
      } else {
        Boxes.ContainsBoxOrder(box, upperBox, BoxOf(objects1[i], rule));
      }
    }
    CoversPermutation(box, sorted, objects, start, end, rule);
  }

  // ---------------------------------------------------------------------------
  // Properties of the built node

  /** A one-object range makes both children that object and the node box its box. */
  lemma BuildSpanOne(objects: seq<Hittable>, start: nat, axisOf: (nat, nat) -> int, rule: BoxRule)
    requires start < |objects| && BoundingBox(objects[start], rule).Some?
    ensures var res := Build(objects, start, start + 1, axisOf, rule);
      res.0.left == objects[start] && res.0.right == objects[start] &&
      res.0.box == BoxOf(objects[start], rule) && res.1 == objects
  {
    Boxes.SurroundingIdempotent(BoxOf(objects[start], rule));
  }

  /**
   * A two-object range leaves the list alone and puts on the left the object
   * whose key along the node's axis is smaller; the later one on a tie.
   */
  lemma BuildSpanTwo(objects: seq<Hittable>, start: nat, axisOf: (nat, nat) -> int, rule: BoxRule)
    requires start + 2 <= |objects| && BoundingBox(objects[start], rule).Some? && BoundingBox(objects[start + 1], rule).Some?
    ensures var res := Build(objects, start, start + 2, axisOf, rule);
      var axis := axisOf(start, start + 2);
      res.1 == objects &&
      ((res.0.left, res.0.right) == (objects[start], objects[start + 1]) ||
       (res.0.left, res.0.right) == (objects[start + 1], objects[start])) &&
      Key(res.0.left, axis, rule) <= Key(res.0.right, axis, rule) &&
      (Key(objects[start], axis, rule) == Key(objects[start + 1], axis, rule) ==> res.0.left == objects[start + 1])
  {
    var axis := axisOf(start, start + 2);
    assert Build(objects, start, start + 2, axisOf, rule) == Pair(objects, start, axis, rule);
    var k1 := Key(objects[start], axis, rule);
    var k2 := Key(objects[start + 1], axis, rule);
    var node := Pair(objects, start, axis, rule).0;
    if k1 < k2 {
      assert node.left == objects[start] && node.right == objects[start + 1];
    } else {
      assert node.left == objects[start + 1] && node.right == objects[start];
    }
  }

  /**
   * A range of three or more is first sorted along the node's axis and then
   * cut in the middle into two non-empty halves: the left child is built
   * from the lower half of the sorted range, the right child from the upper
   * half of the list the left build leaves.
   */
  lemma BuildSplitsSorted(objects: seq<Hittable>, start: nat, end: nat, axisOf: (nat, nat) -> int, rule: BoxRule)
    requires start + 2 < end <= |objects| && Boxed(objects, start, end, rule)
    ensures var sorted := SortRange(objects, start, end, axisOf(start, end), rule);
      var mid := Middle(start, end);
      var lower := Build(sorted, start, mid, axisOf, rule);
      var upper := Build(lower.1, mid, end, axisOf, rule);
      var res := Build(objects, start, end, axisOf, rule);
      mid - start == (end - start) / 2 &&
      SortedBy(sorted[start..end], AxisKey(axisOf(start, end), rule)) &&
      res.0.left == lower.0 && res.0.right == upper.0 &&
      res.0.box == Boxes.Surrounding(lower.0.box, upper.0.box) && res.1 == upper.1
  {
    assert Build(objects, start, end, axisOf, rule) == Split(objects, start, end, axisOf, rule);
  }

  /** The build only reorders the range: the list it leaves is a permutation inside `[start, end)`. */
  lemma {:induction false} BuildPermutes(objects: seq<Hittable>, start: nat, end: nat, axisOf: (nat, nat) -> int, rule: BoxRule)
    requires start < end <= |objects| && Boxed(objects, start, end, rule)
    ensures PermutesRange(objects, Build(objects, start, end, axisOf, rule).1, start, end)
    decreases end - start
  {
    if end - start > 2 {
      var sorted := SortRange(objects, start, end, axisOf(start, end), rule);
      var mid := Middle(start, end);
      var lower := Build(sorted, start, mid, axisOf, rule);
      var upper := Build(lower.1, mid, end, axisOf, rule);
      BuildPermutes(sorted, start, mid, axisOf, rule);
      BuildPermutes(lower.1, mid, end, axisOf, rule);
      Reassemble(objects, sorted, lower.1, upper.1, start, mid, end);
      BuildSplitsSorted(objects, start, end, axisOf, rule);
    }
  }

  /** The node box contains the box of every object of the range. */
  lemma {:induction false} BuildCovers(objects: seq<Hittable>, start: nat, end: nat, axisOf: (nat, nat) -> int, rule: BoxRule)
    requires start < end <= |objects| && Boxed(objects, start, end, rule)
    ensures Covers(Build(objects, start, end, axisOf, rule).0.box, objects, start, end, rule)
    decreases end - start, 1
  {
    var span := end - start;
    if span == 1 {
      LeafCovers(objects, start, end, axisOf, rule);
    } else if span == 2 {
      PairCovers(objects, start, end, axisOf, rule);
    } else {
      SplitCovers(objects, start, end, axisOf, rule);
    }
  }

  lemma LeafCovers(objects: seq<Hittable>, start: nat, end: nat, axisOf: (nat, nat) -> int, rule: BoxRule)
    requires end == start + 1 && end <= |objects| && Boxed(objects, start, end, rule)
    ensures Covers(Build(objects, start, end, axisOf, rule).0.box, objects, start, end, rule)
  {
    assert Build(objects, start, start + 1, axisOf, rule) == Leaf(objects, start, rule);
    CoversOne(Build(objects, start, start + 1, axisOf, rule).0.box, objects, start, rule);
  }

  lemma PairCovers(objects: seq<Hittable>, start: nat, end: nat, axisOf: (nat, nat) -> int, rule: BoxRule)
    requires end == start + 2 && end <= |objects| && Boxed(objects, start, end, rule)
    ensures Covers(Build(objects, start, end, axisOf, rule).0.box, objects, start, end, rule)
  {
    var box := Build(objects, start, end, axisOf, rule).0.box;
    PairContains(objects, start, axisOf, rule);
    CoversTwo(box, objects, start, rule);
  }

  lemma PairContains(objects: seq<Hittable>, start: nat, axisOf: (nat, nat) -> int, rule: BoxRule)
    requires start + 2 <= |objects| && Boxed(objects, start, start + 2, rule)
    ensures var box := Build(objects, start, start + 2, axisOf, rule).0.box;
      Boxes.ContainsBox(box, BoxOf(objects[start], rule)) && Boxes.ContainsBox(box, BoxOf(objects[start + 1], rule))
  {
    assert Build(objects, start, start + 2, axisOf, rule) == Pair(objects, start, axisOf(start, start + 2), rule);
  }

  lemma CoversOne(box: Boxes.AABB, objects: seq<Hittable>, start: nat, rule: BoxRule)
    requires start < |objects| && Boxed(objects, start, start + 1, rule)
    requires Boxes.ContainsBox(box, BoxOf(objects[start], rule))
    ensures Covers(box, objects, start, start + 1, rule)
  {
  }

  lemma CoversTwo(box: Boxes.AABB, objects: seq<Hittable>, start: nat, rule: BoxRule)
    requires start + 2 <= |objects| && Boxed(objects, start, start + 2, rule)
    requires Boxes.ContainsBox(box, BoxOf(objects[start], rule)) && Boxes.ContainsBox(box, BoxOf(objects[start + 1], rule))
    ensures Covers(box, objects, start, start + 2, rule)
  {
    forall i | start <= i < start + 2
      ensures Boxes.ContainsBox(box, BoxOf(objects[i], rule))
    {
      if i != start {
        assert i == start + 1;
      }
    }
  }

  lemma {:induction false} SplitCovers(objects: seq<Hittable>, start: nat, end: nat, axisOf: (nat, nat) -> int, rule: BoxRule)
    requires start + 2 < end <= |objects| && Boxed(objects, start, end, rule)
    ensures Covers(Build(objects, start, end, axisOf, rule).0.box, objects, start, end, rule)
    decreases end - start, 0
  {
    var sorted := SortRange(objects, start, end, axisOf(start, end), rule);
    var mid := Middle(start, end);
    var lower := Build(sorted, start, mid, axisOf, rule);
    var upper := Build(lower.1, mid, end, axisOf, rule);
    BuildCovers(sorted, start, mid, axisOf, rule);
    BuildCovers(lower.1, mid, end, axisOf, rule);
    CoverHalves(objects, sorted, lower.1, lower.0.box, upper.0.box, start, mid, end, rule);
    BuildSplitsSorted(objects, start, end, axisOf, rule);
  }

  /** The node box is inside every box that covers the range. */
  lemma {:induction false} BuildBoxLeast(objects: seq<Hittable>, start: nat, end: nat, axisOf: (nat, nat) -> int, c: Boxes.AABB, rule: BoxRule)
    requires start < end <= |objects| && Boxed(objects, start, end, rule) && Covers(c, objects, start, end, rule)
    ensures Boxes.ContainsBox(c, Build(objects, start, end, axisOf, rule).0.box)
    decreases end - start, 1
  {
    var span := end - start;
    if span == 1 {
      Boxes.SurroundingLeast(BoxOf(objects[start], rule), BoxOf(objects[start], rule), c);
    } else if span == 2 {
      PairBoxLeast(objects, start, end, axisOf, c, rule);
    } else {
      SplitBoxLeast(objects, start, end, axisOf, c, rule);
    }
  }

  lemma PairBoxLeast(objects: seq<Hittable>, start: nat, end: nat, axisOf: (nat, nat) -> int, c: Boxes.AABB, rule: BoxRule)
    requires end == start + 2 && end <= |objects| && Boxed(objects, start, end, rule) && Covers(c, objects, start, end, rule)
    ensures Boxes.ContainsBox(c, Build(objects, start, end, axisOf, rule).0.box)
  {
    var node := Pair(objects, start, axisOf(start, end), rule).0;
    assert Build(objects, start, end, axisOf, rule).0 == node;
    Boxes.SurroundingLeast(BoxOf(node.left, rule), BoxOf(node.right, rule), c);
  }

  lemma {:induction false} SplitBoxLeast(objects: seq<Hittable>, start: nat, end: nat, axisOf: (nat, nat) -> int, c: Boxes.AABB, rule: BoxRule)
    requires start + 2 < end <= |objects| && Boxed(objects, start, end, rule) && Covers(c, objects, start, end, rule)
    ensures Boxes.ContainsBox(c, Build(objects, start, end, axisOf, rule).0.box)
    decreases end - start, 0
  {
    var sorted := SortRange(objects, start, end, axisOf(start, end), rule);
    var mid := Middle(start, end);
    var lower := Build(sorted, start, mid, axisOf, rule);
    var upper := Build(lower.1, mid, end, axisOf, rule);
    CoversPermutation(c, objects, sorted, start, end, rule);
    BuildBoxLeast(sorted, start, mid, axisOf, c, rule);
    BuildBoxLeast(lower.1, mid, end, axisOf, c, rule);
    Boxes.SurroundingLeast(lower.0.box, upper.0.box, c);
    BuildSplitsSorted(objects, start, end, axisOf, rule);
  }

  /**
   * Whatever the axes, the node box is exactly the box `HittableList`
   * computes for the same objects.
   */
  lemma BuildBoxIsListBox(objects: seq<Hittable>, start: nat, end: nat, axisOf: (nat, nat) -> int, rule: BoxRule)
    requires start < end <= |objects| && Boxed(objects, start, end, rule)
    ensures ListBox(objects[start..end], rule) == Some(Build(objects, start, end, axisOf, rule).0.box)
  {
    var s := objects[start..end];
    var box := Build(objects, start, end, axisOf, rule).0.box;
    assert AllBoxed(s, rule);
    var listBox := ListBox(s, rule).value;
    assert Covers(listBox, objects, start, end, rule) by {
      forall i | start <= i < end
        ensures Boxes.ContainsBox(listBox, BoxOf(objects[i], rule))
      {
        assert s[i - start] == objects[i];
      }
    }
    BuildBoxLeast(objects, start, end, axisOf, listBox, rule);
    BuildCovers(objects, start, end, axisOf, rule);
    assert forall k :: 0 <= k < |s| ==> Boxes.ContainsBox(box, BoundingBox(s[k], rule).value);
    ListBoxLeast(s, box, rule);
    Boxes.ContainsBoxOrder(listBox, box, listBox);
  }

  // ---------------------------------------------------------------------------
  // The built tree hits like the list it was built from

  /** Every object at an index in `[start, end)` is a sphere or a plane. */
  predicate Primitives(objects: seq<Hittable>, start: nat, end: nat)
    requires start <= end <= |objects|
  {
    forall i :: start <= i < end ==> Primitive(objects[i])
  }

  lemma ElementsOfPermutation(a: seq<Hittable>, b: seq<Hittable>)
    requires multiset(a) == multiset(b)
    ensures Elements(a) == Elements(b)
  {
    forall h | h in a
      ensures h in b
    {
      assert h in multiset(a);
    }
    forall h | h in b
      ensures h in a
    {
      assert h in multiset(b);
    }
  }

  /** Permuting a range keeps every object of it a sphere or a plane. */
  lemma PermutationKeepsPrimitives(objects: seq<Hittable>, objects': seq<Hittable>, start: nat, end: nat)
    requires start <= end <= |objects| == |objects'|
    requires multiset(objects'[start..end]) == multiset(objects[start..end])
    requires Primitives(objects, start, end)
    ensures Primitives(objects', start, end)
  {
    forall i | start <= i < end
      ensures Primitive(objects'[i])
    {
      var j := IndexInPermutation(objects', objects, start, end, i);
    }
  }

  /** The leaves of the built node are exactly the objects of the range. */
  lemma {:induction false} BuildLeaves(objects: seq<Hittable>, start: nat, end: nat, axisOf: (nat, nat) -> int, rule: BoxRule)
    requires start < end <= |objects| && Boxed(objects, start, end, rule) && Primitives(objects, start, end)
    ensures Leaves(Build(objects, start, end, axisOf, rule).0) == Elements(objects[start..end])
    decreases end - start, 1
  {
    var span := end - start;
    if span == 1 {
      LeafLeaves(objects, start, end, axisOf, rule);
    } else if span == 2 {
      PairLeaves(objects, start, end, axisOf, rule);
    } else {
      assert Build(objects, start, end, axisOf, rule) == Split(objects, start, end, axisOf, rule);
      SplitLeaves(objects, start, end, axisOf, rule);
    }
  }

  lemma LeafLeaves(objects: seq<Hittable>, start: nat, end: nat, axisOf: (nat, nat) -> int, rule: BoxRule)
    requires end == start + 1 && end <= |objects| && Boxed(objects, start, end, rule) && Primitives(objects, start, end)
    ensures Leaves(Build(objects, start, end, axisOf, rule).0) == Elements(objects[start..end])
  {
    var x := objects[start];
    assert Build(objects, start, end, axisOf, rule) == Leaf(objects, start, rule);
    assert Leaves(Leaf(objects, start, rule).0) == {x};
    assert objects[start..end] == [x];
    ElementsOne(x);
  }

  lemma PairLeaves(objects: seq<Hittable>, start: nat, end: nat, axisOf: (nat, nat) -> int, rule: BoxRule)
    requires end == start + 2 && end <= |objects| && Boxed(objects, start, end, rule) && Primitives(objects, start, end)
    ensures Leaves(Build(objects, start, end, axisOf, rule).0) == Elements(objects[start..end])
  {
    var x, y := objects[start], objects[start + 1];
    var node := Pair(objects, start, axisOf(start, end), rule).0;
    assert Build(objects, start, end, axisOf, rule).0 == node;
    assert Leaves(node) == {x, y};
    assert objects[start..end] == [x, y];
    ElementsTwo(x, y);
  }

  lemma {:induction false} SplitLeaves(objects: seq<Hittable>, start: nat, end: nat, axisOf: (nat, nat) -> int, rule: BoxRule)
    requires start + 2 < end <= |objects| && Boxed(objects, start, end, rule) && Primitives(objects, start, end)
    ensures Leaves(Split(objects, start, end, axisOf, rule).0) == Elements(objects[start..end])
    decreases end - start, 0
  {
    var sorted := SortRange(objects, start, end, axisOf(start, end), rule);
    var mid := Middle(start, end);
    var lower := Build(sorted, start, mid, axisOf, rule);
    var upper := Build(lower.1, mid, end, axisOf, rule);
    PermutationKeepsPrimitives(objects, sorted, start, end);
    FrameKeepsPrimitives(sorted, lower.1, start, mid, end);
    BuildLeaves(sorted, start, mid, axisOf, rule);
    BuildLeaves(lower.1, mid, end, axisOf, rule);
    LeavesOfHalves(objects, sorted, lower.1, lower.0, upper.0, Split(objects, start, end, axisOf, rule).0.box, start, mid, end);
  }

  /** A build over `[start, mid)` leaves the objects of `[mid, end)` spheres and planes. */
  lemma FrameKeepsPrimitives(sorted: seq<Hittable>, objects1: seq<Hittable>, start: nat, mid: nat, end: nat)
    requires start <= mid <= end <= |sorted| && Frame(sorted, objects1, start, mid) && Primitives(sorted, start, end)
    ensures Primitives(objects1, mid, end)
  {
  }

  /** The objects of two halves together are the objects of the range they were built from. */
  lemma LeavesOfHalves(objects: seq<Hittable>, sorted: seq<Hittable>, objects1: seq<Hittable>,
                       lower: Hittable, upper: Hittable, box: Boxes.AABB, start: nat, mid: nat, end: nat)
    requires start <= mid <= end <= |objects|
    requires PermutesRange(objects, sorted, start, end) && Frame(sorted, objects1, start, mid)
    requires Leaves(lower) == Elements(sorted[start..mid]) && Leaves(upper) == Elements(objects1[mid..end])
    ensures Leaves(Node(lower, upper, box)) == Elements(objects[start..end])
  {
    assert Leaves(Node(lower, upper, box)) == Leaves(lower) + Leaves(upper);
    assert objects1[mid..end] == sorted[mid..end];
    assert sorted[start..end] == sorted[start..mid] + sorted[mid..end];
    ElementsConcat(sorted[start..mid], sorted[mid..end]);
    ElementsOfPermutation(sorted[start..end], objects[start..end]);
  }

  lemma ElementsOne(x: Hittable)
    ensures Elements([x]) == {x}
  {
  }

  lemma ElementsTwo(x: Hittable, y: Hittable)
    ensures Elements([x, y]) == {x, y}
  {
  }

  lemma ElementsConcat(a: seq<Hittable>, b: seq<Hittable>)
    ensures Elements(a + b) == Elements(a) + Elements(b)
  {
  }

  /**
   * Over spheres and planes, the built node is a tree whose every node box
   * contains the box of every leaf below it.
   */
  lemma {:induction false} BuildTree(objects: seq<Hittable>, start: nat, end: nat, axisOf: (nat, nat) -> int, rule: BoxRule)
    requires start < end <= |objects| && Boxed(objects, start, end, rule) && Primitives(objects, start, end)
    ensures BoxedTree(Build(objects, start, end, axisOf, rule).0, rule)
    decreases end - start, 1
  {
    var node := Build(objects, start, end, axisOf, rule).0;
    BuildLeaves(objects, start, end, axisOf, rule);
    BuildCovers(objects, start, end, axisOf, rule);
    ChildrenBoxed(objects, start, end, axisOf, rule);
    forall leaf | leaf in Leaves(node)
      ensures BoundingBox(leaf, rule).Some? && Boxes.ContainsBox(node.box, BoundingBox(leaf, rule).value)
    {
      var k :| 0 <= k < end - start && objects[start..end][k] == leaf;
      assert objects[start + k] == leaf;
    }
  }

  lemma {:induction false} ChildrenBoxed(objects: seq<Hittable>, start: nat, end: nat, axisOf: (nat, nat) -> int, rule: BoxRule)
    requires start < end <= |objects| && Boxed(objects, start, end, rule) && Primitives(objects, start, end)
    ensures var node := Build(objects, start, end, axisOf, rule).0;
      BoxedTree(node.left, rule) && BoxedTree(node.right, rule)
    decreases end - start, 0
  {
    var span := end - start;
    if span == 2 {
      assert Build(objects, start, end, axisOf, rule) == Pair(objects, start, axisOf(start, end), rule);
    } else if span > 2 {
      var sorted := SortRange(objects, start, end, axisOf(start, end), rule);
      var mid := Middle(start, end);
      var lower := Build(sorted, start, mid, axisOf, rule);
      PermutationKeepsPrimitives(objects, sorted, start, end);
      BuildTree(sorted, start, mid, axisOf, rule);
      BuildTree(lower.1, mid, end, axisOf, rule);
      BuildSplitsSorted(objects, start, end, axisOf, rule);
    }
  }

  /**
   * Whatever the axes drawn, the node built over spheres of non-negative
   * radius and planes whose box encloses them reports a hit exactly when
   * the list of the same objects does, at the same parameter, in every
   * window that is not a single point and for every ray that meets the
   * planes inside the `1e9` cube.
   */
  lemma BuildHitsAsList(objects: seq<Hittable>, start: nat, end: nat, axisOf: (nat, nat) -> int, rule: BoxRule,
                        r: Ray, tMin: real, tMax: Limit, f: Transcendentals)
    requires SqrtSound(f) && start < end <= |objects| && Below(tMin, tMax)
    requires forall i :: start <= i < end ==> Catchable(objects[i], rule, r)
    ensures Boxed(objects, start, end, rule)
    ensures var tree := Hit(Build(objects, start, end, axisOf, rule).0, r, tMin, tMax, f);
      var list := ListHit(objects[start..end], r, tMin, tMax, f);
      (tree.Some? <==> list.Some?) && (tree.Some? ==> tree.value.t == list.value.t)
  {
    RangeCatches(objects, start, end, rule, r, tMin, f);
    var tree := Build(objects, start, end, axisOf, rule).0;
    var range := objects[start..end];
    BuildTree(objects, start, end, axisOf, rule);
    BuildLeaves(objects, start, end, axisOf, rule);
    ElementsCatch(range, rule, r, tMin, f);
    TreeNearest(tree, rule, r, tMin, tMax, f);
    ListNearest(range, r, tMin, tMax, f);
    SameNearest(Hit(tree, r, tMin, tMax, f), ListHit(range, r, tMin, tMax, f), Elements(range), r, tMin, tMax, f);
  }

  /** Over a range of catchable objects, every object is a sphere or a plane whose box catches its hits. */
  lemma RangeCatches(objects: seq<Hittable>, start: nat, end: nat, rule: BoxRule, r: Ray, tMin: real, f: Transcendentals)
    requires SqrtSound(f) && start <= end <= |objects|
    requires forall i :: start <= i < end ==> Catchable(objects[i], rule, r)
    ensures Boxed(objects, start, end, rule) && Primitives(objects, start, end)
    ensures forall h :: h in objects[start..end] ==> BoxCatches(h, rule, r, tMin, f)
  {
    forall i | start <= i < end
      ensures Primitive(objects[i]) && BoxCatches(objects[i], rule, r, tMin, f)
    {
      CatchableCatches(objects[i], rule, r, tMin, f);
    }
  }

  lemma ElementsCatch(range: seq<Hittable>, rule: BoxRule, r: Ray, tMin: real, f: Transcendentals)
    requires forall h :: h in range ==> BoxCatches(h, rule, r, tMin, f)
    ensures forall h :: h in Elements(range) ==> BoxCatches(h, rule, r, tMin, f)
  {
  }

  /**
   * With the plane's box as written, the node built over a single vertical
   * plane misses a ray that the list of that one plane hits.
   */
  lemma AsWrittenBuildHidesPlane(height: real, tMin: real, axisOf: (nat, nat) -> int, f: Transcendentals)
    requires Planes.HalfThickness < height && tMin <= 1.0
    ensures var objects := [PlaneObject(Planes.Plane(Zero, Vec3(1.0, 0.0, 0.0), Materials.Debug))];
      var r := Ray(Vec3(-1.0, height, 0.0), Vec3(1.0, 0.0, 0.0));
      Hit(Build(objects, 0, 1, axisOf, AsWritten).0, r, tMin, Infinite, f).None? &&
      ListHit(objects, r, tMin, Infinite, f).Some?
  {
    var p := Planes.Plane(Zero, Vec3(1.0, 0.0, 0.0), Materials.Debug);
    var objects := [PlaneObject(p)];
    var r := Ray(Vec3(-1.0, height, 0.0), Vec3(1.0, 0.0, 0.0));
    assert objects[..0] == [];
    AsWrittenPlaneNodeMisses(height, tMin, f);
  }
}
