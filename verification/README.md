# A verified model of a small Java path tracer

This project models the core of a Java ray tracer in the style of "Ray
Tracing in One Weekend". Its parts:

- **Vector arithmetic.** `Vec3` and `Ray`.
- **Surfaces a ray can hit.** Spheres, infinite planes, lists of objects and
  a bounding volume hierarchy (`BVHNode`) over axis-aligned bounding boxes
  (`AABB`). A hit fills a `HitRecord` whose normal `setFaceNormal` orients
  against the ray.
- **Materials.** Lambertian, metal, glass (dielectric), checker, wood
  checker, marble tiles and a debug material. Each scatters a ray and
  returns an attenuation colour.
- **The integrator.** `rayColor` follows a ray through at most `depth`
  bounces and shows a sky gradient where the ray escapes.
- **The two colour back ends.**
  - `ColorUtil.writeColor` averages the samples and quantises them to
    `0..255` for a PPM file.
  - `Renderer.render` applies gamma 2 first, packs the channels into a
    `0xRRGGBB` integer and flips the rows for the image.

## How it is modelled

- **Reals, not doubles.**
  - Doubles are modelled as mathematical reals.
  - `Math.sqrt` and `Math.sin` are a parameter `f: Transcendentals`. Every
    operation is total for any such pair of functions.
  - Properties that need a genuine square root require `SqrtSound(f)`.
- **An open upper bound.** `Double.POSITIVE_INFINITY` as an upper bound is the
  `Infinite` case of `Limit`.
- **Hits.** A `hit` that returns `false` is `None`. One that returns `true`
  is `Some(record)`, with the record holding exactly what the Java method
  writes into `rec`.
- **Objects and materials.** Each Java interface (`Hittable`, `Material`)
  is one closed datatype with a case per class.
- **Randomness becomes input.**
  - Each bounce takes a `Draw`: the unit-sphere sample and the
    `Math.random()` value.
  - The random BVH axis is a function `axisOf(start, end)`.
  - The camera samples of a pixel are a function `samples(i, j)`.
- **Java numerics that matter.** These are written out explicitly:
  - the `(int)` cast truncates toward zero;
  - the square root of a negative average is `NaN`, which casts to `0`;
  - zero samples per pixel divide by zero;
  - the channel packing works on a 32-bit `int` (`bv32`).
- **One clamp.** `Renderer.clamp` and `ColorUtil.clamp` are the same
  function. Both are modelled once, as `Colors.Clamp`.
- **Two plane boxes.** Every box, list box, BVH key and BVH build takes a
  `BoxRule`.
  - `AsWritten` is the Java program: a plane's box is `Plane.boundingBox`,
    the `0.01` slab around its point's height, whatever the normal.
  - `Corrected` boxes a plane with `Planes.EnclosingBox`, which encloses the
    plane (see "## Findings").
  - The two rules agree on horizontal planes.

Modules:

| module | file |
|---|---|
| `Options` | `options.dfy` |
| `RealMath` | `real_math.dfy` |
| `Vectors` | `vec3.dfy` |
| `Rays` | `ray.dfy` |
| `Boxes` | `aabb.dfy` |
| `Materials` | `materials.dfy` |
| `HitRecords` | `hit_record.dfy` |
| `Scattering` | `scatter.dfy` |
| `Spheres` | `sphere.dfy` |
| `Planes` | `plane.dfy` |
| `Hittables` | `hittable.dfy` |
| `Sorting` | `sorting.dfy` |
| `Bvh` | `bvh.dfy` |
| `Colors` | `color.dfy` |
| `Rendering` | `renderer.dfy` |

## Model

| member | source | states |
|---|---|---|
| `RealMath.Narrow` | src/hittable/AABB.java:33 | The narrowed upper bound never exceeds the old one and is finite. A parameter lies below it exactly when it lies below both `t1` and the old bound. |
| `Vectors.Normalize` | src/math/Vec3.java:52-56 | A vector whose computed length is zero (in particular the zero vector) normalizes to the zero vector instead of dividing by zero. |
| `Vectors.NormalizeUnit` | src/math/Vec3.java:52-56 | With a true square root, a non-zero vector has positive length and normalizes to a unit vector: the vector scaled by the reciprocal of its length. |
| `Vectors.DotSub` | src/math/Vec3.java:24-34 | The dot product distributes over subtraction. |
| `Vectors.DotAdd` | src/math/Vec3.java:20-34 | The dot product distributes over addition. |
| `Vectors.DotScale` | src/math/Vec3.java:28-34 | Scaling a factor scales the dot product. |
| `Vectors.Negated` | src/math/Vec3.java:28-34 | `scale(-1)` negates dot products, keeps the squared length and cancels the vector. |
| `Vectors.DotSymmetric` | src/math/Vec3.java:32-34 | The dot product is symmetric. |
| `Vectors.AddSubCancel` | src/math/Vec3.java:20-26 | Subtracting what was added gives the original vector back. |
| `Vectors.LengthSquaredIsDot` | src/math/Vec3.java:48-50 | `lengthSquared` is the self dot product and is never negative. |
| `Vectors.LengthSquaredPositive` | src/math/Vec3.java:48-50 | The squared length is zero for the zero vector and positive for every other vector. |
| `Vectors.CrossOrthogonal` | src/math/Vec3.java:36-42 | The cross product is orthogonal to both factors. |
| `Vectors.CauchySchwarz` | src/math/Vec3.java:32-50 | Lagrange's identity holds, and so does the Cauchy-Schwarz inequality it implies. |
| `Vectors.LengthSquaredScale` | src/math/Vec3.java:28-50 | Scaling by `k` multiplies the squared length by `k^2`. |
| `Vectors.UnitComponents` | src/math/Vec3.java:48-50 | No component of a unit vector exceeds one in magnitude. |
| `Vectors.NearZeroBound` | src/math/Vec3.java:120-123 | A near-zero vector has squared length below `3e-16`, and the zero vector is near zero. |
| `Vectors.UnitNotNearZero` | src/math/Vec3.java:120-123 | A unit vector is never near zero. |
| `Vectors.MultiplyByOnes` | src/math/Vec3.java:130-132 | Multiplying a colour by white component-wise leaves it unchanged. |
| `Vectors.Reflect` | src/math/Vec3.java:64-66 | About a unit normal, the component along the normal changes sign. For any normal, the components across it are kept. |
| `Vectors.ReflectPreservesLength` | src/math/Vec3.java:64-66 | Reflection about a unit normal preserves length. |
| `Vectors.ReflectInvolution` | src/math/Vec3.java:64-66 | Reflecting twice about the same unit normal is the identity. |
| `Vectors.RandomCandidate` | src/math/Vec3.java:97-103 | A candidate drawn from uniform draws in `[0, 1)` lies in the half-open cube `[-1, 1)^3`. |
| `Vectors.RandomInUnitSphere` | src/math/Vec3.java:109-114 | Rejection sampling returns the first candidate strictly inside the unit ball. Every earlier candidate lies outside it. It returns nothing only when the whole draw stream is rejected. |
| `Rays.RayFields` | src/math/Ray.java:19-40 | The getters return exactly the origin and direction given to the constructor. |
| `Rays.AtZero` | src/math/Ray.java:48-50 | `at(0)` is the origin. |
| `Rays.At` | src/math/Ray.java:48-50 | `at(t)` minus the origin is the direction scaled by `t`. |
| `Rays.AtAdditive` | src/math/Ray.java:48-50 | Advancing by `s` and then by `t` is advancing by `s + t`. |
| `Rays.AtInjective` | src/math/Ray.java:48-50 | Along a ray with a non-zero direction, distinct parameters give distinct points. |
| `HitRecords.SetFaceNormal` | src/hittable/HitRecord.java:27-31 | `frontFace` holds exactly when the ray opposes the outward normal. The stored normal is the outward normal on a front face and its negation otherwise. It always opposes the ray and keeps the outward normal's length. No other field changes. |
| `HitRecords.SetFaceNormalReorient` | src/hittable/HitRecord.java:27-31 | Unless the ray grazes the surface, orienting again with the stored normal keeps it and reports a front face. |
| `HitRecords.Record` | src/hittable/Plane.java:38-42 | A successful hit overwrites every field. The record then holds the parameter, the point at that parameter and the material. Its normal opposes the ray, and the front-face flag says whether the outward normal faced the ray. |
| `Boxes.Surrounding` | src/hittable/AABB.java:41-53 | The surrounding box contains both boxes and is well formed when they are. |
| `Boxes.SurroundingLeast` | src/hittable/AABB.java:41-53 | Every box containing both arguments contains their surrounding box, so it is the least such box. |
| `Boxes.SurroundingCommutative` | src/hittable/AABB.java:41-53 | The order of the two boxes does not matter. |
| `Boxes.SurroundingAssociative` | src/hittable/AABB.java:41-53 | Grouping does not matter when surrounding three boxes. |
| `Boxes.SurroundingIdempotent` | src/hittable/AABB.java:41-53 | Surrounding a box with itself gives the box. |
| `Boxes.SlabStep` | src/hittable/AABB.java:20-36 | One loop iteration. An accepted window is non-empty and lies within the old one. With a zero direction component, the window is kept when the origin is in the closed slab and the ray is rejected otherwise. |
| `Boxes.Hit` | src/hittable/AABB.java:19-38 | The box is never hit when `tMin >= tMax`. With no zero direction component, `hit` holds exactly when `tMin` and the three slab entries all lie below `tMax` and the three slab exits. |
| `Boxes.SlabsFromIffOverlap` | src/hittable/AABB.java:20-37 | From any axis on, the loop succeeds exactly when the remaining entries all lie below the remaining exits. |
| `Boxes.HitWitness` | src/hittable/AABB.java:19-38 | When `hit` succeeds, some `t` in `(tMin, tMax)` puts the ray's point inside the closed box. |
| `Boxes.InteriorHit` | src/hittable/AABB.java:19-38 | A point of the ray strictly inside the box at a `t` in `(tMin, tMax)` makes `hit` succeed. |
| `Boxes.InteriorHitClosed` | src/hittable/AABB.java:19-38 | A point strictly inside the box at a `t` in the closed window `[tMin, tMax]` makes `hit` succeed, provided `tMin < tMax`. |
| `Boxes.SegmentHit` | src/hittable/AABB.java:19-38 | Two points of the ray in the closed box, at `t1 < t2`, make `hit` succeed when `tMin <= t1 < tMax` or `tMin < t2 <= tMax`. |
| `Boxes.HitMono` | src/hittable/AABB.java:19-38 | A ray that hits a box hits every larger box over every wider parameter range. |
| `Boxes.HitSurrounding` | src/hittable/AABB.java:19-53 | A ray that hits a box hits its surrounding box with any other box, on either side. |
| `Spheres.DiscriminantPositive` | src/hittable/Sphere.java:26-33 | A positive discriminant implies a positive `a` and a non-zero radius, so neither division in `hit` is by zero. |
| `Spheres.ZeroDirectionNoRoots` | src/hittable/Sphere.java:26-31 | A ray with zero direction has discriminant zero and therefore never hits. |
| `Spheres.ZeroRadiusNoRoots` | src/hittable/Sphere.java:26-31 | A sphere of radius zero has a non-positive discriminant for every ray. |
| `Spheres.Hit` | src/hittable/Sphere.java:23-60 | There is no hit unless the discriminant is positive. A hit's parameter lies strictly within `(tMin, tMax)` and its point is on the ray. It carries the sphere's material, with a normal that opposes the ray. |
| `Spheres.NearRootFirst` | src/hittable/Sphere.java:31-57 | The nearer root is reported whenever it lies in the window. Otherwise the farther one is, and there is a miss exactly when neither lies in the window. |
| `Spheres.DistanceAlongRay` | src/hittable/Sphere.java:24-29 | The squared distance from `at(t)` to the centre is `a t^2 + 2 halfB t + c + radius^2`. |
| `Spheres.OnSphereIffRoot` | src/hittable/Sphere.java:24-29 | The ray meets the sphere at `t` exactly when `t` is a root of the quadratic. |
| `Spheres.NearSolves` | src/hittable/Sphere.java:33 | `(-halfB - root) / a` solves the quadratic when `root` squares to the discriminant. |
| `Spheres.FarSolves` | src/hittable/Sphere.java:47 | `(-halfB + root) / a` solves the quadratic when `root` squares to the discriminant. |
| `Spheres.OnlyCandidates` | src/hittable/Sphere.java:31-47 | The quadratic has no roots besides the two candidates. |
| `Spheres.Candidates` | src/hittable/Sphere.java:31-57 | With a true square root, both candidates are points of the sphere. The nearer is at most the farther, and the ray meets the sphere nowhere else. |
| `Spheres.HitOnSphere` | src/hittable/Sphere.java:31-57 | With a true square root, a reported hit point lies on the sphere. |
| `Spheres.HitIsNearest` | src/hittable/Sphere.java:23-60 | With a true square root, a reported hit is no later than any point of the sphere in the window. A miss means the discriminant is not positive. |
| `Spheres.HitNormalUnit` | src/hittable/Sphere.java:39-41 | With a true square root, the normal stored on a hit is a unit vector. |
| `Spheres.Narrowing` | src/hittable/Sphere.java:35-48 | Lowering `tMax` to a value still above a hit's parameter reports the same hit, as the list scan relies on. |
| `Spheres.Widening` | src/hittable/Sphere.java:35-48 | With a true square root, widening the window keeps the same hit. |
| `Spheres.BoundingBox` | src/hittable/Sphere.java:64-69 | The box is well formed when the radius is non-negative. |
| `Spheres.InBoundingBox` | src/hittable/Sphere.java:64-69 | The box holds exactly the points within `radius` of the centre along every axis. |
| `Spheres.OnSphereInBox` | src/hittable/Sphere.java:64-69 | Every point of a sphere with non-negative radius lies in its box. |
| `Spheres.BoxHoldsSphere` | src/hittable/Sphere.java:64-69 | The box of a sphere with non-negative radius holds the whole sphere. |
| `Spheres.HitInBox` | src/hittable/Sphere.java:23-69 | Every point `hit` reports lies in the sphere's bounding box. |
| `Spheres.HitPassesBox` | src/hittable/Sphere.java:23-69 | With a true square root and a non-negative radius, the slab test of the sphere's box lets through every window in which the sphere reports a hit. |
| `Planes.NewPlane` | src/hittable/Plane.java:15-19 | The constructor keeps the point and the material and normalizes the normal. A zero normal stays zero. |
| `Planes.NewPlaneUnitNormal` | src/hittable/Plane.java:15-19 | With a true square root, a plane built from a non-zero normal has a unit normal. |
| `Planes.Hit` | src/hittable/Plane.java:25-45 | A nearly parallel ray (`abs(d.n) < 1e-6`) misses. A hit's parameter lies in the closed window and its point is on the ray. It carries the plane's material, with a normal that opposes the ray. |
| `Planes.OnPlaneIffCrossing` | src/hittable/Plane.java:26-32 | Along a non-parallel ray, the point at `t` lies on the plane exactly when `t` is the computed crossing parameter. |
| `Planes.HitIffCrossing` | src/hittable/Plane.java:25-45 | For a ray that is not nearly parallel, `hit` succeeds exactly when the ray meets the plane in `[tMin, tMax]`. The reported point is then the only point of the ray on the plane. |
| `Planes.Narrowing` | src/hittable/Plane.java:34-36 | Lowering `tMax` to a value still at least a hit's parameter reports the same hit. |
| `Planes.Widening` | src/hittable/Plane.java:34-36 | Widening the window keeps the same hit. |
| `Planes.BoundingBox` | src/hittable/Plane.java:51-58 | The box is well formed. |
| `Planes.InBoundingBox` | src/hittable/Plane.java:51-58 | The box holds exactly the points within `1e9` of the `y` axis along `x` and `z`, and within `0.01` of the plane point's height. |
| `Planes.HorizontalPlaneInBox` | src/hittable/Plane.java:51-58 | For a horizontal plane, the box contains every point of the plane within `1e9` along `x` and `z`. |
| `Planes.VerticalPlaneOutsideBox` | src/hittable/Plane.java:51-58 | The box ignores the normal. A vertical plane is hit at points its box does not contain. |
| `Planes.BoxTestHidesHit` | src/hittable/Plane.java:51-58 | For the vertical plane `x = 0` and a ray along `x` above the box's `0.01` slab, the plane reports a hit but the slab test against the plane's own box fails. |
| `Planes.ParallelOutsideSlabMisses` | src/hittable/AABB.java:19-37 | A ray parallel to a box's `y` slab and outside it misses the box, whatever the window. |
| `Planes.EnclosingBox` | src/hittable/Plane.java:51-58 | The corrected box is well formed and equals the Java box for every horizontal plane. |
| `Planes.EnclosingBoxContainsPlane` | src/hittable/Plane.java:47-50 | The corrected box contains every point of the plane within `1e9` of the origin along each axis, as the method's comment promises. |
| `Planes.HitInEnclosingBox` | src/hittable/Plane.java:47-58 | Every hit point of the plane within `1e9` along each axis lies in the corrected box. |
| `Planes.EnclosingBoxCatchesHit` | src/hittable/Plane.java:47-58 | The corrected box lets through the ray whose hit the Java box hides. |
| `Planes.HitPassesBox` | src/hittable/Plane.java:25-58 | For a horizontal plane that the ray meets inside the `1e9` cube, the slab test of the Java box lets through every window with `tMin < tMax` in which the plane reports a hit. |
| `Planes.HitPassesEnclosingBox` | src/hittable/Plane.java:25-58 | Whatever the normal, for a ray that meets the plane inside the `1e9` cube, the slab test of the corrected box lets through every window with `tMin < tMax` in which the plane reports a hit. |
| `Hittables.Closest` | src/hittable/HittableList.java:35-40 | After a miss `closestSoFar` is unchanged. After a hit within the bound it does not grow. |
| `Hittables.Hit` | src/hittable/Hittable.java:16 | Whatever the kind of object, a reported parameter lies in `[tMin, tMax]`, its point is on the ray and its normal opposes the ray. |
| `Hittables.ListHit` | src/hittable/HittableList.java:32-55 | The scan's record, if any, lies in `[tMin, tMax]` and is a point of the ray with a normal opposing it. |
| `Hittables.Add` | src/hittable/HittableList.java:19-21 | `add` appends the object at the end and keeps every earlier member in place. |
| `Hittables.ListHitIff` | src/hittable/HittableList.java:32-55 | The list reports a hit exactly when some member hits in the full window. |
| `Hittables.EmptyListMisses` | src/hittable/HittableList.java:32-55 | An empty list never hits. |
| `Hittables.ListHitFromMember` | src/hittable/HittableList.java:35-51 | `closestSoFar` never grows. Once a prefix of the list has hit, the whole scan hits no later than that prefix did. |
| `Hittables.PrimitiveNarrowing` | src/hittable/HittableList.java:38 | A sphere or plane queried with a lower `tMax` that still admits its hit reports the same hit. |
| `Hittables.ListClosest` | src/hittable/HittableList.java:32-55 | Over spheres and planes the list hits whenever a member does. Its reported parameter is at most that member's. |
| `Hittables.ListNearest` | src/hittable/HittableList.java:32-55 | Over spheres and planes, the scan reports the hit of one of its members. No member hits earlier, and a member that hits means the list hits. |
| `Hittables.SameNearest` | src/hittable/HittableList.java:32-55 | Two nearest hits over the same objects agree on whether there is a hit and on its parameter. |
| `Hittables.NodeBoxGates` | src/hittable/BVHNode.java:73 | A node whose box the ray misses reports no hit, whatever its children. |
| `Hittables.NodeIsPair` | src/hittable/BVHNode.java:72-79 | Inside its box, a node behaves as the two-element list of its children. |
| `Hittables.NodeNearer` | src/hittable/BVHNode.java:72-79 | Inside its box, a node hits exactly when a child does. When the right child is a sphere or plane, the reported hit is the nearer of the two children's. |
| `Hittables.AsWrittenPlaneNodeMisses` | src/hittable/BVHNode.java:72-79 | With the plane's Java box, a node over a vertical plane reports no hit for a ray the plane alone reports hitting. |
| `Hittables.CorrectedPlaneNodeHits` | src/hittable/BVHNode.java:72-79 | With the corrected box, that node reports exactly the plane's hit. |
| `Hittables.PlaneNodeOverBox` | src/hittable/BVHNode.java:72-79 | A node over one plane and a box reports the plane's hit when the ray passes the box, and nothing otherwise. |
| `Hittables.CatchableCatches` | src/hittable/BVHNode.java:72-73 | A sphere with non-negative radius, or a plane the ray meets inside the `1e9` cube that is horizontal or boxed by the corrected rule, has a box whose slab test lets through every window in which it hits. |
| `Hittables.TreeNearest` | src/hittable/BVHNode.java:72-79 | A tree of nodes, whose boxes contain their leaves' boxes and whose leaves' boxes let their hits through, reports the nearest hit among its leaves, whatever its shape. |
| `Hittables.BoundingBox` | src/hittable/Plane.java:51-58 | Spheres, planes and nodes always have a box. A sphere's box holds the whole sphere when the radius is non-negative. Under `AsWritten`, the Java rule, a plane's box is the `0.01` slab around its point's height whatever the normal; the corrected rule agrees on horizontal planes. |
| `Hittables.ListBox` | src/hittable/HittableList.java:62-70 | The list's box exists exactly when the list is non-empty and every member has a box. It then contains every member's box. This holds under either box rule. |
| `Hittables.ListBoxLeast` | src/hittable/HittableList.java:62-70 | The list's box lies within every box that contains all members' boxes. This holds under either box rule. |
| `Hittables.AddBox` | src/hittable/HittableList.java:19-21 | Adding an object widens the list's box by exactly the object's box. This holds under either box rule. |
| `Sorting.Insert` | src/hittable/BVHNode.java:52 | Inserting into a sorted sequence keeps it sorted and adds exactly the one element. |
| `Sorting.SortBy` | src/hittable/BVHNode.java:52 | The sort orders the keys and permutes the elements. |
| `Sorting.SortSorted` | src/hittable/BVHNode.java:52 | A sorted sequence is left unchanged. |
| `Sorting.SortIdempotent` | src/hittable/BVHNode.java:52 | Sorting twice is sorting once. |
| `Sorting.InsertWithKey` | src/hittable/BVHNode.java:52 | Among the elements of any one key, insertion adds only the new element, and puts it first. |
| `Sorting.SortStable` | src/hittable/BVHNode.java:52 | The sort is stable: for every key, the elements with that key come out in the order they went in. |
| `Bvh.SortRange` | src/hittable/BVHNode.java:32-52 | Sorting the sub-list permutes only the range `[start, end)`. It orders the range by the minimum box corner on the axis, and keeps every object boxed. This holds under either box rule. |
| `Bvh.Key` | src/hittable/BVHNode.java:32-38 | A sphere's key is its centre less its radius on the axis, a lower bound on every point of the sphere along it. Under `AsWritten`, a plane's key is its height less `0.01` on `y` and `-1e9` on the other axes. |
| `Bvh.Build` | src/hittable/BVHNode.java:27-61 | The constructor yields a node and leaves the list as long as before, unchanged outside the range. This holds under either box rule. |
| `Bvh.Leaf` | src/hittable/BVHNode.java:41-42 | A single object becomes both children, and the node box is its box. This holds under either box rule. |
| `Bvh.Pair` | src/hittable/BVHNode.java:43-50 | Two objects are compared once, without sorting. The node holds both in one order or the other, and its box surrounds their boxes. This holds under either box rule. |
| `Bvh.Middle` | src/hittable/BVHNode.java:53 | For three or more objects, the cut point lies strictly inside the range, so both halves are non-empty. |
| `Bvh.Split` | src/hittable/BVHNode.java:51-56 | Sorting and building both halves leaves the list unchanged outside the range. This holds under either box rule. |
| `Bvh.BuildFromList` | src/hittable/BVHNode.java:17-19 | Building over a whole non-empty boxed list gives a node and a list of the same length. This holds under either box rule. |
| `Bvh.BuildSpanOne` | src/hittable/BVHNode.java:41-42 | A one-object range makes that object both children, and the node box is its box. This holds under either box rule. |
| `Bvh.BuildSpanTwo` | src/hittable/BVHNode.java:43-50 | A two-object range leaves the list alone. The left child is the object whose key is smaller, or the later one on a tie. This holds under either box rule. |
| `Bvh.BuildSplitsSorted` | src/hittable/BVHNode.java:51-56 | A larger range is sorted and then cut at `start + span / 2`. The left child is built from the sorted lower half and the right child from the upper half of what that build leaves. |
| `Bvh.BuildPermutes` | src/hittable/BVHNode.java:27-61 | The whole build only reorders the objects inside `[start, end)`. This holds under either box rule. |
| `Bvh.BuildCovers` | src/hittable/BVHNode.java:27-61 | The node box contains the box of every object in the range. This holds under either box rule. |
| `Bvh.BuildBoxLeast` | src/hittable/BVHNode.java:58-60 | The node box lies within every box that covers the range, so it is the least covering box. This holds under either box rule. |
| `Bvh.BuildBoxIsListBox` | src/hittable/BVHNode.java:27-61 | Whatever the random axes, the node box equals the box `HittableList` computes for the same objects. This holds under either box rule. |
| `Bvh.BuildLeaves` | src/hittable/BVHNode.java:27-61 | Over spheres and planes, the leaves of the built node are exactly the objects of the range. |
| `Bvh.BuildTree` | src/hittable/BVHNode.java:27-61 | Over spheres and planes, every node box of the built tree contains the box of every leaf below it. |
| `Bvh.BuildHitsAsList` | src/hittable/BVHNode.java:27-79 | Whatever the random axes, a node built over spheres with non-negative radius and planes the ray meets inside the `1e9` cube reports a hit exactly when the list of the same objects does, at the same parameter. This needs a window with `tMin < tMax`, and planes that are horizontal or boxed by the corrected rule. |
| `Bvh.AsWrittenBuildHidesPlane` | src/hittable/BVHNode.java:27-79 | With the Java box, the node built over the vertical plane `x = 0` misses a ray along `x` above its slab, which the one-plane list hits. |
| `Materials.NewMetal` | src/material/Metal.java:14-17 | The metal keeps its albedo. The fuzz is capped at one from above only, and is kept exactly when below one. |
| `Materials.NewMirror` | src/material/Metal.java:19-21 | The one-argument constructor gives a perfect mirror (fuzz zero). |
| `Materials.NewMetalIdempotent` | src/material/Metal.java:14-17 | Capping an already capped fuzz changes nothing. |
| `Materials.NewWoodChecker` | src/material/WoodCheckerMaterial.java:16-20 | Builds the fixed light and dark wood tones with fuzz `0.05`. |
| `Materials.NewMarbleTiles` | src/material/MarbleTiles.java:12-17 | Builds the fixed white and grey marble colours with fuzz `0.02`. |
| `Materials.DefaultColoursInRange` | src/material/WoodCheckerMaterial.java:17-18 | The hard-coded wood and marble colours are all valid reflectances in `[0, 1]`. |
| `Materials.ReflectanceNormalIncidence` | src/material/Dielectric.java:66-70 | At normal incidence (cosine 1), Schlick's reflectance is the base reflectance `r0`. |
| `Materials.ReflectanceGrazing` | src/material/Dielectric.java:66-70 | At grazing incidence (cosine 0), everything is reflected. |
| `Materials.Reflectance` | src/material/Dielectric.java:66-70 | For a positive index and a cosine in `[0, 1]`, the reflectance lies between `r0 >= 0` and one, so it is a probability. |
| `Materials.R0MatchedIndex` | src/material/Dielectric.java:67-68 | Matched indices reflect nothing head-on. |
| `Materials.R0Bounds` | src/material/Dielectric.java:67-68 | For a positive index, the base reflectance lies in `[0, 1)`. |
| `Materials.ProductNegativeIff` | src/material/CheckerMaterial.java:35-36 | The pattern test `sin * sin < 0` holds exactly when the two sines have strictly opposite signs. |
| `Scattering.LambertianNearZeroAgrees` | src/material/Lambertian.java:42-45 | The material's private `nearZero` is the same test as `Vec3.nearZero`. |
| `Scattering.ScatterLambertian` | src/material/Lambertian.java:26-34 | Always scatters from the hit point with the albedo. The direction is normal plus sample, or the bare normal when that sum is near zero. |
| `Scattering.LambertianDirection` | src/material/Lambertian.java:26-34 | With a unit normal and a sample inside the unit ball, the direction is never degenerate and lies in the normal's hemisphere. |
| `Scattering.ScatterMetal` | src/material/Metal.java:31-37 | Attenuates by the albedo along the fuzzy reflection from the hit point. It scatters exactly when the new direction leaves above the surface. |
| `Scattering.MirrorScatters` | src/material/Metal.java:31-37 | A perfect mirror hit from the side its unit normal faces always scatters. |
| `Scattering.WoodColour` | src/material/WoodCheckerMaterial.java:34-40 | Light wood where `sin(4x) sin(4z) < 0`, dark wood elsewhere. |
| `Scattering.MarbleColour` | src/material/MarbleTiles.java:29-35 | White where `sin(5x) sin(5z) < 0`, grey elsewhere. |
| `Scattering.RefractionRatio` | src/material/Dielectric.java:30 | On a front face the ratio is the reciprocal of the index; on a back face it is the index. It is never `0` or `-1`. |
| `Scattering.CosTheta` | src/material/Dielectric.java:37 | The cosine is at most one and is either one or `-unit . normal`. |
| `Scattering.ScatterDielectric` | src/material/Dielectric.java:26-58 | Glass always scatters, untinted, from the hit point. It reflects under total internal reflection or when the reflectance beats the draw, and refracts otherwise. |
| `Scattering.CosThetaRange` | src/material/Dielectric.java:37 | Between two unit vectors, the cosine lies in `[-1, 1]`. |
| `Scattering.SinThetaRange` | src/material/Dielectric.java:41 | For a cosine in `[-1, 1]`, the sine lies in `[0, 1]`. |
| `Scattering.EnteringNeverTotallyReflects` | src/material/Dielectric.java:30-44 | Entering glass of index at least one through a front face never meets total internal reflection. |
| `Scattering.NoTotalReflection` | src/material/Dielectric.java:44 | A ratio in `(0, 1]` never makes `ratio * sinTheta` exceed one. |
| `Scattering.GrazingTotallyReflects` | src/material/Dielectric.java:41-44 | With a true square root, at grazing incidence (cosine zero) every ratio above one makes refraction impossible. |
| `Scattering.GrazingExitReflects` | src/material/Dielectric.java:26-58 | Leaving glass of index above one at grazing incidence, the ray is reflected whatever the random draw. |
| `Scattering.CheckerColour` | src/material/CheckerMaterial.java:33-41 | The odd colour where `sin(10x) sin(10z) < 0`, the even colour elsewhere. |
| `Scattering.ScatterChecker` | src/material/CheckerMaterial.java:18-31 | Always scatters from the hit point with the pattern colour there. The direction is the normalized diffuse direction, or the normal when that is near zero. |
| `Scattering.ScatterDebug` | src/material/DebugMaterial.java:14-26 | Always scatters with blue on front faces and red on back faces, along the normalized diffuse direction. |
| `Scattering.Scatter` | src/material/Material.java:14 | The scattered ray starts at the hit point. Lambertian, glass, checker and debug always scatter. Metal, wood and marble scatter exactly when the ray leaves above the surface. |
| `Scattering.PatternDependsOnPoint` | src/material/CheckerMaterial.java:18-41 | The patterned materials' attenuation depends on the hit point alone, not on the ray, normal, face or draw. |
| `Scattering.PatternedMetals` | src/material/WoodCheckerMaterial.java:31-43 | Wood and marble scatter exactly like a metal of the same fuzz whose albedo is the pattern colour at the hit point. |
| `Scattering.GlassIsClear` | src/material/Dielectric.java:27 | Glass passes the colour behind it through unchanged. |
| `Scattering.DebugBouncesLikeChecker` | src/material/DebugMaterial.java:22-23 | Where the checker does not fall back to the normal, the debug material bounces along the same ray as the checker. |
| `Colors.Clamp` | src/main/ColorUtil.java:43-47 | For `min <= max` the result lies in `[min, max]`, and a value already inside is returned unchanged. |
| `Colors.ClampNearest` | src/main/ColorUtil.java:43-47 | The clamped value is the point of the range nearest to `x`. |
| `Colors.ClampIdempotent` | src/main/ColorUtil.java:43-47 | Clamping a clamped value changes nothing. |
| `Colors.ClampMonotone` | src/main/ColorUtil.java:43-47 | Clamping preserves order. |
| `Colors.Truncate` | src/main/ColorUtil.java:28-30 | Java's `(int)` cast rounds toward zero: down for non-negative values and up for negative ones. |
| `Colors.ChannelByte` | src/main/ColorUtil.java:28-30 | A channel quantises to `0..255`, giving `0` at or below zero and `255` from `0.999` up. |
| `Colors.ChannelMonotone` | src/main/ColorUtil.java:28-30 | A brighter channel never gives a smaller byte. |
| `Colors.ChannelOfByte` | src/main/ColorUtil.java:28-30 | Every byte `k` is the quantisation of `k / 256`, so the quantisation is onto `0..255`. |
| `Colors.ScaledChannel` | src/main/ColorUtil.java:23-30 | The result is always a byte. With zero samples, division by zero gives `255` exactly for a positive sum and `0` otherwise. |
| `Colors.WriteColor` | src/main/ColorUtil.java:18-33 | All three printed values are bytes. |
| `Colors.WriteColorIsLinear` | src/main/ColorUtil.java:18-33 | There is no gamma correction: samples averaging `k / 256` in a channel print `k`. |
| `Colors.WriteColorMonotone` | src/main/ColorUtil.java:18-33 | With samples present, a brighter sum never prints a smaller channel. |
| `Rendering.HitMaterial` | src/main/Renderer.java:120-122 | Every record the scene reports carries the material of one of the scene's spheres or planes, so in a valid scene `scatter` is only called on valid materials. |
| `Rendering.ListHitMaterial` | src/hittable/HittableList.java:46 | The record copied out of the list scan carries a material of some list member. |
| `Rendering.AttenuationInUnitCube` | src/main/Renderer.java:122-131 | A material whose colours lie in `[0, 1]` always attenuates by a colour in `[0, 1]`. |
| `Rendering.Sky` | src/main/Renderer.java:137-141 | The background blend always has full blue. |
| `Rendering.SkyBlendInRange` | src/main/Renderer.java:137-138 | With a true square root, the blend factor `t` lies in `[0, 1]`. |
| `Rendering.SkyBetween` | src/main/Renderer.java:137-141 | The sky colour lies component-wise between sky blue and white. |
| `Rendering.SkyZenithAndNadir` | src/main/Renderer.java:137-141 | Looking straight up gives sky blue; looking straight down gives white. |
| `Rendering.RayColor` | src/main/Renderer.java:115-142 | No depth left gives black. A ray with depth left that hits nothing beyond `0.001` shows the sky. |
| `Rendering.RayColorBounce` | src/main/Renderer.java:120-133 | After a hit, an absorbed ray is black. A scattered ray leaves from the hit point and returns the attenuation times what it brings back with one bounce less. |
| `Rendering.EmptySceneShowsSky` | src/main/Renderer.java:115-142 | In an empty scene, every ray sees the sky. |
| `Rendering.LastBounceIsDark` | src/main/Renderer.java:115-133 | A ray that still hits something on its last allowed bounce brings back no light. |
| `Rendering.RayColorInUnitCube` | src/main/Renderer.java:115-142 | Light is never amplified. With physical materials, every channel of the returned colour lies in `[0, 1]`. |
| `Rendering.GlassPassesLight` | src/main/Renderer.java:122-131 | A ray that hits glass brings back exactly what its scattered ray brings back. |
| `Rendering.MainRayColor` | src/main/Main.java:22-64 | `Main.rayColor` gives black when no depth is left. |
| `Rendering.MainMatchesRenderer` | src/main/Main.java:22-64 | `Main.rayColor` and `Renderer.rayColor` compute the same colour for every scene, ray, depth and draw stream. |
| `Rendering.SampleSum` | src/main/Renderer.java:51-60 | A pixel with no samples sums to black. |
| `Rendering.SampleSumBound` | src/main/Renderer.java:51-60 | Samples in `[0, 1]` sum, channel by channel, to between `0` and the number of samples. |
| `Rendering.GammaByte` | src/main/Renderer.java:71-78 | The result is always a byte. A negative average (whose square root is `NaN`) gives `0`. |
| `Rendering.GammaChannel` | src/main/Renderer.java:65-78 | The result is always a byte. With zero samples it gives the same byte as `writeColor`. |
| `Rendering.GammaOfSquare` | src/main/Renderer.java:71-78 | Gamma 2 undoes squaring: an average of `c^2` quantises exactly as `writeColor` quantises `c`. |
| `Rendering.GammaMonotone` | src/main/Renderer.java:71-78 | A brighter average never gives a smaller byte. |
| `Rendering.GammaChannelMonotone` | src/main/Renderer.java:65-78 | With samples present, a brighter sum never gives a smaller byte. |
| `Rendering.GammaBrightens` | src/main/Renderer.java:71-78 | For an average in `[0, 1]`, gamma correction never darkens compared with `writeColor`'s quantisation. |
| `Rendering.GammaChannelBrightens` | src/main/Renderer.java:65-78 | Per pixel channel with samples in `[0, 1]`, `render` writes a byte at least as large as `writeColor` prints. |
| `Rendering.ToneMap` | src/main/Renderer.java:65-78 | All three channels of a pixel are bytes. |
| `Rendering.Pack` | src/main/Renderer.java:82 | The packed pixel fits in 24 bits and equals `r * 65536 + g * 256 + b`. |
| `Rendering.UnpackPack` | src/main/Renderer.java:82 | Each channel reads back unchanged from the packed pixel. |
| `Rendering.PackUnpack` | src/main/Renderer.java:82 | Every 24-bit value is the packing of its own three bytes, so packing is a bijection onto 24-bit colours. |
| `Rendering.Shade` | src/main/Renderer.java:65-82 | Every image entry fits in 24 bits. |
| `Rendering.ImageRow` | src/main/Renderer.java:88 | The flipped row lies within the image. |
| `Rendering.ImageRowInvolution` | src/main/Renderer.java:88 | Flipping twice gives the original row, so the flip is a bijection. |
| `Rendering.ImageRowInjective` | src/main/Renderer.java:88 | Different scene rows land on different image rows. |
| `Rendering.Render` | src/main/Renderer.java:43-90 | The image is `height` rows of `width` entries. Entry `(y, i)` is the shaded sum of the samples of pixel `(i, height - 1 - y)`, so every pixel is written exactly once in its flipped row. |

## Findings

| source | as written | input that shows it | evidently intended | confidence | as-written member | corrected member |
|---|---|---|---|---|---|---|
| src/hittable/Plane.java:51-58 | `boundingBox()` is a slab `0.01` thick around the plane point's `y`, whatever the normal | the plane through the origin with normal `(1, 0, 0)`, and the ray from `(-1, 0.5, 0)` along `(1, 0, 0)`: the plane is hit at `t = 1`, but the ray misses the box, so a `BVHNode` over the plane reports no hit | a box that encloses the plane, as the method's comment says | medium; not executed | `Planes.BoxTestHidesHit`, `Hittables.AsWrittenPlaneNodeMisses`, `Bvh.AsWrittenBuildHidesPlane` | `Planes.EnclosingBox`, `Hittables.CorrectedPlaneNodeHits`, `Bvh.BuildHitsAsList` |

Under `AsWritten`, `Hittables.BoundingBox` is the Java box, and the BVH the
model builds with it is the Java tree. `Bvh.AsWrittenBuildHidesPlane` shows
that this tree misses a hit the list reports. Under `Corrected`, the plane's
box is `Planes.EnclosingBox`: the Java slab for horizontal planes and the
whole `1e9` cube for any other normal. `Bvh.BuildHitsAsList` proves that the
tree then hits exactly as the list does. With `AsWritten`, it proves the same
for scenes whose planes are all horizontal.

## Left out

- **Not modelled: I/O and the outer program.**
  - `Camera` and the camera rays: the camera class is not part of this model.
  - Image I/O (`BufferedImage`, `ImageIO`, `PrintStream`), progress printing and timing.
  - `Main.main` (`src/main/Main.java:66-125`), which sets up a fixed scene and writes a PPM.
- **Not modelled: floating point.** IEEE rounding, infinities other than the
  zero-sample case, `-0.0`, and the saturation of `(int)` casts outside the
  `int` range. The model computes over exact reals. The NaN and
  zero-sample paths that reach the output are modelled explicitly.
- **Random draws.** They are inputs rather than `Math.random()` or
  `java.util.Random`.
  - `Vectors.RandomInUnitSphere` samples a finite draw stream; the Java loop's unbounded retry is out of scope.
  - `Rendering.RayColor` takes one `Draw` per bounce. It requires at least `depth` draws.
- **Null references.**
  - A `null` box (an empty list) is `None`.
  - A BVH build requires every object of its range to have a box (the Java comparator would throw otherwise) and a non-empty range (an empty one recurses without end).
  - `Bvh.BuildFromList` requires a non-empty list for the same reason.
- **Dielectric index.** An index of `0` or `-1` would divide by zero, so
  `ValidIndex` excludes it; `ValidScene` requires it of every material.
- **`reflectance` argument.** `reflectance` is called with `refractionRatio`
  (`src/material/Dielectric.java:49`), not with the index, and the model
  follows the code.
- Sorting: `Double.compare` on `NaN` keys is not modelled. The model states what the Java stable sort produces on real keys.
- **Vectors.Refract**: no contract of its own; only its use by glass is stated, through `Scattering.ScatterDielectric`.
- **Hittables.ListClosest**: the closest-hit property is proved for lists whose members are spheres and planes, not for nested lists or BVH nodes.
- **Hittables.NodeNearer**: the nearer-of-two property needs a right child that is a sphere or plane.
- Bvh.BuildHitsAsList: states that the tree and the list agree on whether there is a hit and on its parameter, not that the records are equal. On a tie in `t`, the sort may reorder the objects, so the two can report different objects.
- Bvh.BuildHitsAsList: requires `tMin < tMax`. With `tMin >= tMax`, the Java slab test rejects every box, so the tree misses, while a plane can still report a hit at `t = tMin = tMax`.
- Bvh.BuildHitsAsList: does not cover spheres of negative radius, whose Java box is inverted and lets nothing through. Nor does it cover planes the ray meets outside the `1e9` cube, which no box of side `2e9` holds.
- Hittables.ListBox: a member without a box among two or more makes `AABB.surroundingBox` (src/hittable/AABB.java:41-53) throw a `NullPointerException` on the `null`; the model returns `None` instead.
- **Bvh.BuildSpanTwo**: the key comparison is stated for the two-object case; for larger ranges the order is given by `Bvh.SortRange`.
- **Rendering.Pack**: requires the channels to be bytes; only tone-mapped bytes reach it in the source.
- **Rendering.Render**: takes the per-pixel sample colours as a function instead of tracing camera rays. It allows zero width or height, which `BufferedImage` rejects.
- **Spheres.HitIsNearest**, **Spheres.HitOnSphere** and other `SqrtSound` lemmas hold only for a true square root. The operations themselves are total for any `sqrt`.
