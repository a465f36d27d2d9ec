/**
 * The integrator (`main/Renderer.java`, and the identical `rayColor` of
 * `main/Main.java`): the colour a ray brings back from the scene after at
 * most `depth` bounces, the sky behind everything, and the conversion of a
 * pixel's summed samples into a packed `0xRRGGBB` image entry.
 */
module Rendering {
  import opened Options
  import opened RealMath
  import opened Vectors
  import opened Rays
  import opened Materials
  import opened HitRecords
  import opened Scattering
  import opened Hittables
  import opened Colors

  // ---------------------------------------------------------------------------
  // Materials of a scene

  /** Every material some sphere or plane of the scene carries. */
  function SceneMaterials(h: Hittable): (ms: set<Material>)
    ensures h.SphereObject? ==> ms == {h.sphere.material}
    ensures h.PlaneObject? ==> ms == {h.plane.material}
    decreases h
  {
    match h
    case SphereObject(s) => {s.material}
    case PlaneObject(p) => {p.material}
    case List(objects) => ListMaterials(objects)
    case Node(left, right, _) => SceneMaterials(left) + SceneMaterials(right)
  }

  function ListMaterials(objects: seq<Hittable>): (ms: set<Material>)
    ensures |objects| == 0 ==> ms == {}
    decreases objects
  {
    if |objects| == 0 then {}
    else ListMaterials(objects[..|objects| - 1]) + SceneMaterials(objects[|objects| - 1])
  }

  /** Every record a scene reports carries one of the scene's own materials. */
  lemma {:induction false} HitMaterial(h: Hittable, r: Ray, tMin: real, tMax: Limit, f: Transcendentals)
    ensures var res := Hit(h, r, tMin, tMax, f);
      res.Some? ==> res.value.material in SceneMaterials(h)
    decreases h
  {
    match h
    case SphereObject(_) =>
    case PlaneObject(_) =>
    case List(objects) =>
      ListHitMaterial(objects, r, tMin, tMax, f);
    case Node(left, right, _) =>
      HitMaterial(left, r, tMin, tMax, f);
      HitMaterial(right, r, tMin, Closest(Hit(left, r, tMin, tMax, f), tMax), f);
  }

  lemma {:induction false} ListHitMaterial(objects: seq<Hittable>, r: Ray, tMin: real, tMax: Limit, f: Transcendentals)
    ensures var res := ListHit(objects, r, tMin, tMax, f);
      res.Some? ==> res.value.material in ListMaterials(objects)
    decreases objects
  {
    if |objects| > 0 {
      var n := |objects|;
      var previous := ListHit(objects[..n - 1], r, tMin, tMax, f);
      ListHitMaterial(objects[..n - 1], r, tMin, tMax, f);
      HitMaterial(objects[n - 1], r, tMin, Closest(previous, tMax), f);
    }
  }

  /** A scene whose every material can scatter without dividing by zero. */
  predicate ValidScene(world: Hittable) {
    forall m :: m in SceneMaterials(world) ==> ValidMaterial(m)
  }

  /** A valid material whose colours all lie in the unit cube, so it never amplifies light. */
  predicate Physical(m: Material) {
    ValidMaterial(m) &&
    match m
    case Lambertian(albedo) => InUnitCube(albedo)
    case Metal(albedo, _) => InUnitCube(albedo)
    case Dielectric(_) => true
    case Checker(odd, even) => InUnitCube(odd) && InUnitCube(even)
    case WoodChecker(light, dark, _) => InUnitCube(light) && InUnitCube(dark)
    case MarbleTiles(white, grey, _) => InUnitCube(white) && InUnitCube(grey)
    case Debug => true
  }

  predicate PhysicalScene(world: Hittable) {
    forall m :: m in SceneMaterials(world) ==> Physical(m)
  }

  /** A physical material attenuates: its attenuation lies in the unit cube. */
  lemma AttenuationInUnitCube(m: Material, rIn: Ray, rec: HitRecord, d: Draw, f: Transcendentals)
    requires Physical(m)
    ensures InUnitCube(Scatter(m, rIn, rec, d, f).attenuation)
  {
    match m
    case Lambertian(_) =>
    case Metal(_, _) =>
    case Dielectric(_) =>
    case Checker(odd, even) =>
      assert Scatter(m, rIn, rec, d, f).attenuation == CheckerColour(odd, even, f, rec.p);
    case WoodChecker(light, dark, fuzz) =>
      assert Scatter(m, rIn, rec, d, f).attenuation == WoodColour(light, dark, f, rec.p);
    case MarbleTiles(white, grey, fuzz) =>
      assert Scatter(m, rIn, rec, d, f).attenuation == MarbleColour(white, grey, f, rec.p);
    case Debug =>
  }

  // ---------------------------------------------------------------------------
  // The sky

  const White: Vec3 := Vec3(1.0, 1.0, 1.0)
  const SkyBlue: Vec3 := Vec3(0.5, 0.7, 1.0)

  /** `t = 0.5 * (unitDirection.y + 1.0)`: 0 looking straight down, 1 straight up. */
  function SkyBlend(direction: Vec3, f: Transcendentals): real {
    0.5 * (Normalize(direction, f).y + 1.0)
  }

  /** `white.scale(1.0 - t).add(blue.scale(t))`: the background a ray that misses sees. */
  function Sky(direction: Vec3, f: Transcendentals): (c: Vec3)
    ensures c.z == 1.0
  {
    var t := SkyBlend(direction, f);
    Vectors.Add(Scale(White, 1.0 - t), Scale(SkyBlue, t))
  }

  /** With a sound `sqrt` the blend lies in `[0, 1]`. */
  lemma SkyBlendInRange(direction: Vec3, f: Transcendentals)
    requires SqrtSound(f)
    ensures 0.0 <= SkyBlend(direction, f) <= 1.0
  {
    if direction != Zero {
      NormalizeUnit(direction, f);
      UnitComponents(Normalize(direction, f));
    }
  }

  /** The sky colour lies componentwise between sky blue and white. */
  lemma SkyBetween(direction: Vec3, f: Transcendentals)
    requires SqrtSound(f)
    ensures var c := Sky(direction, f);
      SkyBlue.x <= c.x <= White.x && SkyBlue.y <= c.y <= White.y && c.z == SkyBlue.z == White.z
  {
    SkyBlendInRange(direction, f);
  }

  /** Straight up the sky is sky blue, straight down it is white. */
  lemma SkyZenithAndNadir(height: real, f: Transcendentals)
    requires SqrtSound(f) && height != 0.0
    ensures 0.0 < height ==> Sky(Vec3(0.0, height, 0.0), f) == SkyBlue
    ensures height < 0.0 ==> Sky(Vec3(0.0, height, 0.0), f) == White
  {
    var v := Vec3(0.0, height, 0.0);
    NormalizeUnit(v, f);
    var len := Length(v, f);
    assert len * len == Abs(height) * Abs(height);
    SquareRootUnique(len, Abs(height));
  }

  // ---------------------------------------------------------------------------
  // rayColor

  /** `world.hit(ray, 0.001, Double.POSITIVE_INFINITY, rec)`: hits closer than `0.001` are ignored. */
  const ShadowAcne: real := 0.001

  /**
   * `rayColor(ray, world, depth)`. `draws` holds the random inputs of the
   * bounces still to come, one per level of recursion.
   */
  function RayColor(world: Hittable, r: Ray, depth: int, draws: seq<Draw>, f: Transcendentals): (c: Vec3)
    requires ValidScene(world) && depth <= |draws|
    ensures depth <= 0 ==> c == Zero
    ensures 0 < depth && Hit(world, r, ShadowAcne, Infinite, f).None? ==> c == Sky(r.direction, f)
    decreases depth
  {
    if depth <= 0 then Zero
    else
      var hit := Hit(world, r, ShadowAcne, Infinite, f);
      if hit.None? then Sky(r.direction, f)
      else
        HitMaterial(world, r, ShadowAcne, Infinite, f);
        var rec := hit.value;
        var s := Scatter(rec.material, r, rec, draws[0], f);
        if s.scattered then Multiply(s.attenuation, RayColor(world, s.ray, depth - 1, draws[1..], f))
        else Zero
  }

  /**
   * A ray that hits something is black when the material absorbs it, and
   * otherwise the material's attenuation times what the scattered ray,
   * leaving from the hit point, brings back with one bounce less.
   */
  lemma RayColorBounce(world: Hittable, r: Ray, depth: int, draws: seq<Draw>, f: Transcendentals)
    requires ValidScene(world) && 0 < depth <= |draws|
    requires Hit(world, r, ShadowAcne, Infinite, f).Some?
    ensures var rec := Hit(world, r, ShadowAcne, Infinite, f).value;
      ValidMaterial(rec.material) &&
      var s := Scatter(rec.material, r, rec, draws[0], f);
      s.ray.origin == rec.p &&
      (!s.scattered ==> RayColor(world, r, depth, draws, f) == Zero) &&
      (s.scattered ==> RayColor(world, r, depth, draws, f) ==
                         Multiply(s.attenuation, RayColor(world, s.ray, depth - 1, draws[1..], f)))
  {
    HitMaterial(world, r, ShadowAcne, Infinite, f);
  }

  /** In an empty scene every ray sees the sky. */
  lemma EmptySceneShowsSky(r: Ray, depth: int, draws: seq<Draw>, f: Transcendentals)
    requires 0 < depth <= |draws|
    ensures ValidScene(List([])) && RayColor(List([]), r, depth, draws, f) == Sky(r.direction, f)
  {
    EmptyListMisses(r, ShadowAcne, Infinite, f);
  }

  /** A ray that still hits something on its last allowed bounce brings back no light. */
  lemma LastBounceIsDark(world: Hittable, r: Ray, draws: seq<Draw>, f: Transcendentals)
    requires ValidScene(world) && 1 <= |draws|
    requires Hit(world, r, ShadowAcne, Infinite, f).Some?
    ensures RayColor(world, r, 1, draws, f) == Zero
  {
    RayColorBounce(world, r, 1, draws, f);
    var rec := Hit(world, r, ShadowAcne, Infinite, f).value;
    var s := Scatter(rec.material, r, rec, draws[0], f);
    MultiplyByZero(s.attenuation, RayColor(world, s.ray, 0, draws[1..], f));
  }

  lemma MultiplyByZero(a: Vec3, b: Vec3)
    requires b == Zero
    ensures Multiply(a, b) == Zero
  {
  }

  /**
   * Light is never amplified: with a sound `sqrt` and physical materials
   * every channel of the returned colour lies in `[0, 1]`.
   */
  lemma {:induction false} RayColorInUnitCube(world: Hittable, r: Ray, depth: int, draws: seq<Draw>, f: Transcendentals)
    requires SqrtSound(f) && PhysicalScene(world) && depth <= |draws|
    ensures ValidScene(world) && InUnitCube(RayColor(world, r, depth, draws, f))
    decreases depth
  {
    assert ValidScene(world);
    if 0 < depth {
      var hit := Hit(world, r, ShadowAcne, Infinite, f);
      if hit.None? {
        SkyBetween(r.direction, f);
      } else {
        var rec := hit.value;
        RayColorBounce(world, r, depth, draws, f);
        HitMaterial(world, r, ShadowAcne, Infinite, f);
        var s := Scatter(rec.material, r, rec, draws[0], f);
        if s.scattered {
          AttenuationInUnitCube(rec.material, r, rec, draws[0], f);
          RayColorInUnitCube(world, s.ray, depth - 1, draws[1..], f);
          MultiplyInUnitCube(s.attenuation, RayColor(world, s.ray, depth - 1, draws[1..], f));
        }
      }
    }
  }

  lemma MultiplyInUnitCube(a: Vec3, b: Vec3)
    requires InUnitCube(a) && InUnitCube(b)
    ensures InUnitCube(Multiply(a, b))
  {
    UnitProduct(a.x, b.x);
    UnitProduct(a.y, b.y);
    UnitProduct(a.z, b.z);
  }

  lemma UnitProduct(x: real, y: real)
    requires 0.0 <= x <= 1.0 && 0.0 <= y <= 1.0
    ensures 0.0 <= x * y <= 1.0
  {
    NonnegMul(x, y);
    MulLeMono(x, 1.0, y);
  }

  /** Seen through glass, a scene looks like what lies behind the glass. */
  lemma GlassPassesLight(world: Hittable, r: Ray, depth: int, draws: seq<Draw>, f: Transcendentals)
    requires ValidScene(world) && 0 < depth <= |draws|
    requires Hit(world, r, ShadowAcne, Infinite, f).Some?
    requires Hit(world, r, ShadowAcne, Infinite, f).value.material.Dielectric?
    ensures var rec := Hit(world, r, ShadowAcne, Infinite, f).value;
      ValidMaterial(rec.material) &&
      var s := Scatter(rec.material, r, rec, draws[0], f);
      RayColor(world, r, depth, draws, f) == RayColor(world, s.ray, depth - 1, draws[1..], f)
  {
    var rec := Hit(world, r, ShadowAcne, Infinite, f).value;
    RayColorBounce(world, r, depth, draws, f);
    var s := Scatter(rec.material, r, rec, draws[0], f);
    GlassIsClear(rec.material.ir, r, rec, draws[0], f, RayColor(world, s.ray, depth - 1, draws[1..], f));
  }

  /** `Main.rayColor`, written out separately in the source with the same steps. */
  function MainRayColor(world: Hittable, r: Ray, depth: int, draws: seq<Draw>, f: Transcendentals): (c: Vec3)
    requires ValidScene(world) && depth <= |draws|
    ensures depth <= 0 ==> c == Zero
    decreases depth
  {
    if depth <= 0 then Zero
    else
      var hit := Hit(world, r, ShadowAcne, Infinite, f);
      if hit.Some? then
        HitMaterial(world, r, ShadowAcne, Infinite, f);
        var rec := hit.value;
        var s := Scatter(rec.material, r, rec, draws[0], f);
        if s.scattered then
          Multiply(s.attenuation, MainRayColor(world, s.ray, depth - 1, draws[1..], f))
        else Zero
      else
        var unit := Normalize(r.direction, f);
        var t := 0.5 * (unit.y + 1.0);
        Vectors.Add(Scale(White, 1.0 - t), Scale(SkyBlue, t))
  }

  /** The two copies of `rayColor` compute the same colour for every ray. */
  lemma {:induction false} MainMatchesRenderer(world: Hittable, r: Ray, depth: int, draws: seq<Draw>, f: Transcendentals)
    requires ValidScene(world) && depth <= |draws|
    ensures MainRayColor(world, r, depth, draws, f) == RayColor(world, r, depth, draws, f)
    decreases depth
  {
    if 0 < depth {
      var hit := Hit(world, r, ShadowAcne, Infinite, f);
      if hit.Some? {
        HitMaterial(world, r, ShadowAcne, Infinite, f);
        var rec := hit.value;
        var s := Scatter(rec.material, r, rec, draws[0], f);
        if s.scattered {
          MainMatchesRenderer(world, s.ray, depth - 1, draws[1..], f);
        }
      }
    }
  }

  // ---------------------------------------------------------------------------
  // From samples to an image entry

  /** `pixelColor = pixelColor.add(rayColor(...))` over the samples of one pixel. */
  function SampleSum(samples: seq<Vec3>): (sum: Vec3)
    ensures |samples| == 0 ==> sum == Zero
  {
    if |samples| == 0 then Zero
    else Vectors.Add(SampleSum(samples[..|samples| - 1]), samples[|samples| - 1])
  }

  /** Samples in the unit cube sum to at most their number in every channel. */
  lemma {:induction false} SampleSumBound(samples: seq<Vec3>)
    requires forall k :: 0 <= k < |samples| ==> InUnitCube(samples[k])
    ensures var sum := SampleSum(samples); var n := |samples| as real;
      0.0 <= sum.x <= n && 0.0 <= sum.y <= n && 0.0 <= sum.z <= n
  {
    if |samples| > 0 {
      SampleSumBound(samples[..|samples| - 1]);
    }
  }

  /** `Math.sqrt` is monotone on the non-negative reals when it is a square root. */
  lemma SqrtMonotone(f: Transcendentals, a: real, b: real)
    requires SqrtSound(f) && 0.0 <= a <= b
    ensures f.sqrt(a) <= f.sqrt(b)
  {
    var sa, sb := f.sqrt(a), f.sqrt(b);
    assert sa * sa == a && sb * sb == b && 0.0 <= sb;
    if sb < sa {
      SquareLtMono(sb, sa);
    }
  }

  /**
   * Gamma 2 and quantisation of one averaged channel: `Math.sqrt`, then
   * `(int) (256 * clamp(v, 0.0, 0.999))`. A negative average has a `NaN`
   * square root, which passes the clamp unchanged and casts to 0.
   */
  function GammaByte(average: real, f: Transcendentals): (n: int)
    ensures IsByte(n)
    ensures average < 0.0 ==> n == 0
  {
    if average < 0.0 then 0 else ChannelByte(f.sqrt(average))
  }

  /**
   * One channel of steps A to C of `render`: `sum / samplesPerPixel`, then
   * `GammaByte`. With no samples the division by zero gives the same bytes
   * as in `ScaledChannel` (a square root of `+Infinity` stays infinite, one
   * of `NaN` or `-Infinity` is `NaN`).
   */
  function GammaChannel(sum: real, samplesPerPixel: int, f: Transcendentals): (n: int)
    ensures IsByte(n)
    ensures samplesPerPixel == 0 ==> n == ScaledChannel(sum, samplesPerPixel)
  {
    if samplesPerPixel == 0 then
      if 0.0 < sum then 255 else 0
    else
      GammaByte(sum / samplesPerPixel as real, f)
  }

  /**
   * Gamma 2 undoes squaring: an average of `c^2` quantises like `c` itself
   * (so, by `ChannelOfByte`, an average of `(k / 256)^2` gets byte `k`).
   */
  lemma GammaOfSquare(c: real, f: Transcendentals)
    requires SqrtSound(f) && 0.0 <= c
    ensures GammaByte(c * c, f) == ChannelByte(c)
  {
    SqrtOfSquare(f, c);
    GammaOfRoot(c * c, c, f);
  }

  lemma GammaOfRoot(average: real, root: real, f: Transcendentals)
    requires 0.0 <= average && f.sqrt(average) == root
    ensures GammaByte(average, f) == ChannelByte(root)
  {
  }

  lemma SqrtOfSquare(f: Transcendentals, c: real)
    requires SqrtSound(f) && 0.0 <= c
    ensures 0.0 <= c * c && f.sqrt(c * c) == c
  {
    SquareNonneg(c);
    SquareRootUnique(f.sqrt(c * c), c);
  }

  /** With a sound `sqrt`, a brighter average never gives a smaller byte. */
  lemma GammaMonotone(a1: real, a2: real, f: Transcendentals)
    requires SqrtSound(f) && a1 <= a2
    ensures GammaByte(a1, f) <= GammaByte(a2, f)
  {
    if 0.0 <= a1 {
      SqrtMonotone(f, a1, a2);
      ChannelMonotone(f.sqrt(a1), f.sqrt(a2));
    }
  }

  /** With a sound `sqrt` and samples present, a brighter sum never gives a smaller byte. */
  lemma GammaChannelMonotone(sum1: real, sum2: real, samplesPerPixel: int, f: Transcendentals)
    requires SqrtSound(f) && 0 < samplesPerPixel && sum1 <= sum2
    ensures GammaChannel(sum1, samplesPerPixel, f) <= GammaChannel(sum2, samplesPerPixel, f)
  {
    var n := samplesPerPixel as real;
    DivideMonotone(sum1, sum2, n);
    GammaMonotone(sum1 / n, sum2 / n, f);
  }

  lemma DivideMonotone(x: real, y: real, n: real)
    requires x <= y && 0.0 < n
    ensures x / n <= y / n
  {
  }

  /**
   * Gamma correction only brightens: for an average in `[0, 1]` the
   * renderer's byte is at least the one `writeColor` prints.
   */
  lemma GammaBrightens(average: real, f: Transcendentals)
    requires SqrtSound(f) && 0.0 <= average <= 1.0
    ensures ChannelByte(average) <= GammaByte(average, f)
  {
    var s := f.sqrt(average);
    assert s * s == average && 0.0 <= s;
    RootAtLeastSquare(s);
    ChannelMonotone(average, s);
  }

  /** The same for a whole pixel channel: samples in `[0, 1]` come out at least as bright as `writeColor`'s. */
  lemma GammaChannelBrightens(sum: real, samplesPerPixel: int, f: Transcendentals)
    requires SqrtSound(f) && 0 < samplesPerPixel && 0.0 <= sum <= samplesPerPixel as real
    ensures ScaledChannel(sum, samplesPerPixel) <= GammaChannel(sum, samplesPerPixel, f)
  {
    var n := samplesPerPixel as real;
    var a := sum / n;
    AverageInUnit(sum, n);
    GammaBrightens(a, f);
    ScaledIsAverage(sum, samplesPerPixel);
  }

  lemma ScaledIsAverage(sum: real, samplesPerPixel: int)
    requires 0 < samplesPerPixel
    ensures ScaledChannel(sum, samplesPerPixel) == ChannelByte(sum / samplesPerPixel as real)
  {
    var n := samplesPerPixel as real;
    assert sum * (1.0 / n) == sum / n;
  }

  lemma AverageInUnit(sum: real, n: real)
    requires 0.0 < n && 0.0 <= sum <= n
    ensures 0.0 <= sum / n <= 1.0
  {
    var a := sum / n;
    assert a * n == sum;
    if a < 0.0 {
      MulLtMono(a, 0.0, n);
    }
    if 1.0 < a {
      MulLtMono(1.0, a, n);
    }
  }

  lemma RootAtLeastSquare(s: real)
    requires 0.0 <= s && s * s <= 1.0
    ensures s * s <= s
  {
    if 1.0 < s {
      MulLtMono(1.0, s, s);
    }
    MulLeMono(s, 1.0, s);
  }

  /** Steps A to C of `render`: the three bytes of one pixel. */
  function ToneMap(sum: Vec3, samplesPerPixel: int, f: Transcendentals): (c: Rgb)
    ensures AllBytes(c)
  {
    Rgb(GammaChannel(sum.x, samplesPerPixel, f),
        GammaChannel(sum.y, samplesPerPixel, f),
        GammaChannel(sum.z, samplesPerPixel, f))
  }

  /** `(ir << 16) | (ig << 8) | ib` on Java's 32-bit `int`. */
  function Pack(c: Rgb): (rgb: bv32)
    requires AllBytes(c)
    ensures rgb < 0x100_0000
    ensures rgb == (c.r as bv32) * 0x1_0000 + (c.g as bv32) * 0x100 + (c.b as bv32)
  {
    ((c.r as bv32) << 16) | ((c.g as bv32) << 8) | (c.b as bv32)
  }

  /** The channels of a packed pixel, as `java.awt.Color` reads them back. */
  function Red(rgb: bv32): bv32 { (rgb >> 16) & 0xFF }
  function Green(rgb: bv32): bv32 { (rgb >> 8) & 0xFF }
  function Blue(rgb: bv32): bv32 { rgb & 0xFF }

  /** Packing loses nothing: each channel reads back unchanged. */
  lemma UnpackPack(c: Rgb)
    requires AllBytes(c)
    ensures Red(Pack(c)) == c.r as bv32 && Green(Pack(c)) == c.g as bv32 && Blue(Pack(c)) == c.b as bv32
  {
  }

  /** Every 24-bit colour is the packing of its own channels. */
  lemma PackUnpack(rgb: bv32)
    requires rgb < 0x100_0000
    ensures var c := Rgb(Red(rgb) as int, Green(rgb) as int, Blue(rgb) as int);
      AllBytes(c) && Pack(c) == rgb
  {
    ByteRoundTrip(Red(rgb));
    ByteRoundTrip(Green(rgb));
    ByteRoundTrip(Blue(rgb));
  }

  lemma ByteRoundTrip(x: bv32)
    requires x < 256
    ensures 0 <= x as int <= 255 && (x as int) as bv32 == x
  {
  }

  /** The image entry of a pixel whose samples sum to `sum`. */
  function Shade(sum: Vec3, samplesPerPixel: int, f: Transcendentals): (rgb: bv32)
    ensures rgb < 0x100_0000
  {
    Pack(ToneMap(sum, samplesPerPixel, f))
  }

  // ---------------------------------------------------------------------------
  // Image layout

  /**
   * `imageHeight - 1 - j`: the scene's rows count up from the bottom, the
   * image's rows count down from the top.
   */
  function ImageRow(height: int, j: int): (y: int)
    requires 0 <= j < height
    ensures 0 <= y < height
  {
    height - 1 - j
  }

  /** Flipping twice is the identity, so the flip is a bijection of the rows. */
  lemma ImageRowInvolution(height: int, j: int)
    requires 0 <= j < height
    ensures ImageRow(height, ImageRow(height, j)) == j
  {
  }

  /** Different scene rows land on different image rows. */
  lemma ImageRowInjective(height: int, j1: int, j2: int)
    requires 0 <= j1 < height && 0 <= j2 < height && j1 != j2
    ensures ImageRow(height, j1) != ImageRow(height, j2)
  {
  }

  /**
   * `render`'s pixel loops: `samples(i, j)` are the colours `rayColor`
   * returned for the camera rays through pixel `(i, j)` (scene row `j`
   * counted from the bottom), and the image is filled top row first from
   * the highest scene row down. Every entry of the finished image is the
   * shaded pixel of the flipped row.
   */
  method Render(width: nat, height: nat, samplesPerPixel: int, samples: (int, int) -> seq<Vec3>, f: Transcendentals)
    returns (image: seq<seq<bv32>>)
    ensures |image| == height
    ensures forall y :: 0 <= y < height ==> |image[y]| == width
    ensures forall y, i :: 0 <= y < height && 0 <= i < width ==>
      image[y][i] == Shade(SampleSum(samples(i, ImageRow(height, y))), samplesPerPixel, f)
  {
    image := seq(height, _ => seq(width, _ => 0 as bv32));
    var j := height - 1;
    while j >= 0
      invariant -1 <= j < height
      invariant |image| == height
      invariant forall y :: 0 <= y < height ==> |image[y]| == width
      invariant forall y, i :: 0 <= y < height - 1 - j && 0 <= i < width ==>
        image[y][i] == Shade(SampleSum(samples(i, ImageRow(height, y))), samplesPerPixel, f)
    {
      var y := ImageRow(height, j);
      var row := image[y];
      var i := 0;
      while i < width
        invariant 0 <= i <= width && |row| == width
        invariant forall k :: 0 <= k < i ==> row[k] == Shade(SampleSum(samples(k, j)), samplesPerPixel, f)
      {
        row := row[i := Shade(SampleSum(samples(i, j)), samplesPerPixel, f)];
        i := i + 1;
      }
      image := image[y := row];
      j := j - 1;
    }
  }
}
