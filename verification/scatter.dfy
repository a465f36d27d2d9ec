/**
 * `Material.scatter` for every material. The Java methods fill a `Wrapper`
 * with the scattered ray and the attenuation and return whether the ray
 * scattered; here they are pure functions returning all three. The random
 * unit-sphere sample and the `Math.random()` draw of a bounce are inputs
 * (`Draw`), and so are `Math.sqrt` and `Math.sin` (`Transcendentals`).
 */
module Scattering {
  import opened RealMath
  import opened Vectors
  import opened Rays
  import opened Materials
  import opened HitRecords

  /** The random inputs of one bounce: `Vec3.randomInUnitSphere()` and `Math.random()`. */
  datatype Draw = Draw(sample: Vec3, u: real)

  /** The boolean `scatter` returns and the two `Wrapper` fields it sets. */
  datatype ScatterResult = ScatterResult(scattered: bool, attenuation: Vec3, ray: Ray)

  // ---------------------------------------------------------------------------
  // Lambertian

  /** `Lambertian.nearZero`, the material's private copy of the near-zero test. */
  predicate LambertianNearZero(v: Vec3) {
    var s := 0.00000001;
    Abs(v.x) < s && Abs(v.y) < s && Abs(v.z) < s
  }

  /** The private test is the same as `Vec3.nearZero`. */
  lemma LambertianNearZeroAgrees(v: Vec3)
    ensures LambertianNearZero(v) <==> NearZero(v)
  {
  }

  /**
   * Diffuse scattering: the normal plus the sample, or the bare normal when
   * that sum degenerates; the ray always scatters with the albedo.
   */
  function ScatterLambertian(albedo: Vec3, rec: HitRecord, sample: Vec3): (s: ScatterResult)
    ensures s.scattered && s.attenuation == albedo && s.ray.origin == rec.p
    ensures LambertianNearZero(Add(rec.normal, sample)) ==> s.ray.direction == rec.normal
    ensures !LambertianNearZero(Add(rec.normal, sample)) ==> s.ray.direction == Add(rec.normal, sample)
  {
    var direction := Add(rec.normal, sample);
    ScatterResult(true, albedo, Ray(rec.p, if LambertianNearZero(direction) then rec.normal else direction))
  }

  /**
   * With a unit normal and a sample from inside the unit ball, the diffuse
   * direction is never degenerate and points into the normal's hemisphere.
   */
  lemma LambertianDirection(albedo: Vec3, rec: HitRecord, sample: Vec3)
    requires LengthSquared(rec.normal) == 1.0 && LengthSquared(sample) < 1.0
    ensures !NearZero(ScatterLambertian(albedo, rec, sample).ray.direction)
    ensures 0.0 < Dot(ScatterLambertian(albedo, rec, sample).ray.direction, rec.normal)
  {
    var n := rec.normal;
    var sum := Add(n, sample);
    UnitNotNearZero(n);
    LengthSquaredIsDot(n);
    DotAdd(n, sample, n);
    BallDotBound(sample, n);
    if LambertianNearZero(sum) {
      assert Dot(n, n) == 1.0;
    } else {
      assert Dot(sum, n) == Dot(n, n) + Dot(sample, n);
    }
  }

  /** A vector from the open unit ball has a dot product above `-1` with a unit vector. */
  lemma BallDotBound(s: Vec3, n: Vec3)
    requires LengthSquared(n) == 1.0 && LengthSquared(s) < 1.0
    ensures -1.0 < Dot(s, n)
  {
    CauchySchwarz(s, n);
    var d := Dot(s, n);
    var ls := LengthSquared(s);
    assert ls * LengthSquared(n) == ls;
    SquareNonneg(d);
    SquareBoundStrict(d, 1.0);
  }

  // ---------------------------------------------------------------------------
  // Metal and the two reflective patterned materials

  /** The fuzzy mirror direction: `reflect(normalize(dir), normal) + sample * fuzz`. */
  function FuzzyReflect(rIn: Ray, normal: Vec3, sample: Vec3, fuzz: real, f: Transcendentals): Vec3 {
    Add(Reflect(Normalize(rIn.direction, f), normal), Scale(sample, fuzz))
  }

  /** Reflects with the albedo and keeps the ray only when it leaves above the surface. */
  function ScatterMetal(albedo: Vec3, fuzz: real, rIn: Ray, rec: HitRecord, sample: Vec3, f: Transcendentals): (s: ScatterResult)
    ensures s.attenuation == albedo && s.ray.origin == rec.p
    ensures s.ray.direction == FuzzyReflect(rIn, rec.normal, sample, fuzz, f)
    ensures s.scattered <==> 0.0 < Dot(s.ray.direction, rec.normal)
  {
    var direction := FuzzyReflect(rIn, rec.normal, sample, fuzz, f);
    ScatterResult(0.0 < Dot(direction, rec.normal), albedo, Ray(rec.p, direction))
  }

  /**
   * A perfect mirror (fuzz 0) hit from the side its unit normal faces always
   * scatters: the reflection leaves at the angle it arrived.
   */
  lemma MirrorScatters(albedo: Vec3, rIn: Ray, rec: HitRecord, sample: Vec3, f: Transcendentals)
    requires SqrtSound(f) && Dot(rec.normal, rec.normal) == 1.0
    requires Dot(rIn.direction, rec.normal) < 0.0
    ensures ScatterMetal(albedo, 0.0, rIn, rec, sample, f).scattered
  {
    var n := rec.normal;
    var d := rIn.direction;
    assert d != Zero;
    var unit := Normalize(d, f);
    NormalizeUnit(d, f);
    var k := 1.0 / Length(d, f);
    DotScale(d, k, n);
    ReciprocalSign(Length(d, f));
    MulSignSplit(Dot(d, n), k);
    assert Dot(d, n) * k == k * Dot(d, n);
    assert Scale(sample, 0.0) == Zero;
    assert FuzzyReflect(rIn, n, sample, 0.0, f) == Reflect(unit, n);
  }

  /** `WoodCheckerMaterial`: light wood where the sine pattern is negative, dark wood elsewhere. */
  function WoodColour(light: Vec3, dark: Vec3, f: Transcendentals, p: Vec3): (c: Vec3)
    ensures Sines(f, 4.0, p) < 0.0 ==> c == light
    ensures !(Sines(f, 4.0, p) < 0.0) ==> c == dark
  {
    if Sines(f, 4.0, p) < 0.0 then light else dark
  }

  /** `MarbleTiles`: white where the sine pattern is negative, grey elsewhere. */
  function MarbleColour(white: Vec3, grey: Vec3, f: Transcendentals, p: Vec3): (c: Vec3)
    ensures Sines(f, 5.0, p) < 0.0 ==> c == white
    ensures !(Sines(f, 5.0, p) < 0.0) ==> c == grey
  {
    if Sines(f, 5.0, p) < 0.0 then white else grey
  }

  // ---------------------------------------------------------------------------
  // Dielectric

  /** `1/ir` entering through the front face, `ir` leaving through the back. */
  function RefractionRatio(frontFace: bool, ir: real): (ratio: real)
    requires ValidIndex(ir)
    ensures frontFace ==> ratio * ir == 1.0
    ensures !frontFace ==> ratio == ir
    ensures ratio != -1.0 && ratio != 0.0
  {
    if frontFace then
      assert (1.0 / ir) * ir == 1.0;
      1.0 / ir
    else ir
  }

  /** `min(-unit . normal, 1)` */
  function CosTheta(unit: Vec3, normal: Vec3): (c: real)
    ensures c <= 1.0
    ensures c == 1.0 || c == -Dot(unit, normal)
  {
    Negated(normal, unit);
    DotSymmetric(normal, Scale(unit, -1.0));
    DotSymmetric(normal, unit);
    Min(Dot(Scale(unit, -1.0), normal), 1.0)
  }

  /** `sqrt(|1 - cos^2|)` */
  function SinTheta(f: Transcendentals, cosTheta: real): real {
    f.sqrt(Abs(1.0 - cosTheta * cosTheta))
  }

  /** Total internal reflection: Snell's law has no solution. */
  predicate CannotRefract(ratio: real, sinTheta: real) {
    ratio * sinTheta > 1.0
  }

  /**
   * Glass: reflect when refraction is impossible or when the Schlick
   * reflectance beats the random draw, otherwise refract; the ray always
   * scatters and is never tinted.
   */
  function ScatterDielectric(ir: real, rIn: Ray, rec: HitRecord, u: real, f: Transcendentals): (s: ScatterResult)
    requires ValidIndex(ir)
    ensures s.scattered && s.attenuation == Vec3(1.0, 1.0, 1.0) && s.ray.origin == rec.p
    ensures var unit := Normalize(rIn.direction, f);
      var ratio := RefractionRatio(rec.frontFace, ir);
      var cos := CosTheta(unit, rec.normal);
      (CannotRefract(ratio, SinTheta(f, cos)) ==> s.ray.direction == Reflect(unit, rec.normal)) &&
      (!CannotRefract(ratio, SinTheta(f, cos)) && Reflectance(cos, ratio) > u ==> s.ray.direction == Reflect(unit, rec.normal)) &&
      (!CannotRefract(ratio, SinTheta(f, cos)) && !(Reflectance(cos, ratio) > u) ==> s.ray.direction == Refract(unit, rec.normal, ratio, f))
  {
    var ratio := RefractionRatio(rec.frontFace, ir);
    var unit := Normalize(rIn.direction, f);
    var cos := CosTheta(unit, rec.normal);
    var direction :=
      if CannotRefract(ratio, SinTheta(f, cos)) || Reflectance(cos, ratio) > u then Reflect(unit, rec.normal)
      else Refract(unit, rec.normal, ratio, f);
    ScatterResult(true, Vec3(1.0, 1.0, 1.0), Ray(rec.p, direction))
  }

  /** Between two unit vectors the incidence cosine lies in `[-1, 1]`. */
  lemma CosThetaRange(unit: Vec3, normal: Vec3)
    requires LengthSquared(unit) == 1.0 && LengthSquared(normal) == 1.0
    ensures -1.0 <= CosTheta(unit, normal) <= 1.0
  {
    CauchySchwarz(unit, normal);
    var d := Dot(unit, normal);
    assert LengthSquared(unit) * LengthSquared(normal) == 1.0;
    SquareBound(d, 1.0);
  }

  /** For a cosine in `[-1, 1]` and a sound square root the sine lies in `[0, 1]`. */
  lemma SinThetaRange(f: Transcendentals, cosTheta: real)
    requires SqrtSound(f) && -1.0 <= cosTheta <= 1.0
    ensures 0.0 <= SinTheta(f, cosTheta) <= 1.0
  {
    var c2 := cosTheta * cosTheta;
    SquareNonneg(cosTheta);
    if cosTheta < 0.0 {
      MulUnitInterval(-cosTheta, -cosTheta);
      assert (-cosTheta) * (-cosTheta) == c2;
    } else {
      MulUnitInterval(cosTheta, cosTheta);
    }
    var x := Abs(1.0 - c2);
    assert 0.0 <= x <= 1.0;
    var s := f.sqrt(x);
    assert 0.0 <= s && s * s == x;
    if 1.0 < s {
      SquareLtMono(1.0, s);
    }
  }

  /**
   * Entering an optically denser medium (`ir >= 1`) through the front face
   * never meets total internal reflection.
   */
  lemma EnteringNeverTotallyReflects(ir: real, rIn: Ray, rec: HitRecord, f: Transcendentals)
    requires 1.0 <= ir && rec.frontFace
    requires SqrtSound(f) && rIn.direction != Zero && LengthSquared(rec.normal) == 1.0
    ensures var unit := Normalize(rIn.direction, f);
      !CannotRefract(RefractionRatio(true, ir), SinTheta(f, CosTheta(unit, rec.normal)))
  {
    var unit := Normalize(rIn.direction, f);
    NormalizeUnit(rIn.direction, f);
    CosThetaRange(unit, rec.normal);
    ReciprocalAtMostOne(ir);
    NoTotalReflection(RefractionRatio(true, ir), CosTheta(unit, rec.normal), f);
  }

  /**
   * At grazing incidence (`cos = 0`, so `sin = 1`) any ratio above one makes
   * refraction impossible.
   */
  lemma GrazingTotallyReflects(ratio: real, f: Transcendentals)
    requires SqrtSound(f) && 1.0 < ratio
    ensures CannotRefract(ratio, SinTheta(f, 0.0))
  {
    SquareRootUnique(f.sqrt(1.0), 1.0);
  }

  /**
   * Leaving glass of index above one (`ratio = ir`) at grazing incidence,
   * the ray is reflected whatever the random draw.
   */
  lemma GrazingExitReflects(ir: real, rIn: Ray, rec: HitRecord, u: real, f: Transcendentals)
    requires ValidIndex(ir) && 1.0 < ir && !rec.frontFace && SqrtSound(f)
    requires CosTheta(Normalize(rIn.direction, f), rec.normal) == 0.0
    ensures ScatterDielectric(ir, rIn, rec, u, f).ray.direction == Reflect(Normalize(rIn.direction, f), rec.normal)
  {
    GrazingTotallyReflects(RefractionRatio(false, ir), f);
  }

  /** A ratio in `(0, 1]` cannot push `ratio * sin` above one. */
  lemma NoTotalReflection(ratio: real, cosTheta: real, f: Transcendentals)
    requires SqrtSound(f) && -1.0 <= cosTheta <= 1.0 && 0.0 < ratio <= 1.0
    ensures !CannotRefract(ratio, SinTheta(f, cosTheta))
  {
    SinThetaRange(f, cosTheta);
    NoTotalReflectionValues(ratio, SinTheta(f, cosTheta));
  }

  lemma NoTotalReflectionValues(ratio: real, sinTheta: real)
    requires 0.0 < ratio <= 1.0 && 0.0 <= sinTheta <= 1.0
    ensures !CannotRefract(ratio, sinTheta)
  {
    MulUnitInterval(ratio, sinTheta);
  }

  lemma ReciprocalAtMostOne(x: real)
    requires 1.0 <= x
    ensures 0.0 < 1.0 / x <= 1.0
  {
    ReciprocalSign(x);
    var r := 1.0 / x;
    assert r * x == 1.0;
    MulLeMono(1.0, x, r);
    assert 1.0 * r == r;
  }

  // ---------------------------------------------------------------------------
  // Checker and Debug

  /** `CheckerMaterial.color(p)`: the odd colour where the sine pattern is negative. */
  function CheckerColour(oddColor: Vec3, evenColor: Vec3, f: Transcendentals, p: Vec3): (c: Vec3)
    ensures Sines(f, 10.0, p) < 0.0 ==> c == oddColor
    ensures !(Sines(f, 10.0, p) < 0.0) ==> c == evenColor
  {
    if Sines(f, 10.0, p) < 0.0 then oddColor else evenColor
  }

  /** Diffuse with a normalised direction, falling back to the normal when it is near zero. */
  function ScatterChecker(oddColor: Vec3, evenColor: Vec3, rec: HitRecord, sample: Vec3, f: Transcendentals): (s: ScatterResult)
    ensures s.scattered && s.ray.origin == rec.p
    ensures s.attenuation == CheckerColour(oddColor, evenColor, f, rec.p)
    ensures var d := Normalize(Add(rec.normal, sample), f);
      s.ray.direction == (if NearZero(d) then rec.normal else d)
  {
    var direction := Normalize(Add(rec.normal, sample), f);
    ScatterResult(true, CheckerColour(oddColor, evenColor, f, rec.p),
                  Ray(rec.p, if NearZero(direction) then rec.normal else direction))
  }

  /** Blue for front-face hits, red for back-face hits; no near-zero fallback. */
  function ScatterDebug(rec: HitRecord, sample: Vec3, f: Transcendentals): (s: ScatterResult)
    ensures s.scattered && s.ray.origin == rec.p
    ensures rec.frontFace ==> s.attenuation == Vec3(0.0, 0.0, 1.0)
    ensures !rec.frontFace ==> s.attenuation == Vec3(1.0, 0.0, 0.0)
    ensures s.ray.direction == Normalize(Add(rec.normal, sample), f)
  {
    ScatterResult(true, if rec.frontFace then Vec3(0.0, 0.0, 1.0) else Vec3(1.0, 0.0, 0.0),
                  Ray(rec.p, Normalize(Add(rec.normal, sample), f)))
  }

  // ---------------------------------------------------------------------------
  // Dispatch

  /** `material.scatter(rIn, rec, wrapper)` */
  function Scatter(m: Material, rIn: Ray, rec: HitRecord, d: Draw, f: Transcendentals): (s: ScatterResult)
    requires ValidMaterial(m)
    ensures s.ray.origin == rec.p
    ensures m.Lambertian? || m.Dielectric? || m.Checker? || m.Debug? ==> s.scattered
    ensures m.Metal? || m.WoodChecker? || m.MarbleTiles? ==> (s.scattered <==> 0.0 < Dot(s.ray.direction, rec.normal))
  {
    match m
    case Lambertian(albedo) => ScatterLambertian(albedo, rec, d.sample)
    case Metal(albedo, fuzz) => ScatterMetal(albedo, fuzz, rIn, rec, d.sample, f)
    case Dielectric(ir) => ScatterDielectric(ir, rIn, rec, d.u, f)
    case Checker(oddColor, evenColor) => ScatterChecker(oddColor, evenColor, rec, d.sample, f)
    case WoodChecker(light, dark, fuzz) => ScatterMetal(WoodColour(light, dark, f, rec.p), fuzz, rIn, rec, d.sample, f)
    case MarbleTiles(white, grey, fuzz) => ScatterMetal(MarbleColour(white, grey, f, rec.p), fuzz, rIn, rec, d.sample, f)
    case Debug => ScatterDebug(rec, d.sample, f)
  }

  /**
   * The attenuation of the patterned materials depends on the hit point
   * alone: not on the incoming ray, the normal, the face or the draw.
   */
  lemma PatternDependsOnPoint(m: Material, rIn1: Ray, rIn2: Ray, rec1: HitRecord, rec2: HitRecord,
                              d1: Draw, d2: Draw, f: Transcendentals)
    requires m.Checker? || m.WoodChecker? || m.MarbleTiles?
    requires rec1.p == rec2.p
    ensures Scatter(m, rIn1, rec1, d1, f).attenuation == Scatter(m, rIn2, rec2, d2, f).attenuation
  {
  }

  /**
   * The patterned reflective materials scatter exactly like a metal of the
   * same fuzz whose albedo is the pattern colour at the hit point.
   */
  lemma PatternedMetals(m: Material, rIn: Ray, rec: HitRecord, d: Draw, f: Transcendentals)
    requires m.WoodChecker? || m.MarbleTiles?
    ensures var colour := if m.WoodChecker? then WoodColour(m.lightWood, m.darkWood, f, rec.p)
                          else MarbleColour(m.whiteColor, m.greyColor, f, rec.p);
      Scatter(m, rIn, rec, d, f) == Scatter(Metal(colour, m.fuzz), rIn, rec, d, f)
  {
  }

  /** A glass surface passes the colour behind it through unchanged. */
  lemma GlassIsClear(ir: real, rIn: Ray, rec: HitRecord, d: Draw, f: Transcendentals, behind: Vec3)
    requires ValidIndex(ir)
    ensures Multiply(Scatter(Dielectric(ir), rIn, rec, d, f).attenuation, behind) == behind
  {
    MultiplyByOnes(behind);
  }

  /** Matte and debug materials share the same bounce direction where the matte one does not fall back. */
  lemma DebugBouncesLikeChecker(oddColor: Vec3, evenColor: Vec3, rIn: Ray, rec: HitRecord, d: Draw, f: Transcendentals)
    requires !NearZero(Normalize(Add(rec.normal, d.sample), f))
    ensures Scatter(Debug, rIn, rec, d, f).ray == Scatter(Checker(oddColor, evenColor), rIn, rec, d, f).ray
  {
  }
}
