/**
 * The surface materials (the `material` package) as one closed sum type, with the
 * constructors that fix or clamp parameters and Schlick's reflectance
 * approximation used by glass.
 */
module Materials {
  import opened RealMath
  import opened Vectors

  datatype Material =
    | Lambertian(albedo: Vec3)
    | Metal(albedo: Vec3, fuzz: real)
    | Dielectric(ir: real)
    | Checker(oddColor: Vec3, evenColor: Vec3)
    | WoodChecker(lightWood: Vec3, darkWood: Vec3, fuzz: real)
    | MarbleTiles(whiteColor: Vec3, greyColor: Vec3, fuzz: real)
    | Debug

  /**
   * A glass index the scatter computation can divide by: `1/ir` on a front
   * face, and `1 + ratio` in the reflectance (which is zero exactly when the
   * index is `-1`, whichever face is hit).
   */
  predicate ValidIndex(ir: real) {
    ir != 0.0 && ir != -1.0
  }

  predicate ValidMaterial(m: Material) {
    m.Dielectric? ==> ValidIndex(m.ir)
  }

  // ---------------------------------------------------------------------------
  // Constructors

  /** `new Metal(albedo, fuzz)`: the fuzz is capped at one from above only. */
  function NewMetal(albedo: Vec3, fuzz: real): (m: Material)
    ensures m.Metal? && m.albedo == albedo
    ensures m.fuzz <= 1.0 && m.fuzz <= fuzz
    ensures fuzz < 1.0 <==> m.fuzz == fuzz && m.fuzz != 1.0
  {
    Metal(albedo, if fuzz < 1.0 then fuzz else 1.0)
  }

  /** `new Metal(albedo)` is a perfect mirror. */
  function NewMirror(albedo: Vec3): (m: Material)
    ensures m.Metal? && m.albedo == albedo && m.fuzz == 0.0
  {
    NewMetal(albedo, 0.0)
  }

  /** Capping twice is capping once. */
  lemma NewMetalIdempotent(albedo: Vec3, fuzz: real)
    ensures NewMetal(albedo, NewMetal(albedo, fuzz).fuzz) == NewMetal(albedo, fuzz)
  {
  }

  const LightWood: Vec3 := Vec3(0.20, 0.10, 0.05)
  const DarkWood: Vec3 := Vec3(0.05, 0.05, 0.05)
  const WoodFuzz: real := 0.05

  /** `new WoodCheckerMaterial()`: two fixed wood tones and a slight fuzz. */
  function NewWoodChecker(): (m: Material)
    ensures m.WoodChecker? && m.fuzz == 0.05
    ensures m.lightWood == Vec3(0.20, 0.10, 0.05) && m.darkWood == Vec3(0.05, 0.05, 0.05)
  {
    WoodChecker(LightWood, DarkWood, WoodFuzz)
  }

  const WhiteMarble: Vec3 := Vec3(0.95, 0.95, 0.95)
  const GreyMarble: Vec3 := Vec3(0.85, 0.85, 0.85)
  const MarbleFuzz: real := 0.02

  /** `new MarbleTiles()`: two fixed greys and a small fuzz. */
  function NewMarbleTiles(): (m: Material)
    ensures m.MarbleTiles? && m.fuzz == 0.02
    ensures m.whiteColor == Vec3(0.95, 0.95, 0.95) && m.greyColor == Vec3(0.85, 0.85, 0.85)
  {
    MarbleTiles(WhiteMarble, GreyMarble, MarbleFuzz)
  }

  /** All the fixed pattern colours are valid reflectances in `[0, 1]`. */
  lemma DefaultColoursInRange()
    ensures InUnitCube(LightWood) && InUnitCube(DarkWood)
    ensures InUnitCube(WhiteMarble) && InUnitCube(GreyMarble)
  {
  }

  predicate InUnitCube(c: Vec3) {
    0.0 <= c.x <= 1.0 && 0.0 <= c.y <= 1.0 && 0.0 <= c.z <= 1.0
  }

  // ---------------------------------------------------------------------------
  // Schlick's approximation

  /** `Math.pow(x, 5)` */
  function Pow5(x: real): real {
    x * x * x * x * x
  }

  /** The reflectance at normal incidence, `((1 - r) / (1 + r))^2`. */
  function R0(refIdx: real): real
    requires refIdx != -1.0
  {
    var q := (1.0 - refIdx) / (1.0 + refIdx);
    q * q
  }

  /**
   * `reflectance(cosine, refIdx)`, Schlick's approximation. For a positive
   * index and a cosine in `[0, 1]` it is a probability: it lies between the
   * base reflectance and one.
   */
  function Reflectance(cosine: real, refIdx: real): (p: real)
    requires refIdx != -1.0
    ensures 0.0 < refIdx && 0.0 <= cosine <= 1.0 ==> 0.0 <= R0(refIdx) <= p <= 1.0
  {
    var r0 := R0(refIdx);
    var q := Pow5(1.0 - cosine);
    if 0.0 < refIdx && 0.0 <= cosine <= 1.0 then
      R0Bounds(refIdx);
      Pow5Bounds(1.0 - cosine);
      NonnegMul(1.0 - r0, q);
      MulLeMono(q, 1.0, 1.0 - r0);
      assert q * (1.0 - r0) == (1.0 - r0) * q;
      r0 + (1.0 - r0) * q
    else
      r0 + (1.0 - r0) * q
  }

  /** At normal incidence the reflectance is the base reflectance. */
  lemma ReflectanceNormalIncidence(refIdx: real)
    requires refIdx != -1.0
    ensures Reflectance(1.0, refIdx) == R0(refIdx)
  {
  }

  /** At grazing incidence everything is reflected. */
  lemma ReflectanceGrazing(refIdx: real)
    requires refIdx != -1.0
    ensures Reflectance(0.0, refIdx) == 1.0
  {
  }

  /** Matching indices reflect nothing head-on. */
  lemma R0MatchedIndex()
    ensures R0(1.0) == 0.0
  {
  }

  /** For a positive index the base reflectance lies in `[0, 1)`. */
  lemma R0Bounds(refIdx: real)
    requires 0.0 < refIdx
    ensures 0.0 <= R0(refIdx) < 1.0
  {
    var q := (1.0 - refIdx) / (1.0 + refIdx);
    assert q * (1.0 + refIdx) == 1.0 - refIdx;
    assert -1.0 < q < 1.0 by {
      if q <= -1.0 {
        MulLeMono(q, -1.0, 1.0 + refIdx);
      } else if 1.0 <= q {
        MulLeMono(1.0, q, 1.0 + refIdx);
      }
    }
    SquareNonneg(q);
    if q < 0.0 {
      SquareLtMono(-q, 1.0);
      assert (-q) * (-q) == q * q;
    } else {
      SquareLtMono(q, 1.0);
    }
  }

  /** A product of two numbers in `[0, 1]` stays in `[0, 1]`. */
  lemma MulUnitInterval(a: real, x: real)
    requires 0.0 <= a <= 1.0 && 0.0 <= x <= 1.0
    ensures 0.0 <= a * x <= 1.0
  {
    NonnegMul(1.0 - a, x);
    assert (1.0 - a) * x == x - a * x;
    NonnegMul(a, x);
  }

  lemma Pow5Bounds(x: real)
    requires 0.0 <= x <= 1.0
    ensures 0.0 <= Pow5(x) <= 1.0
  {
    MulUnitInterval(x, x);
    MulUnitInterval(x * x, x);
    MulUnitInterval(x * x * x, x);
    MulUnitInterval(x * x * x * x, x);
  }

  // ---------------------------------------------------------------------------
  // The sine checker patterns

  /** `Math.sin(k * p.x) * Math.sin(k * p.z)`, negative on alternate tiles. */
  function Sines(f: Transcendentals, k: real, p: Vec3): real {
    f.sin(k * p.x) * f.sin(k * p.z)
  }

  /**
   * The pattern test `sin(k x) * sin(k z) < 0` holds exactly when the two
   * sines have strictly opposite signs, i.e. on the tiles where one stripe
   * family is negative and the other positive.
   */
  lemma ProductNegativeIff(a: real, b: real)
    ensures a * b < 0.0 <==> (a < 0.0 && 0.0 < b) || (0.0 < a && b < 0.0)
  {
    if 0.0 < b {
      MulSignSplit(a, b);
    } else if b < 0.0 {
      MulSignSplit(a, -b);
      assert a * (-b) == -(a * b);
    } else {
      assert a * b == 0.0;
    }
  }
}
