/**
 * `main/ColorUtil.java`: clamping, and the conversion of a pixel's summed
 * sample colours into the three 0..255 channel values of one PPM line.
 */
module Colors {
  import opened RealMath
  import opened Vectors

  /** The three integer channels of one pixel. */
  datatype Rgb = Rgb(r: int, g: int, b: int)

  predicate IsByte(n: int) {
    0 <= n <= 255
  }

  predicate AllBytes(c: Rgb) {
    IsByte(c.r) && IsByte(c.g) && IsByte(c.b)
  }

  /** `clamp(x, min, max)`: `min` below the range, `max` above it, `x` inside it. */
  function Clamp(x: real, min: real, max: real): (c: real)
    ensures min <= max ==> min <= c <= max
    ensures min <= x <= max ==> c == x
  {
    if x < min then min else if x > max then max else x
  }

  /** Of all the points of a non-empty range, the clamped value is the one nearest to `x`. */
  lemma ClampNearest(x: real, min: real, max: real, y: real)
    requires min <= y <= max
    ensures Abs(Clamp(x, min, max) - x) <= Abs(y - x)
  {
  }

  /** Clamping a clamped value changes nothing. */
  lemma ClampIdempotent(x: real, min: real, max: real)
    requires min <= max
    ensures Clamp(Clamp(x, min, max), min, max) == Clamp(x, min, max)
  {
  }

  /** Clamping never reverses the order of two values. */
  lemma ClampMonotone(x: real, y: real, min: real, max: real)
    requires min <= max && x <= y
    ensures Clamp(x, min, max) <= Clamp(y, min, max)
  {
  }

  /**
   * Java's `(int)` cast of a double, which truncates toward zero (the
   * saturation at the `int` range and `NaN`-to-zero are not modelled here;
   * the callers below only ever cast values in `[0, 256)`).
   */
  function Truncate(x: real): (n: int)
    ensures 0.0 <= x ==> 0 <= n && n as real <= x < n as real + 1.0
    ensures x < 0.0 ==> n <= 0 && n as real - 1.0 < x <= n as real
  {
    if x < 0.0 then -((-x).Floor) else x.Floor
  }

  /** Largest value a channel is clamped to before scaling by 256. */
  const ChannelMax: real := 0.999

  /** `(int) (256 * clamp(c, 0.0, 0.999))` */
  function ChannelByte(c: real): (n: int)
    ensures IsByte(n)
    ensures c <= 0.0 ==> n == 0
    ensures ChannelMax <= c ==> n == 255
  {
    Truncate(256.0 * Clamp(c, 0.0, ChannelMax))
  }

  /** A brighter channel value never gives a smaller byte. */
  lemma ChannelMonotone(c1: real, c2: real)
    requires c1 <= c2
    ensures ChannelByte(c1) <= ChannelByte(c2)
  {
    ClampMonotone(c1, c2, 0.0, ChannelMax);
  }

  /** Every byte `k` is the channel of the intensity `k / 256`, so all 256 values occur. */
  lemma ChannelOfByte(k: int)
    requires IsByte(k)
    ensures ChannelByte(k as real / 256.0) == k
  {
    var c := k as real / 256.0;
    assert c <= 255.0 / 256.0 < ChannelMax;
    assert 256.0 * c == k as real;
  }

  /**
   * `value * (1.0 / samplesPerPixel)`. For zero samples Java divides by zero:
   * the scale is `+Infinity`, so a positive sum becomes `+Infinity` (clamped
   * to the top byte) while a zero or negative sum becomes `NaN` or
   * `-Infinity` (both cast to the bottom byte).
   */
  function ScaledChannel(value: real, samplesPerPixel: int): (n: int)
    ensures IsByte(n)
    ensures samplesPerPixel == 0 ==> (n == 255 <==> 0.0 < value) && (n == 0 <==> value <= 0.0)
  {
    if samplesPerPixel == 0 then
      if 0.0 < value then 255 else 0
    else
      ChannelByte(value * (1.0 / samplesPerPixel as real))
  }

  /** The pure part of `writeColor(out, pixelColor, samplesPerPixel)`: the three numbers it prints. */
  function WriteColor(pixelColor: Vec3, samplesPerPixel: int): (c: Rgb)
    ensures AllBytes(c)
  {
    Rgb(ScaledChannel(pixelColor.x, samplesPerPixel),
        ScaledChannel(pixelColor.y, samplesPerPixel),
        ScaledChannel(pixelColor.z, samplesPerPixel))
  }

  /**
   * `writeColor` averages and quantises without gamma correction: a pixel
   * whose samples average `k / 256` in a channel prints `k` in it.
   */
  lemma WriteColorIsLinear(samplesPerPixel: int, r: int, g: int, b: int)
    requires 0 < samplesPerPixel && IsByte(r) && IsByte(g) && IsByte(b)
    ensures var n := samplesPerPixel as real;
      WriteColor(Vec3(n * (r as real / 256.0), n * (g as real / 256.0), n * (b as real / 256.0)), samplesPerPixel)
        == Rgb(r, g, b)
  {
    ScaledChannelOfByte(samplesPerPixel, r);
    ScaledChannelOfByte(samplesPerPixel, g);
    ScaledChannelOfByte(samplesPerPixel, b);
  }

  lemma ScaledChannelOfByte(samplesPerPixel: int, k: int)
    requires 0 < samplesPerPixel && IsByte(k)
    ensures ScaledChannel(samplesPerPixel as real * (k as real / 256.0), samplesPerPixel) == k
  {
    var n := samplesPerPixel as real;
    var c := k as real / 256.0;
    AverageOfSum(n, c);
    ScaledIsChannel(n * c, samplesPerPixel, 1.0 / n);
    ChannelOfByte(k);
  }

  lemma AverageOfSum(n: real, c: real)
    requires 0.0 < n
    ensures (n * c) * (1.0 / n) == c
  {
  }

  /** With samples present, `ScaledChannel` is `ChannelByte` of the scaled value. */
  lemma ScaledIsChannel(value: real, samplesPerPixel: int, scale: real)
    requires samplesPerPixel != 0 && scale == 1.0 / samplesPerPixel as real
    ensures ScaledChannel(value, samplesPerPixel) == ChannelByte(value * scale)
  {
  }

  /** With a positive sample count, a brighter sum never prints a smaller channel. */
  lemma WriteColorMonotone(p: Vec3, q: Vec3, samplesPerPixel: int)
    requires 0 < samplesPerPixel && p.x <= q.x && p.y <= q.y && p.z <= q.z
    ensures var a := WriteColor(p, samplesPerPixel);
      var b := WriteColor(q, samplesPerPixel);
      a.r <= b.r && a.g <= b.g && a.b <= b.b
  {
    ScaledChannelMonotone(p.x, q.x, samplesPerPixel);
    ScaledChannelMonotone(p.y, q.y, samplesPerPixel);
    ScaledChannelMonotone(p.z, q.z, samplesPerPixel);
  }

  lemma ScaledChannelMonotone(x: real, y: real, samplesPerPixel: int)
    requires 0 < samplesPerPixel && x <= y
    ensures ScaledChannel(x, samplesPerPixel) <= ScaledChannel(y, samplesPerPixel)
  {
    var n := samplesPerPixel as real;
    var s := 1.0 / n;
    ReciprocalSign(n);
    ScaleMonotone(x, y, s);
    ChannelMonotone(x * s, y * s);
    ScaledIsChannel(x, samplesPerPixel, s);
    ScaledIsChannel(y, samplesPerPixel, s);
  }

  lemma ScaleMonotone(x: real, y: real, s: real)
    requires x <= y && 0.0 < s
    ensures x * s <= y * s
  {
  }
}
