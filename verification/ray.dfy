/**
 * Rays (`math/Ray.java`): an origin and a direction, and the point at a
 * given parameter along the ray.
 */
module Rays {
  import opened Vectors

  /** The Java getters `getOrigin` and `getDirection` are the field selectors. */
  datatype Ray = Ray(origin: Vec3, direction: Vec3)

  /** `at(t)`: the point reached from the origin by `t` times the direction. */
  function At(r: Ray, t: real): (p: Vec3)
    ensures Sub(p, r.origin) == Scale(r.direction, t)
  {
    Add(r.origin, Scale(r.direction, t))
  }

  /** The constructor stores its arguments unchanged. */
  lemma RayFields(o: Vec3, d: Vec3)
    ensures Ray(o, d).origin == o && Ray(o, d).direction == d
  {
  }

  /** The ray starts at its origin. */
  lemma AtZero(r: Ray)
    ensures At(r, 0.0) == r.origin
  {
  }

  /** Advancing by `s` and then by `t` is advancing by `s + t`. */
  lemma AtAdditive(r: Ray, s: real, t: real)
    ensures At(r, s + t) == Add(At(r, s), Scale(r.direction, t))
  {
  }

  /** Points along a ray are determined by the parameter when the direction is non-zero. */
  lemma AtInjective(r: Ray, s: real, t: real)
    requires r.direction != Zero && At(r, s) == At(r, t)
    ensures s == t
  {
    var d := r.direction;
    if d.x != 0.0 {
      assert d.x * s == d.x * t;
      MulCancel(d.x, s, t);
    } else if d.y != 0.0 {
      assert d.y * s == d.y * t;
      MulCancel(d.y, s, t);
    } else {
      assert d.z * s == d.z * t;
      MulCancel(d.z, s, t);
    }
  }

  lemma MulCancel(k: real, s: real, t: real)
    requires k != 0.0 && k * s == k * t
    ensures s == t
  {
    assert k * (s - t) == 0.0;
  }
}
