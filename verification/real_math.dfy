/**
 * Real-number helpers shared by the whole model: the stand-ins for `Math.sqrt`
 * and `Math.sin`, `Math.abs`/`Math.min`/`Math.max`, the possibly infinite upper
 * end of a ray-parameter window, and the few facts of ordered-field arithmetic
 * the solver does not find on its own.
 */
module RealMath {

  /**
   * `Math.sqrt` and `Math.sin` cannot be computed over the reals, so every
   * operation that calls them takes them as an input. The operations are
   * total for ANY pair of functions; the lemmas that need `sqrt` to be a
   * square root say so with `SqrtSound`.
   */
  datatype Transcendentals = Transcendentals(sqrt: real -> real, sin: real -> real)

  /** `sqrt` returns the non-negative square root of every non-negative argument. */
  ghost predicate SqrtSound(f: Transcendentals) {
    forall x: real :: 0.0 <= x ==> 0.0 <= f.sqrt(x) && f.sqrt(x) * f.sqrt(x) == x
  }

  /** `Math.abs` */
  function Abs(x: real): real {
    if x < 0.0 then -x else x
  }

  /** `Math.min` */
  function Min(a: real, b: real): real {
    if a <= b then a else b
  }

  /** `Math.max` */
  function Max(a: real, b: real): real {
    if a >= b then a else b
  }

  /**
   * The upper end of a ray-parameter window: a real, or the
   * `Double.POSITIVE_INFINITY` the integrator starts every query with.
   */
  datatype Limit = Bounded(value: real) | Infinite

  /** `t < tMax` */
  predicate Below(t: real, tMax: Limit) {
    tMax.Infinite? || t < tMax.value
  }

  /** `!(t > tMax)`, that is `t <= tMax` */
  predicate AtMost(t: real, tMax: Limit) {
    tMax.Infinite? || t <= tMax.value
  }

  /** `u <= v` between two upper limits. */
  predicate LimitLe(u: Limit, v: Limit) {
    v.Infinite? || (u.Bounded? && u.value <= v.value)
  }

  /** `t1 < tMax ? t1 : tMax`: the smaller of a real and a limit. */
  function Narrow(t: real, tMax: Limit): (u: Limit)
    ensures LimitLe(u, tMax)
    ensures u.Bounded? && u.value <= t
    ensures forall s :: Below(s, u) <==> s < t && Below(s, tMax)
  {
    if Below(t, tMax) then Bounded(t) else tMax
  }

  // ---------------------------------------------------------------------------
  // Ordered-field facts. The solver's non-linear arithmetic is incomplete, so
  // each fact is reduced to a polynomial identity and the sign of a product.

  /**
   * Strict positivity as a named predicate. A sign fact about a polynomial is
   * carried over to a function call that unfolds to the same polynomial by
   * asserting `Positive` of both, which needs no arithmetic at all.
   */
  predicate Positive(x: real) {
    0.0 < x
  }

  /** Three non-negative terms sum to zero only when each is zero, and each is at most the sum. */
  lemma SumOfNonneg(a: real, b: real, c: real)
    requires 0.0 <= a && 0.0 <= b && 0.0 <= c
    ensures a + b + c == 0.0 <==> a == 0.0 && b == 0.0 && c == 0.0
    ensures a <= a + b + c && b <= a + b + c && c <= a + b + c
    ensures 0.0 < a || 0.0 < b || 0.0 < c ==> 0.0 < a + b + c
  {
  }

  lemma PosMul(x: real, y: real)
    requires 0.0 < x && 0.0 < y
    ensures 0.0 < x * y
  {
  }

  lemma NonnegMul(x: real, y: real)
    requires 0.0 <= x && 0.0 <= y
    ensures 0.0 <= x * y
  {
  }

  lemma MulLeMono(a: real, b: real, c: real)
    requires 0.0 <= c && a <= b
    ensures a * c <= b * c
  {
    NonnegMul(b - a, c);
    assert (b - a) * c == b * c - a * c;
  }

  lemma MulLtMono(a: real, b: real, c: real)
    requires 0.0 < c && a < b
    ensures a * c < b * c
  {
    PosMul(b - a, c);
    assert (b - a) * c == b * c - a * c;
  }

  lemma SquareNonneg(a: real)
    ensures 0.0 <= a * a
  {
    if a < 0.0 {
      PosMul(-a, -a);
      assert (-a) * (-a) == a * a;
    } else {
      NonnegMul(a, a);
    }
  }

  /** Squaring is strictly monotone on the non-negative reals. */
  lemma SquareLtMono(a: real, b: real)
    requires 0.0 <= a < b
    ensures a * a < b * b
  {
    PosMul(b - a, b + a);
    assert (b - a) * (b + a) == b * b - a * a;
  }

  /** `a * a <= r * r` with `r >= 0` bounds `a` to `[-r, r]`. */
  lemma SquareBound(a: real, r: real)
    requires 0.0 <= r && a * a <= r * r
    ensures -r <= a <= r
  {
    assert (-a) * (-a) == a * a;
    if a > r {
      SquareLtMono(r, a);
    } else if a < -r {
      SquareLtMono(r, -a);
    }
  }

  /** The strict form of `SquareBound`. */
  lemma SquareBoundStrict(a: real, r: real)
    requires 0.0 <= r && a * a < r * r
    ensures -r < a < r
  {
    assert (-a) * (-a) == a * a;
    if a > r {
      SquareLtMono(r, a);
    } else if a < -r {
      SquareLtMono(r, -a);
    }
  }

  /** The non-negative square root of a square is unique. */
  lemma SquareRootUnique(a: real, b: real)
    requires 0.0 <= a && 0.0 <= b && a * a == b * b
    ensures a == b
  {
    if a < b {
      SquareLtMono(a, b);
    } else if b < a {
      SquareLtMono(b, a);
    }
  }

  /** Multiplying by `1/d` and comparing is comparing after multiplying by `d`. */
  lemma ScaledLt(x: real, d: real, t: real)
    requires d != 0.0
    ensures 0.0 < d ==> (x * (1.0 / d) < t <==> x < t * d)
    ensures d < 0.0 ==> (x * (1.0 / d) < t <==> t * d < x)
    ensures 0.0 < d ==> (t < x * (1.0 / d) <==> t * d < x)
    ensures d < 0.0 ==> (t < x * (1.0 / d) <==> x < t * d)
  {
    var q := x * (1.0 / d);
    assert q * d == x;
    if 0.0 < d {
      MulSignSplit(q - t, d);
    } else {
      MulSignSplit(q - t, -d);
    }
    assert (q - t) * d == x - t * d;
    assert (q - t) * (-d) == t * d - x;
  }

  /** With a positive factor, the sign of a product is the sign of the other factor. */
  lemma MulSignSplit(x: real, d: real)
    requires 0.0 < d
    ensures x < 0.0 <==> x * d < 0.0
    ensures 0.0 < x <==> 0.0 < x * d
  {
    if x < 0.0 {
      PosMul(-x, d);
      assert (-x) * d == -(x * d);
    } else if 0.0 < x {
      PosMul(x, d);
    }
  }

  /** `1/d` has the sign of `d`. */
  lemma ReciprocalSign(d: real)
    requires d != 0.0
    ensures 0.0 < d <==> 0.0 < 1.0 / d
    ensures d < 0.0 <==> 1.0 / d < 0.0
  {
    assert (1.0 / d) * d == 1.0;
    if 0.0 < d {
      MulSignSplit(1.0 / d, d);
    } else {
      MulSignSplit(1.0 / d, -d);
      assert (1.0 / d) * (-d) == -1.0;
    }
  }
}
