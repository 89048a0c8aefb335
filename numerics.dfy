/** Shared numeric vocabulary: Java's `Math` helpers over exact reals, the
    transcendental functions the pipeline calls (as constrained parameters),
    and an outcome type for the source's exceptions. */
module Numerics {

  /** The transcendental functions of `java.lang.Math` that the pipeline uses.
      They are kept uninterpreted: a model of the pipeline is parameterised by
      any functions satisfying `Valid()`, which lists only the range facts the
      code relies on. */
  datatype Transcendentals = Transcendentals(
    sqrt: real -> real,
    exp: real -> real,
    hypot: (real, real) -> real,
    atan2Degrees: (real, real) -> real)
  {
    /** `Math.sqrt` on non-negative arguments: a non-negative number that squares back. */
    ghost predicate SqrtValid() {
      forall v: real :: 0.0 <= v ==> 0.0 <= sqrt(v) && sqrt(v) * sqrt(v) == v
    }

    /** The consequence of `SqrtValid()` that a division by a square root needs. */
    ghost predicate SqrtPositive() {
      forall v: real :: 0.0 < v ==> 0.0 < sqrt(v)
    }

    /** `Math.exp`: positive, and 1 at 0. */
    ghost predicate ExpValid() {
      && (forall v: real :: 0.0 < exp(v))
      && exp(0.0) == 1.0
    }

    /** `Math.hypot`: the non-negative square root of `u*u + v*v`. */
    ghost predicate HypotValid() {
      forall u: real, v: real :: 0.0 <= hypot(u, v) && hypot(u, v) * hypot(u, v) == u * u + v * v
    }

    /** `Math.toDegrees(Math.atan2(u, v))`: an angle in [-180, 180]. */
    ghost predicate AngleValid() {
      forall u: real, v: real :: -180.0 <= atan2Degrees(u, v) <= 180.0
    }

    ghost predicate Valid() {
      SqrtValid() && ExpValid() && HypotValid() && AngleValid()
    }
  }

  /** Failure kinds of the modelled operations (Java exceptions). */
  datatype Failure =
    | NegativeArraySize      // `new double[k]` with k < 0
    | IndexOutOfBounds       // reading `features[0]` of an empty array
    | FolderMissing          // `File.listFiles()` returned null

  datatype Outcome<T> = Ok(value: T) | Fail(error: Failure)

  datatype Option<T> = None | Some(value: T)

  function Abs(v: real): (r: real)
    ensures 0.0 <= r && (r == v || r == -v)
  {
    if v < 0.0 then -v else v
  }

  function MaxInt(a: int, c: int): (r: int)
    ensures r >= a && r >= c && (r == a || r == c)
  {
    if a >= c then a else c
  }

  function MinInt(a: int, c: int): (r: int)
    ensures r <= a && r <= c && (r == a || r == c)
  {
    if a <= c then a else c
  }

  function MaxReal(a: real, c: real): (r: real)
    ensures r >= a && r >= c && (r == a || r == c)
  {
    if a >= c then a else c
  }

  function MinReal(a: real, c: real): (r: real)
    ensures r <= a && r <= c && (r == a || r == c)
  {
    if a <= c then a else c
  }

  /** `Math.min(Math.max(v, lo), hi)`: clamps `v` into `[lo, hi]`. */
  function ClampInt(v: int, lo: int, hi: int): (r: int)
    requires lo <= hi
    ensures lo <= r <= hi
    ensures lo <= v <= hi ==> r == v
  {
    MinInt(MaxInt(v, lo), hi)
  }

  /** The product of two positive reals is positive. The product is passed
      as `p` so that callers may instantiate both factors with one term. */
  lemma ProductPos(a: real, c: real, p: real)
    requires 0.0 < a && 0.0 < c && p == a * c
    ensures 0.0 < p
  {
  }

  /** The product of two non-negative reals is non-negative. */
  lemma ProductNonneg(a: real, c: real, p: real)
    requires 0.0 <= a && 0.0 <= c && p == a * c
    ensures 0.0 <= p
  {
  }

  /** A square is non-negative. */
  lemma SquareNonneg(d: real, p: real)
    requires p == d * d
    ensures 0.0 <= p
  {
    if d >= 0.0 {
      ProductNonneg(d, d, p);
    } else {
      ProductNonneg(-d, -d, p);
    }
  }

  /** Multiplying by a non-negative factor preserves `<=`. */
  lemma ProductLe(a: real, c: real, k: real, pa: real, pc: real)
    requires a <= c && 0.0 <= k && pa == a * k && pc == c * k
    ensures pa <= pc
  {
  }

  /** Multiplying by a positive factor preserves `<`. */
  lemma ProductLt(a: real, c: real, k: real, pa: real, pc: real)
    requires a < c && 0.0 < k && pa == a * k && pc == c * k
    ensures pa < pc
  {
  }

  /** Squaring is strictly monotone on the non-negative reals. */
  lemma SquareLess(a: real, c: real, pa: real, pc: real)
    requires 0.0 <= a < c && pa == a * a && pc == c * c
    ensures pa < pc
  {
    ProductLe(a, c, a, pa, c * a);
    ProductLt(a, c, c, a * c, pc);
  }

  /** A square root satisfying `SqrtValid()` is zero exactly at zero. */
  lemma SqrtZeroIff(t: Transcendentals, v: real)
    requires t.SqrtValid() && 0.0 <= v
    ensures t.sqrt(v) == 0.0 <==> v == 0.0
    ensures 0.0 < v ==> 0.0 < t.sqrt(v)
  {
    var s := t.sqrt(v);
    assert 0.0 <= s && s * s == v;
    if 0.0 < s {
      ProductPos(s, s, v);
    }
  }

  lemma SqrtValidIsPositive(t: Transcendentals)
    requires t.SqrtValid()
    ensures t.SqrtPositive()
  {
    forall v: real | 0.0 < v
      ensures 0.0 < t.sqrt(v)
    {
      SqrtZeroIff(t, v);
    }
  }

  /** For a positive bound, comparing a square root is comparing the square. */
  lemma SqrtLessIff(t: Transcendentals, v: real, bound: real)
    requires t.SqrtValid() && 0.0 <= v && 0.0 < bound
    ensures t.sqrt(v) < bound <==> v < bound * bound
  {
    var s := t.sqrt(v);
    assert 0.0 <= s && s * s == v;
    if s < bound {
      SquareLess(s, bound, v, bound * bound);
    } else if bound < s {
      SquareLess(bound, s, bound * bound, v);
    }
  }
}
