/** Plane geometry on exact reals.

    The game works on `float` vectors and calls `sqrt` for distances and for
    normalising directions.  Here positions are reals.  Distances are only ever
    compared (against a radius or against each other), so the model compares
    squared distances; normalisation genuinely needs a square root, so the
    functions that normalise take one as a parameter and the lemmas that need
    it to be a real square root say so with `IsSqrt`. */
module Geometry {

  datatype Vec2 = Vec2(x: real, y: real)

  const Zero := Vec2(0.0, 0.0)

  function Add(a: Vec2, b: Vec2): Vec2 { Vec2(a.x + b.x, a.y + b.y) }

  function Sub(a: Vec2, b: Vec2): Vec2 { Vec2(a.x - b.x, a.y - b.y) }

  function Scale(v: Vec2, k: real): Vec2 { Vec2(v.x * k, v.y * k) }

  function LengthSq(v: Vec2): real { v.x * v.x + v.y * v.y }

  /** Square of `Vector2Distance(a, b)`. */
  function DistSq(a: Vec2, b: Vec2): real { LengthSq(Sub(a, b)) }

  /** `Vector2Distance(a, b) < radius`, stated without a square root. */
  predicate Within(a: Vec2, b: Vec2, radius: real) {
    DistSq(a, b) < radius * radius
  }

  /** `sqrt` is the non-negative square root on the non-negative reals. */
  ghost predicate IsSqrt(sqrt: real -> real) {
    forall x: real :: 0.0 <= x ==> 0.0 <= sqrt(x) && sqrt(x) * sqrt(x) == x
  }

  /** The game's in-place normalisation: divide by the length when it is
      positive, otherwise leave the vector as it is.  Scaling the result
      back by the length restores the input, and the zero vector stays
      zero; `NormalizeUnit` shows the result has length one. */
  function Normalize(v: Vec2, sqrt: real -> real): (n: Vec2)
    ensures v == Zero ==> n == Zero
    ensures sqrt(LengthSq(v)) > 0.0 ==> Scale(n, sqrt(LengthSq(v))) == v
    ensures sqrt(LengthSq(v)) <= 0.0 ==> n == v
  {
    var len := sqrt(LengthSq(v));
    if len > 0.0 then Vec2(v.x / len, v.y / len) else v
  }

  function Min(a: real, b: real): real { if a <= b then a else b }

  function Max(a: real, b: real): real { if a >= b then a else b }

  /** `std::max(lo, std::min(hi, v))`. */
  function Clamp(lo: real, hi: real, v: real): (r: real)
    ensures lo <= r
    ensures lo <= hi ==> r <= hi
    ensures lo <= v <= hi ==> r == v
    ensures r == lo || r == hi || r == v
    ensures v < lo ==> r == lo
    ensures lo <= hi && hi < v ==> r == hi
  {
    Max(lo, Min(hi, v))
  }

  lemma DistSqNonNegative(a: Vec2, b: Vec2)
    ensures 0.0 <= DistSq(a, b)
  {
  }

  lemma PositiveProduct(a: real, b: real)
    requires 0.0 < a && 0.0 < b
    ensures 0.0 < a * b
  {
  }

  lemma SquareLess(s: real, t: real)
    requires 0.0 <= s < t
    ensures s * s < t * t
  {
    PositiveProduct(t - s, t + s);
    assert (t - s) * (t + s) == t * t - s * s;
  }

  /** For non-negative reals, comparing squares is comparing the numbers. */
  lemma SquareLessIff(s: real, t: real)
    requires 0.0 <= s && 0.0 <= t
    ensures s < t <==> s * s < t * t
  {
    if s < t {
      SquareLess(s, t);
    } else if t < s {
      SquareLess(t, s);
    }
  }

  /** A square root is monotone: comparing two distances is comparing their
      squares, which is how the model compares them. */
  lemma SqrtLessIff(sqrt: real -> real, a: real, b: real)
    requires IsSqrt(sqrt)
    requires 0.0 <= a && 0.0 <= b
    ensures sqrt(a) < sqrt(b) <==> a < b
  {
    SquareLessIff(sqrt(a), sqrt(b));
  }

  lemma SqrtOfSquare(sqrt: real -> real, r: real)
    requires IsSqrt(sqrt)
    requires 0.0 <= r
    ensures sqrt(r * r) == r
  {
    var s := sqrt(r * r);
    SquareLessIff(s, r);
    SquareLessIff(r, s);
  }

  /** `Within` is exactly the game's `Vector2Distance(a, b) < radius`. */
  lemma WithinIffDistanceBelow(sqrt: real -> real, a: Vec2, b: Vec2, radius: real)
    requires IsSqrt(sqrt)
    requires 0.0 <= radius
    ensures sqrt(DistSq(a, b)) < radius <==> Within(a, b, radius)
  {
    DistSqNonNegative(a, b);
    SqrtOfSquare(sqrt, radius);
    SqrtLessIff(sqrt, DistSq(a, b), radius * radius);
  }

  /** Comparing `Vector2Distance` values is comparing squared distances. */
  lemma CloserIff(sqrt: real -> real, p: Vec2, a: Vec2, b: Vec2)
    requires IsSqrt(sqrt)
    ensures sqrt(DistSq(p, a)) < sqrt(DistSq(p, b)) <==> DistSq(p, a) < DistSq(p, b)
  {
    DistSqNonNegative(p, a);
    DistSqNonNegative(p, b);
    SqrtLessIff(sqrt, DistSq(p, a), DistSq(p, b));
  }

  /** Normalising the zero vector gives the zero vector, whatever `sqrt` is. */
  lemma NormalizeZero(sqrt: real -> real)
    ensures Normalize(Zero, sqrt) == Zero
  {
  }

  /** Equal factors give equal products.  The solver does not substitute
      inside products by itself, so the proofs below ask for it. */
  lemma MulCongruence(p: real, q: real, r: real, t: real)
    requires p == r && q == t
    ensures p * q == r * t
  {
  }

  lemma ZeroProduct(p: real, q: real)
    requires p * q == 0.0
    ensures p == 0.0 || q == 0.0
  {
  }

  lemma SumOfSquaresZero(x: real, y: real)
    requires x * x + y * y == 0.0
    ensures x == 0.0 && y == 0.0
  {
    assert x * x == 0.0;
    ZeroProduct(x, x);
    assert y * y == 0.0;
    ZeroProduct(y, y);
  }

  /** The algebra behind normalisation, on plain reals: if `len` is the
      positive length of `(x, y)` and `(a, b) == (x, y) / len`, then `(a, b)`
      has length one, is parallel to `(x, y)` and points the same way. */
  lemma ScaledToUnit(x: real, y: real, len: real, a: real, b: real)
    requires 0.0 < len && len * len == x * x + y * y
    requires a * len == x && b * len == y
    ensures a * a + b * b == 1.0
    ensures a * y == b * x
    ensures 0.0 < a * x + b * y
  {
    MulCongruence(a * len, a * len, x, x);
    MulCongruence(b * len, b * len, y, y);
    assert (a * a + b * b - 1.0) * (len * len) == 0.0;
    ZeroProduct(a * a + b * b - 1.0, len * len);
    if len * len == 0.0 {
      ZeroProduct(len, len);
    }
    MulCongruence(a, b * len, a, y);
    MulCongruence(b, a * len, b, x);
    MulCongruence(a, a * len, a, x);
    MulCongruence(b, b * len, b, y);
    assert a * x + b * y == len;
  }

  /** A non-zero vector normalises to a unit vector pointing the same way:
      parallel to it and with positive dot product. */
  lemma NormalizeUnit(sqrt: real -> real, v: Vec2)
    requires IsSqrt(sqrt)
    requires v != Zero
    ensures LengthSq(Normalize(v, sqrt)) == 1.0
    ensures Normalize(v, sqrt).x * v.y == Normalize(v, sqrt).y * v.x
    ensures 0.0 < Normalize(v, sqrt).x * v.x + Normalize(v, sqrt).y * v.y
  {
    var len := sqrt(LengthSq(v));
    assert len * len == v.x * v.x + v.y * v.y;
    if len == 0.0 {
      MulCongruence(len, len, 0.0, 0.0);
      SumOfSquaresZero(v.x, v.y);
      assert false;
    }
    var n := Normalize(v, sqrt);
    assert n == Vec2(v.x / len, v.y / len);
    ScaledToUnit(v.x, v.y, len, n.x, n.y);
  }
}
