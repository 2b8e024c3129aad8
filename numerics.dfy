/** The arithmetic the pose normaliser takes from Python and numpy, over the reals.

    Rows of the landmark buffer are points; Python's `int()` cast is truncation
    toward zero; numpy's transcendental functions (`arctan`, `cos`, `sin`,
    `linalg.norm`) cannot be evaluated here, so they are fields of a `Lib` record
    together with the facts about them that the proofs use. */
module Numerics {

  /** One row of the n-by-2 landmark buffer. */
  datatype Point = Point(x: real, y: real)

  function Add(p: Point, q: Point): Point { Point(p.x + q.x, p.y + q.y) }

  /** numpy's elementwise `p - q` on two rows. */
  function Sub(p: Point, q: Point): Point { Point(p.x - q.x, p.y - q.y) }

  /** Both coordinates multiplied by `k`. */
  function Times(p: Point, k: real): Point { Point(p.x * k, p.y * k) }

  /** The identity. `Square` multiplies by `Same(u)` rather than by `u` so that the
      solver keeps the product as a product of two terms: it rewrites a literal
      `u * u > 0.0` into `u != 0.0`, which loses the sign of the square. */
  function Same(u: real): real { u }

  function Square(u: real): real { u * Same(u) }

  function SqNorm(p: Point): real { Square(p.x) + Square(p.y) }

  /** Squared Euclidean distance between two points. */
  function SqDist(p: Point, q: Point): real { SqNorm(Sub(p, q)) }

  /** Python's `int(r)` for a float `r`: truncation toward zero. */
  function Trunc(r: real): (t: int)
    ensures 0.0 <= r ==> t as real <= r < t as real + 1.0
    ensures r < 0.0 ==> t as real - 1.0 < r <= t as real
  {
    if r >= 0.0 then r.Floor else -((-r).Floor)
  }

  /** The numpy functions the pipeline calls, as values. */
  datatype Lib = Lib(arctan: real -> real, cos: real -> real, sin: real -> real,
                     norm: (real, real) -> real)
  {
    /** cos and sin of one angle lie on the unit circle; arctan lands in the open
        interval (-pi/2, pi/2), where cos is positive, and its tangent is its argument. */
    ghost predicate TrigSound() {
      (forall a :: Square(cos(a)) + Square(sin(a)) == 1.0) &&
      (forall t :: cos(arctan(t)) > 0.0 && sin(arctan(t)) == t * cos(arctan(t)))
    }

    /** `norm(x, y)` is the Euclidean length of the vector (x, y). */
    ghost predicate NormSound() {
      forall x, y :: norm(x, y) >= 0.0 && Square(norm(x, y)) == Square(x) + Square(y)
    }

    ghost predicate Sound() { TrigSound() && NormSound() }

    /** `np.linalg.norm(p - q)`. */
    function Dist(p: Point, q: Point): real { norm(p.x - q.x, p.y - q.y) }
  }

  /** A square is non-negative, and positive away from zero. */
  lemma SquarePositive(u: real)
    ensures Square(u) >= 0.0
    ensures u != 0.0 ==> Square(u) > 0.0
  {
    if u != 0.0 {
      assert u * Same(u) > 0.0;
    }
  }

  /** A sum of two squares is zero only at the origin. */
  lemma SqNormZero(p: Point)
    ensures SqNorm(p) >= 0.0
    ensures SqNorm(p) == 0.0 <==> p == Point(0.0, 0.0)
  {
    SquarePositive(p.x);
    SquarePositive(p.y);
  }

  /** With a Euclidean `norm`, `Dist` is the non-negative square root of the squared
      distance, and it vanishes exactly when the points coincide. */
  lemma DistIsEuclidean(lib: Lib, p: Point, q: Point)
    requires lib.NormSound()
    ensures lib.Dist(p, q) >= 0.0
    ensures Square(lib.Dist(p, q)) == SqDist(p, q)
    ensures lib.Dist(p, q) == 0.0 <==> p == q
  {
    var v := Sub(p, q);
    var d := lib.norm(v.x, v.y);
    assert d == lib.Dist(p, q);
    assert d >= 0.0 && Square(d) == SqNorm(v);
    SqNormZero(v);
    SquarePositive(d);
    assert d == 0.0 <==> SqNorm(v) == 0.0;
    SubZero(p, q);
  }

  lemma SubZero(p: Point, q: Point)
    ensures Sub(p, q) == Point(0.0, 0.0) <==> p == q
  {
    assert Sub(p, q) == Point(0.0, 0.0) <==> p.x == q.x && p.y == q.y;
  }

  /** Of two non-negative numbers, the larger has the larger square. */
  lemma SquareMonotone(u: real, v: real)
    requires u >= 0.0 && v >= 0.0
    ensures u > v <==> Square(u) > Square(v)
  {
    var a, b := u - v, u + v;
    assert Square(u) - Square(v) == a * b;
    if u > v {
      assert a > 0.0 && b > 0.0;
      assert a * b > 0.0;
    } else if u < v {
      assert -a > 0.0 && b > 0.0;
      assert (-a) * b > 0.0;
    }
  }

  /** Comparing Euclidean distances is the same decision as comparing squared
      distances. */
  lemma DistCompare(lib: Lib, p: Point, q1: Point, q2: Point)
    ensures lib.NormSound() ==>
              (lib.Dist(p, q1) > lib.Dist(p, q2) <==> SqDist(p, q1) > SqDist(p, q2))
  {
    if lib.NormSound() {
      DistIsEuclidean(lib, p, q1);
      DistIsEuclidean(lib, p, q2);
      SquareMonotone(lib.Dist(p, q1), lib.Dist(p, q2));
    }
  }

  /** A Euclidean `norm` of a vector whose length is known exactly. */
  lemma DistExact(lib: Lib, p: Point, q: Point, d: real)
    requires lib.NormSound()
    requires d >= 0.0 && Square(d) == SqDist(p, q)
    ensures lib.Dist(p, q) == d
  {
    DistIsEuclidean(lib, p, q);
    var n := lib.Dist(p, q);
    if n > d {
      SquareMonotone(n, d);
    } else if n < d {
      SquareMonotone(d, n);
    }
  }
}
