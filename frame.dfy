/** The reference frame of one pose and the three transforms of `PoseDetector`,
    as functions on values: `calculate_neck`, `calculate_furthest_shoulder`,
    `calculate_angle`, and the effect of `center`, `rotate` and `normalize` on a
    list of rows. The methods that perform the transforms in place on the buffer
    are proved against these functions. */
module PoseFrame {
  import opened Numerics

  /** Which of the two shoulder rows `calculate_furthest_shoulder` hands back. */
  datatype Side = Left | Right

  /** The row of the landmark buffer that holds each shoulder. */
  function ShoulderRow(side: Side): (k: nat)
    ensures k == 1 || k == 2
  {
    match side
    case Left => 1
    case Right => 2
  }

  /** `calculate_neck`: the elementwise mean of nose and both shoulders. The three
      displacements from the neck cancel, which characterises the mean. */
  function Neck(nose: Point, leftShoulder: Point, rightShoulder: Point): (neck: Point)
    ensures Add(Add(Sub(nose, neck), Sub(leftShoulder, neck)), Sub(rightShoulder, neck))
            == Point(0.0, 0.0)
  {
    Point((nose.x + leftShoulder.x + rightShoulder.x) / 3.0,
          (nose.y + leftShoulder.y + rightShoulder.y) / 3.0)
  }

  /** `calculate_furthest_shoulder`: the left shoulder only when its distance to
      `neck` is strictly greater; on a tie, the right one. */
  function FurthestShoulder(lib: Lib, neck: Point, leftShoulder: Point, rightShoulder: Point)
    : (side: Side)
    ensures lib.NormSound() ==>
              (side == Left <==> SqDist(neck, leftShoulder) > SqDist(neck, rightShoulder))
  {
    DistCompare(lib, neck, leftShoulder, rightShoulder);
    if lib.Dist(neck, leftShoulder) > lib.Dist(neck, rightShoulder) then Left else Right
  }

  /** `calculate_angle`: the single-argument arctangent of the slope from `neck` to
      `shoulder`. The angle's tangent is that slope and its cosine is positive
      (the angle lies strictly between -pi/2 and pi/2). */
  function Angle(lib: Lib, neck: Point, shoulder: Point): (alpha: real)
    requires shoulder.x != neck.x
    ensures lib.TrigSound() ==>
              lib.cos(alpha) > 0.0 &&
              lib.sin(alpha) * (shoulder.x - neck.x) == (shoulder.y - neck.y) * lib.cos(alpha)
  {
    var slope := (shoulder.y - neck.y) / (shoulder.x - neck.x);
    assert slope * (shoulder.x - neck.x) == shoulder.y - neck.y;
    lib.arctan(slope)
  }

  /** The effect of `center`: every row moved by `-v`. */
  function Translated(ps: seq<Point>, v: Point): seq<Point>
  {
    seq(|ps|, i requires 0 <= i < |ps| => Sub(ps[i], v))
  }

  /** One row of `rotate`: the standard 2D rotation with cosine `c` and sine `s`,
      both computed from the row's coordinates before either is overwritten. */
  function RotatePoint(p: Point, c: real, s: real): Point
  {
    Point(p.x * c - p.y * s, p.x * s + p.y * c)
  }

  /** The effect of `rotate` on every row. */
  function Rotated(ps: seq<Point>, c: real, s: real): seq<Point>
  {
    seq(|ps|, i requires 0 <= i < |ps| => RotatePoint(ps[i], c, s))
  }

  /** Both coordinates divided by `d`. */
  function DivPoint(p: Point, d: real): Point
    requires d != 0.0
  {
    Point(p.x / d, p.y / d)
  }

  /** The `furthest_shoulder` argument of `normalize`: either a point of its own,
      or a row of the buffer being normalised, which `normalize` then reads after
      each of its own writes (a numpy row view). */
  datatype Reference = Detached(p: Point) | RowView(k: nat)

  /** The reference row once `normalize` has divided its x coordinate. */
  function HalfScaled(lib: Lib, neck: Point, p: Point): Point
    requires lib.Dist(neck, p) != 0.0
  {
    Point(p.x / lib.Dist(neck, p), p.y)
  }

  /** The reference row once `normalize` has divided both of its coordinates: the y
      divisor is the distance to the half-scaled row. */
  function FullyScaled(lib: Lib, neck: Point, p: Point): Point
    requires lib.Dist(neck, p) != 0.0 && lib.Dist(neck, HalfScaled(lib, neck, p)) != 0.0
  {
    Point(p.x / lib.Dist(neck, p), p.y / lib.Dist(neck, HalfScaled(lib, neck, p)))
  }

  /** Every division `normalize` performs on `ps` has a nonzero divisor. */
  predicate NormalizeDefined(lib: Lib, ps: seq<Point>, neck: Point, ref: Reference)
  {
    match ref
    case Detached(q) => |ps| > 0 ==> lib.Dist(neck, q) != 0.0
    case RowView(k) =>
      k < |ps| &&
      lib.Dist(neck, ps[k]) != 0.0 &&
      lib.Dist(neck, HalfScaled(lib, neck, ps[k])) != 0.0 &&
      (k + 1 < |ps| ==> lib.Dist(neck, FullyScaled(lib, neck, ps[k])) != 0.0)
  }

  /** The effect of `normalize`. With a detached reference every row is divided by
      one distance. With a row view, rows before the view are divided by the
      distance to the view as it was, the view's y by the distance after its x
      was divided, and later rows by the distance to the fully divided view. */
  function Normalized(lib: Lib, ps: seq<Point>, neck: Point, ref: Reference): seq<Point>
    requires NormalizeDefined(lib, ps, neck, ref)
  {
    match ref
    case Detached(q) =>
      seq(|ps|, i requires 0 <= i < |ps| => DivPoint(ps[i], lib.Dist(neck, q)))
    case RowView(k) =>
      seq(|ps|, i requires 0 <= i < |ps| =>
            if i < k then DivPoint(ps[i], lib.Dist(neck, ps[k]))
            else if i == k then FullyScaled(lib, neck, ps[k])
            else DivPoint(ps[i], lib.Dist(neck, FullyScaled(lib, neck, ps[k]))))
  }

  // Centring

  /** The mean commutes with translation. */
  lemma NeckTranslates(nose: Point, leftShoulder: Point, rightShoulder: Point, v: Point)
    ensures Neck(Sub(nose, v), Sub(leftShoulder, v), Sub(rightShoulder, v))
            == Sub(Neck(nose, leftShoulder, rightShoulder), v)
  {
  }

  /** Centring on the mean of the first three rows puts that mean at the origin. */
  lemma CentringMovesNeckToOrigin(ps: seq<Point>)
    requires |ps| >= 3
    ensures var c := Translated(ps, Neck(ps[0], ps[1], ps[2]));
            |c| == |ps| && Neck(c[0], c[1], c[2]) == Point(0.0, 0.0)
  {
    var neck := Neck(ps[0], ps[1], ps[2]);
    var c := Translated(ps, neck);
    NeckTranslates(ps[0], ps[1], ps[2], neck);
    assert c[0] == Sub(ps[0], neck) && c[1] == Sub(ps[1], neck) && c[2] == Sub(ps[2], neck);
  }

  /** Centring is undone by the opposite translation, and it keeps the row count. */
  lemma TranslatedInverse(ps: seq<Point>, v: Point)
    ensures |Translated(ps, v)| == |ps|
    ensures Translated(Translated(ps, v), Point(-v.x, -v.y)) == ps
  {
    var back := Translated(Translated(ps, v), Point(-v.x, -v.y));
    assert forall i :: 0 <= i < |ps| ==> back[i] == ps[i];
  }

  /** Centring is a rigid translation: the vector between any two rows is kept. */
  lemma TranslatedKeepsDifferences(ps: seq<Point>, v: Point, i: nat, j: nat)
    requires i < |ps| && j < |ps|
    ensures Sub(Translated(ps, v)[i], Translated(ps, v)[j]) == Sub(ps[i], ps[j])
  {
  }

  // Rotation

  /** A rotation by an angle on the unit circle keeps a point's squared distance
      from the origin. */
  lemma RotatePointKeepsSqNorm(p: Point, c: real, s: real)
    requires Square(c) + Square(s) == 1.0
    ensures SqNorm(RotatePoint(p, c, s)) == SqNorm(p)
  {
    var r := RotatePoint(p, c, s);
    calc {
      SqNorm(r);
      Square(p.x * c - p.y * s) + Square(p.x * s + p.y * c);
      (Square(p.x) + Square(p.y)) * (Square(c) + Square(s));
      SqNorm(p);
    }
  }

  /** `rotate` keeps every row's squared distance from the origin, and the row count. */
  lemma RotatedKeepsSqNorms(ps: seq<Point>, c: real, s: real)
    requires Square(c) + Square(s) == 1.0
    ensures |Rotated(ps, c, s)| == |ps|
    ensures forall i :: 0 <= i < |ps| ==> SqNorm(Rotated(ps, c, s)[i]) == SqNorm(ps[i])
  {
    forall i | 0 <= i < |ps|
      ensures SqNorm(Rotated(ps, c, s)[i]) == SqNorm(ps[i])
    {
      RotatePointKeepsSqNorm(ps[i], c, s);
    }
  }

  /** Rotation is linear: it maps the difference of two rows to the difference of
      their images. */
  lemma RotatePointLinear(p: Point, q: Point, c: real, s: real)
    ensures Sub(RotatePoint(p, c, s), RotatePoint(q, c, s)) == RotatePoint(Sub(p, q), c, s)
  {
    assert (p.x * c - p.y * s) - (q.x * c - q.y * s) == (p.x - q.x) * c - (p.y - q.y) * s;
    assert (p.x * s + p.y * c) - (q.x * s + q.y * c) == (p.x - q.x) * s + (p.y - q.y) * c;
  }

  /** `rotate` is rigid: it keeps the squared distance between any two rows. */
  lemma RotatedKeepsSqDistances(ps: seq<Point>, c: real, s: real, i: nat, j: nat)
    requires Square(c) + Square(s) == 1.0
    requires i < |ps| && j < |ps|
    ensures SqDist(Rotated(ps, c, s)[i], Rotated(ps, c, s)[j]) == SqDist(ps[i], ps[j])
  {
    RotatePointLinear(ps[i], ps[j], c, s);
    RotatePointKeepsSqNorm(Sub(ps[i], ps[j]), c, s);
  }

  /** Rotating back by the opposite angle (same cosine, negated sine) restores a point. */
  lemma RotatePointInverse(p: Point, c: real, s: real)
    requires Square(c) + Square(s) == 1.0
    ensures RotatePoint(RotatePoint(p, c, s), c, -s) == p
  {
    var r := RotatePoint(p, c, s);
    calc {
      r.x * c + r.y * s;
      p.x * (Square(c) + Square(s));
      p.x;
    }
    calc {
      -r.x * s + r.y * c;
      p.y * (Square(c) + Square(s));
      p.y;
    }
  }

  /** `rotate` is undone by the rotation through the opposite angle. */
  lemma RotatedInverse(ps: seq<Point>, c: real, s: real)
    requires Square(c) + Square(s) == 1.0
    ensures Rotated(Rotated(ps, c, s), c, -s) == ps
  {
    var back := Rotated(Rotated(ps, c, s), c, -s);
    forall i | 0 <= i < |ps|
      ensures back[i] == ps[i]
    {
      RotatePointInverse(ps[i], c, s);
    }
  }

  /** What `rotate`, driven by `calculate_angle`, does to the direction from `neck`
      to `shoulder`: rotating it by the computed angle leaves a vertical component of
      twice its original one (scaled by the positive cosine), so it comes out level
      only when it was level already; rotating by the opposite angle would level it. */
  lemma AngleRotationTilt(lib: Lib, neck: Point, shoulder: Point)
    requires lib.TrigSound()
    requires shoulder.x != neck.x
    ensures var alpha := Angle(lib, neck, shoulder);
            var d := Sub(shoulder, neck);
            RotatePoint(d, lib.cos(alpha), lib.sin(alpha)).y == 2.0 * d.y * lib.cos(alpha) &&
            (RotatePoint(d, lib.cos(alpha), lib.sin(alpha)).y == 0.0 <==> d.y == 0.0) &&
            RotatePoint(d, lib.cos(alpha), -lib.sin(alpha)).y == 0.0
  {
    var alpha := Angle(lib, neck, shoulder);
    var d := Sub(shoulder, neck);
    var c, s := lib.cos(alpha), lib.sin(alpha);
    assert s * d.x == d.y * c;
    assert RotatePoint(d, c, s).y == 2.0 * d.y * c;
    if d.y != 0.0 {
      assert c > 0.0;
      assert d.y * c != 0.0;
    }
  }

  // Scaling

  /** With a detached reference, `normalize` divides every row by one and the same
      positive distance, and multiplying back by it recovers the input. */
  lemma NormalizedDetachedIsUniform(lib: Lib, ps: seq<Point>, neck: Point, q: Point)
    requires lib.NormSound()
    requires NormalizeDefined(lib, ps, neck, Detached(q))
    ensures var r := Normalized(lib, ps, neck, Detached(q));
            |r| == |ps| &&
            (|ps| > 0 ==> lib.Dist(neck, q) > 0.0) &&
            forall i :: 0 <= i < |ps| ==> Times(r[i], lib.Dist(neck, q)) == ps[i]
  {
    var r := Normalized(lib, ps, neck, Detached(q));
    var d := lib.Dist(neck, q);
    DistIsEuclidean(lib, neck, q);
    forall i | 0 <= i < |ps|
      ensures Times(r[i], d) == ps[i]
    {
      assert r[i] == DivPoint(ps[i], d);
      assert (ps[i].x / d) * d == ps[i].x && (ps[i].y / d) * d == ps[i].y;
    }
  }

  /** With the reference a row view `k`, each row is still recovered by multiplying
      back, but by one of three positive distances: the rows before `k` by the
      distance to the original view, row `k`'s x by that same distance and its y by
      the distance to the half-divided view, and the rows after `k` by the distance
      to the final view. */
  lemma NormalizedRowViewDivisors(lib: Lib, ps: seq<Point>, neck: Point, k: nat)
    requires lib.NormSound()
    requires NormalizeDefined(lib, ps, neck, RowView(k))
    ensures var r := Normalized(lib, ps, neck, RowView(k));
            var d0 := lib.Dist(neck, ps[k]);
            var d1 := lib.Dist(neck, Point(r[k].x, ps[k].y));
            var d2 := lib.Dist(neck, r[k]);
            |r| == |ps| && d0 > 0.0 && d1 > 0.0 &&
            (forall i :: 0 <= i < k ==> Times(r[i], d0) == ps[i]) &&
            r[k].x * d0 == ps[k].x && r[k].y * d1 == ps[k].y &&
            (k + 1 < |ps| ==> d2 > 0.0) &&
            (forall i :: k < i < |ps| ==> Times(r[i], d2) == ps[i])
  {
    var r := Normalized(lib, ps, neck, RowView(k));
    var d0 := lib.Dist(neck, ps[k]);
    var half := HalfScaled(lib, neck, ps[k]);
    var d1 := lib.Dist(neck, half);
    DistIsEuclidean(lib, neck, ps[k]);
    DistIsEuclidean(lib, neck, half);
    assert r[k] == FullyScaled(lib, neck, ps[k]);
    assert Point(r[k].x, ps[k].y) == half;
    assert (ps[k].x / d0) * d0 == ps[k].x && (ps[k].y / d1) * d1 == ps[k].y;
    forall i | 0 <= i < k
      ensures Times(r[i], d0) == ps[i]
    {
      assert r[i] == DivPoint(ps[i], d0);
      assert (ps[i].x / d0) * d0 == ps[i].x && (ps[i].y / d0) * d0 == ps[i].y;
    }
    if k + 1 < |ps| {
      var d2 := lib.Dist(neck, r[k]);
      DistIsEuclidean(lib, neck, r[k]);
      forall i | k < i < |ps|
        ensures Times(r[i], d2) == ps[i]
      {
        assert r[i] == DivPoint(ps[i], d2);
        assert (ps[i].x / d2) * d2 == ps[i].x && (ps[i].y / d2) * d2 == ps[i].y;
      }
    }
  }

  /** The Euclidean distance from the origin to a point on the positive x axis. */
  lemma DistAlongAxis(lib: Lib, v: real)
    requires lib.NormSound()
    requires v >= 0.0
    ensures lib.Dist(Point(0.0, 0.0), Point(v, 0.0)) == v
  {
    assert Square(-v) == Square(v);
    assert SqDist(Point(0.0, 0.0), Point(v, 0.0)) == Square(v);
    DistExact(lib, Point(0.0, 0.0), Point(v, 0.0), v);
  }

  /** Through a row view, `normalize` is not one common scaling: here two equal rows,
      one before and one after the view, come out different, because the view row
      has been divided in between. */
  lemma NormalizedRowViewNotUniform(lib: Lib)
    requires lib.NormSound()
    ensures var ps := [Point(2.0, 2.0), Point(2.0, 0.0), Point(2.0, 2.0)];
            NormalizeDefined(lib, ps, Point(0.0, 0.0), RowView(1)) &&
            Normalized(lib, ps, Point(0.0, 0.0), RowView(1))
              == [Point(1.0, 1.0), Point(1.0, 0.0), Point(2.0, 2.0)]
  {
    var neck := Point(0.0, 0.0);
    var ps := [Point(2.0, 2.0), Point(2.0, 0.0), Point(2.0, 2.0)];
    DistAlongAxis(lib, 2.0);
    DistAlongAxis(lib, 1.0);
    assert HalfScaled(lib, neck, ps[1]) == Point(1.0, 0.0);
    assert FullyScaled(lib, neck, ps[1]) == Point(1.0, 0.0);
    var r := Normalized(lib, ps, neck, RowView(1));
    assert r[0] == DivPoint(ps[0], 2.0) == Point(1.0, 1.0);
    assert r[2] == DivPoint(ps[2], 1.0) == Point(2.0, 2.0);
  }
}
