/** `PoseDetector.getPosition`: select the nine body landmarks of a detected pose
    into an n-by-2 buffer of pixel coordinates, then centre, rotate and scale that
    buffer in place. The shoulders and the furthest shoulder are numpy row views of
    the buffer, so the later stages see what the earlier ones wrote. */
module PoseDetector {
  import opened Numerics
  import opened PoseFrame
  import opened PoseTransforms

  /** The ids of the landmarks kept: nose, left and right shoulder, elbow, wrist
      and hip. */
  const LANDMARKS: seq<nat> := [0, 11, 12, 13, 14, 15, 16, 23, 24]

  /** One landmark of the detector's output, in fractions of the image size. */
  datatype Landmark = Landmark(x: real, y: real)

  /** What the detector reports for a frame: no pose, or its landmark list. */
  datatype PoseLandmarks = NoPose | Landmarks(list: seq<Landmark>)

  /** Why `getPosition` raised instead of returning. */
  datatype PositionError = IndexError

  /** What `getPosition` ends with: the buffer it returns, or the exception. */
  datatype Position = Returned(buffer: array2<real>) | Raised(error: PositionError)

  /** `int(lm.x * w), int(lm.y * h)`, as the float row numpy stores. */
  function Pixel(lm: Landmark, w: nat, h: nat): Point
  {
    Point(Trunc(lm.x * w as real) as real, Trunc(lm.y * h as real) as real)
  }

  /** The ids below `n` that selection keeps, in the order it meets them. */
  function KeptIds(n: nat): seq<nat>
  {
    if n == 0 then [] else KeptIds(n - 1) + (if n - 1 in LANDMARKS then [n - 1] else [])
  }

  /** The rows selection appends for the landmark list `lms`, in order. */
  function Select(lms: seq<Landmark>, w: nat, h: nat): seq<Point>
  {
    if |lms| == 0 then []
    else
      var n := |lms| - 1;
      Select(lms[..n], w, h) + (if n in LANDMARKS then [Pixel(lms[n], w, h)] else [])
  }

  /** The selection loop of `getPosition`: one row per landmark whose id is in
      `LANDMARKS`, appended in id order. */
  method SelectLandmarks(lms: seq<Landmark>, w: nat, h: nat) returns (rows: seq<Point>)
    ensures rows == Select(lms, w, h)
  {
    rows := [];
    for id := 0 to |lms|
      invariant rows == Select(lms[..id], w, h)
    {
      ghost var next := lms[..id + 1];
      assert next[..id] == lms[..id] && next[id] == lms[id];
      assert Select(next, w, h)
             == Select(lms[..id], w, h) + (if id in LANDMARKS then [Pixel(lms[id], w, h)] else []);
      if id in LANDMARKS {
        var cx, cy := Trunc(lms[id].x * w as real), Trunc(lms[id].y * h as real);
        rows := rows + [Point(cx as real, cy as real)];
      }
    }
    assert lms[..|lms|] == lms;
  }

  /** The row `calculate_furthest_shoulder` picks: it compares the UNCENTRED neck
      with the shoulder rows as `center` has left them. */
  function ReferenceRow(lib: Lib, rows: seq<Point>): (k: nat)
    requires |rows| >= 3
    ensures k == 1 || k == 2
  {
    var neck := Neck(rows[0], rows[1], rows[2]);
    var centred := Translated(rows, neck);
    ShoulderRow(FurthestShoulder(lib, neck, centred[1], centred[2]))
  }

  /** The angle `calculate_angle` computes from the uncentred neck and the centred
      reference row. */
  function PipelineAngle(lib: Lib, rows: seq<Point>): real
    requires |rows| >= 3
    requires Translated(rows, Neck(rows[0], rows[1], rows[2]))[ReferenceRow(lib, rows)].x
             != Neck(rows[0], rows[1], rows[2]).x
  {
    var neck := Neck(rows[0], rows[1], rows[2]);
    Angle(lib, neck, Translated(rows, neck)[ReferenceRow(lib, rows)])
  }

  /** The buffer after `center` and `rotate`. */
  function Rotation(lib: Lib, rows: seq<Point>): seq<Point>
    requires |rows| >= 3
    requires Translated(rows, Neck(rows[0], rows[1], rows[2]))[ReferenceRow(lib, rows)].x
             != Neck(rows[0], rows[1], rows[2]).x
  {
    var alpha := PipelineAngle(lib, rows);
    Rotated(Translated(rows, Neck(rows[0], rows[1], rows[2])), lib.cos(alpha), lib.sin(alpha))
  }

  /** No division in the pipeline has a zero divisor: the slope's run and every
      distance `normalize` divides by are nonzero. */
  predicate PipelineDefined(lib: Lib, rows: seq<Point>)
  {
    |rows| >= 3 ==>
      var neck := Neck(rows[0], rows[1], rows[2]);
      Translated(rows, neck)[ReferenceRow(lib, rows)].x != neck.x &&
      NormalizeDefined(lib, Rotation(lib, rows), neck, RowView(ReferenceRow(lib, rows)))
  }

  /** The rows `getPosition` returns for the selected rows `rows`. */
  function Pipeline(lib: Lib, rows: seq<Point>): seq<Point>
    requires |rows| >= 3 && PipelineDefined(lib, rows)
  {
    Normalized(lib, Rotation(lib, rows), Neck(rows[0], rows[1], rows[2]),
               RowView(ReferenceRow(lib, rows)))
  }

  /** `getPosition`, without drawing. With no pose it returns the empty 0-by-2
      buffer. With fewer than three selected rows `lmList[0..2]` raises. Otherwise
      it returns a new buffer holding `Pipeline` of the selected rows. */
  method GetPosition(pose: PoseLandmarks, w: nat, h: nat, lib: Lib) returns (result: Position)
    requires pose.Landmarks? ==> PipelineDefined(lib, Select(pose.list, w, h))
    ensures pose.NoPose? ==>
              result.Returned? && fresh(result.buffer) &&
              result.buffer.Length0 == 0 && result.buffer.Length1 == 2
    ensures pose.Landmarks? && |Select(pose.list, w, h)| < 3 ==> result == Raised(IndexError)
    ensures pose.Landmarks? && |Select(pose.list, w, h)| >= 3 ==>
              result.Returned? && fresh(result.buffer) && result.buffer.Length1 == 2 &&
              Rows(result.buffer) == Pipeline(lib, Select(pose.list, w, h))
  {
    var lmList := new real[0, 2];
    if pose.NoPose? {
      return Returned(lmList);
    }
    var rows := SelectLandmarks(pose.list, w, h);
    if |rows| < 3 {
      return Raised(IndexError);
    }
    lmList := new real[|rows|, 2]((i, j) requires 0 <= i < |rows| && 0 <= j < 2 =>
                                    if j == 0 then rows[i].x else rows[i].y);
    forall i | 0 <= i < |rows|
      ensures Rows(lmList)[i] == rows[i]
    {
      assert lmList[i, 0] == rows[i].x && lmList[i, 1] == rows[i].y;
    }
    assert Rows(lmList) == rows;
    // nose, left_shoulder and right_shoulder are views of rows 0, 1 and 2
    var neck := Neck(RowAt(lmList, 0), RowAt(lmList, 1), RowAt(lmList, 2));
    lmList := Center(lmList, neck);
    var side := FurthestShoulder(lib, neck, RowAt(lmList, 1), RowAt(lmList, 2));
    var furthest := RowView(ShoulderRow(side));
    assert furthest.k == ReferenceRow(lib, rows);
    var alpha := Angle(lib, neck, ReferencePoint(lmList, furthest));
    assert alpha == PipelineAngle(lib, rows);
    lmList := Rotate(lmList, alpha, lib);
    assert Rows(lmList) == Rotation(lib, rows);
    lmList := Normalize(lmList, neck, furthest, lib);
    return Returned(lmList);
  }

  // Selection

  /** Selection keeps exactly the ids below `n` that are in `LANDMARKS`. */
  lemma {:induction false} KeptIdsExact(n: nat)
    ensures forall id :: id in KeptIds(n) <==> id in LANDMARKS && id < n
  {
    if n > 0 {
      KeptIdsExact(n - 1);
      assert KeptIds(n) == KeptIds(n - 1) + (if n - 1 in LANDMARKS then [n - 1] else []);
    }
  }

  /** The kept ids are below `n` and strictly increasing. */
  lemma {:induction false} KeptIdsIncreasing(n: nat)
    ensures forall i :: 0 <= i < |KeptIds(n)| ==> KeptIds(n)[i] < n
    ensures Increasing(KeptIds(n))
  {
    if n > 0 {
      KeptIdsIncreasing(n - 1);
    }
  }

  /** Row `j` of the selection is the pixel position of the landmark whose id is the
      `j`-th kept id. */
  lemma {:induction false} SelectRows(lms: seq<Landmark>, w: nat, h: nat)
    ensures |Select(lms, w, h)| == |KeptIds(|lms|)|
    ensures forall j :: 0 <= j < |KeptIds(|lms|)| ==> KeptIds(|lms|)[j] < |lms|
    ensures forall j :: 0 <= j < |Select(lms, w, h)| ==>
              Select(lms, w, h)[j] == Pixel(lms[KeptIds(|lms|)[j]], w, h)
  {
    KeptIdsIncreasing(|lms|);
    if |lms| > 0 {
      var n := |lms| - 1;
      var prefix := lms[..n];
      SelectRows(prefix, w, h);
      assert |prefix| == n;
      forall j | 0 <= j < |Select(prefix, w, h)|
        ensures Select(prefix, w, h)[j] == Pixel(lms[KeptIds(n)[j]], w, h)
      {
        assert lms[KeptIds(n)[j]] == prefix[KeptIds(n)[j]];
      }
    }
  }

  predicate Increasing(s: seq<nat>)
  {
    forall i, j :: 0 <= i < j < |s| ==> s[i] < s[j]
  }

  /** A strictly increasing sequence is determined by its elements. */
  lemma {:induction false} IncreasingByElements(s: seq<nat>, t: seq<nat>)
    requires Increasing(s) && Increasing(t)
    requires forall x :: x in s <==> x in t
    ensures s == t
  {
    if |s| > 0 {
      assert s[0] in t;
    }
    if |t| > 0 {
      assert t[0] in s;
    }
    if |s| > 0 {
      assert s[0] == t[0];
      forall x
        ensures x in s[1..] <==> x in t[1..]
      {
        if x in s[1..] {
          assert x in t && x != t[0];
        }
        if x in t[1..] {
          assert x in s && x != s[0];
        }
      }
      IncreasingByElements(s[1..], t[1..]);
      assert s == [s[0]] + s[1..] && t == [t[0]] + t[1..];
    }
  }

  /** Any list of at least 25 landmarks (the detector reports 33) keeps all of
      `LANDMARKS`, in that order. */
  lemma KeptIdsOfFullList(n: nat)
    requires n >= 25
    ensures KeptIds(n) == LANDMARKS
  {
    KeptIdsExact(n);
    KeptIdsIncreasing(n);
    assert Increasing(LANDMARKS);
    IncreasingByElements(KeptIds(n), LANDMARKS);
  }

  /** With the detector's full landmark list, selection gives nine rows: the
      landmarks with ids 0, 11, 12, 13, 14, 15, 16, 23 and 24 in that order, so
      nose, left shoulder and right shoulder are rows 0, 1 and 2. */
  lemma FullPoseSelection(lms: seq<Landmark>, w: nat, h: nat)
    requires |lms| >= 25
    ensures |Select(lms, w, h)| == 9
    ensures forall j :: 0 <= j < 9 ==> Select(lms, w, h)[j] == Pixel(lms[LANDMARKS[j]], w, h)
    ensures Select(lms, w, h)[0] == Pixel(lms[0], w, h)
    ensures Select(lms, w, h)[1] == Pixel(lms[11], w, h)
    ensures Select(lms, w, h)[2] == Pixel(lms[12], w, h)
  {
    KeptIdsOfFullList(|lms|);
    SelectRows(lms, w, h);
  }

  // The pipeline

  /** The buffer keeps its rows through all three stages. */
  lemma PipelineKeepsRows(lib: Lib, rows: seq<Point>)
    requires |rows| >= 3 && PipelineDefined(lib, rows)
    ensures |Pipeline(lib, rows)| == |rows|
  {
  }

  /** Because the shoulders are read after centring while the neck is not, the
      shoulder choice compares the raw shoulders' distances from TWICE the neck:
      row 1 exactly when the left shoulder is strictly farther from it. */
  lemma ReferenceRowFromRaw(lib: Lib, rows: seq<Point>)
    requires lib.NormSound()
    requires |rows| >= 3
    ensures var twice := Times(Neck(rows[0], rows[1], rows[2]), 2.0);
            ReferenceRow(lib, rows) == 1 <==> SqDist(twice, rows[1]) > SqDist(twice, rows[2])
  {
    var neck := Neck(rows[0], rows[1], rows[2]);
    var centred := Translated(rows, neck);
    var twice := Times(neck, 2.0);
    assert Sub(neck, centred[1]) == Sub(twice, rows[1]);
    assert Sub(neck, centred[2]) == Sub(twice, rows[2]);
  }

  /** After `center` and `rotate`, every row keeps its squared distance from the
      neck. */
  lemma RotationKeepsDistancesFromNeck(lib: Lib, rows: seq<Point>)
    requires lib.TrigSound()
    requires |rows| >= 3 && PipelineDefined(lib, rows)
    ensures |Rotation(lib, rows)| == |rows|
    ensures forall i :: 0 <= i < |rows| ==>
              SqNorm(Rotation(lib, rows)[i]) == SqDist(rows[i], Neck(rows[0], rows[1], rows[2]))
  {
    var neck := Neck(rows[0], rows[1], rows[2]);
    var alpha := PipelineAngle(lib, rows);
    assert Square(lib.cos(alpha)) + Square(lib.sin(alpha)) == 1.0;
    RotatedKeepsSqNorms(Translated(rows, neck), lib.cos(alpha), lib.sin(alpha));
  }

  /** A frame in which the shoulders are level and symmetric about the nose:
      nose, shoulders, elbows, wrists and hips, as selection orders them. */
  const SymmetricFrame: seq<Point> :=
    [Point(100.0, 50.0), Point(80.0, 100.0), Point(120.0, 100.0),
     Point(70.0, 150.0), Point(130.0, 150.0), Point(60.0, 200.0),
     Point(140.0, 200.0), Point(85.0, 180.0), Point(115.0, 180.0)]

  /** In `SymmetricFrame` the raw distances from the neck tie. Computed from the raw
      rows, the furthest shoulder would be the right one, with angle arctan(5/6).
      The pipeline instead picks the left one (row 1), and its angle is arctan(5/9),
      taken from the uncentred neck (100, 250/3) and the centred left shoulder
      (-20, 50/3). */
  lemma SymmetricShouldersPickLeft(lib: Lib)
    requires lib.NormSound()
    ensures var rows := SymmetricFrame;
            var neck := Neck(rows[0], rows[1], rows[2]);
            neck == Point(100.0, 250.0 / 3.0) &&
            SqDist(neck, rows[1]) == SqDist(neck, rows[2]) &&
            FurthestShoulder(lib, neck, rows[1], rows[2]) == Right &&
            Angle(lib, neck, rows[2]) == lib.arctan(5.0 / 6.0) &&
            ReferenceRow(lib, rows) == 1 &&
            PipelineAngle(lib, rows) == lib.arctan(5.0 / 9.0)
  {
    var rows := SymmetricFrame;
    var neck := Neck(rows[0], rows[1], rows[2]);
    assert neck == Point(100.0, 250.0 / 3.0);
    assert Sub(neck, rows[1]) == Point(20.0, -50.0 / 3.0);
    assert Sub(neck, rows[2]) == Point(-20.0, -50.0 / 3.0);
    assert Square(-20.0) == Square(20.0);
    assert (rows[2].y - neck.y) / (rows[2].x - neck.x) == 5.0 / 6.0;
    var centred := Translated(rows, neck);
    assert centred[1] == Point(-20.0, 50.0 / 3.0);
    assert centred[2] == Point(20.0, 50.0 / 3.0);
    assert Sub(neck, centred[1]) == Point(120.0, 200.0 / 3.0);
    assert Sub(neck, centred[2]) == Point(80.0, 200.0 / 3.0);
    assert Square(120.0) > Square(80.0);
    assert ReferenceRow(lib, rows) == 1;
    assert (centred[1].y - neck.y) / (centred[1].x - neck.x) == 5.0 / 9.0;
  }

  /** The end result for `SymmetricFrame`: every division is defined, and the nose
      comes out with a negative y, above the shoulders as image y grows downwards. */
  lemma SymmetricFrameNoseAbove(lib: Lib)
    requires lib.Sound()
    ensures var rows := SymmetricFrame;
            Translated(rows, Neck(rows[0], rows[1], rows[2]))[0] == Point(0.0, -100.0 / 3.0) &&
            PipelineDefined(lib, rows) &&
            Pipeline(lib, rows)[0].y < 0.0
  {
    var rows := SymmetricFrame;
    SymmetricShouldersPickLeft(lib);
    var neck := Neck(rows[0], rows[1], rows[2]);
    var centred := Translated(rows, neck);
    assert centred[0] == Point(0.0, -100.0 / 3.0);
    assert centred[1] == Point(-20.0, 50.0 / 3.0);
    var alpha := PipelineAngle(lib, rows);
    var c, s := lib.cos(alpha), lib.sin(alpha);
    assert c > 0.0 && s == 5.0 / 9.0 * c;
    var rotated := Rotation(lib, rows);
    assert rotated[0] == RotatePoint(centred[0], c, s);
    assert rotated[1] == RotatePoint(centred[1], c, s);
    SymmetricFrameRotatedRows(c, s);
    // the reference row stays left of the neck through both of its divisions
    DistPositiveWhenXDiffers(lib, neck, rotated[1]);
    var d0 := lib.Dist(neck, rotated[1]);
    QuotientNegative(rotated[1].x, d0);
    var half := HalfScaled(lib, neck, rotated[1]);
    DistPositiveWhenXDiffers(lib, neck, half);
    var full := FullyScaled(lib, neck, rotated[1]);
    assert full.x == half.x;
    DistPositiveWhenXDiffers(lib, neck, full);
    assert NormalizeDefined(lib, rotated, neck, RowView(1));
    assert Pipeline(lib, rows)[0] == DivPoint(rotated[0], d0);
    QuotientNegative(rotated[0].y, d0);
  }

  /** With the angle's sine 5/9 of its positive cosine, the rotated nose has a
      negative y and the rotated left shoulder a negative x. */
  lemma SymmetricFrameRotatedRows(c: real, s: real)
    requires c > 0.0 && s == 5.0 / 9.0 * c
    ensures RotatePoint(Point(0.0, -100.0 / 3.0), c, s).y < 0.0
    ensures RotatePoint(Point(-20.0, 50.0 / 3.0), c, s).x < 0.0
  {
    assert RotatePoint(Point(-20.0, 50.0 / 3.0), c, s).x == -(790.0 / 27.0) * c;
  }

  lemma QuotientNegative(a: real, d: real)
    requires a < 0.0 && d > 0.0
    ensures a / d < 0.0
  {
  }

  /** Two points with different x are a positive Euclidean distance apart. */
  lemma DistPositiveWhenXDiffers(lib: Lib, p: Point, q: Point)
    requires lib.NormSound()
    requires p.x != q.x
    ensures lib.Dist(p, q) > 0.0
  {
    DistIsEuclidean(lib, p, q);
  }

  /** The shoulder choice depends on where the pose is in the image. For a pose
      whose nose sits at height 0 between shoulders one pixel to either side, every
      raw shoulder-to-neck distance ties, yet the left shoulder is chosen exactly when
      the nose is right of the image's left edge. */
  lemma ReferenceRowDependsOnPosition(lib: Lib, a: real)
    requires lib.NormSound()
    ensures ReferenceRow(lib, [Point(a, 0.0), Point(a - 1.0, 0.0), Point(a + 1.0, 0.0)]) == 1
            <==> a > 0.0
  {
    var rows := [Point(a, 0.0), Point(a - 1.0, 0.0), Point(a + 1.0, 0.0)];
    ReferenceRowFromRaw(lib, rows);
    LevelShouldersRawChoice(a);
  }

  lemma LevelShouldersRawChoice(a: real)
    ensures var rows := [Point(a, 0.0), Point(a - 1.0, 0.0), Point(a + 1.0, 0.0)];
            var twice := Times(Neck(rows[0], rows[1], rows[2]), 2.0);
            SqDist(twice, rows[1]) > SqDist(twice, rows[2]) <==> a > 0.0
  {
    var rows := [Point(a, 0.0), Point(a - 1.0, 0.0), Point(a + 1.0, 0.0)];
    assert Neck(rows[0], rows[1], rows[2]) == Point(a, 0.0);
    assert Square(a + 1.0) - Square(a - 1.0) == 4.0 * a;
  }
}
