/** `center`, `rotate` and `normalize` as they run: loops over the rows of the
    shared n-by-2 buffer that overwrite each row's two coordinates in place and
    hand the same buffer back. Each is proved against its function in `PoseFrame`. */
module PoseTransforms {
  import opened Numerics
  import opened PoseFrame

  /** Row `i` of the buffer. */
  function RowAt(a: array2<real>, i: nat): Point
    reads a
    requires a.Length1 == 2 && i < a.Length0
  {
    Point(a[i, 0], a[i, 1])
  }

  /** The buffer's rows, first to last. */
  ghost function Rows(a: array2<real>): seq<Point>
    reads a
    requires a.Length1 == 2
  {
    seq(a.Length0, i reads a requires 0 <= i < a.Length0 => RowAt(a, i))
  }

  /** The value `normalize` reads through its `furthest_shoulder` argument at this
      moment: a detached point, or the current contents of a row. */
  function ReferencePoint(a: array2<real>, ref: Reference): Point
    reads a
    requires a.Length1 == 2 && (ref.RowView? ==> ref.k < a.Length0)
  {
    match ref
    case Detached(p) => p
    case RowView(k) => RowAt(a, k)
  }

  /** `center`: subtracts `neck` from every row, in place. */
  method Center(a: array2<real>, neck: Point) returns (r: array2<real>)
    requires a.Length1 == 2
    modifies a
    ensures r == a
    ensures Rows(a) == Translated(old(Rows(a)), neck)
  {
    for i := 0 to a.Length0
      invariant forall j :: 0 <= j < i ==> RowAt(a, j) == Sub(old(RowAt(a, j)), neck)
      invariant forall j :: i <= j < a.Length0 ==> RowAt(a, j) == old(RowAt(a, j))
    {
      a[i, 0] := a[i, 0] - neck.x;
      a[i, 1] := a[i, 1] - neck.y;
    }
    r := a;
  }

  /** `rotate`: replaces every row by its rotation through `alpha`, reading both
      coordinates before writing either. */
  method Rotate(a: array2<real>, alpha: real, lib: Lib) returns (r: array2<real>)
    requires a.Length1 == 2
    modifies a
    ensures r == a
    ensures Rows(a) == Rotated(old(Rows(a)), lib.cos(alpha), lib.sin(alpha))
  {
    for i := 0 to a.Length0
      invariant forall j :: 0 <= j < i ==>
                  RowAt(a, j) == RotatePoint(old(RowAt(a, j)), lib.cos(alpha), lib.sin(alpha))
      invariant forall j :: i <= j < a.Length0 ==> RowAt(a, j) == old(RowAt(a, j))
    {
      var x := a[i, 0];
      var y := a[i, 1];
      assert Point(x, y) == old(RowAt(a, i));
      a[i, 0] := x * lib.cos(alpha) - y * lib.sin(alpha);
      a[i, 1] := x * lib.sin(alpha) + y * lib.cos(alpha);
      assert RowAt(a, i) == RotatePoint(Point(x, y), lib.cos(alpha), lib.sin(alpha));
    }
    r := a;
  }

  /** `normalize`: divides each coordinate of every row by the distance from `neck`
      to the reference, measured afresh before each division. */
  method Normalize(a: array2<real>, neck: Point, furthest: Reference, lib: Lib)
    returns (r: array2<real>)
    requires a.Length1 == 2
    requires NormalizeDefined(lib, Rows(a), neck, furthest)
    modifies a
    ensures r == a
    ensures Rows(a) == Normalized(lib, old(Rows(a)), neck, furthest)
  {
    ghost var ps := Rows(a);
    ghost var result := Normalized(lib, ps, neck, furthest);
    for i := 0 to a.Length0
      invariant forall j :: 0 <= j < i ==> RowAt(a, j) == result[j]
      invariant forall j :: i <= j < a.Length0 ==> RowAt(a, j) == ps[j]
    {
      var shoulder := ReferencePoint(a, furthest);
      assert lib.Dist(neck, shoulder) != 0.0 && a[i, 0] / lib.Dist(neck, shoulder) == result[i].x
      by {
        match furthest
        case Detached(q) =>
        case RowView(k) =>
          if i <= k {
            assert shoulder == ps[k];
          } else {
            assert shoulder == result[k] == FullyScaled(lib, neck, ps[k]);
          }
      }
      a[i, 0] := a[i, 0] / lib.Dist(neck, shoulder);
      shoulder := ReferencePoint(a, furthest);
      assert lib.Dist(neck, shoulder) != 0.0 && a[i, 1] / lib.Dist(neck, shoulder) == result[i].y
      by {
        match furthest
        case Detached(q) =>
        case RowView(k) =>
          if i < k {
            assert shoulder == ps[k];
          } else if i == k {
            assert shoulder == HalfScaled(lib, neck, ps[k]);
          } else {
            assert shoulder == result[k] == FullyScaled(lib, neck, ps[k]);
          }
      }
      a[i, 1] := a[i, 1] / lib.Dist(neck, shoulder);
    }
    r := a;
  }
}
