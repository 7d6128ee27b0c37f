/*
 * Fan triangulation (ModelCreator/BaseMeshCreator.cs): ComputeTriangle cuts
 * every ring of the registry into the triangles (v0, v_i, v_i+1), the private
 * MaxAreaPolygon sums the same triangles' areas, and GetTriangles emits the
 * triangles as a flat index array, with the last two corners swapped when
 * the face is to point the other way.
 */
module Fan {
  import opened Geometry
  import opened PolygonPoint
  import opened Split

  // ---------------------------------------------------------------------------
  // Triangles and their areas
  // ---------------------------------------------------------------------------

  /** The area both loops add for the triangle (a, b, c): |Cross_2d(b - a, c - a) * 0.5|. */
  function TriangleArea(a: Vec2, b: Vec2, c: Vec2): real
  {
    Abs(Cross2d(b.Minus(a), c.Minus(a)) * 0.5)
  }

  /** The fan of a ring: for index 1 .. size - 2 the triangle (first, index, index + 1). */
  function FanTriangles(r: seq<PointValue>): seq<seq<PointValue>>
  {
    if |r| < 3 then [] else seq(|r| - 2, i requires 0 <= i < |r| - 2 => [r[0], r[i + 1], r[i + 2]])
  }

  /** The number of triangles the `while (index < size - 1)` loop makes. */
  function FanCount(n: int): nat
  {
    if n >= 3 then n - 2 else 0
  }

  /** The area of the first `m` fan triangles of `r`. */
  function FanSum(r: seq<PointValue>, m: nat): real
    requires m <= FanCount(|r|)
  {
    if m == 0 then 0.0 else FanSum(r, m - 1) + TriangleArea(r[0].point, r[m].point, r[m + 1].point)
  }

  /** The area the private MaxAreaPolygon computes for one ring. */
  function FanArea(r: seq<PointValue>): real
  {
    FanSum(r, FanCount(|r|))
  }

  /** The summed area of a list of triangles. */
  function TrianglesArea(ts: seq<seq<PointValue>>): real
    requires forall i :: 0 <= i < |ts| ==> |ts[i]| == 3
  {
    if ts == [] then 0.0
    else TrianglesArea(ts[..|ts| - 1]) + TriangleArea(ts[|ts| - 1][0].point, ts[|ts| - 1][1].point, ts[|ts| - 1][2].point)
  }

  /** The loop of the private MaxAreaPolygon over one ring. */
  method RingArea(r: seq<PointValue>) returns (s: real)
    ensures s == FanArea(r)
    ensures s >= 0.0
  {
    s := 0.0;
    var index := 1;
    while index < |r| - 1
      invariant 1 <= index && index - 1 <= FanCount(|r|)
      invariant |r| >= 3 ==> index <= |r| - 1
      invariant s == FanSum(r, index - 1) && s >= 0.0
    {
      s := s + TriangleArea(r[0].point, r[index].point, r[index + 1].point);
      index := index + 1;
    }
    FanAreaNonNegative(r);
  }

  /** The fan has size - 2 triangles, each of three points of the ring, the first one is always first. */
  lemma FanShape(r: seq<PointValue>)
    ensures |FanTriangles(r)| == FanCount(|r|)
    ensures forall i :: 0 <= i < |FanTriangles(r)| ==>
      |FanTriangles(r)[i]| == 3 && FanTriangles(r)[i][0] == r[0] && FanTriangles(r)[i][1] == r[i + 1] && FanTriangles(r)[i][2] == r[i + 2]
  {
  }

  /** Consecutive fan triangles share the diagonal (first, index + 1). */
  lemma FanSharesDiagonals(r: seq<PointValue>, i: int)
    requires 0 <= i < |FanTriangles(r)| - 1
    ensures FanTriangles(r)[i][2] == FanTriangles(r)[i + 1][1]
  {
  }

  /** The area the loops add up is the area of the fan's triangles, so the fan area is never negative. */
  lemma {:induction false} FanSumIsTrianglesArea(r: seq<PointValue>, m: nat)
    requires m <= FanCount(|r|)
    ensures forall i :: 0 <= i < |FanTriangles(r)[..m]| ==> |FanTriangles(r)[..m][i]| == 3
    ensures FanSum(r, m) == TrianglesArea(FanTriangles(r)[..m])
    ensures FanSum(r, m) >= 0.0
    decreases m
  {
    FanShape(r);
    if m > 0 {
      FanSumIsTrianglesArea(r, m - 1);
      var ts := FanTriangles(r)[..m];
      assert ts[..m - 1] == FanTriangles(r)[..m - 1];
      assert ts[m - 1] == [r[0], r[m], r[m + 1]];
    }
  }

  lemma FanAreaNonNegative(r: seq<PointValue>)
    ensures FanArea(r) >= 0.0
  {
    FanSumIsTrianglesArea(r, FanCount(|r|));
  }

  /** A triangle's fan is the triangle itself. */
  lemma TriangleFan(r: seq<PointValue>)
    requires |r| == 3
    ensures FanTriangles(r) == [r]
    ensures FanArea(r) == TriangleArea(r[0].point, r[1].point, r[2].point)
  {
    assert FanTriangles(r)[0] == [r[0], r[1], r[2]] == r;
    assert FanArea(r) == FanSum(r, 1) == FanSum(r, 0) + TriangleArea(r[0].point, r[1].point, r[2].point);
  }

  // ---------------------------------------------------------------------------
  // All rings of a registry
  // ---------------------------------------------------------------------------

  /** The fans of all rings, in registry order. */
  function AllFans(rs: seq<seq<PointValue>>): seq<seq<PointValue>>
  {
    if rs == [] then [] else AllFans(rs[..|rs| - 1]) + FanTriangles(rs[|rs| - 1])
  }

  /** The summed fan area of all rings. */
  function TotalArea(rs: seq<seq<PointValue>>): real
  {
    if rs == [] then 0.0 else TotalArea(rs[..|rs| - 1]) + FanArea(rs[|rs| - 1])
  }

  function TotalCount(rs: seq<seq<PointValue>>): nat
  {
    if rs == [] then 0 else TotalCount(rs[..|rs| - 1]) + FanCount(|rs[|rs| - 1]|)
  }

  /** The registry yields sum(size - 2) triangles, each a triple of points of one ring. */
  lemma {:induction false} AllFansShape(rs: seq<seq<PointValue>>)
    ensures |AllFans(rs)| == TotalCount(rs)
    ensures forall i :: 0 <= i < |AllFans(rs)| ==> |AllFans(rs)[i]| == 3
    ensures TotalArea(rs) >= 0.0
    decreases |rs|
  {
    if rs != [] {
      var front := rs[..|rs| - 1];
      AllFansShape(front);
      FanShape(rs[|rs| - 1]);
      FanAreaNonNegative(rs[|rs| - 1]);
      var a := AllFans(rs);
      forall i | 0 <= i < |a|
        ensures |a[i]| == 3
      {
        if i >= |AllFans(front)| {
          assert a[i] == FanTriangles(rs[|rs| - 1])[i - |AllFans(front)|];
        }
      }
    }
  }

  /** Fan triangles keep the index-to-vertex correspondence of their rings. */
  lemma {:induction false} AllFansIndexMapped(rs: seq<seq<PointValue>>, vertices: seq<Vec2>)
    requires forall j :: 0 <= j < |rs| ==> IndexMapped(rs[j], vertices)
    ensures forall i :: 0 <= i < |AllFans(rs)| ==> IndexMapped(AllFans(rs)[i], vertices)
    decreases |rs|
  {
    if rs != [] {
      var front := rs[..|rs| - 1];
      var last := rs[|rs| - 1];
      AllFansIndexMapped(front, vertices);
      FanIndexMapped(last, vertices);
      var f, t := AllFans(front), FanTriangles(last);
      forall i | 0 <= i < |f + t|
        ensures IndexMapped((f + t)[i], vertices)
      {
        if i >= |f| {
          assert (f + t)[i] == t[i - |f|];
        } else {
          assert (f + t)[i] == f[i];
        }
      }
    }
  }

  /** The fan triangles of an index-mapped ring are index-mapped. */
  lemma FanIndexMapped(r: seq<PointValue>, vertices: seq<Vec2>)
    requires IndexMapped(r, vertices)
    ensures forall i :: 0 <= i < |FanTriangles(r)| ==> IndexMapped(FanTriangles(r)[i], vertices)
  {
    FanShape(r);
  }

  // ---------------------------------------------------------------------------
  // Index emission
  // ---------------------------------------------------------------------------

  /** One triangle's three indices: (first, [1], [2]), or (first, [2], [1]) when flipped. */
  function Triple(t: seq<PointValue>, flip: bool): seq<int>
    requires |t| == 3
  {
    if flip then [t[0].index, t[2].index, t[1].index] else [t[0].index, t[1].index, t[2].index]
  }

  /** The index array GetTriangles fills. */
  function Emit(ts: seq<seq<PointValue>>, flip: bool): seq<int>
    requires forall i :: 0 <= i < |ts| ==> |ts[i]| == 3
  {
    if ts == [] then [] else Emit(ts[..|ts| - 1], flip) + Triple(ts[|ts| - 1], flip)
  }

  /** The array has three entries per triangle, and entries 3i .. 3i + 2 are triangle i's. */
  lemma {:induction false} EmitAt(ts: seq<seq<PointValue>>, flip: bool, i: int)
    requires forall j :: 0 <= j < |ts| ==> |ts[j]| == 3
    requires 0 <= i < |ts|
    ensures |Emit(ts, flip)| == 3 * |ts|
    ensures Emit(ts, flip)[3 * i] == ts[i][0].index
    ensures Emit(ts, flip)[3 * i + 1] == (if flip then ts[i][2] else ts[i][1]).index
    ensures Emit(ts, flip)[3 * i + 2] == (if flip then ts[i][1] else ts[i][2]).index
    decreases |ts|
  {
    var front := ts[..|ts| - 1];
    EmitLength(front, flip);
    if i < |ts| - 1 {
      EmitAt(front, flip, i);
    }
  }

  lemma {:induction false} EmitLength(ts: seq<seq<PointValue>>, flip: bool)
    requires forall j :: 0 <= j < |ts| ==> |ts[j]| == 3
    ensures |Emit(ts, flip)| == 3 * |ts|
    decreases |ts|
  {
    if ts != [] {
      EmitLength(ts[..|ts| - 1], flip);
    }
  }

  /** Flipping the face keeps every triangle's first index and swaps the other two. */
  lemma EmitFlipped(ts: seq<seq<PointValue>>, flip: bool, i: int)
    requires forall j :: 0 <= j < |ts| ==> |ts[j]| == 3
    requires 0 <= i < |ts|
    ensures |Emit(ts, !flip)| == |Emit(ts, flip)| == 3 * |ts|
    ensures Emit(ts, !flip)[3 * i] == Emit(ts, flip)[3 * i]
    ensures Emit(ts, !flip)[3 * i + 1] == Emit(ts, flip)[3 * i + 2]
    ensures Emit(ts, !flip)[3 * i + 2] == Emit(ts, flip)[3 * i + 1]
  {
    EmitAt(ts, flip, i);
    EmitAt(ts, !flip, i);
  }

  /** Triangles whose points are vertices by index emit only indices of the vertex array. */
  lemma {:induction false} EmitInBounds(ts: seq<seq<PointValue>>, flip: bool, vertices: seq<Vec2>)
    requires forall j :: 0 <= j < |ts| ==> |ts[j]| == 3 && IndexMapped(ts[j], vertices)
    ensures forall k :: 0 <= k < |Emit(ts, flip)| ==> 0 <= Emit(ts, flip)[k] < |vertices|
    decreases |ts|
  {
    if ts != [] {
      var front := ts[..|ts| - 1];
      EmitInBounds(front, flip, vertices);
      var t := ts[|ts| - 1];
      assert IndexMapped(t, vertices);
      assert 0 <= t[0].index < |vertices| && 0 <= t[1].index < |vertices| && 0 <= t[2].index < |vertices|;
    }
  }
}
