/*
 * Queries over one polygon's points (ModelCreator/BaseMeshCreator.cs):
 * removing collinear points (DelLinePoint), the rectangle test (IsRect), the
 * point list in a requested winding (GetMaxAreaPoint), texture coordinates
 * (GetUV), the vertex average (GetCenter) and the bounding rectangle
 * (GetBoundRects).
 */
module Queries {
  import opened Geometry
  import opened PolygonPoint
  import opened Structure
  import opened Orientation
  import opened Split

  // ---------------------------------------------------------------------------
  // DelLinePoint
  // ---------------------------------------------------------------------------

  /** The ring without the points whose cached symbol is Line, the others in order. */
  function WithoutLine(r: seq<PointValue>): seq<PointValue>
  {
    if r == [] then []
    else if r[|r| - 1].symbol == Line then WithoutLine(r[..|r| - 1])
    else WithoutLine(r[..|r| - 1]) + [r[|r| - 1]]
  }

  /**
   * The deletion loop of DelLinePoint on one ring: a Line point is deleted
   * and the index stepped back, so the loop looks at the next point in the
   * same position.
   */
  method PruneLinePoints(r: seq<PointValue>) returns (p: seq<PointValue>)
    ensures p == WithoutLine(r)
  {
    p := r;
    var index := 0;
    ghost var seen := 0;
    while index < |p|
      invariant 0 <= index <= |p| && 0 <= seen <= |r|
      invariant p[..index] == WithoutLine(r[..seen])
      invariant p[index..] == r[seen..]
      decreases |r| - seen
    {
      var b := p[index];
      assert b == r[seen];
      assert r[..seen + 1][..seen] == r[..seen];
      if b.symbol == Line {
        p := Removed(p, index);
        index := index - 1;
      }
      index := index + 1;
      seen := seen + 1;
    }
    assert r[..seen] == r;
  }

  /** A point survives pruning exactly when it was in the ring and is not collinear. */
  lemma {:induction false} WithoutLineMembers(r: seq<PointValue>, x: PointValue)
    ensures x in WithoutLine(r) <==> x in r && x.symbol != Line
    decreases |r|
  {
    if r != [] {
      var front := r[..|r| - 1];
      WithoutLineMembers(front, x);
      assert r == front + [r[|r| - 1]];
    }
  }

  /** Pruning only drops points: the result is no longer, and keeps the relative order. */
  lemma {:induction false} WithoutLineShorter(r: seq<PointValue>)
    ensures |WithoutLine(r)| <= |r|
    ensures WithoutLine(r) == r <==> forall k :: 0 <= k < |r| ==> r[k].symbol != Line
    decreases |r|
  {
    if r != [] {
      var front := r[..|r| - 1];
      WithoutLineShorter(front);
      if r[|r| - 1].symbol != Line {
        if WithoutLine(r) == r {
          assert WithoutLine(front) == front;
        }
        if forall k :: 0 <= k < |r| ==> r[k].symbol != Line {
          assert forall k :: 0 <= k < |front| ==> front[k].symbol != Line by {
            forall k | 0 <= k < |front| ensures front[k].symbol != Line {
              assert front[k] == r[k];
            }
          }
          assert r == front + [r[|r| - 1]];
        }
      }
    }
  }

  /** Running DelLinePoint twice is the same as once. */
  lemma WithoutLineIdempotent(r: seq<PointValue>)
    ensures WithoutLine(WithoutLine(r)) == WithoutLine(r)
  {
    var w := WithoutLine(r);
    forall k | 0 <= k < |w|
      ensures w[k].symbol != Line
    {
      WithoutLineMembers(r, w[k]);
    }
    WithoutLineShorter(w);
  }

  /** Pruning keeps every remaining point's index naming its vertex. */
  lemma WithoutLineIndexMapped(r: seq<PointValue>, vertices: seq<Vec2>)
    requires IndexMapped(r, vertices)
    ensures IndexMapped(WithoutLine(r), vertices)
  {
    var w := WithoutLine(r);
    forall k | 0 <= k < |w|
      ensures 0 <= w[k].index < |vertices| && vertices[w[k].index] == w[k].point
    {
      WithoutLineMembers(r, w[k]);
    }
  }

  // ---------------------------------------------------------------------------
  // IsRect
  // ---------------------------------------------------------------------------

  function Dot2(a: Vec2, b: Vec2): real
  {
    a.x * b.x + a.y * b.y
  }

  /** Four points whose consecutive edges, the closing edge included, are pairwise perpendicular. */
  predicate IsRect(r: seq<PointValue>)
  {
    && |r| == 4
    && var p1, p2 := r[1].point.Minus(r[0].point), r[2].point.Minus(r[1].point);
       var p3, p4 := r[3].point.Minus(r[2].point), r[0].point.Minus(r[3].point);
       Dot2(p1, p2) == 0.0 && Dot2(p2, p3) == 0.0 && Dot2(p3, p4) == 0.0 && Dot2(p4, p1) == 0.0
  }

  /** An axis-aligned rectangle listed corner by corner passes the test. */
  lemma AxisRectangleIsRect(x0: real, y0: real, x1: real, y1: real, i: int)
    ensures IsRect([PointValue(Vec2(x0, y0), i, Line), PointValue(Vec2(x1, y0), i + 1, Line),
                    PointValue(Vec2(x1, y1), i + 2, Line), PointValue(Vec2(x0, y1), i + 3, Line)])
  {
    assert (x1 - x0) * 0.0 + 0.0 * (y1 - y0) == 0.0;
    assert 0.0 * (x0 - x1) + (y1 - y0) * 0.0 == 0.0;
  }

  /** The test does not depend on which corner is listed first. */
  lemma IsRectRotated(r: seq<PointValue>)
    requires |r| == 4
    ensures IsRect(r[1..] + [r[0]]) <==> IsRect(r)
  {
    var s := r[1..] + [r[0]];
    assert s[0] == r[1] && s[1] == r[2] && s[2] == r[3] && s[3] == r[0];
  }

  /** Nor on the direction the corners are listed in. */
  lemma IsRectReversed(r: seq<PointValue>)
    requires |r| == 4
    ensures IsRect(Reversed(r)) <==> IsRect(r)
  {
    var s := Reversed(r);
    assert s[0] == r[3] && s[1] == r[2] && s[2] == r[1] && s[3] == r[0];
    forall a: Vec2, b: Vec2 ensures Dot2(Zero2.Minus(a), Zero2.Minus(b)) == Dot2(a, b) && Dot2(a, b) == Dot2(b, a) {
    }
    var q1, q2 := r[1].point.Minus(r[0].point), r[2].point.Minus(r[1].point);
    var q3, q4 := r[3].point.Minus(r[2].point), r[0].point.Minus(r[3].point);
    assert s[1].point.Minus(s[0].point) == Zero2.Minus(q3);
    assert s[2].point.Minus(s[1].point) == Zero2.Minus(q2);
    assert s[3].point.Minus(s[2].point) == Zero2.Minus(q1);
    assert s[0].point.Minus(s[3].point) == Zero2.Minus(q4);
  }

  // ---------------------------------------------------------------------------
  // GetMaxAreaPoint / GetMaxAreaRectPoint
  // ---------------------------------------------------------------------------

  function Points(r: seq<PointValue>): (ps: seq<Vec2>)
    ensures |ps| == |r| && forall k :: 0 <= k < |r| ==> ps[k] == r[k].point
  {
    seq(|r|, k requires 0 <= k < |r| => r[k].point)
  }

  /**
   * The ring's points in link order when the polygon's winding is the one
   * asked for, and backwards otherwise.
   */
  method OrientedPoints(winding: PolygonSymbol, r: seq<PointValue>, want: PolygonSymbol) returns (points: seq<Vec2>)
    ensures winding == want ==> points == Points(r)
    ensures winding != want ==> points == Reversed(Points(r))
  {
    points := [];
    var len := |r|;
    if winding == want {
      var i := 0;
      while i < len
        invariant 0 <= i <= len
        invariant points == Points(r)[..i]
      {
        points := points + [r[i].point];
        i := i + 1;
      }
    } else {
      var i := len - 1;
      while i >= 0
        invariant -1 <= i < len
        invariant points == Reversed(Points(r))[..len - 1 - i]
      {
        points := points + [r[i].point];
        i := i - 1;
      }
    }
  }

  /** The lists for the two windings are each other's reverse: reading backwards twice restores the order. */
  lemma ReversedTwice<T>(s: seq<T>)
    ensures Reversed(Reversed(s)) == s
  {
  }

  // ---------------------------------------------------------------------------
  // Extremes of a list of reals
  // ---------------------------------------------------------------------------

  function Least(xs: seq<real>): real
    requires |xs| > 0
  {
    if |xs| == 1 then xs[0] else Min2(Least(xs[..|xs| - 1]), xs[|xs| - 1])
  }

  function Greatest(xs: seq<real>): real
    requires |xs| > 0
  {
    if |xs| == 1 then xs[0] else Max2(Greatest(xs[..|xs| - 1]), xs[|xs| - 1])
  }

  /** Least and Greatest bound every entry and are entries. */
  lemma {:induction false} ExtremesBound(xs: seq<real>)
    requires |xs| > 0
    ensures forall k :: 0 <= k < |xs| ==> Least(xs) <= xs[k] <= Greatest(xs)
    ensures Least(xs) in xs && Greatest(xs) in xs
    decreases |xs|
  {
    if |xs| > 1 {
      var front := xs[..|xs| - 1];
      ExtremesBound(front);
      assert forall k :: 0 <= k < |front| ==> front[k] == xs[k];
      assert Least(front) in xs && Greatest(front) in xs;
    }
  }

  function Xs(vs: seq<Vec2>): (xs: seq<real>)
    ensures |xs| == |vs| && forall k :: 0 <= k < |vs| ==> xs[k] == vs[k].x
  {
    seq(|vs|, k requires 0 <= k < |vs| => vs[k].x)
  }

  function Ys(vs: seq<Vec2>): (ys: seq<real>)
    ensures |ys| == |vs| && forall k :: 0 <= k < |vs| ==> ys[k] == vs[k].y
  {
    seq(|vs|, k requires 0 <= k < |vs| => vs[k].y)
  }

  /** The bounding box of a non-empty list of points. */
  datatype Box = Box(minX: real, minY: real, maxX: real, maxY: real)

  function BoxOf(vs: seq<Vec2>): Box
    requires |vs| > 0
  {
    Box(Least(Xs(vs)), Least(Ys(vs)), Greatest(Xs(vs)), Greatest(Ys(vs)))
  }

  predicate InBox(b: Box, p: Vec2)
  {
    b.minX <= p.x <= b.maxX && b.minY <= p.y <= b.maxY
  }

  /** Every point lies in the box. */
  lemma BoxOfBounds(vs: seq<Vec2>)
    requires |vs| > 0
    ensures forall k :: 0 <= k < |vs| ==> InBox(BoxOf(vs), vs[k])
  {
    ExtremesBound(Xs(vs));
    ExtremesBound(Ys(vs));
  }

  /** Every point lies in the box, and each side of the box touches a point. */
  lemma BoxOfTight(vs: seq<Vec2>)
    requires |vs| > 0
    ensures forall k :: 0 <= k < |vs| ==> InBox(BoxOf(vs), vs[k])
    ensures exists k :: 0 <= k < |vs| && vs[k].x == BoxOf(vs).minX
    ensures exists k :: 0 <= k < |vs| && vs[k].x == BoxOf(vs).maxX
    ensures exists k :: 0 <= k < |vs| && vs[k].y == BoxOf(vs).minY
    ensures exists k :: 0 <= k < |vs| && vs[k].y == BoxOf(vs).maxY
  {
    ExtremesBound(Xs(vs));
    ExtremesBound(Ys(vs));
    var b := BoxOf(vs);
    var i1 :| 0 <= i1 < |vs| && Xs(vs)[i1] == b.minX;
    var i2 :| 0 <= i2 < |vs| && Xs(vs)[i2] == b.maxX;
    var i3 :| 0 <= i3 < |vs| && Ys(vs)[i3] == b.minY;
    var i4 :| 0 <= i4 < |vs| && Ys(vs)[i4] == b.maxY;
  }

  /**
   * The min/max loop of GetUV and GetBoundRects: starting from the first
   * point, each coordinate is replaced by any point at least as far out.
   */
  method Extent(vs: seq<Vec2>) returns (b: Box)
    requires |vs| > 0
    ensures b == BoxOf(vs)
  {
    var minX, minY := vs[0].x, vs[0].y;
    var maxX, maxY := minX, minY;
    var i := 0;
    while i < |vs|
      invariant 0 <= i <= |vs|
      invariant i > 0 ==> Box(minX, minY, maxX, maxY) == BoxOf(vs[..i])
      invariant i == 0 ==> minX == maxX == vs[0].x && minY == maxY == vs[0].y
    {
      assert vs[..i + 1][..i] == vs[..i];
      assert Xs(vs[..i + 1])[..i] == Xs(vs[..i]) && Ys(vs[..i + 1])[..i] == Ys(vs[..i]);
      if minX >= vs[i].x {
        minX := vs[i].x;
      }
      if minY >= vs[i].y {
        minY := vs[i].y;
      }
      if maxX <= vs[i].x {
        maxX := vs[i].x;
      }
      if maxY <= vs[i].y {
        maxY := vs[i].y;
      }
      i := i + 1;
    }
    assert vs[..i] == vs;
    b := Box(minX, minY, maxX, maxY);
  }

  // ---------------------------------------------------------------------------
  // GetUV
  // ---------------------------------------------------------------------------

  /** A point's texture coordinate: its offset in the bounding box, divided by the box's size. */
  function UVOf(b: Box, p: Vec2): Vec2
    requires b.maxX != b.minX && b.maxY != b.minY
  {
    Vec2((p.x - b.minX) / (b.maxX - b.minX), (p.y - b.minY) / (b.maxY - b.minY))
  }

  /**
   * GetUV: one texture coordinate per vertex. A box of zero width or height
   * gives no answer (the source divides by zero there).
   */
  method UV(vs: seq<Vec2>) returns (uv: Option<seq<Vec2>>)
    requires |vs| > 0
    ensures uv.None? <==> BoxOf(vs).maxX == BoxOf(vs).minX || BoxOf(vs).maxY == BoxOf(vs).minY
    ensures uv.Some? ==> |uv.value| == |vs| && forall k :: 0 <= k < |vs| ==> uv.value[k] == UVOf(BoxOf(vs), vs[k])
  {
    var b := Extent(vs);
    var lenX, lenY := b.maxX - b.minX, b.maxY - b.minY;
    if lenX == 0.0 || lenY == 0.0 {
      return None;
    }
    var out := [];
    var i := 0;
    while i < |vs|
      invariant 0 <= i <= |vs| && |out| == i
      invariant forall k :: 0 <= k < i ==> out[k] == UVOf(b, vs[k])
    {
      out := out + [Vec2((vs[i].x - b.minX) / lenX, (vs[i].y - b.minY) / lenY)];
      i := i + 1;
    }
    uv := Some(out);
  }

  lemma DivideInUnit(a: real, l: real)
    requires 0.0 <= a <= l && l > 0.0
    ensures 0.0 <= a / l <= 1.0
  {
  }

  /** Every texture coordinate lies in the unit square; the extreme vertices reach its sides. */
  lemma UVInUnitSquare(vs: seq<Vec2>, k: int)
    requires |vs| > 0 && 0 <= k < |vs|
    requires BoxOf(vs).maxX != BoxOf(vs).minX && BoxOf(vs).maxY != BoxOf(vs).minY
    ensures 0.0 <= UVOf(BoxOf(vs), vs[k]).x <= 1.0 && 0.0 <= UVOf(BoxOf(vs), vs[k]).y <= 1.0
    ensures vs[k].x == BoxOf(vs).minX ==> UVOf(BoxOf(vs), vs[k]).x == 0.0
    ensures vs[k].x == BoxOf(vs).maxX ==> UVOf(BoxOf(vs), vs[k]).x == 1.0
  {
    var b := BoxOf(vs);
    BoxOfTight(vs);
    assert InBox(b, vs[k]);
    DivideInUnit(vs[k].x - b.minX, b.maxX - b.minX);
    DivideInUnit(vs[k].y - b.minY, b.maxY - b.minY);
  }

  // ---------------------------------------------------------------------------
  // GetCenter
  // ---------------------------------------------------------------------------

  function Sum(r: seq<PointValue>): Vec2
  {
    if r == [] then Zero2 else Sum(r[..|r| - 1]).Plus(r[|r| - 1].point)
  }

  /** The vertex average; the zero vector for an empty ring (the source logs an error there). */
  function Centroid(r: seq<PointValue>): Vec2
  {
    if |r| == 0 then Zero2 else Vec2(Sum(r).x / |r| as real, Sum(r).y / |r| as real)
  }

  /** GetCenter: add up the points, then divide by their count. */
  method GetCenter(r: seq<PointValue>) returns (center: Vec2)
    ensures center == Centroid(r)
  {
    center := Zero2;
    var len := |r|;
    if len == 0 {
      return;
    }
    var i := 0;
    while i < len
      invariant 0 <= i <= len
      invariant center == Sum(r[..i])
    {
      assert r[..i + 1][..i] == r[..i];
      center := center.Plus(r[i].point);
      i := i + 1;
    }
    assert r[..i] == r;
    center := Vec2(center.x / len as real, center.y / len as real);
  }

  lemma MulStep(n: real, m: real)
    ensures (n + 1.0) * m == n * m + m
  {
  }

  /** The sum of the x coordinates lies between count times the least and count times the greatest. */
  lemma {:induction false} SumXBounds(r: seq<PointValue>, lo: real, hi: real)
    requires forall k :: 0 <= k < |r| ==> lo <= r[k].point.x <= hi
    ensures |r| as real * lo <= Sum(r).x <= |r| as real * hi
    decreases |r|
  {
    if r != [] {
      var front := r[..|r| - 1];
      assert forall k :: 0 <= k < |front| ==> front[k] == r[k];
      SumXBounds(front, lo, hi);
      MulStep(|front| as real, lo);
      MulStep(|front| as real, hi);
    }
  }

  lemma {:induction false} SumYBounds(r: seq<PointValue>, lo: real, hi: real)
    requires forall k :: 0 <= k < |r| ==> lo <= r[k].point.y <= hi
    ensures |r| as real * lo <= Sum(r).y <= |r| as real * hi
    decreases |r|
  {
    if r != [] {
      var front := r[..|r| - 1];
      assert forall k :: 0 <= k < |front| ==> front[k] == r[k];
      SumYBounds(front, lo, hi);
      MulStep(|front| as real, lo);
      MulStep(|front| as real, hi);
    }
  }

  lemma AverageBetween(s: real, n: real, lo: real, hi: real)
    requires n > 0.0 && n * lo <= s <= n * hi
    ensures lo <= s / n <= hi
  {
    assert s / n * n == s;
  }

  lemma CentroidXBetween(r: seq<PointValue>, lo: real, hi: real)
    requires |r| > 0
    requires forall k :: 0 <= k < |r| ==> lo <= r[k].point.x <= hi
    ensures lo <= Centroid(r).x <= hi
  {
    SumXBounds(r, lo, hi);
    AverageBetween(Sum(r).x, |r| as real, lo, hi);
  }

  lemma CentroidYBetween(r: seq<PointValue>, lo: real, hi: real)
    requires |r| > 0
    requires forall k :: 0 <= k < |r| ==> lo <= r[k].point.y <= hi
    ensures lo <= Centroid(r).y <= hi
  {
    SumYBounds(r, lo, hi);
    AverageBetween(Sum(r).y, |r| as real, lo, hi);
  }

  /** The vertex average lies in the bounding box of the points. */
  lemma CentroidInBox(r: seq<PointValue>)
    requires |r| > 0
    ensures InBox(BoxOf(Points(r)), Centroid(r))
  {
    var b := BoxOf(Points(r));
    BoxOfBounds(Points(r));
    forall k | 0 <= k < |r|
      ensures b.minX <= r[k].point.x <= b.maxX && b.minY <= r[k].point.y <= b.maxY
    {
      assert InBox(b, Points(r)[k]);
    }
    CentroidXBetween(r, b.minX, b.maxX);
    CentroidYBetween(r, b.minY, b.maxY);
  }

  // ---------------------------------------------------------------------------
  // GetBoundRects
  // ---------------------------------------------------------------------------

  /** Unity's Rect: the corner with the least coordinates, then width and height. */
  datatype Rect = Rect(x: real, y: real, width: real, height: real)

  /** `p` lies in the closed rectangle. */
  predicate Encloses(rect: Rect, p: Vec2)
  {
    rect.x <= p.x <= rect.x + rect.width && rect.y <= p.y <= rect.y + rect.height
  }

  /**
   * The rectangle the private GetBoundRects builds: the bounding box's size,
   * placed around the vertex average rather than the box's own centre.
   */
  function BoundRectAsWritten(r: seq<PointValue>): Rect
  {
    if |r| == 0 then Rect(0.0, 0.0, 0.0, 0.0)
    else
      var b := BoxOf(Points(r));
      var c := Centroid(r);
      var w, h := b.maxX - b.minX, b.maxY - b.minY;
      Rect(c.x - 0.5 * w, c.y - 0.5 * h, w, h)
  }

  /** The right triangle (0, 0), (3, 0), (0, 3). */
  function RightTriangle(): seq<PointValue>
  {
    [PointValue(Vec2(0.0, 0.0), 0, Unset), PointValue(Vec2(3.0, 0.0), 1, Unset), PointValue(Vec2(0.0, 3.0), 2, Unset)]
  }

  lemma RightTriangleBox()
    ensures BoxOf(Points(RightTriangle())) == Box(0.0, 0.0, 3.0, 3.0)
  {
    var ps := Points(RightTriangle());
    assert ps == [Vec2(0.0, 0.0), Vec2(3.0, 0.0), Vec2(0.0, 3.0)];
    var xs, ys := Xs(ps), Ys(ps);
    assert xs == [0.0, 3.0, 0.0] && ys == [0.0, 0.0, 3.0];
    assert xs[..2] == [0.0, 3.0] && xs[..2][..1] == [0.0];
    assert ys[..2] == [0.0, 0.0] && ys[..2][..1] == [0.0];
    assert Least(xs[..2]) == 0.0 && Greatest(xs[..2]) == 3.0;
    assert Least(ys[..2]) == 0.0 && Greatest(ys[..2]) == 0.0;
    assert Least(xs) == 0.0 && Greatest(xs) == 3.0;
    assert Least(ys) == 0.0 && Greatest(ys) == 3.0;
  }

  lemma RightTriangleSum()
    ensures Sum(RightTriangle()) == Vec2(3.0, 3.0)
  {
    var p0, p1, p2 := PointValue(Vec2(0.0, 0.0), 0, Unset), PointValue(Vec2(3.0, 0.0), 1, Unset), PointValue(Vec2(0.0, 3.0), 2, Unset);
    var r := RightTriangle();
    assert r == [p0, p1, p2];
    assert [p0][..0] == [];
    assert Sum([p0]) == Zero2.Plus(p0.point) == Vec2(0.0, 0.0);
    assert [p0, p1][..1] == [p0];
    assert Sum([p0, p1]) == Sum([p0]).Plus(p1.point) == Vec2(3.0, 0.0);
    assert [p0, p1, p2][..2] == [p0, p1];
    assert Sum([p0, p1, p2]) == Sum([p0, p1]).Plus(p2.point);
  }

  lemma RightTriangleCentroid()
    ensures Centroid(RightTriangle()) == Vec2(1.0, 1.0)
  {
    RightTriangleSum();
  }

  /** For the right triangle the rectangle leaves the vertex (3, 0) outside: it spans x from -0.5 to 2.5. */
  lemma BoundRectAsWrittenMissesVertex()
    ensures BoundRectAsWritten(RightTriangle()) == Rect(-0.5, -0.5, 3.0, 3.0)
    ensures !Encloses(BoundRectAsWritten(RightTriangle()), RightTriangle()[1].point)
  {
    RightTriangleBox();
    RightTriangleCentroid();
  }

  /** The circumscribed rectangle: the bounding box itself. The empty ring gives the empty Rect. */
  function BoundingRect(r: seq<PointValue>): Rect
  {
    if |r| == 0 then Rect(0.0, 0.0, 0.0, 0.0)
    else
      var b := BoxOf(Points(r));
      Rect(b.minX, b.minY, b.maxX - b.minX, b.maxY - b.minY)
  }

  /** The rectangle encloses every point and touches the outermost ones. */
  lemma BoundingRectEncloses(r: seq<PointValue>)
    requires |r| > 0
    ensures forall k :: 0 <= k < |r| ==> Encloses(BoundingRect(r), r[k].point)
    ensures exists k :: 0 <= k < |r| && r[k].point.x == BoundingRect(r).x
    ensures exists k :: 0 <= k < |r| && r[k].point.y == BoundingRect(r).y
  {
    BoxOfTight(Points(r));
    var b := BoxOf(Points(r));
    assert forall k :: 0 <= k < |r| ==> InBox(b, Points(r)[k]);
    var i :| 0 <= i < |r| && Points(r)[i].x == b.minX;
    var j :| 0 <= j < |r| && Points(r)[j].y == b.minY;
  }

  /** The vertex average of a non-empty ring is the centre of its bounding box, as for a rectangle. */
  predicate Centred(r: seq<PointValue>)
  {
    && |r| > 0
    && 2.0 * Centroid(r).x == BoxOf(Points(r)).minX + BoxOf(Points(r)).maxX
    && 2.0 * Centroid(r).y == BoxOf(Points(r)).minY + BoxOf(Points(r)).maxY
  }

  /** Both rectangles agree whenever the ring is centred. */
  lemma BoundRectsAgreeWhenCentred(r: seq<PointValue>)
    requires Centred(r)
    ensures BoundRectAsWritten(r) == BoundingRect(r)
  {
  }

  /**
   * The private GetBoundRects for one ring: one loop keeps the extremes
   * and adds up the points, then the box's size is placed around the
   * vertex average. The rectangle encloses the ring when that average is
   * the box's centre; BoundRectAsWrittenMissesVertex shows a ring where it
   * does not.
   */
  method GetBoundRect(r: seq<PointValue>) returns (rect: Rect)
    ensures rect == BoundRectAsWritten(r)
    ensures Centred(r) ==> forall k :: 0 <= k < |r| ==> Encloses(rect, r[k].point)
  {
    var len := |r|;
    if len == 0 {
      return Rect(0.0, 0.0, 0.0, 0.0);
    }
    ghost var vs := Points(r);
    var center := Zero2;
    var maxX, minX, maxY, minY := r[0].point.x, r[0].point.x, r[0].point.y, r[0].point.y;
    var i := 0;
    while i < len
      invariant 0 <= i <= len
      invariant center == Sum(r[..i])
      invariant i > 0 ==> Box(minX, minY, maxX, maxY) == BoxOf(vs[..i])
      invariant i == 0 ==> minX == maxX == vs[0].x && minY == maxY == vs[0].y
    {
      assert r[..i + 1][..i] == r[..i] && vs[..i + 1][..i] == vs[..i];
      assert Xs(vs[..i + 1])[..i] == Xs(vs[..i]) && Ys(vs[..i + 1])[..i] == Ys(vs[..i]);
      var p := r[i].point;
      maxX := Max2(maxX, p.x);
      minX := Min2(minX, p.x);
      maxY := Max2(maxY, p.y);
      minY := Min2(minY, p.y);
      center := center.Plus(p);
      i := i + 1;
    }
    assert r[..i] == r && vs[..i] == vs;
    center := Vec2(center.x / len as real, center.y / len as real);
    var w := maxX - minX;
    var h := maxY - minY;
    rect := Rect(center.x - 0.5 * w, center.y - 0.5 * h, w, h);
    if Centred(r) {
      BoundRectsAgreeWhenCentred(r);
      BoundingRectEncloses(r);
    }
  }
}
