/*
 * One splitting step of SimplePolygon.ConcaveSplit
 * (ModelCreator/BaseMeshCreator.cs): the first concave corner of a ring,
 * the ray from its predecessor through it intersected with the other edges,
 * the nearest hit inserted into the ring as a new vertex, and the two rings
 * that the new vertex and the corner cut the ring into.
 */
module Split {
  import opened Geometry
  import opened PolygonPoint
  import opened Structure
  import opened Orientation

  // ---------------------------------------------------------------------------
  // GetIntersect: the ray through a corner against one edge
  // ---------------------------------------------------------------------------

  /** The far end of the ray's range along one axis: +inf ahead, -inf behind, the start itself when level. */
  function RayEnd(s: real, e: real): ExtReal
  {
    if s < e then PosInf else if s == e then Fin(s) else NegInf
  }

  /**
   * GetIntersect(start, end, a, b): the ray from `start` through `end`
   * against the segment [a, b]; no hit when either pair is one point in the
   * Vector2 sense.
   */
  function GetIntersect(start: Vec2, end: Vec2, a: Vec2, b: Vec2): (h: Hit)
    ensures ApproxEq(a, b) || ApproxEq(start, end) ==> h == Hit(false, Zero2)
    ensures !h.ok ==> h.point == Zero2
  {
    if ApproxEq(a, b) || ApproxEq(start, end) then Hit(false, Zero2)
    else
      var ray := MakeSegment(start, end, Range(Fin(start.x), RayEnd(start.x, end.x)), Range(Fin(start.y), RayEnd(start.y, end.y))).value;
      var seg := MakeSegment(a, b, Range(Fin(a.x), Fin(b.x)), Range(Fin(a.y), Fin(b.y))).value;
      GetLineIntersect(ray, seg)
  }

  /** Three points on one carrier line are collinear. */
  lemma CarrierCollinear(f: Form, p1: Vec2, p2: Vec2, x: Vec2)
    requires OnCarrier(f, p1) && OnCarrier(f, p2) && OnCarrier(f, x)
    ensures RawCross(p2.Minus(p1), x.Minus(p1)) == 0.0
  {
    match f
    case Vertical(_) =>
    case Horizontal(_) =>
    case Sloped(k, b) =>
      assert p2.y - p1.y == k * (p2.x - p1.x);
      assert x.y - p1.y == k * (x.x - p1.x);
      calc {
        RawCross(p2.Minus(p1), x.Minus(p1));
        (p2.x - p1.x) * (k * (x.x - p1.x)) - (x.x - p1.x) * (k * (p2.x - p1.x));
        0.0;
      }
  }

  /**
   * A reported intersection lies on the line through start and end, on the
   * line through a and b, between a and b in x, and not behind the ray's
   * start in x.
   */
  lemma IntersectionOnBothLines(start: Vec2, end: Vec2, a: Vec2, b: Vec2)
    requires GetIntersect(start, end, a, b).ok
    ensures var p := GetIntersect(start, end, a, b).point;
      && RawCross(end.Minus(start), p.Minus(start)) == 0.0
      && RawCross(b.Minus(a), p.Minus(a)) == 0.0
      && Min2(a.x, b.x) <= p.x <= Max2(a.x, b.x)
      && (start.x < end.x ==> start.x <= p.x)
      && (end.x < start.x ==> p.x <= start.x)
  {
    var ray := MakeSegment(start, end, Range(Fin(start.x), RayEnd(start.x, end.x)), Range(Fin(start.y), RayEnd(start.y, end.y))).value;
    var seg := MakeSegment(a, b, Range(Fin(a.x), Fin(b.x)), Range(Fin(a.y), Fin(b.y))).value;
    var p := GetIntersect(start, end, a, b).point;
    assert GetLineIntersect(ray, seg) == GetIntersect(start, end, a, b);
    CarrierCollinear(ray.form, start, end, p);
    CarrierCollinear(seg.form, a, b, p);
    assert InXRange(seg, p.x) && InXRange(ray, p.x);
  }

  // ---------------------------------------------------------------------------
  // The hits of the ray with the ring's edges
  // ---------------------------------------------------------------------------

  /** An intersection found on the edge that starts at ring position `edge`. */
  datatype RayHit = RayHit(edge: int, point: Vec2)

  /** The hit, if any, of the ray into corner c (from GetSafe(c - 1)) with the edge GetSafe(j) .. GetSafe(j + 1). */
  function HitAt(r: seq<PointValue>, c: int, j: int): seq<RayHit>
    requires 0 <= c < |r|
  {
    var n := |r|;
    var h := GetIntersect(r[NormalIndex(n, c - 1)].point, r[c].point, r[NormalIndex(n, j)].point, r[NormalIndex(n, j + 1)].point);
    if h.ok then [RayHit(NormalIndex(n, j), h.point)] else []
  }

  /** The hits on the edges c + 1 .. j - 1, in that order. */
  function EdgeHits(r: seq<PointValue>, c: int, j: int): seq<RayHit>
    requires 0 <= c < |r|
    decreases j - c
  {
    if j <= c + 1 then [] else EdgeHits(r, c, j - 1) + HitAt(r, c, j - 1)
  }

  /** The hits ConcaveSplit collects for corner c: the edges c + 1 .. c + n - 3, wrapping around. */
  function Hits(r: seq<PointValue>, c: int): seq<RayHit>
    requires 0 <= c < |r|
  {
    EdgeHits(r, c, |r| + c - 2)
  }

  /** The loop over the edges that fills `indexs` and `pList`. */
  method CollectHits(r: seq<PointValue>, c: int) returns (hits: seq<RayHit>)
    requires 0 <= c < |r|
    ensures hits == Hits(r, c)
  {
    hits := [];
    var stop := LastEdge(|r|, c);
    for j := c + 1 to stop
      invariant hits == EdgeHits(r, c, j)
    {
      hits := EdgeHit(r, c, j, hits);
    }
    HitsUpToLastEdge(r, c);
  }

  /** Where the edge loop stops: at n + c - 2, or at once when the ring has three points or fewer. */
  function LastEdge(n: int, c: int): int
  {
    if n + c - 2 > c + 1 then n + c - 2 else c + 1
  }

  lemma HitsUpToLastEdge(r: seq<PointValue>, c: int)
    requires 0 <= c < |r|
    ensures Hits(r, c) == EdgeHits(r, c, LastEdge(|r|, c))
  {
  }

  /** One round of that loop: the ray from GetSafe(c - 1) through GetSafe(c) against the edge GetSafe(j) .. GetSafe(j + 1), its hit appended. */
  method EdgeHit(r: seq<PointValue>, c: int, j: int, hits: seq<RayHit>) returns (more: seq<RayHit>)
    requires 0 <= c < |r| && c < j
    requires hits == EdgeHits(r, c, j)
    ensures more == EdgeHits(r, c, j + 1)
  {
    var n := |r|;
    var start := r[NormalIndex(n, c - 1)];
    var end := r[c];
    var a := r[NormalIndex(n, j)];
    var b := r[NormalIndex(n, j + 1)];
    var x := GetIntersect(start.point, end.point, a.point, b.point);
    more := hits;
    if x.ok {
      more := hits + [RayHit(NormalIndex(n, j), x.point)];
    }
  }

  /** The position after a NormalIndex result is the NormalIndex of the next position. */
  lemma NextOfNormal(n: int, j: int)
    requires n > 0 && 0 <= j < 2 * n - 1
    ensures NormalIndex(n, NormalIndex(n, j) + 1) == NormalIndex(n, j + 1)
  {
    if j >= n {
      ModUnique(j, n, 1, j - n);
      ModUnique(j + 1, n, 1, j + 1 - n);
    } else if j == n - 1 {
      ModUnique(n, n, 1, 0);
    }
  }

  /** A hit on edge `e` of the ray into corner c: the edge is another edge, and the point is what GetIntersect reports there. */
  predicate HitOnEdge(r: seq<PointValue>, c: int, h: RayHit)
    requires 0 <= c < |r|
  {
    var n := |r|;
    && 0 <= h.edge < n
    && h.edge != c && h.edge != NormalIndex(n, c - 1)
    && GetIntersect(r[NormalIndex(n, c - 1)].point, r[c].point, r[h.edge].point, r[NormalIndex(n, h.edge + 1)].point)
       == Hit(true, h.point)
  }

  lemma {:induction false} EdgeHitsOnEdges(r: seq<PointValue>, c: int, j: int)
    requires 0 <= c < |r| && j <= |r| + c - 2
    ensures forall m :: 0 <= m < |EdgeHits(r, c, j)| ==> HitOnEdge(r, c, EdgeHits(r, c, j)[m])
    decreases j - c
  {
    if j > c + 1 {
      EdgeHitsOnEdges(r, c, j - 1);
      HitAtOnEdge(r, c, j - 1);
      var front, last := EdgeHits(r, c, j - 1), HitAt(r, c, j - 1);
      assert EdgeHits(r, c, j) == front + last;
      forall m | 0 <= m < |front + last|
        ensures HitOnEdge(r, c, (front + last)[m])
      {
        if m >= |front| {
          assert (front + last)[m] == last[m - |front|];
        } else {
          assert (front + last)[m] == front[m];
        }
      }
    }
  }

  /** The hit on edge e, c < e < c + n - 2, lies on an edge other than the two at the corner. */
  lemma HitAtOnEdge(r: seq<PointValue>, c: int, e: int)
    requires 0 <= c < |r| && c < e < |r| + c - 2
    ensures forall m :: 0 <= m < |HitAt(r, c, e)| ==> HitOnEdge(r, c, HitAt(r, c, e)[m])
  {
    var n := |r|;
    var k := NormalIndex(n, e);
    NextOfNormal(n, e);
    WrapNeighbours(n);
    if e >= n {
      ModUnique(e, n, 1, e - n);
      assert k == e - n;
    } else {
      assert k == e;
    }
    if c == 0 {
      assert NormalIndex(n, c - 1) == n - 1;
    }
    assert k != c && k != NormalIndex(n, c - 1);
  }

  /** Every collected hit lies on an edge other than the two at the corner. */
  lemma HitsOnEdges(r: seq<PointValue>, c: int)
    requires 0 <= c < |r|
    ensures forall m :: 0 <= m < |Hits(r, c)| ==> HitOnEdge(r, c, Hits(r, c)[m])
  {
    EdgeHitsOnEdges(r, c, |r| + c - 2);
  }

  /** The edge of a collected hit is an edge of the ring other than the one leaving the corner. */
  lemma HitEdgeInRing(r: seq<PointValue>, c: int, m: int)
    requires 0 <= c < |r| && 0 <= m < |Hits(r, c)|
    ensures 0 <= Hits(r, c)[m].edge < |r| && Hits(r, c)[m].edge != c
  {
    HitsOnEdges(r, c);
    assert HitOnEdge(r, c, Hits(r, c)[m]);
  }

  // ---------------------------------------------------------------------------
  // The nearest hit
  // ---------------------------------------------------------------------------

  /** Squared distance: Vector2.Distance compared through the (monotone) square. */
  function SqrDist(p: Vec2, q: Vec2): real
  {
    p.Minus(q).SqrMagnitude()
  }

  /** Hit k is nearest to `e`, and no later hit is as near (the `<=` of the scan keeps the last nearest). */
  predicate IsLastNearest(hits: seq<RayHit>, e: Vec2, k: int)
  {
    && 0 <= k < |hits|
    && (forall m :: 0 <= m < |hits| ==> SqrDist(hits[k].point, e) <= SqrDist(hits[m].point, e))
    && (forall m :: k < m < |hits| ==> SqrDist(hits[k].point, e) < SqrDist(hits[m].point, e))
  }

  /** There is only one last nearest hit. */
  lemma LastNearestUnique(hits: seq<RayHit>, e: Vec2, k1: int, k2: int)
    requires IsLastNearest(hits, e, k1) && IsLastNearest(hits, e, k2)
    ensures k1 == k2
  {
    assert SqrDist(hits[k1].point, e) <= SqrDist(hits[k2].point, e);
    assert SqrDist(hits[k2].point, e) <= SqrDist(hits[k1].point, e);
    assert !(k1 < k2) && !(k2 < k1);
  }

  /** The scan for the nearest hit to the corner. */
  method FindNearest(hits: seq<RayHit>, e: Vec2) returns (k: int)
    requires |hits| > 0
    ensures IsLastNearest(hits, e, k)
  {
    k := 0;
    var minDis := SqrDist(hits[0].point, e);
    var m := 1;
    while m < |hits|
      invariant 1 <= m <= |hits| && 0 <= k < m
      invariant minDis == SqrDist(hits[k].point, e)
      invariant forall q :: 0 <= q < m ==> minDis <= SqrDist(hits[q].point, e)
      invariant forall q :: k < q < m ==> minDis < SqrDist(hits[q].point, e)
    {
      var dis := SqrDist(hits[m].point, e);
      if dis <= minDis {
        k := m;
        minDis := dis;
      }
      m := m + 1;
    }
  }

  // ---------------------------------------------------------------------------
  // The concave corner
  // ---------------------------------------------------------------------------

  /** c is the first corner of the ring that turns against the winding. */
  predicate IsFirstConcave(r: seq<PointValue>, winding: PolygonSymbol, c: int)
  {
    && 0 <= c < |r|
    && IsConcaveTurn(r[c].symbol, winding)
    && forall k :: 0 <= k < c ==> !IsConcaveTurn(r[k].symbol, winding)
  }

  /** The scan for a corner whose stored symbol is neither Line, None nor the winding. */
  method FindConcave(r: seq<PointValue>, winding: PolygonSymbol) returns (found: bool, c: int)
    ensures found <==> HasConcaveCorner(r, winding)
    ensures found ==> IsFirstConcave(r, winding, c)
  {
    c := 0;
    while c < |r|
      invariant 0 <= c <= |r|
      invariant forall k :: 0 <= k < c ==> !IsConcaveTurn(r[k].symbol, winding)
    {
      if IsConcaveTurn(r[c].symbol, winding) {
        return true, c;
      }
      c := c + 1;
    }
    return false, 0;
  }

  // ---------------------------------------------------------------------------
  // The two pieces
  // ---------------------------------------------------------------------------

  /** Copies of `count` consecutive points of the ring starting at `from`, wrapping around. */
  function Arc(r: seq<PointValue>, from: int, count: nat): (a: seq<PointValue>)
    requires |r| > 0
    ensures |a| == count
  {
    seq(count, k requires 0 <= k < count => Copy(r[NormalIndex(|r|, from + k)]))
  }

  /** A loop of ConcaveSplit that fills a new piece with AppendLast of copies of GetSafe(j), j from `from` to `to`. */
  method CopyRun(r: seq<PointValue>, from: int, to: int) returns (piece: seq<PointValue>)
    requires |r| > 0 && from <= to + 1
    ensures piece == Arc(r, from, to - from + 1)
  {
    piece := [];
    var j := from;
    while j <= to
      invariant from <= j <= to + 1
      invariant piece == Arc(r, from, j - from)
    {
      AppendLastAtEnd(piece, Copy(r[NormalIndex(|r|, j)]));
      piece := Spliced(piece, if |piece| - 1 > 0 then |piece| - 1 else 0, Copy(r[NormalIndex(|r|, j)]));
      j := j + 1;
    }
  }

  datatype Arcs = Arcs(first: seq<PointValue>, second: seq<PointValue>)

  /**
   * The two pieces cut at the corner (position i) and the new point
   * (position idx): `first` runs from the new point to the corner,
   * `second` from the corner back to the new point.
   */
  function SplitArcs(g: seq<PointValue>, i: int, idx: int): Arcs
    requires 0 <= i < |g| && 0 <= idx < |g| && i != idx
  {
    if i > idx then Arcs(Arc(g, idx, i - idx + 1), Arc(g, i, |g| + idx - i + 1))
    else Arcs(Arc(g, idx, |g| + i - idx + 1), Arc(g, i, idx - i + 1))
  }

  /** The points as bare copies, without their symbols. */
  function Stripped(r: seq<PointValue>): (s: seq<PointValue>)
    ensures |s| == |r|
  {
    seq(|r|, k requires 0 <= k < |r| => Copy(r[k]))
  }

  /**
   * The two pieces share exactly the corner and the new point: they have
   * n + 2 points between them, at least two each, the new point at the
   * start of the first and the end of the second, the corner at the end of
   * the first and the start of the second, and every point of the ring is in one of them.
   */
  lemma ArcsCover(g: seq<PointValue>, i: int, idx: int)
    requires 0 <= i < |g| && 0 <= idx < |g| && i != idx
    ensures var a := SplitArcs(g, i, idx);
      && |a.first| + |a.second| == |g| + 2
      && |a.first| >= 2 && |a.second| >= 2
      && a.first[0] == Copy(g[idx]) && a.second[|a.second| - 1] == Copy(g[idx])
      && a.first[|a.first| - 1] == Copy(g[i]) && a.second[0] == Copy(g[i])
      && forall k :: 0 <= k < |g| ==> Copy(g[k]) in a.first || Copy(g[k]) in a.second
  {
    if i > idx {
      ArcEnds(g, idx, i);
      ArcsCoverRing(g, idx, i);
    } else {
      ArcEnds(g, i, idx);
      ArcsCoverRing(g, i, idx);
    }
  }

  /** The forward arc lo .. hi and the wrapping arc hi .. lo + n start and end at lo and hi. */
  lemma ArcEnds(g: seq<PointValue>, lo: int, hi: int)
    requires 0 <= lo < hi < |g|
    ensures var a, b := Arc(g, lo, hi - lo + 1), Arc(g, hi, |g| + lo - hi + 1);
      && a[0] == Copy(g[lo]) && a[|a| - 1] == Copy(g[hi])
      && b[0] == Copy(g[hi]) && b[|b| - 1] == Copy(g[lo])
  {
    var n := |g|;
    WrapAround(n, lo);
    assert NormalIndex(n, lo) == lo && NormalIndex(n, hi) == hi;
  }

  /** Every position of the ring is on the forward arc lo .. hi or on the wrapping arc hi .. lo + n. */
  lemma ArcsCoverRing(g: seq<PointValue>, lo: int, hi: int)
    requires 0 <= lo < hi < |g|
    ensures var a, b := Arc(g, lo, hi - lo + 1), Arc(g, hi, |g| + lo - hi + 1);
      forall k :: 0 <= k < |g| ==> Copy(g[k]) in a || Copy(g[k]) in b
  {
    var n := |g|;
    var a, b := Arc(g, lo, hi - lo + 1), Arc(g, hi, n + lo - hi + 1);
    forall k | 0 <= k < n
      ensures Copy(g[k]) in a || Copy(g[k]) in b
    {
      if lo <= k <= hi {
        assert a[k - lo] == Copy(g[NormalIndex(n, k)]);
      } else if k > hi {
        assert b[k - hi] == Copy(g[NormalIndex(n, k)]);
      } else {
        WrapAround(n, k);
        assert b[k + n - hi] == Copy(g[NormalIndex(n, k + n)]);
      }
    }
  }

  /** One full turn of the ring comes back to the same position. */
  lemma WrapAround(n: int, k: int)
    requires 0 <= k < n
    ensures NormalIndex(n, k + n) == k
  {
    ModUnique(k + n, n, 1, k);
  }

  // ---------------------------------------------------------------------------
  // Vertex indices
  // ---------------------------------------------------------------------------

  /** Every point of the ring is the vertex its index names in the vertex list. */
  predicate IndexMapped(r: seq<PointValue>, vertices: seq<Vec2>)
  {
    forall k :: 0 <= k < |r| ==> 0 <= r[k].index < |vertices| && vertices[r[k].index] == r[k].point
  }

  lemma IndexMappedGrows(r: seq<PointValue>, vertices: seq<Vec2>, more: seq<Vec2>)
    requires IndexMapped(r, vertices)
    ensures IndexMapped(r, vertices + more)
  {
  }

  lemma ArcIndexMapped(r: seq<PointValue>, from: int, count: nat, vertices: seq<Vec2>)
    requires |r| > 0 && IndexMapped(r, vertices)
    ensures IndexMapped(Arc(r, from, count), vertices)
  {
    var a := Arc(r, from, count);
    forall k | 0 <= k < count
      ensures 0 <= a[k].index < |vertices| && vertices[a[k].index] == a[k].point
    {
      var q := NormalIndex(|r|, from + k);
      assert a[k] == Copy(r[q]);
    }
  }

  lemma ClassifyIndexMapped(r: seq<PointValue>, vertices: seq<Vec2>)
    requires IndexMapped(r, vertices)
    ensures IndexMapped(ClassifyRing(r), vertices)
  {
    forall k | 0 <= k < |r|
      ensures ClassifyRing(r)[k].point == r[k].point && ClassifyRing(r)[k].index == r[k].index
    {
      ClassifiedPoints(r, k);
    }
  }

  // ---------------------------------------------------------------------------
  // One step
  // ---------------------------------------------------------------------------

  /**
   * What splitting one ring comes to: no concave corner; a concave corner
   * whose ray meets nothing (ConcaveSplit then returns); or a split, with
   * the corner, the chosen hit, the ring with the new point appended after
   * the hit edge's start, and the two classified pieces.
   */
  datatype SplitOutcome =
    | NoConcave
    | NoHit(corner: int)
    | Split(corner: int, nearest: int, edge: int, point: Vec2, grown: seq<PointValue>,
            first: seq<PointValue>, firstKind: PolygonType, second: seq<PointValue>, secondKind: PolygonType)

  /** The corner's position after the new point went in, and the new point's position. */
  function ShiftedCorner(corner: int, edge: int): int
  {
    if corner > edge then corner + 1 else corner
  }

  /** `o` is the split the source performs on ring `r` for a winding, with `nextIndex` the index of the new vertex. */
  predicate SplitFits(r: seq<PointValue>, winding: PolygonSymbol, nextIndex: int, o: SplitOutcome)
    requires o.Split?
  {
    SplitChoice(r, winding, o) && SplitShape(r, winding, nextIndex, o)
  }

  /** The corner is the first concave one, and the split point is the last nearest of its ray's hits. */
  predicate SplitChoice(r: seq<PointValue>, winding: PolygonSymbol, o: SplitOutcome)
    requires o.Split?
  {
    && IsFirstConcave(r, winding, o.corner)
    && IsLastNearest(Hits(r, o.corner), r[o.corner].point, o.nearest)
    && o.edge == Hits(r, o.corner)[o.nearest].edge
    && o.point == Hits(r, o.corner)[o.nearest].point
  }

  /** The grown ring has the split point after the edge's start, and the pieces are its two classified arcs. */
  predicate SplitShape(r: seq<PointValue>, winding: PolygonSymbol, nextIndex: int, o: SplitOutcome)
    requires o.Split?
  {
    && 0 <= o.corner < |r|
    && 0 <= o.edge < |r|
    && o.grown == Spliced(r, o.edge, PointValue(o.point, nextIndex, Unset))
    && var arcs := SplitArcs(o.grown, ShiftedCorner(o.corner, o.edge), o.edge + 1);
       && o.first == ClassifyRing(arcs.first) && o.firstKind == KindOf(o.first, winding)
       && o.second == ClassifyRing(arcs.second) && o.secondKind == KindOf(o.second, winding)
  }

  /**
   * The body of ConcaveSplit's while loop on one ring: the first concave
   * corner, its hits, the nearest one appended as vertex `nextIndex`, and the
   * two pieces copied out and classified.
   */
  method SplitRing(r: seq<PointValue>, winding: PolygonSymbol, nextIndex: int) returns (o: SplitOutcome)
    ensures o.NoConcave? <==> !HasConcaveCorner(r, winding)
    ensures o.NoHit? ==> IsFirstConcave(r, winding, o.corner) && Hits(r, o.corner) == []
    ensures o.Split? ==> SplitFits(r, winding, nextIndex, o)
  {
    var found, c := FindConcave(r, winding);
    if !found {
      return NoConcave;
    }
    var hits := CollectHits(r, c);
    if |hits| == 0 {
      return NoHit(c);
    }
    o := SplitAtNearest(r, winding, nextIndex, c, hits);
  }

  /** The split branch: the nearest hit appended after its edge's start, then the two pieces. */
  method SplitAtNearest(r: seq<PointValue>, winding: PolygonSymbol, nextIndex: int, c: int, hits: seq<RayHit>)
    returns (o: SplitOutcome)
    requires IsFirstConcave(r, winding, c) && hits == Hits(r, c) && |hits| > 0
    ensures o.Split? && SplitFits(r, winding, nextIndex, o)
  {
    var k := FindNearest(hits, r[c].point);
    HitEdgeInRing(r, c, k);
    o := BuildSplit(r, winding, nextIndex, c, k, hits[k].edge, hits[k].point);
    assert SplitChoice(r, winding, o);
  }

  /** The new point appended after the start of edge `edge`, and the ring cut at the corner and after the new point. */
  method BuildSplit(r: seq<PointValue>, winding: PolygonSymbol, nextIndex: int, c: int, k: int, edge: int, p: Vec2)
    returns (o: SplitOutcome)
    requires 0 <= c < |r| && 0 <= edge < |r| && edge != c
    ensures o.Split? && o.corner == c && o.nearest == k && o.edge == edge && o.point == p
    ensures SplitShape(r, winding, nextIndex, o)
  {
    var grown := Spliced(r, edge, PointValue(p, nextIndex, Unset));
    var i := ShiftedCorner(c, edge);
    var idx := edge + 1;
    var c1, k1, c2, k2 := MakePieces(grown, i, idx, winding);
    o := Split(c, k, edge, p, grown, c1, k1, c2, k2);
  }

  /** The two piece loops of ConcaveSplit and ComputeProperty on each new piece. */
  method MakePieces(grown: seq<PointValue>, i: int, idx: int, winding: PolygonSymbol)
    returns (first: seq<PointValue>, firstKind: PolygonType, second: seq<PointValue>, secondKind: PolygonType)
    requires 0 <= i < |grown| && 0 <= idx < |grown| && i != idx
    ensures first == ClassifyRing(SplitArcs(grown, i, idx).first) && firstKind == KindOf(first, winding)
    ensures second == ClassifyRing(SplitArcs(grown, i, idx).second) && secondKind == KindOf(second, winding)
  {
    var arcs := SplitArcs(grown, i, idx);
    var a, b;
    if i > idx {
      a := CopyRun(grown, idx, i);
      b := CopyRun(grown, i, |grown| + idx);
    } else {
      a := CopyRun(grown, idx, |grown| + i);
      b := CopyRun(grown, i, idx);
    }
    assert a == arcs.first && b == arcs.second;
    ArcsCover(grown, i, idx);
    var ok1, ok2;
    ok1, first, firstKind := ComputeRingProperty(a, winding);
    ok2, second, secondKind := ComputeRingProperty(b, winding);
  }

  /**
   * After a split: the pieces have n + 3 points between them (the ring grew
   * by one), the new point starts the first piece and ends the second, the
   * corner ends the first and starts the second, and every point of the
   * grown ring is in one piece or the other.
   */
  lemma SplitPieces(r: seq<PointValue>, winding: PolygonSymbol, nextIndex: int, o: SplitOutcome)
    requires o.Split? && SplitShape(r, winding, nextIndex, o)
    ensures |o.grown| == |r| + 1
    ensures |o.first| + |o.second| == |r| + 3 && |o.first| >= 2 && |o.second| >= 2
    ensures Copy(o.first[0]) == PointValue(o.point, nextIndex, Unset) == Copy(o.second[|o.second| - 1])
    ensures Copy(o.first[|o.first| - 1]) == Copy(r[o.corner]) == Copy(o.second[0])
    ensures forall k :: 0 <= k < |o.grown| ==> Copy(o.grown[k]) in Stripped(o.first) || Copy(o.grown[k]) in Stripped(o.second)
  {
    PiecesOfGrown(r, o.edge, PointValue(o.point, nextIndex, Unset), o.corner, o.first, o.second);
  }

  lemma PiecesOfGrown(r: seq<PointValue>, edge: int, t: PointValue, corner: int, first: seq<PointValue>, second: seq<PointValue>)
    requires 0 <= edge < |r| && 0 <= corner < |r| && t.symbol == Unset
    requires var arcs := SplitArcs(Spliced(r, edge, t), ShiftedCorner(corner, edge), edge + 1);
      first == ClassifyRing(arcs.first) && second == ClassifyRing(arcs.second)
    ensures |first| + |second| == |r| + 3 && |first| >= 2 && |second| >= 2
    ensures Copy(first[0]) == t == Copy(second[|second| - 1])
    ensures Copy(first[|first| - 1]) == Copy(r[corner]) == Copy(second[0])
    ensures var g := Spliced(r, edge, t);
      forall k :: 0 <= k < |g| ==> Copy(g[k]) in Stripped(first) || Copy(g[k]) in Stripped(second)
  {
    var g := Spliced(r, edge, t);
    GrownAt(r, edge, t, corner);
    PiecesOfRing(g, ShiftedCorner(corner, edge), edge + 1, first, second);
  }

  /** The classified pieces cut from ring g at positions i (the corner) and idx (the new point). */
  lemma PiecesOfRing(g: seq<PointValue>, i: int, idx: int, first: seq<PointValue>, second: seq<PointValue>)
    requires 0 <= i < |g| && 0 <= idx < |g| && i != idx
    requires first == ClassifyRing(SplitArcs(g, i, idx).first) && second == ClassifyRing(SplitArcs(g, i, idx).second)
    ensures |first| + |second| == |g| + 2 && |first| >= 2 && |second| >= 2
    ensures Copy(first[0]) == Copy(g[idx]) == Copy(second[|second| - 1])
    ensures Copy(first[|first| - 1]) == Copy(g[i]) == Copy(second[0])
    ensures forall k :: 0 <= k < |g| ==> Copy(g[k]) in Stripped(first) || Copy(g[k]) in Stripped(second)
  {
    var arcs := SplitArcs(g, i, idx);
    ArcsCover(g, i, idx);
    PiecesStripped(g, i, idx);
    ClassifiedPoints(arcs.first, 0);
    ClassifiedPoints(arcs.first, |arcs.first| - 1);
    ClassifiedPoints(arcs.second, 0);
    ClassifiedPoints(arcs.second, |arcs.second| - 1);
  }

  /** Both arcs start at idx and i, so they hold bare copies, which the classification keeps apart from the symbols. */
  lemma PiecesStripped(g: seq<PointValue>, i: int, idx: int)
    requires 0 <= i < |g| && 0 <= idx < |g| && i != idx
    ensures Stripped(ClassifyRing(SplitArcs(g, i, idx).first)) == SplitArcs(g, i, idx).first
    ensures Stripped(ClassifyRing(SplitArcs(g, i, idx).second)) == SplitArcs(g, i, idx).second
  {
    var arcs := SplitArcs(g, i, idx);
    assert arcs.first == Arc(g, idx, |arcs.first|) && arcs.second == Arc(g, i, |arcs.second|);
    ArcCopies(g, idx, |arcs.first|);
    ArcCopies(g, i, |arcs.second|);
    StripClassified(arcs.first);
    StripClassified(arcs.second);
  }

  /** In the grown ring the new point sits right after the hit edge's start, and the corner moves up by one when it came after it. */
  lemma GrownAt(r: seq<PointValue>, edge: int, t: PointValue, corner: int)
    requires 0 <= edge < |r| && 0 <= corner < |r|
    ensures |Spliced(r, edge, t)| == |r| + 1
    ensures Spliced(r, edge, t)[edge + 1] == t
    ensures Spliced(r, edge, t)[ShiftedCorner(corner, edge)] == r[corner]
  {
    SplicedAt(r, edge, t, edge + 1);
    SplicedAt(r, edge, t, ShiftedCorner(corner, edge));
  }

  /** An arc holds bare copies. */
  lemma ArcCopies(r: seq<PointValue>, from: int, count: nat)
    requires |r| > 0
    ensures forall k :: 0 <= k < count ==> Arc(r, from, count)[k].symbol == Unset
  {
    forall k | 0 <= k < count
      ensures Arc(r, from, count)[k].symbol == Unset
    {
      assert Arc(r, from, count)[k] == Copy(r[NormalIndex(|r|, from + k)]);
    }
  }

  /** Classifying bare copies and stripping the symbols again gives the copies back. */
  lemma StripClassified(a: seq<PointValue>)
    requires forall k :: 0 <= k < |a| ==> a[k].symbol == Unset
    ensures Stripped(ClassifyRing(a)) == a
  {
    forall k | 0 <= k < |a|
      ensures Stripped(ClassifyRing(a))[k] == a[k]
    {
      ClassifiedPoints(a, k);
    }
  }

  /** Splitting keeps every point's index naming its vertex, once the new point is added to the vertex list. */
  lemma SplitIndexMapped(r: seq<PointValue>, winding: PolygonSymbol, vertices: seq<Vec2>, o: SplitOutcome)
    requires o.Split? && SplitShape(r, winding, |vertices|, o) && IndexMapped(r, vertices)
    ensures IndexMapped(o.grown, vertices + [o.point])
    ensures IndexMapped(o.first, vertices + [o.point]) && IndexMapped(o.second, vertices + [o.point])
  {
    var vs := vertices + [o.point];
    GrownIndexMapped(r, o.edge, PointValue(o.point, |vertices|, Unset), vertices);
    PiecesIndexMapped(o.grown, ShiftedCorner(o.corner, o.edge), o.edge + 1, vs);
  }

  /** The ring with the new point, numbered after the existing vertices, names its points by index in the grown vertex list. */
  lemma GrownIndexMapped(r: seq<PointValue>, edge: int, t: PointValue, vertices: seq<Vec2>)
    requires 0 <= edge < |r| && IndexMapped(r, vertices) && t.index == |vertices|
    ensures IndexMapped(Spliced(r, edge, t), vertices + [t.point])
  {
    var vs := vertices + [t.point];
    var g := Spliced(r, edge, t);
    forall k | 0 <= k <= |r|
      ensures 0 <= g[k].index < |vs| && vs[g[k].index] == g[k].point
    {
      SplicedAt(r, edge, t, k);
    }
  }

  /** Pieces copied out of an index-mapped ring and classified are index-mapped. */
  lemma PiecesIndexMapped(g: seq<PointValue>, i: int, idx: int, vs: seq<Vec2>)
    requires 0 <= i < |g| && 0 <= idx < |g| && i != idx && IndexMapped(g, vs)
    ensures IndexMapped(ClassifyRing(SplitArcs(g, i, idx).first), vs)
    ensures IndexMapped(ClassifyRing(SplitArcs(g, i, idx).second), vs)
  {
    var arcs := SplitArcs(g, i, idx);
    assert arcs.first == Arc(g, idx, |arcs.first|) && arcs.second == Arc(g, i, |arcs.second|);
    ArcIndexMapped(g, idx, |arcs.first|, vs);
    ArcIndexMapped(g, i, |arcs.second|, vs);
    ClassifyIndexMapped(arcs.first, vs);
    ClassifyIndexMapped(arcs.second, vs);
  }

  /** The new point lies on the ray through the corner and on the line of the hit edge. */
  lemma SplitPointOnEdge(r: seq<PointValue>, winding: PolygonSymbol, nextIndex: int, o: SplitOutcome)
    requires o.Split? && SplitFits(r, winding, nextIndex, o)
    ensures var n := |r|;
      var start, corner := r[NormalIndex(n, o.corner - 1)].point, r[o.corner].point;
      var a, b := r[o.edge].point, r[NormalIndex(n, o.edge + 1)].point;
      && RawCross(corner.Minus(start), o.point.Minus(start)) == 0.0
      && RawCross(b.Minus(a), o.point.Minus(a)) == 0.0
      && Min2(a.x, b.x) <= o.point.x <= Max2(a.x, b.x)
  {
    var n := |r|;
    HitsOnEdges(r, o.corner);
    assert HitOnEdge(r, o.corner, Hits(r, o.corner)[o.nearest]);
    IntersectionOnBothLines(r[NormalIndex(n, o.corner - 1)].point, r[o.corner].point, r[o.edge].point, r[NormalIndex(n, o.edge + 1)].point);
  }
}
