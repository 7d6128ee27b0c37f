/*
 * The registry of a SimplePolygon (its polygonsList, ModelCreator/
 * BaseMeshCreator.cs) as a list of polygon values, and the loops the public
 * MaxAreaPolygon and MaxAreaRect overloads run over it: the entry of largest
 * fan area, and the pruning of the other entries with the rectangles among
 * them collected.
 */
module Registry {
  import opened Geometry
  import opened PolygonPoint
  import opened Split
  import opened Fan
  import opened Queries

  /** What a SimplePolygon holds that the registry reads: winding, ring, convexity, area. */
  datatype Polygon = Polygon(symbol: PolygonSymbol, ring: seq<PointValue>, kind: PolygonType, area: real)

  /** Every entry carries the winding and names its points by their vertex indices. */
  predicate Registered(es: seq<Polygon>, winding: PolygonSymbol, vertices: seq<Vec2>)
  {
    forall j :: 0 <= j < |es| ==> es[j].symbol == winding && IndexMapped(es[j].ring, vertices)
  }

  lemma RegisteredGrows(es: seq<Polygon>, winding: PolygonSymbol, vertices: seq<Vec2>, more: seq<Vec2>)
    requires Registered(es, winding, vertices)
    ensures Registered(es, winding, vertices + more)
  {
    forall j | 0 <= j < |es|
      ensures IndexMapped(es[j].ring, vertices + more)
    {
      IndexMappedGrows(es[j].ring, vertices, more);
    }
  }

  /** A split removes one entry and appends the two pieces, whose points name vertices of the grown list. */
  lemma RegisteredSplice(es: seq<Polygon>, v: int, p1: Polygon, p2: Polygon, winding: PolygonSymbol, vertices: seq<Vec2>, more: seq<Vec2>)
    requires Registered(es, winding, vertices) && 0 <= v < |es|
    requires p1.symbol == winding && IndexMapped(p1.ring, vertices + more)
    requires p2.symbol == winding && IndexMapped(p2.ring, vertices + more)
    ensures Registered(es[..v] + es[v + 1..] + [p1, p2], winding, vertices + more)
  {
    RegisteredGrows(es, winding, vertices, more);
    var t := es[..v] + es[v + 1..] + [p1, p2];
    forall j | 0 <= j < |t|
      ensures t[j].symbol == winding && IndexMapped(t[j].ring, vertices + more)
    {
      if j < v {
        assert t[j] == es[j];
      } else if j < |es| - 1 {
        assert t[j] == es[j + 1];
      }
    }
  }

  function RingsOf(es: seq<Polygon>): (rs: seq<seq<PointValue>>)
    ensures |rs| == |es| && forall j :: 0 <= j < |es| ==> rs[j] == es[j].ring
  {
    seq(|es|, j requires 0 <= j < |es| => es[j].ring)
  }

  // ---------------------------------------------------------------------------
  // The private MaxAreaPolygon
  // ---------------------------------------------------------------------------

  function AreasOf(es: seq<Polygon>): (xs: seq<real>)
    ensures |xs| == |es| && forall j :: 0 <= j < |es| ==> xs[j] == FanArea(es[j].ring)
  {
    seq(|es|, j requires 0 <= j < |es| => FanArea(es[j].ring))
  }

  /** Position k holds a greatest value, and no later position does (a later tie would have been taken). */
  predicate IsLastMax(xs: seq<real>, k: int)
  {
    && 0 <= k < |xs|
    && (forall j :: 0 <= j < |xs| ==> xs[j] <= xs[k])
    && (forall j :: k < j < |xs| ==> xs[j] < xs[k])
  }

  /** The selected value is the greatest one. */
  lemma LastMaxIsGreatest(xs: seq<real>, k: int)
    requires IsLastMax(xs, k)
    ensures xs[k] == Greatest(xs)
  {
    ExtremesBound(xs);
    var i :| 0 <= i < |xs| && xs[i] == Greatest(xs);
  }

  /** At most one position is selected. */
  lemma LastMaxUnique(xs: seq<real>, k1: int, k2: int)
    requires IsLastMax(xs, k1) && IsLastMax(xs, k2)
    ensures k1 == k2
  {
    assert xs[k1] <= xs[k2] && xs[k2] <= xs[k1];
    assert !(k1 < k2) && !(k2 < k1);
  }

  /**
   * The private MaxAreaPolygon: the fan area of every entry, keeping the
   * entry when none is kept yet or its area is at least the best so far.
   */
  method MaxAreaOf(es: seq<Polygon>) returns (maxArea: real, k: int)
    requires |es| > 0
    ensures IsLastMax(AreasOf(es), k)
    ensures maxArea == FanArea(es[k].ring) && maxArea >= 0.0
  {
    maxArea, k := 0.0, -1;
    var i := 0;
    while i < |es|
      invariant 0 <= i <= |es|
      invariant i == 0 <==> k == -1
      invariant i > 0 ==> IsLastMax(AreasOf(es)[..i], k) && maxArea == FanArea(es[k].ring) && maxArea >= 0.0
    {
      var s := RingArea(es[i].ring);
      if k == -1 || s >= maxArea {
        k, maxArea := i, s;
      }
      i := i + 1;
    }
    assert AreasOf(es)[..i] == AreasOf(es);
  }

  // ---------------------------------------------------------------------------
  // DelLinePoint over entries, and the rectangle collection
  // ---------------------------------------------------------------------------

  /** An entry after DelLinePoint. */
  function Pruned(p: Polygon): Polygon
  {
    p.(ring := WithoutLine(p.ring))
  }

  lemma RegisteredPruned(es: seq<Polygon>, winding: PolygonSymbol, vertices: seq<Vec2>, qs: seq<Polygon>, k: int)
    requires Registered(es, winding, vertices) && |qs| == |es|
    requires forall j :: 0 <= j < |es| ==> qs[j] == if j == k then es[j] else Pruned(es[j])
    ensures Registered(qs, winding, vertices)
  {
    forall j | 0 <= j < |es|
      ensures qs[j].symbol == winding && IndexMapped(qs[j].ring, vertices)
    {
      WithoutLineIndexMapped(es[j].ring, vertices);
    }
  }

  /** The entries other than position k that pass IsRect, in registry order. */
  function RectsOf(qs: seq<Polygon>, k: int): seq<Polygon>
  {
    if qs == [] then []
    else RectsOf(qs[..|qs| - 1], k) + if |qs| - 1 != k && IsRect(qs[|qs| - 1].ring) then [qs[|qs| - 1]] else []
  }

  /** A polygon is collected exactly when it is an entry other than position k and a rectangle. */
  lemma {:induction false} RectsOfMembers(qs: seq<Polygon>, k: int, p: Polygon)
    ensures p in RectsOf(qs, k) <==> exists j :: 0 <= j < |qs| && j != k && qs[j] == p && IsRect(p.ring)
    decreases |qs|
  {
    if qs != [] {
      var front := qs[..|qs| - 1];
      RectsOfMembers(front, k, p);
      if exists j :: 0 <= j < |qs| && j != k && qs[j] == p && IsRect(p.ring) {
        var j :| 0 <= j < |qs| && j != k && qs[j] == p && IsRect(p.ring);
        if j < |qs| - 1 {
          assert front[j] == p;
        }
      }
      if exists j :: 0 <= j < |front| && j != k && front[j] == p && IsRect(p.ring) {
        var j :| 0 <= j < |front| && j != k && front[j] == p && IsRect(p.ring);
        assert qs[j] == p;
      }
    }
  }

  /** Every polygon of the list passes IsRect. */
  predicate AllRects(ps: seq<Polygon>)
  {
    forall j :: 0 <= j < |ps| ==> IsRect(ps[j].ring)
  }

  /** A rectangle followed by what RectsOf collects is a list of rectangles. */
  lemma LeadingRect(p: Polygon, qs: seq<Polygon>, k: int)
    requires IsRect(p.ring)
    ensures AllRects([p] + RectsOf(qs, k))
  {
    var out := [p] + RectsOf(qs, k);
    forall j | 0 <= j < |out|
      ensures IsRect(out[j].ring)
    {
      if j > 0 {
        RectsOfMembers(qs, k, out[j]);
      }
    }
  }

  /**
   * The loop of the list overloads: every entry except the chosen one is
   * pruned, and added to the result when it is a rectangle.
   */
  method PruneOthers(es: seq<Polygon>, k: int) returns (qs: seq<Polygon>, rects: seq<Polygon>)
    ensures |qs| == |es|
    ensures forall j :: 0 <= j < |es| ==> qs[j] == if j == k then es[j] else Pruned(es[j])
    ensures rects == RectsOf(qs, k)
  {
    qs, rects := es, [];
    var i := 0;
    while i < |es|
      invariant 0 <= i <= |es| && |qs| == |es|
      invariant forall j :: 0 <= j < i ==> qs[j] == if j == k then es[j] else Pruned(es[j])
      invariant forall j :: i <= j < |es| ==> qs[j] == es[j]
      invariant rects == RectsOf(qs[..i], k)
    {
      assert qs[..i + 1][..i] == qs[..i];
      if i != k {
        var ring := PruneLinePoints(qs[i].ring);
        ghost var before := qs;
        qs := qs[i := qs[i].(ring := ring)];
        assert qs[..i] == before[..i];
        if IsRect(ring) {
          rects := rects + [qs[i]];
        }
      }
      i := i + 1;
    }
    assert qs[..i] == qs;
  }

  /** Every entry pruned. */
  function PrunedAll(es: seq<Polygon>): (qs: seq<Polygon>)
    ensures |qs| == |es| && forall j :: 0 <= j < |es| ==> qs[j] == Pruned(es[j])
  {
    seq(|es|, j requires 0 <= j < |es| => Pruned(es[j]))
  }

  /** The entry at the excluded position does not matter to the collection. */
  lemma {:induction false} RectsOfIgnoresExcluded(qs: seq<Polygon>, ps: seq<Polygon>, k: int)
    requires |qs| == |ps| && forall j :: 0 <= j < |qs| && j != k ==> qs[j] == ps[j]
    ensures RectsOf(qs, k) == RectsOf(ps, k)
    decreases |qs|
  {
    if qs != [] {
      RectsOfIgnoresExcluded(qs[..|qs| - 1], ps[..|ps| - 1], k);
    }
  }

  /** DelLinePoint on a registry: the loop over all entries. */
  method PruneAll(es: seq<Polygon>) returns (qs: seq<Polygon>)
    ensures qs == PrunedAll(es)
  {
    qs := [];
    var i := 0;
    while i < |es|
      invariant 0 <= i <= |es| && |qs| == i
      invariant forall j :: 0 <= j < i ==> qs[j] == Pruned(es[j])
    {
      var ring := PruneLinePoints(es[i].ring);
      qs := qs + [es[i].(ring := ring)];
      i := i + 1;
    }
  }

  /** After pruning no entry has a collinear point left. */
  lemma PrunedHasNoLine(p: Polygon, k: int)
    requires 0 <= k < |Pruned(p).ring|
    ensures Pruned(p).ring[k].symbol != Line
  {
    WithoutLineMembers(p.ring, Pruned(p).ring[k]);
  }
}
