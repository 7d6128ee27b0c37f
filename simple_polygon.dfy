/*
 * The SimplePolygon engine of ModelCreator/BaseMeshCreator.cs: the public
 * constructor (ring, y-order, winding), Execute (ComputeProperty,
 * ConcaveSplit, ComputeTriangle), the queries over the registry of convex
 * pieces, and the maximum-area overloads that rerun the split on the
 * reversed vertex list and compare.
 *
 * The polygon object is a class whose fields hold values: the root ring,
 * the vertex list, and the registry. The registry either still lists the
 * polygon itself (`rootListed`, before any split) or lists split pieces as
 * `Polygon` values, so that updates of the root show through `Entries()`
 * the way the source's polygonsList holds `this`.
 */
module Engine {
  import opened Geometry
  import opened PolygonPoint
  import opened Structure
  import opened Orientation
  import opened Split
  import opened Fan
  import opened Queries
  import opened Registry

  /** How a call the source may abort ended: a value, an exception, or the fuel bound reached. */
  datatype Run<T> = Returned(value: T) | Threw | Exhausted

  /** How ConcaveSplit ended: every entry convex, stopped at a corner whose ray hits nothing, or out of fuel. */
  datatype SplitEnd = AllSplit | Stuck(entry: int, corner: int) | OutOfFuel

  /** The ring the public constructor appends: vertex k at position k with index k. */
  function InitialRing(vs: seq<Vec2>): seq<PointValue>
  {
    seq(|vs|, k requires 0 <= k < |vs| => PointValue(vs[k], k, Unset))
  }

  /** The winding the public constructor picks for a vertex list: the last non-collinear turn in the exchange sort's y-order. */
  function YWinding(vs: seq<Vec2>): PolygonSymbol
  {
    Winding(InitialRing(vs), ExchangeSorted(Ys(vs)))
  }

  /** The registry of a polygon built on `vs` once ComputeProperty has run: the classified ring alone. */
  function Root(vs: seq<Vec2>): seq<Polygon>
  {
    var c := ClassifyRing(InitialRing(vs));
    [Polygon(YWinding(vs), c, KindOf(c, YWinding(vs)), 0.0)]
  }

  /** One split round of ConcaveSplit: the entry it split and what splitting that entry's ring gave. */
  datatype Round = Round(entry: int, outcome: SplitOutcome)

  /** The registry after entry v is split: the entry removed and its two pieces appended. */
  function AfterSplit(es: seq<Polygon>, v: int, o: SplitOutcome, winding: PolygonSymbol): seq<Polygon>
  {
    if o.Split? && 0 <= v < |es| then
      es[..v] + es[v + 1..] + [Polygon(winding, o.first, o.firstKind, 0.0), Polygon(winding, o.second, o.secondKind, 0.0)]
    else es
  }

  /** The registry after the given rounds, starting from `es`. */
  function ReplayEntries(es: seq<Polygon>, winding: PolygonSymbol, rounds: seq<Round>): seq<Polygon>
    decreases |rounds|
  {
    if rounds == [] then es
    else
      var last := rounds[|rounds| - 1];
      AfterSplit(ReplayEntries(es, winding, rounds[..|rounds| - 1]), last.entry, last.outcome, winding)
  }

  /** The vertex list after the given rounds: each split appends its new point. */
  function ReplayVertices(vs: seq<Vec2>, rounds: seq<Round>): seq<Vec2>
    decreases |rounds|
  {
    if rounds == [] then vs
    else
      var last := rounds[|rounds| - 1];
      ReplayVertices(vs, rounds[..|rounds| - 1]) + (if last.outcome.Split? then [last.outcome.point] else [])
  }

  /**
   * Round `rd` is the one ConcaveSplit performs on the registry `es` over
   * the vertex list `vs`: it splits the first entry that has a concave
   * corner, as one round of SplitRing splits that entry's ring.
   */
  ghost predicate RoundFits(es: seq<Polygon>, vs: seq<Vec2>, winding: PolygonSymbol, rd: Round)
  {
    && 0 <= rd.entry < |es|
    && rd.outcome.Split?
    && (forall j :: 0 <= j < rd.entry ==> !HasConcaveCorner(es[j].ring, winding))
    && SplitFits(es[rd.entry].ring, winding, |vs|, rd.outcome)
  }

  /** Every round fits the registry and vertex list the rounds before it left. */
  ghost predicate Chained(es: seq<Polygon>, vs: seq<Vec2>, winding: PolygonSymbol, rounds: seq<Round>)
    decreases |rounds|
  {
    rounds == [] ||
    var front := rounds[..|rounds| - 1];
    && Chained(es, vs, winding, front)
    && RoundFits(ReplayEntries(es, winding, front), ReplayVertices(vs, front), winding, rounds[|rounds| - 1])
  }

  /** Appending a round that fits extends the chain by one split. */
  lemma ChainStep(es: seq<Polygon>, vs: seq<Vec2>, winding: PolygonSymbol, rounds: seq<Round>, rd: Round)
    requires Chained(es, vs, winding, rounds)
    requires RoundFits(ReplayEntries(es, winding, rounds), ReplayVertices(vs, rounds), winding, rd)
    ensures Chained(es, vs, winding, rounds + [rd])
    ensures ReplayEntries(es, winding, rounds + [rd]) == AfterSplit(ReplayEntries(es, winding, rounds), rd.entry, rd.outcome, winding)
    ensures ReplayVertices(vs, rounds + [rd]) == ReplayVertices(vs, rounds) + [rd.outcome.point]
  {
    assert (rounds + [rd])[..|rounds|] == rounds;
  }

  /** The first concave corner of a ring is unique. */
  lemma FirstConcaveUnique(r: seq<PointValue>, winding: PolygonSymbol, c1: int, c2: int)
    requires IsFirstConcave(r, winding, c1) && IsFirstConcave(r, winding, c2)
    ensures c1 == c2
  {
  }

  /** The split SplitRing performs on a ring is determined by the ring, the winding and the new index. */
  lemma SplitDetermined(r: seq<PointValue>, winding: PolygonSymbol, n: int, oa: SplitOutcome, ob: SplitOutcome)
    requires oa.Split? && ob.Split? && SplitFits(r, winding, n, oa) && SplitFits(r, winding, n, ob)
    ensures oa == ob
  {
    FirstConcaveUnique(r, winding, oa.corner, ob.corner);
    LastNearestUnique(Hits(r, oa.corner), r[oa.corner].point, oa.nearest, ob.nearest);
    assert oa.edge == ob.edge && oa.point == ob.point;
    assert oa.grown == ob.grown;
  }

  /** Only one entry can be the first with a concave corner. */
  lemma EntryDetermined(es: seq<Polygon>, vs: seq<Vec2>, winding: PolygonSymbol, a: Round, b: Round)
    requires RoundFits(es, vs, winding, a) && RoundFits(es, vs, winding, b)
    ensures a.entry == b.entry
  {
    assert HasConcaveCorner(es[a.entry].ring, winding) by {
      assert IsConcaveTurn(es[a.entry].ring[a.outcome.corner].symbol, winding);
    }
    assert HasConcaveCorner(es[b.entry].ring, winding) by {
      assert IsConcaveTurn(es[b.entry].ring[b.outcome.corner].symbol, winding);
    }
  }

  /** The round ConcaveSplit performs on a registry is determined by the registry and the vertex count. */
  lemma RoundDetermined(es: seq<Polygon>, vs: seq<Vec2>, winding: PolygonSymbol, a: Round, b: Round)
    requires RoundFits(es, vs, winding, a) && RoundFits(es, vs, winding, b)
    ensures a == b
  {
    EntryDetermined(es, vs, winding, a, b);
    SplitDetermined(es[a.entry].ring, winding, |vs|, a.outcome, b.outcome);
  }

  /** A non-empty chain is a chain followed by a round that fits where it ends. */
  lemma Unchain(es: seq<Polygon>, vs: seq<Vec2>, winding: PolygonSymbol, rounds: seq<Round>)
    requires Chained(es, vs, winding, rounds) && rounds != []
    ensures Chained(es, vs, winding, rounds[..|rounds| - 1])
    ensures RoundFits(ReplayEntries(es, winding, rounds[..|rounds| - 1]), ReplayVertices(vs, rounds[..|rounds| - 1]), winding, rounds[|rounds| - 1])
  {
  }

  /** Two chains of the same length from the same start are equal: ConcaveSplit's rounds are forced. */
  lemma {:induction false} ChainsEqual(es: seq<Polygon>, vs: seq<Vec2>, winding: PolygonSymbol, r1: seq<Round>, r2: seq<Round>)
    requires Chained(es, vs, winding, r1) && Chained(es, vs, winding, r2) && |r1| == |r2|
    ensures r1 == r2
    decreases |r1|
  {
    if r1 != [] {
      var n := |r1| - 1;
      Unchain(es, vs, winding, r1);
      Unchain(es, vs, winding, r2);
      ChainsEqual(es, vs, winding, r1[..n], r2[..n]);
      RoundDetermined(ReplayEntries(es, winding, r1[..n]), ReplayVertices(vs, r1[..n]), winding, r1[n], r2[n]);
      LastSplit(r1);
      LastSplit(r2);
    }
  }

  lemma LastSplit<T>(s: seq<T>)
    requires s != []
    ensures s == s[..|s| - 1] + [s[|s| - 1]]
  {
  }

  /**
   * ConcaveSplit has nothing left to do on `es`: the first entry with a
   * concave corner, if any, is one whose first concave corner's ray meets
   * no edge.
   */
  ghost predicate Settled(es: seq<Polygon>, winding: PolygonSymbol)
  {
    forall e, c ::
      (0 <= e < |es| && (forall j :: 0 <= j < e ==> !HasConcaveCorner(es[j].ring, winding)) && IsFirstConcave(es[e].ring, winding, c))
      ==> Hits(es[e].ring, c) == []
  }

  /** A settled registry admits no further round. */
  lemma SettledFinal(es: seq<Polygon>, vs: seq<Vec2>, winding: PolygonSymbol, rd: Round)
    requires Settled(es, winding)
    ensures !RoundFits(es, vs, winding, rd)
  {
  }

  /** A registry without concave corners is settled. */
  lemma ConvexSettled(es: seq<Polygon>, winding: PolygonSymbol)
    requires forall j :: 0 <= j < |es| ==> !HasConcaveCorner(es[j].ring, winding)
    ensures Settled(es, winding)
  {
    forall e, c | 0 <= e < |es| && IsFirstConcave(es[e].ring, winding, c)
      ensures HasConcaveCorner(es[e].ring, winding)
    {
      assert IsConcaveTurn(es[e].ring[c].symbol, winding);
    }
  }

  /** A registry whose first concave entry's first concave corner has no hit is settled. */
  lemma StuckSettled(es: seq<Polygon>, winding: PolygonSymbol, v: int, c: int)
    requires 0 <= v < |es| && (forall j :: 0 <= j < v ==> !HasConcaveCorner(es[j].ring, winding))
    requires IsFirstConcave(es[v].ring, winding, c) && Hits(es[v].ring, c) == []
    ensures Settled(es, winding)
  {
    forall e, c' | 0 <= e < |es| && (forall j :: 0 <= j < e ==> !HasConcaveCorner(es[j].ring, winding))
      && IsFirstConcave(es[e].ring, winding, c')
      ensures Hits(es[e].ring, c') == []
    {
      assert HasConcaveCorner(es[e].ring, winding) by {
        assert IsConcaveTurn(es[e].ring[c'].symbol, winding);
      }
      assert HasConcaveCorner(es[v].ring, winding) by {
        assert IsConcaveTurn(es[v].ring[c].symbol, winding);
      }
      assert e == v;
      FirstConcaveUnique(es[v].ring, winding, c, c');
    }
  }

  /**
   * What an end of ConcaveSplit says of the registry `es` it leaves: with
   * AllSplit no entry has a concave corner; with Stuck(v, c) entry v is
   * the first with one, c is its first concave corner and the ray from c
   * meets no edge.
   */
  ghost predicate Ended(es: seq<Polygon>, winding: PolygonSymbol, end: SplitEnd)
  {
    match end
    case AllSplit => forall j :: 0 <= j < |es| ==> !HasConcaveCorner(es[j].ring, winding)
    case Stuck(v, c) =>
      && 0 <= v < |es|
      && (forall j :: 0 <= j < v ==> !HasConcaveCorner(es[j].ring, winding))
      && IsFirstConcave(es[v].ring, winding, c)
      && Hits(es[v].ring, c) == []
    case OutOfFuel => true
  }

  /** Both ends short of the fuel bound leave the registry settled. */
  lemma EndedSettled(es: seq<Polygon>, winding: PolygonSymbol, end: SplitEnd)
    requires Ended(es, winding, end) && !end.OutOfFuel?
    ensures Settled(es, winding)
  {
    if end.AllSplit? {
      ConvexSettled(es, winding);
    } else {
      StuckSettled(es, winding, end.entry, end.corner);
    }
  }

  /** How ConcaveSplit ended reads only the rings. */
  lemma EndedRings(es: seq<Polygon>, fs: seq<Polygon>, winding: PolygonSymbol, end: SplitEnd)
    requires Ended(es, winding, end) && RingsOf(es) == RingsOf(fs)
    ensures Ended(fs, winding, end)
  {
    assert |es| == |fs|;
    assert forall j :: 0 <= j < |es| ==> es[j].ring == RingsOf(es)[j] == RingsOf(fs)[j] == fs[j].ring;
  }

  /** The root ring after the rounds: the first split grows it while the root is still listed. */
  function GrownRoot(listed: bool, rounds: seq<Round>, r: seq<PointValue>): seq<PointValue>
  {
    if listed && rounds != [] && rounds[0].outcome.Split? then rounds[0].outcome.grown else r
  }

  /**
   * The reversed run of the maximum-area overloads: a polygon built on the
   * vertex list in reverse order, then ComputeProperty and a ConcaveSplit
   * that ended settled, its rounds and the vertex list it grew.
   */
  ghost predicate ReversedRun(input: seq<Vec2>, rounds: seq<Round>, revs: seq<Polygon>, vs: seq<Vec2>)
  {
    var x := Reversed(input);
    && |x| >= 2
    && Chained(Root(x), x, YWinding(x), rounds)
    && revs == ReplayEntries(Root(x), YWinding(x), rounds)
    && vs == ReplayVertices(x, rounds)
    && Settled(revs, YWinding(x))
    && |revs| > 0 && Registered(revs, YWinding(x), vs) && IsPrefix(x, vs)
  }

  /**
   * What the list overload of MaxAreaPolygon gives and leaves: this
   * registry goes from `before` to `after`; `own` and `other` are the last
   * largest entries of `before` and of the reversed run's registry `revs`.
   * A tie goes to the reversed run. The winner comes first, then the
   * rectangles among the other entries of its registry, all pruned.
   */
  ghost predicate PolygonsOutcome(input: seq<Vec2>, before: seq<Polygon>, after: seq<Polygon>, r: Run<seq<Polygon>>,
                                  revs: seq<Polygon>, rounds: seq<Round>, vs: seq<Vec2>, own: int, other: int)
  {
    && IsLastMax(AreasOf(before), own)
    && (r.Threw? <==> |input| < 2)
    && (!r.Returned? ==> after == before[own := Pruned(before[own])])
    && (r.Returned? ==> ReversedRun(input, rounds, revs, vs) && IsLastMax(AreasOf(revs), other) && |r.value| > 0)
    && (r.Returned? ==> r.value[0].area == Max2(Greatest(AreasOf(revs)), Greatest(AreasOf(before))))
    && (r.Returned? && Greatest(AreasOf(revs)) >= Greatest(AreasOf(before)) ==>
         && after == before[own := Pruned(before[own])]
         && r.value == [Pruned(revs[other]).(area := Greatest(AreasOf(revs)))] + RectsOf(PrunedAll(revs), other))
    && (r.Returned? && Greatest(AreasOf(revs)) < Greatest(AreasOf(before)) ==>
         && after == PrunedAll(before)[own := Pruned(before[own]).(area := Greatest(AreasOf(before)))]
         && r.value == [after[own]] + RectsOf(after, own))
  }

  /**
   * What MaxAreaRect gives and leaves: as PolygonsOutcome, but a winner
   * must be a rectangle once pruned; `takeReversed` and `takeOwn` say
   * which registry's winner was taken, if any.
   */
  ghost predicate RectsOutcome(input: seq<Vec2>, before: seq<Polygon>, after: seq<Polygon>, r: Run<seq<Polygon>>,
                               revs: seq<Polygon>, rounds: seq<Round>, vs: seq<Vec2>, own: int, other: int,
                               takeReversed: bool, takeOwn: bool)
  {
    && IsLastMax(AreasOf(before), own)
    && (r.Threw? <==> |input| < 2)
    && (r.Returned? ==> ReversedRun(input, rounds, revs, vs) && IsLastMax(AreasOf(revs), other))
    && (r.Returned? ==> AllRects(r.value))
    && (r.Returned? ==>
         (takeReversed <==> Greatest(AreasOf(revs)) >= Greatest(AreasOf(before)) && IsRect(Pruned(revs[other]).ring)))
    && (r.Returned? ==> (takeOwn <==> !takeReversed && IsRect(Pruned(before[own]).ring)))
    && (r.Returned? && takeReversed ==>
         && after == before[own := Pruned(before[own])]
         && r.value == [Pruned(revs[other]).(area := Greatest(AreasOf(revs)))] + RectsOf(PrunedAll(revs), other))
    && (r.Returned? && takeOwn ==>
         && after == PrunedAll(before)[own := Pruned(before[own]).(area := Greatest(AreasOf(before)))]
         && r.value == [after[own]] + RectsOf(after, own))
    && (r.Returned? && !takeReversed && !takeOwn ==> r.value == [])
    && (!(r.Returned? && (takeReversed || takeOwn)) ==> after == before[own := Pruned(before[own])])
  }

  /** The points of a polygon whose winding is one of two differing ones, asked for in the other, are its points asked for in the first, reversed. */
  lemma OrientedOpposite(p: Polygon, want: PolygonSymbol, other: PolygonSymbol)
    requires want != other && (p.symbol == want || p.symbol == other)
    ensures Oriented(p, other) == Reversed(Oriented(p, want))
  {
    if p.symbol == other {
      ReversedTwice(Points(p.ring));
    }
  }

  /** A registry with one entry replaced by a polygon of the same winding over the same vertices. */
  lemma RegisteredUpdate(es: seq<Polygon>, k: int, p: Polygon, winding: PolygonSymbol, vertices: seq<Vec2>)
    requires Registered(es, winding, vertices) && 0 <= k < |es|
    requires p.symbol == winding && IndexMapped(p.ring, vertices)
    ensures Registered(es[k := p], winding, vertices)
  {
  }

  /** `a` is an initial part of `b`: the vertex list only ever grows at its end. */
  predicate IsPrefix(a: seq<Vec2>, b: seq<Vec2>)
  {
    |a| <= |b| && b[..|a|] == a
  }

  lemma PrefixGrows(a: seq<Vec2>, b: seq<Vec2>, x: Vec2)
    requires IsPrefix(a, b)
    ensures IsPrefix(a, b + [x])
  {
    assert (b + [x])[..|a|] == b[..|a|];
  }

  /** A split of entry v leaves the entries before v where they were, so they stay convex. */
  lemma ConvexKept(before: seq<Polygon>, after: seq<Polygon>, v: int, winding: PolygonSymbol)
    requires 0 <= v < |before| && |after| > v && after[..v] == before[..v]
    requires forall j :: 0 <= j < v ==> !HasConcaveCorner(before[j].ring, winding)
    ensures forall j :: 0 <= j < v ==> !HasConcaveCorner(after[j].ring, winding)
  {
    forall j | 0 <= j < v
      ensures after[j] == before[j]
    {
      assert after[..v][j] == before[..v][j];
    }
  }

  /** The points of a polygon in the requested winding (GetMaxAreaPoint, GetMaxAreaRectPoint). */
  function Oriented(p: Polygon, want: PolygonSymbol): seq<Vec2>
  {
    if p.symbol == want then Points(p.ring) else Reversed(Points(p.ring))
  }

  /** The loops of the point-list overloads: each polygon's points in the requested winding. */
  method PointsOf(ps: seq<Polygon>, want: PolygonSymbol) returns (out: seq<seq<Vec2>>)
    ensures |out| == |ps|
    ensures forall j :: 0 <= j < |ps| ==> out[j] == Oriented(ps[j], want)
    ensures forall j :: 0 <= j < |ps| ==> |out[j]| == |ps[j].ring|
  {
    out := [];
    var i := 0;
    while i < |ps|
      invariant 0 <= i <= |ps| && |out| == i
      invariant forall j :: 0 <= j < i ==> out[j] == Oriented(ps[j], want)
    {
      var points := OrientedPoints(ps[i].symbol, ps[i].ring, want);
      out := out + [points];
      i := i + 1;
    }
  }

  /** The inner loop of ComputeTriangle over one ring: its fan triangles and their summed area. */
  method FanOf(r: seq<PointValue>) returns (tris: seq<seq<PointValue>>, sum: real)
    ensures tris == FanTriangles(r) && sum == FanArea(r)
  {
    tris, sum := [], 0.0;
    var index := 1;
    while index < |r| - 1
      invariant 1 <= index && index - 1 <= FanCount(|r|)
      invariant |r| >= 3 ==> index <= |r| - 1
      invariant tris == FanTriangles(r)[..index - 1]
      invariant sum == FanSum(r, index - 1)
    {
      var a, b, c := r[0], r[index], r[index + 1];
      var t := Spliced([], 0, a);
      t := Spliced(t, 0, b);
      t := Spliced(t, 1, c);
      TriangleOfAppends(a, b, c);
      var ab, ac := b.point.Minus(a.point), c.point.Minus(a.point);
      sum := sum + Abs(Cross2d(ab, ac) * 0.5);
      FanPrefixStep(r, index);
      tris := tris + [t];
      index := index + 1;
    }
    FanPrefixEnd(r, index);
  }

  /** Append(0, a), Append(0, b), Append(1, c) on an empty list give the triangle (a, b, c). */
  lemma TriangleOfAppends(a: PointValue, b: PointValue, c: PointValue)
    ensures Spliced(Spliced(Spliced([], 0, a), 0, b), 1, c) == [a, b, c]
  {
    assert Spliced([], 0, a) == [a];
    assert Spliced([a], 0, b) == [a, b];
  }

  lemma FanPrefixStep(r: seq<PointValue>, index: int)
    requires 1 <= index < |r| - 1
    ensures FanTriangles(r)[..index] == FanTriangles(r)[..index - 1] + [[r[0], r[index], r[index + 1]]]
  {
    var f := FanTriangles(r);
    assert |f| == |r| - 2 && f[index - 1] == [r[0], r[index], r[index + 1]];
    assert f[..index] == f[..index - 1] + [f[index - 1]];
  }

  lemma FanPrefixEnd(r: seq<PointValue>, index: int)
    requires index - 1 == FanCount(|r|)
    ensures FanTriangles(r)[..index - 1] == FanTriangles(r)
  {
  }

  /** The outer loop of ComputeTriangle over the rings of the registry. */
  method FanAll(rs: seq<seq<PointValue>>) returns (tris: seq<seq<PointValue>>, total: real)
    ensures tris == AllFans(rs) && total == TotalArea(rs)
  {
    tris, total := [], 0.0;
    var j := 0;
    while j < |rs|
      invariant 0 <= j <= |rs|
      invariant tris == AllFans(rs[..j]) && total == TotalArea(rs[..j])
    {
      assert rs[..j + 1][..j] == rs[..j];
      var ts, sum := FanOf(rs[j]);
      tris, total := tris + ts, total + sum;
      j := j + 1;
    }
    assert rs[..j] == rs;
  }

  class SimplePolygon {
    var symbol: PolygonSymbol
    var kind: PolygonType
    var ring: seq<PointValue>
    var vertices: seq<Vec2>
    var rootListed: bool
    var pieces: seq<Polygon>
    var triangles: seq<seq<PointValue>>
    var triangulated: bool
    var area: real

    /** The polygonsList: the polygon itself until the first split, the pieces afterwards. */
    function Entries(): seq<Polygon>
      reads this`symbol, this`ring, this`kind, this`area, this`rootListed, this`pieces
    {
      if rootListed then [Polygon(symbol, ring, kind, area)] else pieces
    }

    /**
     * The winding is decided, the registry is never empty, and every ring and
     * triangle names its points by their positions in the vertex list.
     */
    ghost predicate Valid()
      reads this
    {
      && |vertices| > 0
      && symbol != Line && symbol != Unset
      && (rootListed ==> pieces == [])
      && (!rootListed ==> |pieces| > 0)
      && IndexMapped(ring, vertices)
      && Registered(pieces, symbol, vertices)
      && (forall i :: 0 <= i < |triangles| ==> |triangles[i]| == 3 && IndexMapped(triangles[i], vertices))
    }

    lemma EntriesRegistered()
      requires Valid()
      ensures |Entries()| > 0 && Registered(Entries(), symbol, vertices)
    {
    }

    /**
     * The public constructor: the ring appended vertex by vertex, the vertex
     * indices sorted by descending y, and the winding taken from the last
     * non-collinear corner in that order.
     */
    constructor (input: seq<Vec2>)
      requires |input| > 0
      ensures Valid()
      ensures vertices == input && ring == InitialRing(input)
      ensures rootListed && Entries() == [Polygon(symbol, ring, Unknown, 0.0)]
      ensures !triangulated && triangles == [] && area == 0.0
      ensures IsYOrder(ExchangeSorted(Ys(input)), Ys(input)) && symbol == YWinding(input)
    {
      var r := Spliced([], 0, PointValue(input[0], 0, Unset));
      var i := 1;
      while i < |input|
        invariant 1 <= i <= |input|
        invariant r == InitialRing(input[..i])
      {
        var t := PointValue(input[i], i, Unset);
        AppendLastAtEnd(r, t);
        assert (if |r| - 1 > 0 then |r| - 1 else 0) == i - 1;
        r := Spliced(r, i - 1, t);
        assert InitialRing(input[..i + 1]) == InitialRing(input[..i]) + [t];
        i := i + 1;
      }
      assert input[..i] == input;
      var order := SortByYDescending(Ys(input));
      var w := ComputeWinding(r, order[..]);
      symbol := w;
      kind := Unknown;
      ring := r;
      vertices := input;
      rootListed := true;
      pieces := [];
      triangles := [];
      triangulated := false;
      area := 0.0;
    }

    /**
     * ComputeProperty: every corner of the root ring classified against its
     * neighbours, and the polygon Concave when some corner turns against the
     * winding. A ring of fewer than two points makes Get(1) throw before
     * anything changes.
     */
    method ComputeProperty() returns (ok: bool)
      requires Valid()
      modifies this`ring, this`kind
      ensures Valid()
      ensures ok <==> |old(ring)| >= 2
      ensures ok ==> ring == ClassifyRing(old(ring)) && kind == KindOf(ring, symbol)
      ensures !ok ==> ring == old(ring) && kind == old(kind)
    {
      var c, k;
      ok, c, k := ComputeRingProperty(ring, symbol);
      if ok {
        ClassifyIndexMapped(ring, vertices);
        ring, kind := c, k;
      }
    }

    /**
     * One round of ConcaveSplit on entry v: find its first concave corner,
     * cast the ray, insert the nearest hit into the entry's ring and the
     * vertex list, and replace the entry by the two pieces.
     */
    method SplitEntry(v: int) returns (o: SplitOutcome)
      requires Valid() && 0 <= v < |Entries()|
      modifies this`ring, this`vertices, this`pieces, this`rootListed
      ensures Valid()
      ensures o.NoConcave? <==> !HasConcaveCorner(old(Entries())[v].ring, symbol)
      ensures o.NoHit? ==> IsFirstConcave(old(Entries())[v].ring, symbol, o.corner) && Hits(old(Entries())[v].ring, o.corner) == []
      ensures o.Split? ==> SplitFits(old(Entries())[v].ring, symbol, |old(vertices)|, o)
      ensures o.Split? ==> vertices == old(vertices) + [o.point]
      ensures o.Split? ==> ring == (if old(rootListed) then o.grown else old(ring))
      ensures o.Split? ==>
        Entries() == old(Entries())[..v] + old(Entries())[v + 1..]
          + [Polygon(symbol, o.first, o.firstKind, 0.0), Polygon(symbol, o.second, o.secondKind, 0.0)]
      ensures o.Split? ==> !rootListed && pieces == Entries()
      ensures !o.Split? ==> vertices == old(vertices) && ring == old(ring) && pieces == old(pieces) && rootListed == old(rootListed)
    {
      o := SplitRing(Entries()[v].ring, symbol, |vertices|);
      if o.Split? {
        ApplySplit(v, o);
      }
    }

    /** The split found for entry v carried out: the new vertex appended, the root ring grown, the entry replaced by its pieces. */
    method ApplySplit(v: int, o: SplitOutcome)
      requires Valid() && 0 <= v < |Entries()|
      requires o.Split? && SplitShape(Entries()[v].ring, symbol, |vertices|, o)
      modifies this`ring, this`vertices, this`pieces, this`rootListed
      ensures Valid()
      ensures vertices == old(vertices) + [o.point]
      ensures ring == (if old(rootListed) then o.grown else old(ring))
      ensures Entries() == old(Entries())[..v] + old(Entries())[v + 1..]
          + [Polygon(symbol, o.first, o.firstKind, 0.0), Polygon(symbol, o.second, o.secondKind, 0.0)]
      ensures !rootListed && pieces == Entries()
    {
      var es := Entries();
      EntriesRegistered();
      var r := es[v].ring;
      SplitIndexMapped(r, symbol, vertices, o);
      var p1 := Polygon(symbol, o.first, o.firstKind, 0.0);
      var p2 := Polygon(symbol, o.second, o.secondKind, 0.0);
      RegisteredSplice(es, v, p1, p2, symbol, vertices, [o.point]);
      IndexMappedGrows(ring, vertices, [o.point]);
      forall i | 0 <= i < |triangles|
        ensures IndexMapped(triangles[i], vertices + [o.point])
      {
        IndexMappedGrows(triangles[i], vertices, [o.point]);
      }
      if rootListed {
        ring := o.grown;
      }
      pieces := es[..v] + es[v + 1..] + [p1, p2];
      rootListed := false;
      vertices := vertices + [o.point];
    }

    /** One round of ConcaveSplit's loop: SplitEntry on entry v, with the entries before v convex before and after. */
    method SplitStep(v: int, ghost first: seq<Vec2>) returns (o: SplitOutcome)
      requires Valid() && 0 <= v < |Entries()| && IsPrefix(first, vertices)
      requires forall j :: 0 <= j < v ==> !HasConcaveCorner(Entries()[j].ring, symbol)
      modifies this`ring, this`vertices, this`pieces, this`rootListed
      ensures Valid() && IsPrefix(first, vertices) && v < |Entries()|
      ensures forall j :: 0 <= j < (if o.NoConcave? then v + 1 else v) ==> !HasConcaveCorner(Entries()[j].ring, symbol)
      ensures o.NoConcave? <==> !HasConcaveCorner(old(Entries())[v].ring, symbol)
      ensures o.NoHit? ==> IsFirstConcave(Entries()[v].ring, symbol, o.corner) && Hits(Entries()[v].ring, o.corner) == []
      ensures o.Split? ==> RoundFits(old(Entries()), old(vertices), symbol, Round(v, o))
      ensures o.Split? ==> vertices == old(vertices) + [o.point]
      ensures o.Split? ==> ring == (if old(rootListed) then o.grown else old(ring))
      ensures o.Split? ==> Entries() == AfterSplit(old(Entries()), v, o, symbol)
      ensures o.Split? ==> !rootListed && pieces == Entries()
      ensures !o.Split? ==> vertices == old(vertices) && ring == old(ring) && pieces == old(pieces) && rootListed == old(rootListed)
    {
      ghost var before := Entries();
      ghost var known := vertices;
      o := SplitEntry(v);
      ghost var after := Entries();
      if o.Split? {
        ConvexKept(before, after, v, symbol);
        PrefixGrows(first, known, o.point);
        assert RoundFits(before, known, symbol, Round(v, o));
        assert after == AfterSplit(before, v, o, symbol);
      } else {
        assert after == before;
      }
    }

    /**
     * ConcaveSplit: entries are split until every entry up to the end of the
     * registry has no concave corner, or a ray finds no edge (the source then
     * returns at once). `rounds` lists the splits in order; each split the
     * first entry that had a concave corner. The source's loop has no bound;
     * `fuel` caps the number of iterations.
     */
    method ConcaveSplit(fuel: nat) returns (end: SplitEnd, ghost rounds: seq<Round>)
      requires Valid()
      modifies this`ring, this`vertices, this`pieces, this`rootListed
      ensures Valid()
      ensures Chained(old(Entries()), old(vertices), symbol, rounds) && |rounds| <= fuel
      ensures Entries() == ReplayEntries(old(Entries()), symbol, rounds)
      ensures vertices == ReplayVertices(old(vertices), rounds) && IsPrefix(old(vertices), vertices)
      ensures rootListed == (old(rootListed) && rounds == [])
      ensures ring == GrownRoot(old(rootListed), rounds, old(ring))
      ensures Ended(Entries(), symbol, end)
    {
      var v := 0;
      var f := fuel;
      ghost var es0, vs0, listed0, ring0 := Entries(), vertices, rootListed, ring;
      rounds := [];
      while v < |Entries()|
        invariant Valid() && 0 <= v <= |Entries()|
        invariant IsPrefix(vs0, vertices)
        invariant forall j :: 0 <= j < v ==> !HasConcaveCorner(Entries()[j].ring, symbol)
        invariant Chained(es0, vs0, symbol, rounds) && |rounds| <= fuel - f
        invariant Entries() == ReplayEntries(es0, symbol, rounds) && vertices == ReplayVertices(vs0, rounds)
        invariant rootListed == (listed0 && rounds == [])
        invariant ring == GrownRoot(listed0, rounds, ring0)
        decreases f
      {
        if f == 0 {
          return OutOfFuel, rounds;
        }
        ghost var listed := rootListed;
        var o := SplitStep(v, vs0);
        if o.NoConcave? {
          v := v + 1;
        } else if o.NoHit? {
          return Stuck(v, o.corner), rounds;
        } else {
          ChainStep(es0, vs0, symbol, rounds, Round(v, o));
          assert listed ==> rounds == [];
          rounds := rounds + [Round(v, o)];
        }
        f := f - 1;
      }
      return AllSplit, rounds;
    }

    /**
     * ComputeTriangle: the fan of every entry, each triangle built by three
     * Appends, and the absolute triangle areas added to the polygon's area.
     */
    method ComputeTriangle()
      requires Valid()
      modifies this`triangles, this`triangulated, this`area
      ensures Valid()
      ensures RingsOf(Entries()) == RingsOf(old(Entries()))
      ensures triangulated && triangles == AllFans(RingsOf(Entries()))
      ensures |triangles| == TotalCount(RingsOf(Entries()))
      ensures area == old(area) + TotalArea(RingsOf(Entries()))
    {
      EntriesRegistered();
      var rs := RingsOf(Entries());
      var tris, total := FanAll(rs);
      AllFansShape(rs);
      AllFansIndexMapped(rs, vertices);
      triangles := tris;
      triangulated := true;
      area := area + total;
      assert RingsOf(Entries()) == rs;
    }

    /**
     * Execute: ComputeProperty, ConcaveSplit, ComputeTriangle; an exception
     * (a ring of fewer than two points) is caught and ends the run. `start`
     * is the registry ComputeProperty leaves and `rounds` the splits
     * ConcaveSplit makes on it.
     */
    method Execute(fuel: nat) returns (end: Run<SplitEnd>, ghost start: seq<Polygon>, ghost rounds: seq<Round>)
      requires Valid()
      modifies this`ring, this`kind, this`vertices, this`pieces, this`rootListed, this`triangles, this`triangulated, this`area
      ensures Valid()
      ensures start == if old(rootListed) then [Polygon(symbol, ClassifyRing(old(ring)), KindOf(ClassifyRing(old(ring)), symbol), old(area))] else old(pieces)
      ensures end.Threw? <==> |old(ring)| < 2
      ensures end.Threw? ==> ring == old(ring) && kind == old(kind) && vertices == old(vertices) && Entries() == old(Entries())
      ensures end.Threw? ==> triangles == old(triangles) && triangulated == old(triangulated) && area == old(area)
      ensures !end.Threw? ==> kind == KindOf(ClassifyRing(old(ring)), symbol)
      ensures !end.Threw? ==> Chained(start, old(vertices), symbol, rounds) && |rounds| <= fuel
      ensures !end.Threw? ==> vertices == ReplayVertices(old(vertices), rounds) && IsPrefix(old(vertices), vertices)
      ensures !end.Threw? ==> rootListed == (old(rootListed) && rounds == [])
      ensures !end.Threw? ==> ring == GrownRoot(old(rootListed), rounds, ClassifyRing(old(ring)))
      ensures !end.Threw? ==> RingsOf(Entries()) == RingsOf(ReplayEntries(start, symbol, rounds))
      ensures !end.Threw? && !rootListed ==> Entries() == ReplayEntries(start, symbol, rounds)
      ensures end.Exhausted? ==> triangles == old(triangles) && triangulated == old(triangulated) && area == old(area)
      ensures end.Returned? ==> end.value != OutOfFuel && Ended(Entries(), symbol, end.value) && Settled(Entries(), symbol)
      ensures end.Returned? ==> triangulated && triangles == AllFans(RingsOf(Entries()))
      ensures end.Returned? ==> area == old(area) + TotalArea(RingsOf(Entries()))
    {
      start := if rootListed then [Polygon(symbol, ClassifyRing(ring), KindOf(ClassifyRing(ring), symbol), area)] else pieces;
      rounds := [];
      var ok := ComputeProperty();
      if !ok {
        return Threw, start, rounds;
      }
      assert Entries() == start;
      end, rounds := SplitAndTriangulate(fuel);
    }

    /** The part of Execute after ComputeProperty: ConcaveSplit, then ComputeTriangle unless the fuel ran out. */
    method SplitAndTriangulate(fuel: nat) returns (end: Run<SplitEnd>, ghost rounds: seq<Round>)
      requires Valid()
      modifies this`ring, this`vertices, this`pieces, this`rootListed, this`triangles, this`triangulated, this`area
      ensures Valid() && !end.Threw?
      ensures Chained(old(Entries()), old(vertices), symbol, rounds) && |rounds| <= fuel
      ensures vertices == ReplayVertices(old(vertices), rounds) && IsPrefix(old(vertices), vertices)
      ensures rootListed == (old(rootListed) && rounds == [])
      ensures ring == GrownRoot(old(rootListed), rounds, old(ring))
      ensures RingsOf(Entries()) == RingsOf(ReplayEntries(old(Entries()), symbol, rounds))
      ensures !rootListed ==> Entries() == ReplayEntries(old(Entries()), symbol, rounds)
      ensures end.Exhausted? ==> triangles == old(triangles) && triangulated == old(triangulated) && area == old(area)
      ensures end.Returned? ==> end.value != OutOfFuel && Ended(Entries(), symbol, end.value) && Settled(Entries(), symbol)
      ensures end.Returned? ==> triangulated && triangles == AllFans(RingsOf(Entries()))
      ensures end.Returned? ==> area == old(area) + TotalArea(RingsOf(Entries()))
    {
      var s;
      s, rounds := ConcaveSplit(fuel);
      if s.OutOfFuel? {
        return Exhausted, rounds;
      }
      Triangulate(s);
      end := Returned(s);
    }

    /** ComputeTriangle after a ConcaveSplit that ended with `s`, which the area update keeps. */
    method Triangulate(ghost s: SplitEnd)
      requires Valid() && Ended(Entries(), symbol, s) && !s.OutOfFuel?
      modifies this`triangles, this`triangulated, this`area
      ensures Valid() && Ended(Entries(), symbol, s) && Settled(Entries(), symbol)
      ensures RingsOf(Entries()) == RingsOf(old(Entries())) && (!rootListed ==> Entries() == old(Entries()))
      ensures triangulated && triangles == AllFans(RingsOf(Entries()))
      ensures area == old(area) + TotalArea(RingsOf(Entries()))
    {
      ghost var split := Entries();
      ComputeTriangle();
      EndedRings(split, Entries(), symbol, s);
      EndedSettled(Entries(), symbol, s);
    }

    /**
     * GetTriangles: three indices per triangle, the last two swapped when
     * `reverse` differs from the polygon being Negative. Before Execute the
     * triangle list is null and the source throws.
     */
    method GetTriangles(reverse: bool) returns (t: Option<seq<int>>)
      requires Valid()
      ensures t.None? <==> !triangulated
      ensures t.Some? ==> t.value == Emit(triangles, reverse != (symbol == Negative))
      ensures t.Some? ==> |t.value| == 3 * |triangles|
      ensures t.Some? ==> forall k :: 0 <= k < |t.value| ==> 0 <= t.value[k] < |vertices|
    {
      if !triangulated {
        return None;
      }
      var flip := reverse;
      if symbol == Negative {
        flip := !flip;
      }
      var out: seq<int> := [];
      var i := 0;
      while i < |triangles|
        invariant 0 <= i <= |triangles|
        invariant out == Emit(triangles[..i], flip)
      {
        assert triangles[..i + 1][..i] == triangles[..i];
        var tr := triangles[i];
        if flip {
          out := out + [tr[0].index, tr[2].index, tr[1].index];
        } else {
          out := out + [tr[0].index, tr[1].index, tr[2].index];
        }
        i := i + 1;
      }
      assert triangles[..i] == triangles;
      EmitLength(triangles, flip);
      EmitInBounds(triangles, flip, vertices);
      t := Some(out);
    }

    /** GetVertices: the vertex list, which the split points extend and every ring indexes. */
    method GetVertices() returns (vs: seq<Vec2>)
      requires Valid()
      ensures vs == vertices && |vs| > 0
      ensures IndexMapped(ring, vs) && Registered(Entries(), symbol, vs)
    {
      EntriesRegistered();
      vs := vertices;
    }

    /** GetArea: the area ComputeTriangle accumulated. */
    method GetArea() returns (a: real)
      ensures a == area
    {
      a := area;
    }

    /**
     * GetUV: each vertex placed in the unit square by the bounding box; a
     * box of zero width or height divides by zero in the source and has no
     * value here.
     */
    method GetUV() returns (uv: Option<seq<Vec2>>)
      requires Valid()
      ensures uv.None? <==> BoxOf(vertices).maxX == BoxOf(vertices).minX || BoxOf(vertices).maxY == BoxOf(vertices).minY
      ensures uv.Some? ==> |uv.value| == |vertices|
      ensures uv.Some? ==> forall k :: 0 <= k < |vertices| ==> uv.value[k] == UVOf(BoxOf(vertices), vertices[k])
      ensures uv.Some? ==> forall k :: 0 <= k < |vertices| ==>
        0.0 <= uv.value[k].x <= 1.0 && 0.0 <= uv.value[k].y <= 1.0
    {
      uv := UV(vertices);
      if uv.Some? {
        forall k | 0 <= k < |vertices|
          ensures 0.0 <= uv.value[k].x <= 1.0 && 0.0 <= uv.value[k].y <= 1.0
        {
          UVInUnitSquare(vertices, k);
        }
      }
    }

    /** GetCenters: the vertex average of every entry, which lies in the entry's bounding box. */
    method GetCenters() returns (centers: seq<Vec2>)
      ensures |centers| == |Entries()|
      ensures forall j :: 0 <= j < |centers| ==> centers[j] == Centroid(Entries()[j].ring)
      ensures forall j :: 0 <= j < |centers| && |Entries()[j].ring| > 0 ==>
        InBox(BoxOf(Points(Entries()[j].ring)), centers[j])
    {
      var es := Entries();
      centers := [];
      var i := 0;
      while i < |es|
        invariant 0 <= i <= |es| && |centers| == i
        invariant forall j :: 0 <= j < i ==> centers[j] == Centroid(es[j].ring)
      {
        var c := GetCenter(es[i].ring);
        centers := centers + [c];
        i := i + 1;
      }
      forall j | 0 <= j < |centers| && |es[j].ring| > 0
        ensures InBox(BoxOf(Points(es[j].ring)), centers[j])
      {
        CentroidInBox(es[j].ring);
      }
    }

    /**
     * GetBoundRects: one rectangle per entry, the size of the entry's
     * bounding box, placed around the entry's vertex average.
     */
    method GetBoundRects() returns (rects: seq<Rect>)
      ensures |rects| == |Entries()|
      ensures forall j :: 0 <= j < |rects| ==> rects[j] == BoundRectAsWritten(Entries()[j].ring)
      ensures forall j, k :: 0 <= j < |rects| && Centred(Entries()[j].ring) && 0 <= k < |Entries()[j].ring| ==>
        Encloses(rects[j], Entries()[j].ring[k].point)
    {
      var es := Entries();
      rects := [];
      var i := 0;
      while i < |es|
        invariant 0 <= i <= |es| && |rects| == i
        invariant forall j :: 0 <= j < i ==> rects[j] == BoundRectAsWritten(es[j].ring)
        invariant forall j, k :: 0 <= j < i && Centred(es[j].ring) && 0 <= k < |es[j].ring| ==> Encloses(rects[j], es[j].ring[k].point)
      {
        var rect := GetBoundRect(es[i].ring);
        rects := rects + [rect];
        i := i + 1;
      }
    }

    /** GetMaxAreaPoint and GetMaxAreaRectPoint: the root ring's points, reversed when the winding differs. */
    method GetMaxAreaPoint(want: PolygonSymbol) returns (points: seq<Vec2>)
      ensures points == Oriented(Polygon(symbol, ring, kind, area), want)
      ensures |points| == |ring|
    {
      points := OrientedPoints(symbol, ring, want);
    }

    /** The private MaxAreaPolygon over this registry: the last entry of greatest fan area. */
    method MaxAreaEntry() returns (maxArea: real, k: int)
      requires Valid()
      ensures IsLastMax(AreasOf(Entries()), k)
      ensures maxArea == Greatest(AreasOf(Entries())) && maxArea >= 0.0
    {
      EntriesRegistered();
      maxArea, k := MaxAreaOf(Entries());
      LastMaxIsGreatest(AreasOf(Entries()), k);
    }

    /** Writes registry values back: into the root's fields before a split, into the pieces after. */
    method Store(es: seq<Polygon>)
      requires Valid() && |es| == |Entries()| && Registered(es, symbol, vertices)
      modifies this`ring, this`kind, this`area, this`pieces
      ensures Valid() && Entries() == es
      ensures !rootListed ==> ring == old(ring) && kind == old(kind) && area == old(area)
    {
      if rootListed {
        ring, kind, area := es[0].ring, es[0].kind, es[0].area;
        WithoutLineIndexMapped(ring, vertices);
      } else {
        pieces := es;
      }
    }

    /** DelLinePoint: collinear points dropped from every entry of the registry. */
    method DelLinePoint()
      requires Valid()
      modifies this`ring, this`kind, this`area, this`pieces
      ensures Valid()
      ensures Entries() == PrunedAll(old(Entries()))
    {
      EntriesRegistered();
      var qs := PruneAll(Entries());
      RegisteredPruned(Entries(), symbol, vertices, qs, -1);
      Store(qs);
    }

    /** DelLinePoint called on registry entry k, which prunes that entry only. */
    method PruneEntry(k: int)
      requires Valid() && 0 <= k < |Entries()|
      modifies this`ring, this`kind, this`area, this`pieces
      ensures Valid()
      ensures Entries() == old(Entries())[k := Pruned(old(Entries())[k])]
    {
      EntriesRegistered();
      var es := Entries();
      var pr := PruneLinePoints(es[k].ring);
      WithoutLineIndexMapped(es[k].ring, vertices);
      RegisteredUpdate(es, k, es[k].(ring := pr), symbol, vertices);
      Store(es[k := es[k].(ring := pr)]);
    }

    /**
     * The branch of the list overloads that keeps this registry's winner k:
     * it gets the area `a`, every other entry is pruned, and the rectangles
     * among the others follow it.
     */
    method KeepOwn(k: int, a: real) returns (out: seq<Polygon>)
      requires Valid() && 0 <= k < |Entries()|
      modifies this`ring, this`kind, this`area, this`pieces
      ensures Valid()
      ensures Entries() == PrunedAll(old(Entries()))[k := old(Entries())[k].(area := a)]
      ensures out == [Entries()[k]] + RectsOf(Entries(), k)
    {
      var es := Entries();
      EntriesRegistered();
      var best := es[k].(area := a);
      RegisteredUpdate(es, k, best, symbol, vertices);
      var qs, rects := PruneOthers(es[k := best], k);
      RegisteredPruned(es[k := best], symbol, vertices, qs, k);
      Store(qs);
      out := [best] + rects;
    }

    /**
     * The single-result MaxAreaPolygon: the largest piece of this registry is
     * compared with the largest piece the reversed vertex list splits into
     * (`revs`), a tie going to the reversed one; the winner gets its area and
     * loses its collinear points. When the reversed run throws or runs out of
     * fuel, nothing here has changed.
     */
    method MaxAreaPolygon(input: seq<Vec2>, fuel: nat)
      returns (r: Run<Polygon>, ghost revs: seq<Polygon>, ghost k: int, ghost rounds: seq<Round>, ghost vs: seq<Vec2>)
      requires Valid()
      modifies this`ring, this`kind, this`area, this`pieces
      ensures Valid()
      ensures r.Threw? <==> |input| < 2
      ensures !r.Returned? ==> Entries() == old(Entries())
      ensures r.Returned? ==> ReversedRun(input, rounds, revs, vs)
      ensures r.Returned? ==> r.value.area == Max2(Greatest(AreasOf(revs)), Greatest(AreasOf(old(Entries()))))
      ensures r.Returned? && Greatest(AreasOf(revs)) >= Greatest(AreasOf(old(Entries()))) ==>
        && IsLastMax(AreasOf(revs), k)
        && r.value == Pruned(revs[k]).(area := Greatest(AreasOf(revs)))
        && Entries() == old(Entries())
      ensures r.Returned? && Greatest(AreasOf(revs)) < Greatest(AreasOf(old(Entries()))) ==>
        && IsLastMax(AreasOf(old(Entries())), k)
        && r.value == Pruned(old(Entries())[k]).(area := Greatest(AreasOf(old(Entries()))))
        && Entries() == old(Entries())[k := r.value]
    {
      var a1, k1 := MaxAreaEntry();
      k := k1;
      var rv;
      var e;
      rv, e, rounds, vs := ReversedPieces(input, fuel);
      revs := if rv.Returned? then rv.value else [];
      if !rv.Returned? {
        return if rv.Threw? then Threw else Exhausted, revs, k, rounds, vs;
      }
      var a2, k2 := MaxAreaOf(rv.value);
      LastMaxIsGreatest(AreasOf(rv.value), k2);
      if a2 >= a1 {
        var pr := PruneLinePoints(rv.value[k2].ring);
        r, k := Returned(rv.value[k2].(ring := pr, area := a2)), k2;
      } else {
        var es := Entries();
        EntriesRegistered();
        var pr := PruneLinePoints(es[k1].ring);
        var chosen := es[k1].(ring := pr, area := a1);
        WithoutLineIndexMapped(es[k1].ring, vertices);
        RegisteredUpdate(es, k1, chosen, symbol, vertices);
        Store(es[k1 := chosen]);
        r := Returned(chosen);
      }
    }

    /**
     * What both list overloads do first: this registry's winner loses its
     * collinear points, then the reversed run is made and its winner is
     * found and pruned.
     */
    method Contest(input: seq<Vec2>, fuel: nat)
      returns (a1: real, k1: int, rv: Run<seq<Polygon>>, a2: real, k2: int, pr: seq<PointValue>,
               ghost rounds: seq<Round>, ghost vs: seq<Vec2>)
      requires Valid()
      modifies this`ring, this`kind, this`area, this`pieces
      ensures Valid()
      ensures IsLastMax(AreasOf(old(Entries())), k1) && a1 == Greatest(AreasOf(old(Entries())))
      ensures Entries() == old(Entries())[k1 := Pruned(old(Entries())[k1])]
      ensures rv.Threw? <==> |input| < 2
      ensures rv.Returned? ==> ReversedRun(input, rounds, rv.value, vs) && IsLastMax(AreasOf(rv.value), k2)
      ensures rv.Returned? ==> a2 == Greatest(AreasOf(rv.value)) && pr == WithoutLine(rv.value[k2].ring)
    {
      a1, k1 := MaxAreaEntry();
      PruneEntry(k1);
      var e;
      rv, e, rounds, vs := ReversedPieces(input, fuel);
      a2, k2, pr := 0.0, 0, [];
      if rv.Returned? {
        a2, k2 := MaxAreaOf(rv.value);
        LastMaxIsGreatest(AreasOf(rv.value), k2);
        pr := PruneLinePoints(rv.value[k2].ring);
      }
    }

    /**
     * The list overload of MaxAreaPolygon: the chosen polygon first, then
     * the other entries of the same registry that are rectangles, every
     * entry pruned of collinear points. This registry's largest entry is
     * pruned before the reversed run, whatever its outcome.
     */
    method MaxAreaPolygons(input: seq<Vec2>, fuel: nat)
      returns (r: Run<seq<Polygon>>, ghost revs: seq<Polygon>, ghost own: int, ghost other: int,
               ghost rounds: seq<Round>, ghost vs: seq<Vec2>)
      requires Valid()
      modifies this`ring, this`kind, this`area, this`pieces
      ensures Valid()
      ensures PolygonsOutcome(input, old(Entries()), Entries(), r, revs, rounds, vs, own, other)
    {
      var a1, k1, rv, a2, k2, pr;
      a1, k1, rv, a2, k2, pr, rounds, vs := Contest(input, fuel);
      ghost var start := old(Entries());
      own, other := k1, k2;
      revs := if rv.Returned? then rv.value else [];
      if !rv.Returned? {
        return if rv.Threw? then Threw else Exhausted, revs, own, other, rounds, vs;
      }
      if a2 >= a1 {
        var out := ReversedWinner(rv.value, k2, rv.value[k2].(ring := pr, area := a2));
        r := Returned(out);
      } else {
        var out := KeepOwn(k1, a1);
        PrunedAllOfPruned(start, k1, a1);
        r := Returned(out);
      }
    }

    /**
     * MaxAreaRect: as the list overload of MaxAreaPolygon, but a winner must
     * be a rectangle: the reversed winner when its area is at least ours and
     * it is a rectangle, else this registry's winner when it is a rectangle,
     * else nothing.
     */
    method MaxAreaRects(input: seq<Vec2>, fuel: nat)
      returns (r: Run<seq<Polygon>>, ghost revs: seq<Polygon>, ghost own: int, ghost other: int,
               ghost takeReversed: bool, ghost takeOwn: bool, ghost rounds: seq<Round>, ghost vs: seq<Vec2>)
      requires Valid()
      modifies this`ring, this`kind, this`area, this`pieces
      ensures Valid()
      ensures RectsOutcome(input, old(Entries()), Entries(), r, revs, rounds, vs, own, other, takeReversed, takeOwn)
    {
      var a1, k1, rv, a2, k2, pr;
      a1, k1, rv, a2, k2, pr, rounds, vs := Contest(input, fuel);
      ghost var start := old(Entries());
      own, other := k1, k2;
      revs := if rv.Returned? then rv.value else [];
      takeReversed, takeOwn := false, false;
      if !rv.Returned? {
        return if rv.Threw? then Threw else Exhausted, revs, own, other, takeReversed, takeOwn, rounds, vs;
      }
      var es := Entries();
      if a2 >= a1 && IsRect(pr) {
        takeReversed := true;
        var out := ReversedWinner(rv.value, k2, rv.value[k2].(ring := pr, area := a2));
        LeadingRect(rv.value[k2].(ring := pr, area := a2), PrunedAll(rv.value), k2);
        r := Returned(out);
      } else if IsRect(es[k1].ring) {
        takeOwn := true;
        var out := KeepOwn(k1, a1);
        PrunedAllOfPruned(start, k1, a1);
        LeadingRect(Entries()[k1], Entries(), k1);
        r := Returned(out);
      } else {
        r := Returned([]);
      }
    }

    /**
     * The point-list overload of MaxAreaPolygon: the list overload's
     * polygons `polys`, each as its points in the requested winding.
     */
    method MaxAreaPolygonPoints(input: seq<Vec2>, fuel: nat, want: PolygonSymbol)
      returns (r: Run<seq<seq<Vec2>>>, ghost polys: Run<seq<Polygon>>, ghost revs: seq<Polygon>,
               ghost own: int, ghost other: int, ghost rounds: seq<Round>, ghost vs: seq<Vec2>)
      requires Valid()
      modifies this`ring, this`kind, this`area, this`pieces
      ensures Valid()
      ensures PolygonsOutcome(input, old(Entries()), Entries(), polys, revs, rounds, vs, own, other)
      ensures r.Threw? == polys.Threw? && r.Returned? == polys.Returned?
      ensures r.Returned? ==>
        |r.value| == |polys.value| && forall j :: 0 <= j < |polys.value| ==> r.value[j] == Oriented(polys.value[j], want)
    {
      var ps;
      ps, revs, own, other, rounds, vs := MaxAreaPolygons(input, fuel);
      polys := ps;
      if !ps.Returned? {
        return if ps.Threw? then Threw else Exhausted, polys, revs, own, other, rounds, vs;
      }
      var out := PointsOf(ps.value, want);
      r := Returned(out);
    }

    /**
     * The point-list overload of MaxAreaRect: the rectangles `polys` of
     * MaxAreaRect, each as its four points in the requested winding.
     */
    method MaxAreaRectPoints(input: seq<Vec2>, fuel: nat, want: PolygonSymbol)
      returns (r: Run<seq<seq<Vec2>>>, ghost polys: Run<seq<Polygon>>, ghost revs: seq<Polygon>,
               ghost own: int, ghost other: int, ghost takeReversed: bool, ghost takeOwn: bool,
               ghost rounds: seq<Round>, ghost vs: seq<Vec2>)
      requires Valid()
      modifies this`ring, this`kind, this`area, this`pieces
      ensures Valid()
      ensures RectsOutcome(input, old(Entries()), Entries(), polys, revs, rounds, vs, own, other, takeReversed, takeOwn)
      ensures r.Threw? == polys.Threw? && r.Returned? == polys.Returned?
      ensures r.Returned? ==> |r.value| == |polys.value| && forall j :: 0 <= j < |polys.value| ==>
        r.value[j] == Oriented(polys.value[j], want) && |r.value[j]| == 4
    {
      var ps;
      ps, revs, own, other, takeReversed, takeOwn, rounds, vs := MaxAreaRects(input, fuel);
      polys := ps;
      if !ps.Returned? {
        return if ps.Threw? then Threw else Exhausted, polys, revs, own, other, takeReversed, takeOwn, rounds, vs;
      }
      var out := PointsOf(ps.value, want);
      r := Returned(out);
    }
  }

  /**
   * The branch of the list overloads that takes the reversed registry's
   * winner k: `best` first, then the other entries that are rectangles once
   * pruned.
   */
  method ReversedWinner(ps: seq<Polygon>, k: int, best: Polygon) returns (out: seq<Polygon>)
    requires 0 <= k < |ps|
    ensures out == [best] + RectsOf(PrunedAll(ps), k)
  {
    var qs, rects := PruneOthers(ps[k := best], k);
    RectsOfIgnoresExcluded(qs, PrunedAll(ps), k);
    out := [best] + rects;
  }

  /** Pruning entry k first does not change the fully pruned registry with k replaced. */
  lemma PrunedAllOfPruned(es: seq<Polygon>, k: int, a: real)
    requires 0 <= k < |es|
    ensures PrunedAll(es[k := Pruned(es[k])])[k := Pruned(es[k]).(area := a)] == PrunedAll(es)[k := Pruned(es[k]).(area := a)]
  {
  }

  /**
   * The reversed run of the maximum-area overloads: a polygon built on the
   * vertex list in reverse order, then ComputeProperty and ConcaveSplit. It
   * throws when the list is empty (the constructor reads element 0) or has
   * one point (ComputeProperty reads element 1).
   */
  method ReversedPieces(input: seq<Vec2>, fuel: nat)
    returns (r: Run<seq<Polygon>>, end: SplitEnd, ghost rounds: seq<Round>, ghost vs: seq<Vec2>)
    ensures r.Threw? <==> |input| < 2
    ensures r.Returned? ==> ReversedRun(input, rounds, r.value, vs) && !end.OutOfFuel?
    ensures r.Returned? ==> forall j :: 0 <= j < |r.value| ==> r.value[j].symbol == YWinding(Reversed(input))
    ensures r.Returned? ==> Ended(r.value, YWinding(Reversed(input)), end)
  {
    end, rounds, vs := OutOfFuel, [], [];
    if |input| == 0 {
      return Threw, end, rounds, vs;
    }
    ghost var x := Reversed(input);
    var other := new SimplePolygon(Reversed(input));
    var ok := other.ComputeProperty();
    if !ok {
      return Threw, end, rounds, vs;
    }
    assert other.Entries() == Root(x);
    end, rounds := other.ConcaveSplit(fuel);
    vs := other.vertices;
    if end.OutOfFuel? {
      return Exhausted, end, rounds, vs;
    }
    other.EntriesRegistered();
    EndedSettled(other.Entries(), other.symbol, end);
    r := Returned(other.Entries());
  }
}
