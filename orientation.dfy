/*
 * Orientation of a polygon ring (ModelCreator/BaseMeshCreator.cs): the turn
 * each vertex makes with its cyclic neighbours (ComputeProperty), whether the
 * ring is convex with respect to a winding, and the winding the public
 * constructor derives from the vertices sorted by descending y.
 */
module Orientation {
  import opened Geometry
  import opened PolygonPoint
  import opened Structure

  // ---------------------------------------------------------------------------
  // Turns and convexity
  // ---------------------------------------------------------------------------

  /** The turn SetSymbol computes at position k, from the cyclic neighbours GetSafe(k - 1) and GetSafe(k + 1). */
  function Turn(r: seq<PointValue>, k: int): PolygonSymbol
    requires 0 <= k < |r|
  {
    SymbolOf(r[k].point, r[NormalIndex(|r|, k - 1)].point, r[NormalIndex(|r|, k + 1)].point)
  }

  /** The ring after ComputeProperty: every point carries its turn. */
  function ClassifyRing(r: seq<PointValue>): seq<PointValue>
  {
    seq(|r|, k requires 0 <= k < |r| => r[k].(symbol := Turn(r, k)))
  }

  /** A point is a concave corner when its turn is known, not collinear, and against the winding. */
  predicate IsConcaveTurn(s: PolygonSymbol, winding: PolygonSymbol)
  {
    s != Line && s != Unset && s != winding
  }

  /** A classified ring is Concave when some corner turns against the winding, Convex otherwise. */
  function KindOf(c: seq<PointValue>, winding: PolygonSymbol): PolygonType
  {
    if HasConcaveCorner(c, winding) then Concave else Convex
  }

  predicate HasConcaveCorner(c: seq<PointValue>, winding: PolygonSymbol)
  {
    exists k :: 0 <= k < |c| && IsConcaveTurn(c[k].symbol, winding)
  }

  /** The two wrap-around neighbours of the end positions. */
  lemma WrapNeighbours(n: int)
    requires n > 0
    ensures NormalIndex(n, -1) == n - 1
    ensures NormalIndex(n, n) == 0
  {
    ModUnique(-1, n, -1, n - 1);
    ModUnique(n, n, 1, 0);
  }

  /**
   * ComputeProperty on one ring: the first point from (last, second), the
   * middle ones from (i, i + 2), the last from (second to last, first). It
   * throws (reported as `ok` false, nothing changed) when the ring has fewer
   * than two points, because Get(1) is out of range.
   */
  method ComputeRingProperty(r: seq<PointValue>, winding: PolygonSymbol)
    returns (ok: bool, c: seq<PointValue>, kind: PolygonType)
    ensures ok <==> |r| >= 2
    ensures ok ==> c == ClassifyRing(r) && kind == KindOf(c, winding)
    ensures !ok ==> c == r
    ensures kind != Unknown <==> ok
  {
    if |r| < 2 {
      return false, r, Unknown;
    }
    var n := |r|;
    WrapNeighbours(n);
    ghost var target := ClassifyRing(r);
    var concave := false;
    c := r;
    c, concave := SetSymbolAt(r, c, 0, n - 1, 1, winding, concave);
    c, concave := ClassifyMiddle(r, c, winding, concave);
    c, concave := SetSymbolAt(r, c, n - 1, n - 2, 0, winding, concave);
    assert forall k :: 0 <= k < n ==> c[k] == target[k];
    assert concave <==> exists k :: 0 <= k < n && IsConcaveTurn(target[k].symbol, winding);
    ok := true;
    kind := if concave then Concave else Convex;
  }

  /** The loop of ComputeProperty over positions 1 .. size - 2, after position 0 is set. */
  method ClassifyMiddle(r: seq<PointValue>, c0: seq<PointValue>, winding: PolygonSymbol, concave0: bool)
    returns (c: seq<PointValue>, concave: bool)
    requires |r| >= 2 && |c0| == |r|
    requires c0[0] == ClassifyRing(r)[0] && forall k :: 0 < k < |r| ==> c0[k] == r[k]
    requires concave0 <==> IsConcaveTurn(ClassifyRing(r)[0].symbol, winding)
    ensures |c| == |r|
    ensures forall k :: 0 <= k < |r| - 1 ==> c[k] == ClassifyRing(r)[k]
    ensures c[|r| - 1] == r[|r| - 1]
    ensures concave <==> exists k :: 0 <= k < |r| - 1 && IsConcaveTurn(ClassifyRing(r)[k].symbol, winding)
  {
    var n := |r|;
    ghost var target := ClassifyRing(r);
    c, concave := c0, concave0;
    var i := 0;
    while i < n - 2
      invariant 0 <= i <= n - 2
      invariant |c| == n
      invariant forall k :: 0 <= k <= i ==> c[k] == target[k]
      invariant forall k :: i < k < n ==> c[k] == r[k]
      invariant concave <==> exists k :: 0 <= k <= i && IsConcaveTurn(target[k].symbol, winding)
    {
      c, concave := SetSymbolAt(r, c, i + 1, i, i + 2, winding, concave);
      i := i + 1;
    }
  }

  /** SetSymbol at position k from the points at a and b, and the concavity flag updated with the new turn. */
  method SetSymbolAt(r: seq<PointValue>, c: seq<PointValue>, k: int, a: int, b: int, winding: PolygonSymbol, concave: bool)
    returns (d: seq<PointValue>, now: bool)
    requires |c| == |r| && 0 <= k < |r| && 0 <= a < |r| && 0 <= b < |r|
    requires c[k] == r[k]
    requires a == NormalIndex(|r|, k - 1) && b == NormalIndex(|r|, k + 1)
    requires c[a].point == r[a].point && c[b].point == r[b].point
    ensures d == c[k := ClassifyRing(r)[k]]
    ensures now <==> concave || IsConcaveTurn(ClassifyRing(r)[k].symbol, winding)
  {
    ClassifyStep(r, c, k, a, b);
    d := c[k := Classified(c[k], c[a], c[b])];
    now := concave;
    if IsConcaveTurn(d[k].symbol, winding) {
      now := true;
    }
  }

  /** One SetSymbol call of ComputeProperty: it stores the turn of position k when `a` and `b` hold its neighbours' positions. */
  lemma ClassifyStep(r: seq<PointValue>, c: seq<PointValue>, k: int, a: int, b: int)
    requires |c| == |r| && 0 <= k < |r| && 0 <= a < |r| && 0 <= b < |r|
    requires c[k] == r[k]
    requires a == NormalIndex(|r|, k - 1) && b == NormalIndex(|r|, k + 1)
    requires c[a].point == r[a].point && c[b].point == r[b].point
    ensures Classified(c[k], c[a], c[b]) == ClassifyRing(r)[k]
  {
  }

  /** The classification gives every point its own turn; points and indices are kept. */
  lemma ClassifiedPoints(r: seq<PointValue>, k: int)
    requires 0 <= k < |r|
    ensures |ClassifyRing(r)| == |r|
    ensures ClassifyRing(r)[k].point == r[k].point && ClassifyRing(r)[k].index == r[k].index
    ensures ClassifyRing(r)[k].symbol == Turn(r, k) != Unset
  {
  }

  /** Classifying twice changes nothing: a turn depends only on positions. */
  lemma {:induction false} ClassifyIdempotent(r: seq<PointValue>)
    ensures ClassifyRing(ClassifyRing(r)) == ClassifyRing(r)
  {
    var c := ClassifyRing(r);
    forall k | 0 <= k < |r|
      ensures ClassifyRing(c)[k] == c[k]
    {
      assert c[NormalIndex(|r|, k - 1)].point == r[NormalIndex(|r|, k - 1)].point;
      assert c[NormalIndex(|r|, k + 1)].point == r[NormalIndex(|r|, k + 1)].point;
    }
  }

  // ---------------------------------------------------------------------------
  // Reversal: the ring read backwards
  // ---------------------------------------------------------------------------

  function Reversed<T>(s: seq<T>): (r: seq<T>)
    ensures |r| == |s|
    ensures forall k :: 0 <= k < |s| ==> r[k] == s[|s| - 1 - k]
  {
    seq(|s|, k requires 0 <= k < |s| => s[|s| - 1 - k])
  }

  /** Reading the ring backwards swaps each point's neighbours, so every turn is flipped. */
  lemma TurnReversed(r: seq<PointValue>, k: int)
    requires 0 <= k < |r|
    ensures Turn(Reversed(r), k) == Flip(Turn(r, |r| - 1 - k))
  {
    var n := |r|;
    var v := Reversed(r);
    var m := n - 1 - k;
    WrapNeighbours(n);
    // the neighbour before k in v is the neighbour after m in r, and the other way round
    assert v[NormalIndex(n, k - 1)] == r[NormalIndex(n, m + 1)] by {
      if k == 0 { assert NormalIndex(n, m + 1) == 0; }
      else { assert NormalIndex(n, k - 1) == k - 1; }
    }
    assert v[NormalIndex(n, k + 1)] == r[NormalIndex(n, m - 1)] by {
      if k == n - 1 { assert NormalIndex(n, m - 1) == n - 1; }
      else { assert NormalIndex(n, k + 1) == k + 1; }
    }
    SymbolOfSwapped(r[m].point, r[NormalIndex(n, m - 1)].point, r[NormalIndex(n, m + 1)].point);
  }

  /** A corner is concave in the ring exactly when its mirror corner is concave, against the flipped winding, in the reversed ring. */
  lemma ConcaveReversedAt(r: seq<PointValue>, winding: PolygonSymbol, k: int)
    requires 0 <= k < |r|
    ensures IsConcaveTurn(ClassifyRing(Reversed(r))[k].symbol, Flip(winding))
        <==> IsConcaveTurn(ClassifyRing(r)[|r| - 1 - k].symbol, winding)
  {
    TurnReversed(r, k);
  }

  /** The reversed ring is concave against the flipped winding exactly when the ring is concave against the winding. */
  lemma KindReversed(r: seq<PointValue>, winding: PolygonSymbol)
    ensures KindOf(ClassifyRing(Reversed(r)), Flip(winding)) == KindOf(ClassifyRing(r), winding)
  {
    var n := |r|;
    var c, d := ClassifyRing(r), ClassifyRing(Reversed(r));
    assert |c| == n && |d| == n;
    forall k | 0 <= k < n
      ensures IsConcaveTurn(d[k].symbol, Flip(winding)) <==> IsConcaveTurn(c[n - 1 - k].symbol, winding)
    {
      ConcaveReversedAt(r, winding, k);
    }
    if HasConcaveCorner(c, winding) {
      var k :| 0 <= k < n && IsConcaveTurn(c[k].symbol, winding);
      assert IsConcaveTurn(d[n - 1 - k].symbol, Flip(winding));
    }
    if HasConcaveCorner(d, Flip(winding)) {
      var k :| 0 <= k < n && IsConcaveTurn(d[k].symbol, Flip(winding));
      assert IsConcaveTurn(c[n - 1 - k].symbol, winding);
    }
  }

  // ---------------------------------------------------------------------------
  // Winding detection in the public constructor
  // ---------------------------------------------------------------------------

  /** The last entry that is not Line, or `d` when every entry is Line. */
  function LastNonLine(d: PolygonSymbol, cs: seq<PolygonSymbol>): PolygonSymbol
    decreases |cs|
  {
    if cs == [] then d
    else if cs[|cs| - 1] != Line then cs[|cs| - 1]
    else LastNonLine(d, cs[..|cs| - 1])
  }

  /** The default when every entry is Line. */
  lemma {:induction false} LastNonLineDefault(d: PolygonSymbol, cs: seq<PolygonSymbol>)
    requires forall i :: 0 <= i < |cs| ==> cs[i] == Line
    ensures LastNonLine(d, cs) == d
    decreases |cs|
  {
    if cs != [] {
      LastNonLineDefault(d, cs[..|cs| - 1]);
    }
  }

  /** The entry j when it is not Line and only Line follows it. */
  lemma {:induction false} LastNonLineIsLast(d: PolygonSymbol, cs: seq<PolygonSymbol>, j: int)
    requires 0 <= j < |cs| && cs[j] != Line
    requires forall i :: j < i < |cs| ==> cs[i] == Line
    ensures LastNonLine(d, cs) == cs[j]
    decreases |cs|
  {
    if j < |cs| - 1 {
      var front := cs[..|cs| - 1];
      assert front[j] == cs[j];
      LastNonLineIsLast(d, front, j);
    }
  }

  predicate IndicesIn(order: seq<int>, n: int)
  {
    forall i :: 0 <= i < |order| ==> 0 <= order[i] < n
  }

  /** The turns of the ring, visited in `order`. */
  function OrderedTurns(r: seq<PointValue>, order: seq<int>): (cs: seq<PolygonSymbol>)
    requires IndicesIn(order, |r|)
    ensures |cs| == |order|
    ensures forall i :: 0 <= i < |order| ==> cs[i] == Turn(r, order[i])
  {
    seq(|order|, i requires 0 <= i < |order| => Turn(r, order[i]))
  }

  /** The winding the constructor keeps: the last non-collinear turn in `order`, Positive by default. */
  function Winding(r: seq<PointValue>, order: seq<int>): PolygonSymbol
    requires IndicesIn(order, |r|)
  {
    LastNonLine(Positive, OrderedTurns(r, order))
  }

  /**
   * The constructor's classification loop: a copy of each vertex in `order`
   * is classified against its neighbours, and every turn that is not Line
   * overwrites the winding.
   */
  method ComputeWinding(r: seq<PointValue>, order: seq<int>) returns (w: PolygonSymbol)
    requires IndicesIn(order, |r|)
    ensures w == Winding(r, order)
    ensures w != Line && w != Unset
  {
    w := Positive;
    var i := 0;
    while i < |order|
      invariant 0 <= i <= |order|
      invariant w == LastNonLine(Positive, OrderedTurns(r, order)[..i])
    {
      var o := order[i];
      var n := |r|;
      var p := Classified(Copy(r[o]), r[NormalIndex(n, o - 1)], r[NormalIndex(n, o + 1)]);
      assert OrderedTurns(r, order)[..i + 1][..i] == OrderedTurns(r, order)[..i];
      if p.symbol != Line {
        w := p.symbol;
      }
      i := i + 1;
    }
    assert OrderedTurns(r, order)[..i] == OrderedTurns(r, order);
    NoLineWinding(OrderedTurns(r, order));
  }

  /** With the Positive default the winding is never Line or Unset. */
  lemma {:induction false} NoLineWinding(cs: seq<PolygonSymbol>)
    ensures LastNonLine(Positive, cs) != Line
    ensures LastNonLine(Positive, cs) != Unset || Unset in cs
    decreases |cs|
  {
    if cs != [] && cs[|cs| - 1] == Line {
      NoLineWinding(cs[..|cs| - 1]);
      assert Unset in cs[..|cs| - 1] ==> Unset in cs;
    }
  }

  /** When every vertex turns the same non-collinear way, that is the winding. */
  lemma ConvexWinding(r: seq<PointValue>, order: seq<int>, s: PolygonSymbol)
    requires IndicesIn(order, |r|) && |order| > 0 && s != Line
    requires forall k :: 0 <= k < |r| ==> Turn(r, k) == s
    ensures Winding(r, order) == s
  {
    var cs := OrderedTurns(r, order);
    assert cs[|cs| - 1] == s;
  }

  // ---------------------------------------------------------------------------
  // The exchange sort of the vertex indices by descending y
  // ---------------------------------------------------------------------------

  function Iota(n: nat): (s: seq<int>)
    ensures |s| == n && forall k :: 0 <= k < n ==> s[k] == k
  {
    seq(n, k => k)
  }

  /** `order` lists the indices 0 .. |ys| - 1 with non-increasing y. */
  predicate IsYOrder(order: seq<int>, ys: seq<real>)
  {
    && |order| == |ys|
    && multiset(order) == multiset(Iota(|ys|))
    && IndicesIn(order, |ys|)
    && forall p, q :: 0 <= p < q < |order| ==> ys[order[p]] >= ys[order[q]]
  }

  /**
   * One inner pass of the constructor's exchange sort at position i, from
   * position j on: every later index whose y is strictly greater than the
   * one at i is swapped into position i.
   */
  function Pass(s: seq<int>, ys: seq<real>, i: int, j: int): (t: seq<int>)
    requires 0 <= i < j <= |s| && IndicesIn(s, |ys|)
    ensures |t| == |s| && IndicesIn(t, |ys|)
    decreases |s| - j
  {
    if j == |s| then s
    else if ys[s[j]] > ys[s[i]] then Pass(s[i := s[j]][j := s[i]], ys, i, j + 1)
    else Pass(s, ys, i, j + 1)
  }

  /** One step of a pass: position j compared with position i, and swapped into it when greater. */
  lemma PassStep(s: seq<int>, ys: seq<real>, i: int, j: int)
    requires 0 <= i < j < |s| && IndicesIn(s, |ys|)
    ensures ys[s[j]] > ys[s[i]] ==> Pass(s, ys, i, j) == Pass(s[i := s[j]][j := s[i]], ys, i, j + 1)
    ensures !(ys[s[j]] > ys[s[i]]) ==> Pass(s, ys, i, j) == Pass(s, ys, i, j + 1)
  {
  }

  /** The outer loop of the exchange sort: one pass for each position from i to the second to last. */
  function Sweep(s: seq<int>, ys: seq<real>, i: nat): (t: seq<int>)
    requires i <= |s| && IndicesIn(s, |ys|)
    ensures |t| == |s| && IndicesIn(t, |ys|)
    decreases |s| - i
  {
    if i + 1 >= |s| then s else Sweep(Pass(s, ys, i, i + 1), ys, i + 1)
  }

  /** The order the constructor's exchange sort leaves the indices 0 .. |ys| - 1 in, ties included. */
  function ExchangeSorted(ys: seq<real>): (order: seq<int>)
    ensures |order| == |ys| && IndicesIn(order, |ys|)
  {
    Sweep(Iota(|ys|), ys, 0)
  }

  /** Every position before i holds a y at least as great as every later position. */
  predicate SortedBefore(s: seq<int>, ys: seq<real>, i: int)
    requires IndicesIn(s, |ys|)
  {
    forall p, q :: 0 <= p < i && p < q < |s| ==> ys[s[p]] >= ys[s[q]]
  }

  /** A pass leaves the entries before i where they were. */
  lemma {:induction false} PassKeepsPrefix(s: seq<int>, ys: seq<real>, i: int, j: int)
    requires 0 <= i < j <= |s| && IndicesIn(s, |ys|)
    ensures Pass(s, ys, i, j)[..i] == s[..i]
    decreases |s| - j
  {
    if j < |s| {
      var u := s[i := s[j]][j := s[i]];
      assert u[..i] == s[..i];
      if ys[s[j]] > ys[s[i]] {
        PassKeepsPrefix(u, ys, i, j + 1);
      } else {
        PassKeepsPrefix(s, ys, i, j + 1);
      }
    }
  }

  /** A pass only permutes the entries. */
  lemma {:induction false} PassPermutes(s: seq<int>, ys: seq<real>, i: int, j: int)
    requires 0 <= i < j <= |s| && IndicesIn(s, |ys|)
    ensures multiset(Pass(s, ys, i, j)) == multiset(s)
    decreases |s| - j
  {
    if j < |s| {
      PassStep(s, ys, i, j);
      if ys[s[j]] > ys[s[i]] {
        SwapPermutes(s, i, j);
        PassPermutes(s[i := s[j]][j := s[i]], ys, i, j + 1);
      } else {
        PassPermutes(s, ys, i, j + 1);
      }
    }
  }

  /** Exchanging two entries keeps the multiset. */
  lemma SwapPermutes(x: seq<int>, a: int, b: int)
    requires 0 <= a < b < |x|
    ensures multiset(x[a := x[b]][b := x[a]]) == multiset(x)
  {
    var y := x[a := x[b]];
    assert multiset(y) == multiset(x) - multiset{x[a]} + multiset{x[b]};
    assert multiset(y[b := x[a]]) == multiset(y) - multiset{y[b]} + multiset{x[a]};
  }

  /** A pass leaves at i a y at least as great as every later one. */
  lemma {:induction false} PassPutsGreatest(s: seq<int>, ys: seq<real>, i: int, j: int)
    requires 0 <= i < j <= |s| && IndicesIn(s, |ys|)
    requires forall q :: i < q < j ==> ys[s[i]] >= ys[s[q]]
    ensures forall q :: i < q < |s| ==> ys[Pass(s, ys, i, j)[i]] >= ys[Pass(s, ys, i, j)[q]]
    decreases |s| - j
  {
    if j < |s| {
      if ys[s[j]] > ys[s[i]] {
        var u := s[i := s[j]][j := s[i]];
        assert forall q :: i < q < j + 1 ==> ys[u[i]] >= ys[u[q]];
        PassPutsGreatest(u, ys, i, j + 1);
      } else {
        PassPutsGreatest(s, ys, i, j + 1);
      }
    }
  }

  /** After the pass at i, the positions up to and including i are in place. */
  lemma PassSorts(s: seq<int>, ys: seq<real>, i: int)
    requires 0 <= i < |s| - 1 && IndicesIn(s, |ys|) && SortedBefore(s, ys, i)
    ensures multiset(Pass(s, ys, i, i + 1)) == multiset(s)
    ensures SortedBefore(Pass(s, ys, i, i + 1), ys, i + 1)
  {
    var t := Pass(s, ys, i, i + 1);
    PassKeepsPrefix(s, ys, i, i + 1);
    PassPermutes(s, ys, i, i + 1);
    PassPutsGreatest(s, ys, i, i + 1);
    SuffixPermuted(s, t, i);
    forall p, q | 0 <= p < i + 1 && p < q < |t|
      ensures ys[t[p]] >= ys[t[q]]
    {
      if p < i {
        assert t[p] == t[..i][p] == s[..i][p] == s[p];
        if q < i {
          assert t[q] == t[..i][q] == s[..i][q] == s[q];
        } else {
          assert t[q] == t[i..][q - i];
          assert t[q] in multiset(s[i..]);
          var q' :| 0 <= q' < |s[i..]| && s[i..][q'] == t[q];
          assert s[i + q'] == t[q];
        }
      }
    }
  }

  /** Two lists that agree before i and are permutations of each other permute their entries from i on. */
  lemma SuffixPermuted(s: seq<int>, t: seq<int>, i: int)
    requires 0 <= i <= |s| == |t| && t[..i] == s[..i] && multiset(t) == multiset(s)
    ensures multiset(t[i..]) == multiset(s[i..])
  {
    assert s == s[..i] + s[i..] && t == t[..i] + t[i..];
    assert multiset(s) == multiset(s[..i]) + multiset(s[i..]);
    assert multiset(t) == multiset(t[..i]) + multiset(t[i..]);
    assert multiset(t[i..]) == multiset(t) - multiset(t[..i]);
    assert multiset(s[i..]) == multiset(s) - multiset(s[..i]);
  }

  /** The whole sweep from a sorted prefix permutes the indices into non-increasing y. */
  lemma {:induction false} SweepSorts(s: seq<int>, ys: seq<real>, i: nat)
    requires i <= |s| && IndicesIn(s, |ys|) && SortedBefore(s, ys, i)
    ensures multiset(Sweep(s, ys, i)) == multiset(s)
    ensures SortedBefore(Sweep(s, ys, i), ys, |s|)
    decreases |s| - i
  {
    if i + 1 < |s| {
      var t := Pass(s, ys, i, i + 1);
      assert Sweep(s, ys, i) == Sweep(t, ys, i + 1);
      PassSorts(s, ys, i);
      SweepSorts(t, ys, i + 1);
    } else {
      assert Sweep(s, ys, i) == s;
    }
  }

  /** The exchange sort lists every index once, in non-increasing y. */
  lemma ExchangeSortedIsYOrder(ys: seq<real>)
    ensures IsYOrder(ExchangeSorted(ys), ys)
  {
    SweepSorts(Iota(|ys|), ys, 0);
  }

  /**
   * The constructor's index sort: for each i, every later index whose y is
   * strictly greater is swapped into position i. The result is the exchange
   * sort's own order, which lists every index once with non-increasing y.
   */
  method SortByYDescending(ys: seq<real>) returns (a: array<int>)
    ensures fresh(a)
    ensures a[..] == ExchangeSorted(ys)
    ensures IsYOrder(a[..], ys)
  {
    var n := |ys|;
    a := new int[n](k => k);
    assert a[..] == Iota(n);
    var i := 0;
    while i < n - 1
      invariant 0 <= i <= n && (n == 0 || i <= n - 1)
      invariant a.Length == n
      invariant IndicesIn(a[..], n) && Sweep(a[..], ys, i) == ExchangeSorted(ys)
    {
      PullGreatest(a, ys, i);
      i := i + 1;
    }
    ExchangeSortedIsYOrder(ys);
  }

  /** The inner loop of the sort: one pass at position i. */
  method PullGreatest(a: array<int>, ys: seq<real>, i: int)
    requires 0 <= i < a.Length == |ys| && IndicesIn(a[..], |ys|)
    modifies a
    ensures a[..] == Pass(old(a[..]), ys, i, i + 1)
  {
    ghost var start := a[..];
    var j := i + 1;
    while j < a.Length
      invariant i < j <= a.Length
      invariant IndicesIn(a[..], |ys|) && Pass(a[..], ys, i, j) == Pass(start, ys, i, i + 1)
    {
      PassStep(a[..], ys, i, j);
      CompareSwap(a, ys, i, j);
      j := j + 1;
    }
  }

  /** One comparison of the inner loop: the entry at j is swapped into i when its y is strictly greater. */
  method CompareSwap(a: array<int>, ys: seq<real>, i: int, j: int)
    requires 0 <= i < j < a.Length == |ys| && IndicesIn(a[..], |ys|)
    modifies a
    ensures a[..] == if ys[old(a[j])] > ys[old(a[i])] then old(a[..])[i := old(a[j])][j := old(a[i])] else old(a[..])
  {
    assert a[..][i] == a[i] && a[..][j] == a[j];
    if ys[a[j]] > ys[a[i]] {
      SwapEntries(a, i, j);
    }
  }

  /** Exchanges two entries of the index array. */
  method SwapEntries(a: array<int>, i: int, j: int)
    requires 0 <= i < j < a.Length
    modifies a
    ensures a[i] == old(a[j]) && a[j] == old(a[i])
    ensures forall k :: 0 <= k < a.Length && k != i && k != j ==> a[k] == old(a[k])
    ensures a[..] == old(a[..])[i := old(a[j])][j := old(a[i])]
    ensures multiset(a[..]) == multiset(old(a[..]))
  {
    a[i], a[j] := a[j], a[i];
    assert a[..] == old(a[..])[i := old(a[j])][j := old(a[i])];
  }
}
