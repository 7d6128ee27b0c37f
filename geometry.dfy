/*
 * Plane geometry of Utils/CoreUtils.cs: the 2-D cross product with its dead
 * zone, the segment/ray/line type LineSegment_2D with its point test and its
 * intersection, and the 3-D segment intersection test.
 *
 * Coordinates are mathematical reals; the source works on 32-bit floats,
 * whose rounding is not modelled. A bound of a ray or a line may be a float
 * infinity, which is why bounds are ExtReal.
 */
module Geometry {

  datatype Option<T> = None | Some(value: T)

  /** Cross_2d treats a product strictly inside (-CrossEpsilon, CrossEpsilon) as zero. */
  const CrossEpsilon: real := 0.00001

  /** PointInLine accepts a point whose y is within LineEpsilon of the line. */
  const LineEpsilon: real := 0.0001

  /** Unity's Vector2 equality: the squared distance is below VectorEpsilon squared. */
  const VectorEpsilon: real := 0.00001

  // ---------------------------------------------------------------------------
  // Vectors
  // ---------------------------------------------------------------------------

  datatype Vec2 = Vec2(x: real, y: real)
  {
    function Minus(o: Vec2): Vec2 { Vec2(x - o.x, y - o.y) }
    function Plus(o: Vec2): Vec2 { Vec2(x + o.x, y + o.y) }
    function SqrMagnitude(): real { x * x + y * y }
  }

  const Zero2: Vec2 := Vec2(0.0, 0.0)

  /** Vector2 `==`: approximate equality. */
  predicate ApproxEq(a: Vec2, b: Vec2)
  {
    a.Minus(b).SqrMagnitude() < VectorEpsilon * VectorEpsilon
  }

  lemma ApproxEqReflexiveSymmetric(a: Vec2, b: Vec2)
    ensures ApproxEq(a, a)
    ensures ApproxEq(a, b) <==> ApproxEq(b, a)
  {
    assert b.Minus(a).SqrMagnitude() == a.Minus(b).SqrMagnitude();
  }

  /** Points that are not approximately equal differ in some coordinate. */
  lemma NotApproxEqDiffers(a: Vec2, b: Vec2)
    requires !ApproxEq(a, b)
    ensures a.x != b.x || a.y != b.y
  {
  }

  /** The raw 2-D cross product `x1 * y2 - x2 * y1`. */
  function RawCross(a: Vec2, b: Vec2): real
  {
    a.x * b.y - b.x * a.y
  }

  /** Cross_2d: the cross product, snapped to 0 inside the dead zone. */
  function Cross2d(a: Vec2, b: Vec2): (r: real)
    ensures r == 0.0 <==> -CrossEpsilon < RawCross(a, b) < CrossEpsilon
    ensures r != 0.0 ==> r == RawCross(a, b)
    ensures r > 0.0 ==> RawCross(a, b) >= CrossEpsilon
    ensures r < 0.0 ==> RawCross(a, b) <= -CrossEpsilon
  {
    var f := RawCross(a, b);
    if f < CrossEpsilon && f > -CrossEpsilon then 0.0 else f
  }

  /** Swapping the operands negates the cross product, dead zone included. */
  lemma Cross2dAntisymmetric(a: Vec2, b: Vec2)
    ensures Cross2d(a, b) == -Cross2d(b, a)
  {
    assert RawCross(a, b) == -RawCross(b, a);
  }

  /** The orientation of a triangle does not depend on which corner is the origin. */
  lemma OrientationRotates(a: Vec2, b: Vec2, c: Vec2)
    ensures Cross2d(b.Minus(a), c.Minus(a)) == Cross2d(c.Minus(b), a.Minus(b))
  {
    var twice := a.x * b.y - a.y * b.x + b.x * c.y - b.y * c.x + c.x * a.y - c.y * a.x;
    assert RawCross(b.Minus(a), c.Minus(a)) == (b.x - a.x) * (c.y - a.y) - (c.x - a.x) * (b.y - a.y) == twice;
    assert RawCross(c.Minus(b), a.Minus(b)) == (c.x - b.x) * (a.y - b.y) - (a.x - b.x) * (c.y - b.y) == twice;
  }

  // ---------------------------------------------------------------------------
  // Extended reals (float bounds may be infinite)
  // ---------------------------------------------------------------------------

  datatype ExtReal = NegInf | Fin(v: real) | PosInf

  predicate Le(a: ExtReal, b: ExtReal)
  {
    match a
    case NegInf => true
    case Fin(x) => b.PosInf? || (b.Fin? && x <= b.v)
    case PosInf => b.PosInf?
  }

  function Min(a: ExtReal, b: ExtReal): (r: ExtReal)
    ensures Le(r, a) && Le(r, b) && (r == a || r == b)
  {
    if Le(a, b) then a else b
  }

  function Max(a: ExtReal, b: ExtReal): (r: ExtReal)
    ensures Le(a, r) && Le(b, r) && (r == a || r == b)
  {
    if Le(a, b) then b else a
  }

  /** A pair of float bounds, as the Vector2 range arguments of the constructor. */
  datatype Range = Range(lo: ExtReal, hi: ExtReal)

  // ---------------------------------------------------------------------------
  // LineSegment_2D
  // ---------------------------------------------------------------------------

  /** The carrier line: x = const (vertical_X), y = const (vertical_Y) or y = kx + b. */
  datatype Form = Vertical(x: real) | Horizontal(y: real) | Sloped(k: real, b: real)

  datatype LineSegment2D = Segment(form: Form, minX: ExtReal, maxX: ExtReal, minY: ExtReal, maxY: ExtReal)

  /** Every segment the constructor builds has a non-zero slope when it is sloped. */
  predicate WellFormed(l: LineSegment2D)
  {
    l.form.Sloped? ==> l.form.k != 0.0
  }

  /** `p` lies exactly on the carrier line of form `f`. */
  predicate OnCarrier(f: Form, p: Vec2)
  {
    match f
    case Vertical(x) => p.x == x
    case Horizontal(y) => p.y == y
    case Sloped(k, b) => p.y == k * p.x + b
  }

  /** y = kx + b through p1 and p2 (different abscissae) gives back p2. */
  lemma SlopeThroughSecond(p1: Vec2, p2: Vec2)
    requires p1.x != p2.x
    ensures var k := (p1.y - p2.y) / (p1.x - p2.x);
      p2.y == k * p2.x + (p1.y - k * p1.x)
  {
    var k := (p1.y - p2.y) / (p1.x - p2.x);
    assert k * (p1.x - p2.x) == p1.y - p2.y;
  }

  /** The float value of `k * e + b` for a bound `e`; an infinite bound stays infinite, signed by `k`. */
  function Affine(k: real, b: real, e: ExtReal): ExtReal
  {
    match e
    case Fin(v) => Fin(k * v + b)
    case PosInf => if k > 0.0 then PosInf else NegInf
    case NegInf => if k > 0.0 then NegInf else PosInf
  }

  /** The minY of a sloped form, as the constructor derives it from the x-bounds. */
  function SlopedMinY(k: real, b: real, minX: ExtReal, maxX: ExtReal): ExtReal
  {
    if k > 0.0 then (if maxX == PosInf then NegInf else Affine(k, b, maxX))
    else (if minX == NegInf then NegInf else Affine(k, b, minX))
  }

  /** The maxY of a sloped form, as the constructor derives it from the x-bounds. */
  function SlopedMaxY(k: real, b: real, minX: ExtReal, maxX: ExtReal): ExtReal
  {
    if k > 0.0 then (if minX == NegInf then PosInf else Affine(k, b, minX))
    else (if maxX == PosInf then PosInf else Affine(k, b, maxX))
  }

  /**
   * The constructor LineSegment_2D(point1, point2, rayx, rayTest); None where
   * it throws (the two points are equal in the Vector2 sense).
   */
  function MakeSegment(p1: Vec2, p2: Vec2, rayx: Range, rayTest: Range): (r: Option<LineSegment2D>)
    ensures r.None? <==> ApproxEq(p1, p2)
    ensures r.Some? ==> WellFormed(r.value) && OnCarrier(r.value.form, p1) && OnCarrier(r.value.form, p2)
    ensures r.Some? ==> Le(r.value.minX, r.value.maxX)
    ensures r.Some? && !r.value.form.Vertical? ==>
      r.value.minX == Min(rayx.lo, rayx.hi) && r.value.maxX == Max(rayx.lo, rayx.hi)
  {
    if ApproxEq(p1, p2) then None
    else if p1.x == p2.x then
      Some(Segment(Vertical(p1.x), Fin(p1.x), Fin(p1.x), Min(rayTest.lo, rayTest.hi), Max(rayTest.lo, rayTest.hi)))
    else if p1.y == p2.y then
      Some(Segment(Horizontal(p1.y), Min(rayx.lo, rayx.hi), Max(rayx.lo, rayx.hi), Fin(p1.y), Fin(p1.y)))
    else
      var k := (p1.y - p2.y) / (p1.x - p2.x);
      var b := p1.y - k * p1.x;
      SlopeThroughSecond(p1, p2);
      assert k * (p1.x - p2.x) == p1.y - p2.y;
      var minX, maxX := Min(rayx.lo, rayx.hi), Max(rayx.lo, rayx.hi);
      Some(Segment(Sloped(k, b), minX, maxX, SlopedMinY(k, b, minX, maxX), SlopedMaxY(k, b, minX, maxX)))
  }

  /** A line of slope k moves y in the direction of k's sign. */
  lemma SlopeOrders(k: real, b: real, lo: real, hi: real)
    requires k != 0.0 && lo < hi
    ensures k > 0.0 ==> k * lo + b < k * hi + b
    ensures k < 0.0 ==> k * lo + b > k * hi + b
  {
    if k < 0.0 {
      assert (-k) * (hi - lo) > 0.0;
    }
  }

  /** For two distinct finite x-bounds the constructor's sloped y-bounds come out with minY above maxY. */
  lemma SlopedYBoundsReversed(k: real, b: real, lo: real, hi: real)
    requires k != 0.0 && lo < hi
    ensures !Le(SlopedMinY(k, b, Fin(lo), Fin(hi)), SlopedMaxY(k, b, Fin(lo), Fin(hi)))
  {
    SlopeOrders(k, b, lo, hi);
    var ylo, yhi := k * lo + b, k * hi + b;
    if k > 0.0 {
      assert SlopedMinY(k, b, Fin(lo), Fin(hi)) == Fin(yhi);
      assert SlopedMaxY(k, b, Fin(lo), Fin(hi)) == Fin(ylo);
      assert !Le(Fin(yhi), Fin(ylo));
    } else {
      assert SlopedMinY(k, b, Fin(lo), Fin(hi)) == Fin(ylo);
      assert SlopedMaxY(k, b, Fin(lo), Fin(hi)) == Fin(yhi);
      assert !Le(Fin(ylo), Fin(yhi));
    }
  }

  /** Result of ByXGetY: whether X is inside the x-range, and the y found there. */
  datatype YAt = YAt(ok: bool, y: real)

  predicate InXRange(l: LineSegment2D, x: real)
  {
    Le(l.minX, Fin(x)) && Le(Fin(x), l.maxX)
  }

  predicate InYRange(l: LineSegment2D, y: real)
  {
    Le(l.minY, Fin(y)) && Le(Fin(y), l.maxY)
  }

  /** ByXGetY: the y of the carrier at X over the x-range; 0 for a vertical form and outside the range. */
  function ByXGetY(l: LineSegment2D, x: real): (r: YAt)
    ensures r.ok <==> InXRange(l, x)
    ensures !r.ok || l.form.Vertical? ==> r.y == 0.0
    ensures r.ok && !l.form.Vertical? ==> OnCarrier(l.form, Vec2(x, r.y))
  {
    if InXRange(l, x) then
      match l.form
      case Horizontal(y) => YAt(true, y)
      case Vertical(_) => YAt(true, 0.0)
      case Sloped(k, b) => YAt(true, k * x + b)
    else YAt(false, 0.0)
  }

  function Abs(a: real): real
  {
    if a < 0.0 then -a else a
  }

  /**
   * PointInLine: the point's x is in range and its y is within LineEpsilon of
   * the carrier there; a carrier value of exactly 0 (which is also what a
   * vertical form reports) instead asks for the point's y to be in the y-range.
   */
  predicate PointInLine(l: LineSegment2D, p: Vec2)
  {
    var t := ByXGetY(l, p.x);
    t.ok && (Abs(t.y - p.y) < LineEpsilon || t.y == 0.0) && (t.y == 0.0 ==> InYRange(l, p.y))
  }

  /** On a vertical segment from the constructor, PointInLine is exactly: same x, y within rayTest. */
  lemma VerticalPointInLine(p1: Vec2, p2: Vec2, rayx: Range, rayTest: Range, p: Vec2)
    requires MakeSegment(p1, p2, rayx, rayTest).Some? && p1.x == p2.x
    ensures var l := MakeSegment(p1, p2, rayx, rayTest).value;
      PointInLine(l, p) <==>
        p.x == p1.x && Le(Min(rayTest.lo, rayTest.hi), Fin(p.y)) && Le(Fin(p.y), Max(rayTest.lo, rayTest.hi))
  {
  }

  /** Where the carrier of a non-vertical form is not 0, PointInLine is exactly: x in range, y within LineEpsilon. */
  lemma SlopedPointInLine(l: LineSegment2D, p: Vec2, t: real)
    requires !l.form.Vertical? && OnCarrier(l.form, Vec2(p.x, t)) && t != 0.0
    ensures PointInLine(l, p) <==> InXRange(l, p.x) && Abs(t - p.y) < LineEpsilon
  {
    if InXRange(l, p.x) {
      assert ByXGetY(l, p.x).y == t;
    }
  }

  /** Both defining points lie on a segment from the constructor when their x is inside rayx and y is not 0. */
  lemma EndpointsInLine(p1: Vec2, p2: Vec2, rayx: Range, rayTest: Range)
    requires MakeSegment(p1, p2, rayx, rayTest).Some? && p1.x != p2.x
    requires InXRange(MakeSegment(p1, p2, rayx, rayTest).value, p1.x) && p1.y != 0.0
    ensures PointInLine(MakeSegment(p1, p2, rayx, rayTest).value, p1)
  {
    var l := MakeSegment(p1, p2, rayx, rayTest).value;
    SlopedPointInLine(l, p1, p1.y);
  }

  /** The y = 0 sentinel: the midpoint of the diagonal from (-1, -1) to (1, 1) is rejected. */
  lemma DiagonalMidpointRejected()
    ensures var l := MakeSegment(Vec2(-1.0, -1.0), Vec2(1.0, 1.0), Range(Fin(-1.0), Fin(1.0)), Range(Fin(-1.0), Fin(1.0)));
      l.Some? && OnCarrier(l.value.form, Zero2) && InXRange(l.value, 0.0) && !PointInLine(l.value, Zero2)
  {
    var l := MakeSegment(Vec2(-1.0, -1.0), Vec2(1.0, 1.0), Range(Fin(-1.0), Fin(1.0)), Range(Fin(-1.0), Fin(1.0)));
    assert l.value.form == Sloped(1.0, 0.0);
  }

  /** The y = 0 sentinel: a leftward ray from (1, 1) along y = x accepts (0, 5), five units off its line. */
  lemma RayAcceptsOffLinePoint()
    ensures var l := MakeSegment(Vec2(1.0, 1.0), Vec2(2.0, 2.0), Range(NegInf, Fin(1.0)), Range(Fin(1.0), PosInf));
      l.Some? && !OnCarrier(l.value.form, Vec2(0.0, 5.0)) && PointInLine(l.value, Vec2(0.0, 5.0))
  {
    var l := MakeSegment(Vec2(1.0, 1.0), Vec2(2.0, 2.0), Range(NegInf, Fin(1.0)), Range(Fin(1.0), PosInf));
    assert l.value.form == Sloped(1.0, 0.0);
    assert l.value.minX == NegInf && l.value.maxX == Fin(1.0);
    assert ByXGetY(l.value, 0.0) == YAt(true, 0.0);
    assert l.value.minY == Fin(1.0) && l.value.maxY == PosInf;
  }

  // ---------------------------------------------------------------------------
  // GetLineIntersect
  // ---------------------------------------------------------------------------

  /** Forms GetLineIntersect gives up on: both vertical, both horizontal, or equal slopes. */
  predicate Parallel(f1: Form, f2: Form)
  {
    (f1.Vertical? && f2.Vertical?) || (f1.Horizontal? && f2.Horizontal?)
    || (f1.Sloped? && f2.Sloped? && f1.k == f2.k)
  }

  predicate NonZeroSlope(f: Form)
  {
    f.Sloped? ==> f.k != 0.0
  }

  /** The point GetLineIntersect tests for two non-parallel forms. */
  function Candidate(f1: Form, f2: Form): Vec2
    requires !Parallel(f1, f2) && NonZeroSlope(f1) && NonZeroSlope(f2)
  {
    match f1
    case Vertical(x1) =>
      if f2.Horizontal? then Vec2(x1, f2.y) else Vec2(x1, f2.k * x1 + f2.b)
    case Horizontal(y1) =>
      if f2.Vertical? then Vec2(f2.x, y1) else Vec2((y1 - f2.b) / f2.k, y1)
    case Sloped(k1, b1) =>
      match f2
      case Vertical(x2) => Vec2(x2, k1 * x2 + b1)
      case Horizontal(y2) => Vec2((y2 - b1) / k1, y2)
      case Sloped(k2, b2) =>
        var x := (b2 - b1) / (k1 - k2);
        Vec2(x, k1 * x + b1)
  }

  /** `a * d == c` with `d` non-zero determines `a`. */
  lemma DivideOut(a: real, c: real, d: real)
    requires d != 0.0 && a * d == c
    ensures a == c / d
  {
  }

  /** x = x1 meets y = k2 x + b2 exactly at y = k2 x1 + b2. */
  lemma VerticalMeetsSlope(x1: real, k2: real, b2: real, p: Vec2)
    ensures p.x == x1 && p.y == k2 * p.x + b2 <==> p == Vec2(x1, k2 * x1 + b2)
  {
    if p.x == x1 {
      assert k2 * p.x == k2 * x1;
    }
  }

  /** y = y1 meets y = k2 x + b2 exactly at x = (y1 - b2) / k2. */
  lemma LevelMeetsSlope(y1: real, k2: real, b2: real, p: Vec2)
    requires k2 != 0.0
    ensures var x := (y1 - b2) / k2; y1 == k2 * x + b2
    ensures p.y == y1 && p.y == k2 * p.x + b2 <==> p == Vec2((y1 - b2) / k2, y1)
  {
    var x := (y1 - b2) / k2;
    assert x * k2 == y1 - b2;
    if p.y == y1 && p.y == k2 * p.x + b2 {
      DivideOut(p.x, y1 - b2, k2);
    }
  }

  /** Two lines of different slopes meet exactly at x = (b2 - b1) / (k1 - k2). */
  lemma SlopesMeet(k1: real, b1: real, k2: real, b2: real, p: Vec2)
    requires k1 != k2
    ensures var x := (b2 - b1) / (k1 - k2); k1 * x + b1 == k2 * x + b2
    ensures p.y == k1 * p.x + b1 && p.y == k2 * p.x + b2 <==>
      var x := (b2 - b1) / (k1 - k2); p == Vec2(x, k1 * x + b1)
  {
    var x := (b2 - b1) / (k1 - k2);
    assert x * (k1 - k2) == b2 - b1;
    if p.y == k1 * p.x + b1 && p.y == k2 * p.x + b2 {
      assert p.x * (k1 - k2) == b2 - b1;
      DivideOut(p.x, b2 - b1, k1 - k2);
    }
  }

  /** The candidate is on both carriers, and it is the only such point. */
  predicate IsCrossing(f1: Form, f2: Form, p: Vec2)
    requires !Parallel(f1, f2) && NonZeroSlope(f1) && NonZeroSlope(f2)
  {
    && OnCarrier(f1, Candidate(f1, f2)) && OnCarrier(f2, Candidate(f1, f2))
    && (OnCarrier(f1, p) && OnCarrier(f2, p) <==> p == Candidate(f1, f2))
  }

  lemma CrossingAxes(f1: Form, f2: Form, p: Vec2)
    requires (f1.Vertical? && f2.Horizontal?) || (f1.Horizontal? && f2.Vertical?)
    ensures IsCrossing(f1, f2, p)
  {
  }

  lemma CrossingVerticalSloped(f1: Form, f2: Form, p: Vec2)
    requires f1.Vertical? && f2.Sloped? && f2.k != 0.0
    ensures IsCrossing(f1, f2, p)
  {
    VerticalMeetsSlope(f1.x, f2.k, f2.b, p);
  }

  lemma CrossingSlopedVertical(f1: Form, f2: Form, p: Vec2)
    requires f1.Sloped? && f1.k != 0.0 && f2.Vertical?
    ensures IsCrossing(f1, f2, p)
  {
    VerticalMeetsSlope(f2.x, f1.k, f1.b, p);
  }

  lemma CrossingHorizontalSloped(f1: Form, f2: Form, p: Vec2)
    requires f1.Horizontal? && f2.Sloped? && f2.k != 0.0
    ensures IsCrossing(f1, f2, p)
  {
    LevelMeetsSlope(f1.y, f2.k, f2.b, p);
  }

  lemma CrossingSlopedHorizontal(f1: Form, f2: Form, p: Vec2)
    requires f1.Sloped? && f1.k != 0.0 && f2.Horizontal?
    ensures IsCrossing(f1, f2, p)
  {
    LevelMeetsSlope(f2.y, f1.k, f1.b, p);
  }

  lemma CrossingSlopes(f1: Form, f2: Form, p: Vec2)
    requires f1.Sloped? && f2.Sloped? && f1.k != 0.0 && f2.k != 0.0 && f1.k != f2.k
    ensures IsCrossing(f1, f2, p)
  {
    SlopesMeet(f1.k, f1.b, f2.k, f2.b, p);
  }

  /** The candidate is the one point where two non-parallel carriers cross. */
  lemma CandidateIsCrossing(f1: Form, f2: Form, p: Vec2)
    requires !Parallel(f1, f2) && NonZeroSlope(f1) && NonZeroSlope(f2)
    ensures OnCarrier(f1, Candidate(f1, f2)) && OnCarrier(f2, Candidate(f1, f2))
    ensures OnCarrier(f1, p) && OnCarrier(f2, p) <==> p == Candidate(f1, f2)
  {
    if f1.Sloped? && f2.Sloped? {
      CrossingSlopes(f1, f2, p);
    } else if f1.Sloped? && f2.Vertical? {
      CrossingSlopedVertical(f1, f2, p);
    } else if f1.Sloped? {
      CrossingSlopedHorizontal(f1, f2, p);
    } else if f2.Sloped? && f1.Vertical? {
      CrossingVerticalSloped(f1, f2, p);
    } else if f2.Sloped? {
      CrossingHorizontalSloped(f1, f2, p);
    } else {
      CrossingAxes(f1, f2, p);
    }
  }

  /** Result of GetLineIntersect: whether the lines meet, and where (the zero vector when not). */
  datatype Hit = Hit(ok: bool, point: Vec2)

  /**
   * GetLineIntersect: parallel forms never meet; otherwise the crossing of
   * the two carriers is reported when PointInLine accepts it on both.
   */
  function GetLineIntersect(l1: LineSegment2D, l2: LineSegment2D): (r: Hit)
    requires WellFormed(l1) && WellFormed(l2)
    ensures Parallel(l1.form, l2.form) ==> r == Hit(false, Zero2)
    ensures r.ok ==> PointInLine(l1, r.point) && PointInLine(l2, r.point)
    ensures r.ok ==> OnCarrier(l1.form, r.point) && OnCarrier(l2.form, r.point)
    ensures !r.ok ==> r.point == Zero2
    ensures !Parallel(l1.form, l2.form) ==>
      (r.ok <==> PointInLine(l1, Candidate(l1.form, l2.form)) && PointInLine(l2, Candidate(l1.form, l2.form)))
  {
    if Parallel(l1.form, l2.form) then Hit(false, Zero2)
    else
      var c := Candidate(l1.form, l2.form);
      CandidateIsCrossing(l1.form, l2.form, c);
      if PointInLine(l1, c) && PointInLine(l2, c) then Hit(true, c) else Hit(false, Zero2)
  }

  /** The order of the two lines does not matter. */
  lemma GetLineIntersectSymmetric(l1: LineSegment2D, l2: LineSegment2D)
    requires WellFormed(l1) && WellFormed(l2)
    ensures GetLineIntersect(l1, l2) == GetLineIntersect(l2, l1)
  {
    if !Parallel(l1.form, l2.form) {
      var c := Candidate(l2.form, l1.form);
      CandidateIsCrossing(l2.form, l1.form, c);
      CandidateIsCrossing(l1.form, l2.form, c);
    }
  }

  // ---------------------------------------------------------------------------
  // LineIntersect (3-D segments)
  // ---------------------------------------------------------------------------

  datatype Vec3 = Vec3(x: real, y: real, z: real)
  {
    function Minus(o: Vec3): Vec3 { Vec3(x - o.x, y - o.y, z - o.z) }
    function Cross(o: Vec3): Vec3 { Vec3(y * o.z - z * o.y, z * o.x - x * o.z, x * o.y - y * o.x) }
    function Dot(o: Vec3): real { x * o.x + y * o.y + z * o.z }
  }

  function Min2(a: real, b: real): real { if a <= b then a else b }
  function Max2(a: real, b: real): real { if a >= b then a else b }

  /** The bounding boxes of the segments (p1, p2) and (p3, p4) overlap. */
  predicate BoxesOverlap(p1: Vec3, p2: Vec3, p3: Vec3, p4: Vec3)
  {
    && Min2(p1.x, p2.x) <= Max2(p3.x, p4.x) && Min2(p3.x, p4.x) <= Max2(p1.x, p2.x)
    && Min2(p1.y, p2.y) <= Max2(p3.y, p4.y) && Min2(p3.y, p4.y) <= Max2(p1.y, p2.y)
    && Min2(p1.z, p2.z) <= Max2(p3.z, p4.z) && Min2(p3.z, p4.z) <= Max2(p1.z, p2.z)
  }

  /** `a` and `b` lie on the same side of the line through `o` in direction `d`, or on it. */
  predicate Straddles(a: Vec3, b: Vec3, o: Vec3, d: Vec3)
  {
    a.Minus(o).Cross(d).Dot(d.Cross(b.Minus(o))) >= 0.0
  }

  /** LineIntersect: the box test, then each segment straddles the other's line. */
  predicate LineIntersect(p1: Vec3, p2: Vec3, p3: Vec3, p4: Vec3)
  {
    && BoxesOverlap(p1, p2, p3, p4)
    && Straddles(p1, p2, p3, p4.Minus(p3))
    && Straddles(p3, p4, p1, p2.Minus(p1))
  }

  /** Swapping the two segments gives the same answer. */
  lemma LineIntersectSymmetric(p1: Vec3, p2: Vec3, p3: Vec3, p4: Vec3)
    ensures LineIntersect(p1, p2, p3, p4) <==> LineIntersect(p3, p4, p1, p2)
  {
  }

  /** Segments that share their first point intersect. */
  lemma SharedStartIntersects(p: Vec3, q: Vec3, r: Vec3)
    ensures LineIntersect(p, q, p, r)
  {
    var zero := Vec3(0.0, 0.0, 0.0);
    assert p.Minus(p) == zero;
    assert zero.Cross(r.Minus(p)) == zero;
    assert zero.Cross(q.Minus(p)) == zero;
  }

  /** Segments whose boxes are apart in x do not intersect. */
  lemma SeparatedInXDisjoint(p1: Vec3, p2: Vec3, p3: Vec3, p4: Vec3)
    requires Max2(p1.x, p2.x) < Min2(p3.x, p4.x)
    ensures !LineIntersect(p1, p2, p3, p4)
  {
  }
}
