/*
 * A vertex of a polygon (ModelCreator/PolygonPoint2D.cs): a position, its
 * index in the polygon's vertex list, and the cached turn direction of the
 * triangle it forms with its two neighbours. The enums PolygonSymbol and
 * PolygonType of ModelCreator/BaseMeshCreator.cs live here too.
 */
module PolygonPoint {
  import opened Geometry

  /** Turn direction: Positive is clockwise, Negative counter-clockwise, Line collinear, Unset (the enum's None) not computed. */
  datatype PolygonSymbol = Positive | Negative | Line | Unset

  /** Convexity of a polygon; Unknown is the enum's None, the value before it is computed. */
  datatype PolygonType = Convex | Concave | Unknown

  /** The opposite turn; Line and Unset are their own opposites. */
  function Flip(s: PolygonSymbol): PolygonSymbol
  {
    match s
    case Positive => Negative
    case Negative => Positive
    case Line => Line
    case Unset => Unset
  }

  /** The classification SetSymbol stores: the sign of Cross_2d(self - last, next - last). */
  function SymbolOf(self: Vec2, last: Vec2, next: Vec2): (s: PolygonSymbol)
    ensures s != Unset
  {
    var v := Cross2d(self.Minus(last), next.Minus(last));
    if v > 0.0 then Negative
    else if v == 0.0 then Line
    else Positive
  }

  /** The turn is Negative above the cross-product dead zone, Positive below it, Line inside it. */
  lemma SymbolOfSign(self: Vec2, last: Vec2, next: Vec2)
    ensures var raw := RawCross(self.Minus(last), next.Minus(last));
      && (SymbolOf(self, last, next) == Negative <==> raw >= CrossEpsilon)
      && (SymbolOf(self, last, next) == Positive <==> raw <= -CrossEpsilon)
      && (SymbolOf(self, last, next) == Line <==> -CrossEpsilon < raw < CrossEpsilon)
  {
  }

  /** Swapping the two neighbours reverses the turn and keeps a collinear triple collinear. */
  lemma SymbolOfSwapped(self: Vec2, last: Vec2, next: Vec2)
    ensures SymbolOf(self, next, last) == Flip(SymbolOf(self, last, next))
  {
    var u := RawCross(self.Minus(last), next.Minus(last));
    var w := RawCross(self.Minus(next), last.Minus(next));
    assert w == -u;
  }

  /** The classification is the orientation of the triangle (last, self, next): it survives rotating the triple. */
  lemma SymbolOfRotated(self: Vec2, last: Vec2, next: Vec2)
    ensures SymbolOf(next, self, last) == SymbolOf(self, last, next)
  {
    assert RawCross(next.Minus(self), last.Minus(self)) == RawCross(self.Minus(last), next.Minus(last));
  }

  /** The value held by a PolygonPoint2D. */
  datatype PointValue = PointValue(point: Vec2, index: int, symbol: PolygonSymbol)

  /** The copy constructor: point and index, but not the symbol. */
  function Copy(p: PointValue): (r: PointValue)
    ensures r.point == p.point && r.index == p.index && r.symbol == Unset
  {
    PointValue(p.point, p.index, Unset)
  }

  /** `p` after SetSymbol(last, next). */
  function Classified(p: PointValue, last: PointValue, next: PointValue): (r: PointValue)
    ensures r.point == p.point && r.index == p.index
    ensures r.symbol == SymbolOf(p.point, last.point, next.point)
  {
    p.(symbol := SymbolOf(p.point, last.point, next.point))
  }

  class PolygonPoint2D {
    var point: Vec2
    var index: int
    var symbol: PolygonSymbol

    /** PolygonPoint2D(x, y, index), the index 0 when left out. */
    constructor FromCoordinates(x: real, y: real, index: int := 0)
      ensures Value() == PointValue(Vec2(x, y), index, Unset)
    {
      point := Vec2(x, y);
      this.index := index;
      symbol := Unset;
    }

    /** PolygonPoint2D(p, index), the index 0 when left out. */
    constructor (p: Vec2, index: int := 0)
      ensures Value() == PointValue(p, index, Unset)
    {
      point := p;
      this.index := index;
      symbol := Unset;
    }

    /** The copy constructor: the copy starts with symbol Unset. */
    constructor Copying(other: PolygonPoint2D)
      ensures Value() == Copy(other.Value())
    {
      point := other.point;
      index := other.index;
      symbol := Unset;
    }

    function Value(): PointValue
      reads this
    {
      PointValue(point, index, symbol)
    }

    /** Classifies the turn (last, this, next), stores it and returns it; nothing else changes. */
    method SetSymbol(last: PolygonPoint2D, next: PolygonPoint2D) returns (s: PolygonSymbol)
      modifies this`symbol
      ensures s == symbol == SymbolOf(point, last.point, next.point)
      ensures Value() == Classified(old(Value()), old(last.Value()), old(next.Value()))
    {
      var ab := point.Minus(last.point);
      var ac := next.point.Minus(last.point);
      var v := Cross2d(ab, ac);
      if v > 0.0 {
        symbol := Negative;
      } else if v == 0.0 {
        symbol := Line;
      } else {
        symbol := Positive;
      }
      s := symbol;
    }

    method GetSymbol() returns (s: PolygonSymbol)
      ensures s == symbol
    {
      s := symbol;
    }
  }
}
