# Simple-Geometric-Modeling: the polygon engine, in Dafny

This project models the computational core of a Unity library for building
meshes from 2-D outlines, and proves properties of that model. The core has
four parts.

- **`DoubleLink<T>`** (`Utils/Structure.cs`): a circular doubly-linked list
  with a sentinel head node and a size counter. The model is a Dafny class
  with real `LinkNode` objects whose `next`/`last` pointers are rewired in
  place. Ghost sequences `Nodes` and `Contents` track the ring, and every
  mutating method is specified by its effect on `Contents`.
- **`PolygonPoint2D`** (`ModelCreator/PolygonPoint2D.cs`): a vertex with its
  index and its cached turn symbol. `SetSymbol(last, next)` classifies the
  turn as Positive, Negative or Line from `Cross_2d`, which treats products
  inside (-1e-5, 1e-5) as zero.
- **`LineSegment_2D` and `MathUtils`** (`Utils/CoreUtils.cs`):
  - `LineSegment_2D` is a line, ray or segment in vertical, horizontal or
    sloped form, with bounds that may be infinite. It provides `ByXGetY`,
    `PointInLine` (with a 1e-4 tolerance) and `GetLineIntersect`.
  - `MathUtils` supplies `Cross_2d` and the 3-D test `LineIntersect`.
- **`SimplePolygon` and `MeshData.Combine`** (`ModelCreator/BaseMeshCreator.cs`):
  - The polygon engine builds the vertex ring and picks the winding from the
    y-sorted vertices.
  - It classifies every corner (`ComputeProperty`) and splits concave corners
    by casting a ray through them (`ConcaveSplit`, `GetIntersect`).
  - It fan-triangulates the convex pieces while accumulating area
    (`ComputeTriangle`), then emits the triangle index array (`GetTriangles`).
  - It answers queries for uvs, centres, bounding rectangles, the
    maximum-area pieces and rectangles, and point lists.
  - `MeshData.Combine` merges meshes, offsetting each mesh's triangle indices.

Modules, one per file:

| file | module | models |
|---|---|---|
| `structure.dfy` | `Structure` | The linked list, plus the sequence effect of Append/Insert/Delete as functions. |
| `geometry.dfy` | `Geometry` | Vectors, `Cross_2d`, `LineSegment_2D`, `GetLineIntersect` and `LineIntersect`. |
| `polygon_point.dfy` | `PolygonPoint` | Turn symbols and the `PolygonPoint2D` class. |
| `orientation.dfy` | `Orientation` | `ComputeProperty`'s classification, the winding choice and the y-descending exchange sort. |
| `split.dfy` | `Split` | One round of `ConcaveSplit`: `GetIntersect`, ray hits, the nearest hit, and the two pieces. |
| `fan.dfy` | `Fan` | Fan triangles, fan areas and the `GetTriangles` index array. |
| `queries.dfy` | `Queries` | `DelLinePoint`, `IsRect`, point lists, `GetUV`, `GetCenter` and `GetBoundRects`. |
| `registry.dfy` | `Registry` | The registry (`polygonsList`) as polygon values, the largest-area choice and the rectangle collection. |
| `simple_polygon.dfy` | `Engine` | The `SimplePolygon` class: constructor, `Execute`, the queries and the maximum-area overloads. |
| `mesh.dfy` | `Mesh` | `MeshData.Combine`. |

Coordinates are mathematical reals, so float rounding is not modelled. The
epsilons are named constants:

- `CrossEpsilon` = 1e-5;
- `LineEpsilon` = 1e-4;
- `VectorEpsilon` = 1e-5, below which Unity's `Vector2 ==` calls two points
  equal.

An operation that throws in the source returns an error value in the model:
`Outcome`/`Status` in the list, `Option`, or `Run` (`Returned`, `Threw`,
`Exhausted`) in the engine.

Places where the code behaves differently from what its documentation or
naming suggests. The model follows the code in each case.

- **`Next(i)` / `Last(i)`:** both return element `i` itself. Only at the
  boundary do they wrap to the first or the last element (see Findings).
- **`Insert(0, t)`:** always fails. It delegates to `Append(size, t)`, which is
  out of range.
- **`PointInLine`:** uses a computed y of 0 as the sentinel for "vertical
  form", so a sloped line passing through y = 0 accepts any point whose y
  lies within its y-bounds, at that x.
- **Sloped y-bounds:** the y-bounds of a sloped segment built from finite
  x-bounds come out reversed (min above max).
- **Winding:** the winding is the classification of the *last* non-Line
  corner in y-descending order of the vertices, or Positive when every corner
  is Line. The order is the one the exchange sort produces
  (`Orientation.ExchangeSorted`), so vertices of equal y come in the order
  its swaps leave them.
- **Nearest ray hit:** uses `<=`, so among equally near hits the last one
  wins.
- **No-hit concave corner:** when a concave corner's ray hits no edge,
  `ConcaveSplit` returns from the whole split, not only from that piece.
- **Largest-area selection:** the private `MaxAreaPolygon` keeps the last
  entry of greatest area. The public overloads prefer the reversed run's
  winner on a tie.

## Model

| member | source | states |
|---|---|---|
| Structure.NormalIndex | Assets/GeometricModeling/CoreScript/Utils/Structure.cs:96-109 | The wrapped index lies in [0, size) and equals the index itself when that is already in range. |
| Structure.NormalIndexIsMod | Assets/GeometricModeling/CoreScript/Utils/Structure.cs:96-109 | Stepping by size until in range yields the Euclidean remainder, so the result is congruent to the index mod size. |
| Structure.SplicedAt | Assets/GeometricModeling/CoreScript/Utils/Structure.cs:201-218 | Append grows the list by one and places t right after position index (at 0 on an empty list). Earlier elements keep their place and later ones shift right by one. |
| Structure.SplicedThenRemoved | Assets/GeometricModeling/CoreScript/Utils/Structure.cs:201-234 | Deleting the element Append just placed restores the original list. |
| Structure.InsertIsAppendBefore | Assets/GeometricModeling/CoreScript/Utils/Structure.cs:182-196 | For 0 < index < size, Insert before index is Append after index - 1. |
| Structure.AppendLastAtEnd | Assets/GeometricModeling/CoreScript/Utils/Structure.cs:220-223 | The index Max(size - 1, 0) is always accepted by Append and puts t last, including on an empty list. |
| Structure.LinkNode.constructor | Assets/GeometricModeling/CoreScript/Utils/Structure.cs:17-22 | A node holds the given data, last and next. |
| Structure.DoubleLink.constructor | Assets/GeometricModeling/CoreScript/Utils/Structure.cs:67-73 | A new list is the head linked to itself: a valid ring with no elements. |
| Structure.DoubleLink.SplicedRing | Assets/GeometricModeling/CoreScript/Utils/Structure.cs:201-218 | Linking a fresh node between two ring neighbours and recording it at that position keeps the ring invariant: distinct nodes, each one's next and last being its index neighbours, the head closing the ring. |
| Structure.DoubleLink.SplicedMembers | Assets/GeometricModeling/CoreScript/Utils/Structure.cs:201-218 | After the splice every node is in the footprint, is not the head, carries its element, and no node appears twice. |
| Structure.DoubleLink.SplicedEnds | Assets/GeometricModeling/CoreScript/Utils/Structure.cs:201-218 | After the splice the head's next is the first node and its last is the last node, and the end nodes point back to the head. |
| Structure.DoubleLink.SplicedLinks | Assets/GeometricModeling/CoreScript/Utils/Structure.cs:201-218 | After the splice adjacent nodes point at each other both ways. |
| Structure.DoubleLink.RemovedRing | Assets/GeometricModeling/CoreScript/Utils/Structure.cs:228-234 | Unlinking one node by joining its two neighbours keeps the ring invariant. |
| Structure.DoubleLink.GetNode | Assets/GeometricModeling/CoreScript/Utils/Structure.cs:45-62 | Inside [0, size) the forward walk (first half) and the backward walk (second half) both reach the node at that position. Outside that range it throws IndexOutOfRange. |
| Structure.DoubleLink.GetSize | Assets/GeometricModeling/CoreScript/Utils/Structure.cs:78-81 | The counter equals the number of elements. |
| Structure.DoubleLink.IsEmpty | Assets/GeometricModeling/CoreScript/Utils/Structure.cs:86-89 | True exactly when the list has no element. |
| Structure.DoubleLink.NormalIndexOf | Assets/GeometricModeling/CoreScript/Utils/Structure.cs:96-109 | The list's wrapped index is an existing position. |
| Structure.DoubleLink.Get | Assets/GeometricModeling/CoreScript/Utils/Structure.cs:114-117 | Element i for i in [0, size). Otherwise it throws IndexOutOfRange. |
| Structure.DoubleLink.GetSafe | Assets/GeometricModeling/CoreScript/Utils/Structure.cs:121-135 | On a non-empty list this is Get(NormalIndex(i)), so it never throws. |
| Structure.DoubleLink.Next | Assets/GeometricModeling/CoreScript/Utils/Structure.cs:141-148 | Element i itself (as written), except that the last index gives the first element. Out of range it throws. |
| Structure.DoubleLink.Following | Assets/GeometricModeling/CoreScript/Utils/Structure.cs:136-148 | Next as its documentation describes it: the element after i, cyclically. Out of range it throws. |
| Structure.NextLastStayPut | Assets/GeometricModeling/CoreScript/Utils/Structure.cs:136-162 | On a list of three elements, Next(1) and Last(1) as written read element 1, while the documented successor and predecessor are 2 and 0. |
| Structure.FollowingPrecedingInverse | Assets/GeometricModeling/CoreScript/Utils/Structure.cs:136-162 | The documented successor and predecessor positions stay in range, equal (i + 1) mod n and (i - 1) mod n, and undo one another. |
| Structure.DoubleLink.Last | Assets/GeometricModeling/CoreScript/Utils/Structure.cs:155-162 | Element i itself (as written), except that index 0 gives the last element. Out of range it throws. |
| Structure.DoubleLink.Preceding | Assets/GeometricModeling/CoreScript/Utils/Structure.cs:150-162 | Last as its documentation describes it: the element before i, cyclically. Out of range it throws. |
| Structure.DoubleLink.GetFirst | Assets/GeometricModeling/CoreScript/Utils/Structure.cs:166-169 | The first element, or IndexOutOfRange on an empty list. |
| Structure.DoubleLink.GetLast | Assets/GeometricModeling/CoreScript/Utils/Structure.cs:174-177 | The last element, or IndexOutOfRange on an empty list. |
| Structure.DoubleLink.Append | Assets/GeometricModeling/CoreScript/Utils/Structure.cs:201-218 | Succeeds exactly for index 0 on an empty list or 0 <= index < size, and the elements become the splice of t after index. Any other index throws and leaves the list unchanged. The ring invariant holds after every call. |
| Structure.DoubleLink.SpliceAfter | Assets/GeometricModeling/CoreScript/Utils/Structure.cs:214-217 | A new node for t linked after the node at position q - 1 lands at position q, and the invariant holds. |
| Structure.DoubleLink.AppendLast | Assets/GeometricModeling/CoreScript/Utils/Structure.cs:220-223 | t becomes the last element, including on an empty list. |
| Structure.DoubleLink.Insert | Assets/GeometricModeling/CoreScript/Utils/Structure.cs:182-196 | Fails with the plain exception when size < 1 or index >= size. Index 0 or below fails with IndexOutOfRange, from Append(size, t). Otherwise t lands at position index and later elements shift right. |
| Structure.DoubleLink.SpliceBefore | Assets/GeometricModeling/CoreScript/Utils/Structure.cs:190-194 | A new node for t linked before the node at position q lands at position q, and the invariant holds. |
| Structure.DoubleLink.Delete | Assets/GeometricModeling/CoreScript/Utils/Structure.cs:228-234 | Removes exactly the element at index and keeps the others in order. Outside [0, size) it throws and changes nothing. The ring invariant (and with it size) stays in step. |
| Structure.DoubleLink.DeleteFirst | Assets/GeometricModeling/CoreScript/Utils/Structure.cs:239-242 | Drops the first element, or throws on an empty list. |
| Structure.DoubleLink.DeleteLast | Assets/GeometricModeling/CoreScript/Utils/Structure.cs:247-250 | Drops the last element, or throws on an empty list. |
| Structure.DoubleLink.Convert2List | Assets/GeometricModeling/CoreScript/Utils/Structure.cs:255-261 | The elements in index order. |
| Geometry.Cross2d | Assets/GeometricModeling/CoreScript/Utils/CoreUtils.cs:178-185 | Zero exactly when a.x*b.y - b.x*a.y lies strictly inside (-1e-5, 1e-5), and that raw product otherwise. A positive result is at least 1e-5 and a negative one at most -1e-5. |
| Geometry.Cross2dAntisymmetric | Assets/GeometricModeling/CoreScript/Utils/CoreUtils.cs:178-185 | Cross_2d(a, b) == -Cross_2d(b, a), dead zone included. |
| Geometry.OrientationRotates | Assets/GeometricModeling/CoreScript/Utils/CoreUtils.cs:178-185 | The turn of a, b, c measured from a equals the turn measured from b. |
| Geometry.ApproxEqReflexiveSymmetric | Assets/GeometricModeling/CoreScript/Utils/CoreUtils.cs:460-463 | The Vector2 equality that makes the constructor throw is reflexive and symmetric. |
| Geometry.NotApproxEqDiffers | Assets/GeometricModeling/CoreScript/Utils/CoreUtils.cs:460-463 | Points the constructor accepts differ in x or in y. |
| Geometry.Min | Assets/GeometricModeling/CoreScript/Utils/CoreUtils.cs:465-527 | Mathf.Min over extended reals: one of the arguments, and below both. |
| Geometry.Max | Assets/GeometricModeling/CoreScript/Utils/CoreUtils.cs:465-527 | Mathf.Max over extended reals: one of the arguments, and above both. |
| Geometry.SlopeThroughSecond | Assets/GeometricModeling/CoreScript/Utils/CoreUtils.cs:493-494 | The slope k and intercept b computed from point1 put point2 on y = kx + b as well. |
| Geometry.MakeSegment | Assets/GeometricModeling/CoreScript/Utils/CoreUtils.cs:457-527 | Throws (None) exactly when the two points are equal as Vector2. Otherwise both points lie on the carrier of the chosen form. Equal x gives the vertical form, else equal y the horizontal form, else the sloped one. The x-bounds are min and max of rayx for the non-vertical forms and are ordered for all forms. |
| Geometry.SlopeOrders | Assets/GeometricModeling/CoreScript/Utils/CoreUtils.cs:498-527 | y = kx + b increases with x for k > 0 and decreases for k < 0. |
| Geometry.SlopedYBoundsReversed | Assets/GeometricModeling/CoreScript/Utils/CoreUtils.cs:498-527 | With finite x-bounds the sloped form's min_Y lies above its max_Y, so min_Y <= max_Y is not an invariant. |
| Geometry.ByXGetY | Assets/GeometricModeling/CoreScript/Utils/CoreUtils.cs:537-559 | Succeeds exactly when x lies within [min_X, max_X]. On success y is on the carrier (the level for horizontal, kx + b for sloped); vertical and failure give y = 0. |
| Geometry.VerticalPointInLine | Assets/GeometricModeling/CoreScript/Utils/CoreUtils.cs:564-583 | On a vertical segment a point is on the line exactly when its x is the line's x and its y lies within min and max of rayTest. |
| Geometry.SlopedPointInLine | Assets/GeometricModeling/CoreScript/Utils/CoreUtils.cs:564-583 | Where a non-vertical carrier is not 0 at p.x, a point is on the line exactly when x is in range and y is within 1e-4 of the carrier. |
| Geometry.EndpointsInLine | Assets/GeometricModeling/CoreScript/Utils/CoreUtils.cs:457-583 | A defining point whose x is inside rayx and whose y is not 0 passes PointInLine on its own segment. |
| Geometry.DiagonalMidpointRejected | Assets/GeometricModeling/CoreScript/Utils/CoreUtils.cs:564-583 | The y = 0 sentinel on an example: (0, 0) lies on the segment from (-1, -1) to (1, 1) and is in its x-range, yet PointInLine rejects it. |
| Geometry.RayAcceptsOffLinePoint | Assets/GeometricModeling/CoreScript/Utils/CoreUtils.cs:564-583 | The y = 0 sentinel on an example: a leftward ray along y = x accepts (0, 5), a point off its line. |
| Geometry.VerticalMeetsSlope | Assets/GeometricModeling/CoreScript/Utils/CoreUtils.cs:613-626 | x = x1 meets y = k2 x + b2 exactly at (x1, k2 x1 + b2). |
| Geometry.LevelMeetsSlope | Assets/GeometricModeling/CoreScript/Utils/CoreUtils.cs:648-661 | y = y1 meets y = k2 x + b2 (k2 != 0) exactly at ((y1 - b2)/k2, y1). |
| Geometry.SlopesMeet | Assets/GeometricModeling/CoreScript/Utils/CoreUtils.cs:692-711 | Lines of different slopes meet exactly at x = (b2 - b1)/(k1 - k2). |
| Geometry.CrossingAxes | Assets/GeometricModeling/CoreScript/Utils/CoreUtils.cs:600-647 | A vertical and a horizontal form meet exactly at the candidate the code computes. |
| Geometry.CrossingVerticalSloped | Assets/GeometricModeling/CoreScript/Utils/CoreUtils.cs:613-626 | The vertical/sloped case computes the unique crossing. |
| Geometry.CrossingSlopedVertical | Assets/GeometricModeling/CoreScript/Utils/CoreUtils.cs:666-678 | The sloped/vertical case computes the unique crossing. |
| Geometry.CrossingHorizontalSloped | Assets/GeometricModeling/CoreScript/Utils/CoreUtils.cs:648-661 | The horizontal/sloped case computes the unique crossing. |
| Geometry.CrossingSlopedHorizontal | Assets/GeometricModeling/CoreScript/Utils/CoreUtils.cs:679-691 | The sloped/horizontal case computes the unique crossing. |
| Geometry.CrossingSlopes | Assets/GeometricModeling/CoreScript/Utils/CoreUtils.cs:692-711 | Two sloped forms of different slope meet exactly at the computed point. |
| Geometry.CandidateIsCrossing | Assets/GeometricModeling/CoreScript/Utils/CoreUtils.cs:590-712 | For non-parallel forms the computed candidate is on both carriers, and it is the only point that is. |
| Geometry.GetLineIntersect | Assets/GeometricModeling/CoreScript/Utils/CoreUtils.cs:590-712 | Two vertical, two horizontal or equal-slope forms give false and (0, 0). Otherwise it succeeds exactly when the unique crossing passes PointInLine on both inputs. On success the point is on both carriers and both lines; on failure it is (0, 0). |
| Geometry.GetLineIntersectSymmetric | Assets/GeometricModeling/CoreScript/Utils/CoreUtils.cs:590-712 | The result does not depend on the order of the two lines. |
| Geometry.LineIntersectSymmetric | Assets/GeometricModeling/CoreScript/Utils/CoreUtils.cs:149-169 | Swapping the two 3-D segments gives the same answer. |
| Geometry.SharedStartIntersects | Assets/GeometricModeling/CoreScript/Utils/CoreUtils.cs:149-169 | Segments sharing their first point are reported as intersecting. |
| Geometry.SeparatedInXDisjoint | Assets/GeometricModeling/CoreScript/Utils/CoreUtils.cs:149-169 | Segments whose x-ranges are apart are reported as disjoint. |
| PolygonPoint.SymbolOf | Assets/GeometricModeling/CoreScript/ModelCreator/PolygonPoint2D.cs:65-83 | A classification is always Positive, Negative or Line, never None. |
| PolygonPoint.SymbolOfSign | Assets/GeometricModeling/CoreScript/ModelCreator/PolygonPoint2D.cs:65-83 | Raw cross product of self - last and next - last at least 1e-5 gives Negative, at most -1e-5 gives Positive, and strictly in between gives Line. |
| PolygonPoint.SymbolOfSwapped | Assets/GeometricModeling/CoreScript/ModelCreator/PolygonPoint2D.cs:65-83 | Swapping last and next flips Positive and Negative and keeps Line. |
| PolygonPoint.SymbolOfRotated | Assets/GeometricModeling/CoreScript/ModelCreator/PolygonPoint2D.cs:65-83 | Rotating the roles of the three points does not change the classification. |
| PolygonPoint.Copy | Assets/GeometricModeling/CoreScript/ModelCreator/PolygonPoint2D.cs:34-38 | A copy keeps point and index and has symbol None. |
| PolygonPoint.Classified | Assets/GeometricModeling/CoreScript/ModelCreator/PolygonPoint2D.cs:62-87 | Classifying a point changes only its symbol, which becomes the turn of last, self, next. |
| PolygonPoint.PolygonPoint2D.FromCoordinates | Assets/GeometricModeling/CoreScript/ModelCreator/PolygonPoint2D.cs:24-28 | A point built from coordinates holds them, the index (0 when left out), and symbol None. |
| PolygonPoint.PolygonPoint2D.constructor | Assets/GeometricModeling/CoreScript/ModelCreator/PolygonPoint2D.cs:29-33 | A point built from a Vector2 holds it, the index (0 when left out), and symbol None. |
| PolygonPoint.PolygonPoint2D.Copying | Assets/GeometricModeling/CoreScript/ModelCreator/PolygonPoint2D.cs:34-38 | The copy constructor copies point and index but not the symbol. |
| PolygonPoint.PolygonPoint2D.SetSymbol | Assets/GeometricModeling/CoreScript/ModelCreator/PolygonPoint2D.cs:62-87 | The returned symbol is the one stored, and it is the turn's classification. Point and index are untouched. |
| PolygonPoint.PolygonPoint2D.GetSymbol | Assets/GeometricModeling/CoreScript/ModelCreator/PolygonPoint2D.cs:92-95 | Returns the stored symbol, so after SetSymbol it returns what SetSymbol returned. |
| Orientation.WrapNeighbours | Assets/GeometricModeling/CoreScript/ModelCreator/BaseMeshCreator.cs:644-681 | The cyclic neighbours of the first and last corners are the last and first positions. |
| Orientation.ComputeRingProperty | Assets/GeometricModeling/CoreScript/ModelCreator/BaseMeshCreator.cs:644-681 | Fails (Get(1) throws) exactly when the ring has fewer than two points. Otherwise every corner gets the classification from its cyclic neighbours. The type is Concave exactly when some corner is neither Line nor the winding, else Convex. |
| Orientation.ClassifyMiddle | Assets/GeometricModeling/CoreScript/ModelCreator/BaseMeshCreator.cs:657-668 | The for loop over the middle corners classifies each of them and records whether one of them, or the first, is concave. |
| Orientation.SetSymbolAt | Assets/GeometricModeling/CoreScript/ModelCreator/BaseMeshCreator.cs:648-677 | Classifying one corner from its neighbours (untouched points) stores its ring classification and updates the concave flag. |
| Orientation.ClassifyStep | Assets/GeometricModeling/CoreScript/ModelCreator/BaseMeshCreator.cs:648-677 | Neighbours already reclassified still give the same classification, because only symbols changed. |
| Orientation.ClassifiedPoints | Assets/GeometricModeling/CoreScript/ModelCreator/BaseMeshCreator.cs:644-681 | Classification keeps every point and index, and the symbol is the corner's turn, never None. |
| Orientation.ClassifyIdempotent | Assets/GeometricModeling/CoreScript/ModelCreator/BaseMeshCreator.cs:644-681 | Running ComputeProperty's classification twice gives the same ring as once. |
| Orientation.Reversed | Assets/GeometricModeling/CoreScript/ModelCreator/BaseMeshCreator.cs:329-334 | The reversed list has the same length with element k taken from the mirror position. |
| Orientation.TurnReversed | Assets/GeometricModeling/CoreScript/ModelCreator/BaseMeshCreator.cs:329-341 | In the reversed vertex list, corner k turns opposite to the mirrored corner of the original. |
| Orientation.ConcaveReversedAt | Assets/GeometricModeling/CoreScript/ModelCreator/BaseMeshCreator.cs:329-341 | A corner of the reversed ring is concave for the flipped winding exactly when its mirror is concave for the original winding. |
| Orientation.KindReversed | Assets/GeometricModeling/CoreScript/ModelCreator/BaseMeshCreator.cs:329-341 | Reversing the vertex list and flipping the winding keeps Concave/Convex. |
| Orientation.LastNonLineDefault | Assets/GeometricModeling/CoreScript/ModelCreator/BaseMeshCreator.cs:123-133 | When every classification is Line the winding stays at its default. |
| Orientation.LastNonLineIsLast | Assets/GeometricModeling/CoreScript/ModelCreator/BaseMeshCreator.cs:123-133 | The winding is the last non-Line classification in the order. |
| Orientation.OrderedTurns | Assets/GeometricModeling/CoreScript/ModelCreator/BaseMeshCreator.cs:123-133 | The classifications in the sorted order are the turns at the ordered indices. |
| Orientation.ComputeWinding | Assets/GeometricModeling/CoreScript/ModelCreator/BaseMeshCreator.cs:123-133 | The loop over the sorted indices yields the winding function, which is never Line or None. |
| Orientation.NoLineWinding | Assets/GeometricModeling/CoreScript/ModelCreator/BaseMeshCreator.cs:123-133 | Starting from Positive, the winding is never Line. |
| Orientation.ConvexWinding | Assets/GeometricModeling/CoreScript/ModelCreator/BaseMeshCreator.cs:123-133 | If every corner turns the same non-Line way, that is the winding. |
| Orientation.Iota | Assets/GeometricModeling/CoreScript/ModelCreator/BaseMeshCreator.cs:103-107 | The initial index list 0 .. n - 1. |
| Orientation.PassStep | Assets/GeometricModeling/CoreScript/ModelCreator/BaseMeshCreator.cs:111-118 | One comparison of a pass: the entry at j is swapped into i exactly when its y is strictly greater, and the pass goes on from j + 1. |
| Orientation.PassKeepsPrefix | Assets/GeometricModeling/CoreScript/ModelCreator/BaseMeshCreator.cs:111-118 | A pass at i leaves every entry before i in place. |
| Orientation.PassPermutes | Assets/GeometricModeling/CoreScript/ModelCreator/BaseMeshCreator.cs:111-118 | A pass only permutes the index list. |
| Orientation.SwapPermutes | Assets/GeometricModeling/CoreScript/ModelCreator/BaseMeshCreator.cs:115-117 | Exchanging two entries keeps the multiset of the list. |
| Orientation.PassPutsGreatest | Assets/GeometricModeling/CoreScript/ModelCreator/BaseMeshCreator.cs:111-118 | After the pass at i, position i holds a y at least as great as every later position. |
| Orientation.PassSorts | Assets/GeometricModeling/CoreScript/ModelCreator/BaseMeshCreator.cs:109-119 | A pass at i on a list sorted before i permutes it and leaves it sorted up to and including i. |
| Orientation.SuffixPermuted | Assets/GeometricModeling/CoreScript/ModelCreator/BaseMeshCreator.cs:109-119 | Two permutations of each other that agree before i permute their entries from i on. |
| Orientation.SweepSorts | Assets/GeometricModeling/CoreScript/ModelCreator/BaseMeshCreator.cs:109-119 | The passes from i to the end permute a list sorted before i into non-increasing y. |
| Orientation.ExchangeSortedIsYOrder | Assets/GeometricModeling/CoreScript/ModelCreator/BaseMeshCreator.cs:103-120 | The exchange sort's order of 0 .. n - 1 lists every index once, in non-increasing y. |
| Orientation.SortByYDescending | Assets/GeometricModeling/CoreScript/ModelCreator/BaseMeshCreator.cs:103-120 | The index array the constructor sorts is exactly the exchange sort's order, ties included, and so a permutation of the indices in non-increasing y. |
| Orientation.PullGreatest | Assets/GeometricModeling/CoreScript/ModelCreator/BaseMeshCreator.cs:111-118 | The inner loop performs exactly one pass of the exchange sort at position i. |
| Orientation.CompareSwap | Assets/GeometricModeling/CoreScript/ModelCreator/BaseMeshCreator.cs:113-118 | One inner iteration: entries i and j are exchanged exactly when y at j is strictly greater, and nothing else changes. |
| Orientation.SwapEntries | Assets/GeometricModeling/CoreScript/ModelCreator/BaseMeshCreator.cs:115-117 | The two entries are exchanged, every other entry is kept, and so is the multiset. |
| Split.GetIntersect | Assets/GeometricModeling/CoreScript/ModelCreator/BaseMeshCreator.cs:794-840 | No hit, at (0, 0), when the edge's ends or the ray's two points are equal as Vector2. A failed test always reports (0, 0). |
| Split.CarrierCollinear | Assets/GeometricModeling/CoreScript/ModelCreator/BaseMeshCreator.cs:794-840 | Three points on one carrier line have zero raw cross product. |
| Split.IntersectionOnBothLines | Assets/GeometricModeling/CoreScript/ModelCreator/BaseMeshCreator.cs:794-840 | A hit lies on the ray's line and the edge's line, within the edge's x-range and ahead of the ray's start in x. |
| Split.CollectHits | Assets/GeometricModeling/CoreScript/ModelCreator/BaseMeshCreator.cs:701-715 | The ray loop collects exactly the hits of the edges after the concave corner, in loop order. |
| Split.EdgeHit | Assets/GeometricModeling/CoreScript/ModelCreator/BaseMeshCreator.cs:704-714 | One iteration adds the hit of edge j (wrapped), if any. |
| Split.HitsUpToLastEdge | Assets/GeometricModeling/CoreScript/ModelCreator/BaseMeshCreator.cs:702-715 | The loop bound: the hits are those of the edges up to the last one the loop reaches. |
| Split.NextOfNormal | Assets/GeometricModeling/CoreScript/ModelCreator/BaseMeshCreator.cs:704-705 | GetSafe(j + 1) is the successor of GetSafe(j) on the ring. |
| Split.EdgeHitsOnEdges | Assets/GeometricModeling/CoreScript/ModelCreator/BaseMeshCreator.cs:702-715 | Every collected hit lies on its edge and on the ray. |
| Split.HitAtOnEdge | Assets/GeometricModeling/CoreScript/ModelCreator/BaseMeshCreator.cs:704-714 | A single edge's hit lies on that edge and on the ray. |
| Split.HitsOnEdges | Assets/GeometricModeling/CoreScript/ModelCreator/BaseMeshCreator.cs:702-715 | All hits of a corner lie on their edges. |
| Split.HitEdgeInRing | Assets/GeometricModeling/CoreScript/ModelCreator/BaseMeshCreator.cs:702-715 | A hit's edge is a ring position other than the concave corner. |
| Split.LastNearestUnique | Assets/GeometricModeling/CoreScript/ModelCreator/BaseMeshCreator.cs:724-736 | The "last among the nearest" choice is unique. |
| Split.FindNearest | Assets/GeometricModeling/CoreScript/ModelCreator/BaseMeshCreator.cs:724-736 | Picks a hit nearest to the concave corner. With `<=`, no later hit is as near. |
| Split.FindConcave | Assets/GeometricModeling/CoreScript/ModelCreator/BaseMeshCreator.cs:692-696 | Finds a concave corner exactly when one exists, and it is the first one. |
| Split.Arc | Assets/GeometricModeling/CoreScript/ModelCreator/BaseMeshCreator.cs:749-776 | A run copied from the ring has the requested length. |
| Split.CopyRun | Assets/GeometricModeling/CoreScript/ModelCreator/BaseMeshCreator.cs:746-776 | The copy loops (GetSafe with the copy constructor) yield the arc from `from` to `to`. |
| Split.Stripped | Assets/GeometricModeling/CoreScript/ModelCreator/BaseMeshCreator.cs:746-776 | Forgetting symbols keeps the length. |
| Split.ArcsCover | Assets/GeometricModeling/CoreScript/ModelCreator/BaseMeshCreator.cs:746-776 | The two pieces have sizes summing to the grown ring's size + 2 and both hold at least two points. Each starts at one cut point and ends at the other, and together they hold every point of the ring. |
| Split.ArcEnds | Assets/GeometricModeling/CoreScript/ModelCreator/BaseMeshCreator.cs:746-776 | Each arc begins and ends at the two cut positions. |
| Split.ArcsCoverRing | Assets/GeometricModeling/CoreScript/ModelCreator/BaseMeshCreator.cs:746-776 | Every point of the ring lands in one of the two arcs. |
| Split.WrapAround | Assets/GeometricModeling/CoreScript/ModelCreator/BaseMeshCreator.cs:746-776 | GetSafe(k + n) is GetSafe(k). |
| Split.IndexMappedGrows | Assets/GeometricModeling/CoreScript/ModelCreator/BaseMeshCreator.cs:739-740 | Appending to the vertex list keeps every point's index valid. |
| Split.ArcIndexMapped | Assets/GeometricModeling/CoreScript/ModelCreator/BaseMeshCreator.cs:746-776 | Copied runs keep the index-to-vertex correspondence. |
| Split.ClassifyIndexMapped | Assets/GeometricModeling/CoreScript/ModelCreator/BaseMeshCreator.cs:644-681 | Classification keeps the index-to-vertex correspondence. |
| Split.SplitRing | Assets/GeometricModeling/CoreScript/ModelCreator/BaseMeshCreator.cs:692-778 | One ring's round has three outcomes. It is NoConcave exactly when no corner is concave. It is NoHit only at the first concave corner, when its ray hits nothing. Otherwise it is the split at the first concave corner and the last nearest hit. |
| Split.SplitAtNearest | Assets/GeometricModeling/CoreScript/ModelCreator/BaseMeshCreator.cs:724-778 | With hits, the split uses the last nearest one. |
| Split.BuildSplit | Assets/GeometricModeling/CoreScript/ModelCreator/BaseMeshCreator.cs:739-778 | The new point (index = vertex count) goes in after the hit edge's start, and the pieces are the two classified arcs between it and the corner. |
| Split.MakePieces | Assets/GeometricModeling/CoreScript/ModelCreator/BaseMeshCreator.cs:746-778 | Both pieces are copied out, classified by ComputeProperty, and typed. |
| Split.SplitPieces | Assets/GeometricModeling/CoreScript/ModelCreator/BaseMeshCreator.cs:739-778 | The ring grows by one and the pieces' sizes sum to that + 2. Both pieces contain the new point (at the front / back) and the concave corner (at the back / front), and together they hold every point of the grown ring. |
| Split.PiecesOfGrown | Assets/GeometricModeling/CoreScript/ModelCreator/BaseMeshCreator.cs:739-778 | The piece facts stated against the original ring and the inserted point. |
| Split.PiecesOfRing | Assets/GeometricModeling/CoreScript/ModelCreator/BaseMeshCreator.cs:746-778 | The piece facts stated for the classified arcs of any ring and two cut positions. |
| Split.PiecesStripped | Assets/GeometricModeling/CoreScript/ModelCreator/BaseMeshCreator.cs:746-778 | Without their symbols the classified pieces are exactly the copied arcs. |
| Split.GrownAt | Assets/GeometricModeling/CoreScript/ModelCreator/BaseMeshCreator.cs:739-750 | After the insertion the new point sits after the edge's start, and the corner moves by one when it came later. |
| Split.ArcCopies | Assets/GeometricModeling/CoreScript/ModelCreator/BaseMeshCreator.cs:746-776 | Points copied by the copy constructor have symbol None. |
| Split.StripClassified | Assets/GeometricModeling/CoreScript/ModelCreator/BaseMeshCreator.cs:777-778 | Classifying a ring of unclassified points changes nothing but symbols. |
| Split.SplitIndexMapped | Assets/GeometricModeling/CoreScript/ModelCreator/BaseMeshCreator.cs:739-778 | The grown ring and both pieces name their points by positions in the grown vertex list. |
| Split.GrownIndexMapped | Assets/GeometricModeling/CoreScript/ModelCreator/BaseMeshCreator.cs:739-740 | The inserted point's index names the vertex just appended. |
| Split.PiecesIndexMapped | Assets/GeometricModeling/CoreScript/ModelCreator/BaseMeshCreator.cs:746-778 | The pieces keep the index-to-vertex correspondence. |
| Split.SplitPointOnEdge | Assets/GeometricModeling/CoreScript/ModelCreator/BaseMeshCreator.cs:724-740 | The new point is on the ray's line, on the hit edge's line and within that edge's x-range. |
| Fan.RingArea | Assets/GeometricModeling/CoreScript/ModelCreator/BaseMeshCreator.cs:883-899 | The private MaxAreaPolygon's loop yields the ring's fan area, which is non-negative. |
| Fan.FanShape | Assets/GeometricModeling/CoreScript/ModelCreator/BaseMeshCreator.cs:848-870 | A ring of size n >= 3 yields n - 2 triangles (first, i + 1, i + 2), and a smaller ring yields none. |
| Fan.FanSharesDiagonals | Assets/GeometricModeling/CoreScript/ModelCreator/BaseMeshCreator.cs:848-870 | Consecutive fan triangles share a diagonal. |
| Fan.FanSumIsTrianglesArea | Assets/GeometricModeling/CoreScript/ModelCreator/BaseMeshCreator.cs:848-870 | The area the loop adds is the summed area of the fan's triangles, so it is non-negative. |
| Fan.FanAreaNonNegative | Assets/GeometricModeling/CoreScript/ModelCreator/BaseMeshCreator.cs:848-870 | A ring's fan area is never negative. |
| Fan.TriangleFan | Assets/GeometricModeling/CoreScript/ModelCreator/BaseMeshCreator.cs:848-870 | A triangle's fan is the triangle itself, with its own area. |
| Fan.AllFansShape | Assets/GeometricModeling/CoreScript/ModelCreator/BaseMeshCreator.cs:843-874 | The registry yields the sum of (size - 2) triangles, each of three points, and a non-negative total area. |
| Fan.AllFansIndexMapped | Assets/GeometricModeling/CoreScript/ModelCreator/BaseMeshCreator.cs:843-874 | Triangles keep the index-to-vertex correspondence of their rings. |
| Fan.FanIndexMapped | Assets/GeometricModeling/CoreScript/ModelCreator/BaseMeshCreator.cs:848-870 | One ring's triangles keep the correspondence. |
| Fan.EmitAt | Assets/GeometricModeling/CoreScript/ModelCreator/BaseMeshCreator.cs:171-197 | The index array has 3 entries per triangle. Entries 3i .. 3i + 2 are triangle i's first, then second and third, swapped when flipped. |
| Fan.EmitLength | Assets/GeometricModeling/CoreScript/ModelCreator/BaseMeshCreator.cs:171-197 | The array has three entries per triangle. |
| Fan.EmitFlipped | Assets/GeometricModeling/CoreScript/ModelCreator/BaseMeshCreator.cs:171-197 | Flipping keeps each first index and swaps the other two. |
| Fan.EmitInBounds | Assets/GeometricModeling/CoreScript/ModelCreator/BaseMeshCreator.cs:171-197 | Index-mapped triangles emit only valid vertex indices. |
| Queries.PruneLinePoints | Assets/GeometricModeling/CoreScript/ModelCreator/BaseMeshCreator.cs:931-951 | The deletion loop with `index--` yields the ring without its Line points. |
| Queries.WithoutLineMembers | Assets/GeometricModeling/CoreScript/ModelCreator/BaseMeshCreator.cs:931-951 | A point survives exactly when it was in the ring and its cached symbol is not Line. |
| Queries.WithoutLineShorter | Assets/GeometricModeling/CoreScript/ModelCreator/BaseMeshCreator.cs:931-951 | Pruning never lengthens a ring, and leaves it unchanged exactly when it has no Line point. |
| Queries.WithoutLineIdempotent | Assets/GeometricModeling/CoreScript/ModelCreator/BaseMeshCreator.cs:931-951 | Pruning twice is pruning once. |
| Queries.WithoutLineIndexMapped | Assets/GeometricModeling/CoreScript/ModelCreator/BaseMeshCreator.cs:931-951 | Pruning keeps the index-to-vertex correspondence. |
| Queries.AxisRectangleIsRect | Assets/GeometricModeling/CoreScript/ModelCreator/BaseMeshCreator.cs:911-926 | An axis-aligned rectangle listed corner by corner passes IsRect. |
| Queries.IsRectRotated | Assets/GeometricModeling/CoreScript/ModelCreator/BaseMeshCreator.cs:911-926 | IsRect does not depend on which corner comes first. |
| Queries.IsRectReversed | Assets/GeometricModeling/CoreScript/ModelCreator/BaseMeshCreator.cs:911-926 | IsRect does not depend on the direction of traversal. |
| Queries.Points | Assets/GeometricModeling/CoreScript/ModelCreator/BaseMeshCreator.cs:294-314 | The ring's points, position by position. |
| Queries.OrientedPoints | Assets/GeometricModeling/CoreScript/ModelCreator/BaseMeshCreator.cs:294-314 | The points in ring order when the winding matches, in reverse order otherwise. |
| Queries.ReversedTwice | Assets/GeometricModeling/CoreScript/ModelCreator/BaseMeshCreator.cs:294-314 | Reversing twice gives the list back. |
| Queries.ExtremesBound | Assets/GeometricModeling/CoreScript/ModelCreator/BaseMeshCreator.cs:211-233 | Least and Greatest bound every value and are members. |
| Queries.Xs | Assets/GeometricModeling/CoreScript/ModelCreator/BaseMeshCreator.cs:211-233 | The x coordinates, position by position. |
| Queries.Ys | Assets/GeometricModeling/CoreScript/ModelCreator/BaseMeshCreator.cs:103-120 | The y coordinates, position by position. |
| Queries.BoxOfBounds | Assets/GeometricModeling/CoreScript/ModelCreator/BaseMeshCreator.cs:211-233 | Every vertex lies in the bounding box. |
| Queries.BoxOfTight | Assets/GeometricModeling/CoreScript/ModelCreator/BaseMeshCreator.cs:211-233 | Each side of the box is touched by some vertex. |
| Queries.Extent | Assets/GeometricModeling/CoreScript/ModelCreator/BaseMeshCreator.cs:211-233 | GetUV's min/max loop computes the bounding box. |
| Queries.UV | Assets/GeometricModeling/CoreScript/ModelCreator/BaseMeshCreator.cs:211-249 | Each vertex is placed by (p - min) / len on both axes. There is no value exactly when a side length is zero. |
| Queries.DivideInUnit | Assets/GeometricModeling/CoreScript/ModelCreator/BaseMeshCreator.cs:211-249 | A value in [0, l] divided by l lies in [0, 1]. |
| Queries.UVInUnitSquare | Assets/GeometricModeling/CoreScript/ModelCreator/BaseMeshCreator.cs:211-249 | Every uv lies in the unit square, with the leftmost vertex at u = 0 and the rightmost at u = 1. |
| Queries.GetCenter | Assets/GeometricModeling/CoreScript/ModelCreator/BaseMeshCreator.cs:601-616 | The loop computes the vertex average, and (0, 0) for an empty ring. |
| Queries.SumXBounds | Assets/GeometricModeling/CoreScript/ModelCreator/BaseMeshCreator.cs:601-616 | The sum of x coordinates lies between n*lo and n*hi. |
| Queries.SumYBounds | Assets/GeometricModeling/CoreScript/ModelCreator/BaseMeshCreator.cs:601-616 | The sum of y coordinates lies between n*lo and n*hi. |
| Queries.AverageBetween | Assets/GeometricModeling/CoreScript/ModelCreator/BaseMeshCreator.cs:601-616 | An average of values in [lo, hi] is in [lo, hi]. |
| Queries.CentroidXBetween | Assets/GeometricModeling/CoreScript/ModelCreator/BaseMeshCreator.cs:601-616 | The centre's x lies within any bounds of the points' x. |
| Queries.CentroidYBetween | Assets/GeometricModeling/CoreScript/ModelCreator/BaseMeshCreator.cs:601-616 | The centre's y lies within any bounds of the points' y. |
| Queries.CentroidInBox | Assets/GeometricModeling/CoreScript/ModelCreator/BaseMeshCreator.cs:601-616 | The centre of a non-empty ring lies in its bounding box. |
| Queries.RightTriangleBox | Assets/GeometricModeling/CoreScript/ModelCreator/BaseMeshCreator.cs:618-642 | The box of (0,0), (3,0), (0,3) is [0, 3] x [0, 3]. |
| Queries.RightTriangleSum | Assets/GeometricModeling/CoreScript/ModelCreator/BaseMeshCreator.cs:618-642 | Its coordinate sum is (3, 3). |
| Queries.RightTriangleCentroid | Assets/GeometricModeling/CoreScript/ModelCreator/BaseMeshCreator.cs:618-642 | Its vertex average is (1, 1). |
| Queries.BoundRectAsWrittenMissesVertex | Assets/GeometricModeling/CoreScript/ModelCreator/BaseMeshCreator.cs:618-642 | As written the rectangle is (-0.5, -0.5, 3, 3), which leaves out the vertex (3, 0). |
| Queries.BoundingRectEncloses | Assets/GeometricModeling/CoreScript/ModelCreator/BaseMeshCreator.cs:618-642 | The bounding rectangle encloses every point and touches the outermost ones. |
| Queries.BoundRectsAgreeWhenCentred | Assets/GeometricModeling/CoreScript/ModelCreator/BaseMeshCreator.cs:618-642 | When the vertex average is the box centre (Centred), the rectangle as written is the bounding rectangle. |
| Queries.GetBoundRect | Assets/GeometricModeling/CoreScript/ModelCreator/BaseMeshCreator.cs:618-642 | The one loop of extremes and sum yields the rectangle of the bounding box's size placed around the vertex average, as written. It encloses every point of a centred ring. |
| Registry.RegisteredGrows | Assets/GeometricModeling/CoreScript/ModelCreator/BaseMeshCreator.cs:739-740 | A larger vertex list keeps every entry registered. |
| Registry.RegisteredSplice | Assets/GeometricModeling/CoreScript/ModelCreator/BaseMeshCreator.cs:781-784 | Removing the split entry and adding two pieces of the same winding keeps the registry well formed. |
| Registry.RingsOf | Assets/GeometricModeling/CoreScript/ModelCreator/BaseMeshCreator.cs:843-874 | Each entry's ring, in registry order. |
| Registry.AreasOf | Assets/GeometricModeling/CoreScript/ModelCreator/BaseMeshCreator.cs:877-906 | Each entry's fan area, in registry order. |
| Registry.LastMaxIsGreatest | Assets/GeometricModeling/CoreScript/ModelCreator/BaseMeshCreator.cs:877-906 | The chosen entry's area is the greatest area. |
| Registry.LastMaxUnique | Assets/GeometricModeling/CoreScript/ModelCreator/BaseMeshCreator.cs:877-906 | Only one entry can be the chosen one. |
| Registry.MaxAreaOf | Assets/GeometricModeling/CoreScript/ModelCreator/BaseMeshCreator.cs:877-906 | The private MaxAreaPolygon returns the last entry of greatest fan area (`>=`) with its area. |
| Registry.RegisteredPruned | Assets/GeometricModeling/CoreScript/ModelCreator/BaseMeshCreator.cs:931-951 | Pruning entries keeps the registry well formed. |
| Registry.RectsOfMembers | Assets/GeometricModeling/CoreScript/ModelCreator/BaseMeshCreator.cs:388-397 | A polygon is collected exactly when it is an entry other than the winner and passes IsRect. |
| Registry.LeadingRect | Assets/GeometricModeling/CoreScript/ModelCreator/BaseMeshCreator.cs:463-493 | A rectangle followed by the collected rectangles is a list of rectangles. |
| Registry.PruneOthers | Assets/GeometricModeling/CoreScript/ModelCreator/BaseMeshCreator.cs:388-397 | Every entry except the winner is pruned, and the pruned ones passing IsRect are collected in order. |
| Registry.PrunedAll | Assets/GeometricModeling/CoreScript/ModelCreator/BaseMeshCreator.cs:931-951 | Every entry pruned, in order. |
| Registry.RectsOfIgnoresExcluded | Assets/GeometricModeling/CoreScript/ModelCreator/BaseMeshCreator.cs:388-397 | The winner's own entry does not affect the collection. |
| Registry.PruneAll | Assets/GeometricModeling/CoreScript/ModelCreator/BaseMeshCreator.cs:931-951 | DelLinePoint's loop over the registry prunes every entry. |
| Registry.PrunedHasNoLine | Assets/GeometricModeling/CoreScript/ModelCreator/BaseMeshCreator.cs:931-951 | No pruned entry keeps a Line point. |
| Engine.RegisteredUpdate | Assets/GeometricModeling/CoreScript/ModelCreator/BaseMeshCreator.cs:342-352 | Replacing one entry by a polygon of the same winding and vertices keeps the registry well formed. |
| Engine.PrefixGrows | Assets/GeometricModeling/CoreScript/ModelCreator/BaseMeshCreator.cs:739-740 | The vertex list only grows at its end. |
| Engine.ConvexKept | Assets/GeometricModeling/CoreScript/ModelCreator/BaseMeshCreator.cs:781-784 | A split of entry v leaves the earlier entries, already without a concave corner, as they were. |
| Engine.PointsOf | Assets/GeometricModeling/CoreScript/ModelCreator/BaseMeshCreator.cs:423-432 | Each polygon's points in the requested winding, with one point per ring position. |
| Engine.FanOf | Assets/GeometricModeling/CoreScript/ModelCreator/BaseMeshCreator.cs:848-871 | ComputeTriangle's inner loop yields the ring's fan triangles and their summed area. |
| Engine.TriangleOfAppends | Assets/GeometricModeling/CoreScript/ModelCreator/BaseMeshCreator.cs:859-861 | Append(0, a), Append(0, b), Append(1, c) on an empty list give (a, b, c). |
| Engine.FanPrefixStep | Assets/GeometricModeling/CoreScript/ModelCreator/BaseMeshCreator.cs:848-870 | Each loop round adds the next fan triangle. |
| Engine.FanPrefixEnd | Assets/GeometricModeling/CoreScript/ModelCreator/BaseMeshCreator.cs:848-870 | The loop ends with the whole fan. |
| Engine.FanAll | Assets/GeometricModeling/CoreScript/ModelCreator/BaseMeshCreator.cs:843-874 | The outer loop yields all fans and the total area, in registry order. |
| Engine.ReversedWinner | Assets/GeometricModeling/CoreScript/ModelCreator/BaseMeshCreator.cs:384-398 | The reversed registry's winner comes first, then its other entries that are rectangles once pruned. |
| Engine.PrunedAllOfPruned | Assets/GeometricModeling/CoreScript/ModelCreator/BaseMeshCreator.cs:360-415 | Pruning the winner first does not change the fully pruned registry. |
| Engine.ReversedPieces | Assets/GeometricModeling/CoreScript/ModelCreator/BaseMeshCreator.cs:329-341 | The reversed run throws exactly when the input has fewer than two points. Otherwise it is ReversedRun: the polygon built on the reversed list, classified, then split by a chain of rounds that ends settled; its pieces carry that polygon's winding, index the grown vertex list, and meet the AllSplit or Stuck end. |
| Engine.ChainStep | Assets/GeometricModeling/CoreScript/ModelCreator/BaseMeshCreator.cs:685-791 | Appending a round that fits the current registry extends the chain: the registry loses the split entry and gains its two pieces at the end, and the vertex list gains the split point. |
| Engine.FirstConcaveUnique | Assets/GeometricModeling/CoreScript/ModelCreator/BaseMeshCreator.cs:692-696 | A ring has one first concave corner. |
| Engine.SplitDetermined | Assets/GeometricModeling/CoreScript/ModelCreator/BaseMeshCreator.cs:692-784 | The split of a ring is determined by the ring, the winding and the next vertex index. |
| Engine.EntryDetermined | Assets/GeometricModeling/CoreScript/ModelCreator/BaseMeshCreator.cs:688-696 | Only one entry is the first with a concave corner. |
| Engine.RoundDetermined | Assets/GeometricModeling/CoreScript/ModelCreator/BaseMeshCreator.cs:688-784 | The round ConcaveSplit performs on a registry is determined by the registry and the vertex list. |
| Engine.Unchain | Assets/GeometricModeling/CoreScript/ModelCreator/BaseMeshCreator.cs:685-791 | A non-empty chain is a chain followed by a round that fits where it ends. |
| Engine.ChainsEqual | Assets/GeometricModeling/CoreScript/ModelCreator/BaseMeshCreator.cs:685-791 | Two chains of the same length from the same start are equal, so the rounds ConcaveSplit reports are the only ones possible. |
| Engine.LastSplit | Assets/GeometricModeling/CoreScript/ModelCreator/BaseMeshCreator.cs:685-791 | A non-empty list is its front followed by its last element. |
| Engine.SettledFinal | Assets/GeometricModeling/CoreScript/ModelCreator/BaseMeshCreator.cs:716-721 | A settled registry admits no further round. |
| Engine.ConvexSettled | Assets/GeometricModeling/CoreScript/ModelCreator/BaseMeshCreator.cs:688-791 | A registry with no concave corner is settled. |
| Engine.StuckSettled | Assets/GeometricModeling/CoreScript/ModelCreator/BaseMeshCreator.cs:716-721 | A registry whose first concave entry's first concave corner casts a ray with no hit is settled. |
| Engine.EndedSettled | Assets/GeometricModeling/CoreScript/ModelCreator/BaseMeshCreator.cs:685-791 | Both ends of ConcaveSplit short of the fuel bound leave the registry settled. |
| Engine.EndedRings | Assets/GeometricModeling/CoreScript/ModelCreator/BaseMeshCreator.cs:843-874 | How ConcaveSplit ended depends only on the rings, so ComputeTriangle's area update keeps it. |
| Engine.OrientedOpposite | Assets/GeometricModeling/CoreScript/ModelCreator/BaseMeshCreator.cs:294-314 | For a polygon of one of two windings, its points asked for in one winding are its points asked for in the other, reversed. |
| Engine.SimplePolygon.EntriesRegistered | Assets/GeometricModeling/CoreScript/ModelCreator/BaseMeshCreator.cs:560-588 | The registry is never empty, and every entry carries the winding and valid vertex indices. |
| Engine.SimplePolygon.constructor | Assets/GeometricModeling/CoreScript/ModelCreator/BaseMeshCreator.cs:84-137 | The ring holds vertex k with index k and symbol None, the area is 0 and the registry lists the polygon itself. The winding is YWinding: the last non-Line classification in the exchange sort's y-order, which is a permutation in non-increasing y. |
| Engine.SimplePolygon.ComputeProperty | Assets/GeometricModeling/CoreScript/ModelCreator/BaseMeshCreator.cs:644-681 | Fails exactly on rings of fewer than two points and then changes nothing. Otherwise the root ring is classified and the type is Concave iff some corner is concave. |
| Engine.SimplePolygon.SplitEntry | Assets/GeometricModeling/CoreScript/ModelCreator/BaseMeshCreator.cs:692-784 | No change when entry v has no concave corner or its ray hits nothing (with the first concave corner named). Otherwise the split fits SplitRing, the new point is appended to the vertices, the root ring grows while listed, and the entry is replaced by its two pieces at the end, the root no longer listed. |
| Engine.SimplePolygon.ApplySplit | Assets/GeometricModeling/CoreScript/ModelCreator/BaseMeshCreator.cs:739-784 | The new vertex is appended. The root ring grows while it is listed, entry v is removed with the two pieces added at the end, and the registry now lists pieces. |
| Engine.SimplePolygon.SplitStep | Assets/GeometricModeling/CoreScript/ModelCreator/BaseMeshCreator.cs:688-784 | One round of the loop: SplitEntry's effect (a round that fits, the registry AfterSplit, the point appended, the root grown while listed; nothing changed otherwise), and the loop invariant that the entries before the cursor, plus the current one when it had none, have no concave corner. |
| Engine.SimplePolygon.ConcaveSplit | Assets/GeometricModeling/CoreScript/ModelCreator/BaseMeshCreator.cs:685-791 | The rounds it performs form a chain from the old registry and vertex list, the new registry and vertex list are their replay, and the root stays listed exactly when no round split. It ends with no concave entry, or stuck at the first concave entry's first concave corner whose ray hits nothing; either way the registry is settled. |
| Engine.SimplePolygon.ComputeTriangle | Assets/GeometricModeling/CoreScript/ModelCreator/BaseMeshCreator.cs:843-874 | Every entry's fan triangles, sum(size - 2) of them, and area grows by the total fan area. The rings do not change. |
| Engine.SimplePolygon.Execute | Assets/GeometricModeling/CoreScript/ModelCreator/BaseMeshCreator.cs:142-154 | Throws (caught) exactly on a ring of fewer than two points, changing nothing. Otherwise the type is the classified ring's kind, the registry and vertex list are the replay of a chain of rounds from the classified start, and when it returns the registry is settled, and the triangles and area come from its rings. |
| Engine.SimplePolygon.SplitAndTriangulate | Assets/GeometricModeling/CoreScript/ModelCreator/BaseMeshCreator.cs:148-149 | ConcaveSplit then ComputeTriangle: the chain, the replayed registry and vertex list, and on return the settled end, the fans and the area. |
| Engine.SimplePolygon.Triangulate | Assets/GeometricModeling/CoreScript/ModelCreator/BaseMeshCreator.cs:843-874 | ComputeTriangle after a split that ended short of fuel: the fans and the area come from the rings, the end facts still hold and the registry is settled. |
| Engine.SimplePolygon.GetTriangles | Assets/GeometricModeling/CoreScript/ModelCreator/BaseMeshCreator.cs:171-197 | Throws (null triangles) exactly before triangulation. Otherwise it returns 3 indices per triangle, all valid vertex indices, flipped exactly when reverse differs from winding == Negative. |
| Engine.SimplePolygon.GetVertices | Assets/GeometricModeling/CoreScript/ModelCreator/BaseMeshCreator.cs:202-206 | The vertex list, which every ring and entry indexes. |
| Engine.SimplePolygon.GetArea | Assets/GeometricModeling/CoreScript/ModelCreator/BaseMeshCreator.cs:254-257 | The accumulated area. |
| Engine.SimplePolygon.GetUV | Assets/GeometricModeling/CoreScript/ModelCreator/BaseMeshCreator.cs:211-249 | One uv per vertex, placed in the bounding box and inside the unit square. There is no value when the box has zero width or height. |
| Engine.SimplePolygon.GetCenters | Assets/GeometricModeling/CoreScript/ModelCreator/BaseMeshCreator.cs:263-271 | Each entry's vertex average, which lies in its bounding box. |
| Engine.SimplePolygon.GetBoundRects | Assets/GeometricModeling/CoreScript/ModelCreator/BaseMeshCreator.cs:277-285 | Each entry's rectangle as written, BoundRectAsWritten; it encloses the entry's points when the entry is centred (see Findings). |
| Engine.SimplePolygon.GetMaxAreaPoint | Assets/GeometricModeling/CoreScript/ModelCreator/BaseMeshCreator.cs:294-314 | The root ring's points, reversed when the winding differs from the requested one. |
| Engine.SimplePolygon.MaxAreaEntry | Assets/GeometricModeling/CoreScript/ModelCreator/BaseMeshCreator.cs:877-906 | The last entry of greatest fan area, and that area. |
| Engine.SimplePolygon.Store | Assets/GeometricModeling/CoreScript/ModelCreator/BaseMeshCreator.cs:560-588 | Registry values are written back, into the root while it is listed and into the pieces otherwise. |
| Engine.SimplePolygon.DelLinePoint | Assets/GeometricModeling/CoreScript/ModelCreator/BaseMeshCreator.cs:931-951 | Every entry loses its Line points. |
| Engine.SimplePolygon.PruneEntry | Assets/GeometricModeling/CoreScript/ModelCreator/BaseMeshCreator.cs:931-951 | DelLinePoint on entry k prunes that entry only. |
| Engine.SimplePolygon.KeepOwn | Assets/GeometricModeling/CoreScript/ModelCreator/BaseMeshCreator.cs:399-414 | This registry's winner gets its area and the other entries are pruned. The result is the winner followed by the rectangles among the others. |
| Engine.SimplePolygon.Contest | Assets/GeometricModeling/CoreScript/ModelCreator/BaseMeshCreator.cs:362-382 | Before the comparison this registry's winner is pruned, and the reversed run (ReversedRun from the input) is made, with its winner found and pruned. The reversed run throws exactly on fewer than two points. |
| Engine.SimplePolygon.MaxAreaPolygon | Assets/GeometricModeling/CoreScript/ModelCreator/BaseMeshCreator.cs:321-353 | The reversed registry is ReversedRun from the input. The winner's area is the larger of the two best areas, with the reversed run winning ties. The winner loses its Line points, and this registry changes only when its own winner is taken. |
| Engine.SimplePolygon.MaxAreaPolygons | Assets/GeometricModeling/CoreScript/ModelCreator/BaseMeshCreator.cs:360-415 | PolygonsOutcome: the reversed registry is ReversedRun from the input; the winner comes first (larger best area, reversed on ties), then the other entries of its registry that are rectangles, all pruned; and the new registry in each branch. |
| Engine.SimplePolygon.MaxAreaRects | Assets/GeometricModeling/CoreScript/ModelCreator/BaseMeshCreator.cs:439-495 | RectsOutcome: every result is a rectangle. The reversed winner (of ReversedRun) is taken when its area is at least ours and it is a rectangle; else our winner when it is a rectangle; else nothing; and the new registry in each branch. |
| Engine.SimplePolygon.MaxAreaPolygonPoints | Assets/GeometricModeling/CoreScript/ModelCreator/BaseMeshCreator.cs:423-432 | The list overload's outcome (PolygonsOutcome, new registry included) for polys, with the same exception and each returned point list the polygon's points in the requested winding. |
| Engine.SimplePolygon.MaxAreaRectPoints | Assets/GeometricModeling/CoreScript/ModelCreator/BaseMeshCreator.cs:502-511 | MaxAreaRect's outcome (RectsOutcome, new registry included) for polys, with the same exception and each returned point list the rectangle's four points in the requested winding. |
| Mesh.Combine | Assets/GeometricModeling/CoreScript/ModelCreator/BaseMeshCreator.cs:1001-1020 | The merged mesh, or an exception exactly when some mesh has fewer uvs than vertices. |
| Mesh.AppendShifted | Assets/GeometricModeling/CoreScript/ModelCreator/BaseMeshCreator.cs:1009-1012 | One mesh's indices, shifted by the vertices already merged, are added at the end. |
| Mesh.AppendVertices | Assets/GeometricModeling/CoreScript/ModelCreator/BaseMeshCreator.cs:1013-1017 | One mesh's vertices and their uvs are added, failing exactly when a uv is missing. |
| Mesh.CombinedStep | Assets/GeometricModeling/CoreScript/ModelCreator/BaseMeshCreator.cs:1001-1020 | Merging i + 1 meshes extends the merge of i by mesh i. |
| Mesh.CombinedSizes | Assets/GeometricModeling/CoreScript/ModelCreator/BaseMeshCreator.cs:1001-1020 | The merge has every input's vertices with one uv each, and every input's indices. |
| Mesh.CombinedInBounds | Assets/GeometricModeling/CoreScript/ModelCreator/BaseMeshCreator.cs:1001-1020 | Indices in bounds per input stay in bounds in the merge. |
| Mesh.CombinedSingleton | Assets/GeometricModeling/CoreScript/ModelCreator/BaseMeshCreator.cs:1001-1020 | Merging one mesh keeps it, with its uvs trimmed to one per vertex. |
| Mesh.ShiftedTwice | Assets/GeometricModeling/CoreScript/ModelCreator/BaseMeshCreator.cs:1009-1012 | Shifting twice is shifting by the sum. |
| Mesh.ShiftedConcat | Assets/GeometricModeling/CoreScript/ModelCreator/BaseMeshCreator.cs:1009-1012 | Shifting distributes over concatenation. |
| Mesh.UVCoversConcat | Assets/GeometricModeling/CoreScript/ModelCreator/BaseMeshCreator.cs:1013-1017 | Lists of meshes with enough uvs concatenate to such a list. |
| Mesh.CombinedConcat | Assets/GeometricModeling/CoreScript/ModelCreator/BaseMeshCreator.cs:1001-1020 | Merging is associative. Merging a + b is merging a, then the merge of b with its indices shifted past a's vertices. |
| Mesh.ConcatVertices | Assets/GeometricModeling/CoreScript/ModelCreator/BaseMeshCreator.cs:1013-1017 | The vertex part of the associativity. |
| Mesh.ConcatUV | Assets/GeometricModeling/CoreScript/ModelCreator/BaseMeshCreator.cs:1013-1017 | The uv part of the associativity. |
| Mesh.ConcatTriangles | Assets/GeometricModeling/CoreScript/ModelCreator/BaseMeshCreator.cs:1009-1012 | The index part of the associativity. |

## Left out

- **Object identity of registry entries:** `SimplePolygon` objects in the
  registry are modelled as `Polygon` values.
  - The source's `polygonsList` holds objects, and the root polygon lists
    itself. The model keeps both in step (`Entries()`).
  - Each piece's own registry holds only the piece, so DelLinePoint on it
    prunes that piece alone (`Engine.SimplePolygon.PruneEntry`).
- **Per-piece ring lists:** the rings of the engine are sequences, not
  `DoubleLink` objects. The engine uses the list's sequence semantics
  (`Spliced`, `NormalIndex`), which the `Structure.DoubleLink` class is
  proved to implement.
- **Engine.SimplePolygon.ConcaveSplit:** the source restarts with `goto` and
  has no termination measure. The model bounds the number of rounds by a
  `fuel` parameter and reports `OutOfFuel` when it is used up. Runs longer
  than the fuel are not covered.
- **Engine.SimplePolygon.Execute:** the `try/catch` that swallows exceptions
  and logs them is modelled as the `Threw` outcome. An exhausted fuel bound
  gives `Exhausted`, which the source does not have.
- **Engine.SimplePolygon.constructor:** requires a non-empty vertex list. On
  an empty list the source throws at `vertex2dList[0]`, and in the
  maximum-area overloads that case is modelled as `Threw` by
  `Engine.ReversedPieces`.
- **Structure.DoubleLink.NormalIndexOf / Structure.DoubleLink.GetSafe:**
  require a non-empty list. On an empty list the source's recursion never
  terminates (stack overflow).
- **Queries.UV / Engine.SimplePolygon.GetUV:** a bounding box of zero width
  or height gives NaN or infinite uvs in the source (float division by
  zero). The model returns no value there.
- **Split.FindNearest:** compares squared distances. The source compares
  `Vector2.Distance`, which orders the same way since the square root is
  monotone.
- **Float rounding:** coordinates are reals, so 32-bit rounding, NaN and
  infinities other than the bounds of rays and lines are not modelled.
- **I/O and events:** `Debug.Log`/`Debug.LogError` and the static
  `PointEvent` observer are left out, since they have no effect on the
  results.
- **MeshData beyond Combine:**
  - the `MeshData` constructors and the cube/prism builders (`DrawSimpleCube`,
    `Draw4SideShape`, `DrawNPrism`, `Draw6Prism`) are constant tables and
    Unity mesh plumbing, as is `ToString`;
  - the quaternion and rotation code (`GetRotation`) is left out for the
    same reason.
- **Other CoreUtils helpers:** the projection, plane and Bezier helpers use
  square roots and normalisation, outside this model.
- **BinaryTree:** `BinaryTree<T>` in `Utils/Structure.cs` is unused by the
  engine, and its traversals have empty bodies.
- **ParameterModeling and the demo scene:** these are Unity scene,
  GameObject and input code.
- **Convexity of every output piece:** not claimed, because the source does
  not guarantee it (a corner whose ray hits nothing ends the split early).
  `Engine.SimplePolygon.ConcaveSplit` states what holds in each of its
  outcomes instead.

## Findings

| source | as written | input that shows it | evidently intended | confidence | as-written member | corrected member |
|---|---|---|---|---|---|---|
| Assets/GeometricModeling/CoreScript/ModelCreator/BaseMeshCreator.cs:618-642 | The private GetBoundRects gives the rectangle the bounding box's width and height, but centres it on the vertex average instead of the box centre. | The triangle (0,0), (3,0), (0,3) gets the rectangle at (-0.5, -0.5), size 3 x 3, which leaves out the vertex (3, 0). | The bounding rectangle (min_x, min_y, w, h), which encloses every vertex. | medium, not executed | Queries.BoundRectAsWrittenMissesVertex | Queries.BoundingRectEncloses |
| Assets/GeometricModeling/CoreScript/Utils/Structure.cs:136-162 | Next(index) and Last(index) read node index itself and only wrap at the ends, while their documentation says they return the next and the previous node. | In a list of three elements, Next(1) and Last(1) both return element 1. | Next returns element (index + 1) mod size and Last element (index - 1) mod size; Structure.FollowingPrecedingInverse proves these positions stay in range and undo each other. | medium, not executed | Structure.NextLastStayPut | Structure.DoubleLink.Following |

In both cases the model keeps the code as written and states the
correction beside it. `Engine.SimplePolygon.GetBoundRects` returns
`Queries.BoundRectAsWritten` for every entry, and the corrected rectangle
is `Queries.BoundingRect`. `Next` and `Last` are not called by
the engine, so `Structure.DoubleLink.Following` and
`Structure.DoubleLink.Preceding` stand beside them.
