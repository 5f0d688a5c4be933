/**
 * Worked examples on two of the visualizer's polygons: the centre of the
 * square is inside and returned as it is; a point in the notch of the L is
 * outside, equally near two edges, and the first of them gives the answer.
 */
module PolygonExamples {
  import opened Wrappers
  import opened Polygon

  /** The square example polygon. */
  function Square(): (poly: seq<Point>)
    ensures |poly| == 4
  {
    [Point(200.0, 150.0), Point(600.0, 150.0), Point(600.0, 450.0), Point(200.0, 450.0)]
  }

  /** The centre of the square. */
  const Centre: Point := Point(400.0, 300.0)

  /** Only the right-hand edge crosses the centre's ray upwards with the centre on its left. */
  lemma CentreWinding()
    ensures WindingNumber(Square(), Centre, 4) == 1
  {
    var sq := Square();
    assert sq[0] == Point(200.0, 150.0) && sq[1] == Point(600.0, 150.0);
    assert sq[2] == Point(600.0, 450.0) && sq[3] == Point(200.0, 450.0);
    assert WindingNumber(sq, Centre, 1) == 0;
    assert WindingNumber(sq, Centre, 2) == 1;
    assert WindingNumber(sq, Centre, 3) == 1;
    assert 4 % 4 == 0;
  }

  /** A point inside is returned unchanged. */
  lemma CentreAnswer()
    ensures ClosestPoint(Square(), Centre) == Success(Centre)
  {
    CentreWinding();
  }

  /** The L-shaped (concave) example polygon: `l` has exactly its six vertices, in order. */
  predicate IsLShape(l: seq<Point>) {
    && |l| == 6
    && l[0] == Point(150.0, 100.0) && l[1] == Point(400.0, 100.0) && l[2] == Point(400.0, 250.0)
    && l[3] == Point(650.0, 250.0) && l[4] == Point(650.0, 500.0) && l[5] == Point(150.0, 500.0)
  }

  /** A point in the notch of the L, equally far from edges 1 and 2. */
  const Notch: Point := Point(500.0, 150.0)

  /** Edge 0 of the L-shape as seen from the notch point. */
  lemma LShapeEdge0(l: seq<Point>)
    requires IsLShape(l)
    ensures EdgeProjection(l, Notch, 0) == Point(400.0, 100.0)
    ensures EdgeDistance(l, Notch, 0) == 12500.0
  {
    var a, b := l[0], l[1];
    assert (0 + 1) % 6 == 1;
    assert SegmentLengthSquared(a, b) == 62500.0;
    assert Dot(a, b, Notch) == 87500.0;
    assert RawParameter(a, b, Notch) == 7.0 / 5.0;
  }

  /** Edge 1 of the L-shape as seen from the notch point. */
  lemma LShapeEdge1(l: seq<Point>)
    requires IsLShape(l)
    ensures EdgeProjection(l, Notch, 1) == Point(400.0, 150.0)
    ensures EdgeDistance(l, Notch, 1) == 10000.0
  {
    var a, b := l[1], l[2];
    assert (1 + 1) % 6 == 2;
    assert SegmentLengthSquared(a, b) == 22500.0;
    assert Dot(a, b, Notch) == 7500.0;
    assert RawParameter(a, b, Notch) == 1.0 / 3.0;
  }

  /** Edge 2 of the L-shape as seen from the notch point. */
  lemma LShapeEdge2(l: seq<Point>)
    requires IsLShape(l)
    ensures EdgeProjection(l, Notch, 2) == Point(500.0, 250.0)
    ensures EdgeDistance(l, Notch, 2) == 10000.0
  {
    var a, b := l[2], l[3];
    assert (2 + 1) % 6 == 3;
    assert SegmentLengthSquared(a, b) == 62500.0;
    assert Dot(a, b, Notch) == 25000.0;
    assert RawParameter(a, b, Notch) == 2.0 / 5.0;
  }

  /** Edge 3 of the L-shape as seen from the notch point. */
  lemma LShapeEdge3(l: seq<Point>)
    requires IsLShape(l)
    ensures EdgeProjection(l, Notch, 3) == Point(650.0, 250.0)
    ensures EdgeDistance(l, Notch, 3) == 32500.0
  {
    var a, b := l[3], l[4];
    assert (3 + 1) % 6 == 4;
    assert SegmentLengthSquared(a, b) == 62500.0;
    assert Dot(a, b, Notch) == -25000.0;
    assert RawParameter(a, b, Notch) == -2.0 / 5.0;
  }

  /** Edge 4 of the L-shape as seen from the notch point. */
  lemma LShapeEdge4(l: seq<Point>)
    requires IsLShape(l)
    ensures EdgeProjection(l, Notch, 4) == Point(500.0, 500.0)
    ensures EdgeDistance(l, Notch, 4) == 122500.0
  {
    var a, b := l[4], l[5];
    assert (4 + 1) % 6 == 5;
    assert SegmentLengthSquared(a, b) == 250000.0;
    assert Dot(a, b, Notch) == 75000.0;
    assert RawParameter(a, b, Notch) == 3.0 / 10.0;
  }

  /** Edge 5 of the L-shape as seen from the notch point. */
  lemma LShapeEdge5(l: seq<Point>)
    requires IsLShape(l)
    ensures EdgeProjection(l, Notch, 5) == Point(150.0, 150.0)
    ensures EdgeDistance(l, Notch, 5) == 122500.0
  {
    var a, b := l[5], l[0];
    assert (5 + 1) % 6 == 0;
    assert SegmentLengthSquared(a, b) == 160000.0;
    assert Dot(a, b, Notch) == 140000.0;
    assert RawParameter(a, b, Notch) == 7.0 / 8.0;
  }

  /** Seen from the notch point, no edge of the L-shape has squared distance below the tolerance. */
  lemma NotchFarFromEdges(l: seq<Point>)
    requires IsLShape(l)
    ensures forall i :: 0 <= i < 6 ==> !NearEdge(l, Notch, i)
  {
    forall i | 0 <= i < 6
      ensures !NearEdge(l, Notch, i)
    {
      if i == 0 { LShapeEdge0(l); }
      else if i == 1 { LShapeEdge1(l); }
      else if i == 2 { LShapeEdge2(l); }
      else if i == 3 { LShapeEdge3(l); }
      else if i == 4 { LShapeEdge4(l); }
      else { LShapeEdge5(l); }
    }
  }

  /** On a hexagon, edge 1 is the first nearest edge when it is strictly nearer than edge 0 and no farther than the rest. */
  lemma SecondEdgeFirstNearest(poly: seq<Point>, pos: Point)
    requires |poly| == 6
    requires EdgeDistance(poly, pos, 0) > EdgeDistance(poly, pos, 1)
    requires EdgeDistance(poly, pos, 1) <= EdgeDistance(poly, pos, 2)
    requires EdgeDistance(poly, pos, 1) <= EdgeDistance(poly, pos, 3)
    requires EdgeDistance(poly, pos, 1) <= EdgeDistance(poly, pos, 4)
    requires EdgeDistance(poly, pos, 1) <= EdgeDistance(poly, pos, 5)
    ensures IsFirstNearestEdge(poly, pos, 1)
  {
  }

  /** Edge 1 is as near the notch point as every edge, and edge 0 before it is strictly farther. */
  lemma NotchNearestEdge(l: seq<Point>)
    requires IsLShape(l)
    ensures IsFirstNearestEdge(l, Notch, 1)
  {
    LShapeEdge0(l); LShapeEdge1(l); LShapeEdge2(l);
    LShapeEdge3(l); LShapeEdge4(l); LShapeEdge5(l);
    SecondEdgeFirstNearest(l, Notch);
  }

  /** No edge of the L-shape crosses the notch point's horizontal ray, so its winding number is zero. */
  lemma NotchWinding(l: seq<Point>)
    requires IsLShape(l)
    ensures WindingNumber(l, Notch, 6) == 0
  {
    assert WindingNumber(l, Notch, 1) == 0;
    assert WindingNumber(l, Notch, 2) == 0;
    assert WindingNumber(l, Notch, 3) == 0;
    assert WindingNumber(l, Notch, 4) == 0;
    assert WindingNumber(l, Notch, 5) == 0;
    assert 6 % 6 == 0;
  }

  /** The notch point is neither near an edge nor wound around: it is outside. */
  lemma NotchOutside(l: seq<Point>)
    requires IsLShape(l)
    ensures !InPolygon(l, Notch)
  {
    NotchFarFromEdges(l);
    NotchWinding(l);
  }

  /** Edges 1 and 2 are equally near the notch point but project it onto different points. */
  lemma NotchTie(l: seq<Point>)
    requires IsLShape(l)
    ensures EdgeDistance(l, Notch, 1) == EdgeDistance(l, Notch, 2)
    ensures EdgeProjection(l, Notch, 1) != EdgeProjection(l, Notch, 2)
  {
    LShapeEdge1(l);
    LShapeEdge2(l);
  }

  /** The strict comparison keeps the first nearest edge: the answer is edge 1's projection. */
  lemma NotchAnswer(l: seq<Point>)
    requires IsLShape(l)
    ensures ClosestPoint(l, Notch) == Success(Point(400.0, 150.0))
  {
    NotchOutside(l);
    NotchNearestEdge(l);
    LShapeEdge1(l);
    ClosestPointOutside(l, Notch, 1);
  }
}
