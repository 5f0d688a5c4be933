/**
 * Closest point of a polygon (convex or concave) to a query point.
 *
 * Coordinates are exact reals. The computation uses only `+ - * /` and
 * comparisons (squared distances, no square root), so every branch of the
 * TypeScript code is reproduced exactly; floating-point rounding is not modelled.
 */
module Polygon {
  import opened Wrappers

  /** A point of the plane. */
  datatype Point = Point(x: real, y: real)

  /** The single tolerance (1e-10), compared with SQUARED lengths and SQUARED distances. */
  const EPSILON: real := 0.0000000001

  /** The error thrown by `ClosestPointInPolygon` for fewer than three vertices. */
  datatype PolygonError = TooFewVertices

  // ---------------------------------------------------------------------------
  // Numeric helpers
  // ---------------------------------------------------------------------------

  /** Squared Euclidean distance: never negative, and zero from a point to itself. */
  function DistanceSquared(p1: Point, p2: Point): (r: real)
    ensures r >= 0.0
    ensures p1 == p2 ==> r == 0.0
  {
    var dx := p1.x - p2.x;
    var dy := p1.y - p2.y;
    SquarePositive(dx);
    SquarePositive(dy);
    dx * dx + dy * dy
  }

  /** A square is positive unless its root is zero. */
  lemma SquarePositive(v: real)
    ensures v * v >= 0.0
    ensures v != 0.0 ==> v * v > 0.0
  {
    if v < 0.0 {
      assert v * v == (-v) * (-v);
    }
  }

  /**
   * Cross product of `b - a` and `p - a`: positive when `p` is left of the
   * directed line from `a` to `b`, zero on it, negative right of it.
   */
  function IsLeft(a: Point, b: Point, p: Point): real {
    (b.x - a.x) * (p.y - a.y) - (p.x - a.x) * (b.y - a.y)
  }

  /** The point at parameter `t` along the segment from `a` to `b`. */
  function Lerp(a: Point, b: Point, t: real): Point {
    Point(a.x + t * (b.x - a.x), a.y + t * (b.y - a.y))
  }

  /** `q` lies on the closed segment from `a` to `b`. */
  ghost predicate OnSegment(a: Point, b: Point, q: Point) {
    exists t: real :: 0.0 <= t <= 1.0 && q == Lerp(a, b, t)
  }

  /** `q` lies on the infinite line through `a` and `b`. */
  ghost predicate OnLine(a: Point, b: Point, q: Point) {
    exists t: real :: q == Lerp(a, b, t)
  }

  /** Every point of the line through `a` and `b` has a zero cross product. */
  lemma {:induction false} IsLeftOnLine(a: Point, b: Point, t: real)
    ensures IsLeft(a, b, Lerp(a, b, t)) == 0.0
  {
    var dx, dy := b.x - a.x, b.y - a.y;
    var p := Lerp(a, b, t);
    assert p.x - a.x == t * dx && p.y - a.y == t * dy;
    assert dx * (t * dy) == (t * dx) * dy;
  }

  /** For a proper segment, a zero cross product means `p` is on the line. */
  lemma {:induction false} IsLeftZeroIffOnLine(a: Point, b: Point, p: Point)
    requires !Degenerate(a, b)
    ensures IsLeft(a, b, p) == 0.0 <==> OnLine(a, b, p)
  {
    var dx, dy := b.x - a.x, b.y - a.y;
    var wx, wy := p.x - a.x, p.y - a.y;
    var len := SegmentLengthSquared(a, b);
    assert len > 0.0;
    if IsLeft(a, b, p) == 0.0 {
      assert dx * wy == wx * dy;
      var t := (wx * dx + wy * dy) / len;
      assert t * len == wx * dx + wy * dy;
      assert t * dx * len == wx * len by {
        calc {
          t * dx * len;
          (wx * dx + wy * dy) * dx;
          wx * dx * dx + (dx * wy) * dy;
          wx * dx * dx + (wx * dy) * dy;
          wx * len;
        }
      }
      assert t * dy * len == wy * len by {
        calc {
          t * dy * len;
          (wx * dx + wy * dy) * dy;
          (wx * dy) * dx + wy * dy * dy;
          (dx * wy) * dx + wy * dy * dy;
          wy * len;
        }
      }
      assert p == Lerp(a, b, t);
    }
    if OnLine(a, b, p) {
      var t :| p == Lerp(a, b, t);
      IsLeftOnLine(a, b, t);
    }
  }

  /** The point reached from `a` by `s` along `b - a` and `u` along its left normal. */
  function LeftOffset(a: Point, b: Point, s: real, u: real): Point {
    Point(a.x + s * (b.x - a.x) - u * (b.y - a.y), a.y + s * (b.y - a.y) + u * (b.x - a.x))
  }

  /** The cross product of an offset point is its normal coordinate times the squared length. */
  lemma {:induction false} IsLeftOfOffset(a: Point, b: Point, s: real, u: real)
    ensures IsLeft(a, b, LeftOffset(a, b, s, u)) == u * SegmentLengthSquared(a, b)
  {
    var dx, dy := b.x - a.x, b.y - a.y;
    var q := LeftOffset(a, b, s, u);
    assert q.x - a.x == s * dx - u * dy && q.y - a.y == s * dy + u * dx;
    assert dx * (s * dy + u * dx) - (s * dx - u * dy) * dy == u * (dx * dx + dy * dy);
  }

  /** Every point is an offset point of a proper segment, with normal coordinate `IsLeft / length^2`. */
  lemma {:induction false} OffsetCoordinates(a: Point, b: Point, p: Point)
    requires !Degenerate(a, b)
    ensures p == LeftOffset(a, b, RawParameter(a, b, p), IsLeft(a, b, p) / SegmentLengthSquared(a, b))
  {
    var dx, dy := b.x - a.x, b.y - a.y;
    var wx, wy := p.x - a.x, p.y - a.y;
    var len := SegmentLengthSquared(a, b);
    var s := RawParameter(a, b, p);
    var u := IsLeft(a, b, p) / len;
    assert s * len == wx * dx + wy * dy;
    assert u * len == dx * wy - wx * dy;
    assert (s * dx - u * dy) * len == wx * len by {
      calc {
        (s * dx - u * dy) * len;
        (s * len) * dx - (u * len) * dy;
        (wx * dx + wy * dy) * dx - (dx * wy - wx * dy) * dy;
        wx * len;
      }
    }
    assert (s * dy + u * dx) * len == wy * len by {
      calc {
        (s * dy + u * dx) * len;
        (s * len) * dy + (u * len) * dx;
        (wx * dx + wy * dy) * dy + (dx * wy - wx * dy) * dx;
        wy * len;
      }
    }
  }

  /**
   * On a proper segment the sign of the cross product is the side: positive
   * exactly for points on the left of the directed line (a positive normal
   * coordinate), negative exactly for points on its right.
   */
  lemma {:induction false} IsLeftSign(a: Point, b: Point, p: Point)
    requires !Degenerate(a, b)
    ensures var u := IsLeft(a, b, p) / SegmentLengthSquared(a, b);
            && p == LeftOffset(a, b, RawParameter(a, b, p), u)
            && (IsLeft(a, b, p) > 0.0 <==> u > 0.0)
            && (IsLeft(a, b, p) < 0.0 <==> u < 0.0)
  {
    OffsetCoordinates(a, b, p);
    var len := SegmentLengthSquared(a, b);
    var u := IsLeft(a, b, p) / len;
    assert len > 0.0;
    assert u * len == IsLeft(a, b, p);
    if u > 0.0 { MulPositive(u, len); }
    if u < 0.0 { MulPositive(-u, len); }
  }

  /** A point offset to the left of a proper segment has a positive cross product, one offset to the right a negative one. */
  lemma {:induction false} IsLeftOfOffsetSign(a: Point, b: Point, s: real, u: real)
    requires !Degenerate(a, b)
    ensures u > 0.0 ==> IsLeft(a, b, LeftOffset(a, b, s, u)) > 0.0
    ensures u < 0.0 ==> IsLeft(a, b, LeftOffset(a, b, s, u)) < 0.0
  {
    IsLeftOfOffset(a, b, s, u);
    var len := SegmentLengthSquared(a, b);
    assert len > 0.0;
    if u > 0.0 { MulPositive(u, len); }
    if u < 0.0 { MulPositive(-u, len); }
  }

  /** A product of two positive reals is positive. */
  lemma MulPositive(x: real, y: real)
    requires x > 0.0 && y > 0.0
    ensures x * y > 0.0
  {
  }

  // ---------------------------------------------------------------------------
  // Segment projector
  // ---------------------------------------------------------------------------

  /** Squared length of the segment from `a` to `b`. */
  function SegmentLengthSquared(a: Point, b: Point): (r: real)
    ensures r == DistanceSquared(a, b)
  {
    var dx := b.x - a.x;
    var dy := b.y - a.y;
    dx * dx + dy * dy
  }

  /** A segment whose squared length is below the tolerance is treated as the single point `a`. */
  predicate Degenerate(a: Point, b: Point) {
    SegmentLengthSquared(a, b) < EPSILON
  }

  /** `v` clamped to the unit interval, the upper bound applied first. */
  function Clamp01(v: real): (t: real)
    ensures 0.0 <= t <= 1.0
    ensures v <= 0.0 ==> t == 0.0
    ensures v >= 1.0 ==> t == 1.0
    ensures 0.0 <= v <= 1.0 ==> t == v
  {
    var upper := if 1.0 < v then 1.0 else v;
    if 0.0 > upper then 0.0 else upper
  }

  /** Dot product of `p - a` with the segment's direction `b - a`. */
  function Dot(a: Point, b: Point, p: Point): real {
    (p.x - a.x) * (b.x - a.x) + (p.y - a.y) * (b.y - a.y)
  }

  /** Unclamped parameter of the foot of the perpendicular from `p`. */
  function RawParameter(a: Point, b: Point, p: Point): real
    requires !Degenerate(a, b)
  {
    Dot(a, b, p) / SegmentLengthSquared(a, b)
  }

  /** Closest point to `p` on the segment from `a` to `b` (clamped projection). */
  function ClosestPointOnSegment(a: Point, b: Point, p: Point): (r: Point)
    ensures Degenerate(a, b) ==> r == a
    ensures !Degenerate(a, b) && RawParameter(a, b, p) <= 0.0 ==> r == a
    ensures !Degenerate(a, b) && RawParameter(a, b, p) >= 1.0 ==> r == b
    ensures !Degenerate(a, b) && 0.0 <= RawParameter(a, b, p) <= 1.0 ==>
              r == Lerp(a, b, RawParameter(a, b, p))
  {
    if SegmentLengthSquared(a, b) < EPSILON then
      assert a == Lerp(a, b, 0.0);
      Point(a.x, a.y)
    else
      var t := Clamp01(RawParameter(a, b, p));
      assert t == 1.0 ==> Lerp(a, b, t) == b;
      assert t == 0.0 ==> Lerp(a, b, t) == a;
      Lerp(a, b, t)
  }

  /** The projection lies on the segment. */
  lemma ClosestPointOnSegmentOnSegment(a: Point, b: Point, p: Point)
    ensures OnSegment(a, b, ClosestPointOnSegment(a, b, p))
  {
    if Degenerate(a, b) {
      assert a == Lerp(a, b, 0.0);
    } else {
      var t := Clamp01(RawParameter(a, b, p));
      assert ClosestPointOnSegment(a, b, p) == Lerp(a, b, t);
    }
  }

  /** The raw parameter of a point of the segment's line is its own parameter. */
  lemma {:induction false} RawParameterOfLerp(a: Point, b: Point, t: real)
    requires !Degenerate(a, b)
    ensures RawParameter(a, b, Lerp(a, b, t)) == t
  {
    var dx, dy := b.x - a.x, b.y - a.y;
    var len := SegmentLengthSquared(a, b);
    var q := Lerp(a, b, t);
    assert q.x - a.x == t * dx && q.y - a.y == t * dy;
    assert (t * dx) * dx + (t * dy) * dy == t * len;
  }

  /** Projecting a projection again does not move it. */
  lemma {:induction false} ClosestPointOnSegmentIdempotent(a: Point, b: Point, p: Point)
    ensures ClosestPointOnSegment(a, b, ClosestPointOnSegment(a, b, p)) == ClosestPointOnSegment(a, b, p)
  {
    if !Degenerate(a, b) {
      var q := ClosestPointOnSegment(a, b, p);
      ClosestPointOnSegmentOnSegment(a, b, p);
      var t :| 0.0 <= t <= 1.0 && q == Lerp(a, b, t);
      RawParameterOfLerp(a, b, t);
      if t == 0.0 {
        assert ClosestPointOnSegment(a, b, q) == Lerp(a, b, 0.0);
      }
    }
  }

  /** The quadratic in `s` that gives the squared distance from `p` to `Lerp(a, b, s)`. */
  function DistanceQuadratic(a: Point, b: Point, p: Point, s: real): real {
    SegmentLengthSquared(a, b) * s * s - 2.0 * s * Dot(a, b, p) + DistanceSquared(p, a)
  }

  /** Squared distance from `p` to the point at parameter `s`, as a quadratic in `s`. */
  lemma {:induction false} DistanceAlongSegment(a: Point, b: Point, p: Point, s: real)
    ensures DistanceSquared(Lerp(a, b, s), p) == DistanceQuadratic(a, b, p, s)
  {
    var dx, dy := b.x - a.x, b.y - a.y;
    var wx, wy := p.x - a.x, p.y - a.y;
    var q := Lerp(a, b, s);
    assert q.x - p.x == s * dx - wx;
    assert q.y - p.y == s * dy - wy;
    assert (s * dx - wx) * (s * dx - wx) == dx * dx * s * s - 2.0 * s * (wx * dx) + wx * wx;
    assert (s * dy - wy) * (s * dy - wy) == dy * dy * s * s - 2.0 * s * (wy * dy) + wy * wy;
  }

  /** Reducing a number below the modulus leaves it unchanged. */
  lemma ModSmall(i: int, n: int)
    requires 0 <= i < n
    ensures i % n == i
  {
  }

  /** A product of two non-negative reals is non-negative. */
  lemma MulNonNegative(x: real, y: real)
    requires x >= 0.0 && y >= 0.0
    ensures x * y >= 0.0
  {
  }

  /** Dividing by a nonzero real and multiplying back is the identity. */
  lemma DivMulCancel(x: real, y: real)
    requires y != 0.0
    ensures (x / y) * y == x
  {
  }

  /**
   * The quadratic `len * s * s - 2 * s * dot` with `dot == u * len` and
   * `len > 0` takes its least value over `[0, 1]` at `Clamp01(u)`.
   */
  lemma {:induction false} ClampedMinimum(len: real, dot: real, u: real, s: real, t: real)
    requires len > 0.0 && u == dot / len
    requires 0.0 <= s <= 1.0
    requires u <= 0.0 ==> t == 0.0
    requires u >= 1.0 ==> t == 1.0
    requires 0.0 <= u <= 1.0 ==> t == u
    ensures len * t * t - 2.0 * t * dot <= len * s * s - 2.0 * s * dot
  {
    DivMulCancel(dot, len);
    var f := (s - t) * (s + t - 2.0 * u);
    assert f >= 0.0 by {
      if u <= 0.0 {
        MulNonNegative(s, s - 2.0 * u);
      } else if u >= 1.0 {
        MulNonNegative(1.0 - s, 2.0 * u - 1.0 - s);
      } else {
        SquarePositive(s - u);
      }
    }
    MulNonNegative(len, f);
    assert len * f == (len * s * s - 2.0 * s * dot) - (len * t * t - 2.0 * t * dot);
  }

  /** On a proper segment the projection is the point at the clamped raw parameter. */
  lemma ClosestPointOnProperSegment(a: Point, b: Point, p: Point)
    requires !Degenerate(a, b)
    ensures ClosestPointOnSegment(a, b, p) == Lerp(a, b, Clamp01(RawParameter(a, b, p)))
  {
  }

  /** The clamped raw parameter minimises the part of the distance quadratic that varies. */
  lemma {:induction false} ClampedParameterMinimizes(a: Point, b: Point, p: Point, s: real, t: real)
    requires !Degenerate(a, b)
    requires 0.0 <= s <= 1.0
    requires t == Clamp01(RawParameter(a, b, p))
    ensures DistanceQuadratic(a, b, p, t) <= DistanceQuadratic(a, b, p, s)
  {
    ClampedMinimum(SegmentLengthSquared(a, b), Dot(a, b, p), RawParameter(a, b, p), s, t);
  }

  /** On a proper segment the clamped projection is the segment's nearest point to `p`. */
  lemma {:induction false} ClosestPointOnSegmentIsNearest(a: Point, b: Point, p: Point, s: real)
    requires !Degenerate(a, b)
    requires 0.0 <= s <= 1.0
    ensures DistanceSquared(ClosestPointOnSegment(a, b, p), p) <= DistanceSquared(Lerp(a, b, s), p)
  {
    var t := Clamp01(RawParameter(a, b, p));
    ClosestPointOnProperSegment(a, b, p);
    ClampedParameterMinimizes(a, b, p, s, t);
    DistanceAlongSegment(a, b, p, s);
    DistanceAlongSegment(a, b, p, t);
  }

  // ---------------------------------------------------------------------------
  // Edges
  // ---------------------------------------------------------------------------

  /** Projection of `p` onto edge `i`, from vertex `i` to vertex `(i + 1) % n`. */
  function EdgeProjection(poly: seq<Point>, p: Point, i: nat): Point
    requires i < |poly|
  {
    ClosestPointOnSegment(poly[i], poly[(i + 1) % |poly|], p)
  }

  /** Squared distance from `p` to its projection onto edge `i`. */
  function EdgeDistance(poly: seq<Point>, p: Point, i: nat): (r: real)
    requires i < |poly|
    ensures r >= 0.0
  {
    DistanceSquared(EdgeProjection(poly, p, i), p)
  }

  /** The squared distance from `p` to edge `i` is below the tolerance. */
  predicate NearEdge(poly: seq<Point>, p: Point, i: nat)
    requires i < |poly|
  {
    EdgeDistance(poly, p, i) < EPSILON
  }

  // ---------------------------------------------------------------------------
  // Membership classifier
  // ---------------------------------------------------------------------------

  /** What the directed edge from `a` to `b` adds to the winding number of `p`. */
  function WindingContribution(a: Point, b: Point, p: Point): (w: int)
    ensures -1 <= w <= 1
    ensures w == 1 <==> a.y <= p.y && b.y > p.y && IsLeft(a, b, p) > 0.0
    ensures w == -1 <==> a.y > p.y && b.y <= p.y && IsLeft(a, b, p) < 0.0
  {
    if a.y <= p.y then
      if b.y > p.y && IsLeft(a, b, p) > 0.0 then 1 else 0
    else
      if b.y <= p.y && IsLeft(a, b, p) < 0.0 then -1 else 0
  }

  /** Sum of the contributions of edges `0 .. k-1`. */
  function WindingNumber(poly: seq<Point>, p: Point, k: nat): (w: int)
    requires k <= |poly|
    ensures -(k as int) <= w <= k
  {
    if k == 0 then 0
    else WindingNumber(poly, p, k - 1) + WindingContribution(poly[k - 1], poly[k % |poly|], p)
  }

  /**
   * Inside or on the boundary: at least three vertices, and either some edge
   * has squared distance to `p` below the tolerance or the winding number over all edges is
   * nonzero.
   */
  predicate InPolygon(poly: seq<Point>, p: Point) {
    && |poly| >= 3
    && ((exists i :: 0 <= i < |poly| && NearEdge(poly, p, i))
        || WindingNumber(poly, p, |poly|) != 0)
  }

  /** Winding-number membership test with the boundary short-circuit. */
  method IsPointInPolygon(poly: seq<Point>, p: Point) returns (inside: bool)
    ensures inside == InPolygon(poly, p)
    ensures |poly| < 3 ==> !inside
    ensures |poly| >= 3 && (exists i :: 0 <= i < |poly| && NearEdge(poly, p, i)) ==> inside
    ensures (forall i :: 0 <= i < |poly| ==> !NearEdge(poly, p, i)) ==>
              (inside <==> |poly| >= 3 && WindingNumber(poly, p, |poly|) != 0)
  {
    var n := |poly|;
    if n < 3 {
      return false;
    }
    var windingNumber := 0;
    for i := 0 to n
      invariant windingNumber == WindingNumber(poly, p, i)
      invariant forall j :: 0 <= j < i ==> !NearEdge(poly, p, j)
    {
      var a := poly[i];
      var b := poly[(i + 1) % n];
      var closest := ClosestPointOnSegment(a, b, p);
      if DistanceSquared(closest, p) < EPSILON {
        assert NearEdge(poly, p, i);
        return true;
      }
      if a.y <= p.y {
        if b.y > p.y {
          if IsLeft(a, b, p) > 0.0 {
            windingNumber := windingNumber + 1;
          }
        }
      } else {
        if b.y <= p.y {
          if IsLeft(a, b, p) < 0.0 {
            windingNumber := windingNumber - 1;
          }
        }
      }
    }
    return windingNumber != 0;
  }

  // ---------------------------------------------------------------------------
  // Closest-point query
  // ---------------------------------------------------------------------------

  /** `k` is the first edge whose projection is nearest to `pos`. */
  predicate IsFirstNearestEdge(poly: seq<Point>, pos: Point, k: nat) {
    && k < |poly|
    && (forall i :: 0 <= i < |poly| ==> EdgeDistance(poly, pos, k) <= EdgeDistance(poly, pos, i))
    && (forall i :: 0 <= i < k ==> EdgeDistance(poly, pos, i) > EdgeDistance(poly, pos, k))
  }

  /** Index of the first minimum of `EdgeDistance` over edges `0 .. k-1`. */
  function FirstNearestEdge(poly: seq<Point>, pos: Point, k: nat): (j: nat)
    requires 1 <= k <= |poly|
    ensures j < k
    ensures forall i :: 0 <= i < k ==> EdgeDistance(poly, pos, j) <= EdgeDistance(poly, pos, i)
    ensures forall i :: 0 <= i < j ==> EdgeDistance(poly, pos, i) > EdgeDistance(poly, pos, j)
  {
    if k == 1 then 0
    else
      var j := FirstNearestEdge(poly, pos, k - 1);
      if EdgeDistance(poly, pos, k - 1) < EdgeDistance(poly, pos, j) then k - 1 else j
  }

  /** Extending the range by edge `k` moves the first minimum there only on a strict improvement. */
  lemma FirstNearestEdgeStep(poly: seq<Point>, pos: Point, k: nat)
    requires 1 <= k < |poly|
    ensures FirstNearestEdge(poly, pos, k + 1) ==
              if EdgeDistance(poly, pos, k) < EdgeDistance(poly, pos, FirstNearestEdge(poly, pos, k))
              then k else FirstNearestEdge(poly, pos, k)
  {
  }

  /** The first nearest edge over the whole polygon. */
  function NearestEdge(poly: seq<Point>, pos: Point): (k: nat)
    requires |poly| >= 1
    ensures IsFirstNearestEdge(poly, pos, k)
  {
    FirstNearestEdge(poly, pos, |poly|)
  }

  /** At most one edge is the first nearest one. */
  lemma FirstNearestEdgeUnique(poly: seq<Point>, pos: Point, k1: nat, k2: nat)
    requires IsFirstNearestEdge(poly, pos, k1) && IsFirstNearestEdge(poly, pos, k2)
    ensures k1 == k2
  {
    assert EdgeDistance(poly, pos, k1) == EdgeDistance(poly, pos, k2);
  }

  /**
   * What `closestPointInPolygon` returns: the error for fewer than three
   * vertices, the query point itself when it is inside or on the boundary,
   * and otherwise the projection onto the first nearest edge.
   */
  function ClosestPoint(poly: seq<Point>, pos: Point): (r: Result<Point, PolygonError>)
    ensures r.Failure? <==> |poly| < 3
    ensures r.Success? && InPolygon(poly, pos) ==> r.value == pos
    ensures r.Success? && !InPolygon(poly, pos) ==>
              exists k: nat :: IsFirstNearestEdge(poly, pos, k) && r.value == EdgeProjection(poly, pos, k)
  {
    if |poly| < 3 then Failure(TooFewVertices)
    else if InPolygon(poly, pos) then Success(pos)
    else
      var k := NearestEdge(poly, pos);
      Success(EdgeProjection(poly, pos, k))
  }

  /** The closest point inside or on the boundary of `poly` to `pos`. */
  method ClosestPointInPolygon(poly: seq<Point>, pos: Point) returns (result: Result<Point, PolygonError>)
    ensures result == ClosestPoint(poly, pos)
  {
    if |poly| < 3 {
      return Failure(TooFewVertices);
    }
    var inside := IsPointInPolygon(poly, pos);
    if inside {
      return Success(Point(pos.x, pos.y));
    }
    var closestPoint := ClosestPointOnSegment(poly[0], poly[1], pos);
    var minDistSquared := DistanceSquared(closestPoint, pos);
    var n := |poly|;
    ModSmall(1, n);
    assert closestPoint == EdgeProjection(poly, pos, 0);
    for i := 1 to n
      invariant closestPoint == EdgeProjection(poly, pos, FirstNearestEdge(poly, pos, i))
      invariant minDistSquared == EdgeDistance(poly, pos, FirstNearestEdge(poly, pos, i))
    {
      var a := poly[i];
      var b := poly[(i + 1) % n];
      var candidate := ClosestPointOnSegment(a, b, pos);
      var distSq := DistanceSquared(candidate, pos);
      assert candidate == EdgeProjection(poly, pos, i) && distSq == EdgeDistance(poly, pos, i);
      FirstNearestEdgeStep(poly, pos, i);
      if distSq < minDistSquared {
        minDistSquared := distSq;
        closestPoint := candidate;
      }
    }
    return Success(closestPoint);
  }

  // ---------------------------------------------------------------------------
  // Properties of the closest-point query
  // ---------------------------------------------------------------------------

  /** For an outside point the result is the projection onto the one first nearest edge. */
  lemma ClosestPointOutside(poly: seq<Point>, pos: Point, k: nat)
    requires |poly| >= 3 && !InPolygon(poly, pos)
    requires IsFirstNearestEdge(poly, pos, k)
    ensures ClosestPoint(poly, pos) == Success(EdgeProjection(poly, pos, k))
  {
    FirstNearestEdgeUnique(poly, pos, NearestEdge(poly, pos), k);
  }

  /** Every returned point is itself classified as inside or on the boundary. */
  lemma {:induction false} ClosestPointIsInPolygon(poly: seq<Point>, pos: Point)
    requires ClosestPoint(poly, pos).Success?
    ensures InPolygon(poly, ClosestPoint(poly, pos).value)
  {
    if !InPolygon(poly, pos) {
      var k := NearestEdge(poly, pos);
      var a, b := poly[k], poly[(k + 1) % |poly|];
      var q := EdgeProjection(poly, pos, k);
      ClosestPointOnSegmentIdempotent(a, b, pos);
      assert EdgeProjection(poly, q, k) == q;
      assert NearEdge(poly, q, k);
    }
  }

  /** Querying the returned point again returns it unchanged. */
  lemma {:induction false} ClosestPointIdempotent(poly: seq<Point>, pos: Point)
    requires ClosestPoint(poly, pos).Success?
    ensures ClosestPoint(poly, ClosestPoint(poly, pos).value) == ClosestPoint(poly, pos)
  {
    ClosestPointIsInPolygon(poly, pos);
  }

  /**
   * For an outside point the result is at least as near as every point of
   * every proper edge: it is the nearest point of the boundary.
   */
  lemma {:induction false} ClosestPointIsNearestBoundaryPoint(poly: seq<Point>, pos: Point, i: nat, s: real)
    requires |poly| >= 3 && !InPolygon(poly, pos)
    requires i < |poly| && !Degenerate(poly[i], poly[(i + 1) % |poly|])
    requires 0.0 <= s <= 1.0
    ensures DistanceSquared(ClosestPoint(poly, pos).value, pos) <=
              DistanceSquared(Lerp(poly[i], poly[(i + 1) % |poly|], s), pos)
  {
    var k := NearestEdge(poly, pos);
    assert EdgeDistance(poly, pos, k) <= EdgeDistance(poly, pos, i);
    ClosestPointOnSegmentIsNearest(poly[i], poly[(i + 1) % |poly|], pos, s);
  }
}
