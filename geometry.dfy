/**
 * Geometry primitives of the perimeter-product pipeline: points, segments,
 * the orientation test, the proper-crossing test and the intersection point
 * of two lines (perimeterProduct.py, lines 43-92).
 *
 * Coordinates are exact reals. The source works on floats and rounds the
 * computed intersection point; that rounding is a parameter of the callers
 * (see Arrangement.SplitStep), never part of these definitions.
 */
module Geometry {

  /** A point is an (x, y) pair; equality is tuple equality. */
  type Point = (real, real)

  /** A segment is an ordered pair of points, so (a, b) and (b, a) differ. */
  type Segment = (Point, Point)

  datatype Option<T> = None | Some(value: T)

  function Reverse(s: Segment): Segment {
    (s.1, s.0)
  }

  // ---------------------------------------------------------------------
  // Orientation
  // ---------------------------------------------------------------------

  /** The value `val` that the orientation test takes the sign of. */
  function Cross(p1: Point, p2: Point, p3: Point): real {
    (p2.1 - p1.1) * (p3.0 - p2.0) - (p2.0 - p1.0) * (p3.1 - p2.1)
  }

  /** 0 when collinear, 1 when clockwise, 2 when counterclockwise. */
  function Orientation(p1: Point, p2: Point, p3: Point): (o: int)
    ensures 0 <= o <= 2
    ensures o == 0 <==> Cross(p1, p2, p3) == 0.0
    ensures o == 1 <==> Cross(p1, p2, p3) > 0.0
    ensures o == 2 <==> Cross(p1, p2, p3) < 0.0
  {
    var v := Cross(p1, p2, p3);
    if v == 0.0 then 0 else if v > 0.0 then 1 else 2
  }

  /** Exchanges clockwise and counterclockwise, keeps collinear. */
  function Mirror(o: int): int {
    if o == 1 then 2 else if o == 2 then 1 else o
  }

  /** Traversing three points in the opposite order negates the cross value. */
  lemma CrossReversed(p1: Point, p2: Point, p3: Point)
    ensures Cross(p3, p2, p1) == -Cross(p1, p2, p3)
  {
  }

  /** Starting the same triangle at another corner keeps the cross value. */
  lemma CrossRotated(p1: Point, p2: Point, p3: Point)
    ensures Cross(p2, p3, p1) == Cross(p1, p2, p3)
  {
  }

  /** Reversing the order of the three points swaps clockwise and counterclockwise. */
  lemma OrientationReversed(p1: Point, p2: Point, p3: Point)
    ensures Orientation(p3, p2, p1) == Mirror(Orientation(p1, p2, p3))
  {
    CrossReversed(p1, p2, p3);
  }

  /** Rotating the three points keeps the orientation. */
  lemma OrientationRotated(p1: Point, p2: Point, p3: Point)
    ensures Orientation(p2, p3, p1) == Orientation(p1, p2, p3)
  {
    CrossRotated(p1, p2, p3);
  }

  /** Exchanging the first two points swaps clockwise and counterclockwise. */
  lemma OrientationBaseSwapped(p1: Point, p2: Point, q: Point)
    ensures Orientation(p2, p1, q) == Mirror(Orientation(p1, p2, q))
  {
    assert Cross(p2, p1, q) == -Cross(p1, p2, q);
  }

  // ---------------------------------------------------------------------
  // Proper crossing
  // ---------------------------------------------------------------------

  predicate SharesEndpoint(s1: Segment, s2: Segment) {
    s1.0 == s2.0 || s1.0 == s2.1 || s1.1 == s2.0 || s1.1 == s2.1
  }

  /**
   * The four-orientation crossing test; false as soon as the two segments
   * share an endpoint.
   */
  function Intersects(s1: Segment, s2: Segment): (b: bool)
    ensures SharesEndpoint(s1, s2) ==> !b
    ensures b ==> s1.0 != s1.1 && s2.0 != s2.1
    ensures b <==> !SharesEndpoint(s1, s2) && Straddles(s1, s2) && Straddles(s2, s1)
  {
    if SharesEndpoint(s1, s2) then false
    else
      var o1 := Orientation(s1.0, s1.1, s2.0);
      var o2 := Orientation(s1.0, s1.1, s2.1);
      var o3 := Orientation(s2.0, s2.1, s1.0);
      var o4 := Orientation(s2.0, s2.1, s1.1);
      o1 != o2 && o3 != o4
  }

  /**
   * The endpoints of `t` are not strictly on one side of the line through
   * `s`, and not both on it: crossing stated without orientation codes.
   */
  predicate Straddles(s: Segment, t: Segment) {
    var c1 := Cross(s.0, s.1, t.0);
    var c2 := Cross(s.0, s.1, t.1);
    !(c1 > 0.0 && c2 > 0.0) && !(c1 < 0.0 && c2 < 0.0) && !(c1 == 0.0 && c2 == 0.0)
  }

  /** The crossing test does not depend on the order of its arguments. */
  lemma IntersectsSymmetric(s1: Segment, s2: Segment)
    ensures Intersects(s1, s2) == Intersects(s2, s1)
  {
  }

  /** No segment crosses itself or its own reversal. */
  lemma IntersectsIrreflexive(s: Segment)
    ensures !Intersects(s, s)
    ensures !Intersects(s, Reverse(s))
  {
  }

  /** Reversing the direction of either segment does not change the test. */
  lemma IntersectsReversal(s1: Segment, s2: Segment)
    ensures Intersects(Reverse(s1), s2) == Intersects(s1, s2)
    ensures Intersects(s1, Reverse(s2)) == Intersects(s1, s2)
  {
    OrientationBaseSwapped(s1.0, s1.1, s2.0);
    OrientationBaseSwapped(s1.0, s1.1, s2.1);
    OrientationBaseSwapped(s2.0, s2.1, s1.0);
    OrientationBaseSwapped(s2.0, s2.1, s1.1);
  }

  // ---------------------------------------------------------------------
  // Intersection point of the two supporting lines
  // ---------------------------------------------------------------------

  /** Coefficient a of the implicit line a*x + b*y = c through `s`. */
  function LineA(s: Segment): real { s.1.1 - s.0.1 }

  /** Coefficient b of the implicit line a*x + b*y = c through `s`. */
  function LineB(s: Segment): real { s.0.0 - s.1.0 }

  /** Constant c of the implicit line a*x + b*y = c through `s`. */
  function LineC(s: Segment): real { LineA(s) * s.0.0 + LineB(s) * s.0.1 }

  /** `p` satisfies the implicit equation of the line through `s`. */
  predicate OnLine(s: Segment, p: Point) {
    LineA(s) * p.0 + LineB(s) * p.1 == LineC(s)
  }

  function Det(s1: Segment, s2: Segment): real {
    LineA(s1) * LineB(s2) - LineA(s2) * LineB(s1)
  }

  /** Exchanging the two segments negates the determinant. */
  lemma DetSwapped(s1: Segment, s2: Segment)
    ensures Det(s2, s1) == -Det(s1, s2)
  {
    var a1, b1, a2, b2 := LineA(s1), LineB(s1), LineA(s2), LineB(s2);
    assert Det(s1, s2) == a1 * b2 - a2 * b1;
    assert Det(s2, s1) == a2 * b1 - a1 * b2;
  }

  /** The line equation of `s` is the cross value of its endpoints and `p`. */
  lemma OnLineIsCollinear(s: Segment, p: Point)
    ensures LineA(s) * p.0 + LineB(s) * p.1 - LineC(s) == Cross(s.0, s.1, p)
    ensures OnLine(s, p) <==> Orientation(s.0, s.1, p) == 0
  {
  }

  /** Cramer's rule on the two line equations, without the final rounding. */
  function IntersectionPoint(s1: Segment, s2: Segment): (p: Point)
    requires Det(s1, s2) != 0.0
    ensures OnLine(s1, p) && OnLine(s2, p)
    ensures Orientation(s1.0, s1.1, p) == 0 && Orientation(s2.0, s2.1, p) == 0
  {
    var x := (LineB(s2) * LineC(s1) - LineB(s1) * LineC(s2)) / Det(s1, s2);
    var y := (LineA(s1) * LineC(s2) - LineA(s2) * LineC(s1)) / Det(s1, s2);
    CramerOnLines(s1, s2, x, y);
    (x, y)
  }

  /** The Cramer solution lies on both lines, collinear with both segments. */
  lemma CramerOnLines(s1: Segment, s2: Segment, x: real, y: real)
    requires Det(s1, s2) != 0.0
    requires x == (LineB(s2) * LineC(s1) - LineB(s1) * LineC(s2)) / Det(s1, s2)
    requires y == (LineA(s1) * LineC(s2) - LineA(s2) * LineC(s1)) / Det(s1, s2)
    ensures OnLine(s1, (x, y)) && OnLine(s2, (x, y))
    ensures Orientation(s1.0, s1.1, (x, y)) == 0 && Orientation(s2.0, s2.1, (x, y)) == 0
  {
    CramerSolves(LineA(s1), LineB(s1), LineC(s1), LineA(s2), LineB(s2), LineC(s2), Det(s1, s2), x, y);
    OnBothLines(s1, s2, (x, y));
  }

  /** A point on both lines is collinear with both segments. */
  lemma OnBothLines(s1: Segment, s2: Segment, p: Point)
    requires OnLine(s1, p) && OnLine(s2, p)
    ensures Orientation(s1.0, s1.1, p) == 0 && Orientation(s2.0, s2.1, p) == 0
  {
    OnLineIsCollinear(s1, p);
    OnLineIsCollinear(s2, p);
  }

  lemma CramerSolves(a1: real, b1: real, c1: real, a2: real, b2: real, c2: real, d: real, x: real, y: real)
    requires d == a1 * b2 - a2 * b1 && d != 0.0
    requires x == (b2 * c1 - b1 * c2) / d
    requires y == (a1 * c2 - a2 * c1) / d
    ensures a1 * x + b1 * y == c1
    ensures a2 * x + b2 * y == c2
  {
    assert x * d == b2 * c1 - b1 * c2;
    assert y * d == a1 * c2 - a2 * c1;
    assert (a1 * x + b1 * y) * d == c1 * d by {
      calc {
        (a1 * x + b1 * y) * d;
        a1 * (x * d) + b1 * (y * d);
        a1 * (b2 * c1 - b1 * c2) + b1 * (a1 * c2 - a2 * c1);
        c1 * d;
      }
    }
    assert (a2 * x + b2 * y) * d == c2 * d by {
      calc {
        (a2 * x + b2 * y) * d;
        a2 * (x * d) + b2 * (y * d);
        a2 * (b2 * c1 - b1 * c2) + b2 * (a1 * c2 - a2 * c1);
        c2 * d;
      }
    }
  }

  /** With a nonzero determinant the two lines meet in exactly one point. */
  lemma IntersectionPointUnique(s1: Segment, s2: Segment, q: Point)
    requires Det(s1, s2) != 0.0
    requires OnLine(s1, q) && OnLine(s2, q)
    ensures q == IntersectionPoint(s1, s2)
  {
    CommonPointUnique(s1, s2, q, IntersectionPoint(s1, s2));
  }

  /** Two points on both lines of a pair of non-parallel segments are the same point. */
  lemma CommonPointUnique(s1: Segment, s2: Segment, q: Point, p: Point)
    requires Det(s1, s2) != 0.0
    requires OnLine(s1, q) && OnLine(s2, q) && OnLine(s1, p) && OnLine(s2, p)
    ensures q == p
  {
    LineDifference(LineA(s1), LineB(s1), LineC(s1), q, p);
    LineDifference(LineA(s2), LineB(s2), LineC(s2), q, p);
    OnlyZeroSolution(LineA(s1), LineB(s1), LineA(s2), LineB(s2), q.0 - p.0, q.1 - p.1);
  }

  /** Two points on the line a*x + b*y = c differ by a solution of a*x + b*y = 0. */
  lemma LineDifference(a: real, b: real, c: real, q: Point, p: Point)
    requires a * q.0 + b * q.1 == c && a * p.0 + b * p.1 == c
    ensures a * (q.0 - p.0) + b * (q.1 - p.1) == 0.0
  {
    assert a * (q.0 - p.0) + b * (q.1 - p.1) == (a * q.0 + b * q.1) - (a * p.0 + b * p.1);
  }

  /** With a nonzero determinant the homogeneous system has only the zero solution. */
  lemma OnlyZeroSolution(a1: real, b1: real, a2: real, b2: real, dx: real, dy: real)
    requires a1 * dx + b1 * dy == 0.0 && a2 * dx + b2 * dy == 0.0
    requires a1 * b2 - a2 * b1 != 0.0
    ensures dx == 0.0 && dy == 0.0
  {
    assert (a1 * b2 - a2 * b1) * dx == 0.0 by {
      calc {
        (a1 * b2 - a2 * b1) * dx;
        b2 * (a1 * dx + b1 * dy) - b1 * (a2 * dx + b2 * dy);
        0.0;
      }
    }
    assert (a1 * b2 - a2 * b1) * dy == 0.0 by {
      calc {
        (a1 * b2 - a2 * b1) * dy;
        a1 * (a2 * dx + b2 * dy) - a2 * (a1 * dx + b1 * dy);
        0.0;
      }
    }
  }

  /**
   * Moving the probe point along the direction of `t` changes the cross value
   * against `s` by the determinant: the two endpoints of a segment parallel to
   * `s` get the same orientation.
   */
  lemma CrossAlong(s: Segment, t: Segment)
    ensures Cross(s.0, s.1, t.1) - Cross(s.0, s.1, t.0) == -Det(s, t)
  {
  }

  /** Two segments that properly cross do not lie on parallel lines. */
  lemma IntersectsNotParallel(s1: Segment, s2: Segment)
    requires Intersects(s1, s2)
    ensures Det(s1, s2) != 0.0
  {
    if Det(s1, s2) == 0.0 {
      CrossAlong(s1, s2);
      assert false;
    }
  }

  /** The point of `s` at parameter `t`: `s.0` at 0, `s.1` at 1. */
  function Lerp(s: Segment, t: real): Point {
    (s.0.0 + t * (s.1.0 - s.0.0), s.0.1 + t * (s.1.1 - s.0.1))
  }

  /** `p` lies on the closed segment `s` (endpoints included). */
  ghost predicate OnSegment(s: Segment, p: Point) {
    exists t :: 0.0 <= t <= 1.0 && p == Lerp(s, t)
  }

  /** The cross value against a fixed line is affine along any segment. */
  lemma CrossAffine(a: Point, b: Point, s: Segment, t: real)
    ensures Cross(a, b, Lerp(s, t)) == (1.0 - t) * Cross(a, b, s.0) + t * Cross(a, b, s.1)
  {
  }

  /**
   * When one segment straddles the line of another, the line meets it at the
   * parameter c1 / (c1 - c2) of the two cross values of its endpoints.
   */
  lemma StraddleMeetsLine(s: Segment, t: Segment) returns (u: real)
    requires Straddles(s, t)
    ensures 0.0 <= u <= 1.0
    ensures Orientation(s.0, s.1, Lerp(t, u)) == 0
  {
    var c1 := Cross(s.0, s.1, t.0);
    var c2 := Cross(s.0, s.1, t.1);
    assert c1 != c2;
    u := c1 / (c1 - c2);
    assert u * (c1 - c2) == c1;
    if c1 < 0.0 {
      assert c2 >= 0.0;
    } else if c1 > 0.0 {
      assert c2 <= 0.0;
    }
    CrossAffine(s.0, s.1, t, u);
    assert (1.0 - u) * c1 + u * c2 == c1 - u * (c1 - c2);
  }

  lemma LerpOnOwnLine(s: Segment, t: real)
    ensures Orientation(s.0, s.1, Lerp(s, t)) == 0
  {
    CrossAffine(s.0, s.1, s, t);
    assert Cross(s.0, s.1, s.0) == 0.0;
    assert Cross(s.0, s.1, s.1) == 0.0;
  }

  /**
   * A crossing found by the four-orientation test is a real one: the
   * intersection point of the two lines lies on both closed segments.
   */
  lemma IntersectionOnBothSegments(s1: Segment, s2: Segment)
    requires Intersects(s1, s2)
    ensures Det(s1, s2) != 0.0
    ensures OnSegment(s1, IntersectionPoint(s1, s2))
    ensures OnSegment(s2, IntersectionPoint(s1, s2))
  {
    IntersectsNotParallel(s1, s2);
    var p := IntersectionPoint(s1, s2);
    var u1 := StraddleMeetsLine(s2, s1);
    LerpOnOwnLine(s1, u1);
    OnLineIsCollinear(s1, Lerp(s1, u1));
    OnLineIsCollinear(s2, Lerp(s1, u1));
    IntersectionPointUnique(s1, s2, Lerp(s1, u1));
    var u2 := StraddleMeetsLine(s1, s2);
    LerpOnOwnLine(s2, u2);
    OnLineIsCollinear(s1, Lerp(s2, u2));
    OnLineIsCollinear(s2, Lerp(s2, u2));
    IntersectionPointUnique(s1, s2, Lerp(s2, u2));
  }

  /**
   * A non-parallel segment `t` whose line meets the line of `s` at a point of
   * `t` straddles the line of `s`.
   */
  lemma StraddlesAtMeeting(s: Segment, t: Segment, u: real)
    requires Det(s, t) != 0.0 && 0.0 <= u <= 1.0
    requires Cross(s.0, s.1, Lerp(t, u)) == 0.0
    ensures Straddles(s, t)
  {
    var c1, c2 := Cross(s.0, s.1, t.0), Cross(s.0, s.1, t.1);
    CrossAffine(s.0, s.1, t, u);
    CrossAlong(s, t);
    ConvexSign(c1, c2, u);
  }

  /** A convex combination of two numbers of one strict sign has that sign. */
  lemma ConvexSign(c1: real, c2: real, u: real)
    requires 0.0 <= u <= 1.0
    ensures c1 > 0.0 && c2 > 0.0 ==> (1.0 - u) * c1 + u * c2 > 0.0
    ensures c1 < 0.0 && c2 < 0.0 ==> (1.0 - u) * c1 + u * c2 < 0.0
  {
    if u < 1.0 {
      assert c1 > 0.0 ==> (1.0 - u) * c1 > 0.0;
      assert c1 < 0.0 ==> (1.0 - u) * c1 < 0.0;
      assert c2 > 0.0 ==> u * c2 >= 0.0;
      assert c2 < 0.0 ==> u * c2 <= 0.0;
    } else {
      assert (1.0 - u) * c1 + u * c2 == c2;
    }
  }

  /**
   * The converse of IntersectionOnBothSegments: two non-parallel segments
   * without a shared endpoint that have a common point pass the crossing
   * test. Together they say the test holds exactly when the segments are not
   * parallel and meet at a point that is not a shared endpoint.
   */
  lemma IntersectsComplete(s1: Segment, s2: Segment, q: Point)
    requires Det(s1, s2) != 0.0 && !SharesEndpoint(s1, s2)
    requires OnSegment(s1, q) && OnSegment(s2, q)
    ensures Intersects(s1, s2)
  {
    var t1 :| 0.0 <= t1 <= 1.0 && q == Lerp(s1, t1);
    var t2 :| 0.0 <= t2 <= 1.0 && q == Lerp(s2, t2);
    LerpOnOwnLine(s1, t1);
    LerpOnOwnLine(s2, t2);
    StraddlesAtMeeting(s1, s2, t2);
    DetSwapped(s1, s2);
    StraddlesAtMeeting(s2, s1, t1);
  }
}
