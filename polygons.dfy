/** Polygon.cs: a Voronoi region with its vertex list, bounding box and
    neighbour slots, plus the orientation-based segment predicates and the
    even-odd ray-casting point-in-polygon test. */
module Polygons {
  import opened Basics

  // ---------------------------------------------------------------------
  // Orientation and segment predicates (static members of Polygon)
  // ---------------------------------------------------------------------

  /** Cross product of (p2 - p1) and (p3 - p1). */
  function Cross(p1: Point, p2: Point, p3: Point): real {
    (p2.x - p1.x) * (p3.y - p1.y) - (p3.x - p1.x) * (p2.y - p1.y)
  }

  /** Polygon.Orientation: 1 for clockwise (negative cross product), -1 for
      counter-clockwise (positive), 0 for collinear. */
  function Orientation(p1: Point, p2: Point, p3: Point): (r: int)
    ensures -1 <= r <= 1
    ensures r == 0 <==> Cross(p1, p2, p3) == 0.0
    ensures r == 1 <==> Cross(p1, p2, p3) < 0.0
  {
    var result := Cross(p1, p2, p3);
    if result > 0.0 then -1
    else if result < 0.0 then 1
    else 0
  }

  lemma OrientationSwap(p: Point, q: Point, r: Point)
    ensures Orientation(p, r, q) == -Orientation(p, q, r)
  {
    assert Cross(p, r, q) == -Cross(p, q, r);
  }

  lemma OrientationReverse(p: Point, q: Point, r: Point)
    ensures Orientation(q, p, r) == -Orientation(p, q, r)
  {
    assert Cross(q, p, r) == -Cross(p, q, r);
  }

  lemma OrientationRotate(p: Point, q: Point, r: Point)
    ensures Orientation(q, r, p) == Orientation(p, q, r)
  {
    assert Cross(q, r, p) == Cross(p, q, r);
  }

  /** Polygon.OnSegment: q lies in the axis-aligned box spanned by p and r,
      that is, between p and r on each axis. */
  predicate OnSegment(p: Point, q: Point, r: Point): (b: bool)
    ensures b <==> (p.x <= q.x <= r.x || r.x <= q.x <= p.x) && (p.y <= q.y <= r.y || r.y <= q.y <= p.y)
  {
    q.x <= Max(p.x, r.x) && q.x >= Min(p.x, r.x) &&
    q.y <= Max(p.y, r.y) && q.y >= Min(p.y, r.y)
  }

  lemma OnSegmentSymmetric(p: Point, q: Point, r: Point)
    ensures OnSegment(p, q, r) == OnSegment(r, q, p)
    ensures OnSegment(p, p, r) && OnSegment(p, r, r)
  {
  }

  /** c and d lie strictly on opposite sides of the line through a and b. */
  predicate Straddles(a: Point, b: Point, c: Point, d: Point) {
    (Cross(a, b, c) < 0.0 < Cross(a, b, d)) || (Cross(a, b, d) < 0.0 < Cross(a, b, c))
  }

  /** Polygon.DoIntersect: segments p1q1 and p2q2 meet (general orientation
      case, or one of the four collinear special cases). Two segments that
      properly cross, each straddling the other's line, are reported. */
  predicate DoIntersect(p1: Point, q1: Point, p2: Point, q2: Point): (b: bool)
    ensures Straddles(p1, q1, p2, q2) && Straddles(p2, q2, p1, q1) ==> b
  {
    var o1 := Orientation(p1, q1, p2);
    var o2 := Orientation(p1, q1, q2);
    var o3 := Orientation(p2, q2, p1);
    var o4 := Orientation(p2, q2, q1);
    || (o1 != o2 && o3 != o4)
    || (o1 == 0 && OnSegment(p1, p2, q1))
    || (o2 == 0 && OnSegment(p1, q2, q1))
    || (o3 == 0 && OnSegment(p2, p1, q2))
    || (o4 == 0 && OnSegment(p2, q1, q2))
  }

  lemma DoIntersectSymmetric(p1: Point, q1: Point, p2: Point, q2: Point)
    ensures DoIntersect(p1, q1, p2, q2) == DoIntersect(p2, q2, p1, q1)
  {
  }

  /** Reversing the first segment does not change the answer. */
  lemma DoIntersectReversed(p1: Point, q1: Point, p2: Point, q2: Point)
    ensures DoIntersect(q1, p1, p2, q2) == DoIntersect(p1, q1, p2, q2)
  {
    OrientationReverse(p1, q1, p2);
    OrientationReverse(p1, q1, q2);
    OnSegmentSymmetric(p1, p2, q1);
    OnSegmentSymmetric(p1, q2, q1);
    var o1, o2 := Orientation(p1, q1, p2), Orientation(p1, q1, q2);
    var o3, o4 := Orientation(p2, q2, p1), Orientation(p2, q2, q1);
    assert Orientation(q1, p1, p2) == -o1 && Orientation(q1, p1, q2) == -o2;
    assert (-o1 != -o2) == (o1 != o2);
  }

  /** Two segments with a common endpoint always intersect. */
  lemma DoIntersectSharedEndpoint(p1: Point, q1: Point, p2: Point, q2: Point)
    requires p1 == p2 || p1 == q2 || q1 == p2 || q1 == q2
    ensures DoIntersect(p1, q1, p2, q2)
  {
  }

  /** The point a fraction t of the way from a to b. */
  function Lerp(a: Point, b: Point, t: real): Point {
    Point(a.x + t * (b.x - a.x), a.y + t * (b.y - a.y))
  }

  /** q lies on the closed segment from a to b. */
  ghost predicate OnClosedSegment(q: Point, a: Point, b: Point) {
    exists t :: 0.0 <= t <= 1.0 && Lerp(a, b, t) == q
  }

  /** The closed segments ab and cd have a point in common. */
  ghost predicate SegmentsMeet(a: Point, b: Point, c: Point, d: Point) {
    exists x :: OnClosedSegment(x, a, b) && OnClosedSegment(x, c, d)
  }

  /** A product of two non-negative reals is non-negative. */
  lemma ProductNonNegative(x: real, y: real)
    requires 0.0 <= x && 0.0 <= y
    ensures 0.0 <= x * y
  {
  }

  /** A fraction of the way from a to b lies between a and b. */
  lemma LerpBetween(a: real, b: real, t: real)
    requires 0.0 <= t <= 1.0
    ensures a <= a + t * (b - a) <= b || b <= a + t * (b - a) <= a
  {
    if a <= b {
      ProductNonNegative(t, b - a);
      ProductNonNegative(1.0 - t, b - a);
    } else {
      ProductNonNegative(t, a - b);
      ProductNonNegative(1.0 - t, a - b);
    }
  }

  /** A non-zero factor cancels from both sides of an equation. */
  lemma CancelFactor(k: real, a: real, b: real)
    requires k != 0.0 && k * a == k * b
    ensures a == b
  {
    assert k * (a - b) == 0.0;
  }

  /** On the line through p and r, with p and r at different X, the point
      at X-fraction t is the point a fraction t of the way from p to r. */
  lemma CollinearByX(p: Point, q: Point, r: Point, t: real)
    requires Cross(p, r, q) == 0.0 && r.x != p.x
    requires t * (r.x - p.x) == q.x - p.x
    ensures Lerp(p, r, t) == q
  {
    assert (r.x - p.x) * (q.y - p.y) == (r.x - p.x) * (t * (r.y - p.y));
    CancelFactor(r.x - p.x, q.y - p.y, t * (r.y - p.y));
  }

  /** A point q of the line through p and r that lies in their box is the
      point a fraction of the way from p to r. */
  lemma InBoxIsOnClosedSegment(p: Point, q: Point, r: Point)
    requires Cross(p, r, q) == 0.0
    requires OnSegment(p, q, r)
    ensures OnClosedSegment(q, p, r)
  {
    if r.x != p.x {
      var t := (q.x - p.x) / (r.x - p.x);
      FractionInUnit(q.x - p.x, q.x - r.x);
      CollinearByX(p, q, r, t);
    } else if r.y != p.y {
      var t := (q.y - p.y) / (r.y - p.y);
      FractionInUnit(q.y - p.y, q.y - r.y);
      assert Lerp(p, r, t) == q;
    } else {
      assert Lerp(p, r, 0.0) == q;
    }
  }

  /** For a point q on the line through p and r, the box test of OnSegment
      decides exactly whether q lies on the segment pr. */
  lemma OnSegmentIffOnClosedSegment(p: Point, q: Point, r: Point)
    requires Cross(p, r, q) == 0.0
    ensures OnSegment(p, q, r) <==> OnClosedSegment(q, p, r)
  {
    if OnSegment(p, q, r) {
      InBoxIsOnClosedSegment(p, q, r);
    }
    if OnClosedSegment(q, p, r) {
      var t :| 0.0 <= t <= 1.0 && Lerp(p, r, t) == q;
      LerpBetween(p.x, r.x, t);
      LerpBetween(p.y, r.y, t);
    }
  }

  /** A fraction a / (a - b) of two values on opposite sides of zero lies in
      [0, 1]. */
  lemma FractionInUnit(a: real, b: real)
    requires a != b && (a <= 0.0 <= b || b <= 0.0 <= a)
    ensures 0.0 <= a / (a - b) <= 1.0
  {
    var t := a / (a - b);
    assert t * (a - b) == a;
    if a - b > 0.0 {
      assert 0.0 <= a <= a - b;
    } else {
      assert a - b <= a <= 0.0;
    }
  }

  /** The polynomial identities behind Cramer's rule for the crossing of the
      lines p1q1 and p2q2, written with the side values the orientation test
      computes. */
  lemma CramerIdentities(p1: Point, q1: Point, p2: Point, q2: Point)
    ensures Cross(p1, q1, p2) - Cross(p1, q1, q2) == Cross(p2, q2, q1) - Cross(p2, q2, p1)
    ensures Cross(p2, q2, p1) * (q1.x - p1.x) + Cross(p1, q1, p2) * (q2.x - p2.x)
         == (p2.x - p1.x) * (Cross(p2, q2, p1) - Cross(p2, q2, q1))
    ensures Cross(p2, q2, p1) * (q1.y - p1.y) + Cross(p1, q1, p2) * (q2.y - p2.y)
         == (p2.y - p1.y) * (Cross(p2, q2, p1) - Cross(p2, q2, q1))
  {
  }

  /** With the fractions t = d1 / den along p1q1 and s = -d3 / den along
      p2q2, the two points a fraction of the way along coincide. */
  lemma CramerPoint(p1: Point, q1: Point, p2: Point, q2: Point, d1: real, d3: real, den: real, t: real, s: real)
    requires den != 0.0 && t * den == d1 && s * den == -d3
    requires d1 * (q1.x - p1.x) + d3 * (q2.x - p2.x) == (p2.x - p1.x) * den
    requires d1 * (q1.y - p1.y) + d3 * (q2.y - p2.y) == (p2.y - p1.y) * den
    ensures Lerp(p1, q1, t) == Lerp(p2, q2, s)
  {
    CramerCoordinate(p1.x, q1.x, p2.x, q2.x, d1, d3, den, t, s);
    CramerCoordinate(p1.y, q1.y, p2.y, q2.y, d1, d3, den, t, s);
  }

  /** One coordinate of CramerPoint: the first segment runs from a1 to b1,
      the second from a2 to b2. */
  lemma CramerCoordinate(a1: real, b1: real, a2: real, b2: real, d1: real, d3: real, den: real, t: real, s: real)
    requires den != 0.0 && t * den == d1 && s * den == -d3
    requires d1 * (b1 - a1) + d3 * (b2 - a2) == (a2 - a1) * den
    ensures a1 + t * (b1 - a1) == a2 + s * (b2 - a2)
  {
    var u, v, w := b1 - a1, b2 - a2, a2 - a1;
    calc {
      den * (t * u - s * v);
      (t * den) * u - (s * den) * v;
      d1 * u + d3 * v;
      den * w;
    }
    CancelFactor(den, t * u - s * v, w);
  }

  /** When each segment has its end points on different sides of (or on) the
      other's line, the two lines cross at a point of both segments; the
      fractions along each segment are Cramer's rule. */
  lemma CrossingIsOnBoth(p1: Point, q1: Point, p2: Point, q2: Point)
    requires Orientation(p1, q1, p2) != Orientation(p1, q1, q2)
    requires Orientation(p2, q2, p1) != Orientation(p2, q2, q1)
    ensures SegmentsMeet(p1, q1, p2, q2)
  {
    var d1, d2 := Cross(p2, q2, p1), Cross(p2, q2, q1);
    var d3, d4 := Cross(p1, q1, p2), Cross(p1, q1, q2);
    var den := d1 - d2;
    CramerIdentities(p1, q1, p2, q2);
    FractionInUnit(d1, d2);
    FractionInUnit(d3, d4);
    var t, s := d1 / den, d3 / (d3 - d4);
    CramerPoint(p1, q1, p2, q2, d1, d3, den, t, s);
    var x := Lerp(p1, q1, t);
    assert OnClosedSegment(x, p1, q1) && OnClosedSegment(x, p2, q2);
  }

  /** Whenever DoIntersect reports an intersection, the two closed segments
      do share a point. */
  lemma DoIntersectSound(p1: Point, q1: Point, p2: Point, q2: Point)
    requires DoIntersect(p1, q1, p2, q2)
    ensures SegmentsMeet(p1, q1, p2, q2)
  {
    assert Lerp(p1, q1, 0.0) == p1 && Lerp(p1, q1, 1.0) == q1;
    assert Lerp(p2, q2, 0.0) == p2 && Lerp(p2, q2, 1.0) == q2;
    if Orientation(p1, q1, p2) == 0 && OnSegment(p1, p2, q1) {
      OnSegmentIffOnClosedSegment(p1, p2, q1);
      assert OnClosedSegment(p2, p2, q2);
    } else if Orientation(p1, q1, q2) == 0 && OnSegment(p1, q2, q1) {
      OnSegmentIffOnClosedSegment(p1, q2, q1);
      assert OnClosedSegment(q2, p2, q2);
    } else if Orientation(p2, q2, p1) == 0 && OnSegment(p2, p1, q2) {
      OnSegmentIffOnClosedSegment(p2, p1, q2);
      assert OnClosedSegment(p1, p1, q1);
    } else if Orientation(p2, q2, q1) == 0 && OnSegment(p2, q1, q2) {
      OnSegmentIffOnClosedSegment(p2, q1, q2);
      assert OnClosedSegment(q1, p1, q1);
    } else {
      CrossingIsOnBoth(p1, q1, p2, q2);
    }
  }

  // ---------------------------------------------------------------------
  // Bounding box as a function of the vertex list
  // ---------------------------------------------------------------------

  datatype Axis = X | Y

  function Coord(p: Point, a: Axis): real {
    match a
    case X => p.x
    case Y => p.y
  }

  /** Smallest coordinate on an axis, scanning the list from the front. */
  function Lo(vs: seq<Point>, a: Axis): real
    requires |vs| > 0
  {
    if |vs| == 1 then Coord(vs[0], a) else Min(Lo(vs[..|vs| - 1], a), Coord(vs[|vs| - 1], a))
  }

  /** Largest coordinate on an axis. */
  function Hi(vs: seq<Point>, a: Axis): real
    requires |vs| > 0
  {
    if |vs| == 1 then Coord(vs[0], a) else Max(Hi(vs[..|vs| - 1], a), Coord(vs[|vs| - 1], a))
  }

  /** The {minX, maxX, minY, maxY} array the source stores. */
  function BoxOf(vs: seq<Point>): (box: seq<real>)
    requires |vs| > 0
    ensures |box| == 4
  {
    [Lo(vs, X), Hi(vs, X), Lo(vs, Y), Hi(vs, Y)]
  }

  /** Lo is a lower bound attained by some vertex. */
  lemma {:induction false} LoIsAttainedBound(vs: seq<Point>, a: Axis)
    requires |vs| > 0
    ensures forall i :: 0 <= i < |vs| ==> Lo(vs, a) <= Coord(vs[i], a)
    ensures exists i :: 0 <= i < |vs| && Lo(vs, a) == Coord(vs[i], a)
  {
    if |vs| > 1 {
      var init := vs[..|vs| - 1];
      LoIsAttainedBound(init, a);
      assert forall i :: 0 <= i < |init| ==> vs[i] == init[i];
      var k :| 0 <= k < |init| && Lo(init, a) == Coord(init[k], a);
      if Lo(vs, a) == Coord(vs[|vs| - 1], a) {
        assert Lo(vs, a) == Coord(vs[|vs| - 1], a);
      } else {
        assert Lo(vs, a) == Coord(vs[k], a);
      }
    } else {
      assert Lo(vs, a) == Coord(vs[0], a);
    }
  }

  /** Hi is an upper bound attained by some vertex. */
  lemma {:induction false} HiIsAttainedBound(vs: seq<Point>, a: Axis)
    requires |vs| > 0
    ensures forall i :: 0 <= i < |vs| ==> Coord(vs[i], a) <= Hi(vs, a)
    ensures exists i :: 0 <= i < |vs| && Hi(vs, a) == Coord(vs[i], a)
  {
    if |vs| > 1 {
      var init := vs[..|vs| - 1];
      HiIsAttainedBound(init, a);
      assert forall i :: 0 <= i < |init| ==> vs[i] == init[i];
      var k :| 0 <= k < |init| && Hi(init, a) == Coord(init[k], a);
      if Hi(vs, a) == Coord(vs[|vs| - 1], a) {
        assert Hi(vs, a) == Coord(vs[|vs| - 1], a);
      } else {
        assert Hi(vs, a) == Coord(vs[k], a);
      }
    } else {
      assert Hi(vs, a) == Coord(vs[0], a);
    }
  }

  /** Every vertex lies in the box, and each of the four bounds is the
      coordinate of some vertex (the box is tight). */
  lemma BoxIsTight(vs: seq<Point>)
    requires |vs| > 0
    ensures forall v :: v in vs ==> BoxOf(vs)[0] <= v.x <= BoxOf(vs)[1] && BoxOf(vs)[2] <= v.y <= BoxOf(vs)[3]
    ensures exists i :: 0 <= i < |vs| && vs[i].x == BoxOf(vs)[0]
    ensures exists i :: 0 <= i < |vs| && vs[i].x == BoxOf(vs)[1]
    ensures exists i :: 0 <= i < |vs| && vs[i].y == BoxOf(vs)[2]
    ensures exists i :: 0 <= i < |vs| && vs[i].y == BoxOf(vs)[3]
  {
    LoIsAttainedBound(vs, X);
    HiIsAttainedBound(vs, X);
    LoIsAttainedBound(vs, Y);
    HiIsAttainedBound(vs, Y);
    forall v | v in vs
      ensures BoxOf(vs)[0] <= v.x <= BoxOf(vs)[1] && BoxOf(vs)[2] <= v.y <= BoxOf(vs)[3]
    {
      var i :| 0 <= i < |vs| && vs[i] == v;
      assert Coord(vs[i], X) == v.x && Coord(vs[i], Y) == v.y;
    }
    var i0 :| 0 <= i0 < |vs| && Lo(vs, X) == Coord(vs[i0], X);
    var i1 :| 0 <= i1 < |vs| && Hi(vs, X) == Coord(vs[i1], X);
    var i2 :| 0 <= i2 < |vs| && Lo(vs, Y) == Coord(vs[i2], Y);
    var i3 :| 0 <= i3 < |vs| && Hi(vs, Y) == Coord(vs[i3], Y);
    assert vs[i0].x == BoxOf(vs)[0] && vs[i1].x == BoxOf(vs)[1];
    assert vs[i2].y == BoxOf(vs)[2] && vs[i3].y == BoxOf(vs)[3];
  }

  /** The strict membership test of IsInBoundingBox. */
  predicate StrictlyInBox(box: seq<real>, p: Point)
    requires |box| == 4
  {
    box[0] < p.x < box[1] && box[2] < p.y < box[3]
  }

  /** A point on the edge of the box is reported outside; in particular so is
      every vertex that attains one of the four bounds. */
  lemma BoxEdgeIsOutside(vs: seq<Point>, p: Point)
    requires |vs| > 0
    requires p.x == Lo(vs, X) || p.x == Hi(vs, X) || p.y == Lo(vs, Y) || p.y == Hi(vs, Y)
    ensures !StrictlyInBox(BoxOf(vs), p)
  {
  }

  /** A point strictly inside the box lies strictly between two vertices on
      each axis. */
  lemma StrictlyInBoxIsBetweenVertices(vs: seq<Point>, p: Point)
    requires |vs| > 0 && StrictlyInBox(BoxOf(vs), p)
    ensures exists i, j :: 0 <= i < |vs| && 0 <= j < |vs| && vs[i].x < p.x < vs[j].x
    ensures exists i, j :: 0 <= i < |vs| && 0 <= j < |vs| && vs[i].y < p.y < vs[j].y
  {
    BoxIsTight(vs);
    var i0 :| 0 <= i0 < |vs| && vs[i0].x == BoxOf(vs)[0];
    var i1 :| 0 <= i1 < |vs| && vs[i1].x == BoxOf(vs)[1];
    var i2 :| 0 <= i2 < |vs| && vs[i2].y == BoxOf(vs)[2];
    var i3 :| 0 <= i3 < |vs| && vs[i3].y == BoxOf(vs)[3];
    assert vs[i0].x < p.x < vs[i1].x;
    assert vs[i2].y < p.y < vs[i3].y;
  }

  // ---------------------------------------------------------------------
  // Ray casting, as a function of the vertex list
  // ---------------------------------------------------------------------

  /** Index of the vertex after i, wrapping around. */
  function Next(i: nat, n: nat): nat
    requires i < n
  {
    (i + 1) % n
  }

  /** Polygon edge i touches the ray from p to ext. */
  predicate Touches(vs: seq<Point>, p: Point, ext: Point, i: nat)
    requires i < |vs|
  {
    DoIntersect(p, ext, vs[i], vs[Next(i, |vs|)])
  }

  /** Edge i touches the ray and is collinear with p: it alone decides. */
  predicate Decides(vs: seq<Point>, p: Point, ext: Point, i: nat)
    requires i < |vs|
  {
    Touches(vs, p, ext, i) && Orientation(vs[i], p, vs[Next(i, |vs|)]) == 0
  }

  /** Number of edges among the first k that touch the ray. */
  function TouchCount(vs: seq<Point>, p: Point, ext: Point, k: nat): nat
    requires k <= |vs|
  {
    if k == 0 then 0
    else TouchCount(vs, p, ext, k - 1) + (if Touches(vs, p, ext, k - 1) then 1 else 0)
  }

  /** The first deciding edge at or after index i, if any. */
  function FirstDecisive(vs: seq<Point>, p: Point, ext: Point, i: nat): (r: Option<nat>)
    requires i <= |vs|
    ensures r.Some? ==> i <= r.value < |vs|
    decreases |vs| - i
  {
    if i == |vs| then None
    else if Decides(vs, p, ext, i) then Some(i)
    else FirstDecisive(vs, p, ext, i + 1)
  }

  /** The answer of IsInside for the ray from p to ext: the first collinear
      touching edge decides alone through OnSegment; otherwise the parity of
      the number of touching edges. */
  predicate RayCastInside(vs: seq<Point>, p: Point, ext: Point) {
    match FirstDecisive(vs, p, ext, 0)
    case Some(i) => OnSegment(vs[i], p, vs[Next(i, |vs|)])
    case None => TouchCount(vs, p, ext, |vs|) % 2 == 1
  }

  /** FirstDecisive finds exactly the least deciding edge. */
  lemma {:induction false} FirstDecisiveIsLeast(vs: seq<Point>, p: Point, ext: Point, i: nat, k: nat)
    requires i <= |vs|
    ensures FirstDecisive(vs, p, ext, i) == Some(k) <==>
      i <= k < |vs| && Decides(vs, p, ext, k) && forall j :: i <= j < k ==> !Decides(vs, p, ext, j)
    ensures FirstDecisive(vs, p, ext, i).None? <==> forall j :: i <= j < |vs| ==> !Decides(vs, p, ext, j)
    decreases |vs| - i
  {
    if i < |vs| {
      FirstDecisiveIsLeast(vs, p, ext, i + 1, k);
    }
  }

  /** With no collinear touching edge, the answer is the parity of the number
      of edges that touch the ray. */
  lemma RayCastIsParity(vs: seq<Point>, p: Point, ext: Point)
    requires forall j :: 0 <= j < |vs| ==> !Decides(vs, p, ext, j)
    ensures RayCastInside(vs, p, ext) <==> TouchCount(vs, p, ext, |vs|) % 2 == 1
  {
    FirstDecisiveIsLeast(vs, p, ext, 0, 0);
  }

  /** A point on the first polygon edge (in particular the first vertex) is
      reported inside, whatever the ray's far end. This holds for the first
      edge only: on a later edge the point can be reported outside, because an
      earlier edge collinear with the ray decides first through its own
      OnSegment test, which is false for that point. */
  lemma PointOnFirstEdgeIsInside(vs: seq<Point>, p: Point, ext: Point)
    requires |vs| > 0
    requires Orientation(vs[0], p, vs[Next(0, |vs|)]) == 0 && OnSegment(vs[0], p, vs[Next(0, |vs|)])
    ensures RayCastInside(vs, p, ext)
  {
    var b := vs[Next(0, |vs|)];
    OrientationSwap(vs[0], p, b);
    assert DoIntersect(p, ext, vs[0], b);
    assert Decides(vs, p, ext, 0);
  }

  /** An edge whose endpoints are both strictly below (or both strictly
      above) the horizontal ray through p does not touch it. */
  lemma NoTouchOffTheRayLine(p: Point, ext: Point, a: Point, b: Point)
    requires ext.y == p.y
    requires (a.y < p.y && b.y < p.y) || (a.y > p.y && b.y > p.y)
    ensures !DoIntersect(p, ext, a, b)
  {
    OrientationOnHorizontal(p, ext, a);
    OrientationOnHorizontal(p, ext, b);
    assert Orientation(p, ext, a) == Orientation(p, ext, b);
    assert !OnSegment(p, a, ext) && !OnSegment(p, b, ext);
    assert !OnSegment(a, p, b) && !OnSegment(a, ext, b);
  }

  /** The orientation of a point relative to a horizontal segment p-ext:
      clockwise when ext is to the right of p and the point below, or ext to
      the left and the point above. */
  lemma OrientationOnHorizontal(p: Point, ext: Point, a: Point)
    requires ext.y == p.y
    ensures Orientation(p, ext, a) ==
      if ext.x == p.x || a.y == p.y then 0 else if (ext.x > p.x) == (a.y < p.y) then 1 else -1
  {
    CrossOnHorizontal(p, ext, a);
    ProductSign(ext.x - p.x, a.y - p.y);
  }

  /** The cross product against a horizontal segment p-ext. */
  lemma CrossOnHorizontal(p: Point, ext: Point, a: Point)
    requires ext.y == p.y
    ensures Cross(p, ext, a) == (ext.x - p.x) * (a.y - p.y)
  {
    assert (a.x - p.x) * (ext.y - p.y) == 0.0;
  }

  lemma ProductSign(u: real, v: real)
    ensures u == 0.0 ==> u * v == 0.0
    ensures u > 0.0 && v > 0.0 ==> u * v > 0.0
    ensures u > 0.0 && v < 0.0 ==> u * v < 0.0
    ensures u < 0.0 && v > 0.0 ==> u * v < 0.0
    ensures u < 0.0 && v < 0.0 ==> u * v > 0.0
  {
  }

  /** A query point strictly above every vertex, or strictly below every
      vertex, is reported outside. */
  lemma {:induction false} PointOffVerticalRangeIsOutside(vs: seq<Point>, p: Point, ext: Point)
    requires ext.y == p.y
    requires (forall v :: v in vs ==> v.y < p.y) || (forall v :: v in vs ==> v.y > p.y)
    ensures !RayCastInside(vs, p, ext)
  {
    forall j | 0 <= j < |vs|
      ensures !Touches(vs, p, ext, j)
    {
      NoTouchOffTheRayLine(p, ext, vs[j], vs[Next(j, |vs|)]);
    }
    NoTouchNoCount(vs, p, ext, |vs|);
    FirstDecisiveIsLeast(vs, p, ext, 0, 0);
  }

  lemma {:induction false} NoTouchNoCount(vs: seq<Point>, p: Point, ext: Point, k: nat)
    requires k <= |vs|
    requires forall j :: 0 <= j < k ==> !Touches(vs, p, ext, j)
    ensures TouchCount(vs, p, ext, k) == 0
  {
    if k > 0 {
      NoTouchNoCount(vs, p, ext, k - 1);
    }
  }

  // ---------------------------------------------------------------------
  // The region object
  // ---------------------------------------------------------------------

  class Polygon {
    /** The Delaunay input point this region belongs to. */
    const delaunayPoint: Point
    var vertices: seq<Point>
    /** One neighbour slot per edge; null where no neighbour was found. */
    var adjacentRegions: seq<Polygon?>
    /** {minX, maxX, minY, maxY}; null until UpdateBoundingBox first succeeds. */
    var boundingBox: array?<real>

    ghost predicate HasBox()
      reads this`boundingBox
    {
      boundingBox != null && boundingBox.Length == 4
    }

    /** The stored box is the box of the current vertex list. */
    ghost predicate BoxCurrent()
      reads this`boundingBox, this`vertices, boundingBox
    {
      HasBox() && |vertices| > 0 && boundingBox[..] == BoxOf(vertices)
    }

    constructor (delaunayPoint: Point)
      ensures this.delaunayPoint == delaunayPoint
      ensures vertices == [] && adjacentRegions == [] && boundingBox == null
    {
      this.delaunayPoint := delaunayPoint;
      vertices := [];
      adjacentRegions := [];
      boundingBox := null;
    }

    /** Polygon.UpdateBoundingBox: a fresh box, seeded with the first vertex
        and widened by one scan. On an empty vertex list the source throws
        (First()); here ok is false and nothing changes. */
    method UpdateBoundingBox() returns (ok: bool)
      modifies this`boundingBox
      ensures ok <==> |vertices| > 0
      ensures ok ==> fresh(boundingBox) && BoxCurrent()
      ensures !ok ==> boundingBox == old(boundingBox)
    {
      if |vertices| == 0 {
        return false;
      }
      var first := vertices[0];
      var box := new real[4] [first.x, first.x, first.y, first.y];
      boundingBox := box;
      for k := 0 to |vertices|
        invariant boundingBox == box
        invariant box[..] == BoxOf(vertices[..if k == 0 then 1 else k])
      {
        var vertex := vertices[k];
        if vertex.x < box[0] {
          box[0] := vertex.x;
        } else if vertex.x > box[1] {
          box[1] := vertex.x;
        }
        if vertex.y < box[2] {
          box[2] := vertex.y;
        } else if vertex.y > box[3] {
          box[3] := vertex.y;
        }
        assert vertices[..k + 1][..k] == vertices[..k];
      }
      assert vertices[..|vertices|] == vertices;
      ok := true;
    }

    /** Polygon.IsInBoundingBox: strict membership, so the box's own edges
        count as outside. */
    function IsInBoundingBox(point: Point): (r: bool)
      reads this`boundingBox, this`vertices, boundingBox
      requires HasBox()
      ensures BoxCurrent() ==>
        (r <==> Lo(vertices, X) < point.x < Hi(vertices, X) && Lo(vertices, Y) < point.y < Hi(vertices, Y))
    {
      point.x > boundingBox[0] && point.x < boundingBox[1] && point.y > boundingBox[2] && point.y < boundingBox[3]
    }

    /** Polygon.IsInside: even-odd ray casting towards (maxX + 1, Y). */
    method IsInside(point: Point) returns (inside: bool)
      requires HasBox()
      ensures inside == RayCastInside(vertices, point, Point(boundingBox[1] + 1.0, point.y))
    {
      var count := 0;
      var extreme := Point(boundingBox[1] + 1.0, point.y);
      for i := 0 to |vertices|
        invariant count == TouchCount(vertices, point, extreme, i)
        invariant FirstDecisive(vertices, point, extreme, 0) == FirstDecisive(vertices, point, extreme, i)
      {
        var next := (i + 1) % |vertices|;
        if DoIntersect(point, extreme, vertices[i], vertices[next]) {
          if Orientation(vertices[i], point, vertices[next]) == 0 {
            return OnSegment(vertices[i], point, vertices[next]);
          }
          count := count + 1;
        }
      }
      return count % 2 == 1;
    }
  }
}
