/** Edge.cs: an (unordered) pair of points with its midpoint, slope and
    intercept, an endpoint-order-independent equality and hash, and the
    slope/intercept segment intersection used by the Voronoi clipper. */
module Edges {
  import opened Basics

  datatype Edge = Edge(p1: Point, p2: Point)

  /** Reference notion of "p lies on the line through e's endpoints", written
      with a cross product so that it does not depend on slope or intercept. */
  predicate OnLine(e: Edge, p: Point) {
    (p.y - e.p1.y) * (e.p2.x - e.p1.x) == (p.x - e.p1.x) * (e.p2.y - e.p1.y)
  }

  /** Edge.Midpoint: the point halfway between the endpoints. */
  function Midpoint(e: Edge): (m: Point)
    ensures m.x - e.p1.x == e.p2.x - m.x
    ensures m.y - e.p1.y == e.p2.y - m.y
  {
    Point((e.p1.x + e.p2.x) / 2.0, (e.p1.y + e.p2.y) / 2.0)
  }

  lemma MidpointSymmetric(a: Point, b: Point)
    ensures Midpoint(Edge(a, b)) == Midpoint(Edge(b, a))
  {
  }

  /** Edge.Slope: absent (C# null) exactly for a vertical edge. */
  function Slope(e: Edge): (s: Option<real>)
    ensures s.None? <==> e.p1.x == e.p2.x
    ensures s.Some? ==> s.value * (e.p1.x - e.p2.x) == e.p1.y - e.p2.y
  {
    if e.p1.x - e.p2.x != 0.0 then Some((e.p1.y - e.p2.y) / (e.p1.x - e.p2.x)) else None
  }

  lemma SlopeSymmetric(a: Point, b: Point)
    ensures Slope(Edge(a, b)) == Slope(Edge(b, a))
  {
    if a.x != b.x {
      var s, t := Slope(Edge(a, b)).value, Slope(Edge(b, a)).value;
      var d := a.x - b.x;
      assert s * d == a.y - b.y;
      assert t * (-d) == b.y - a.y;
      assert t * (-d) == -(t * d);
      assert s * d == t * d;
      assert (s - t) * d == s * d - t * d;

    }
  }

  /** Edge.Intercept: the y-intercept of the edge's line, absent with the slope. */
  function Intercept(e: Edge): (b: Option<real>)
    ensures b.None? <==> Slope(e).None?
    ensures b.Some? ==> e.p1.y == Slope(e).value * e.p1.x + b.value
    ensures b.Some? ==> e.p2.y == Slope(e).value * e.p2.x + b.value
  {
    var slope := Slope(e);
    if slope.Some? then Some(e.p1.y - e.p1.x * slope.value) else None
  }

  /** For a non-vertical edge the slope-intercept equation describes exactly
      the points of its line. */
  lemma OnLineIffEquation(e: Edge, p: Point)
    requires Slope(e).Some?
    ensures OnLine(e, p) <==> p.y == Slope(e).value * p.x + Intercept(e).value
  {
    var s, b := Slope(e).value, Intercept(e).value;
    var dx := e.p2.x - e.p1.x;
    assert dx != 0.0;
    assert e.p2.y - e.p1.y == s * dx;
    assert OnLine(e, p) <==> (p.y - e.p1.y) * dx == (p.x - e.p1.x) * (s * dx);
    assert (p.x - e.p1.x) * (s * dx) == (s * (p.x - e.p1.x)) * dx;
    assert (p.y - e.p1.y) * dx == (s * (p.x - e.p1.x)) * dx <==> p.y - e.p1.y == s * (p.x - e.p1.x);
    assert b == e.p1.y - s * e.p1.x;
  }

  /** Edge.Equals: the same two endpoints, in either order, that is the same
      unordered pair of points. */
  predicate EdgeEquals(e: Edge, other: Edge): (b: bool)
    ensures b <==> multiset{e.p1, e.p2} == multiset{other.p1, other.p2}
  {
    EndpointPairs(e, other);
    || (e.p1 == other.p1 && e.p2 == other.p2)
    || (e.p1 == other.p2 && e.p2 == other.p1)
  }

  /** Two endpoint pairs are equal as multisets exactly when they agree in
      one of the two orders. */
  lemma EndpointPairs(e: Edge, other: Edge)
    ensures multiset{e.p1, e.p2} == multiset{other.p1, other.p2} <==>
      (e.p1 == other.p1 && e.p2 == other.p2) || (e.p1 == other.p2 && e.p2 == other.p1)
  {
    var a, b := multiset{e.p1, e.p2}, multiset{other.p1, other.p2};
    if a == b {
      assert e.p1 in b;
      if e.p1 == other.p1 {
        assert a - multiset{e.p1} == multiset{e.p2};
        assert b - multiset{e.p1} == multiset{other.p2};
      } else {
        assert e.p1 == other.p2;
        assert a - multiset{e.p1} == multiset{e.p2};
        assert b - multiset{e.p1} == multiset{other.p1};
      }
    }
  }

  lemma EqualsReversed(a: Point, b: Point)
    ensures EdgeEquals(Edge(a, b), Edge(b, a))
  {
  }

  lemma EqualsIsEquivalence(e: Edge, f: Edge, g: Edge)
    ensures EdgeEquals(e, e)
    ensures EdgeEquals(e, f) <==> EdgeEquals(f, e)
    ensures EdgeEquals(e, f) && EdgeEquals(f, g) ==> EdgeEquals(e, g)
  {
  }

  /** The C# `(int)` cast of a coordinate: truncation toward zero, taken as a
      32-bit two's-complement pattern. */
  function TruncatedBits(v: real): bv32 {
    var t := if v >= 0.0 then v.Floor else -((-v).Floor);
    (t % 0x1_0000_0000) as bv32
  }

  /** The exclusive or of one endpoint's two truncated coordinates. */
  function PointBits(p: Point): bv32 {
    TruncatedBits(p.x) ^ TruncatedBits(p.y)
  }

  /** Edge.GetHashCode: exclusive or of the four truncated coordinates,
      grouped by endpoint; it equals the source's left-to-right xor. */
  function HashCode(e: Edge): (h: bv32)
    ensures h == ((TruncatedBits(e.p1.x) ^ TruncatedBits(e.p1.y)) ^ TruncatedBits(e.p2.x)) ^ TruncatedBits(e.p2.y)
  {
    XorRegroups(PointBits(e.p1), TruncatedBits(e.p2.x), TruncatedBits(e.p2.y));
    PointBits(e.p1) ^ PointBits(e.p2)
  }

  lemma XorRegroups(a: bv32, b: bv32, c: bv32)
    ensures (a ^ b) ^ c == a ^ (b ^ c)
  {
  }

  lemma HashRespectsEquals(e: Edge, f: Edge)
    requires EdgeEquals(e, f)
    ensures HashCode(e) == HashCode(f)
  {
    if e.p1 != f.p1 || e.p2 != f.p2 {
      XorCommutes(PointBits(e.p1), PointBits(e.p2));
    }
  }

  lemma XorCommutes(a: bv32, b: bv32)
    ensures a ^ b == b ^ a
  {
  }

  /** x lies in the inclusive overlap of the two edges' x-extents. */
  predicate InXOverlap(e: Edge, f: Edge, x: real) {
    Max(Min(e.p1.x, e.p2.x), Min(f.p1.x, f.p2.x)) <= x <= Min(Max(e.p1.x, e.p2.x), Max(f.p1.x, f.p2.x))
  }

  /** v lies strictly between a and b. */
  predicate StrictlyBetween(v: real, a: real, b: real) {
    Min(a, b) < v < Max(a, b)
  }

  /** For two non-vertical, non-parallel edges: the x where their lines cross. */
  function CrossingX(e: Edge, f: Edge): real
    requires Slope(e).Some? && Slope(f).Some? && Slope(e) != Slope(f)
  {
    (Intercept(e).value - Intercept(f).value) / (Slope(f).value - Slope(e).value)
  }

  /** Both lines pass through the crossing point. */
  lemma CrossingOnBothLines(e: Edge, f: Edge)
    requires Slope(e).Some? && Slope(f).Some? && Slope(e) != Slope(f)
    ensures var x := CrossingX(e, f);
      Slope(e).value * x + Intercept(e).value == Slope(f).value * x + Intercept(f).value
  {
    var s1, s2, b1, b2 := Slope(e).value, Slope(f).value, Intercept(e).value, Intercept(f).value;
    var x := CrossingX(e, f);
    LinesMeetOnce(s1, s2, b1, b2, x, x, s1 * x + b1);
  }

  /** Two lines y = s1 x + b1 and y = s2 x + b2 with different slopes meet
      at x = (b1 - b2) / (s2 - s1) and nowhere else. */
  lemma LinesMeetOnce(s1: real, s2: real, b1: real, b2: real, x: real, u: real, v: real)
    requires s1 != s2 && x == (b1 - b2) / (s2 - s1)
    ensures s1 * x + b1 == s2 * x + b2
    ensures v == s1 * u + b1 && v == s2 * u + b2 <==> u == x && v == s1 * x + b1
  {
    assert x * (s2 - s1) == b1 - b2;
    if s1 * u + b1 == s2 * u + b2 {
      assert u * (s2 - s1) == b1 - b2;
      assert (u - x) * (s2 - s1) == 0.0;
    }
  }

  /** Edge.intersection: the crossing point of the two edges' lines, with the
      source's case analysis (non-vertical pair, one vertical edge, both
      vertical or parallel). */
  function Intersection(e: Edge, other: Edge): (r: Option<Point>)
    ensures Slope(e).None? && Slope(other).None? ==> r.None?
    ensures Slope(e).Some? && Slope(other) == Slope(e) ==> r.None?
  {
    var slope1, slope2 := Slope(e), Slope(other);
    if slope1.Some? then
      if slope2 == slope1 then None
      else if slope2.Some? then
        var x := CrossingX(e, other);
        if x < Max(Min(e.p1.x, e.p2.x), Min(other.p1.x, other.p2.x))
           || x > Min(Max(e.p1.x, e.p2.x), Max(other.p1.x, other.p2.x))
        then None
        else
          Some(Point(x, slope1.value * x + Intercept(e).value))
      else
        var x := other.p1.x;
        var y := slope1.value * x + Intercept(e).value;
        if y > Min(other.p1.y, other.p2.y) && y < Max(other.p1.y, other.p2.y) then
          Some(Point(x, y))
        else None
    else if slope2.Some? then
      var x := e.p1.x;
      var y := slope2.value * x + Intercept(other).value;
      if y > Min(e.p1.y, e.p2.y) && y < Max(e.p1.y, e.p2.y) then
        Some(Point(x, y))
      else None
    else None
  }

  /** The crossing point of two non-vertical, non-parallel edges' lines. */
  function CrossingPoint(e: Edge, f: Edge): Point
    requires Slope(e).Some? && Slope(f).Some? && Slope(e) != Slope(f)
  {
    Point(CrossingX(e, f), Slope(e).value * CrossingX(e, f) + Intercept(e).value)
  }

  /** The crossing point is the one point on both lines. */
  lemma CrossingPointUnique(e: Edge, f: Edge, p: Point)
    requires Slope(e).Some? && Slope(f).Some? && Slope(e) != Slope(f)
    ensures OnLine(e, p) && OnLine(f, p) <==> p == CrossingPoint(e, f)
  {
    if p == CrossingPoint(e, f) {
      CrossingPointOnBoth(e, f);
    } else if OnLine(e, p) && OnLine(f, p) {
      OnBothIsCrossingPoint(e, f, p);
    }
  }

  lemma CrossingPointOnBoth(e: Edge, f: Edge)
    requires Slope(e).Some? && Slope(f).Some? && Slope(e) != Slope(f)
    ensures OnLine(e, CrossingPoint(e, f)) && OnLine(f, CrossingPoint(e, f))
  {
    var p := CrossingPoint(e, f);
    CrossingOnBothLines(e, f);
    OnLineIffEquation(e, p);
    OnLineIffEquation(f, p);
  }

  lemma OnBothIsCrossingPoint(e: Edge, f: Edge, p: Point)
    requires Slope(e).Some? && Slope(f).Some? && Slope(e) != Slope(f)
    requires OnLine(e, p) && OnLine(f, p)
    ensures p == CrossingPoint(e, f)
  {
    var s1, s2, b1, b2 := Slope(e).value, Slope(f).value, Intercept(e).value, Intercept(f).value;
    OnLineIffEquation(e, p);
    OnLineIffEquation(f, p);
    LinesMeetOnce(s1, s2, b1, b2, CrossingX(e, f), p.x, p.y);
  }

  /** The general branch of Edge.intersection, unfolded once. */
  lemma GeneralCase(e: Edge, f: Edge)
    requires Slope(e).Some? && Slope(f).Some? && Slope(e) != Slope(f)
    ensures Intersection(e, f) ==
      if InXOverlap(e, f, CrossingX(e, f)) then Some(CrossingPoint(e, f)) else None
  {
    var x := CrossingX(e, f);
    var lo, hi := Max(Min(e.p1.x, e.p2.x), Min(f.p1.x, f.p2.x)), Min(Max(e.p1.x, e.p2.x), Max(f.p1.x, f.p2.x));
    assert InXOverlap(e, f, x) <==> !(x < lo || x > hi);
    assert Intersection(e, f) == if x < lo || x > hi then None else Some(CrossingPoint(e, f));
  }

  /** Two non-vertical, non-parallel edges: a point is returned exactly when
      it lies on both lines with its x inside both x-extents (inclusive). */
  lemma IntersectionGeneral(e: Edge, f: Edge, p: Point)
    requires Slope(e).Some? && Slope(f).Some? && Slope(e) != Slope(f)
    ensures Intersection(e, f) == Some(p) <==> OnLine(e, p) && OnLine(f, p) && InXOverlap(e, f, p.x)
  {
    GeneralCase(e, f);
    CrossingPointUnique(e, f, p);
  }

  /** A non-vertical edge against a vertical one: the point of the first
      line at the vertical edge's x, kept only when its y is strictly between
      the vertical edge's endpoint y's; the first edge's own x-extent is not
      consulted. */
  lemma IntersectionOtherVertical(e: Edge, f: Edge, p: Point)
    requires Slope(e).Some? && Slope(f).None?
    ensures Intersection(e, f) == Some(p) <==>
      OnLine(e, p) && p.x == f.p1.x && StrictlyBetween(p.y, f.p1.y, f.p2.y)
  {
    OnLineIffEquation(e, p);
  }

  /** The mirror case: the first edge is vertical. */
  lemma IntersectionThisVertical(e: Edge, f: Edge, p: Point)
    requires Slope(e).None? && Slope(f).Some?
    ensures Intersection(e, f) == Some(p) <==>
      OnLine(f, p) && p.x == e.p1.x && StrictlyBetween(p.y, e.p1.y, e.p2.y)
  {
    OnLineIffEquation(f, p);
  }

  /** In exact arithmetic the result does not depend on which edge is the
      receiver. */
  lemma IntersectionSymmetric(e: Edge, f: Edge)
    ensures Intersection(e, f) == Intersection(f, e)
  {
    if Slope(e).Some? && Slope(f).Some? && Slope(e) != Slope(f) {
      var r := Intersection(e, f);
      if r.Some? {
        IntersectionGeneral(e, f, r.value);
        IntersectionGeneral(f, e, r.value);
      } else {
        var r' := Intersection(f, e);
        if r'.Some? {
          IntersectionGeneral(f, e, r'.value);
          IntersectionGeneral(e, f, r'.value);
        }
      }
    }
  }

  /** Unlike the method's doc comment ("does not count shared vertices"), a
      vertex shared by two non-vertical, non-parallel edges is reported. */
  lemma SharedVertexIsReported(a: Point, b: Point, c: Point)
    requires a.x != b.x && a.x != c.x
    requires Slope(Edge(a, b)) != Slope(Edge(a, c))
    ensures Intersection(Edge(a, b), Edge(a, c)) == Some(a)
  {
    assert OnLine(Edge(a, b), a) && OnLine(Edge(a, c), a);
    assert InXOverlap(Edge(a, b), Edge(a, c), a.x);
    IntersectionGeneral(Edge(a, b), Edge(a, c), a);
  }

  /** Whatever the case, a returned point lies on both edges' lines. */
  lemma IntersectionOnBothLines(e: Edge, f: Edge)
    ensures Intersection(e, f).Some? ==>
      OnLine(e, Intersection(e, f).value) && OnLine(f, Intersection(e, f).value)
  {
    var r := Intersection(e, f);
    if r.Some? {
      if Slope(e).Some? && Slope(f).Some? {
        IntersectionGeneral(e, f, r.value);
      } else if Slope(e).Some? {
        IntersectionOtherVertical(e, f, r.value);
      } else {
        IntersectionThisVertical(e, f, r.value);
      }
    }
  }

  lemma OnHorizontalLine(h: Edge, p: Point)
    requires h.p1.y == h.p2.y && h.p1.x != h.p2.x
    requires OnLine(h, p)
    ensures p.y == h.p1.y
  {
    var d := h.p2.x - h.p1.x;
    assert (p.y - h.p1.y) * d == 0.0;
  }

  /** Against a horizontal edge, a returned point has that edge's y. A
      horizontal edge of zero length is a single point, which nothing
      crosses. */
  lemma IntersectionWithHorizontal(e: Edge, h: Edge)
    requires h.p1.y == h.p2.y
    ensures Intersection(e, h).Some? ==> Intersection(e, h).value.y == h.p1.y
  {
    if h.p1.x == h.p2.x {
      assert Intersection(e, h).None?;
    } else {
      IntersectionOnBothLines(e, h);
      if Intersection(e, h).Some? {
        OnHorizontalLine(h, Intersection(e, h).value);
      }
    }
  }
}
