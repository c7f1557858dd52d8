/** Delaunay.cs: the DelaunayTriangulator. It builds the seed ("border")
    triangles and the input points, then runs Bowyer-Watson: per point, the
    bad triangles (circumcircle contains the point), the cavity boundary
    (edges of multiplicity one among the bad triangles' edges), detaching,
    removal and re-fanning from the point. */
module Delaunay {
  import opened Basics
  import opened Edges
  import opened Triangles

  // ---------------------------------------------------------------------
  // FindBadTriangles
  // ---------------------------------------------------------------------

  /** DelaunayTriangulator.FindBadTriangles: the triangles of the set whose
      circumcircle contains the point. */
  function FindBadTriangles(geo: TriangleGeometry, point: Point, triangles: set<Triangle>): (bad: set<Triangle>)
    ensures bad <= triangles
    ensures forall t :: t in triangles ==> (t in bad <==> geo.isPointInsideCircumcircle(t, point))
  {
    set t | t in triangles && geo.isPointInsideCircumcircle(t, point)
  }

  // ---------------------------------------------------------------------
  // FindHoleBoundaries, as functions of an enumeration of the bad set
  // ---------------------------------------------------------------------

  /** `order` lists the elements of s, each once (an enumeration of a
      HashSet, in whatever order it yields them). */
  ghost predicate IsEnumeration(order: seq<Triangle>, s: set<Triangle>) {
    && (forall i, j :: 0 <= i < j < |order| ==> order[i] != order[j])
    && (forall t :: t in order <==> t in s)
    && |order| == |s|
  }

  /** Appending a new element to an enumeration of s enumerates s with it. */
  lemma EnumerationExtend(order: seq<Triangle>, s: set<Triangle>, t: Triangle)
    requires IsEnumeration(order, s) && t !in s
    ensures IsEnumeration(order + [t], s + {t})
  {
    var next := order + [t];
    forall i, j | 0 <= i < j < |next|
      ensures next[i] != next[j]
    {
      if j == |order| {
        assert next[i] in order;
      }
    }
  }

  /** The edge list FindHoleBoundaries builds: three edges per triangle. */
  function EdgeList(order: seq<Triangle>): seq<Edge> {
    if |order| == 0 then [] else EdgeList(order[..|order| - 1]) + EdgesOf(order[|order| - 1])
  }

  /** One pass of the FindHoleBoundaries loop: the triangle taken from the
      unvisited rest extends the enumeration and the edge list. */
  lemma ListingStep(order: seq<Triangle>, all: set<Triangle>, rest: set<Triangle>, t: Triangle)
    requires rest <= all && t in rest
    requires IsEnumeration(order, all - rest)
    ensures IsEnumeration(order + [t], all - (rest - {t}))
    ensures EdgeList(order + [t]) == EdgeList(order) + EdgesOf(t)
  {
    EnumerationExtend(order, all - rest, t);
    assert (order + [t])[..|order|] == order;
    assert all - (rest - {t}) == (all - rest) + {t};
  }

  /** Number of list entries equal (endpoint-order-independently) to e. */
  function Multiplicity(edges: seq<Edge>, e: Edge): nat {
    if |edges| == 0 then 0
    else (if EdgeEquals(edges[0], e) then 1 else 0) + Multiplicity(edges[1..], e)
  }

  /** The entries of src whose multiplicity in all is one, in order. */
  function SinglesOf(src: seq<Edge>, all: seq<Edge>): seq<Edge> {
    if |src| == 0 then []
    else (if Multiplicity(all, src[0]) == 1 then [src[0]] else []) + SinglesOf(src[1..], all)
  }

  /** GroupBy / Where(Count == 1) / Select(First): the edges that occur
      exactly once. */
  function Singles(edges: seq<Edge>): seq<Edge> {
    SinglesOf(edges, edges)
  }

  lemma {:induction false} EdgeListLength(order: seq<Triangle>)
    ensures |EdgeList(order)| == 3 * |order|
  {
    if |order| > 0 {
      EdgeListLength(order[..|order| - 1]);
    }
  }

  lemma {:induction false} EdgeListMembers(order: seq<Triangle>, e: Edge)
    requires e in EdgeList(order)
    ensures exists k :: 0 <= k < |order| && e in EdgesOf(order[k])
  {
    var init := order[..|order| - 1];
    if e !in EdgesOf(order[|order| - 1]) {
      EdgeListMembers(init, e);
      var k :| 0 <= k < |init| && e in EdgesOf(init[k]);
      assert order[k] == init[k];
    }
  }

  lemma {:induction false} MultiplicityConcat(a: seq<Edge>, b: seq<Edge>, e: Edge)
    ensures Multiplicity(a + b, e) == Multiplicity(a, e) + Multiplicity(b, e)
  {
    if |a| == 0 {
      assert a + b == b;
    } else {
      assert (a + b)[0] == a[0];
      assert (a + b)[1..] == a[1..] + b;
      MultiplicityConcat(a[1..], b, e);
    }
  }

  /** Equal edges have equal multiplicities. */
  lemma {:induction false} MultiplicityRespectsEquals(edges: seq<Edge>, x: Edge, e: Edge)
    requires EdgeEquals(x, e)
    ensures Multiplicity(edges, x) == Multiplicity(edges, e)
  {
    if |edges| > 0 {
      EqualsIsEquivalence(edges[0], x, e);
      EqualsIsEquivalence(edges[0], e, x);
      EqualsIsEquivalence(x, e, edges[0]);
      MultiplicityRespectsEquals(edges[1..], x, e);
    }
  }

  lemma {:induction false} SinglesOfMultiplicity(src: seq<Edge>, all: seq<Edge>, e: Edge)
    ensures Multiplicity(SinglesOf(src, all), e) ==
      if Multiplicity(all, e) == 1 then Multiplicity(src, e) else 0
  {
    if |src| > 0 {
      var x := src[0];
      var head: seq<Edge> := if Multiplicity(all, x) == 1 then [x] else [];
      SinglesOfMultiplicity(src[1..], all, e);
      MultiplicityConcat(head, SinglesOf(src[1..], all), e);
      if EdgeEquals(x, e) {
        MultiplicityRespectsEquals(all, x, e);
      }
    }
  }

  /** The boundary holds each edge of multiplicity one exactly once and no
      other edge at all (counting endpoint-order-independently). */
  lemma HoleBoundaryIsMultiplicityOne(edges: seq<Edge>, e: Edge)
    ensures Multiplicity(Singles(edges), e) == if Multiplicity(edges, e) == 1 then 1 else 0
  {
    SinglesOfMultiplicity(edges, edges, e);
  }

  lemma {:induction false} SinglesOfMembers(src: seq<Edge>, all: seq<Edge>, e: Edge)
    ensures e in SinglesOf(src, all) <==> e in src && Multiplicity(all, e) == 1
  {
    if |src| > 0 {
      SinglesOfMembers(src[1..], all, e);
      assert e in src <==> e == src[0] || e in src[1..];
    }
  }

  /** Every boundary edge is an edge of some bad triangle and occurs once. */
  lemma HoleBoundaryFromBadTriangles(order: seq<Triangle>, e: Edge)
    ensures e in Singles(EdgeList(order)) ==>
      Multiplicity(EdgeList(order), e) == 1 && exists k :: 0 <= k < |order| && e in EdgesOf(order[k])
  {
    SinglesOfMembers(EdgeList(order), EdgeList(order), e);
    if e in Singles(EdgeList(order)) {
      EdgeListMembers(order, e);
    }
  }

  /** There are at most three boundary edges per bad triangle. */
  lemma HoleBoundaryLength(order: seq<Triangle>)
    ensures |Singles(EdgeList(order))| <= 3 * |order|
  {
    SinglesOfLength(EdgeList(order), EdgeList(order));
    EdgeListLength(order);
  }

  /** Filtering never lengthens the list. */
  lemma {:induction false} SinglesOfLength(src: seq<Edge>, all: seq<Edge>)
    ensures |SinglesOf(src, all)| <= |src|
  {
    if |src| > 0 {
      SinglesOfLength(src[1..], all);
    }
  }

  // ---------------------------------------------------------------------
  // Re-fanning, as functions of the boundary
  // ---------------------------------------------------------------------

  /** The boundary edges the fan loop visits: those with neither endpoint
      equal to the point (the `Where` filter), in order. */
  function Outward(point: Point, boundary: seq<Edge>): seq<Edge> {
    if |boundary| == 0 then []
    else
      var e := boundary[|boundary| - 1];
      Outward(point, boundary[..|boundary| - 1]) + (if e.p1 != point && e.p2 != point then [e] else [])
  }

  /** The triangles (point, e.p1, e.p2) built for the edges, numbered from
      firstId in order. */
  function NewTriangles(point: Point, edges: seq<Edge>, firstId: nat): set<Triangle> {
    if |edges| == 0 then {}
    else
      var e := edges[|edges| - 1];
      NewTriangles(point, edges[..|edges| - 1], firstId) + {Triangle(firstId + |edges| - 1, point, e.p1, e.p2)}
  }

  /** Outward grows by the next boundary edge when that edge does not touch
      the point. */
  lemma OutwardStep(point: Point, boundary: seq<Edge>, i: int)
    requires 0 <= i < |boundary|
    ensures Outward(point, boundary[..i + 1]) ==
      Outward(point, boundary[..i]) + (if boundary[i].p1 != point && boundary[i].p2 != point then [boundary[i]] else [])
  {
    assert boundary[..i + 1][..i] == boundary[..i];
  }

  /** NewTriangles numbers the triangle for an appended edge after the
      others. */
  lemma NewTrianglesAppend(point: Point, edges: seq<Edge>, e: Edge, firstId: nat)
    ensures NewTriangles(point, edges + [e], firstId) ==
      NewTriangles(point, edges, firstId) + {Triangle(firstId + |edges|, point, e.p1, e.p2)}
  {
    assert (edges + [e])[..|edges|] == edges;
  }

  /** `after` holds the back references of `before` plus those of the
      added triangles. */
  ghost predicate AddsBackReferences(before: Adjacency, after: Adjacency, added: set<Triangle>) {
    forall p :: AdjacentOf(after, p) == AdjacentOf(before, p) + TrianglesAt(added, p)
  }

  /** Registering one more triangle adds its back references. */
  lemma RegisterAddsBackReference(start: Adjacency, adj: Adjacency, added: set<Triangle>, t: Triangle)
    requires AddsBackReferences(start, adj, added)
    ensures AddsBackReferences(start, Register(adj, t), added + {t})
  {
    forall p
      ensures AdjacentOf(Register(adj, t), p) == AdjacentOf(start, p) + TrianglesAt(added + {t}, p)
    {
      assert TrianglesAt(added + {t}, p) == TrianglesAt(added, p) + TrianglesAt({t}, p);
    }
  }

  lemma {:induction false} OutwardMembers(point: Point, boundary: seq<Edge>, e: Edge)
    ensures e in Outward(point, boundary) <==> e in boundary && e.p1 != point && e.p2 != point
    ensures |Outward(point, boundary)| <= |boundary|
  {
    if |boundary| > 0 {
      var init := boundary[..|boundary| - 1];
      OutwardMembers(point, init, e);
      assert boundary == init + [boundary[|boundary| - 1]];
    }
  }

  /** The new triangles carry the ids firstId .. firstId + |edges| - 1. */
  lemma {:induction false} NewTrianglesIds(point: Point, edges: seq<Edge>, firstId: nat)
    ensures forall t :: t in NewTriangles(point, edges, firstId) ==> firstId <= t.id < firstId + |edges|
  {
    if |edges| > 0 {
      NewTrianglesIds(point, edges[..|edges| - 1], firstId);
    }
  }

  /** The triangle built for edges[k]: (point, edges[k].p1, edges[k].p2),
      numbered firstId + k. */
  function FanTriangle(point: Point, edges: seq<Edge>, firstId: nat, k: nat): Triangle
    requires k < |edges|
  {
    Triangle(firstId + k, point, edges[k].p1, edges[k].p2)
  }

  /** One new triangle per visited edge, with the ids firstId, firstId + 1,
      ... in edge order, and nothing else. */
  lemma NewTrianglesShape(point: Point, edges: seq<Edge>, firstId: nat)
    ensures |NewTriangles(point, edges, firstId)| == |edges|
    ensures forall k :: 0 <= k < |edges| ==> FanTriangle(point, edges, firstId, k) in NewTriangles(point, edges, firstId)
    ensures forall t :: t in NewTriangles(point, edges, firstId) ==>
      firstId <= t.id < firstId + |edges| && t == FanTriangle(point, edges, firstId, t.id - firstId)
  {
    NewTrianglesCount(point, edges, firstId);
    NewTrianglesMembers(point, edges, firstId);
  }

  /** As many new triangles as visited edges: their ids differ. */
  lemma {:induction false} NewTrianglesCount(point: Point, edges: seq<Edge>, firstId: nat)
    ensures |NewTriangles(point, edges, firstId)| == |edges|
  {
    if |edges| > 0 {
      var init := edges[..|edges| - 1];
      NewTrianglesCount(point, init, firstId);
      NewTrianglesIds(point, init, firstId);
      var last := FanTriangle(point, edges, firstId, |edges| - 1);
      assert last !in NewTriangles(point, init, firstId);
    }
  }

  /** The new triangles are exactly the fan triangles of the edges. */
  lemma {:induction false} NewTrianglesMembers(point: Point, edges: seq<Edge>, firstId: nat)
    ensures forall k :: 0 <= k < |edges| ==> FanTriangle(point, edges, firstId, k) in NewTriangles(point, edges, firstId)
    ensures forall t :: t in NewTriangles(point, edges, firstId) ==>
      firstId <= t.id < firstId + |edges| && t == FanTriangle(point, edges, firstId, t.id - firstId)
  {
    if |edges| > 0 {
      var init := edges[..|edges| - 1];
      NewTrianglesMembers(point, init, firstId);
      forall k | 0 <= k < |init|
        ensures FanTriangle(point, edges, firstId, k) == FanTriangle(point, init, firstId, k)
      {
        assert edges[k] == init[k];
      }
    }
  }

  /** All triangle ids of the set are below n. */
  predicate IdsBelow(tris: set<Triangle>, n: nat) {
    forall t :: t in tris ==> t.id < n
  }

  // ---------------------------------------------------------------------
  // One insertion step, as a relation between the sets before and after
  // ---------------------------------------------------------------------

  /** One pass of the BowyerWatson loop for `point`: `order` is the
      enumeration of the bad set that FindHoleBoundaries used, and the new
      triangles are numbered from firstId. */
  ghost predicate IsInsertion(geo: TriangleGeometry, before: set<Triangle>, point: Point,
                              order: seq<Triangle>, firstId: nat, after: set<Triangle>)
  {
    var bad := FindBadTriangles(geo, point, before);
    && IsEnumeration(order, bad)
    && after == (before - bad) + NewTriangles(point, Outward(point, Singles(EdgeList(order))), firstId)
  }

  /** After one insertion step: no bad triangle is left, every other old
      triangle is kept, and each new triangle is (point, e.p1, e.p2) for a
      boundary edge e not touching the point, one per such edge. */
  lemma InsertionOutcome(geo: TriangleGeometry, before: set<Triangle>, point: Point,
                         order: seq<Triangle>, firstId: nat, after: set<Triangle>)
    requires IdsBelow(before, firstId)
    requires IsInsertion(geo, before, point, order, firstId, after)
    ensures forall t :: t in before ==> (t in after <==> !geo.isPointInsideCircumcircle(t, point))
    ensures forall t :: t in after && t !in before ==>
      exists e :: e in Singles(EdgeList(order)) && e.p1 != point && e.p2 != point &&
        t.Vertices() == [point, e.p1, e.p2]
    ensures |after| == |before| - |FindBadTriangles(geo, point, before)| +
      |Outward(point, Singles(EdgeList(order)))|
  {
    var fan := Outward(point, Singles(EdgeList(order)));
    InsertionKeepsGood(geo, before, point, order, firstId, after);
    InsertionAddsFan(geo, before, point, order, firstId, after);
    NewTrianglesShape(point, fan, firstId);
    InsertionCount(geo, before, point, fan, firstId, after);
  }

  /** The new triangles are all fresh: their ids are not below firstId. */
  lemma FreshTriangles(before: set<Triangle>, point: Point, fan: seq<Edge>, firstId: nat)
    requires IdsBelow(before, firstId)
    ensures forall t :: t in before ==> t !in NewTriangles(point, fan, firstId)
  {
    NewTrianglesIds(point, fan, firstId);
    forall t | t in before
      ensures t !in NewTriangles(point, fan, firstId)
    {
    }
  }

  /** The old triangles kept are exactly those whose circumcircle does not
      hold the point. */
  lemma InsertionKeepsGood(geo: TriangleGeometry, before: set<Triangle>, point: Point,
                           order: seq<Triangle>, firstId: nat, after: set<Triangle>)
    requires IdsBelow(before, firstId)
    requires IsInsertion(geo, before, point, order, firstId, after)
    ensures forall t :: t in before ==> (t in after <==> !geo.isPointInsideCircumcircle(t, point))
  {
    var bad := FindBadTriangles(geo, point, before);
    var added := NewTriangles(point, Outward(point, Singles(EdgeList(order))), firstId);
    FreshTriangles(before, point, Outward(point, Singles(EdgeList(order))), firstId);
    assert after == (before - bad) + added;
    forall t | t in before
      ensures t in after <==> !geo.isPointInsideCircumcircle(t, point)
    {
      assert t !in added;
      assert t in bad <==> geo.isPointInsideCircumcircle(t, point);
    }
  }

  /** Each new triangle is fanned from a boundary edge not touching the point. */
  lemma InsertionAddsFan(geo: TriangleGeometry, before: set<Triangle>, point: Point,
                         order: seq<Triangle>, firstId: nat, after: set<Triangle>)
    requires IsInsertion(geo, before, point, order, firstId, after)
    ensures forall t :: t in after && t !in before ==>
      exists e :: e in Singles(EdgeList(order)) && e.p1 != point && e.p2 != point &&
        t.Vertices() == [point, e.p1, e.p2]
  {
    var boundary := Singles(EdgeList(order));
    var fan := Outward(point, boundary);
    NewTrianglesShape(point, fan, firstId);
    forall t | t in after && t !in before
      ensures exists e :: (e in boundary && e.p1 != point && e.p2 != point &&
                           t.Vertices() == [point, e.p1, e.p2])
    {
      var e := fan[t.id - firstId];
      OutwardMembers(point, boundary, e);
      assert t.Vertices() == [point, e.p1, e.p2];
    }
  }

  /** The size after the step: the bad triangles go, one per fan edge comes. */
  lemma InsertionCount(geo: TriangleGeometry, before: set<Triangle>, point: Point,
                       fan: seq<Edge>, firstId: nat, after: set<Triangle>)
    requires IdsBelow(before, firstId)
    requires |NewTriangles(point, fan, firstId)| == |fan|
    requires after == (before - FindBadTriangles(geo, point, before)) + NewTriangles(point, fan, firstId)
    ensures |after| == |before| - |FindBadTriangles(geo, point, before)| + |fan|
  {
    var bad := FindBadTriangles(geo, point, before);
    FreshTriangles(before, point, fan, firstId);
    assert (before - bad) * NewTriangles(point, fan, firstId) == {};
    assert |before - bad| == |before| - |bad|;
  }

  /** A run of the BowyerWatson loop over `points`: history[i + 1] arises
      from history[i] by inserting points[i], with the enumeration orders[i]
      of the bad set and fresh ids from firstIds[i]. */
  ghost predicate IsTrace(geo: TriangleGeometry, points: seq<Point>, history: seq<set<Triangle>>,
                          orders: seq<seq<Triangle>>, firstIds: seq<nat>)
  {
    && |history| == |points| + 1 && |orders| == |points| && |firstIds| == |points|
    && forall i :: 0 <= i < |points| ==>
         IdsBelow(history[i], firstIds[i]) &&
         IsInsertion(geo, history[i], points[i], orders[i], firstIds[i], history[i + 1])
  }

  lemma TraceExtends(geo: TriangleGeometry, points: seq<Point>, i: nat, history: seq<set<Triangle>>,
                     orders: seq<seq<Triangle>>, firstIds: seq<nat>,
                     order: seq<Triangle>, firstId: nat, next: set<Triangle>)
    requires i < |points|
    requires IsTrace(geo, points[..i], history, orders, firstIds)
    requires IdsBelow(history[i], firstId)
    requires IsInsertion(geo, history[i], points[i], order, firstId, next)
    ensures IsTrace(geo, points[..i + 1], history + [next], orders + [order], firstIds + [firstId])
  {
    assert forall k :: 0 <= k < i ==> points[..i + 1][k] == points[..i][k];
  }

  // ---------------------------------------------------------------------
  // The triangulator object
  // ---------------------------------------------------------------------

  /** The four points the source adds in the middle of GenerateFixedPoints. */
  function FixedPoints(maxX: real, maxY: real): seq<Point> {
    [Point(maxX / 2.0, maxY / 2.0), Point(10.0, maxY / 3.0),
     Point(maxX / 2.0 + 15.0, maxY * 2.0 / 3.0), Point(20.0, maxY * 3.0 / 4.0)]
  }

  /** The duplicate-points loop of GenerateFixedPoints: each point shifted by
      -maxX and then by +maxX, same Y. */
  method DuplicatePoints(fixedPoints: seq<Point>, maxX: real) returns (duplicates: seq<Point>)
    ensures |duplicates| == 2 * |fixedPoints|
    ensures forall k :: 0 <= k < |fixedPoints| ==>
      duplicates[2 * k] == Point(fixedPoints[k].x - maxX, fixedPoints[k].y) &&
      duplicates[2 * k + 1] == Point(fixedPoints[k].x + maxX, fixedPoints[k].y)
  {
    duplicates := [];
    for i := 0 to |fixedPoints|
      invariant |duplicates| == 2 * i
      invariant forall k :: 0 <= k < i ==>
        duplicates[2 * k] == Point(fixedPoints[k].x - maxX, fixedPoints[k].y) &&
        duplicates[2 * k + 1] == Point(fixedPoints[k].x + maxX, fixedPoints[k].y)
    {
      var point := fixedPoints[i];
      duplicates := duplicates + [Point(point.x - maxX, point.y)];
      duplicates := duplicates + [Point(point.x + maxX, point.y)];
    }
  }

  /** The random-point loop of GeneratePoints. The random numbers are not
      part of this model: `draws` holds the successive pairs of NextDouble()
      results, each in [0, 1). */
  method RandomPoints(count: int, maxX: real, maxY: real, draws: seq<(real, real)>) returns (points: seq<Point>)
    requires |draws| >= count
    requires forall d :: d in draws ==> 0.0 <= d.0 < 1.0 && 0.0 <= d.1 < 1.0
    ensures |points| == if count > 0 then count else 0
    ensures forall k :: 0 <= k < |points| ==> points[k] == Point(draws[k].0 * maxX, draws[k].1 * maxY)
    ensures maxX > 0.0 && maxY > 0.0 ==>
      forall k :: 0 <= k < |points| ==> 0.0 <= points[k].x < maxX && 0.0 <= points[k].y < maxY
  {
    points := [];
    var i := 0;
    while i < count
      invariant 0 <= i <= (if count > 0 then count else 0)
      invariant |points| == i
      invariant forall k :: 0 <= k < i ==> points[k] == Point(draws[k].0 * maxX, draws[k].1 * maxY)
      invariant maxX > 0.0 && maxY > 0.0 ==>
        forall k :: 0 <= k < i ==> 0.0 <= points[k].x < maxX && 0.0 <= points[k].y < maxY
    {
      var pointX := draws[i].0 * maxX;
      var pointY := draws[i].1 * maxY;
      assert draws[i] in draws;
      if maxX > 0.0 && maxY > 0.0 {
        ScaledDrawInRange(draws[i].0, maxX);
        ScaledDrawInRange(draws[i].1, maxY);
        assert 0.0 <= pointX < maxX && 0.0 <= pointY < maxY;
      }
      points := points + [Point(pointX, pointY)];
      i := i + 1;
    }
  }

  class Triangulator {
    var maxX: real
    var maxY: real
    /** The seed triangles; null (None) until a point generator has run. */
    var border: Option<seq<Triangle>>
    /** Every point's AdjacentTriangles set. */
    var adjacent: Adjacency
    /** The id the next constructed triangle receives. */
    var nextId: nat

    /** Every triangle built so far has an id below nextId. */
    ghost predicate Valid()
      reads this
    {
      border.Some? ==> forall t :: t in border.value ==> t.id < nextId
    }

    constructor ()
      ensures Valid()
      ensures maxX == 0.0 && maxY == 0.0 && border.None? && adjacent == map[] && nextId == 0
    {
      maxX, maxY := 0.0, 0.0;
      border := None;
      adjacent := map[];
      nextId := 0;
    }

    /** `new Triangle(a, b, c)`: a triangle with a fresh identity, registered
        with its vertices when the constructor does so. */
    method NewTriangle(geo: TriangleGeometry, a: Point, b: Point, c: Point) returns (t: Triangle)
      modifies this`nextId, this`adjacent
      ensures t == Triangle(old(nextId), a, b, c) && nextId == old(nextId) + 1
      ensures adjacent == if geo.registersWithVertices then Register(old(adjacent), t) else old(adjacent)
    {
      t := Triangle(nextId, a, b, c);
      nextId := nextId + 1;
      if geo.registersWithVertices {
        adjacent := Register(adjacent, t);
      }
    }

    /** The shared start of both point generators: the back references start
        afresh (the generated points are new objects) and the border becomes
        the two triangles (c0, c1, c2) and (c0, c2, c3) of the corners. */
    method SeedBorder(geo: TriangleGeometry, corners: seq<Point>)
      requires |corners| == 4
      requires Valid()
      modifies this`adjacent, this`nextId, this`border
      ensures Valid()
      ensures nextId == old(nextId) + 2
      ensures border == Some([Triangle(old(nextId), corners[0], corners[1], corners[2]),
                              Triangle(old(nextId) + 1, corners[0], corners[2], corners[3])])
      ensures geo.registersWithVertices ==> BackReferencesExact(adjacent, set t | t in border.value)
      ensures !geo.registersWithVertices ==> adjacent == map[]
    {
      adjacent := map[];
      var tri1 := NewTriangle(geo, corners[0], corners[1], corners[2]);
      var tri2 := NewTriangle(geo, corners[0], corners[2], corners[3]);
      border := Some([tri1, tri2]);
      ghost var seeds := set t | t in border.value;
      assert seeds == {tri1} + {tri2};
      assert forall p :: TrianglesAt(seeds, p) == TrianglesAt({tri1}, p) + TrianglesAt({tri2}, p);
    }

    /** DelaunayTriangulator.GenerateFixedPoints: four corners spanning
        [-maxX, 2maxX] x [0, maxY] (also the two border triangles), four
        fixed points, and each fixed point's copies shifted left and right by
        maxX. */
    method GenerateFixedPoints(geo: TriangleGeometry, maxX: real, maxY: real) returns (points: seq<Point>)
      requires Valid()
      modifies this
      ensures Valid()
      ensures this.maxX == maxX && this.maxY == maxY
      ensures |points| == 16
      ensures points[..4] == [Point(-maxX, 0.0), Point(-maxX, maxY), Point(2.0 * maxX, maxY), Point(2.0 * maxX, 0.0)]
      ensures points[4..8] == FixedPoints(maxX, maxY)
      ensures forall k :: 0 <= k < 4 ==>
        points[8 + 2 * k] == Point(points[4 + k].x - maxX, points[4 + k].y) &&
        points[9 + 2 * k] == Point(points[4 + k].x + maxX, points[4 + k].y)
      ensures border == Some([Triangle(old(nextId), points[0], points[1], points[2]),
                              Triangle(old(nextId) + 1, points[0], points[2], points[3])])
      ensures geo.registersWithVertices ==> BackReferencesExact(adjacent, set t | t in border.value)
      ensures !geo.registersWithVertices ==> adjacent == map[]
    {
      this.maxX := maxX;
      this.maxY := maxY;
      points := [Point(-maxX, 0.0), Point(-maxX, maxY), Point(2.0 * maxX, maxY), Point(2.0 * maxX, 0.0)];
      SeedBorder(geo, points);
      var fixedPoints := FixedPoints(maxX, maxY);
      var duplicatePoints := DuplicatePoints(fixedPoints, maxX);
      points := points + fixedPoints;
      points := points + duplicatePoints;
    }

    /** DelaunayTriangulator.GeneratePoints: the corners of [0, maxX] x
        [0, maxY] (also the two border triangles) followed by amount - 4
        random points. */
    method GeneratePoints(geo: TriangleGeometry, amount: int, maxX: real, maxY: real, draws: seq<(real, real)>)
      returns (points: seq<Point>)
      requires Valid()
      requires |draws| >= amount - 4
      requires forall d :: d in draws ==> 0.0 <= d.0 < 1.0 && 0.0 <= d.1 < 1.0
      modifies this
      ensures Valid()
      ensures this.maxX == maxX && this.maxY == maxY
      ensures |points| == 4 + (if amount > 4 then amount - 4 else 0)
      ensures points[..4] == [Point(0.0, 0.0), Point(0.0, maxY), Point(maxX, maxY), Point(maxX, 0.0)]
      ensures forall k :: 4 <= k < |points| ==> points[k] == Point(draws[k - 4].0 * maxX, draws[k - 4].1 * maxY)
      ensures maxX > 0.0 && maxY > 0.0 ==>
        forall k :: 4 <= k < |points| ==> 0.0 <= points[k].x < maxX && 0.0 <= points[k].y < maxY
      ensures border == Some([Triangle(old(nextId), points[0], points[1], points[2]),
                              Triangle(old(nextId) + 1, points[0], points[2], points[3])])
      ensures geo.registersWithVertices ==> BackReferencesExact(adjacent, set t | t in border.value)
      ensures !geo.registersWithVertices ==> adjacent == map[]
    {
      this.maxX := maxX;
      this.maxY := maxY;
      var corners := [Point(0.0, 0.0), Point(0.0, maxY), Point(maxX, maxY), Point(maxX, 0.0)];
      SeedBorder(geo, corners);
      var randomPoints := RandomPoints(amount - 4, maxX, maxY, draws);
      points := corners + randomPoints;
    }

    /** The detach loop of BowyerWatson: each bad triangle is removed from
        the back-reference set of each of its vertices. */
    method DetachBadTriangles(badTriangles: set<Triangle>)
      modifies this`adjacent
      ensures forall p :: AdjacentOf(adjacent, p) == AdjacentOf(old(adjacent), p) - TrianglesAt(badTriangles, p)
    {
      var rest := badTriangles;
      while rest != {}
        invariant rest <= badTriangles
        invariant forall p :: AdjacentOf(adjacent, p) == AdjacentOf(old(adjacent), p) - TrianglesAt(badTriangles - rest, p)
        decreases rest
      {
        var triangle :| triangle in rest;
        ghost var before := adjacent;
        var vertices := triangle.Vertices();
        for k := 0 to 3
          invariant forall p ::
                      AdjacentOf(adjacent, p) == AdjacentOf(before, p) - (if p in vertices[..k] then {triangle} else {})
        {
          var vertex := vertices[k];
          adjacent := adjacent[vertex := AdjacentOf(adjacent, vertex) - {triangle}];
          assert forall p :: p in vertices[..k + 1] <==> p in vertices[..k] || p == vertex;
        }
        assert vertices[..3] == vertices;
        forall p
          ensures TrianglesAt(badTriangles - (rest - {triangle}), p) ==
            TrianglesAt(badTriangles - rest, p) + (if p in vertices then {triangle} else {})
        {
        }
        rest := rest - {triangle};
      }
    }

    /** The re-fanning loop of BowyerWatson: one new triangle (point, e.p1,
        e.p2) per boundary edge that does not touch the point. */
    method FillCavity(geo: TriangleGeometry, point: Point, polygon: seq<Edge>, triangulation: set<Triangle>)
      returns (filled: set<Triangle>)
      modifies this`adjacent, this`nextId
      ensures nextId == old(nextId) + |Outward(point, polygon)|
      ensures filled == triangulation + NewTriangles(point, Outward(point, polygon), old(nextId))
      ensures geo.registersWithVertices ==>
        AddsBackReferences(old(adjacent), adjacent, NewTriangles(point, Outward(point, polygon), old(nextId)))
      ensures !geo.registersWithVertices ==> adjacent == old(adjacent)
    {
      filled := triangulation;
      ghost var firstId, adj0 := nextId, adjacent;
      for i := 0 to |polygon|
        invariant Filling(geo, point, polygon[..i], firstId, adj0, triangulation, filled)
      {
        filled := FillEdge(geo, point, polygon, i, firstId, adj0, triangulation, filled);
      }
      assert polygon[..|polygon|] == polygon;
    }

    /** The state of the re-fanning loop once the triangles for the edges of
        `done` exist. */
    ghost predicate Filling(geo: TriangleGeometry, point: Point, done: seq<Edge>, firstId: nat, adj0: Adjacency,
                            triangulation: set<Triangle>, filled: set<Triangle>)
      reads this`nextId, this`adjacent
    {
      && nextId == firstId + |Outward(point, done)|
      && filled == triangulation + NewTriangles(point, Outward(point, done), firstId)
      && (geo.registersWithVertices ==> AddsBackReferences(adj0, adjacent, NewTriangles(point, Outward(point, done), firstId)))
      && (!geo.registersWithVertices ==> adjacent == adj0)
    }

    /** One pass of the re-fanning loop: the triangle for edge i, unless the
        edge touches the point. */
    method FillEdge(geo: TriangleGeometry, point: Point, polygon: seq<Edge>, i: int, ghost firstId: nat,
                    ghost adj0: Adjacency, ghost triangulation: set<Triangle>, filled: set<Triangle>)
      returns (next: set<Triangle>)
      requires 0 <= i < |polygon|
      requires Filling(geo, point, polygon[..i], firstId, adj0, triangulation, filled)
      modifies this`nextId, this`adjacent
      ensures Filling(geo, point, polygon[..i + 1], firstId, adj0, triangulation, next)
    {
      var edge := polygon[i];
      ghost var fan := Outward(point, polygon[..i]);
      OutwardStep(point, polygon, i);
      next := filled;
      if edge.p1 != point && edge.p2 != point {
        ghost var adjBefore := adjacent;
        var triangle := NewTriangle(geo, point, edge.p1, edge.p2);
        next := next + {triangle};
        NewTrianglesAppend(point, fan, edge, firstId);
        if geo.registersWithVertices {
          RegisterAddsBackReference(adj0, adjBefore, NewTriangles(point, fan, firstId), triangle);
        }
        assert Outward(point, polygon[..i + 1]) == fan + [edge];
      } else {
        assert Outward(point, polygon[..i + 1]) == fan + [] == fan;
      }
    }

    /** DelaunayTriangulator.FindHoleBoundaries: lists three edges per bad
        triangle (in the set's enumeration order) and keeps those that occur
        once. */
    method FindHoleBoundaries(badTriangles: set<Triangle>) returns (boundary: seq<Edge>, ghost order: seq<Triangle>)
      ensures IsEnumeration(order, badTriangles)
      ensures boundary == Singles(EdgeList(order))
      ensures |boundary| <= 3 * |badTriangles|
    {
      var edges: seq<Edge> := [];
      order := [];
      var rest := badTriangles;
      while rest != {}
        invariant rest <= badTriangles
        invariant IsEnumeration(order, badTriangles - rest)
        invariant edges == EdgeList(order)
        decreases rest
      {
        var triangle :| triangle in rest;
        ghost var listed := edges;
        edges := edges + [Edge(triangle.v0, triangle.v1)];
        edges := edges + [Edge(triangle.v1, triangle.v2)];
        edges := edges + [Edge(triangle.v2, triangle.v0)];
        assert edges == listed + EdgesOf(triangle);
        ListingStep(order, badTriangles, rest, triangle);
        order := order + [triangle];
        rest := rest - {triangle};
      }
      boundary := Singles(edges);
      HoleBoundaryLength(order);
    }

    /** DelaunayTriangulator.BowyerWatson: starting from exactly the border
        triangles, the points are inserted in input order; history[i + 1] is
        the triangle set after the i-th insertion. Without border triangles
        (no generator has run) the source throws; here the result is None. */
    method BowyerWatson(geo: TriangleGeometry, points: seq<Point>)
      returns (result: Option<set<Triangle>>, ghost history: seq<set<Triangle>>,
               ghost orders: seq<seq<Triangle>>, ghost firstIds: seq<nat>)
      requires Valid()
      modifies this`adjacent, this`nextId
      ensures Valid()
      ensures result.None? <==> border.None?
      ensures result.Some? ==>
        && IsTrace(geo, points, history, orders, firstIds)
        && history[0] == (set t | t in border.value)
        && history[|points|] == result.value
        && IdsBelow(result.value, nextId)
      ensures (result.Some? && geo.registersWithVertices &&
               BackReferencesExact(old(adjacent), set t | t in border.value)) ==>
        BackReferencesExact(adjacent, result.value)
    {
      if border.None? {
        return None, [], [], [];
      }
      var triangulation := set t | t in border.value;
      history, orders, firstIds := [triangulation], [], [];
      ghost var exactAtStart := geo.registersWithVertices && BackReferencesExact(adjacent, triangulation);
      for i := 0 to |points|
        invariant Valid() && old(nextId) <= nextId
        invariant IsTrace(geo, points[..i], history, orders, firstIds)
        invariant history[0] == (set t | t in border.value) && history[i] == triangulation
        invariant IdsBelow(triangulation, nextId)
        invariant exactAtStart ==> BackReferencesExact(adjacent, triangulation)
      {
        var point := points[i];
        var badTriangles := FindBadTriangles(geo, point, triangulation);
        var polygon, order := FindHoleBoundaries(badTriangles);
        ghost var before := adjacent;
        DetachBadTriangles(badTriangles);
        ghost var detached := adjacent;
        ghost var firstId := nextId;
        var remaining := triangulation - badTriangles;
        var next := FillCavity(geo, point, polygon, remaining);
        ghost var added := NewTriangles(point, Outward(point, polygon), firstId);
        NewTrianglesIds(point, Outward(point, polygon), firstId);
        if exactAtStart {
          RefillKeepsExact(before, detached, adjacent, triangulation, badTriangles, added);
        }
        assert IsInsertion(geo, triangulation, point, order, firstId, next);
        TraceExtends(geo, points, i, history, orders, firstIds, order, firstId, next);
        history := history + [next];
        orders := orders + [order];
        firstIds := firstIds + [firstId];
        triangulation := next;
      }
      assert points[..|points|] == points;
      result := Some(triangulation);
    }
  }

  /** Detaching the bad triangles and registering the new ones keeps the
      back references exact. */
  lemma RefillKeepsExact(before: Adjacency, detached: Adjacency, after: Adjacency,
                         tris: set<Triangle>, bad: set<Triangle>, added: set<Triangle>)
    requires BackReferencesExact(before, tris)
    requires forall p :: AdjacentOf(detached, p) == AdjacentOf(before, p) - TrianglesAt(bad, p)
    requires AddsBackReferences(detached, after, added)
    ensures BackReferencesExact(after, (tris - bad) + added)
  {
    forall p
      ensures AdjacentOf(after, p) == TrianglesAt((tris - bad) + added, p)
    {
      assert TrianglesAt((tris - bad) + added, p) == TrianglesAt(tris, p) - TrianglesAt(bad, p) + TrianglesAt(added, p);
    }
  }

  lemma ScaledDrawInRange(d: real, bound: real)
    requires 0.0 <= d < 1.0 && bound > 0.0
    ensures 0.0 <= d * bound < bound
  {
    assert (1.0 - d) * bound > 0.0;
  }
}
