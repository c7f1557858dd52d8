/** Voronoi.cs: Voronoi regions read off the triangulation. Each input
    point's adjacent triangles are put in order around it, their
    circumcenters form the region, and vertices above or below the world are
    replaced by crossings with its top and bottom lines. Regions that meet
    the world are then linked to their neighbours. */
module Voronoi {
  import opened Basics
  import opened Edges
  import opened Triangles
  import opened Polygons

  // ---------------------------------------------------------------------
  // Integer helpers
  // ---------------------------------------------------------------------

  /** C#'s `/` on int: the quotient truncated toward zero. */
  function TruncDiv(x: int, m: int): int
    requires m != 0
  {
    if x >= 0 then x / m else -((-x) / m)
  }

  /** C#'s `%` on int: the remainder that goes with the truncated quotient,
      so it takes the sign of the dividend. */
  function CsRem(x: int, m: int): (r: int)
    requires m != 0
    ensures x == TruncDiv(x, m) * m + r
    ensures x >= 0 ==> 0 <= r < if m > 0 then m else -m
    ensures x < 0 ==> -(if m > 0 then m else -m) < r <= 0
  {
    if x >= 0 then x % m
    else
      assert -x == ((-x) / m) * m + (-x) % m;
      -((-x) % m)
  }

  /** Voronoi.mod: `(x % m + m) % m` with C#'s remainder. For a positive
      modulus it is the non-negative residue; for a negative one it lies in
      (m, 0]. A zero modulus throws in the source and is excluded here. */
  function Mod(x: int, m: int): (r: int)
    requires m != 0
    ensures m > 0 ==> 0 <= r < m && r == x % m
    ensures m < 0 ==> m < r <= 0
  {
    var s := CsRem(x, m) + m;
    ModShift(x, m);
    CsRem(s, m)
  }

  /** A positive multiple of m is at least m. */
  lemma MultipleAtLeast(d: int, m: int)
    requires d >= 1 && m > 0
    ensures d * m >= m
  {
    assert d * m == (d - 1) * m + m;
    assert (d - 1) * m >= 0;
  }

  /** x % m equals r whenever x == q * m + r with 0 <= r < m. */
  lemma ModUnique(x: int, m: int, q: int, r: int)
    requires m > 0 && 0 <= r < m && x == q * m + r
    ensures x % m == r
  {
    var q0, r0 := x / m, x % m;
    var d := q0 - q;
    assert q0 * m - q * m == d * m;
    assert d * m == r - r0;
    if d >= 1 {
      MultipleAtLeast(d, m);
    } else if d <= -1 {
      MultipleAtLeast(-d, m);
    }
  }

  /** The arithmetic behind Mod for a positive modulus. */
  lemma ModShift(x: int, m: int)
    requires m != 0
    ensures m > 0 ==> CsRem(CsRem(x, m) + m, m) == x % m
  {
    if m > 0 {
      var s := CsRem(x, m) + m;
      if x >= 0 {
        ModUnique(s, m, 1, x % m);
      } else {
        var a := (-x) % m;
        var q := (-x) / m;
        assert -x == q * m + a;
        if a == 0 {
          ModUnique(s, m, 1, 0);
          ModUnique(x, m, -q, 0);
        } else {
          ModUnique(s, m, 0, m - a);
          ModUnique(x, m, -q - 1, m - a);
        }
      }
    }
  }

  /** The index before i in a cyclic list of n entries. */
  lemma ModPrevious(i: int, n: int)
    requires 0 <= i < n
    ensures Mod(i - 1, n) == if i == 0 then n - 1 else i - 1
  {
    if i == 0 {
      ModUnique(-1, n, -1, n - 1);
    } else {
      ModUnique(i - 1, n, 0, i - 1);
    }
  }

  // ---------------------------------------------------------------------
  // extend
  // ---------------------------------------------------------------------

  function Abs(v: real): real { if v < 0.0 then -v else v }

  /** Voronoi.extend: the point one unit beyond `border` as seen from
      `center`, on each axis separately; an axis on which the two agree is
      kept. */
  function Extend(center: Point, border: Point): (e: Point)
    ensures (e.x - center.x > 0.0 <==> border.x - center.x > 0.0) &&
            (e.x - center.x < 0.0 <==> border.x - center.x < 0.0)
    ensures (e.y - center.y > 0.0 <==> border.y - center.y > 0.0) &&
            (e.y - center.y < 0.0 <==> border.y - center.y < 0.0)
    ensures Abs(e.x - center.x) == Abs(border.x - center.x) + (if border.x != center.x then 1.0 else 0.0)
    ensures Abs(e.y - center.y) == Abs(border.y - center.y) + (if border.y != center.y then 1.0 else 0.0)
  {
    var x := border.x - center.x;
    var y := border.y - center.y;
    var x' := if x > 0.0 then x + 1.0 else if x < 0.0 then x - 1.0 else x;
    var y' := if y > 0.0 then y + 1.0 else if y < 0.0 then y - 1.0 else y;
    Point(center.x + x', center.y + y')
  }

  // ---------------------------------------------------------------------
  // Ordering the triangles around a point
  // ---------------------------------------------------------------------

  /** No triangle after position i shares an edge with ts[i]. */
  ghost predicate NoLaterNeighbour(shares: (Triangle, Triangle) -> bool, ts: seq<Triangle>, i: int)
    requires 0 <= i < |ts|
  {
    forall j :: i < j < |ts| ==> !shares(ts[j], ts[i])
  }

  /** The ordering guarantee for the positions below n: each triangle is
      followed by one it shares an edge with, unless no later triangle shares
      an edge with it. */
  ghost predicate ChainedBelow(shares: (Triangle, Triangle) -> bool, ts: seq<Triangle>, n: int) {
    forall k {:trigger NoLaterNeighbour(shares, ts, k)} :: 0 <= k < n && k + 1 < |ts| ==> shares(ts[k + 1], ts[k]) || NoLaterNeighbour(shares, ts, k)
  }

  /** What the ordering loop guarantees for the whole list. */
  ghost predicate AdjacencyChained(shares: (Triangle, Triangle) -> bool, ts: seq<Triangle>) {
    ChainedBelow(shares, ts, |ts|)
  }

  /** `new List<Triangle>(point.AdjacentTriangles)`: the set's elements, each
      once, in the set's enumeration order. */
  method Enumerate(s: set<Triangle>) returns (list: seq<Triangle>)
    ensures multiset(list) == multiset(s)
  {
    list := [];
    var rest := s;
    while rest != {}
      invariant rest <= s
      invariant multiset(list) + multiset(rest) == multiset(s)
      decreases rest
    {
      var t :| t in rest;
      assert multiset(rest) == multiset(rest - {t}) + multiset{t};
      list := list + [t];
      rest := rest - {t};
    }
  }

  /** Swapping the first later neighbour of ts[i] into position i + 1 keeps
      the guarantee for every earlier position, establishes it for i, and
      permutes the list. */
  lemma SwapKeepsChain(shares: (Triangle, Triangle) -> bool, ts: seq<Triangle>, i: int, j: int, swapped: seq<Triangle>)
    requires 0 <= i < j < |ts| && shares(ts[j], ts[i])
    requires ChainedBelow(shares, ts, i)
    requires swapped == ts[j := ts[i + 1]][i + 1 := ts[j]]
    ensures ChainedBelow(shares, swapped, i + 1)
    ensures multiset(swapped) == multiset(ts)
    ensures swapped[..i + 1] == ts[..i + 1]
  {
    forall k | 0 <= k < i && !shares(swapped[k + 1], swapped[k])
      ensures NoLaterNeighbour(shares, swapped, k)
    {
      assert swapped[k + 1] == ts[k + 1] && swapped[k] == ts[k];
      assert NoLaterNeighbour(shares, ts, k);
      forall m | k < m < |swapped|
        ensures !shares(swapped[m], swapped[k])
      {
        if m == j {
          assert swapped[m] == ts[i + 1];
        } else if m == i + 1 {
          assert swapped[m] == ts[j];
        } else {
          assert swapped[m] == ts[m];
        }
      }
    }
    assert swapped[i + 1] == ts[j] && swapped[i] == ts[i];
  }

  /** The nested ordering loop of GenerateRegionsFromDelaunay: for each
      position i, the first later triangle sharing an edge with triangles[i]
      is swapped into position i + 1. */
  method OrderByAdjacency(triangles: array<Triangle>, shares: (Triangle, Triangle) -> bool)
    modifies triangles
    ensures multiset(triangles[..]) == multiset(old(triangles[..]))
    ensures triangles.Length > 0 ==> triangles[0] == old(triangles[0])
    ensures AdjacencyChained(shares, triangles[..])
  {
    var n := triangles.Length;
    var i := 0;
    while i < n - 1
      invariant 0 <= i && (n > 0 ==> i <= n - 1)
      invariant multiset(triangles[..]) == multiset(old(triangles[..]))
      invariant n > 0 ==> triangles[0] == old(triangles[0])
      invariant ChainedBelow(shares, triangles[..], i)
    {
      var j := i + 1;
      while j < n
        invariant i + 1 <= j <= n
        invariant forall m :: i < m < j ==> !shares(triangles[m], triangles[i])
      {
        if shares(triangles[j], triangles[i]) {
          ghost var before := triangles[..];
          triangles[j], triangles[i + 1] := triangles[i + 1], triangles[j];
          SwapKeepsChain(shares, before, i, j, triangles[..]);
          break;
        }
        j := j + 1;
      }
      i := i + 1;
    }
  }

  // ---------------------------------------------------------------------
  // Clipping the region to the world's vertical extent
  // ---------------------------------------------------------------------

  /** The intersections kept for one out-of-range vertex: both when both
      exist, the one that exists, or none. */
  function Pick(intersect1: Option<Point>, intersect2: Option<Point>): (r: seq<Point>)
    ensures |r| == (if intersect1.Some? then 1 else 0) + (if intersect2.Some? then 1 else 0)
    ensures forall p :: p in r <==> intersect1 == Some(p) || intersect2 == Some(p)
    ensures intersect1.Some? ==> r[0] == intersect1.value
    ensures intersect2.Some? ==> r[|r| - 1] == intersect2.value
  {
    if intersect1.Some? && intersect2.Some? then [intersect1.value, intersect2.value]
    else if intersect1.Some? then [intersect1.value]
    else if intersect2.Some? then [intersect2.value]
    else []
  }

  /** What an out-of-range circumcenter v contributes: the crossings of its
      edges to the previous and the next circumcenter with `line`. */
  function Crossings(v: Point, prev: Point, next: Point, line: Edge): (r: seq<Point>)
    ensures |r| <= 2
    ensures forall p :: p in r ==> OnLine(line, p) && (OnLine(Edge(v, prev), p) || OnLine(Edge(v, next), p))
  {
    IntersectionOnBothLines(Edge(v, prev), line);
    IntersectionOnBothLines(Edge(v, next), line);
    Pick(Intersection(Edge(v, prev), line), Intersection(Edge(v, next), line))
  }

  /** Every point of ps has Y coordinate y. */
  predicate AllAtHeight(ps: seq<Point>, y: real) {
    forall p :: p in ps ==> p.y == y
  }

  /** Against a horizontal line, every crossing has that line's Y. */
  lemma CrossingsOnHorizontal(v: Point, prev: Point, next: Point, line: Edge)
    requires line.p1.y == line.p2.y
    ensures AllAtHeight(Crossings(v, prev, next, line), line.p1.y)
  {
    IntersectionWithHorizontal(Edge(v, prev), line);
    IntersectionWithHorizontal(Edge(v, next), line);
  }

  /** The world's top line: (-maxX, maxY) to (2maxX, maxY). */
  function TopLine(maxX: real, maxY: real): Edge {
    Edge(Point(-maxX, maxY), Point(2.0 * maxX, maxY))
  }

  /** The world's bottom line: (-maxX, 0) to (2maxX, 0). */
  function BottomLine(maxX: real): Edge {
    Edge(Point(-maxX, 0.0), Point(2.0 * maxX, 0.0))
  }

  /** What one circumcenter vs[i] contributes to the region: itself when
      0 <= Y <= maxY, otherwise the crossings of its two incident edges with
      the line it lies beyond. */
  function ClipVertex(vs: seq<Point>, i: int, maxX: real, maxY: real): (r: seq<Point>)
    requires 0 <= i < |vs|
    ensures |r| <= 2
    ensures 0.0 <= vs[i].y <= maxY ==> r == [vs[i]]
    ensures vs[i].y > maxY ==> AllAtHeight(r, maxY)
    ensures vs[i].y <= maxY && vs[i].y < 0.0 ==> AllAtHeight(r, 0.0)
  {
    var n := |vs|;
    var prev := vs[Mod(i - 1, n)];
    var next := vs[(i + 1) % n];
    if vs[i].y > maxY then
      CrossingsOnHorizontal(vs[i], prev, next, TopLine(maxX, maxY));
      Crossings(vs[i], prev, next, TopLine(maxX, maxY))
    else if vs[i].y < 0.0 then
      CrossingsOnHorizontal(vs[i], prev, next, BottomLine(maxX));
      Crossings(vs[i], prev, next, BottomLine(maxX))
    else
      [vs[i]]
  }

  /** The first k parts, one after the other. */
  function Concat(parts: seq<seq<Point>>, k: nat): seq<Point>
    requires k <= |parts|
  {
    if k == 0 then [] else Concat(parts, k - 1) + parts[k - 1]
  }

  /** A point is among the first k parts exactly when some part before k
      holds it. */
  lemma {:induction false} ConcatMembers(parts: seq<seq<Point>>, k: nat, p: Point)
    requires k <= |parts|
    ensures p in Concat(parts, k) <==> exists i :: 0 <= i < k && p in parts[i]
  {
    if k > 0 {
      ConcatMembers(parts, k - 1, p);
      if p in parts[k - 1] {
        assert exists i :: 0 <= i < k && p in parts[i];
      }
    }
  }

  /** Parts of at most two points each make at most 2k points. */
  lemma {:induction false} ConcatLength(parts: seq<seq<Point>>, k: nat)
    requires k <= |parts|
    requires forall i :: 0 <= i < k ==> |parts[i]| <= 2
    ensures |Concat(parts, k)| <= 2 * k
  {
    if k > 0 {
      ConcatLength(parts, k - 1);
    }
  }

  /** What each circumcenter contributes, in order. */
  function Contributions(vs: seq<Point>, maxX: real, maxY: real): (parts: seq<seq<Point>>)
    ensures |parts| == |vs|
  {
    seq(|vs|, i requires 0 <= i < |vs| => ClipVertex(vs, i, maxX, maxY))
  }

  /** The contributions of the first k circumcenters, in order. */
  function ClipPrefix(vs: seq<Point>, k: nat, maxX: real, maxY: real): seq<Point>
    requires k <= |vs|
  {
    Concat(Contributions(vs, maxX, maxY), k)
  }

  lemma ClipPrefixStep(vs: seq<Point>, i: int, maxX: real, maxY: real)
    requires 0 <= i < |vs|
    ensures ClipPrefix(vs, i + 1, maxX, maxY) == ClipPrefix(vs, i, maxX, maxY) + ClipVertex(vs, i, maxX, maxY)
  {
    assert Contributions(vs, maxX, maxY)[i] == ClipVertex(vs, i, maxX, maxY);
  }

  lemma AppendAssociates<T>(a: seq<T>, b: seq<T>, c: seq<T>)
    ensures (a + b) + c == a + (b + c)
  {
  }

  /** Appending circumcenter i's contribution to a list that holds the
      contributions before it extends the prefix by one. */
  lemma ClipLoopStep(start: seq<Point>, before: seq<Point>, after: seq<Point>, vs: seq<Point>, i: int,
                     maxX: real, maxY: real)
    requires 0 <= i < |vs|
    requires before == start + ClipPrefix(vs, i, maxX, maxY)
    requires after == before + ClipVertex(vs, i, maxX, maxY)
    ensures after == start + ClipPrefix(vs, i + 1, maxX, maxY)
  {
    ClipPrefixStep(vs, i, maxX, maxY);
    AppendAssociates(start, ClipPrefix(vs, i, maxX, maxY), ClipVertex(vs, i, maxX, maxY));
  }

  /** The region's vertex list built from the circumcenters vs. */
  function Clipped(vs: seq<Point>, maxX: real, maxY: real): seq<Point> {
    ClipPrefix(vs, |vs|, maxX, maxY)
  }

  /** At most two vertices per circumcenter. */
  lemma ClippedLength(vs: seq<Point>, k: nat, maxX: real, maxY: real)
    requires k <= |vs|
    ensures |ClipPrefix(vs, k, maxX, maxY)| <= 2 * k
  {
    var parts := Contributions(vs, maxX, maxY);
    forall i | 0 <= i < k
      ensures |parts[i]| <= 2
    {
      assert parts[i] == ClipVertex(vs, i, maxX, maxY);
    }
    ConcatLength(parts, k);
  }

  /** A circumcenter's contribution lies within 0 <= Y <= maxY. */
  lemma ClipVertexWithinBand(vs: seq<Point>, i: int, maxX: real, maxY: real)
    requires 0 <= i < |vs| && maxY >= 0.0
    ensures forall p :: p in ClipVertex(vs, i, maxX, maxY) ==> 0.0 <= p.y <= maxY
  {
  }

  /** Every vertex of a clipped region lies within 0 <= Y <= maxY. */
  lemma ClippedWithinBand(vs: seq<Point>, k: nat, maxX: real, maxY: real)
    requires k <= |vs| && maxY >= 0.0
    ensures forall p :: p in ClipPrefix(vs, k, maxX, maxY) ==> 0.0 <= p.y <= maxY
  {
    var parts := Contributions(vs, maxX, maxY);
    forall p | p in ClipPrefix(vs, k, maxX, maxY)
      ensures 0.0 <= p.y <= maxY
    {
      ConcatMembers(parts, k, p);
      var i :| 0 <= i < k && p in parts[i];
      assert parts[i] == ClipVertex(vs, i, maxX, maxY);
      ClipVertexWithinBand(vs, i, maxX, maxY);
    }
  }

  /** A region whose circumcenters all lie within the band is left as it is. */
  lemma {:induction false} ClippedIdentity(vs: seq<Point>, k: nat, maxX: real, maxY: real)
    requires k <= |vs|
    requires forall i :: 0 <= i < |vs| ==> 0.0 <= vs[i].y <= maxY
    ensures ClipPrefix(vs, k, maxX, maxY) == vs[..k]
  {
    if k > 0 {
      ClippedIdentity(vs, k - 1, maxX, maxY);
      assert vs[..k] == vs[..k - 1] + [vs[k - 1]];
    }
  }

  /** Every circumcenter within the band is kept. */
  lemma ClippedKeepsInBand(vs: seq<Point>, k: nat, maxX: real, maxY: real, i: int)
    requires k <= |vs| && 0 <= i < k && 0.0 <= vs[i].y <= maxY
    ensures vs[i] in ClipPrefix(vs, k, maxX, maxY)
  {
    var parts := Contributions(vs, maxX, maxY);
    assert parts[i] == ClipVertex(vs, i, maxX, maxY) == [vs[i]];
    ConcatMembers(parts, k, vs[i]);
  }

  /** One out-of-range circumcenter v: the crossings of its edges to the
      previous and the next circumcenter with `line`, both when both exist,
      else the one that exists. */
  method AppendCrossings(region: Polygon, v: Point, prev: Point, next: Point, line: Edge)
    modifies region`vertices
    ensures region.vertices == old(region.vertices) + Crossings(v, prev, next, line)
  {
    var edge1 := Edge(v, prev);
    var intersect1 := Intersection(edge1, line);
    var edge2 := Edge(v, next);
    var intersect2 := Intersection(edge2, line);
    if intersect1.Some? && intersect2.Some? {
      region.vertices := region.vertices + [intersect1.value];
      region.vertices := region.vertices + [intersect2.value];
    } else if intersect1.None? != intersect2.None? {
      if intersect1.None? {
        region.vertices := region.vertices + [intersect2.value];
      } else {
        region.vertices := region.vertices + [intersect1.value];
      }
    }
  }

  /** The region's vertex list holds, after what it started with, the
      contributions of the first i circumcenters. */
  ghost predicate ClippedUpTo(region: Polygon, start: seq<Point>, vertices: seq<Point>, i: int, maxX: real, maxY: real)
    reads region`vertices
  {
    0 <= i <= |vertices| && region.vertices == start + ClipPrefix(vertices, i, maxX, maxY)
  }

  lemma NothingClippedYet(start: seq<Point>, vertices: seq<Point>, maxX: real, maxY: real)
    ensures start + ClipPrefix(vertices, 0, maxX, maxY) == start
  {
    assert ClipPrefix(vertices, 0, maxX, maxY) == [];
  }

  /** One pass of the clipping loop: circumcenter i's contribution is
      appended to the region's vertex list. */
  method ClipStep(region: Polygon, vertices: seq<Point>, i: int, maxX: real, maxY: real, ghost start: seq<Point>)
    requires i < |vertices| && ClippedUpTo(region, start, vertices, i, maxX, maxY)
    modifies region`vertices
    ensures ClippedUpTo(region, start, vertices, i + 1, maxX, maxY)
  {
    ghost var before := region.vertices;
    AppendVertex(region, vertices, i, maxX, maxY);
    ClipLoopStep(start, before, region.vertices, vertices, i, maxX, maxY);
  }

  /** Circumcenter i's contribution is appended to the region's vertex list. */
  method AppendVertex(region: Polygon, vertices: seq<Point>, i: int, maxX: real, maxY: real)
    requires 0 <= i < |vertices|
    modifies region`vertices
    ensures region.vertices == old(region.vertices) + ClipVertex(vertices, i, maxX, maxY)
  {
    var n := |vertices|;
    var v, prev, next := vertices[i], vertices[Mod(i - 1, n)], vertices[(i + 1) % n];
    if v.y > maxY {
      AppendCrossings(region, v, prev, next, TopLine(maxX, maxY));
    } else if v.y < 0.0 {
      AppendCrossings(region, v, prev, next, BottomLine(maxX));
    } else {
      region.vertices := region.vertices + [v];
    }
  }

  /** The clipping loop: each circumcenter's contribution is appended to the
      region's vertex list. */
  method ClipRegion(region: Polygon, vertices: seq<Point>, maxX: real, maxY: real)
    modifies region`vertices
    ensures region.vertices == old(region.vertices) + Clipped(vertices, maxX, maxY)
  {
    ghost var start := region.vertices;
    NothingClippedYet(start, vertices, maxX, maxY);
    for i := 0 to |vertices|
      invariant ClippedUpTo(region, start, vertices, i, maxX, maxY)
    {
      ClipStep(region, vertices, i, maxX, maxY, start);
    }
  }

  // ---------------------------------------------------------------------
  // Which regions are kept
  // ---------------------------------------------------------------------

  /** The keep test on a {minX, maxX, minY, maxY} box: it reaches into the
      world [0, maxX] x [0, maxY] on both axes (edges included). */
  predicate Overlaps(box: seq<real>, maxX: real, maxY: real): (b: bool)
    requires |box| == 4
    ensures box[0] <= box[1] && box[2] <= box[3] && 0.0 <= maxX && 0.0 <= maxY ==>
      (b <==> Max(box[0], 0.0) <= Min(box[1], maxX) && Max(box[2], 0.0) <= Min(box[3], maxY))
  {
    box[0] <= maxX && box[1] >= 0.0 && box[2] <= maxY && box[3] >= 0.0
  }

  /** The keep test holds exactly when, on each side, some vertex is on the
      world's side of it. */
  lemma OverlapsIffVerticesReach(vs: seq<Point>, maxX: real, maxY: real)
    requires |vs| > 0
    ensures Overlaps(BoxOf(vs), maxX, maxY) <==>
      (exists i :: 0 <= i < |vs| && vs[i].x <= maxX) && (exists i :: 0 <= i < |vs| && vs[i].x >= 0.0) &&
      (exists i :: 0 <= i < |vs| && vs[i].y <= maxY) && (exists i :: 0 <= i < |vs| && vs[i].y >= 0.0)
  {
    BoxIsTight(vs);
    assert forall i :: 0 <= i < |vs| ==> vs[i] in vs;
  }

  /** A region with a vertex inside the world is kept. */
  lemma VertexInWorldIsKept(vs: seq<Point>, maxX: real, maxY: real, i: int)
    requires 0 <= i < |vs| && 0.0 <= vs[i].x <= maxX && 0.0 <= vs[i].y <= maxY
    ensures Overlaps(BoxOf(vs), maxX, maxY)
  {
    OverlapsIffVerticesReach(vs, maxX, maxY);
  }

  // ---------------------------------------------------------------------
  // GenerateRegionsFromDelaunay
  // ---------------------------------------------------------------------

  /** The circumcenters of the ordered triangles. */
  function Circumcenters(geo: TriangleGeometry, ts: seq<Triangle>): (cs: seq<Point>)
    ensures |cs| == |ts|
    ensures forall k :: 0 <= k < |ts| ==> cs[k] == geo.circumcenter(ts[k])
  {
    if |ts| == 0 then [] else Circumcenters(geo, ts[..|ts| - 1]) + [geo.circumcenter(ts[|ts| - 1])]
  }

  /** The region vertex list for an ordered triangle list. */
  function RegionVertices(geo: TriangleGeometry, ordered: seq<Triangle>, maxX: real, maxY: real): seq<Point> {
    Clipped(Circumcenters(geo, ordered), maxX, maxY)
  }

  /** The first and last triangles share an edge: the fan closes around the
      point. Otherwise the point is skipped. */
  predicate ClosesFan(geo: TriangleGeometry, ordered: seq<Triangle>) {
    |ordered| > 0 && geo.sharesEdgeWith(ordered[0], ordered[|ordered| - 1])
  }

  /** The cases in which the source throws: a point without triangles
      (indexing an empty list) or a closed fan whose clipped vertex list is
      empty (UpdateBoundingBox on no vertices). */
  predicate Fails(geo: TriangleGeometry, ordered: seq<Triangle>, maxX: real, maxY: real) {
    |ordered| == 0 || (ClosesFan(geo, ordered) && |RegionVertices(geo, ordered, maxX, maxY)| == 0)
  }

  /** Whether the fan of ordered triangles closes and gives a region that
      has vertices and passes the keep test. */
  predicate Keeps(geo: TriangleGeometry, ordered: seq<Triangle>, maxX: real, maxY: real) {
    var vs := RegionVertices(geo, ordered, maxX, maxY);
    ClosesFan(geo, ordered) && |vs| > 0 && Overlaps(BoxOf(vs), maxX, maxY)
  }

  /** The regions kept, as (Delaunay point, vertex list) pairs in point
      order, when points[k]'s triangles were put in the order orders[k]. */
  function KeptRegions(geo: TriangleGeometry, points: seq<Point>, orders: seq<seq<Triangle>>, maxX: real, maxY: real)
    : seq<(Point, seq<Point>)>
    requires |orders| <= |points|
  {
    if |orders| == 0 then []
    else
      var k := |orders| - 1;
      var kept := KeptRegions(geo, points, orders[..k], maxX, maxY);
      if Keeps(geo, orders[k], maxX, maxY) then kept + [(points[k], RegionVertices(geo, orders[k], maxX, maxY))]
      else kept
  }

  /** Every kept region belongs to one of the points, has vertices, passes
      the keep test and, for a world with a non-negative height,
      lies within 0 <= Y <= maxY. */
  lemma {:induction false} KeptRegionsAreInWorld(geo: TriangleGeometry, points: seq<Point>, orders: seq<seq<Triangle>>,
                                                  maxX: real, maxY: real)
    requires |orders| <= |points|
    ensures |KeptRegions(geo, points, orders, maxX, maxY)| <= |orders|
    ensures forall r :: r in KeptRegions(geo, points, orders, maxX, maxY) ==>
      && r.0 in points && |r.1| > 0 && Overlaps(BoxOf(r.1), maxX, maxY)
      && (maxY >= 0.0 ==> forall p :: p in r.1 ==> 0.0 <= p.y <= maxY)
  {
    if |orders| > 0 {
      var k := |orders| - 1;
      KeptRegionsAreInWorld(geo, points, orders[..k], maxX, maxY);
      var cs := Circumcenters(geo, orders[k]);
      if maxY >= 0.0 {
        ClippedWithinBand(cs, |cs|, maxX, maxY);
      }
    }
  }

  /** The regions match the kept pairs one for one, with current boxes. */
  ghost predicate RegionsMatch(regions: seq<Polygon>, kept: seq<(Point, seq<Point>)>)
    reads regions, set r | r in regions :: r.boundingBox
  {
    && |regions| == |kept|
    && forall k :: 0 <= k < |regions| ==>
         regions[k].delaunayPoint == kept[k].0 && regions[k].vertices == kept[k].1 && regions[k].BoxCurrent()
  }

  /** KeptRegions after one more point. */
  lemma KeptRegionsStep(geo: TriangleGeometry, points: seq<Point>, before: seq<seq<Triangle>>, ordered: seq<Triangle>,
                        maxX: real, maxY: real)
    requires |before| < |points|
    ensures KeptRegions(geo, points, before + [ordered], maxX, maxY) ==
      if Keeps(geo, ordered, maxX, maxY)
      then KeptRegions(geo, points, before, maxX, maxY) + [(points[|before|], RegionVertices(geo, ordered, maxX, maxY))]
      else KeptRegions(geo, points, before, maxX, maxY)
  {
    assert (before + [ordered])[..|before|] == before;
  }

  /** Appending a region that matches its pair keeps the match. */
  lemma RegionsMatchAppend(regions: seq<Polygon>, kept: seq<(Point, seq<Point>)>, region: Polygon, pair: (Point, seq<Point>))
    requires RegionsMatch(regions, kept)
    requires region.delaunayPoint == pair.0 && region.vertices == pair.1 && region.BoxCurrent()
    ensures RegionsMatch(regions + [region], kept + [pair])
  {
    var rs, ks := regions + [region], kept + [pair];
    forall k | 0 <= k < |rs|
      ensures rs[k].delaunayPoint == ks[k].0 && rs[k].vertices == ks[k].1 && rs[k].BoxCurrent()
    {
      if k < |regions| {
        assert rs[k] == regions[k] && ks[k] == kept[k];
      }
    }
  }

  /** A new region for `point` with the clipped circumcenters of the ordered
      triangles, and its bounding box. */
  method BuildRegion(geo: TriangleGeometry, point: Point, ordered: seq<Triangle>, maxX: real, maxY: real)
    returns (region: Polygon, ok: bool)
    ensures fresh(region)
    ensures region.delaunayPoint == point && region.vertices == RegionVertices(geo, ordered, maxX, maxY)
    ensures ok <==> |region.vertices| > 0
    ensures ok ==> fresh(region.boundingBox) && region.BoxCurrent()
  {
    region := new Polygon(point);
    var vertices := Circumcenters(geo, ordered);
    ClipRegion(region, vertices, maxX, maxY);
    ok := region.UpdateBoundingBox();
  }

  /** `ordered` lists the triangles of point's back-reference set, each once,
      in an order the ordering loop can produce. */
  ghost predicate OrderedAround(geo: TriangleGeometry, adjacent: Adjacency, point: Point, ordered: seq<Triangle>) {
    multiset(ordered) == multiset(AdjacentOf(adjacent, point)) && AdjacencyChained(geo.sharesEdgeWith, ordered)
  }

  /** OrderedAround for every point with an order so far, stated on
      prefixes. */
  ghost predicate OrdersAround(geo: TriangleGeometry, adjacent: Adjacency, points: seq<Point>, orders: seq<seq<Triangle>>)
    requires |orders| <= |points|
    decreases |orders|
  {
    |orders| == 0 ||
    (OrdersAround(geo, adjacent, points, orders[..|orders| - 1]) &&
     OrderedAround(geo, adjacent, points[|orders| - 1], orders[|orders| - 1]))
  }

  /** OrdersAround holds exactly when each order is OrderedAround its point. */
  lemma {:induction false} OrdersAroundEach(geo: TriangleGeometry, adjacent: Adjacency, points: seq<Point>,
                                            orders: seq<seq<Triangle>>)
    requires |orders| <= |points|
    ensures OrdersAround(geo, adjacent, points, orders) <==>
      forall k :: 0 <= k < |orders| ==> OrderedAround(geo, adjacent, points[k], orders[k])
  {
    if |orders| > 0 {
      var n := |orders| - 1;
      var before := orders[..n];
      OrdersAroundEach(geo, adjacent, points, before);
      assert forall k :: 0 <= k < n ==> before[k] == orders[k];
    }
  }

  /** The list copy of point.AdjacentTriangles and the ordering loop on it. */
  method OrderAround(geo: TriangleGeometry, adjacent: Adjacency, point: Point) returns (ordered: seq<Triangle>)
    ensures OrderedAround(geo, adjacent, point, ordered)
  {
    var list := Enumerate(AdjacentOf(adjacent, point));
    var triangles := new Triangle[|list|](k requires 0 <= k < |list| => list[k]);
    assert triangles[..] == list;
    OrderByAdjacency(triangles, geo.sharesEdgeWith);
    ordered := triangles[..];
  }

  /** One pass of the outer loop after the ordering: the fan check, the
      region with its clipped vertices and its box, and the keep test.
      `ok` is false where the source throws. */
  method RegionFor(geo: TriangleGeometry, point: Point, ordered: seq<Triangle>, maxX: real, maxY: real)
    returns (region: Option<Polygon>, ok: bool)
    ensures ok <==> !Fails(geo, ordered, maxX, maxY)
    ensures region.Some? <==> ok && Keeps(geo, ordered, maxX, maxY)
    ensures region.Some? ==>
      && fresh(region.value) && fresh(region.value.boundingBox)
      && region.value.delaunayPoint == point
      && region.value.vertices == RegionVertices(geo, ordered, maxX, maxY)
      && region.value.BoxCurrent()
  {
    if |ordered| == 0 {
      return None, false;
    }
    if !geo.sharesEdgeWith(ordered[0], ordered[|ordered| - 1]) {
      return None, true;
    }
    var polygon, built := BuildRegion(geo, point, ordered, maxX, maxY);
    if !built {
      return None, false;
    }
    var box := polygon.boundingBox;
    assert box[..] == BoxOf(polygon.vertices);
    if box[0] <= maxX && box[1] >= 0.0 && box[2] <= maxY && box[3] >= 0.0 {
      region := Some(polygon);
    } else {
      region := None;
    }
    ok := true;
  }

  /** The state of the outer loop of GenerateRegionsFromDelaunay after the
      points with an order in `orders`: each order is OrderedAround its
      point, none failed, and the regions match the kept ones. */
  ghost predicate Generated(geo: TriangleGeometry, adjacent: Adjacency, points: seq<Point>, orders: seq<seq<Triangle>>,
                            maxX: real, maxY: real, regions: seq<Polygon>)
    reads regions, set r | r in regions :: r.boundingBox
  {
    && |orders| <= |points|
    && OrdersAround(geo, adjacent, points, orders)
    && (forall k :: 0 <= k < |orders| ==> !Fails(geo, orders[k], maxX, maxY))
    && RegionsMatch(regions, KeptRegions(geo, points, orders, maxX, maxY))
  }

  /** OrdersAround after one more order. */
  lemma OrdersAroundStep(geo: TriangleGeometry, adjacent: Adjacency, points: seq<Point>,
                         orders: seq<seq<Triangle>>, ordered: seq<Triangle>)
    requires |orders| < |points| && OrdersAround(geo, adjacent, points, orders)
    requires OrderedAround(geo, adjacent, points[|orders|], ordered)
    ensures OrdersAround(geo, adjacent, points, orders + [ordered])
  {
    assert (orders + [ordered])[..|orders|] == orders;
  }

  /** The loop state after one more point that did not fail: its region,
      when kept, is appended. */
  lemma GeneratedStep(geo: TriangleGeometry, adjacent: Adjacency, points: seq<Point>, orders: seq<seq<Triangle>>,
                      ordered: seq<Triangle>, maxX: real, maxY: real, regions: seq<Polygon>,
                      region: Option<Polygon>, next: seq<Polygon>)
    requires |orders| < |points| && Generated(geo, adjacent, points, orders, maxX, maxY, regions)
    requires OrdersAround(geo, adjacent, points, orders + [ordered])
    requires !Fails(geo, ordered, maxX, maxY)
    requires region.Some? <==> Keeps(geo, ordered, maxX, maxY)
    requires region.Some? ==>
      && region.value.delaunayPoint == points[|orders|]
      && region.value.vertices == RegionVertices(geo, ordered, maxX, maxY)
      && region.value.BoxCurrent()
    requires next == if region.Some? then regions + [region.value] else regions
    ensures Generated(geo, adjacent, points, orders + [ordered], maxX, maxY, next)
  {
    var all := orders + [ordered];
    KeptRegionsStep(geo, points, orders, ordered, maxX, maxY);
    if region.Some? {
      RegionsMatchAppend(regions, KeptRegions(geo, points, orders, maxX, maxY), region.value,
                         (points[|orders|], region.value.vertices));
    }
    forall k | 0 <= k < |all|
      ensures !Fails(geo, all[k], maxX, maxY)
    {
      if k < |orders| {
        assert all[k] == orders[k];
      }
    }
  }

  /** One pass of the outer loop: point i's triangles are ordered and its
      region is built and kept or dropped. ok is false where the source
      throws. */
  method GenerateStep(geo: TriangleGeometry, adjacent: Adjacency, points: seq<Point>, maxX: real, maxY: real,
                      i: int, ghost orders: seq<seq<Triangle>>, regions: seq<Polygon>)
    returns (ordered: seq<Triangle>, next: seq<Polygon>, ok: bool)
    requires i == |orders| < |points| && Generated(geo, adjacent, points, orders, maxX, maxY, regions)
    ensures OrdersAround(geo, adjacent, points, orders + [ordered])
    ensures ok <==> !Fails(geo, ordered, maxX, maxY)
    ensures ok ==> Generated(geo, adjacent, points, orders + [ordered], maxX, maxY, next)
    ensures |next| >= |regions| && next[..|regions|] == regions
    ensures forall k :: |regions| <= k < |next| ==> fresh(next[k])
  {
    ordered := OrderAround(geo, adjacent, points[i]);
    OrdersAroundStep(geo, adjacent, points, orders, ordered);
    var region;
    region, ok := RegionFor(geo, points[i], ordered, maxX, maxY);
    next := regions;
    if ok && region.Some? {
      next := regions + [region.value];
    }
    if ok {
      GeneratedStep(geo, adjacent, points, orders, ordered, maxX, maxY, regions, region, next);
    }
  }

  /** Voronoi.GenerateRegionsFromDelaunay. The back references are the
      `adjacent` map; orders[k] is the order in which points[k]'s triangles
      ended up. The result is None where the source throws. */
  method GenerateRegionsFromDelaunay(geo: TriangleGeometry, adjacent: Adjacency, points: seq<Point>, maxX: real, maxY: real)
    returns (regions: Option<seq<Polygon>>, ghost orders: seq<seq<Triangle>>)
    ensures |orders| <= |points|
    ensures OrdersAround(geo, adjacent, points, orders)
    ensures forall k :: 0 <= k < |orders| - 1 ==> !Fails(geo, orders[k], maxX, maxY)
    ensures regions.None? ==> |orders| > 0 && Fails(geo, orders[|orders| - 1], maxX, maxY)
    ensures regions.Some? ==>
      && |orders| == |points|
      && (forall k :: 0 <= k < |orders| ==> !Fails(geo, orders[k], maxX, maxY))
      && RegionsMatch(regions.value, KeptRegions(geo, points, orders, maxX, maxY))
      && (forall k :: 0 <= k < |regions.value| ==> fresh(regions.value[k]))
  {
    var voronoiRegions: seq<Polygon> := [];
    orders := [];
    for i := 0 to |points|
      invariant |orders| == i
      invariant Generated(geo, adjacent, points, orders, maxX, maxY, voronoiRegions)
      invariant forall k :: 0 <= k < |voronoiRegions| ==> fresh(voronoiRegions[k])
    {
      var ordered, next, ok := GenerateStep(geo, adjacent, points, maxX, maxY, i, orders, voronoiRegions);
      if !ok {
        orders := orders + [ordered];
        return None, orders;
      }
      forall k | 0 <= k < |next|
        ensures fresh(next[k])
      {
        if k < |voronoiRegions| {
          assert next[k] == voronoiRegions[k];
        }
      }
      orders := orders + [ordered];
      voronoiRegions := next;
    }
    regions := Some(voronoiRegions);
  }

  // ---------------------------------------------------------------------
  // ConnectRegions
  // ---------------------------------------------------------------------

  /** Whether a region with vertex list vs claims the probe point: strictly
      inside its bounding box and inside by ray casting. */
  predicate Claims(vs: seq<Point>, p: Point) {
    |vs| > 0 && StrictlyInBox(BoxOf(vs), p) && RayCastInside(vs, p, Point(Hi(vs, X) + 1.0, p.y))
  }

  /** The probe for center's i-th edge: one unit beyond the edge's midpoint,
      away from the Delaunay point. */
  function Probe(center: Polygon, vs: seq<Point>, i: int): Point
    requires 0 <= i < |vs|
  {
    Extend(center.delaunayPoint, Midpoint(Edge(vs[i], vs[(i + 1) % |vs|])))
  }

  /** The position of the first region at or after position k, other than
      center, that claims the probe; |regions| when none does. shapes[j] is
      regions[j]'s vertex list. */
  function FirstClaimFrom(regions: seq<Polygon>, shapes: seq<seq<Point>>, center: Polygon, p: Point, k: nat)
    : (i: nat)
    requires |shapes| == |regions| && k <= |regions|
    ensures k <= i <= |regions|
    ensures i < |regions| ==> regions[i] != center && Claims(shapes[i], p)
    ensures forall j :: k <= j < i ==> regions[j] == center || !Claims(shapes[j], p)
    decreases |regions| - k
  {
    if k == |regions| then k
    else if regions[k] != center && Claims(shapes[k], p) then k
    else FirstClaimFrom(regions, shapes, center, p, k + 1)
  }

  /** The region the source records for a probe: the first one in
      enumeration order, other than center, that claims it; null if none. */
  function FirstClaimant(regions: seq<Polygon>, shapes: seq<seq<Point>>, center: Polygon, p: Point): Polygon?
    requires |shapes| == |regions|
  {
    var i := FirstClaimFrom(regions, shapes, center, p, 0);
    if i < |regions| then regions[i] else null
  }

  /** The neighbour slots for center's first k edges: slot i holds the
      first region, other than center, that claims the probe beyond edge i. */
  function NeighbourSlots(regions: seq<Polygon>, shapes: seq<seq<Point>>, center: Polygon, vs: seq<Point>, k: nat)
    : (slots: seq<Polygon?>)
    requires |shapes| == |regions| && k <= |vs|
    ensures |slots| == k
  {
    seq(k, i requires 0 <= i < k => FirstClaimant(regions, shapes, center, Probe(center, vs, i)))
  }

  /** One more edge adds one more slot at the end. */
  lemma NeighbourSlotsStep(regions: seq<Polygon>, shapes: seq<seq<Point>>, center: Polygon, vs: seq<Point>, i: int,
                           before: seq<Polygon?>, slot: Polygon?)
    requires |shapes| == |regions| && 0 <= i < |vs|
    requires before == NeighbourSlots(regions, shapes, center, vs, i)
    requires slot == FirstClaimant(regions, shapes, center, Probe(center, vs, i))
    ensures before + [slot] == NeighbourSlots(regions, shapes, center, vs, i + 1)
  {
    var longer := NeighbourSlots(regions, shapes, center, vs, i + 1);
    forall m | 0 <= m < i
      ensures longer[m] == before[m]
    {
    }
  }

  /** The vertex lists of the regions, in order. */
  function Shapes(regions: seq<Polygon>): (shapes: seq<seq<Point>>)
    reads regions`vertices
    ensures |shapes| == |regions|
    ensures forall k :: 0 <= k < |regions| ==> shapes[k] == regions[k].vertices
  {
    if |regions| == 0 then [] else Shapes(regions[..|regions| - 1]) + [regions[|regions| - 1].vertices]
  }

  /** A region with a current box claims a probe exactly when the two
      tests of the probe search both pass. */
  lemma ClaimsIffTests(region: Polygon, p: Point, inBox: bool, inside: bool)
    requires region.BoxCurrent()
    requires inBox == region.IsInBoundingBox(p)
    requires inside == RayCastInside(region.vertices, p, Point(region.boundingBox[1] + 1.0, p.y))
    ensures Claims(region.vertices, p) <==> inBox && inside
  {
  }

  /** A probe outside a region's current box is not claimed by it. */
  lemma OutsideBoxNoClaim(region: Polygon, p: Point)
    requires region.BoxCurrent() && !region.IsInBoundingBox(p)
    ensures !Claims(region.vertices, p)
  {
  }

  /** The probe search of ConnectRegions for one edge. */
  method FindAdjacentRegion(regions: seq<Polygon>, center: Polygon, extended: Point) returns (adjacentRegion: Polygon?)
    requires forall k :: 0 <= k < |regions| ==> regions[k].BoxCurrent()
    ensures adjacentRegion == FirstClaimant(regions, Shapes(regions), center, extended)
  {
    ghost var shapes := Shapes(regions);
    for k := 0 to |regions|
      invariant FirstClaimFrom(regions, shapes, center, extended, 0) == FirstClaimFrom(regions, shapes, center, extended, k)
    {
      var region := regions[k];
      assert shapes[k] == region.vertices;
      var inBox := region.IsInBoundingBox(extended);
      if region != center && inBox {
        var inside := region.IsInside(extended);
        ClaimsIffTests(region, extended, inBox, inside);
        if inside {
          return region;
        }
      } else if region != center {
        OutsideBoxNoClaim(region, extended);
      }
    }
    return null;
  }

  /** The neighbour slots of one region, one per edge, in edge order. */
  method ComputeSlots(regions: seq<Polygon>, center: Polygon) returns (adjacentRegions: seq<Polygon?>)
    requires forall k :: 0 <= k < |regions| ==> regions[k].BoxCurrent()
    ensures adjacentRegions == NeighbourSlots(regions, Shapes(regions), center, center.vertices, |center.vertices|)
  {
    ghost var shapes := Shapes(regions);
    var vs := center.vertices;
    adjacentRegions := [];
    for i := 0 to |vs|
      invariant adjacentRegions == NeighbourSlots(regions, shapes, center, vs, i)
    {
      var borderEdge := Edge(vs[i], vs[(i + 1) % |vs|]);
      var extended := Extend(center.delaunayPoint, Midpoint(borderEdge));
      var adjacentRegion := FindAdjacentRegion(regions, center, extended);
      NeighbourSlotsStep(regions, shapes, center, vs, i, adjacentRegions, adjacentRegion);
      adjacentRegions := adjacentRegions + [adjacentRegion];
    }
  }

  /** The first loop of ConnectRegions: every region's bounding box is
      refreshed. The source throws at the first region without vertices;
      here ok is false. */
  method RefreshBoxes(regions: seq<Polygon>) returns (ok: bool)
    modifies regions`boundingBox
    ensures ok <==> forall k :: 0 <= k < |regions| ==> |regions[k].vertices| > 0
    ensures ok ==> forall k :: 0 <= k < |regions| ==> regions[k].BoxCurrent()
  {
    for k := 0 to |regions|
      invariant forall m :: 0 <= m < k ==> regions[m].BoxCurrent() && fresh(regions[m].boundingBox)
    {
      ok := regions[k].UpdateBoundingBox();
      if !ok {
        return false;
      }
    }
    ok := true;
  }

  /** The neighbour slots of the first n regions, each for its own vertex
      list. */
  ghost function AllSlots(regions: seq<Polygon>, shapes: seq<seq<Point>>, n: nat): (slots: seq<seq<Polygon?>>)
    requires |shapes| == |regions| && n <= |regions|
    ensures |slots| == n
  {
    if n == 0 then []
    else AllSlots(regions, shapes, n - 1) + [NeighbourSlots(regions, shapes, regions[n - 1], shapes[n - 1], |shapes[n - 1]|)]
  }

  lemma {:induction false} AllSlotsAt(regions: seq<Polygon>, shapes: seq<seq<Point>>, n: nat, m: int)
    requires |shapes| == |regions| && n <= |regions| && 0 <= m < n
    ensures AllSlots(regions, shapes, n)[m] == NeighbourSlots(regions, shapes, regions[m], shapes[m], |shapes[m]|)
  {
    if m < n - 1 {
      AllSlotsAt(regions, shapes, n - 1, m);
    }
  }

  /** Regions holding their rows of the slot table hold their neighbour
      slots. */
  lemma SlotsFromTable(regions: seq<Polygon>, shapes: seq<seq<Point>>, slots: seq<seq<Polygon?>>)
    requires shapes == Shapes(regions) && slots == AllSlots(regions, shapes, |regions|)
    requires forall m :: 0 <= m < |regions| ==> regions[m].adjacentRegions == slots[m]
    ensures forall k :: 0 <= k < |regions| ==>
      regions[k].adjacentRegions == NeighbourSlots(regions, Shapes(regions), regions[k], regions[k].vertices, |regions[k].vertices|)
  {
    forall k | 0 <= k < |regions|
      ensures regions[k].adjacentRegions ==
        NeighbourSlots(regions, Shapes(regions), regions[k], regions[k].vertices, |regions[k].vertices|)
    {
      AllSlotsAt(regions, shapes, |regions|, k);
      assert shapes[k] == regions[k].vertices;
    }
  }

  /** One pass of the second loop of ConnectRegions: center gets its
      neighbour slots. */
  method AssignOne(regions: seq<Polygon>, center: Polygon, ghost expected: seq<Polygon?>)
    requires expected == NeighbourSlots(regions, Shapes(regions), center, center.vertices, |center.vertices|)
    requires forall k :: 0 <= k < |regions| ==> regions[k].BoxCurrent()
    modifies center`adjacentRegions
    ensures center.adjacentRegions == expected
  {
    var adjacentRegions := ComputeSlots(regions, center);
    center.adjacentRegions := adjacentRegions;
  }

  /** The second loop of ConnectRegions: each region gets one neighbour slot
      per edge. */
  method AssignSlots(regions: seq<Polygon>)
    requires forall k :: 0 <= k < |regions| ==> regions[k].BoxCurrent()
    modifies regions`adjacentRegions
    ensures forall k :: 0 <= k < |regions| ==> regions[k].BoxCurrent()
    ensures forall k :: 0 <= k < |regions| ==>
      regions[k].adjacentRegions == NeighbourSlots(regions, Shapes(regions), regions[k], regions[k].vertices, |regions[k].vertices|)
  {
    ghost var shapes := Shapes(regions);
    ghost var slots := AllSlots(regions, shapes, |regions|);
    for c := 0 to |regions|
      invariant Shapes(regions) == shapes
      invariant forall m :: 0 <= m < c ==> regions[m].adjacentRegions == slots[m]
    {
      AllSlotsAt(regions, shapes, |regions|, c);
      label Before:
      AssignOne(regions, regions[c], slots[c]);
      forall m | 0 <= m < c
        ensures regions[m].adjacentRegions == slots[m]
      {
        if regions[m] == regions[c] {
          AllSlotsAt(regions, shapes, |regions|, m);
        } else {
          assert regions[m].adjacentRegions == old@Before(regions[m].adjacentRegions);
        }
      }
    }
    SlotsFromTable(regions, shapes, slots);
  }

  /** Voronoi.ConnectRegions: refresh every bounding box, then fill in every
      region's neighbour slots. */
  method ConnectRegions(regions: seq<Polygon>) returns (ok: bool)
    modifies regions`boundingBox, regions`adjacentRegions
    ensures ok <==> forall k :: 0 <= k < |regions| ==> |regions[k].vertices| > 0
    ensures ok ==> forall k :: 0 <= k < |regions| ==>
      regions[k].BoxCurrent() &&
      regions[k].adjacentRegions == NeighbourSlots(regions, Shapes(regions), regions[k], regions[k].vertices, |regions[k].vertices|)
  {
    ok := RefreshBoxes(regions);
    if ok {
      AssignSlots(regions);
    }
  }
}
