# Delaunay triangulation and Voronoi regions, modelled in Dafny

This project models the core of DelaunayVoronoi, a small C# program that
draws a Voronoi map.
- It generates points: a fixed set or a random set, plus four corners whose
  two triangles form the initial border.
- It triangulates them with the Bowyer–Watson algorithm. For each point it
  finds the "bad" triangles whose circumcircle holds the point. It collects
  the edges of those triangles that are not shared, which form the hole
  boundary. It detaches the bad triangles from their vertices and refills
  the hole with a fan of new triangles around the point.
- It builds one Voronoi region per point. It orders the triangles around the
  point so that neighbours follow each other. It takes their circumcenters
  and clips them against the world's top and bottom lines. It keeps the
  regions whose bounding box overlaps the world.
- It connects the regions. For each edge of a region it probes one unit
  beyond the edge's midpoint and records the first other region that claims
  the probe, by bounding box and ray casting.

The modules follow the source files:

- `Basics` holds points and `Option`.
- `Edges` models `Edge.cs`: midpoint, slope, intercept, equality, the hash
  code, and the segment intersection with all of its cases.
- `Polygons` models `Polygon.cs`.
  - Functions: `Orientation`, `OnSegment`, `DoIntersect`, and the ray-cast
    inside test stated as a function.
  - The `Polygon` class holds the fields that `UpdateBoundingBox` and the
    Voronoi code update in place.
- `Triangles` holds the parts of `Triangle` that the core uses.
  - A triangle is a value with an identity number.
  - Its circumcircle test, `SharesEdgeWith` and `Circumcenter` are supplied
    as a `TriangleGeometry` record.
  - The `AdjacentTriangles` back references of all points are one map.
- `Delaunay` models `Delaunay.cs`.
  - The `Triangulator` class holds `MaxX`, `MaxY`, `border`, the back
    references and the counter that gives new triangles their identity.
  - Its methods are the point generators and `BowyerWatson`, with the hole
    boundary and the refill as methods of their own.
  - One insertion step is described by the relation `IsInsertion`, and the
    lemmas about that relation state what one step of the loop achieves.
- `Voronoi` models `Voronoi.cs`.
  - C#'s `%` and the `mod` helper.
  - `extend`.
  - The in-place adjacency ordering, on an `array`.
  - The clipping loop and the keep test.
  - `GenerateRegionsFromDelaunay`, stated against the value-level function
    `KeptRegions`.
  - `ConnectRegions`, stated against the function `NeighbourSlots`.

Coordinates are `real`s. Each method is proved against a function of its
inputs. The properties the program promises are proved as lemmas about those
functions.

Where the comments and the code disagree, the model follows the code.
`Edge.intersection`'s doc comment (Edge.cs:65-68) says that shared vertices
do not count. The code's range test is inclusive, though, so two non-vertical,
non-parallel edges that share an endpoint report that endpoint.
`SharedVertexIsReported` states this.

## Model

| member | source | states |
|---|---|---|
| Edges.Midpoint | DelaunayVoronoi/Edge.cs:9-17 | the midpoint is equally far from both endpoints on each axis |
| Edges.MidpointSymmetric | DelaunayVoronoi/Edge.cs:9-17 | reversing the edge leaves its midpoint unchanged |
| Edges.Slope | DelaunayVoronoi/Edge.cs:18-28 | no slope exactly for vertical edges; otherwise slope times the x-difference gives the y-difference |
| Edges.SlopeSymmetric | DelaunayVoronoi/Edge.cs:18-28 | the slope does not depend on the endpoint order |
| Edges.Intercept | DelaunayVoronoi/Edge.cs:29-40 | exactly the non-vertical edges have an intercept; both endpoints satisfy y = slope·x + intercept |
| Edges.OnLineIffEquation | DelaunayVoronoi/Edge.cs:18-40 | for a non-vertical edge, a point is on its line if and only if it satisfies slope/intercept |
| Edges.EdgeEquals | DelaunayVoronoi/Edge.cs:48-57 | two edges are equal exactly when they have the same unordered pair of endpoints (equal endpoint multisets) |
| Edges.EqualsReversed | DelaunayVoronoi/Edge.cs:48-57 | an edge equals its reversal |
| Edges.EqualsIsEquivalence | DelaunayVoronoi/Edge.cs:48-57 | edge equality is reflexive, symmetric and transitive |
| Edges.HashCode | DelaunayVoronoi/Edge.cs:59-63 | the hash is the xor of the four truncated coordinates in the source's left-to-right order, though computed grouped by endpoint |
| Edges.HashRespectsEquals | DelaunayVoronoi/Edge.cs:59-63 | equal edges have equal hash codes, so GroupBy and HashSet may rely on them |
| Edges.Intersection | DelaunayVoronoi/Edge.cs:71-117 | two vertical edges, or two edges of equal slope, never intersect |
| Edges.CrossingOnBothLines | DelaunayVoronoi/Edge.cs:84-86 | the computed x lies on both lines: both line equations give the same y there |
| Edges.CrossingPointUnique | DelaunayVoronoi/Edge.cs:84-93 | for non-parallel, non-vertical edges, the computed point is the one and only point on both lines |
| Edges.IntersectionGeneral | DelaunayVoronoi/Edge.cs:84-94 | in the general case, a point is returned if and only if it lies on both lines and within both x-ranges |
| Edges.IntersectionOtherVertical | DelaunayVoronoi/Edge.cs:96-103 | against a vertical edge, a point is returned if and only if it is on this line, on the vertical's x, and strictly inside its y-range |
| Edges.IntersectionThisVertical | DelaunayVoronoi/Edge.cs:105-115 | the mirror case: this edge is vertical and the other is not |
| Edges.IntersectionSymmetric | DelaunayVoronoi/Edge.cs:71-117 | the intersection does not depend on which edge is asked |
| Edges.SharedVertexIsReported | DelaunayVoronoi/Edge.cs:65-94 | two non-vertical, non-parallel edges from a common point report that point, despite the doc comment |
| Edges.IntersectionOnBothLines | DelaunayVoronoi/Edge.cs:71-117 | any reported point lies on both edges' lines |
| Edges.IntersectionWithHorizontal | DelaunayVoronoi/Edge.cs:71-117 | a point reported against a horizontal edge has that edge's y (a zero-length edge crosses nothing) |
| Polygons.Orientation | DelaunayVoronoi/Polygon.cs:129-142 | the result is in -1..1; it is 0 exactly for collinear points and 1 exactly for a negative cross product (clockwise) |
| Polygons.OrientationSwap | DelaunayVoronoi/Polygon.cs:129-142 | swapping the last two points negates the orientation |
| Polygons.OrientationReverse | DelaunayVoronoi/Polygon.cs:129-142 | swapping the first two points negates the orientation |
| Polygons.OrientationRotate | DelaunayVoronoi/Polygon.cs:129-142 | rotating the three points keeps the orientation |
| Polygons.OrientationOnHorizontal | DelaunayVoronoi/Polygon.cs:129-142 | against a horizontal ray, the orientation is the sign of the ray direction times the height of the point |
| Polygons.OnSegment | DelaunayVoronoi/Polygon.cs:85-92 | true exactly when q lies between p and r on the x axis and on the y axis |
| Polygons.OnSegmentSymmetric | DelaunayVoronoi/Polygon.cs:85-92 | the box test is symmetric in the end points and holds at each end point |
| Polygons.DoIntersect | DelaunayVoronoi/Polygon.cs:94-119 | two segments that properly cross, each with its end points strictly on opposite sides of the other's line, are reported as intersecting |
| Polygons.DoIntersectSymmetric | DelaunayVoronoi/Polygon.cs:94-119 | segment intersection does not depend on which segment comes first |
| Polygons.DoIntersectReversed | DelaunayVoronoi/Polygon.cs:94-119 | reversing a segment does not change the answer |
| Polygons.DoIntersectSharedEndpoint | DelaunayVoronoi/Polygon.cs:94-119 | segments with a common end point always intersect |
| Polygons.OnSegmentIffOnClosedSegment | DelaunayVoronoi/Polygon.cs:83-92 | for a point on the line through p and r, the box test holds exactly when the point lies on the closed segment pr |
| Polygons.CrossingIsOnBoth | DelaunayVoronoi/Polygon.cs:96-103 | when each segment's end points differ in orientation against the other's line, the two closed segments share a point |
| Polygons.DoIntersectSound | DelaunayVoronoi/Polygon.cs:94-119 | whenever an intersection is reported, the two closed segments share a point (the crossing point, or the collinear end point of a special case) |
| Polygons.NoTouchOffTheRayLine | DelaunayVoronoi/Polygon.cs:94-119 | a segment wholly above or wholly below a horizontal ray does not meet it |
| Polygons.LoIsAttainedBound | DelaunayVoronoi/Polygon.cs:29-51 | the minimum of the scan bounds every vertex's coordinate and is attained by one |
| Polygons.HiIsAttainedBound | DelaunayVoronoi/Polygon.cs:29-51 | the maximum of the scan bounds every vertex's coordinate and is attained by one |
| Polygons.BoxIsTight | DelaunayVoronoi/Polygon.cs:29-51 | every vertex lies in the box {minX, maxX, minY, maxY}, and each of the four bounds is some vertex's coordinate |
| Polygons.BoxEdgeIsOutside | DelaunayVoronoi/Polygon.cs:53-60 | a point on the box's border is not inside it: the test is strict |
| Polygons.StrictlyInBoxIsBetweenVertices | DelaunayVoronoi/Polygon.cs:53-60 | a point inside the box lies strictly between two vertices on each axis |
| Polygons.FirstDecisiveIsLeast | DelaunayVoronoi/Polygon.cs:66-77 | the collinear early return fires at the least edge that touches the ray collinearly, and at none if there is no such edge |
| Polygons.RayCastIsParity | DelaunayVoronoi/Polygon.cs:64-78 | without a collinear touch, inside means an odd number of touched edges |
| Polygons.PointOnFirstEdgeIsInside | DelaunayVoronoi/Polygon.cs:71-74 | a point on the polygon's first edge counts as inside |
| Polygons.NoTouchNoCount | DelaunayVoronoi/Polygon.cs:64-78 | edges that do not touch the ray add nothing to the count |
| Polygons.PointOffVerticalRangeIsOutside | DelaunayVoronoi/Polygon.cs:62-79 | a point above or below every vertex is outside |
| Polygons.Polygon.constructor | DelaunayVoronoi/Polygon.cs:23-26 | a new region has the given Delaunay point, no vertices, no neighbours and no box |
| Polygons.Polygon.UpdateBoundingBox | DelaunayVoronoi/Polygon.cs:29-51 | succeeds exactly when there are vertices; the new box is then the tight box of the vertices; otherwise nothing changes |
| Polygons.Polygon.IsInBoundingBox | DelaunayVoronoi/Polygon.cs:53-60 | with a current box: true exactly for points strictly between the vertices' extremes on both axes |
| Polygons.Polygon.IsInside | DelaunayVoronoi/Polygon.cs:62-79 | the loop returns the ray-cast answer toward x = maxX + 1 (first collinear edge decides, else parity) |
| Triangles.EdgesOf | DelaunayVoronoi/Delaunay.cs:123-125 | exactly three edges: the k-th runs from vertex k to vertex k + 1, the last back to vertex 0 |
| Triangles.EdgesJoinEveryPair | DelaunayVoronoi/Delaunay.cs:123-125 | every pair of distinct vertex positions is joined by one listed edge up to Edge.Equals, and every listed edge joins two vertices |
| Triangles.Register | DelaunayVoronoi/Delaunay.cs:109 | constructing a triangle adds it to the back-reference set of each of its vertices and nothing else |
| Delaunay.FindBadTriangles | DelaunayVoronoi/Delaunay.cs:148-152 | the bad triangles are exactly those of the triangulation whose circumcircle holds the point |
| Delaunay.ListingStep | DelaunayVoronoi/Delaunay.cs:121-126 | each visited triangle extends the enumeration of the set and adds its three edges to the list |
| Delaunay.EdgeListLength | DelaunayVoronoi/Delaunay.cs:120-126 | the edge list has three edges per bad triangle |
| Delaunay.EdgeListMembers | DelaunayVoronoi/Delaunay.cs:120-126 | every listed edge is an edge of some bad triangle |
| Delaunay.MultiplicityRespectsEquals | DelaunayVoronoi/Delaunay.cs:129 | grouping counts by Edge.Equals: equal edges have equal counts |
| Delaunay.SinglesOfMultiplicity | DelaunayVoronoi/Delaunay.cs:129 | filtering keeps an edge's occurrences exactly when it occurs once in the whole list |
| Delaunay.HoleBoundaryIsMultiplicityOne | DelaunayVoronoi/Delaunay.cs:127-131 | the hole boundary holds an edge once if it was unshared among the bad triangles, and otherwise not at all |
| Delaunay.SinglesOfMembers | DelaunayVoronoi/Delaunay.cs:129-131 | an edge is kept if and only if it is listed and occurs exactly once |
| Delaunay.HoleBoundaryFromBadTriangles | DelaunayVoronoi/Delaunay.cs:118-132 | every boundary edge is an unshared edge of a bad triangle |
| Delaunay.HoleBoundaryLength | DelaunayVoronoi/Delaunay.cs:118-132 | the hole boundary has at most three edges per bad triangle |
| Delaunay.OutwardMembers | DelaunayVoronoi/Delaunay.cs:107 | the refilled edges are exactly the boundary edges that do not touch the point |
| Delaunay.NewTrianglesIds | DelaunayVoronoi/Delaunay.cs:109 | the new triangles' identities are consecutive from the first fresh one |
| Delaunay.NewTrianglesShape | DelaunayVoronoi/Delaunay.cs:107-111 | the fan has one distinct triangle per refilled edge, the k-th built on the k-th edge |
| Delaunay.RegisterAddsBackReference | DelaunayVoronoi/Delaunay.cs:109 | registering one more triangle extends what the refill added to the back references |
| Delaunay.InsertionOutcome | DelaunayVoronoi/Delaunay.cs:88-112 | after inserting a point, an old triangle survives exactly when it was not bad; every new triangle is (point, e) for a boundary edge e that misses the point; the size changes by fan minus bad |
| Delaunay.InsertionKeepsGood | DelaunayVoronoi/Delaunay.cs:91-104 | old triangles survive an insertion exactly when their circumcircle misses the point |
| Delaunay.InsertionAddsFan | DelaunayVoronoi/Delaunay.cs:107-111 | every triangle an insertion adds joins the point to an unshared boundary edge not touching it |
| Delaunay.InsertionCount | DelaunayVoronoi/Delaunay.cs:104-111 | the triangulation loses its bad triangles and gains one triangle per fan edge |
| Delaunay.TraceExtends | DelaunayVoronoi/Delaunay.cs:88-112 | one more insertion step extends the trace of triangulations over the points so far |
| Delaunay.RefillKeepsExact | DelaunayVoronoi/Delaunay.cs:95-111 | detaching the bad triangles and registering the new ones keeps every point's back references exactly its triangles |
| Delaunay.ScaledDrawInRange | DelaunayVoronoi/Delaunay.cs:75-76 | a draw from [0, 1) scaled by a positive bound lies in [0, bound) |
| Delaunay.DuplicatePoints | DelaunayVoronoi/Delaunay.cs:43-48 | each fixed point gives two copies in order, shifted left and right by maxX |
| Delaunay.RandomPoints | DelaunayVoronoi/Delaunay.cs:72-78 | one point per draw for amount - 4 draws (none if negative), each inside the world when the world is non-empty |
| Delaunay.Triangulator.constructor | DelaunayVoronoi/Delaunay.cs:9-11 | a triangulator starts with no border, no back references and zero extents |
| Delaunay.Triangulator.NewTriangle | DelaunayVoronoi/Delaunay.cs:109 | a new triangle has a fresh identity and is registered with its vertices when the constructor does so |
| Delaunay.Triangulator.SeedBorder | DelaunayVoronoi/Delaunay.cs:25-32 | the border becomes the two corner triangles (c0, c1, c2) and (c0, c2, c3), and the back references are exactly theirs |
| Delaunay.Triangulator.GenerateFixedPoints | DelaunayVoronoi/Delaunay.cs:19-55 | sixteen points: the four outer corners, the four fixed points and their left/right copies in order; the border is the two corner triangles |
| Delaunay.Triangulator.GeneratePoints | DelaunayVoronoi/Delaunay.cs:57-81 | the four world corners and then the scaled draws; the border is the two corner triangles |
| Delaunay.Triangulator.DetachBadTriangles | DelaunayVoronoi/Delaunay.cs:95-102 | every point's back references lose exactly the bad triangles at that point |
| Delaunay.Triangulator.FillCavity | DelaunayVoronoi/Delaunay.cs:107-111 | the triangulation gains exactly the fan over the boundary edges that miss the point, with consecutive fresh identities, registered |
| Delaunay.Triangulator.FillEdge | DelaunayVoronoi/Delaunay.cs:108-110 | one refill step keeps the fill invariant for one more boundary edge |
| Delaunay.Triangulator.FindHoleBoundaries | DelaunayVoronoi/Delaunay.cs:118-132 | the result is the multiplicity-one edges of the edge list, in the order in which the bad set was enumerated; at most three per bad triangle |
| Delaunay.Triangulator.BowyerWatson | DelaunayVoronoi/Delaunay.cs:83-116 | fails exactly when no border was generated; otherwise the result ends a trace of insertion steps from the border, with exact back references kept |
| Voronoi.CsRem | DelaunayVoronoi/Voronoi.cs:187 | C#'s remainder: dividend = truncated quotient · divisor + remainder, with the remainder's sign following the dividend and its size below the divisor's |
| Voronoi.Mod | DelaunayVoronoi/Voronoi.cs:185-188 | for a positive modulus, the result is the non-negative remainder |
| Voronoi.ModShift | DelaunayVoronoi/Voronoi.cs:187 | (x % m + m) % m with C#'s % is the mathematical modulus |
| Voronoi.ModPrevious | DelaunayVoronoi/Voronoi.cs:59 | mod(i - 1, n) is the previous index around the list, wrapping from 0 to n - 1 |
| Voronoi.Extend | DelaunayVoronoi/Voronoi.cs:166-175 | on each axis the result lies on the same side of the center as the border, one unit further, unless the two agree |
| Voronoi.Enumerate | DelaunayVoronoi/Voronoi.cs:34 | the list holds the set's triangles, each once |
| Voronoi.SwapKeepsChain | DelaunayVoronoi/Voronoi.cs:39-44 | moving the found neighbour to slot i + 1 chains one more slot, keeps the earlier slots and permutes the list |
| Voronoi.OrderByAdjacency | DelaunayVoronoi/Voronoi.cs:35-47 | the in-place pass permutes the triangles, keeps the first, and leaves each one followed by a neighbour when a later one exists |
| Voronoi.Pick | DelaunayVoronoi/Voronoi.cs:65-85 | the intersections that exist, each once, the first edge's before the second's |
| Voronoi.Crossings | DelaunayVoronoi/Voronoi.cs:59-85 | at most two points, each on the boundary line and on the line of one of the circumcenter's two incident edges |
| Voronoi.CrossingsOnHorizontal | DelaunayVoronoi/Voronoi.cs:57-119 | against a horizontal boundary line, every crossing has that line's Y |
| Voronoi.ClipVertex | DelaunayVoronoi/Voronoi.cs:57-123 | at most two vertices: the circumcenter itself inside the band, points with Y = maxY above it, points with Y = 0 below it |
| Voronoi.ClippedLength | DelaunayVoronoi/Voronoi.cs:55-124 | the clipped region has at most twice as many vertices as circumcenters |
| Voronoi.ClipVertexWithinBand | DelaunayVoronoi/Voronoi.cs:57-123 | for a non-negative maxY, every contributed vertex has 0 <= Y <= maxY |
| Voronoi.ClippedWithinBand | DelaunayVoronoi/Voronoi.cs:55-124 | for a non-negative maxY, every vertex of a clipped region lies within the world's band |
| Voronoi.ClippedIdentity | DelaunayVoronoi/Voronoi.cs:120-123 | circumcenters that are all inside the band are kept as they are |
| Voronoi.ClippedKeepsInBand | DelaunayVoronoi/Voronoi.cs:120-123 | a circumcenter inside the band is a vertex of the region |
| Voronoi.AppendCrossings | DelaunayVoronoi/Voronoi.cs:57-87 | an out-of-band circumcenter appends the crossings of its two incident edges with the boundary line, in order |
| Voronoi.AppendVertex | DelaunayVoronoi/Voronoi.cs:57-123 | one pass of the clip loop appends exactly that circumcenter's contribution |
| Voronoi.ClipRegion | DelaunayVoronoi/Voronoi.cs:55-124 | the region's vertices become the old vertices followed by the clipped circumcenter list |
| Voronoi.Overlaps | DelaunayVoronoi/Voronoi.cs:127-128 | for an ordered box and a non-empty world, the box meets the world rectangle on both axes |
| Voronoi.OverlapsIffVerticesReach | DelaunayVoronoi/Voronoi.cs:127-128 | the keep test holds if and only if, on each side, some vertex reaches into the world |
| Voronoi.VertexInWorldIsKept | DelaunayVoronoi/Voronoi.cs:126-131 | a region with a vertex inside the world is kept |
| Voronoi.Circumcenters | DelaunayVoronoi/Voronoi.cs:54 | one circumcenter per triangle, in order |
| Voronoi.KeptRegionsAreInWorld | DelaunayVoronoi/Voronoi.cs:120-131 | at most one region per point; every kept region belongs to a Delaunay point, has vertices, overlaps the world and, when maxY is non-negative, lies within its band |
| Voronoi.BuildRegion | DelaunayVoronoi/Voronoi.cs:53-126 | a fresh region for the point with the clipped circumcenters; its box is updated exactly when it has vertices |
| Voronoi.OrderAround | DelaunayVoronoi/Voronoi.cs:34-47 | the point's triangles, each once, ordered so that neighbours follow each other |
| Voronoi.RegionFor | DelaunayVoronoi/Voronoi.cs:48-131 | fails exactly on an empty fan or an empty clipped region; gives a region exactly when the fan closes and the region is kept |
| Voronoi.GenerateStep | DelaunayVoronoi/Voronoi.cs:32-132 | one point's pass keeps the regions built so far, matching the specification for one more point |
| Voronoi.GenerateRegionsFromDelaunay | DelaunayVoronoi/Voronoi.cs:25-134 | fails only at a point whose pass throws; otherwise the regions are exactly KeptRegions for the points and their triangle orders |
| Voronoi.FirstClaimFrom | DelaunayVoronoi/Voronoi.cs:151-158 | the index found is the first region other than the center that claims the probe, or the end |
| Voronoi.NeighbourSlots | DelaunayVoronoi/Voronoi.cs:146-160 | one slot per edge of the center region |
| Voronoi.ClaimsIffTests | DelaunayVoronoi/Voronoi.cs:153 | a region claims a probe exactly when both its box test and its inside test pass |
| Voronoi.OutsideBoxNoClaim | DelaunayVoronoi/Voronoi.cs:153 | a region whose box excludes the probe does not claim it |
| Voronoi.FindAdjacentRegion | DelaunayVoronoi/Voronoi.cs:150-158 | the search returns the first claimant of the probe other than the center, or null |
| Voronoi.ComputeSlots | DelaunayVoronoi/Voronoi.cs:145-160 | the list holds, for each edge in order, the first claimant of the probe beyond its midpoint |
| Voronoi.RefreshBoxes | DelaunayVoronoi/Voronoi.cs:138-141 | succeeds exactly when every region has vertices; every box is then current |
| Voronoi.AssignOne | DelaunayVoronoi/Voronoi.cs:145-161 | the center's neighbour list becomes its slot list |
| Voronoi.AssignSlots | DelaunayVoronoi/Voronoi.cs:143-162 | every region's neighbour list becomes the first claimants over its own edges, against the unchanged vertex lists |
| Voronoi.ConnectRegions | DelaunayVoronoi/Voronoi.cs:136-164 | fails exactly when a region has no vertices; otherwise every box is current and every neighbour list is the first-claimant list over that region's edges |

## Left out

- The WPF window (`MainWindow.xaml.cs`), drawing and console output are not modelled: they are presentation only.
- `GenerateSupraTriangle` (Delaunay.cs:134-146) is not modelled because no caller uses it. Its only call site is commented out.
- `AddRegionEdgeNoise` (Voronoi.cs:177-181) is not modelled because it builds a local set and returns nothing. It has no effect.
- `GenerateEdgesFromDelaunay` (Voronoi.cs:9-23) is not modelled. It only maps triangles to circumcenter edges through `Triangle` members, and `Triangle.cs` is not part of this model.
- `Triangle.cs` and `Point.cs` are not part of this model. The circumcircle test, `SharesEdgeWith` and `Circumcenter` are parameters (`TriangleGeometry`). So is whether the `Triangle` constructor registers itself with its vertices.
- Triangles.Triangle.Vertices: the list is assumed to hold the constructor's arguments in argument order. `Triangle.cs` is not part of this model. The order of the hole-boundary edges and the vertex order of refilled triangles (`InsertionAddsFan`) rest on this assumption.
- Triangles are compared by an identity number that stands for C# reference identity. Points are compared by their coordinates.
- Arithmetic is exact over `real`. IEEE double rounding, NaN and infinities are not modelled, so a division by a tiny slope difference is exact here.
- Polygons.DoIntersect: the converse of `DoIntersectSound` is stated only for proper crossings and for a shared end point. That touching and collinear overlapping segments are reported as well is not proved; it needs a case analysis of the collinear positions that the model does not carry out.
- Edges.HashCode: `(int)` casts are modelled as truncation toward zero followed by wrap-around to 32 bits. C# leaves the conversion of out-of-range doubles unspecified, so this is a stronger assumption than the runtime gives.
- The equality checks of `Edge.Equals` against null and against another type (Edge.cs:50-51) are not modelled: edges here are always edges.
- `Random` is not modelled. Its draws in [0, 1) are passed in as a sequence.
- The enumeration order of a `HashSet` is not modelled. It is an arbitrary choice: `Enumerate` picks elements nondeterministically, and `FindHoleBoundaries` and `BowyerWatson` return the order they used as ghost outputs. Voronoi's region set is a sequence in insertion order, and `Polygon` has no custom equality, so the set adds every region once.
- Exceptions are modelled as results. `First()` on an empty vertex list, `triangles[0]` on a point without triangles and a null `border` become `false` or `None`.
- Polygons.Polygon.constructor: `AdjacentRegions` starts as null in the source. It is modelled as the empty list because nothing reads it before `ConnectRegions` assigns it.
- Delaunay.Triangulator.BowyerWatson: the empty-circumcircle (Delaunay) property of the result is not stated. It depends on the circumcircle geometry, which is a parameter here. The lemmas state instead what each insertion keeps, removes and adds.
- Voronoi.GenerateRegionsFromDelaunay: the regions are compared by their Delaunay point, vertex list and box. The ordered triangles are a ghost output because the order follows `HashSet` enumeration.
