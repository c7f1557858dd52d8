/** The Triangle type, seen only through the members the core uses. Its
    geometry (circumcircle test, edge sharing, circumcenter) and whether its
    constructor registers it with its vertices are not part of this model
    and are supplied as a TriangleGeometry value. */
module Triangles {
  import opened Basics
  import opened Edges

  /** A triangle object. `id` stands for the object's identity: triangles are
      compared by reference, and every constructed triangle gets an id no
      earlier triangle has. */
  datatype Triangle = Triangle(id: nat, v0: Point, v1: Point, v2: Point) {
    /** Triangle.Vertices, in construction order. */
    function Vertices(): seq<Point> {
      [v0, v1, v2]
    }
  }

  /** The Triangle members the core calls but whose bodies are not part of
      this model. */
  datatype TriangleGeometry = TriangleGeometry(
    isPointInsideCircumcircle: (Triangle, Point) -> bool,
    sharesEdgeWith: (Triangle, Triangle) -> bool,
    circumcenter: Triangle -> Point,
    /** Whether `new Triangle(a, b, c)` adds itself to the AdjacentTriangles
        of a, b and c. */
    registersWithVertices: bool)

  /** The three edges of a triangle, in the order FindHoleBoundaries lists
      them: each vertex to the next one, the last back to the first. */
  function EdgesOf(t: Triangle): (es: seq<Edge>)
    ensures |es| == 3
    ensures forall k :: 0 <= k < 3 ==> es[k] == Edge(t.Vertices()[k], t.Vertices()[(k + 1) % 3])
  {
    [Edge(t.v0, t.v1), Edge(t.v1, t.v2), Edge(t.v2, t.v0)]
  }

  /** Every pair of vertex positions is joined by one of the listed edges,
      in one direction or the other, and every edge joins two of them. */
  lemma EdgesJoinEveryPair(t: Triangle, i: int, j: int)
    requires 0 <= i < 3 && 0 <= j < 3 && i != j
    ensures exists k :: 0 <= k < 3 && EdgeEquals(EdgesOf(t)[k], Edge(t.Vertices()[i], t.Vertices()[j]))
    ensures forall e :: e in EdgesOf(t) ==> e.p1 in t.Vertices() && e.p2 in t.Vertices()
  {
    var k := if (i + 1) % 3 == j then i else j;
    assert EdgeEquals(EdgesOf(t)[k], Edge(t.Vertices()[i], t.Vertices()[j]));
  }

  /** Back references: each point's AdjacentTriangles set, held centrally. A
      point missing from the map has an empty set. */
  type Adjacency = map<Point, set<Triangle>>

  function AdjacentOf(adj: Adjacency, p: Point): set<Triangle> {
    if p in adj then adj[p] else {}
  }

  /** The triangles of a set that have p as a vertex. */
  function TrianglesAt(tris: set<Triangle>, p: Point): set<Triangle> {
    set t | t in tris && p in t.Vertices()
  }

  /** Every point's back-reference set is exactly the set of triangles that
      list it as a vertex. */
  ghost predicate BackReferencesExact(adj: Adjacency, tris: set<Triangle>) {
    forall p :: AdjacentOf(adj, p) == TrianglesAt(tris, p)
  }

  /** What the Triangle constructor does to the back references when it
      registers itself: t is added to the set of each of its vertices. */
  function Register(adj: Adjacency, t: Triangle): (r: Adjacency)
    ensures forall p :: AdjacentOf(r, p) == AdjacentOf(adj, p) + TrianglesAt({t}, p)
  {
    var a0 := adj[t.v0 := AdjacentOf(adj, t.v0) + {t}];
    var a1 := a0[t.v1 := AdjacentOf(a0, t.v1) + {t}];
    a1[t.v2 := AdjacentOf(a1, t.v2) + {t}]
  }
}
