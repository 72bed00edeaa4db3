/** A triangle of the mesh, its combinatorial part only
    (Sources/Triangulate/Triangle.swift): three stored corners, the three
    edges in a fixed cyclic order, the corner set, and an equality that
    looks only at the corner set. The circumcircle arithmetic is not part
    of this module; the mesh takes the in-circumcircle test as a parameter. */
module Triangles {
  import opened Edges

  datatype Triangle<V(==)> = Triangle(vertexA: V, vertexB: V, vertexC: V) {

    /** Corner `k` in construction order. */
    function Corner(k: nat): V
      requires k < 3
    {
      if k == 0 then vertexA else if k == 1 then vertexB else vertexC
    }

    /** The edges, each running from one corner to the next, cyclically. */
    function Edges(): (r: seq<Edge<V>>)
      ensures |r| == 3
    {
      [Edge(vertexA, vertexB), Edge(vertexB, vertexC), Edge(vertexC, vertexA)]
    }

    /** The three corners are pairwise distinct. */
    predicate Proper() {
      vertexA != vertexB && vertexB != vertexC && vertexC != vertexA
    }

    /** The corner set: never empty, and of size three exactly when the
        corners are pairwise distinct. */
    function Vertices(): (r: set<V>)
      ensures vertexA in r && vertexB in r && vertexC in r
      ensures forall x :: x in r ==> x == vertexA || x == vertexB || x == vertexC
      ensures 1 <= |r| <= 3
      ensures |r| == 3 <==> Proper()
    {
      var r := {vertexA, vertexB, vertexC};
      assert r == {vertexA, vertexB} + {vertexC};
      r
    }

    /** `edges.contains(e)`: some edge of this triangle equals `e` as an
        unordered pair. */
    predicate HasEdge(e: Edge<V>) {
      var es := Edges();
      EdgeEq(es[0], e) || EdgeEq(es[1], e) || EdgeEq(es[2], e)
    }
  }

  /** Edge `k` runs from corner `k` to the next corner, cyclically, so
      every edge joins two corners of the triangle. */
  lemma EdgesJoinCorners<V>(t: Triangle<V>, k: nat)
    requires k < 3
    ensures t.Edges()[k] == Edge(t.Corner(k), t.Corner((k + 1) % 3))
    ensures t.Edges()[k].Vertices() <= t.Vertices()
  {
  }

  /** Swift's `==` on triangles: the corner sets coincide. */
  predicate TriEq<V(==)>(t1: Triangle<V>, t2: Triangle<V>) {
    t1.Vertices() == t2.Vertices()
  }

  /** Construction order never matters: all six orderings are equal. */
  lemma TriEqPermutations<V>(a: V, b: V, c: V)
    ensures TriEq(Triangle(a, b, c), Triangle(a, c, b))
    ensures TriEq(Triangle(a, b, c), Triangle(b, a, c))
    ensures TriEq(Triangle(a, b, c), Triangle(b, c, a))
    ensures TriEq(Triangle(a, b, c), Triangle(c, a, b))
    ensures TriEq(Triangle(a, b, c), Triangle(c, b, a))
  {
  }

  lemma TriEqReflexive<V>(t: Triangle<V>)
    ensures TriEq(t, t)
  {
  }

  lemma TriEqSymmetric<V>(t1: Triangle<V>, t2: Triangle<V>)
    ensures TriEq(t1, t2) ==> TriEq(t2, t1)
  {
  }

  lemma TriEqTransitive<V>(t1: Triangle<V>, t2: Triangle<V>, t3: Triangle<V>)
    ensures TriEq(t1, t2) && TriEq(t2, t3) ==> TriEq(t1, t3)
  {
  }

  /** In a triangle with three distinct corners, any two distinct corners
      are joined by one of its edges. */
  lemma PairIsEdge<V>(t: Triangle<V>, x: V, y: V)
    requires |t.Vertices()| == 3
    requires x in t.Vertices() && y in t.Vertices() && x != y
    ensures t.HasEdge(Edge(x, y))
  {
    var es := t.Edges();
    if {x, y} == {t.vertexA, t.vertexB} {
      assert EdgeEq(es[0], Edge(x, y));
    } else if {x, y} == {t.vertexB, t.vertexC} {
      assert EdgeEq(es[1], Edge(x, y));
    } else {
      assert {x, y} == {t.vertexC, t.vertexA};
      assert EdgeEq(es[2], Edge(x, y));
    }
  }

  /** Equal triangles with three distinct corners have the same edges up to
      edge equality, whatever order each was built in; this is what makes
      the shared-edge test of the boundary search independent of how the
      two neighbouring triangles were constructed. */
  lemma EqualTrianglesShareEdges<V>(t1: Triangle<V>, t2: Triangle<V>, k: nat)
    requires TriEq(t1, t2) && |t1.Vertices()| == 3
    requires k < 3
    ensures t2.HasEdge(t1.Edges()[k])
  {
    var e := t1.Edges()[k];
    PairIsEdge(t2, e.vertexA, e.vertexB);
    assert e == Edge(e.vertexA, e.vertexB);
  }

  /** Hence `edges.contains` gives the same answer on equal triangles. */
  lemma HasEdgeRespectsTriEq<V>(t1: Triangle<V>, t2: Triangle<V>, e: Edge<V>)
    requires TriEq(t1, t2) && |t1.Vertices()| == 3
    ensures t1.HasEdge(e) <==> t2.HasEdge(e)
  {
    if t1.HasEdge(e) {
      var k :| 0 <= k < 3 && EdgeEq(t1.Edges()[k], e);
      EqualTrianglesShareEdges(t1, t2, k);
      var j :| 0 <= j < 3 && EdgeEq(t2.Edges()[j], t1.Edges()[k]);
      EdgeEqTransitive(t2.Edges()[j], t1.Edges()[k], e);
    }
    if t2.HasEdge(e) {
      var k :| 0 <= k < 3 && EdgeEq(t2.Edges()[k], e);
      EqualTrianglesShareEdges(t2, t1, k);
      var j :| 0 <= j < 3 && EdgeEq(t1.Edges()[j], t2.Edges()[k]);
      EdgeEqTransitive(t1.Edges()[j], t2.Edges()[k], e);
    }
  }
}
