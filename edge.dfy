/** An edge between two mesh vertices (Sources/Triangulate/Edge.swift).

    The vertex type is a type parameter: the only thing the triangulation
    asks of a vertex is that two of them can be compared for equality. An
    edge stores its endpoints in construction order, but its identity is
    the unordered pair: equality and hashing are both functions of the
    endpoint set. */
module Edges {

  datatype Edge<V(==)> = Edge(vertexA: V, vertexB: V) {

    /** The endpoint set: two vertices, or one for a zero-length edge. */
    function Vertices(): (r: set<V>)
      ensures vertexA in r && vertexB in r
      ensures |r| == if vertexA == vertexB then 1 else 2
    {
      {vertexA, vertexB}
    }
  }

  /** Swift's `==` on edges: the same endpoints, in either order. The source
      compares the endpoint sets; EdgeEqIff shows the two readings agree.
      Dafny's own `==` on `Edge` compares the ordered pair and is not what
      the source means. */
  predicate EdgeEq<V(==)>(e1: Edge<V>, e2: Edge<V>) {
    (e1.vertexA == e2.vertexA && e1.vertexB == e2.vertexB) ||
    (e1.vertexA == e2.vertexB && e1.vertexB == e2.vertexA)
  }

  /** `hash(into:)` feeds the endpoint set to the hasher; the hasher itself
      is an arbitrary function of that set. */
  function Hash<V(==), H>(e: Edge<V>, hashVertices: set<V> -> H): H {
    hashVertices(e.Vertices())
  }

  /** Two edges are equal exactly when their endpoint sets coincide, which
      is how `==` is written in the source. */
  lemma EdgeEqIff<V>(e1: Edge<V>, e2: Edge<V>)
    ensures EdgeEq(e1, e2) <==> e1.Vertices() == e2.Vertices()
  {
    if e1.Vertices() == e2.Vertices() {
      assert e1.vertexA in e2.Vertices() && e1.vertexB in e2.Vertices();
      assert e2.vertexA in e1.Vertices() && e2.vertexB in e1.Vertices();
    }
  }

  /** Reversing an edge gives an equal edge. */
  lemma EdgeEqReversed<V>(a: V, b: V)
    ensures EdgeEq(Edge(a, b), Edge(b, a))
  {
  }

  lemma EdgeEqReflexive<V>(e: Edge<V>)
    ensures EdgeEq(e, e)
  {
  }

  lemma EdgeEqSymmetric<V>(e1: Edge<V>, e2: Edge<V>)
    ensures EdgeEq(e1, e2) ==> EdgeEq(e2, e1)
  {
  }

  lemma EdgeEqTransitive<V>(e1: Edge<V>, e2: Edge<V>, e3: Edge<V>)
    ensures EdgeEq(e1, e2) && EdgeEq(e2, e3) ==> EdgeEq(e1, e3)
  {
  }

  /** Equal edges hash alike, whatever the hasher: `Edge` satisfies the
      `Hashable` requirement that `==` implies equal hashes. */
  lemma HashRespectsEdgeEq<V, H>(e1: Edge<V>, e2: Edge<V>, hashVertices: set<V> -> H)
    requires EdgeEq(e1, e2)
    ensures Hash(e1, hashVertices) == Hash(e2, hashVertices)
  {
    EdgeEqIff(e1, e2);
  }
}
