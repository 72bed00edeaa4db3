/** The Bowyer–Watson driver of Sources/Triangulate/TriangleMesh.swift as
    the step-by-step code it is: the scans that collect bad triangles and
    triangles touching the super-triangle, the nested boundary-edge search
    with its early exit, the set-based duplicate removal, and the insertion
    loop that rewrites the working list. Each method is proved to compute
    the matching function of MeshSpec or Indices, whose properties are
    proved there. */
module TriangleMesh {
  import opened Sequences
  import opened Edges
  import opened Triangles
  import opened MeshSpec
  import opened Indices

  /** The finished mesh: its triangles, the index buffer, and the input points. */
  datatype Mesh<V(==)> = Mesh(triangles: seq<Triangle<V>>, indices: seq<nat>, vertices: seq<V>)

  /** `findTrianglesWithPointInCircumCircle`: the triangles whose
      circumcircle holds `point`, in list order. */
  method FindTrianglesWithPointInCircumCircle<V(==)>(triangles: seq<Triangle<V>>, point: V, contains: InCircle<V>)
    returns (badTriangles: seq<Triangle<V>>)
    ensures badTriangles == InCircumCircle(triangles, point, contains)
    ensures forall k :: 0 <= k < |badTriangles| ==> contains(badTriangles[k], point)
  {
    badTriangles := [];
    for i := 0 to |triangles|
      invariant badTriangles == Filter(triangles[..i], t => contains(t, point))
    {
      FilterSnoc(triangles, i, t => contains(t, point));
      if contains(triangles[i], point) {
        badTriangles := badTriangles + [triangles[i]];
      }
    }
    assert triangles[..|triangles|] == triangles;
    InCircumCircleIsFilter(triangles, point, contains);
  }

  /** `findTrianglesSharingSuperTriangleVertices`: the triangles with a
      corner in common with the super-triangle, in list order. */
  method FindTrianglesSharingSuperTriangleVertices<V(==)>(triangles: seq<Triangle<V>>, superTriangle: Triangle<V>)
    returns (trianglesFound: seq<Triangle<V>>)
    ensures trianglesFound == SharingSuperTriangle(triangles, superTriangle)
    ensures forall k :: 0 <= k < |trianglesFound| ==> SharesVertex(trianglesFound[k], superTriangle)
  {
    trianglesFound := [];
    for i := 0 to |triangles|
      invariant trianglesFound == Filter(triangles[..i], t => SharesVertex(t, superTriangle))
    {
      FilterSnoc(triangles, i, t => SharesVertex(t, superTriangle));
      if |superTriangle.Vertices() * triangles[i].Vertices()| > 0 {
        trianglesFound := trianglesFound + [triangles[i]];
      }
    }
    assert triangles[..|triangles|] == triangles;
    FilterElements(triangles, t => SharesVertex(t, superTriangle));
  }

  /** The inner search of `findBoundaryEdges`: does a bad triangle at an
      index other than `index` have an edge equal to `edge`? Stops at the
      first one found. */
  method IsShared<V(==)>(badTriangles: seq<Triangle<V>>, index: nat, edge: Edge<V>) returns (sharedEdge: bool)
    ensures sharedEdge <==> SharedElsewhere(badTriangles, index, edge)
  {
    sharedEdge := false;
    var otherIndex := 0;
    while otherIndex < |badTriangles|
      invariant 0 <= otherIndex <= |badTriangles|
      invariant !sharedEdge
      invariant forall o :: 0 <= o < otherIndex && o != index ==> !badTriangles[o].HasEdge(edge)
    {
      if index != otherIndex && badTriangles[otherIndex].HasEdge(edge) {
        sharedEdge := true;
        assert SharedElsewhere(badTriangles, index, edge) by {
          assert 0 <= otherIndex < |badTriangles| && otherIndex != index && badTriangles[otherIndex].HasEdge(edge);
        }
        break;
      }
      otherIndex := otherIndex + 1;
    }
  }

  /** `findBoundaryEdges`: every edge of every bad triangle that no other
      bad triangle shares, in triangle-then-edge order. */
  method FindBoundaryEdges<V(==)>(badTriangles: seq<Triangle<V>>) returns (edges: seq<Edge<V>>)
    ensures edges == BoundaryEdges(badTriangles)
    ensures |edges| <= 3 * |badTriangles|
  {
    edges := [];
    for index := 0 to |badTriangles|
      invariant edges == BoundaryUpTo(badTriangles, index)
    {
      var triEdges := badTriangles[index].Edges();
      for j := 0 to |triEdges|
        invariant edges == BoundaryUpTo(badTriangles, index) + UnsharedAmong(badTriangles, index, triEdges[..j])
      {
        var edge := triEdges[j];
        var sharedEdge := IsShared(badTriangles, index, edge);
        FilterSnoc(triEdges, j, e => !SharedElsewhere(badTriangles, index, e));
        if !sharedEdge {
          edges := edges + [edge];
        }
      }
      assert triEdges[..|triEdges|] == triEdges;
    }
    BoundaryLength(badTriangles, |badTriangles|);
  }

  /** The set `seen` holds the endpoint sets of the first `i` edges. Swift's
      `Set<Edge>` hashes and compares edges through their endpoint sets, so
      the set of those keys is what decides membership. */
  ghost predicate SeenKeys<V>(es: seq<Edge<V>>, i: nat, seen: set<set<V>>)
    requires i <= |es|
  {
    seen == set k | 0 <= k < i :: es[k].Vertices()
  }

  lemma SeenKeysMembership<V>(es: seq<Edge<V>>, i: nat, seen: set<set<V>>)
    requires i < |es| && SeenKeys(es, i, seen)
    ensures es[i].Vertices() in seen <==> SeenBefore(es, i)
  {
    if es[i].Vertices() in seen {
      var k :| 0 <= k < i && es[k].Vertices() == es[i].Vertices();
      EdgeEqIff(es[k], es[i]);
    }
    if SeenBefore(es, i) {
      var k :| 0 <= k < i && EdgeEq(es[k], es[i]);
      EdgeEqIff(es[k], es[i]);
      assert es[k].Vertices() in seen;
    }
  }

  lemma DedupSnoc<V>(es: seq<Edge<V>>, i: nat)
    requires i < |es|
    ensures Dedup(es[..i + 1]) == Dedup(es[..i]) + (if SeenBefore(es, i) then [] else [es[i]])
  {
    var p := es[..i + 1];
    assert p[..i] == es[..i];
    assert SeenBefore(p, i) <==> SeenBefore(es, i) by {
      assert forall j :: 0 <= j <= i ==> p[j] == es[j];
    }
  }

  lemma SeenKeysStep<V>(es: seq<Edge<V>>, i: nat, seen: set<set<V>>)
    requires i < |es| && SeenKeys(es, i, seen)
    ensures SeenKeys(es, i + 1, seen + {es[i].Vertices()})
  {
  }

  /** `removingDuplicates`: keeps each edge unless an equal one was kept
      before it, remembering the kept edges in a set. */
  method RemovingDuplicates<V(==)>(es: seq<Edge<V>>) returns (r: seq<Edge<V>>)
    ensures r == Dedup(es)
    ensures forall i, j :: 0 <= i < j < |r| ==> !EdgeEq(r[i], r[j])
  {
    var seen: set<set<V>> := {};
    r := [];
    for i := 0 to |es|
      invariant r == Dedup(es[..i])
      invariant SeenKeys(es, i, seen)
    {
      var key := es[i].Vertices();
      SeenKeysMembership(es, i, seen);
      SeenKeysStep(es, i, seen);
      DedupSnoc(es, i);
      if key !in seen {
        seen := seen + {key};
        r := r + [es[i]];
      }
    }
    assert es[..|es|] == es;
    DedupDistinct(es);
  }

  lemma InsertAllSnoc<V>(ts: seq<Triangle<V>>, ps: seq<V>, i: nat, contains: InCircle<V>)
    requires i < |ps|
    ensures InsertAll(ts, ps[..i + 1], contains) == Insert(InsertAll(ts, ps[..i], contains), ps[i], contains)
  {
    assert ps[..i + 1][..i] == ps[..i];
  }

  /** The inner loop of `triangulateVertices`: append one triangle from
      `point` to each edge, in order. */
  method AppendFan<V(==)>(triangles: seq<Triangle<V>>, point: V, edges: seq<Edge<V>>)
    returns (r: seq<Triangle<V>>)
    ensures r == triangles + Fan(point, edges)
    ensures |r| == |triangles| + |edges|
    ensures forall k :: 0 <= k < |edges| ==>
      r[|triangles| + k] == Triangle(point, edges[k].vertexA, edges[k].vertexB)
  {
    r := triangles;
    for k := 0 to |edges|
      invariant r == triangles + Fan(point, edges[..k])
    {
      assert edges[..k + 1][..k] == edges[..k];
      r := r + [Triangle(point, edges[k].vertexA, edges[k].vertexB)];
    }
    assert edges[..|edges|] == edges;
  }

  /** One pass of the loop in `triangulateVertices`: remove the triangles
      whose circumcircle holds `point`, then add one triangle from `point`
      to each distinct edge of the boundary of the hole. */
  method InsertPoint<V(==)>(triangles: seq<Triangle<V>>, point: V, contains: InCircle<V>)
    returns (r: seq<Triangle<V>>)
    ensures r == Insert(triangles, point, contains)
    ensures forall k :: 0 <= k < |r| ==> !contains(r[k], point) || r[k].vertexA == point
  {
    var badTriangles := FindTrianglesWithPointInCircumCircle(triangles, point, contains);
    var edges := FindBoundaryEdges(badTriangles);
    var kept := RemoveEqual(triangles, badTriangles);
    var distinct := RemovingDuplicates(edges);
    r := AppendFan(kept, point, distinct);
    forall k | 0 <= k < |r| ensures !contains(r[k], point) || r[k].vertexA == point {
      if k < |kept| {
        assert r[k] == kept[k];
        BadTrianglesRemoved(triangles, point, contains, k);
      } else {
        assert r[k] == Fan(point, distinct)[k - |kept|];
      }
    }
  }

  /** `triangulateVertices`: start from the super-triangle, insert each
      point in turn, then remove every triangle touching the
      super-triangle. */
  method TriangulateVertices<V(==)>(vertices: seq<V>, superTriangle: Triangle<V>, contains: InCircle<V>)
    returns (triangles: seq<Triangle<V>>)
    ensures triangles == Triangulate(vertices, superTriangle, contains)
    ensures forall i, c :: 0 <= i < |triangles| && 0 <= c < 3 ==>
      triangles[i].Corner(c) in vertices && triangles[i].Corner(c) !in superTriangle.Vertices()
  {
    triangles := [superTriangle];
    InsertAllVerticesFrom(superTriangle, vertices[..0], contains);
    for i := 0 to |vertices|
      invariant triangles == InsertAll([superTriangle], vertices[..i], contains)
      invariant VerticesFrom(triangles, SuperCorners(superTriangle) + vertices[..i])
    {
      InsertAllSnoc([superTriangle], vertices, i, contains);
      triangles := InsertPoint(triangles, vertices[i], contains);
      InsertAllVerticesFrom(superTriangle, vertices[..i + 1], contains);
    }
    assert vertices[..|vertices|] == vertices;
    var toRemove := FindTrianglesSharingSuperTriangleVertices(triangles, superTriangle);
    triangles := RemoveEqual(triangles, toRemove);
    TriangulateUsesInputVertices(vertices, superTriangle, contains);
  }

  /** `TriangleMesh.init`: triangulate the points, keep them as the vertex
      list, and build the index buffer from the first position of each
      triangle vertex, visiting each triangle's vertex set in the order
      `order` gives. */
  method NewMesh<V(==,!new)>(vertices: seq<V>, superTriangle: Triangle<V>, contains: InCircle<V>, order: Triangle<V> -> seq<V>)
    returns (m: Mesh<V>)
    requires forall t: Triangle<V> :: EnumeratesVertices(order(t), t)
    ensures m.vertices == vertices
    ensures m.triangles == Triangulate(vertices, superTriangle, contains)
    ensures m.indices == IndexBuffer(m.triangles, vertices, order)
    ensures forall k :: 0 <= k < |m.indices| ==>
      m.indices[k] < |vertices| && vertices[m.indices[k]] !in superTriangle.Vertices()
    ensures |m.indices| == VertexCount(m.triangles)
    ensures (superTriangle.Proper() && Distinct(vertices) &&
      forall i :: 0 <= i < |vertices| ==> vertices[i] !in superTriangle.Vertices()) ==>
      IndexedCorners(m.triangles, vertices, m.indices, order)
  {
    var triangles := TriangulateVertices(vertices, superTriangle, contains);
    var indices := IndexBuffer(triangles, vertices, order);
    m := Mesh(triangles, indices, vertices);
    forall i | 0 <= i < |triangles| ensures EnumeratesVertices(order(triangles[i]), triangles[i]) {
    }
    IndexBufferVertices(triangles, vertices, order);
    assert VerticesFrom(triangles, vertices);
    IndexBufferNoMiss(triangles, vertices, order);
    forall k | 0 <= k < |indices| ensures vertices[indices[k]] !in superTriangle.Vertices() {
      var i :| 0 <= i < |triangles| && vertices[indices[k]] in triangles[i].Vertices();
      assert vertices[indices[k]] == triangles[i].Corner(0)
          || vertices[indices[k]] == triangles[i].Corner(1)
          || vertices[indices[k]] == triangles[i].Corner(2);
    }
    if superTriangle.Proper() && Distinct(vertices) &&
      forall i :: 0 <= i < |vertices| ==> vertices[i] !in superTriangle.Vertices()
    {
      TriangulateNonDegenerate(vertices, superTriangle, contains);
      IndexBufferTriples(triangles, vertices, order);
    }
  }
}
