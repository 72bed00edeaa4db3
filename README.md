# Triangulate — a Dafny model of the Bowyer–Watson core

Triangulate builds a Delaunay triangulation of a list of 2-D points with the
Bowyer–Watson algorithm. It starts from one large "super-triangle" that
encloses every point. Points are inserted one at a time:

- every triangle whose circumcircle holds the new point becomes a "bad"
  triangle;
- the edges of the bad triangles that no other bad triangle shares form the
  boundary of a polygonal hole;
- the bad triangles are removed;
- the hole is filled with a fan of triangles from the new point to each
  boundary edge, after duplicate edges are dropped.

At the end, every triangle that touches a super-triangle corner is removed.
The mesh then records the points and an index buffer. For each triangle, the
buffer holds the first position in the point list of each of the triangle's
distinct vertices.

This project models the combinatorial part of that core. That covers the
edge and triangle value types with their set-based equality, and every step
of the triangulation loop. Each step is proved against a specification
function, and the invariants and properties the algorithm relies on are
proved about those functions. Files:

- `sequences.dfy` (`Sequences`): `Filter` (Swift's `filter` and the
  predicate forms of `removeAll`), the subsequence relation, and `Option`.
- `edge.dfy` (`Edges`): `Edge`, its endpoint set, edge equality, and hashing.
- `triangle.dfy` (`Triangles`): `Triangle`, its edges and corner set,
  triangle equality, and the "has an edge equal to" test.
- `mesh_spec.dfy` (`MeshSpec`): a value-level specification of each step.
  This includes the bad-triangle scan, the boundary search, duplicate
  removal, the fan, one insertion, all insertions, and the clean-up. It also
  holds the lemmas about these steps.
- `indices.dfy` (`Indices`): `firstIndex(of:)`, the index buffer, and its
  properties.
- `triangle_mesh.dfy` (`TriangleMesh`): the source's loops as methods, each
  proved equal to its specification function. It also contains the mesh
  initialiser.

Some of the source's inputs are parameters of the model:

- the vertex type is a type parameter `V` with equality;
- the circumcircle test `Triangle.contains` is a function
  `contains: (Triangle<V>, V) -> bool`;
- the super-triangle is passed in;
- the iteration order of `Triangle.vertices` (a Swift `Set`) is a function
  `order`, required to list each triangle's distinct corners exactly once.

## Model

| member | source | states |
|---|---|---|
| `Edges.Edge.Vertices` | Sources/Triangulate/Edge.swift:5-7 | the endpoint set holds both endpoints and has two elements, or one for a zero-length edge |
| `Edges.EdgeEq` | Sources/Triangulate/Edge.swift:15-17 | edge `==`; specified by EdgeEqIff (it is the source's endpoint-set comparison) and by EdgeEqReflexive, EdgeEqSymmetric, EdgeEqTransitive and EdgeEqReversed |
| `Edges.EdgeEqIff` | Sources/Triangulate/Edge.swift:15-17 | two edges are equal, as the same endpoints in either order, exactly when their endpoint sets coincide, which is the source's definition of `==` |
| `Edges.EdgeEqReversed` | Sources/Triangulate/Edge.swift:15-17 | an edge equals its reversal |
| `Edges.EdgeEqReflexive` | Sources/Triangulate/Edge.swift:15-17 | edge equality is reflexive |
| `Edges.EdgeEqSymmetric` | Sources/Triangulate/Edge.swift:15-17 | edge equality is symmetric |
| `Edges.EdgeEqTransitive` | Sources/Triangulate/Edge.swift:15-17 | edge equality is transitive |
| `Edges.Hash` | Sources/Triangulate/Edge.swift:20-23 | `hash(into:)`, a function of the endpoint set only; specified by HashRespectsEdgeEq |
| `Edges.HashRespectsEdgeEq` | Sources/Triangulate/Edge.swift:20-23 | equal edges hash alike for any hasher, as `Hashable` requires |
| `Triangles.Triangle.Edges` | Sources/Triangulate/Triangle.swift:42-44 | a triangle has exactly three edges |
| `Triangles.EdgesJoinCorners` | Sources/Triangulate/Triangle.swift:42-44 | edge k runs from corner k to corner k+1 mod 3, so both of its endpoints are corners of the triangle |
| `Triangles.Triangle.Vertices` | Sources/Triangulate/Triangle.swift:46-48 | the corner set is exactly {a, b, c}: it holds all three corners and nothing else, has one to three elements, and has three exactly when the corners are pairwise distinct |
| `Triangles.TriEq` | Sources/Triangulate/Triangle.swift:56-58 | triangle `==`, comparing corner sets; specified by TriEqPermutations, TriEqReflexive, TriEqSymmetric and TriEqTransitive |
| `Triangles.TriEqPermutations` | Sources/Triangulate/Triangle.swift:56-58 | a triangle equals each of the five other orderings of its corners |
| `Triangles.TriEqReflexive` | Sources/Triangulate/Triangle.swift:56-58 | triangle equality is reflexive |
| `Triangles.TriEqSymmetric` | Sources/Triangulate/Triangle.swift:56-58 | triangle equality is symmetric |
| `Triangles.TriEqTransitive` | Sources/Triangulate/Triangle.swift:56-58 | triangle equality is transitive |
| `Triangles.Triangle.HasEdge` | Sources/Triangulate/TriangleMesh.swift:92 | `edges.contains(edge)` under edge `==`; specified by PairIsEdge, EqualTrianglesShareEdges and HasEdgeRespectsTriEq, and used by IsShared |
| `Triangles.PairIsEdge` | Sources/Triangulate/Triangle.swift:42-48 | in a triangle with three distinct corners, any two distinct corners are joined by one of its edges |
| `Triangles.EqualTrianglesShareEdges` | Sources/Triangulate/Triangle.swift:42-58 | when two triangles are equal and have three distinct corners, every edge of one is, up to edge equality, an edge of the other |
| `Triangles.HasEdgeRespectsTriEq` | Sources/Triangulate/Triangle.swift:42-58 | `edges.contains(e)` gives the same answer on two equal triangles with three distinct corners |
| `MeshSpec.InCircumCircle` | Sources/Triangulate/TriangleMesh.swift:75-83 | the bad triangles: the working triangles whose circumcircle holds the point, in list order; specified by InCircumCircleIsFilter and BadTrianglesRemoved, and computed by FindTrianglesWithPointInCircumCircle |
| `TriangleMesh.FindTrianglesWithPointInCircumCircle` | Sources/Triangulate/TriangleMesh.swift:75-83 | the loop returns exactly the in-order filter of the triangles whose circumcircle holds the point, and every returned triangle holds it |
| `MeshSpec.InCircumCircleIsFilter` | Sources/Triangulate/TriangleMesh.swift:75-83 | the bad triangles are a subsequence of the working list, each holds the point, and each triangle keeps its multiplicity if it holds the point and otherwise has none |
| `MeshSpec.SharingSuperTriangle` | Sources/Triangulate/TriangleMesh.swift:65-73 | the triangles that share a corner with the super-triangle, in list order; specified by CleanupIsFilter and TriangulateUsesInputVertices, and computed by FindTrianglesSharingSuperTriangleVertices |
| `TriangleMesh.FindTrianglesSharingSuperTriangleVertices` | Sources/Triangulate/TriangleMesh.swift:65-73 | the loop returns exactly the in-order filter of the triangles whose corner set meets the super-triangle's, and every returned triangle meets it |
| `MeshSpec.SharedElsewhere` | Sources/Triangulate/TriangleMesh.swift:91-95 | the `sharedEdge` search: a bad triangle at another index has an edge equal to the given one; specified by UnsharedMembership and computed by IsShared |
| `TriangleMesh.IsShared` | Sources/Triangulate/TriangleMesh.swift:91-95 | the early-exit search reports true exactly when some bad triangle at another index has an edge equal to the given one |
| `MeshSpec.BoundaryUpTo` | Sources/Triangulate/TriangleMesh.swift:85-105 | the boundary edges contributed by the first n bad triangles; specified by BoundaryLength, BoundarySound, BoundaryComplete, BoundaryOrder and BoundaryEndpoints, and the invariant of the outer loop of FindBoundaryEdges |
| `MeshSpec.BoundaryEdges` | Sources/Triangulate/TriangleMesh.swift:85-105 | the edges of the bad triangles that no other bad triangle shares, in triangle-then-edge order; specified by BoundaryMembership, BoundaryOrder and BoundaryLength, and computed by FindBoundaryEdges |
| `TriangleMesh.FindBoundaryEdges` | Sources/Triangulate/TriangleMesh.swift:85-105 | the nested loops return exactly the boundary-edge list of the specification, with at most three edges per bad triangle |
| `MeshSpec.BoundaryLength` | Sources/Triangulate/TriangleMesh.swift:85-105 | the first n bad triangles contribute at most 3n boundary edges |
| `MeshSpec.UnsharedMembership` | Sources/Triangulate/TriangleMesh.swift:89-100 | an edge is kept from triangle i exactly when it is an edge of that triangle and no other bad triangle shares it |
| `MeshSpec.BoundarySound` | Sources/Triangulate/TriangleMesh.swift:85-105 | every boundary edge is an edge of some bad triangle that no other bad triangle shares |
| `MeshSpec.BoundaryComplete` | Sources/Triangulate/TriangleMesh.swift:85-105 | every edge of a bad triangle that no other bad triangle shares is a boundary edge |
| `MeshSpec.BoundaryMembership` | Sources/Triangulate/TriangleMesh.swift:85-105 | an edge is a boundary edge if and only if it belongs to a bad triangle and no other bad triangle shares it |
| `MeshSpec.BoundaryOrder` | Sources/Triangulate/TriangleMesh.swift:88-101 | the boundary edges appear in triangle-then-edge order: they are a subsequence of all the bad triangles' edges in that order |
| `MeshSpec.UnsharedEndpoints` | Sources/Triangulate/TriangleMesh.swift:89-100 | the edges kept from one triangle have endpoints among the allowed vertices, and they are not zero-length when the triangle is proper |
| `MeshSpec.BoundaryEndpoints` | Sources/Triangulate/TriangleMesh.swift:85-105 | boundary edges join vertices of the bad triangles, and none has zero length when every bad triangle has three distinct corners |
| `TriangleMesh.RemovingDuplicates` | Sources/Triangulate/TriangleMesh.swift:108-120 | the filter with a mutable seen-set returns exactly the first-occurrence filter, and no two returned edges are equal |
| `TriangleMesh.SeenKeysMembership` | Sources/Triangulate/TriangleMesh.swift:110-117 | while iterating, an edge's key is in the set exactly when an equal edge came earlier |
| `MeshSpec.Dedup` | Sources/Triangulate/TriangleMesh.swift:108-120 | `removingDuplicates`; specified by DedupIsSubseq, DedupDistinct, DedupCovers, DedupKeepsFirst, DedupOfDistinct and DedupIdempotent, and computed by RemovingDuplicates |
| `MeshSpec.DedupIsSubseq` | Sources/Triangulate/TriangleMesh.swift:108-120 | duplicate removal keeps a subsequence of its input, so the order is kept |
| `MeshSpec.DedupDistinct` | Sources/Triangulate/TriangleMesh.swift:108-120 | no two edges in the result are equal |
| `MeshSpec.DedupCovers` | Sources/Triangulate/TriangleMesh.swift:108-120 | every input edge has an equal edge in the result |
| `MeshSpec.DedupKeepsFirst` | Sources/Triangulate/TriangleMesh.swift:108-120 | every kept edge is an input edge with no equal edge before it |
| `MeshSpec.DedupOfDistinct` | Sources/Triangulate/TriangleMesh.swift:108-120 | a list without equal edges is returned unchanged |
| `MeshSpec.DedupIdempotent` | Sources/Triangulate/TriangleMesh.swift:108-120 | removing duplicates twice is the same as removing them once |
| `MeshSpec.Fan` | Sources/Triangulate/TriangleMesh.swift:49-51 | one new triangle per boundary edge, in order: the new point first, then the edge's two endpoints |
| `MeshSpec.RemoveEqual` | Sources/Triangulate/TriangleMesh.swift:44-46 | `removeAll { list.contains($0) }` under triangle `==`, used at both removals; specified by RemoveEqualIsFilter, BadTrianglesRemoved and CleanupIsFilter |
| `MeshSpec.RemoveEqualIsFilter` | Sources/Triangulate/TriangleMesh.swift:43-46 | `removeAll` keeps a subsequence, drops a triangle exactly when an equal triangle is in the removal list, and keeps every other triangle's multiplicity |
| `MeshSpec.ContainsTriangle` | Sources/Triangulate/TriangleMesh.swift:44-46 | `contains` on a triangle list under triangle `==` (also at line 59); specified by ContainsMembers, RemoveEqualIsFilter and CleanupIsFilter |
| `MeshSpec.ContainsMembers` | Sources/Triangulate/TriangleMesh.swift:44-46 | `contains` finds every element of the list it searches |
| `MeshSpec.BadTrianglesRemoved` | Sources/Triangulate/TriangleMesh.swift:38-46 | no triangle left after the removal has the new point in its circumcircle |
| `MeshSpec.Insert` | Sources/Triangulate/TriangleMesh.swift:38-51 | one pass of the insertion loop; specified by BadTrianglesRemoved, InsertVerticesFrom and InsertNonDegenerate, and computed by InsertPoint |
| `TriangleMesh.AppendFan` | Sources/Triangulate/TriangleMesh.swift:49-51 | the inner loop appends, after the existing triangles, one triangle (point, edge.vertexA, edge.vertexB) per edge, in edge order |
| `TriangleMesh.InsertPoint` | Sources/Triangulate/TriangleMesh.swift:38-51 | one pass of the insertion loop yields the specification's insertion step; every triangle that has the new point in its circumcircle afterwards is a new fan triangle starting at that point |
| `MeshSpec.NewEdgesFrom` | Sources/Triangulate/TriangleMesh.swift:39-49 | the deduplicated boundary edges join existing vertices of the working list, and none has zero length when every triangle there has three distinct corners |
| `MeshSpec.FanVertices` | Sources/Triangulate/TriangleMesh.swift:49-51 | fan triangles use only the new point and boundary-edge endpoints, and have three distinct corners when the edges have non-zero length and the point is new |
| `MeshSpec.InsertVerticesFrom` | Sources/Triangulate/TriangleMesh.swift:37-52 | after inserting a point, every corner is an earlier allowed vertex or that point |
| `MeshSpec.InsertNonDegenerate` | Sources/Triangulate/TriangleMesh.swift:37-52 | inserting a fresh point into triangles with three distinct corners keeps every corner triple distinct |
| `MeshSpec.SeedVerticesFrom` | Sources/Triangulate/TriangleMesh.swift:34 | the initial working list uses only super-triangle corners |
| `MeshSpec.InsertAll` | Sources/Triangulate/TriangleMesh.swift:34-52 | the working list after inserting the points in order; specified by InsertAllVerticesFrom and InsertAllNonDegenerate, and computed by the loop of TriangulateVertices |
| `MeshSpec.InsertAllVerticesFrom` | Sources/Triangulate/TriangleMesh.swift:34-52 | loop invariant: after any number of insertions, every corner is a super-triangle corner or an input point |
| `MeshSpec.InsertAllNonDegenerate` | Sources/Triangulate/TriangleMesh.swift:34-52 | with a proper super-triangle and distinct input points off its corners, every triangle of the working list has three distinct corners |
| `TriangleMesh.InsertAllSnoc` | Sources/Triangulate/TriangleMesh.swift:37-52 | loop-unfolding helper: the definition of InsertAll, restated for a prefix of the points, used to keep the invariant of the loop in TriangulateVertices |
| `MeshSpec.Triangulate` | Sources/Triangulate/TriangleMesh.swift:27-63 | `triangulateVertices`; specified by TriangulateUsesInputVertices, TriangulateEmpty, TriangulateNonDegenerate and CleanupIsFilter |
| `TriangleMesh.TriangulateVertices` | Sources/Triangulate/TriangleMesh.swift:27-63 | the loop computes the specification's triangulation, and every corner of every result triangle is an input point and not a super-triangle corner |
| `MeshSpec.SharesVertex` | Sources/Triangulate/TriangleMesh.swift:68 | the intersection of the corner sets is non-empty; specified by FindTrianglesSharingSuperTriangleVertices and CleanupIsFilter |
| `MeshSpec.CleanupIsFilter` | Sources/Triangulate/TriangleMesh.swift:54-60 | the final `removeAll` drops exactly the triangles that share a corner with the super-triangle |
| `MeshSpec.TriangulateUsesInputVertices` | Sources/Triangulate/TriangleMesh.swift:27-63 | every corner of every result triangle is an input point and no super-triangle corner |
| `MeshSpec.TwoSuperCornersShare` | Sources/Triangulate/TriangleMesh.swift:54-60 | a triangle with at most one corner off the super-triangle shares a corner with it |
| `MeshSpec.NewEdgesTouchSuper` | Sources/Triangulate/TriangleMesh.swift:39-49 | when no working triangle has two corners off the super-triangle, every deduplicated boundary edge has an endpoint on the super-triangle |
| `MeshSpec.FirstInsertTwoSuperCorners` | Sources/Triangulate/TriangleMesh.swift:34-52 | after the first point, every working triangle has at most one corner off the super-triangle, whatever the circumcircle test says |
| `MeshSpec.InsertSharesSuper` | Sources/Triangulate/TriangleMesh.swift:37-52 | inserting a point into triangles that each have at most one corner off the super-triangle leaves only triangles that share a corner with it |
| `MeshSpec.InsertAllOne` | Sources/Triangulate/TriangleMesh.swift:37-52 | inserting a one-point list is one pass of the insertion loop |
| `MeshSpec.InsertAllTwo` | Sources/Triangulate/TriangleMesh.swift:37-52 | inserting a two-point list is two passes of the insertion loop, in order |
| `MeshSpec.NoPointsShareSuper` | Sources/Triangulate/TriangleMesh.swift:34 | with no points the working list is the super-triangle, which shares its own corners |
| `MeshSpec.OnePointSharesSuper` | Sources/Triangulate/TriangleMesh.swift:34-52 | after one point every working triangle shares a corner with the super-triangle |
| `MeshSpec.TwoPointsShareSuper` | Sources/Triangulate/TriangleMesh.swift:34-52 | after two points every working triangle shares a corner with the super-triangle |
| `MeshSpec.TriangulateEmpty` | Sources/Triangulate/TriangleMesh.swift:27-63 | zero, one or two points give no triangles, for every circumcircle test and every super-triangle. The single-point and two-point cases in Tests/TriangulateTests/TriangleMeshTests.swift:5-23 expect exactly this |
| `MeshSpec.TriangulateNonDegenerate` | Sources/Triangulate/TriangleMesh.swift:27-63 | with a proper super-triangle and distinct input points off its corners, every result triangle has three distinct corners |
| `Indices.FirstIndex` | Sources/Triangulate/TriangleMesh.swift:22 | `firstIndex(of:)` yields the first position holding the vertex, and none exactly when the vertex is absent |
| `Indices.CompactIndices` | Sources/Triangulate/TriangleMesh.swift:22 | the `map`/`compactMap` pair yields at most one position per listed vertex, each a valid position in the vertex list; CompactIndicesValid and CompactIndicesExact state what the positions are |
| `Indices.CompactIndicesValid` | Sources/Triangulate/TriangleMesh.swift:22 | every position produced holds one of the listed vertices and is the first position holding it |
| `Indices.CompactIndicesExact` | Sources/Triangulate/TriangleMesh.swift:22 | when every listed vertex is in the vertex list, nothing is dropped by `compactMap`: one position per listed vertex, in order, each holding that vertex |
| `Indices.VertexOrder` | Sources/Triangulate/Triangle.swift:46-48 | one iteration order of the corner set: each distinct corner exactly once |
| `Indices.EnumerationLength` | Sources/Triangulate/Triangle.swift:46-48 | any iteration of the corner set has as many elements as the set, and three for a triangle with distinct corners |
| `Indices.FirstIndexUnique` | Sources/Triangulate/TriangleMesh.swift:22 | a position holding the vertex, with no earlier occurrence, is what `firstIndex(of:)` returns |
| `Indices.IndexBuffer` | Sources/Triangulate/TriangleMesh.swift:21-23 | the `flatMap` building the index buffer; specified by IndexBufferValid, IndexBufferNoMiss, IndexBufferVertices and IndexBufferTriples |
| `Indices.IndexBufferValid` | Sources/Triangulate/TriangleMesh.swift:21-23 | every index is a valid position in the vertex list and is the first occurrence of that vertex |
| `Indices.TriangleIndicesCount` | Sources/Triangulate/TriangleMesh.swift:21-23 | a triangle whose corners are all in the vertex list gets one index per distinct corner: no lookup misses |
| `Indices.IndexBufferNoMiss` | Sources/Triangulate/TriangleMesh.swift:21-23 | when every triangle corner is in the vertex list, no lookup misses: the buffer has one entry per distinct corner of each triangle |
| `Indices.IndexBufferVertices` | Sources/Triangulate/TriangleMesh.swift:21-23 | every index points at a corner of some triangle of the mesh |
| `Indices.TriangleIndicesCorners` | Sources/Triangulate/TriangleMesh.swift:21-23 | a triangle with three distinct corners, all in the vertex list, contributes exactly three indices, the first positions of its corners in iteration order |
| `Indices.IndexBufferTriples` | Sources/Triangulate/TriangleMesh.swift:21-23 | when the triangles are proper and use only listed vertices, the buffer holds three indices per triangle: entries 3i to 3i+2 are the first positions of triangle i's corners |
| `TriangleMesh.NewMesh` | Sources/Triangulate/TriangleMesh.swift:16-24 | the mesh keeps the input points, triangulates them, and builds the index buffer. Every index is a valid position of an input point that is not a super-triangle corner, and the buffer has one entry per distinct corner. With a proper super-triangle and distinct points off its corners, the buffer has three consecutive entries per triangle |

## Left out

- The circumcircle arithmetic (`circumCenter`, `circumRadius` and `contains` in Sources/Triangulate/Triangle.swift:15-39) is single-precision floating point. The test is the parameter `contains`, so no geometric property is proved. That includes the Delaunay property, the inclusive `<=` on the radius, and the super-triangle enclosing the points.
- `BoundingBox` (Sources/Triangulate/BoundingBox.swift) computes the super-triangle in floating point. The super-triangle is a parameter instead, and its properness and distance from the input points are hypotheses of the lemmas that need them.
- Vertex equality is Dafny equality on an arbitrary type `V`. The float `==` of `simd_float2` is not reflexive on NaN and identifies `0.0` with `-0.0`; neither is modelled.
- `MeshSpec.TriangulateEmpty`: the zero-point case relies on every super-triangle corner being equal to itself. For an empty point list the source's super-triangle (Sources/Triangulate/BoundingBox.swift:7-20) has non-finite corners: the radius overflows to infinity and two corners get a NaN coordinate. A `Set` holding a NaN point does not find it again, so that super-triangle compares unequal to itself at Sources/Triangulate/TriangleMesh.swift:59 and survives cleanup. The source then returns `[superTriangle]`, not the empty list the model gives; the index buffer is empty either way.
- Iteration order of a Swift `Set` is unspecified. `Triangle.vertices` is iterated in the order given by the parameter `order`, which must list each distinct corner once. The model says nothing about which order Swift picks.
- `Hasher` internals are not modelled. A hash is an arbitrary function of the endpoint set, and `Edges.HashRespectsEdgeEq` holds for every such function.
- `removingDuplicates` keeps a Swift `Set<Edge>`. The model keeps the set of endpoint sets, the key that both `==` and `hash(into:)` use. It therefore does not model hash collisions, which `Set` resolves with `==`.
- In-place mutation with `removeAll` and `append` is modelled on values: each step returns a new sequence, and no aliasing is involved.
- `TriangleMesh.NewMesh` requires the vertex type to hold no heap references (`!new`). This holds for `simd_float2`, a value type.
- The expectations of the XCTest cases with three or more points in Tests/TriangulateTests/TriangleMeshTests.swift depend on the floating-point circumcircle test and are not stated. An example is one triangle for three points. The one- and two-point cases hold for every circumcircle test and are proved (`MeshSpec.TriangulateEmpty`).
- The `triangles` property's visibility and Swift's `private`/`public` modifiers carry no behaviour and are not modelled.
