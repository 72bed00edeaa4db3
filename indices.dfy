/** The index buffer of a finished mesh (the `indices` property built in
    `TriangleMesh.init`): for every triangle, in list order, the position in
    the input of each of its vertices.

    The source walks `triangle.vertices`, a `Set`, whose iteration order
    Swift leaves unspecified. That order is the parameter `order` here: any
    function that lists each triangle's distinct vertices once qualifies
    (IsSetOrder), and VertexOrder is one such function. */
module Indices {
  import opened Sequences
  import opened Triangles
  import opened MeshSpec

  /** `vs.firstIndex(of: v)`: the first position of `v`, or none. */
  function FirstIndex<V(==)>(vs: seq<V>, v: V): (r: Option<nat>)
    ensures r.Some? ==> r.value < |vs| && vs[r.value] == v && forall j :: 0 <= j < r.value ==> vs[j] != v
    ensures r.None? <==> v !in vs
  {
    if vs == [] then None
    else if vs[0] == v then Some(0)
    else match FirstIndex(vs[1..], v) {
      case None => assert vs == [vs[0]] + vs[1..]; None
      case Some(k) => Some(k + 1)
    }
  }

  /** `order.map { vs.firstIndex(of: $0) }.compactMap { $0 }`: the first
      position of each vertex of `order`, skipping those not in `vs`. */
  function CompactIndices<V(==)>(vs: seq<V>, order: seq<V>): (r: seq<nat>)
    ensures |r| <= |order|
    ensures forall k :: 0 <= k < |r| ==> r[k] < |vs|
    decreases |order|
  {
    if order == [] then []
    else
      var rest := CompactIndices(vs, order[..|order| - 1]);
      match FirstIndex(vs, order[|order| - 1]) {
        case None => rest
        case Some(k) => rest + [k]
      }
  }

  /** Every position produced holds a vertex of `order` and is the first
      position holding that vertex. */
  lemma {:induction false} CompactIndicesValid<V>(vs: seq<V>, order: seq<V>)
    ensures forall k :: 0 <= k < |CompactIndices(vs, order)| ==>
      vs[CompactIndices(vs, order)[k]] in order &&
      forall j :: 0 <= j < CompactIndices(vs, order)[k] ==> vs[j] != vs[CompactIndices(vs, order)[k]]
    decreases |order|
  {
    if order != [] {
      var init, last := order[..|order| - 1], order[|order| - 1];
      CompactIndicesValid(vs, init);
      var rest := CompactIndices(vs, init);
      var r := CompactIndices(vs, order);
      forall k | 0 <= k < |r|
        ensures vs[r[k]] in order && forall j :: 0 <= j < r[k] ==> vs[j] != vs[r[k]]
      {
        if k < |rest| {
          assert r[k] == rest[k];
          var m :| 0 <= m < |init| && init[m] == vs[rest[k]];
          assert order[m] == init[m];
        } else {
          assert r[k] == FirstIndex(vs, last).value;
        }
      }
    }
  }

  /** Looking up one more vertex that is found appends its position. */
  lemma CompactIndicesSnoc<V>(vs: seq<V>, order: seq<V>, i: nat)
    requires order != [] && FirstIndex(vs, order[|order| - 1]) == Some(i)
    ensures CompactIndices(vs, order) == CompactIndices(vs, order[..|order| - 1]) + [i]
  {
  }

  /** When every vertex of `order` is in `vs`, no lookup misses: one
      position per vertex, in order, each holding that vertex. */
  lemma {:induction false} CompactIndicesExact<V>(vs: seq<V>, order: seq<V>)
    requires forall k :: 0 <= k < |order| ==> order[k] in vs
    ensures |CompactIndices(vs, order)| == |order|
    ensures forall k :: 0 <= k < |order| ==> vs[CompactIndices(vs, order)[k]] == order[k]
    decreases |order|
  {
    if order != [] {
      var init, last := order[..|order| - 1], order[|order| - 1];
      forall k | 0 <= k < |init| ensures init[k] in vs {
        assert init[k] == order[k];
      }
      CompactIndicesExact(vs, init);
      var rest := CompactIndices(vs, init);
      assert last in vs;
      var i := FirstIndex(vs, last).value;
      CompactIndicesSnoc(vs, order, i);
      var r := CompactIndices(vs, order);
      forall k | 0 <= k < |order| ensures vs[r[k]] == order[k] {
        if k < |init| {
          assert r[k] == rest[k];
          assert vs[rest[k]] == init[k] == order[k];
        } else {
          assert r[k] == i;
        }
      }
    }
  }

  /** `s` lists the vertex set of `t`, each vertex once. */
  ghost predicate EnumeratesVertices<V>(s: seq<V>, t: Triangle<V>) {
    (forall k :: 0 <= k < |s| ==> s[k] in t.Vertices()) &&
    t.vertexA in s && t.vertexB in s && t.vertexC in s &&
    (forall i, j :: 0 <= i < j < |s| ==> s[i] != s[j])
  }

  /** On the triangles `ts`, `order` is a possible iteration order of
      `Triangle.vertices`. */
  ghost predicate IsSetOrder<V>(order: Triangle<V> -> seq<V>, ts: seq<Triangle<V>>) {
    forall i :: 0 <= i < |ts| ==> EnumeratesVertices(order(ts[i]), ts[i])
  }

  /** One iteration order: a, then b unless it repeats a, then c unless it
      repeats a or b. */
  function VertexOrder<V(==)>(t: Triangle<V>): (r: seq<V>)
    ensures EnumeratesVertices(r, t)
  {
    [t.vertexA]
    + (if t.vertexB != t.vertexA then [t.vertexB] else [])
    + (if t.vertexC != t.vertexA && t.vertexC != t.vertexB then [t.vertexC] else [])
  }

  /** The indices contributed by one triangle. */
  function TriangleIndices<V(==)>(t: Triangle<V>, vs: seq<V>, order: Triangle<V> -> seq<V>): seq<nat> {
    CompactIndices(vs, order(t))
  }

  /** `triangles.flatMap { … }`: the index buffer of the mesh. */
  function IndexBuffer<V(==)>(ts: seq<Triangle<V>>, vs: seq<V>, order: Triangle<V> -> seq<V>): seq<nat>
    decreases |ts|
  {
    if ts == [] then [] else IndexBuffer(ts[..|ts| - 1], vs, order) + TriangleIndices(ts[|ts| - 1], vs, order)
  }

  /** The total size of the triangles' vertex sets. */
  function VertexCount<V(==)>(ts: seq<Triangle<V>>): nat
    decreases |ts|
  {
    if ts == [] then 0 else VertexCount(ts[..|ts| - 1]) + |ts[|ts| - 1].Vertices()|
  }

  // ---------------------------------------------------------------------
  // Properties

  /** A list without repetitions has as many distinct elements as entries. */
  lemma {:induction false} DistinctCard<V>(s: seq<V>)
    requires forall i, j :: 0 <= i < j < |s| ==> s[i] != s[j]
    ensures |set x | x in s| == |s|
    decreases |s|
  {
    if s != [] {
      var init, last := s[..|s| - 1], s[|s| - 1];
      forall i, j | 0 <= i < j < |init| ensures init[i] != init[j] {
        assert init[i] == s[i] && init[j] == s[j];
      }
      DistinctCard(init);
      assert last !in init by {
        forall k | 0 <= k < |init| ensures init[k] != last {
          assert init[k] == s[k];
        }
      }
      assert s == init + [last];
      assert (set x | x in s) == (set x | x in init) + {last};
    }
  }

  /** An enumeration of a triangle's vertex set is as long as that set. */
  lemma EnumerationLength<V>(s: seq<V>, t: Triangle<V>)
    requires EnumeratesVertices(s, t)
    ensures |s| == |t.Vertices()|
    ensures t.Proper() ==> |s| == 3
  {
    DistinctCard(s);
    assert (set x | x in s) == t.Vertices();
  }

  /** An enumeration of the vertices of a triangle whose corners are all
      listed contains only listed vertices. */
  lemma EnumeratedListed<V>(s: seq<V>, t: Triangle<V>, vs: seq<V>)
    requires EnumeratesVertices(s, t)
    requires t.vertexA in vs && t.vertexB in vs && t.vertexC in vs
    ensures forall k :: 0 <= k < |s| ==> s[k] in vs
  {
  }

  /** A position holding `v` with no earlier `v` is what `firstIndex(of:)` returns. */
  lemma FirstIndexUnique<V>(vs: seq<V>, v: V, k: nat)
    requires k < |vs| && vs[k] == v
    requires forall j :: 0 <= j < k ==> vs[j] != v
    ensures FirstIndex(vs, v) == Some(k)
  {
    assert v in vs;
  }

  /** Every index names a valid position, the first one holding its vertex. */
  lemma {:induction false} IndexBufferValid<V>(ts: seq<Triangle<V>>, vs: seq<V>, order: Triangle<V> -> seq<V>)
    ensures forall k :: 0 <= k < |IndexBuffer(ts, vs, order)| ==>
      IndexBuffer(ts, vs, order)[k] < |vs| &&
      forall j :: 0 <= j < IndexBuffer(ts, vs, order)[k] ==> vs[j] != vs[IndexBuffer(ts, vs, order)[k]]
    decreases |ts|
  {
    if ts != [] {
      var n := |ts| - 1;
      IndexBufferValid(ts[..n], vs, order);
      var a, b := IndexBuffer(ts[..n], vs, order), TriangleIndices(ts[n], vs, order);
      CompactIndicesValid(vs, order(ts[n]));
      var r := IndexBuffer(ts, vs, order);
      assert r == a + b;
      forall k | 0 <= k < |r|
        ensures r[k] < |vs| && forall j :: 0 <= j < r[k] ==> vs[j] != vs[r[k]]
      {
        if k < |a| {
          assert r[k] == a[k];
        } else {
          assert r[k] == b[k - |a|];
        }
      }
    }
  }

  /** When every triangle vertex is an input point, no lookup misses: the
      buffer has one entry per vertex of each triangle. */
  lemma {:induction false} IndexBufferNoMiss<V>(ts: seq<Triangle<V>>, vs: seq<V>, order: Triangle<V> -> seq<V>)
    requires IsSetOrder(order, ts) && VerticesFrom(ts, vs)
    ensures |IndexBuffer(ts, vs, order)| == VertexCount(ts)
    decreases |ts|
  {
    if ts != [] {
      var n := |ts| - 1;
      var init, t := ts[..n], ts[n];
      PrefixSetOrder(ts, vs, order, n);
      IndexBufferNoMiss(init, vs, order);
      assert t.Corner(0) in vs && t.Corner(1) in vs && t.Corner(2) in vs;
      TriangleIndicesCount(t, vs, order);
      assert IndexBuffer(ts, vs, order) == IndexBuffer(init, vs, order) + TriangleIndices(t, vs, order);
    }
  }

  /** The hypotheses of IndexBufferNoMiss hold of every prefix. */
  lemma PrefixSetOrder<V>(ts: seq<Triangle<V>>, vs: seq<V>, order: Triangle<V> -> seq<V>, n: nat)
    requires n <= |ts|
    requires IsSetOrder(order, ts) && VerticesFrom(ts, vs)
    ensures IsSetOrder(order, ts[..n]) && VerticesFrom(ts[..n], vs)
  {
    forall i | 0 <= i < n ensures ts[..n][i] == ts[i] { }
  }

  /** A triangle whose corners are all listed gets one index per distinct corner. */
  lemma TriangleIndicesCount<V>(t: Triangle<V>, vs: seq<V>, order: Triangle<V> -> seq<V>)
    requires EnumeratesVertices(order(t), t)
    requires t.vertexA in vs && t.vertexB in vs && t.vertexC in vs
    ensures |TriangleIndices(t, vs, order)| == |t.Vertices()|
  {
    var s := order(t);
    EnumerationLength(s, t);
    EnumeratedListed(s, t, vs);
    CompactIndicesExact(vs, s);
  }

  /** For a proper iteration order, every index points at a vertex of one
      of the triangles. */
  lemma {:induction false} IndexBufferVertices<V>(ts: seq<Triangle<V>>, vs: seq<V>, order: Triangle<V> -> seq<V>)
    requires IsSetOrder(order, ts)
    ensures forall k :: 0 <= k < |IndexBuffer(ts, vs, order)| ==>
      IndexBuffer(ts, vs, order)[k] < |vs| &&
      exists i :: 0 <= i < |ts| && vs[IndexBuffer(ts, vs, order)[k]] in ts[i].Vertices()
    decreases |ts|
  {
    if ts != [] {
      var n := |ts| - 1;
      var init, t := ts[..n], ts[n];
      assert IsSetOrder(order, init) by {
        forall i | 0 <= i < |init| ensures EnumeratesVertices(order(init[i]), init[i]) { assert init[i] == ts[i]; }
      }
      IndexBufferVertices(init, vs, order);
      var a, b := IndexBuffer(init, vs, order), TriangleIndices(t, vs, order);
      CompactIndicesValid(vs, order(t));
      var r := IndexBuffer(ts, vs, order);
      assert r == a + b;
      assert EnumeratesVertices(order(t), t);
      forall k | 0 <= k < |r|
        ensures r[k] < |vs| && exists i :: 0 <= i < |ts| && vs[r[k]] in ts[i].Vertices()
      {
        if k < |a| {
          assert r[k] == a[k];
          var i :| 0 <= i < |init| && vs[a[k]] in init[i].Vertices();
          assert init[i] == ts[i];
          assert 0 <= i < |ts| && vs[r[k]] in ts[i].Vertices();
        } else {
          var s := order(t);
          assert r[k] == b[k - |a|];
          assert vs[b[k - |a|]] in s;
          var m :| 0 <= m < |s| && s[m] == vs[r[k]];
          assert s[m] in t.Vertices();
          assert 0 <= n < |ts| && vs[r[k]] in ts[n].Vertices();
        }
      }
    }
  }

  /** A triangle with three distinct corners, all of them input points,
      contributes the first positions of its three vertices, in the set's
      iteration order. */
  lemma TriangleIndicesCorners<V>(t: Triangle<V>, vs: seq<V>, order: Triangle<V> -> seq<V>)
    requires EnumeratesVertices(order(t), t)
    requires t.Proper()
    requires t.vertexA in vs && t.vertexB in vs && t.vertexC in vs
    ensures |order(t)| == 3 && |TriangleIndices(t, vs, order)| == 3
    ensures forall c :: 0 <= c < 3 ==> FirstIndex(vs, order(t)[c]) == Some(TriangleIndices(t, vs, order)[c])
  {
    var s := order(t);
    EnumerationLength(s, t);
    var r := TriangleIndices(t, vs, order);
    EnumeratedListed(s, t, vs);
    CompactIndicesExact(vs, s);
    CompactIndicesValid(vs, s);
    forall c | 0 <= c < 3 ensures FirstIndex(vs, s[c]) == Some(r[c]) {
      FirstIndexUnique(vs, s[c], r[c]);
    }
  }

  /** Entry `3 * i + c` of `ib` is `firstIndex(of:)` of the `c`-th vertex of
      triangle `i` in the set's iteration order. */
  ghost predicate IndexedCorners<V>(ts: seq<Triangle<V>>, vs: seq<V>, ib: seq<nat>, order: Triangle<V> -> seq<V>) {
    |ib| == 3 * |ts| &&
    forall i :: 0 <= i < |ts| ==>
      |order(ts[i])| == 3 &&
      forall c :: 0 <= c < 3 ==> FirstIndex(vs, order(ts[i])[c]) == Some(ib[3 * i + c])
  }

  lemma AppendTriple<V>(vs: seq<V>, init: seq<Triangle<V>>, t: Triangle<V>, a: seq<nat>, b: seq<nat>, order: Triangle<V> -> seq<V>)
    requires IndexedCorners(init, vs, a, order)
    requires |order(t)| == 3 && |b| == 3
    requires forall c :: 0 <= c < 3 ==> FirstIndex(vs, order(t)[c]) == Some(b[c])
    ensures IndexedCorners(init + [t], vs, a + b, order)
  {
    var ts, r := init + [t], a + b;
    forall i | 0 <= i < |ts|
      ensures |order(ts[i])| == 3
      ensures forall c :: 0 <= c < 3 ==> FirstIndex(vs, order(ts[i])[c]) == Some(r[3 * i + c])
    {
      if i < |init| {
        assert ts[i] == init[i];
        forall c | 0 <= c < 3 ensures FirstIndex(vs, order(ts[i])[c]) == Some(r[3 * i + c]) {
          assert r[3 * i + c] == a[3 * i + c];
        }
      } else {
        assert ts[i] == t;
        forall c | 0 <= c < 3 ensures FirstIndex(vs, order(ts[i])[c]) == Some(r[3 * i + c]) {
          assert r[3 * i + c] == b[c];
        }
      }
    }
  }

  /** When every triangle has three distinct corners and all of them are
      input points, the buffer holds one triple per triangle: the first
      positions of that triangle's three vertices. */
  lemma {:induction false} IndexBufferTriples<V>(ts: seq<Triangle<V>>, vs: seq<V>, order: Triangle<V> -> seq<V>)
    requires IsSetOrder(order, ts)
    requires NonDegenerate(ts) && VerticesFrom(ts, vs)
    ensures IndexedCorners(ts, vs, IndexBuffer(ts, vs, order), order)
    decreases |ts|
  {
    if ts != [] {
      var n := |ts| - 1;
      var init, t := ts[..n], ts[n];
      VerticesFromMembers(init, ts, vs);
      assert IsSetOrder(order, init) by {
        forall i | 0 <= i < |init| ensures EnumeratesVertices(order(init[i]), init[i]) { assert init[i] == ts[i]; }
      }
      IndexBufferTriples(init, vs, order);
      assert t.vertexA == ts[n].Corner(0) && t.vertexB == ts[n].Corner(1) && t.vertexC == ts[n].Corner(2);
      TriangleIndicesCorners(t, vs, order);
      AppendTriple(vs, init, t, IndexBuffer(init, vs, order), TriangleIndices(t, vs, order), order);
      assert init + [t] == ts;
    }
  }
}
