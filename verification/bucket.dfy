/** Triangle bucketing: every triangle of a submesh goes, whole and in its
    original index order, to the outer list (stays on the character) or the
    inner list (leaves with the fragment); triangles with exactly one inner
    corner also contribute the edge between their two outer corners to the
    boundary loop that the caps are built from. */
module Bucket {
  import opened Base
  import opened MeshData

  datatype Tri = Tri(a: int, b: int, c: int)

  /** Read a flat index list three at a time. */
  function Triangles(s: seq<int>): (ts: seq<Tri>)
    requires |s| % 3 == 0
    ensures |ts| == |s| / 3
  {
    if |s| == 0 then [] else [Tri(s[0], s[1], s[2])] + Triangles(s[3..])
  }

  /** Write triangles back as a flat index list. */
  function Indices(ts: seq<Tri>): (s: seq<int>)
    ensures |s| == 3 * |ts|
  {
    if |ts| == 0 then [] else [ts[0].a, ts[0].b, ts[0].c] + Indices(ts[1..])
  }

  /** Whether vertex `v` is classified inner; indices outside the mesh never are. */
  predicate IsInner(inner: seq<bool>, v: int) {
    0 <= v < |inner| && inner[v]
  }

  /** A triangle leaves with the fragment as soon as one corner is inner. */
  predicate HasInner(inner: seq<bool>, t: Tri) {
    IsInner(inner, t.a) || IsInner(inner, t.b) || IsInner(inner, t.c)
  }

  function InnerCount(inner: seq<bool>, t: Tri): nat {
    (if IsInner(inner, t.a) then 1 else 0)
    + (if IsInner(inner, t.b) then 1 else 0)
    + (if IsInner(inner, t.c) then 1 else 0)
  }

  /** The triangles of `ts` that go to the inner (`wantInner`) or the outer
      bucket, in their original order. */
  function Select(inner: seq<bool>, ts: seq<Tri>, wantInner: bool): (r: seq<Tri>)
    ensures |r| <= |ts|
  {
    if |ts| == 0 then []
    else (if HasInner(inner, ts[0]) == wantInner then [ts[0]] else []) + Select(inner, ts[1..], wantInner)
  }

  /** The boundary indices one triangle contributes: the three tests of the
      original, of which at most one can hold. */
  function BoundaryPair(inner: seq<bool>, t: Tri): seq<int> {
    var v1, v2, v3 := IsInner(inner, t.a), IsInner(inner, t.b), IsInner(inner, t.c);
    (if v1 && !v2 && !v3 then [t.b, t.c] else [])
    + (if !v1 && v2 && !v3 then [t.c, t.a] else [])
    + (if !v1 && !v2 && v3 then [t.a, t.b] else [])
  }

  /** The boundary indices of a run of triangles, in triangle order. */
  function Boundary(inner: seq<bool>, ts: seq<Tri>): seq<int> {
    if |ts| == 0 then [] else BoundaryPair(inner, ts[0]) + Boundary(inner, ts[1..])
  }

  // ---------------------------------------------------------------------
  // Structural lemmas
  // ---------------------------------------------------------------------

  lemma {:induction false} IndicesOfTriangles(s: seq<int>)
    requires |s| % 3 == 0
    ensures Indices(Triangles(s)) == s
    decreases |s|
  {
    if |s| > 0 {
      IndicesOfTriangles(s[3..]);
      assert Triangles(s)[1..] == Triangles(s[3..]);
    }
  }

  lemma {:induction false} TrianglesAppend(x: seq<int>, y: seq<int>)
    requires |x| % 3 == 0 && |y| % 3 == 0
    ensures Triangles(x + y) == Triangles(x) + Triangles(y)
    decreases |x|
  {
    if |x| == 0 {
      assert x + y == y;
    } else {
      assert (x + y)[3..] == x[3..] + y;
      TrianglesAppend(x[3..], y);
    }
  }

  lemma {:induction false} IndicesAppend(xs: seq<Tri>, ys: seq<Tri>)
    ensures Indices(xs + ys) == Indices(xs) + Indices(ys)
    decreases |xs|
  {
    if |xs| == 0 {
      assert xs + ys == ys;
    } else {
      assert (xs + ys)[0] == xs[0];
      assert (xs + ys)[1..] == xs[1..] + ys;
      IndicesAppend(xs[1..], ys);
    }
  }

  lemma {:induction false} SelectAppend(inner: seq<bool>, xs: seq<Tri>, ys: seq<Tri>, wantInner: bool)
    ensures Select(inner, xs + ys, wantInner) == Select(inner, xs, wantInner) + Select(inner, ys, wantInner)
    decreases |xs|
  {
    if |xs| == 0 {
      assert xs + ys == ys;
    } else {
      assert (xs + ys)[0] == xs[0];
      assert (xs + ys)[1..] == xs[1..] + ys;
      SelectAppend(inner, xs[1..], ys, wantInner);
    }
  }

  lemma {:induction false} BoundaryAppend(inner: seq<bool>, xs: seq<Tri>, ys: seq<Tri>)
    ensures Boundary(inner, xs + ys) == Boundary(inner, xs) + Boundary(inner, ys)
    decreases |xs|
  {
    if |xs| == 0 {
      assert xs + ys == ys;
    } else {
      assert (xs + ys)[0] == xs[0];
      assert (xs + ys)[1..] == xs[1..] + ys;
      BoundaryAppend(inner, xs[1..], ys);
    }
  }

  // ---------------------------------------------------------------------
  // The bucketing pass
  // ---------------------------------------------------------------------

  datatype Buckets = Buckets(outer: seq<int>, inner: seq<int>, edges: seq<int>)

  /** The outcome of bucketing one submesh's triangle list. */
  function BucketTris(inner: seq<bool>, tris: seq<int>): (r: Buckets)
    requires |tris| % 3 == 0
    ensures |r.outer| % 3 == 0 && |r.inner| % 3 == 0
  {
    var ts := Triangles(tris);
    Buckets(Indices(Select(inner, ts, false)), Indices(Select(inner, ts, true)), Boundary(inner, ts))
  }

  /** One step of the pass: a triangle with an inner corner joins the inner
      list and adds its boundary indices, any other joins the outer list. */
  ghost function Step(bs: Buckets, inner: seq<bool>, t: Tri): Buckets {
    if HasInner(inner, t) then Buckets(bs.outer, bs.inner + [t.a, t.b, t.c], bs.edges + BoundaryPair(inner, t))
    else Buckets(bs.outer + [t.a, t.b, t.c], bs.inner, bs.edges)
  }

  /** Extending the processed prefix by one triangle is one step. */
  lemma BucketStep(inner: seq<bool>, prefix: seq<int>, t: Tri)
    requires |prefix| % 3 == 0
    ensures |prefix + [t.a, t.b, t.c]| % 3 == 0
    ensures BucketTris(inner, prefix + [t.a, t.b, t.c]) == Step(BucketTris(inner, prefix), inner, t)
  {
    AddTriple(|prefix|);
    var done := Triangles(prefix);
    var ts := Triangles(prefix + [t.a, t.b, t.c]);
    assert ts == done + [t] by {
      TrianglesAppend(prefix, [t.a, t.b, t.c]);
      assert Triangles([t.a, t.b, t.c]) == [t];
    }
    var o, n := Select(inner, done, false), Select(inner, done, true);
    var o1, n1 := Select(inner, [t], false), Select(inner, [t], true);
    var before, after := BucketTris(inner, prefix), BucketTris(inner, prefix + [t.a, t.b, t.c]);
    assert after.outer == Indices(o) + Indices(o1) by {
      SelectAppend(inner, done, [t], false);
      IndicesAppend(o, o1);
    }
    assert after.inner == Indices(n) + Indices(n1) by {
      SelectAppend(inner, done, [t], true);
      IndicesAppend(n, n1);
    }
    assert after.edges == before.edges + BoundaryPair(inner, t) by {
      BoundaryAppend(inner, done, [t]);
      assert Boundary(inner, [t]) == BoundaryPair(inner, t) + Boundary(inner, []);
    }
    if HasInner(inner, t) {
      assert o1 == [] && n1 == [t] && Indices(n1) == [t.a, t.b, t.c];
    } else {
      assert o1 == [t] && n1 == [] && Indices(o1) == [t.a, t.b, t.c];
    }
  }

  /** The three edge tests applied to one triangle whose corners have the
      classifications `vert1`, `vert2`, `vert3`. */
  method HarvestEdge(edges: seq<int>, tri0: int, tri1: int, tri2: int, vert1: bool, vert2: bool, vert3: bool)
    returns (edges': seq<int>)
    ensures |edges'| == |edges| + (if (vert1 && !vert2 && !vert3) || (!vert1 && vert2 && !vert3) || (!vert1 && !vert2 && vert3) then 2 else 0)
    ensures edges'[..|edges|] == edges
    ensures vert1 && !vert2 && !vert3 ==> edges'[|edges|..] == [tri1, tri2]
    ensures !vert1 && vert2 && !vert3 ==> edges'[|edges|..] == [tri2, tri0]
    ensures !vert1 && !vert2 && vert3 ==> edges'[|edges|..] == [tri0, tri1]
  {
    edges' := edges;
    if vert1 && !vert2 && !vert3 { edges' := edges' + [tri1, tri2]; }
    if !vert1 && vert2 && !vert3 { edges' := edges' + [tri2, tri0]; }
    if !vert1 && !vert2 && vert3 { edges' := edges' + [tri0, tri1]; }
  }

  /** The loop body for one triangle: read its corners' classifications,
      harvest its boundary edge, and append it whole to one of the lists. */
  method BucketTriangle(inner: seq<bool>, bs: Buckets, tri0: int, tri1: int, tri2: int) returns (bs': Buckets)
    requires 0 <= tri0 < |inner| && 0 <= tri1 < |inner| && 0 <= tri2 < |inner|
    ensures bs' == Step(bs, inner, Tri(tri0, tri1, tri2))
  {
    var vert1, vert2, vert3 := inner[tri0], inner[tri1], inner[tri2];
    assert IsInner(inner, tri0) == vert1 && IsInner(inner, tri1) == vert2 && IsInner(inner, tri2) == vert3;
    if vert1 || vert2 || vert3 {
      var edges := HarvestEdge(bs.edges, tri0, tri1, tri2, vert1, vert2, vert3);
      assert edges == bs.edges + BoundaryPair(inner, Tri(tri0, tri1, tri2));
      bs' := Buckets(bs.outer, bs.inner + [tri0, tri1, tri2], edges);
    } else {
      bs' := Buckets(bs.outer + [tri0, tri1, tri2], bs.inner, bs.edges);
    }
  }

  /** The source's pass over one submesh: walk the triangles three indices at
      a time, append each whole triangle to one list, and append the boundary
      edge of every triangle with exactly one inner corner. */
  method BucketSubmesh(inner: seq<bool>, tris: seq<int>) returns (outer: seq<int>, innerTris: seq<int>, edges: seq<int>)
    requires ValidTriangles(tris, |inner|)
    ensures Buckets(outer, innerTris, edges) == BucketTris(inner, tris)
  {
    var bs := Buckets([], [], []);
    var i := 0;
    while i < |tris|
      invariant 0 <= i <= |tris| && i % 3 == 0
      invariant bs == BucketTris(inner, tris[..i])
    {
      NextTriple(i, |tris|);
      var tri0, tri1, tri2 := tris[i], tris[i + 1], tris[i + 2];
      ghost var before := bs;
      bs := BucketTriangle(inner, bs, tri0, tri1, tri2);
      assert BucketTris(inner, tris[..i + 3]) == Step(before, inner, Tri(tri0, tri1, tri2)) by {
        assert tris[..i + 3] == tris[..i] + [tri0, tri1, tri2];
        BucketStep(inner, tris[..i], Tri(tri0, tri1, tri2));
      }
      i := i + 3;
    }
    assert tris[..i] == tris;
    outer, innerTris, edges := bs.outer, bs.inner, bs.edges;
  }

  // ---------------------------------------------------------------------
  // What the buckets mean
  // ---------------------------------------------------------------------

  /** Every triangle lands in exactly one bucket: the two buckets together
      are a rearrangement of the input. */
  lemma {:induction false} SelectPartition(inner: seq<bool>, ts: seq<Tri>)
    ensures multiset(Select(inner, ts, false)) + multiset(Select(inner, ts, true)) == multiset(ts)
    decreases |ts|
  {
    if |ts| > 0 {
      var t, rest := ts[0], ts[1..];
      SelectPartition(inner, rest);
      assert multiset(ts) == multiset{t} + multiset(rest) by { assert ts == [t] + rest; }
      if HasInner(inner, t) {
        assert Select(inner, ts, true) == [t] + Select(inner, rest, true);
        assert Select(inner, ts, false) == Select(inner, rest, false);
      } else {
        assert Select(inner, ts, false) == [t] + Select(inner, rest, false);
        assert Select(inner, ts, true) == Select(inner, rest, true);
      }
    }
  }

  /** The outer bucket holds only triangles with no inner corner, the inner
      bucket only triangles with at least one. */
  lemma {:induction false} SelectClassified(inner: seq<bool>, ts: seq<Tri>, wantInner: bool)
    ensures forall k :: 0 <= k < |Select(inner, ts, wantInner)| ==>
      HasInner(inner, Select(inner, ts, wantInner)[k]) == wantInner
    decreases |ts|
  {
    if |ts| > 0 {
      SelectClassified(inner, ts[1..], wantInner);
    }
  }

  /** A triangle is in the inner bucket iff it has an inner corner, and in the
      outer bucket iff it has none. */
  lemma {:induction false} SelectMembership(inner: seq<bool>, ts: seq<Tri>, t: Tri)
    requires t in ts
    ensures t in Select(inner, ts, true) <==> HasInner(inner, t)
    ensures t in Select(inner, ts, false) <==> !HasInner(inner, t)
    decreases |ts|
  {
    SelectClassified(inner, ts, true);
    SelectClassified(inner, ts, false);
    if ts[0] != t {
      SelectMembership(inner, ts[1..], t);
    }
  }

  /** A bucket holds exactly the triangles of `ts` with the wanted
      classification. */
  lemma {:induction false} SelectExactly(inner: seq<bool>, ts: seq<Tri>, wantInner: bool)
    ensures forall t :: t in Select(inner, ts, wantInner) <==> t in ts && HasInner(inner, t) == wantInner
    decreases |ts|
  {
    if |ts| > 0 {
      SelectExactly(inner, ts[1..], wantInner);
      assert ts == [ts[0]] + ts[1..];
    }
  }

  /** The index counts of the two buckets add up to the submesh's. */
  lemma BucketSizes(inner: seq<bool>, tris: seq<int>)
    requires |tris| % 3 == 0
    ensures |BucketTris(inner, tris).outer| + |BucketTris(inner, tris).inner| == |tris|
  {
    var ts := Triangles(tris);
    SelectPartition(inner, ts);
    assert |multiset(Select(inner, ts, false))| + |multiset(Select(inner, ts, true))| == |multiset(ts)|;
  }

  /** Only a triangle with exactly one inner corner emits indices, and it
      emits its two outer corners in cyclic order after the inner one. */
  lemma BoundaryPairShape(inner: seq<bool>, t: Tri)
    ensures InnerCount(inner, t) != 1 ==> BoundaryPair(inner, t) == []
    ensures IsInner(inner, t.a) && InnerCount(inner, t) == 1 ==> BoundaryPair(inner, t) == [t.b, t.c]
    ensures IsInner(inner, t.b) && InnerCount(inner, t) == 1 ==> BoundaryPair(inner, t) == [t.c, t.a]
    ensures IsInner(inner, t.c) && InnerCount(inner, t) == 1 ==> BoundaryPair(inner, t) == [t.a, t.b]
  {
  }

  /** The boundary list is a list of whole edges (even length) whose every
      entry is an outer vertex, and it is non-empty only if some triangle went
      to the inner bucket. */
  lemma {:induction false} BoundaryEdges(inner: seq<bool>, ts: seq<Tri>)
    ensures |Boundary(inner, ts)| % 2 == 0
    ensures forall j :: 0 <= j < |Boundary(inner, ts)| ==> !IsInner(inner, Boundary(inner, ts)[j])
    ensures |Boundary(inner, ts)| > 0 ==> |Select(inner, ts, true)| > 0
    decreases |ts|
  {
    if |ts| > 0 {
      BoundaryEdges(inner, ts[1..]);
    }
  }

  /** Boundary entries are corners of inner-bucket triangles (the edge is
      shared between the two pieces). */
  lemma {:induction false} BoundaryInInnerBucket(inner: seq<bool>, ts: seq<Tri>)
    ensures forall j :: 0 <= j < |Boundary(inner, ts)| ==>
      Boundary(inner, ts)[j] in Indices(Select(inner, ts, true))
    decreases |ts|
  {
    if |ts| > 0 {
      BoundaryInInnerBucket(inner, ts[1..]);
      var t := ts[0];
      var rest := Select(inner, ts[1..], true);
      var bound := Boundary(inner, ts);
      assert bound == BoundaryPair(inner, t) + Boundary(inner, ts[1..]);
      if HasInner(inner, t) {
        assert Select(inner, ts, true) == [t] + rest;
        IndicesAppend([t], rest);
        assert Indices([t]) == [t.a, t.b, t.c] + Indices([]);
        var all := Indices(Select(inner, ts, true));
        assert all == [t.a, t.b, t.c] + Indices(rest);
        forall j | 0 <= j < |bound| ensures bound[j] in all {
          if j >= |BoundaryPair(inner, t)| {
            assert bound[j] == Boundary(inner, ts[1..])[j - |BoundaryPair(inner, t)|];
          }
        }
      } else {
        assert BoundaryPair(inner, t) == [];
        assert Select(inner, ts, true) == rest;
      }
    }
  }

  /** Bucketing the outer bucket again with the same classification moves
      nothing: a repeated cut finds no inner triangle. */
  lemma {:induction false} RebucketOuterIsStable(inner: seq<bool>, tris: seq<int>)
    requires |tris| % 3 == 0
    ensures var o := BucketTris(inner, tris).outer;
      BucketTris(inner, o) == Buckets(o, [], [])
  {
    var ts := Triangles(tris);
    var sel := Select(inner, ts, false);
    SelectClassified(inner, ts, false);
    TrianglesOfIndices(sel);
    AllOuterSelect(inner, sel);
  }

  lemma {:induction false} TrianglesOfIndices(ts: seq<Tri>)
    ensures Triangles(Indices(ts)) == ts
    decreases |ts|
  {
    if |ts| > 0 {
      TrianglesOfIndices(ts[1..]);
      var s := Indices(ts);
      assert s[3..] == Indices(ts[1..]);
    }
  }

  lemma {:induction false} AllOuterSelect(inner: seq<bool>, ts: seq<Tri>)
    requires forall k :: 0 <= k < |ts| ==> !HasInner(inner, ts[k])
    ensures Select(inner, ts, false) == ts
    ensures Select(inner, ts, true) == []
    ensures Boundary(inner, ts) == []
    decreases |ts|
  {
    if |ts| > 0 {
      AllOuterSelect(inner, ts[1..]);
    }
  }

  /** With no inner triangle the outer bucket is the whole submesh, unchanged. */
  lemma NoInnerKeepsEverything(inner: seq<bool>, tris: seq<int>)
    requires |tris| % 3 == 0
    requires |BucketTris(inner, tris).inner| == 0
    ensures BucketTris(inner, tris).outer == tris
    ensures BucketTris(inner, tris).edges == []
  {
    var ts := Triangles(tris);
    assert forall k :: 0 <= k < |ts| ==> !HasInner(inner, ts[k]) by {
      forall k | 0 <= k < |ts| ensures !HasInner(inner, ts[k]) {
        SelectMembership(inner, ts, ts[k]);
      }
    }
    AllOuterSelect(inner, ts);
    IndicesOfTriangles(tris);
  }

  // ---------------------------------------------------------------------
  // Index ranges: bucketing never invents a vertex index
  // ---------------------------------------------------------------------

  /** Every corner of every triangle addresses one of `n` vertices. */
  predicate CornersBelow(ts: seq<Tri>, n: int) {
    forall k :: 0 <= k < |ts| ==> 0 <= ts[k].a < n && 0 <= ts[k].b < n && 0 <= ts[k].c < n
  }

  lemma {:induction false} TrianglesBelow(s: seq<int>, n: int)
    requires ValidTriangles(s, n)
    ensures CornersBelow(Triangles(s), n)
    decreases |s|
  {
    if |s| > 0 {
      TrianglesBelow(s[3..], n);
      assert Triangles(s)[1..] == Triangles(s[3..]);
    }
  }

  lemma {:induction false} IndicesBelow(ts: seq<Tri>, n: int)
    requires CornersBelow(ts, n)
    ensures ValidTriangles(Indices(ts), n)
    decreases |ts|
  {
    if |ts| > 0 {
      IndicesBelow(ts[1..], n);
    }
  }

  lemma {:induction false} SelectBelow(inner: seq<bool>, ts: seq<Tri>, wantInner: bool, n: int)
    requires CornersBelow(ts, n)
    ensures CornersBelow(Select(inner, ts, wantInner), n)
    decreases |ts|
  {
    if |ts| > 0 {
      SelectBelow(inner, ts[1..], wantInner, n);
    }
  }

  lemma {:induction false} BoundaryBelow(inner: seq<bool>, ts: seq<Tri>, n: int)
    requires CornersBelow(ts, n)
    ensures forall j :: 0 <= j < |Boundary(inner, ts)| ==> 0 <= Boundary(inner, ts)[j] < n
    decreases |ts|
  {
    if |ts| > 0 {
      BoundaryBelow(inner, ts[1..], n);
    }
  }

  /** Both buckets are valid triangle lists over the same vertices, and every
      boundary index addresses one of them. */
  lemma BucketInRange(inner: seq<bool>, tris: seq<int>, n: int)
    requires ValidTriangles(tris, n)
    ensures ValidTriangles(BucketTris(inner, tris).outer, n)
    ensures ValidTriangles(BucketTris(inner, tris).inner, n)
    ensures forall j :: 0 <= j < |BucketTris(inner, tris).edges| ==> 0 <= BucketTris(inner, tris).edges[j] < n
  {
    var ts := Triangles(tris);
    TrianglesBelow(tris, n);
    SelectBelow(inner, ts, false, n);
    SelectBelow(inner, ts, true, n);
    IndicesBelow(Select(inner, ts, false), n);
    IndicesBelow(Select(inner, ts, true), n);
    BoundaryBelow(inner, ts, n);
  }

  // ---------------------------------------------------------------------
  // The whole mesh
  // ---------------------------------------------------------------------

  /** Bucket every submesh with one mesh-wide classification. */
  function BucketAll(inner: seq<bool>, submeshes: seq<seq<int>>): (bs: seq<Buckets>)
    requires forall s :: 0 <= s < |submeshes| ==> |submeshes[s]| % 3 == 0
    ensures |bs| == |submeshes|
  {
    seq(|submeshes|, s requires 0 <= s < |submeshes| => BucketTris(inner, submeshes[s]))
  }

  /** The boundary edges of all submeshes, appended in submesh order. */
  function AllEdges(bs: seq<Buckets>): seq<int> {
    if |bs| == 0 then [] else AllEdges(bs[..|bs| - 1]) + bs[|bs| - 1].edges
  }

  /** Whether any submesh sent a triangle to the inner bucket. */
  predicate AnyInner(bs: seq<Buckets>) {
    exists s :: 0 <= s < |bs| && |bs[s].inner| > 0
  }

  /** One submesh's boundary is whole edges between outer vertices, and is
      non-empty only if the submesh has inner triangles. */
  predicate EdgesShaped(inner: seq<bool>, b: Buckets) {
    && |b.edges| % 2 == 0
    && (forall j :: 0 <= j < |b.edges| ==> !IsInner(inner, b.edges[j]))
    && (|b.edges| > 0 ==> |b.inner| > 0)
  }

  /** Appending shaped boundaries keeps the shape. */
  lemma {:induction false} AllEdgesOfShaped(inner: seq<bool>, bs: seq<Buckets>)
    requires forall s :: 0 <= s < |bs| ==> EdgesShaped(inner, bs[s])
    ensures var e := AllEdges(bs);
      && |e| % 2 == 0
      && (forall j :: 0 <= j < |e| ==> !IsInner(inner, e[j]))
      && (|e| > 0 ==> AnyInner(bs))
    decreases |bs|
  {
    if |bs| > 0 {
      var n := |bs| - 1;
      var front := bs[..n];
      assert forall s :: 0 <= s < n ==> front[s] == bs[s];
      AllEdgesOfShaped(inner, front);
      assert EdgesShaped(inner, bs[n]);
      EvenSum(|AllEdges(front)|, |bs[n].edges|);
      if |AllEdges(front)| > 0 {
        var s :| 0 <= s < n && |front[s].inner| > 0;
        assert |bs[s].inner| > 0;
      }
    }
  }

  /** The mesh-wide edge list has even length, holds only outer vertices, and
      is non-empty only if some submesh has inner triangles. */
  lemma AllEdgesShape(inner: seq<bool>, submeshes: seq<seq<int>>)
    requires forall s :: 0 <= s < |submeshes| ==> |submeshes[s]| % 3 == 0
    ensures var e := AllEdges(BucketAll(inner, submeshes));
      && |e| % 2 == 0
      && (forall j :: 0 <= j < |e| ==> !IsInner(inner, e[j]))
      && (|e| > 0 ==> AnyInner(BucketAll(inner, submeshes)))
  {
    var bs := BucketAll(inner, submeshes);
    forall s | 0 <= s < |bs| ensures EdgesShaped(inner, bs[s]) {
      BoundaryEdges(inner, Triangles(submeshes[s]));
    }
    AllEdgesOfShaped(inner, bs);
  }
}
