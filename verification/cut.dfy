/** The mesh side of one cut, shared by the three engines: bucket every
    submesh with one classification, collect the boundary list across all
    submeshes, and write the buckets back to the character's mesh (outer
    lists) and to the fragment's copy of the mesh (inner lists). */
module Cut {
  import opened Base
  import opened MeshData
  import opened Bucket

  /** Every submesh is a list of whole triangles. */
  predicate Whole(submeshes: seq<seq<int>>) {
    forall s :: 0 <= s < |submeshes| ==> |submeshes[s]| % 3 == 0
  }

  /** The submesh lists of the two meshes after a write-back. */
  datatype Halves = Halves(kept: seq<seq<int>>, detached: seq<seq<int>>)

  /** Write every submesh back: the character keeps the outer list and the
      fragment's copy gets the inner list, even when that list is empty. */
  function WriteBack(inner: seq<bool>, submeshes: seq<seq<int>>): (h: Halves)
    requires Whole(submeshes)
    ensures |h.kept| == |submeshes| && |h.detached| == |submeshes|
    ensures Whole(h.kept) && Whole(h.detached)
  {
    var bs := BucketAll(inner, submeshes);
    Halves(
      seq(|bs|, s requires 0 <= s < |bs| => bs[s].outer),
      seq(|bs|, s requires 0 <= s < |bs| => bs[s].inner))
  }

  /** The write-back of the combined engine as written: a submesh is written
      only when it received an inner triangle; otherwise both meshes keep it
      whole. */
  function WriteBackAsWritten(inner: seq<bool>, submeshes: seq<seq<int>>): (h: Halves)
    requires Whole(submeshes)
    ensures |h.kept| == |submeshes| && |h.detached| == |submeshes|
    ensures Whole(h.kept) && Whole(h.detached)
  {
    var bs := BucketAll(inner, submeshes);
    Halves(
      seq(|bs|, s requires 0 <= s < |bs| => if |bs[s].inner| > 0 then bs[s].outer else submeshes[s]),
      seq(|bs|, s requires 0 <= s < |bs| => if |bs[s].inner| > 0 then bs[s].inner else submeshes[s]))
  }

  /** The boundary list of the whole mesh: each submesh's boundary indices,
      in submesh order. */
  function CutEdges(inner: seq<bool>, submeshes: seq<seq<int>>): seq<int>
    requires Whole(submeshes)
  {
    AllEdges(BucketAll(inner, submeshes))
  }

  /** Whether any submesh sent a triangle to the fragment. */
  predicate CutsAnything(inner: seq<bool>, submeshes: seq<seq<int>>)
    requires Whole(submeshes)
  {
    AnyInner(BucketAll(inner, submeshes))
  }

  /** The write-back partitions every submesh: its triangles are split,
      with multiplicity, between the two meshes; the character keeps exactly
      those with no inner corner and the fragment gets exactly those with one. */
  lemma WriteBackPartitions(inner: seq<bool>, submeshes: seq<seq<int>>, s: int)
    requires Whole(submeshes) && 0 <= s < |submeshes|
    ensures var h := WriteBack(inner, submeshes);
      && multiset(Triangles(h.kept[s])) + multiset(Triangles(h.detached[s])) == multiset(Triangles(submeshes[s]))
      && (forall t :: t in Triangles(h.kept[s]) <==> t in Triangles(submeshes[s]) && !HasInner(inner, t))
      && (forall t :: t in Triangles(h.detached[s]) <==> t in Triangles(submeshes[s]) && HasInner(inner, t))
  {
    var ts := Triangles(submeshes[s]);
    var h := WriteBack(inner, submeshes);
    var outer, inn := Select(inner, ts, false), Select(inner, ts, true);
    assert h.kept[s] == Indices(outer) && h.detached[s] == Indices(inn);
    TrianglesOfIndices(outer);
    TrianglesOfIndices(inn);
    assert Triangles(h.kept[s]) == outer && Triangles(h.detached[s]) == inn;
    SelectPartition(inner, ts);
    SelectExactly(inner, ts, false);
    SelectExactly(inner, ts, true);
  }

  /** Both halves address the same vertices as the original submeshes. */
  lemma WriteBackInRange(inner: seq<bool>, submeshes: seq<seq<int>>, n: int)
    requires Whole(submeshes)
    requires forall s :: 0 <= s < |submeshes| ==> ValidTriangles(submeshes[s], n)
    ensures var h := WriteBack(inner, submeshes);
      && (forall s :: 0 <= s < |submeshes| ==> ValidTriangles(h.kept[s], n))
      && (forall s :: 0 <= s < |submeshes| ==> ValidTriangles(h.detached[s], n))
  {
    forall s | 0 <= s < |submeshes| ensures ValidTriangles(BucketTris(inner, submeshes[s]).outer, n)
      && ValidTriangles(BucketTris(inner, submeshes[s]).inner, n)
    {
      BucketInRange(inner, submeshes[s], n);
    }
  }

  /** The boundary list holds whole edges of outer vertices, each addressing
      one of the mesh's `n` vertices, and is empty when nothing is cut. */
  lemma {:induction false} CutEdgesShape(inner: seq<bool>, submeshes: seq<seq<int>>, n: int)
    requires Whole(submeshes)
    requires forall s :: 0 <= s < |submeshes| ==> ValidTriangles(submeshes[s], n)
    ensures var e := CutEdges(inner, submeshes);
      && |e| % 2 == 0
      && (forall j :: 0 <= j < |e| ==> 0 <= e[j] < n && !IsInner(inner, e[j]))
      && (|e| > 0 ==> CutsAnything(inner, submeshes))
    decreases |submeshes|
  {
    AllEdgesShape(inner, submeshes);
    if |submeshes| > 0 {
      var m := |submeshes| - 1;
      var front := submeshes[..m];
      CutEdgesShape(inner, front, n);
      assert BucketAll(inner, submeshes)[..m] == BucketAll(inner, front);
      BucketInRange(inner, submeshes[m], n);
      var e := CutEdges(inner, submeshes);
      assert e == CutEdges(inner, front) + BucketTris(inner, submeshes[m]).edges;
    }
  }

  /** With nothing cut, the write-back leaves the character's submeshes as
      they were and gives the fragment only empty submeshes. */
  lemma NothingCutKeepsMesh(inner: seq<bool>, submeshes: seq<seq<int>>)
    requires Whole(submeshes) && !CutsAnything(inner, submeshes)
    ensures WriteBack(inner, submeshes).kept == submeshes
    ensures forall s :: 0 <= s < |submeshes| ==> WriteBack(inner, submeshes).detached[s] == []
  {
    var bs := BucketAll(inner, submeshes);
    forall s | 0 <= s < |submeshes| ensures bs[s].outer == submeshes[s] {
      assert |bs[s].inner| == 0;
      NoInnerKeepsEverything(inner, submeshes[s]);
    }
  }

  /** A classification without inner vertices cuts nothing and leaves no
      boundary. */
  lemma NoInnerVertexCutsNothing(inner: seq<bool>, submeshes: seq<seq<int>>)
    requires Whole(submeshes)
    requires forall v :: 0 <= v < |inner| ==> !inner[v]
    ensures !CutsAnything(inner, submeshes)
    ensures CutEdges(inner, submeshes) == []
  {
    var bs := BucketAll(inner, submeshes);
    forall s | 0 <= s < |submeshes| ensures |bs[s].inner| == 0 {
      var ts := Triangles(submeshes[s]);
      assert forall k :: 0 <= k < |ts| ==> !HasInner(inner, ts[k]);
      AllOuterSelect(inner, ts);
    }
    AllEdgesShape(inner, submeshes);
  }

  /** Where a submesh received an inner triangle the two write-backs agree;
      where it received none, the as-written fragment keeps that submesh
      whole, so each of its triangles is drawn by both meshes, while the
      full write-back gives the fragment nothing of it. */
  lemma AsWrittenDuplicatesUncutSubmeshes(inner: seq<bool>, submeshes: seq<seq<int>>, s: int)
    requires Whole(submeshes) && 0 <= s < |submeshes|
    ensures var a, w := WriteBackAsWritten(inner, submeshes), WriteBack(inner, submeshes);
      && a.kept[s] == w.kept[s]
      && (|w.detached[s]| > 0 ==> a.detached[s] == w.detached[s])
      && (|w.detached[s]| == 0 ==> a.detached[s] == submeshes[s] && a.kept[s] == submeshes[s])
  {
    var bs := BucketAll(inner, submeshes);
    if |bs[s].inner| == 0 {
      NoInnerKeepsEverything(inner, submeshes[s]);
    }
  }

  /** A concrete cut that shows it: vertex 0 is inner, the first submesh is
      cut, the second submesh never touches vertex 0. As written, the
      fragment still draws the second submesh's triangle (1, 2, 3), which the
      character draws as well. */
  lemma AsWrittenDuplicateExample()
    ensures var inner, subs := [true, false, false, false], [[0, 1, 2], [1, 2, 3]];
      && CutsAnything(inner, subs)
      && WriteBackAsWritten(inner, subs).detached[1] == [1, 2, 3]
      && WriteBackAsWritten(inner, subs).kept[1] == [1, 2, 3]
      && WriteBack(inner, subs).detached[1] == []
  {
    var inner, subs := [true, false, false, false], [[0, 1, 2], [1, 2, 3]];
    assert Triangles([0, 1, 2]) == [Tri(0, 1, 2)] by {
      assert [0, 1, 2][3..] == [];
    }
    assert Triangles([1, 2, 3]) == [Tri(1, 2, 3)] by {
      assert [1, 2, 3][3..] == [];
    }
    var bs := BucketAll(inner, subs);
    assert Select(inner, [Tri(0, 1, 2)], true) == [Tri(0, 1, 2)];
    assert |bs[0].inner| == 3;
    assert Select(inner, [Tri(1, 2, 3)], true) == [];
    assert bs[1].inner == [];
  }
}
