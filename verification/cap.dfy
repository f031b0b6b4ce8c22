/** Cap construction: a triangle fan over the boundary list that closes the
    hole left by the cut. The newer builder makes a separate small mesh that
    copies the boundary vertices and their bone weights and fans over its own
    local indices; the legacy builder appends a fan over the original mesh's
    indices as one more submesh. */
module Cap {
  import opened Base
  import opened MeshData

  /** Slot `j` of the fan's triangle buffer over the vertex list `vs`. The
      buffer has room for |vs| - 1 triangles; the pair starting at each even
      position `a` is written into triangle slot `a` (not `a / 2`), so the
      odd triangle slots are never written and keep their initial 0. */
  function FanSlot(vs: seq<int>, facing: bool, j: int): int
    requires |vs| >= 2 && 0 <= j < (|vs| - 1) * 3
  {
    var a := j / 3;
    var k := j % 3;
    if a % 2 != 0 then 0
    else if k == 0 then vs[0]
    else if k == 1 then (if facing then vs[a] else vs[a + 1])
    else (if facing then vs[a + 1] else vs[a])
  }

  /** The whole triangle buffer of the fan. */
  function Fan(vs: seq<int>, facing: bool): (tris: seq<int>)
    requires |vs| >= 2
    ensures |tris| == (|vs| - 1) * 3
  {
    seq((|vs| - 1) * 3, j requires 0 <= j < (|vs| - 1) * 3 => FanSlot(vs, facing, j))
  }

  /** The source's fan loop: the apex is the first vertex, and for every
      even `a` the pair (a, a + 1) is written in the order `facing` selects. */
  method BuildFan(vs: seq<int>, facing: bool) returns (tris: seq<int>)
    requires |vs| >= 2
    ensures tris == Fan(vs, facing)
  {
    var n := |vs|;
    var buf := new int[(n - 1) * 3](_ => 0);
    var a := 0;
    while a < n - 1
      invariant 0 <= a <= n && a % 2 == 0
      invariant forall j :: 0 <= j < buf.Length ==> buf[j] == (if j / 3 < a then FanSlot(vs, facing, j) else 0)
    {
      buf[a * 3 + 0] := vs[0];
      buf[a * 3 + 1] := if facing then vs[a] else vs[a + 1];
      buf[a * 3 + 2] := if facing then vs[a + 1] else vs[a];
      a := a + 2;
    }
    tris := buf[..];
  }

  /** Triangle `a` of a fan buffer. */
  function TriangleAt(tris: seq<int>, a: int): seq<int>
    requires 0 <= a && a * 3 + 3 <= |tris|
  {
    tris[a * 3 .. a * 3 + 3]
  }

  /** Every even triangle slot holds the apex and the pair starting there,
      wound as `facing` selects; every odd slot is the degenerate (0, 0, 0). */
  lemma FanTriangles(vs: seq<int>, facing: bool, a: int)
    requires |vs| >= 2 && 0 <= a < |vs| - 1
    ensures a % 2 == 0 && facing ==> TriangleAt(Fan(vs, facing), a) == [vs[0], vs[a], vs[a + 1]]
    ensures a % 2 == 0 && !facing ==> TriangleAt(Fan(vs, facing), a) == [vs[0], vs[a + 1], vs[a]]
    ensures a % 2 != 0 ==> TriangleAt(Fan(vs, facing), a) == [0, 0, 0]
  {
    var f := Fan(vs, facing);
    assert (a * 3) / 3 == a && (a * 3 + 1) / 3 == a && (a * 3 + 2) / 3 == a;
    assert (a * 3) % 3 == 0 && (a * 3 + 1) % 3 == 1 && (a * 3 + 2) % 3 == 2;
    assert TriangleAt(f, a) == [f[a * 3], f[a * 3 + 1], f[a * 3 + 2]];
  }

  /** The cap for one side and the cap for the other are mirror images: the
      same triangles with their last two corners swapped. */
  lemma FanWindingsOpposite(vs: seq<int>, a: int)
    requires |vs| >= 2 && 0 <= a < |vs| - 1
    ensures var t, u := TriangleAt(Fan(vs, true), a), TriangleAt(Fan(vs, false), a);
      u == [t[0], t[2], t[1]]
  {
    FanTriangles(vs, true, a);
    FanTriangles(vs, false, a);
  }

  /** Every index of the fan is one of the listed vertices or the 0 of an
      unwritten slot. */
  lemma FanDrawsFromList(vs: seq<int>, facing: bool)
    requires |vs| >= 2
    ensures forall j :: 0 <= j < |Fan(vs, facing)| ==> Fan(vs, facing)[j] in vs || Fan(vs, facing)[j] == 0
  {
  }

  /** A fan over the local indices 0 .. n - 1 only addresses the cap's own n vertices. */
  lemma LocalFanInRange(n: int, facing: bool)
    requires n >= 2
    ensures ValidTriangles(Fan(Range(0, n), facing), n)
  {
    var f := Fan(Range(0, n), facing);
    assert |f| == (n - 1) * 3;
    assert forall j :: 0 <= j < |f| ==> 0 <= f[j] < n;
  }

  /** The legacy fan over original indices and the new fan over local indices
      describe the same triangles: every written slot of the legacy fan holds
      the original index that the local fan's slot stands for. */
  lemma LegacyFanIsLocalFanThroughEdges(edges: seq<int>, facing: bool, j: int)
    requires |edges| >= 2 && 0 <= j < (|edges| - 1) * 3 && (j / 3) % 2 == 0
    ensures 0 <= Fan(Range(0, |edges|), facing)[j] < |edges|
    ensures Fan(edges, facing)[j] == edges[Fan(Range(0, |edges|), facing)[j]]
  {
  }

  // ---------------------------------------------------------------------
  // Legacy cap: one more submesh on the existing mesh
  // ---------------------------------------------------------------------

  /** Append the fan over the boundary list as a new submesh. A missing mesh
      or a list of fewer than two indices leaves everything as it was. */
  function AppendCap(mesh: Option<Mesh>, edges: seq<int>, facing: bool): (r: Option<Mesh>)
    ensures mesh.None? ==> r.None?
    ensures mesh.Some? && |edges| < 2 ==> r == mesh
    ensures mesh.Some? && |edges| >= 2 ==>
      && r.Some?
      && r.value == mesh.value.(submeshes := r.value.submeshes)
      && |r.value.submeshes| == |mesh.value.submeshes| + 1
      && r.value.submeshes[..|mesh.value.submeshes|] == mesh.value.submeshes
      && r.value.submeshes[|mesh.value.submeshes|] == Fan(edges, facing)
  {
    if mesh.None? then None
    else if |edges| < 2 then mesh
    else Some(mesh.value.(submeshes := mesh.value.submeshes + [Fan(edges, facing)]))
  }

  /** Appending a cap leaves every existing submesh as it was. */
  lemma AppendCapKeepsSubmesh(m: Mesh, edges: seq<int>, facing: bool, s: int)
    requires 0 <= s < |m.submeshes|
    ensures s < |AppendCap(Some(m), edges, facing).value.submeshes|
    ensures AppendCap(Some(m), edges, facing).value.submeshes[s] == m.submeshes[s]
  {
    var r := AppendCap(Some(m), edges, facing).value;
    if |edges| >= 2 {
      assert r.submeshes[..|m.submeshes|][s] == m.submeshes[s];
    }
  }

  /** Appending a cap over valid boundary indices keeps the mesh well formed:
      even the unwritten zero slots address an existing vertex. */
  lemma AppendCapKeepsWellFormed(m: Mesh, boneCount: int, edges: seq<int>, facing: bool)
    requires WellFormed(m, boneCount)
    requires forall j :: 0 <= j < |edges| ==> 0 <= edges[j] < |m.vertices|
    ensures WellFormed(AppendCap(Some(m), edges, facing).value, boneCount)
  {
    if |edges| >= 2 {
      var r := AppendCap(Some(m), edges, facing).value;
      var f := Fan(edges, facing);
      FanDrawsFromList(edges, facing);
      assert r.submeshes[|m.submeshes|] == f;
      assert ValidTriangles(f, |m.vertices|) by {
        assert |f| % 3 == 0;
        forall j | 0 <= j < |f| ensures 0 <= f[j] < |m.vertices| {
          assert f[j] in edges || f[j] == 0;
          assert 0 <= edges[0] < |m.vertices|;
        }
      }
    }
  }

  // ---------------------------------------------------------------------
  // New cap: a separate mesh with its own vertex buffer
  // ---------------------------------------------------------------------

  /** The index-and-attribute part of a cap mesh: copied vertices, copied
      bone weights and the fan over local indices. UVs and normals are
      floating-point geometry and are not modelled. */
  datatype CapData = CapData(vertices: seq<Vec3>, boneWeights: seq<BoneWeight>, triangles: seq<int>)

  /** Boundary indices that address vertices (and weight records) of `parent`. */
  predicate EdgesAddress(parent: Mesh, edges: seq<int>) {
    forall j :: 0 <= j < |edges| ==> 0 <= edges[j] < |parent.vertices| && edges[j] < |parent.boneWeights|
  }

  /** Build the cap mesh: nothing for fewer than two boundary indices;
      otherwise one vertex and one weight record per boundary index, in
      boundary order, and a fan whose triangles address only those vertices. */
  function CapMesh(parent: Mesh, edges: seq<int>, facing: bool): (r: Option<CapData>)
    requires EdgesAddress(parent, edges)
    ensures r.None? <==> |edges| < 2
    ensures r.Some? ==>
      && |r.value.vertices| == |edges| && |r.value.boneWeights| == |edges|
      && (forall i :: 0 <= i < |edges| ==> r.value.vertices[i] == parent.vertices[edges[i]])
      && (forall i :: 0 <= i < |edges| ==> r.value.boneWeights[i] == parent.boneWeights[edges[i]])
      && ValidTriangles(r.value.triangles, |edges|)
      && |r.value.triangles| == (|edges| - 1) * 3
  {
    if |edges| < 2 then None
    else
      var n := |edges|;
      LocalFanInRange(n, facing);
      Some(CapData(
        seq(n, i requires 0 <= i < n => parent.vertices[edges[i]]),
        seq(n, i requires 0 <= i < n => parent.boneWeights[edges[i]]),
        Fan(Range(0, n), facing)))
  }

  /** The two caps of one cut share vertices and weights and differ only in
      winding, triangle by triangle. */
  lemma CapsAreMirrorImages(parent: Mesh, edges: seq<int>, a: int)
    requires EdgesAddress(parent, edges) && |edges| >= 2 && 0 <= a < |edges| - 1
    ensures var front, back := CapMesh(parent, edges, true).value, CapMesh(parent, edges, false).value;
      && front.vertices == back.vertices
      && front.boneWeights == back.boneWeights
      && var t, u := TriangleAt(front.triangles, a), TriangleAt(back.triangles, a);
         u == [t[0], t[2], t[1]]
  {
    FanWindingsOpposite(Range(0, |edges|), a);
  }

  /** The three vertices sampled to orient the cap's UV projection: the
      first, the one a third of the way and the one two thirds of the way
      along the cap's vertex list, all inside it. */
  function OrientationSamples(n: int): (r: (int, int, int))
    requires n >= 1
    ensures 0 <= r.0 <= r.1 <= r.2 < n
  {
    (0, n / 3, n * 2 / 3)
  }
}
