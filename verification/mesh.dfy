/** The skinned mesh the engines cut: vertices, one bone-weight record per
    vertex, four per-vertex mask channels and a list of submeshes, each a
    flat list of triangle indices (three per triangle). */
module MeshData {
  import opened Base

  /** One skinning influence: an index into the renderer's bones array and
      its blend weight. */
  datatype Influence = Influence(boneIndex: int, weight: real)

  /** A vertex's bone-weight record: exactly four influences. */
  datatype BoneWeight = BoneWeight(i0: Influence, i1: Influence, i2: Influence, i3: Influence)
  {
    function Influences(): seq<Influence> {
      [i0, i1, i2, i3]
    }

    /** Every influence names a slot of a bones array of length `boneCount`. */
    predicate IndexesBones(boneCount: int) {
      && 0 <= i0.boneIndex < boneCount && 0 <= i1.boneIndex < boneCount
      && 0 <= i2.boneIndex < boneCount && 0 <= i3.boneIndex < boneCount
    }
  }

  /** A material handle; only identity matters here. */
  type Material = int

  /** The X component of each UV channel, read as a packed 32-bit mask per
      vertex. A channel the mesh does not have is an empty sequence. */
  datatype Mesh = Mesh(
    vertices: seq<Vec3>,
    boneWeights: seq<BoneWeight>,
    uv1: seq<bv32>, uv2: seq<bv32>, uv3: seq<bv32>, uv4: seq<bv32>,
    submeshes: seq<seq<int>>)

  /** A triangle list: whole triangles whose indices address `vertexCount` vertices. */
  predicate ValidTriangles(tris: seq<int>, vertexCount: int) {
    && |tris| % 3 == 0
    && forall j :: 0 <= j < |tris| ==> 0 <= tris[j] < vertexCount
  }

  /** The mesh invariants the engines rely on: one weight record per vertex,
      every triangle index addresses a vertex, every influence a bone slot. */
  predicate WellFormed(m: Mesh, boneCount: int) {
    && |m.boneWeights| == |m.vertices|
    && (forall s :: 0 <= s < |m.submeshes| ==> ValidTriangles(m.submeshes[s], |m.vertices|))
    && (forall v :: 0 <= v < |m.boneWeights| ==> m.boneWeights[v].IndexesBones(boneCount))
  }

  /** The mask channel selected by `uvChannel` (1 to 4); any other value
      selects the second channel, as the original switch's default does. */
  function MaskChannel(m: Mesh, uvChannel: int): (masks: seq<bv32>)
    ensures uvChannel == 1 ==> masks == m.uv1
    ensures uvChannel == 3 ==> masks == m.uv3
    ensures uvChannel == 4 ==> masks == m.uv4
    ensures uvChannel !in {1, 3, 4} ==> masks == m.uv2
  {
    if uvChannel == 1 then m.uv1
    else if uvChannel == 3 then m.uv3
    else if uvChannel == 4 then m.uv4
    else m.uv2
  }
}
