/** The character as the engines see it, and the part of a cut they share:
    clone the skeleton under a new root object, bucket the mesh with a
    classification, and write the buckets back to the two meshes. Unity
    objects become integer ids; the ids a cut creates are handed in as
    `firstId`: the new root object gets `firstId`, the cloned bones
    `firstId + 1` onwards in pre-order, and cap objects the ids after them. */
module Scene {
  import opened Base
  import opened MeshData
  import opened Skeleton
  import opened Cut
  import opened Cap
  import opened Ownership
  import opened Classify
  import HierarchyAsset

  type HumanBone = HierarchyAsset.HumanBone

  /** The animator lookup for a human bone: no humanoid rig (or no animator
      at all), or the bone's transform, which is null when the rig lacks it. */
  datatype Resolution = NotHumanoid | Resolved(bone: Option<Node>)

  /** The out-parameter of a slice: the new root object and the clone of the
      cut bone; both null unless a cut completes. */
  datatype Info = Info(root: Option<int>, targetBone: Option<int>)

  const NoInfo := Info(None, None)

  /** A detached piece: its root object, the skeleton cloned under it, its
      renderer's bones array, mesh and materials. */
  datatype Fragment = Fragment(root: int, skeleton: Node, bones: seq<Option<int>>, mesh: Mesh, materials: seq<Material>)

  /** A cap object: its id, the object it hangs under, its renderer's bones
      and its mesh (null when the boundary was too short). */
  datatype CapObject = CapObject(id: int, parent: int, bones: seq<Option<int>>, mesh: Option<CapData>)

  /** The character: its renderer object, the "Root" transform tree, the
      renderer's bones, mesh and materials, the bones already cut, the
      fragments and caps made so far and the cap-ownership table. */
  datatype Character = Character(
    renderer: int,
    root: Node,
    bones: seq<int>,
    mesh: Mesh,
    materials: seq<Material>,
    hasSplit: set<int>,
    fragments: seq<Fragment>,
    caps: seq<CapObject>,
    owners: map<Key, int>)

  /** The mesh invariants every engine relies on. */
  predicate Ready(c: Character) {
    WellFormed(c.mesh, |c.bones|)
  }

  /** How a slice request ended: a completed cut, nothing done, or an
      exception (out-of-range mask read, or a repeated key in the ownership
      table). */
  datatype Status = Sliced | Skipped | Faulted

  datatype Outcome = Outcome(character: Character, info: Info, status: Status)

  /** Nothing happened. */
  function Unchanged(c: Character): Outcome {
    Outcome(c, NoInfo, Skipped)
  }

  /** The renderer's own bones array seen as a bones array of possibly-null slots. */
  function AllPresent(bones: seq<int>): (r: seq<Option<int>>)
    ensures |r| == |bones| && forall i :: 0 <= i < |bones| ==> r[i] == Some(bones[i])
  {
    seq(|bones|, i requires 0 <= i < |bones| => Some(bones[i]))
  }

  /** An entry of the sliceable list of the threshold engines: a human bone
      and its own weight threshold. */
  datatype BoneInfo = BoneInfo(humanBone: HumanBone, threshold: real)

  /** The position of the first entry for `humanBone`, or -1. */
  function ContainsBone(sliceable: seq<BoneInfo>, humanBone: HumanBone): (index: int)
    ensures -1 <= index < |sliceable|
    ensures index == -1 <==> forall i :: 0 <= i < |sliceable| ==> sliceable[i].humanBone != humanBone
    ensures index != -1 ==>
      && sliceable[index].humanBone == humanBone
      && forall i :: 0 <= i < index ==> sliceable[i].humanBone != humanBone
  {
    if |sliceable| == 0 then -1
    else if sliceable[0].humanBone == humanBone then 0
    else
      var k := ContainsBone(sliceable[1..], humanBone);
      if k == -1 then -1 else k + 1
  }

  /** The bone-weight classification of the character's vertices for a cut
      at `bone`: a vertex is inner when the weights it gives to `bone` and
      its descendants add up to more than `threshold`. */
  function ThresholdClassification(c: Character, bone: Node, threshold: real): (inner: seq<bool>)
    requires Ready(c)
    ensures |inner| == |c.mesh.vertices|
    ensures forall v :: 0 <= v < |inner| ==>
      (inner[v] <==> MaskedWeight(c.mesh.boneWeights[v].Influences(), BoneMask(c.bones, bone)) > threshold)
  {
    ThresholdInner(c.mesh.boneWeights, BoneMask(c.bones, bone), threshold)
  }

  /** The bitmask classification of the character's vertices: a vertex is
      inner when its mask in the chosen channel shares a bit with `bitMask`.
      Defined only when the channel covers every vertex. */
  function MaskClassification(c: Character, bitMask: bv32, uvChannel: int): (inner: seq<bool>)
    requires |MaskChannel(c.mesh, uvChannel)| >= |c.mesh.vertices|
    ensures |inner| == |c.mesh.vertices|
    ensures forall v :: 0 <= v < |inner| ==> (inner[v] <==> MaskChannel(c.mesh, uvChannel)[v] & bitMask != 0)
  {
    ClassifyByMask(MaskChannel(c.mesh, uvChannel), |c.mesh.vertices|, bitMask).value
  }

  /** The material array of both renderers after a capped cut: the old one with the
      slice-fill material appended. */
  function GrowMaterials(materials: seq<Material>, fill: Material): (r: seq<Material>)
    ensures |r| == |materials| + 1
    ensures r[..|materials|] == materials && r[|materials|] == fill
  {
    materials + [fill]
  }

  /** The shared part of a cut: the character's mesh with the outer buckets,
      the fragment's copy with the inner buckets, the boundary list, and the
      skeleton clone. */
  datatype Pieces = Pieces(kept: Mesh, detached: Mesh, edges: seq<int>, clone: CloneResult)

  /** The clone a cut at `bone` reports as its target: the clone of the last
      occurrence of the bone in the Root tree, or null when it is not there. */
  function TargetClone(c: Character, bone: Node, firstId: int): Option<int> {
    var order := Flatten(c.root);
    if bone.id in order then Some(firstId + 1 + LastIndexOf(order, bone.id)) else None
  }

  function Carve(c: Character, inner: seq<bool>, bone: Node, firstId: int): (p: Pieces)
    requires Ready(c) && |inner| == |c.mesh.vertices|
    ensures p.kept == c.mesh.(submeshes := p.kept.submeshes)
    ensures p.detached == c.mesh.(submeshes := p.detached.submeshes)
    ensures |p.kept.submeshes| == |c.mesh.submeshes| && |p.detached.submeshes| == |c.mesh.submeshes|
    ensures WellFormed(p.kept, |c.bones|) && WellFormed(p.detached, |c.bones|)
    ensures |p.edges| % 2 == 0
    ensures forall j :: 0 <= j < |p.edges| ==> 0 <= p.edges[j] < |c.mesh.vertices| && !inner[p.edges[j]]
    ensures |p.clone.newBones| == |c.bones|
    ensures Flatten(p.clone.skeleton) == Range(firstId + 1, |Flatten(c.root)|)
    ensures p.clone.targetBone == TargetClone(c, bone, firstId)
  {
    var subs := c.mesh.submeshes;
    assert Whole(subs);
    var h := WriteBack(inner, subs);
    WriteBackInRange(inner, subs, |c.mesh.vertices|);
    CutEdgesShape(inner, subs, |c.mesh.vertices|);
    Pieces(
      c.mesh.(submeshes := h.kept),
      c.mesh.(submeshes := h.detached),
      CutEdges(inner, subs),
      CreateBones(c.root, c.bones, bone.id, firstId + 1))
  }

  /** Carving partitions every original submesh between the two meshes, and
      sends a triangle to the fragment exactly when one of its corners is inner. */
  lemma CarvePartitions(c: Character, inner: seq<bool>, bone: Node, firstId: int, s: int)
    requires Ready(c) && |inner| == |c.mesh.vertices| && 0 <= s < |c.mesh.submeshes|
    ensures var p := Carve(c, inner, bone, firstId);
      && multiset(Bucket.Triangles(p.kept.submeshes[s])) + multiset(Bucket.Triangles(p.detached.submeshes[s]))
         == multiset(Bucket.Triangles(c.mesh.submeshes[s]))
      && (forall t :: t in Bucket.Triangles(p.detached.submeshes[s]) <==>
            t in Bucket.Triangles(c.mesh.submeshes[s]) && Bucket.HasInner(inner, t))
  {
    assert Whole(c.mesh.submeshes);
    WriteBackPartitions(inner, c.mesh.submeshes, s);
  }

  /** Carving as the combined engine's code does it: a submesh that received
      an inner triangle is split as `Carve` splits it, and one that received
      none is left whole in both meshes. */
  function CarveAsWritten(c: Character, inner: seq<bool>, bone: Node, firstId: int): (p: Pieces)
    requires Ready(c) && |inner| == |c.mesh.vertices|
    ensures p.edges == Carve(c, inner, bone, firstId).edges && p.clone == Carve(c, inner, bone, firstId).clone
    ensures p.kept == Carve(c, inner, bone, firstId).kept
    ensures p.detached == c.mesh.(submeshes := p.detached.submeshes)
    ensures |p.detached.submeshes| == |c.mesh.submeshes|
    ensures forall s :: 0 <= s < |c.mesh.submeshes| ==>
      var q := Carve(c, inner, bone, firstId).detached.submeshes[s];
      && (|q| > 0 ==> p.detached.submeshes[s] == q)
      && (|q| == 0 ==> p.detached.submeshes[s] == c.mesh.submeshes[s] && p.kept.submeshes[s] == c.mesh.submeshes[s])
    ensures WellFormed(p.detached, |c.bones|)
  {
    var subs := c.mesh.submeshes;
    assert Whole(subs);
    var q := Carve(c, inner, bone, firstId);
    var a := WriteBackAsWritten(inner, subs);
    forall s | 0 <= s < |subs|
      ensures a.kept[s] == q.kept.submeshes[s]
      ensures |q.detached.submeshes[s]| > 0 ==> a.detached[s] == q.detached.submeshes[s]
      ensures |q.detached.submeshes[s]| == 0 ==> a.detached[s] == subs[s] && a.kept[s] == subs[s]
    {
      AsWrittenDuplicatesUncutSubmeshes(inner, subs, s);
    }
    assert a.kept == q.kept.submeshes;
    q.(kept := c.mesh.(submeshes := a.kept), detached := c.mesh.(submeshes := a.detached))
  }

  /** As written, carving leaves a submesh none of whose triangles has an
      inner corner whole in both meshes; any other submesh is partitioned,
      with the fragment getting exactly the triangles with an inner corner. */
  lemma CarveAsWrittenSplits(c: Character, inner: seq<bool>, bone: Node, firstId: int, s: int)
    requires Ready(c) && |inner| == |c.mesh.vertices| && 0 <= s < |c.mesh.submeshes|
    ensures var p, ts := CarveAsWritten(c, inner, bone, firstId), Bucket.Triangles(c.mesh.submeshes[s]);
      && ((forall t :: t in ts ==> !Bucket.HasInner(inner, t)) ==>
            p.kept.submeshes[s] == c.mesh.submeshes[s] && p.detached.submeshes[s] == c.mesh.submeshes[s])
      && ((exists t :: t in ts && Bucket.HasInner(inner, t)) ==>
            && multiset(Bucket.Triangles(p.kept.submeshes[s])) + multiset(Bucket.Triangles(p.detached.submeshes[s]))
               == multiset(ts)
            && (forall t :: t in Bucket.Triangles(p.detached.submeshes[s]) <==> t in ts && Bucket.HasInner(inner, t)))
  {
    var q := Carve(c, inner, bone, firstId);
    var d := q.detached.submeshes[s];
    CarvePartitions(c, inner, bone, firstId, s);
    assert |d| % 3 == 0;
    if |d| > 0 {
      var dt := Bucket.Triangles(d);
      assert dt[0] in dt;
    } else {
      assert Bucket.Triangles(d) == [];
    }
  }
}
