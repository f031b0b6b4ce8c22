/** The bitmask engine: every vertex carries a 32-bit mask in a UV channel,
    and a cut at a human bone selects the vertices whose mask shares a bit
    with the bone's mask from the hierarchy asset. Every submesh is written
    back; caps and the slice-fill material are added only when the cut left
    a boundary; the bone is recorded as split in any case. */
module MaskEngine {
  import opened Base
  import opened MeshData
  import opened Skeleton
  import opened Classify
  import opened Bucket
  import opened Cut
  import opened Cap
  import opened Scene

  /** The engine's configuration: the slice-fill material, the sliceable
      list and the hierarchy asset's mask dictionary (None when no asset is
      assigned). */
  datatype Settings = Settings(
    sliceFill: Material,
    useSliceable: bool,
    sliceable: seq<HumanBone>,
    asset: Option<map<HumanBone, bv32>>)

  /** Cut at `bone` with `bitMask`, reading the masks from `uvChannel`. A
      channel shorter than the vertex list faults on the first missing read,
      before anything has changed. */
  function SliceInternal(s: Settings, c: Character, bone: Option<Node>, bitMask: bv32, uvChannel: int, firstId: int): (r: Outcome)
    requires Ready(c)
    ensures bone.None? ==> r == Unchanged(c)
    ensures bone.Some? && |MaskChannel(c.mesh, uvChannel)| < |c.mesh.vertices| ==> r == Outcome(c, NoInfo, Faulted)
    ensures bone.Some? && |MaskChannel(c.mesh, uvChannel)| >= |c.mesh.vertices| ==>
      && r.status == Sliced
      && Ready(r.character)
      && r.character.hasSplit == c.hasSplit + {bone.value.id}
      && r.info.root == Some(firstId)
      && r.info.targetBone == TargetClone(c, bone.value, firstId)
      && |r.character.fragments| == |c.fragments| + 1
      && r.character.fragments[..|c.fragments|] == c.fragments
      && r.character.fragments[|c.fragments|].root == firstId
      && r.character.fragments[|c.fragments|].materials == r.character.materials
      && r.character.(mesh := c.mesh, materials := c.materials, hasSplit := c.hasSplit, fragments := c.fragments) == c
  {
    if bone.None? then Unchanged(c)
    else
      var b := bone.value;
      match ClassifyByMask(MaskChannel(c.mesh, uvChannel), |c.mesh.vertices|, bitMask)
      case None => Outcome(c, NoInfo, Faulted)
      case Some(inner) =>
        var p := Carve(c, inner, b, firstId);
        var split := c.hasSplit + {b.id};
        var info := Info(Some(firstId), p.clone.targetBone);
        if |p.edges| != 0 then
          AppendCapKeepsWellFormed(p.kept, |c.bones|, p.edges, true);
          AppendCapKeepsWellFormed(p.detached, |c.bones|, p.edges, false);
          var outer := AppendCap(Some(p.kept), p.edges, true).value;
          var cut := AppendCap(Some(p.detached), p.edges, false).value;
          var materials := GrowMaterials(c.materials, s.sliceFill);
          var fragment := Fragment(firstId, p.clone.skeleton, p.clone.newBones, cut, materials);
          Outcome(c.(mesh := outer, materials := materials, hasSplit := split, fragments := c.fragments + [fragment]), info, Sliced)
        else
          var fragment := Fragment(firstId, p.clone.skeleton, p.clone.newBones, p.detached, c.materials);
          Outcome(c.(mesh := p.kept, hasSplit := split, fragments := c.fragments + [fragment]), info, Sliced)
  }

  /** The request guards: an asset, a humanoid rig resolving the bone, the
      bone in the sliceable list when that list is in use, the bone not cut
      before, and a mask for it in the asset. */
  predicate Admitted(s: Settings, c: Character, resolution: Resolution, humanBone: HumanBone) {
    && s.asset.Some?
    && resolution.Resolved? && resolution.bone.Some?
    && (!s.useSliceable || humanBone in s.sliceable)
    && resolution.bone.value.id !in c.hasSplit
    && humanBone in s.asset.value
  }

  /** Slice by human bone. */
  function Slice(s: Settings, c: Character, resolution: Resolution, humanBone: HumanBone, uvChannel: int, firstId: int): (r: Outcome)
    requires Ready(c)
    ensures !Admitted(s, c, resolution, humanBone) ==> r == Unchanged(c)
    ensures Admitted(s, c, resolution, humanBone) ==>
      (r.status == Faulted <==> |MaskChannel(c.mesh, uvChannel)| < |c.mesh.vertices|)
      && (r.status == Faulted ==> r.character == c)
      && r.status != Skipped
  {
    if s.asset.None? then Unchanged(c)
    else if resolution.NotHumanoid? then Unchanged(c)
    else if s.useSliceable && humanBone !in s.sliceable then Unchanged(c)
    else if resolution.bone.Some? && resolution.bone.value.id in c.hasSplit then Unchanged(c)
    else if humanBone !in s.asset.value then Unchanged(c)
    else SliceInternal(s, c, resolution.bone, s.asset.value[humanBone], uvChannel, firstId)
  }

  /** A cut partitions every original submesh: the fragment gets exactly the
      triangles with a corner whose mask shares a bit with the cut's mask. */
  lemma SlicePartitions(s: Settings, c: Character, b: Node, bitMask: bv32, uvChannel: int, firstId: int, sub: int)
    requires Ready(c) && |MaskChannel(c.mesh, uvChannel)| >= |c.mesh.vertices|
    requires 0 <= sub < |c.mesh.submeshes|
    ensures var r := SliceInternal(s, c, Some(b), bitMask, uvChannel, firstId).character;
      var f := r.fragments[|c.fragments|];
      && sub < |r.mesh.submeshes| && sub < |f.mesh.submeshes|
      && multiset(Triangles(r.mesh.submeshes[sub])) + multiset(Triangles(f.mesh.submeshes[sub]))
         == multiset(Triangles(c.mesh.submeshes[sub]))
      && (forall t :: t in Triangles(f.mesh.submeshes[sub]) <==>
            t in Triangles(c.mesh.submeshes[sub]) && HasInner(MaskClassification(c, bitMask, uvChannel), t))
  {
    var inner := MaskClassification(c, bitMask, uvChannel);
    var p := Carve(c, inner, b, firstId);
    CarvePartitions(c, inner, b, firstId, sub);
    var r := SliceInternal(s, c, Some(b), bitMask, uvChannel, firstId).character;
    var f := r.fragments[|c.fragments|];
    if |p.edges| != 0 {
      assert r.mesh == AppendCap(Some(p.kept), p.edges, true).value;
      assert f.mesh == AppendCap(Some(p.detached), p.edges, false).value;
      AppendCapKeepsSubmesh(p.kept, p.edges, true, sub);
      AppendCapKeepsSubmesh(p.detached, p.edges, false, sub);
    } else {
      assert r.mesh == p.kept && f.mesh == p.detached;
    }
  }

  /** Caps and materials follow the boundary: with one, both meshes gain the
      fan over it as one more submesh and the material array grows by the
      slice-fill material; without one, neither mesh gains a submesh and the
      fragment shares the character's unchanged materials. */
  lemma SliceCapsFollowBoundary(s: Settings, c: Character, b: Node, bitMask: bv32, uvChannel: int, firstId: int)
    requires Ready(c) && |MaskChannel(c.mesh, uvChannel)| >= |c.mesh.vertices|
    ensures var r := SliceInternal(s, c, Some(b), bitMask, uvChannel, firstId).character;
      var f := r.fragments[|c.fragments|];
      var e := CutEdges(MaskClassification(c, bitMask, uvChannel), c.mesh.submeshes);
      var n := |c.mesh.submeshes|;
      && (|e| == 0 ==>
            && |r.mesh.submeshes| == n && |f.mesh.submeshes| == n
            && r.materials == c.materials && f.materials == c.materials)
      && (|e| != 0 ==>
            && |e| >= 2
            && |r.mesh.submeshes| == n + 1 && r.mesh.submeshes[n] == Fan(e, true)
            && |f.mesh.submeshes| == n + 1 && f.mesh.submeshes[n] == Fan(e, false)
            && r.materials == GrowMaterials(c.materials, s.sliceFill))
  {
    var inner := MaskClassification(c, bitMask, uvChannel);
    var p := Carve(c, inner, b, firstId);
    var e := CutEdges(inner, c.mesh.submeshes);
    assert p.edges == e && |e| % 2 == 0;
    EvenLength(|e|);
    var r := SliceInternal(s, c, Some(b), bitMask, uvChannel, firstId).character;
    if |e| != 0 {
      assert r.mesh == AppendCap(Some(p.kept), e, true).value;
      assert r.fragments[|c.fragments|].mesh == AppendCap(Some(p.detached), e, false).value;
    } else {
      assert r.mesh == p.kept && r.fragments[|c.fragments|].mesh == p.detached;
    }
  }

  /** A bone whose mask is empty selects nothing: the cut completes, marks
      the bone as split and adds an empty fragment, and the character's mesh
      and materials stay as they were. */
  lemma EmptyMaskStillMarksSplit(s: Settings, c: Character, b: Node, uvChannel: int, firstId: int)
    requires Ready(c) && |MaskChannel(c.mesh, uvChannel)| >= |c.mesh.vertices|
    ensures var r := SliceInternal(s, c, Some(b), 0, uvChannel, firstId);
      && r.status == Sliced
      && b.id in r.character.hasSplit
      && r.character.mesh == c.mesh
      && r.character.materials == c.materials
      && (forall sub :: 0 <= sub < |c.mesh.submeshes| ==>
            r.character.fragments[|c.fragments|].mesh.submeshes[sub] == [])
  {
    var inner := MaskClassification(c, 0, uvChannel);
    assert Whole(c.mesh.submeshes);
    NoInnerVertexCutsNothing(inner, c.mesh.submeshes);
    NothingCutKeepsMesh(inner, c.mesh.submeshes);
    var p := Carve(c, inner, b, firstId);
    assert p.edges == [];
    assert p.kept == c.mesh;
  }

  /** Asking again for a bone that was just cut does nothing. */
  lemma RepeatedSliceIsNoOp(s: Settings, c: Character, resolution: Resolution, humanBone: HumanBone,
                            uvChannel: int, firstId: int, nextId: int)
    requires Ready(c)
    requires Slice(s, c, resolution, humanBone, uvChannel, firstId).status == Sliced
    ensures var c' := Slice(s, c, resolution, humanBone, uvChannel, firstId).character;
      && Ready(c')
      && Slice(s, c', resolution, humanBone, uvChannel, nextId) == Unchanged(c')
  {
  }
}
