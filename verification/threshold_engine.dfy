/** The threshold engine: a vertex belongs to the cut when the weights it
    gives to the cut bone's subtree exceed a threshold. Every submesh is
    written back, both meshes get a cap submesh over the boundary, both
    renderers get the material array grown by the slice-fill material, and
    the request never aborts once the bone is known. */
module ThresholdEngine {
  import opened Base
  import opened MeshData
  import opened Skeleton
  import opened Bucket
  import opened Cut
  import opened Cap
  import opened Scene

  /** The engine's configuration. */
  datatype Settings = Settings(
    sliceFill: Material,
    globalThreshold: real,
    useSliceable: bool,
    sliceable: seq<BoneInfo>)

  /** Cut at `bone` with the given threshold; a null bone is logged and
      ignored. */
  function SliceInternal(s: Settings, c: Character, bone: Option<Node>, threshold: real, firstId: int): (r: Outcome)
    requires Ready(c)
    ensures bone.None? ==> r == Unchanged(c)
    ensures bone.Some? ==>
      && r.status == Sliced
      && Ready(r.character)
      && r.character.hasSplit == c.hasSplit + {bone.value.id}
      && r.info.root == Some(firstId)
      && r.info.targetBone == TargetClone(c, bone.value, firstId)
      && r.character.materials == GrowMaterials(c.materials, s.sliceFill)
      && |r.character.fragments| == |c.fragments| + 1
      && r.character.fragments[..|c.fragments|] == c.fragments
      && r.character.fragments[|c.fragments|].root == firstId
      && r.character.fragments[|c.fragments|].materials == r.character.materials
      && r.character.(mesh := c.mesh, materials := c.materials, hasSplit := c.hasSplit, fragments := c.fragments) == c
  {
    if bone.None? then Unchanged(c)
    else
      var b := bone.value;
      var inner := ThresholdClassification(c, b, threshold);
      var p := Carve(c, inner, b, firstId);
      AppendCapKeepsWellFormed(p.kept, |c.bones|, p.edges, true);
      AppendCapKeepsWellFormed(p.detached, |c.bones|, p.edges, false);
      var outer := AppendCap(Some(p.kept), p.edges, true).value;
      var cut := AppendCap(Some(p.detached), p.edges, false).value;
      var materials := GrowMaterials(c.materials, s.sliceFill);
      var fragment := Fragment(firstId, p.clone.skeleton, p.clone.newBones, cut, materials);
      Outcome(
        c.(mesh := outer, materials := materials, hasSplit := c.hasSplit + {b.id}, fragments := c.fragments + [fragment]),
        Info(Some(firstId), p.clone.targetBone),
        Sliced)
  }

  /** The threshold a human-bone request uses. */
  function ChosenThreshold(s: Settings, humanBone: HumanBone, useGlobal: bool): real {
    var index := ContainsBone(s.sliceable, humanBone);
    if !s.useSliceable || useGlobal || index == -1 then s.globalThreshold
    else s.sliceable[index].threshold
  }

  /** The request guards of the human-bone overloads: a humanoid rig
      resolving the bone, the bone in the sliceable list when that list is in
      use, and, when `hasNotSplit` is set, the bone not cut before. */
  predicate Admitted(s: Settings, c: Character, resolution: Resolution, humanBone: HumanBone, hasNotSplit: bool) {
    && resolution.Resolved? && resolution.bone.Some?
    && (!s.useSliceable || exists i :: 0 <= i < |s.sliceable| && s.sliceable[i].humanBone == humanBone)
    && (!hasNotSplit || resolution.bone.value.id !in c.hasSplit)
  }

  /** Slice by human bone, the overload with the `hasNotSplit` switch: the
      already-split guard applies only when it is set. */
  function SliceHuman(s: Settings, c: Character, resolution: Resolution, humanBone: HumanBone,
                      hasNotSplit: bool, useGlobal: bool, firstId: int): (r: Outcome)
    requires Ready(c)
    ensures r.status == Sliced <==> Admitted(s, c, resolution, humanBone, hasNotSplit)
    ensures r.status != Sliced ==> r == Unchanged(c)
  {
    if resolution.NotHumanoid? then Unchanged(c)
    else if s.useSliceable && ContainsBone(s.sliceable, humanBone) == -1 then Unchanged(c)
    else if hasNotSplit && resolution.bone.Some? && resolution.bone.value.id in c.hasSplit then Unchanged(c)
    else SliceInternal(s, c, resolution.bone, ChosenThreshold(s, humanBone, useGlobal), firstId)
  }

  /** Slice by human bone, the overload without the switch: the already-split
      guard always applies. */
  function SliceHumanChecked(s: Settings, c: Character, resolution: Resolution, humanBone: HumanBone,
                             useGlobal: bool, firstId: int): (r: Outcome)
    requires Ready(c)
    ensures r.status == Sliced ==>
      resolution.Resolved? && resolution.bone.Some? && resolution.bone.value.id !in c.hasSplit
  {
    if resolution.NotHumanoid? then Unchanged(c)
    else
      var index := if s.useSliceable then ContainsBone(s.sliceable, humanBone) else -1;
      if s.useSliceable && index == -1 then Unchanged(c)
      else if resolution.bone.Some? && resolution.bone.value.id in c.hasSplit then Unchanged(c)
      else if !s.useSliceable || useGlobal then SliceInternal(s, c, resolution.bone, s.globalThreshold, firstId)
      else SliceInternal(s, c, resolution.bone, s.sliceable[index].threshold, firstId)
  }

  /** Slice by transform with the global threshold: no already-split guard. */
  function SliceBone(s: Settings, c: Character, bone: Option<Node>, firstId: int): (r: Outcome)
    requires Ready(c)
    ensures r.status == Sliced <==> bone.Some?
  {
    SliceInternal(s, c, bone, s.globalThreshold, firstId)
  }

  /** Slice by transform with an explicit threshold: no already-split guard. */
  function SliceBoneWithThreshold(s: Settings, c: Character, bone: Option<Node>, threshold: real, firstId: int): (r: Outcome)
    requires Ready(c)
    ensures r.status == Sliced <==> bone.Some?
  {
    SliceInternal(s, c, bone, threshold, firstId)
  }

  /** The overload without the switch is the overload with the switch set. */
  lemma CheckedOverloadSetsSwitch(s: Settings, c: Character, resolution: Resolution, humanBone: HumanBone,
                                  useGlobal: bool, firstId: int)
    requires Ready(c)
    ensures SliceHumanChecked(s, c, resolution, humanBone, useGlobal, firstId)
         == SliceHuman(s, c, resolution, humanBone, true, useGlobal, firstId)
  {
  }

  /** A completed human-bone cut uses the global threshold when the sliceable
      list is off or the caller asks for it, and otherwise the threshold of
      the first entry for that bone. */
  lemma ThresholdSelection(s: Settings, c: Character, resolution: Resolution, humanBone: HumanBone,
                           hasNotSplit: bool, useGlobal: bool, firstId: int)
    requires Ready(c)
    requires Admitted(s, c, resolution, humanBone, hasNotSplit)
    ensures !s.useSliceable || useGlobal ==>
      SliceHuman(s, c, resolution, humanBone, hasNotSplit, useGlobal, firstId)
        == SliceInternal(s, c, resolution.bone, s.globalThreshold, firstId)
    ensures s.useSliceable && !useGlobal ==>
      exists i :: 0 <= i < |s.sliceable|
        && s.sliceable[i].humanBone == humanBone
        && (forall j :: 0 <= j < i ==> s.sliceable[j].humanBone != humanBone)
        && SliceHuman(s, c, resolution, humanBone, hasNotSplit, useGlobal, firstId)
             == SliceInternal(s, c, resolution.bone, s.sliceable[i].threshold, firstId)
  {
    if s.useSliceable && !useGlobal {
      var i := ContainsBone(s.sliceable, humanBone);
      assert i != -1;
    }
  }

  /** Asking again for a bone that was just cut, with the guard on, does
      nothing. */
  lemma RepeatedSliceIsNoOp(s: Settings, c: Character, resolution: Resolution, humanBone: HumanBone,
                            useGlobal: bool, firstId: int, nextId: int)
    requires Ready(c)
    requires Admitted(s, c, resolution, humanBone, true)
    ensures var c' := SliceHuman(s, c, resolution, humanBone, true, useGlobal, firstId).character;
      && Ready(c')
      && SliceHuman(s, c', resolution, humanBone, true, useGlobal, nextId) == Unchanged(c')
  {
  }

  /** The transform overloads cut again even a bone already cut. */
  lemma TransformSliceIgnoresHistory(s: Settings, c: Character, b: Node, threshold: real, firstId: int)
    requires Ready(c) && b.id in c.hasSplit
    ensures SliceBoneWithThreshold(s, c, Some(b), threshold, firstId).status == Sliced
    ensures SliceBone(s, c, Some(b), firstId).character.hasSplit == c.hasSplit
  {
  }

  /** A cut partitions every original submesh between the character and the
      fragment: the fragment gets exactly the triangles with a corner whose
      weight on the bone's subtree exceeds the threshold. */
  lemma SlicePartitions(s: Settings, c: Character, b: Node, threshold: real, firstId: int, sub: int)
    requires Ready(c) && 0 <= sub < |c.mesh.submeshes|
    ensures var r := SliceInternal(s, c, Some(b), threshold, firstId).character;
      var f := r.fragments[|c.fragments|];
      && sub < |r.mesh.submeshes| && sub < |f.mesh.submeshes|
      && multiset(Triangles(r.mesh.submeshes[sub])) + multiset(Triangles(f.mesh.submeshes[sub]))
         == multiset(Triangles(c.mesh.submeshes[sub]))
      && (forall t :: t in Triangles(f.mesh.submeshes[sub]) <==>
            t in Triangles(c.mesh.submeshes[sub]) && HasInner(ThresholdClassification(c, b, threshold), t))
  {
    var inner := ThresholdClassification(c, b, threshold);
    var p := Carve(c, inner, b, firstId);
    CarvePartitions(c, inner, b, firstId, sub);
    var r := SliceInternal(s, c, Some(b), threshold, firstId).character;
    var f := r.fragments[|c.fragments|];
    assert r.mesh == AppendCap(Some(p.kept), p.edges, true).value;
    assert f.mesh == AppendCap(Some(p.detached), p.edges, false).value;
    AppendCapKeepsSubmesh(p.kept, p.edges, true, sub);
    AppendCapKeepsSubmesh(p.detached, p.edges, false, sub);
  }

  /** The caps: with a boundary both meshes gain exactly one submesh, the fan
      over the boundary, facing outwards on the character and inwards on the
      fragment; without one neither mesh gains a submesh. */
  lemma SliceCaps(s: Settings, c: Character, b: Node, threshold: real, firstId: int)
    requires Ready(c)
    ensures var r := SliceInternal(s, c, Some(b), threshold, firstId).character;
      var f := r.fragments[|c.fragments|];
      var e := CutEdges(ThresholdClassification(c, b, threshold), c.mesh.submeshes);
      var n := |c.mesh.submeshes|;
      && (|e| == 0 ==> |r.mesh.submeshes| == n && |f.mesh.submeshes| == n)
      && (|e| != 0 ==>
            && |e| >= 2
            && |r.mesh.submeshes| == n + 1 && r.mesh.submeshes[n] == Fan(e, true)
            && |f.mesh.submeshes| == n + 1 && f.mesh.submeshes[n] == Fan(e, false))
  {
    var inner := ThresholdClassification(c, b, threshold);
    var p := Carve(c, inner, b, firstId);
    var e := CutEdges(inner, c.mesh.submeshes);
    assert p.edges == e && |e| % 2 == 0;
    EvenLength(|e|);
    var r := SliceInternal(s, c, Some(b), threshold, firstId).character;
    var om, fm := AppendCap(Some(p.kept), e, true), AppendCap(Some(p.detached), e, false);
    assert r.mesh == om.value;
    assert r.fragments[|c.fragments|].mesh == fm.value;
    if |e| == 0 {
      assert om == Some(p.kept) && fm == Some(p.detached);
    }
  }
}
