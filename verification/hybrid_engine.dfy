/** The combined engine: a bitmask cut driven by the hierarchy asset, and a
    legacy threshold cut reachable through the transform overload. Unlike the
    other two engines it aborts when nothing is cut, builds each cap as a
    separate cap object with its own mesh, copies the materials unchanged,
    and keeps the cap-ownership table so that a later cut can take earlier
    caps along with its fragment.

    Every operation takes the write-back rule. `AsWritten` is the code's
    write-back, which skips the submeshes without inner triangles and so
    leaves them whole in the fragment too; `EveryMesh` writes every submesh,
    as the other two engines do. The partition holds only for the latter. */
module HybridEngine {
  import opened Base
  import opened MeshData
  import opened Skeleton
  import opened Classify
  import opened Bucket
  import opened Cut
  import opened Cap
  import opened Ownership
  import opened Scene

  /** The engine's configuration: the global threshold and sliceable list of
      the legacy path, and the hierarchy asset's mask dictionary (None when no
      asset is assigned). */
  datatype Settings = Settings(
    globalThreshold: real,
    useSliceable: bool,
    sliceable: seq<BoneInfo>,
    asset: Option<map<HumanBone, bv32>>)

  /** Which write-back a cut performs: the code's, which leaves a submesh
      that received no inner triangle whole in both meshes, or the one the
      other two engines perform, which writes every submesh. */
  datatype WriteRule = AsWritten | EveryMesh

  /** The shared part of a cut under the given write-back. */
  function CarveBy(rule: WriteRule, c: Character, inner: seq<bool>, b: Node, firstId: int): (p: Pieces)
    requires Ready(c) && |inner| == |c.mesh.vertices|
    ensures p.edges == Carve(c, inner, b, firstId).edges && p.clone == Carve(c, inner, b, firstId).clone
    ensures p.kept == Carve(c, inner, b, firstId).kept
    ensures p.detached == c.mesh.(submeshes := p.detached.submeshes)
    ensures |p.detached.submeshes| == |c.mesh.submeshes|
    ensures WellFormed(p.detached, |c.bones|)
  {
    match rule
    case AsWritten => CarveAsWritten(c, inner, b, firstId)
    case EveryMesh => Carve(c, inner, b, firstId)
  }

  /** Move the caps in `moved` under `parent`, giving them `bones`. */
  function Reparent(caps: seq<CapObject>, moved: set<int>, parent: int, bones: seq<Option<int>>): (r: seq<CapObject>)
    ensures |r| == |caps|
    ensures forall i :: 0 <= i < |caps| ==> r[i].id == caps[i].id && r[i].mesh == caps[i].mesh
    ensures forall i :: 0 <= i < |caps| && caps[i].id !in moved ==> r[i] == caps[i]
    ensures forall i :: 0 <= i < |caps| && caps[i].id in moved ==> r[i].parent == parent && r[i].bones == bones
  {
    seq(|caps|, i requires 0 <= i < |caps| =>
      if caps[i].id in moved then caps[i].(parent := parent, bones := bones) else caps[i])
  }

  /** The ids of the two cap objects of a cut: they are created right after
      the cloned skeleton. */
  function InnerCapId(c: Character, firstId: int): int {
    firstId + 1 + |Flatten(c.root)|
  }

  function OuterCapId(c: Character, firstId: int): int {
    InnerCapId(c, firstId) + 1
  }

  /** The two cap objects of a completed cut: the inner one under the
      fragment's root with the fragment's bones, the outer one under the
      character's renderer with the renderer's bones. */
  function CapPair(c: Character, p: Pieces, firstId: int): (caps: seq<CapObject>)
    requires Ready(c)
    requires p.kept.vertices == c.mesh.vertices && p.kept.boneWeights == c.mesh.boneWeights
    requires p.detached.vertices == c.mesh.vertices && p.detached.boneWeights == c.mesh.boneWeights
    requires forall j :: 0 <= j < |p.edges| ==> 0 <= p.edges[j] < |c.mesh.vertices|
    ensures |caps| == 2
    ensures caps[0].id == InnerCapId(c, firstId) && caps[0].parent == firstId && caps[0].bones == p.clone.newBones
    ensures caps[1].id == OuterCapId(c, firstId) && caps[1].parent == c.renderer && caps[1].bones == AllPresent(c.bones)
    ensures caps[0].mesh.None? <==> |p.edges| < 2
    ensures caps[1].mesh.None? <==> |p.edges| < 2
  {
    assert EdgesAddress(p.detached, p.edges) && EdgesAddress(p.kept, p.edges);
    [CapObject(InnerCapId(c, firstId), firstId, p.clone.newBones, CapMesh(p.detached, p.edges, false)),
     CapObject(OuterCapId(c, firstId), c.renderer, AllPresent(c.bones), CapMesh(p.kept, p.edges, true))]
  }

  /** The character after the mesh has been cut and handed to a new
      fragment that shares the character's materials. */
  function Detached(c: Character, p: Pieces, firstId: int): Character {
    c.(mesh := p.kept, fragments := c.fragments + [Fragment(firstId, p.clone.skeleton, p.clone.newBones, p.detached, c.materials)])
  }

  /** When a bitmask cut at an existing bone completes: the channel covers
      every vertex, some triangle has a corner whose mask shares a bit with
      `bitMask`, and `bitMask` is not yet a key of the ownership table. */
  predicate Completes(c: Character, bitMask: bv32, uvChannel: int)
    requires Ready(c)
  {
    && |MaskChannel(c.mesh, uvChannel)| >= |c.mesh.vertices|
    && CutsAnything(MaskClassification(c, bitMask, uvChannel), c.mesh.submeshes)
    && Key(bitMask) !in c.owners
  }

  /** The bitmask cut. A channel shorter than the vertex list faults before
      anything changes; a cut that selects no triangle destroys the new root
      and reports failure; a bit mask already registered in the ownership
      table faults on the insert, after the mesh has been cut and the
      overlapping caps moved. */
  function SliceInternal(s: Settings, c: Character, bone: Option<Node>, bitMask: bv32, uvChannel: int, firstId: int,
                         rule: WriteRule): (r: Outcome)
    requires Ready(c)
    ensures bone.None? ==> r == Unchanged(c)
    ensures bone.Some? && |MaskChannel(c.mesh, uvChannel)| < |c.mesh.vertices| ==> r == Outcome(c, NoInfo, Faulted)
    ensures r.status != Faulted ==> Ready(r.character)
    ensures r.status == Sliced ==>
      && bone.Some?
      && r.character.hasSplit == c.hasSplit + {bone.value.id}
      && r.info.root == Some(firstId)
      && r.info.targetBone == TargetClone(c, bone.value, firstId)
      && r.character.materials == c.materials
      && |r.character.fragments| == |c.fragments| + 1
      && r.character.fragments[..|c.fragments|] == c.fragments
      && r.character.fragments[|c.fragments|].root == firstId
      && r.character.fragments[|c.fragments|].materials == c.materials
      && |r.character.caps| == |c.caps| + 2
      && Key(bitMask) !in c.owners
      && Key(bitMask) in r.character.owners
      && r.character.owners[Key(bitMask)] == OuterCapId(c, firstId)
    ensures r.status != Sliced ==> r.character.hasSplit == c.hasSplit && r.info == NoInfo
    ensures r.status == Skipped ==> r == Unchanged(c)
    ensures bone.Some? ==> (r.status == Sliced <==> Completes(c, bitMask, uvChannel))
    ensures bone.Some? && |MaskChannel(c.mesh, uvChannel)| >= |c.mesh.vertices| ==>
      (r.status == Skipped <==> !CutsAnything(MaskClassification(c, bitMask, uvChannel), c.mesh.submeshes))
  {
    if bone.None? then Unchanged(c)
    else
      var b := bone.value;
      match ClassifyByMask(MaskChannel(c.mesh, uvChannel), |c.mesh.vertices|, bitMask)
      case None => Outcome(c, NoInfo, Faulted)
      case Some(inner) =>
        assert Whole(c.mesh.submeshes);
        if !CutsAnything(inner, c.mesh.submeshes) then Unchanged(c)
        else
          var p := CarveBy(rule, c, inner, b, firstId);
          var u := UpdateOwners(c.owners, bitMask, OuterCapId(c, firstId));
          var c1 := Detached(c, p, firstId).(caps := Reparent(c.caps, u.moved, firstId, p.clone.newBones), owners := u.owners);
          if !u.added then Outcome(c1, NoInfo, Faulted)
          else
            Outcome(
              c1.(caps := c1.caps + CapPair(c, p, firstId), hasSplit := c.hasSplit + {b.id}),
              Info(Some(firstId), p.clone.targetBone),
              Sliced)
  }

  /** The legacy threshold cut: the same steps without the ownership table
      (its name-keyed table is not part of this model). */
  function SliceInternalLegacy(c: Character, bone: Option<Node>, threshold: real, firstId: int, rule: WriteRule): (r: Outcome)
    requires Ready(c)
    ensures bone.None? ==> r == Unchanged(c)
    ensures r.status != Faulted
    ensures Ready(r.character)
    ensures r.character.owners == c.owners
    ensures r.status == Sliced ==>
      && bone.Some?
      && r.character.hasSplit == c.hasSplit + {bone.value.id}
      && r.info.root == Some(firstId)
      && r.character.materials == c.materials
      && |r.character.fragments| == |c.fragments| + 1
      && r.character.fragments[..|c.fragments|] == c.fragments
      && |r.character.caps| == |c.caps| + 2
      && r.character.caps[..|c.caps|] == c.caps
    ensures r.status != Sliced ==> r == Unchanged(c)
  {
    if bone.None? then Unchanged(c)
    else
      var b := bone.value;
      var inner := ThresholdClassification(c, b, threshold);
      assert Whole(c.mesh.submeshes);
      if !CutsAnything(inner, c.mesh.submeshes) then Unchanged(c)
      else
        var p := CarveBy(rule, c, inner, b, firstId);
        Outcome(
          Detached(c, p, firstId).(caps := c.caps + CapPair(c, p, firstId), hasSplit := c.hasSplit + {b.id}),
          Info(Some(firstId), p.clone.targetBone),
          Sliced)
  }

  /** The request guards of the human-bone overload: an asset, a humanoid
      rig, the bone in the sliceable list when that list is in use, the bone
      not cut before, and a mask for it in the asset. */
  predicate Admitted(s: Settings, c: Character, resolution: Resolution, humanBone: HumanBone) {
    && s.asset.Some?
    && resolution.Resolved?
    && (!s.useSliceable || exists i :: 0 <= i < |s.sliceable| && s.sliceable[i].humanBone == humanBone)
    && !(resolution.bone.Some? && resolution.bone.value.id in c.hasSplit)
    && humanBone in s.asset.value
  }

  /** Slice by human bone, always with the bitmask cut. */
  function Slice(s: Settings, c: Character, resolution: Resolution, humanBone: HumanBone, uvChannel: int, firstId: int,
                 rule: WriteRule): (r: Outcome)
    requires Ready(c)
    ensures !Admitted(s, c, resolution, humanBone) ==> r == Unchanged(c)
    ensures Admitted(s, c, resolution, humanBone) ==>
      r == SliceInternal(s, c, resolution.bone, s.asset.value[humanBone], uvChannel, firstId, rule)
  {
    if s.asset.None? then Unchanged(c)
    else if resolution.NotHumanoid? then Unchanged(c)
    else if s.useSliceable && ContainsBone(s.sliceable, humanBone) == -1 then Unchanged(c)
    else if resolution.bone.Some? && resolution.bone.value.id in c.hasSplit then Unchanged(c)
    else if humanBone !in s.asset.value then Unchanged(c)
    else SliceInternal(s, c, resolution.bone, s.asset.value[humanBone], uvChannel, firstId, rule)
  }

  /** Slice by transform: the legacy cut by default, the bitmask cut on
      request; neither checks the already-split set. The result reports
      whether the cut completed. */
  function SliceBone(s: Settings, c: Character, bone: Option<Node>, threshold: real, bitMask: bv32,
                     uvChannel: int, useLegacy: bool, firstId: int, rule: WriteRule): (r: Outcome)
    requires Ready(c)
    ensures useLegacy ==> r == SliceInternalLegacy(c, bone, threshold, firstId, rule)
    ensures !useLegacy ==> r == SliceInternal(s, c, bone, bitMask, uvChannel, firstId, rule)
    ensures useLegacy ==> r.character.owners == c.owners && r.status != Faulted
    ensures !useLegacy && r.status != Faulted ==> Ready(r.character)
  {
    if useLegacy then SliceInternalLegacy(c, bone, threshold, firstId, rule)
    else SliceInternal(s, c, bone, bitMask, uvChannel, firstId, rule)
  }

  /** A bitmask cut that selects no triangle changes nothing and reports
      failure: no fragment, no cap, and the bone is not recorded as split. */
  lemma EmptyCutIsRefused(s: Settings, c: Character, b: Node, bitMask: bv32, uvChannel: int, firstId: int, rule: WriteRule)
    requires Ready(c) && |MaskChannel(c.mesh, uvChannel)| >= |c.mesh.vertices|
    requires forall v :: 0 <= v < |c.mesh.vertices| ==> MaskChannel(c.mesh, uvChannel)[v] & bitMask == 0
    ensures SliceInternal(s, c, Some(b), bitMask, uvChannel, firstId, rule) == Unchanged(c)
  {
    var inner := ClassifyByMask(MaskChannel(c.mesh, uvChannel), |c.mesh.vertices|, bitMask).value;
    assert Whole(c.mesh.submeshes);
    NoInnerVertexCutsNothing(inner, c.mesh.submeshes);
  }

  /** Under the corrected write-back a completed cut partitions every
      original submesh: the fragment gets exactly the triangles with a corner
      whose mask shares a bit with the cut's mask, and the character keeps the
      rest. */
  lemma SlicePartitions(s: Settings, c: Character, b: Node, bitMask: bv32, uvChannel: int, firstId: int, sub: int)
    requires Ready(c) && |MaskChannel(c.mesh, uvChannel)| >= |c.mesh.vertices|
    requires 0 <= sub < |c.mesh.submeshes|
    requires Completes(c, bitMask, uvChannel)
    ensures var r := SliceInternal(s, c, Some(b), bitMask, uvChannel, firstId, EveryMesh).character;
      var f := r.fragments[|c.fragments|];
      var inner := MaskClassification(c, bitMask, uvChannel);
      && sub < |r.mesh.submeshes| && sub < |f.mesh.submeshes|
      && multiset(Triangles(r.mesh.submeshes[sub])) + multiset(Triangles(f.mesh.submeshes[sub]))
         == multiset(Triangles(c.mesh.submeshes[sub]))
      && (forall t :: t in Triangles(f.mesh.submeshes[sub]) <==>
            t in Triangles(c.mesh.submeshes[sub]) && HasInner(inner, t))
  {
    var inner := MaskClassification(c, bitMask, uvChannel);
    var p := Carve(c, inner, b, firstId);
    CarvePartitions(c, inner, b, firstId, sub);
    var r := SliceInternal(s, c, Some(b), bitMask, uvChannel, firstId, EveryMesh).character;
    assert r.mesh == p.kept;
    assert r.fragments[|c.fragments|].mesh == p.detached;
  }

  /** As written, a completed cut leaves every submesh none of whose
      triangles has an inner corner whole in both meshes, so the character
      and the fragment both draw it; any other submesh is partitioned as
      under the corrected write-back. */
  lemma AsWrittenKeepsUntouched(s: Settings, c: Character, b: Node, bitMask: bv32, uvChannel: int, firstId: int, sub: int)
    requires Ready(c) && |MaskChannel(c.mesh, uvChannel)| >= |c.mesh.vertices|
    requires 0 <= sub < |c.mesh.submeshes|
    requires Completes(c, bitMask, uvChannel)
    ensures var r := SliceInternal(s, c, Some(b), bitMask, uvChannel, firstId, AsWritten).character;
      var f := r.fragments[|c.fragments|];
      var inner, ts := MaskClassification(c, bitMask, uvChannel), Triangles(c.mesh.submeshes[sub]);
      && sub < |r.mesh.submeshes| && sub < |f.mesh.submeshes|
      && ((forall t :: t in ts ==> !HasInner(inner, t)) ==>
            r.mesh.submeshes[sub] == c.mesh.submeshes[sub] && f.mesh.submeshes[sub] == c.mesh.submeshes[sub])
      && ((exists t :: t in ts && HasInner(inner, t)) ==>
            && multiset(Triangles(r.mesh.submeshes[sub])) + multiset(Triangles(f.mesh.submeshes[sub])) == multiset(ts)
            && (forall t :: t in Triangles(f.mesh.submeshes[sub]) <==> t in ts && HasInner(inner, t)))
  {
    var inner := MaskClassification(c, bitMask, uvChannel);
    var p := CarveAsWritten(c, inner, b, firstId);
    CarveAsWrittenSplits(c, inner, b, firstId, sub);
    var r := SliceInternal(s, c, Some(b), bitMask, uvChannel, firstId, AsWritten).character;
    assert r.mesh == p.kept;
    assert r.fragments[|c.fragments|].mesh == p.detached;
  }

  /** After a completed cut the ownership table holds no key that partly
      overlaps the cut's mask, the new outer cap is registered under it, and
      every cap that was registered under a partly overlapping key now hangs
      under the fragment's root with the fragment's bones. */
  lemma OwnershipAfterCut(s: Settings, c: Character, b: Node, bitMask: bv32, uvChannel: int, firstId: int, rule: WriteRule)
    requires Ready(c)
    requires Completes(c, bitMask, uvChannel)
    ensures var r := SliceInternal(s, c, Some(b), bitMask, uvChannel, firstId, rule).character;
      && (forall k :: k in r.owners ==> k.bits & bitMask == 0 || k.bits & bitMask == bitMask)
      && r.owners[Key(bitMask)] == OuterCapId(c, firstId)
      && r.caps[|c.caps| + 1].id == OuterCapId(c, firstId)
      && r.caps[|c.caps| + 1].parent == c.renderer
      && (forall k, i :: k in c.owners && PartialOverlap(k, bitMask) && 0 <= i < |c.caps| && c.caps[i].id == c.owners[k] ==>
            r.caps[i].parent == firstId && r.caps[i].bones == r.fragments[|c.fragments|].bones)
  {
    var r := SliceInternal(s, c, Some(b), bitMask, uvChannel, firstId, rule).character;
    var inner := ClassifyByMask(MaskChannel(c.mesh, uvChannel), |c.mesh.vertices|, bitMask).value;
    var p := CarveBy(rule, c, inner, b, firstId);
    var u := UpdateOwners(c.owners, bitMask, OuterCapId(c, firstId));
    NoPartialOverlapRemains(c.owners, bitMask, OuterCapId(c, firstId));
    assert r.owners == u.owners;
    assert r.caps == Reparent(c.caps, u.moved, firstId, p.clone.newBones) + CapPair(c, p, firstId);
    assert r.fragments[|c.fragments|].bones == p.clone.newBones;
  }

  /** Cutting with a mask that is already registered faults, leaving the
      mesh cut, the fragment made and the bone not recorded as split. */
  lemma RegisteredMaskFaults(s: Settings, c: Character, b: Node, bitMask: bv32, uvChannel: int, firstId: int, rule: WriteRule)
    requires Ready(c) && |MaskChannel(c.mesh, uvChannel)| >= |c.mesh.vertices|
    requires Key(bitMask) in c.owners
    requires CutsAnything(MaskClassification(c, bitMask, uvChannel), c.mesh.submeshes)
    ensures var r := SliceInternal(s, c, Some(b), bitMask, uvChannel, firstId, rule);
      && r.status == Faulted
      && r.character.hasSplit == c.hasSplit
      && |r.character.fragments| == |c.fragments| + 1
      && r.character.owners[Key(bitMask)] == c.owners[Key(bitMask)]
  {
    RepeatedMaskFaults(c.owners, bitMask, OuterCapId(c, firstId));
  }

  /** Two cap objects are one surface seen from both sides: both have a
      mesh or neither does, and when they do, the meshes have the same
      vertices and weights and every fan triangle of the inner one is the
      outer one's wound the other way. */
  ghost predicate MirrorCaps(inCap: CapObject, outCap: CapObject) {
    && (inCap.mesh.Some? <==> outCap.mesh.Some?)
    && (inCap.mesh.Some? && outCap.mesh.Some? ==>
          var front, back := outCap.mesh.value, inCap.mesh.value;
          && back.vertices == front.vertices
          && back.boneWeights == front.boneWeights
          && |back.triangles| == |front.triangles|
          && forall a :: 0 <= a && a * 3 + 3 <= |front.triangles| ==>
               var t, u := TriangleAt(front.triangles, a), TriangleAt(back.triangles, a);
               u == [t[0], t[2], t[1]])
  }

  /** The caps a completed cut appends are the pair built from its carve. */
  lemma SlicedCaps(s: Settings, c: Character, b: Node, bitMask: bv32, uvChannel: int, firstId: int, rule: WriteRule)
    requires Ready(c)
    requires Completes(c, bitMask, uvChannel)
    ensures |MaskChannel(c.mesh, uvChannel)| >= |c.mesh.vertices|
    ensures var caps := SliceInternal(s, c, Some(b), bitMask, uvChannel, firstId, rule).character.caps;
      && |caps| == |c.caps| + 2
      && caps[|c.caps|..] == CapPair(c, CarveBy(rule, c, MaskClassification(c, bitMask, uvChannel), b, firstId), firstId)
  {
  }

  /** The pair of caps built over one boundary mirror each other. */
  lemma CapPairMirrors(c: Character, p: Pieces, firstId: int)
    requires Ready(c)
    requires p.kept.vertices == c.mesh.vertices && p.kept.boneWeights == c.mesh.boneWeights
    requires p.detached.vertices == c.mesh.vertices && p.detached.boneWeights == c.mesh.boneWeights
    requires forall j :: 0 <= j < |p.edges| ==> 0 <= p.edges[j] < |c.mesh.vertices|
    ensures MirrorCaps(CapPair(c, p, firstId)[0], CapPair(c, p, firstId)[1])
  {
    var pair := CapPair(c, p, firstId);
    assert EdgesAddress(c.mesh, p.edges);
    assert pair[0].mesh == CapMesh(c.mesh, p.edges, false) && pair[1].mesh == CapMesh(c.mesh, p.edges, true);
    if |p.edges| >= 2 {
      var front, back := pair[1].mesh.value, pair[0].mesh.value;
      forall a | 0 <= a && a * 3 + 3 <= |front.triangles|
        ensures var t, u := TriangleAt(front.triangles, a), TriangleAt(back.triangles, a);
                u == [t[0], t[2], t[1]]
      {
        CapsAreMirrorImages(c.mesh, p.edges, a);
      }
      CapsAreMirrorImages(c.mesh, p.edges, 0);
    }
  }

  /** The two caps of a completed cut mirror each other. */
  lemma CapsMirrorEachOther(s: Settings, c: Character, b: Node, bitMask: bv32, uvChannel: int, firstId: int, rule: WriteRule)
    requires Ready(c)
    requires Completes(c, bitMask, uvChannel)
    ensures var caps := SliceInternal(s, c, Some(b), bitMask, uvChannel, firstId, rule).character.caps;
      && |caps| == |c.caps| + 2
      && MirrorCaps(caps[|c.caps|], caps[|c.caps| + 1])
  {
    SlicedCaps(s, c, b, bitMask, uvChannel, firstId, rule);
    var p := CarveBy(rule, c, MaskClassification(c, bitMask, uvChannel), b, firstId);
    CapPairMirrors(c, p, firstId);
    var caps := SliceInternal(s, c, Some(b), bitMask, uvChannel, firstId, rule).character.caps;
    assert caps[|c.caps|] == caps[|c.caps|..][0] && caps[|c.caps| + 1] == caps[|c.caps|..][1];
  }

  /** Asking again for a bone that was just cut does nothing. */
  lemma RepeatedSliceIsNoOp(s: Settings, c: Character, resolution: Resolution, humanBone: HumanBone,
                            uvChannel: int, firstId: int, nextId: int, rule: WriteRule)
    requires Ready(c)
    requires Admitted(s, c, resolution, humanBone) && resolution.bone.Some?
    requires Completes(c, s.asset.value[humanBone], uvChannel)
    ensures var c' := Slice(s, c, resolution, humanBone, uvChannel, firstId, rule).character;
      && Ready(c')
      && Slice(s, c', resolution, humanBone, uvChannel, nextId, rule) == Unchanged(c')
  {
  }

  /** Under the corrected write-back a legacy cut that sends some triangle
      to the fragment (the case in which it completes) partitions every
      original submesh by the bone-weight classification. */
  lemma LegacyPartitions(c: Character, b: Node, threshold: real, firstId: int, sub: int)
    requires Ready(c) && 0 <= sub < |c.mesh.submeshes|
    requires CutsAnything(ThresholdClassification(c, b, threshold), c.mesh.submeshes)
    ensures var r := SliceInternalLegacy(c, Some(b), threshold, firstId, EveryMesh).character;
      var f := r.fragments[|c.fragments|];
      && sub < |r.mesh.submeshes| && sub < |f.mesh.submeshes|
      && multiset(Triangles(r.mesh.submeshes[sub])) + multiset(Triangles(f.mesh.submeshes[sub]))
         == multiset(Triangles(c.mesh.submeshes[sub]))
      && (forall t :: t in Triangles(f.mesh.submeshes[sub]) <==>
            t in Triangles(c.mesh.submeshes[sub]) && HasInner(ThresholdClassification(c, b, threshold), t))
  {
    var inner := ThresholdClassification(c, b, threshold);
    var p := Carve(c, inner, b, firstId);
    CarvePartitions(c, inner, b, firstId, sub);
    var r := SliceInternalLegacy(c, Some(b), threshold, firstId, EveryMesh).character;
    assert r.mesh == p.kept;
    assert r.fragments[|c.fragments|].mesh == p.detached;
  }

  /** As written, a legacy cut that sends some triangle to the fragment
      leaves every submesh none of whose triangles has an inner corner whole
      in both meshes; any other submesh is partitioned. */
  lemma LegacyAsWrittenKeepsUntouched(c: Character, b: Node, threshold: real, firstId: int, sub: int)
    requires Ready(c) && 0 <= sub < |c.mesh.submeshes|
    requires CutsAnything(ThresholdClassification(c, b, threshold), c.mesh.submeshes)
    ensures var r := SliceInternalLegacy(c, Some(b), threshold, firstId, AsWritten).character;
      var f := r.fragments[|c.fragments|];
      var inner, ts := ThresholdClassification(c, b, threshold), Triangles(c.mesh.submeshes[sub]);
      && sub < |r.mesh.submeshes| && sub < |f.mesh.submeshes|
      && ((forall t :: t in ts ==> !HasInner(inner, t)) ==>
            r.mesh.submeshes[sub] == c.mesh.submeshes[sub] && f.mesh.submeshes[sub] == c.mesh.submeshes[sub])
      && ((exists t :: t in ts && HasInner(inner, t)) ==>
            && multiset(Triangles(r.mesh.submeshes[sub])) + multiset(Triangles(f.mesh.submeshes[sub])) == multiset(ts)
            && (forall t :: t in Triangles(f.mesh.submeshes[sub]) <==> t in ts && HasInner(inner, t)))
  {
    var inner := ThresholdClassification(c, b, threshold);
    var p := CarveAsWritten(c, inner, b, firstId);
    CarveAsWrittenSplits(c, inner, b, firstId, sub);
    var r := SliceInternalLegacy(c, Some(b), threshold, firstId, AsWritten).character;
    assert r.mesh == p.kept;
    assert r.fragments[|c.fragments|].mesh == p.detached;
  }
}
