# UMA dismemberment: a Dafny model of the mesh-cutting core

UMA Dismemberment cuts a skinned character in two at a bone. The
character's mesh is split into what stays on the body and what leaves with
a new fragment object. The skeleton under the character's "Root" transform
is cloned beneath the fragment. Both meshes are closed with a cap, a fan of
triangles over the cut boundary. Three engines share this pipeline:

- **threshold engine** (`Dismemberment/Scripts/UmaDismemberment.cs`): a vertex
  leaves with the fragment when the weights it gives to the cut bone's
  subtree add up to more than a threshold. The cap is appended as one more
  submesh of each mesh, and both renderers get the slice-fill material
  appended to their material arrays.
- **mask engine** (`Dismemberment2/Scripts/UmaDismemberment2.cs`): a vertex
  leaves when the 32-bit mask stored in one of its UV channels shares a bit
  with the bone's mask. That mask comes from the hierarchy asset
  (`DismembermentHierarchyAsset.cs`). Caps and the extra material are added
  only when the cut has a boundary.
- **hybrid engine** (`Dismemberment2/Scripts/UmaDismemberment.cs`): the mask
  cut plus a legacy threshold cut. Each cap is a separate cap object with
  its own mesh. A cut that selects nothing is refused. A table maps each
  bit mask to the cap object it created, so a later, enclosing cut can take
  earlier caps along with its fragment.

The model is written in these modules:

| module | file | contents |
|---|---|---|
| `Base` | `base.dfy` | `Option`, index helpers |
| `MeshData` | `mesh.dfy` | vertices, bone weights, UV mask channels, submesh triangle lists, well-formedness |
| `Skeleton` | `skeleton.dfy` | the transform tree; the subtree bone mask; the skeleton clone and the fragment's bones array |
| `Classify` | `classify.dfy` | the two vertex classifications (weight threshold, bit mask) |
| `Bucket` | `bucket.dfy` | the per-submesh pass that buckets triangles and harvests boundary edges |
| `Cut` | `cut.dfy` | write-back of the buckets to both meshes, and the mesh-wide edge list |
| `Cap` | `cap.dfy` | the cap fan, appended as a submesh or built as a separate cap mesh |
| `Ownership` | `ownership.dfy` | the hybrid engine's cap-ownership table |
| `HierarchyAsset` | `hierarchy_asset.dfy` | saving and loading the human-bone to mask dictionary |
| `Scene` | `scene.dfy` | the character and fragments as values, and the cut steps the engines share |
| `ThresholdEngine`, `MaskEngine`, `HybridEngine` | one file each | the three engines' request handling and state changes |

Unity objects become integer ids. A transform is a `Node(id, pose,
children)`. A renderer's bones array is a sequence of ids. The ids a cut
creates are passed in as `firstId`:

- the fragment's root object gets `firstId`;
- the cloned bones get `firstId + 1` onwards, in pre-order;
- the hybrid engine's two cap objects get the next two ids.

Each request returns an `Outcome`: the new character, the `DismemberedInfo`
pair (fragment root and the clone of the cut bone), and one status:

- `Sliced`: the cut completed;
- `Skipped`: nothing changed;
- `Faulted`: the source throws. This happens on an out-of-range mask read,
  or in the hybrid engine on a repeated key in the ownership table.

In a few places the code departs from the documented design. The model
follows the code in each case:

- Only a triangle with exactly one inner corner contributes a boundary
  edge. A triangle with two inner corners goes to the fragment and adds
  no edge.
- The hybrid engine moves an old cap to the new fragment when its key
  overlaps the new mask partially. The key does not have to be a strict
  subset of the mask.
- The threshold engine never refuses a cut. Even a cut that selects no
  triangle adds a fragment, grows both material arrays and records the
  bone as split. With no boundary, neither mesh gains a cap submesh.

The hybrid engine writes back only the submeshes that received an inner
triangle, so a submesh the cut does not touch stays whole in the fragment
as well as on the character (see Findings). Its operations therefore take
a `WriteRule`. `AsWritten` follows the code. `EveryMesh` writes every
submesh back, as the other two engines do. The lemmas that do not depend
on the write-back hold for both rules. The partition lemmas are stated for
`EveryMesh`. `HybridEngine.AsWrittenKeepsUntouched` and
`HybridEngine.LegacyAsWrittenKeepsUntouched` state what `AsWritten` does
instead.

## Model

| member | source | states |
|---|---|---|
| MeshData.MaskChannel | UMADismemberment/Assets/Dismemberment2/Scripts/UmaDismemberment.cs:409-426 | channels 1, 3 and 4 read uv1, uv3 and uv4; every other channel number reads uv2 |
| Skeleton.BoneMask | UMADismemberment/Assets/Dismemberment/Scripts/UmaDismemberment.cs:105-122 | the reference subtree mask has one slot per entry of the renderer's bones array |
| Skeleton.GenerateBoneNumbers | UMADismemberment/Assets/Dismemberment2/Scripts/UmaDismemberment.cs:133-150 | the loop over the subtree marks slot i exactly when bones[i] is the cut bone or one of its descendants, every duplicate slot included |
| Skeleton.Claim | UMADismemberment/Assets/Dismemberment2/Scripts/UmaDismemberment.cs:578-587 | resolving the slots for one cloned transform keeps the bones array's length |
| Skeleton.CloneNode | UMADismemberment/Assets/Dismemberment2/Scripts/UmaDismemberment.cs:565-595 | cloning a subtree keeps the new bones array as long as the renderer's |
| Skeleton.CloneChildren | UMADismemberment/Assets/Dismemberment2/Scripts/UmaDismemberment.cs:589-593 | cloning the children in order keeps the new bones array as long as the renderer's |
| Skeleton.CloneNodeResolves | UMADismemberment/Assets/Dismemberment2/Scripts/UmaDismemberment.cs:565-595 | cloning a subtree consumes one fresh id per transform. Each still-empty slot is filled with the clone of the first occurrence of its transform. The target becomes the clone of its last occurrence |
| Skeleton.CloneChildrenResolves | UMADismemberment/Assets/Dismemberment2/Scripts/UmaDismemberment.cs:589-593 | the same resolution for a run of sibling subtrees cloned left to right |
| Skeleton.CloneNodeShape | UMADismemberment/Assets/Dismemberment2/Scripts/UmaDismemberment.cs:567-574 | a clone has the same shape and poses as its original, and its ids are consecutive in pre-order |
| Skeleton.CloneChildrenShape | UMADismemberment/Assets/Dismemberment2/Scripts/UmaDismemberment.cs:589-593 | the cloned children keep shape and poses, with consecutive pre-order ids |
| Skeleton.CreateBones | UMADismemberment/Assets/Dismemberment2/Scripts/UmaDismemberment.cs:558-595 | the clone is the Root tree with fresh consecutive pre-order ids. Slot i of the new bones array holds the clone of bones[i], or null when bones[i] lies outside the tree. The target bone is the clone of the cut bone, or null |
| Skeleton.CloneTargetMatchesBoneSlots | UMADismemberment/Assets/Dismemberment2/Scripts/UmaDismemberment.cs:573-587 | in a tree without repeated transforms, every slot holding the cut bone points at the reported target clone |
| Skeleton.DuplicateSlotsShareClone | UMADismemberment/Assets/Dismemberment2/Scripts/UmaDismemberment.cs:578-587 | two slots holding the same transform hold the same clone |
| Classify.MaskedWeightOfRecord | UMADismemberment/Assets/Dismemberment2/Scripts/UmaDismemberment.cs:159-169 | the masked weight of a four-influence record is the sum of the weights whose bone index is marked |
| Classify.IsPartOf | UMADismemberment/Assets/Dismemberment/Scripts/UmaDismemberment.cs:354-364 | a vertex belongs to the cut iff its masked weight is strictly greater than the threshold |
| Classify.ThresholdInner | UMADismemberment/Assets/Dismemberment/Scripts/UmaDismemberment.cs:249-253 | one flag per bone-weight record, each set iff that record's masked weight exceeds the threshold |
| Classify.WeightAtThresholdIsOuter | UMADismemberment/Assets/Dismemberment2/Scripts/UmaDismemberment.cs:168 | a masked weight equal to the threshold stays outer |
| Classify.MaskedWeightMonotone | UMADismemberment/Assets/Dismemberment2/Scripts/UmaDismemberment.cs:159-169 | marking more bones never lowers the masked weight |
| Classify.IsPartOfMonotone | UMADismemberment/Assets/Dismemberment2/Scripts/UmaDismemberment.cs:159-169 | a vertex inside a cut at a bone is also inside a cut at any subtree containing that bone's subtree |
| Classify.ClassifyByMask | UMADismemberment/Assets/Dismemberment2/Scripts/UmaDismemberment.cs:428-433 | faults iff the channel holds fewer masks than there are vertices; otherwise gives one flag per vertex |
| Classify.EmptyBitMaskSelectsNothing | UMADismemberment/Assets/Dismemberment2/Scripts/UmaDismemberment.cs:428-433 | the empty bit mask marks no vertex |
| Classify.BitMaskUnion | UMADismemberment/Assets/Dismemberment2/Scripts/UmaDismemberment.cs:428-433 | a vertex selected by mask a is selected by the union a or b |
| Classify.MaskHitsUnion | UMADismemberment/Assets/Dismemberment2/Scripts/UmaDismemberment.cs:432 | a vertex mask hits a union of masks iff it hits one of them |
| Classify.MaskExamples | UMADismemberment/Assets/Dismemberment2/Scripts/UmaDismemberment2.cs:163 | example: masks 0x5 and 0x6 share a bit; masks 0x1 and 0x2 do not |
| Bucket.Triangles | UMADismemberment/Assets/Dismemberment2/Scripts/UmaDismemberment.cs:463-467 | an index list read three at a time gives one triangle per three indices |
| Bucket.Indices | UMADismemberment/Assets/Dismemberment2/Scripts/UmaDismemberment.cs:479-487 | written-back triangles give three indices each |
| Bucket.Select | UMADismemberment/Assets/Dismemberment2/Scripts/UmaDismemberment.cs:473-488 | a bucket never holds more triangles than the submesh |
| Bucket.BucketTris | UMADismemberment/Assets/Dismemberment2/Scripts/UmaDismemberment.cs:459-489 | both buckets of a submesh are whole triangle lists |
| Bucket.BucketStep | UMADismemberment/Assets/Dismemberment2/Scripts/UmaDismemberment.cs:463-488 | processing one more triangle moves it whole into one bucket and appends its boundary pair |
| Bucket.HarvestEdge | UMADismemberment/Assets/Dismemberment2/Scripts/UmaDismemberment.cs:475-477 | a triangle with exactly one inner corner appends the opposite edge, in the winding that starts after the inner corner. Any other triangle appends nothing, and earlier entries are kept |
| Bucket.BucketTriangle | UMADismemberment/Assets/Dismemberment2/Scripts/UmaDismemberment.cs:463-488 | the loop body for one triangle performs exactly one reference step: the triangle goes whole into the bucket its corners choose, and its boundary pair is appended |
| Bucket.BucketSubmesh | UMADismemberment/Assets/Dismemberment2/Scripts/UmaDismemberment.cs:456-489 | the imperative pass over one submesh computes exactly the reference buckets and boundary list |
| Bucket.SelectPartition | UMADismemberment/Assets/Dismemberment2/Scripts/UmaDismemberment.cs:473-488 | the two buckets together are a permutation of the submesh's triangles |
| Bucket.SelectClassified | UMADismemberment/Assets/Dismemberment2/Scripts/UmaDismemberment.cs:473 | every triangle of the inner bucket has an inner corner; none of the outer bucket does |
| Bucket.SelectMembership | UMADismemberment/Assets/Dismemberment2/Scripts/UmaDismemberment.cs:473-488 | a submesh triangle is in the inner bucket iff it has an inner corner, and in the outer bucket otherwise |
| Bucket.SelectExactly | UMADismemberment/Assets/Dismemberment2/Scripts/UmaDismemberment.cs:473-488 | a bucket holds exactly the submesh triangles of its classification: nothing else enters it and none is lost |
| Bucket.BucketSizes | UMADismemberment/Assets/Dismemberment2/Scripts/UmaDismemberment.cs:479-487 | the two buckets' index counts add up to the submesh's |
| Bucket.BoundaryPairShape | UMADismemberment/Assets/Dismemberment2/Scripts/UmaDismemberment.cs:475-477 | only a triangle with exactly one inner corner contributes an edge, namely its two outer corners in winding order |
| Bucket.BoundaryEdges | UMADismemberment/Assets/Dismemberment2/Scripts/UmaDismemberment.cs:473-482 | the boundary list has even length, holds only outer vertices, and is empty when the inner bucket is |
| Bucket.BoundaryInInnerBucket | UMADismemberment/Assets/Dismemberment2/Scripts/UmaDismemberment.cs:473-482 | every boundary entry is a corner of a triangle that went to the fragment |
| Bucket.RebucketOuterIsStable | UMADismemberment/Assets/Dismemberment2/Scripts/UmaDismemberment.cs:463-489 | bucketing the outer bucket again with the same classification moves nothing and adds no edge |
| Bucket.AllOuterSelect | UMADismemberment/Assets/Dismemberment2/Scripts/UmaDismemberment.cs:483-488 | with no inner triangle, everything stays outer and there is no boundary |
| Bucket.NoInnerKeepsEverything | UMADismemberment/Assets/Dismemberment2/Scripts/UmaDismemberment.cs:483-488 | an empty inner bucket leaves the outer bucket equal to the submesh, with no edges |
| Bucket.BucketInRange | UMADismemberment/Assets/Dismemberment2/Scripts/UmaDismemberment.cs:456-489 | both buckets and the boundary list address only existing vertices |
| Bucket.BucketAll | UMADismemberment/Assets/Dismemberment2/Scripts/UmaDismemberment.cs:456-497 | there is one bucket pair per submesh |
| Bucket.AllEdgesShape | UMADismemberment/Assets/Dismemberment2/Scripts/UmaDismemberment.cs:456-497 | the mesh-wide edge list has even length and holds only outer vertices |
| Cap.Fan | UMADismemberment/Assets/Dismemberment/Scripts/UmaDismemberment.cs:371-379 | the fan has 3 × (entries − 1) indices |
| Cap.BuildFan | UMADismemberment/Assets/Dismemberment/Scripts/UmaDismemberment.cs:371-379 | the loop over even positions fills the fan and leaves the odd slots zero |
| Cap.FanTriangles | UMADismemberment/Assets/Dismemberment/Scripts/UmaDismemberment.cs:374-379 | triangle a (a even) is (first, a, a+1) facing outwards and (first, a+1, a) facing inwards; odd positions hold the degenerate (0,0,0) |
| Cap.FanWindingsOpposite | UMADismemberment/Assets/Dismemberment/Scripts/UmaDismemberment.cs:376-378 | the inward fan is the outward fan with every triangle's winding reversed |
| Cap.FanDrawsFromList | UMADismemberment/Assets/Dismemberment2/Scripts/UmaDismemberment2.cs:305-312 | every fan index is a boundary entry or the zero of an untouched slot |
| Cap.LocalFanInRange | UMADismemberment/Assets/Dismemberment2/Scripts/UmaDismemberment.cs:640-652 | a fan over cap-local positions addresses only the cap's own vertices |
| Cap.LegacyFanIsLocalFanThroughEdges | UMADismemberment/Assets/Dismemberment2/Scripts/UmaDismemberment.cs:642-644 | the fan over mesh indices is the cap-local fan looked up through the boundary list |
| Cap.AppendCap | UMADismemberment/Assets/Dismemberment/Scripts/UmaDismemberment.cs:366-384 | a null mesh or a boundary shorter than 2 entries changes nothing. Otherwise the mesh gains exactly one submesh, the fan over the boundary, and nothing else changes |
| Cap.AppendCapKeepsWellFormed | UMADismemberment/Assets/Dismemberment/Scripts/UmaDismemberment.cs:366-384 | appending a cap over in-range boundary vertices keeps the mesh well formed |
| Cap.CapMesh | UMADismemberment/Assets/Dismemberment2/Scripts/UmaDismemberment.cs:597-666 | no cap mesh iff the boundary has fewer than 2 entries. Otherwise the cap has one vertex and weight record per entry, copied from the parent, and a well-formed local fan |
| Cap.CapsAreMirrorImages | UMADismemberment/Assets/Dismemberment2/Scripts/UmaDismemberment.cs:640-645 | the inner and outer cap meshes share their vertices and weights, and each fan triangle of one is the other's reversed |
| Cap.OrientationSamples | UMADismemberment/Assets/Dismemberment2/Scripts/UmaDismemberment.cs:681-692 | the three vertices sampled for the cap plane are ordered and lie within the cap |
| Cut.WriteBack | UMADismemberment/Assets/Dismemberment2/Scripts/UmaDismemberment2.cs:192-225 | both meshes get one triangle list per original submesh, each a whole triangle list |
| Cut.WriteBackAsWritten | UMADismemberment/Assets/Dismemberment2/Scripts/UmaDismemberment.cs:491-496 | writing back only the submeshes with inner triangles still gives both meshes the original submesh count |
| Cut.WriteBackPartitions | UMADismemberment/Assets/Dismemberment/Scripts/UmaDismemberment.cs:255-288 | each original submesh is split as a multiset between the two meshes; the fragment's part is exactly the triangles with an inner corner |
| Cut.WriteBackInRange | UMADismemberment/Assets/Dismemberment2/Scripts/UmaDismemberment2.cs:223-224 | both written-back meshes address only existing vertices |
| Cut.CutEdgesShape | UMADismemberment/Assets/Dismemberment2/Scripts/UmaDismemberment.cs:456-489 | the mesh-wide boundary `CutEdges` has even length and holds only in-range outer vertices. It is non-empty only when `CutsAnything` (the code's `anyTrianglesSet`) holds |
| Cut.NothingCutKeepsMesh | UMADismemberment/Assets/Dismemberment2/Scripts/UmaDismemberment.cs:491-503 | when no submesh has an inner triangle, the character keeps every submesh and the fragment gets none |
| Cut.NoInnerVertexCutsNothing | UMADismemberment/Assets/Dismemberment2/Scripts/UmaDismemberment.cs:471-489 | with no inner vertex there is no inner triangle and no boundary |
| Cut.AsWrittenDuplicatesUncutSubmeshes | UMADismemberment/Assets/Dismemberment2/Scripts/UmaDismemberment.cs:491-496 | as written, a submesh with no inner triangle stays whole in the fragment's copy as well as on the character; otherwise it agrees with the corrected write-back |
| Cut.AsWrittenDuplicateExample | UMADismemberment/Assets/Dismemberment2/Scripts/UmaDismemberment.cs:325-330 | a concrete two-submesh mesh whose second triangle ends up in both meshes as written, and in the character only after correction |
| Ownership.UpdateOwners | UMADismemberment/Assets/Dismemberment2/Scripts/UmaDismemberment.cs:512-528 | keys that partly overlap the cut's mask are removed and their caps moved; all other keys keep their caps. The cut's mask is added with the new cap iff it was absent; otherwise the insert faults |
| Ownership.NoPartialOverlapRemains | UMADismemberment/Assets/Dismemberment2/Scripts/UmaDismemberment.cs:512-528 | afterwards every key is disjoint from the cut's mask or contains it |
| Ownership.NestedCutTakesCap | UMADismemberment/Assets/Dismemberment2/Scripts/UmaDismemberment.cs:512-528 | example: cutting at the elbow (mask 3) after the wrist (mask 1) moves the wrist cap to the fragment and registers the elbow cap |
| Ownership.EnclosingKeyIsKept | UMADismemberment/Assets/Dismemberment2/Scripts/UmaDismemberment.cs:515-516 | for every table and mask, a registered key holding every bit of the new mask keeps its entry and cap id. When no other key registers the same cap, that cap is not moved |
| Ownership.RepeatedMaskFaults | UMADismemberment/Assets/Dismemberment2/Scripts/UmaDismemberment.cs:528 | inserting an already-registered mask faults and leaves that entry as it was |
| HierarchyAsset.Serialize | UMADismemberment/Assets/Dismemberment2/Scripts/DismembermentHierarchyAsset.cs:27-37 | the two lists are parallel, name exactly the dictionary's keys, and pair each name with its mask |
| HierarchyAsset.Insert | UMADismemberment/Assets/Dismemberment2/Scripts/DismembermentHierarchyAsset.cs:43-49 | inserting the first n pairs succeeds iff those names are distinct, and then holds exactly those pairs. Otherwise it faults at the first repeated name, keeping the pairs before it |
| HierarchyAsset.Deserialize | UMADismemberment/Assets/Dismemberment2/Scripts/DismembermentHierarchyAsset.cs:39-50 | loading inserts the first min(names, masks) pairs; it succeeds iff those names are distinct |
| HierarchyAsset.RoundTrip | UMADismemberment/Assets/Dismemberment2/Scripts/DismembermentHierarchyAsset.cs:27-50 | loading what was saved gives back the same dictionary, whatever the enumeration order |
| HierarchyAsset.InsertReadsPrefix | UMADismemberment/Assets/Dismemberment2/Scripts/DismembermentHierarchyAsset.cs:43-49 | the dictionary built from n pairs depends only on the first n names and masks |
| HierarchyAsset.SurplusIgnored | UMADismemberment/Assets/Dismemberment2/Scripts/DismembermentHierarchyAsset.cs:43 | entries past the end of the shorter list are ignored |
| HierarchyAsset.RepeatedNameExample | UMADismemberment/Assets/Dismemberment2/Scripts/DismembermentHierarchyAsset.cs:47 | example: names [5, 7, 5] fault at position 2, keeping 5 and 7 |
| Scene.AllPresent | UMADismemberment/Assets/Dismemberment2/Scripts/UmaDismemberment.cs:536 | the outer cap gets the renderer's own bones, every slot present |
| Scene.ContainsBone | UMADismemberment/Assets/Dismemberment/Scripts/UmaDismemberment.cs:408-416 | gives -1 iff no sliceable entry names the bone; otherwise the position of the first entry that does |
| Scene.ThresholdClassification | UMADismemberment/Assets/Dismemberment/Scripts/UmaDismemberment.cs:249-253 | one flag per vertex, set iff the vertex's weight on the cut bone's subtree exceeds the threshold |
| Scene.MaskClassification | UMADismemberment/Assets/Dismemberment2/Scripts/UmaDismemberment2.cs:157-172 | one flag per vertex, set iff its mask in the chosen channel shares a bit with the cut's mask |
| Scene.GrowMaterials | UMADismemberment/Assets/Dismemberment/Scripts/UmaDismemberment.cs:294-299 | the new material array is the old one followed by the slice-fill material |
| Scene.Carve | UMADismemberment/Assets/Dismemberment2/Scripts/UmaDismemberment2.cs:173-225 | both meshes differ from the original only in their submeshes, keep its submesh count, and stay well formed. The boundary consists of whole edges between outer vertices. The clone has fresh consecutive ids after the fragment's root, and the target is the clone of the cut bone's last occurrence in the tree, or null when the bone is not in it |
| Scene.CarvePartitions | UMADismemberment/Assets/Dismemberment2/Scripts/UmaDismemberment2.cs:192-225 | each original submesh is partitioned between the two meshes by the inner-corner rule |
| Scene.CarveAsWritten | UMADismemberment/Assets/Dismemberment2/Scripts/UmaDismemberment.cs:435-497 | as written, the character's mesh is the same as after `Carve`. The fragment's copy of a submesh is `Carve`'s when that is non-empty; otherwise it is the original submesh, which the character also keeps whole |
| Scene.CarveAsWrittenSplits | UMADismemberment/Assets/Dismemberment2/Scripts/UmaDismemberment.cs:456-497 | as written, a submesh none of whose triangles has an inner corner stays whole in both meshes; any other submesh is partitioned, the fragment getting exactly the triangles with an inner corner |
| ThresholdEngine.SliceInternal | UMADismemberment/Assets/Dismemberment/Scripts/UmaDismemberment.cs:213-313 | a null bone changes nothing. Otherwise the cut always completes: the bone is recorded as split, the info names the new root and the clone of the bone's last occurrence in the tree, and both renderers share the grown materials. One fragment is appended, and nothing else of the character changes |
| ThresholdEngine.SliceHuman | UMADismemberment/Assets/Dismemberment/Scripts/UmaDismemberment.cs:162-188 | a cut happens iff the guards hold (the `Admitted` predicate): the rig is humanoid, the bone resolves, the bone is sliceable (when the list is in use), and it is not yet split (when the switch asks). Otherwise nothing changes |
| ThresholdEngine.SliceHumanChecked | UMADismemberment/Assets/Dismemberment/Scripts/UmaDismemberment.cs:130-153 | a completed cut had a humanoid rig and a resolved bone not cut before |
| ThresholdEngine.SliceBone | UMADismemberment/Assets/Dismemberment/Scripts/UmaDismemberment.cs:195-199 | the transform overload cuts iff the bone is not null |
| ThresholdEngine.SliceBoneWithThreshold | UMADismemberment/Assets/Dismemberment/Scripts/UmaDismemberment.cs:207-211 | the transform overload with a threshold cuts iff the bone is not null |
| ThresholdEngine.CheckedOverloadSetsSwitch | UMADismemberment/Assets/Dismemberment/Scripts/UmaDismemberment.cs:130-188 | the overload without the switch behaves as the overload with the switch set |
| ThresholdEngine.ThresholdSelection | UMADismemberment/Assets/Dismemberment/Scripts/UmaDismemberment.cs:184-187 | the threshold a human-bone cut uses (`ChosenThreshold`, found with `ContainsBone`) is the global one when the list is off or the caller asks for it, and otherwise that of the first entry for the bone |
| ThresholdEngine.RepeatedSliceIsNoOp | UMADismemberment/Assets/Dismemberment/Scripts/UmaDismemberment.cs:178-182 | with the switch set, asking again for a bone just cut changes nothing |
| ThresholdEngine.TransformSliceIgnoresHistory | UMADismemberment/Assets/Dismemberment/Scripts/UmaDismemberment.cs:195-211 | the transform overloads cut a bone already cut again |
| ThresholdEngine.SlicePartitions | UMADismemberment/Assets/Dismemberment/Scripts/UmaDismemberment.cs:255-288 | a cut partitions every original submesh between character and fragment by the threshold classification |
| ThresholdEngine.SliceCaps | UMADismemberment/Assets/Dismemberment/Scripts/UmaDismemberment.cs:290-291 | with a boundary, each mesh gains exactly the fan over it: outward on the character, inward on the fragment. Without one, neither mesh gains a submesh |
| MaskEngine.SliceInternal | UMADismemberment/Assets/Dismemberment2/Scripts/UmaDismemberment2.cs:125-258 | a null bone changes nothing, and a short mask channel faults before any change. Otherwise the cut completes: the bone is recorded as split, the info names the new root and the clone of the bone, one fragment is appended sharing the character's materials, and nothing else changes |
| MaskEngine.Slice | UMADismemberment/Assets/Dismemberment2/Scripts/UmaDismemberment2.cs:98-123 | a request failing any guard (the `Admitted` predicate: asset, humanoid rig, sliceable, not split, mask known) changes nothing. An admitted one faults iff the channel is short, and never skips |
| MaskEngine.SlicePartitions | UMADismemberment/Assets/Dismemberment2/Scripts/UmaDismemberment2.cs:192-225 | a cut partitions every original submesh by the mask classification |
| MaskEngine.SliceCapsFollowBoundary | UMADismemberment/Assets/Dismemberment2/Scripts/UmaDismemberment2.cs:227-244 | with a boundary, both meshes gain the fan and the materials grow. Without one, both meshes keep their submesh count and the materials are unchanged |
| MaskEngine.EmptyMaskStillMarksSplit | UMADismemberment/Assets/Dismemberment2/Scripts/UmaDismemberment2.cs:246 | an empty mask still completes the cut and records the bone as split, leaving the character's mesh whole and an empty fragment |
| MaskEngine.RepeatedSliceIsNoOp | UMADismemberment/Assets/Dismemberment2/Scripts/UmaDismemberment2.cs:115-116 | asking again for a bone just cut changes nothing |
| HybridEngine.Reparent | UMADismemberment/Assets/Dismemberment2/Scripts/UmaDismemberment.cs:513-522 | moved caps hang under the fragment with its bones; the other caps are untouched |
| HybridEngine.CapPair | UMADismemberment/Assets/Dismemberment2/Scripts/UmaDismemberment.cs:505-540 | the inner cap hangs under the fragment with its bones, and the outer cap under the renderer with the renderer's bones. Each has a mesh iff the boundary has 2 or more entries |
| HybridEngine.SliceInternal | UMADismemberment/Assets/Dismemberment2/Scripts/UmaDismemberment.cs:396-556 | under either write-back rule: a null bone or a cut that selects nothing changes nothing (the latter is refused), and a short channel faults before any change. A cut at a bone completes exactly when `Completes` holds (channel long enough, something cut, mask not yet registered). A completed cut records the bone as split, names the new root and the clone of the bone, and keeps the materials. It adds one fragment and two caps, and registers the outer cap under a mask that was not registered before |
| HybridEngine.SliceInternalLegacy | UMADismemberment/Assets/Dismemberment2/Scripts/UmaDismemberment.cs:246-393 | under either write-back rule the legacy cut never faults and leaves the ownership table alone. It either changes nothing or adds one fragment and two caps, keeping the earlier caps |
| HybridEngine.Slice | UMADismemberment/Assets/Dismemberment2/Scripts/UmaDismemberment.cs:193-220 | a request failing a guard (the `Admitted` predicate) changes nothing; an admitted one is the bitmask cut with the bone's mask |
| HybridEngine.SliceBone | UMADismemberment/Assets/Dismemberment2/Scripts/UmaDismemberment.cs:232-244 | `useLegacy` selects the legacy cut with the given threshold, which never faults and leaves the ownership table alone; otherwise it is the bitmask cut with the given mask and channel |
| HybridEngine.EmptyCutIsRefused | UMADismemberment/Assets/Dismemberment2/Scripts/UmaDismemberment.cs:499-503 | a mask that marks no vertex changes nothing |
| HybridEngine.SlicePartitions | UMADismemberment/Assets/Dismemberment2/Scripts/UmaDismemberment.cs:456-497 | with the write-back corrected to cover every submesh (`EveryMesh`), a completed cut partitions every original submesh by the mask classification |
| HybridEngine.AsWrittenKeepsUntouched | UMADismemberment/Assets/Dismemberment2/Scripts/UmaDismemberment.cs:456-497 | as written (`AsWritten`), a completed cut leaves a submesh none of whose triangles has an inner corner whole on both the character and the fragment. Any other submesh is partitioned by the mask classification |
| HybridEngine.OwnershipAfterCut | UMADismemberment/Assets/Dismemberment2/Scripts/UmaDismemberment.cs:512-540 | afterwards no key partly overlaps the mask, and the new outer cap is registered under it. Every cap registered under a partly overlapping key now hangs under the fragment with the fragment's bones |
| HybridEngine.RegisteredMaskFaults | UMADismemberment/Assets/Dismemberment2/Scripts/UmaDismemberment.cs:505-528 | a registered mask faults after the mesh is cut: the fragment is made, the bone is not recorded as split, and the old entry stays |
| HybridEngine.CapsMirrorEachOther | UMADismemberment/Assets/Dismemberment2/Scripts/UmaDismemberment.cs:533-534 | the two caps of a cut share vertices and weights, and their fan triangles have opposite windings |
| HybridEngine.RepeatedSliceIsNoOp | UMADismemberment/Assets/Dismemberment2/Scripts/UmaDismemberment.cs:212-213 | asking again for a bone just cut changes nothing |
| HybridEngine.LegacyPartitions | UMADismemberment/Assets/Dismemberment2/Scripts/UmaDismemberment.cs:289-331 | with the write-back corrected to cover every submesh (`EveryMesh`), a legacy cut that sends some triangle to the fragment (the case in which it completes) partitions every original submesh by the threshold classification |
| HybridEngine.LegacyAsWrittenKeepsUntouched | UMADismemberment/Assets/Dismemberment2/Scripts/UmaDismemberment.cs:289-331 | as written (`AsWritten`), a completing legacy cut leaves a submesh none of whose triangles has an inner corner whole in both meshes. Any other submesh is partitioned by the threshold classification |

## Left out

- Unity object plumbing is not modelled: creating, naming, parenting and destroying GameObjects; `Instantiate` (a copy of the mesh value); component lookups; debug logging; and the dismembered event. The only trace left is the ids a cut consumes, which are passed in as `firstId`.
- The root object created and destroyed by a refused hybrid cut is not modelled. The ids it consumed are not tracked.
- The animator lookup (`ValidateHumanBone`) is a `Resolution` parameter: not humanoid, or a possibly-null transform.
- Floating-point geometry is not modelled: vertex positions, cap UVs, normals, `RecalculateNormals`, and the `CapOrientation` rotation. For the cap plane, only the choice of the three sampled vertices (`Cap.OrientationSamples`) is modelled.
- Classify.IsPartOf: weights are summed exactly as reals, not in single precision, so rounding near the threshold is not modelled.
- Classify.ClassifyByMask: the mask channel holds 32-bit masks directly. The float-to-int cast of the UV's x coordinate that produces them is not modelled.
- Bind poses and the material instance made from the slice-fill material are not modelled. The slice-fill material is a plain value.
- The hybrid engine gives each cap object a one-slot material array; the model does not track cap materials.
- The legacy cut's name-keyed cap table is not modelled: moving caps found under the cut bone's subtree, and the exception thrown when a bone name is registered twice. HybridEngine.SliceInternalLegacy therefore never faults.
- HybridEngine.RegisteredMaskFaults: the two cap objects created before the faulting insert are not part of the state it describes.
- Static scratch buffers and profiler calls are not modelled; they carry no state between cuts.
- Only the first skinned renderer is modelled, with every transform under "Root" active.
- The editor and demo scripts (UV slot painter, GUI buttons, example callback) and the asset's editor tooling are not part of this model.
- Scene.Ready: every engine operation requires a well-formed mesh. There must be one weight record per vertex, every triangle index must address a vertex, and every influence must address a slot of the renderer's bones array. On other meshes the code throws an index exception partway through a cut, for example in `IsPartOf` or when reading a triangle corner's classification. The model does not describe that partial state. The mask engine never reads bone weights but is given the same precondition.
- HybridEngine.SlicePartitions: the partition is stated for the corrected write-back (`EveryMesh`) only. The code's write-back keeps untouched submeshes in both meshes, as HybridEngine.AsWrittenKeepsUntouched states.
- HybridEngine.LegacyPartitions: likewise stated for `EveryMesh` only. HybridEngine.LegacyAsWrittenKeepsUntouched states the code's behaviour.
- HierarchyAsset.Serialize: the dictionary's enumeration order is a parameter. Any order that lists every key once is allowed.
- HierarchyAsset.Deserialize: the exception thrown on a repeated name is the `duplicateAt` result, not a precondition.

## Findings

| source | as written | input that shows it | evidently intended | confidence | as-written member | corrected member |
|---|---|---|---|---|---|---|
| UMADismemberment/Assets/Dismemberment2/Scripts/UmaDismemberment.cs:491-496 | the bitmask cut writes a submesh's buckets back only when it received an inner triangle, so the fragment's copy keeps any other submesh whole | inner flags [true, false, false, false], submeshes [[0,1,2],[1,2,3]]: triangle (1,2,3) stays on the character and also stays in the fragment's copy | every submesh is written back, as in the other two engines, so the fragment's copy of an untouched submesh is empty and each triangle ends up in exactly one mesh | medium, not executed | Cut.WriteBackAsWritten, Cut.AsWrittenDuplicateExample, Cut.AsWrittenDuplicatesUncutSubmeshes, HybridEngine.AsWrittenKeepsUntouched | Cut.WriteBack, Cut.WriteBackPartitions, HybridEngine.SlicePartitions |
| UMADismemberment/Assets/Dismemberment2/Scripts/UmaDismemberment.cs:325-330 | the legacy threshold cut uses the same conditional write-back | the same inner flags and submeshes, with the flags coming from bone weights | every submesh is written back | medium, not executed | Cut.WriteBackAsWritten, Cut.AsWrittenDuplicateExample, HybridEngine.LegacyAsWrittenKeepsUntouched | Cut.WriteBack, HybridEngine.LegacyPartitions |
