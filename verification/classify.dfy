/** Per-vertex classification: a vertex is "inner" (goes with the detached
    fragment) either because enough of its skin weight rides on bones under
    the cut bone (threshold mode) or because its authored mask shares a bit
    with the cut's bit mask (mask mode). */
module Classify {
  import opened Base
  import opened MeshData

  // ---------------------------------------------------------------------
  // Threshold mode
  // ---------------------------------------------------------------------

  /** Whether slot `index` of the bone mask is marked. */
  predicate Marked(boneMask: seq<bool>, index: int) {
    0 <= index < |boneMask| && boneMask[index]
  }

  /** Total weight of the influences whose bone slot is marked. */
  function MaskedWeight(infl: seq<Influence>, boneMask: seq<bool>): real
  {
    if |infl| == 0 then 0.0
    else
      (if Marked(boneMask, infl[0].boneIndex) then infl[0].weight else 0.0)
        + MaskedWeight(infl[1..], boneMask)
  }

  /** The masked weight of a record, influence by influence. */
  lemma MaskedWeightOfRecord(b: BoneWeight, boneMask: seq<bool>)
    ensures MaskedWeight(b.Influences(), boneMask) ==
      (if Marked(boneMask, b.i0.boneIndex) then b.i0.weight else 0.0)
      + ((if Marked(boneMask, b.i1.boneIndex) then b.i1.weight else 0.0)
      + ((if Marked(boneMask, b.i2.boneIndex) then b.i2.weight else 0.0)
      + (if Marked(boneMask, b.i3.boneIndex) then b.i3.weight else 0.0)))
  {
    var s := b.Influences();
    assert s[1..] == [b.i1, b.i2, b.i3];
    assert s[1..][1..] == [b.i2, b.i3];
    assert s[1..][1..][1..] == [b.i3];
    assert MaskedWeight([b.i3], boneMask) == (if Marked(boneMask, b.i3.boneIndex) then b.i3.weight else 0.0) + MaskedWeight([], boneMask);
    assert MaskedWeight([b.i2, b.i3], boneMask) == (if Marked(boneMask, b.i2.boneIndex) then b.i2.weight else 0.0) + MaskedWeight([b.i3], boneMask);
    assert MaskedWeight([b.i1, b.i2, b.i3], boneMask) == (if Marked(boneMask, b.i1.boneIndex) then b.i1.weight else 0.0) + MaskedWeight([b.i2, b.i3], boneMask);
  }

  /** Accumulate the weights of the four influences whose bone is marked and
      compare strictly with the threshold. */
  function IsPartOf(b: BoneWeight, boneMask: seq<bool>, threshold: real): (inner: bool)
    requires b.IndexesBones(|boneMask|)
    ensures inner <==> MaskedWeight(b.Influences(), boneMask) > threshold
  {
    var w0 := 0.0;
    var w1 := if boneMask[b.i0.boneIndex] then w0 + b.i0.weight else w0;
    var w2 := if boneMask[b.i1.boneIndex] then w1 + b.i1.weight else w1;
    var w3 := if boneMask[b.i2.boneIndex] then w2 + b.i2.weight else w2;
    var w4 := if boneMask[b.i3.boneIndex] then w3 + b.i3.weight else w3;
    MaskedWeightOfRecord(b, boneMask);
    w4 > threshold
  }

  /** The classification of every vertex of a mesh, in vertex order. */
  function ThresholdInner(weights: seq<BoneWeight>, boneMask: seq<bool>, threshold: real): (inner: seq<bool>)
    requires forall v :: 0 <= v < |weights| ==> weights[v].IndexesBones(|boneMask|)
    ensures |inner| == |weights|
    ensures forall v :: 0 <= v < |weights| ==>
      (inner[v] <==> MaskedWeight(weights[v].Influences(), boneMask) > threshold)
  {
    seq(|weights|, v requires 0 <= v < |weights| => IsPartOf(weights[v], boneMask, threshold))
  }

  /** A weight exactly at the threshold is not enough: the comparison is strict. */
  lemma WeightAtThresholdIsOuter(b: BoneWeight, boneMask: seq<bool>, threshold: real)
    requires b.IndexesBones(|boneMask|)
    requires MaskedWeight(b.Influences(), boneMask) == threshold
    ensures !IsPartOf(b, boneMask, threshold)
  {
  }

  /** With non-negative weights, marking more bones never turns an inner
      vertex outer. */
  lemma {:induction false} MaskedWeightMonotone(infl: seq<Influence>, small: seq<bool>, large: seq<bool>)
    requires |small| == |large|
    requires forall k :: 0 <= k < |infl| ==> infl[k].weight >= 0.0
    requires forall j :: 0 <= j < |small| ==> small[j] ==> large[j]
    ensures MaskedWeight(infl, small) <= MaskedWeight(infl, large)
  {
    if |infl| > 0 {
      MaskedWeightMonotone(infl[1..], small, large);
    }
  }

  lemma IsPartOfMonotone(b: BoneWeight, small: seq<bool>, large: seq<bool>, threshold: real)
    requires |small| == |large| && b.IndexesBones(|small|)
    requires forall k :: 0 <= k < 4 ==> b.Influences()[k].weight >= 0.0
    requires forall j :: 0 <= j < |small| ==> small[j] ==> large[j]
    ensures IsPartOf(b, small, threshold) ==> IsPartOf(b, large, threshold)
  {
    MaskedWeightMonotone(b.Influences(), small, large);
  }

  // ---------------------------------------------------------------------
  // Mask mode
  // ---------------------------------------------------------------------

  /** A vertex whose mask shares a bit with the cut's bit mask is inner. */
  predicate MaskHits(vertexMask: bv32, bitMask: bv32) {
    vertexMask & bitMask != 0
  }

  /** Classify the first `vertexCount` vertices by their mask. A channel
      shorter than the vertex count faults on the first missing entry, before
      anything is changed; that is the `None` result. */
  function ClassifyByMask(masks: seq<bv32>, vertexCount: nat, bitMask: bv32): (r: Option<seq<bool>>)
    ensures r.None? <==> |masks| < vertexCount
    ensures r.Some? ==> |r.value| == vertexCount
  {
    if |masks| < vertexCount then None
    else Some(seq(vertexCount, v requires 0 <= v < vertexCount => MaskHits(masks[v], bitMask)))
  }

  /** An empty bit mask selects no vertex. */
  lemma EmptyBitMaskSelectsNothing(masks: seq<bv32>, vertexCount: nat)
    requires |masks| >= vertexCount
    ensures forall v :: 0 <= v < vertexCount ==> !ClassifyByMask(masks, vertexCount, 0).value[v]
  {
  }

  /** Cutting with the union of two bit masks selects exactly the vertices
      either mask selects on its own. */
  lemma BitMaskUnion(masks: seq<bv32>, vertexCount: nat, a: bv32, b: bv32, v: nat)
    requires |masks| >= vertexCount && v < vertexCount
    ensures ClassifyByMask(masks, vertexCount, a | b).value[v]
        <==> ClassifyByMask(masks, vertexCount, a).value[v] || ClassifyByMask(masks, vertexCount, b).value[v]
  {
    MaskHitsUnion(masks[v], a, b);
  }

  lemma MaskHitsUnion(m: bv32, a: bv32, b: bv32)
    ensures MaskHits(m, a | b) <==> MaskHits(m, a) || MaskHits(m, b)
  {
    assert m & (a | b) == (m & a) | (m & b);
  }

  /** The two mask-mode examples: bits {0, 2} against {1, 2} meet; {0} against {1} do not. */
  lemma MaskExamples()
    ensures MaskHits(0x5, 0x6)
    ensures !MaskHits(0x1, 0x2)
  {
  }
}
