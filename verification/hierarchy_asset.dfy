/** The hierarchy asset: a dictionary from human bone to cut bit mask, stored
    on disk as two parallel lists (bone names and masks). Saving flattens the
    dictionary in its enumeration order; loading inserts the pairs one by one
    into a fresh dictionary, which throws on a repeated name. */
module HierarchyAsset {
  import opened Base

  /** A human bone, identified by its enumeration value. */
  type HumanBone = int

  /** The serialized form. */
  datatype Lists = Lists(maskNames: seq<HumanBone>, bitMasks: seq<bv32>)

  /** `order` is an enumeration order of `d`: every key exactly once. */
  ghost predicate EnumerationOrder(d: map<HumanBone, bv32>, order: seq<HumanBone>) {
    && NoDuplicates(order)
    && (forall i :: 0 <= i < |order| ==> order[i] in d)
    && (forall k :: k in d ==> k in order)
  }

  /** Clear both lists and write one (name, mask) pair per entry. */
  function Serialize(d: map<HumanBone, bv32>, order: seq<HumanBone>): (r: Lists)
    requires EnumerationOrder(d, order)
    ensures |r.maskNames| == |order| && |r.bitMasks| == |order|
    ensures forall k :: k in d <==> k in r.maskNames
    ensures forall i :: 0 <= i < |order| ==> r.maskNames[i] in d && d[r.maskNames[i]] == r.bitMasks[i]
  {
    Lists(order, seq(|order|, i requires 0 <= i < |order| => d[order[i]]))
  }

  /** The dictionary rebuilt by loading, and the position of the repeated
      name at which the insert threw, if any (the entries inserted before it
      remain). */
  datatype Rebuilt = Rebuilt(sliceMasks: map<HumanBone, bv32>, duplicateAt: Option<nat>)

  /** Holds exactly the pairs names[i] -> masks[i] for i < n. */
  ghost predicate HoldsPairs(m: map<HumanBone, bv32>, names: seq<HumanBone>, masks: seq<bv32>, n: nat)
    requires n <= |names| && n <= |masks|
  {
    && (forall k :: k in m ==> exists i :: 0 <= i < n && names[i] == k)
    && (forall i :: 0 <= i < n ==> names[i] in m && m[names[i]] == masks[i])
  }

  /** Insert the first `n` pairs in order into a fresh dictionary. */
  function Insert(names: seq<HumanBone>, masks: seq<bv32>, n: nat): (r: Rebuilt)
    requires n <= |names| && n <= |masks|
    ensures r.duplicateAt.None? <==> NoDuplicates(names[..n])
    ensures r.duplicateAt.None? ==> HoldsPairs(r.sliceMasks, names, masks, n)
    ensures r.duplicateAt.Some? ==>
      var d := r.duplicateAt.value;
      && d < n && NoDuplicates(names[..d]) && names[d] in names[..d]
      && HoldsPairs(r.sliceMasks, names, masks, d)
  {
    if n == 0 then Rebuilt(map[], None)
    else
      var p := Insert(names, masks, n - 1);
      assert names[..n] == names[..n - 1] + [names[n - 1]];
      if p.duplicateAt.Some? then
        DuplicatesExtend(names, n - 1);
        p
      else if names[n - 1] in p.sliceMasks then
        RepeatBreaksDistinct(names, masks, p.sliceMasks, n);
        Rebuilt(p.sliceMasks, Some(n - 1))
      else
        Rebuilt(p.sliceMasks[names[n - 1] := masks[n - 1]], None)
  }

  lemma RepeatBreaksDistinct(names: seq<HumanBone>, masks: seq<bv32>, m: map<HumanBone, bv32>, n: nat)
    requires 0 < n <= |names| && n <= |masks|
    requires HoldsPairs(m, names, masks, n - 1) && names[n - 1] in m
    ensures !NoDuplicates(names[..n])
  {
    assert exists i :: 0 <= i < n - 1 && names[i] == names[n - 1] by {
      assert forall k :: k in m ==> exists i :: 0 <= i < n - 1 && names[i] == k;
    }
    var j :| 0 <= j < n - 1 && names[j] == names[n - 1];
    assert names[..n][j] == names[..n][n - 1];
  }

  lemma DuplicatesExtend(names: seq<HumanBone>, n: nat)
    requires n < |names| && !NoDuplicates(names[..n])
    ensures !NoDuplicates(names[..n + 1])
  {
    var i, j :| 0 <= i < j < n && names[..n][i] == names[..n][j];
    assert names[..n + 1][i] == names[..n + 1][j];
  }

  /** Discard the old dictionary and insert the first min(|names|, |masks|)
      pairs. */
  function Deserialize(l: Lists): (r: Rebuilt)
    ensures var n := if |l.maskNames| < |l.bitMasks| then |l.maskNames| else |l.bitMasks|;
      && (r.duplicateAt.None? <==> NoDuplicates(l.maskNames[..n]))
      && (r.duplicateAt.None? ==> HoldsPairs(r.sliceMasks, l.maskNames, l.bitMasks, n))
  {
    var n := if |l.maskNames| < |l.bitMasks| then |l.maskNames| else |l.bitMasks|;
    Insert(l.maskNames, l.bitMasks, n)
  }

  /** Loading what was just saved restores the dictionary, whatever the
      enumeration order. */
  lemma RoundTrip(d: map<HumanBone, bv32>, order: seq<HumanBone>)
    requires EnumerationOrder(d, order)
    ensures Deserialize(Serialize(d, order)) == Rebuilt(d, None)
  {
    var l := Serialize(d, order);
    assert l.maskNames[..|order|] == order;
    var r := Deserialize(l);
    forall k | k in d ensures k in r.sliceMasks && r.sliceMasks[k] == d[k] {
      var i :| 0 <= i < |order| && order[i] == k;
    }
    forall k | k in r.sliceMasks ensures k in d {
      assert forall k' :: k' in r.sliceMasks ==> exists i :: 0 <= i < |order| && order[i] == k';
      var i :| 0 <= i < |order| && order[i] == k;
    }
    assert r.sliceMasks.Keys == d.Keys;
  }

  /** The dictionary built from the first `n` pairs depends on nothing else. */
  lemma {:induction false} InsertReadsPrefix(names: seq<HumanBone>, masks: seq<bv32>,
                                             names': seq<HumanBone>, masks': seq<bv32>, n: nat)
    requires n <= |names| && n <= |masks| && n <= |names'| && n <= |masks'|
    requires names[..n] == names'[..n] && masks[..n] == masks'[..n]
    ensures Insert(names, masks, n) == Insert(names', masks', n)
  {
    if n > 0 {
      assert names[..n - 1] == names'[..n - 1] && masks[..n - 1] == masks'[..n - 1] by {
        assert names[..n - 1] == names[..n][..n - 1];
        assert names'[..n - 1] == names'[..n][..n - 1];
        assert masks[..n - 1] == masks[..n][..n - 1];
        assert masks'[..n - 1] == masks'[..n][..n - 1];
      }
      assert names[n - 1] == names[..n][n - 1] && masks[n - 1] == masks[..n][n - 1];
      InsertReadsPrefix(names, masks, names', masks', n - 1);
    }
  }

  /** Entries beyond the shorter list are ignored. */
  lemma SurplusIgnored(names: seq<HumanBone>, masks: seq<bv32>, extraNames: seq<HumanBone>, extraMasks: seq<bv32>)
    requires |names| == |masks|
    ensures Deserialize(Lists(names + extraNames, masks)) == Deserialize(Lists(names, masks))
    ensures Deserialize(Lists(names, masks + extraMasks)) == Deserialize(Lists(names, masks))
  {
    var n := |names|;
    assert (names + extraNames)[..n] == names[..n];
    assert (masks + extraMasks)[..n] == masks[..n];
    InsertReadsPrefix(names + extraNames, masks, names, masks, n);
    InsertReadsPrefix(names, masks + extraMasks, names, masks, n);
  }

  /** A repeated name faults at its second occurrence, keeping the entries
      inserted before it. */
  lemma RepeatedNameExample()
    ensures Deserialize(Lists([5, 7, 5], [1, 2, 4])) == Rebuilt(map[5 := 1, 7 := 2], Some(2))
  {
    var names, masks := [5, 7, 5], [1 as bv32, 2, 4];
    var r0 := Insert(names, masks, 0);
    var r1 := Insert(names, masks, 1);
    var r2 := Insert(names, masks, 2);
    assert r1 == Rebuilt(map[5 := 1], None);
    assert 7 !in r1.sliceMasks;
    assert r2 == Rebuilt(map[5 := 1, 7 := 2], None);
  }
}
