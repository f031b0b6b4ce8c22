/** The cap-ownership table of the combined engine: the outer cap of every
    mask cut is registered under the cut's bit mask. A later cut whose mask
    partly overlaps a registered key takes that cap with its fragment (the
    cap is reparented and its key removed); then the new cut's own outer cap
    is registered. */
module Ownership {

  /** A registered cut mask, used as a table key. */
  datatype Key = Key(bits: bv32)

  /** The key shares some, but not all, of the cut's bits. */
  predicate PartialOverlap(key: Key, bitMask: bv32) {
    key.bits & bitMask != 0 && key.bits & bitMask != bitMask
  }

  /** The table after one cut: the remaining keys, the caps taken by the
      fragment, and whether the new key could be added (adding a key that is
      already present throws, after the removals have happened). */
  datatype Update = Update(owners: map<Key, int>, moved: set<int>, added: bool)

  function UpdateOwners(owners: map<Key, int>, bitMask: bv32, capId: int): (r: Update)
    ensures r.added <==> Key(bitMask) !in owners
    ensures forall k :: k in owners && PartialOverlap(k, bitMask) ==> k !in r.owners && owners[k] in r.moved
    ensures forall c :: c in r.moved ==> exists k :: k in owners && PartialOverlap(k, bitMask) && owners[k] == c
    ensures forall k :: k in owners && !PartialOverlap(k, bitMask) ==> k in r.owners && r.owners[k] == owners[k]
    ensures forall k :: k in r.owners ==> k in owners || (k == Key(bitMask) && r.added)
    ensures r.added ==> Key(bitMask) in r.owners && r.owners[Key(bitMask)] == capId
  {
    var kept := map k | k in owners && !PartialOverlap(k, bitMask) :: owners[k];
    var moved := set k | k in owners && PartialOverlap(k, bitMask) :: owners[k];
    if Key(bitMask) in owners then Update(kept, moved, false)
    else Update(kept[Key(bitMask) := capId], moved, true)
  }

  /** After a cut no remaining key partly overlaps the cut's mask: every key
      is either disjoint from it or holds all of its bits. */
  lemma NoPartialOverlapRemains(owners: map<Key, int>, bitMask: bv32, capId: int)
    ensures forall k :: k in UpdateOwners(owners, bitMask, capId).owners ==>
      k.bits & bitMask == 0 || k.bits & bitMask == bitMask
  {
    var r := UpdateOwners(owners, bitMask, capId);
    forall k | k in r.owners ensures k.bits & bitMask == 0 || k.bits & bitMask == bitMask {
      if k == Key(bitMask) {
        SelfOverlap(bitMask);
      } else {
        assert k in owners;
        assert !PartialOverlap(k, bitMask);
      }
    }
  }

  /** The usual nesting: cutting the hand (bit 0) and then the forearm with
      the hand (bits 0 and 1) hands the wrist cap over to the forearm's
      fragment and leaves only the elbow cap registered. */
  lemma NestedCutTakesCap(wristCap: int, elbowCap: int)
    ensures var r := UpdateOwners(map[Key(1) := wristCap], 3, elbowCap);
      r.added && r.moved == {wristCap} && r.owners == map[Key(3) := elbowCap]
  {
    var r := UpdateOwners(map[Key(1) := wristCap], 3, elbowCap);
    assert PartialOverlap(Key(1), 3) by {
      assert (1 as bv32) & 3 == 1;
    }
    assert r.owners.Keys == {Key(3)};
  }

  /** A registered key that already holds every bit of the new cut keeps
      its entry, and its cap stays where it is unless a partly overlapping
      key registers the same cap. */
  lemma EnclosingKeyIsKept(owners: map<Key, int>, bitMask: bv32, capId: int, k: Key)
    requires k in owners && k.bits & bitMask == bitMask
    ensures var r := UpdateOwners(owners, bitMask, capId);
      && k in r.owners && r.owners[k] == owners[k]
      && ((forall k' :: k' in owners && k' != k ==> owners[k'] != owners[k]) ==> owners[k] !in r.moved)
  {
    var r := UpdateOwners(owners, bitMask, capId);
    assert !PartialOverlap(k, bitMask);
    if k == Key(bitMask) {
      assert !r.added;
    }
  }

  /** Cutting with a mask that is already registered faults on the insert,
      and the registered cap keeps its key. */
  lemma RepeatedMaskFaults(owners: map<Key, int>, bitMask: bv32, capId: int)
    requires Key(bitMask) in owners
    ensures !UpdateOwners(owners, bitMask, capId).added
    ensures UpdateOwners(owners, bitMask, capId).owners[Key(bitMask)] == owners[Key(bitMask)]
  {
    SelfOverlap(bitMask);
  }

  lemma SelfOverlap(bitMask: bv32)
    ensures bitMask & bitMask == bitMask
  {
  }
}
