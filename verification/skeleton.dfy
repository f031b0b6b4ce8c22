/** The transform hierarchy: the bone mask of a subtree (which slots of the
    renderer's bones array lie under a bone) and the deep copy of the "Root"
    tree that gives the detached fragment its own skeleton. A transform's
    identity is its node id. */
module Skeleton {
  import opened Base

  datatype Quat = Quat(x: real, y: real, z: real, w: real)

  /** A node's local position, rotation and scale, relative to its parent. */
  datatype Pose = Pose(position: Vec3, rotation: Quat, scale: Vec3)

  datatype Node = Node(id: int, pose: Pose, children: seq<Node>)

  /** The ids of a subtree, depth first, parent before children, children in
      order: the order in which a component search over the subtree visits
      the transforms. */
  function Flatten(t: Node): seq<int>
    decreases t
  {
    [t.id] + FlattenAll(t.children)
  }

  function FlattenAll(ts: seq<Node>): seq<int>
    decreases ts
  {
    if |ts| == 0 then [] else Flatten(ts[0]) + FlattenAll(ts[1..])
  }

  /** The tree with every id replaced by 0: what remains is shape and poses. */
  function Erase(t: Node): Node
    decreases t
  {
    Node(0, t.pose, EraseAll(t.children))
  }

  function EraseAll(ts: seq<Node>): seq<Node>
    decreases ts
  {
    if |ts| == 0 then [] else [Erase(ts[0])] + EraseAll(ts[1..])
  }

  // ---------------------------------------------------------------------
  // Bone mask
  // ---------------------------------------------------------------------

  /** Slot i is marked iff `bones[i]` is `bone` or one of its descendants. */
  function BoneMask(bones: seq<int>, bone: Node): (mask: seq<bool>)
    ensures |mask| == |bones|
  {
    var ids := Flatten(bone);
    seq(|bones|, i requires 0 <= i < |bones| => bones[i] in ids)
  }

  /** For every transform under `bone`, mark every slot of the bones array
      that holds it (all duplicate slots, not only the first). */
  method GenerateBoneNumbers(bones: seq<int>, bone: Node) returns (mask: seq<bool>)
    ensures |mask| == |bones|
    ensures forall i :: 0 <= i < |bones| ==> (mask[i] <==> bones[i] in Flatten(bone))
  {
    var ids := Flatten(bone);
    mask := seq(|bones|, i => false);
    var k := 0;
    while k < |ids|
      invariant 0 <= k <= |ids|
      invariant |mask| == |bones|
      invariant forall i :: 0 <= i < |bones| ==> (mask[i] <==> bones[i] in ids[..k])
    {
      assert ids[..k + 1] == ids[..k] + [ids[k]];
      var i := 0;
      while i < |bones|
        invariant 0 <= i <= |bones|
        invariant |mask| == |bones|
        invariant forall j :: 0 <= j < i ==> (mask[j] <==> bones[j] in ids[..k + 1])
        invariant forall j :: i <= j < |bones| ==> (mask[j] <==> bones[j] in ids[..k])
      {
        if bones[i] == ids[k] {
          mask := mask[i := true];
        }
        i := i + 1;
      }
      k := k + 1;
    }
    assert ids[..|ids|] == ids;
  }

  // ---------------------------------------------------------------------
  // Skeleton clone
  // ---------------------------------------------------------------------

  /** The traversal state threaded through the clone: the next fresh id, the
      new bones array filled so far, and the clone of the target if seen. */
  datatype CloneState = CloneState(next: int, newBones: seq<Option<int>>, target: Option<int>)

  /** Fill every still-empty slot whose source is `source` with `clone`;
      slots already filled are never overwritten. */
  function Claim(bones: seq<int>, newBones: seq<Option<int>>, source: int, clone: int): (r: seq<Option<int>>)
    requires |newBones| == |bones|
    ensures |r| == |bones|
  {
    seq(|bones|, i requires 0 <= i < |bones| =>
      if newBones[i].Some? then newBones[i]
      else if bones[i] == source then Some(clone)
      else None)
  }

  /** Clone one node (fresh id, same pose), resolve the bones-array slots
      that hold it, note it if it is the target, then clone its children in
      order. */
  function CloneNode(t: Node, bones: seq<int>, targetId: int, st: CloneState): (r: (Node, CloneState))
    requires |st.newBones| == |bones|
    ensures |r.1.newBones| == |bones|
    decreases t
  {
    var id := st.next;
    var target := if t.id == targetId then Some(id) else st.target;
    var claimed := Claim(bones, st.newBones, t.id, id);
    var (kids, st') := CloneChildren(t.children, bones, targetId, CloneState(id + 1, claimed, target));
    (Node(id, t.pose, kids), st')
  }

  function CloneChildren(ts: seq<Node>, bones: seq<int>, targetId: int, st: CloneState): (r: (seq<Node>, CloneState))
    requires |st.newBones| == |bones|
    ensures |r.1.newBones| == |bones|
    decreases ts
  {
    if |ts| == 0 then ([], st)
    else
      var (c, st1) := CloneNode(ts[0], bones, targetId, st);
      var (cs, st2) := CloneChildren(ts[1..], bones, targetId, st1);
      ([c] + cs, st2)
  }

  /** What a traversal over the ids `ids` (numbered from `st.next`) does to
      the state: each empty slot whose source occurs in `ids` is resolved to
      the clone of its first occurrence; the target, if it occurs, to the
      clone of its last occurrence; everything else is left as it was. */
  ghost predicate Resolved(bones: seq<int>, targetId: int, ids: seq<int>, st: CloneState, st': CloneState)
  {
    && st'.next == st.next + |ids|
    && |st.newBones| == |bones|
    && |st'.newBones| == |bones|
    && (forall i :: 0 <= i < |bones| ==>
          st'.newBones[i] ==
            if st.newBones[i].Some? then st.newBones[i]
            else if bones[i] in ids then Some(st.next + IndexOf(ids, bones[i]))
            else None)
    && st'.target == (if targetId in ids then Some(st.next + LastIndexOf(ids, targetId)) else st.target)
  }

  /** Traversing `a` and then `b` resolves exactly as traversing `a + b`. */
  lemma ResolvedCompose(bones: seq<int>, targetId: int, a: seq<int>, b: seq<int>,
                        st: CloneState, st1: CloneState, st2: CloneState)
    requires Resolved(bones, targetId, a, st, st1) && Resolved(bones, targetId, b, st1, st2)
    ensures Resolved(bones, targetId, a + b, st, st2)
  {
    forall i | 0 <= i < |bones|
      ensures st2.newBones[i] ==
        if st.newBones[i].Some? then st.newBones[i]
        else if bones[i] in a + b then Some(st.next + IndexOf(a + b, bones[i]))
        else None
    {
      if st.newBones[i].None? && bones[i] in a + b {
        IndexOfConcat(a, b, bones[i]);
      }
    }
    if targetId in a + b {
      LastIndexOfConcat(a, b, targetId);
    }
  }

  lemma {:induction false} CloneNodeResolves(t: Node, bones: seq<int>, targetId: int, st: CloneState)
    requires |st.newBones| == |bones|
    ensures Resolved(bones, targetId, Flatten(t), st, CloneNode(t, bones, targetId, st).1)
    decreases t, 1
  {
    var id := st.next;
    var target := if t.id == targetId then Some(id) else st.target;
    var st0 := CloneState(id + 1, Claim(bones, st.newBones, t.id, id), target);
    assert Resolved(bones, targetId, [t.id], st, st0);
    CloneChildrenResolves(t.children, bones, targetId, st0);
    ResolvedCompose(bones, targetId, [t.id], FlattenAll(t.children), st, st0,
      CloneChildren(t.children, bones, targetId, st0).1);
  }

  lemma {:induction false} CloneChildrenResolves(ts: seq<Node>, bones: seq<int>, targetId: int, st: CloneState)
    requires |st.newBones| == |bones|
    ensures Resolved(bones, targetId, FlattenAll(ts), st, CloneChildren(ts, bones, targetId, st).1)
    decreases ts, 1
  {
    if |ts| > 0 {
      CloneNodeResolves(ts[0], bones, targetId, st);
      var st1 := CloneNode(ts[0], bones, targetId, st).1;
      CloneChildrenResolves(ts[1..], bones, targetId, st1);
      ResolvedCompose(bones, targetId, Flatten(ts[0]), FlattenAll(ts[1..]), st, st1,
        CloneChildren(ts[1..], bones, targetId, st1).1);
    }
  }

  /** The clone has the original's shape and poses, and its ids are the
      consecutive fresh ids from `st.next`, in pre-order. */
  lemma {:induction false} CloneNodeShape(t: Node, bones: seq<int>, targetId: int, st: CloneState)
    requires |st.newBones| == |bones|
    ensures var c := CloneNode(t, bones, targetId, st).0;
      Flatten(c) == Range(st.next, |Flatten(t)|) && Erase(c) == Erase(t)
    decreases t, 1
  {
    var id := st.next;
    var target := if t.id == targetId then Some(id) else st.target;
    var st0 := CloneState(id + 1, Claim(bones, st.newBones, t.id, id), target);
    CloneChildrenShape(t.children, bones, targetId, st0);
    var kids := CloneChildren(t.children, bones, targetId, st0).0;
    assert Flatten(Node(id, t.pose, kids)) == [id] + FlattenAll(kids);
    assert Range(id, |Flatten(t)|) == [id] + Range(id + 1, |FlattenAll(t.children)|);
  }

  lemma {:induction false} CloneChildrenShape(ts: seq<Node>, bones: seq<int>, targetId: int, st: CloneState)
    requires |st.newBones| == |bones|
    ensures var cs := CloneChildren(ts, bones, targetId, st).0;
      FlattenAll(cs) == Range(st.next, |FlattenAll(ts)|) && EraseAll(cs) == EraseAll(ts)
    decreases ts, 1
  {
    if |ts| > 0 {
      CloneNodeShape(ts[0], bones, targetId, st);
      CloneNodeResolves(ts[0], bones, targetId, st);
      var (c, st1) := CloneNode(ts[0], bones, targetId, st);
      CloneChildrenShape(ts[1..], bones, targetId, st1);
      var cs := CloneChildren(ts[1..], bones, targetId, st1).0;
      assert ([c] + cs)[1..] == cs;
      var a := |Flatten(ts[0])|;
      var b := |FlattenAll(ts[1..])|;
      assert Range(st.next, a + b) == Range(st.next, a) + Range(st.next + a, b);
    }
  }

  /** The result of cloning the "Root" tree under a new fragment object. */
  datatype CloneResult = CloneResult(skeleton: Node, newBones: seq<Option<int>>, targetBone: Option<int>)

  /** Deep-copy `root`, giving the clones the fresh ids `firstId`, `firstId + 1`, ...
      in pre-order, and build the bones array of the copy: slot i holds the
      clone of `bones[i]`. */
  function CreateBones(root: Node, bones: seq<int>, targetId: int, firstId: int): (r: CloneResult)
    ensures |r.newBones| == |bones|
    ensures Erase(r.skeleton) == Erase(root)
    ensures Flatten(r.skeleton) == Range(firstId, |Flatten(root)|)
    ensures forall i :: 0 <= i < |bones| ==>
      r.newBones[i] == (if bones[i] in Flatten(root) then Some(firstId + IndexOf(Flatten(root), bones[i])) else None)
    ensures r.targetBone == (if targetId in Flatten(root) then Some(firstId + LastIndexOf(Flatten(root), targetId)) else None)
  {
    var st := CloneState(firstId, seq(|bones|, i => None), None);
    CloneNodeResolves(root, bones, targetId, st);
    CloneNodeShape(root, bones, targetId, st);
    var (c, st') := CloneNode(root, bones, targetId, st);
    CloneResult(c, st'.newBones, st'.target)
  }

  /** In a hierarchy (every transform occurs once), every bones-array slot
      that holds the cut bone points at exactly the clone reported as the
      fragment's target bone. */
  lemma CloneTargetMatchesBoneSlots(root: Node, bones: seq<int>, targetId: int, firstId: int, i: int)
    requires NoDuplicates(Flatten(root))
    requires 0 <= i < |bones| && bones[i] == targetId && targetId in Flatten(root)
    ensures CreateBones(root, bones, targetId, firstId).newBones[i] == CreateBones(root, bones, targetId, firstId).targetBone
    ensures CreateBones(root, bones, targetId, firstId).targetBone.Some?
  {
    FirstIsLastWithoutDuplicates(Flatten(root), targetId);
  }

  /** Two slots that hold the same source transform hold the same clone. */
  lemma DuplicateSlotsShareClone(root: Node, bones: seq<int>, targetId: int, firstId: int, i: int, j: int)
    requires 0 <= i < |bones| && 0 <= j < |bones| && bones[i] == bones[j]
    ensures CreateBones(root, bones, targetId, firstId).newBones[i] == CreateBones(root, bones, targetId, firstId).newBones[j]
  {
  }
}
