/** All trees that a run of the operations can reach. */
module TreeRuns {
  import opened TreeMath
  import opened Crypto
  import opened RatchetTree
  import opened TreeInvariant
  import opened TreePaths
  import opened ParentHashes

  datatype Op =
    | AddOp(leaf: LeafNode)
    | UpdateOp(index: LeafIndex, leaf: LeafNode)
    | Blank(index: LeafIndex)
    | Shrink
    | MergePath(from: LeafIndex, path: UpdatePath)

  /** What callers make sure of: a tree is truncated only while somebody is in it, and a path is
      merged only after its parent hash was checked.  The path of a member that is alone has no
      parent hashes. */
  ghost predicate Allowed(s: Suite, t: Tree, op: Op) {
    match op
    case Shrink => SomeLeaf(t) || t.size == 0
    case MergePath(from, path) => Shape(t) && from < t.size ==>
      FilteredPath(t, LeafNodeIndex(from)) == [] || PathParentHashValid(s, t, from, path)
    case _ => true
  }

  /** One operation; when it throws, the caller's tree is kept. */
  ghost function Step(s: Suite, t: Tree, op: Op): Tree
    requires Shape(t)
  {
    match op
    case AddOp(leaf) => (match AddLeaf(t, leaf) case Ok(r) => r.0 case Err(_) => t)
    case UpdateOp(i, leaf) => (match UpdateLeaf(t, i, leaf) case Ok(u) => u case Err(_) => t)
    case Blank(i) => (match BlankPath(t, i) case Ok(u) => u case Err(_) => t)
    case Shrink => Truncate(t)
    case MergePath(from, path) => (match Merge(s, t, from, path) case Ok(u) => u case Err(_) => t)
  }

  /** No two members share an encryption key or a signature key (section 7.3 of RFC 9420). */
  ghost predicate UniqueKeys(t: Tree) {
    forall l: nat, m: nat :: OccLeaf(t, l) && OccLeaf(t, m) && l != m ==>
      LeafAt(t, l).encryptionKey != LeafAt(t, m).encryptionKey && LeafAt(t, l).signatureKey != LeafAt(t, m).signatureKey
  }

  ghost predicate Good(s: Suite, t: Tree) { WF(t) && ParentHashValid(s, t) && UniqueKeys(t) }

  lemma UpdateLeafUnique(t: Tree, i: LeafIndex, leaf: LeafNode)
    requires WF(t) && UniqueKeys(t)
    ensures var r := UpdateLeaf(t, i, leaf); r.Ok? ==> UniqueKeys(r.value)
  {
    hide Lo, Hi, Width, Level, Left, Right, IsPow2, UnmergedOk, Populated;
    if UpdateLeaf(t, i, leaf).Ok? {
      BlankedWF(t, i);
      BlankedNodes(t, i);
      SetLeafNodes(Blanked(t, i), i, leaf);
      LeavesAfterUpdate(t, i, leaf);
    }
  }

  lemma LeavesAfterUpdate(t: Tree, i: LeafIndex, leaf: LeafNode)
    requires WF(t) && UpdateLeaf(t, i, leaf).Ok?
    ensures var u := UpdateLeaf(t, i, leaf).value;
      forall l :: OccLeaf(u, l) ==> LeafAt(u, l) == (if l == i then leaf else LeafAtOr(t, l)) && (l == i || OccLeaf(t, l))
  {
    hide Lo, Hi, Width, Level, Left, Right, IsPow2, UnmergedOk, Populated, UpdateLeaf;
    UpdateLeafWF(t, i, leaf);
    var u := UpdateLeaf(t, i, leaf).value;
    forall l | OccLeaf(u, l) && l != i ensures OccLeaf(t, l) && LeafAt(u, l) == LeafAt(t, l) {
      assert !Covers(LeafNodeIndex(l), i);
      assert NodeAt(u, LeafNodeIndex(l)) == NodeAt(t, LeafNodeIndex(l));
    }
  }

  lemma AddLeafUnique(t: Tree, leaf: LeafNode)
    requires WF(t) && UniqueKeys(t)
    ensures var r := AddLeaf(t, leaf); r.Ok? ==> UniqueKeys(r.value.0)
  {
    hide Lo, Hi, Width, Level, Left, Right, IsPow2, UnmergedOk, Populated, PlaceLeaf;
    if AddLeaf(t, leaf).Ok? {
      GrowWF(t);
      var (t1, i) := AllocateLeaf(t);
      OccLeafInTree(t, i);
      assert forall x :: NodeAt(t1, x) == NodeAt(t, x);
      PlaceLeafNodes(t1, i, leaf);
      var u := PlaceLeaf(t1, i, leaf);
      forall l | OccLeaf(u, l) && l != i ensures OccLeaf(t, l) && LeafAt(u, l) == LeafAt(t, l) {
        PlaceLeafElsewhere(t1, i, leaf, l);
        assert NodeAt(t1, LeafNodeIndex(l)) == NodeAt(t, LeafNodeIndex(l));
      }
    }
  }

  lemma PlaceLeafElsewhere(t: Tree, i: LeafIndex, leaf: LeafNode, l: LeafIndex)
    requires OccLeaf(PlaceLeaf(t, i, leaf), l) && l != i
    ensures OccLeaf(t, l) && LeafAt(PlaceLeaf(t, i, leaf), l) == LeafAt(t, l)
  {
    hide Lo, Hi, InsertSorted;
  }

  /** Keys stay unique when leaves only disappear. */
  lemma FewerLeavesUnique(t: Tree, u: Tree)
    requires UniqueKeys(t) && forall l :: OccLeaf(u, l) ==> NodeAt(u, LeafNodeIndex(l)) == NodeAt(t, LeafNodeIndex(l))
    ensures UniqueKeys(u)
  {
    hide Lo, Hi;
    forall l | OccLeaf(u, l) ensures OccLeaf(t, l) && LeafAt(t, l) == LeafAt(u, l) {
      assert NodeAt(u, LeafNodeIndex(l)) == NodeAt(t, LeafNodeIndex(l));
    }
  }

  lemma MergeUnique(s: Suite, t: Tree, from: LeafIndex, path: UpdatePath)
    requires WF(t) && UniqueKeys(t)
    ensures var r := Merge(s, t, from, path); r.Ok? ==> UniqueKeys(r.value)
  {
    hide Lo, Hi, Width, Level, Left, Right, IsPow2, UnmergedOk, Populated, UpdateLeaf, Merge, FilteredPath, PathHashes;
    if Merge(s, t, from, path).Ok? {
      MergeNodes(s, t, from, path);
      UpdateLeafUnique(t, from, path.leaf);
      UpdateLeafWF(t, from, path.leaf);
      var t1, u := UpdateLeaf(t, from, path.leaf).value, Merge(s, t, from, path).value;
      forall l | OccLeaf(u, l) ensures NodeAt(u, LeafNodeIndex(l)) == NodeAt(t1, LeafNodeIndex(l)) {
        if l != from { assert !Covers(LeafNodeIndex(l), from); }
      }
      FewerLeavesUnique(t1, u);
    }
  }

  lemma StepKeepsGood(s: Suite, t: Tree, op: Op)
    requires Good(s, t) && Allowed(s, t, op)
    ensures Good(s, Step(s, t, op))
  {
    hide Lo, Hi, Width, Level, Left, Right, IsPow2, AddLeaf, UpdateLeaf, Blanked, Truncate, Merge, ParentHashValidAt,
      FilteredPath, PathParentHashValid, UnmergedOk, Populated;
    match op
    case AddOp(leaf) =>
      AddLeafWF(t, leaf);
      AddLeafValid(s, t, leaf);
      AddLeafUnique(t, leaf);
    case UpdateOp(i, leaf) =>
      UpdateLeafWF(t, i, leaf);
      UpdateLeafValid(s, t, i, leaf);
      UpdateLeafUnique(t, i, leaf);
    case Blank(i) =>
      BlankedWF(t, i);
      BlankPathValid(s, t, i);
      BlankedNodes(t, i);
      FewerLeavesUnique(t, Blanked(t, i));
    case Shrink =>
      TruncateWF(t);
      if SomeLeaf(t) {
        TruncateValid(s, t);
        TruncateFacts(t);
        FewerLeavesUnique(t, Truncate(t));
      }
      if t.size == 0 { assert Truncate(t) == t by { hide *; TruncateEmpty(t); } }
    case MergePath(from, path) =>
      if Merge(s, t, from, path).Ok? {
        MergeNodes(s, t, from, path);
        MergeWF(s, t, from, path);
        MergeValid(s, t, from, path);
        MergeUnique(s, t, from, path);
      }
  }

  lemma TruncateEmpty(t: Tree)
    requires t.size == 0
    ensures Truncate(t) == t
  {
  }

  /** `trees` is what a tree goes through when it starts empty and `ops` are applied to it. */
  ghost predicate IsRun(s: Suite, ops: seq<Op>, trees: seq<Tree>) {
    && |trees| == |ops| + 1
    && trees[0] == EmptyTree
    && (forall k :: 0 <= k < |ops| ==> Shape(trees[k]) ==>
          Allowed(s, trees[k], ops[k]) && trees[k + 1] == Step(s, trees[k], ops[k]))
  }

  /** Whatever is done to an empty tree, the full check of section 7.9.2 of RFC 9420 succeeds and
      the structure is sound. */
  lemma {:induction false} EveryReachableTreeIsGood(s: Suite, ops: seq<Op>, trees: seq<Tree>, k: nat)
    requires IsRun(s, ops, trees) && k < |trees|
    ensures WF(trees[k]) && ParentHashValid(s, trees[k]) && UniqueKeys(trees[k])
    ensures forall l: nat, m: nat :: OccLeaf(trees[k], l) && OccLeaf(trees[k], m) && l != m ==>
      LeafAt(trees[k], l).encryptionKey != LeafAt(trees[k], m).encryptionKey &&
      LeafAt(trees[k], l).signatureKey != LeafAt(trees[k], m).signatureKey
    decreases k
  {
    hide Lo, Hi, Left, Right, Step, Allowed, ParentHashValidAt, IsPow2;
    if k > 0 {
      EveryReachableTreeIsGood(s, ops, trees, k - 1);
      var j := k - 1;
      assert Shape(trees[j]) && trees[j + 1] == Step(s, trees[j], ops[j]);
      StepKeepsGood(s, trees[j], ops[j]);
    }
  }
}
