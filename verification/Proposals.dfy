/** Applying a list of proposals to the tree (sections 12.1 to 12.3 of RFC 9420; `state.cpp`). */
module Proposals {
  import opened Wrappers
  import opened TreeMath
  import opened Crypto
  import opened RatchetTree
  import opened TreeInvariant
  import opened ParentHashes
  import opened PublicTree
  import opened Views
  import opened Agreement
  import opened Receivers
  import opened TreeRuns

  datatype Proposal =
    | Add(leaf: LeafNode)
    | Update(leaf: LeafNode)
    | Remove(removed: LeafIndex)
    | PreSharedKey(id: PskId)
    | Extensions(extensions: Bytes)
    | ReInit(parameters: Bytes)
    | ExternalInit(kemOutput: Bytes)

  datatype CachedProposal = CachedProposal(ref: Bytes, proposal: Proposal, sender: Option<LeafIndex>)

  // --------------------------------------------------------------------------
  // The three passes
  // --------------------------------------------------------------------------

  ghost function ApplyUpdates(t: Tree, ps: seq<CachedProposal>): Result<Tree>
    decreases |ps|
  {
    if ps == [] then Ok(t)
    else
      match ps[0].proposal
      case Update(leaf) =>
        if ps[0].sender.None? then Err(Protocol)
        else
          var u :- UpdateLeaf(t, ps[0].sender.value, leaf);
          ApplyUpdates(u, ps[1..])
      case _ => ApplyUpdates(t, ps[1..])
  }

  ghost function ApplyRemoves(t: Tree, ps: seq<CachedProposal>): Result<Tree>
    decreases |ps|
  {
    if ps == [] then Ok(t)
    else
      match ps[0].proposal
      case Remove(i) =>
        if LeafNodeIndex(i) !in t.nodes then Err(OutOfRange)
        else if !OccLeaf(t, i) then Err(Protocol)
        else
          var u :- BlankPath(t, i);
          ApplyRemoves(u, ps[1..])
      case _ => ApplyRemoves(t, ps[1..])
  }

  ghost function ApplyAdds(t: Tree, ps: seq<CachedProposal>): Result<(Tree, seq<LeafIndex>)>
    decreases |ps|
  {
    if ps == [] then Ok((t, []))
    else
      match ps[0].proposal
      case Add(leaf) =>
        var (u, i) :- AddLeaf(t, leaf);
        var (w, rest) :- ApplyAdds(u, ps[1..]);
        Ok((w, [i] + rest))
      case _ => ApplyAdds(t, ps[1..])
  }

  /** Updates first, then removes, then adds; the tree is truncated at the end. */
  ghost function Apply(t: Tree, ps: seq<CachedProposal>): Result<(Tree, seq<LeafIndex>)> {
    var t1 :- ApplyUpdates(t, ps);
    var t2 :- ApplyRemoves(t1, ps);
    var (t3, joiners) :- ApplyAdds(t2, ps);
    var t4 := Truncate(t3);
    // set_hash_all needs a root
    if t4.size == 0 then Err(RuntimeError)
    else if !SomeLeaf(t3) then Err(OutOfRange)
    else Ok((t4, joiners))
  }

  // --------------------------------------------------------------------------
  // The roster
  // --------------------------------------------------------------------------

  /** The last update in the list that a leaf sent. */
  ghost function LastUpdate(ps: seq<CachedProposal>, l: LeafIndex): Option<LeafNode> {
    if ps == [] then None
    else
      match LastUpdate(ps[1..], l)
      case Some(leaf) => Some(leaf)
      case None => if ps[0].proposal.Update? && ps[0].sender == Some(l) then Some(ps[0].proposal.leaf) else None
  }

  ghost predicate Removes(ps: seq<CachedProposal>, l: LeafIndex) {
    exists k :: 0 <= k < |ps| && ps[k].proposal == Remove(l)
  }

  function AddedLeaves(ps: seq<CachedProposal>): seq<LeafNode> {
    if ps == [] then []
    else if ps[0].proposal.Add? then [ps[0].proposal.leaf] + AddedLeaves(ps[1..])
    else AddedLeaves(ps[1..])
  }

  ghost function RemoveCount(ps: seq<CachedProposal>): nat {
    if ps == [] then 0 else (if ps[0].proposal.Remove? then 1 else 0) + RemoveCount(ps[1..])
  }

  ghost function Members(t: Tree): set<LeafIndex> { set l: nat | l < t.size && OccLeaf(t, l) }

  /** Every update comes from a member (the part of proposal validity that the tree depends on). */
  ghost predicate UpdatesFromMembers(t: Tree, ps: seq<CachedProposal>) {
    forall k :: 0 <= k < |ps| && ps[k].proposal.Update? && ps[k].sender.Some? ==> OccLeaf(t, ps[k].sender.value)
  }

  /** Who is at a leaf after the update pass. */
  ghost predicate UpdatedRoster(t: Tree, ps: seq<CachedProposal>, u: Tree) {
    && u.size == t.size
    && (forall l :: OccLeaf(u, l) <==> OccLeaf(t, l) || LastUpdate(ps, l).Some?)
    && (forall l :: OccLeaf(u, l) ==>
          (LeafAt(u, l) == match LastUpdate(ps, l) case Some(leaf) => leaf case None => LeafAtOr(t, l)))
  }

  lemma UpdateLeafRoster(t: Tree, i: LeafIndex, leaf: LeafNode, u: Tree)
    requires WF(t) && UpdateLeaf(t, i, leaf) == Ok(u)
    ensures WF(u) && u.size == t.size
    ensures forall l :: OccLeaf(u, l) <==> OccLeaf(t, l) || l == i
    ensures forall l :: OccLeaf(u, l) ==> LeafAt(u, l) == if l == i then leaf else LeafAt(t, l)
  {
    hide Lo, Hi, Width, Level, IsPow2, UnmergedOk, Populated, UpdateLeaf;
    UpdateLeafWF(t, i, leaf);
    forall l | l != i ensures OccLeaf(u, l) <==> OccLeaf(t, l)
      ensures OccLeaf(u, l) ==> LeafAt(u, l) == LeafAt(t, l)
    {
      assert !Covers(LeafNodeIndex(l), i);
      assert NodeAt(u, LeafNodeIndex(l)) == NodeAt(t, LeafNodeIndex(l));
    }
  }

  lemma {:induction false} ApplyUpdatesRoster(t: Tree, ps: seq<CachedProposal>, u: Tree)
    requires WF(t) && ApplyUpdates(t, ps) == Ok(u)
    ensures WF(u) && UpdatedRoster(t, ps, u)
    decreases |ps|
  {
    hide Lo, Hi, Width, Level, IsPow2, UnmergedOk, Populated, UpdateLeaf, WF;
    if ps != [] {
      if ps[0].proposal.Update? {
        var i, leaf := ps[0].sender.value, ps[0].proposal.leaf;
        var t1 := UpdateLeaf(t, i, leaf).value;
        UpdateLeafRoster(t, i, leaf, t1);
        ApplyUpdatesRoster(t1, ps[1..], u);
      } else {
        ApplyUpdatesRoster(t, ps[1..], u);
      }
    }
  }

  lemma {:induction false} ApplyRemovesRoster(t: Tree, ps: seq<CachedProposal>, u: Tree)
    requires WF(t) && ApplyRemoves(t, ps) == Ok(u)
    ensures WF(u) && u.size == t.size
    ensures forall l :: OccLeaf(u, l) <==> OccLeaf(t, l) && !Removes(ps, l)
    ensures forall l :: OccLeaf(u, l) ==> LeafAt(u, l) == LeafAt(t, l)
    ensures |Members(u)| == |Members(t)| - RemoveCount(ps)
    decreases |ps|
  {
    hide Lo, Hi, Width, Level, IsPow2, UnmergedOk, Populated;
    if ps != [] {
      assert forall l :: Removes(ps, l) <==> ps[0].proposal == Remove(l) || Removes(ps[1..], l) by {
        hide OccLeaf;
        forall l ensures Removes(ps, l) <==> ps[0].proposal == Remove(l) || Removes(ps[1..], l) { RemovesStep(ps, l); }
      }
      if ps[0].proposal.Remove? {
        var i := ps[0].proposal.removed;
        var t1 := Blanked(t, i);
        BlankedWF(t, i);
        BlankedNodes(t, i);
        OccLeafInTree(t, i);
        assert BlankPath(t, i) == Ok(t1);
        assert Members(t1) == Members(t) - {i};
        assert forall l :: OccLeaf(t1, l) ==> LeafAt(t1, l) == LeafAt(t, l);
        hide Blanked, OccLeaf;
        ApplyRemovesRoster(t1, ps[1..], u);
      } else {
        ApplyRemovesRoster(t, ps[1..], u);
      }
    }
  }

  lemma RemovesStep(ps: seq<CachedProposal>, l: LeafIndex)
    requires ps != []
    ensures Removes(ps, l) <==> ps[0].proposal == Remove(l) || Removes(ps[1..], l)
  {
    if k :| 0 <= k < |ps| && ps[k].proposal == Remove(l) && k > 0 {
      assert ps[1..][k - 1].proposal == Remove(l);
    }
    if k :| 0 <= k < |ps[1..]| && ps[1..][k].proposal == Remove(l) {
      assert ps[k + 1].proposal == Remove(l);
    }
  }

  lemma AddLeafRoster(t: Tree, leaf: LeafNode, u: Tree, i: LeafIndex)
    requires WF(t) && AddLeaf(t, leaf) == Ok((u, i))
    ensures WF(u) && !OccLeaf(t, i)
    ensures forall l :: OccLeaf(u, l) <==> OccLeaf(t, l) || l == i
    ensures forall l :: OccLeaf(u, l) ==> LeafAt(u, l) == if l == i then leaf else LeafAt(t, l)
    ensures |Members(u)| == |Members(t)| + 1
  {
    hide Lo, Hi, Width, Level, IsPow2, UnmergedOk, Populated, InsertSorted, PlaceLeaf;
    AddLeafWF(t, leaf);
    var t1 := AllocateLeaf(t).0;
    AllocatedSame(t);
    OccLeafInTree(t, i);
    PlaceLeafNodes(t1, i, leaf);
    assert u == PlaceLeaf(t1, i, leaf);
    AddLeafKeeps(t1, i, leaf);
    hide AddLeaf, AllocateLeaf, WF, OccLeaf, LeafAt;
    OneMoreMember(t, u, i);
  }

  lemma AllocatedSame(t: Tree)
    requires WF(t)
    ensures var t1 := AllocateLeaf(t).0;
      && WF(t1)
      && (forall x :: NodeAt(t1, x) == NodeAt(t, x))
      && (forall l :: OccLeaf(t1, l) <==> OccLeaf(t, l))
      && (forall l :: OccLeaf(t, l) ==> LeafAt(t1, l) == LeafAt(t, l))
  {
    hide Lo, Hi, Width, Level, IsPow2, UnmergedOk, Populated;
    GrowWF(t);
    var t1 := AllocateLeaf(t).0;
    assert forall x :: NodeAt(t1, x) == NodeAt(t, x);
    SameOccupied(t, t1);
  }

  lemma OneMoreMember(t: Tree, u: Tree, i: LeafIndex)
    requires WF(t) && WF(u) && !OccLeaf(t, i)
    requires forall l :: OccLeaf(u, l) <==> OccLeaf(t, l) || l == i
    ensures |Members(u)| == |Members(t)| + 1
  {
    hide Lo, Hi, Width, Level, IsPow2, UnmergedOk, Populated, OccLeaf;
    forall l: nat ensures (OccLeaf(u, l) ==> l < u.size) && (OccLeaf(t, l) ==> l < t.size) {
      OccLeafInTree(u, l);
      OccLeafInTree(t, l);
    }
    assert Members(u) == Members(t) + {i};
  }

  /** The added leaf is fresh, and fresh leaves stay fresh. */
  lemma AddLeafFreshens(t: Tree, leaf: LeafNode, u: Tree, i: LeafIndex)
    requires WF(t) && AddLeaf(t, leaf) == Ok((u, i))
    ensures FreshLeaf(u, i)
    ensures forall j :: FreshLeaf(t, j) ==> FreshLeaf(u, j)
  {
    hide Lo, Hi, Width, Level, IsPow2, UnmergedOk, Populated, InsertSorted, PlaceLeaf, FreshLeaf;
    GrowWF(t);
    var t1 := AllocateLeaf(t).0;
    assert forall x :: NodeAt(t1, x) == NodeAt(t, x);
    OccLeafInTree(t, i);
    assert !OccLeaf(t1, i) by { SameOccupied(t, t1); }
    forall j | FreshLeaf(t, j) ensures FreshLeaf(t1, j) { FreshSame(t, t1, j); }
    AddLeafFresh(t1, i, leaf);
  }

  lemma FreshSame(t: Tree, u: Tree, j: LeafIndex)
    requires forall x :: NodeAt(u, x) == NodeAt(t, x)
    requires FreshLeaf(t, j)
    ensures FreshLeaf(u, j)
  {
    hide Lo, Hi;
    SameOccupied(t, u);
  }

  lemma AddLeafFresh(t: Tree, i: LeafIndex, leaf: LeafNode)
    requires WF(t) && i < t.size && !OccLeaf(t, i)
    ensures var u := PlaceLeaf(t, i, leaf);
      FreshLeaf(u, i) && forall j :: FreshLeaf(t, j) ==> FreshLeaf(u, j)
  {
    hide Lo, Hi, Width, Level, IsPow2, UnmergedOk, Populated, InsertSorted, PlaceLeaf;
    PlaceLeafNodes(t, i, leaf);
  }

  lemma AddLeafKeeps(t: Tree, i: LeafIndex, leaf: LeafNode)
    requires WF(t) && i < t.size && !OccLeaf(t, i)
    ensures forall l :: l != i && OccLeaf(t, l) ==>
      OccLeaf(PlaceLeaf(t, i, leaf), l) && LeafAt(PlaceLeaf(t, i, leaf), l) == LeafAt(t, l)
  {
    hide Lo, Hi, Width, Level, IsPow2, UnmergedOk, Populated, InsertSorted;
  }

  lemma AddsStep(t: Tree, ps: seq<CachedProposal>, u: Tree, joiners: seq<LeafIndex>)
    requires ps != [] && ApplyAdds(t, ps) == Ok((u, joiners))
    ensures !ps[0].proposal.Add? ==> ApplyAdds(t, ps[1..]) == Ok((u, joiners)) && AddedLeaves(ps) == AddedLeaves(ps[1..])
    ensures ps[0].proposal.Add? ==>
      && AddedLeaves(ps) == [ps[0].proposal.leaf] + AddedLeaves(ps[1..])
      && joiners != [] && AddLeaf(t, ps[0].proposal.leaf).Ok?
      && AddLeaf(t, ps[0].proposal.leaf).value.1 == joiners[0]
      && ApplyAdds(AddLeaf(t, ps[0].proposal.leaf).value.0, ps[1..]) == Ok((u, joiners[1..]))
  {
    hide AddLeaf;
    if ps[0].proposal.Add? {
      var (t1, i) := AddLeaf(t, ps[0].proposal.leaf).value;
      assert joiners == [i] + ApplyAdds(t1, ps[1..]).value.1;
      assert joiners[1..] == ApplyAdds(t1, ps[1..]).value.1;
    }
  }

  lemma {:induction false} ApplyAddsRoster(t: Tree, ps: seq<CachedProposal>, u: Tree, joiners: seq<LeafIndex>)
    requires WF(t) && ApplyAdds(t, ps) == Ok((u, joiners))
    ensures WF(u) && |joiners| == |AddedLeaves(ps)|
    ensures forall j :: 0 <= j < |joiners| ==>
      !OccLeaf(t, joiners[j]) && OccLeaf(u, joiners[j]) && LeafAt(u, joiners[j]) == AddedLeaves(ps)[j]
    ensures forall j, k :: 0 <= j < k < |joiners| ==> joiners[j] != joiners[k]
    ensures forall l :: OccLeaf(u, l) <==> OccLeaf(t, l) || l in joiners
    ensures forall l :: OccLeaf(t, l) ==> LeafAt(u, l) == LeafAt(t, l)
    ensures |Members(u)| == |Members(t)| + |joiners|
    decreases |ps|
  {
    hide Lo, Hi, Width, Level, IsPow2, UnmergedOk, Populated, AddLeaf, WF, OccLeaf, Members, ApplyAdds, AddedLeaves;
    if ps == [] {
      assert ApplyAdds(t, ps) == Ok((t, [])) && AddedLeaves(ps) == [] by { hide *; NoAdds(t); }
    } else {
      AddsStep(t, ps, u, joiners);
      if ps[0].proposal.Add? {
        var t1 := AddLeaf(t, ps[0].proposal.leaf).value.0;
        AddLeafRoster(t, ps[0].proposal.leaf, t1, joiners[0]);
        ApplyAddsRoster(t1, ps[1..], u, joiners[1..]);
      } else {
        ApplyAddsRoster(t, ps[1..], u, joiners);
      }
    }
  }

  lemma NoAdds(t: Tree)
    ensures ApplyAdds(t, []) == Ok((t, [])) && AddedLeaves([]) == []
  {
  }

  lemma {:induction false} ApplyAddsFresh(t: Tree, ps: seq<CachedProposal>, u: Tree, joiners: seq<LeafIndex>)
    requires WF(t) && ApplyAdds(t, ps) == Ok((u, joiners))
    ensures forall j :: j in joiners ==> FreshLeaf(u, j)
    ensures forall j :: FreshLeaf(t, j) ==> FreshLeaf(u, j)
    decreases |ps|
  {
    hide Lo, Hi, Width, Level, IsPow2, UnmergedOk, Populated, AddLeaf, WF, FreshLeaf, AddedLeaves;
    if ps != [] {
      AddsStep(t, ps, u, joiners);
      hide ApplyAdds;
      if ps[0].proposal.Add? {
        var t1 := AddLeaf(t, ps[0].proposal.leaf).value.0;
        AddLeafRoster(t, ps[0].proposal.leaf, t1, joiners[0]);
        AddLeafFreshens(t, ps[0].proposal.leaf, t1, joiners[0]);
        ApplyAddsFresh(t1, ps[1..], u, joiners[1..]);
      } else {
        ApplyAddsFresh(t, ps[1..], u, joiners);
      }
    }
  }

  /** Conservation of the roster: updated leaves are replaced in place, members that are not removed
      stay where they are, each joiner is where `joiners` says even after truncation, and the
      number of members changes by the adds and removes. */
  lemma RosterConserved(t: Tree, ps: seq<CachedProposal>, u: Tree, joiners: seq<LeafIndex>)
    requires WF(t) && Apply(t, ps) == Ok((u, joiners)) && UpdatesFromMembers(t, ps)
    ensures WF(u) && |joiners| == |AddedLeaves(ps)|
    ensures forall l :: OccLeaf(u, l) <==> (OccLeaf(t, l) && !Removes(ps, l)) || l in joiners
    ensures forall l :: OccLeaf(t, l) && !Removes(ps, l) ==>
      l !in joiners && LeafAt(u, l) == match LastUpdate(ps, l) case Some(leaf) => leaf case None => LeafAt(t, l)
    ensures forall j :: 0 <= j < |joiners| ==> OccLeaf(u, joiners[j]) && LeafAt(u, joiners[j]) == AddedLeaves(ps)[j]
    ensures forall j, k :: 0 <= j < k < |joiners| ==> joiners[j] != joiners[k]
    ensures |Members(u)| == |Members(t)| - RemoveCount(ps) + |AddedLeaves(ps)|
  {
    hide Lo, Hi, Width, Level, IsPow2, UnmergedOk, Populated, WF, ApplyUpdates, ApplyRemoves, ApplyAdds, FreshLeaf, Truncate;
    var t1 := ApplyUpdates(t, ps).value;
    var t2 := ApplyRemoves(t1, ps).value;
    var t3 := ApplyAdds(t2, ps).value.0;
    ApplyUpdatesRoster(t, ps, t1);
    LastUpdateSender(t, ps);
    ApplyRemovesRoster(t1, ps, t2);
    ApplyAddsRoster(t2, ps, t3, joiners);
    SameMembers(t, t1);
    TruncatedRoster(t3);
  }

  lemma AddLeafLeftmost(t: Tree, leaf: LeafNode, u: Tree, i: LeafIndex)
    requires AddLeaf(t, leaf) == Ok((u, i))
    ensures forall l: nat :: l < i ==> OccLeaf(t, l)
  {
    hide OccLeaf, PlaceLeaf, Grow;
  }

  lemma {:induction false} AddsLeftmost(t: Tree, ps: seq<CachedProposal>, u: Tree, joiners: seq<LeafIndex>, j: nat, l: LeafIndex)
    requires WF(t) && ApplyAdds(t, ps) == Ok((u, joiners)) && j < |joiners| && l < joiners[j]
    ensures OccLeaf(t, l) || l in joiners[..j]
    decreases |ps|
  {
    hide Lo, Hi, Width, Level, IsPow2, UnmergedOk, Populated, AddLeaf, WF, OccLeaf, Members, AddedLeaves;
    if ps != [] {
      AddsStep(t, ps, u, joiners);
      hide ApplyAdds;
      if ps[0].proposal.Add? {
        var t1 := AddLeaf(t, ps[0].proposal.leaf).value.0;
        AddLeafRoster(t, ps[0].proposal.leaf, t1, joiners[0]);
        if j == 0 {
          AddLeafLeftmost(t, ps[0].proposal.leaf, t1, joiners[0]);
        } else {
          AddsLeftmost(t1, ps[1..], u, joiners[1..], j - 1, l);
          assert joiners[1..][..j - 1] == joiners[1..j] && joiners[..j] == [joiners[0]] + joiners[1..j];
        }
      } else {
        AddsLeftmost(t, ps[1..], u, joiners, j, l);
      }
    }
  }

  /** Where the joiners go: each to the leftmost leaf that is free after the removals and the joiners before it; and
      the tree is then as small as a power of two can be. */
  lemma JoinersLeftmost(t: Tree, ps: seq<CachedProposal>, u: Tree, joiners: seq<LeafIndex>)
    requires WF(t) && Apply(t, ps) == Ok((u, joiners)) && UpdatesFromMembers(t, ps)
    ensures forall j, l: nat :: 0 <= j < |joiners| && l < joiners[j] ==> (OccLeaf(t, l) && !Removes(ps, l)) || l in joiners[..j]
    ensures IsPow2(u.size) && (u.size == 1 || exists l :: OccLeaf(u, l) && u.size / 2 <= l)
  {
    hide Lo, Hi, Width, Level, IsPow2, UnmergedOk, Populated, WF, ApplyUpdates, ApplyRemoves, ApplyAdds, FreshLeaf, Truncate;
    var t1 := ApplyUpdates(t, ps).value;
    var t2 := ApplyRemoves(t1, ps).value;
    var t3 := ApplyAdds(t2, ps).value.0;
    ApplyUpdatesRoster(t, ps, t1);
    LastUpdateSender(t, ps);
    ApplyRemovesRoster(t1, ps, t2);
    ApplyAddsRoster(t2, ps, t3, joiners);
    TruncatedRoster(t3);
    TruncateFacts(t3);
    forall j, l: nat | 0 <= j < |joiners| && l < joiners[j] ensures (OccLeaf(t, l) && !Removes(ps, l)) || l in joiners[..j] {
      AddsLeftmost(t2, ps, t3, joiners, j, l);
    }
  }

  lemma {:induction false} LastUpdateSender(t: Tree, ps: seq<CachedProposal>)
    requires UpdatesFromMembers(t, ps)
    ensures forall l :: LastUpdate(ps, l).Some? ==> OccLeaf(t, l)
    decreases |ps|
  {
    hide OccLeaf;
    if ps != [] {
      forall k | 0 <= k < |ps[1..]| && ps[1..][k].proposal.Update? && ps[1..][k].sender.Some?
        ensures OccLeaf(t, ps[1..][k].sender.value)
      {
        assert ps[1..][k] == ps[k + 1];
      }
      LastUpdateSender(t, ps[1..]);
    }
  }

  lemma SameMembers(t: Tree, u: Tree)
    requires u.size == t.size && forall l :: OccLeaf(t, l) <==> OccLeaf(u, l)
    ensures Members(t) == Members(u)
  {
  }

  lemma TruncatedRoster(t: Tree)
    requires WF(t) && SomeLeaf(t)
    ensures var u := Truncate(t);
      && WF(u) && 0 < u.size && IsPow2(u.size) && Members(u) == Members(t)
      && (forall l :: OccLeaf(u, l) <==> OccLeaf(t, l)) && (forall l :: OccLeaf(u, l) ==> LeafAt(u, l) == LeafAt(t, l))
      && (forall j :: FreshLeaf(t, j) ==> FreshLeaf(u, j))
  {
    hide Lo, Hi, Width, Level, IsPow2, UnmergedOk, Populated, Truncate;
    TruncateWF(t);
    TruncateFacts(t);
    var u := Truncate(t);
    SameOccupied(t, u);
    forall l | OccLeaf(u, l) ensures LeafAt(u, l) == LeafAt(t, l) {
      assert NodeAt(u, LeafNodeIndex(l)) == NodeAt(t, LeafNodeIndex(l));
    }
    forall l: nat | OccLeaf(t, l) ensures l < u.size && l < t.size { OccLeafInTree(u, l); OccLeafInTree(t, l); }
  }

  // --------------------------------------------------------------------------
  // Private views while proposals are applied
  // --------------------------------------------------------------------------

  /** Losing occupied parents does not hurt a view. */
  lemma FewerParents(s: Suite, t: Tree, u: Tree, v: View)
    requires ParentsOk(s, t, v)
    requires forall n :: OccParent(u, n) ==> NodeAt(u, n) == NodeAt(t, n)
    ensures ParentsOk(s, u, v)
  {
    hide Lo, Hi, Have, KeyAt;
    forall n | OccParent(u, n)
      ensures OccParent(t, n) && Unmerged(t, n) == Unmerged(u, n) && KeyOfNode(t, n) == KeyOfNode(u, n)
    {
      assert NodeAt(u, n) == NodeAt(t, n);
    }
  }

  lemma {:induction false} ApplyUpdatesView(s: Suite, t: Tree, ps: seq<CachedProposal>, u: Tree, v: View)
    requires WF(t) && ApplyUpdates(t, ps) == Ok(u) && ParentsOk(s, t, v)
    ensures ParentsOk(s, u, v)
    decreases |ps|
  {
    hide Lo, Hi, Width, Level, IsPow2, UnmergedOk, Populated, UpdateLeaf, ParentsOk, WF;
    if ps != [] {
      if ps[0].proposal.Update? {
        var i, leaf := ps[0].sender.value, ps[0].proposal.leaf;
        UpdateLeafWF(t, i, leaf);
        var t1 := UpdateLeaf(t, i, leaf).value;
        forall n | OccParent(t1, n) ensures NodeAt(t1, n) == NodeAt(t, n) {
          assert OccLeaf(t1, i) && n != LeafNodeIndex(i);
        }
        FewerParents(s, t, t1, v);
        ApplyUpdatesView(s, t1, ps[1..], u, v);
      } else {
        ApplyUpdatesView(s, t, ps[1..], u, v);
      }
    }
  }

  lemma {:induction false} ApplyRemovesView(s: Suite, t: Tree, ps: seq<CachedProposal>, u: Tree, v: View)
    requires WF(t) && ApplyRemoves(t, ps) == Ok(u) && ParentsOk(s, t, v)
    ensures ParentsOk(s, u, v)
    decreases |ps|
  {
    hide Lo, Hi, Width, Level, IsPow2, UnmergedOk, Populated, ParentsOk;
    if ps != [] {
      if ps[0].proposal.Remove? {
        var i := ps[0].proposal.removed;
        BlankedWF(t, i);
        BlankedNodes(t, i);
        OccLeafInTree(t, i);
        FewerParents(s, t, Blanked(t, i), v);
        ApplyRemovesView(s, Blanked(t, i), ps[1..], u, v);
      } else {
        ApplyRemovesView(s, t, ps[1..], u, v);
      }
    }
  }

  lemma {:induction false} ApplyAddsView(s: Suite, t: Tree, ps: seq<CachedProposal>, u: Tree, joiners: seq<LeafIndex>, v: View)
    requires WF(t) && ApplyAdds(t, ps) == Ok((u, joiners)) && ParentsOk(s, t, v) && OccLeaf(t, v.index)
    ensures ParentsOk(s, u, v)
    decreases |ps|
  {
    hide Lo, Hi, Width, Level, IsPow2, UnmergedOk, Populated, ParentsOk, AddLeaf, WF;
    if ps != [] {
      if ps[0].proposal.Add? {
        var leaf := ps[0].proposal.leaf;
        var (t1, i) := AddLeaf(t, leaf).value;
        AddLeafRoster(t, leaf, t1, i);
        AddLeafView(s, t, leaf, v);
        AddsStep(t, ps, u, joiners);
        ApplyAddsView(s, t1, ps[1..], u, joiners[1..], v);
      } else {
        ApplyAddsView(s, t, ps[1..], u, joiners, v);
      }
    }
  }

  /** An added leaf changes nothing for the members that are there already. */
  lemma AddLeafView(s: Suite, t: Tree, leaf: LeafNode, v: View)
    requires WF(t) && AddLeaf(t, leaf).Ok? && ParentsOk(s, t, v) && OccLeaf(t, v.index)
    ensures ParentsOk(s, AddLeaf(t, leaf).value.0, v)
  {
    hide Lo, Hi, Width, Level, IsPow2, UnmergedOk, Populated, InsertSorted, PlaceLeaf, Have, KeyAt;
    GrowWF(t);
    var (t1, i) := AllocateLeaf(t);
    OccLeafInTree(t, i);
    OccLeafInTree(t, v.index);
    assert forall x :: NodeAt(t1, x) == NodeAt(t, x);
    SameOccupied(t, t1);
    PlaceLeafNodes(t1, i, leaf);
    PlaceLeafKeeps(t1, i, leaf);
    var u := PlaceLeaf(t1, i, leaf);
    forall n | OccParent(u, n)
      ensures OccParent(t, n) && KeyOfNode(u, n) == KeyOfNode(t, n)
      ensures v.index in Unmerged(u, n) <==> v.index in Unmerged(t, n)
    {
      assert NodeAt(t1, n) == NodeAt(t, n);
      assert OccParent(t1, n) && Unmerged(t1, n) == Unmerged(t, n);
    }
  }

  /** After a list of proposals the view of a surviving member, truncated, fits the parents of the new
      tree and stays inside it. */
  lemma ApplyView(s: Suite, t: Tree, ps: seq<CachedProposal>, u: Tree, joiners: seq<LeafIndex>, v: View)
    requires WF(t) && Apply(t, ps) == Ok((u, joiners)) && UpdatesFromMembers(t, ps)
    requires ParentsOk(s, t, v) && OccLeaf(t, v.index) && !Removes(ps, v.index)
    ensures WF(u) && 0 < u.size && OccLeaf(u, v.index)
    ensures ParentsOk(s, u, v)
    ensures ParentsOk(s, u, TruncateView(v, u.size)) && Inside(u, TruncateView(v, u.size))
  {
    hide Lo, Hi, Width, Level, IsPow2, UnmergedOk, Populated, ParentsOk, ApplyUpdates, ApplyRemoves, ApplyAdds, WF,
      Truncate, FreshLeaf, Inside, TruncateView;
    var t1 := ApplyUpdates(t, ps).value;
    var t2 := ApplyRemoves(t1, ps).value;
    var t3 := ApplyAdds(t2, ps).value.0;
    ApplyUpdatesRoster(t, ps, t1);
    ApplyUpdatesView(s, t, ps, t1, v);
    ApplyRemovesRoster(t1, ps, t2);
    ApplyRemovesView(s, t1, ps, t2, v);
    ApplyAddsRoster(t2, ps, t3, joiners);
    ApplyAddsView(s, t2, ps, t3, joiners, v);
    TruncatedRoster(t3);
    assert forall n :: OccParent(u, n) ==> NodeAt(u, n) == NodeAt(t3, n) by {
      hide Lo, Hi;
      TruncateFacts(t3);
    }
    FewerParents(s, t3, u, v);
    TruncateViewOk(s, u, v);
  }

  lemma TruncateViewOk(s: Suite, t: Tree, v: View)
    requires WF(t) && t.size > 0 && ParentsOk(s, t, v) && OccLeaf(t, v.index)
    ensures ParentsOk(s, t, TruncateView(v, t.size)) && Inside(t, TruncateView(v, t.size))
  {
    hide Lo, Hi, Width, Level, IsPow2, UnmergedOk, Populated;
    OccLeafInTree(t, v.index);
    var w := TruncateView(v, t.size);
    assert forall n: nat :: InTree(n, t.size) <==> n <= LeafNodeIndex(t.size - 1);
    forall n | OccParent(t, n) ensures (Have(w, n) <==> Have(v, n)) && (Have(v, n) ==> KeyAt(s, w, n) == KeyAt(s, v, n)) {
      assert InTree(n, t.size);
    }
  }

  lemma JoinersFresh(t: Tree, ps: seq<CachedProposal>, u: Tree, joiners: seq<LeafIndex>)
    requires WF(t) && Apply(t, ps) == Ok((u, joiners))
    ensures forall j :: j in joiners ==> FreshLeaf(u, j)
  {
    hide Lo, Hi, Width, Level, IsPow2, UnmergedOk, Populated, WF, ApplyUpdates, ApplyRemoves, ApplyAdds, FreshLeaf, Truncate;
    var t1 := ApplyUpdates(t, ps).value;
    var t2 := ApplyRemoves(t1, ps).value;
    var t3 := ApplyAdds(t2, ps).value.0;
    ApplyUpdatesRoster(t, ps, t1);
    ApplyRemovesRoster(t1, ps, t2);
    ApplyAddsRoster(t2, ps, t3, joiners);
    ApplyAddsFresh(t2, ps, t3, joiners);
    TruncatedRoster(t3);
  }

  // --------------------------------------------------------------------------
  // Parent hashes
  // --------------------------------------------------------------------------

  lemma {:induction false} ApplyUpdatesGood(s: Suite, t: Tree, ps: seq<CachedProposal>, u: Tree)
    requires Good(s, t) && ApplyUpdates(t, ps) == Ok(u)
    ensures Good(s, u)
    decreases |ps|
  {
    hide UpdateLeaf, WF, ParentHashValid;
    if ps != [] {
      if ps[0].proposal.Update? {
        UpdateLeafWF(t, ps[0].sender.value, ps[0].proposal.leaf);
        UpdateLeafValid(s, t, ps[0].sender.value, ps[0].proposal.leaf);
        UpdateLeafUnique(t, ps[0].sender.value, ps[0].proposal.leaf);
        ApplyUpdatesGood(s, UpdateLeaf(t, ps[0].sender.value, ps[0].proposal.leaf).value, ps[1..], u);
      } else {
        ApplyUpdatesGood(s, t, ps[1..], u);
      }
    }
  }

  lemma {:induction false} ApplyRemovesGood(s: Suite, t: Tree, ps: seq<CachedProposal>, u: Tree)
    requires Good(s, t) && ApplyRemoves(t, ps) == Ok(u)
    ensures Good(s, u)
    decreases |ps|
  {
    hide Lo, Hi, Width, Level, IsPow2, ParentHashValid, UnmergedOk, Populated;
    if ps != [] {
      if ps[0].proposal.Remove? {
        BlankedWF(t, ps[0].proposal.removed);
        BlankPathValid(s, t, ps[0].proposal.removed);
        BlankedNodes(t, ps[0].proposal.removed);
        FewerLeavesUnique(t, Blanked(t, ps[0].proposal.removed));
        ApplyRemovesGood(s, BlankPath(t, ps[0].proposal.removed).value, ps[1..], u);
      } else {
        ApplyRemovesGood(s, t, ps[1..], u);
      }
    }
  }

  lemma {:induction false} ApplyAddsGood(s: Suite, t: Tree, ps: seq<CachedProposal>, u: Tree, joiners: seq<LeafIndex>)
    requires Good(s, t) && ApplyAdds(t, ps) == Ok((u, joiners))
    ensures Good(s, u)
    decreases |ps|
  {
    hide AddLeaf, WF, ParentHashValid;
    if ps != [] {
      AddsStep(t, ps, u, joiners);
      if ps[0].proposal.Add? {
        AddLeafWF(t, ps[0].proposal.leaf);
        AddLeafValid(s, t, ps[0].proposal.leaf);
        AddLeafUnique(t, ps[0].proposal.leaf);
        ApplyAddsGood(s, AddLeaf(t, ps[0].proposal.leaf).value.0, ps[1..], u, joiners[1..]);
      } else {
        ApplyAddsGood(s, t, ps[1..], u, joiners);
      }
    }
  }

  /** A list of proposals keeps the tree sound and parent-hash valid. */
  lemma ApplyGood(s: Suite, t: Tree, ps: seq<CachedProposal>, u: Tree, joiners: seq<LeafIndex>)
    requires Good(s, t) && Apply(t, ps) == Ok((u, joiners))
    ensures Good(s, u) && 0 < u.size && IsPow2(u.size)
  {
    hide Lo, Hi, Width, Level, IsPow2, Truncate, UnmergedOk, Populated, ParentHashValid, ApplyUpdates, ApplyRemoves, ApplyAdds;
    var t1 := ApplyUpdates(t, ps).value;
    var t2 := ApplyRemoves(t1, ps).value;
    var t3 := ApplyAdds(t2, ps).value.0;
    ApplyUpdatesGood(s, t, ps, t1);
    ApplyRemovesGood(s, t1, ps, t2);
    ApplyAddsGood(s, t2, ps, t3, joiners);
    TruncatedRoster(t3);
    TruncateValid(s, t3);
    TruncateFacts(t3);
    FewerLeavesUnique(t3, u);
  }

  // --------------------------------------------------------------------------
  // The same on the tree object
  // --------------------------------------------------------------------------

  /** One pass over the list, as the source does it for each proposal type in turn. */
  method ApplyUpdatesInPlace(pub: TreeKEMPublicKey, ps: seq<CachedProposal>) returns (r: Result<()>)
    requires pub.Valid()
    modifies pub
    ensures pub.Valid()
    ensures if r.Ok? then ApplyUpdates(old(pub.T()), ps) == Ok(pub.T()) else ApplyUpdates(old(pub.T()), ps) == Err(r.error)
  {
    hide UpdateLeaf, WF, Coherent;
    for k := 0 to |ps|
      invariant pub.Valid()
      invariant ApplyUpdates(pub.T(), ps[k..]) == ApplyUpdates(old(pub.T()), ps)
    {
      assert ps[k..][0] == ps[k] && ps[k..][1..] == ps[k + 1..];
      match ps[k].proposal {
        case Update(leaf) =>
          if ps[k].sender.None? { return Err(Protocol); }
          var _ :- pub.UpdateLeafInPlace(ps[k].sender.value, leaf);
        case _ =>
      }
    }
    return Ok(());
  }

  method ApplyRemovesInPlace(pub: TreeKEMPublicKey, ps: seq<CachedProposal>) returns (r: Result<()>)
    requires pub.Valid()
    modifies pub
    ensures pub.Valid()
    ensures if r.Ok? then ApplyRemoves(old(pub.T()), ps) == Ok(pub.T()) else ApplyRemoves(old(pub.T()), ps) == Err(r.error)
  {
    hide BlankPath, Coherent, Lo, Hi;
    for k := 0 to |ps|
      invariant pub.Valid()
      invariant ApplyRemoves(pub.T(), ps[k..]) == ApplyRemoves(old(pub.T()), ps)
    {
      assert ps[k..][0] == ps[k] && ps[k..][1..] == ps[k + 1..];
      match ps[k].proposal {
        case Remove(i) =>
          OccLeafInTree(pub.T(), i);
          if LeafNodeIndex(i) !in pub.nodes { return Err(OutOfRange); }
          if pub.nodes[LeafNodeIndex(i)].None? { return Err(Protocol); }
          var _ :- pub.BlankPathInPlace(i);
        case _ =>
      }
    }
    return Ok(());
  }

  method ApplyAddsInPlace(pub: TreeKEMPublicKey, ps: seq<CachedProposal>) returns (r: Result<seq<LeafIndex>>)
    requires pub.Valid()
    modifies pub
    ensures pub.Valid()
    ensures r.Ok? ==> ApplyAdds(old(pub.T()), ps) == Ok((pub.T(), r.value))
    ensures r.Err? ==> ApplyAdds(old(pub.T()), ps) == Err(r.error)
  {
    hide AddLeaf, WF, Coherent;
    var locations := [];
    assert ps[0..] == ps;
    PrefixedEnds(ApplyAdds(pub.T(), ps), pub.T(), []);
    for k := 0 to |ps|
      invariant pub.Valid()
      invariant Prefixed(locations, ApplyAdds(pub.T(), ps[k..])) == ApplyAdds(old(pub.T()), ps)
    {
      assert ps[k..][0] == ps[k] && ps[k..][1..] == ps[k + 1..];
      match ps[k].proposal {
        case Add(leaf) =>
          ghost var before := locations;
          var i :- pub.AddLeafInPlace(leaf);
          locations := locations + [i];
          PrefixedStep(before, i, ApplyAdds(pub.T(), ps[k + 1..]));
        case _ =>
      }
    }
    PrefixedEnds(Ok((pub.T(), [])), pub.T(), locations);
    return Ok(locations);
  }

  lemma PrefixedEnds(r: Result<(Tree, seq<LeafIndex>)>, t: Tree, a: seq<LeafIndex>)
    ensures Prefixed([], r) == r
    ensures Prefixed(a, Ok((t, []))) == Ok((t, a))
  {
    assert a + [] == a;
    if r.Ok? { assert [] + r.value.1 == r.value.1; }
  }

  ghost function Prefixed(a: seq<LeafIndex>, r: Result<(Tree, seq<LeafIndex>)>): Result<(Tree, seq<LeafIndex>)> {
    match r case Ok((t, b)) => Ok((t, a + b)) case Err(e) => Err(e)
  }

  lemma PrefixedStep(a: seq<LeafIndex>, i: LeafIndex, r: Result<(Tree, seq<LeafIndex>)>)
    ensures Prefixed(a, Prefixed([i], r)) == Prefixed(a + [i], r)
  {
    match r
    case Ok((t, b)) => assert a + ([i] + b) == a + [i] + b;
    case Err(_) =>
  }

  /** `State::apply` on a copy of the tree; afterwards every tree hash is cached. */
  method ApplyInPlace(pub: TreeKEMPublicKey, ps: seq<CachedProposal>) returns (r: Result<seq<LeafIndex>>)
    requires pub.Valid()
    modifies pub
    ensures r.Ok? ==> pub.Valid() && Complete(pub.T(), pub.hashes)
    ensures r.Ok? ==> Apply(old(pub.T()), ps) == Ok((pub.T(), r.value))
    ensures r.Err? ==> Apply(old(pub.T()), ps) == Err(r.error)
  {
    hide ApplyUpdates, ApplyRemoves, ApplyAdds, Coherent, Truncate, UnmergedOk, Populated;
    var _ :- ApplyUpdatesInPlace(pub, ps);
    var _ :- ApplyRemovesInPlace(pub, ps);
    var joiners :- ApplyAddsInPlace(pub, ps);
    ghost var t3 := pub.T();
    TruncateWF(t3);
    pub.TruncateInPlace();
    if pub.size == 0 { return Err(RuntimeError); }
    if 0 !in pub.nodes { return Err(OutOfRange); }
    TruncateSize(t3);
    var done := pub.SetHashAll();
    return Ok(joiners);
  }

  lemma TruncateSize(t: Tree)
    requires WF(t) && Truncate(t).size > 0
    ensures t.size > 0
    ensures 0 in Truncate(t).nodes <==> SomeLeaf(t)
  {
    hide UnmergedOk, Populated;
    if SomeLeaf(t) {
      TruncateFacts(t);
      assert InTree(0, Truncate(t).size);
    } else {
      assert !OccLeaf(t, LastOccupied(t, t.size - 1));
    }
  }
}
