/** Who follows a commit: what it refers to, what a receiver has to know, and when a joiner gets in. */
module Following {
  import opened Wrappers
  import opened TreeMath
  import opened Crypto
  import opened RatchetTree
  import opened TreeInvariant
  import opened TreePaths
  import opened TreeRuns
  import opened TreeHashes
  import opened Views
  import opened Agreement
  import opened Implanting
  import opened Proposals
  import opened KeySchedule
  import opened GroupState
  import opened EpochAgreement
  import opened Joining

  // --------------------------------------------------------------------------
  // Members that belong together
  // --------------------------------------------------------------------------

  predicate Known(pending: seq<CachedProposal>, ref: Bytes) { FindRef(pending, ref).Some? }

  /** The same reference means the same proposal. */
  ghost predicate RefsAgree(a: seq<CachedProposal>, b: seq<CachedProposal>) {
    forall p <- a :: forall q <- b :: p.ref == q.ref ==> p == q
  }

  /** Two members in the same epoch that agree about what they both know; neither needs to know all of it. */
  ghost predicate Together(s: Suite, k: Kdf, a: State, b: State) {
    a.tree == b.tree && InStep(s, k, a, b) && RefsAgree(a.pending, b.pending) && PsksAgree(a.psks, b.psks)
  }

  lemma {:induction false} FindRefKnown(pending: seq<CachedProposal>, ref: Bytes)
    ensures Known(pending, ref) <==> exists i :: 0 <= i < |pending| && pending[i].ref == ref
    ensures Known(pending, ref) ==> FindRef(pending, ref).value in pending && FindRef(pending, ref).value.ref == ref
  {
    if pending != [] {
      FindRefKnown(pending[1..], ref);
      if Known(pending[1..], ref) {
        var i :| 0 <= i < |pending[1..]| && pending[1..][i].ref == ref;
        assert pending[i + 1].ref == ref;
      }
      if i :| 0 <= i < |pending| && pending[i].ref == ref && i > 0 { assert pending[1..][i - 1].ref == ref; }
    }
  }

  // --------------------------------------------------------------------------
  // What a commit contains
  // --------------------------------------------------------------------------

  function Own(extra: seq<Proposal>, c: LeafIndex): seq<CachedProposal> {
    seq(|extra|, i requires 0 <= i < |extra| => CachedProposal([], extra[i], Some(c)))
  }

  lemma {:induction false} ResolveExtra(pending: seq<CachedProposal>, extra: seq<Proposal>, c: LeafIndex)
    ensures MustResolve(CommitIds([], extra), pending, c) == Ok(Own(extra, c))
    decreases |extra|
  {
    var ids := CommitIds([], extra);
    assert |ids| == |extra|;
    if extra == [] {
      assert Own(extra, c) == [];
    } else {
      assert ids[0] == ByValue(extra[0]) && ids[1..] == CommitIds([], extra[1..]);
      ResolveExtra(pending, extra[1..], c);
      assert [CachedProposal([], extra[0], Some(c))] + Own(extra[1..], c) == Own(extra, c);
      assert MustResolve(ids, pending, c) == Ok([CachedProposal([], extra[0], Some(c))] + Own(extra[1..], c));
    }
  }

  /** Every reference of the committer is known. */
  ghost predicate KnowsAll(mine: seq<CachedProposal>, theirs: seq<CachedProposal>) {
    forall p <- theirs :: Known(mine, p.ref)
  }

  /** A commit covers the committer's pending proposals, in order, and then its own; whoever knows all of the
      references finds the same list, and whoever does not finds none. */
  lemma {:induction false} ResolveCommit(pending: seq<CachedProposal>, mine: seq<CachedProposal>, extra: seq<Proposal>,
                                         c: LeafIndex)
    requires RefsAgree(pending, mine)
    ensures MustResolve(CommitIds(pending, extra), mine, c) ==
      if KnowsAll(mine, pending) then Ok(pending + Own(extra, c)) else Err(BadOptional)
    decreases |pending|
  {
    hide Own;
    if pending == [] {
      ResolveExtra(mine, extra, c);
      assert [] + Own(extra, c) == Own(extra, c);
    } else {
      var first, rest := pending[0], pending[1..];
      assert pending == [first] + rest;
      FindRefKnown(mine, first.ref);
      assert CommitIds(pending, extra)[0] == ByRef(first.ref);
      assert CommitIds(pending, extra)[1..] == CommitIds(rest, extra);
      ResolveCommit(rest, mine, extra, c);
      assert [first] + (rest + Own(extra, c)) == pending + Own(extra, c);
      assert KnowsAll(mine, pending) <==> Known(mine, first.ref) && KnowsAll(mine, rest);
    }
  }

  lemma {:induction false} KnowsOwn(pending: seq<CachedProposal>)
    ensures KnowsAll(pending, pending)
  {
    forall p <- pending ensures Known(pending, p.ref) { FindRefKnown(pending, p.ref); }
  }

  // --------------------------------------------------------------------------
  // Who follows a commit
  // --------------------------------------------------------------------------

  /** What a member can check before the commit reaches it: it knows the proposals and pre-shared keys that the
      commit refers to, it is not the committer and not removed, an update of its own is the last one it made,
      and if there is a path, the committer's new leaf is acceptable and the member is merged into its first
      recipient. */
  ghost predicate CanFollow(s: Suite, env: Env, c: State, m: Materials, r: State)
    requires WF(m.applied) && IsPow2(m.applied.size) && c.index < m.applied.size
  {
    && KnowsAll(r.pending, c.pending) && HoldsPsks(r.psks, m.list)
    && r.index != c.index && !Removes(m.list, r.index) && UpdateMatches(r, m.list)
    && (m.path.Some? ==>
          && env.leafValid(c.tree, c.groupId, c.extensions, m.path.value.leaf, FromCommit, Some(c.index))
          && OccLeaf(m.applied, r.index) && r.index !in m.joiners
          && MergedAtRecipient(s, m, c.index, r.index))
  }

  /** The tree a commit starts from. */
  lemma CommitTreeOk(s: Suite, k: Kdf, env: Env, c: State, input: CommitInput)
    requires Member(s, c) && Commit(s, k, env, c, input).Ok? && Prepare(s, k, env, c, input).Ok?
    ensures var m := Prepare(s, k, env, c, input).value;
      WF(m.applied) && IsPow2(m.applied.size) && c.index < m.applied.size
  {
    hide Lo, Hi, Width, Level, IsPow2, Prepare, UnmergedOk, Populated, ParentHashValid, UniqueKeys, ParentsOk, Successor;
    CommitterMember(s, k, env, c, input);
    CommitFields(s, k, env, c, input);
    MaterialsFacts(s, k, env, c, input);
  }

  /** The list of a commit is what the committer has pending and its own proposals. */
  lemma CommitList(s: Suite, k: Kdf, env: Env, c: State, input: CommitInput)
    requires Good(s, c.tree) && RefsAgree(c.pending, c.pending) && Prepare(s, k, env, c, input).Ok?
    ensures var m := Prepare(s, k, env, c, input).value;
      m.ids == CommitIds(c.pending, input.extra) && m.list == c.pending + Own(input.extra, c.index)
  {
    hide ValidNormal, Apply, Views.Update, Good, SentPath, MustResolve, NewExtensions, ResolvePsks, PathRequired, CommitIds,
      Commits, Own, Known, RefsAgree, KnowsAll;
    ResolveCommit(c.pending, c.pending, input.extra, c.index);
    KnowsOwn(c.pending);
    MaterialsFacts(s, k, env, c, input);
  }

  /** Who knows what a commit refers to understands it; nobody else gets past that. */
  lemma UnderstandsIff(s: Suite, k: Kdf, env: Env, c: State, r: State, input: CommitInput)
    requires Good(s, c.tree) && Good(s, r.tree) && Together(s, k, c, c) && Together(s, k, c, r)
    requires Prepare(s, k, env, c, input).Ok? && Commit(s, k, env, c, input).Ok?
    ensures var m := Prepare(s, k, env, c, input).value;
      && (Understands(c, r, m) <==> KnowsAll(r.pending, c.pending) && HoldsPsks(r.psks, m.list))
      && (HandleCommit(s, k, env, r, Commit(s, k, env, c, input).value.0).Ok? ==> Understands(c, r, m))
  {
    hide Lo, Hi, Prepare, Commit, HandleCommit, Good, InStep, MustResolve, CommitIds, RefsAgree, KnowsAll, HoldsPsks,
      PsksAgree, ResolvePsks, Own;
    CommitList(s, k, env, c, input);
    CommitFields(s, k, env, c, input);
    MaterialsFacts(s, k, env, c, input);
    ResolveCommit(c.pending, r.pending, input.extra, c.index);
    SamePsks(c.psks, r.psks, Prepare(s, k, env, c, input).value.list);
    if HandleCommit(s, k, env, r, Commit(s, k, env, c, input).value.0).Ok? {
      HandledResolves(s, k, env, r, Commit(s, k, env, c, input).value.0);
    }
  }

  lemma HandledResolves(s: Suite, k: Kdf, env: Env, r: State, msg: CommitMessage)
    requires Good(s, r.tree) && HandleCommit(s, k, env, r, msg).Ok?
    ensures msg.sender != r.index && MustResolve(msg.proposals, r.pending, msg.sender).Ok?
    ensures var ps := MustResolve(msg.proposals, r.pending, msg.sender).value;
      && ResolvePsks(r.psks, ps).Ok? && ValidNormal(env, r, ps, msg.sender) && Apply(r.tree, ps).Ok?
    ensures msg.path.Some? ==>
      var (t1, joiners) := Apply(r.tree, MustResolve(msg.proposals, r.pending, msg.sender).value).value;
      && WF(t1) && IsPow2(t1.size) && ReceivePath(s, env, r, t1, msg.sender, msg.path.value, joiners).Ok?
      && ReceivePath(s, env, r, t1, msg.sender, msg.path.value, joiners).value.0.size > 0
      && RatchetLeaf(s, r, ReceivePath(s, env, r, t1, msg.sender, msg.path.value, joiners).value.0).Ok?
  {
    hide Lo, Hi, Width, Level, IsPow2, Apply, MustResolve, NewExtensions, ResolvePsks, PathRequired, Successor, ValidNormal,
      RatchetLeaf, DecapAt, PathContext, NewConfirmed, Confirmed, ParentHashValid, UniqueKeys, UnmergedOk, Populated,
      ReceivePath, CiphertextAt, Merge;
    var ps := MustResolve(msg.proposals, r.pending, msg.sender).value;
    var applied := Apply(r.tree, ps).value;
    ApplyGood(s, r.tree, ps, applied.0, applied.1);
    if msg.path.Some? { ReceivedSize(s, env, r, applied.0, msg.sender, msg.path.value, applied.1); }
  }

  lemma ReceivedSize(s: Suite, env: Env, r: State, t1: Tree, sender: LeafIndex, path: UpdatePath, joiners: seq<LeafIndex>)
    requires WF(t1) && IsPow2(t1.size) && ReceivePath(s, env, r, t1, sender, path, joiners).Ok?
    ensures env.leafValid(r.tree, r.groupId, r.extensions, path.leaf, FromCommit, Some(sender))
    ensures Merge(s, t1, sender, path) == Ok(ReceivePath(s, env, r, t1, sender, path, joiners).value.0)
    ensures ReceivePath(s, env, r, t1, sender, path, joiners).value.0.size == t1.size > 0
  {
    hide Lo, Hi, Width, Level, UnmergedOk, Populated, Merge, PathParentHashValid;
    MergeWF(s, t1, sender, path);
  }

  /** An update that goes through has a key that nobody has used, the updated member included. */
  lemma {:induction false} UpdatedKeyIsNew(t: Tree, ps: seq<CachedProposal>, u: Tree, l: LeafIndex)
    requires WF(t) && ApplyUpdates(t, ps) == Ok(u) && OccLeaf(t, l) && LastUpdate(ps, l).Some?
    requires forall j, k :: 0 <= j < k < |ps| ==> Target(ps[j]) == None || Target(ps[j]) != Target(ps[k])
    ensures LastUpdate(ps, l).value.encryptionKey != LeafAt(t, l).encryptionKey
    decreases |ps|
  {
    hide Lo, Hi, Width, Level, IsPow2, UnmergedOk, Populated, WF;
    assert forall k :: 0 <= k < |ps[1..]| ==> ps[1..][k] == ps[k + 1];
    if ps[0].proposal.Update? {
      var i, leaf := ps[0].sender.value, ps[0].proposal.leaf;
      var t1 := UpdateLeaf(t, i, leaf).value;
      if i == l {
        assert Target(ps[0]) == Some(l);
        NoUpdate(ps[1..], l);
      } else {
        UpdateLeafRoster(t, i, leaf, t1);
        hide UpdateLeaf, OccLeaf, LeafAt;
        UpdatedKeyIsNew(t1, ps[1..], u, l);
      }
    } else {
      UpdatedKeyIsNew(t, ps[1..], u, l);
    }
  }

  /** `ratchet` takes a self-update only if it is the one that was kept. */
  lemma RatchetedUpdate(s: Suite, r: State, ps: seq<CachedProposal>, committer: LeafIndex, env: Env, t1: Tree,
                        joiners: seq<LeafIndex>, t2: Tree)
    requires Member(s, r) && Apply(r.tree, ps) == Ok((t1, joiners)) && ValidNormal(env, r, ps, committer)
    requires t2.size > 0 && (OccLeaf(t1, r.index) ==> OccLeaf(t2, r.index) && LeafAt(t2, r.index) == LeafAt(t1, r.index))
    requires RatchetLeaf(s, r, t2).Ok? && !Removes(ps, r.index)
    ensures UpdateMatches(r, ps)
  {
    hide Lo, Hi, Width, Level, IsPow2, UnmergedOk, Populated, ParentsOk, TruncateView, LastUpdate, Removes, ApplyUpdates,
      ApplyRemoves, ApplyAdds, Truncate, ParentHashValid, UniqueKeys;
    ValidUpdates(env, r, ps, committer);
    RosterConserved(r.tree, ps, t1, joiners);
    OccLeafInTree(r.tree, r.index);
    if LastUpdate(ps, r.index).Some? {
      UpdatedKeyIsNew(r.tree, ps, ApplyUpdates(r.tree, ps).value, r.index);
      OccLeafInTree(t1, r.index);
      RatchetedLeaf(s, r, t2);
    }
  }

  lemma RatchetedLeaf(s: Suite, r: State, t: Tree)
    requires Member(s, r) && t.size > 0 && RatchetLeaf(s, r, t).Ok? && OccLeaf(t, r.index)
    requires LeafAt(t, r.index).encryptionKey != LeafAt(r.tree, r.index).encryptionKey
    ensures r.cachedUpdate.Some? && r.cachedUpdate.value.0 == LeafAt(t, r.index)
  {
    hide Lo, Hi, Good, ParentsOk;
  }

  /** The outcome of handling a commit, as `CanFollow` predicts it. */
  ghost predicate Follows(s: Suite, k: Kdf, env: Env, c: State, m: Materials, next: State, r: State, handled: Result<State>) {
    && WF(m.applied) && IsPow2(m.applied.size) && c.index < m.applied.size && next.tree.size > 0
    && (handled.Ok? <==> CanFollow(s, env, c, m, r))
    && (handled.Ok? ==> Arrived(s, k, r.index, next, handled.value) && handled.value.psks == r.psks)
  }

  /** A sound member of the next epoch that nothing has been sent to yet. */
  ghost predicate Arrived(s: Suite, k: Kdf, i: LeafIndex, next: State, st: State) {
    && Member(s, st) && st.index == i && CachedFits(s, st)
    && st.pending == [] && st.tree == next.tree && InStep(s, k, next, st)
  }

  lemma ArrivedFrom(s: Suite, k: Kdf, i: LeafIndex, next: State, st: State)
    requires Member(s, st) && st.index == i && st.pending == [] && CachedFits(s, st)
    requires st.tree == next.tree && InStep(s, k, next, st)
    ensures Arrived(s, k, i, next, st)
  {}

  lemma FollowWithoutPath(s: Suite, k: Kdf, env: Env, c: State, r: State, input: CommitInput)
    requires TreeHashInjective(s) && Member(s, c) && Member(s, r) && InStep(s, k, c, r) && c.index != r.index
    requires CachedFits(s, r)
    requires Commit(s, k, env, c, input).Ok? && Prepare(s, k, env, c, input).Ok?
    requires Prepare(s, k, env, c, input).value.path.None?
    requires Understands(c, r, Prepare(s, k, env, c, input).value)
    ensures var m := Prepare(s, k, env, c, input).value;
      var handled := HandleCommit(s, k, env, r, Commit(s, k, env, c, input).value.0);
      && !Removes(m.list, r.index) && UpdateMatches(r, m.list) && handled.Ok?
      && Arrived(s, k, r.index, Commit(s, k, env, c, input).value.1, handled.value) && handled.value.psks == r.psks
  {
    hide Lo, Hi, Width, Level, IsPow2, Prepare, Commit, HandleCommit, UnmergedOk, Populated, ParentHashValid, UniqueKeys,
      ParentsOk, InStep, Removes, MustResolve, CommitIds, ViewOk, Successor, RootHash, Understands, Arrived;
    CommitFields(s, k, env, c, input);
    MaterialsFacts(s, k, env, c, input);
    ValidUpdates(env, c, Prepare(s, k, env, c, input).value.list, c.index);
    var r' := ReceiverWithoutPath(s, k, env, c, r, input);
    hide Member;
    ArrivedFrom(s, k, r.index, Commit(s, k, env, c, input).value.1, r');
  }

  /** What a member that has handled a commit with a path had to fulfil. */
  lemma HandledWithPath(s: Suite, k: Kdf, env: Env, c: State, r: State, input: CommitInput)
    requires TreeHashInjective(s) && Member(s, c) && Member(s, r) && InStep(s, k, c, r) && c.index != r.index
    requires Commit(s, k, env, c, input).Ok? && Prepare(s, k, env, c, input).Ok?
    requires Prepare(s, k, env, c, input).value.path.Some?
    requires Understands(c, r, Prepare(s, k, env, c, input).value)
    requires HandleCommit(s, k, env, r, Commit(s, k, env, c, input).value.0).Ok?
    ensures var m := Prepare(s, k, env, c, input).value;
      && !Removes(m.list, r.index) && UpdateMatches(r, m.list)
      && env.leafValid(c.tree, c.groupId, c.extensions, m.path.value.leaf, FromCommit, Some(c.index))
  {
    hide Lo, Hi, Width, Level, IsPow2, Prepare, Commit, HandleCommit, UnmergedOk, Populated, ParentHashValid, UniqueKeys,
      ParentsOk, InStep, MustResolve, ViewOk, Successor, RootHash, LastUpdate, ReceivePath, RatchetLeaf, Apply, ResolvePsks,
      Merge, SentPath, Commits, WF;
    var msg := Commit(s, k, env, c, input).value.0;
    var m := Prepare(s, k, env, c, input).value;
    InStepFields(s, k, c, r);
    GoodWF(s, c.tree);
    GoodWF(s, r.tree);
    InStepSameTree(s, k, c, r);
    CommitFields(s, k, env, c, input);
    MaterialsFacts(s, k, env, c, input);
    MaterialsPath(s, k, env, c, input);
    HandledResolves(s, k, env, r, msg);
    ReceivedSize(s, env, r, m.applied, c.index, m.path.value, m.joiners);
    SentPathMerges(s, m.applied, c.index, input.leafSecret, input.rest, m.tree, m.view,
                   PathContext(s, k, c, m.tree, m.extensions), m.joiners, input.coins);
    NotRemoved(env, r, m.list, c.index);
    OthersLeaf(s, m.applied, c.index, input.leafSecret, input.rest, m.tree, m.view, r.index);
    RatchetedUpdate(s, r, m.list, c.index, env, m.applied, m.joiners, m.tree);
  }

  lemma NotRemoved(env: Env, r: State, ps: seq<CachedProposal>, committer: LeafIndex)
    requires ValidNormal(env, r, ps, committer)
    ensures !Removes(ps, r.index)
  {
    forall j | 0 <= j < |ps| ensures ps[j].proposal != Remove(r.index) {
      assert ValidProposal(env, r, ps[j].sender, ps[j].proposal);
    }
  }

  lemma OthersLeaf(s: Suite, t: Tree, from: LeafIndex, secret: Bytes, rest: Bytes, t': Tree, cv: View, i: LeafIndex)
    requires Commits(s, t, from, secret, rest, t', cv) && i != from
    ensures OccLeaf(t, i) ==> OccLeaf(t', i) && LeafAt(t', i) == LeafAt(t, i)
  {
    hide Lo, Hi, Width, Level, IsPow2, Commits, Merge, WF, FilteredPath, OccLeaf, LeafAt;
    CommitTree(s, t, from, secret, rest, t', cv);
    if OccLeaf(t, i) { LeafKept(t, t', from, i); }
  }

  lemma FollowWithPath(s: Suite, k: Kdf, env: Env, c: State, r: State, input: CommitInput)
    requires DecryptionWorks(s) && TreeHashInjective(s)
    requires Member(s, c) && Member(s, r) && InStep(s, k, c, r) && c.index != r.index && CachedFits(s, r)
    requires Commit(s, k, env, c, input).Ok? && Prepare(s, k, env, c, input).Ok?
    requires Prepare(s, k, env, c, input).value.path.Some?
    requires Understands(c, r, Prepare(s, k, env, c, input).value)
    requires KnowsAll(r.pending, c.pending) && HoldsPsks(r.psks, Prepare(s, k, env, c, input).value.list)
    ensures Follows(s, k, env, c, Prepare(s, k, env, c, input).value, Commit(s, k, env, c, input).value.1, r,
                    HandleCommit(s, k, env, r, Commit(s, k, env, c, input).value.0))
  {
    hide Lo, Hi, Width, Level, IsPow2, Prepare, Commit, HandleCommit, UnmergedOk, Populated, ParentHashValid, UniqueKeys,
      ParentsOk, InStep, Removes, MustResolve, CommitIds, ViewOk, Successor, RootHash, LastUpdate, MergedAtRecipient,
      Understands, HoldsPsks, KnowsAll, UpdateMatches, CachedFits, Arrived;
    CommitTreeOk(s, k, env, c, input);
    CommitFields(s, k, env, c, input);
    if HandleCommit(s, k, env, r, Commit(s, k, env, c, input).value.0).Ok? {
      HandledWithPath(s, k, env, c, r, input);
    }
    hide Good, OccLeaf, WF, Member;
    var m := Prepare(s, k, env, c, input).value;
    if !Removes(m.list, r.index) && UpdateMatches(r, m.list)
       && env.leafValid(c.tree, c.groupId, c.extensions, m.path.value.leaf, FromCommit, Some(c.index)) {
      var r' := ReceiverWithPath(s, k, env, c, r, input);
      SameCached(s, r, r');
      ArrivedFrom(s, k, r.index, Commit(s, k, env, c, input).value.1, r');
    }
  }

  lemma SameCached(s: Suite, a: State, b: State)
    requires a.cachedUpdate == b.cachedUpdate
    ensures CachedFits(s, a) <==> CachedFits(s, b)
  {}

  /** A member follows a commit exactly when `CanFollow` says so; it is then sound and in step with the
      committer again. */
  lemma FollowsIff(s: Suite, k: Kdf, env: Env, c: State, r: State, input: CommitInput)
    requires DecryptionWorks(s) && TreeHashInjective(s)
    requires Member(s, c) && Member(s, r) && CachedFits(s, r) && Together(s, k, c, c) && Together(s, k, c, r)
    requires Commit(s, k, env, c, input).Ok? && Prepare(s, k, env, c, input).Ok?
    ensures Follows(s, k, env, c, Prepare(s, k, env, c, input).value, Commit(s, k, env, c, input).value.1, r,
                    HandleCommit(s, k, env, r, Commit(s, k, env, c, input).value.0))
  {
    hide Prepare, Commit, HandleCommit, InStep, MustResolve, CommitIds, Good, ViewOk, KnowsAll, HoldsPsks, UpdateMatches,
      CachedFits, Removes, RefsAgree, PsksAgree, Arrived, Understands;
    UnderstandsIff(s, k, env, c, r, input);
    CommitTreeOk(s, k, env, c, input);
    CommitFields(s, k, env, c, input);
    if r.index == c.index {
      OwnCommitRefused(s, k, env, r, Commit(s, k, env, c, input).value.0);
    } else if Understands(c, r, Prepare(s, k, env, c, input).value) {
      if Prepare(s, k, env, c, input).value.path.None? {
        FollowWithoutPath(s, k, env, c, r, input);
      } else {
        FollowWithPath(s, k, env, c, r, input);
      }
    }
  }

  lemma OwnCommitRefused(s: Suite, k: Kdf, env: Env, r: State, msg: CommitMessage)
    requires Good(s, r.tree) && msg.sender == r.index
    ensures HandleCommit(s, k, env, r, msg) == Err(InvalidParameter)
  {}

  lemma PreparedCommit(s: Suite, k: Kdf, env: Env, c: State, input: CommitInput)
    requires Good(s, c.tree) && Commit(s, k, env, c, input).Ok?
    ensures Prepare(s, k, env, c, input).Ok?
  {
    hide Prepare, Successor;
  }

  // --------------------------------------------------------------------------
  // Who can join
  // --------------------------------------------------------------------------

  /** What a joiner brings: the key of its leaf and its external pre-shared keys. */
  datatype Kit = Kit(key: PrivateKey, psks: map<Bytes, Bytes>)

  /** The joiner at a leaf opens the Welcome of a commit. */
  ghost function JoinBy(s: Suite, k: Kdf, env: Env, c: State, input: CommitInput, i: LeafIndex, kit: Kit): Result<State>
    requires Good(s, c.tree)
  {
    if Prepare(s, k, env, c, input).Err? || Commit(s, k, env, c, input).Err? then Err(Protocol)
    else
      CommitFields(s, k, env, c, input);
      var m, next := Prepare(s, k, env, c, input).value, Commit(s, k, env, c, input).value.1;
      if i !in m.joiners || !OccLeaf(next.tree, i) || !Shape(next.tree) then Err(InvalidParameter)
      else Join(s, k, env, WelcomeFor(s, m, next, i), next.tree, LeafAt(next.tree, i), kit.key, kit.psks)
  }

  /** A joiner holds the key of its own key package. */
  ghost predicate KitFits(s: Suite, k: Kdf, env: Env, c: State, input: CommitInput, i: LeafIndex, kit: Kit)
    requires Good(s, c.tree)
  {
    Prepare(s, k, env, c, input).Ok? ==>
      var m := Prepare(s, k, env, c, input).value;
      OccLeaf(m.applied, i) ==> PublicOf(s, kit.key) == LeafAt(m.applied, i).encryptionKey
  }

  /** What a joiner's own checks come to. */
  ghost predicate CanJoin(env: Env, c: State, m: Materials, kit: Kit) {
    env.treeLeavesValid(m.tree, c.groupId, m.extensions) && HoldsPsks(kit.psks, m.list)
  }

  /** A joiner gets in exactly when `CanJoin` says so, and is then in step with the committer. */
  lemma JoinsIff(s: Suite, k: Kdf, env: Env, c: State, input: CommitInput, i: LeafIndex, kit: Kit)
    requires Member(s, c) && KitFits(s, k, env, c, input, i, kit) && PsksAgree(c.psks, kit.psks)
    requires Commit(s, k, env, c, input).Ok? && Prepare(s, k, env, c, input).Ok?
    requires i in Prepare(s, k, env, c, input).value.joiners
    ensures i != c.index
    ensures JoinBy(s, k, env, c, input, i, kit).Ok? <==> CanJoin(env, c, Prepare(s, k, env, c, input).value, kit)
    ensures JoinBy(s, k, env, c, input, i, kit).Ok? ==>
      var st := JoinBy(s, k, env, c, input, i, kit).value;
      Arrived(s, k, i, Commit(s, k, env, c, input).value.1, st) && st.psks == kit.psks
  {
    hide Prepare, Commit, HandleCommit, InStep, Good, ViewOk, Join, LastUpdate, Shape, OccLeaf, Successor, Removes,
      Lo, Hi, WF, AddedLeaves, ValidNormal, Apply, HoldsPsks, PsksAgree, ResolveIds, PskIds, ResolvePsks, Arrived;
    CommitFields(s, k, env, c, input);
    MaterialsFacts(s, k, env, c, input);
    var m := Prepare(s, k, env, c, input).value;
    var next := Commit(s, k, env, c, input).value.1;
    GoodWF(s, c.tree);
    ValidUpdates(env, c, m.list, c.index);
    RosterConserved(c.tree, m.list, m.applied, m.joiners);
    var j :| 0 <= j < |m.joiners| && m.joiners[j] == i;
    MemberLeaf(s, c);
    if JoinBy(s, k, env, c, input, i, kit).Ok? {
      JoinChecks(s, k, env, WelcomeFor(s, m, next, i), next.tree, LeafAt(next.tree, i), kit.key, kit.psks);
      IdsHeld(c.psks, kit.psks, m.list);
    }
    SamePsks(c.psks, kit.psks, m.list);
    if CanJoin(env, c, m, kit) {
      var st := JoinerInStep(s, k, env, c, input, j, kit.key, kit.psks);
      NoUpdateKept(s, st);
      ArrivedFrom(s, k, i, next, st);
    }
  }

  lemma NoUpdateKept(s: Suite, st: State)
    requires st.cachedUpdate.None?
    ensures CachedFits(s, st)
  {}

  lemma MemberLeaf(s: Suite, st: State)
    requires Member(s, st)
    ensures OccLeaf(st.tree, st.index)
  {
    hide Good, ParentsOk, Lo, Hi;
  }
}
