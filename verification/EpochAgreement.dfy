/** Members that are in step stay in step: what `commit` gives one of them and `handle_commit` gives
    another are equal states (`operator==`), and exactly when `handle_commit` succeeds. */
module EpochAgreement {
  import opened Wrappers
  import opened TreeMath
  import opened Crypto
  import opened RatchetTree
  import opened TreeInvariant
  import opened TreePaths
  import opened ParentHashes
  import opened TreeRuns
  import opened Views
  import opened Agreement
  import opened Implanting
  import opened Receivers
  import opened Proposals
  import opened KeySchedule
  import opened GroupState

  // --------------------------------------------------------------------------
  // What does not depend on who looks at it
  // --------------------------------------------------------------------------

  lemma SameValidity(env: Env, a: State, b: State, ps: seq<CachedProposal>, committer: LeafIndex)
    requires a.tree == b.tree && a.groupId == b.groupId && a.extensions == b.extensions
    requires ValidNormal(env, a, ps, committer) && !Removes(ps, b.index) && HoldsPsks(b.psks, ps)
    ensures ValidNormal(env, b, ps, committer)
  {
    forall k | 0 <= k < |ps| ensures ValidProposal(env, b, ps[k].sender, ps[k].proposal) {
      assert ValidProposal(env, a, ps[k].sender, ps[k].proposal);
    }
  }

  lemma {:induction false} SameExtensions(env: Env, a: State, b: State, ps: seq<CachedProposal>)
    requires a.tree == b.tree && a.extensions == b.extensions
    ensures NewExtensions(env, a, ps) == NewExtensions(env, b, ps)
    decreases |ps|
  {
    if ps != [] { SameExtensions(env, a, b, ps[1..]); }
  }

  /** Members that agree about the keys they share resolve a list alike, if they hold what it asks for. */
  lemma {:induction false} SamePsks(a: map<Bytes, Bytes>, b: map<Bytes, Bytes>, ps: seq<CachedProposal>)
    requires PsksAgree(a, b) && ResolvePsks(a, ps).Ok?
    ensures ResolvePsks(b, ps).Ok? <==> HoldsPsks(b, ps)
    ensures HoldsPsks(b, ps) ==> ResolvePsks(b, ps) == ResolvePsks(a, ps)
    decreases |ps|
  {
    if ps != [] {
      SamePsks(a, b, ps[1..]);
      assert forall k :: 0 <= k < |ps[1..]| ==> ps[1..][k] == ps[k + 1];
      assert HoldsPsks(b, ps) <==> (ps[0].proposal.PreSharedKey? ==> ps[0].proposal.id.name in b) && HoldsPsks(b, ps[1..]);
    }
  }

  lemma ValidUpdates(env: Env, st: State, ps: seq<CachedProposal>, committer: LeafIndex)
    requires ValidNormal(env, st, ps, committer)
    ensures UpdatesFromMembers(st.tree, ps)
    ensures !Removes(ps, committer) && LastUpdate(ps, committer).None?
    ensures !PathRequired(ps) ==> forall l :: !Removes(ps, l) && LastUpdate(ps, l).None?
  {
    hide OccLeaf;
    forall k | 0 <= k < |ps| && ps[k].proposal.Update? && ps[k].sender.Some? ensures OccLeaf(st.tree, ps[k].sender.value) {
      assert ValidProposal(env, st, ps[k].sender, ps[k].proposal);
    }
    NoUpdate(ps, committer);
    if !PathRequired(ps) {
      forall k | 0 <= k < |ps| ensures !ps[k].proposal.Update? && !ps[k].proposal.Remove? {
        assert !NeedsPath(ps[k].proposal);
      }
      forall l: LeafIndex ensures LastUpdate(ps, l).None? { NoUpdate(ps, l); }
    }
  }

  lemma {:induction false} NoUpdate(ps: seq<CachedProposal>, l: LeafIndex)
    requires forall k :: 0 <= k < |ps| ==> !(ps[k].proposal.Update? && ps[k].sender == Some(l))
    ensures LastUpdate(ps, l).None?
    decreases |ps|
  {
    if ps != [] {
      assert forall k :: 0 <= k < |ps[1..]| ==> ps[1..][k] == ps[k + 1];
      NoUpdate(ps[1..], l);
    }
  }

  // --------------------------------------------------------------------------
  // A survivor's view after the proposals
  // --------------------------------------------------------------------------

  /** `ratchet` finds a leaf key that fits, taken from the kept self-update where there was one. */
  lemma SurvivorView(s: Suite, st: State, ps: seq<CachedProposal>, t1: Tree, joiners: seq<LeafIndex>, t2: Tree)
    returns (v: View)
    requires Member(s, st) && Apply(st.tree, ps) == Ok((t1, joiners)) && UpdatesFromMembers(st.tree, ps)
    requires !Removes(ps, st.index) && UpdateMatches(st, ps) && CachedFits(s, st)
    requires t2.size == t1.size && OccLeaf(t2, st.index)
    requires OccLeaf(t1, st.index) ==> LeafAt(t2, st.index) == LeafAt(t1, st.index)
    ensures WF(t1) && 0 < t1.size && OccLeaf(t1, st.index)
    ensures RatchetLeaf(s, st, t2) == Ok(v)
    ensures ViewOk(s, t1, v) && Inside(t1, v) && v.index == st.index
  {
    hide Lo, Hi, Width, Level, IsPow2, UnmergedOk, Populated, ParentsOk, Apply, TruncateView, Inside, LastUpdate, Removes;
    ApplyView(s, st.tree, ps, t1, joiners, st.view);
    RosterConserved(st.tree, ps, t1, joiners);
    OccLeafInTree(st.tree, st.index);
    OccLeafInTree(t1, st.index);
    var w := TruncateView(st.view, t1.size);
    TruncateKeepsLeaf(st.view, t1.size);
    assert OccLeaf(st.tree, st.index) && LeafNodeIndex(st.index) in st.view.cache;
    var leaf := LeafAt(t1, st.index);
    if leaf.encryptionKey == PublicOf(s, w.cache[LeafNodeIndex(st.index)]) {
      v := w;
    } else {
      assert LastUpdate(ps, st.index) == Some(leaf);
      v := SetLeafKeyView(w, st.cachedUpdate.value.1);
      SetLeafKeyOk(s, t1, w, st.cachedUpdate.value.1);
    }
  }

  lemma TruncateKeepsLeaf(v: View, size: nat)
    requires v.index < size && LeafNodeIndex(v.index) in v.cache
    ensures var w := TruncateView(v, size);
      && w.index == v.index && LeafNodeIndex(v.index) in w.cache
      && w.cache[LeafNodeIndex(v.index)] == v.cache[LeafNodeIndex(v.index)]
  {
    hide Lo, Hi;
  }

  lemma SetLeafKeyOk(s: Suite, t: Tree, v: View, key: PrivateKey)
    requires WF(t) && ParentsOk(s, t, v) && Inside(t, v) && v.index < t.size && OccLeaf(t, v.index)
    requires LeafNodeIndex(v.index) in v.cache
    requires PublicOf(s, key) == LeafAt(t, v.index).encryptionKey
    ensures var w := SetLeafKeyView(v, key); ViewOk(s, t, w) && Inside(t, w) && w.index == v.index
  {
    hide Lo, Hi, Width, Level, IsPow2, UnmergedOk, Populated;
    var w := SetLeafKeyView(v, key);
    assert forall n :: Have(w, n) <==> Have(v, n);
    assert forall n :: OccParent(t, n) ==> n != LeafNodeIndex(v.index);
    assert forall n :: n != LeafNodeIndex(v.index) ==> KeyAt(s, w, n) == KeyAt(s, v, n);
  }

  // --------------------------------------------------------------------------
  // The committer
  // --------------------------------------------------------------------------

  lemma MaterialsFacts(s: Suite, k: Kdf, env: Env, c: State, input: CommitInput)
    requires Good(s, c.tree) && Prepare(s, k, env, c, input).Ok?
    ensures var m := Prepare(s, k, env, c, input).value;
      && MustResolve(m.ids, c.pending, c.index) == Ok(m.list)
      && ValidNormal(env, c, m.list, c.index)
      && Apply(c.tree, m.list) == Ok((m.applied, m.joiners))
      && NewExtensions(env, c, m.list) == Ok(m.extensions)
      && ResolvePsks(c.psks, m.list) == Ok(m.psks)
      && WF(m.applied) && m.tree.size == m.applied.size > 0 && IsPow2(m.tree.size)
      && (m.path.None? ==> m.tree == m.applied && m.view == c.view && !PathRequired(m.list))
  {
    hide ValidNormal, Apply, Views.Update, Good, SentPath, MustResolve, NewExtensions, ResolvePsks, PathRequired, CommitIds;
    MaterialsTree(s, k, env, c, input);
    GoodWF(s, Prepare(s, k, env, c, input).value.applied);
  }

  lemma MaterialsPath(s: Suite, k: Kdf, env: Env, c: State, input: CommitInput)
    requires Good(s, c.tree) && Prepare(s, k, env, c, input).Ok?
    requires Prepare(s, k, env, c, input).value.path.Some?
    ensures var m := Prepare(s, k, env, c, input).value;
      && Commits(s, m.applied, c.index, input.leafSecret, input.rest, m.tree, m.view)
      && m.tree.size > 0
      && m.path.value == SentPath(s, m.applied, c.index, input.leafSecret, input.rest, m.tree, m.view,
                                  PathContext(s, k, c, m.tree, m.extensions), m.joiners, input.coins)
  {
    hide ValidNormal, Apply, Views.Update, Good, SentPath, MustResolve, NewExtensions, ResolvePsks, PathRequired, CommitIds,
      Commits;
    MaterialsTree(s, k, env, c, input);
  }

  /** The committed tree passes all checks again. */
  lemma CommittedGood(s: Suite, t: Tree, from: LeafIndex, secret: Bytes, rest: Bytes, t': Tree, cv: View,
                      context: Bytes, except: seq<LeafIndex>, coins: Coins)
    requires Good(s, t) && Commits(s, t, from, secret, rest, t', cv)
    ensures Good(s, t')
  {
    hide Lo, Hi, Width, Level, IsPow2, FilteredPath, Merge, Commits, SentPath, PathParentHashValid, ParentHashValid,
      UniqueKeys, UnmergedOk, Populated;
    SentPathMerges(s, t, from, secret, rest, t', cv, context, except, coins);
    var path := SentPath(s, t, from, secret, rest, t', cv, context, except, coins);
    MergeWF(s, t, from, path);
    MergeValid(s, t, from, path);
    MergeUnique(s, t, from, path);
  }

  /** The committer's next state is sound. */
  lemma CommitterMember(s: Suite, k: Kdf, env: Env, c: State, input: CommitInput)
    requires Member(s, c) && Commit(s, k, env, c, input).Ok?
    ensures Member(s, Commit(s, k, env, c, input).value.1)
  {
    hide Lo, Hi, Width, Level, IsPow2, ParentsOk, Apply, Views.Update, Good, SentPath, MustResolve, ValidNormal,
      NewExtensions, ResolvePsks, Prepare, Commits, Removes, LastUpdate, PathRequired, NextEpoch;
    MaterialsFacts(s, k, env, c, input);
    var m := Prepare(s, k, env, c, input).value;
    ApplyGood(s, c.tree, m.list, m.applied, m.joiners);
    GoodWF(s, c.tree);
    if m.path.Some? {
      MaterialsPath(s, k, env, c, input);
      CommittedGood(s, m.applied, c.index, input.leafSecret, input.rest, m.tree, m.view, [], [], input.coins);
      CommitterViewOk(s, m.applied, c.index, input.leafSecret, input.rest, m.tree, m.view);
      CommitterIndex(s, m.applied, c.index, input.leafSecret, input.rest, m.tree, m.view);
    } else {
      ValidUpdates(env, c, m.list, c.index);
      ApplyView(s, c.tree, m.list, m.applied, m.joiners, c.view);
      RosterConserved(c.tree, m.list, m.applied, m.joiners);
      OccLeafInTree(m.applied, c.index);
    }
  }

  // --------------------------------------------------------------------------
  // The receiver
  // --------------------------------------------------------------------------

  /** The key of the first recipient above the member is one it holds. */
  ghost predicate MergedAtRecipient(s: Suite, m: Materials, from: LeafIndex, to: LeafIndex)
    requires WF(m.applied) && IsPow2(m.applied.size) && from < m.applied.size
    requires OccLeaf(m.applied, to) && to != from && to !in m.joiners
  {
    m.path.Some? ==> to !in Unmerged(m.applied, DecapCoords(m.applied, to, from, m.joiners).node)
  }

  lemma SuccessorsEqual(s: Suite, k: Kdf, env: Env, a: State, b: State, tree: Tree, va: View, vb: View,
                        extensions: Bytes, confirmed: Bytes, hasPath: bool, psks: seq<PskWithSecret>)
    requires tree.size > 0 && InStep(s, k, a, b) && (hasPath ==> va.updateSecret == vb.updateSecret)
    ensures var x := Successor(s, k, env, a, tree, va, extensions, confirmed, hasPath, psks);
      var y := Successor(s, k, env, b, tree, vb, extensions, confirmed, hasPath, psks);
      && InStep(s, k, x, y) && x.tree == y.tree == tree && x.schedule == y.schedule
      && x.view == va && y.view == vb && x.index == a.index && y.index == b.index
  {
    hide TreeHash;
  }

  /** A receiver makes of the references and pre-shared keys of a commit what the committer means. */
  ghost predicate Understands(c: State, r: State, m: Materials) {
    && MustResolve(m.ids, r.pending, c.index) == Ok(m.list)
    && HoldsPsks(r.psks, m.list) && ResolvePsks(r.psks, m.list) == Ok(m.psks)
  }

  lemma ReceiverWithoutPath(s: Suite, k: Kdf, env: Env, c: State, r: State, input: CommitInput)
    returns (r': State)
    requires TreeHashInjective(s) && Member(s, c) && Member(s, r) && InStep(s, k, c, r) && c.index != r.index
    requires Commit(s, k, env, c, input).Ok? && Commit(s, k, env, c, input).value.0.path.None?
    requires Prepare(s, k, env, c, input).Ok? && Understands(c, r, Prepare(s, k, env, c, input).value) && CachedFits(s, r)
    ensures HandleCommit(s, k, env, r, Commit(s, k, env, c, input).value.0) == Ok(r')
    ensures InStep(s, k, Commit(s, k, env, c, input).value.1, r')
    ensures r'.tree == Commit(s, k, env, c, input).value.1.tree && r'.index == r.index && r'.pending == []
    ensures r'.psks == r.psks && r'.cachedUpdate == r.cachedUpdate
    ensures Member(s, r')
  {
    hide Lo, Hi, Width, Level, IsPow2, ParentsOk, Apply, Views.Update, SentPath, MustResolve, ValidNormal, InStep,
      NewExtensions, ResolvePsks, Prepare, Commits, Removes, LastUpdate, PathRequired, NextEpoch, Successor, RatchetLeaf,
      ParentHashValid, UniqueKeys, UnmergedOk, Populated, ReceivePath, DecapAt, NewConfirmed;
    InStepSameTree(s, k, c, r);
    InStepFields(s, k, c, r);
    MaterialsFacts(s, k, env, c, input);
    var m := Prepare(s, k, env, c, input).value;
    ValidUpdates(env, c, m.list, c.index);
    SameValidity(env, c, r, m.list, c.index);
    SameExtensions(env, c, r, m.list);
    ApplyGood(s, c.tree, m.list, m.applied, m.joiners);
    RosterConserved(c.tree, m.list, m.applied, m.joiners);
    var v := SurvivorView(s, r, m.list, m.applied, m.joiners, m.applied);
    var confirmed := NewConfirmed(k, env, c, c.index, m.ids, m.path, input.aux);
    assert confirmed == NewConfirmed(k, env, r, c.index, m.ids, m.path, input.aux) by {
      hide *;
      SameConfirmed(k, env, c, r, c.index, m.ids, m.path, input.aux);
    }
    r' := Successor(s, k, env, r, m.applied, v, m.extensions, confirmed, false, m.psks);
    SuccessorsEqual(s, k, env, c, r, m.applied, c.view, v, m.extensions, confirmed, false, m.psks);
    SuccessorFields(s, k, env, r, m.applied, v, m.extensions, confirmed, false, m.psks);
    OccLeafInTree(m.applied, r.index);
  }

  lemma InStepFields(s: Suite, k: Kdf, a: State, b: State)
    requires InStep(s, k, a, b)
    ensures a.groupId == b.groupId && a.epoch == b.epoch && a.extensions == b.extensions
    ensures a.interim == b.interim && a.confirmed == b.confirmed
  {
    hide TreeHash;
  }

  lemma SameConfirmed(k: Kdf, env: Env, a: State, b: State, sender: LeafIndex, ids: seq<ProposalOrRef>,
                      path: Option<UpdatePath>, aux: Bytes)
    requires a.interim == b.interim
    ensures NewConfirmed(k, env, a, sender, ids, path, aux) == NewConfirmed(k, env, b, sender, ids, path, aux)
  {
  }

  lemma SuccessorFields(s: Suite, k: Kdf, env: Env, a: State, tree: Tree, v: View, extensions: Bytes, confirmed: Bytes,
                        hasPath: bool, psks: seq<PskWithSecret>)
    requires tree.size > 0
    ensures var x := Successor(s, k, env, a, tree, v, extensions, confirmed, hasPath, psks);
      && x.tree == tree && x.view == v && x.index == a.index && x.pending == [] && x.psks == a.psks
      && x.epoch == a.epoch + 1 && x.cachedUpdate == a.cachedUpdate
  {
    hide TreeHash;
  }

  /** The checks a receiver makes on the path pass, and it computes the committer's tree. */
  lemma PathReceived(s: Suite, env: Env, r: State, t1: Tree, from: LeafIndex, secret: Bytes, rest: Bytes, t2: Tree,
                     cv: View, context: Bytes, joiners: seq<LeafIndex>, coins: Coins)
    requires Commits(s, t1, from, secret, rest, t2, cv)
    requires r.index != from && OccLeaf(t1, r.index) && r.index !in joiners
    requires WF(t1) && IsPow2(t1.size)
    requires var path := SentPath(s, t1, from, secret, rest, t2, cv, context, joiners, coins);
      env.leafValid(r.tree, r.groupId, r.extensions, path.leaf, FromCommit, Some(from))
    ensures WF(t2) && t2.size == t1.size && from < t2.size && IsPow2(t2.size)
    ensures OccLeaf(t2, r.index) && LeafAt(t2, r.index) == LeafAt(t1, r.index)
    ensures var path := SentPath(s, t1, from, secret, rest, t2, cv, context, joiners, coins);
      && Merge(s, t1, from, path) == Ok(t2)
      && ReceivePath(s, env, r, t1, from, path, joiners) == Ok((t2, DecapCoords(t2, r.index, from, joiners)))
  {
    hide Lo, Hi, Width, Level, IsPow2, FilteredPath, Merge, Commits, SentPath, PathParentHashValid, UnmergedOk, Populated,
      DecapCoords, Ancestor, OffPath;
    SentPathMerges(s, t1, from, secret, rest, t2, cv, context, joiners, coins);
    CommitTreeFits(s, t1, from, secret, rest, t2, cv);
    OccLeafAfter(s, t1, from, secret, rest, t2, cv, r.index);
    Overlap(t2, from, r.index);
  }

  /** What the committer and the receiver did in the steps before the path is looked at. */
  ghost predicate Prepared(s: Suite, k: Kdf, env: Env, c: State, r: State, input: CommitInput, m: Materials) {
    && Good(s, c.tree) && Good(s, r.tree)
    && MustResolve(m.ids, r.pending, c.index) == Ok(m.list)
    && Apply(r.tree, m.list) == Ok((m.applied, m.joiners))
    && NewExtensions(env, r, m.list) == Ok(m.extensions)
    && ResolvePsks(r.psks, m.list) == Ok(m.psks)
    && ValidNormal(env, r, m.list, c.index)
    && Good(s, m.applied) && m.applied.size > 0 && IsPow2(m.applied.size)
    && OccLeaf(m.applied, r.index) && r.index !in m.joiners
    && UpdatesFromMembers(r.tree, m.list)
  }

  lemma ReceiverPrepared(s: Suite, k: Kdf, env: Env, c: State, r: State, input: CommitInput)
    requires TreeHashInjective(s) && Member(s, c) && Member(s, r) && InStep(s, k, c, r)
    requires Prepare(s, k, env, c, input).Ok? && Understands(c, r, Prepare(s, k, env, c, input).value)
    requires !Removes(Prepare(s, k, env, c, input).value.list, r.index)
    ensures Prepared(s, k, env, c, r, input, Prepare(s, k, env, c, input).value)
    ensures c.tree == r.tree
  {
    hide Lo, Hi, Width, Level, IsPow2, ParentsOk, Apply, Views.Update, SentPath, MustResolve, ValidNormal, InStep,
      NewExtensions, ResolvePsks, Prepare, Commits, Removes, LastUpdate, PathRequired,
      ParentHashValid, UniqueKeys, UnmergedOk, Populated;
    InStepSameTree(s, k, c, r);
    InStepFields(s, k, c, r);
    MaterialsFacts(s, k, env, c, input);
    var m := Prepare(s, k, env, c, input).value;
    ValidUpdates(env, c, m.list, c.index);
    SameValidity(env, c, r, m.list, c.index);
    SameExtensions(env, c, r, m.list);
    ApplyGood(s, c.tree, m.list, m.applied, m.joiners);
    RosterConserved(c.tree, m.list, m.applied, m.joiners);
  }

  /** The outcome of `handle_commit` once the path has been received and decrypted, or not. */
  lemma HandleWithPath(s: Suite, k: Kdf, env: Env, c: State, r: State, input: CommitInput, m: Materials, path: UpdatePath,
                       tag: Bytes, coords: Coords, v: View)
    requires Prepared(s, k, env, c, r, input, m) && r.index != c.index && m.path == Some(path) && m.tree.size > 0
    requires WF(m.applied)
    requires Merge(s, m.applied, c.index, path) == Ok(m.tree)
    requires ReceivePath(s, env, r, m.applied, c.index, path, m.joiners) == Ok((m.tree, coords))
    requires coords.entry < |path.nodes| && coords.recipient < |path.nodes[coords.entry].encrypted|
    requires RatchetLeaf(s, r, m.tree) == Ok(v)
    requires Shape(m.tree)
    ensures HandleCommit(s, k, env, r, CommitMessage(c.index, m.ids, m.path, input.aux, tag)) ==
      match DecapAt(s, m.tree, v, c.index, PathContext(s, k, r, m.tree, m.extensions), coords.node,
                    path.nodes[coords.entry].encrypted[coords.recipient])
      case Err(e) => Err(e)
      case Ok(w) =>
        Confirmed(Successor(s, k, env, r, m.tree, w, m.extensions,
                            NewConfirmed(k, env, r, c.index, m.ids, m.path, input.aux), true, m.psks), tag)
  {
    hide Lo, Hi, Width, Level, IsPow2, Apply, MustResolve, ValidNormal, NewExtensions, ResolvePsks, PathRequired, Successor,
      ReceivePath, RatchetLeaf, DecapAt, PathContext, NewConfirmed, Confirmed, ParentHashValid, UniqueKeys, UnmergedOk,
      Populated, Merge;
  }

  /** A receiver of a commit with a path follows it exactly when it is merged into the first recipient
      above it; then its new state equals the committer's. */
  lemma ReceiverWithPath(s: Suite, k: Kdf, env: Env, c: State, r: State, input: CommitInput)
    returns (r': State)
    requires DecryptionWorks(s) && TreeHashInjective(s)
    requires Member(s, c) && Member(s, r) && InStep(s, k, c, r) && c.index != r.index
    requires Commit(s, k, env, c, input).Ok? && Commit(s, k, env, c, input).value.0.path.Some?
    requires Prepare(s, k, env, c, input).Ok?
    requires var m := Prepare(s, k, env, c, input).value;
      && !Removes(m.list, r.index) && UpdateMatches(r, m.list) && CachedFits(s, r) && Understands(c, r, m)
      && m.path.Some?
      && env.leafValid(c.tree, c.groupId, c.extensions, m.path.value.leaf, FromCommit, Some(c.index))
    ensures var m := Prepare(s, k, env, c, input).value;
      && WF(m.applied) && IsPow2(m.applied.size) && c.index < m.applied.size
      && OccLeaf(m.applied, r.index) && r.index !in m.joiners
      && (HandleCommit(s, k, env, r, Commit(s, k, env, c, input).value.0) ==
           if MergedAtRecipient(s, m, c.index, r.index) then Ok(r') else Err(BadOptional))
    ensures InStep(s, k, Commit(s, k, env, c, input).value.1, r')
    ensures r'.tree == Commit(s, k, env, c, input).value.1.tree && r'.index == r.index && r'.pending == []
    ensures r'.psks == r.psks && r'.cachedUpdate == r.cachedUpdate
    ensures Member(s, r')
  {
    hide Lo, Hi, Width, Level, IsPow2, ParentsOk, Apply, Views.Update, SentPath, MustResolve, ValidNormal, InStep,
      NewExtensions, ResolvePsks, Prepare, Commits, Removes, LastUpdate, PathRequired, NextEpoch, Successor, RatchetLeaf,
      ParentHashValid, UniqueKeys, UnmergedOk, Populated, ReceivePath, DecapAt, NewConfirmed, DecapCoords, Agree, Decap,
      HandleCommit, UpdateMatches, CachedFits, PathContext;
    InStepFields(s, k, c, r);
    ReceiverPrepared(s, k, env, c, r, input);
    MaterialsFacts(s, k, env, c, input);
    MaterialsPath(s, k, env, c, input);
    var m := Prepare(s, k, env, c, input).value;
    var path := m.path.value;
    var context := PathContext(s, k, c, m.tree, m.extensions);
    PathReceived(s, env, r, m.applied, c.index, input.leafSecret, input.rest, m.tree, m.view, context, m.joiners, input.coins);
    var v := SurvivorView(s, r, m.list, m.applied, m.joiners, m.tree);
    var w := CoordsDecap(s, m.applied, c.index, input.leafSecret, input.rest, m.tree, m.view, v, context, m.joiners, input.coins);
    assert context == PathContext(s, k, r, m.tree, m.extensions) by { hide *; SamePathContext(s, k, c, r, m.tree, m.extensions); }
    SameRecipient(s, m.applied, c.index, input.leafSecret, input.rest, m.tree, m.view, r.index, m.joiners);
    var coords := DecapCoords(m.tree, r.index, c.index, m.joiners);
    var tag := Commit(s, k, env, c, input).value.0.tag;
    HandleWithPath(s, k, env, c, r, input, m, path, tag, coords, v);
    var confirmed := NewConfirmed(k, env, c, c.index, m.ids, m.path, input.aux);
    assert confirmed == NewConfirmed(k, env, r, c.index, m.ids, m.path, input.aux) by {
      hide *;
      SameConfirmed(k, env, c, r, c.index, m.ids, m.path, input.aux);
    }
    r' := Successor(s, k, env, r, m.tree, w, m.extensions, confirmed, true, m.psks);
    assert m.view.updateSecret == w.updateSecret by { hide *; AgreeSecret(m.tree, m.view, w); }
    SuccessorsEqual(s, k, env, c, r, m.tree, m.view, w, m.extensions, confirmed, true, m.psks);
    SuccessorFields(s, k, env, r, m.tree, w, m.extensions, confirmed, true, m.psks);
    CommittedGood(s, m.applied, c.index, input.leafSecret, input.rest, m.tree, m.view, [], [], input.coins);
  }

  lemma AgreeSecret(t: Tree, a: View, b: View)
    requires Agree(t, a, b)
    ensures a.updateSecret == b.updateSecret
  {
  }

  lemma SamePathContext(s: Suite, k: Kdf, a: State, b: State, tree: Tree, extensions: Bytes)
    requires tree.size > 0 && a.groupId == b.groupId && a.epoch == b.epoch && a.confirmed == b.confirmed
    ensures PathContext(s, k, a, tree, extensions) == PathContext(s, k, b, tree, extensions)
  {
  }
}
