/** Joining from a Welcome (`State` constructor, `import_tree` and `validate_tree` in `state.cpp`).  The
    secrets of the Welcome are taken as already decrypted. */
module Joining {
  import opened Wrappers
  import opened TreeMath
  import opened Crypto
  import opened RatchetTree
  import opened TreeInvariant
  import opened TreeRuns
  import opened TreeHashes
  import opened Views
  import opened Agreement
  import opened Receivers
  import opened Proposals
  import opened KeySchedule
  import opened GroupState
  import opened EpochAgreement

  /** Group secrets and group info for one joiner. */
  datatype Welcome = Welcome(
    joinerSecret: Bytes, pskIds: seq<PskId>, pathSecret: Option<Bytes>, context: GroupContext, tag: Bytes,
    signer: LeafIndex)

  function PskIds(psks: seq<PskWithSecret>): seq<PskId> {
    if psks == [] then [] else [psks[0].id] + PskIds(psks[1..])
  }

  function ResolveIds(psks: map<Bytes, Bytes>, ids: seq<PskId>): Result<seq<PskWithSecret>> {
    if ids == [] then Ok([])
    else if ids[0].name !in psks then Err(Protocol)
    else
      var rest :- ResolveIds(psks, ids[1..]);
      Ok([PskWithSecret(ids[0], psks[ids[0].name])] + rest)
  }

  /** What the committer sends to the joiner at a leaf. */
  ghost function WelcomeFor(s: Suite, m: Materials, next: State, joiner: LeafIndex): Welcome
    requires next.tree.size > 0
  {
    Welcome(next.schedule.joinerSecret, PskIds(m.psks), if m.path.Some? then SharedPathSecret(m.view, joiner) else None,
            ContextOf(s, next), next.schedule.confirmationTag, next.index)
  }

  /** `find`: the first leaf that is equal. */
  ghost function FindLeaf(t: Tree, leaf: LeafNode, from: nat): Option<LeafIndex>
    requires from <= t.size
    decreases t.size - from
  {
    if from == t.size then None
    else if OccLeaf(t, from) && LeafAt(t, from) == leaf then Some(from)
    else FindLeaf(t, leaf, from + 1)
  }

  ghost function Join(s: Suite, k: Kdf, env: Env, w: Welcome, t: Tree, leaf: LeafNode, leafKey: PrivateKey,
                      psks: map<Bytes, Bytes>): Result<State>
    requires Shape(t) && t.size > 0
  {
    var resolved :- ResolveIds(psks, w.pskIds);
    if RootHash(s, t) != w.context.treeHash then Err(InvalidParameter)
    else if !(ParentHashValid(s, t) && UniqueKeys(t) && env.treeLeavesValid(t, w.context.groupId, w.context.extensions)) then
      Err(InvalidParameter)
    else
      match FindLeaf(t, leaf, 0)
      case None => Err(InvalidParameter)
      case Some(index) =>
        var view :- Joiner(s, t, index, leafKey, Ancestor(index, w.signer), w.pathSecret);
        var context := w.context.(treeHash := RootHash(s, t));
        var schedule := MakeEpoch(k, w.joinerSecret, PskSecret(k, resolved), context.confirmed, ContextBytes(k, context));
        Confirmed(
          State(context.groupId, context.epoch, t, view, context.confirmed,
                HashOf(k, context.confirmed + env.marshalTag(w.tag)), schedule, context.extensions, index, [], None, psks),
          w.tag)
  }

  lemma {:induction false} IdsResolve(psks: map<Bytes, Bytes>, ps: seq<CachedProposal>)
    requires ResolvePsks(psks, ps).Ok?
    ensures ResolveIds(psks, PskIds(ResolvePsks(psks, ps).value)) == ResolvePsks(psks, ps)
    decreases |ps|
  {
    if ps != [] {
      if ps[0].proposal.PreSharedKey? {
        IdsResolve(psks, ps[1..]);
        var rest := ResolvePsks(psks, ps[1..]).value;
        assert ([PskWithSecret(ps[0].proposal.id, psks[ps[0].proposal.id.name])] + rest)[1..] == rest;
        assert ([ps[0].proposal.id] + PskIds(rest))[1..] == PskIds(rest);
      } else {
        IdsResolve(psks, ps[1..]);
      }
    }
  }

  /** Who can look up the ids of a commit's pre-shared keys holds the keys that its proposals ask for. */
  lemma {:induction false} IdsHeld(a: map<Bytes, Bytes>, b: map<Bytes, Bytes>, ps: seq<CachedProposal>)
    requires ResolvePsks(a, ps).Ok? && ResolveIds(b, PskIds(ResolvePsks(a, ps).value)).Ok?
    ensures HoldsPsks(b, ps)
    decreases |ps|
  {
    if ps != [] {
      assert forall k :: 0 < k < |ps| ==> ps[k] == ps[1..][k - 1];
      if ps[0].proposal.PreSharedKey? {
        var rest := ResolvePsks(a, ps[1..]).value;
        assert ([PskWithSecret(ps[0].proposal.id, a[ps[0].proposal.id.name])] + rest)[1..] == rest;
        assert ([ps[0].proposal.id] + PskIds(rest))[1..] == PskIds(rest);
      }
      IdsHeld(a, b, ps[1..]);
    }
  }

  lemma {:induction false} FindUnique(t: Tree, l: LeafIndex, from: nat)
    requires UniqueKeys(t) && from <= l < t.size && OccLeaf(t, l)
    ensures FindLeaf(t, LeafAt(t, l), from) == Some(l)
    decreases l - from
  {
    hide OccLeaf, LeafAt;
    if from < l { FindUnique(t, l, from + 1); }
  }

  /** The view a joiner builds fits the committed tree. */
  lemma JoinerView(s: Suite, k: Kdf, env: Env, c: State, input: CommitInput, m: Materials, i: LeafIndex, key: PrivateKey)
    returns (v: View)
    requires Member(s, c) && Commit(s, k, env, c, input).Ok? && Prepare(s, k, env, c, input) == Ok(m)
    requires i in m.joiners && OccLeaf(m.applied, i) && PublicOf(s, key) == LeafAt(m.applied, i).encryptionKey
    ensures m.tree.size > 0 && WF(m.tree) && i != c.index
    ensures OccLeaf(m.tree, i) && LeafAt(m.tree, i) == LeafAt(m.applied, i)
    ensures Joiner(s, m.tree, i, key, Ancestor(i, c.index), if m.path.Some? then SharedPathSecret(m.view, i) else None) == Ok(v)
    ensures ViewOk(s, m.tree, v) && v.index == i
    ensures m.path.Some? ==> v.updateSecret == m.view.updateSecret
  {
    hide Lo, Hi, Width, Level, IsPow2, ParentsOk, Apply, Views.Update, SentPath, MustResolve, ValidNormal,
      NewExtensions, ResolvePsks, Prepare, Commits, Removes, LastUpdate, PathRequired, ParentHashValid, UniqueKeys,
      UnmergedOk, Populated, Commit, FreshLeaf, Joiner, SharedPathSecret, Ancestor;
    MaterialsFacts(s, k, env, c, input);
    JoinersFresh(c.tree, m.list, m.applied, m.joiners);
    ValidUpdates(env, c, m.list, c.index);
    RosterConserved(c.tree, m.list, m.applied, m.joiners);
    assert i != c.index;
    if m.path.Some? {
      MaterialsPath(s, k, env, c, input);
      v := JoinerAgrees(s, m.applied, c.index, input.leafSecret, input.rest, m.tree, m.view, i, key);
      OccLeafAfter(s, m.applied, c.index, input.leafSecret, input.rest, m.tree, m.view, i);
      assert v.updateSecret == m.view.updateSecret by { hide *; AgreeSecret(m.tree, m.view, v); }
    } else {
      v := JoinerAlone(s, m.applied, i, key, Ancestor(i, c.index));
    }
  }

  /** A joiner's first state equals the committer's next one: it passes every check of the join, holds
      the right view, and the two can follow the same commits. */
  lemma JoinerInStep(s: Suite, k: Kdf, env: Env, c: State, input: CommitInput, j: nat, key: PrivateKey,
                     psks: map<Bytes, Bytes>)
    returns (st: State)
    requires Member(s, c) && Commit(s, k, env, c, input).Ok? && Prepare(s, k, env, c, input).Ok?
    requires var m := Prepare(s, k, env, c, input).value;
      && j < |m.joiners| == |AddedLeaves(m.list)|
      && PublicOf(s, key) == AddedLeaves(m.list)[j].encryptionKey
      && env.treeLeavesValid(m.tree, c.groupId, m.extensions) && ResolvePsks(psks, m.list) == Ok(m.psks)
    ensures var m := Prepare(s, k, env, c, input).value;
      var next := Commit(s, k, env, c, input).value.1;
      && next.tree.size > 0 && Shape(next.tree)
      && OccLeaf(next.tree, m.joiners[j]) && LeafAt(next.tree, m.joiners[j]) == AddedLeaves(m.list)[j]
      && Join(s, k, env, WelcomeFor(s, m, next, m.joiners[j]), next.tree, AddedLeaves(m.list)[j], key, psks) == Ok(st)
      && InStep(s, k, next, st) && st.tree == next.tree && Member(s, st) && st.index == m.joiners[j]
      && st.pending == [] && st.psks == psks && st.cachedUpdate.None?
  {
    hide Lo, Hi, Width, Level, IsPow2, ParentsOk, Apply, Views.Update, SentPath, MustResolve, ValidNormal,
      NewExtensions, Commits, Removes, LastUpdate, PathRequired, ParentHashValid, UniqueKeys, Prepare, Commit,
      UnmergedOk, Populated, ViewOk, Joiner, SharedPathSecret, Ancestor, FindLeaf, InStep, Successor, Join;
    MaterialsFacts(s, k, env, c, input);
    var m := Prepare(s, k, env, c, input).value;
    var i := m.joiners[j];
    ValidUpdates(env, c, m.list, c.index);
    RosterConserved(c.tree, m.list, m.applied, m.joiners);
    var v := JoinerView(s, k, env, c, input, m, i, key);
    CommitterMember(s, k, env, c, input);
    CommitFields(s, k, env, c, input);
    var next := Commit(s, k, env, c, input).value.1;
    OccLeafInTree(m.tree, i);
    FindUnique(m.tree, i, 0);
    IdsResolve(psks, m.list);
    hide ResolvePsks, ResolveIds;
    st := State(next.groupId, next.epoch, next.tree, v, next.confirmed, next.interim, next.schedule, next.extensions, i, [],
                None, psks);
    JoinedState(s, k, env, c, input, m, next, i, key, v, AddedLeaves(m.list)[j], psks, st);
    assert InStep(s, k, next, st) by { hide *; EqualFieldsInStep(s, k, next, st); }
  }

  lemma EqualFieldsInStep(s: Suite, k: Kdf, a: State, b: State)
    requires a.tree == b.tree && a.tree.size > 0 && a.groupId == b.groupId && a.epoch == b.epoch && a.confirmed == b.confirmed
    requires a.interim == b.interim && a.schedule == b.schedule && a.extensions == b.extensions
    ensures InStep(s, k, a, b)
  {
    hide TreeHash;
  }

  lemma CommitFields(s: Suite, k: Kdf, env: Env, c: State, input: CommitInput)
    requires Good(s, c.tree) && Commit(s, k, env, c, input).Ok? && Prepare(s, k, env, c, input).Ok?
    ensures var m := Prepare(s, k, env, c, input).value;
      var (msg, next) := Commit(s, k, env, c, input).value;
      && m.tree.size > 0
      && next == Successor(s, k, env, c, m.tree, m.view, m.extensions,
                           NewConfirmed(k, env, c, c.index, m.ids, m.path, input.aux), m.path.Some?, m.psks)
      && next.tree == m.tree && next.index == c.index && next.psks == c.psks && next.pending == []
      && next.groupId == c.groupId && next.extensions == m.extensions && next.view == m.view
      && next.cachedUpdate == c.cachedUpdate
      && msg == CommitMessage(c.index, m.ids, m.path, input.aux, next.schedule.confirmationTag)
  {
    hide Prepare, NextEpoch, TreeHash, NewConfirmed;
    MaterialsTree(s, k, env, c, input);
  }

  /** The steps of `Join` one by one. */
  lemma JoinedState(s: Suite, k: Kdf, env: Env, c: State, input: CommitInput, m: Materials, next: State, i: LeafIndex,
                    key: PrivateKey, v: View, leaf: LeafNode, psks: map<Bytes, Bytes>, st: State)
    requires m.tree.size > 0 && Shape(m.tree) && ParentHashValid(s, m.tree) && UniqueKeys(m.tree)
    requires next == Successor(s, k, env, c, m.tree, m.view, m.extensions,
                               NewConfirmed(k, env, c, c.index, m.ids, m.path, input.aux), m.path.Some?, m.psks)
    requires ResolveIds(psks, PskIds(m.psks)) == Ok(m.psks)
    requires env.treeLeavesValid(m.tree, next.groupId, m.extensions)
    requires FindLeaf(m.tree, leaf, 0) == Some(i)
    requires Joiner(s, m.tree, i, key, Ancestor(i, c.index), if m.path.Some? then SharedPathSecret(m.view, i) else None) == Ok(v)
    requires st == State(next.groupId, next.epoch, next.tree, v, next.confirmed, next.interim, next.schedule, next.extensions,
                         i, [], None, psks)
    ensures Join(s, k, env, WelcomeFor(s, m, next, i), next.tree, leaf, key, psks) == Ok(st)
  {
    hide Joiner, SharedPathSecret, Ancestor, FindLeaf, ParentHashValid, UniqueKeys, ResolveIds, PskIds, TreeHash, NewConfirmed,
      PskSecret, Lo, Hi, Width, Level, IsPow2;
  }

  lemma JoinChecks(s: Suite, k: Kdf, env: Env, w: Welcome, t: Tree, leaf: LeafNode, leafKey: PrivateKey,
                   psks: map<Bytes, Bytes>)
    requires Shape(t) && t.size > 0 && Join(s, k, env, w, t, leaf, leafKey, psks).Ok?
    ensures env.treeLeavesValid(t, w.context.groupId, w.context.extensions) && ResolveIds(psks, w.pskIds).Ok?
  {
    hide ResolveIds, RootHash, ParentHashValid, UniqueKeys, FindLeaf, Joiner, Ancestor, PskSecret, TreeHash;
  }
}
