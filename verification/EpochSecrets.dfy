/** What goes into the secrets of an epoch: the old epoch, the path, the pre-shared keys and the group context,
    and that none of them can be exchanged without a change of the epoch secret. */
module EpochSecrets {
  import opened Wrappers
  import opened TreeMath
  import opened Crypto
  import opened RatchetTree
  import opened TreePaths
  import opened TreeRuns
  import opened TreeHashes
  import opened Views
  import opened Agreement
  import opened Receivers
  import opened Recipients
  import opened Proposals
  import opened KeySchedule
  import opened GroupState
  import opened EpochAgreement
  import opened Joining
  import opened Following

  // --------------------------------------------------------------------------
  // One epoch
  // --------------------------------------------------------------------------

  /** `steps[i]` is the secret after the first `i` pre-shared keys (section 8.4 of RFC 9420). */
  ghost predicate MixesIn(k: Kdf, psks: seq<PskWithSecret>, steps: seq<Bytes>) {
    && |steps| == |psks| + 1 && steps[0] == k.zero
    && forall i :: 0 <= i < |psks| ==> steps[i + 1] == k.extract(DerivedInput(k, psks, i), steps[i])
  }

  ghost function DerivedInput(k: Kdf, psks: seq<PskWithSecret>, i: nat): Bytes
    requires i < |psks|
  {
    k.expand(k.extract(k.zero, psks[i].secret), DerivedPskLabel, k.marshalPsk(psks[i].id, i, |psks|))
  }

  /** The secrets of an epoch as section 8 of RFC 9420 derives them: from the last epoch secret and the commit
      secret to the joiner secret, with the pre-shared keys to the epoch secret, and on to the tag. */
  ghost predicate Scheduled(k: Kdf, last: Bytes, commitSecret: Bytes, psks: seq<PskWithSecret>, context: Bytes,
                            confirmed: Bytes, e: Epoch)
  {
    && e.joinerSecret == k.expand(k.extract(k.derive(last, Init), commitSecret), JoinerLabel, context)
    && Opened(k, e.joinerSecret, psks, context, confirmed, e)
  }

  /** The part that a joiner does itself. */
  ghost predicate Opened(k: Kdf, joinerSecret: Bytes, psks: seq<PskWithSecret>, context: Bytes, confirmed: Bytes, e: Epoch) {
    && (exists steps :: MixesIn(k, psks, steps) &&
          e.epochSecret == k.expand(k.extract(joinerSecret, steps[|psks|]), EpochLabel, context))
    && e.confirmationTag == k.hmac(k.derive(e.epochSecret, Confirm), confirmed)
  }

  ghost function Steps(k: Kdf, psks: seq<PskWithSecret>, n: nat): (steps: seq<Bytes>)
    requires n <= |psks|
    ensures |steps| == n + 1 && steps[n] == PskSecretOf(k, psks, n)
  {
    if n == 0 then [k.zero] else Steps(k, psks, n - 1) + [PskSecretOf(k, psks, n)]
  }

  lemma {:induction false} StepsMix(k: Kdf, psks: seq<PskWithSecret>, n: nat)
    requires n <= |psks|
    ensures var steps := Steps(k, psks, n);
      steps[0] == k.zero && forall i :: 0 <= i < n ==> steps[i + 1] == k.extract(DerivedInput(k, psks, i), steps[i])
  {
    if n > 0 { StepsMix(k, psks, n - 1); }
  }

  lemma MadeEpoch(k: Kdf, joinerSecret: Bytes, psks: seq<PskWithSecret>, confirmed: Bytes, context: Bytes)
    ensures var e := MakeEpoch(k, joinerSecret, PskSecret(k, psks), confirmed, context);
      e.joinerSecret == joinerSecret && Opened(k, joinerSecret, psks, context, confirmed, e)
  {
    StepsMix(k, psks, |psks|);
    var e := MakeEpoch(k, joinerSecret, PskSecret(k, psks), confirmed, context);
    var steps := Steps(k, psks, |psks|);
    assert MixesIn(k, psks, steps);
    assert e.epochSecret == k.expand(k.extract(joinerSecret, steps[|psks|]), EpochLabel, context);
  }

  lemma NextIsScheduled(k: Kdf, e: Epoch, commitSecret: Bytes, psks: seq<PskWithSecret>, confirmed: Bytes, context: Bytes)
    ensures Scheduled(k, e.epochSecret, commitSecret, psks, context, confirmed,
                      NextEpoch(k, e, commitSecret, psks, confirmed, context))
  {
    hide Opened, PskSecret;
    var preJoiner := ExtractKey(k, DeriveFrom(k, e.epochSecret, Init), commitSecret);
    MadeEpoch(k, ExpandWith(k, preJoiner, JoinerLabel, context), psks, confirmed, context);
  }

  // --------------------------------------------------------------------------
  // Nothing can be exchanged
  // --------------------------------------------------------------------------

  /** Extraction and expansion have no collisions, nor has the encoding of a pre-shared key's place; the string
      of zeros is never extracted. */
  ghost predicate KdfTells(k: Kdf) {
    && (forall a, b, c, d :: k.extract(a, b) == k.extract(c, d) ==> a == c && b == d)
    && (forall a, b :: k.extract(a, b) != k.zero)
    && (forall a, l, x, b, m, y :: k.expand(a, l, x) == k.expand(b, m, y) ==> a == b && l == m && x == y)
    && (forall a, u, b, v :: k.derive(a, u) == k.derive(b, v) ==> a == b && u == v)
    && (forall p, i, n, q, j, m :: k.marshalPsk(p, i, n) == k.marshalPsk(q, j, m) ==> p == q && i == j && n == m)
  }

  lemma SameInput(k: Kdf, a: seq<PskWithSecret>, i: nat, b: seq<PskWithSecret>, j: nat)
    requires KdfTells(k) && i < |a| && j < |b| && DerivedInput(k, a, i) == DerivedInput(k, b, j)
    ensures |a| == |b| && i == j && a[i] == b[j]
  {}

  lemma {:induction false} SameSteps(k: Kdf, a: seq<PskWithSecret>, b: seq<PskWithSecret>, x: seq<Bytes>, y: seq<Bytes>, n: nat)
    requires KdfTells(k) && MixesIn(k, a, x) && MixesIn(k, b, y) && |a| == |b| && n <= |a| && x[n] == y[n]
    ensures a[..n] == b[..n]
  {
    hide DerivedInput;
    if n > 0 {
      assert x[n - 1 + 1] == k.extract(DerivedInput(k, a, n - 1), x[n - 1]);
      assert y[n - 1 + 1] == k.extract(DerivedInput(k, b, n - 1), y[n - 1]);
      SameInput(k, a, n - 1, b, n - 1);
      SameSteps(k, a, b, x, y, n - 1);
      assert a[..n] == a[..n - 1] + [a[n - 1]] && b[..n] == b[..n - 1] + [b[n - 1]];
    }
  }

  /** Equal secrets of two lists of pre-shared keys mean equal lists. */
  lemma MixBinds(k: Kdf, a: seq<PskWithSecret>, b: seq<PskWithSecret>, x: seq<Bytes>, y: seq<Bytes>)
    requires KdfTells(k) && MixesIn(k, a, x) && MixesIn(k, b, y) && x[|a|] == y[|b|]
    ensures a == b
  {
    hide DerivedInput;
    assert |a| > 0 ==> x[|a| - 1 + 1] == k.extract(DerivedInput(k, a, |a| - 1), x[|a| - 1]);
    assert |b| > 0 ==> y[|b| - 1 + 1] == k.extract(DerivedInput(k, b, |b| - 1), y[|b| - 1]);
    if |a| > 0 && |b| > 0 {
      SameInput(k, a, |a| - 1, b, |b| - 1);
      SameSteps(k, a, b, x, y, |a|);
      assert a[..|a|] == a && b[..|b|] == b;
    }
  }

  /** Equal epoch secrets mean the same last epoch secret, commit secret, pre-shared keys and context. */
  lemma ScheduleBinds(k: Kdf, last: Bytes, commitSecret: Bytes, psks: seq<PskWithSecret>, context: Bytes, confirmed: Bytes,
                      e: Epoch, last': Bytes, commitSecret': Bytes, psks': seq<PskWithSecret>, context': Bytes,
                      confirmed': Bytes, e': Epoch)
    requires KdfTells(k) && e.epochSecret == e'.epochSecret
    requires Scheduled(k, last, commitSecret, psks, context, confirmed, e)
    requires Scheduled(k, last', commitSecret', psks', context', confirmed', e')
    ensures last == last' && commitSecret == commitSecret' && psks == psks' && context == context'
  {
    hide DerivedInput;
    var x :| MixesIn(k, psks, x) && e.epochSecret == k.expand(k.extract(e.joinerSecret, x[|psks|]), EpochLabel, context);
    var y :| MixesIn(k, psks', y) && e'.epochSecret == k.expand(k.extract(e'.joinerSecret, y[|psks'|]), EpochLabel, context');
    SameExtracted(k, e.joinerSecret, x[|psks|], EpochLabel, context, e'.joinerSecret, y[|psks'|], context');
    MixBinds(k, psks, psks', x, y);
    SameExtracted(k, k.derive(last, Init), commitSecret, JoinerLabel, context, k.derive(last', Init), commitSecret', context');
  }

  lemma SameExtracted(k: Kdf, a: Bytes, b: Bytes, l: ExpandLabel, x: Bytes, c: Bytes, d: Bytes, y: Bytes)
    requires KdfTells(k) && k.expand(k.extract(a, b), l, x) == k.expand(k.extract(c, d), l, y)
    ensures a == c && b == d && x == y
  {}

  // --------------------------------------------------------------------------
  // Commits
  // --------------------------------------------------------------------------

  ghost function NextContext(s: Suite, k: Kdf, st: State, next: State): Bytes
    requires next.tree.size > 0
  {
    k.marshalContext(GroupContext(st.groupId, st.epoch + 1, RootHash(s, next.tree), next.confirmed, next.extensions))
  }

  /** The next state of `st` with the secrets of its epoch: transcript, context and schedule belong together. */
  ghost predicate Follows(s: Suite, k: Kdf, env: Env, st: State, sender: LeafIndex, ids: seq<ProposalOrRef>,
                          path: Option<UpdatePath>, aux: Bytes, commitSecret: Bytes, psks: seq<PskWithSecret>, next: State)
  {
    && next.tree.size > 0 && next.groupId == st.groupId && next.epoch == st.epoch + 1 && next.index == st.index
    && next.pending == [] && next.psks == st.psks
    && next.confirmed == k.hash(st.interim + env.marshalCommit(sender, ids, path, aux))
    && next.interim == k.hash(next.confirmed + env.marshalTag(next.schedule.confirmationTag))
    && Scheduled(k, st.schedule.epochSecret, commitSecret, psks, NextContext(s, k, st, next), next.confirmed, next.schedule)
  }

  lemma SuccessorFollows(s: Suite, k: Kdf, env: Env, st: State, tree: Tree, view: View, extensions: Bytes, sender: LeafIndex,
                         ids: seq<ProposalOrRef>, path: Option<UpdatePath>, aux: Bytes, psks: seq<PskWithSecret>)
    requires tree.size > 0
    ensures var next := Successor(s, k, env, st, tree, view, extensions, NewConfirmed(k, env, st, sender, ids, path, aux),
                                  path.Some?, psks);
      && Follows(s, k, env, st, sender, ids, path, aux, if path.Some? then view.updateSecret else k.zero, psks, next)
      && next.tree == tree && next.view == view && next.extensions == extensions
  {
    hide RootHash, NextEpoch, Scheduled;
    var confirmed := NewConfirmed(k, env, st, sender, ids, path, aux);
    var next := Successor(s, k, env, st, tree, view, extensions, confirmed, path.Some?, psks);
    NextIsScheduled(k, st.schedule, if path.Some? then view.updateSecret else k.zero, psks, confirmed,
                    NextContext(s, k, st, next));
  }

  /** The secrets of the epoch that a commit leads to: with a path they come from the update secret of the
      committer's new view, without one from zeros. */
  lemma CommitSecrets(s: Suite, k: Kdf, env: Env, c: State, input: CommitInput)
    requires Good(s, c.tree) && Commit(s, k, env, c, input).Ok? && Prepare(s, k, env, c, input).Ok?
    ensures var m := Prepare(s, k, env, c, input).value;
      var (msg, next) := Commit(s, k, env, c, input).value;
      && Follows(s, k, env, c, c.index, m.ids, m.path, input.aux, if m.path.Some? then m.view.updateSecret else k.zero, m.psks, next)
      && next.tree == m.tree && next.view == m.view && next.extensions == m.extensions
      && msg.tag == next.schedule.confirmationTag
  {
    hide Prepare, Commit, Successor, NewConfirmed, Follows, Good;
    CommitFields(s, k, env, c, input);
    var m := Prepare(s, k, env, c, input).value;
    SuccessorFollows(s, k, env, c, m.tree, m.view, m.extensions, c.index, m.ids, m.path, input.aux, m.psks);
  }

  /** No derived secret is the string of zeros that stands for a commit without a path. */
  ghost predicate NeverZero(s: Suite, k: Kdf) { forall x, l :: s.deriveSecret(x, l) != k.zero }

  lemma UpdateSecretIsDerived(s: Suite, k: Kdf, env: Env, c: State, input: CommitInput)
    requires NeverZero(s, k) && Good(s, c.tree) && Prepare(s, k, env, c, input).Ok?
    requires Prepare(s, k, env, c, input).value.path.Some?
    ensures Prepare(s, k, env, c, input).value.view.updateSecret != k.zero
  {
    hide Prepare, Commits, SentPath, Good, CommitNodes, Lo, Hi;
    MaterialsPath(s, k, env, c, input);
    var m := Prepare(s, k, env, c, input).value;
    CommitView(s, m.applied, c.index, input.leafSecret, input.rest, m.tree, m.view);
    CommitMerge(s, m.applied, c.index, input.leafSecret, input.rest, m.tree, m.view);
    var n := |CommitNodes(m.applied, c.index)|;
    assert m.view.updateSecret == s.deriveSecret(PathSecret(s, input.leafSecret, n), PathLabel);
  }

  /** Two commits, of any states, whose next epochs have the same secret: the last epoch secrets are equal, both
      have a path or neither has, the update secrets are equal, and so are the pre-shared keys and the group
      contexts.  Whoever does not know one of them does not know the epoch. */
  lemma CommitSecretsBind(s: Suite, k: Kdf, env: Env, c: State, input: CommitInput, c': State, input': CommitInput)
    requires KdfTells(k) && NeverZero(s, k) && Good(s, c.tree) && Good(s, c'.tree)
    requires Commit(s, k, env, c, input).Ok? && Prepare(s, k, env, c, input).Ok?
    requires Commit(s, k, env, c', input').Ok? && Prepare(s, k, env, c', input').Ok?
    requires Commit(s, k, env, c, input).value.1.schedule.epochSecret == Commit(s, k, env, c', input').value.1.schedule.epochSecret
    ensures var m, m' := Prepare(s, k, env, c, input).value, Prepare(s, k, env, c', input').value;
      && c.schedule.epochSecret == c'.schedule.epochSecret && m.psks == m'.psks
      && (m.path.Some? <==> m'.path.Some?) && (m.path.Some? ==> m.view.updateSecret == m'.view.updateSecret)
      && m.tree.size > 0 && m'.tree.size > 0
      && NextContext(s, k, c, Commit(s, k, env, c, input).value.1) == NextContext(s, k, c', Commit(s, k, env, c', input').value.1)
  {
    hide Prepare, Commit, Scheduled, KdfTells, NeverZero, Good, NextContext, RootHash;
    CommitSecrets(s, k, env, c, input);
    CommitSecrets(s, k, env, c', input');
    var m, m' := Prepare(s, k, env, c, input).value, Prepare(s, k, env, c', input').value;
    if m.path.Some? { UpdateSecretIsDerived(s, k, env, c, input); }
    if m'.path.Some? { UpdateSecretIsDerived(s, k, env, c', input'); }
    var next, next' := Commit(s, k, env, c, input).value.1, Commit(s, k, env, c', input').value.1;
    ScheduleBinds(k, c.schedule.epochSecret, if m.path.Some? then m.view.updateSecret else k.zero, m.psks,
                  NextContext(s, k, c, next), next.confirmed, next.schedule,
                  c'.schedule.epochSecret, if m'.path.Some? then m'.view.updateSecret else k.zero, m'.psks,
                  NextContext(s, k, c', next'), next'.confirmed, next'.schedule);
  }

  /** The ciphertexts of a commit: the path secret of each entry, sealed in the context of the next epoch, still with the
      old transcript, to the resolution without the leaves that this commit adds, and to nobody else. */
  lemma CommitCiphertexts(s: Suite, k: Kdf, env: Env, c: State, input: CommitInput, i: nat) returns (to: seq<NodeIndex>)
    requires Good(s, c.tree) && Prepare(s, k, env, c, input).Ok? && Prepare(s, k, env, c, input).value.path.Some?
    requires i < |Prepare(s, k, env, c, input).value.path.value.nodes|
    ensures var m := Prepare(s, k, env, c, input).value;
      && WF(m.tree) && c.index < m.tree.size && IsPow2(m.tree.size)
      && var fp, node := FilteredPath(m.tree, LeafNodeIndex(c.index)), m.path.value.nodes[i];
      && i < |fp| && AreRecipients(fp[i].resolution, m.joiners, to) && AllOcc(m.tree, to) && |node.encrypted| == |to|
      && fp[i].node in m.view.secrets
      && forall j :: 0 <= j < |to| ==>
           node.encrypted[j] == s.seal(
             KeyOfNode(m.tree, to[j]),
             k.marshalContext(GroupContext(c.groupId, c.epoch + 1, RootHash(s, m.tree), c.confirmed, m.extensions)),
             m.view.secrets[fp[i].node], input.coins(fp[i].node, to[j]))
  {
    hide Lo, Hi, Width, Level, IsPow2, Prepare, Commits, Good, FilteredPath, EncapNode, AreRecipients, RootHash, UnmergedOk, Populated;
    MaterialsPath(s, k, env, c, input);
    var m := Prepare(s, k, env, c, input).value;
    CommitterHasSecrets(s, m.applied, c.index, input.leafSecret, input.rest, m.tree, m.view);
    MaterialsFacts(s, k, env, c, input);
    to := EncapTo(s, m.tree, m.view, PathContext(s, k, c, m.tree, m.extensions), m.joiners, input.coins, i);
  }

  // --------------------------------------------------------------------------
  // What a commit is about
  // --------------------------------------------------------------------------

  /** `psks` are the keys of the proposals at the ascending positions `at`. */
  ghost predicate Picks(held: map<Bytes, Bytes>, ps: seq<CachedProposal>, psks: seq<PskWithSecret>, at: seq<nat>) {
    && |at| == |psks| && (forall i, j :: 0 <= i < j < |at| ==> at[i] < at[j])
    && forall j :: 0 <= j < |at| ==>
         && at[j] < |ps| && ps[at[j]].proposal.PreSharedKey? && ps[at[j]].proposal.id.name in held
         && psks[j] == PskWithSecret(ps[at[j]].proposal.id, held[ps[at[j]].proposal.id.name])
  }

  function OneUp(at: seq<nat>): (up: seq<nat>)
    ensures |up| == |at| && forall i :: 0 <= i < |at| ==> up[i] == at[i] + 1
  {
    seq(|at|, i requires 0 <= i < |at| => at[i] + 1)
  }

  lemma PicksBehind(held: map<Bytes, Bytes>, ps: seq<CachedProposal>, psks: seq<PskWithSecret>, at: seq<nat>)
    requires ps != [] && Picks(held, ps[1..], psks, at)
    ensures Picks(held, ps, psks, OneUp(at))
    ensures ps[0].proposal.PreSharedKey? && ps[0].proposal.id.name in held ==>
      Picks(held, ps, [PskWithSecret(ps[0].proposal.id, held[ps[0].proposal.id.name])] + psks, [0] + OneUp(at))
  {
    var up := OneUp(at);
    hide OneUp;
    forall j | 0 <= j < |at| ensures up[j] < |ps| && ps[up[j]] == ps[1..][at[j]] {}
    assert Picks(held, ps, psks, up);
    if ps[0].proposal.PreSharedKey? && ps[0].proposal.id.name in held {
      FirstPicked(held, ps, PskWithSecret(ps[0].proposal.id, held[ps[0].proposal.id.name]), psks, up);
    }
  }

  lemma FirstPicked(held: map<Bytes, Bytes>, ps: seq<CachedProposal>, psk: PskWithSecret, psks: seq<PskWithSecret>, up: seq<nat>)
    requires ps != [] && Picks(held, ps, psks, up) && Picks(held, ps, [psk], [0])
    requires forall j :: 0 <= j < |up| ==> up[j] > 0
    ensures Picks(held, ps, [psk] + psks, [0] + up)
  {
    var at, all := [0] + up, [psk] + psks;
    assert at[0] == 0 && all[0] == psk && [psk][0] == psk && [0 as nat][0] == 0;
    forall j | 0 <= j < |at|
      ensures at[j] < |ps| && ps[at[j]].proposal.PreSharedKey? && ps[at[j]].proposal.id.name in held
      ensures all[j] == PskWithSecret(ps[at[j]].proposal.id, held[ps[at[j]].proposal.id.name])
    {
      if j > 0 { assert at[j] == up[j - 1] && all[j] == psks[j - 1]; }
    }
  }

  /** The resolved pre-shared keys are those of the proposals for them, in order, none left out. */
  lemma {:induction false} ResolvedInOrder(held: map<Bytes, Bytes>, ps: seq<CachedProposal>) returns (at: seq<nat>)
    requires ResolvePsks(held, ps).Ok?
    ensures Picks(held, ps, ResolvePsks(held, ps).value, at)
    ensures forall i :: 0 <= i < |ps| && ps[i].proposal.PreSharedKey? ==> i in at
    decreases |ps|
  {
    if ps == [] {
      at := [];
    } else {
      var rest := ResolvedInOrder(held, ps[1..]);
      PicksBehind(held, ps, ResolvePsks(held, ps[1..]).value, rest);
      hide Picks;
      at := if ps[0].proposal.PreSharedKey? then [0] + OneUp(rest) else OneUp(rest);
      forall i | 0 <= i < |ps| && ps[i].proposal.PreSharedKey? ensures i in at {
        if i > 0 { PlaceUp(rest, i - 1) by { assert ps[1..][i - 1] == ps[i]; } }
      }
    }
  }

  lemma PlaceUp(at: seq<nat>, i: nat)
    requires i in at
    ensures i + 1 in OneUp(at)
  {
    var j :| 0 <= j < |at| && at[j] == i;
    assert OneUp(at)[j] == i + 1;
  }

  /** The extensions of the next epoch are those proposed, or the old ones if nothing is proposed. */
  lemma {:induction false} ExtensionsDecided(env: Env, st: State, ps: seq<CachedProposal>)
    requires NewExtensions(env, st, ps).Ok?
    requires forall i, j :: 0 <= i < j < |ps| ==> !(ps[i].proposal.Extensions? && ps[j].proposal.Extensions?)
    ensures forall i :: 0 <= i < |ps| && ps[i].proposal.Extensions? ==>
      NewExtensions(env, st, ps).value == ps[i].proposal.extensions && env.extensionsSupported(st.tree, ps[i].proposal.extensions)
    ensures (forall i :: 0 <= i < |ps| ==> !ps[i].proposal.Extensions?) ==> NewExtensions(env, st, ps).value == st.extensions
    decreases |ps|
  {
    if ps != [] {
      assert forall i :: 0 <= i < |ps| - 1 ==> ps[1..][i] == ps[i + 1];
      assert forall i :: 1 <= i < |ps| ==> ps[i] == ps[1..][i - 1];
      if !ps[0].proposal.Extensions? { ExtensionsDecided(env, st, ps[1..]); }
    }
  }

  lemma ExtensionsAtMostOnce(env: Env, st: State, ps: seq<CachedProposal>, committer: LeafIndex)
    requires ValidNormal(env, st, ps, committer)
    ensures forall i, j :: 0 <= i < j < |ps| ==> !(ps[i].proposal.Extensions? && ps[j].proposal.Extensions?)
  {
    hide ValidProposal, EncryptionKeyOf, Target;
  }

  /** A commit with a proposal of extensions puts them into force; one without keeps the old ones. */
  lemma CommitExtensions(s: Suite, k: Kdf, env: Env, c: State, input: CommitInput)
    requires Good(s, c.tree) && Commit(s, k, env, c, input).Ok? && Prepare(s, k, env, c, input).Ok?
    ensures var ps, next := Prepare(s, k, env, c, input).value.list, Commit(s, k, env, c, input).value.1;
      && (forall i :: 0 <= i < |ps| && ps[i].proposal.Extensions? ==>
            next.extensions == ps[i].proposal.extensions && env.extensionsSupported(c.tree, next.extensions))
      && ((forall i :: 0 <= i < |ps| ==> !ps[i].proposal.Extensions?) ==> next.extensions == c.extensions)
  {
    hide Prepare, Commit, Good, NewExtensions, ValidNormal, Apply, MustResolve, ResolvePsks, PathRequired, NewConfirmed, Successor;
    CommitFields(s, k, env, c, input);
    MaterialsFacts(s, k, env, c, input);
    var ps := Prepare(s, k, env, c, input).value.list;
    ExtensionsAtMostOnce(env, c, ps, c.index);
    ExtensionsDecided(env, c, ps);
  }

  // --------------------------------------------------------------------------
  // Commits of anybody
  // --------------------------------------------------------------------------

  /** An accepted commit: the confirmation tag, the transcript and the secrets are those of the message, of the
      proposals it resolves to and, with a path, of the update secret that was decrypted. */
  lemma HandledSecrets(s: Suite, k: Kdf, env: Env, r: State, msg: CommitMessage, r': State)
    requires Good(s, r.tree) && HandleCommit(s, k, env, r, msg) == Ok(r')
    ensures MustResolve(msg.proposals, r.pending, msg.sender).Ok?
    ensures var ps := MustResolve(msg.proposals, r.pending, msg.sender).value;
      && ResolvePsks(r.psks, ps).Ok? && NewExtensions(env, r, ps) == Ok(r'.extensions)
      && Follows(s, k, env, r, msg.sender, msg.proposals, msg.path, msg.aux,
                 if msg.path.Some? then r'.view.updateSecret else k.zero, ResolvePsks(r.psks, ps).value, r')
      && msg.tag == r'.schedule.confirmationTag
  {
    hide Lo, Hi, Width, Level, IsPow2, Apply, MustResolve, NewExtensions, ResolvePsks, PathRequired, Successor, ValidNormal,
      RatchetLeaf, DecapAt, PathContext, NewConfirmed, ParentHashValid, UniqueKeys, UnmergedOk, Populated, ReceivePath,
      CiphertextAt, Merge, Follows, DecapCoords;
    HandledResolves(s, k, env, r, msg);
    var ps := MustResolve(msg.proposals, r.pending, msg.sender).value;
    var (t1, joiners) := Apply(r.tree, ps).value;
    ApplyGood(s, r.tree, ps, t1, joiners);
    var extensions, psks := NewExtensions(env, r, ps).value, ResolvePsks(r.psks, ps).value;
    if msg.path.None? {
      var view := RatchetLeaf(s, r, t1).value;
      SuccessorFollows(s, k, env, r, t1, view, extensions, msg.sender, msg.proposals, msg.path, msg.aux, psks);
    } else {
      MergeWF(s, t1, msg.sender, msg.path.value);
      ReceivedSize(s, env, r, t1, msg.sender, msg.path.value, joiners);
      var (t2, c) := ReceivePath(s, env, r, t1, msg.sender, msg.path.value, joiners).value;
      var leafView, sealed := RatchetLeaf(s, r, t2).value, CiphertextAt(msg.path.value, c).value;
      var view := DecapAt(s, t2, leafView, msg.sender, PathContext(s, k, r, t2, extensions), c.node, sealed).value;
      SuccessorFollows(s, k, env, r, t2, view, extensions, msg.sender, msg.proposals, msg.path, msg.aux, psks);
    }
  }

  /** What a member has checked about a proposal in a commit that it accepts. */
  ghost predicate ProposalChecked(env: Env, r: State, committer: LeafIndex, c: CachedProposal) {
    match c.proposal
    case Add(leaf) => env.leafValid(r.tree, r.groupId, r.extensions, leaf, FromKeyPackage, None)
    case Update(leaf) =>
      && c.sender.Some? && c.sender != Some(committer) && OccLeaf(r.tree, c.sender.value)
      && env.leafValid(r.tree, r.groupId, r.extensions, leaf, FromUpdate, c.sender)
    case Remove(l) => OccLeaf(r.tree, l) && l != r.index && l != committer
    case PreSharedKey(id) => id.name in r.psks
    case Extensions(e) => env.extensionsSupported(r.tree, e)
    case _ => false
  }

  /** Two proposals of one commit do not collide. */
  ghost predicate NoClash(a: CachedProposal, b: CachedProposal) {
    && !(a.proposal.Update? && b.proposal.Update? && a.sender == b.sender)
    && !(a.proposal.Remove? && a.proposal == b.proposal)
    && !(a.proposal.Update? && b.proposal.Remove? && a.sender == Some(b.proposal.removed))
    && !(a.proposal.Remove? && b.proposal.Update? && b.sender == Some(a.proposal.removed))
    && !(a.proposal.Add? && b.proposal.Add? && a.proposal.leaf.signatureKey == b.proposal.leaf.signatureKey)
    && !((a.proposal.Add? || a.proposal.Update?) && (b.proposal.Add? || b.proposal.Update?)
         && a.proposal.leaf.encryptionKey == b.proposal.leaf.encryptionKey)
    && !(a.proposal.PreSharedKey? && a.proposal == b.proposal)
    && !(a.proposal.Extensions? && b.proposal.Extensions?)
  }

  /** Every proposal of an accepted commit was checked against the receiver's state and against all others, and
      there is a path unless the list names only additions and pre-shared keys. */
  lemma HandledChecks(s: Suite, k: Kdf, env: Env, r: State, msg: CommitMessage)
    requires Good(s, r.tree) && HandleCommit(s, k, env, r, msg).Ok?
    ensures msg.sender != r.index && MustResolve(msg.proposals, r.pending, msg.sender).Ok?
    ensures var ps := MustResolve(msg.proposals, r.pending, msg.sender).value;
      && (forall i :: 0 <= i < |ps| ==> ProposalChecked(env, r, msg.sender, ps[i]))
      && (forall i, j :: 0 <= i < j < |ps| ==> NoClash(ps[i], ps[j]))
      && (msg.path.None? ==> ps != [] && forall i :: 0 <= i < |ps| ==> ps[i].proposal.Add? || ps[i].proposal.PreSharedKey?)
    ensures msg.path.Some? ==>
      env.leafValid(r.tree, r.groupId, r.extensions, msg.path.value.leaf, FromCommit, Some(msg.sender))
  {
    hide HandleCommit, ValidNormal, MustResolve, ResolvePsks, Apply, ReceivePath, RatchetLeaf, Good, WF, IsPow2, Merge, PathRequired;
    HandledResolves(s, k, env, r, msg);
    var ps := MustResolve(msg.proposals, r.pending, msg.sender).value;
    ListChecked(env, r, ps, msg.sender);
    if msg.path.None? {
      PathNotRequired(s, k, env, r, msg);
      NoPathNeeded(ps);
    } else {
      var applied := Apply(r.tree, ps).value;
      ReceivedSize(s, env, r, applied.0, msg.sender, msg.path.value, applied.1);
    }
  }

  lemma ListChecked(env: Env, r: State, ps: seq<CachedProposal>, committer: LeafIndex)
    requires ValidNormal(env, r, ps, committer)
    ensures forall i :: 0 <= i < |ps| ==> ProposalChecked(env, r, committer, ps[i])
    ensures forall i, j :: 0 <= i < j < |ps| ==> NoClash(ps[i], ps[j])
  {
    forall i | 0 <= i < |ps| ensures ProposalChecked(env, r, committer, ps[i]) {
      assert ValidProposal(env, r, ps[i].sender, ps[i].proposal);
    }
    hide ValidProposal, ProposalChecked;
    forall i, j | 0 <= i < j < |ps| ensures NoClash(ps[i], ps[j]) {
      assert !(Target(ps[i]).Some? && Target(ps[i]) == Target(ps[j]));
      assert !(EncryptionKeyOf(ps[i]).Some? && EncryptionKeyOf(ps[i]) == EncryptionKeyOf(ps[j]));
    }
  }

  lemma PathNotRequired(s: Suite, k: Kdf, env: Env, r: State, msg: CommitMessage)
    requires Good(s, r.tree) && HandleCommit(s, k, env, r, msg).Ok? && msg.path.None?
    requires MustResolve(msg.proposals, r.pending, msg.sender).Ok?
    ensures !PathRequired(MustResolve(msg.proposals, r.pending, msg.sender).value)
    ensures forall i :: 0 <= i < |MustResolve(msg.proposals, r.pending, msg.sender).value| ==>
      !MustResolve(msg.proposals, r.pending, msg.sender).value[i].proposal.ReInit?
  {
    hide Lo, Hi, Width, Level, IsPow2, Apply, MustResolve, NewExtensions, ResolvePsks, PathRequired, Successor, RatchetLeaf,
      NewConfirmed, ParentHashValid, UniqueKeys, UnmergedOk, Populated, ValidProposal;
  }

  lemma NoPathNeeded(ps: seq<CachedProposal>)
    requires !PathRequired(ps) && forall i :: 0 <= i < |ps| ==> !ps[i].proposal.ReInit?
    ensures ps != [] && forall i :: 0 <= i < |ps| ==> ps[i].proposal.Add? || ps[i].proposal.PreSharedKey?
  {
    forall i | 0 <= i < |ps| ensures ps[i].proposal.Add? || ps[i].proposal.PreSharedKey? {
      assert !NeedsPath(ps[i].proposal);
    }
  }
}
