/** A group over time, however its messages travel: every state that anybody ever had stays in the world, can
    commit, and can hear any message at any time.  Two states that agree on epoch and transcript are in step. */
module GroupRuns {
  import opened Wrappers
  import opened TreeMath
  import opened Crypto
  import opened RatchetTree
  import opened TreeRuns
  import opened TreeHashes
  import opened Views
  import opened Agreement
  import opened Proposals
  import opened KeySchedule
  import opened GroupState
  import opened EpochAgreement
  import opened Joining
  import opened Following

  /** All states that there have been. */
  type World = set<State>

  // --------------------------------------------------------------------------
  // What happens
  // --------------------------------------------------------------------------

  /** A proposal and its reference. */
  datatype Delivery = Delivery(sender: LeafIndex, proposal: Proposal, ref: Bytes)

  /** `handle_proposal`: a reference seen before changes nothing. */
  ghost function HandleProposal(env: Env, st: State, d: Delivery): Result<State> {
    if Known(st.pending, d.ref) then Ok(st)
    else if !ValidProposal(env, st, Some(d.sender), d.proposal) then Err(Protocol)
    else Ok(st.(pending := st.pending + [CachedProposal(d.ref, d.proposal, Some(d.sender))]))
  }

  /** The message of a commit. */
  ghost function MessageOf(s: Suite, k: Kdf, env: Env, c: State, input: CommitInput): SignedCommit
    requires Good(s, c.tree) && c.tree.size > 0 && Commit(s, k, env, c, input).Ok?
  {
    SignedCommit(ContextOf(s, c), Commit(s, k, env, c, input).value.0)
  }

  /** What a state can do; `from` is the state of the committer. */
  datatype Action =
    | MakeUpdate(who: State, leaf: LeafNode, key: PrivateKey)
    | HearProposal(who: State, d: Delivery)
    | MakeCommit(who: State, input: CommitInput)
    | HearCommit(who: State, from: State, input: CommitInput)
    | JoinGroup(from: State, input: CommitInput, joiner: LeafIndex, kit: Kit)

  /** The state an action leads to. */
  ghost function Outcome(s: Suite, k: Kdf, env: Env, w: World, a: Action): Result<State>
    requires AllGood(s, w) && CanAct(s, k, env, w, a)
  {
    match a
    case MakeUpdate(st, leaf, key) => Ok(st.(cachedUpdate := Some((leaf, key))))
    case HearProposal(st, d) => HandleProposal(env, st, d)
    case MakeCommit(st, input) => (match Commit(s, k, env, st, input) case Ok(r) => Ok(r.1) case Err(e) => Err(e))
    case HearCommit(st, c, input) =>
      if c.tree.size == 0 || Commit(s, k, env, c, input).Err? then Err(Protocol)
      else HandleMessage(s, k, env, st, MessageOf(s, k, env, c, input))
    case JoinGroup(c, input, i, kit) => JoinBy(s, k, env, c, input, i, kit)
  }

  ghost predicate AllGood(s: Suite, w: World) { forall st <- w :: Good(s, st.tree) }

  /** A reference is a hash of its proposal, a name stands for one pre-shared key, and whoever makes an update
      or joins has the key of the leaf. */
  ghost predicate CanAct(s: Suite, k: Kdf, env: Env, w: World, a: Action)
    requires AllGood(s, w)
  {
    match a
    case MakeUpdate(st, leaf, key) => st in w && PublicOf(s, key) == leaf.encryptionKey
    case HearProposal(st, d) => st in w && HonestRef(w, d)
    case MakeCommit(st, _) => st in w
    case HearCommit(st, c, _) => st in w && c in w
    case JoinGroup(c, input, i, kit) => c in w && KitFits(s, k, env, c, input, i, kit) && HonestPsks(w, kit.psks)
  }

  ghost predicate HonestRef(w: World, d: Delivery) {
    forall st <- w :: forall p <- st.pending :: p.ref == d.ref ==> p == CachedProposal(d.ref, d.proposal, Some(d.sender))
  }

  ghost predicate HonestPsks(w: World, psks: map<Bytes, Bytes>) {
    forall st <- w :: PsksAgree(st.psks, psks) && PsksAgree(psks, st.psks)
  }

  /** Nothing is forgotten: old states can still commit, and messages can come late or never. */
  ghost function Act(s: Suite, k: Kdf, env: Env, w: World, a: Action): World
    requires AllGood(s, w) && CanAct(s, k, env, w, a)
  {
    match Outcome(s, k, env, w, a)
    case Ok(st) => w + {st}
    case Err(_) => w
  }

  /** `w'` is what an action makes of a world of well-formed trees. */
  ghost predicate IsStep(s: Suite, k: Kdf, env: Env, w: World, a: Action, w': World) {
    AllGood(s, w) ==> CanAct(s, k, env, w, a) && w' == Act(s, k, env, w, a)
  }

  /** `worlds` follows `actions` step by step. */
  ghost predicate IsGroupRun(s: Suite, k: Kdf, env: Env, worlds: seq<World>, actions: seq<Action>) {
    && |worlds| == |actions| + 1
    && forall i :: 0 <= i < |actions| ==> IsStep(s, k, env, worlds[i], actions[i], worlds[i + 1])
  }

  // --------------------------------------------------------------------------
  // States in step
  // --------------------------------------------------------------------------

  /** The interim hash comes from the confirmed one. */
  ghost predicate HasTag(k: Kdf, env: Env, st: State) {
    exists tag :: InterimOf(k, env, st.confirmed, tag) == st.interim
  }

  ghost function InterimOf(k: Kdf, env: Env, confirmed: Bytes, tag: Bytes): Bytes {
    HashOf(k, confirmed + env.marshalTag(tag))
  }

  ghost function ConfirmedOf(k: Kdf, env: Env, interim: Bytes, sender: LeafIndex, ids: seq<ProposalOrRef>,
                             path: Option<UpdatePath>, aux: Bytes): Bytes
  {
    HashOf(k, interim + env.marshalCommit(sender, ids, path, aux))
  }

  /** The transcript hashes are free of collisions. */
  ghost predicate TranscriptTells(k: Kdf, env: Env) {
    && (forall a, x, b, y :: k.hash(a + env.marshalTag(x)) == k.hash(b + env.marshalTag(y)) ==> a == b)
    && (forall a, i, ids, path, aux, b, j, ids', path', aux' ::
          k.hash(a + env.marshalCommit(i, ids, path, aux)) == k.hash(b + env.marshalCommit(j, ids', path', aux')) ==>
            a == b && i == j && ids == ids' && path == path' && aux == aux')
  }

  /** Two secrets with the same public key are the same. */
  ghost predicate KeysTell(s: Suite) {
    forall a, b :: s.publicOf(s.deriveKey(s.deriveSecret(a, NodeLabel))) == s.publicOf(s.deriveKey(s.deriveSecret(b, NodeLabel)))
      ==> a == b
  }

  ghost predicate Sound(s: Suite, k: Kdf, env: Env, st: State) { Member(s, st) && CachedFits(s, st) && HasTag(k, env, st) }

  ghost predicate SameEpoch(a: State, b: State) { a.epoch == b.epoch && a.confirmed == b.confirmed }

  /** What states agree about, whatever their epochs. */
  ghost predicate Compatible(a: State, b: State) { RefsAgree(a.pending, b.pending) && PsksAgree(a.psks, b.psks) }

  ghost predicate InStepIfSame(s: Suite, k: Kdf, a: State, b: State) {
    SameEpoch(a, b) ==> a.tree == b.tree && InStep(s, k, a, b)
  }

  /** The state is one of the epoch that a commit leads to. */
  ghost predicate StemsFrom(s: Suite, k: Kdf, env: Env, c: State, input: CommitInput, st: State) {
    && Good(s, c.tree) && Commit(s, k, env, c, input).Ok?
    && var next := Commit(s, k, env, c, input).value.1; next.tree == st.tree && InStep(s, k, next, st)
  }

  /** The committer is in the world. */
  ghost predicate Stems(s: Suite, k: Kdf, env: Env, w: World, st: State) {
    exists c <- w :: exists input :: StemsFrom(s, k, env, c, input, st)
  }

  /** Every state is sound, any two of one epoch and transcript are in step, and every later epoch comes from a
      commit. */
  ghost predicate AllInStep(s: Suite, k: Kdf, env: Env, w: World) {
    && (forall st <- w :: Sound(s, k, env, st))
    && (forall a <- w :: forall b <- w :: Compatible(a, b))
    && (forall a <- w :: forall b <- w :: InStepIfSame(s, k, a, b))
    && (forall st <- w :: st.epoch > 0 ==> Stems(s, k, env, w, st))
  }

  lemma StepGood(s: Suite, k: Kdf, env: Env, w: World)
    requires AllInStep(s, k, env, w)
    ensures AllGood(s, w)
  {
    forall st <- w ensures Good(s, st.tree) { assert Sound(s, k, env, st); }
  }

  lemma StepTogether(s: Suite, k: Kdf, env: Env, w: World, a: State, b: State)
    requires AllInStep(s, k, env, w) && a in w && b in w && SameEpoch(a, b)
    ensures Together(s, k, a, b)
  {
    hide Sound, InStep, Stems, RefsAgree, PsksAgree;
    assert InStepIfSame(s, k, a, b) && Compatible(a, b);
  }

  lemma StepSound(s: Suite, k: Kdf, env: Env, w: World, st: State)
    requires AllInStep(s, k, env, w) && st in w
    ensures Member(s, st) && Good(s, st.tree) && st.tree.size > 0 && CachedFits(s, st) && HasTag(k, env, st)
    ensures Together(s, k, st, st)
  {
    hide Stems, InStep, ViewOk, Good;
    assert Sound(s, k, env, st);
    StepTogether(s, k, env, w, st, st);
  }

  // --------------------------------------------------------------------------
  // The transcript decides
  // --------------------------------------------------------------------------

  /** Two members that find something behind every reference of a list, find the same. */
  lemma {:induction false} ResolveSame(ids: seq<ProposalOrRef>, a: seq<CachedProposal>, b: seq<CachedProposal>,
                                       sender: LeafIndex)
    requires RefsAgree(a, b) && MustResolve(ids, a, sender).Ok? && MustResolve(ids, b, sender).Ok?
    ensures MustResolve(ids, a, sender) == MustResolve(ids, b, sender)
    decreases |ids|
  {
    if ids != [] {
      if ids[0].ByRef? {
        FindRefKnown(a, ids[0].ref);
        FindRefKnown(b, ids[0].ref);
      }
      ResolveSame(ids[1..], a, b, sender);
    }
  }

  /** What a commit makes of tree, keys and extensions is in its message. */
  lemma SameMaterials(s: Suite, k: Kdf, env: Env, c: State, input: CommitInput, c': State, input': CommitInput)
    requires Member(s, c) && Member(s, c') && Together(s, k, c, c') && c.index == c'.index
    requires Prepare(s, k, env, c, input).Ok? && Prepare(s, k, env, c', input').Ok?
    requires var m, m' := Prepare(s, k, env, c, input).value, Prepare(s, k, env, c', input').value;
      m.ids == m'.ids && m.path == m'.path
    ensures var m, m' := Prepare(s, k, env, c, input).value, Prepare(s, k, env, c', input').value;
      && m.applied == m'.applied && m.tree == m'.tree && m.extensions == m'.extensions && m.psks == m'.psks
  {
    hide Prepare, Good, ViewOk, InStep, RefsAgree, PsksAgree, MustResolve, ValidNormal, Apply, NewExtensions, ResolvePsks,
      PathRequired, HoldsPsks, Commits, SentPath, Merge, WF, IsPow2;
    var m, m' := Prepare(s, k, env, c, input).value, Prepare(s, k, env, c', input').value;
    MaterialsFacts(s, k, env, c, input);
    MaterialsFacts(s, k, env, c', input');
    ResolveSame(m.ids, c.pending, c'.pending, c.index);
    InStepFields(s, k, c, c');
    SameExtensions(env, c, c', m.list);
    SamePsks(c.psks, c'.psks, m.list);
    if m.path.Some? {
      MaterialsPath(s, k, env, c, input);
      MaterialsPath(s, k, env, c', input');
      SentPathMerges(s, m.applied, c.index, input.leafSecret, input.rest, m.tree, m.view,
                     PathContext(s, k, c, m.tree, m.extensions), m.joiners, input.coins);
      SentPathMerges(s, m'.applied, c'.index, input'.leafSecret, input'.rest, m'.tree, m'.view,
                     PathContext(s, k, c', m'.tree, m'.extensions), m'.joiners, input'.coins);
    }
  }

  /** And so is, behind the public key of the leaf, the secret of the next epoch. */
  lemma SameUpdateSecret(s: Suite, t: Tree, from: LeafIndex, secret: Bytes, rest: Bytes, secret': Bytes, rest': Bytes, t': Tree,
                         cv: View, cv': View)
    requires KeysTell(s) && Commits(s, t, from, secret, rest, t', cv) && Commits(s, t, from, secret', rest', t', cv')
    ensures cv.updateSecret == cv'.updateSecret
  {
    hide Lo, Hi, Width, Level, IsPow2, WF, Views.Update, Merge, FilteredPath, KeyOf, PublicOf, CommitNodes, Covers, PathHashes;
    CommitTree(s, t, from, secret, rest, t', cv);
    CommitTree(s, t, from, secret', rest', t', cv');
    CommitView(s, t, from, secret, rest, t', cv);
    CommitView(s, t, from, secret', rest', t', cv');
    assert LeafAt(t', from).encryptionKey == PublicOf(s, KeyOf(s, secret)) == PublicOf(s, KeyOf(s, secret'));
    assert secret == secret' by { hide *; SameKeySameSecret(s, secret, secret'); }
  }

  lemma SameKeySameSecret(s: Suite, a: Bytes, b: Bytes)
    requires KeysTell(s) && PublicOf(s, KeyOf(s, a)) == PublicOf(s, KeyOf(s, b))
    ensures a == b
  {}

  /** Two commits with the same confirmed transcript hash lead to the same epoch. */
  lemma SameTranscriptSameNext(s: Suite, k: Kdf, env: Env, c: State, input: CommitInput, c': State, input': CommitInput)
    requires KeysTell(s) && TranscriptTells(k, env)
    requires Member(s, c) && Member(s, c') && HasTag(k, env, c) && HasTag(k, env, c')
    requires SameEpoch(c, c') ==> Together(s, k, c, c')
    requires Commit(s, k, env, c, input).Ok? && Commit(s, k, env, c', input').Ok?
    requires SameEpoch(Commit(s, k, env, c, input).value.1, Commit(s, k, env, c', input').value.1)
    ensures SameEpoch(c, c')
    ensures var next, next' := Commit(s, k, env, c, input).value.1, Commit(s, k, env, c', input').value.1;
      next.tree == next'.tree && InStep(s, k, next, next')
  {
    hide Prepare, Commit, Good, ViewOk, InStep, RefsAgree, PsksAgree, Successor, Commits, SentPath, WF, IsPow2, ValidNormal, Apply,
      MustResolve, NewExtensions, ResolvePsks, PathRequired, KeysTell;
    PreparedCommit(s, k, env, c, input);
    PreparedCommit(s, k, env, c', input');
    CommitFields(s, k, env, c, input);
    CommitFields(s, k, env, c', input');
    var m, m' := Prepare(s, k, env, c, input).value, Prepare(s, k, env, c', input').value;
    SameMessage(s, k, env, c, input, m, c', input', m');
    SameMaterials(s, k, env, c, input, c', input');
    if m.path.Some? {
      MaterialsPath(s, k, env, c, input);
      MaterialsPath(s, k, env, c', input');
      SameUpdateSecret(s, m.applied, c.index, input.leafSecret, input.rest, input'.leafSecret, input'.rest, m.tree, m.view, m'.view);
    }
    SuccessorsEqual(s, k, env, c, c', m.tree, m.view, m'.view, m.extensions,
                    NewConfirmed(k, env, c, c.index, m.ids, m.path, input.aux), m.path.Some?, m.psks);
  }

  lemma SameMessage(s: Suite, k: Kdf, env: Env, c: State, input: CommitInput, m: Materials, c': State, input': CommitInput,
                    m': Materials)
    requires TranscriptTells(k, env) && HasTag(k, env, c) && HasTag(k, env, c') && m.tree.size > 0 && m'.tree.size > 0
    requires SameEpoch(
      Successor(s, k, env, c, m.tree, m.view, m.extensions, NewConfirmed(k, env, c, c.index, m.ids, m.path, input.aux),
                m.path.Some?, m.psks),
      Successor(s, k, env, c', m'.tree, m'.view, m'.extensions,
                NewConfirmed(k, env, c', c'.index, m'.ids, m'.path, input'.aux), m'.path.Some?, m'.psks))
    ensures SameEpoch(c, c') && c.index == c'.index && m.ids == m'.ids && m.path == m'.path
    ensures NewConfirmed(k, env, c, c.index, m.ids, m.path, input.aux) ==
      NewConfirmed(k, env, c', c'.index, m'.ids, m'.path, input'.aux)
  {
    hide NextEpoch, RootHash, TranscriptTells;
    ConfirmedTells(k, env, c.interim, c.index, m.ids, m.path, input.aux, c'.interim, c'.index, m'.ids, m'.path, input'.aux);
    var tag :| InterimOf(k, env, c.confirmed, tag) == c.interim;
    var tag' :| InterimOf(k, env, c'.confirmed, tag') == c'.interim;
    InterimTells(k, env, c.confirmed, tag, c'.confirmed, tag');
  }

  lemma ConfirmedTells(k: Kdf, env: Env, a: Bytes, i: LeafIndex, ids: seq<ProposalOrRef>, path: Option<UpdatePath>, aux: Bytes,
                       b: Bytes, j: LeafIndex, ids': seq<ProposalOrRef>, path': Option<UpdatePath>, aux': Bytes)
    requires TranscriptTells(k, env)
    requires ConfirmedOf(k, env, a, i, ids, path, aux) == ConfirmedOf(k, env, b, j, ids', path', aux')
    ensures a == b && i == j && ids == ids' && path == path' && aux == aux'
  {}

  lemma InterimTells(k: Kdf, env: Env, a: Bytes, x: Bytes, b: Bytes, y: Bytes)
    requires TranscriptTells(k, env) && InterimOf(k, env, a, x) == InterimOf(k, env, b, y)
    ensures a == b
  {}

  // --------------------------------------------------------------------------
  // One action
  // --------------------------------------------------------------------------

  /** A new state may join the world: it is sound, agrees with everybody, and is in step with whoever is in the
      same epoch. */
  lemma OneMore(s: Suite, k: Kdf, env: Env, w: World, n: State)
    requires AllInStep(s, k, env, w) && Sound(s, k, env, n)
    requires forall b <- w :: Compatible(n, b) && Compatible(b, n)
    requires Compatible(n, n) && InStepIfSame(s, k, n, n)
    requires forall b <- w :: InStepIfSame(s, k, n, b)
    requires n.epoch > 0 ==> Stems(s, k, env, w, n)
    ensures AllInStep(s, k, env, w + {n})
  {
    hide Sound, Compatible, StemsFrom;
    var u := w + {n};
    forall a <- u, b <- u ensures InStepIfSame(s, k, a, b) {
      if b == n && a in w { InStepTurned(s, k, n, a); }
    }
    forall a <- u, b <- u ensures Compatible(a, b) {}
    forall st <- u | st.epoch > 0 ensures Stems(s, k, env, u, st) {
      assert Stems(s, k, env, w, st);
      var c, input :| c in w && StemsFrom(s, k, env, c, input, st);
      assert c in u;
    }
  }

  lemma InStepTurned(s: Suite, k: Kdf, a: State, b: State)
    requires InStepIfSame(s, k, a, b)
    ensures InStepIfSame(s, k, b, a)
  {
    hide TreeHash;
  }

  /** `n` is `st` with some other proposals pending or another update kept. */
  ghost predicate Variant(n: State, st: State) { n == st.(pending := n.pending, cachedUpdate := n.cachedUpdate) }

  /** A variant of a state is in step with whatever the state is in step with. */
  lemma VariantKeepsStep(s: Suite, k: Kdf, env: Env, w: World, st: State, n: State)
    requires AllInStep(s, k, env, w) && st in w && Variant(n, st) && CachedFits(s, n)
    requires RefsAgree(n.pending, n.pending)
    requires forall b <- w :: RefsAgree(n.pending, b.pending) && RefsAgree(b.pending, n.pending)
    ensures AllInStep(s, k, env, w + {n})
  {
    hide Stems, RefsAgree, PsksAgree, CachedFits, InStepIfSame;
    assert Sound(s, k, env, st);
    VariantSound(s, k, env, st, n);
    forall b <- w ensures InStepIfSame(s, k, n, b) && Compatible(n, b) && Compatible(b, n) {
      assert Compatible(st, b) && Compatible(b, st) && InStepIfSame(s, k, st, b);
      VariantInStep(s, k, st, n, b);
    }
    assert InStepIfSame(s, k, st, st) && Compatible(st, st);
    VariantOfItself(s, k, st, n);
    if n.epoch > 0 { VariantStems(s, k, env, w, st, n); }
    hide Sound, AllInStep;
    assert forall b <- w :: Compatible(n, b) && Compatible(b, n);
    OneMore(s, k, env, w, n);
  }

  lemma VariantSound(s: Suite, k: Kdf, env: Env, st: State, n: State)
    requires Sound(s, k, env, st) && Variant(n, st) && CachedFits(s, n)
    ensures Sound(s, k, env, n)
  {
    hide Good, ViewOk, CachedFits;
    var tag :| InterimOf(k, env, st.confirmed, tag) == st.interim;
    assert InterimOf(k, env, n.confirmed, tag) == n.interim;
  }

  lemma VariantInStep(s: Suite, k: Kdf, st: State, n: State, b: State)
    requires Variant(n, st) && InStepIfSame(s, k, st, b)
    ensures InStepIfSame(s, k, n, b)
  {
    hide TreeHash;
  }

  lemma VariantOfItself(s: Suite, k: Kdf, st: State, n: State)
    requires Variant(n, st) && InStepIfSame(s, k, st, st)
    ensures InStepIfSame(s, k, n, n)
  {
    hide TreeHash;
  }

  lemma VariantStems(s: Suite, k: Kdf, env: Env, w: World, st: State, n: State)
    requires Variant(n, st) && Stems(s, k, env, w, st)
    ensures Stems(s, k, env, w, n)
  {
    hide Good, Commit, TreeHash;
    var c, input :| c in w && StemsFrom(s, k, env, c, input, st);
    assert StemsFrom(s, k, env, c, input, n);
  }

  /** Making an update, whose key replaces the one kept so far. */
  lemma UpdateKeepsStep(s: Suite, k: Kdf, env: Env, w: World, st: State, leaf: LeafNode, key: PrivateKey)
    requires AllInStep(s, k, env, w) && st in w && PublicOf(s, key) == leaf.encryptionKey
    ensures AllInStep(s, k, env, w + {st.(cachedUpdate := Some((leaf, key)))})
  {
    hide Stems, Sound, RefsAgree, PsksAgree, InStepIfSame;
    var n := st.(cachedUpdate := Some((leaf, key)));
    forall b <- w ensures RefsAgree(n.pending, b.pending) && RefsAgree(b.pending, n.pending) {
      assert Compatible(st, b) && Compatible(b, st);
    }
    assert Compatible(st, st);
    hide AllInStep;
    VariantKeepsStep(s, k, env, w, st, n);
  }

  /** What hearing of a proposal does: a reference that is pending changes nothing, a new one is put behind the pending
      ones if it passes the checks of its kind, and nothing else changes. */
  lemma ProposalHeard(env: Env, st: State, d: Delivery)
    ensures var known, r := exists p :: p in st.pending && p.ref == d.ref, HandleProposal(env, st, d);
      && (known ==> r == Ok(st))
      && (!known && r.Ok? ==> r.value == st.(pending := st.pending + [CachedProposal(d.ref, d.proposal, Some(d.sender))]))
      && (!known ==> (r.Ok? <==> match d.proposal
            case Add(leaf) => env.leafValid(st.tree, st.groupId, st.extensions, leaf, FromKeyPackage, None)
            case Update(leaf) =>
              OccLeaf(st.tree, d.sender) && env.leafValid(st.tree, st.groupId, st.extensions, leaf, FromUpdate, Some(d.sender))
            case Remove(l) => l < st.tree.size && OccLeaf(st.tree, l) && l != st.index
            case PreSharedKey(id) => id.name in st.psks
            case Extensions(e) => env.extensionsSupported(st.tree, e)
            case ReInit(parameters) => env.reInitSupported(parameters)
            case ExternalInit(kemOutput) => |kemOutput| == env.kemOutputSize))
  {
    FindRefKnown(st.pending, d.ref);
    if p :| p in st.pending && p.ref == d.ref {
      var i :| 0 <= i < |st.pending| && st.pending[i] == p;
      assert st.pending[i].ref == d.ref;
    }
  }

  /** Hearing of a proposal, accepted or not. */
  lemma ProposalKeepsStep(s: Suite, k: Kdf, env: Env, w: World, st: State, d: Delivery)
    requires AllInStep(s, k, env, w) && st in w && HonestRef(w, d) && HandleProposal(env, st, d).Ok?
    ensures AllInStep(s, k, env, w + {HandleProposal(env, st, d).value})
  {
    hide Stems, PsksAgree, InStepIfSame, ValidProposal, Known, Good, ViewOk;
    var n := HandleProposal(env, st, d).value;
    assert Sound(s, k, env, st);
    FindRefKnown(st.pending, d.ref);
    forall p <- n.pending ensures p in st.pending || p == CachedProposal(d.ref, d.proposal, Some(d.sender)) {}
    hide HandleProposal;
    forall b <- w ensures RefsAgree(n.pending, b.pending) && RefsAgree(b.pending, n.pending) {
      assert Compatible(st, b) && Compatible(b, st);
    }
    assert Compatible(st, st);
    assert CachedFits(s, n);
    hide AllInStep, Sound, HonestRef, CachedFits, RefsAgree;
    VariantKeepsStep(s, k, env, w, st, n);
  }

  /** Whoever arrives in the epoch of a commit is in step with everybody who came there some other way. */
  lemma ArrivedKeepsStep(s: Suite, k: Kdf, env: Env, w: World, c: State, input: CommitInput, n: State)
    requires KeysTell(s) && TranscriptTells(k, env)
    requires AllInStep(s, k, env, w) && c in w && Good(s, c.tree) && Commit(s, k, env, c, input).Ok?
    requires Arrived(s, k, n.index, Commit(s, k, env, c, input).value.1, n)
    requires forall b <- w :: PsksAgree(n.psks, b.psks) && PsksAgree(b.psks, n.psks)
    requires PsksAgree(n.psks, n.psks)
    ensures AllInStep(s, k, env, w + {n})
  {
    hide Commit, Good, Member, CachedFits, PsksAgree, InStep, Sound, KeysTell, TranscriptTells;
    NextFields(s, k, env, c, input);
    var next := Commit(s, k, env, c, input).value.1;
    ArrivedFields(s, k, next, n);
    ArrivedSound(s, k, env, next, n);
    assert StemsFrom(s, k, env, c, input, n);
    InStepWithBoth(s, k, next, n, n);
    forall b <- w ensures InStepIfSame(s, k, n, b) {
      if SameEpoch(n, b) {
        assert Stems(s, k, env, w, b);
        var c', input' :| c' in w && StemsFrom(s, k, env, c', input', b);
        SameEpochAsStem(s, k, env, w, c, input, c', input', n, b);
      }
    }
    forall b <- w ensures Compatible(n, b) && Compatible(b, n) {}
    hide AllInStep, Arrived;
    OneMore(s, k, env, w, n);
  }

  lemma SameEpochAsStem(s: Suite, k: Kdf, env: Env, w: World, c: State, input: CommitInput, c': State, input': CommitInput,
                        n: State, b: State)
    requires KeysTell(s) && TranscriptTells(k, env) && AllInStep(s, k, env, w) && c in w && c' in w
    requires StemsFrom(s, k, env, c, input, n) && StemsFrom(s, k, env, c', input', b) && SameEpoch(n, b)
    ensures n.tree == b.tree && InStep(s, k, n, b)
  {
    hide Commit, Good, Member, CachedFits, Compatible, Stems, AllInStep, KeysTell, TranscriptTells, Together, HasTag;
    var next, next' := Commit(s, k, env, c, input).value.1, Commit(s, k, env, c', input').value.1;
    ArrivedFields(s, k, next, n);
    ArrivedFields(s, k, next', b);
    hide InStep;
    StepSound(s, k, env, w, c);
    StepSound(s, k, env, w, c');
    if SameEpoch(c, c') { StepTogether(s, k, env, w, c, c'); }
    SameTranscriptSameNext(s, k, env, c, input, c', input');
    InStepWithBoth(s, k, next, next', n);
    InStepWithBoth(s, k, next', n, b);
  }

  lemma InStepWithBoth(s: Suite, k: Kdf, x: State, a: State, b: State)
    requires InStep(s, k, x, a) && InStep(s, k, x, b)
    ensures InStep(s, k, a, b) && InStep(s, k, a, x)
  {
    hide TreeHash;
  }

  lemma ArrivedFields(s: Suite, k: Kdf, next: State, n: State)
    requires InStep(s, k, next, n)
    ensures n.epoch == next.epoch && n.confirmed == next.confirmed && n.interim == next.interim
  {
    hide TreeHash;
  }

  lemma NextFields(s: Suite, k: Kdf, env: Env, c: State, input: CommitInput)
    requires Good(s, c.tree) && Commit(s, k, env, c, input).Ok?
    ensures var next := Commit(s, k, env, c, input).value.1;
      && next.epoch == c.epoch + 1 && next.psks == c.psks && next.cachedUpdate == c.cachedUpdate && next.index == c.index
      && next.pending == [] && HasTag(k, env, next)
  {
    hide Prepare, NextEpoch, TreeHash, Good, HashOf, NewConfirmed;
    PreparedCommit(s, k, env, c, input);
    CommitFields(s, k, env, c, input);
    var next := Commit(s, k, env, c, input).value.1;
    assert InterimOf(k, env, next.confirmed, next.schedule.confirmationTag) == next.interim;
  }

  lemma ArrivedSound(s: Suite, k: Kdf, env: Env, next: State, n: State)
    requires Arrived(s, k, n.index, next, n) && HasTag(k, env, next)
    requires n.confirmed == next.confirmed && n.interim == next.interim
    ensures Sound(s, k, env, n) && n.pending == []
  {
    hide Member, CachedFits, InStep;
    var tag :| InterimOf(k, env, next.confirmed, tag) == next.interim;
    assert InterimOf(k, env, n.confirmed, tag) == n.interim;
  }

  /** Committing: the next state of the committer. */
  lemma CommitKeepsStep(s: Suite, k: Kdf, env: Env, w: World, c: State, input: CommitInput)
    requires KeysTell(s) && TranscriptTells(k, env)
    requires AllInStep(s, k, env, w) && c in w && Good(s, c.tree) && Commit(s, k, env, c, input).Ok?
    ensures AllInStep(s, k, env, w + {Commit(s, k, env, c, input).value.1})
  {
    hide Commit, Good, Member, CachedFits, InStep, Sound, AllInStep, KeysTell, TranscriptTells, PsksAgree, Together, HasTag;
    StepSound(s, k, env, w, c);
    var next := Commit(s, k, env, c, input).value.1;
    NextFields(s, k, env, c, input);
    CommitterArrives(s, k, env, c, input);
    PsksKnown(s, k, env, w, c);
    ArrivedKeepsStep(s, k, env, w, c, input, next);
  }

  lemma CommitterArrives(s: Suite, k: Kdf, env: Env, c: State, input: CommitInput)
    requires Member(s, c) && CachedFits(s, c) && Commit(s, k, env, c, input).Ok?
    ensures var next := Commit(s, k, env, c, input).value.1; Arrived(s, k, next.index, next, next)
  {
    hide Commit, Good, ViewOk, InStep;
    NextFields(s, k, env, c, input);
    CommitterMember(s, k, env, c, input);
    var next := Commit(s, k, env, c, input).value.1;
    SameCached(s, c, next);
    EqualFieldsInStep(s, k, next, next);
  }

  lemma PsksKnown(s: Suite, k: Kdf, env: Env, w: World, st: State)
    requires AllInStep(s, k, env, w) && st in w
    ensures PsksAgree(st.psks, st.psks)
    ensures forall b <- w :: PsksAgree(st.psks, b.psks) && PsksAgree(b.psks, st.psks)
  {
    hide Sound, InStepIfSame, Stems, RefsAgree, PsksAgree;
    forall b <- w ensures PsksAgree(st.psks, b.psks) && PsksAgree(b.psks, st.psks) {
      assert Compatible(st, b) && Compatible(b, st);
    }
  }

  /** Any state that hears of any commit, at any time: it follows exactly when it is in the epoch of the commit
      and `CanFollow` holds, and then it is in step with the committer's next state. */
  lemma HearIff(s: Suite, k: Kdf, env: Env, w: World, r: State, c: State, input: CommitInput)
    requires DecryptionWorks(s) && TreeHashInjective(s) && AllInStep(s, k, env, w) && r in w && c in w
    requires Good(s, r.tree) && Good(s, c.tree) && c.tree.size > 0
    requires Commit(s, k, env, c, input).Ok? && Prepare(s, k, env, c, input).Ok?
    ensures var m := Prepare(s, k, env, c, input).value;
      && WF(m.applied) && IsPow2(m.applied.size) && c.index < m.applied.size
      && (HandleMessage(s, k, env, r, MessageOf(s, k, env, c, input)).Ok? <==>
            SameEpoch(r, c) && CanFollow(s, env, c, m, r))
    ensures HandleMessage(s, k, env, r, MessageOf(s, k, env, c, input)).Ok? ==>
      var st := HandleMessage(s, k, env, r, MessageOf(s, k, env, c, input)).value;
      Arrived(s, k, r.index, Commit(s, k, env, c, input).value.1, st) && st.psks == r.psks
  {
    hide Commit, Prepare, Good, Member, InStep, AllInStep, Sound, CanFollow, Arrived, HandleCommit, WF, IsPow2, CachedFits, HasTag,
      RootHash;
    StepSound(s, k, env, w, r);
    StepSound(s, k, env, w, c);
    CommitTreeOk(s, k, env, c, input);
    if SameEpoch(r, c) {
      StepTogether(s, k, env, w, c, r);
      SameContext(s, k, c, r);
      hide Together;
      FollowsIff(s, k, env, c, r, input);
    }
  }

  lemma SameContext(s: Suite, k: Kdf, a: State, b: State)
    requires InStep(s, k, a, b)
    ensures a.tree.size > 0 && b.tree.size > 0 && ContextOf(s, a) == ContextOf(s, b)
  {
    hide TreeHash;
  }

  lemma HearKeepsStep(s: Suite, k: Kdf, env: Env, w: World, r: State, c: State, input: CommitInput)
    requires DecryptionWorks(s) && TreeHashInjective(s) && KeysTell(s) && TranscriptTells(k, env)
    requires AllInStep(s, k, env, w) && r in w && c in w && Good(s, r.tree) && Good(s, c.tree) && c.tree.size > 0
    requires Commit(s, k, env, c, input).Ok? && HandleMessage(s, k, env, r, MessageOf(s, k, env, c, input)).Ok?
    ensures AllInStep(s, k, env, w + {HandleMessage(s, k, env, r, MessageOf(s, k, env, c, input)).value})
  {
    hide Commit, Prepare, Good, Member, InStep, AllInStep, CanFollow, HandleMessage, MessageOf, WF, IsPow2, PsksAgree, KeysTell,
      TranscriptTells, Arrived;
    PreparedCommit(s, k, env, c, input);
    HearIff(s, k, env, w, r, c, input);
    var n := HandleMessage(s, k, env, r, MessageOf(s, k, env, c, input)).value;
    ArrivedIndex(s, k, r.index, Commit(s, k, env, c, input).value.1, n);
    PsksKnown(s, k, env, w, r);
    ArrivedKeepsStep(s, k, env, w, c, input, n);
  }

  lemma ArrivedIndex(s: Suite, k: Kdf, i: LeafIndex, next: State, n: State)
    requires Arrived(s, k, i, next, n)
    ensures n.index == i
  {}

  lemma JoinKeepsStep(s: Suite, k: Kdf, env: Env, w: World, c: State, input: CommitInput, i: LeafIndex, kit: Kit)
    requires KeysTell(s) && TranscriptTells(k, env) && AllInStep(s, k, env, w) && c in w && Good(s, c.tree)
    requires KitFits(s, k, env, c, input, i, kit) && HonestPsks(w, kit.psks) && JoinBy(s, k, env, c, input, i, kit).Ok?
    ensures AllInStep(s, k, env, w + {JoinBy(s, k, env, c, input, i, kit).value})
  {
    hide Good, Member, InStep, AllInStep, PsksAgree, KeysTell, TranscriptTells, KitFits, Arrived, JoinBy, CanJoin, HasTag, Together,
      CachedFits, Commit, Prepare;
    StepSound(s, k, env, w, c);
    JoinedBy(s, k, env, c, input, i, kit);
    JoinsIff(s, k, env, c, input, i, kit);
    var n := JoinBy(s, k, env, c, input, i, kit).value;
    ArrivedIndex(s, k, i, Commit(s, k, env, c, input).value.1, n);
    assert PsksAgree(kit.psks, kit.psks) by { hide *; AgreesWithItself(kit.psks); }
    ArrivedKeepsStep(s, k, env, w, c, input, n);
  }

  lemma AgreesWithItself(psks: map<Bytes, Bytes>)
    ensures PsksAgree(psks, psks)
  {}

  lemma JoinedBy(s: Suite, k: Kdf, env: Env, c: State, input: CommitInput, i: LeafIndex, kit: Kit)
    requires Good(s, c.tree) && JoinBy(s, k, env, c, input, i, kit).Ok?
    ensures Prepare(s, k, env, c, input).Ok? && Commit(s, k, env, c, input).Ok?
    ensures i in Prepare(s, k, env, c, input).value.joiners
  {
    hide Good, Prepare, Commit, Join;
  }

  lemma ActKeepsStep(s: Suite, k: Kdf, env: Env, w: World, a: Action)
    requires DecryptionWorks(s) && TreeHashInjective(s) && KeysTell(s) && TranscriptTells(k, env)
    requires AllInStep(s, k, env, w) && AllGood(s, w) && CanAct(s, k, env, w, a)
    ensures AllInStep(s, k, env, Act(s, k, env, w, a))
  {
    hide AllInStep, HonestRef, HonestPsks, KitFits, Good, Commit, HandleMessage, JoinBy, HandleProposal, KeysTell, TranscriptTells,
      MessageOf;
    if Outcome(s, k, env, w, a).Ok? {
      match a
      case MakeUpdate(st, leaf, key) => UpdateKeepsStep(s, k, env, w, st, leaf, key);
      case HearProposal(st, d) => ProposalKeepsStep(s, k, env, w, st, d);
      case MakeCommit(c, input) => CommitKeepsStep(s, k, env, w, c, input);
      case HearCommit(r, c, input) => HearKeepsStep(s, k, env, w, r, c, input);
      case JoinGroup(c, input, i, kit) => JoinKeepsStep(s, k, env, w, c, input, i, kit);
    }
  }

  // --------------------------------------------------------------------------
  // Whole runs
  // --------------------------------------------------------------------------

  /** `State` for a new group: one member, epoch 0, a random epoch secret. */
  ghost function Founder(s: Suite, k: Kdf, env: Env, groupId: Bytes, leaf: LeafNode, key: PrivateKey, initSecret: Bytes,
                         extensions: Bytes, psks: map<Bytes, Bytes>): State
  {
    var t := PlaceLeaf(Grow(EmptyTree), 0, leaf);
    var context := GroupContext(groupId, 0, RootHash(s, t), [], extensions);
    var preJoiner := ExtractKey(k, initSecret, k.zero);
    var schedule := MakeEpoch(k, ExpandWith(k, preJoiner, JoinerLabel, ContextBytes(k, context)), [], [],
                              ContextBytes(k, context));
    State(groupId, 0, t, View(0, [], map[], map[LeafNodeIndex(0) := key]), [],
          HashOf(k, env.marshalTag(schedule.confirmationTag)), schedule, extensions, 0, [], None, psks)
  }

  lemma FounderInStep(s: Suite, k: Kdf, env: Env, groupId: Bytes, leaf: LeafNode, key: PrivateKey, initSecret: Bytes,
                      extensions: Bytes, psks: map<Bytes, Bytes>)
    requires PublicOf(s, key) == leaf.encryptionKey
    ensures AllInStep(s, k, env, {Founder(s, k, env, groupId, leaf, key, initSecret, extensions, psks)})
  {
    hide Lo, Hi, Width, Level, IsPow2, TreeHash, UnmergedOk, Populated, ParentHashValid, UniqueKeys, Stems;
    var st := Founder(s, k, env, groupId, leaf, key, initSecret, extensions, psks);
    FirstTree(s, leaf);
    assert Have(st.view, 0) && forall n :: Have(st.view, n) <==> n == 0;
    assert Covers(0, 0);
    assert Member(s, st);
    assert [] + env.marshalTag(st.schedule.confirmationTag) == env.marshalTag(st.schedule.confirmationTag);
    assert InterimOf(k, env, st.confirmed, st.schedule.confirmationTag) == st.interim;
    hide Founder, Member;
    EqualFieldsInStep(s, k, st, st);
  }

  lemma FirstTree(s: Suite, leaf: LeafNode)
    ensures var t := PlaceLeaf(Grow(EmptyTree), 0, leaf);
      t.size == 1 && Good(s, t) && OccLeaf(t, 0) && LeafAt(t, 0) == leaf && forall n :: !OccParent(t, n)
  {
    var t := PlaceLeaf(Grow(EmptyTree), 0, leaf);
    assert t.nodes == map[0 := Some(LeafN(leaf))] by { assert NodeCount(1) == 1; }
    assert IsLeaf(0);
    assert forall x :: x in t.nodes <==> x == 0;
    hide Lo, Hi, Width, Level;
    assert forall l: nat :: OccLeaf(t, l) ==> l == 0;
  }

  lemma RunStep(s: Suite, k: Kdf, env: Env, worlds: seq<World>, actions: seq<Action>, n: nat)
    requires DecryptionWorks(s) && TreeHashInjective(s) && KeysTell(s) && TranscriptTells(k, env)
    requires IsGroupRun(s, k, env, worlds, actions) && n < |actions| && AllInStep(s, k, env, worlds[n])
    ensures AllInStep(s, k, env, worlds[n + 1]) && worlds[n] <= worlds[n + 1]
  {
    hide AllInStep, CanAct, Outcome, KeysTell, TranscriptTells;
    StepGood(s, k, env, worlds[n]);
    assert IsStep(s, k, env, worlds[n], actions[n], worlds[n + 1]);
    ActKeepsStep(s, k, env, worlds[n], actions[n]);
  }

  /** Safety over all runs, whoever hears of what and when, forks and late messages included: every state is
      sound, and two states with the same epoch and the same confirmed transcript hash are in step. */
  lemma {:induction false} EveryRunStaysInStep(s: Suite, k: Kdf, env: Env, worlds: seq<World>, actions: seq<Action>, n: nat)
    requires DecryptionWorks(s) && TreeHashInjective(s) && KeysTell(s) && TranscriptTells(k, env)
    requires IsGroupRun(s, k, env, worlds, actions) && AllInStep(s, k, env, worlds[0]) && n < |worlds|
    ensures AllInStep(s, k, env, worlds[n]) && worlds[0] <= worlds[n]
    decreases n
  {
    hide AllInStep, IsStep, KeysTell, TranscriptTells;
    if n > 0 {
      EveryRunStaysInStep(s, k, env, worlds, actions, n - 1);
      RunStep(s, k, env, worlds, actions, n - 1);
    }
  }

  /** What that comes to for any two states of a run with the same epoch and transcript: one tree, equal states,
      and each member holds the private key of an occupied parent exactly when it is below it and merged into it. */
  lemma EveryRunHoldsKeys(s: Suite, k: Kdf, env: Env, worlds: seq<World>, actions: seq<Action>, n: nat, a: State, b: State)
    requires DecryptionWorks(s) && TreeHashInjective(s) && KeysTell(s) && TranscriptTells(k, env)
    requires IsGroupRun(s, k, env, worlds, actions) && AllInStep(s, k, env, worlds[0])
    requires n < |worlds| && a in worlds[n] && b in worlds[n] && SameEpoch(a, b)
    ensures a.tree == b.tree && a.tree.size > 0 && StateEq(s, k, a, b)
    ensures a.groupId == b.groupId && a.epoch == b.epoch && a.extensions == b.extensions && a.confirmed == b.confirmed
    ensures a.interim == b.interim && a.schedule.epochSecret == b.schedule.epochSecret
    ensures OccLeaf(a.tree, a.index) && LeafNodeIndex(a.index) in a.view.cache
    ensures s.publicOf(a.view.cache[LeafNodeIndex(a.index)]) == LeafAt(a.tree, a.index).encryptionKey
    ensures forall x :: OccParent(a.tree, x) ==> (Have(a.view, x) <==> Covers(x, a.index) && a.index !in Unmerged(a.tree, x))
    ensures forall x :: OccParent(a.tree, x) && Have(a.view, x) ==>
      PublicOf(s, KeyAt(s, a.view, x).value) == KeyOfNode(a.tree, x)
  {
    hide Lo, Hi, TreeHash, WF, IsGroupRun, RefsAgree, PsksAgree, CachedFits, AllInStep, KeysTell, TranscriptTells, HasTag;
    EveryRunStaysInStep(s, k, env, worlds, actions, n);
    StepSound(s, k, env, worlds[n], a);
    StepTogether(s, k, env, worlds[n], a, b);
  }
}
