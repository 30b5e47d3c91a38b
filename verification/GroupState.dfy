/** One member's group state and its step to the next epoch: committing, handling a commit and
    joining (`state.cpp`).  External commits, branching and re-initialisation are not included. */
module GroupState {
  import opened Wrappers
  import opened TreeMath
  import opened Crypto
  import opened RatchetTree
  import opened TreePaths
  import opened TreeRuns
  import opened TreeHashes
  import opened Views
  import opened Agreement
  import opened Receivers
  import opened Proposals
  import opened KeySchedule

  datatype Source = FromKeyPackage | FromUpdate | FromCommit

  datatype ProposalOrRef = ByRef(ref: Bytes) | ByValue(proposal: Proposal)

  /** What the model leaves to the environment: signatures, credentials and extension support of
      leaves, and the marshalled form of a signed commit. */
  datatype Env = Env(
    leafValid: (Tree, Bytes, Bytes, LeafNode, Source, Option<LeafIndex>) -> bool,
    extensionsSupported: (Tree, Bytes) -> bool,
    treeLeavesValid: (Tree, Bytes, Bytes) -> bool,
    reInitSupported: Bytes -> bool,
    kemOutputSize: nat,
    marshalCommit: (LeafIndex, seq<ProposalOrRef>, Option<UpdatePath>, Bytes) -> Bytes,
    marshalTag: Bytes -> Bytes)

  datatype State = State(
    groupId: Bytes, epoch: nat, tree: Tree, view: View, confirmed: Bytes, interim: Bytes, schedule: Epoch,
    extensions: Bytes, index: LeafIndex, pending: seq<CachedProposal>,
    cachedUpdate: Option<(LeafNode, PrivateKey)>, psks: map<Bytes, Bytes>)

  /** A commit message; `aux` stands for authenticated data, wire format and signature. */
  datatype CommitMessage = CommitMessage(
    sender: LeafIndex, proposals: seq<ProposalOrRef>, path: Option<UpdatePath>, aux: Bytes, tag: Bytes)

  // --------------------------------------------------------------------------
  // Lists of proposals
  // --------------------------------------------------------------------------

  function FindRef(pending: seq<CachedProposal>, ref: Bytes): Option<CachedProposal> {
    if pending == [] then None
    else if pending[0].ref == ref then Some(pending[0])
    else FindRef(pending[1..], ref)
  }

  /** `must_resolve`: references are looked up, proposals by value come from the committer. */
  function MustResolve(ids: seq<ProposalOrRef>, pending: seq<CachedProposal>, sender: LeafIndex)
    : Result<seq<CachedProposal>>
  {
    if ids == [] then Ok([])
    else
      var first :-
        match ids[0] {
          case ByValue(p) => Ok(CachedProposal([], p, Some(sender)))
          case ByRef(ref) => (match FindRef(pending, ref) case Some(c) => Ok(c) case None => Err(BadOptional))
        };
      var rest :- MustResolve(ids[1..], pending, sender);
      Ok([first] + rest)
  }

  /** `valid(sender, proposal)`: the checks of one proposal. */
  ghost predicate ValidProposal(env: Env, st: State, sender: Option<LeafIndex>, p: Proposal) {
    match p
    case Add(leaf) => env.leafValid(st.tree, st.groupId, st.extensions, leaf, FromKeyPackage, None)
    case Update(leaf) =>
      && sender.Some? && OccLeaf(st.tree, sender.value)
      && env.leafValid(st.tree, st.groupId, st.extensions, leaf, FromUpdate, sender)
    case Remove(i) => i < st.tree.size && OccLeaf(st.tree, i) && i != st.index
    case PreSharedKey(id) => id.name in st.psks
    case Extensions(e) => env.extensionsSupported(st.tree, e)
    case ReInit(parameters) => env.reInitSupported(parameters)
    case ExternalInit(kemOutput) => |kemOutput| == env.kemOutputSize
  }

  /** The leaf an update or a remove is about. */
  ghost function Target(c: CachedProposal): Option<LeafIndex> {
    match c.proposal
    case Update(_) => c.sender
    case Remove(i) => Some(i)
    case _ => None
  }

  ghost function EncryptionKeyOf(c: CachedProposal): Option<PublicKey> {
    match c.proposal
    case Add(leaf) => Some(leaf.encryptionKey)
    case Update(leaf) => Some(leaf.encryptionKey)
    case _ => None
  }

  /** `valid_normal` (section 12.2 of RFC 9420). */
  ghost predicate ValidNormal(env: Env, st: State, ps: seq<CachedProposal>, committer: LeafIndex) {
    && (forall k :: 0 <= k < |ps| ==>
          && ValidProposal(env, st, ps[k].sender, ps[k].proposal)
          && !(ps[k].proposal.Update? && ps[k].sender == Some(committer))
          && ps[k].proposal != Remove(committer)
          && !ps[k].proposal.ReInit? && !ps[k].proposal.ExternalInit?)
    && (forall j, k :: 0 <= j < k < |ps| ==>
          && !(Target(ps[j]).Some? && Target(ps[j]) == Target(ps[k]))
          && !(ps[j].proposal.Add? && ps[k].proposal.Add?
               && ps[j].proposal.leaf.signatureKey == ps[k].proposal.leaf.signatureKey)
          && !(ps[j].proposal.PreSharedKey? && ps[j].proposal == ps[k].proposal)
          && !(ps[j].proposal.Extensions? && ps[k].proposal.Extensions?)
          && !(EncryptionKeyOf(ps[j]).Some? && EncryptionKeyOf(ps[j]) == EncryptionKeyOf(ps[k])))
  }

  /** `path_required` */
  ghost predicate PathRequired(ps: seq<CachedProposal>) {
    ps == [] || exists k :: 0 <= k < |ps| && NeedsPath(ps[k].proposal)
  }

  predicate NeedsPath(p: Proposal) { p.Update? || p.Remove? || p.ExternalInit? || p.Extensions? }

  /** The extensions of the next epoch: the first such proposal in the list counts. */
  ghost function NewExtensions(env: Env, st: State, ps: seq<CachedProposal>): Result<Bytes> {
    if ps == [] then Ok(st.extensions)
    else
      match ps[0].proposal
      case Extensions(e) => if env.extensionsSupported(st.tree, e) then Ok(e) else Err(Protocol)
      case _ => NewExtensions(env, st, ps[1..])
  }

  function ResolvePsks(psks: map<Bytes, Bytes>, ps: seq<CachedProposal>): Result<seq<PskWithSecret>> {
    if ps == [] then Ok([])
    else
      match ps[0].proposal
      case PreSharedKey(id) =>
        if id.name !in psks then Err(Protocol)
        else
          var rest :- ResolvePsks(psks, ps[1..]);
          Ok([PskWithSecret(id, psks[id.name])] + rest)
      case _ => ResolvePsks(psks, ps[1..])
  }

  // --------------------------------------------------------------------------
  // The next state
  // --------------------------------------------------------------------------

  ghost function ContextOf(s: Suite, st: State): GroupContext
    requires st.tree.size > 0
  {
    GroupContext(st.groupId, st.epoch, RootHash(s, st.tree), st.confirmed, st.extensions)
  }

  /** `successor` */
  ghost function Successor(s: Suite, k: Kdf, env: Env, st: State, tree: Tree, view: View, extensions: Bytes,
                           confirmed: Bytes, hasPath: bool, psks: seq<PskWithSecret>): State
    requires tree.size > 0
  {
    var next := st.(epoch := st.epoch + 1, tree := tree, view := view, extensions := extensions, pending := [],
                    confirmed := confirmed);
    var commitSecret := if hasPath then view.updateSecret else k.zero;
    var schedule := NextEpoch(k, st.schedule, commitSecret, psks, confirmed, ContextBytes(k, ContextOf(s, next)));
    next.(schedule := schedule, interim := HashOf(k, confirmed + env.marshalTag(schedule.confirmationTag)))
  }

  /** The group context that path secrets are encrypted in: the next epoch, the new tree, but still
      the old transcript. */
  ghost function PathContext(s: Suite, k: Kdf, st: State, tree: Tree, extensions: Bytes): Bytes
    requires tree.size > 0
  {
    ContextBytes(k, GroupContext(st.groupId, st.epoch + 1, RootHash(s, tree), st.confirmed, extensions))
  }

  ghost function NewConfirmed(k: Kdf, env: Env, st: State, sender: LeafIndex, ids: seq<ProposalOrRef>,
                              path: Option<UpdatePath>, aux: Bytes): Bytes
  {
    HashOf(k, st.interim + env.marshalCommit(sender, ids, path, aux))
  }

  /** What the committer chooses. */
  datatype CommitInput = CommitInput(
    leafSecret: Bytes, extra: seq<Proposal>, forcePath: bool, rest: Bytes, coins: Coins, aux: Bytes)

  function CommitIds(pending: seq<CachedProposal>, extra: seq<Proposal>): (r: seq<ProposalOrRef>)
    ensures |r| == |pending| + |extra|
  {
    seq(|pending|, i requires 0 <= i < |pending| => ByRef(pending[i].ref))
    + seq(|extra|, i requires 0 <= i < |extra| => ByValue(extra[i]))
  }

  /** `prepare_commit` for a normal commit: the tree, view and path of the next epoch. */
  datatype Materials = Materials(
    ids: seq<ProposalOrRef>, list: seq<CachedProposal>, joiners: seq<LeafIndex>, applied: Tree, tree: Tree, view: View,
    extensions: Bytes, path: Option<UpdatePath>, psks: seq<PskWithSecret>)

  ghost function Prepare(s: Suite, k: Kdf, env: Env, st: State, input: CommitInput): Result<Materials>
    requires Good(s, st.tree)
  {
    var ids := CommitIds(st.pending, input.extra);
    var ps :- MustResolve(ids, st.pending, st.index);
    if !ValidNormal(env, st, ps, st.index) then Err(Protocol)
    else
      var (t1, joiners) :- Apply(st.tree, ps);
      var extensions :- NewExtensions(env, st, ps);
      var psks :- ResolvePsks(st.psks, ps);
      ApplyGood(s, st.tree, ps, t1, joiners);
      if !input.forcePath && !PathRequired(ps) then
        Ok(Materials(ids, ps, joiners, t1, t1, st.view, extensions, None, psks))
      else
        var (t2, view) :- Views.Update(s, t1, st.index, input.leafSecret, input.rest);
        CommitTree(s, t1, st.index, input.leafSecret, input.rest, t2, view);
        var path := SentPath(s, t1, st.index, input.leafSecret, input.rest, t2, view,
                             PathContext(s, k, st, t2, extensions), joiners, input.coins);
        Ok(Materials(ids, ps, joiners, t1, t2, view, extensions, Some(path), psks))
  }

  /** `commit` */
  ghost function Commit(s: Suite, k: Kdf, env: Env, st: State, input: CommitInput): Result<(CommitMessage, State)>
    requires Good(s, st.tree)
  {
    var m :- Prepare(s, k, env, st, input);
    MaterialsTree(s, k, env, st, input);
    var confirmed := NewConfirmed(k, env, st, st.index, m.ids, m.path, input.aux);
    var next := Successor(s, k, env, st, m.tree, m.view, m.extensions, confirmed, m.path.Some?, m.psks);
    Ok((CommitMessage(st.index, m.ids, m.path, input.aux, next.schedule.confirmationTag), next))
  }

  lemma MaterialsTree(s: Suite, k: Kdf, env: Env, st: State, input: CommitInput)
    requires Good(s, st.tree) && Prepare(s, k, env, st, input).Ok?
    ensures var m := Prepare(s, k, env, st, input).value;
      && Apply(st.tree, m.list) == Ok((m.applied, m.joiners)) && Good(s, m.applied)
      && m.tree.size == m.applied.size > 0 && IsPow2(m.tree.size)
      && (m.path.Some? ==> Commits(s, m.applied, st.index, input.leafSecret, input.rest, m.tree, m.view))
  {
    hide ValidNormal, Apply, Views.Update, Good, SentPath, MustResolve, NewExtensions, ResolvePsks, PathRequired, CommitIds;
    var m := Prepare(s, k, env, st, input).value;
    var ps := MustResolve(CommitIds(st.pending, input.extra), st.pending, st.index).value;
    var applied := Apply(st.tree, ps).value;
    assert m.list == ps && m.applied == applied.0 && m.joiners == applied.1;
    ApplyGood(s, st.tree, ps, m.applied, m.joiners);
    assert WF(m.applied) by { hide *; GoodWF(s, m.applied); }
    if m.path.Some? {
      var u := Views.Update(s, m.applied, st.index, input.leafSecret, input.rest);
      assert u.Ok?;
      assert m.tree == u.value.0;
      assert m.view == u.value.1;
      CommitTree(s, m.applied, st.index, input.leafSecret, input.rest, m.tree, m.view);
    }
  }

  lemma GoodWF(s: Suite, t: Tree)
    requires Good(s, t)
    ensures WF(t)
  {
  }

  // --------------------------------------------------------------------------
  // Handling a commit
  // --------------------------------------------------------------------------

  /** The part of `handle_commit` about the path: check, merge, and find what to decrypt. */
  ghost function ReceivePath(s: Suite, env: Env, st: State, t1: Tree, sender: LeafIndex, path: UpdatePath,
                             joiners: seq<LeafIndex>): Result<(Tree, Coords)>
    requires WF(t1) && IsPow2(t1.size)
  {
    if !env.leafValid(st.tree, st.groupId, st.extensions, path.leaf, FromCommit, Some(sender)) then Err(Protocol)
    else if sender >= t1.size then Err(InvalidParameter)
    else if !PathParentHashValid(s, t1, sender, path) then Err(Protocol)
    else
      var t2 :- Merge(s, t1, sender, path);
      MergeWF(s, t1, sender, path);
      // the coordinates are undefined for a member that is not in the tree or just joining
      if !OccLeaf(t2, st.index) || st.index in joiners || st.index == sender then Err(BadOptional)
      else Ok((t2, DecapCoords(t2, st.index, sender, joiners)))
  }

  /** The leaf key of `ratchet`: a self-update takes effect with the key that was kept for it. */
  ghost function RatchetLeaf(s: Suite, st: State, tree: Tree): Result<View>
    requires tree.size > 0
  {
    var view := TruncateView(st.view, tree.size);
    var x := LeafNodeIndex(st.index);
    if x !in tree.nodes then Err(OutOfRange)
    else if !OccLeaf(tree, st.index) then Err(BadOptional)
    else if x !in view.cache then Err(OutOfRange)
    else if LeafAt(tree, st.index).encryptionKey == PublicOf(s, view.cache[x]) then Ok(view)
    else
      match st.cachedUpdate
      case None => Err(Protocol)
      case Some((leaf, key)) => if leaf == LeafAt(tree, st.index) then Ok(SetLeafKeyView(view, key)) else Err(Protocol)
  }

  /** `handle_commit` and `ratchet` for a commit of another member. */
  ghost function HandleCommit(s: Suite, k: Kdf, env: Env, st: State, msg: CommitMessage): Result<State>
    requires Good(s, st.tree)
  {
    if msg.sender == st.index then Err(InvalidParameter)
    else
      var ps :- MustResolve(msg.proposals, st.pending, msg.sender);
      var (t1, joiners) :- Apply(st.tree, ps);
      var extensions :- NewExtensions(env, st, ps);
      var psks :- ResolvePsks(st.psks, ps);
      ApplyGood(s, st.tree, ps, t1, joiners);
      if !ValidNormal(env, st, ps, msg.sender) then Err(Protocol)
      else
        var confirmed := NewConfirmed(k, env, st, msg.sender, msg.proposals, msg.path, msg.aux);
        match msg.path
        case None =>
          if PathRequired(ps) then Err(Protocol)
          else
            var view :- RatchetLeaf(s, st, t1);
            Confirmed(Successor(s, k, env, st, t1, view, extensions, confirmed, false, psks), msg.tag)
        case Some(path) =>
          var (t2, c) :- ReceivePath(s, env, st, t1, msg.sender, path, joiners);
          MergeWF(s, t1, msg.sender, path);
          var sealed :- CiphertextAt(path, c);
          var leafView :- RatchetLeaf(s, st, t2);
          var view :- DecapAt(s, t2, leafView, msg.sender, PathContext(s, k, st, t2, extensions), c.node, sealed);
          Confirmed(Successor(s, k, env, st, t2, view, extensions, confirmed, true, psks), msg.tag)
  }

  /** A commit on its way: signature and membership tag cover the group context of the sender. */
  datatype SignedCommit = SignedCommit(context: GroupContext, commit: CommitMessage)

  /** `unwrap` and `handle_commit`: nothing verifies that was signed in another group context. */
  ghost function HandleMessage(s: Suite, k: Kdf, env: Env, st: State, msg: SignedCommit): Result<State>
    requires Good(s, st.tree)
  {
    if st.tree.size == 0 || msg.context != ContextOf(s, st) then Err(Protocol)
    else HandleCommit(s, k, env, st, msg.commit)
  }

  function CiphertextAt(path: UpdatePath, c: Coords): Result<Bytes> {
    if c.entry < |path.nodes| && c.recipient < |path.nodes[c.entry].encrypted|
    then Ok(path.nodes[c.entry].encrypted[c.recipient]) else Err(OutOfRange)
  }

  ghost function Confirmed(next: State, tag: Bytes): Result<State> {
    if next.schedule.confirmationTag == tag then Ok(next) else Err(Protocol)
  }

  // --------------------------------------------------------------------------
  // Members in step
  // --------------------------------------------------------------------------

  /** `operator==` of two states. */
  ghost predicate StateEq(s: Suite, k: Kdf, a: State, b: State)
    requires a.tree.size > 0 && b.tree.size > 0
  {
    && a.groupId == b.groupId && a.epoch == b.epoch && RootHash(s, a.tree) == RootHash(s, b.tree)
    && a.confirmed == b.confirmed && a.interim == b.interim && SameEpoch(k, a.schedule, b.schedule)
    && a.extensions == b.extensions
  }

  /** A member's own state is sound: its tree passes all checks and its view fits the tree. */
  ghost predicate Member(s: Suite, st: State) {
    && st.tree.size > 0 && Good(s, st.tree) && st.view.index == st.index && ViewOk(s, st.tree, st.view)
  }

  /** Two members in the same epoch. */
  ghost predicate InStep(s: Suite, k: Kdf, a: State, b: State) {
    a.tree.size > 0 && b.tree.size > 0 && StateEq(s, k, a, b)
  }

  /** The update a list makes for a member, if there is one, is the last one the member has made itself. */
  ghost predicate UpdateMatches(st: State, ps: seq<CachedProposal>) {
    LastUpdate(ps, st.index).Some? ==> st.cachedUpdate.Some? && st.cachedUpdate.value.0 == LastUpdate(ps, st.index).value
  }

  /** A member keeps the key of the last update it has made. */
  ghost predicate CachedFits(s: Suite, st: State) {
    st.cachedUpdate.Some? ==> PublicOf(s, st.cachedUpdate.value.1) == st.cachedUpdate.value.0.encryptionKey
  }

  /** The pre-shared keys that a list asks for are at hand. */
  ghost predicate HoldsPsks(psks: map<Bytes, Bytes>, ps: seq<CachedProposal>) {
    forall k :: 0 <= k < |ps| && ps[k].proposal.PreSharedKey? ==> ps[k].proposal.id.name in psks
  }

  /** What two members take for the key of one name is the same. */
  predicate PsksAgree(a: map<Bytes, Bytes>, b: map<Bytes, Bytes>) {
    forall name :: name in a && name in b ==> a[name] == b[name]
  }

  lemma InStepSameTree(s: Suite, k: Kdf, a: State, b: State)
    requires TreeHashInjective(s) && InStep(s, k, a, b) && WF(a.tree) && WF(b.tree)
    ensures a.tree == b.tree
  {
    hide TreeHash, UnmergedOk, Populated;
    RootHashDetermines(s, a.tree, b.tree);
  }
}
