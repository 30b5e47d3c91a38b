/** What an accepted commit leaves behind, whoever sent it and whatever is in it. */
module AcceptedCommits {
  import opened Wrappers
  import opened TreeMath
  import opened Crypto
  import opened RatchetTree
  import opened TreeInvariant
  import opened TreePaths
  import opened ParentHashes
  import opened TreeRuns
  import opened TreeHashes
  import opened Views
  import opened Agreement
  import opened Implanting
  import opened Receivers
  import opened Proposals
  import opened KeySchedule
  import opened GroupState
  import opened EpochAgreement
  import opened Following

  // --------------------------------------------------------------------------
  // The path of anybody
  // --------------------------------------------------------------------------

  /** The public keys of a path, from an entry on, are those of the chain of secrets that `first` starts. */
  ghost predicate KeysFit(s: Suite, path: UpdatePath, entry: nat, first: Bytes) {
    forall m :: entry <= m < |path.nodes| ==> path.nodes[m].publicKey == PublicOf(s, KeyOf(s, PathSecret(s, first, m - entry)))
  }

  /** Where the paths of sender and receiver meet: the entry of a path, and the node there. */
  ghost predicate MeetAt(t: Tree, from: LeafIndex, to: LeafIndex, entry: nat) {
    && Shape(t) && from < t.size
    && entry == FirstAbove(FilteredPath(t, LeafNodeIndex(from)), to) < |FilteredPath(t, LeafNodeIndex(from))|
    && FilteredPath(t, LeafNodeIndex(from))[entry].node == Ancestor(from, to)
  }

  /** The tree has the public keys of a path above a leaf, with nothing unmerged. */
  ghost predicate PathTaken(t: Tree, from: LeafIndex, path: UpdatePath) {
    && Shape(t) && from < t.size && |path.nodes| == |FilteredPath(t, LeafNodeIndex(from))|
    && forall m :: 0 <= m < |path.nodes| ==>
         var n := FilteredPath(t, LeafNodeIndex(from))[m].node;
         OccParent(t, n) && KeyOfNode(t, n) == path.nodes[m].publicKey && Unmerged(t, n) == []
  }

  /** The view that `decap` gives, when the path has been merged: it is the old one with the secret that was
      decrypted implanted, and fits exactly when the published keys do. */
  lemma DecappedView(s: Suite, t: Tree, from: LeafIndex, path: UpdatePath, t': Tree, v: View, context: Bytes, node: NodeIndex,
                     sealed: Bytes)
    returns (entry: nat, first: Bytes, w: View)
    requires WF(t) && Merge(s, t, from, path) == Ok(t') && WF(t') && ViewOk(s, t, v) && Inside(t, v) && v.index != from
    requires Have(v, node) && Open(s, KeyAt(s, v, node).value, context, sealed).Some?
    ensures first == Open(s, KeyAt(s, v, node).value, context, sealed).value && MeetAt(t', from, v.index, entry)
    ensures DecapAt(s, t', v, from, context, node, sealed) == Ok(w)
    ensures w.index == v.index && LeafOk(s, t', w) && Ancestor(from, v.index) in w.secrets
    ensures w.secrets[Ancestor(from, v.index)] == first && Checked(s, t', w) == Ok(w)
    ensures PathTaken(t', from, path)
    ensures ViewOk(s, t', w) <==> KeysFit(s, path, entry, first)
  {
    hide Lo, Hi, Width, Level, IsPow2, FilteredPath, UnmergedOk, Populated, Ancestor, ImplantMatching, WithKey, ImplantChain, Merge,
      ParentsOk, Inside, Checked, PathSecret, KeyOf, Absorbs, CommitNodes, HasTail;
    MergeMerges(s, t, from, path, t');
    LeafKept(t, t', from, v.index);
    var f := CommitNodes(t, from);
    entry := MeetsAt(t, from, t', v.index);
    NodesOf(t, from, t');
    first := Open(s, KeyAt(s, v, node).value, context, sealed).value;
    WithKeyAbsorbs(s, v, node);
    w := ImplantTail(s, t, from, WithKey(s, v, node), entry, first);
    ImplantedChains(s, t, from, t', WithKey(s, v, node), entry, first);
    ImplantedFits(s, t, from, t', v, WithKey(s, v, node), w, entry, first);
    FirstSecret(s, f, entry, first, WithKey(s, v, node), w);
  }

  lemma NodesOf(t: Tree, from: LeafIndex, t': Tree)
    requires PathMerged(t, from, t')
    ensures CommitNodes(t, from) == Nodes(FilteredPath(t', LeafNodeIndex(from)))
    ensures Shape(t')
  {
    hide Lo, Hi, FilteredPath;
  }

  lemma FirstSecret(s: Suite, f: seq<NodeIndex>, k: nat, first: Bytes, w: View, r: View)
    requires k < |f| && HasTail(s, f, k, first, w, r)
    ensures f[k] in r.secrets && r.secrets[f[k]] == first
  {
    assert PathSecret(s, first, k - k) == first;
  }

  // --------------------------------------------------------------------------
  // The next state
  // --------------------------------------------------------------------------

  /** What holds after any accepted commit: the tree passes all checks, and the member has the key of its leaf. */
  ghost predicate Moved(s: Suite, r: State, r': State) {
    && r'.epoch == r.epoch + 1 && r'.index == r.index && r'.pending == [] && r'.groupId == r.groupId && r'.psks == r.psks
    && r'.tree.size > 0 && Good(s, r'.tree) && r'.view.index == r.index && LeafOk(s, r'.tree, r'.view)
  }

  lemma AcceptedWithoutPath(s: Suite, k: Kdf, env: Env, r: State, msg: CommitMessage, r': State)
    requires Member(s, r) && CachedFits(s, r) && HandleCommit(s, k, env, r, msg) == Ok(r') && msg.path.None?
    ensures Moved(s, r, r') && Member(s, r')
  {
    hide Lo, Hi, Width, Level, IsPow2, ParentsOk, Apply, MustResolve, ValidNormal, NewExtensions, ResolvePsks, PathRequired,
      NextEpoch, RatchetLeaf, ParentHashValid, UniqueKeys, UnmergedOk, Populated, NewConfirmed, Removes, LastUpdate, RootHash;
    HandledResolves(s, k, env, r, msg);
    var ps := MustResolve(msg.proposals, r.pending, msg.sender).value;
    var (t1, joiners) := Apply(r.tree, ps).value;
    ValidUpdates(env, r, ps, msg.sender);
    ApplyGood(s, r.tree, ps, t1, joiners);
    RosterConserved(r.tree, ps, t1, joiners);
    var v := SurvivorView(s, r, ps, t1, joiners, t1);
  }

  /** The steps of a commit with a path. */
  lemma HandledPath(s: Suite, k: Kdf, env: Env, r: State, msg: CommitMessage, r': State)
    returns (t1: Tree, joiners: seq<LeafIndex>, t2: Tree, v: View, context: Bytes, node: NodeIndex, sealed: Bytes)
    requires Good(s, r.tree) && HandleCommit(s, k, env, r, msg) == Ok(r') && msg.path.Some?
    ensures MustResolve(msg.proposals, r.pending, msg.sender).Ok?
    ensures Apply(r.tree, MustResolve(msg.proposals, r.pending, msg.sender).value) == Ok((t1, joiners))
    ensures Good(s, t1) && WF(t1) && IsPow2(t1.size) && msg.sender < t1.size && msg.sender != r.index
    ensures PathParentHashValid(s, t1, msg.sender, msg.path.value) && Merge(s, t1, msg.sender, msg.path.value) == Ok(t2)
    ensures t2.size > 0 && Shape(t2) && RatchetLeaf(s, r, t2) == Ok(v)
    ensures DecapAt(s, t2, v, msg.sender, context, node, sealed) == Ok(r'.view)
    ensures r'.tree == t2 && r'.index == r.index && r'.pending == [] && r'.epoch == r.epoch + 1 && r'.groupId == r.groupId
    ensures r'.psks == r.psks && r'.cachedUpdate == r.cachedUpdate
  {
    hide Lo, Hi, Width, Level, IsPow2, Apply, MustResolve, NewExtensions, ResolvePsks, PathRequired, ValidNormal, RatchetLeaf,
      DecapAt, NewConfirmed, ParentHashValid, UniqueKeys, UnmergedOk, Populated, PathContext, RootHash, NextEpoch, Merge,
      PathParentHashValid, DecapCoords;
    HandledResolves(s, k, env, r, msg);
    var ps := MustResolve(msg.proposals, r.pending, msg.sender).value;
    var path := msg.path.value;
    t1, joiners := Apply(r.tree, ps).value.0, Apply(r.tree, ps).value.1;
    ApplyGood(s, r.tree, ps, t1, joiners);
    MergeWF(s, t1, msg.sender, path);
    ReceivedSize(s, env, r, t1, msg.sender, path, joiners);
    var received := ReceivePath(s, env, r, t1, msg.sender, path, joiners).value;
    t2, node, v := received.0, received.1.node, RatchetLeaf(s, r, received.0).value;
    context := PathContext(s, k, r, t2, NewExtensions(env, r, ps).value);
    sealed := CiphertextAt(path, received.1).value;
  }

  /** The view that the path is decrypted with. */
  lemma BeforePath(s: Suite, k: Kdf, env: Env, r: State, msg: CommitMessage, t1: Tree, joiners: seq<LeafIndex>, t2: Tree,
                   v: View)
    requires Member(s, r) && CachedFits(s, r) && HandleCommit(s, k, env, r, msg).Ok? && msg.path.Some?
    requires MustResolve(msg.proposals, r.pending, msg.sender).Ok?
    requires Apply(r.tree, MustResolve(msg.proposals, r.pending, msg.sender).value) == Ok((t1, joiners))
    requires WF(t1) && Merge(s, t1, msg.sender, msg.path.value) == Ok(t2) && t2.size > 0 && RatchetLeaf(s, r, t2) == Ok(v)
    ensures ViewOk(s, t1, v) && Inside(t1, v) && v.index == r.index
  {
    hide Lo, Hi, Width, Level, IsPow2, ParentsOk, Apply, MustResolve, ValidNormal, RatchetLeaf, ParentHashValid, UniqueKeys,
      UnmergedOk, Populated, Removes, LastUpdate, Merge, FilteredPath, HandleCommit, Inside, UpdateMatches;
    HandledResolves(s, k, env, r, msg);
    var ps := MustResolve(msg.proposals, r.pending, msg.sender).value;
    NotRemoved(env, r, ps, msg.sender);
    ValidUpdates(env, r, ps, msg.sender);
    RosterConserved(r.tree, ps, t1, joiners);
    MergeMerges(s, t1, msg.sender, msg.path.value, t2);
    LeafKept(t1, t2, msg.sender, r.index);
    RatchetedUpdate(s, r, ps, msg.sender, env, t1, joiners, t2);
    var w := SurvivorView(s, r, ps, t1, joiners, t2);
  }

  lemma AcceptedWithPath(s: Suite, k: Kdf, env: Env, r: State, msg: CommitMessage, r': State)
    returns (entry: nat, first: Bytes)
    requires Member(s, r) && CachedFits(s, r) && HandleCommit(s, k, env, r, msg) == Ok(r') && msg.path.Some?
    ensures Moved(s, r, r') && MeetAt(r'.tree, msg.sender, r.index, entry)
    ensures PathTaken(r'.tree, msg.sender, msg.path.value) && Consistent(s, r'.tree, r'.view) == Ok(true)
    ensures Ancestor(msg.sender, r.index) in r'.view.secrets && r'.view.secrets[Ancestor(msg.sender, r.index)] == first
    ensures Member(s, r') <==> KeysFit(s, msg.path.value, entry, first)
  {
    hide Lo, Hi, Width, Level, IsPow2, ParentsOk, LeafOk, Apply, MustResolve, RatchetLeaf, ParentHashValid, UniqueKeys,
      UnmergedOk, Populated, Merge, FilteredPath, HandleCommit, Inside, DecapAt, PathParentHashValid, KeysFit, Ancestor;
    var t1, joiners, t2, v, context, node, sealed := HandledPath(s, k, env, r, msg, r');
    BeforePath(s, k, env, r, msg, t1, joiners, t2, v);
    var path := msg.path.value;
    MergeWF(s, t1, msg.sender, path);
    MergeValid(s, t1, msg.sender, path);
    MergeUnique(s, t1, msg.sender, path);
    Decapped(s, t2, v, msg.sender, context, node, sealed);
    var w: View;
    entry, first, w := DecappedView(s, t1, msg.sender, path, t2, v, context, node, sealed);
  }

  lemma Decapped(s: Suite, t: Tree, v: View, from: LeafIndex, context: Bytes, node: NodeIndex, sealed: Bytes)
    requires Shape(t) && DecapAt(s, t, v, from, context, node, sealed).Ok?
    ensures Have(v, node) && Open(s, KeyAt(s, v, node).value, context, sealed).Some?
  {
    hide Ancestor, ImplantMatching, Checked, WithKey;
  }

  /** Whatever a sound member accepts, its tree passes all checks again and it has the key of its leaf.  Without a
      path it is sound again.  With one, it is sound exactly when the keys that the sender published, from the
      common ancestor up, are those of the secrets that it has now; `consistent` is content either way. */
  lemma AcceptedLeaves(s: Suite, k: Kdf, env: Env, r: State, msg: CommitMessage, r': State) returns (entry: nat)
    requires Member(s, r) && CachedFits(s, r) && HandleCommit(s, k, env, r, msg) == Ok(r')
    ensures Moved(s, r, r')
    ensures msg.path.None? ==> Member(s, r')
    ensures msg.path.Some? ==>
      && MeetAt(r'.tree, msg.sender, r.index, entry)
      && PathTaken(r'.tree, msg.sender, msg.path.value) && Consistent(s, r'.tree, r'.view) == Ok(true)
      && Ancestor(msg.sender, r.index) in r'.view.secrets
      && (Member(s, r') <==> KeysFit(s, msg.path.value, entry, r'.view.secrets[Ancestor(msg.sender, r.index)]))
  {
    hide *;
    entry := 0;
    if msg.path.None? {
      AcceptedWithoutPath(s, k, env, r, msg, r');
    } else {
      var first;
      entry, first := AcceptedWithPath(s, k, env, r, msg, r');
    }
  }

  // --------------------------------------------------------------------------
  // Any public keys
  // --------------------------------------------------------------------------

  /** A path of given public keys, with the parent hashes that belong to them and nothing encrypted yet. */
  ghost function BarePath(s: Suite, t: Tree, from: LeafIndex, leafKey: PublicKey, rest: Bytes, keys: seq<PublicKey>): UpdatePath
    requires IsPow2(t.size) && from < t.size && OccLeaf(t, from) && |keys| == |CommitNodes(t, from)|
  {
    var nodes := seq(|keys|, i requires 0 <= i < |keys| => UpdatePathNode(keys[i], []));
    var ph := PathHashes(s, t, LeafNodeIndex(from), CommitNodes(t, from), nodes);
    UpdatePath(ForCommit(LeafAt(t, from), leafKey, if ph == [] then [] else ph[0], rest), nodes)
  }

  lemma BarePathMerges(s: Suite, t: Tree, from: LeafIndex, leafKey: PublicKey, rest: Bytes, keys: seq<PublicKey>)
    requires WF(t) && UniqueKeys(t) && IsPow2(t.size) && from < t.size && OccLeaf(t, from)
    requires |keys| == |CommitNodes(t, from)| > 0
    requires !EncryptionKeyUsed(t, leafKey)
    ensures var path := BarePath(s, t, from, leafKey, rest, keys);
      PathParentHashValid(s, t, from, path) && Merge(s, t, from, path).Ok?
  {
    hide Lo, Hi, Width, Level, IsPow2, UnmergedOk, Populated, FilteredPath, PathHashes, WithPath;
    var path := BarePath(s, t, from, leafKey, rest, keys);
    assert UpdateLeaf(t, from, path.leaf).Ok?;
    SamePath(t, from, path.leaf);
  }

  /** The same path with one secret encrypted, at one place. */
  ghost function WithSealed(path: UpdatePath, entry: nat, recipient: nat, sealed: Bytes): (r: UpdatePath)
    requires entry < |path.nodes|
    ensures r.leaf == path.leaf && |r.nodes| == |path.nodes| && SameKeys(path, r)
    ensures recipient < |r.nodes[entry].encrypted| && r.nodes[entry].encrypted[recipient] == sealed
  {
    path.(nodes := path.nodes[entry := path.nodes[entry].(encrypted := seq(recipient + 1, _ => sealed))])
  }

  lemma NoProposals(env: Env, st: State, c: LeafIndex)
    requires SomeLeaf(st.tree) && Truncate(st.tree) == st.tree && st.tree.size > 0
    ensures ValidNormal(env, st, [], c) && Apply(st.tree, []) == Ok((st.tree, [])) && PathRequired([])
    ensures NewExtensions(env, st, []) == Ok(st.extensions) && ResolvePsks(st.psks, []) == Ok([])
    ensures MustResolve([], st.pending, c) == Ok([])
  {
    hide Lo, Hi, Truncate;
  }

  /** The receiver's recipient is occupied, and holds its key if it is merged there. */
  lemma RecipientHeld(s: Suite, t: Tree, v: View, from: LeafIndex)
    requires WF(t) && ViewOk(s, t, v) && from < t.size && v.index != from && IsPow2(t.size)
    requires v.index !in Unmerged(t, DecapCoords(t, v.index, from, []).node)
    ensures var n := DecapCoords(t, v.index, from, []).node;
      Occ(t, n) && Have(v, n) && PublicOf(s, KeyAt(s, v, n).value) == KeyOfNode(t, n)
  {
    hide Lo, Hi, Width, Level, IsPow2, UnmergedOk, Populated, FilteredPath, DecapCoords, RemoveLeaves, Ancestor, KeyOf, Resolve;
    var c := DecapCoords(t, v.index, from, []);
    OccLeafInTree(t, from);
    FilteredPathFacts(t, LeafNodeIndex(from));
    var fp := FilteredPath(t, LeafNodeIndex(from));
    RemoveLeavesSubset(fp[c.entry].resolution, []);
    ResolveMembers(t, OffPath(LeafNodeIndex(from), fp[c.entry].node));
    assert Occ(t, c.node) && Covers(c.node, v.index);
    if !OccParent(t, c.node) {
      assert IsLeaf(c.node);
      assert c.node == LeafNodeIndex(v.index);
    }
    KeyFits(s, t, v, c.node);
  }

  /** The receiver's view after no proposals at all. */
  lemma ViewKept(s: Suite, env: Env, r: State, from: LeafIndex, t2: Tree) returns (v: View)
    requires Member(s, r) && CachedFits(s, r) && SomeLeaf(r.tree) && Truncate(r.tree) == r.tree
    requires t2.size == r.tree.size && OccLeaf(t2, r.index) && LeafAt(t2, r.index) == LeafAtOr(r.tree, r.index)
    ensures RatchetLeaf(s, r, t2) == Ok(v) && ViewOk(s, r.tree, v) && Inside(r.tree, v) && v.index == r.index
  {
    hide Lo, Hi, Width, Level, IsPow2, ParentsOk, Apply, RatchetLeaf, ParentHashValid, UniqueKeys, UnmergedOk, Populated, Inside,
      Truncate;
    NoProposals(env, r, from);
    v := SurvivorView(s, r, [], r.tree, [], t2);
  }

  /** The merged tree: the receiver's leaf and coordinates are what they were. */
  lemma SameCoordsAfter(t: Tree, from: LeafIndex, t2: Tree, to: LeafIndex)
    requires PathMerged(t, from, t2) && OccLeaf(t, to) && to != from
    ensures OccLeaf(t2, to) && LeafAt(t2, to) == LeafAt(t, to)
    ensures DecapCoords(t2, to, from, []) == DecapCoords(t, to, from, [])
    ensures DecapCoords(t, to, from, []).entry < |CommitNodes(t, from)|
  {
    hide Lo, Hi, Width, Level, IsPow2, UnmergedOk, Populated, FilteredPath, DecapCoords;
    LeafKept(t, t2, from, to);
    SameCoords(t, t2, to, from, []);
  }

  /** A path with any public keys is received. */
  lemma PathAccepted(s: Suite, k: Kdf, env: Env, r: State, from: LeafIndex, leafKey: PublicKey, rest: Bytes,
                     keys: seq<PublicKey>, secret: Bytes, coins: Bytes)
    returns (path: UpdatePath, t2: Tree, c: Coords, v: View, sealed: Bytes, w: View)
    requires DecryptionWorks(s) && Member(s, r) && CachedFits(s, r) && SomeLeaf(r.tree) && Truncate(r.tree) == r.tree
    requires WF(r.tree) && IsPow2(r.tree.size) && from < r.tree.size && OccLeaf(r.tree, from) && from != r.index
    requires OccLeaf(r.tree, r.index) && r.index !in Unmerged(r.tree, DecapCoords(r.tree, r.index, from, []).node)
    requires |keys| == |CommitNodes(r.tree, from)| && !EncryptionKeyUsed(r.tree, leafKey)
    requires forall leaf :: env.leafValid(r.tree, r.groupId, r.extensions, leaf, FromCommit, Some(from))
    ensures ReceivePath(s, env, r, r.tree, from, path, []) == Ok((t2, c)) && CiphertextAt(path, c) == Ok(sealed)
    ensures WF(t2) && t2.size > 0 && RatchetLeaf(s, r, t2) == Ok(v)
    ensures DecapAt(s, t2, v, from, PathContext(s, k, r, t2, r.extensions), c.node, sealed) == Ok(w)
    ensures Ancestor(from, r.index) in w.secrets && w.secrets[Ancestor(from, r.index)] == secret
    ensures |path.nodes| == |keys| && forall m :: 0 <= m < |keys| ==> path.nodes[m].publicKey == keys[m]
  {
    hide Lo, Hi, Width, Level, IsPow2, UnmergedOk, Populated, FilteredPath, DecapCoords, Ancestor, ParentsOk, LeafOk, KeyOf,
      PathHashes, Merge, PathParentHashValid, RatchetLeaf, DecapAt, Inside, PathContext, Truncate, ParentHashValid, CommitNodes,
      EncryptionKeyUsed, SignatureKeyUsed, CachedFits, KeysFit, WithSealed;
    var t := r.tree;
    c := DecapCoords(t, r.index, from, []);
    assert c.entry < |CommitNodes(t, from)| by { hide *; EntryInside(t, r.index, from); }
    BarePathMerges(s, t, from, leafKey, rest, keys);
    var bare := BarePath(s, t, from, leafKey, rest, keys);
    t2 := Merge(s, t, from, bare).value;
    MergeMerges(s, t, from, bare, t2);
    SameCoordsAfter(t, from, t2, r.index);
    v := ViewKept(s, env, r, from, t2);
    RecipientHeld(s, t, v, from);
    var context := PathContext(s, k, r, t2, r.extensions);
    sealed := Seal(s, KeyOfNode(t, c.node), context, secret, coins);
    path := WithSealed(bare, c.entry, c.recipient, sealed);
    MergeIgnoresCiphertexts(s, t, from, bare, path);
    var entry, first;
    entry, first, w := DecappedView(s, t, from, path, t2, v, context, c.node, sealed);
  }

  lemma EntryInside(t: Tree, to: LeafIndex, from: LeafIndex)
    requires WF(t) && OccLeaf(t, to) && from < t.size && to != from && IsPow2(t.size)
    ensures DecapCoords(t, to, from, []).entry < |CommitNodes(t, from)|
  {
    hide Lo, Hi, FilteredPath;
  }

  /** The message of a commit of no proposals with a path, and the state it leads to. */
  ghost function PathMessage(s: Suite, k: Kdf, env: Env, r: State, from: LeafIndex, path: UpdatePath, aux: Bytes, t2: Tree,
                             w: View): (CommitMessage, State)
    requires t2.size > 0
  {
    var confirmed := NewConfirmed(k, env, r, from, [], Some(path), aux);
    var next := Successor(s, k, env, r, t2, w, r.extensions, confirmed, true, []);
    (CommitMessage(from, [], Some(path), aux, next.schedule.confirmationTag), next)
  }

  lemma MessageAccepted(s: Suite, k: Kdf, env: Env, r: State, from: LeafIndex, path: UpdatePath, aux: Bytes, t2: Tree, c: Coords,
                        v: View, sealed: Bytes, w: View)
    requires Good(s, r.tree) && WF(r.tree) && IsPow2(r.tree.size) && SomeLeaf(r.tree) && Truncate(r.tree) == r.tree
    requires from != r.index
    requires ReceivePath(s, env, r, r.tree, from, path, []) == Ok((t2, c)) && CiphertextAt(path, c) == Ok(sealed)
    requires WF(t2) && t2.size > 0 && RatchetLeaf(s, r, t2) == Ok(v)
    requires DecapAt(s, t2, v, from, PathContext(s, k, r, t2, r.extensions), c.node, sealed) == Ok(w)
    ensures var (msg, next) := PathMessage(s, k, env, r, from, path, aux, t2, w);
      && HandleCommit(s, k, env, r, msg) == Ok(next)
      && next.tree == t2 && next.view == w
  {
    hide Lo, Hi, Width, Level, IsPow2, Apply, MustResolve, NewExtensions, ResolvePsks, PathRequired, ValidNormal, RatchetLeaf,
      DecapAt, NewConfirmed, ParentHashValid, UniqueKeys, UnmergedOk, Populated, PathContext, RootHash, NextEpoch, Merge,
      PathParentHashValid, DecapCoords, ReceivePath, CiphertextAt, Truncate;
    NoProposals(env, r, from);
    MergeWF(s, r.tree, from, path);
    ReceivedSize(s, env, r, r.tree, from, path, []);
  }

  /** A path with any public keys at all is accepted, along with any secret, when parent hashes, encryption and
      confirmation tag are made for them; so `handle_commit` cannot tell whether the next state is sound. */
  lemma AnyKeysAccepted(s: Suite, k: Kdf, env: Env, r: State, from: LeafIndex, leafKey: PublicKey, rest: Bytes,
                        keys: seq<PublicKey>, secret: Bytes, coins: Bytes, aux: Bytes)
    returns (msg: CommitMessage, r': State, entry: nat)
    requires DecryptionWorks(s) && Member(s, r) && CachedFits(s, r) && SomeLeaf(r.tree) && Truncate(r.tree) == r.tree
    requires WF(r.tree) && IsPow2(r.tree.size) && from < r.tree.size && OccLeaf(r.tree, from) && from != r.index
    requires OccLeaf(r.tree, r.index) && r.index !in Unmerged(r.tree, DecapCoords(r.tree, r.index, from, []).node)
    requires |keys| == |CommitNodes(r.tree, from)| && !EncryptionKeyUsed(r.tree, leafKey)
    requires forall leaf :: env.leafValid(r.tree, r.groupId, r.extensions, leaf, FromCommit, Some(from))
    ensures msg.sender == from && HandleCommit(s, k, env, r, msg) == Ok(r') && msg.path.Some?
    ensures |msg.path.value.nodes| == |keys| && forall m :: 0 <= m < |keys| ==> msg.path.value.nodes[m].publicKey == keys[m]
    ensures Ancestor(from, r.index) in r'.view.secrets && r'.view.secrets[Ancestor(from, r.index)] == secret
    ensures MeetAt(r'.tree, from, r.index, entry) && PathTaken(r'.tree, from, msg.path.value)
    ensures Moved(s, r, r') && Consistent(s, r'.tree, r'.view) == Ok(true)
    ensures Member(s, r') <==> KeysFit(s, msg.path.value, entry, secret)
  {
    assert Good(s, r.tree);
    hide *;
    var path, t2, c, v, sealed, w := PathAccepted(s, k, env, r, from, leafKey, rest, keys, secret, coins);
    MessageAccepted(s, k, env, r, from, path, aux, t2, c, v, sealed, w);
    var made := PathMessage(s, k, env, r, from, path, aux, t2, w);
    msg, r' := made.0, made.1;
    assert msg.sender == from && msg.path == Some(path) by { MessageFields(s, k, env, r, from, path, aux, t2, w); }
    entry := AcceptedLeaves(s, k, env, r, msg, r');
  }

  lemma MessageFields(s: Suite, k: Kdf, env: Env, r: State, from: LeafIndex, path: UpdatePath, aux: Bytes, t2: Tree, w: View)
    requires t2.size > 0
    ensures var msg := PathMessage(s, k, env, r, from, path, aux, t2, w).0; msg.sender == from && msg.path == Some(path)
  {
    hide Successor, NewConfirmed;
  }
}
