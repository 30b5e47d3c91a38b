/** What an accepted Welcome leaves behind, whoever sent it and whatever is in it. */
module AcceptedWelcomes {
  import opened Wrappers
  import opened TreeMath
  import opened Crypto
  import opened RatchetTree
  import opened TreePaths
  import opened TreeRuns
  import opened TreeHashes
  import opened Views
  import opened Agreement
  import opened KeySchedule
  import opened GroupState
  import opened Joining
  import opened EpochSecrets

  // --------------------------------------------------------------------------
  // The occupied ancestors of a node
  // --------------------------------------------------------------------------

  /** The occupied proper ancestors, bottom up. */
  lemma {:induction false} OccupiedPathFacts(t: Tree, x: NodeIndex)
    requires IsPow2(t.size) && InTree(x, t.size)
    ensures var p := OccupiedPath(t, x);
      && (forall n :: n in p <==> InTree(n, t.size) && Occ(t, n) && Within(x, n) && n != x)
      && (forall i, j :: 0 <= i < j < |p| ==> Within(p[i], p[j]) && p[i] != p[j])
    decreases t.size - Width(x)
  {
    hide Lo, Hi, Width, Level, Left, Right, Parent, Sibling, IsPow2;
    TreeClosed(x, t.size);
    RootFacts(t.size);
    var p := OccupiedPath(t, x);
    if x == t.size - 1 {
      forall n | InTree(n, t.size) && Within(x, n) ensures n == x { RootIsTop(t.size, n); }
    } else {
      var up := Parent(x);
      OccupiedPathFacts(t, up);
      var q := OccupiedPath(t, up);
      assert p == (if Occ(t, up) then [up] else []) + q;
      forall n ensures n in p <==> InTree(n, t.size) && Occ(t, n) && Within(x, n) && n != x {
        AboveParent(x, n);
        assert n in p <==> (Occ(t, up) && n == up) || n in q;
      }
      forall i, j | 0 <= i < j < |p| ensures Within(p[i], p[j]) && p[i] != p[j] {
        if Occ(t, up) {
          assert p[j] == q[j - 1];
          assert i > 0 ==> p[i] == q[i - 1];
          assert p[j] in q;
        }
      }
    }
  }

  lemma RootIsTop(size: nat, n: NodeIndex)
    requires IsPow2(size) && InTree(n, size) && Within(size - 1, n)
    ensures n == size - 1
  {
    hide Width, Level, IsPow2;
    RootFacts(size);
    InTreeIsSpan(n, size);
    NodeFromInterval(size - 1, n);
  }

  /** Proper ancestors are the parent and its ancestors. */
  lemma AboveParent(x: NodeIndex, n: NodeIndex)
    ensures Within(x, n) && n != x <==> Within(Parent(x), n)
    ensures Within(x, Parent(x)) && Parent(x) != x
  {
    hide Width, Level, Left, Right, Parent, Sibling;
    Laminar(x, Parent(x));
    Laminar(Parent(x), n);
    Laminar(x, n);
    if Within(x, n) && n != x { OffPathStep(x, n); }
    if Within(Parent(x), n) && n == x { NodeFromInterval(x, Parent(x)); }
  }

  // --------------------------------------------------------------------------
  // The view of a joiner
  // --------------------------------------------------------------------------

  /** The keys and nodes of a tree are what a joiner at a leaf needs: without a path secret it is merged into no node. */
  ghost predicate FitsAlone(s: Suite, t: Tree, i: LeafIndex, key: PrivateKey, leaf: LeafNode) {
    && PublicOf(s, key) == leaf.encryptionKey
    && forall n :: OccParent(t, n) && Covers(n, i) ==> i in Unmerged(t, n)
  }

  /** With one, it is merged into just the nodes from the common ancestor up, which have the keys of its secrets. */
  ghost predicate FitsInvited(s: Suite, t: Tree, i: LeafIndex, key: PrivateKey, leaf: LeafNode, from: LeafIndex, v: View) {
    && from != i && PublicOf(s, key) == leaf.encryptionKey
    && (forall n :: OccParent(t, n) && Covers(n, i) ==> (Within(Ancestor(i, from), n) <==> i !in Unmerged(t, n)))
    && (forall n :: OccParent(t, n) && Within(Ancestor(i, from), n) ==>
          n in v.secrets && KeyOfNode(t, n) == PublicOf(s, KeyOf(s, v.secrets[n])))
  }

  /** Without a path secret a joiner holds the key of its leaf only. */
  lemma AloneFitsIff(s: Suite, t: Tree, i: LeafIndex, key: PrivateKey, at: NodeIndex, v: View)
    requires Shape(t) && OccLeaf(t, i) && i < t.size && Joiner(s, t, i, key, at, None) == Ok(v)
    ensures v.index == i
    ensures ViewOk(s, t, v) <==> FitsAlone(s, t, i, key, LeafAt(t, i))
  {
    hide Lo, Hi, IsPow2, ImplantMatching;
    assert forall n :: Have(v, n) <==> n == LeafNodeIndex(i);
    assert forall n :: OccParent(t, n) ==> n != LeafNodeIndex(i);
  }

  /** The nodes that a path secret for the common ancestor is implanted at. */
  ghost function JoinerChain(t: Tree, a: NodeIndex): seq<NodeIndex>
    requires IsPow2(t.size) && InTree(a, t.size)
  {
    [a] + OccupiedPath(t, a)
  }

  lemma JoinerChainFacts(t: Tree, a: NodeIndex)
    requires Shape(t) && t.size > 0 && InTree(a, t.size)
    ensures Distinct(JoinerChain(t, a))
    ensures forall n :: n in JoinerChain(t, a) ==> Within(a, n)
    ensures forall n :: OccParent(t, n) && Within(a, n) ==> n in JoinerChain(t, a)
  {
    hide Lo, Hi, IsPow2, OccupiedPath;
    OccupiedPathFacts(t, a);
    var p, c := OccupiedPath(t, a), JoinerChain(t, a);
    forall i, j | 0 <= i < j < |c| ensures c[i] != c[j] {
      assert c[j] == p[j - 1] && p[j - 1] in p;
      if i > 0 { assert c[i] == p[i - 1]; }
    }
    forall n | n in c ensures Within(a, n) { assert n == a || n in p; }
    forall n | OccParent(t, n) && Within(a, n) ensures n in c { assert n == a || n in p; }
  }

  /** With one, it also holds the nodes from the common ancestor up. */
  lemma InvitedFitsIff(s: Suite, t: Tree, i: LeafIndex, key: PrivateKey, from: LeafIndex, secret: Bytes, v: View)
    requires Shape(t) && t.size > 0 && OccLeaf(t, i) && i < t.size
    requires Joiner(s, t, i, key, Ancestor(i, from), Some(secret)) == Ok(v)
    ensures var a := Ancestor(i, from);
      && v.index == i && InTree(a, t.size) && a in v.secrets && v.secrets[a] == secret
      && (ViewOk(s, t, v) <==> FitsInvited(s, t, i, key, LeafAt(t, i), from, v))
  {
    hide Lo, Hi, Width, Level, IsPow2, ImplantChain, OccupiedPath, Ancestor, KeyOf;
    var a, x := Ancestor(i, from), LeafNodeIndex(i);
    var c := JoinerChain(t, a);
    var v0 := View(i, [], map[], map[x := key]);
    assert v == ImplantChain(s, v0, c, secret);
    JoinerChainFacts(t, a);
    ImplantFacts(s, v0, c, secret);
    InvitedView(s, t, i, from, c, secret, v0, v);
    assert x in c <==> from == i by {
      if x in c { assert Within(a, x); LeafIsLowest(a, i); }
    }
    forall n | OccParent(t, n) && Covers(n, i) ensures Have(v, n) <==> Within(a, n) {
      assert n != x;
    }
  }

  /** What the implanted view holds. */
  lemma InvitedView(s: Suite, t: Tree, i: LeafIndex, from: LeafIndex, c: seq<NodeIndex>, secret: Bytes, v0: View, v: View)
    requires v0.secrets == map[] && forall n :: n in v0.cache <==> n == LeafNodeIndex(i)
    requires ImplantedAlong(s, v0, c, secret, v) && c != [] && c[0] == Ancestor(i, from)
    requires forall n :: n in c ==> Within(Ancestor(i, from), n)
    ensures forall n :: n in v.secrets <==> n in c
    ensures forall n :: n in v.cache <==> n == LeafNodeIndex(i) && n !in c
    ensures LeafNodeIndex(i) !in c ==> LeafNodeIndex(i) in v.cache && v.cache[LeafNodeIndex(i)] == v0.cache[LeafNodeIndex(i)]
    ensures v.secrets[c[0]] == secret
    ensures forall n :: Have(v, n) ==> Covers(n, i)
  {
    hide Ancestor;
    assert PathSecret(s, secret, 0) == secret;
    forall n ensures (n in v.secrets <==> n in c) && (n in v.cache <==> n == LeafNodeIndex(i) && n !in c) {
      if n in c { var j :| 0 <= j < |c| && c[j] == n; }
    }
  }

  lemma LeafIsLowest(a: NodeIndex, i: LeafIndex)
    requires Within(a, LeafNodeIndex(i)) && Covers(a, i)
    ensures IsLeaf(a)
  {
    hide Lo, Hi, Width;
    NodeFromInterval(a, LeafNodeIndex(i));
  }

  // --------------------------------------------------------------------------
  // The state
  // --------------------------------------------------------------------------

  lemma {:induction false} IdsInOrder(held: map<Bytes, Bytes>, ids: seq<PskId>)
    requires ResolveIds(held, ids).Ok?
    ensures var psks := ResolveIds(held, ids).value;
      |psks| == |ids| && forall i :: 0 <= i < |ids| ==> ids[i].name in held && psks[i] == PskWithSecret(ids[i], held[ids[i].name])
    decreases |ids|
  {
    if ids != [] { IdsInOrder(held, ids[1..]); }
  }

  lemma {:induction false} FoundLeaf(t: Tree, leaf: LeafNode, from: nat)
    requires from <= t.size && FindLeaf(t, leaf, from).Some?
    ensures var i := FindLeaf(t, leaf, from).value; from <= i < t.size && OccLeaf(t, i) && LeafAt(t, i) == leaf
    decreases t.size - from
  {
    hide OccLeaf, LeafAt;
    if !(OccLeaf(t, from) && LeafAt(t, from) == leaf) { FoundLeaf(t, leaf, from + 1); }
  }

  /** What is checked about the tree, and what the state takes over from the Welcome. */
  ghost predicate Welcomed(s: Suite, k: Kdf, env: Env, w: Welcome, t: Tree, leaf: LeafNode, psks: map<Bytes, Bytes>,
                           resolved: seq<PskWithSecret>, st: State)
  {
    && st.tree == t && t.size > 0 && RootHash(s, t) == w.context.treeHash && ParentHashValid(s, t) && UniqueKeys(t)
    && env.treeLeavesValid(t, w.context.groupId, w.context.extensions)
    && st.index < t.size && OccLeaf(t, st.index) && LeafAt(t, st.index) == leaf
    && GroupContext(st.groupId, st.epoch, RootHash(s, t), st.confirmed, st.extensions) == w.context
    && st.pending == [] && st.cachedUpdate == None && st.psks == psks
    && |resolved| == |w.pskIds|
    && (forall i :: 0 <= i < |resolved| ==>
          w.pskIds[i].name in psks && resolved[i] == PskWithSecret(w.pskIds[i], psks[w.pskIds[i].name]))
    && st.schedule.joinerSecret == w.joinerSecret
    && Opened(k, w.joinerSecret, resolved, k.marshalContext(w.context), w.context.confirmed, st.schedule)
    && w.tag == st.schedule.confirmationTag && st.interim == k.hash(w.context.confirmed + env.marshalTag(w.tag))
  }

  lemma WelcomeOpened(s: Suite, k: Kdf, env: Env, w: Welcome, t: Tree, leaf: LeafNode, leafKey: PrivateKey,
                      psks: map<Bytes, Bytes>, st: State)
    returns (resolved: seq<PskWithSecret>)
    requires Shape(t) && t.size > 0 && Join(s, k, env, w, t, leaf, leafKey, psks) == Ok(st)
    ensures Welcomed(s, k, env, w, t, leaf, psks, resolved, st)
    ensures Joiner(s, t, st.index, leafKey, Ancestor(st.index, w.signer), w.pathSecret) == Ok(st.view)
  {
    hide RootHash, ParentHashValid, UniqueKeys, FindLeaf, Joiner, Ancestor, PskSecret, Opened, ResolveIds, MakeEpoch, OccLeaf, LeafAt;
    resolved := ResolveIds(psks, w.pskIds).value;
    IdsInOrder(psks, w.pskIds);
    FoundLeaf(t, leaf, 0);
    MadeEpoch(k, w.joinerSecret, resolved, w.context.confirmed, k.marshalContext(w.context));
    assert w.context.(treeHash := RootHash(s, t)) == w.context;
  }

  /** Whatever Welcome is accepted, the tree hash, parent hashes, keys and leaves of the tree have been checked,
      the state has the context and the secrets of the Welcome, and its tag.  It is sound exactly when the tree is
      well formed, the leaf key is that of the leaf and, above the leaf, the member is merged into just the nodes
      from the common ancestor up, whose keys are those of the secrets it was sent, or into none without them. */
  lemma AcceptedWelcome(s: Suite, k: Kdf, env: Env, w: Welcome, t: Tree, leaf: LeafNode, leafKey: PrivateKey,
                        psks: map<Bytes, Bytes>, st: State)
    returns (resolved: seq<PskWithSecret>)
    requires Shape(t) && t.size > 0 && Join(s, k, env, w, t, leaf, leafKey, psks) == Ok(st)
    ensures Welcomed(s, k, env, w, t, leaf, psks, resolved, st)
    ensures w.pathSecret.None? ==>
      (Member(s, st) <==> WF(t) && FitsAlone(s, t, st.index, leafKey, leaf))
    ensures w.pathSecret.Some? ==>
      var a := Ancestor(st.index, w.signer);
      && a in st.view.secrets && st.view.secrets[a] == w.pathSecret.value
      && (Member(s, st) <==> WF(t) && FitsInvited(s, t, st.index, leafKey, leaf, w.signer, st.view))
  {
    hide Lo, Hi, RootHash, ParentHashValid, UniqueKeys, Joiner, Ancestor, Opened, OccLeaf, LeafAt, Join, ViewOk, Shape, UnmergedOk,
      Populated, FitsAlone, FitsInvited;
    resolved := WelcomeOpened(s, k, env, w, t, leaf, leafKey, psks, st);
    match w.pathSecret
    case None => AloneFitsIff(s, t, st.index, leafKey, Ancestor(st.index, w.signer), st.view);
    case Some(p) => InvitedFitsIff(s, t, st.index, leafKey, w.signer, p, st.view);
  }
}
