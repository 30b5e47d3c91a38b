/** Keys that are derived along different ways differ: in the ratchet of a sender, in the secret tree of a group,
    and among the frames of one sender. */
module DerivedKeys {
  import opened Crypto
  import opened TreeMath
  import opened HashRatchets
  import opened SecretTrees
  import opened Generations

  // --------------------------------------------------------------------------
  // One ratchet
  // --------------------------------------------------------------------------

  /** The derivation of section 9.1 of RFC 9420, generation by generation. */
  lemma {:induction false} RatchetSteps(k: RatchetKdf, base: Bytes, generation: nat) returns (secrets: seq<Bytes>)
    ensures |secrets| == generation + 1 && secrets[0] == base
    ensures forall i :: 0 <= i < generation ==> secrets[i + 1] == k.derive(secrets[i], SecretLabel, i)
    ensures secrets[generation] == SecretAt(k, base, generation)
    ensures KeysAt(k, base, generation) == KeyAndNonce(
      k.derive(secrets[generation], KeyLabel, generation), k.derive(secrets[generation], NonceLabel, generation))
  {
    if generation == 0 {
      secrets := [base];
    } else {
      var before := RatchetSteps(k, base, generation - 1);
      secrets := before + [SecretAt(k, base, generation)];
    }
  }

  /** No two derivations collide. */
  ghost predicate RatchetTells(k: RatchetKdf) {
    forall a, l, i, b, m, j :: k.derive(a, l, i) == k.derive(b, m, j) ==> a == b && l == m && i == j
  }

  lemma {:induction false} SecretsDiffer(k: RatchetKdf, a: Bytes, b: Bytes, generation: nat)
    requires RatchetTells(k) && SecretAt(k, a, generation) == SecretAt(k, b, generation)
    ensures a == b
  {
    if generation > 0 { SecretsDiffer(k, a, b, generation - 1); }
  }

  /** Keys of different generations or of different ratchets differ, and so do their nonces; no key is a nonce. */
  lemma RatchetKeysDiffer(k: RatchetKdf, a: Bytes, i: nat, b: Bytes, j: nat)
    requires RatchetTells(k)
    ensures a != b || i != j ==> KeysAt(k, a, i).key != KeysAt(k, b, j).key && KeysAt(k, a, i).nonce != KeysAt(k, b, j).nonce
    ensures KeysAt(k, a, i).key != KeysAt(k, b, j).nonce
  {
    hide SecretAt;
    if i == j && SecretAt(k, a, i) == SecretAt(k, b, i) { SecretsDiffer(k, a, b, i); }
  }

  /** The key for a generation is not a secret that later keys are made of. */
  lemma KeyIsNoSecret(k: RatchetKdf, base: Bytes, i: nat, j: nat)
    requires RatchetTells(k) && j > 0
    ensures KeysAt(k, base, i).key != SecretAt(k, base, j) && KeysAt(k, base, i).nonce != SecretAt(k, base, j)
  {
    assert SecretAt(k, base, j) == k.derive(SecretAt(k, base, j - 1), SecretLabel, j - 1);
  }

  /** Frames of one sender never share key and nonce. */
  lemma FramesDiffer(k: RatchetKdf, base: Bytes, i: nat, j: nat)
    requires RatchetTells(k) && i != j
    ensures (KeysAt(k, base, i / 0x100_0000).key, i % 0x1_0000_0000) != (KeysAt(k, base, j / 0x100_0000).key, j % 0x1_0000_0000)
  {
    PairsDiffer(i, j);
    RatchetKeysDiffer(k, base, i / PER_GENERATION, base, j / PER_GENERATION);
  }

  // --------------------------------------------------------------------------
  // One group
  // --------------------------------------------------------------------------

  /** The derivation of section 9 of RFC 9420 from the root down to the ratchets of a leaf. */
  lemma NodeSteps(k: TreeKdf, top: Bytes, n: nat, x: NodeIndex)
    requires IsPow2(n) && InTree(x, n) && !IsLeaf(x)
    ensures InTree(Left(x), n) && NodeSecret(k, top, n, Left(x)) == k.expandTree(NodeSecret(k, top, n, x), LeftSide)
    ensures InTree(Right(x), n) && NodeSecret(k, top, n, Right(x)) == k.expandTree(NodeSecret(k, top, n, x), RightSide)
  {
    hide Lo, Hi, Width, Level, Left, Right, Parent, IsPow2, InTree, NodeSecret;
    ChildSecrets(k, top, n, x);
  }

  lemma RootAndLeaves(k: TreeKdf, top: Bytes, n: nat, leaf: LeafIndex, use: RatchetType)
    requires IsPow2(n) && leaf < n
    ensures InTree(n - 1, n) && NodeSecret(k, top, n, n - 1) == top
    ensures InTree(LeafNodeIndex(leaf), n)
    ensures ChainSecret(k, top, n, use, leaf) == k.expandLeaf(NodeSecret(k, top, n, LeafNodeIndex(leaf)), use)
  {
    hide Lo, Hi, Width, Level, Left, Right, Parent, IsPow2;
    RootFacts(n);
    InTreeIsSpan(LeafNodeIndex(leaf), n);
  }

  ghost predicate TreeTells(k: TreeKdf) {
    && (forall a, i, b, j :: k.expandTree(a, i) == k.expandTree(b, j) ==> a == b && i == j)
    && (forall a, u, b, v :: k.expandLeaf(a, u) == k.expandLeaf(b, v) ==> a == b && u == v)
    && RatchetTells(k.ratchet)
  }

  /** Secrets of different nodes on one level differ. */
  lemma {:induction false} NodesDiffer(k: TreeKdf, top: Bytes, n: nat, x: NodeIndex, y: NodeIndex)
    requires TreeTells(k) && IsPow2(n) && InTree(x, n) && InTree(y, n) && Width(x) == Width(y)
    requires NodeSecret(k, top, n, x) == NodeSecret(k, top, n, y)
    ensures x == y
    decreases n - Width(x)
  {
    hide Lo, Hi, Level, Left, Right, Parent, IsPow2, InTree;
    TreeClosed(x, n);
    TreeClosed(y, n);
    if x != n - 1 && y != n - 1 {
      hide Width;
      NodesDiffer(k, top, n, Parent(x), Parent(y));
      SidesDiffer(x, y);
    }
  }

  lemma SidesDiffer(x: NodeIndex, y: NodeIndex)
    requires Parent(x) == Parent(y) && (x == Left(Parent(x)) <==> y == Left(Parent(y)))
    ensures x == y
  {
    hide Lo, Hi, Width, Level, Left, Right, Parent;
  }

  /** Whatever two messages of a group, if they differ in type, sender or generation, they have different keys and
      nonces. */
  lemma SenderKeysDiffer(k: TreeKdf, top: Bytes, n: nat, use: RatchetType, leaf: LeafIndex, i: nat, use': RatchetType,
                         leaf': LeafIndex, j: nat)
    requires TreeTells(k) && IsPow2(n) && leaf < n && leaf' < n && (use, leaf, i) != (use', leaf', j)
    ensures var a := KeysAt(k.ratchet, ChainSecret(k, top, n, use, leaf), i);
      var b := KeysAt(k.ratchet, ChainSecret(k, top, n, use', leaf'), j);
      a.key != b.key && a.nonce != b.nonce
  {
    hide NodeSecret, KeysAt, ChainSecret, IsPow2, InTree, Lo, Hi;
    RootAndLeaves(k, top, n, leaf, use);
    RootAndLeaves(k, top, n, leaf', use');
    var x, y := LeafNodeIndex(leaf), LeafNodeIndex(leaf');
    if NodeSecret(k, top, n, x) == NodeSecret(k, top, n, y) { NodesDiffer(k, top, n, x, y); }
    RatchetKeysDiffer(k.ratchet, ChainSecret(k, top, n, use, leaf), i, ChainSecret(k, top, n, use', leaf'), j);
  }
}
