/** What hashes and derived secrets stand for: a parent hash binds the keys and subtrees above it, a node's private
    key is made of a secret that is no path secret, and the root hash is built from the leaves up. */
module HashBinding {
  import opened Wrappers
  import opened TreeMath
  import opened Crypto
  import opened RatchetTree
  import opened TreeInvariant
  import opened TreePaths
  import opened TreeHashes
  import opened Views
  import opened Agreement

  // --------------------------------------------------------------------------
  // Path secrets
  // --------------------------------------------------------------------------

  ghost function PathSecrets(s: Suite, secret: Bytes, n: nat): (r: seq<Bytes>)
    ensures |r| == n + 1 && forall i :: 0 <= i <= n ==> r[i] == PathSecret(s, secret, i)
  {
    seq(n + 1, i requires 0 <= i => PathSecret(s, secret, i))
  }

  /** A commit's secrets and keys as section 7.4 of RFC 9420 derives them, along the leaf and its filtered path. */
  ghost predicate DerivedAlong(s: Suite, t: Tree, from: LeafIndex, f: seq<NodeIndex>, v: View, path: seq<Bytes>) {
    && |path| == |f| + 2
    && (forall i :: 0 <= i <= |f| ==> path[i + 1] == s.deriveSecret(path[i], PathLabel))
    && OccLeaf(t, from) && LeafAt(t, from).encryptionKey == s.publicOf(s.deriveKey(s.deriveSecret(path[0], NodeLabel)))
    && (forall i :: 0 <= i < |f| ==>
          && Occ(t, f[i]) && KeyOfNode(t, f[i]) == s.publicOf(s.deriveKey(s.deriveSecret(path[i + 1], NodeLabel)))
          && f[i] in v.secrets && v.secrets[f[i]] == path[i + 1])
    && v.updateSecret == path[|f| + 1]
  }

  lemma CommitDerives(s: Suite, t: Tree, from: LeafIndex, secret: Bytes, rest: Bytes, t': Tree, cv: View)
    returns (path: seq<Bytes>)
    requires Commits(s, t, from, secret, rest, t', cv)
    ensures from < t.size && IsPow2(t.size) && DerivedAlong(s, t', from, CommitNodes(t, from), cv, path) && path[0] == secret
  {
    hide Lo, Hi, Width, Level, IsPow2, FilteredPath, Merge, PathHashes, Views.Update, UnmergedOk, Populated, CommitNodes;
    CommitTree(s, t, from, secret, rest, t', cv);
    CommitView(s, t, from, secret, rest, t', cv);
    var f := CommitNodes(t, from);
    path := PathSecrets(s, secret, |f| + 1);
    forall i | 0 <= i < |f|
      ensures Occ(t', f[i]) && KeyOfNode(t', f[i]) == s.publicOf(s.deriveKey(s.deriveSecret(path[i + 1], NodeLabel)))
    {
      assert CommitNode(s, t', from, f[i], secret, i);
    }
  }

  /** Derivation has no collisions. */
  ghost predicate SecretsTell(s: Suite) { forall a, l, b, m :: s.deriveSecret(a, l) == s.deriveSecret(b, m) ==> a == b && l == m }

  /** What the private key of a node is made of is no path secret further up, nor the update secret, and no two
      nodes of a path have theirs made of the same, unless their path secrets are equal. */
  lemma NodeSecretsApart(s: Suite, t: Tree, from: LeafIndex, f: seq<NodeIndex>, v: View, path: seq<Bytes>, i: nat, j: nat)
    requires SecretsTell(s) && DerivedAlong(s, t, from, f, v, path) && i <= |f| && j <= |f|
    ensures s.deriveSecret(path[i], NodeLabel) != path[j + 1]
    ensures s.deriveSecret(path[i], NodeLabel) == s.deriveSecret(path[j], NodeLabel) ==> path[i] == path[j]
  {
    assert path[j + 1] == s.deriveSecret(path[j], PathLabel);
  }

  // --------------------------------------------------------------------------
  // Parent hashes
  // --------------------------------------------------------------------------

  ghost predicate ParentHashTells(s: Suite) { forall i, j :: s.parentHash(i) == s.parentHash(j) ==> i == j }

  /** The child off the path below entry `i`. */
  ghost function Beside(below: NodeIndex, path: seq<NodeIndex>, i: nat): NodeIndex
    requires i < |path|
  {
    OffPath(if i == 0 then below else path[i - 1], path[i])
  }

  /** Equal parent hashes at the bottom of two paths mean equal public keys and sibling hashes all the way up. */
  lemma {:induction false} PathHashesBind(s: Suite, t: Tree, u: Tree, below: NodeIndex, path: seq<NodeIndex>,
                                          a: seq<UpdatePathNode>, b: seq<UpdatePathNode>)
    requires ParentHashTells(s) && path != [] && |path| == |a| == |b|
    requires PathHashes(s, t, below, path, a)[0] == PathHashes(s, u, below, path, b)[0]
    ensures forall i :: 0 <= i < |path| ==>
      a[i].publicKey == b[i].publicKey && TreeHash(s, t, Beside(below, path, i)) == TreeHash(s, u, Beside(below, path, i))
    decreases |path|
  {
    hide OffPath, TreeHash;
    var x, y := PathHashes(s, t, path[0], path[1..], a[1..]), PathHashes(s, u, path[0], path[1..], b[1..]);
    var p := ParentHashInput(a[0].publicKey, if x == [] then [] else x[0], TreeHash(s, t, OffPath(below, path[0])));
    var q := ParentHashInput(b[0].publicKey, if y == [] then [] else y[0], TreeHash(s, u, OffPath(below, path[0])));
    assert s.parentHash(p) == s.parentHash(q);
    assert p == q;
    if |path| > 1 {
      PathHashesBind(s, t, u, path[0], path[1..], a[1..], b[1..]);
      forall i | 1 <= i < |path|
        ensures a[i].publicKey == b[i].publicKey && TreeHash(s, t, Beside(below, path, i)) == TreeHash(s, u, Beside(below, path, i))
      {
        assert Beside(path[0], path[1..], i - 1) == Beside(below, path, i);
        assert a[1..][i - 1] == a[i] && b[1..][i - 1] == b[i];
      }
    }
  }

  /** The parent hash in a leaf binds its path: two paths that pass the check with it, on trees with the same filtered
      path, have the same public keys, and the trees agree on everything beside the path. */
  lemma LeafBindsPath(s: Suite, t: Tree, u: Tree, from: LeafIndex, a: UpdatePath, b: UpdatePath)
    requires ParentHashTells(s) && TreeHashInjective(s) && Shape(t) && Shape(u) && IsPow2(t.size) && IsPow2(u.size)
    requires from < t.size && from < u.size && CommitNodes(t, from) == CommitNodes(u, from) != []
    requires PathParentHashValid(s, t, from, a) && PathParentHashValid(s, u, from, b) && a.leaf.content == b.leaf.content
    ensures |a.nodes| == |b.nodes| == |CommitNodes(t, from)|
    ensures forall i :: 0 <= i < |a.nodes| ==>
      && a.nodes[i].publicKey == b.nodes[i].publicKey
      && AgreeBelow(t, u, Beside(LeafNodeIndex(from), CommitNodes(t, from), i))
  {
    hide Lo, Hi, FilteredPath, PathHashes, OffPath, TreeHash, IsPow2, AgreeBelow;
    var f := CommitNodes(t, from);
    PathHashesBind(s, t, u, LeafNodeIndex(from), f, a.nodes, b.nodes);
    forall i | 0 <= i < |f| ensures AgreeBelow(t, u, Beside(LeafNodeIndex(from), f, i)) {
      HashDetermines(s, t, u, Beside(LeafNodeIndex(from), f, i), Beside(LeafNodeIndex(from), f, i));
    }
  }

  /** The same for the parent hash that a node in a tree is checked against. */
  lemma OriginalBinds(s: Suite, t: Tree, p: NodeIndex, x: NodeIndex, u: Tree, q: NodeIndex, y: NodeIndex)
    requires ParentHashTells(s) && TreeHashInjective(s) && Shape(t) && Shape(u) && OccParent(t, p) && OccParent(u, q)
    requires OriginalParentHash(s, t, p, x) == OriginalParentHash(s, u, q, y)
    ensures KeyOfNode(t, p) == KeyOfNode(u, q) && t.nodes[p].value.parent.parentHash == u.nodes[q].value.parent.parentHash
    ensures x == y && AgreeBelow(Without(t, ToSet(Unmerged(t, p))), Without(u, ToSet(Unmerged(u, q))), x)
  {
    hide Lo, Hi, TreeHash, IsPow2, AgreeBelow, Without;
    var a, b := t.nodes[p].value.parent, u.nodes[q].value.parent;
    var t', u' := Without(t, ToSet(a.unmerged)), Without(u, ToSet(b.unmerged));
    var i := ParentHashInput(a.publicKey, a.parentHash, TreeHash(s, t', x));
    var j := ParentHashInput(b.publicKey, b.parentHash, TreeHash(s, u', y));
    assert s.parentHash(i) == s.parentHash(j);
    assert i == j;
    WithoutShape(t, ToSet(a.unmerged));
    WithoutShape(u, ToSet(b.unmerged));
    HashDetermines(s, t', u', x, y);
  }

  /** What full validity means at one node: some node below one of its children, in the resolution there, carries the
      hash of the node's key, of its own parent hash and of the other child as it was when the node was keyed. */
  lemma ParentHashLinks(s: Suite, t: Tree, p: NodeIndex) returns (child: NodeIndex, sibling: NodeIndex, r: NodeIndex)
    requires ParentHashValid(s, t) && OccParent(t, p)
    ensures (child, sibling) == (Left(p), Right(p)) || (child, sibling) == (Right(p), Left(p))
    ensures r in Resolve(t, child) && Occ(t, r)
    ensures var n := t.nodes[p].value.parent;
      t.nodes[r].value.ParentHash() == Some(s.parentHash(
        ParentHashInput(n.publicKey, n.parentHash, TreeHash(s, Without(t, ToSet(n.unmerged)), sibling))))
  {
    hide Lo, Hi, Width, Level, Left, Right, Resolve, TreeHash, Without;
    assert ParentHashValidAt(s, t, p);
    if HasParentHash(t, Left(p), OriginalParentHash(s, t, p, Right(p))) {
      child, sibling := Left(p), Right(p);
      r :| r in Resolve(t, child) && Occ(t, r) && t.nodes[r].value.ParentHash() == Some(OriginalParentHash(s, t, p, sibling));
    } else {
      child, sibling := Right(p), Left(p);
      r :| r in Resolve(t, child) && Occ(t, r) && t.nodes[r].value.ParentHash() == Some(OriginalParentHash(s, t, p, sibling));
    }
  }

  lemma WithoutShape(t: Tree, e: set<LeafIndex>)
    requires Shape(t)
    ensures Shape(Without(t, e))
  {
    hide Lo, Hi, Filter, IsPow2;
  }

  // --------------------------------------------------------------------------
  // The root hash
  // --------------------------------------------------------------------------

  /** The hash of a group of two, from the leaves up (section 7.8 of RFC 9420). */
  lemma HashOfTwo(s: Suite, a: LeafNode, b: LeafNode)
    ensures var t := Tree(2, map[0 := Some(LeafN(a)), 1 := None, 2 := Some(LeafN(b))]);
      RootHash(s, t) == s.treeHash(ParentInput(None, s.treeHash(LeafInput(0, Some(a))), s.treeHash(LeafInput(1, Some(b)))))
  {
    hide Lo, Hi, Width;
    var t := Tree(2, map[0 := Some(LeafN(a)), 1 := None, 2 := Some(LeafN(b))]);
    SmallChildren();
    assert IsLeaf(0) && !IsLeaf(1) && IsLeaf(2);
    hide Left, Right, Level;
    assert TreeHash(s, t, 0) == s.treeHash(LeafInput(0, Some(a)));
    assert TreeHash(s, t, 2) == s.treeHash(LeafInput(1, Some(b)));
  }

  lemma SmallChildren()
    ensures Left(1) == 0 && Right(1) == 2
  {
    SmallNodes();
    hide Lo, Hi, Width, Left, Right;
    ChildWithin(1);
  }
}
