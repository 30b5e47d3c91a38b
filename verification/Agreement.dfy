/** One commit, seen by everybody: committer, receivers and joiners end with the same secrets, for
    arbitrary key derivation and any encryption that decrypts correctly. */
module Agreement {
  import opened Wrappers
  import opened TreeMath
  import opened Crypto
  import opened RatchetTree
  import opened TreeInvariant
  import opened TreePaths
  import opened Views

  // --------------------------------------------------------------------------
  // What a member's view has to satisfy
  // --------------------------------------------------------------------------

  /** A member holds a key for an occupied parent exactly when its leaf is below that node and not
      on the node's unmerged list, and that key is the current one (section 4.2 of RFC 9420). */
  ghost predicate ParentsOk(s: Suite, t: Tree, v: View) {
    && (forall n :: Have(v, n) ==> Covers(n, v.index))
    && (forall n :: n in v.cache ==> n in v.secrets || n == LeafNodeIndex(v.index))
    && (forall n :: OccParent(t, n) ==> (Have(v, n) <==> Covers(n, v.index) && v.index !in Unmerged(t, n)))
    && (forall n :: OccParent(t, n) && Have(v, n) ==> PublicOf(s, KeyAt(s, v, n).value) == KeyOfNode(t, n))
  }

  ghost predicate LeafOk(s: Suite, t: Tree, v: View) {
    && v.index < t.size && OccLeaf(t, v.index)
    && LeafNodeIndex(v.index) in v.cache
    && PublicOf(s, v.cache[LeafNodeIndex(v.index)]) == LeafAt(t, v.index).encryptionKey
  }

  ghost predicate ViewOk(s: Suite, t: Tree, v: View) { ParentsOk(s, t, v) && LeafOk(s, t, v) }

  /** The view names no node outside the tree. */
  ghost predicate Inside(t: Tree, v: View) { forall n :: Have(v, n) ==> InTree(n, t.size) }

  lemma KeyFits(s: Suite, t: Tree, v: View, n: NodeIndex)
    requires WF(t) && ViewOk(s, t, v) && Have(v, n) && Occ(t, n)
    ensures PublicOf(s, KeyAt(s, v, n).value) == KeyOfNode(t, n)
  {
    hide Lo, Hi, Level;
    if !OccParent(t, n) {
      assert IsLeaf(n) && Covers(n, v.index);
      assert n == LeafNodeIndex(v.index);
    }
  }

  // --------------------------------------------------------------------------
  // Resolutions reach every member
  // --------------------------------------------------------------------------

  /** The resolution of a node above an occupied leaf has the leaf itself or an occupied node that
      the leaf is merged into. */
  lemma {:induction false} ResolutionReaches(t: Tree, x: NodeIndex, i: LeafIndex) returns (r: NodeIndex)
    requires WF(t) && Covers(x, i) && OccLeaf(t, i)
    ensures r in Resolve(t, x) && Covers(r, i)
    ensures r == LeafNodeIndex(i) || (OccParent(t, r) && i !in Unmerged(t, r))
    decreases Level(x)
  {
    hide Lo, Hi, Width, Level, Left, Right, IsPow2, LeafNodes;
    if OccParent(t, x) {
      if i in Unmerged(t, x) {
        var k :| 0 <= k < |Unmerged(t, x)| && Unmerged(t, x)[k] == i;
        r := LeafNodeIndex(i);
        assert LeafNodes(Unmerged(t, x))[k] == r;
      } else {
        r := x;
      }
    } else if IsLeaf(x) {
      r := LeafNodeIndex(i);
      assert x == r;
    } else {
      ChildWithin(x);
      assert !Occ(t, x);
      if Covers(Left(x), i) {
        r := ResolutionReaches(t, Left(x), i);
      } else {
        r := ResolutionReaches(t, Right(x), i);
      }
    }
  }

  // --------------------------------------------------------------------------
  // The shape of a commit
  // --------------------------------------------------------------------------

  ghost predicate Commits(s: Suite, t: Tree, from: LeafIndex, secret: Bytes, rest: Bytes, t': Tree, cv: View) {
    WF(t) && Update(s, t, from, secret, rest) == Ok((t', cv))
  }

  ghost function CommitNodes(t: Tree, from: LeafIndex): seq<NodeIndex>
    requires IsPow2(t.size) && from < t.size
  {
    Nodes(FilteredPath(t, LeafNodeIndex(from)))
  }

  lemma CommitMerge(s: Suite, t: Tree, from: LeafIndex, secret: Bytes, rest: Bytes, t': Tree, cv: View)
    requires Commits(s, t, from, secret, rest, t', cv)
    ensures from < t.size && IsPow2(t.size) && OccLeaf(t, from)
    ensures var path := CommitPath(s, t, from, secret, rest);
      && Merge(s, t, from, path) == Ok(t') && |path.nodes| == |CommitNodes(t, from)|
      && path.nodes == PathKeys(s, secret, |path.nodes|)
  {
    hide Lo, Hi, Width, Level, Left, Right, FilteredPath, Merge, PathHashes, Resolve, UnmergedOk, Populated;
    OccLeafInTree(t, from);
  }

  lemma CommitTree(s: Suite, t: Tree, from: LeafIndex, secret: Bytes, rest: Bytes, t': Tree, cv: View)
    requires Commits(s, t, from, secret, rest, t', cv)
    ensures from < t.size == t'.size && IsPow2(t.size) && WF(t') && OccLeaf(t, from)
    ensures FilteredPath(t', LeafNodeIndex(from)) == FilteredPath(t, LeafNodeIndex(from))
    ensures var f := CommitNodes(t, from);
      && (forall k :: 0 <= k < |f| ==> CommitNode(s, t', from, f[k], secret, k))
      && (forall x :: !Covers(x, from) ==> NodeAt(t', x) == NodeAt(t, x))
      && (forall x :: Covers(x, from) && x != LeafNodeIndex(from) && x !in f ==> !Occ(t', x))
      && (var path := CommitPath(s, t, from, secret, rest);
          && Merge(s, t, from, path) == Ok(t') && |path.nodes| == |f|
          && path.nodes == PathKeys(s, secret, |f|)
          && OccLeaf(t', from) && LeafAt(t', from) == path.leaf)
  {
    hide Lo, Hi, Width, Level, Left, Right, IsPow2, FilteredPath, Merge, PathHashes, UpdateLeaf, Resolve, CommitPath,
      Update, UnmergedOk, Populated, PathSecret;
    CommitMerge(s, t, from, secret, rest, t', cv);
    var path := CommitPath(s, t, from, secret, rest);
    MergeNodes(s, t, from, path);
    MergeWF(s, t, from, path);
    OccLeafInTree(t, from);
    FilteredPathLocal(t, t', LeafNodeIndex(from));
    var f := CommitNodes(t, from);
    assert NodeAt(t', LeafNodeIndex(from)) == Some(LeafN(path.leaf));
    var ph := PathHashes(s, UpdateLeaf(t, from, path.leaf).value, LeafNodeIndex(from), f, path.nodes);
    forall k | 0 <= k < |f| ensures CommitNode(s, t', from, f[k], secret, k) {
      assert NodeAt(t', f[k]) == PathNode(path.nodes, ph, k);
    }
  }

  /** A fresh node of the committer's path: nothing is unmerged, and the key belongs to its secret. */
  ghost predicate CommitNode(s: Suite, t': Tree, from: LeafIndex, n: NodeIndex, secret: Bytes, k: nat) {
    && Covers(n, from) && OccParent(t', n) && Unmerged(t', n) == []
    && KeyOfNode(t', n) == PublicOf(s, KeyOf(s, PathSecret(s, secret, k + 1)))
  }

  lemma CommitView(s: Suite, t: Tree, from: LeafIndex, secret: Bytes, rest: Bytes, t': Tree, cv: View)
    requires Commits(s, t, from, secret, rest, t', cv)
    ensures from < t.size && cv.index == from
    ensures var f := CommitNodes(t, from);
      && cv.updateSecret == PathSecret(s, secret, |f| + 1)
      && (forall n :: Have(cv, n) <==> n == LeafNodeIndex(from) || n in f)
      && (forall n :: n in cv.secrets <==> n == LeafNodeIndex(from) || n in f)
      && (forall n :: n in cv.secrets ==> n in cv.cache && cv.cache[n] == KeyOf(s, cv.secrets[n]))
      && (forall k :: 0 <= k < |f| ==> f[k] in cv.secrets && cv.secrets[f[k]] == PathSecret(s, secret, k + 1))
      && cv.secrets[LeafNodeIndex(from)] == secret
  {
    hide Lo, Hi, Width, Level, Left, Right, IsPow2, FilteredPath, Merge, PathHashes, UpdateLeaf, Resolve, Nodes,
      CommitPath, CommitterView, PathSecret, UnmergedOk, Populated;
    OccLeafInTree(t, from);
    ChainDistinct(t, LeafNodeIndex(from));
    assert cv == CommitterView(s, from, CommitNodes(t, from), secret);
    CommitterViewFacts(s, from, CommitNodes(t, from), secret, cv);
  }

  lemma CommitterViewFacts(s: Suite, from: LeafIndex, f: seq<NodeIndex>, secret: Bytes, cv: View)
    requires Distinct([LeafNodeIndex(from)] + f) && cv == CommitterView(s, from, f, secret)
    ensures cv.index == from && cv.updateSecret == PathSecret(s, secret, |f| + 1)
    ensures forall n :: Have(cv, n) <==> n == LeafNodeIndex(from) || n in f
    ensures forall n :: n in cv.secrets <==> n == LeafNodeIndex(from) || n in f
    ensures forall n :: n in cv.secrets ==> n in cv.cache && cv.cache[n] == KeyOf(s, cv.secrets[n])
    ensures forall k :: 0 <= k < |f| ==> f[k] in cv.secrets && cv.secrets[f[k]] == PathSecret(s, secret, k + 1)
    ensures LeafNodeIndex(from) in cv.secrets && cv.secrets[LeafNodeIndex(from)] == secret
  {
    hide Lo, Hi, ImplantChain, KeyOf, PathSecret, Distinct;
    ChainSecrets(s, from, f, secret, ImplantChain(s, View(from, [], map[], map[]), [LeafNodeIndex(from)] + f, secret));
  }

  /** The committer's own view fits the new tree. */
  lemma CommitterViewOk(s: Suite, t: Tree, from: LeafIndex, secret: Bytes, rest: Bytes, t': Tree, cv: View)
    requires Commits(s, t, from, secret, rest, t', cv)
    ensures ViewOk(s, t', cv) && Inside(t', cv)
  {
    hide Lo, Hi, Width, Level, Left, Right, IsPow2, FilteredPath, Merge, PathHashes, UpdateLeaf, Resolve, PathSecret,
      Update, UnmergedOk, Populated;
    CommitTree(s, t, from, secret, rest, t', cv);
    CommitView(s, t, from, secret, rest, t', cv);
    var f := CommitNodes(t, from);
    forall n | Have(cv, n) ensures Covers(n, from) && InTree(n, t'.size) {
      OccLeafInTree(t', from);
      if n in f {
        var k :| 0 <= k < |f| && f[k] == n;
        assert CommitNode(s, t', from, f[k], secret, k);
      }
    }
    forall n | OccParent(t', n)
      ensures Have(cv, n) <==> Covers(n, from) && from !in Unmerged(t', n)
      ensures Have(cv, n) ==> PublicOf(s, KeyAt(s, cv, n).value) == KeyOfNode(t', n)
    {
      if n in f {
        var k :| 0 <= k < |f| && f[k] == n;
        assert CommitNode(s, t', from, f[k], secret, k);
      }
    }
  }

  // --------------------------------------------------------------------------
  // The update path that is sent
  // --------------------------------------------------------------------------

  /** Parent hashes and the merged tree do not depend on the encrypted path secrets. */
  lemma {:induction false} HashesIgnoreCiphertexts(s: Suite, t: Tree, below: NodeIndex, path: seq<NodeIndex>,
                                                   a: seq<UpdatePathNode>, b: seq<UpdatePathNode>)
    requires |path| == |a| == |b| && forall i :: 0 <= i < |a| ==> a[i].publicKey == b[i].publicKey
    ensures PathHashes(s, t, below, path, a) == PathHashes(s, t, below, path, b)
    decreases |path|
  {
    hide TreeHash, OffPath;
    if path != [] { HashesIgnoreCiphertexts(s, t, path[0], path[1..], a[1..], b[1..]); }
  }

  lemma {:induction false} NodesIgnoreCiphertexts(nodes: map<NodeIndex, Option<Node>>, path: seq<NodeIndex>,
                                                  a: seq<UpdatePathNode>, b: seq<UpdatePathNode>, h: seq<Bytes>)
    requires |path| == |a| == |b| == |h| && forall i :: 0 <= i < |a| ==> a[i].publicKey == b[i].publicKey
    ensures WithPath(nodes, path, a, h) == WithPath(nodes, path, b, h)
    decreases |path|
  {
    if path != [] { NodesIgnoreCiphertexts(nodes, path[1..], a[1..], b[1..], h[1..]); }
  }

  ghost predicate SameKeys(a: UpdatePath, b: UpdatePath) {
    a.leaf == b.leaf && |a.nodes| == |b.nodes| && forall i :: 0 <= i < |a.nodes| ==> a.nodes[i].publicKey == b.nodes[i].publicKey
  }

  lemma MergeIgnoresCiphertexts(s: Suite, t: Tree, from: LeafIndex, a: UpdatePath, b: UpdatePath)
    requires WF(t) && SameKeys(a, b)
    ensures Merge(s, t, from, a) == Merge(s, t, from, b)
    ensures IsPow2(t.size) && from < t.size ==>
      (PathParentHashValid(s, t, from, a) <==> PathParentHashValid(s, t, from, b))
  {
    hide Lo, Hi, Width, Level, Left, Right, IsPow2, FilteredPath, PathHashes, UpdateLeaf, Resolve, WithPath, TreeHash;
    var x0 := LeafNodeIndex(from);
    UpdateLeafWF(t, from, a.leaf);
    if UpdateLeaf(t, from, a.leaf).Ok? {
      var t1 := UpdateLeaf(t, from, a.leaf).value;
      OccLeafInTree(t1, from);
      var f := Nodes(FilteredPath(t1, x0));
      if |f| == |a.nodes| {
        HashesIgnoreCiphertexts(s, t1, x0, f, a.nodes, b.nodes);
        NodesIgnoreCiphertexts(t1.nodes, f, a.nodes, b.nodes, PathHashes(s, t1, x0, f, a.nodes));
      }
    }
    if IsPow2(t.size) && from < t.size {
      OccLeafInTree(t, from);
      var f := Nodes(FilteredPath(t, x0));
      if |f| == |a.nodes| { HashesIgnoreCiphertexts(s, t, x0, f, a.nodes, b.nodes); }
    }
  }

  lemma CommitterHasSecrets(s: Suite, t: Tree, from: LeafIndex, secret: Bytes, rest: Bytes, t': Tree, cv: View)
    requires Commits(s, t, from, secret, rest, t', cv)
    ensures WF(t') && from < t'.size && cv.index == from && OccLeaf(t', from)
    ensures HasSecrets(cv, FilteredPath(t', LeafNodeIndex(from)))
  {
    hide Lo, Hi, Width, Level, Left, Right, IsPow2, FilteredPath, Merge, UpdateLeaf, Resolve, Update;
    CommitTree(s, t, from, secret, rest, t', cv);
    CommitView(s, t, from, secret, rest, t', cv);
    var fp := FilteredPath(t, LeafNodeIndex(from));
    forall i | 0 <= i < |fp| ensures fp[i].node in cv.secrets { assert CommitNodes(t, from)[i] == fp[i].node; }
  }

  ghost function SentPath(s: Suite, t: Tree, from: LeafIndex, secret: Bytes, rest: Bytes, t': Tree, cv: View,
                          context: Bytes, except: seq<LeafIndex>, coins: Coins): UpdatePath
    requires Commits(s, t, from, secret, rest, t', cv)
  {
    CommitterHasSecrets(s, t, from, secret, rest, t', cv);
    Encap(s, t', cv, context, except, coins)
  }

  lemma SentPathKeys(s: Suite, t: Tree, from: LeafIndex, secret: Bytes, rest: Bytes, t': Tree, cv: View,
                     context: Bytes, except: seq<LeafIndex>, coins: Coins)
    requires Commits(s, t, from, secret, rest, t', cv)
    ensures from < t.size && IsPow2(t.size) && OccLeaf(t, from)
    ensures SameKeys(CommitPath(s, t, from, secret, rest), SentPath(s, t, from, secret, rest, t', cv, context, except, coins))
  {
    hide Lo, Hi, Width, Level, Left, Right, IsPow2, FilteredPath, Merge, UpdateLeaf, Resolve, PathHashes, PathSecret,
      SealTo, RemoveLeaves, UnmergedOk, Populated, Update, CommitPath;
    CommitTree(s, t, from, secret, rest, t', cv);
    CommitView(s, t, from, secret, rest, t', cv);
    CommitterHasSecrets(s, t, from, secret, rest, t', cv);
    var a, b := CommitPath(s, t, from, secret, rest), SentPath(s, t, from, secret, rest, t', cv, context, except, coins);
    var f := CommitNodes(t, from);
    forall i | 0 <= i < |a.nodes| ensures a.nodes[i].publicKey == b.nodes[i].publicKey {
      assert f[i] in cv.secrets && cv.secrets[f[i]] == PathSecret(s, secret, i + 1);
      assert b.nodes[i] == EncapNode(s, t', cv, i, context, except, coins);
    }
  }

  /** A receiver that merges the sent path gets the committer's tree, and the parent-hash check of
      the path passes. */
  lemma SentPathMerges(s: Suite, t: Tree, from: LeafIndex, secret: Bytes, rest: Bytes, t': Tree, cv: View,
                       context: Bytes, except: seq<LeafIndex>, coins: Coins)
    requires Commits(s, t, from, secret, rest, t', cv)
    ensures from < t.size && IsPow2(t.size)
    ensures var path := SentPath(s, t, from, secret, rest, t', cv, context, except, coins);
      && Merge(s, t, from, path) == Ok(t')
      && |path.nodes| == |FilteredPath(t, LeafNodeIndex(from))| == |FilteredPath(t', LeafNodeIndex(from))|
      && (PathParentHashValid(s, t, from, path) <==> FilteredPath(t, LeafNodeIndex(from)) != [])
  {
    hide Lo, Hi, Width, Level, Left, Right, IsPow2, FilteredPath, Merge, UpdateLeaf, Resolve, PathHashes, PathSecret,
      SealTo, RemoveLeaves, UnmergedOk, Populated, SentPath, PathKeys;
    CommitTree(s, t, from, secret, rest, t', cv);
    SentPathKeys(s, t, from, secret, rest, t', cv, context, except, coins);
    var a, b := CommitPath(s, t, from, secret, rest), SentPath(s, t, from, secret, rest, t', cv, context, except, coins);
    MergeIgnoresCiphertexts(s, t, from, a, b);
  }
}
