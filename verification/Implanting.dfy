/** What a member makes of a path secret once it has it: which nodes get secrets when a path is merged,
    whoever sent it, and when the keys that were published for them fit. */
module Implanting {
  import opened Wrappers
  import opened TreeMath
  import opened Crypto
  import opened RatchetTree
  import opened TreeInvariant
  import opened TreePaths
  import opened Views
  import opened Agreement

  // --------------------------------------------------------------------------
  // Where the paths of two members meet
  // --------------------------------------------------------------------------

  lemma {:induction false} FilteredTail(t: Tree, x: NodeIndex, k: nat)
    requires IsPow2(t.size) && InTree(x, t.size) && k < |FilteredPath(t, x)|
    ensures InTree(FilteredPath(t, x)[k].node, t.size)
    ensures FilteredPath(t, FilteredPath(t, x)[k].node) == FilteredPath(t, x)[k + 1..]
    decreases t.size - Width(x)
  {
    hide Lo, Hi, Width, Level, Left, Right, Parent, Sibling, IsPow2, Resolve;
    TreeClosed(x, t.size);
    var p := Parent(x);
    var f, g := FilteredPath(t, x), FilteredPath(t, p);
    var d := |f| - |g|;
    assert f[d..] == g;
    if k >= d {
      FilteredTail(t, p, k - d);
      assert f[k] == g[k - d] && f[k + 1..] == g[k - d + 1..];
    }
  }

  lemma {:induction false} OccupiedPathIsFiltered(t: Tree, x: NodeIndex)
    requires IsPow2(t.size) && InTree(x, t.size)
    requires forall y :: InTree(y, t.size) && Within(x, y) && y != x ==>
      (Occ(t, y) <==> Resolve(t, OffPath(x, y)) != [])
    ensures OccupiedPath(t, x) == Nodes(FilteredPath(t, x))
    decreases t.size - Width(x)
  {
    hide Lo, Hi, Width, Level, Left, Right, Parent, Sibling, IsPow2, Resolve, OffPath;
    TreeClosed(x, t.size);
    if x != t.size - 1 {
      var p := Parent(x);
      OffPathStep(x, p);
      forall y | InTree(y, t.size) && Within(p, y) && y != p
        ensures Occ(t, y) <==> Resolve(t, OffPath(p, y)) != []
      {
        Laminar(x, p);
        Laminar(p, y);
        OffPathStep(x, y);
      }
      OccupiedPathIsFiltered(t, p);
    }
  }

  /** The first entry of the committer's path above an occupied leaf is their common ancestor. */
  lemma Overlap(t: Tree, from: LeafIndex, i: LeafIndex)
    requires WF(t) && OccLeaf(t, i) && IsPow2(t.size) && from < t.size && i != from
    ensures i < t.size
    ensures var fp := FilteredPath(t, LeafNodeIndex(from));
      var k := FirstAbove(fp, i);
      && k < |fp| && fp[k].node == Ancestor(from, i)
      && Covers(OffPath(LeafNodeIndex(from), fp[k].node), i)
      && fp[k].resolution == Resolve(t, OffPath(LeafNodeIndex(from), fp[k].node))
      && (forall m :: k <= m < |fp| ==> Covers(fp[m].node, i))
  {
    hide Lo, Hi, Width, Level, Left, Right, IsPow2, Resolve, FilteredPath, Ancestor, UnmergedOk, Populated, OffPath, Nodes;
    OccLeafInTree(t, i);
    OccLeafInTree(t, from);
    var x0 := LeafNodeIndex(from);
    var fp := FilteredPath(t, x0);
    var a := Ancestor(from, i);
    AncestorOffPath(t, from, i);
    ResolveMembers(t, OffPath(x0, a));
    FilteredPathFacts(t, x0);
    FilteredPathComplete(t, x0, a);
    var m :| 0 <= m < |fp| && Nodes(fp)[m] == a;
    assert fp[m].node == a by { hide *; NodesAt(fp, m); }
    FirstIsLowest(t, from, i, fp, m);
  }

  lemma NodesAt(fp: seq<PathEntry>, m: nat)
    requires m < |fp|
    ensures |Nodes(fp)| == |fp| && Nodes(fp)[m] == fp[m].node
  {}

  /** Along a path of ancestors, the first one above another leaf is the common ancestor if that is on it. */
  lemma FirstIsLowest(t: Tree, from: LeafIndex, i: LeafIndex, fp: seq<PathEntry>, m: nat)
    requires IsFilteredPath(t, LeafNodeIndex(from), fp) && m < |fp| && fp[m].node == Ancestor(from, i) && from != i
    ensures FirstAbove(fp, i) == m
    ensures forall j :: m <= j < |fp| ==> Covers(fp[j].node, i)
  {
    hide Lo, Hi, Width, Level, Left, Right, Ancestor, Resolve, OffPath, InTree;
    var k := FirstAbove(fp, i);
    AncestorIsLowest(from, i, fp[m].node);
    assert Covers(fp[m].node, i);
    if k < m {
      AncestorIsLowest(from, i, fp[k].node);
      NodeFromInterval(fp[k].node, fp[m].node);
    }
    forall j | m <= j < |fp| ensures Covers(fp[j].node, i) {
      if j > m { assert Within(fp[m].node, fp[j].node); }
    }
  }

  lemma AncestorOffPath(t: Tree, from: LeafIndex, i: LeafIndex)
    requires WF(t) && OccLeaf(t, i) && IsPow2(t.size) && from < t.size && i < t.size && i != from
    ensures var a := Ancestor(from, i);
      && InTree(a, t.size) && Within(LeafNodeIndex(from), a) && a != LeafNodeIndex(from)
      && Covers(OffPath(LeafNodeIndex(from), a), i)
      && Occupied(t, OffPath(LeafNodeIndex(from), a))
  {
    hide Lo, Hi, Width, Level, Left, Right, IsPow2, Ancestor;
    var a := Ancestor(from, i);
    RootFacts(t.size);
    AncestorIsLowest(from, i, t.size - 1);
    InTreeIsSpan(a, t.size);
    if from < i {
      AncestorSplits(from, i);
    } else {
      AncestorSplits(i, from);
      AncestorSymmetric(from, i);
    }
    InsideOneChild(LeafNodeIndex(from), a);
    ChildWithin(a);
  }

  // --------------------------------------------------------------------------
  // A merged path
  // --------------------------------------------------------------------------

  /** `t'` is `t` with a path of `from` merged: above the leaf exactly the filtered path is occupied, with
      nothing unmerged, and the rest is as before. */
  ghost predicate PathMerged(t: Tree, from: LeafIndex, t': Tree) {
    && WF(t) && WF(t') && from < t.size == t'.size && IsPow2(t.size) && OccLeaf(t', from)
    && FilteredPath(t', LeafNodeIndex(from)) == FilteredPath(t, LeafNodeIndex(from))
    && (forall x :: !Covers(x, from) ==> NodeAt(t', x) == NodeAt(t, x))
    && (forall x :: Covers(x, from) && x != LeafNodeIndex(from) ==> (Occ(t', x) <==> x in CommitNodes(t, from)))
    && (forall p <- CommitNodes(t, from) :: Covers(p, from) && OccParent(t', p) && Unmerged(t', p) == [])
  }

  lemma SamePath(t: Tree, from: LeafIndex, leaf: LeafNode)
    requires WF(t) && UpdateLeaf(t, from, leaf).Ok? && from < t.size && IsPow2(t.size)
    ensures Shape(UpdateLeaf(t, from, leaf).value) && UpdateLeaf(t, from, leaf).value.size == t.size
    ensures FilteredPath(UpdateLeaf(t, from, leaf).value, LeafNodeIndex(from)) == FilteredPath(t, LeafNodeIndex(from))
  {
    hide Lo, Hi, Width, Level, IsPow2, UnmergedOk, Populated, FilteredPath, UpdateLeaf;
    UpdateLeafWF(t, from, leaf);
    OccLeafInTree(t, from);
    FilteredPathLocal(t, UpdateLeaf(t, from, leaf).value, LeafNodeIndex(from));
  }

  /** `merge` writes the public keys it is given. */
  lemma MergeMerges(s: Suite, t: Tree, from: LeafIndex, path: UpdatePath, t': Tree)
    requires WF(t) && Merge(s, t, from, path) == Ok(t')
    ensures PathMerged(t, from, t')
    ensures var f := CommitNodes(t, from);
      |f| == |path.nodes| && forall k :: 0 <= k < |f| ==> Occ(t', f[k]) && KeyOfNode(t', f[k]) == path.nodes[k].publicKey
  {
    hide Lo, Hi, Width, Level, Left, Right, IsPow2, FilteredPath, Merge, PathHashes, UpdateLeaf, Resolve, UnmergedOk, Populated;
    MergeNodes(s, t, from, path);
    MergeWF(s, t, from, path);
    OccLeafInTree(t, from);
    FilteredPathLocal(t, t', LeafNodeIndex(from));
    var f := CommitNodes(t, from);
    var ph := PathHashes(s, UpdateLeaf(t, from, path.leaf).value, LeafNodeIndex(from), f, path.nodes);
    assert NodeAt(t', LeafNodeIndex(from)) == Some(LeafN(path.leaf));
    forall k | 0 <= k < |f|
      ensures Covers(f[k], from) && OccParent(t', f[k]) && Unmerged(t', f[k]) == []
      ensures KeyOfNode(t', f[k]) == path.nodes[k].publicKey
    {
      assert NodeAt(t', f[k]) == PathNode(path.nodes, ph, k);
    }
  }

  /** Above an entry of the path the occupied nodes are the later entries. */
  lemma MergedOccupiedPath(t: Tree, from: LeafIndex, t': Tree, k: nat)
    requires PathMerged(t, from, t') && k < |CommitNodes(t, from)|
    ensures var f := CommitNodes(t, from);
      && InTree(f[k], t'.size)
      && OccupiedPath(t', f[k]) == f[k + 1..]
      && Nodes(FilteredPath(t', f[k])) == f[k + 1..]
  {
    hide Lo, Hi, Width, Level, Left, Right, IsPow2, Resolve, FilteredPath, OccupiedPath, UnmergedOk, Populated;
    var x0 := LeafNodeIndex(from);
    OccLeafInTree(t', from);
    FilteredTail(t', x0, k);
    FilteredPathFacts(t', x0);
    var fp := FilteredPath(t', x0);
    var f := CommitNodes(t, from);
    assert Nodes(fp) == f && Nodes(fp[k + 1..]) == f[k + 1..];
    forall y | InTree(y, t'.size) && Within(f[k], y) && y != f[k]
      ensures Occ(t', y) <==> Resolve(t', OffPath(f[k], y)) != []
    {
      MergedOccupied(t, from, t', f[k], y);
    }
    OccupiedPathIsFiltered(t', f[k]);
  }

  lemma MergedOccupied(t: Tree, from: LeafIndex, t': Tree, n: NodeIndex, y: NodeIndex)
    requires PathMerged(t, from, t') && InTree(y, t'.size) && Covers(n, from) && Within(n, y) && y != n
    ensures Occ(t', y) <==> Resolve(t', OffPath(n, y)) != []
  {
    hide Lo, Hi, Width, Level, Left, Right, IsPow2, Resolve, FilteredPath, UnmergedOk, Populated;
    var x0 := LeafNodeIndex(from);
    OccLeafInTree(t', from);
    var f := CommitNodes(t, from);
    FilteredPathFacts(t', x0);
    Laminar(x0, n);
    Laminar(n, y);
    InsideOneChild(x0, y);
    InsideOneChild(n, y);
    assert Within(x0, n) && Within(x0, y) && y != x0;
    assert OffPath(x0, y) == OffPath(n, y);
    if Resolve(t', OffPath(x0, y)) != [] { FilteredPathComplete(t', x0, y); }
    if Occ(t', y) {
      assert y in f;
      var m :| 0 <= m < |f| && f[m] == y;
      assert FilteredPath(t', x0)[m].resolution != [];
    }
  }

  /** Where the path and that of another member meet. */
  lemma MeetsAt(t: Tree, from: LeafIndex, t': Tree, i: LeafIndex) returns (k: nat)
    requires PathMerged(t, from, t') && OccLeaf(t', i) && i != from
    ensures k == FirstAbove(FilteredPath(t', LeafNodeIndex(from)), i)
    ensures var f := CommitNodes(t, from);
      && k < |f| && f[k] == Ancestor(from, i)
      && (forall m :: 0 <= m < |f| ==> (m >= k <==> Covers(f[m], i)))
  {
    hide Lo, Hi, Width, Level, Left, Right, IsPow2, Resolve, FilteredPath, UnmergedOk, Populated, Ancestor, OffPath;
    Overlap(t', from, i);
    var fp := FilteredPath(t', LeafNodeIndex(from));
    k := FirstAbove(fp, i);
    assert CommitNodes(t, from) == Nodes(fp);
  }

  // --------------------------------------------------------------------------
  // Implanting the secret of the common ancestor
  // --------------------------------------------------------------------------

  /** `v` is the view before, in which some further key may have been cached. */
  ghost predicate Absorbs(s: Suite, v: View, w: View) {
    && w.index == v.index && w.secrets == v.secrets
    && (forall n :: n in v.cache ==> n in w.cache)
    && (forall n :: n in w.cache ==> Have(v, n) && w.cache[n] == KeyAt(s, v, n).value)
  }

  lemma WithKeyAbsorbs(s: Suite, v: View, n: NodeIndex)
    ensures Absorbs(s, v, WithKey(s, v, n))
  {
  }

  lemma AbsorbsIndex(s: Suite, v: View, w: View)
    requires Absorbs(s, v, w)
    ensures w.index == v.index
  {
  }

  lemma LeafKept(t: Tree, t': Tree, from: LeafIndex, i: LeafIndex)
    requires OccLeaf(t, i) && i != from && forall x :: !Covers(x, from) ==> NodeAt(t', x) == NodeAt(t, x)
    ensures OccLeaf(t', i) && LeafAt(t', i) == LeafAt(t, i)
  {
    hide Lo, Hi;
    assert !Covers(LeafNodeIndex(i), from);
    assert NodeAt(t', LeafNodeIndex(i)) == NodeAt(t, LeafNodeIndex(i));
  }

  lemma TailDistinct(t: Tree, from: LeafIndex, k: nat)
    requires Shape(t) && from < t.size && k <= |CommitNodes(t, from)|
    ensures Distinct(CommitNodes(t, from)[k..])
  {
    hide Lo, Hi, Width, Level, Left, Right, IsPow2, Resolve, FilteredPath, Nodes;
    OccLeafInTree(t, from);
    ChainDistinct(t, LeafNodeIndex(from));
    var f := CommitNodes(t, from);
    var c := [LeafNodeIndex(from)] + f;
    forall a, b | 0 <= a < b < |f[k..]| ensures f[k..][a] != f[k..][b] {
      assert f[k..][a] == c[k + a + 1] && f[k..][b] == c[k + b + 1];
    }
  }

  /** `r` is `w` with the secrets of the entries from `k` on implanted, `first` being that of entry `k`. */
  ghost predicate HasTail(s: Suite, f: seq<NodeIndex>, k: nat, first: Bytes, w: View, r: View) {
    && k <= |f| && r.index == w.index && r.updateSecret == PathSecret(s, first, |f| - k)
    && (forall m :: k <= m < |f| ==>
          f[m] in r.secrets && r.secrets[f[m]] == PathSecret(s, first, m - k) && f[m] !in r.cache)
    && OthersKept(w, f[k..], r)
  }

  lemma ImplantTail(s: Suite, t: Tree, from: LeafIndex, w: View, k: nat, first: Bytes) returns (r: View)
    requires Shape(t) && from < t.size && k < |CommitNodes(t, from)|
    ensures r == ImplantChain(s, w, CommitNodes(t, from)[k..], first)
    ensures HasTail(s, CommitNodes(t, from), k, first, w, r)
  {
    hide ImplantChain, PathSecret, CommitNodes, OthersKept, Distinct, Lo, Hi, Width, Level, IsPow2;
    TailDistinct(t, from, k);
    var f := CommitNodes(t, from);
    r := ImplantChain(s, w, f[k..], first);
    ImplantFacts(s, w, f[k..], first);
    forall m | k <= m < |f|
      ensures f[m] in r.secrets && r.secrets[f[m]] == PathSecret(s, first, m - k) && f[m] !in r.cache
    {
      assert f[k..][m - k] == f[m];
    }
  }

  /** `implant` and `implant_matching` from the common ancestor do the same. */
  lemma ImplantedChains(s: Suite, t: Tree, from: LeafIndex, t': Tree, w: View, k: nat, first: Bytes)
    requires PathMerged(t, from, t') && k < |CommitNodes(t, from)|
    ensures var f := CommitNodes(t, from);
      && InTree(f[k], t'.size)
      && Implant(s, t', w, f[k], first) == ImplantChain(s, w, f[k..], first)
      && ImplantMatching(s, t', w, f[k], first) == ImplantChain(s, w, f[k..], first)
  {
    hide ImplantChain, FilteredPath, OccupiedPath, CommitNodes, UnmergedOk, Populated;
    MergedOccupiedPath(t, from, t', k);
    var f := CommitNodes(t, from);
    assert f[k..] == [f[k]] + f[k + 1..];
  }

  /** The published keys from entry `k` on are those of the chain of secrets that `first` starts. */
  ghost predicate Published(s: Suite, t: Tree, f: seq<NodeIndex>, k: nat, first: Bytes) {
    forall m :: k <= m < |f| ==> Occ(t, f[m]) && KeyOfNode(t, f[m]) == PublicOf(s, KeyOf(s, PathSecret(s, first, m - k)))
  }

  /** The nodes from entry `k` on are the occupied ones that both members have above them. */
  lemma TailDomain(t: Tree, from: LeafIndex, t': Tree, i: LeafIndex, k: nat, n: NodeIndex)
    requires PathMerged(t, from, t') && k < |CommitNodes(t, from)| && OccLeaf(t', i)
    requires forall m :: 0 <= m < |CommitNodes(t, from)| ==> (m >= k <==> Covers(CommitNodes(t, from)[m], i))
    ensures n in CommitNodes(t, from)[k..] ==>
      Covers(n, i) && Covers(n, from) && InTree(n, t'.size) && n != LeafNodeIndex(i) && OccParent(t', n)
    ensures OccParent(t', n) && Covers(n, from) && Covers(n, i) ==> n in CommitNodes(t, from)[k..]
    ensures OccParent(t', n) && Covers(n, from) ==> Unmerged(t', n) == []
  {
    hide Lo, Hi, Width, Level, Left, Right, IsPow2, Resolve, FilteredPath, UnmergedOk, Populated;
    var f := CommitNodes(t, from);
    if n in f[k..] {
      var m :| 0 <= m < |f[k..]| && f[k..][m] == n;
      assert f[k + m] == n && n in f;
    }
    if OccParent(t', n) && Covers(n, from) {
      assert n != LeafNodeIndex(from);
      assert n in f;
      var m :| 0 <= m < |f| && f[m] == n;
      if m >= k { assert f[k..][m - k] == n; }
    }
  }

  /** What holds at a node whatever keys were published. */
  ghost predicate RestAt(s: Suite, t: Tree, tail: seq<NodeIndex>, r: View, n: NodeIndex) {
    && (Have(r, n) ==> Covers(n, r.index) && InTree(n, t.size))
    && (n in r.cache ==> n !in tail && (n in r.secrets || n == LeafNodeIndex(r.index)))
    && (OccParent(t, n) ==> (Have(r, n) <==> Covers(n, r.index) && r.index !in Unmerged(t, n)))
    && (Occ(t, n) && Have(r, n) && n !in tail ==> PublicOf(s, KeyAt(s, r, n).value) == KeyOfNode(t, n))
  }

  /** A node on the path below the common ancestor is not above the member; one above it is in the tail. */
  lemma OffTail(t: Tree, from: LeafIndex, t': Tree, i: LeafIndex, k: nat, n: NodeIndex)
    requires PathMerged(t, from, t') && k < |CommitNodes(t, from)| && OccLeaf(t', i) && i != from
    requires forall m :: 0 <= m < |CommitNodes(t, from)| ==> (m >= k <==> Covers(CommitNodes(t, from)[m], i))
    requires Covers(n, i) && n !in CommitNodes(t, from)[k..] && Occ(t', n)
    ensures NodeAt(t', n) == NodeAt(t, n)
  {
    hide Lo, Hi, Width, Level, IsPow2, FilteredPath, UnmergedOk, Populated, CommitNodes;
    TailDomain(t, from, t', i, k, n);
    assert !OccParent(t', n) ==> IsLeaf(n);
  }

  /** One node of the updated view. */
  lemma ImplantedAt(s: Suite, t: Tree, from: LeafIndex, t': Tree, v: View, w: View, r: View, k: nat, first: Bytes, n: NodeIndex)
    requires PathMerged(t, from, t') && ViewOk(s, t, v) && Inside(t, v) && v.index != from && Absorbs(s, v, w)
    requires k < |CommitNodes(t, from)| && OccLeaf(t', v.index)
    requires forall m :: 0 <= m < |CommitNodes(t, from)| ==> (m >= k <==> Covers(CommitNodes(t, from)[m], v.index))
    requires HasTail(s, CommitNodes(t, from), k, first, w, r)
    ensures RestAt(s, t', CommitNodes(t, from)[k..], r, n)
  {
    hide Lo, Hi, Width, Level, Left, Right, IsPow2, Resolve, FilteredPath, PathSecret, UnmergedOk, Populated, CommitNodes, KeyOf,
      PublicOf, Covers;
    TailDomain(t, from, t', v.index, k, n);
    var f := CommitNodes(t, from);
    if n in f[k..] {
      var m :| 0 <= m < |f[k..]| && f[k..][m] == n;
      assert f[k + m] == n;
    } else {
      assert Have(r, n) <==> Have(v, n);
      if Covers(n, v.index) && Occ(t', n) {
        OffTail(t, from, t', v.index, k, n);
        if Have(v, n) { KeyFits(s, t, v, n); }
      }
    }
  }

  lemma RestDecides(s: Suite, t: Tree, tail: seq<NodeIndex>, r: View)
    requires WF(t) && forall n :: RestAt(s, t, tail, r, n)
    requires OccLeaf(t, r.index) && LeafNodeIndex(r.index) in r.cache && r.index < t.size
    ensures Checked(s, t, r) == Ok(r) && Inside(t, r) && LeafOk(s, t, r)
    ensures ViewOk(s, t, r) <==> forall n :: OccParent(t, n) && Have(r, n) && n in tail ==>
      PublicOf(s, KeyAt(s, r, n).value) == KeyOfNode(t, n)
  {
    hide Lo, Hi, Width, Level, IsPow2, UnmergedOk, Populated, KeyOf;
    forall n
      ensures Have(r, n) ==> Covers(n, r.index) && InTree(n, t.size)
      ensures n in r.cache ==> n !in tail && (n in r.secrets || n == LeafNodeIndex(r.index))
      ensures OccParent(t, n) ==> (Have(r, n) <==> Covers(n, r.index) && r.index !in Unmerged(t, n))
      ensures Occ(t, n) && Have(r, n) && n !in tail ==> PublicOf(s, KeyAt(s, r, n).value) == KeyOfNode(t, n)
    {
      assert RestAt(s, t, tail, r, n);
    }
    assert forall n :: n in r.cache ==> KeyAt(s, r, n) == Some(r.cache[n]);
  }

  lemma TailKeys(s: Suite, t: Tree, from: LeafIndex, t': Tree, i: LeafIndex, w: View, r: View, k: nat, first: Bytes)
    requires PathMerged(t, from, t') && k < |CommitNodes(t, from)| && OccLeaf(t', i)
    requires forall m :: 0 <= m < |CommitNodes(t, from)| ==> (m >= k <==> Covers(CommitNodes(t, from)[m], i))
    requires HasTail(s, CommitNodes(t, from), k, first, w, r)
    ensures Published(s, t', CommitNodes(t, from), k, first) <==>
      forall n :: n in CommitNodes(t, from)[k..] ==>
        OccParent(t', n) && Have(r, n) && PublicOf(s, KeyAt(s, r, n).value) == KeyOfNode(t', n)
  {
    hide Lo, Hi, FilteredPath, PathSecret, WF, CommitNodes, KeyOf, PublicOf, OthersKept;
    var f := CommitNodes(t, from);
    forall m | k <= m < |f| ensures f[m] in f[k..] && KeyAt(s, r, f[m]) == Some(KeyOf(s, PathSecret(s, first, m - k))) {
      assert f[k..][m - k] == f[m];
    }
    forall n | n in f[k..] ensures exists m :: k <= m < |f| && f[m] == n {
      var j :| 0 <= j < |f[k..]| && f[k..][j] == n;
      assert f[k + j] == n;
    }
    forall n | n in f[k..] ensures OccParent(t', n) { TailDomain(t, from, t', i, k, n); }
  }
  /** The view after implanting is consistent whatever keys were published, for it has dropped its cached keys
      along the path; it fits the tree exactly when they are the ones of the implanted secrets. */
  lemma ImplantedFits(s: Suite, t: Tree, from: LeafIndex, t': Tree, v: View, w: View, r: View, k: nat, first: Bytes)
    requires PathMerged(t, from, t') && ViewOk(s, t, v) && Inside(t, v) && v.index != from && Absorbs(s, v, w)
    requires k < |CommitNodes(t, from)|
    requires forall m :: 0 <= m < |CommitNodes(t, from)| ==> (m >= k <==> Covers(CommitNodes(t, from)[m], v.index))
    requires HasTail(s, CommitNodes(t, from), k, first, w, r)
    ensures Checked(s, t', r) == Ok(r) && Inside(t', r) && LeafOk(s, t', r) && r.index == v.index
    ensures ViewOk(s, t', r) <==> Published(s, t', CommitNodes(t, from), k, first)
  {
    hide Lo, Hi, Width, Level, IsPow2, FilteredPath, PathSecret, UnmergedOk, Populated, CommitNodes, KeyOf, PublicOf, RestAt,
      ParentsOk, Checked, Inside, Published;
    LeafKept(t, t', from, v.index);
    LeafStays(s, t, from, t', v, w, r, k, first);
    forall n ensures RestAt(s, t', CommitNodes(t, from)[k..], r, n) {
      ImplantedAt(s, t, from, t', v, w, r, k, first, n);
    }
    RestDecides(s, t', CommitNodes(t, from)[k..], r);
    TailKeys(s, t, from, t', v.index, w, r, k, first);
  }

  lemma LeafStays(s: Suite, t: Tree, from: LeafIndex, t': Tree, v: View, w: View, r: View, k: nat, first: Bytes)
    requires PathMerged(t, from, t') && ViewOk(s, t, v) && v.index != from && Absorbs(s, v, w) && OccLeaf(t', v.index)
    requires k < |CommitNodes(t, from)|
    requires forall m :: 0 <= m < |CommitNodes(t, from)| ==> (m >= k <==> Covers(CommitNodes(t, from)[m], v.index))
    requires HasTail(s, CommitNodes(t, from), k, first, w, r)
    ensures r.index == v.index && v.index < t'.size && LeafNodeIndex(r.index) in r.cache
  {
    hide Lo, Hi, Width, Level, IsPow2, FilteredPath, PathSecret, UnmergedOk, Populated, CommitNodes, KeyOf, PublicOf, ParentsOk;
    TailDomain(t, from, t', v.index, k, LeafNodeIndex(v.index));
  }
}
