/** Every tree that the operations can reach passes the full parent-hash check
    (section 7.9.2 of RFC 9420), for arbitrary hash functions. */
module ParentHashes {
  import opened Wrappers
  import opened TreeMath
  import opened Crypto
  import opened RatchetTree
  import opened TreeInvariant
  import opened TreePaths

  // --------------------------------------------------------------------------
  // Removing leaves
  // --------------------------------------------------------------------------

  lemma {:induction false} FilterSame(s: seq<nat>, e: set<nat>, f: set<nat>)
    requires forall u :: u in s ==> (u in e <==> u in f)
    ensures Filter(s, e) == Filter(s, f)
  {
    if s != [] {
      assert s[0] in s;
      FilterSame(s[1..], e, f);
    }
  }

  lemma {:induction false} FilterNothing(s: seq<nat>, e: set<nat>)
    requires forall u :: u in s ==> u !in e
    ensures Filter(s, e) == s
  {
    if s != [] {
      assert s[0] in s;
      FilterNothing(s[1..], e);
    }
  }

  /** Removing a freshly inserted element undoes the insertion. */
  lemma {:induction false} FilterInserted(s: seq<nat>, v: nat, e: set<nat>)
    requires v !in s
    ensures Filter(InsertSorted(s, v), e + {v}) == Filter(s, e)
  {
    if s == [] || s[0] > v {
      FilterSame(s, e, e + {v});
      var r := InsertSorted(s, v);
      assert r == [v] + s;
      assert r[1..] == s;
    } else {
      FilterInserted(s[1..], v, e);
      var r := InsertSorted(s, v);
      assert r[1..] == InsertSorted(s[1..], v);
      assert s[0] != v;
    }
  }

  lemma WithoutLocal(t: Tree, u: Tree, x: NodeIndex, e: set<LeafIndex>)
    requires AgreeBelow(t, u, x)
    ensures AgreeBelow(Without(t, e), Without(u, e), x)
  {
    hide Lo, Hi, Filter;
    forall y | Within(y, x) ensures NodeAt(Without(t, e), y) == NodeAt(Without(u, e), y) {
      assert NodeAt(t, y) == NodeAt(u, y);
      WithoutAt(t, e, y);
      WithoutAt(u, e, y);
    }
  }

  lemma WithoutAt(t: Tree, e: set<LeafIndex>, y: NodeIndex)
    ensures NodeAt(Without(t, e), y) == Stripped(NodeAt(t, y), y, e)
  {
    hide Filter;
  }

  /** Removing nothing changes nothing. */
  lemma WithoutNothing(t: Tree)
    ensures forall x :: NodeAt(Without(t, {}), x) == NodeAt(t, x)
  {
    hide Filter;
    forall x ensures NodeAt(Without(t, {}), x) == NodeAt(t, x) {
      WithoutAt(t, {}, x);
      FilterNothing(Unmerged(t, x), {});
    }
  }

  // --------------------------------------------------------------------------
  // One node
  // --------------------------------------------------------------------------

  /** The check at a node depends on its subtree only. */
  lemma ValidAtLocal(s: Suite, t: Tree, u: Tree, p: NodeIndex)
    requires WF(t) && AgreeBelow(t, u, p) && OccParent(t, p)
    requires ParentHashValidAt(s, t, p)
    ensures OccParent(u, p) && ParentHashValidAt(s, u, p)
  {
    hide Lo, Hi, Width, Level, Left, Right, IsPow2, TreeHash, Resolve, Without;
    AgreeChildren(t, u, p);
    assert OccParent(u, p);
    forall c, h | (c == Left(p) || c == Right(p)) && HasParentHash(t, c, h) ensures HasParentHash(u, c, h) {
      ResolveLocal(t, u, c);
      ResolveMembers(t, c);
      var r :| r in Resolve(t, c) && Occ(t, r) && t.nodes[r].value.ParentHash() == Some(h);
      assert NodeAt(t, r) == NodeAt(u, r);
    }
    forall c | c == Left(p) || c == Right(p)
      ensures OriginalParentHash(s, t, p, c) == OriginalParentHash(s, u, p, c)
    {
      var e := ToSet(Unmerged(t, p));
      WithoutLocal(t, u, c, e);
      TreeHashLocal(s, Without(t, e), Without(u, e), c);
    }
  }

  // --------------------------------------------------------------------------
  // Adding a leaf
  // --------------------------------------------------------------------------

  lemma LeafNodesGrow(a: seq<LeafIndex>, b: seq<LeafIndex>)
    requires forall u :: u in a ==> u in b
    ensures forall r :: r in LeafNodes(a) ==> r in LeafNodes(b)
  {
    hide Lo, Hi;
    forall r | r in LeafNodes(a) ensures r in LeafNodes(b) {
      var k :| 0 <= k < |a| && LeafNodes(a)[k] == r;
      assert a[k] in b;
      var m :| 0 <= m < |b| && b[m] == a[k];
      assert LeafNodes(b)[m] == r;
    }
  }

  lemma {:induction false} ResolveGrows(t: Tree, i: LeafIndex, leaf: LeafNode, x: NodeIndex)
    requires WF(t) && i < t.size && !OccLeaf(t, i)
    ensures forall r :: r in Resolve(t, x) ==> r in Resolve(PlaceLeaf(t, i, leaf), x)
    decreases Level(x)
  {
    hide Lo, Hi, Width, Level, Left, Right, IsPow2, InsertSorted, PlaceLeaf, LeafNodes;
    var t' := PlaceLeaf(t, i, leaf);
    PlaceLeafNodes(t, i, leaf);
    if OccParent(t, x) {
      LeafNodesGrow(Unmerged(t, x), Unmerged(t', x));
    } else if IsLeaf(x) {
      if Occ(t, x) {
        assert x == LeafNodeIndex(x / 2);
        assert OccLeaf(t, x / 2) && OccLeaf(t', x / 2);
      }
    } else {
      ResolveGrows(t, i, leaf, Left(x));
      ResolveGrows(t, i, leaf, Right(x));
      assert !OccParent(t', x);
      assert Shape(t') by { PlaceLeafWF(t, i, leaf); }
    }
  }

  /** Seen without the unmerged leaves of `p`, the subtree of `p` is what it was before the addition. */
  lemma AdditionInvisible(t: Tree, i: LeafIndex, leaf: LeafNode, p: NodeIndex)
    requires WF(t) && i < t.size && !OccLeaf(t, i) && OccParent(t, p)
    ensures var t' := PlaceLeaf(t, i, leaf);
      AgreeBelow(Without(t, ToSet(Unmerged(t, p))), Without(t', ToSet(Unmerged(t', p))), p)
  {
    hide Lo, Hi, Width, Level, Left, Right, IsPow2, InsertSorted, Filter, Without;
    var t' := PlaceLeaf(t, i, leaf);
    var e, e' := ToSet(Unmerged(t, p)), ToSet(Unmerged(t', p));
    PlaceLeafNodes(t, i, leaf);
    OccLeafInTree(t, i);
    if Covers(p, i) {
      assert e' == e + {i};
    } else {
      assert e' == e;
    }
    forall y | Within(y, p) ensures NodeAt(Without(t, e), y) == NodeAt(Without(t', e'), y) {
      WithoutAt(t, e, y);
      WithoutAt(t', e', y);
      if OccParent(t, y) {
        assert i !in Unmerged(t, y);
        if Covers(y, i) {
          FilterInserted(Unmerged(t, y), i, e);
        } else {
          FilterSame(Unmerged(t, y), e, e');
        }
      }
    }
  }

  lemma PlaceLeafValid(s: Suite, t: Tree, i: LeafIndex, leaf: LeafNode)
    requires WF(t) && i < t.size && !OccLeaf(t, i) && ParentHashValid(s, t)
    ensures ParentHashValid(s, PlaceLeaf(t, i, leaf))
  {
    hide Lo, Hi, Width, Level, Left, Right, IsPow2, InsertSorted, PlaceLeaf, TreeHash, Resolve, Without;
    var t' := PlaceLeaf(t, i, leaf);
    PlaceLeafNodes(t, i, leaf);
    forall p | OccParent(t', p) ensures ParentHashValidAt(s, t', p) {
      assert ParentHashValidAt(s, t, p);
      PlaceLeafKeeps(t, i, leaf);
      AdditionInvisible(t, i, leaf, p);
      var u, u' := Without(t, ToSet(Unmerged(t, p))), Without(t', ToSet(Unmerged(t', p)));
      AgreeChildren(u, u', p);
      forall c | c == Left(p) || c == Right(p)
        ensures OriginalParentHash(s, t, p, c) == OriginalParentHash(s, t', p, c)
        ensures forall h :: HasParentHash(t, c, h) ==> HasParentHash(t', c, h)
      {
        TreeHashLocal(s, u, u', c);
        ResolveGrows(t, i, leaf, c);
      }
    }
  }

  /** An addition keeps keys and parent hashes of the nodes that were there. */
  lemma PlaceLeafKeeps(t: Tree, i: LeafIndex, leaf: LeafNode)
    requires WF(t) && i < t.size && !OccLeaf(t, i)
    ensures var t' := PlaceLeaf(t, i, leaf);
      forall x :: Occ(t, x) ==>
        && Occ(t', x) && t'.nodes[x].value.ParentHash() == t.nodes[x].value.ParentHash()
        && t'.nodes[x].value.PublicKey() == t.nodes[x].value.PublicKey()
  {
    hide Lo, Hi, Width, Level, Left, Right, IsPow2, InsertSorted;
  }

  lemma AddLeafValid(s: Suite, t: Tree, leaf: LeafNode)
    requires WF(t) && ParentHashValid(s, t)
    ensures var r := AddLeaf(t, leaf); r.Ok? ==> ParentHashValid(s, r.value.0)
  {
    hide Lo, Hi, Width, Level, Left, Right, IsPow2, PlaceLeaf, TreeHash, Resolve, Without;
    var (t', i) := AllocateLeaf(t);
    GrowWF(t);
    if i == t.size {
      forall p | OccParent(t', p) ensures ParentHashValidAt(s, t', p) {
        assert forall x :: NodeAt(t', x) == NodeAt(t, x);
        ValidAtLocal(s, t, t', p);
      }
    }
    OccLeafInTree(t, i);
    PlaceLeafValid(s, t', i, leaf);
  }

  // --------------------------------------------------------------------------
  // Operations that leave the subtrees of the surviving parents alone
  // --------------------------------------------------------------------------

  lemma SurvivorsValid(s: Suite, t: Tree, u: Tree)
    requires WF(t) && ParentHashValid(s, t)
    requires forall p :: OccParent(u, p) ==> AgreeBelow(u, t, p)
    ensures ParentHashValid(s, u)
  {
    hide Lo, Hi, Width, Level, Left, Right, IsPow2, ParentHashValidAt;
    forall p | OccParent(u, p) ensures ParentHashValidAt(s, u, p) {
      assert Within(p, p);
      assert NodeAt(u, p) == NodeAt(t, p);
      ValidAtLocal(s, t, u, p);
    }
  }

  lemma BlankPathValid(s: Suite, t: Tree, i: LeafIndex)
    requires WF(t) && ParentHashValid(s, t)
    ensures ParentHashValid(s, Blanked(t, i))
  {
    hide Lo, Hi, Width, Level, Left, Right, IsPow2, ParentHashValidAt;
    SurvivorsValid(s, t, Blanked(t, i));
  }

  lemma UpdateLeafValid(s: Suite, t: Tree, i: LeafIndex, leaf: LeafNode)
    requires WF(t) && ParentHashValid(s, t)
    ensures var r := UpdateLeaf(t, i, leaf); r.Ok? ==> ParentHashValid(s, r.value)
  {
    hide Lo, Hi, Width, Level, Left, Right, IsPow2, ParentHashValidAt, UpdateLeaf;
    if UpdateLeaf(t, i, leaf).Ok? {
      UpdateLeafWF(t, i, leaf);
      SurvivorsValid(s, t, UpdateLeaf(t, i, leaf).value);
    }
  }

  lemma TruncateValid(s: Suite, t: Tree)
    requires WF(t) && SomeLeaf(t) && ParentHashValid(s, t)
    ensures ParentHashValid(s, Truncate(t))
  {
    hide Lo, Hi, Width, Level, Left, Right, IsPow2, ParentHashValidAt, Truncate;
    TruncateFacts(t);
    SurvivorsValid(s, t, Truncate(t));
  }

  // --------------------------------------------------------------------------
  // Merging
  // --------------------------------------------------------------------------

  /** The node below entry `i` of a path that starts above `below`. */
  ghost function Before(below: NodeIndex, path: seq<NodeIndex>, i: nat): NodeIndex
    requires i <= |path|
  {
    if i == 0 then below else path[i - 1]
  }

  /** The value of one parent hash of a path, without the recursion. */
  lemma {:induction false} PathHashAt(s: Suite, t: Tree, below: NodeIndex, path: seq<NodeIndex>,
                                      ns: seq<UpdatePathNode>, i: nat)
    requires |path| == |ns| && i < |path|
    ensures var h := PathHashes(s, t, below, path, ns);
      h[i] == HashParent(s, ParentHashInput(ns[i].publicKey, if i + 1 == |h| then [] else h[i + 1],
                TreeHash(s, t, OffPath(Before(below, path, i), path[i]))))
    decreases i
  {
    hide TreeHash, OffPath;
    if i > 0 {
      PathHashAt(s, t, path[0], path[1..], ns[1..], i - 1);
      var h, h' := PathHashes(s, t, below, path, ns), PathHashes(s, t, path[0], path[1..], ns[1..]);
      assert h[1..] == h';
      assert h[i] == h'[i - 1];
      if i + 1 < |h| { assert h[i + 1] == h'[i]; }
      assert path[1..][i - 1] == path[i] && ns[1..][i - 1] == ns[i];
    }
  }

  /** Parent hashes of a path depend only on the subtrees off the path. */
  lemma {:induction false} PathHashesLocal(s: Suite, t: Tree, u: Tree, below: NodeIndex, path: seq<NodeIndex>,
                                           ns: seq<UpdatePathNode>)
    requires |path| == |ns|
    requires forall i :: 0 <= i < |path| ==>
      AgreeBelow(t, u, OffPath(Before(below, path, i), path[i]))
    ensures PathHashes(s, t, below, path, ns) == PathHashes(s, u, below, path, ns)
    decreases |path|
  {
    hide TreeHash, OffPath, Within;
    if path != [] {
      var first := path[0];
      assert AgreeBelow(t, u, OffPath(Before(below, path, 0), path[0]));
      TreeHashLocal(s, t, u, OffPath(below, first));
      forall i | 0 <= i < |path[1..]|
        ensures AgreeBelow(t, u, OffPath(Before(path[0], path[1..], i), path[1..][i]))
      {
        assert Before(below, path, i + 1) == Before(path[0], path[1..], i);
        assert AgreeBelow(t, u, OffPath(Before(below, path, i + 1), path[i + 1]));
        assert path[1..][i] == path[i + 1];
      }
      PathHashesLocal(s, t, u, path[0], path[1..], ns[1..]);
    }
  }

  /** The parent-hash check of a received path can be made before or after the leaf is replaced. */
  lemma PathCheckBeforeUpdate(s: Suite, t: Tree, from: LeafIndex, path: UpdatePath)
    requires WF(t) && IsPow2(t.size) && from < t.size && UpdateLeaf(t, from, path.leaf).Ok?
    ensures var t1 := UpdateLeaf(t, from, path.leaf).value;
      t1.size == t.size && (PathParentHashValid(s, t, from, path) <==> PathParentHashValid(s, t1, from, path))
  {
    hide Lo, Hi, Width, Level, Left, Right, IsPow2, FilteredPath, UpdateLeaf, OffPath, TreeHash, Resolve, PathHashes;
    UpdateLeafWF(t, from, path.leaf);
    var t1 := UpdateLeaf(t, from, path.leaf).value;
    var x0 := LeafNodeIndex(from);
    OccLeafInTree(t, from);
    FilteredPathLocal(t, t1, x0);
    var fp := FilteredPath(t, x0);
    var f := Nodes(fp);
    FilteredPathFacts(t, x0);
    if |f| == |path.nodes| {
      forall i | 0 <= i < |f| ensures AgreeBelow(t, t1, OffPath(Before(x0, f, i), f[i])) {
        OffPathApart(t, from, fp, i);
      }
      PathHashesLocal(s, t, t1, x0, f, path.nodes);
    }
  }

  /** The subtree hashed for entry `i` of a path does not contain the leaf of the path. */
  lemma OffPathApart(t: Tree, from: LeafIndex, fp: seq<PathEntry>, i: nat)
    requires IsFilteredPath(t, LeafNodeIndex(from), fp) && i < |fp|
    ensures var x0, f := LeafNodeIndex(from), Nodes(fp);
      var prev := Before(x0, f, i);
      && OffPath(prev, f[i]) == OffPath(x0, f[i])
      && Within(x0, prev) && Within(prev, f[i]) && prev != f[i] && Covers(prev, from)
      && (forall y :: Within(y, OffPath(prev, f[i])) ==> !Covers(y, from))
  {
    hide Lo, Hi, Width, Level, Left, Right, Resolve;
    var x0, f := LeafNodeIndex(from), Nodes(fp);
    var prev := Before(x0, f, i);
    InsideOneChild(x0, f[i]);
    InsideOneChild(prev, f[i]);
  }

  lemma MergeEntryValid(s: Suite, t: Tree, from: LeafIndex, path: UpdatePath, i: nat)
    requires WF(t) && Merge(s, t, from, path).Ok? && from < t.size
    requires IsPow2(t.size) && PathParentHashValid(s, t, from, path)
    requires i < |path.nodes| == |FilteredPath(t, LeafNodeIndex(from))|
    ensures var t' := Merge(s, t, from, path).value;
      var p := FilteredPath(t, LeafNodeIndex(from))[i].node;
      OccParent(t', p) && ParentHashValidAt(s, t', p)
  {
    hide Lo, Hi, Width, Level, Left, Right, IsPow2, FilteredPath, UpdateLeaf, Merge, TreeHash, Resolve, PathHashes, Without;
    MergeNodes(s, t, from, path);
    UpdateLeafWF(t, from, path.leaf);
    PathCheckBeforeUpdate(s, t, from, path);
    var t1 := UpdateLeaf(t, from, path.leaf).value;
    var t' := Merge(s, t, from, path).value;
    var x0 := LeafNodeIndex(from);
    FilteredPathFacts(t, x0);
    var fp := FilteredPath(t, x0);
    var f := Nodes(fp);
    var ph := PathHashes(s, t1, x0, f, path.nodes);
    var p, prev := f[i], Before(x0, f, i);
    assert NodeAt(t', p) == PathNode(path.nodes, ph, i);
    OffPathApart(t, from, fp, i);
    PathHashAt(s, t1, x0, f, path.nodes, i);
    // the node below the entry carries the hash of the entry
    assert Occ(t', prev) && t'.nodes[prev].value.ParentHash() == Some(ph[i]) by {
      if i > 0 { assert NodeAt(t', prev) == PathNode(path.nodes, ph, i - 1); }
    }
    // and that hash is the original parent hash of the entry
    var other := OffPath(prev, p);
    assert Unmerged(t', p) == [];
    assert ToSet([]) == {};
    WithoutNothing(t');
    TreeHashLocal(s, Without(t', {}), t1, other);
    assert OriginalParentHash(s, t', p, other) == ph[i];
    // the node is in the resolution of its side
    MergeResolution(s, t, from, path, i);
  }

  lemma MergeResolution(s: Suite, t: Tree, from: LeafIndex, path: UpdatePath, i: nat)
    requires WF(t) && Merge(s, t, from, path).Ok? && from < t.size && IsPow2(t.size)
    requires i < |path.nodes| == |FilteredPath(t, LeafNodeIndex(from))|
    ensures var t' := Merge(s, t, from, path).value;
      var x0, f := LeafNodeIndex(from), Nodes(FilteredPath(t, LeafNodeIndex(from)));
      var prev := Before(x0, f, i);
      var c := if Within(prev, Left(f[i])) then Left(f[i]) else Right(f[i]);
      prev in Resolve(t', c)
  {
    hide Lo, Hi, Width, Level, Left, Right, IsPow2, FilteredPath, UpdateLeaf, Merge, PathHashes, OffPath;
    MergeNodes(s, t, from, path);
    var t' := Merge(s, t, from, path).value;
    var x0 := LeafNodeIndex(from);
    FilteredPathFacts(t, x0);
    var fp := FilteredPath(t, x0);
    var f := Nodes(fp);
    var prev := Before(x0, f, i);
    OffPathApart(t, from, fp, i);
    InsideOneChild(prev, f[i]);
    ChildWithin(f[i]);
    var c := if Within(prev, Left(f[i])) then Left(f[i]) else Right(f[i]);
    assert Occ(t', prev) by {
      if i > 0 { assert NodeAt(t', f[i - 1]).Some?; }
    }
    assert prev in Resolve(t', prev);
    forall z | Within(prev, z) && Within(z, c) && z != prev ensures !Occ(t', z) {
      BetweenEntries(t, x0, fp, i, z);
      assert Covers(z, from) && z != x0;
    }
    ResolveDown(t', prev, c, prev);
  }

  /** No entry of a path lies strictly between two consecutive ones. */
  lemma BetweenEntries(t: Tree, x: NodeIndex, fp: seq<PathEntry>, i: nat, z: NodeIndex)
    requires IsFilteredPath(t, x, fp) && i < |fp|
    requires var f := Nodes(fp); var prev := Before(x, f, i);
      Within(prev, z) && z != prev && Within(z, f[i]) && z != f[i]
    ensures z !in Nodes(fp) && z != x
  {
    hide Lo, Hi, Width, Level, Resolve, OffPath;
    var f := Nodes(fp);
    if z in f {
      var k :| 0 <= k < |f| && f[k] == z;
    }
  }

  lemma MergeValid(s: Suite, t: Tree, from: LeafIndex, path: UpdatePath)
    requires WF(t) && ParentHashValid(s, t)
    requires IsPow2(t.size) && from < t.size
    requires FilteredPath(t, LeafNodeIndex(from)) == [] || PathParentHashValid(s, t, from, path)
    ensures var r := Merge(s, t, from, path); r.Ok? ==> ParentHashValid(s, r.value)
  {
    hide Lo, Hi, Width, Level, Left, Right, IsPow2, FilteredPath, UpdateLeaf, Merge, PathHashes, ParentHashValidAt,
      PathParentHashValid;
    if Merge(s, t, from, path).Ok? {
      MergeNodes(s, t, from, path);
      var t' := Merge(s, t, from, path).value;
      var f := Nodes(FilteredPath(t, LeafNodeIndex(from)));
      forall p | OccParent(t', p) ensures ParentHashValidAt(s, t', p) {
        if Covers(p, from) {
          assert p in f;
          var i :| 0 <= i < |f| && f[i] == p;
          MergeEntryValid(s, t, from, path, i);
        } else {
          assert AgreeBelow(t, t', p);
          assert NodeAt(t', p) == NodeAt(t, p);
          ValidAtLocal(s, t, t', p);
        }
      }
    }
  }
}
