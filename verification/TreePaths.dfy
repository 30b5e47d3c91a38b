/** Resolutions, filtered direct paths and the effect of merging an update path. */
module TreePaths {
  import opened Wrappers
  import opened TreeMath
  import opened Crypto
  import opened RatchetTree
  import opened TreeInvariant

  // --------------------------------------------------------------------------
  // Locality: what is computed at a node depends on its subtree only
  // --------------------------------------------------------------------------

  ghost predicate AgreeBelow(t: Tree, u: Tree, x: NodeIndex) {
    forall y :: Within(y, x) ==> NodeAt(t, y) == NodeAt(u, y)
  }

  lemma AgreeChildren(t: Tree, u: Tree, x: NodeIndex)
    requires AgreeBelow(t, u, x)
    ensures AgreeBelow(t, u, Left(x)) && AgreeBelow(t, u, Right(x))
    ensures NodeAt(t, x) == NodeAt(u, x)
  {
    hide Lo, Hi, Width, Level, Left, Right;
    ChildWithin(x);
    assert Within(x, x);
  }

  lemma {:induction false} ResolveLocal(t: Tree, u: Tree, x: NodeIndex)
    requires AgreeBelow(t, u, x)
    ensures Resolve(t, x) == Resolve(u, x)
    decreases Level(x)
  {
    hide Lo, Hi, Width, Level, Left, Right;
    AgreeChildren(t, u, x);
    if !IsLeaf(x) {
      ResolveLocal(t, u, Left(x));
      ResolveLocal(t, u, Right(x));
    }
  }

  lemma {:induction false} TreeHashLocal(s: Suite, t: Tree, u: Tree, x: NodeIndex)
    requires AgreeBelow(t, u, x)
    ensures TreeHash(s, t, x) == TreeHash(s, u, x)
    decreases Level(x)
  {
    hide Lo, Hi, Width, Level, Left, Right;
    AgreeChildren(t, u, x);
    if !IsLeaf(x) {
      TreeHashLocal(s, t, u, Left(x));
      TreeHashLocal(s, t, u, Right(x));
    }
  }

  // --------------------------------------------------------------------------
  // Resolutions
  // --------------------------------------------------------------------------

  /** The resolution of a node names occupied nodes below it, and it is empty exactly when no leaf
      below the node is occupied. */
  lemma {:induction false} ResolveMembers(t: Tree, x: NodeIndex)
    requires WF(t)
    ensures forall r :: r in Resolve(t, x) ==> Occ(t, r) && Within(r, x)
    ensures Resolve(t, x) != [] <==> Occupied(t, x)
    decreases Level(x)
  {
    hide Lo, Hi, Width, Level, Left, Right, IsPow2;
    if Occ(t, x) {
      if OccParent(t, x) {
        forall r | r in LeafNodes(Unmerged(t, x)) ensures Occ(t, r) && Within(r, x) {
          var k :| 0 <= k < |Unmerged(t, x)| && r == LeafNodes(Unmerged(t, x))[k];
          assert Unmerged(t, x)[k] in Unmerged(t, x);
          assert OccLeaf(t, Unmerged(t, x)[k]);
        }
        OccupiedAbove(t, Left(x), x);
      } else {
        assert OccLeaf(t, x / 2) && Covers(x, x / 2);
      }
    } else if IsLeaf(x) {
      assert forall l :: Covers(x, l) ==> x == LeafNodeIndex(l);
    } else {
      ResolveMembers(t, Left(x));
      ResolveMembers(t, Right(x));
      OccupiedSplit(t, x);
    }
  }

  lemma OccupiedAbove(t: Tree, x: NodeIndex, y: NodeIndex)
    requires Occupied(t, x) && Within(x, y)
    ensures Occupied(t, y)
  {
    hide Lo, Hi;
    var l :| Covers(x, l) && OccLeaf(t, l);
    assert Covers(y, l);
  }

  lemma OccupiedSplit(t: Tree, x: NodeIndex)
    requires !IsLeaf(x)
    ensures Occupied(t, x) <==> Occupied(t, Left(x)) || Occupied(t, Right(x))
    ensures Within(Left(x), x) && Within(Right(x), x)
  {
    hide Lo, Hi, Left, Right;
    ChildWithin(x);
    if Occupied(t, x) {
      var l :| Covers(x, l) && OccLeaf(t, l);
      assert Covers(Left(x), l) || Covers(Right(x), l);
    }
    if Occupied(t, Left(x)) { OccupiedAbove(t, Left(x), x); }
    if Occupied(t, Right(x)) { OccupiedAbove(t, Right(x), x); }
  }

  /** Below blank nodes the resolution contains every resolution further down. */
  lemma {:induction false} ResolveDown(t: Tree, x: NodeIndex, y: NodeIndex, r: NodeIndex)
    requires Within(x, y) && r in Resolve(t, x)
    requires forall z :: Within(x, z) && Within(z, y) && z != x ==> !Occ(t, z)
    ensures r in Resolve(t, y)
    decreases Level(y)
  {
    hide Lo, Hi, Width, Level, Left, Right;
    if x != y {
      InsideOneChild(x, y);
      ChildWithin(y);
      assert Within(y, y);
      assert !Occ(t, y);
      if Within(x, Left(y)) {
        ResolveDown(t, x, Left(y), r);
      } else {
        ResolveDown(t, x, Right(y), r);
      }
    }
  }

  // --------------------------------------------------------------------------
  // Filtered direct paths
  // --------------------------------------------------------------------------

  lemma OffPathStep(x: NodeIndex, y: NodeIndex)
    requires Within(x, y) && x != y
    ensures OffPath(x, Parent(x)) == Sibling(x)
    ensures Parent(x) != y ==> Within(Parent(x), y) && OffPath(x, y) == OffPath(Parent(x), y)
    ensures Within(OffPath(x, y), y) && Apart(x, OffPath(x, y))
  {
    hide Lo, Hi, Width, Level, Left, Right, Parent, Sibling;
    InsideOneChild(x, y);
    InsideOneChild(x, Parent(x));
    ChildWithin(y);
    Laminar(Parent(x), y);
    Laminar(y, Parent(x));
    Laminar(x, y);
    if Parent(x) != y {
      InsideOneChild(Parent(x), y);
    }
  }

  /** `f` is a bottom-up list of proper ancestors of `x`, each with the resolution of its child off
      the path; the list leaves out exactly the ancestors for which that resolution is empty. */
  ghost predicate IsFilteredPath(t: Tree, x: NodeIndex, f: seq<PathEntry>) {
    && (forall i :: 0 <= i < |f| ==>
          && InTree(f[i].node, t.size) && Within(x, f[i].node) && f[i].node != x
          && f[i].resolution == Resolve(t, OffPath(x, f[i].node)) && f[i].resolution != [])
    && (forall i, j :: 0 <= i < j < |f| ==> Within(f[i].node, f[j].node) && f[i].node != f[j].node)
  }

  lemma LiftFilteredPath(t: Tree, x: NodeIndex, f: seq<PathEntry>)
    requires IsFilteredPath(t, Parent(x), f)
    ensures IsFilteredPath(t, x, f)
    ensures forall i :: 0 <= i < |f| ==> Within(Parent(x), f[i].node) && Parent(x) != f[i].node
  {
    hide Lo, Hi, Width, Level, Left, Right, Parent, Resolve, OffPath;
    forall i | 0 <= i < |f|
      ensures Within(x, f[i].node) && f[i].node != x && OffPath(x, f[i].node) == OffPath(Parent(x), f[i].node)
    {
      Laminar(x, Parent(x));
      Laminar(Parent(x), f[i].node);
      OffPathStep(x, f[i].node);
    }
  }

  lemma {:induction false} FilteredPathFacts(t: Tree, x: NodeIndex)
    requires IsPow2(t.size) && InTree(x, t.size)
    ensures IsFilteredPath(t, x, FilteredPath(t, x))
    decreases t.size - Width(x)
  {
    hide Lo, Hi, Width, Level, Left, Right, Parent, Sibling, IsPow2, Resolve, OffPath;
    TreeClosed(x, t.size);
    if x != t.size - 1 {
      FilteredPathFacts(t, Parent(x));
      LiftFilteredPath(t, x, FilteredPath(t, Parent(x)));
      OffPathStep(x, Parent(x));
    }
  }

  lemma {:induction false} FilteredPathComplete(t: Tree, x: NodeIndex, y: NodeIndex)
    requires IsPow2(t.size) && InTree(x, t.size) && InTree(y, t.size)
    requires Within(x, y) && x != y && Resolve(t, OffPath(x, y)) != []
    ensures y in Nodes(FilteredPath(t, x))
    decreases t.size - Width(x)
  {
    hide Lo, Hi, Width, Level, Left, Right, Parent, Sibling, IsPow2, Resolve;
    TreeClosed(x, t.size);
    RootFacts(t.size);
    InTreeIsSpan(y, t.size);
    Laminar(x, y);
    OffPathStep(x, y);
    assert x != t.size - 1 by {
      if x == t.size - 1 { NodeFromInterval(x, y); }
    }
    var f := FilteredPath(t, x);
    var g := FilteredPath(t, Parent(x));
    if Parent(x) == y {
      assert f[0].node == y;
      assert Nodes(f)[0] == y;
    } else {
      FilteredPathComplete(t, Parent(x), y);
      var k :| 0 <= k < |g| && Nodes(g)[k] == y;
      var d := |f| - |g|;
      assert f[d..] == g;
      assert Nodes(f)[k + d] == y;
    }
  }

  lemma {:induction false} FilteredPathLocal(t: Tree, u: Tree, x: NodeIndex)
    requires IsPow2(t.size) && InTree(x, t.size) && u.size == t.size
    requires forall y :: Apart(x, y) ==> NodeAt(t, y) == NodeAt(u, y)
    ensures FilteredPath(t, x) == FilteredPath(u, x)
    decreases t.size - Width(x)
  {
    hide Lo, Hi, Width, Level, Left, Right, Parent, Sibling, IsPow2;
    TreeClosed(x, t.size);
    if x != t.size - 1 {
      ResolveLocal(t, u, Sibling(x));
      FilteredPathLocal(t, u, Parent(x));
    }
  }

  // --------------------------------------------------------------------------
  // Merging an update path
  // --------------------------------------------------------------------------

  ghost function PathNode(ns: seq<UpdatePathNode>, hashes: seq<Bytes>, i: nat): Option<Node>
    requires i < |ns| == |hashes|
  {
    Some(ParentN(ParentNode(ns[i].publicKey, if i + 1 == |hashes| then [] else hashes[i + 1], [])))
  }

  lemma {:induction false} WithPathFacts(nodes: map<NodeIndex, Option<Node>>, path: seq<NodeIndex>,
                                         ns: seq<UpdatePathNode>, hashes: seq<Bytes>)
    requires |path| == |ns| == |hashes|
    requires forall i, j :: 0 <= i < j < |path| ==> path[i] != path[j]
    ensures var r := WithPath(nodes, path, ns, hashes);
      && r.Keys == nodes.Keys + (set p | p in path)
      && (forall x :: x in nodes && x !in path ==> r[x] == nodes[x])
      && (forall i :: 0 <= i < |path| ==> path[i] in r && r[path[i]] == PathNode(ns, hashes, i))
    decreases |path|
  {
    if path == [] {
      assert WithPath(nodes, path, ns, hashes) == nodes;
    } else {
      hide WithPath, PathNode;
      WithPathFacts(nodes, path[1..], ns[1..], hashes[1..]);
      WithPathStep(nodes, path, ns, hashes);
      FirstApart(path);
      var q := WithPath(nodes, path[1..], ns[1..], hashes[1..]);
      var r := WithPath(nodes, path, ns, hashes);
      assert r.Keys == q.Keys + {path[0]};
      forall i | 0 <= i < |path| ensures path[i] in r && r[path[i]] == PathNode(ns, hashes, i) {
        if i > 0 { assert path[1..][i - 1] in q && q[path[1..][i - 1]] == PathNode(ns[1..], hashes[1..], i - 1); }
      }
    }
  }

  lemma FirstApart(path: seq<NodeIndex>)
    requires path != [] && forall i, j :: 0 <= i < j < |path| ==> path[i] != path[j]
    ensures forall i :: 1 <= i < |path| ==> path[i] == path[1..][i - 1] && path[i] != path[0]
    ensures forall i, j :: 0 <= i < j < |path[1..]| ==> path[1..][i] != path[1..][j]
    ensures (set p | p in path) == (set p | p in path[1..]) + {path[0]}
  {
    assert path == [path[0]] + path[1..];
  }

  lemma WithPathStep(nodes: map<NodeIndex, Option<Node>>, path: seq<NodeIndex>,
                     ns: seq<UpdatePathNode>, hashes: seq<Bytes>)
    requires |path| == |ns| == |hashes| && path != []
    ensures WithPath(nodes, path, ns, hashes) ==
      WithPath(nodes, path[1..], ns[1..], hashes[1..])[path[0] := PathNode(ns, hashes, 0)]
    ensures forall i :: 1 <= i < |path| ==> PathNode(ns, hashes, i) == PathNode(ns[1..], hashes[1..], i - 1)
  {}

  lemma MergePathNodes(t: Tree, from: LeafIndex)
    requires Shape(t) && from < t.size
    ensures var f := Nodes(FilteredPath(t, LeafNodeIndex(from)));
      && (forall p :: p in f ==> Covers(p, from) && p in t.nodes && !IsLeaf(p))
      && (forall i, j :: 0 <= i < j < |f| ==> f[i] != f[j])
  {
    hide Lo, Hi, Width, Level, Left, Right, IsPow2, FilteredPath, OffPath, Resolve;
    var x0 := LeafNodeIndex(from);
    OccLeafInTree(t, from);
    FilteredPathFacts(t, x0);
    var f := Nodes(FilteredPath(t, x0));
    forall p | p in f ensures Covers(p, from) && p in t.nodes && !IsLeaf(p) {
      var i :| 0 <= i < |f| && f[i] == p;
      InsideOneChild(x0, FilteredPath(t, x0)[i].node);
    }
  }

  /** The tree after a merge: the filtered path of the updated leaf is freshly occupied, the other
      ancestors of the leaf are blank, and the rest is as before. */
  lemma MergeNodes(s: Suite, t: Tree, from: LeafIndex, path: UpdatePath)
    requires WF(t) && Merge(s, t, from, path).Ok?
    ensures from < t.size
    ensures UpdateLeaf(t, from, path.leaf).Ok?
    ensures var t1 := UpdateLeaf(t, from, path.leaf).value;
      var t' := Merge(s, t, from, path).value;
      var f := Nodes(FilteredPath(t1, LeafNodeIndex(from)));
      && WF(t1) && t'.size == t1.size == t.size && Shape(t')
      && FilteredPath(t1, LeafNodeIndex(from)) == FilteredPath(t, LeafNodeIndex(from))
      && |f| == |path.nodes|
      && NodeAt(t', LeafNodeIndex(from)) == Some(LeafN(path.leaf))
      && (forall x :: !Covers(x, from) ==> NodeAt(t', x) == NodeAt(t, x))
      && (forall x :: Covers(x, from) && x != LeafNodeIndex(from) && x !in f ==> !Occ(t', x))
      && (var ph := PathHashes(s, t1, LeafNodeIndex(from), f, path.nodes);
          forall i :: 0 <= i < |f| ==> Covers(f[i], from) && NodeAt(t', f[i]) == PathNode(path.nodes, ph, i))
  {
    hide Lo, Hi, Width, Level, Left, Right, IsPow2, FilteredPath, UpdateLeaf, PathHashes, WithPath, UnmergedOk, Populated;
    UpdateLeafWF(t, from, path.leaf);
    var t1 := UpdateLeaf(t, from, path.leaf).value;
    var x0 := LeafNodeIndex(from);
    OccLeafInTree(t1, from);
    FilteredPathLocal(t, t1, x0);
    MergePathNodes(t1, from);
    var f := Nodes(FilteredPath(t1, x0));
    var ph := PathHashes(s, t1, x0, f, path.nodes);
    MergedNodes(t1, f, path.nodes, ph);
  }

  /** Replacing a path of parents keeps the shape and every other node. */
  lemma MergedNodes(t: Tree, f: seq<NodeIndex>, ns: seq<UpdatePathNode>, ph: seq<Bytes>)
    requires Shape(t) && |f| == |ns| == |ph|
    requires forall p :: p in f ==> p in t.nodes && !IsLeaf(p)
    requires forall i, j :: 0 <= i < j < |f| ==> f[i] != f[j]
    ensures var t' := t.(nodes := WithPath(t.nodes, f, ns, ph));
      && Shape(t')
      && (forall x :: x !in f ==> NodeAt(t', x) == NodeAt(t, x))
      && (forall i :: 0 <= i < |f| ==> NodeAt(t', f[i]) == PathNode(ns, ph, i))
  {
    hide Lo, Hi, Width, Level, IsPow2, IsLeaf, WithPath;
    WithPathFacts(t.nodes, f, ns, ph);
    var t' := t.(nodes := WithPath(t.nodes, f, ns, ph));
    assert forall x :: x in t'.nodes <==> x in t.nodes;
    forall x | Occ(t', x) ensures IsLeaf(x) <==> t'.nodes[x].value.LeafN? {
      if x in f { var i :| 0 <= i < |f| && f[i] == x; }
    }
  }

  lemma MergeWF(s: Suite, t: Tree, from: LeafIndex, path: UpdatePath)
    requires WF(t)
    ensures var r := Merge(s, t, from, path); r.Ok? ==> WF(r.value) && r.value.size == t.size
  {
    hide Lo, Hi, Width, Level, Left, Right, IsPow2, FilteredPath, UpdateLeaf, Merge, PathHashes;
    if Merge(s, t, from, path).Ok? {
      MergeNodes(s, t, from, path);
      UpdateLeafWF(t, from, path.leaf);
      var t1 := UpdateLeaf(t, from, path.leaf).value;
      var t' := Merge(s, t, from, path).value;
      var x0 := LeafNodeIndex(from);
      OccLeafInTree(t1, from);
      FilteredPathFacts(t1, x0);
      var fp := FilteredPath(t1, x0);
      var f := Nodes(fp);
      forall l | OccLeaf(t1, l) ensures OccLeaf(t', l) {
        assert l != from ==> !Covers(LeafNodeIndex(l), from);
      }
      forall p | OccParent(t', p) ensures ParentFine(t', p) {
        if Covers(p, from) {
          assert p in f;
          var i :| 0 <= i < |f| && f[i] == p;
          assert Unmerged(t', p) == [] && fp[i].resolution != [];
          OnPathFine(t1, t', p, from);
        } else {
          OffPathFine(t1, t', p, from);
        }
      }
    }
  }

  /** What the invariant says of one occupied parent. */
  ghost predicate ParentFine(t: Tree, p: NodeIndex) {
    && Ascending(Unmerged(t, p))
    && (forall u :: u in Unmerged(t, p) ==> Covers(p, u) && OccLeaf(t, u))
    && (forall u, q :: u in Unmerged(t, p) && OccParent(t, q) && Covers(q, u) && Within(q, p) ==> u in Unmerged(t, q))
    && MergedUnder(t, p, Left(p)) && MergedUnder(t, p, Right(p))
  }

  /** A parent on the path has the updated leaf under one child and a resolution under the other. */
  lemma OnPathFine(t: Tree, t': Tree, p: NodeIndex, from: LeafIndex)
    requires WF(t) && OccParent(t', p) && Covers(p, from) && OccLeaf(t', from)
    requires Unmerged(t', p) == [] && p in t.nodes && !IsLeaf(p)
    requires Resolve(t, OffPath(LeafNodeIndex(from), p)) != []
    requires forall l :: OccLeaf(t, l) ==> OccLeaf(t', l)
    ensures ParentFine(t', p)
  {
    hide Lo, Hi, Width, Level, Left, Right, IsPow2, Resolve;
    var x0 := LeafNodeIndex(from);
    InsideOneChild(x0, p);
    ResolveMembers(t, OffPath(x0, p));
    OccupiedKept(t, t', OffPath(x0, p));
    assert Covers(Left(p), from) || Covers(Right(p), from);
    assert forall x :: Occupied(t', x) ==> MergedUnder(t', p, x);
  }

  /** A parent off the path keeps what it had. */
  lemma OffPathFine(t: Tree, t': Tree, p: NodeIndex, from: LeafIndex)
    requires WF(t) && OccParent(t', p) && !Covers(p, from)
    requires forall x :: !Covers(x, from) ==> NodeAt(t', x) == NodeAt(t, x)
    requires forall l :: OccLeaf(t, l) ==> OccLeaf(t', l)
    ensures ParentFine(t', p)
  {
    hide Lo, Hi, Width, Level, Left, Right, IsPow2;
    assert NodeAt(t', p) == NodeAt(t, p);
    assert OccParent(t, p) && Unmerged(t', p) == Unmerged(t, p);
    MergedKept(t, t', p, Left(p));
    MergedKept(t, t', p, Right(p));
    forall u, q | u in Unmerged(t', p) && OccParent(t', q) && Covers(q, u) && Within(q, p)
      ensures u in Unmerged(t', q)
    {
      assert !Covers(q, from);
      assert NodeAt(t', q) == NodeAt(t, q);
    }
  }
}
