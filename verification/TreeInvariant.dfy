/** Every operation on the public tree keeps the structural invariant `WF`
    (section 12.4.3.1 of RFC 9420, as far as it concerns the shape of the tree). */
module TreeInvariant {
  import opened TreeMath
  import opened Crypto
  import opened RatchetTree

  lemma OccLeafInTree(t: Tree, l: LeafIndex)
    requires Shape(t)
    ensures OccLeaf(t, l) ==> l < t.size
    ensures Occ(t, LeafNodeIndex(l)) ==> OccLeaf(t, l)
    ensures l < t.size ==> InTree(LeafNodeIndex(l), t.size) && LeafNodeIndex(l) in t.nodes
  {
    hide Lo, Hi, Level, Covers;
    if Occ(t, LeafNodeIndex(l)) {
      assert InTree(LeafNodeIndex(l), t.size);
    }
  }

  // --------------------------------------------------------------------------
  // Adding
  // --------------------------------------------------------------------------

  lemma GrowWF(t: Tree)
    requires WF(t)
    ensures WF(Grow(t))
    ensures forall x :: Occ(Grow(t), x) <==> Occ(t, x)
    ensures forall x :: Occ(t, x) ==> Grow(t).nodes[x] == t.nodes[x]
    ensures t.size < Grow(t).size
  {
    hide Lo, Hi, Width, Level, Left, Right, Parent, UnmergedOk, Populated;
    var g := Grow(t);
    assert forall x :: x in t.nodes ==> InTree(x, g.size);
    assert Shape(g);
    SameNodesWF(t, g);
  }

  /** A tree with the same nodes is as sound. */
  lemma SameNodesWF(t: Tree, u: Tree)
    requires WF(t) && Shape(u) && forall x :: NodeAt(u, x) == NodeAt(t, x)
    ensures WF(u)
  {
    hide Lo, Hi, Width, Level, Left, Right, Parent, Shape, MergedUnder;
    SameOccupied(t, u);
    hide OccParent, OccLeaf, Unmerged;
  }

  /** `Occupied` and the unmerged lists depend only on which nodes are there. */
  lemma SameOccupied(t: Tree, u: Tree)
    requires forall x :: NodeAt(u, x) == NodeAt(t, x)
    ensures forall x :: Occupied(t, x) ==> Occupied(u, x)
    ensures forall p, x :: MergedUnder(t, p, x) ==> MergedUnder(u, p, x)
    ensures forall x :: OccParent(t, x) <==> OccParent(u, x)
    ensures forall x :: Unmerged(t, x) == Unmerged(u, x)
    ensures forall l :: OccLeaf(t, l) <==> OccLeaf(u, l)
  {
    hide Lo, Hi;
    assert forall x :: Occ(t, x) <==> NodeAt(t, x).Some?;
    assert forall x :: Occ(u, x) <==> NodeAt(u, x).Some?;
    forall x | Occupied(t, x) ensures Occupied(u, x) {
      var l :| Covers(x, l) && OccLeaf(t, l);
      assert OccLeaf(u, l);
    }
    assert forall x :: Unmerged(t, x) == Unmerged(u, x);
    forall p, x | MergedUnder(t, p, x) ensures MergedUnder(u, p, x) { MergedKept(t, u, p, x); }
  }

  lemma {:induction false} InsertAscending(s: seq<nat>, v: nat)
    requires Ascending(s) && v !in s
    ensures Ascending(InsertSorted(s, v))
  {
    if s != [] && s[0] <= v {
      assert forall i, j :: 0 <= i < j < |s[1..]| ==> s[1..][i] < s[1..][j] by {
        assert forall i :: 0 <= i < |s[1..]| ==> s[1..][i] == s[i + 1];
      }
      InsertAscending(s[1..], v);
      var r := InsertSorted(s[1..], v);
      forall k | 0 <= k < |r| ensures s[0] < r[k] {
        assert r[k] in r;
        if r[k] != v {
          var m :| 0 <= m < |s[1..]| && s[1..][m] == r[k];
          assert s[0] < s[m + 1];
        }
      }
    } else if s != [] {
      assert forall k :: 0 < k < |s| ==> s[0] < s[k];
    }
  }

  lemma PlaceLeafNodes(t: Tree, i: LeafIndex, leaf: LeafNode)
    requires WF(t) && i < t.size && !OccLeaf(t, i)
    ensures var t' := PlaceLeaf(t, i, leaf);
      && (forall l :: OccLeaf(t', l) <==> l == i || OccLeaf(t, l))
      && OccLeaf(t', i) && LeafAt(t', i) == leaf
      && (forall p :: OccParent(t', p) <==> OccParent(t, p))
      && (forall p :: OccParent(t, p) ==>
            (Unmerged(t', p) == if Covers(p, i) then InsertSorted(Unmerged(t, p), i) else Unmerged(t, p)))
  {
    hide Lo, Hi, Width, Level, Left, Right, InsertSorted, IsPow2;
    OccLeafInTree(t, i);
    var t' := PlaceLeaf(t, i, leaf);
    forall l ensures OccLeaf(t', l) <==> l == i || OccLeaf(t, l) {
      OccLeafInTree(t, l);
    }
    forall p ensures OccParent(t', p) <==> OccParent(t, p) {
    }
  }

  lemma PlaceLeafWF(t: Tree, i: LeafIndex, leaf: LeafNode)
    requires WF(t) && i < t.size && !OccLeaf(t, i)
    ensures WF(PlaceLeaf(t, i, leaf))
  {
    hide Lo, Hi, Width, Level, Left, Right, InsertSorted, IsPow2;
    var t' := PlaceLeaf(t, i, leaf);
    PlaceLeafNodes(t, i, leaf);
    assert Shape(t');
    forall p | OccParent(t', p)
      ensures Ascending(Unmerged(t', p))
      ensures forall u :: u in Unmerged(t', p) ==> Covers(p, u) && OccLeaf(t', u)
      ensures forall u, q :: u in Unmerged(t', p) && OccParent(t', q) && Covers(q, u) && Within(q, p) ==>
                u in Unmerged(t', q)
      ensures MergedUnder(t', p, Left(p)) && MergedUnder(t', p, Right(p))
    {
      assert OccParent(t, p);
      assert i !in Unmerged(t, p);
      InsertAscending(Unmerged(t, p), i);
      MergedKept(t, t', p, Left(p));
      MergedKept(t, t', p, Right(p));
    }
  }

  lemma OccupiedKept(t: Tree, u: Tree, x: NodeIndex)
    requires Occupied(t, x)
    requires forall l :: Covers(x, l) && OccLeaf(t, l) ==> OccLeaf(u, l)
    ensures Occupied(u, x)
  {
    hide Lo, Hi;
    var l :| Covers(x, l) && OccLeaf(t, l);
    assert OccLeaf(u, l);
  }

  lemma MergedKept(t: Tree, u: Tree, p: NodeIndex, x: NodeIndex)
    requires MergedUnder(t, p, x)
    requires forall l :: Covers(x, l) && OccLeaf(t, l) && l !in Unmerged(t, p) ==> OccLeaf(u, l) && l !in Unmerged(u, p)
    ensures MergedUnder(u, p, x)
  {
    hide Lo, Hi;
    var l :| Covers(x, l) && OccLeaf(t, l) && l !in Unmerged(t, p);
    assert OccLeaf(u, l);
  }

  lemma AddLeafWF(t: Tree, leaf: LeafNode)
    requires WF(t)
    ensures var r := AddLeaf(t, leaf); r.Ok? ==>
      && WF(r.value.0) && r.value.1 < r.value.0.size
      && !OccLeaf(t, r.value.1) && OccLeaf(r.value.0, r.value.1)
  {
    hide Lo, Hi, Width, Level, IsPow2;
    var (t', i) := AllocateLeaf(t);
    GrowWF(t);
    OccLeafInTree(t, i);
    assert !OccLeaf(t', i);
    PlaceLeafWF(t', i, leaf);
    PlaceLeafNodes(t', i, leaf);
  }

  // --------------------------------------------------------------------------
  // Blanking and replacing
  // --------------------------------------------------------------------------

  lemma BlankedNodes(t: Tree, i: LeafIndex)
    requires WF(t)
    ensures var t' := Blanked(t, i);
      && (forall x :: Occ(t', x) <==> Occ(t, x) && !Covers(x, i))
      && (forall x :: Occ(t', x) ==> t'.nodes[x] == t.nodes[x])
      && (forall l :: OccLeaf(t', l) <==> OccLeaf(t, l) && l != i)
      && (forall p :: OccParent(t', p) <==> OccParent(t, p) && !Covers(p, i))
      && (forall p :: OccParent(t', p) ==> Unmerged(t', p) == Unmerged(t, p))
  {
    hide Lo, Hi, Width, Level, IsPow2;
  }

  lemma BlankedWF(t: Tree, i: LeafIndex)
    requires WF(t)
    ensures WF(Blanked(t, i))
  {
    hide Lo, Hi, Width, Level, Left, Right, IsPow2;
    var t' := Blanked(t, i);
    BlankedNodes(t, i);
    forall p | OccParent(t', p)
      ensures forall u :: u in Unmerged(t', p) ==> Covers(p, u) && OccLeaf(t', u)
      ensures MergedUnder(t', p, Left(p)) && MergedUnder(t', p, Right(p))
    {
      ChildWithin(p);
      MergedKept(t, t', p, Left(p));
      MergedKept(t, t', p, Right(p));
    }
  }

  lemma ChildWithin(p: NodeIndex)
    ensures Within(Left(p), p) && Within(Right(p), p)
    ensures forall l :: Covers(Left(p), l) || Covers(Right(p), l) <==> Covers(p, l)
  {
    hide Lo, Hi, Width, Level, Left, Right;
  }

  lemma SetLeafNodes(t: Tree, i: LeafIndex, leaf: LeafNode)
    requires WF(t) && i < t.size
    requires forall p :: OccParent(t, p) ==> !Covers(p, i)
    ensures var t' := SetLeaf(t, i, leaf);
      && Shape(t')
      && (forall x :: x != LeafNodeIndex(i) ==> NodeAt(t', x) == NodeAt(t, x))
      && (forall l :: OccLeaf(t', l) <==> OccLeaf(t, l) || l == i)
      && OccLeaf(t', i) && LeafAt(t', i) == leaf
      && (forall p :: OccParent(t', p) <==> OccParent(t, p))
      && (forall p :: Unmerged(t', p) == Unmerged(t, p))
  {
    hide Lo, Hi, Width, Level, Left, Right, IsPow2;
    OccLeafInTree(t, i);
  }

  lemma SetLeafWF(t: Tree, i: LeafIndex, leaf: LeafNode)
    requires WF(t) && i < t.size
    requires forall p :: OccParent(t, p) ==> !Covers(p, i)
    ensures WF(SetLeaf(t, i, leaf))
  {
    hide Lo, Hi, Width, Level, Left, Right, IsPow2, SetLeaf;
    var t' := SetLeaf(t, i, leaf);
    SetLeafNodes(t, i, leaf);
    forall p | OccParent(t', p) ensures MergedUnder(t', p, Left(p)) && MergedUnder(t', p, Right(p)) {
      MergedKept(t, t', p, Left(p));
      MergedKept(t, t', p, Right(p));
    }
  }

  lemma UpdateLeafWF(t: Tree, i: LeafIndex, leaf: LeafNode)
    requires WF(t)
    ensures var r := UpdateLeaf(t, i, leaf); r.Ok? ==>
      && WF(r.value) && r.value.size == t.size
      && (forall x :: Covers(x, i) && x != LeafNodeIndex(i) ==> !Occ(r.value, x))
      && (forall x :: !Covers(x, i) ==> NodeAt(r.value, x) == NodeAt(t, x))
      && OccLeaf(r.value, i) && LeafAt(r.value, i) == leaf
  {
    hide Lo, Hi, Width, Level, Left, Right, IsPow2;
    if UpdateLeaf(t, i, leaf).Ok? {
      BlankedWF(t, i);
      BlankedNodes(t, i);
      SetLeafWF(Blanked(t, i), i, leaf);
      SetLeafNodes(Blanked(t, i), i, leaf);
    }
  }

  // --------------------------------------------------------------------------
  // Truncation
  // --------------------------------------------------------------------------

  lemma {:induction false} ShrunkSizeFacts(size: nat, last: LeafIndex)
    requires IsPow2(size) && last < size
    ensures var n := ShrunkSize(size, last);
      && IsPow2(n) && last < n <= size && (n == 1 || n / 2 <= last)
  {
    if size / 2 > last { ShrunkSizeFacts(size / 2, last); }
  }

  /** A node outside the shrunk tree covers a leaf number beyond the last occupied one on its right. */
  lemma BeyondEdge(x: NodeIndex, n: nat)
    requires IsPow2(n) && !InTree(x, n)
    ensures n <= Lo(Right(x))
  {
    hide Lo, Hi, Width, Level, Left, Right, IsPow2;
    RootFacts(n);
    InTreeIsSpan(x, n);
    Laminar(x, n - 1);
    Laminar(n - 1, x);
  }

  lemma TruncateFacts(t: Tree)
    requires WF(t) && SomeLeaf(t)
    ensures var t' := Truncate(t);
      && 0 < t'.size <= t.size && IsPow2(t'.size)
      && (forall l: nat :: OccLeaf(t, l) ==> l < t'.size)
      && (t'.size == 1 || (OccLeaf(t, LastOccupied(t, t.size - 1)) && t'.size / 2 <= LastOccupied(t, t.size - 1)))
      && (forall x :: x in t'.nodes <==> InTree(x, t'.size))
      && (forall x :: x in t'.nodes ==> x in t.nodes && t'.nodes[x] == t.nodes[x])
      && (forall x :: Occ(t, x) <==> Occ(t', x))
      && (forall x :: NodeAt(t', x) == NodeAt(t, x))
  {
    hide Lo, Hi, Width, Level, Left, Right, IsPow2;
    var l0 :| OccLeaf(t, l0);
    OccLeafInTree(t, l0);
    var last := LastOccupied(t, t.size - 1);
    ShrunkSizeFacts(t.size, last);
    var t' := Truncate(t);
    forall l | OccLeaf(t, l) ensures l <= last { OccLeafInTree(t, l); }
    forall x: nat | Occ(t, x) ensures InTree(x, t'.size) {
      if IsLeaf(x) {
        assert x == LeafNodeIndex(x / 2);
        OccLeafInTree(t, x / 2);
      } else {
        assert OccParent(t, x);
        var l :| Covers(Right(x), l) && OccLeaf(t, l);
        if !InTree(x, t'.size) { BeyondEdge(x, t'.size); }
      }
    }
    assert t'.nodes == TruncatedTo(t, t'.size).nodes;
    assert forall x :: Occ(t, x) <==> NodeAt(t, x).Some?;
    assert forall x :: Occ(t', x) <==> NodeAt(t', x).Some?;
  }

  lemma TruncateWF(t: Tree)
    requires WF(t)
    ensures WF(Truncate(t)) <==> SomeLeaf(t) || t.size == 0
  {
    hide Lo, Hi, Width, Level, Left, Right, IsPow2;
    if SomeLeaf(t) {
      TruncateFacts(t);
      SameOccupied(t, Truncate(t));
      assert Shape(Truncate(t));
    } else if t.size > 0 {
      assert 0 !in Truncate(t).nodes && InTree(0, t.size);
    }
  }
}
