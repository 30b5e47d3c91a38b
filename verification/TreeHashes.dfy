/** With a collision-free hash the tree hash of the root determines the whole tree. */
module TreeHashes {
  import opened TreeMath
  import opened Crypto
  import opened RatchetTree
  import opened TreePaths

  lemma {:induction false} HashDetermines(s: Suite, t: Tree, u: Tree, x: NodeIndex, y: NodeIndex)
    requires TreeHashInjective(s) && Shape(t) && Shape(u)
    requires TreeHash(s, t, x) == TreeHash(s, u, y)
    ensures x == y && AgreeBelow(t, u, x)
    decreases Level(x)
  {
    hide Lo, Hi, Width, Level, Left, Right, IsPow2;
    if IsLeaf(x) {
      assert IsLeaf(y) && x == y;
      LeafNodeDetermined(t, u, x);
      forall z | Within(z, x) ensures NodeAt(t, z) == NodeAt(u, z) {
        Laminar(z, x);
        assert z == x by { NodeFromInterval(z, x); }
      }
    } else {
      assert !IsLeaf(y);
      HashDetermines(s, t, u, Left(x), Left(y));
      HashDetermines(s, t, u, Right(x), Right(y));
      assert x == y by {
        assert x + 1 == 2 * Hi(Left(x)) && y + 1 == 2 * Hi(Left(y));
      }
      ParentNodeDetermined(t, u, x);
      forall z | Within(z, x) ensures NodeAt(t, z) == NodeAt(u, z) {
        InsideOneChild(z, x);
      }
    }
  }

  lemma LeafNodeDetermined(t: Tree, u: Tree, x: NodeIndex)
    requires Shape(t) && Shape(u) && IsLeaf(x) && LeafOf(NodeAt(t, x)) == LeafOf(NodeAt(u, x))
    ensures NodeAt(t, x) == NodeAt(u, x)
  {
    hide Lo, Hi;
    assert Occ(t, x) ==> t.nodes[x].value.LeafN?;
    assert Occ(u, x) ==> u.nodes[x].value.LeafN?;
  }

  lemma ParentNodeDetermined(t: Tree, u: Tree, x: NodeIndex)
    requires Shape(t) && Shape(u) && !IsLeaf(x) && ParentOf(NodeAt(t, x)) == ParentOf(NodeAt(u, x))
    ensures NodeAt(t, x) == NodeAt(u, x)
  {
    hide Lo, Hi;
    assert Occ(t, x) ==> t.nodes[x].value.ParentN?;
    assert Occ(u, x) ==> u.nodes[x].value.ParentN?;
  }

  ghost function RootHash(s: Suite, t: Tree): Bytes
    requires t.size > 0
  {
    TreeHash(s, t, t.size - 1)
  }

  lemma RootHashDetermines(s: Suite, t: Tree, u: Tree)
    requires TreeHashInjective(s) && Shape(t) && Shape(u) && t.size > 0 && u.size > 0
    ensures RootHash(s, t) == RootHash(s, u) <==> t == u
  {
    hide Lo, Hi, Width, Level, TreeHash, IsPow2;
    if RootHash(s, t) == RootHash(s, u) {
      HashDetermines(s, t, u, t.size - 1, u.size - 1);
      forall x | InTree(x, t.size) ensures t.nodes[x] == u.nodes[x] {
        InTreeIsSpan(x, t.size);
        assert NodeAt(t, x) == NodeAt(u, x);
      }
      assert t.nodes == u.nodes;
    }
  }
}
