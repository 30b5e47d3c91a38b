/** `TreeKEMPublicKey`: the tree that is changed in place, with its cache of tree hashes. */
module PublicTree {
  import opened Wrappers
  import opened TreeMath
  import opened Bits
  import opened Crypto
  import opened RatchetTree
  import opened TreeInvariant
  import opened TreePaths
  import opened ParentHashes
  import opened OriginalHashes

  type HashCache = map<NodeIndex, Bytes>

  /** Cached hashes belong to nodes of the tree and are current, and the children of a cached node
      are cached as well. */
  ghost predicate Coherent(s: Suite, t: Tree, h: HashCache) {
    forall x :: x in h ==>
      && InTree(x, t.size)
      && h[x] == TreeHash(s, t, x)
      && Left(x) in h && Right(x) in h
  }

  ghost predicate Complete(t: Tree, h: HashCache) { forall x :: InTree(x, t.size) ==> x in h }

  /** A cache stays coherent when it keeps only nodes whose subtree did not change. */
  lemma CoherentKept(s: Suite, t: Tree, u: Tree, h: HashCache, h': HashCache)
    requires Coherent(s, t, h)
    requires forall x :: x in h' ==>
      && x in h && h'[x] == h[x] && AgreeBelow(t, u, x) && InTree(x, u.size)
      && Left(x) in h' && Right(x) in h'
    ensures Coherent(s, u, h')
  {
    hide Lo, Hi, Width, Level, Left, Right, TreeHash, AgreeBelow;
    forall x | x in h' ensures h'[x] == TreeHash(s, u, x) {
      TreeHashLocal(s, t, u, x);
    }
  }

  ghost function Cleared(h: HashCache, i: LeafIndex): HashCache {
    map x | x in h && !Covers(x, i) :: h[x]
  }

  /** Clearing the path of a leaf makes the cache fit a tree that differs on that path only. */
  lemma ClearedCoherent(s: Suite, t: Tree, u: Tree, h: HashCache, i: LeafIndex)
    requires Coherent(s, t, h) && t.size <= u.size
    requires forall x :: !Covers(x, i) ==> NodeAt(t, x) == NodeAt(u, x)
    ensures Coherent(s, u, Cleared(h, i))
  {
    hide Lo, Hi, Width, Level, Left, Right, TreeHash;
    var h' := Cleared(h, i);
    forall x | x in h' ensures AgreeBelow(t, u, x) && Left(x) in h' && Right(x) in h' {
      ChildWithin(x);
    }
    CoherentKept(s, t, u, h, h');
  }

  /** A cached root means that every node is cached. */
  lemma {:induction false} RootCachedAll(s: Suite, t: Tree, h: HashCache, x: NodeIndex)
    requires Coherent(s, t, h) && IsPow2(t.size) && t.size - 1 in h && InTree(x, t.size)
    ensures x in h
    decreases t.size - Width(x)
  {
    hide Lo, Hi, Width, Level, Left, Right, Parent, TreeHash, IsPow2;
    TreeClosed(x, t.size);
    if x != t.size - 1 {
      RootCachedAll(s, t, h, Parent(x));
      assert x == Left(Parent(x)) || x == Right(Parent(x));
    }
  }

  lemma CoherentInTree(s: Suite, t: Tree, h: HashCache)
    requires Coherent(s, t, h)
    ensures forall x :: x in h ==> InTree(x, t.size)
  {
  }

  lemma CoherentInsert(s: Suite, t: Tree, h: HashCache, x: NodeIndex)
    requires Coherent(s, t, h) && InTree(x, t.size)
    requires IsLeaf(x) || (Left(x) in h && Right(x) in h)
    ensures Coherent(s, t, h[x := TreeHash(s, t, x)])
  {
    hide Lo, Hi, Width, Level, Left, Right, TreeHash;
  }

  lemma RootCachedComplete(s: Suite, t: Tree, h: HashCache)
    requires Coherent(s, t, h) && IsPow2(t.size) && t.size - 1 in h
    ensures Complete(t, h)
  {
    hide Lo, Hi, Width, Level, Left, Right, TreeHash, IsPow2;
    forall x | InTree(x, t.size) ensures x in h { RootCachedAll(s, t, h, x); }
  }

  ghost function ClearedBeyond(h: HashCache, last: LeafIndex, size: nat): HashCache {
    map x | x in h && (forall l :: last < l < size ==> !Covers(x, l)) :: h[x]
  }

  lemma GrowCoherent(s: Suite, t: Tree, h: HashCache)
    requires WF(t) && Coherent(s, t, h)
    ensures WF(Grow(t)) && Coherent(s, Grow(t), h)
  {
    hide Lo, Hi, Width, Level, Left, Right, IsPow2, TreeHash;
    GrowWF(t);
    var u := Grow(t);
    assert forall y :: NodeAt(t, y) == NodeAt(u, y);
    forall x | x in h ensures AgreeBelow(t, u, x) && InTree(x, u.size) {
      assert InTree(x, t.size);
    }
    CoherentKept(s, t, u, h, h);
  }

  /** A leaf and its direct path are the nodes above the leaf. */
  lemma PathAboveLeaf(t: Tree, i: LeafIndex)
    requires Shape(t) && i < t.size
    ensures InTree(LeafNodeIndex(i), t.size)
    ensures forall y :: y in t.nodes ==>
      (y == LeafNodeIndex(i) || y in DirPath(LeafNodeIndex(i), t.size) <==> Covers(y, i))
  {
    hide Lo, Hi, Width, Level, Left, Right, Parent, IsPow2, DirPath;
    OccLeafInTree(t, i);
    var x := LeafNodeIndex(i);
    forall y | y in t.nodes ensures y == x || y in DirPath(x, t.size) <==> Covers(y, i) {
      DirPathIsAncestors(x, t.size, y);
      assert Within(x, y) <==> Covers(y, i);
    }
  }

  lemma LastStep(t: Tree, from: nat)
    ensures from == 0 || OccLeaf(t, from) ==> LastOccupied(t, from) == from
    ensures from > 0 && !OccLeaf(t, from) ==> LastOccupied(t, from) == LastOccupied(t, from - 1)
  {}

  lemma ClearBeyondNothing(h: HashCache, last: LeafIndex, size: nat)
    requires last == size - 1
    ensures ClearedBeyond(h, last, size) == h
  {
    hide Lo, Hi;
  }

  lemma ClearedInTree(h: HashCache, i: LeafIndex, size: nat)
    requires forall x :: x in h ==> InTree(x, size)
    ensures forall x :: x in Cleared(h, i) ==> InTree(x, size)
  {
    hide Lo, Hi, InTree;
  }

  lemma ClearBeyondStep(h: HashCache, index: LeafIndex, size: nat)
    requires 0 < index < size
    ensures Cleared(ClearedBeyond(h, index, size), index) == ClearedBeyond(h, index - 1, size)
  {
    hide Lo, Hi;
    forall x | x in h
      ensures (forall l :: index - 1 < l < size ==> !Covers(x, l)) <==>
        !Covers(x, index) && (forall l :: index < l < size ==> !Covers(x, l))
    {
      if !Covers(x, index) && (forall l :: index < l < size ==> !Covers(x, l)) {
        forall l | index - 1 < l < size ensures !Covers(x, l) {
          if l != index { assert index < l < size; }
        }
      }
    }
  }

  /** After the clearing no hash is left for a node that truncation removes. */
  lemma TruncatedCoherent(s: Suite, t: Tree, h: HashCache, last: LeafIndex)
    requires WF(t) && Coherent(s, t, h) && SomeLeaf(t) && t.size > 0 && last == LastOccupied(t, t.size - 1)
    ensures Coherent(s, Truncate(t), ClearedBeyond(h, last, t.size))
  {
    hide Lo, Hi, Width, Level, Left, Right, TreeHash, IsPow2, Truncate;
    TruncateFacts(t);
    var u := Truncate(t);
    var h' := ClearedBeyond(h, last, t.size);
    assert last < u.size by { TruncateKeepsLast(t); }
    forall x | x in h'
      ensures InTree(x, u.size) && AgreeBelow(t, u, x) && Left(x) in h' && Right(x) in h'
    {
      ChildWithin(x);
      InTreeIsSpan(x, t.size);
      var l := Lo(Right(x));
      assert Covers(x, l) && l < t.size;
      if !InTree(x, u.size) { BeyondEdge(x, u.size); }
      forall y | Within(y, x) ensures NodeAt(t, y) == NodeAt(u, y) {
        InTreeIsSpan(x, u.size);
        InTreeIsSpan(y, u.size);
      }
    }
    CoherentKept(s, t, u, h, h');
  }

  lemma TruncateKeepsLast(t: Tree)
    requires WF(t) && SomeLeaf(t) && t.size > 0
    ensures LastOccupied(t, t.size - 1) < Truncate(t).size
  {
    hide Lo, Hi, Level, Left, Right;
    var l0 :| OccLeaf(t, l0);
    OccLeafInTree(t, l0);
    ShrunkSizeFacts(t.size, LastOccupied(t, t.size - 1));
  }

  /** The subtrees hashed along a path are cached. */
  ghost predicate OffPathCached(h: HashCache, from: LeafIndex, f: seq<NodeIndex>, start: nat := 0) {
    forall i :: start <= i < |f| ==> OffPath(Before(LeafNodeIndex(from), f, i), f[i]) in h
  }

  lemma OffPathCachedStep(h: HashCache, from: LeafIndex, f: seq<NodeIndex>, i: nat)
    requires i < |f|
    ensures OffPathCached(h, from, f, i) <==>
      OffPath(Before(LeafNodeIndex(from), f, i), f[i]) in h && OffPathCached(h, from, f, i + 1)
    ensures OffPathCached(h, from, f, |f|)
    ensures OffPathCached(h, from, f) ==> OffPathCached(h, from, f, i)
  {
    hide OffPath, Before;
  }

  lemma ParentHashStep(s: Suite, t: Tree, from: LeafIndex, ns: seq<UpdatePathNode>, h: HashCache, i: nat)
    requires WF(t) && from < t.size && Coherent(s, t, h)
    requires |FilteredPath(t, LeafNodeIndex(from))| == |ns| && i < |ns|
    ensures var x0 := LeafNodeIndex(from);
      var f := Nodes(FilteredPath(t, x0));
      var hs := PathHashes(s, t, x0, f, ns);
      var o := OffPath(Before(x0, f, i), f[i]);
      && SiblingUnder(Before(x0, f, i), f[i]) == Ok(o)
      && (o in h ==>
            HashParent(s, ParentHashInput(ns[i].publicKey, if i + 1 == |f| then [] else hs[i + 1], h[o])) == hs[i])
  {
    hide Lo, Hi, Width, Level, Left, Right, IsPow2, FilteredPath, Resolve, PathHashes, TreeHash;
    OccLeafInTree(t, from);
    var x0 := LeafNodeIndex(from);
    var fp := FilteredPath(t, x0);
    FilteredPathFacts(t, x0);
    OffPathApart(t, from, fp, i);
    PathHashAt(s, t, x0, Nodes(fp), ns, i);
  }

  lemma CompleteOffPathHere(t: Tree, from: LeafIndex, h: HashCache)
    requires WF(t) && from < t.size && forall x :: InTree(x, t.size) && !Covers(x, from) ==> x in h
    ensures OffPathCached(h, from, Nodes(FilteredPath(t, LeafNodeIndex(from))))
  {
    hide Lo, Hi, Width, Level, Left, Right, IsPow2, FilteredPath, Resolve;
    OccLeafInTree(t, from);
    var x0 := LeafNodeIndex(from);
    var fp := FilteredPath(t, x0);
    FilteredPathFacts(t, x0);
    var f := Nodes(fp);
    forall i | 0 <= i < |f| ensures OffPath(Before(x0, f, i), f[i]) in h {
      OffPathApart(t, from, fp, i);
      TreeClosed(f[i], t.size);
      var o := OffPath(Before(x0, f, i), f[i]);
      assert Within(o, o);
    }
  }

  lemma CompleteOffPath(t: Tree, from: LeafIndex, h: HashCache, h1: HashCache, t1: Tree)
    requires WF(t1) && Complete(t, h) && h1 == Cleared(h, from) && t1.size == t.size && from < t.size
    ensures OffPathCached(h1, from, Nodes(FilteredPath(t1, LeafNodeIndex(from))))
  {
    hide Lo, Hi, FilteredPath, OffPath;
    CompleteOffPathHere(t1, from, h1);
  }

  lemma MergedCoherent(s: Suite, t: Tree, from: LeafIndex, path: UpdatePath, h1: HashCache)
    requires WF(t) && Merge(s, t, from, path).Ok?
    requires Coherent(s, UpdateLeaf(t, from, path.leaf).value, h1)
    requires forall x :: x in h1 ==> !Covers(x, from)
    ensures Coherent(s, Merge(s, t, from, path).value, h1)
  {
    hide Lo, Hi, Width, Level, Left, Right, IsPow2, FilteredPath, UpdateLeaf, Merge, TreeHash, PathHashes;
    MergeNodes(s, t, from, path);
    UpdateLeafWF(t, from, path.leaf);
    var t1, t' := UpdateLeaf(t, from, path.leaf).value, Merge(s, t, from, path).value;
    assert forall x :: x in h1 ==> AgreeBelow(t1, t', x);
    CoherentKept(s, t1, t', h1, h1);
  }

  lemma PathNodeIs(ns: seq<UpdatePathNode>, ph: seq<Bytes>, i: nat)
    requires i < |ns| == |ph|
    ensures PathNode(ns, ph, i) ==
      Some(ParentN(ParentNode(ns[i].publicKey, if i + 1 < |ph| then ph[i + 1] else [], [])))
  {
  }

  lemma MemoEntry(s: Suite, t: Tree, n: nat, h: Bytes, x: NodeIndex, p: NodeIndex)
    requires OccParent(t, p) && Within(x, p) && n == |Cut(Unmerged(t, p), x)|
    requires h == TreeHash(s, Without(t, ToSet(Unmerged(t, p))), x)
    ensures IsMemoOf(s, t, (n, h), x, p)
  {
  }

  lemma EmptyCacheOk(s: Suite, t: Tree)
    ensures CacheOk(s, t, map[])
  {
  }

  /** Index and spacing of the nodes of one level. */
  lemma LevelStart(level: nat)
    requires level >= 1
    ensures Shl(2, level) == 2 * Pow2(level)
    ensures Shr(Shl(2, level), 1) == Pow2(level) && Pow2(level) >= 1
    ensures Level(Pow2(level) - 1) == level
    ensures forall q :: Level(q) == level ==> Pow2(level) - 1 <= q
  {
    ShlIsProduct(2, level);
    OnesBlock(level);
    assert Shr(2 * Pow2(level), 1) == Shr(Pow2(level), 0);
    forall q | Level(q) == level ensures Pow2(level) - 1 <= q { LevelSpacing(q, q); }
  }

  /** One step up the copath and the filtered path at the same time. */
  lemma PathStep(t: Tree, at: NodeIndex)
    requires IsPow2(t.size) && InTree(at, t.size)
    ensures var cp := Copath(at, t.size);
      && (cp == [] ==> FilteredPath(t, at) == [])
      && (cp != [] ==>
            && InTree(Parent(at), t.size) && cp[1..] == Copath(Parent(at), t.size)
            && Parent(cp[0]) == Parent(at)
            && FilteredPath(t, at) ==
                 (if Resolve(t, cp[0]) == [] then [] else [PathEntry(Parent(at), Resolve(t, cp[0]))])
                 + FilteredPath(t, Parent(at)))
  {
    hide Lo, Hi, Width, Level, Left, Right, Parent, Sibling, IsPow2, Resolve;
    TreeClosed(at, t.size);
    ParentOfChild(Parent(at));
  }

  class TreeKEMPublicKey {
    const suite: Suite
    var size: nat
    var nodes: map<NodeIndex, Option<Node>>
    var hashes: HashCache

    /** The abstract value. */
    ghost function T(): Tree
      reads this
    {
      Tree(size, nodes)
    }

    ghost predicate Valid()
      reads this
    {
      WF(T()) && Coherent(suite, T(), hashes)
    }

    constructor (s: Suite)
      ensures Valid() && T() == EmptyTree && suite == s
    {
      suite := s;
      size := 0;
      nodes := map[];
      hashes := map[];
    }

    // ------------------------------------------------------------------------
    // Queries
    // ------------------------------------------------------------------------

    /** `exists_in_tree` for encryption keys (`any_leaf` scans all leaves). */
    method EncryptionKeyExists(key: PublicKey) returns (found: bool)
      requires Valid()
      ensures found <==> EncryptionKeyUsed(T(), key)
    {
      hide Lo, Hi, IsPow2, Coherent;
      found := false;
      for i := 0 to size
        invariant !found
        invariant forall l :: 0 <= l < i && OccLeaf(T(), l) ==> LeafAt(T(), l).encryptionKey != key
      {
        OccLeafInTree(T(), i);
        var n := nodes[LeafNodeIndex(i)];
        if n.Some? {
          if n.value.leaf.encryptionKey == key {
            return true;
          }
        }
      }
      forall l: nat | OccLeaf(T(), l) ensures l < size { OccLeafInTree(T(), l); }
    }

    method SignatureKeyExists(key: Bytes, except: Option<LeafIndex>) returns (found: bool)
      requires Valid()
      ensures found <==> SignatureKeyUsed(T(), key, except)
    {
      hide Lo, Hi, IsPow2, Coherent;
      found := false;
      for i: nat := 0 to size
        invariant !found
        invariant forall l: nat :: l < i && OccLeaf(T(), l) && Some(l) != except ==> LeafAt(T(), l).signatureKey != key
      {
        OccLeafInTree(T(), i);
        var n := nodes[LeafNodeIndex(i)];
        if n.Some? {
          if Some(i) != except && n.value.leaf.signatureKey == key {
            return true;
          }
        }
      }
      forall l: nat | OccLeaf(T(), l) ensures l < size { OccLeafInTree(T(), l); }
    }

    /** `filtered_direct_path` */
    method ComputeFilteredPath(x: NodeIndex) returns (r: Result<seq<PathEntry>>)
      requires Valid()
      ensures r.Ok? <==> InTree(x, size)
      ensures r.Err? ==> r.error == InvalidParameter
      ensures r.Ok? ==> r.value == FilteredPath(T(), x)
    {
      hide Lo, Hi, Width, Level, Left, Right, Parent, Sibling, IsPow2, Coherent, Resolve, FilteredPath, Copath,
        UnmergedOk, Populated;
      var cp :- ComputeCopath(x, size);
      var fdp := [];
      ghost var at := x;
      for i := 0 to |cp|
        invariant InTree(at, size) && Copath(at, size) == cp[i..]
        invariant FilteredPath(T(), x) == fdp + FilteredPath(T(), at)
      {
        PathStep(T(), at);
        assert cp[i..][0] == cp[i] && cp[i..][1..] == cp[i + 1..];
        var p := Parent(cp[i]);
        var res := Resolve(Tree(size, nodes), cp[i]);
        if res != [] {
          fdp := fdp + [PathEntry(p, res)];
        }
        at := Parent(at);
      }
      PathStep(T(), at);
      return Ok(fdp);
    }

    // ------------------------------------------------------------------------
    // Hashes
    // ------------------------------------------------------------------------

    method ClearHashPath(i: LeafIndex)
      requires (size == 0 || IsPow2(size)) && i < size
      requires forall x :: x in hashes ==> InTree(x, size)
      modifies this`hashes
      ensures hashes == Cleared(old(hashes), i)
    {
      hide Lo, Hi, Width, Level, Left, Right, Parent, IsPow2;
      var x := LeafNodeIndex(i);
      var dp := ComputeDirPath(x, size);
      hashes := hashes - {x};
      for k := 0 to |dp.value|
        invariant hashes == map y | y in old(hashes) && y != x && y !in dp.value[..k] :: old(hashes)[y]
      {
        hashes := hashes - {dp.value[k]};
      }
      assert dp.value[..|dp.value|] == dp.value;
      forall y | y in old(hashes) ensures y in dp.value || y == x <==> Covers(y, i) {
        DirPathIsAncestors(x, size, y);
        if Covers(y, i) && y != x { assert Within(x, y); }
      }
    }

    /** `get_hash`: returns the cached hash or computes and caches it. */
    method GetHash(index: NodeIndex) returns (r: Result<Bytes>)
      requires Valid()
      modifies this`hashes
      ensures Valid()
      ensures r.Ok? <==> InTree(index, size)
      ensures r.Ok? ==> r.value == TreeHash(suite, T(), index) && index in hashes
      ensures forall x :: x in old(hashes) ==> x in hashes
      decreases Level(index)
    {
      hide Lo, Hi, Width, Level, Left, Right, IsPow2, UnmergedOk, Populated;
      if index in hashes { return Ok(hashes[index]); }
      if index !in nodes { return Err(OutOfRange); }
      var n := nodes[index];
      var input;
      TreeClosed(index, size);
      if IsLeaf(index) {
        input := LeafInput(index / 2, LeafOf(n));
      } else {
        var l := GetHash(Left(index));
        var rt := GetHash(Right(index));
        input := ParentInput(ParentOf(n), l.value, rt.value);
      }
      var hash := HashTree(suite, input);
      assert hash == TreeHash(suite, T(), index);
      CoherentInsert(suite, T(), hashes, index);
      hashes := hashes[index := hash];
      return Ok(hash);
    }

    /** `set_hash_all`: after it the cache has every node. */
    method SetHashAll() returns (r: Result<()>)
      requires Valid()
      modifies this`hashes
      ensures Valid()
      ensures r.Ok? <==> size > 0
      ensures r.Ok? ==> Complete(T(), hashes)
    {
      hide Lo, Hi, Width, Level, Left, Right, TreeHash;
      var root :- Root(size);
      RootFacts(size);
      var h := GetHash(root);
      RootCachedComplete(suite, T(), hashes);
      return Ok(());
    }

    // ------------------------------------------------------------------------
    // Changing the tree
    // ------------------------------------------------------------------------

    /** `allocate_leaf`: the leftmost blank leaf, doubling the tree when there is none. */
    method AllocateLeafInPlace() returns (index: LeafIndex)
      requires Valid()
      modifies this`size, this`nodes
      ensures Valid()
      ensures (T(), index) == AllocateLeaf(old(T()))
    {
      hide Lo, Hi, Width, Level, Left, Right, IsPow2, TreeHash;
      index := 0;
      OccLeafInTree(T(), 0);
      while index < size && nodes[LeafNodeIndex(index)].Some?
        invariant index <= size
        invariant T() == old(T())
        invariant index < size ==> LeafNodeIndex(index) in nodes
        invariant FirstBlank(T(), index) == FirstBlank(T(), 0)
      {
        OccLeafInTree(T(), index);
        index := index + 1;
        OccLeafInTree(T(), index);
      }
      if index < size { OccLeafInTree(T(), index); }
      if index >= size {
        GrowInPlace();
      }
    }

    /** A tree of twice the size with blank nodes on the right. */
    method GrowInPlace()
      requires Valid()
      modifies this`size, this`nodes
      ensures Valid() && T() == Grow(old(T()))
    {
      hide Lo, Hi, Width, Level, Left, Right, IsPow2, TreeHash;
      ghost var t := T();
      var prev := NodeCount(size);
      size := if size == 0 then 1 else 2 * size;
      var width := NodeCount(size);
      for i := prev to width
        invariant size == Grow(t).size && hashes == old(hashes)
        invariant nodes == map x | x < i :: if x in t.nodes then t.nodes[x] else None
      {
        nodes := nodes[i := None];
      }
      assert prev <= width;
      assert T() == Grow(t);
      GrowCoherent(suite, t, hashes);
    }

    /** The loop of `add_leaf`: the new leaf enters the list of every occupied ancestor. */
    method AddToUnmergedLists(i: LeafIndex)
      requires IsPow2(size) && i < size && forall x :: x in nodes <==> InTree(x, size)
      modifies this`nodes
      ensures nodes == map y | y in old(nodes) ::
        if Covers(y, i) && y != LeafNodeIndex(i) then WithUnmerged(old(nodes)[y], i) else old(nodes)[y]
    {
      hide Lo, Hi, Width, Level, Left, Right, Parent, IsPow2, InsertSorted;
      var x := LeafNodeIndex(i);
      var dp := ComputeDirPath(x, size);
      var d := dp.value;
      DirPathDistinct(x, size);
      for k := 0 to |d|
        invariant nodes == map y | y in old(nodes) ::
          if y in d[..k] then WithUnmerged(old(nodes)[y], i) else old(nodes)[y]
      {
        DirPathIsAncestors(x, size, d[k]);
        assert d[k] !in d[..k];
        nodes := nodes[d[k] := WithUnmerged(nodes[d[k]], i)];
        assert d[..k + 1] == d[..k] + [d[k]];
      }
      assert d[..|d|] == d;
      forall y | y in old(nodes) ensures y in d <==> Covers(y, i) && y != x {
        DirPathIsAncestors(x, size, y);
        assert Within(x, y) <==> Covers(y, i);
      }
    }

    /** `add_leaf` */
    method AddLeafInPlace(leaf: LeafNode) returns (r: Result<LeafIndex>)
      requires Valid()
      modifies this
      ensures Valid()
      ensures r.Ok? <==> AddLeaf(old(T()), leaf).Ok?
      ensures if r.Ok? then AddLeaf(old(T()), leaf) == Ok((T(), r.value))
              else AddLeaf(old(T()), leaf) == Err(r.error) && T() == old(T())
    {
      hide Lo, Hi, Width, Level, Left, Right, Parent, IsPow2, TreeHash, Coherent, UnmergedOk, Populated, InsertSorted;
      var dupEnc := EncryptionKeyExists(leaf.encryptionKey);
      if dupEnc { return Err(InvalidParameter); }
      var dupSig := SignatureKeyExists(leaf.signatureKey, None);
      if dupSig { return Err(InvalidParameter); }
      AddLeafWF(T(), leaf);
      var i := AllocateLeafInPlace();
      ghost var t := T();
      PlaceLeafWF(t, i, leaf);
      nodes := nodes[LeafNodeIndex(i) := Some(LeafN(leaf))];
      AddToUnmergedLists(i);
      assert nodes == PlaceLeaf(t, i, leaf).nodes;
      assert forall y :: !Covers(y, i) ==> NodeAt(t, y) == NodeAt(T(), y);
      ClearedCoherent(suite, t, T(), hashes, i);
      CoherentInTree(suite, t, hashes);
      ClearHashPath(i);
      return Ok(i);
    }

    /** The leaf and every node above it. */
    method BlankAncestors(i: LeafIndex)
      requires Shape(T()) && i < size
      modifies this`nodes
      ensures T() == Blanked(old(T()), i)
    {
      hide Lo, Hi, Width, Level, Left, Right, Parent, IsPow2;
      ghost var t := T();
      OccLeafInTree(t, i);
      var x := LeafNodeIndex(i);
      nodes := nodes[x := None];
      var dp := ComputeDirPath(x, size);
      var d := dp.value;
      for k := 0 to |d|
        invariant nodes.Keys == t.nodes.Keys
        invariant forall y :: y in t.nodes ==> nodes[y] == if y == x || y in d[..k] then None else t.nodes[y]
      {
        DirPathIsAncestors(x, size, d[k]);
        nodes := nodes[d[k] := None];
        assert d[..k + 1] == d[..k] + [d[k]];
      }
      assert d[..|d|] == d;
      PathAboveLeaf(t, i);
      assert nodes == Blanked(t, i).nodes;
    }

    /** `blank_path` */
    method BlankPathInPlace(i: LeafIndex) returns (r: Result<()>)
      requires Valid()
      modifies this`nodes, this`hashes
      ensures Valid()
      ensures if r.Ok? then BlankPath(old(T()), i) == Ok(T())
              else BlankPath(old(T()), i) == Err(r.error) && T() == old(T())
      ensures r.Ok? && i < size ==> hashes == Cleared(old(hashes), i)
    {
      hide Lo, Hi, Width, Level, Left, Right, Parent, IsPow2, TreeHash, Coherent;
      ghost var t := T();
      OccLeafInTree(t, i);
      if nodes == map[] { return Ok(()); }
      var x := LeafNodeIndex(i);
      if x !in nodes { return Err(OutOfRange); }
      BlankAncestors(i);
      BlankedWF(t, i);
      ClearedCoherent(suite, t, T(), hashes, i);
      CoherentInTree(suite, t, hashes);
      ClearHashPath(i);
      return Ok(());
    }

    /** `update_leaf` */
    method UpdateLeafInPlace(i: LeafIndex, leaf: LeafNode) returns (r: Result<()>)
      requires Valid()
      modifies this`nodes, this`hashes
      ensures Valid()
      ensures if r.Ok? then UpdateLeaf(old(T()), i, leaf) == Ok(T())
              else UpdateLeaf(old(T()), i, leaf) == Err(r.error) && T() == old(T())
      ensures r.Ok? ==> hashes == Cleared(old(hashes), i)
    {
      hide Lo, Hi, Width, Level, Left, Right, Parent, IsPow2, TreeHash, Coherent, UnmergedOk, Populated, InsertSorted;
      var dupEnc := EncryptionKeyExists(leaf.encryptionKey);
      if dupEnc { return Err(InvalidParameter); }
      var dupSig := SignatureKeyExists(leaf.signatureKey, Some(i));
      if dupSig { return Err(InvalidParameter); }
      ghost var t, h := T(), hashes;
      OccLeafInTree(t, i);
      var _ :- BlankPathInPlace(i);
      var x := LeafNodeIndex(i);
      if x !in nodes { return Err(OutOfRange); }
      assert i < size;
      nodes := nodes[x := Some(LeafN(leaf))];
      UpdateLeafWF(t, i, leaf);
      assert T() == UpdateLeaf(t, i, leaf).value;
      ClearedCoherent(suite, t, T(), h, i);
      CoherentInTree(suite, t, h);
      ClearHashPath(i);
      assert hashes == Cleared(h, i);
      return Ok(());
    }

    /** The first loop of `truncate`. */
    method ClearBlankEdge() returns (index: LeafIndex)
      requires Valid() && size > 0
      modifies this`hashes
      ensures index == LastOccupied(T(), size - 1)
      ensures hashes == ClearedBeyond(old(hashes), index, size)
    {
      hide Lo, Hi, Width, Level, Left, Right, Parent, IsPow2, TreeHash, Coherent, UnmergedOk, Populated,
        ClearedBeyond, LastOccupied, Covers, Cleared, InTree;
      ghost var h, t := hashes, T();
      index := size - 1;
      OccLeafInTree(t, index);
      CoherentInTree(suite, t, h);
      ClearBeyondNothing(h, index, size);
      LastStep(t, index);
      while index > 0 && nodes[LeafNodeIndex(index)].None?
        invariant index < size && LeafNodeIndex(index) in nodes
        invariant LastOccupied(t, index) == LastOccupied(t, size - 1)
        invariant index == 0 || nodes[LeafNodeIndex(index)].Some? ==> LastOccupied(t, index) == index
        invariant hashes == ClearedBeyond(h, index, size)
        invariant forall x :: x in hashes ==> InTree(x, size)
      {
        LastStep(t, index);
        LastStep(t, index - 1);
        OccLeafInTree(t, index - 1);
        ClearedInTree(hashes, index, size);
        ClearHashPath(index);
        ClearBeyondStep(h, index, size);
        index := index - 1;
      }
    }

    /** `truncate`: hashes over the blank leaves on the right are dropped, then the tree is halved as
        often as the last occupied leaf allows.  Without an occupied leaf the nodes are dropped but
        the size stays, which breaks the invariant. */
    method TruncateInPlace()
      requires Valid()
      modifies this
      ensures T() == Truncate(old(T()))
      ensures SomeLeaf(old(T())) || old(size) == 0 ==> Valid()
    {
      hide Lo, Hi, Width, Level, Left, Right, Parent, IsPow2, TreeHash, Coherent, UnmergedOk, Populated, ClearedBeyond;
      if size == 0 { return; }
      ghost var t, h := T(), hashes;
      var index := ClearBlankEdge();
      OccLeafInTree(t, index);
      if nodes[LeafNodeIndex(index)].None? {
        nodes := map[];
        assert !SomeLeaf(t) by {
          forall l: nat ensures !OccLeaf(t, l) { OccLeafInTree(t, l); }
        }
        return;
      }
      while size / 2 > index
        invariant index < size <= t.size && nodes == t.nodes && hashes == ClearedBeyond(h, index, t.size)
        invariant ShrunkSize(size, index) == ShrunkSize(t.size, index)
      {
        size := size / 2;
      }
      nodes := map x | x in nodes && x < NodeCount(size) :: nodes[x];
      assert T() == TruncatedTo(t, size);
      assert Truncate(t) == TruncatedTo(t, ShrunkSize(t.size, index));
      assert T() == Truncate(t);
      TruncateWF(t);
      TruncatedCoherent(suite, t, h, index);
    }

    /** `parent_hashes`, from the last entry of the path down to the leaf. */
    method ComputeParentHashes(from: LeafIndex, fdp: seq<PathEntry>, ns: seq<UpdatePathNode>)
      returns (r: Result<seq<Bytes>>)
      requires Valid() && from < size && fdp == FilteredPath(T(), LeafNodeIndex(from))
      ensures r.Ok? <==> fdp == [] || (|fdp| == |ns| && OffPathCached(hashes, from, Nodes(fdp)))
      ensures r.Ok? && fdp == [] ==> r.value == []
      ensures r.Ok? && fdp != [] ==> r.value == PathHashes(suite, T(), LeafNodeIndex(from), Nodes(fdp), ns)
      ensures r.Err? && fdp != [] && |fdp| != |ns| ==> r == Err(Protocol)
    {
      hide Lo, Hi, Width, Level, Left, Right, Parent, IsPow2, TreeHash, FilteredPath, PathHashes, Resolve, OffPath,
        OffPathCached, Within, UnmergedOk, Populated, Coherent;
      if fdp == [] { return Ok([]); }
      var x0 := LeafNodeIndex(from);
      var dp := [PathEntry(x0, [])] + fdp[..|fdp| - 1];
      if |dp| != |ns| { return Err(Protocol); }
      OccLeafInTree(T(), from);
      ghost var f := Nodes(fdp);
      ghost var hs := PathHashes(suite, T(), x0, f, ns);
      var last := fdp[|fdp| - 1].node;
      var lastHash := [];
      var ph := [];
      var i := |dp|;
      OffPathCachedStep(hashes, from, f, i - 1);
      while i > 0
        invariant 0 <= i <= |dp|
        invariant i > 0 ==> last == f[i - 1]
        invariant ph == hs[i..]
        invariant lastHash == if i == |dp| then [] else hs[i]
        invariant OffPathCached(hashes, from, f, i)
      {
        i := i - 1;
        var n := dp[i].node;
        assert n == Before(x0, f, i);
        ParentHashStep(suite, T(), from, ns, hashes, i);
        OffPathCachedStep(hashes, from, f, i);
        var s := SiblingUnder(n, last);
        if s.value !in hashes { return Err(InvalidParameter); }
        lastHash := HashParent(suite, ParentHashInput(ns[i].publicKey, lastHash, hashes[s.value]));
        assert lastHash == hs[i];
        ph := [lastHash] + ph;
        assert ph == hs[i..];
        last := n;
      }
      return Ok(ph);
    }

    /** The loop of `merge`: the entries of the path become occupied, with nothing unmerged. */
    method InstallPath(fdp: seq<PathEntry>, ns: seq<UpdatePathNode>, ph: seq<Bytes>)
      requires |fdp| == |ns| == |ph|
      requires var f := Nodes(fdp);
        && (forall i, j :: 0 <= i < j < |f| ==> f[i] != f[j])
        && (forall p :: p in f ==> p in nodes)
      modifies this`nodes
      ensures nodes == WithPath(old(nodes), Nodes(fdp), ns, ph)
    {
      hide WithPath, Nodes, PathNode;
      ghost var f := Nodes(fdp);
      for i := 0 to |fdp|
        invariant nodes.Keys == old(nodes).Keys
        invariant forall y :: y in old(nodes) && y !in f[..i] ==> nodes[y] == old(nodes)[y]
        invariant forall k :: 0 <= k < i ==> f[k] in nodes && nodes[f[k]] == PathNode(ns, ph, k)
      {
        var above := if i + 1 < |fdp| then ph[i + 1] else [];
        var n := fdp[i].node;
        assert n == f[i] && n in f;
        ghost var here := PathNode(ns, ph, i);
        assert here == Some(ParentN(ParentNode(ns[i].publicKey, above, []))) by { PathNodeIs(ns, ph, i); }
        nodes := nodes[n := Some(ParentN(ParentNode(ns[i].publicKey, above, [])))];
        assert f[..i + 1] == f[..i] + [n];
      }
      assert f[..|f|] == f;
      WithPathFacts(old(nodes), f, ns, ph);
      assert nodes == WithPath(old(nodes), f, ns, ph);
    }

    /** `merge` */
    method MergeInPlace(from: LeafIndex, path: UpdatePath) returns (r: Result<()>)
      requires Valid()
      modifies this
      ensures Valid()
      ensures r.Ok? ==> Merge(suite, old(T()), from, path) == Ok(T()) && Complete(T(), hashes)
      ensures Complete(old(T()), old(hashes)) ==> (r.Ok? <==> Merge(suite, old(T()), from, path).Ok?)
      ensures r.Err? && Merge(suite, old(T()), from, path).Err? ==> Merge(suite, old(T()), from, path) == Err(r.error)
      ensures r.Err? ==> T() == old(T()) || Ok(T()) == UpdateLeaf(old(T()), from, path.leaf)
    {
      hide Lo, Hi, Width, Level, Left, Right, Parent, IsPow2, TreeHash, FilteredPath, PathHashes, Resolve, UpdateLeaf,
        Coherent;
      ghost var t, h := T(), hashes;
      var _ :- UpdateLeafInPlace(from, path.leaf);
      ghost var t1, h1 := T(), hashes;
      UpdateLeafWF(t, from, path.leaf);
      OccLeafInTree(t1, from);
      var x0 := LeafNodeIndex(from);
      var fdp := ComputeFilteredPath(x0);
      if |fdp.value| != |path.nodes| { return Err(Protocol); }
      ghost var f := Nodes(fdp.value);
      if Complete(t, h) { CompleteOffPath(t, from, h, h1, t1); }
      var ph :- ComputeParentHashes(from, fdp.value, path.nodes);
      assert Merge(suite, t, from, path).Ok?;
      MergePathNodes(t1, from);
      InstallPath(fdp.value, path.nodes, ph);
      assert Merge(suite, t, from, path) == Ok(T());
      MergeWF(suite, t, from, path);
      MergedCoherent(suite, t, from, path, h1);
      var done := SetHashAll();
      return Ok(());
    }

    /** `parent_hash_valid(from, path)`: the check of a received path. */
    method CheckPath(from: LeafIndex, path: UpdatePath) returns (r: Result<bool>)
      requires Valid() && Complete(T(), hashes) && from < size
      ensures r == Ok(true) <==> PathParentHashValid(suite, T(), from, path)
      ensures r.Err? ==> r.error == Protocol
    {
      hide Lo, Hi, Width, Level, Left, Right, Parent, IsPow2, TreeHash, FilteredPath, PathHashes, Resolve, Coherent;
      var x0 := LeafNodeIndex(from);
      OccLeafInTree(T(), from);
      var fdp := ComputeFilteredPath(x0);
      CompleteOffPathHere(T(), from, hashes);
      var chain :- ComputeParentHashes(from, fdp.value, path.nodes);
      var leafHash := LeafN(path.leaf).ParentHash();
      if chain == [] { return Ok(leafHash.None?); }
      return Ok(leafHash == Some(chain[0]));
    }

    /** `original_tree_hash`: the tree hash of a node without the leaves that are unmerged at the
        occupied ancestor `p`, with the memo that the whole check shares. */
    method OriginalTreeHash(cache: OriginalCache, index: NodeIndex, parentExcept: seq<LeafIndex>, ghost p: NodeIndex)
      returns (h: Bytes, cache': OriginalCache)
      requires Valid() && Complete(T(), hashes) && CacheOk(suite, T(), cache)
      requires OccParent(T(), p) && Within(index, p) && InTree(index, size)
      requires Cut(parentExcept, index) == Cut(Unmerged(T(), p), index)
      ensures h == TreeHash(suite, Without(T(), ToSet(Unmerged(T(), p))), index)
      ensures CacheOk(suite, T(), cache')
      decreases Level(index)
    {
      hide Lo, Hi, Width, Level, Left, Right, IsPow2, TreeHash, Without, Cut, IsMemoOf, CacheOk, UnmergedOk, Populated;
      var except := Cut(parentExcept, index);
      if except == [] {
        OriginalUnchanged(suite, T(), index, p);
        return hashes[index], cache;
      }
      if index in cache && cache[index].0 == |except| {
        MemoHit(suite, T(), cache, index, p);
        return cache[index].1, cache;
      }
      cache' := cache;
      if IsLeaf(index) {
        OriginalLeaf(suite, T(), index, p);
        h := HashTree(suite, LeafInput(index / 2, None));
      } else {
        var lh, rh;
        TreeClosed(index, size);
        OriginalInner(suite, T(), index, p);
        lh, cache' := OriginalTreeHash(cache', Left(index), except, p);
        rh, cache' := OriginalTreeHash(cache', Right(index), except, p);
        var n := ParentOf(Stripped(nodes[index], index, ToSet(except)));
        h := HashTree(suite, ParentInput(n, lh, rh));
      }
      assert IsMemoOf(suite, T(), (|except|, h), index, p) by { hide *; MemoEntry(suite, T(), |except|, h, index, p); }
      MemoInsert(suite, T(), cache', index, p, (|except|, h));
      cache' := cache'[index := (|except|, h)];
    }

    /** `original_parent_hash` */
    method OriginalParentHashOf(cache: OriginalCache, p: NodeIndex, sibling: NodeIndex)
      returns (h: Bytes, cache': OriginalCache)
      requires Valid() && Complete(T(), hashes) && CacheOk(suite, T(), cache)
      requires OccParent(T(), p) && (sibling == Left(p) || sibling == Right(p))
      ensures h == OriginalParentHash(suite, T(), p, sibling)
      ensures CacheOk(suite, T(), cache')
    {
      hide Lo, Hi, Width, Level, Left, Right, IsPow2, TreeHash, Without, Cut, CacheOk, UnmergedOk, Populated;
      var n := nodes[p].value.parent;
      TreeClosed(p, size);
      ChildWithin(p);
      var sh;
      sh, cache' := OriginalTreeHash(cache, sibling, n.unmerged, p);
      h := HashParent(suite, ParentHashInput(n.publicKey, n.parentHash, sh));
    }

    /** `has_parent_hash` */
    method FindParentHash(child: NodeIndex, target: Bytes) returns (found: bool)
      requires Valid()
      ensures found <==> HasParentHash(T(), child, target)
    {
      hide Lo, Hi, Width, Level, Left, Right, IsPow2, Resolve, Coherent;
      var res := Resolve(Tree(size, nodes), child);
      ResolveMembers(T(), child);
      found := false;
      for i := 0 to |res|
        invariant !found
        invariant forall k :: 0 <= k < i ==> Occ(T(), res[k]) && nodes[res[k]].value.ParentHash() != Some(target)
      {
        assert res[i] in Resolve(T(), child);
        if nodes[res[i]].value.ParentHash() == Some(target) { return true; }
      }
    }

    /** The full `parent_hash_valid()`: level by level, left to right, with one memo. */
    method CheckAllParentHashes() returns (ok: bool)
      requires Valid() && Complete(T(), hashes) && size > 0
      ensures ok <==> ParentHashValid(suite, T())
    {
      hide Lo, Hi, Width, Level, Left, Right, IsPow2, TreeHash, Without, Cut, CacheOk, UnmergedOk, Populated, Resolve,
        Coherent, HasParentHash, OriginalParentHash, Complete;
      var cache: OriginalCache := map[];
      assert CacheOk(suite, T(), cache) by { hide *; EmptyCacheOk(suite, T()); }
      var width := NodeCount(size);
      var root := Root(size).value;
      var height := ComputeLevel(root);
      var level: nat := 1;
      while level <= height
        invariant level >= 1 && CacheOk(suite, T(), cache)
        invariant forall q :: OccParent(T(), q) && Level(q) < level ==> ParentHashValidAt(suite, T(), q)
      {
        var stride := Shl(2, level);
        var start := Shr(stride, 1) - 1;
        LevelStart(level);
        var p := start;
        while p < width
          invariant Level(p) == level && CacheOk(suite, T(), cache)
          invariant forall q: nat :: OccParent(T(), q) && Level(q) == level && q < p ==> ParentHashValidAt(suite, T(), q)
          decreases width - p
        {
          if nodes[p].Some? {
            assert OccParent(T(), p);
            var lh, rh;
            lh, cache := OriginalParentHashOf(cache, p, Right(p));
            rh, cache := OriginalParentHashOf(cache, p, Left(p));
            var inLeft := FindParentHash(Left(p), lh);
            var inRight := FindParentHash(Right(p), rh);
            if !inLeft && !inRight {
              return false;
            }
          }
          WidthIsPow2(p);
          NextOnLevel(p);
          forall q: nat | Level(q) == level && q < p + stride ensures q <= p { LevelSpacing(p, q); }
          p := p + stride;
        }
        level := level + 1;
      }
      forall q | OccParent(T(), q) ensures Level(q) < level {
        InTreeIsSpan(q, size);
        Laminar(q, root);
      }
      return true;
    }
  }
}
