/** Why the memo of `original_tree_hash` may be keyed by a node and the mere number of excluded
    leaves: the unmerged lists of the ancestors of a node, cut to its subtree, form a chain. */
module OriginalHashes {
  import opened Wrappers
  import opened TreeMath
  import opened Crypto
  import opened RatchetTree
  import opened TreeInvariant
  import opened TreePaths
  import opened ParentHashes

  type OriginalCache = map<NodeIndex, (nat, Bytes)>

  /** The leaves of the list that are below `x`, in order. */
  function Cut(s: seq<LeafIndex>, x: NodeIndex): (r: seq<LeafIndex>)
    ensures forall u :: u in r <==> u in s && Covers(x, u)
  {
    if s == [] then []
    else if IsBelow(LeafNodeIndex(s[0]), x) then [s[0]] + Cut(s[1..], x)
    else Cut(s[1..], x)
  }

  lemma {:induction false} CutTwice(s: seq<LeafIndex>, x: NodeIndex, c: NodeIndex)
    requires Within(c, x)
    ensures Cut(Cut(s, x), c) == Cut(s, c)
  {
    hide Lo, Hi, Level;
    if s != [] {
      CutTwice(s[1..], x, c);
      if Covers(x, s[0]) {
        assert Cut(s, x)[0] == s[0] && Cut(s, x)[1..] == Cut(s[1..], x);
      }
    }
  }

  lemma {:induction false} CutAscending(s: seq<LeafIndex>, x: NodeIndex)
    requires Ascending(s)
    ensures Ascending(Cut(s, x))
  {
    hide Lo, Hi, Level, Covers, IsBelow;
    if s != [] {
      assert forall i :: 0 <= i < |s[1..]| ==> s[1..][i] == s[i + 1];
      CutAscending(s[1..], x);
      var r := Cut(s[1..], x);
      forall k | 0 <= k < |r| ensures s[0] < r[k] {
        assert r[k] in s[1..];
      }
    }
  }

  lemma {:induction false} AscendingSize(s: seq<nat>)
    requires Ascending(s)
    ensures |ToSet(s)| == |s|
  {
    if s != [] {
      var rest := s[1..];
      assert forall i :: 0 <= i < |rest| ==> rest[i] == s[i + 1];
      AscendingSize(rest);
      assert s[0] !in ToSet(rest);
      assert ToSet(s) == {s[0]} + ToSet(rest);
    }
  }

  lemma SubsetSameSize(a: set<nat>, b: set<nat>)
    requires a <= b && |a| == |b|
    ensures a == b
  {
    var d := b - a;
    assert b == a + d;
    assert |a + d| == |a| + |d|;
  }

  /** Two excluded sets that agree below `x` give the same subtree. */
  lemma WithoutAgree(t: Tree, x: NodeIndex, e: set<LeafIndex>, f: set<LeafIndex>)
    requires WF(t)
    requires forall u :: Covers(x, u) ==> (u in e <==> u in f)
    ensures AgreeBelow(Without(t, e), Without(t, f), x)
  {
    hide Lo, Hi, Level, Filter, Without, IsPow2;
    forall y: NodeIndex | Within(y, x) ensures NodeAt(Without(t, e), y) == NodeAt(Without(t, f), y) {
      WithoutAt(t, e, y);
      WithoutAt(t, f, y);
      if OccParent(t, y) {
        FilterSame(Unmerged(t, y), e, f);
      } else if Occ(t, y) {
        assert Covers(x, y / 2);
      }
    }
  }

  /** The excluded leaves below a node, for two ancestors of it: the same number means the same
      leaves, hence the same original hash. */
  lemma SameCountSameHash(s: Suite, t: Tree, x: NodeIndex, p: NodeIndex, q: NodeIndex)
    requires WF(t) && OccParent(t, p) && OccParent(t, q) && Within(x, p) && Within(x, q)
    requires |Cut(Unmerged(t, p), x)| == |Cut(Unmerged(t, q), x)|
    ensures TreeHash(s, Without(t, ToSet(Unmerged(t, p))), x) == TreeHash(s, Without(t, ToSet(Unmerged(t, q))), x)
  {
    hide Lo, Hi, Level, Width, Filter, Without, IsPow2, TreeHash, Cut;
    Laminar(p, q);
    Laminar(q, p);
    if Within(p, q) {
      InnerCut(t, x, p, q);
    } else {
      InnerCut(t, x, q, p);
    }
    var e, f := ToSet(Unmerged(t, p)), ToSet(Unmerged(t, q));
    forall u | Covers(x, u) ensures u in e <==> u in f {
      assert u in e <==> u in Cut(Unmerged(t, p), x);
      assert u in f <==> u in Cut(Unmerged(t, q), x);
    }
    WithoutAgree(t, x, e, f);
    TreeHashLocal(s, Without(t, e), Without(t, f), x);
  }

  /** Going up, the list of an ancestor cut to a subtree can only lose leaves. */
  lemma InnerCut(t: Tree, x: NodeIndex, p: NodeIndex, q: NodeIndex)
    requires WF(t) && OccParent(t, p) && OccParent(t, q) && Within(x, p) && Within(p, q)
    ensures ToSet(Cut(Unmerged(t, q), x)) <= ToSet(Cut(Unmerged(t, p), x))
    ensures |Cut(Unmerged(t, p), x)| == |Cut(Unmerged(t, q), x)| ==>
      ToSet(Cut(Unmerged(t, p), x)) == ToSet(Cut(Unmerged(t, q), x))
    ensures |Cut(Unmerged(t, p), x)| == |Cut(Unmerged(t, q), x)| ==>
      forall u :: u in Cut(Unmerged(t, p), x) <==> u in Cut(Unmerged(t, q), x)
  {
    hide Lo, Hi, Level, Width, IsPow2, Cut;
    var a, b := Cut(Unmerged(t, q), x), Cut(Unmerged(t, p), x);
    forall u | u in a ensures u in b { assert Covers(p, u); }
    CutAscending(Unmerged(t, p), x);
    CutAscending(Unmerged(t, q), x);
    AscendingSize(a);
    AscendingSize(b);
    if |a| == |b| {
      SubsetSameSize(ToSet(a), ToSet(b));
      forall u ensures u in a <==> u in b {
        assert u in a <==> u in ToSet(a);
        assert u in b <==> u in ToSet(b);
      }
    }
  }

  /** Every entry is the hash that some occupied ancestor with that many excluded leaves sees. */
  ghost predicate CacheOk(s: Suite, t: Tree, cache: OriginalCache) {
    forall x :: x in cache ==> exists p :: IsMemoOf(s, t, cache[x], x, p)
  }

  ghost predicate IsMemoOf(s: Suite, t: Tree, entry: (nat, Bytes), x: NodeIndex, p: NodeIndex) {
    && OccParent(t, p) && Within(x, p)
    && entry.0 == |Cut(Unmerged(t, p), x)|
    && entry.1 == TreeHash(s, Without(t, ToSet(Unmerged(t, p))), x)
  }

  /** A hit in the memo is the value asked for. */
  lemma MemoHit(s: Suite, t: Tree, cache: OriginalCache, x: NodeIndex, p: NodeIndex)
    requires WF(t) && CacheOk(s, t, cache) && x in cache
    requires OccParent(t, p) && Within(x, p) && cache[x].0 == |Cut(Unmerged(t, p), x)|
    ensures cache[x].1 == TreeHash(s, Without(t, ToSet(Unmerged(t, p))), x)
  {
    hide Lo, Hi, Level, Width, Filter, Without, IsPow2, TreeHash, Cut;
    var q :| IsMemoOf(s, t, cache[x], x, q);
    SameCountSameHash(s, t, x, p, q);
  }

  lemma MemoInsert(s: Suite, t: Tree, cache: OriginalCache, x: NodeIndex, p: NodeIndex, entry: (nat, Bytes))
    requires CacheOk(s, t, cache) && IsMemoOf(s, t, entry, x, p)
    ensures CacheOk(s, t, cache[x := entry])
  {
    hide IsMemoOf;
    var c := cache[x := entry];
    forall y | y in c ensures exists q :: IsMemoOf(s, t, c[y], y, q) {
      if y != x { assert y in cache; }
    }
  }

  // --------------------------------------------------------------------------
  // Trees whose lists nobody has checked
  // --------------------------------------------------------------------------

  function Below(e: set<LeafIndex>, x: NodeIndex): set<LeafIndex> { set l | l in e && IsBelow(LeafNodeIndex(l), x) }

  /** `original_tree_hash` without its memo: the excluded leaves are cut to the subtree at every node. */
  ghost function ExcludingHash(s: Suite, t: Tree, x: NodeIndex, parentExcept: set<LeafIndex>): Bytes
    decreases Level(x)
  {
    var except := Below(parentExcept, x);
    if except == {} then TreeHash(s, t, x)
    else if IsLeaf(x) then HashTree(s, LeafInput(x / 2, None))
    else HashTree(s, ParentInput(ParentOf(Stripped(NodeAt(t, x), x, except)),
                                 ExcludingHash(s, t, Left(x), except), ExcludingHash(s, t, Right(x), except)))
  }

  /** Whether a leaf below a node is excluded shows in the node's hash: the leaf is occupied, or it is on the
      list of an occupied parent between the two. */
  ghost predicate Shows(t: Tree, x: NodeIndex, u: LeafIndex) {
    Covers(x, u) && (OccLeaf(t, u) || exists q :: ListsBelow(t, x, q, u))
  }

  ghost predicate ListsBelow(t: Tree, x: NodeIndex, q: NodeIndex, u: LeafIndex) {
    Within(q, x) && OccParent(t, q) && Covers(q, u) && u in Unmerged(t, q)
  }

  /** Two sets exclude the same of the leaves below a node that matter. */
  ghost predicate ExcludeAlike(t: Tree, x: NodeIndex, a: set<LeafIndex>, b: set<LeafIndex>) {
    forall u :: Shows(t, x, u) ==> (u in a <==> u in b)
  }

  /** The original hashes of a node for two sets are equal exactly when the sets exclude the same leaves that
      matter there. */
  lemma {:induction false} ExcludingHashIff(s: Suite, t: Tree, x: NodeIndex, a: set<LeafIndex>, b: set<LeafIndex>)
    requires Shape(t) && TreeHashInjective(s)
    ensures ExcludingHash(s, t, x, a) == ExcludingHash(s, t, x, b) <==> ExcludeAlike(t, x, a, b)
    decreases Level(x)
  {
    hide Lo, Hi, Level, Width, IsPow2, Filter, Left, Right, ExcludingHash, Shows, ExcludeAlike, Below;
    if IsLeaf(x) {
      LeafExcluding(s, t, x, a);
      LeafExcluding(s, t, x, b);
      LeafAlike(t, x, a, b);
    } else {
      InnerExcluding(s, t, x, a);
      InnerExcluding(s, t, x, b);
      ExcludingHashIff(s, t, Left(x), Below(a, x), Below(b, x));
      ExcludingHashIff(s, t, Right(x), Below(a, x), Below(b, x));
      InnerAlike(t, x, a, b);
    }
  }

  /** The hash of a leaf, excluded or not. */
  lemma LeafExcluding(s: Suite, t: Tree, x: NodeIndex, e: set<LeafIndex>)
    requires IsLeaf(x)
    ensures ExcludingHash(s, t, x, e) == HashTree(s, LeafInput(x / 2, if x / 2 in e then None else LeafOf(NodeAt(t, x))))
  {
    hide Lo, Hi, Level, Width, HashTree;
    assert LeafNodeIndex(x / 2) == x;
    forall l | l in Below(e, x) ensures l == x / 2 { assert Within(LeafNodeIndex(l), x); }
    assert IsBelow(x, x);
    assert x / 2 in e ==> x / 2 in Below(e, x);
  }

  lemma LeafAlike(t: Tree, x: NodeIndex, a: set<LeafIndex>, b: set<LeafIndex>)
    requires Shape(t) && IsLeaf(x)
    ensures ExcludeAlike(t, x, a, b) <==> (LeafOf(NodeAt(t, x)).Some? ==> (x / 2 in a <==> x / 2 in b))
  {
    hide Lo, Hi, Level, Width;
    assert LeafNodeIndex(x / 2) == x;
    assert Shows(t, x, x / 2) <==> LeafOf(NodeAt(t, x)).Some? by {
      if q :| ListsBelow(t, x, q, x / 2) {
        Laminar(q, x);
        NodeFromInterval(q, x);
        assert false;
      }
    }
    forall u | Shows(t, x, u) ensures u == x / 2 {}
  }

  /** An inner node hashes its two children, whether anything is excluded or not. */
  lemma InnerExcluding(s: Suite, t: Tree, x: NodeIndex, parentExcept: set<LeafIndex>)
    requires !IsLeaf(x)
    ensures var e := Below(parentExcept, x);
      ExcludingHash(s, t, x, parentExcept) ==
        HashTree(s, ParentInput(ParentOf(Stripped(NodeAt(t, x), x, e)),
                                ExcludingHash(s, t, Left(x), e), ExcludingHash(s, t, Right(x), e)))
  {
    hide Lo, Hi, Level, Width, Left, Right, HashTree;
    var e := Below(parentExcept, x);
    if e == {} {
      NothingExcluded(s, t, Left(x));
      NothingExcluded(s, t, Right(x));
      FilterNothing(Unmerged(t, x), {});
      hide Filter;
    }
  }

  lemma NothingExcluded(s: Suite, t: Tree, x: NodeIndex)
    ensures ExcludingHash(s, t, x, {}) == TreeHash(s, t, x)
  {
    hide TreeHash;
    assert Below({}, x) == {};
  }

  /** What matters below an inner node is what matters on its own list and below its children. */
  lemma InnerAlike(t: Tree, x: NodeIndex, a: set<LeafIndex>, b: set<LeafIndex>)
    requires Shape(t) && !IsLeaf(x)
    ensures ExcludeAlike(t, x, a, b) <==>
      && ParentOf(Stripped(NodeAt(t, x), x, Below(a, x))) == ParentOf(Stripped(NodeAt(t, x), x, Below(b, x)))
      && ExcludeAlike(t, Left(x), Below(a, x), Below(b, x)) && ExcludeAlike(t, Right(x), Below(a, x), Below(b, x))
  {
    hide Lo, Hi, Level, Width, Left, Right, Filter, IsPow2;
    OwnListAlike(t, x, a, b);
    forall u ensures u in Below(a, x) <==> u in a && Covers(x, u)
      ensures u in Below(b, x) <==> u in b && Covers(x, u)
    {
      BelowMeans(a, x, u);
      BelowMeans(b, x, u);
    }
    hide Below;
    forall u ensures Shows(t, x, u) <==>
      Shows(t, Left(x), u) || Shows(t, Right(x), u) || (OccParent(t, x) && Covers(x, u) && u in Unmerged(t, x))
    {
      ShowsSplits(t, x, u);
    }
    forall u | Shows(t, Left(x), u) || Shows(t, Right(x), u) ensures Covers(x, u) { ChildWithin(x); }
    hide Shows;
  }

  lemma BelowMeans(e: set<LeafIndex>, x: NodeIndex, u: LeafIndex)
    ensures u in Below(e, x) <==> u in e && Covers(x, u)
  {
    hide Lo, Hi, Level, Width;
    assert Covers(x, u) <==> Within(LeafNodeIndex(u), x);
  }

  lemma OwnListAlike(t: Tree, x: NodeIndex, a: set<LeafIndex>, b: set<LeafIndex>)
    requires Shape(t) && !IsLeaf(x)
    ensures ParentOf(Stripped(NodeAt(t, x), x, Below(a, x))) == ParentOf(Stripped(NodeAt(t, x), x, Below(b, x))) <==>
      (OccParent(t, x) ==> forall u :: u in Unmerged(t, x) && Covers(x, u) ==> (u in a <==> u in b))
  {
    hide Lo, Hi, Level, Width, Left, Right, Filter, IsPow2;
    if OccParent(t, x) {
      var list, e, f := Unmerged(t, x), Below(a, x), Below(b, x);
      forall u ensures (u in e <==> u in a && Covers(x, u)) && (u in f <==> u in b && Covers(x, u)) {
        BelowMeans(a, x, u);
        BelowMeans(b, x, u);
      }
      hide Below;
      if forall u :: u in list ==> (u in e <==> u in f) { FilterSame(list, e, f); }
      if Filter(list, e) == Filter(list, f) {
        forall u | u in list ensures u in e <==> u in f {
          assert u in Filter(list, e) <==> u !in e;
          assert u in Filter(list, f) <==> u !in f;
        }
      }
    }
  }

  lemma ShowsSplits(t: Tree, x: NodeIndex, u: LeafIndex)
    requires !IsLeaf(x)
    ensures Shows(t, x, u) <==>
      Shows(t, Left(x), u) || Shows(t, Right(x), u) || (OccParent(t, x) && Covers(x, u) && u in Unmerged(t, x))
  {
    hide Lo, Hi, Level, Width, Left, Right, OccParent, OccLeaf;
    ChildWithin(x);
    if q :| ListsBelow(t, x, q, u) && q != x {
      InsideOneChild(q, x);
      assert ListsBelow(t, Left(x), q, u) || ListsBelow(t, Right(x), q, u);
    }
    if q :| ListsBelow(t, Left(x), q, u) { assert ListsBelow(t, x, q, u); }
    if q :| ListsBelow(t, Right(x), q, u) { assert ListsBelow(t, x, q, u); }
    if OccParent(t, x) && Covers(x, u) && u in Unmerged(t, x) { assert ListsBelow(t, x, x, u); }
  }

  /** Lists of two ancestors with as many leaves below a node exclude the same that matter there. */
  ghost predicate CountsTell(t: Tree, x: NodeIndex) {
    forall p, q :: SameCount(t, x, p, q) ==> ExcludeAlike(t, x, ToSet(Unmerged(t, p)), ToSet(Unmerged(t, q)))
  }

  ghost predicate SameCount(t: Tree, x: NodeIndex, p: NodeIndex, q: NodeIndex) {
    && OccParent(t, p) && OccParent(t, q) && Within(x, p) && Within(x, q)
    && |Cut(Unmerged(t, p), x)| == |Cut(Unmerged(t, q), x)|
  }

  /** On any tree, whatever its unmerged lists: a memo keyed by node and count is right at a node, whichever
      ancestors fill it and ask it, exactly when the counts tell apart what matters there. */
  lemma MemoSoundIff(s: Suite, t: Tree, x: NodeIndex)
    requires Shape(t) && TreeHashInjective(s)
    ensures CountsTell(t, x) <==> forall p, q :: SameCount(t, x, p, q) ==>
      ExcludingHash(s, t, x, ToSet(Unmerged(t, p))) == ExcludingHash(s, t, x, ToSet(Unmerged(t, q)))
  {
    hide Lo, Hi, Level, Width, IsPow2, TreeHash, Cut, ExcludingHash, ExcludeAlike;
    forall p, q | SameCount(t, x, p, q)
      ensures ExcludingHash(s, t, x, ToSet(Unmerged(t, p))) == ExcludingHash(s, t, x, ToSet(Unmerged(t, q))) <==>
        ExcludeAlike(t, x, ToSet(Unmerged(t, p)), ToSet(Unmerged(t, q)))
    {
      ExcludingHashIff(s, t, x, ToSet(Unmerged(t, p)), ToSet(Unmerged(t, q)));
    }
  }

  /** The structural invariant makes the counts tell. */
  lemma ChainsTell(t: Tree, x: NodeIndex)
    requires WF(t)
    ensures CountsTell(t, x)
  {
    hide WF, SameCount, ExcludeAlike, ToSet, Unmerged;
    forall p, q | SameCount(t, x, p, q) ensures ExcludeAlike(t, x, ToSet(Unmerged(t, p)), ToSet(Unmerged(t, q))) {
      ChainTells(t, x, p, q);
    }
  }

  lemma ChainTells(t: Tree, x: NodeIndex, p: NodeIndex, q: NodeIndex)
    requires WF(t) && SameCount(t, x, p, q)
    ensures ExcludeAlike(t, x, ToSet(Unmerged(t, p)), ToSet(Unmerged(t, q)))
  {
    hide Lo, Hi, Level, Width, IsPow2, Cut, UnmergedOk, Populated, Shape, OccLeaf;
    Laminar(p, q);
    Laminar(q, p);
    if Within(p, q) { InnerCut(t, x, p, q); } else { InnerCut(t, x, q, p); }
    forall u | Covers(x, u) ensures u in ToSet(Unmerged(t, p)) <==> u in ToSet(Unmerged(t, q)) {
      assert u in Cut(Unmerged(t, p), x) <==> u in ToSet(Unmerged(t, p));
      assert u in Cut(Unmerged(t, q), x) <==> u in ToSet(Unmerged(t, q));
    }
  }

  function CrossedNode(a: LeafNode, b: LeafNode, key: PublicKey, x: NodeIndex): Option<Node> {
    match x
    case 0 => Some(LeafN(a))
    case 2 => Some(LeafN(b))
    case 3 => Some(ParentN(ParentNode(key, [], [0])))
    case 7 => Some(ParentN(ParentNode(key, [], [1])))
    case _ => None
  }

  /** Two members, unmerged at one of two nested nodes each: a tree of the right shape that no operation makes. */
  function CrossedTree(a: LeafNode, b: LeafNode, key: PublicKey): Tree {
    Tree(8, map x: nat | 0 <= x < 15 :: CrossedNode(a, b, key, x))
  }

  /** There the memo goes wrong: node 1 has one excluded leaf for either of the nodes 3 and 7, but not the
      same one, so what was computed for node 3 is not the hash that node 7 asks for. */
  lemma MemoGoesWrong(s: Suite, a: LeafNode, b: LeafNode, key: PublicKey)
    requires TreeHashInjective(s)
    ensures var t := CrossedTree(a, b, key);
      && Shape(t) && SameCount(t, 1, 3, 7) && !CountsTell(t, 1)
      && ExcludingHash(s, t, 1, ToSet(Unmerged(t, 3))) != ExcludingHash(s, t, 1, ToSet(Unmerged(t, 7)))
  {
    var t := CrossedTree(a, b, key);
    CrossedShape(a, b, key);
    hide Lo, Hi, Level, Width, TreeHash, ExcludingHash, Shape, IsPow2;
    SmallNodes();
    assert Unmerged(t, 3) == [0] && Unmerged(t, 7) == [1];
    CutOne(0, 1);
    CutOne(1, 1);
    assert OccLeaf(t, 0) && Shows(t, 1, 0);
    assert 0 in ToSet([0]) && 0 !in ToSet([1]);
    ExcludingHashIff(s, t, 1, ToSet(Unmerged(t, 3)), ToSet(Unmerged(t, 7)));
  }

  lemma CrossedShape(a: LeafNode, b: LeafNode, key: PublicKey)
    ensures Shape(CrossedTree(a, b, key))
  {
    hide Lo, Hi, Width;
    assert IsPow2(8) by { assert IsPow2(4) by { assert IsPow2(2); } }
    assert NodeCount(8) == 15;
  }

  lemma CutOne(l: LeafIndex, x: NodeIndex)
    requires Covers(x, l)
    ensures Cut([l], x) == [l]
  {
    hide Lo, Hi, Level, Width;
    assert Within(LeafNodeIndex(l), x);
    assert [l][1..] == [] && Cut([], x) == [];
  }

  /** Nothing excluded below the node: the current hash is the original one. */
  lemma OriginalUnchanged(s: Suite, t: Tree, x: NodeIndex, p: NodeIndex)
    requires WF(t) && Cut(Unmerged(t, p), x) == []
    ensures TreeHash(s, Without(t, ToSet(Unmerged(t, p))), x) == TreeHash(s, t, x)
  {
    hide Lo, Hi, Level, Width, Filter, Without, IsPow2, Cut, TreeHash;
    var e := ToSet(Unmerged(t, p));
    forall u | Covers(x, u) ensures u !in e {
      assert u in e ==> u in Cut(Unmerged(t, p), x);
    }
    WithoutAgree(t, x, e, {});
    WithoutNothing(t);
    TreeHashLocal(s, Without(t, e), t, x);
  }

  lemma OriginalLeaf(s: Suite, t: Tree, x: NodeIndex, p: NodeIndex)
    requires WF(t) && IsLeaf(x) && Cut(Unmerged(t, p), x) != []
    ensures TreeHash(s, Without(t, ToSet(Unmerged(t, p))), x) == HashTree(s, LeafInput(x / 2, None))
  {
    hide Lo, Hi, Level, Width, Filter, Without, IsPow2, Cut;
    var cut := Cut(Unmerged(t, p), x);
    assert cut[0] in cut;
    assert cut[0] == x / 2;
    WithoutAt(t, ToSet(Unmerged(t, p)), x);
    assert Shape(t);
  }

  /** At an inner node only the part of the list below the node matters. */
  lemma OriginalInner(s: Suite, t: Tree, x: NodeIndex, p: NodeIndex)
    requires WF(t) && !IsLeaf(x) && Within(x, p)
    ensures Within(Left(x), p) && Within(Right(x), p)
    ensures var e := ToSet(Unmerged(t, p));
      var cut := Cut(Unmerged(t, p), x);
      && Cut(cut, Left(x)) == Cut(Unmerged(t, p), Left(x))
      && Cut(cut, Right(x)) == Cut(Unmerged(t, p), Right(x))
      && TreeHash(s, Without(t, e), x) ==
           HashTree(s, ParentInput(ParentOf(Stripped(NodeAt(t, x), x, ToSet(cut))),
             TreeHash(s, Without(t, e), Left(x)), TreeHash(s, Without(t, e), Right(x))))
  {
    hide Lo, Hi, Level, Width, Left, Right, Filter, Without, IsPow2, Cut;
    var e := ToSet(Unmerged(t, p));
    var cut := Cut(Unmerged(t, p), x);
    ChildWithin(x);
    CutTwice(Unmerged(t, p), x, Left(x));
    CutTwice(Unmerged(t, p), x, Right(x));
    WithoutAt(t, e, x);
    if OccParent(t, x) {
      FilterSame(Unmerged(t, x), e, ToSet(cut));
    }
  }
}
