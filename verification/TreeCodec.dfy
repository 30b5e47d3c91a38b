/** The ratchet tree as a list of optional nodes: the stream operators of `TreeKEMPublicKey`
    (`treekem.cpp`, lines 1327-1409; section 12.4.3.3 of RFC 9420). */
module TreeCodec {
  import opened Wrappers
  import opened TreeMath
  import opened Crypto
  import opened RatchetTree
  import opened TreeInvariant

  type NodeList = seq<Option<Node>>

  /** The nodes up to the last occupied leaf; the first leaf alone when none is occupied. */
  ghost function Written(t: Tree): NodeList {
    if t.size == 0 then []
    else
      seq(2 * LastOccupied(t, t.size - 1) + 1, i requires 0 <= i => NodeAt(t, i))
  }

  /** Doubling from `n` until that many nodes fit. */
  function FitSize(count: nat, n: nat): nat
    requires n > 0
    decreases count - n
  {
    if NodeCount(n) < count then FitSize(count, 2 * n) else n
  }

  function Loaded(nodes: NodeList, n: nat): Tree {
    Tree(n, map x: nat | 0 <= x < NodeCount(n) :: if x < |nodes| then nodes[x] else None)
  }

  ghost predicate KindsFit(t: Tree) {
    forall x :: Occ(t, x) ==> (x % 2 == 0 <==> t.nodes[x].value.LeafN?)
  }

  ghost function ReadTree(nodes: NodeList): Result<Tree> {
    if nodes == [] then Ok(EmptyTree)
    else if |nodes| % 2 == 0 || nodes[|nodes| - 1].None? then Err(Protocol)
    else
      var t := Loaded(nodes, FitSize(|nodes|, 1));
      if KindsFit(t) then Ok(t) else Err(InvalidParameter)
  }

  lemma DoubledPow2(n: nat)
    requires IsPow2(n)
    ensures IsPow2(2 * n)
  {
    assert 2 * n / 2 == n;
  }

  lemma {:induction false} FitSizeFacts(last: LeafIndex, n: nat)
    requires IsPow2(n) && (n == 1 || n / 2 <= last)
    ensures var m := FitSize(2 * last + 1, n);
      IsPow2(m) && last < m && (m == 1 || m / 2 <= last)
    decreases 2 * last + 1 - n
  {
    DoubledPow2(n);
    hide IsPow2;
    if NodeCount(n) < 2 * last + 1 { FitSizeFacts(last, 2 * n); }
  }

  lemma {:induction false} Pow2Apart(a: nat, b: nat)
    requires IsPow2(a) && IsPow2(b) && a < b
    ensures 2 * a <= b
  {
    if a > 1 { Pow2Apart(a / 2, b / 2); }
  }

  /** Doubling up from one leaf and halving down from a larger tree meet at the same size. */
  lemma FitIsShrunk(size: nat, last: LeafIndex)
    requires IsPow2(size) && last < size
    ensures FitSize(2 * last + 1, 1) == ShrunkSize(size, last)
  {
    FitSizeFacts(last, 1);
    ShrunkSizeFacts(size, last);
    var a, b := FitSize(2 * last + 1, 1), ShrunkSize(size, last);
    if a < b { Pow2Apart(a, b); }
    if b < a { Pow2Apart(b, a); }
  }

  /** Everything after the last occupied leaf is blank, parents included. */
  lemma BlankBehind(t: Tree, x: NodeIndex)
    requires WF(t) && t.size > 0 && x > 2 * LastOccupied(t, t.size - 1)
    ensures !Occ(t, x)
  {
    hide Lo, Hi, Width, Level, Left, Right, IsPow2;
    var last := LastOccupied(t, t.size - 1);
    if Occ(t, x) {
      if IsLeaf(x) {
        assert x == LeafNodeIndex(x / 2);
        OccLeafInTree(t, x / 2);
      } else {
        assert OccParent(t, x);
        var l :| Covers(Right(x), l) && OccLeaf(t, l);
        OccLeafInTree(t, l);
      }
    }
  }

  lemma ShapeKindsFit(t: Tree)
    requires Shape(t)
    ensures KindsFit(t)
  {
    forall x | Occ(t, x) ensures x % 2 == 0 <==> t.nodes[x].value.LeafN? {
      assert IsLeaf(x) <==> x % 2 == 0;
    }
  }

  /** What is written: entry `i` is node `i`, up to the last occupied leaf, behind which every node is blank. */
  lemma WrittenNodes(t: Tree)
    requires WF(t) && SomeLeaf(t)
    ensures var ns := Written(t);
      && |ns| % 2 == 1 && OccLeaf(t, |ns| / 2)
      && (forall i :: 0 <= i < |ns| ==> ns[i] == NodeAt(t, i))
      && (forall x: nat :: |ns| <= x ==> !Occ(t, x))
  {
    hide Lo, Hi, Width, Level, Left, Right, IsPow2, UnmergedOk, Populated;
    var l0 :| OccLeaf(t, l0);
    OccLeafInTree(t, l0);
    forall x: nat | |Written(t)| <= x ensures !Occ(t, x) { BlankBehind(t, x); }
  }

  lemma LoadedIsTruncated(t: Tree)
    requires WF(t) && t.size > 0 && SomeLeaf(t)
    ensures Loaded(Written(t), Truncate(t).size) == Truncate(t)
  {
    hide Lo, Hi, Width, Level, Left, Right, IsPow2, IsLeaf, UnmergedOk, Populated, Truncate, OccLeaf, WF, LastOccupied;
    TruncateFacts(t);
    var u, ns := Truncate(t), Written(t);
    var r := Loaded(ns, u.size);
    forall x: nat | InTree(x, u.size) ensures r.nodes[x] == u.nodes[x] {
      assert x in u.nodes && u.nodes[x] == NodeAt(t, x);
      if x >= |ns| { BlankBehind(t, x); }
    }
    assert r.nodes == u.nodes;
  }

  /** Reading what was written gives the truncated tree: the same size and the same nodes. */
  lemma ReadUndoesWrite(t: Tree)
    requires WF(t) && (t.size == 0 || SomeLeaf(t))
    ensures ReadTree(Written(t)) == Ok(Truncate(t))
  {
    if t.size == 0 {
      assert t.nodes == map[];
    } else {
      WrittenEnds(t);
      TruncateWF(t);
      hide Lo, Hi, Width, Level, Left, Right, IsPow2, UnmergedOk, Populated, FitSize, Truncate, Loaded, KindsFit, Written;
      LoadedIsTruncated(t);
      ShapeKindsFit(Truncate(t));
    }
  }

  /** The list ends with the last occupied leaf, and its length gives away the truncated size. */
  lemma WrittenEnds(t: Tree)
    requires WF(t) && t.size > 0 && SomeLeaf(t)
    ensures var ns := Written(t);
      |ns| % 2 == 1 && ns[|ns| - 1].Some? && FitSize(|ns|, 1) == Truncate(t).size
  {
    hide Lo, Hi, Width, Level, Left, Right, IsPow2, UnmergedOk, Populated, FitSize, ShrunkSize;
    var l0 :| OccLeaf(t, l0);
    OccLeafInTree(t, l0);
    var last := LastOccupied(t, t.size - 1);
    assert OccLeaf(t, last);
    FitIsShrunk(t.size, last);
    assert Written(t)[2 * last] == NodeAt(t, LeafNodeIndex(last));
  }

  /** A tree no operation can truncate further comes back as it was. */
  lemma TruncatedRoundTrip(t: Tree)
    requires WF(t) && (t.size == 0 || SomeLeaf(t)) && Truncate(t) == t
    ensures ReadTree(Written(t)) == Ok(t)
  {
    ReadUndoesWrite(t);
  }

  /** What is written for a tree without an occupied leaf is refused. */
  lemma ReadableIff(t: Tree)
    requires WF(t)
    ensures ReadTree(Written(t)).Ok? <==> t.size == 0 || SomeLeaf(t)
  {
    hide Lo, Hi, Width, Level, Left, Right, IsPow2, UnmergedOk, Populated, FitSize, ShrunkSize;
    if t.size == 0 || SomeLeaf(t) {
      ReadUndoesWrite(t);
    } else {
      assert !OccLeaf(t, 0);
      assert LastOccupied(t, t.size - 1) == 0;
      assert LeafNodeIndex(0) == 0;
      assert Written(t) == [NodeAt(t, 0)];
      assert IsLeaf(0);
    }
  }

  /** A tree whose only leaf was blanked: truncated it lacks the entry of that leaf, and the list written for
      it is refused. */
  lemma EmptiedTree(leaf: LeafNode)
    ensures var t := Blanked(PlaceLeaf(Grow(EmptyTree), 0, leaf), 0);
      && WF(t) && t.size == 1 && !WF(Truncate(t))
      && Written(t) == [None] && ReadTree(Written(t)) == Err(Protocol)
  {
    var u := PlaceLeaf(Grow(EmptyTree), 0, leaf);
    assert u.nodes == map[0 := Some(LeafN(leaf))] by { assert NodeCount(1) == 1; }
    var t := Blanked(u, 0);
    assert t.nodes == map[0 := None] && t.size == 1;
    assert forall x :: !Occ(t, x);
    assert LeafNodeIndex(0) == 0 && InTree(0, 1);
    assert Written(t) == [NodeAt(t, 0)];
  }

  /** The encoding is the only one: a list that is read is the list written for the tree. */
  lemma WriteUndoesRead(nodes: NodeList)
    requires ReadTree(nodes).Ok?
    ensures Written(ReadTree(nodes).value) == nodes
    ensures Shape(ReadTree(nodes).value)
  {
    hide Lo, Hi, Width, Level, Left, Right, IsPow2, FitSize, ShrunkSize;
    if nodes != [] {
      var last := |nodes| / 2;
      assert |nodes| == 2 * last + 1;
      assert IsPow2(1) by { OneIsPow2(); }
      FitSizeFacts(last, 1);
      var n := FitSize(|nodes|, 1);
      var t := Loaded(nodes, n);
      assert t.nodes[2 * last] == nodes[2 * last];
      forall l: nat | last < l < n ensures !OccLeaf(t, l) { assert LeafNodeIndex(l) == 2 * l; }
      assert OccLeaf(t, last) by { assert LeafNodeIndex(last) == 2 * last; }
      LastIs(t, n - 1, last);
      assert Written(t) == nodes;
      forall x: nat | Occ(t, x) ensures IsLeaf(x) <==> t.nodes[x].value.LeafN? { assert IsLeaf(x) == (x % 2 == 0); }
    }
  }

  lemma OneIsPow2()
    ensures IsPow2(1)
  {}

  lemma {:induction false} LastIs(t: Tree, from: nat, last: nat)
    requires last <= from && OccLeaf(t, last) && forall l: nat :: last < l <= from ==> !OccLeaf(t, l)
    ensures LastOccupied(t, from) == last
    decreases from
  {
    if from > last { LastIs(t, from - 1, last); }
  }

  /** `operator<<` */
  method Write(t: Tree) returns (view: NodeList)
    requires Shape(t)
    ensures view == Written(t)
  {
    hide Lo, Hi, Width, Level, Left, Right, IsPow2;
    if t.size == 0 { return []; }
    var cut: nat := t.size - 1;
    LeafIsEntry(t, cut);
    while cut > 0 && t.nodes[LeafNodeIndex(cut)].None?
      invariant cut < t.size && LastOccupied(t, t.size - 1) == LastOccupied(t, cut)
      invariant LeafNodeIndex(cut) in t.nodes
    {
      cut := cut - 1;
      LeafIsEntry(t, cut);
    }
    assert IsLeaf(LeafNodeIndex(cut));
    var nodeCut := LeafNodeIndex(cut) + 1;
    view := [];
    LeafIsEntry(t, cut);
    for i := 0 to nodeCut
      invariant |view| == i && forall j :: 0 <= j < i ==> view[j] == NodeAt(t, j)
    {
      view := view + [t.nodes[i]];
    }
  }

  lemma LeafIsEntry(t: Tree, l: LeafIndex)
    requires Shape(t) && l < t.size
    ensures LeafNodeIndex(l) == 2 * l && forall x :: 0 <= x <= 2 * l ==> x in t.nodes
  {
    assert InTree(2 * l, t.size);
    forall x: nat | x <= 2 * l ensures x in t.nodes { assert InTree(x, t.size); }
  }

  /** `operator>>` */
  method Load(nodes: NodeList) returns (r: Result<Tree>)
    ensures r == ReadTree(nodes)
  {
    hide Lo, Hi, Width, Level, Left, Right, IsPow2;
    if nodes == [] { return Ok(EmptyTree); }
    if |nodes| % 2 == 0 { return Err(Protocol); }
    if nodes[|nodes| - 1].None? { return Err(Protocol); }
    var size := 1;
    while NodeCount(size) < |nodes|
      invariant size > 0 && FitSize(|nodes|, size) == FitSize(|nodes|, 1)
      decreases |nodes| - size
    {
      size := 2 * size;
    }
    var m: map<NodeIndex, Option<Node>> := map[];
    for i := 0 to |nodes|
      invariant forall x: nat :: x in m <==> x < i
      invariant forall x <- m :: m[x] == nodes[x]
    {
      m := m[i := nodes[i]];
    }
    for i := |nodes| to NodeCount(size)
      invariant forall x: nat :: x in m <==> x < i
      invariant forall x <- m :: m[x] == if x < |nodes| then nodes[x] else None
    {
      m := m[i := None];
    }
    var t := Tree(size, m);
    assert t == Loaded(nodes, size);
    for i := 0 to NodeCount(size)
      invariant forall x: nat :: Occ(t, x) && x < i ==> (x % 2 == 0 <==> t.nodes[x].value.LeafN?)
    {
      if t.nodes[i].Some? {
        var node := t.nodes[i].value;
        if i % 2 == 0 && !node.LeafN? {
          assert Occ(t, i);
          return Err(InvalidParameter);
        }
        if i % 2 == 1 && !node.ParentN? {
          assert Occ(t, i);
          return Err(InvalidParameter);
        }
      }
    }
    return Ok(t);
  }
}
