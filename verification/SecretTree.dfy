/** The lazily expanded, self-erasing secret tree (sections 9 and 9.2 of RFC 9420): `SecretTree`
    and `GroupKeySource` in `key_schedule.cpp`.  The plain definition derives every node from the
    root; the class stores only the frontier between used and unused leaves. */
module SecretTrees {
  import opened Wrappers
  import opened Crypto
  import opened TreeMath
  import opened HashRatchets

  datatype Side = LeftSide | RightSide

  datatype RatchetType = Handshake | Application

  datatype TreeKdf = TreeKdf(
    expandTree: (Bytes, Side) -> Bytes,
    expandLeaf: (Bytes, RatchetType) -> Bytes,
    ratchet: RatchetKdf)

  function ExpandTree(k: TreeKdf, secret: Bytes, side: Side): Bytes { k.expandTree(secret, side) }

  function ExpandLeaf(k: TreeKdf, secret: Bytes, use: RatchetType): Bytes { k.expandLeaf(secret, use) }

  /** The plain recursive derivation of the secret of a node from the encryption secret. */
  ghost function NodeSecret(k: TreeKdf, top: Bytes, n: nat, x: NodeIndex): Bytes
    requires IsPow2(n) && InTree(x, n)
    decreases n - Width(x)
  {
    TreeClosed(x, n);
    if x == n - 1 then top
    else ExpandTree(k, NodeSecret(k, top, n, Parent(x)), if x == Left(Parent(x)) then LeftSide else RightSide)
  }

  ghost predicate Untouched(x: NodeIndex, used: set<LeafIndex>) { forall l <- used :: !Covers(x, l) }

  /** The highest nodes no used leaf is below. */
  ghost predicate InFrontier(x: NodeIndex, n: nat, used: set<LeafIndex>) {
    InTree(x, n) && Untouched(x, used) && (x == n - 1 || !Untouched(Parent(x), used))
  }

  lemma FrontierNotInside(x: NodeIndex, y: NodeIndex, n: nat, used: set<LeafIndex>)
    requires IsPow2(n) && InFrontier(x, n, used) && InFrontier(y, n, used) && x != y
    ensures !Within(x, y)
  {
    hide Lo, Hi, Width, Level, Left, Right, Parent, IsPow2;
    if Within(x, y) {
      InTreeIsSpan(y, n);
      Laminar(n - 1, y);
      Laminar(y, n - 1);
      Laminar(x, y);
      Laminar(Parent(x), y);
      Laminar(y, Parent(x));
    }
  }

  lemma FrontierApart(x: NodeIndex, y: NodeIndex, n: nat, used: set<LeafIndex>)
    requires IsPow2(n) && InFrontier(x, n, used) && InFrontier(y, n, used) && x != y
    ensures Apart(x, y)
  {
    FrontierNotInside(x, y, n, used);
    FrontierNotInside(y, x, n, used);
    Laminar(x, y);
    hide Lo, Hi, Width, Level, Left, Right, Parent, IsPow2;
  }

  lemma {:induction false} FrontierAbove(x: NodeIndex, n: nat, used: set<LeafIndex>) returns (y: NodeIndex)
    requires IsPow2(n) && InTree(x, n) && Untouched(x, used)
    ensures InFrontier(y, n, used) && Within(x, y)
    decreases n - Width(x)
  {
    hide Lo, Hi, Width, Level, Left, Right, Parent, IsPow2;
    TreeClosed(x, n);
    if x == n - 1 || !Untouched(Parent(x), used) {
      y := x;
    } else {
      y := FrontierAbove(Parent(x), n, used);
    }
  }

  /** An unused leaf has exactly one frontier node above or at it; a used leaf has none. */
  lemma OneFrontierNode(n: nat, used: set<LeafIndex>, leaf: LeafIndex)
    requires IsPow2(n) && leaf < n
    ensures leaf in used ==> !exists x :: InFrontier(x, n, used) && Covers(x, leaf)
    ensures leaf !in used ==> exists x :: InFrontier(x, n, used) && Covers(x, leaf)
    ensures forall x, y ::
      InFrontier(x, n, used) && Covers(x, leaf) && InFrontier(y, n, used) && Covers(y, leaf) ==> x == y
  {
    hide Width, Level, Left, Right, Parent, IsPow2;
    if leaf !in used {
      var x := FrontierAbove(LeafNodeIndex(leaf), n, used);
      assert InFrontier(x, n, used) && Covers(x, leaf);
    }
    forall x, y | InFrontier(x, n, used) && Covers(x, leaf) && InFrontier(y, n, used) && Covers(y, leaf)
      ensures x == y
    {
      if x != y { FrontierApart(x, y, n, used); }
    }
  }

  /** The path `get` searches: the leaf and its ancestors. */
  ghost predicate IsPath(p: seq<NodeIndex>, n: nat) {
    && |p| > 0
    && p[|p| - 1] == n - 1
    && (forall j :: 0 <= j < |p| ==> InTree(p[j], n) && (p[j] == n - 1 ==> j == |p| - 1))
    && (forall j :: 0 <= j < |p| - 1 ==> p[j + 1] == Parent(p[j]))
  }

  lemma {:induction false} DirPathIsPath(x: NodeIndex, n: nat)
    requires IsPow2(n) && InTree(x, n)
    ensures IsPath([x] + DirPath(x, n), n)
    decreases n - Width(x)
  {
    hide Lo, Hi, Width, Level, Left, Right, Parent, IsPow2;
    TreeClosed(x, n);
    if x != n - 1 {
      DirPathIsPath(Parent(x), n);
      assert [x] + DirPath(x, n) == [x] + ([Parent(x)] + DirPath(Parent(x), n));
    }
  }

  lemma {:induction false} PathRises(p: seq<NodeIndex>, n: nat, i: nat, j: nat)
    requires IsPath(p, n) && i <= j < |p|
    ensures Within(p[i], p[j]) && (i < j ==> p[i] != p[j])
    decreases j - i
  {
    hide Lo, Hi, Width, Level, Left, Right, Parent, IsPow2;
    if i < j {
      PathRises(p, n, i + 1, j);
      Laminar(p[i], p[i + 1]);
      Laminar(p[i + 1], p[j]);
    }
  }

  /** On a path one node is in the frontier at most; below it the path is untouched, above it not. */
  lemma PathCrossesFrontier(p: seq<NodeIndex>, n: nat, used: set<LeafIndex>, f: nat)
    requires IsPow2(n) && IsPath(p, n) && f < |p| && InFrontier(p[f], n, used)
    ensures forall j :: 0 <= j < |p| ==> (Untouched(p[j], used) <==> j <= f)
    ensures forall j :: 0 <= j < |p| ==> (InFrontier(p[j], n, used) <==> j == f)
  {
    hide Lo, Hi, Width, Level, Left, Right, Parent, IsPow2;
    forall j | 0 <= j < |p| ensures Untouched(p[j], used) <==> j <= f {
      if j <= f {
        PathRises(p, n, j, f);
      } else {
        PathRises(p, n, f + 1, j);
      }
    }
    forall j | 0 <= j < |p| ensures InFrontier(p[j], n, used) <==> j == f {
      if j < f { assert Parent(p[j]) == p[j + 1]; }
    }
  }

  /** Siblings hanging off the path below position `f`, from position `from` on. */
  ghost predicate OnPath(p: seq<NodeIndex>, x: NodeIndex, from: nat, f: nat)
    requires f <= |p|
  {
    exists j :: from <= j < f && p[j] == x
  }

  ghost predicate OffPath(p: seq<NodeIndex>, x: NodeIndex, from: nat, f: nat)
    requires f <= |p|
  {
    exists j :: from <= j < f && Sibling(p[j]) == x
  }

  /** Using one more leaf replaces the frontier node above it by the siblings of the path down. */
  lemma FrontierAfter(p: seq<NodeIndex>, n: nat, used: set<LeafIndex>, f: nat, leaf: LeafIndex, x: NodeIndex)
    requires IsPow2(n) && IsPath(p, n) && p[0] == LeafNodeIndex(leaf)
    requires f < |p| && InFrontier(p[f], n, used)
    ensures InFrontier(x, n, used + {leaf}) <==>
      !OnPath(p, x, 0, |p|) && (InFrontier(x, n, used) || OffPath(p, x, 0, f))
  {
    hide Lo, Hi, Width, Level, Left, Right, Parent, Sibling, IsPow2;
    PathCrossesFrontier(p, n, used, f);
    PathIsAbove(p, n, leaf, x);
    if InTree(x, n) && x != n - 1 {
      TreeClosed(x, n);
      PathIsAbove(p, n, leaf, Parent(x));
      FrontierStep(p, n, used, f, leaf, x);
    } else {
      SiblingsInTree(p, n, f, x);
      hide IsPath, OnPath;
      RootFacts(n);
    }
  }

  /** Siblings along the path are in the tree, and none is its root. */
  lemma SiblingsInTree(p: seq<NodeIndex>, n: nat, f: nat, x: NodeIndex)
    requires IsPow2(n) && IsPath(p, n) && f < |p|
    ensures OffPath(p, x, 0, f) ==> InTree(x, n) && x != n - 1
  {
    hide Lo, Hi, Width, Level, Left, Right, Parent, Sibling, IsPow2;
    if j :| 0 <= j < f && Sibling(p[j]) == x {
      PathRises(p, n, j, |p| - 1);
      TreeClosed(p[j], n);
      SiblingFacts(p[j]);
      RootFacts(n);
    }
  }

  /** The path lists exactly the nodes of the tree above the leaf. */
  lemma {:induction false} PathIsAbove(p: seq<NodeIndex>, n: nat, leaf: LeafIndex, x: NodeIndex)
    requires IsPow2(n) && IsPath(p, n) && Covers(p[0], leaf)
    ensures InTree(x, n) && Covers(x, leaf) && Within(p[0], x) ==> OnPath(p, x, 0, |p|)
    ensures OnPath(p, x, 0, |p|) ==> InTree(x, n) && Covers(x, leaf)
    decreases |p|
  {
    hide Lo, Hi, Width, Level, Left, Right, Parent, Sibling, IsPow2;
    if OnPath(p, x, 0, |p|) {
      var j :| 0 <= j < |p| && p[j] == x;
      PathRises(p, n, 0, j);
    }
    if InTree(x, n) && Within(p[0], x) {
      if |p| == 1 {
        InTreeIsSpan(x, n);
        NodeFromInterval(x, p[0]);
        assert p[0] == x;
      } else if p[0] != x {
        Laminar(p[0], x);
        Laminar(p[1], x);
        Laminar(x, p[1]);
        PathIsAbove(p[1..], n, leaf, x);
        var j :| 0 <= j < |p| - 1 && p[1..][j] == x;
        assert p[j + 1] == x;
      } else {
        assert p[0] == x;
      }
    }
  }

  lemma FrontierStep(p: seq<NodeIndex>, n: nat, used: set<LeafIndex>, f: nat, leaf: LeafIndex, x: NodeIndex)
    requires IsPow2(n) && IsPath(p, n) && p[0] == LeafNodeIndex(leaf) && f < |p|
    requires InTree(x, n) && x != n - 1
    requires forall j :: 0 <= j < |p| ==> (Untouched(p[j], used) <==> j <= f)
    requires OnPath(p, x, 0, |p|) <==> Covers(x, leaf)
    requires OnPath(p, Parent(x), 0, |p|) <==> Covers(Parent(x), leaf)
    ensures InFrontier(x, n, used + {leaf}) <==>
      !OnPath(p, x, 0, |p|) && (InFrontier(x, n, used) || OffPath(p, x, 0, f))
  {
    hide Lo, Hi, Width, Level, Left, Right, Parent, Sibling, IsPow2, OnPath;
    assert Untouched(x, used + {leaf}) <==> Untouched(x, used) && !Covers(x, leaf);
    assert Untouched(Parent(x), used + {leaf}) <==> Untouched(Parent(x), used) && !Covers(Parent(x), leaf);
    if !Covers(x, leaf) && Covers(Parent(x), leaf) {
      HangsOff(p, n, leaf, x);
      var j :| 0 <= j < |p| - 1 && p[j + 1] == Parent(x) && Sibling(p[j]) == x;
      if j < f {
        assert OffPath(p, x, 0, f);
        assert Untouched(x, used) by { assert Untouched(p[j + 1], used); }
      } else {
        assert !Untouched(Parent(x), used);
        OffPathUnique(p, n, x, f, j);
      }
    } else if OffPath(p, x, 0, f) {
      var j :| 0 <= j < f && Sibling(p[j]) == x;
      PathRises(p, n, 0, j);
      SiblingFacts(p[j]);
    }
  }

  lemma SiblingFacts(x: NodeIndex)
    ensures Parent(Sibling(x)) == Parent(x) && Apart(x, Sibling(x)) && Within(x, Parent(x))
    ensures Sibling(Sibling(x)) == x
  {
    hide Lo, Hi, Width, Level, Left, Right, Parent;
    ParentOfChild(Parent(x));
  }

  lemma HangsOff(p: seq<NodeIndex>, n: nat, leaf: LeafIndex, x: NodeIndex)
    requires IsPow2(n) && IsPath(p, n) && p[0] == LeafNodeIndex(leaf)
    requires InTree(x, n) && x != n - 1 && !Covers(x, leaf) && Covers(Parent(x), leaf)
    requires OnPath(p, Parent(x), 0, |p|)
    ensures exists j :: 0 <= j < |p| - 1 && p[j + 1] == Parent(x) && Sibling(p[j]) == x
  {
    hide Lo, Hi, Width, Level, Left, Right, Parent, Sibling, IsPow2;
    var k :| 0 <= k < |p| && p[k] == Parent(x);
    assert !IsLeaf(p[k]);
    SiblingFacts(x);
    if k > 0 {
      PathRises(p, n, 0, k - 1);
      assert p[k - 1 + 1] == Parent(x) && Covers(p[k - 1], leaf);
      SameParentPair(x, p[k - 1]);
      assert Sibling(p[k - 1]) == x;
    }
  }

  lemma SameParentPair(x: NodeIndex, y: NodeIndex)
    requires Parent(x) == Parent(y) && x != y
    ensures Sibling(x) == y && Sibling(y) == x
  {
    hide Lo, Hi, Width, Level, Left, Right, Parent;
    ParentOfChild(Parent(x));
  }

  lemma OffPathUnique(p: seq<NodeIndex>, n: nat, x: NodeIndex, f: nat, j: nat)
    requires IsPath(p, n) && f <= j < |p| - 1 && Sibling(p[j]) == x
    ensures !OffPath(p, x, 0, f)
  {
    hide Lo, Hi, Width, Level, Left, Right, Parent, Sibling, IsPow2;
    forall i | 0 <= i < f ensures Sibling(p[i]) != x {
      PathRises(p, n, i, j);
      SiblingFacts(p[i]);
      SiblingFacts(p[j]);
    }
  }

  /** The search of `get` succeeds exactly for an unused leaf. */
  lemma FoundOnPath(p: seq<NodeIndex>, n: nat, used: set<LeafIndex>, leaf: LeafIndex)
    requires IsPow2(n) && IsPath(p, n) && p[0] == LeafNodeIndex(leaf)
    ensures (exists j :: 0 <= j < |p| && InFrontier(p[j], n, used)) <==> leaf !in used
  {
    hide Lo, Hi, Width, Level, Left, Right, Parent, Sibling, IsPow2;
    forall j | 0 <= j < |p| ensures Covers(p[j], leaf) {
      PathRises(p, n, 0, j);
    }
    if leaf !in used {
      var y := FrontierAbove(p[0], n, used);
      PathIsAbove(p, n, leaf, y);
    }
  }

  /** Both children of a node get the secret of the plain derivation. */
  lemma ChildSecrets(k: TreeKdf, top: Bytes, n: nat, x: NodeIndex)
    requires IsPow2(n) && InTree(x, n) && !IsLeaf(x)
    ensures InTree(Left(x), n) && InTree(Right(x), n)
    ensures NodeSecret(k, top, n, Left(x)) == ExpandTree(k, NodeSecret(k, top, n, x), LeftSide)
    ensures NodeSecret(k, top, n, Right(x)) == ExpandTree(k, NodeSecret(k, top, n, x), RightSide)
  {
    hide Lo, Hi, Width, Level, Left, Right, Parent, IsPow2, InTree;
    TreeClosed(x, n);
    ParentOfChild(x);
    InTreeIsSpan(x, n);
    InTreeIsSpan(Left(x), n);
    InTreeIsSpan(Right(x), n);
    RootFacts(n);
  }

  /** One step down the path adds the two children of a path node. */
  lemma ChildrenOfPath(p: seq<NodeIndex>, n: nat, curr: nat, f: nat, z: NodeIndex)
    requires IsPath(p, n) && 0 < curr <= f < |p|
    ensures !IsLeaf(p[curr]) && (p[curr - 1] == Left(p[curr]) || p[curr - 1] == Right(p[curr]))
    ensures OnPath(p, z, curr - 1, f) || OffPath(p, z, curr - 1, f) <==>
      OnPath(p, z, curr, f) || OffPath(p, z, curr, f) || z == Left(p[curr]) || z == Right(p[curr])
  {
    hide Lo, Hi, Width, Level, Left, Right, Parent, OnPath, OffPath, IsLeaf;
    assert p[curr] == Parent(p[curr - 1]) by { assert p[curr - 1 + 1] == Parent(p[curr - 1]); }
    ChildPair(p[curr - 1]);
    OnPathGrows(p, z, curr, f);
    OffPathGrows(p, z, curr, f);
  }

  /** A node and its sibling are the two children of their parent. */
  lemma ChildPair(y: NodeIndex)
    ensures var x := Parent(y);
      !IsLeaf(x) && ((y == Left(x) && Sibling(y) == Right(x)) || (y == Right(x) && Sibling(y) == Left(x)))
  {
    hide Lo, Hi, Width, Level, Left, Right, Parent;
    ParentOfChild(Parent(y));
  }

  lemma NoneOnPath(p: seq<NodeIndex>, f: nat)
    requires f <= |p|
    ensures forall x :: !OnPath(p, x, f, f) && !OffPath(p, x, f, f)
  {
    hide Sibling;
  }

  lemma OnPathGrows(p: seq<NodeIndex>, z: NodeIndex, curr: nat, f: nat)
    requires 0 < curr <= f < |p|
    ensures OnPath(p, z, curr - 1, f) <==> OnPath(p, z, curr, f) || z == p[curr - 1]
  {}

  lemma OffPathGrows(p: seq<NodeIndex>, z: NodeIndex, curr: nat, f: nat)
    requires 0 < curr <= f < |p|
    ensures OffPath(p, z, curr - 1, f) <==> OffPath(p, z, curr, f) || z == Sibling(p[curr - 1])
  {
    hide Sibling;
  }

  class SecretTree {
    const kdf: TreeKdf
    const groupSize: nat
    const root: NodeIndex
    ghost const top: Bytes
    ghost var used: set<LeafIndex>
    var secrets: map<NodeIndex, Bytes>

    /** What is stored is exactly the frontier, each node with the secret of the plain derivation. */
    ghost predicate Valid()
      reads this
    {
      && IsPow2(groupSize) && root == groupSize - 1
      && (forall x :: x in secrets <==> InFrontier(x, groupSize, used))
      && (forall x <- secrets :: secrets[x] == NodeSecret(kdf, top, groupSize, x))
    }

    constructor (kdf: TreeKdf, groupSizeIn: nat, encryptionSecret: Bytes)
      ensures Valid() && this.kdf == kdf && top == encryptionSecret && used == {}
      ensures IsPow2(groupSize) && groupSizeIn <= groupSize
    {
      hide Lo, Hi, Width, Level, Left, Right, Parent, Sibling, IsPow2;
      var w := ComputeFull(groupSizeIn);
      var r := Root(w).value;
      RootFacts(w);
      this.kdf, groupSize, root, top, used := kdf, w, r, encryptionSecret, {};
      secrets := map[r := encryptionSecret];
    }

    /** The secret of a leaf, once: a second request fails, and so does a leaf outside the tree. */
    method Get(sender: LeafIndex) returns (r: Result<Bytes>)
      requires Valid()
      modifies this
      ensures Valid()
      ensures sender >= groupSize ==> r == Err(InvalidParameter) && used == old(used)
      ensures sender < groupSize && sender in old(used) ==> r == Err(OutOfRange) && used == old(used)
      ensures sender < groupSize && sender !in old(used) ==>
        && used == old(used) + {sender}
        && InTree(LeafNodeIndex(sender), groupSize)
        && r == Ok(NodeSecret(kdf, top, groupSize, LeafNodeIndex(sender)))
    {
      hide Lo, Hi, Width, Level, Left, Right, Parent, Sibling, IsPow2, InFrontier;
      var node := LeafNodeIndex(sender);
      InTreeIsSpan(node, groupSize);
      var path :- ComputeDirPath(node, groupSize);
      ghost var p := [node] + path;
      DirPathIsPath(node, groupSize);
      path := [node] + path + [root];
      var curr := 0;
      while curr < |path| && path[curr] !in secrets
        invariant 0 <= curr <= |path|
        invariant forall j :: 0 <= j < curr ==> path[j] !in secrets
      {
        curr := curr + 1;
      }
      if curr > |path| { return Err(InvalidParameter); }
      FoundOnPath(p, groupSize, used, sender);
      assert forall j :: 0 <= j < |p| ==> path[j] == p[j];
      if curr == |path| {
        // `dirpath.at(curr)` is past the end
        return Err(OutOfRange);
      }
      r := Derive(sender, path, p, curr);
    }

    /** From the stored node `path[found]` down to the leaf, then erase the path. */
    method Derive(sender: LeafIndex, path: seq<NodeIndex>, ghost p: seq<NodeIndex>, found: nat)
      returns (r: Result<Bytes>)
      requires Valid()
      requires IsPath(p, groupSize) && path == p + [root] && p[0] == LeafNodeIndex(sender)
      requires found < |p| && p[found] in secrets
      modifies this
      ensures Valid() && used == old(used) + {sender}
      ensures r == Ok(NodeSecret(kdf, top, groupSize, p[0]))
    {
      hide Lo, Hi, Width, Level, Left, Right, Parent, Sibling, IsPow2, OnPath, OffPath, NodeSecret, ExpandTree, InTree;
      hide Expanded, InFrontier;
      var curr: nat := found;
      ExpandedAtStart(kdf, top, groupSize, used, p, found, secrets);
      while curr > 0
        invariant curr <= found && used == old(used)
        invariant Expanded(kdf, top, groupSize, used, p, curr, found, secrets) && p[curr] in secrets
      {
        var node := path[curr];
        var left, right := Left(node), Right(node);
        ghost var before := secrets;
        var secret := secrets[node];
        var leftSecret := ExpandTree(kdf, secret, LeftSide);
        var rightSecret := ExpandTree(kdf, secret, RightSide);
        secrets := secrets[left := leftSecret];
        secrets := secrets[right := rightSecret];
        ExpandStep(kdf, top, groupSize, used, p, curr, found, before, node, left, right, secrets);
        curr := curr - 1;
      }
      r := Ok(secrets[path[0]]);
      ghost var full := secrets;
      for i := 0 to |path|
        invariant used == old(used)
        invariant forall x :: x in secrets <==> x in full && x !in path[..i]
        invariant forall x <- secrets :: secrets[x] == full[x]
      {
        secrets := secrets - {path[i]};
      }
      assert path[..|path|] == path;
      EraseGivesFrontier(kdf, top, groupSize, used, p, found, sender, full);
      forall x ensures x in path <==> OnPath(p, x, 0, |p|) { PathElements(p, path, x); }
      used := used + {sender};
    }
  }

  /** The store while `get` works its way down: the frontier, the path nodes passed and their siblings. */
  ghost predicate Expanded(k: TreeKdf, top: Bytes, n: nat, used: set<LeafIndex>, p: seq<NodeIndex>,
      curr: nat, f: nat, secrets: map<NodeIndex, Bytes>)
    requires IsPow2(n) && f <= |p|
  {
    && (forall x :: x in secrets <==> InFrontier(x, n, used) || OnPath(p, x, curr, f) || OffPath(p, x, curr, f))
    && (forall x <- secrets :: InTree(x, n) && secrets[x] == NodeSecret(k, top, n, x))
  }

  lemma ExpandedAtStart(k: TreeKdf, top: Bytes, n: nat, used: set<LeafIndex>, p: seq<NodeIndex>,
      f: nat, secrets: map<NodeIndex, Bytes>)
    requires IsPow2(n) && f <= |p|
    requires forall x :: x in secrets <==> InFrontier(x, n, used)
    requires forall x <- secrets :: InFrontier(x, n, used) && secrets[x] == NodeSecret(k, top, n, x)
    ensures Expanded(k, top, n, used, p, f, f, secrets)
  {
    hide Lo, Hi, Width, Level, Left, Right, Parent, Sibling, IsPow2, OnPath, OffPath, NodeSecret;
    NoneOnPath(p, f);
  }

  lemma ExpandStep(k: TreeKdf, top: Bytes, n: nat, used: set<LeafIndex>, p: seq<NodeIndex>, curr: nat, f: nat,
      secrets: map<NodeIndex, Bytes>, x: NodeIndex, left: NodeIndex, right: NodeIndex, after: map<NodeIndex, Bytes>)
    requires IsPow2(n) && IsPath(p, n) && 0 < curr <= f < |p|
    requires Expanded(k, top, n, used, p, curr, f, secrets) && p[curr] in secrets
    requires x == p[curr] && left == Left(x) && right == Right(x)
    requires after == secrets[left := ExpandTree(k, secrets[x], LeftSide)][right := ExpandTree(k, secrets[x], RightSide)]
    ensures Expanded(k, top, n, used, p, curr - 1, f, after) && p[curr - 1] in after
  {
    hide Lo, Hi, Width, Level, Left, Right, Parent, Sibling, IsPow2, IsPath, IsLeaf, OnPath, OffPath, InFrontier;
    hide NodeSecret, ExpandTree, InTree;
    ChildrenOfPath(p, n, curr, f, x);
    ChildSecrets(k, top, n, x);
    assert left != right by { ParentOfChild(x); }
    forall z ensures z in after <==> InFrontier(z, n, used) || OnPath(p, z, curr - 1, f) || OffPath(p, z, curr - 1, f) {
      ChildrenOfPath(p, n, curr, f, z);
    }
  }

  lemma EraseGivesFrontier(k: TreeKdf, top: Bytes, n: nat, used: set<LeafIndex>, p: seq<NodeIndex>,
      f: nat, leaf: LeafIndex, full: map<NodeIndex, Bytes>)
    requires IsPow2(n) && IsPath(p, n) && f < |p| && p[0] == LeafNodeIndex(leaf) && InFrontier(p[f], n, used)
    requires Expanded(k, top, n, used, p, 0, f, full)
    ensures forall x :: x in full && !OnPath(p, x, 0, |p|) <==> InFrontier(x, n, used + {leaf})
    ensures forall x <- full :: InTree(x, n) && full[x] == NodeSecret(k, top, n, x)
  {
    hide Lo, Hi, Width, Level, Left, Right, Parent, Sibling, IsPow2, IsPath, IsLeaf, OffPath, InFrontier, NodeSecret, InTree;
    forall x ensures x in full && !OnPath(p, x, 0, |p|) <==> InFrontier(x, n, used + {leaf}) {
      FrontierAfter(p, n, used, f, leaf, x);
      if OnPath(p, x, 0, f) { var j :| 0 <= j < f && p[j] == x; }
    }
  }

  lemma PathElements(p: seq<NodeIndex>, path: seq<NodeIndex>, x: NodeIndex)
    requires |p| > 0 && path == p + [p[|p| - 1]]
    ensures x in path <==> OnPath(p, x, 0, |p|)
  {}

  /** The base secret of a sender's ratchet, derived from the root without any store. */
  ghost function ChainSecret(k: TreeKdf, top: Bytes, n: nat, use: RatchetType, sender: LeafIndex): Bytes
    requires IsPow2(n) && sender < n
  {
    InTreeIsSpan(LeafNodeIndex(sender), n);
    ExpandLeaf(k, NodeSecret(k, top, n, LeafNodeIndex(sender)), use)
  }

  type ChainKey = (RatchetType, LeafIndex)

  ghost predicate BothPerLeaf(keys: set<ChainKey>, used: set<LeafIndex>) {
    forall use, leaf :: (use, leaf) in keys <==> leaf in used
  }

  lemma TracksOneMore(keys: set<ChainKey>, used: set<LeafIndex>, leaf: LeafIndex, after: set<ChainKey>)
    requires BothPerLeaf(keys, used)
    requires after == keys + {(Handshake, leaf), (Application, leaf)}
    ensures BothPerLeaf(after, used + {leaf})
  {
    forall use, l ensures (use, l) in after <==> l in used + {leaf} {
      assert use == Handshake || use == Application;
    }
  }

  /** No two entries are the same object. */
  ghost predicate Unshared(chains: map<ChainKey, HashRatchet>) {
    forall j, k :: j in chains && k in chains && j != k ==> chains[j] != chains[k]
  }

  lemma UnsharedTwoMore(chains: map<ChainKey, HashRatchet>, j: ChainKey, k: ChainKey, a: HashRatchet, b: HashRatchet)
    requires Unshared(chains) && a !in chains.Values && b !in chains.Values && a != b && j != k
    requires j !in chains && k !in chains
    ensures Unshared(chains[j := a][k := b])
  {
    var m := chains[j := a][k := b];
    forall x, y | x in m && y in m && x != y ensures m[x] != m[y] {
      assert x in chains ==> m[x] in chains.Values;
      assert y in chains ==> m[y] in chains.Values;
    }
  }

  class GroupKeySource {
    const tree: SecretTree
    var chains: map<ChainKey, HashRatchet>

    ghost function Repr(): set<object>
      reads this
    {
      {this, tree} + set k | k in chains :: chains[k]
    }

    /** A ratchet continues the plain derivation of its sender's leaf. */
    ghost predicate ChainOk(k: ChainKey, c: HashRatchet)
      reads c
    {
      && c.Valid() && c.kdf == tree.kdf.ratchet
      && IsPow2(tree.groupSize) && k.1 < tree.groupSize && InTree(LeafNodeIndex(k.1), tree.groupSize)
      && c.base == tree.kdf.expandLeaf(NodeSecret(tree.kdf, tree.top, tree.groupSize, LeafNodeIndex(k.1)), k.0)
    }

    /** A leaf has been taken from the tree exactly when both its ratchets exist. */
    ghost predicate Valid()
      reads this, Repr()
    {
      && tree.Valid()
      && BothPerLeaf(chains.Keys, tree.used)
      && (forall k <- chains :: ChainOk(k, chains[k]))
      && Unshared(chains)
    }

    constructor (kdf: TreeKdf, groupSize: nat, encryptionSecret: Bytes)
      ensures Valid() && fresh(Repr()) && chains == map[]
      ensures tree.kdf == kdf && tree.top == encryptionSecret && groupSize <= tree.groupSize
    {
      tree := new SecretTree(kdf, groupSize, encryptionSecret);
      chains := map[];
    }

    method NewChain(use: RatchetType, sender: LeafIndex, leafSecret: Bytes) returns (c: HashRatchet)
      requires IsPow2(tree.groupSize) && sender < tree.groupSize && InTree(LeafNodeIndex(sender), tree.groupSize)
      requires leafSecret == NodeSecret(tree.kdf, tree.top, tree.groupSize, LeafNodeIndex(sender))
      ensures fresh(c) && ChainOk((use, sender), c) && c.Value() == Ratchet(c.base, 0, map[])
    {
      hide InTree, NodeSecret, IsPow2, LeafNodeIndex, Follows;
      c := new HashRatchet(tree.kdf.ratchet, ExpandLeaf(tree.kdf, leafSecret, use));
    }

    /** `chain`: the leaf secret is asked for only when neither ratchet of the leaf exists, so the
        request never fails for a leaf of the tree, however often and in whatever order it is made. */
    method Chain(use: RatchetType, sender: LeafIndex) returns (r: Result<HashRatchet>)
      requires Valid()
      modifies Repr()
      ensures Valid() && fresh(Repr() - old(Repr()))
      ensures sender >= tree.groupSize ==> r == Err(InvalidParameter) && chains == old(chains)
      ensures sender < tree.groupSize ==> (use, sender) in chains && r == Ok(chains[(use, sender)])
      ensures r.Ok? ==>
        && IsPow2(tree.groupSize) && InTree(LeafNodeIndex(sender), tree.groupSize)
        && r.value.base == tree.kdf.expandLeaf(NodeSecret(tree.kdf, tree.top, tree.groupSize, LeafNodeIndex(sender)), use)
      ensures forall k <- old(chains) :: k in chains && chains[k] == old(chains[k]) && chains[k].Value() == old(chains[k].Value())
      ensures (use, sender) !in old(chains) && r.Ok? ==> r.value.Value() == Ratchet(r.value.base, 0, map[])
    {
      hide InTree, NodeSecret, IsPow2, InFrontier, LeafNodeIndex;
      var key := (use, sender);
      if key in chains {
        assert ChainOk(key, chains[key]);
        return Ok(chains[key]);
      }
      assert key in chains.Keys <==> sender in tree.used;
      hide BothPerLeaf, ChainOk, Unshared;
      var leafSecret :- tree.Get(sender);
      Install(sender, leafSecret);
      r := Ok(chains[key]);
    }

    /** Both ratchets of a leaf whose secret has just been taken from the tree. */
    method Install(sender: LeafIndex, leafSecret: Bytes)
      requires tree.Valid() && sender in tree.used && sender < tree.groupSize
      requires BothPerLeaf(chains.Keys, tree.used - {sender}) && Unshared(chains)
      requires forall k <- chains :: ChainOk(k, chains[k])
      requires IsPow2(tree.groupSize) && InTree(LeafNodeIndex(sender), tree.groupSize)
      requires leafSecret == NodeSecret(tree.kdf, tree.top, tree.groupSize, LeafNodeIndex(sender))
      modifies this`chains
      ensures Valid() && chains.Keys == old(chains.Keys) + {(Handshake, sender), (Application, sender)}
      ensures forall k <- chains :: if k in old(chains) then chains[k] == old(chains)[k] else fresh(chains[k])
      ensures forall k <- chains :: k !in old(chains) ==> chains[k].Value() == Ratchet(chains[k].base, 0, map[])
    {
      hide InTree, NodeSecret, IsPow2, InFrontier, LeafNodeIndex, ChainOk, Unshared, SecretTree.Valid, HashRatchet.Valid;
      var h := NewChain(Handshake, sender, leafSecret);
      var a := NewChain(Application, sender, leafSecret);
      assert (Handshake, sender) !in chains.Keys && (Application, sender) !in chains.Keys;
      hide BothPerLeaf;
      UnsharedTwoMore(chains, (Handshake, sender), (Application, sender), h, a);
      TracksOneMore(chains.Keys, tree.used - {sender}, sender, chains.Keys + {(Handshake, sender), (Application, sender)});
      chains := chains[(Handshake, sender) := h][(Application, sender) := a];
      assert tree.used - {sender} + {sender} == tree.used;
    }

    /** The next keys of a sender: the plain derivation at the generation returned. */
    method Next(use: RatchetType, sender: LeafIndex) returns (r: Result<(nat, KeyAndNonce)>)
      requires Valid()
      modifies Repr()
      ensures fresh(Repr() - old(Repr()))
      ensures r.Err? || r.value.0 < MAX_GENERATION ==> Valid()
      ensures r == if sender >= tree.groupSize then Err(InvalidParameter) else
          var g := if (use, sender) in old(chains) then old(chains[(use, sender)].nextGeneration) else 0;
          Ok((g, KeysAt(tree.kdf.ratchet, ChainSecret(tree.kdf, tree.top, tree.groupSize, use, sender), g)))
    {
      hide InTree, NodeSecret, IsPow2, InFrontier, Follows, LeafNodeIndex, Advance;
      var ratchet :- Chain(use, sender);
      var g, keys := ratchet.Next();
      r := Ok((g, keys));
    }

    /** Keys by generation: the plain derivation, unless that generation was erased. */
    method Get(use: RatchetType, sender: LeafIndex, generation: nat) returns (r: Result<KeyAndNonce>)
      requires Valid() && generation < MAX_GENERATION
      modifies Repr()
      ensures Valid() && fresh(Repr() - old(Repr()))
      ensures r == if sender >= tree.groupSize then Err(InvalidParameter)
        else if (use, sender) in old(chains) && old(chains[(use, sender)].nextGeneration) > generation &&
                generation !in old(chains[(use, sender)].cache) then Err(Protocol)
        else Ok(KeysAt(tree.kdf.ratchet, ChainSecret(tree.kdf, tree.top, tree.groupSize, use, sender), generation))
    {
      hide InTree, NodeSecret, IsPow2, InFrontier, Follows, LeafNodeIndex, AfterGet;
      var ratchet :- Chain(use, sender);
      r := ratchet.Get(generation);
    }

    method Erase(use: RatchetType, sender: LeafIndex, generation: nat) returns (r: Result<()>)
      requires Valid()
      modifies Repr()
      ensures Valid() && fresh(Repr() - old(Repr()))
      ensures r.Ok? <==> sender < tree.groupSize
      ensures r.Ok? ==> (use, sender) in chains && generation !in chains[(use, sender)].cache
    {
      hide InTree, NodeSecret, IsPow2, InFrontier, Follows, LeafNodeIndex, ChainSecret;
      var ratchet :- Chain(use, sender);
      ratchet.Erase(generation);
      r := Ok(());
    }
  }
}
