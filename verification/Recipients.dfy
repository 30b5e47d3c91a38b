/** Who a path is encrypted to: which nodes a resolution lists, in which order, what is left of it without the
    new leaves, and that every member can open exactly one of the ciphertexts. */
module Recipients {
  import opened TreeMath
  import opened Crypto
  import opened RatchetTree
  import opened TreeInvariant
  import opened TreePaths
  import opened Views
  import opened Agreement
  import opened Receivers

  // --------------------------------------------------------------------------
  // Resolutions
  // --------------------------------------------------------------------------

  /** A resolution (section 4.1.1 of RFC 9420) lists the occupied nodes below that have no occupied node above
      them, and the leaves that are unmerged at every occupied node above them. */
  ghost predicate Resolves(t: Tree, x: NodeIndex, r: NodeIndex) {
    && Occ(t, r) && Within(r, x)
    && forall y :: Occ(t, y) && Within(r, y) && Within(y, x) && y != r ==> IsLeaf(r) && r / 2 in Unmerged(t, y)
  }

  lemma {:induction false} ResolutionIff(t: Tree, x: NodeIndex, r: NodeIndex)
    requires WF(t)
    ensures r in Resolve(t, x) <==> Resolves(t, x, r)
    decreases Level(x)
  {
    hide Lo, Hi, Width, Level, Left, Right, IsPow2;
    if Occ(t, x) {
      OccupiedIff(t, x, r);
    } else if IsLeaf(x) {
      if Within(r, x) { LeafHasNothingBelow(x, r); }
    } else {
      BlankIff(t, x, r);
      ResolutionIff(t, Left(x), r);
      ResolutionIff(t, Right(x), r);
    }
  }

  lemma LeafHasNothingBelow(x: NodeIndex, r: NodeIndex)
    requires IsLeaf(x) && Within(r, x)
    ensures r == x
  {
    InsideOneChild(r, x);
  }

  lemma OccupiedIff(t: Tree, x: NodeIndex, r: NodeIndex)
    requires WF(t) && Occ(t, x)
    ensures r in Resolve(t, x) <==> Resolves(t, x, r)
  {
    hide Lo, Hi, Width, Level, Left, Right, IsPow2, Populated, UnmergedOk, LeafNodes, Unmerged, WF;
    var us := LeafNodes(Unmerged(t, x));
    assert r in Resolve(t, x) <==> r == x || r in us;
    if r in us { UnmergedResolves(t, x, r); }
    if r == x { OnlyItself(x); }
    UnmergedListed(t, x, r);
    assert Resolves(t, x, r) && r != x ==> r in us by { assert Within(x, x); }
  }

  lemma OnlyItself(x: NodeIndex)
    ensures Within(x, x) && forall y :: Within(x, y) && Within(y, x) ==> y == x
  {
    hide Lo, Hi, Width;
    forall y | Within(x, y) && Within(y, x) ensures y == x { NodeFromInterval(x, y); }
  }

  /** An unmerged leaf is unmerged at every occupied node on the way. */
  lemma UnmergedResolves(t: Tree, x: NodeIndex, r: NodeIndex)
    requires WF(t) && Occ(t, x) && r in LeafNodes(Unmerged(t, x))
    ensures Resolves(t, x, r)
  {
    hide Lo, Hi, Width, Level, Left, Right, IsPow2, Populated;
    var us := LeafNodes(Unmerged(t, x));
    var k :| 0 <= k < |us| && us[k] == r;
    var u := Unmerged(t, x)[k];
    assert u in Unmerged(t, x) && r == LeafNodeIndex(u) && r / 2 == u && IsLeaf(r);
    forall y | Occ(t, y) && Within(r, y) && Within(y, x) && y != r ensures u in Unmerged(t, y) {
      InsideOneChild(r, y);
      assert OccParent(t, y);
    }
  }

  lemma UnmergedListed(t: Tree, x: NodeIndex, r: NodeIndex)
    ensures IsLeaf(r) && r / 2 in Unmerged(t, x) ==> r in LeafNodes(Unmerged(t, x))
  {
    if IsLeaf(r) && r / 2 in Unmerged(t, x) {
      var k :| 0 <= k < |Unmerged(t, x)| && Unmerged(t, x)[k] == r / 2;
      assert LeafNodes(Unmerged(t, x))[k] == LeafNodeIndex(r / 2) == r;
    }
  }

  lemma BlankIff(t: Tree, x: NodeIndex, r: NodeIndex)
    requires !Occ(t, x) && !IsLeaf(x)
    ensures Resolves(t, x, r) <==> Resolves(t, Left(x), r) || Resolves(t, Right(x), r)
  {
    hide Lo, Hi, Width, Level, Left, Right, IsPow2, Unmerged;
    ChildWithin(x);
    forall c | c == Left(x) || c == Right(x) ensures Within(r, c) ==> (Resolves(t, x, r) <==> Resolves(t, c, r)) {
      if Within(r, c) {
        forall y | Occ(t, y) && Within(r, y) ensures Within(y, x) <==> Within(y, c) { BelowOneChild(x, c, r, y); }
      }
    }
    if Within(r, x) && Occ(t, r) { InsideOneChild(r, x); }
  }

  lemma BelowOneChild(x: NodeIndex, c: NodeIndex, r: NodeIndex, y: NodeIndex)
    requires !IsLeaf(x) && (c == Left(x) || c == Right(x)) && Within(r, c) && Within(r, y) && y != x
    ensures Within(y, x) <==> Within(y, c)
  {
    hide Lo, Hi, Width, Level, Left, Right;
    ChildWithin(x);
    Laminar(y, c);
    if Within(y, x) { InsideOneChild(y, x); }
  }

  /** From left to right, and a node before those below it. */
  ghost predicate Precedes(a: NodeIndex, b: NodeIndex) { Lo(a) < Lo(b) || (Lo(a) == Lo(b) && Hi(a) > Hi(b)) }

  ghost predicate Sorted(s: seq<NodeIndex>) { forall i, j :: 0 <= i < j < |s| ==> Precedes(s[i], s[j]) }

  lemma UnmergedSorted(t: Tree, x: NodeIndex)
    requires WF(t) && Occ(t, x)
    ensures Sorted([x] + LeafNodes(Unmerged(t, x)))
  {
    hide Lo, Hi, Width, Level, Left, Right, IsPow2, Populated;
    var us := Unmerged(t, x);
    var res := [x] + LeafNodes(us);
    forall i, j | 0 <= i < j < |res| ensures Precedes(res[i], res[j]) {
      assert res[j] == LeafNodeIndex(us[j - 1]) && us[j - 1] in us;
      if i > 0 { assert res[i] == LeafNodeIndex(us[i - 1]); }
    }
  }

  lemma SidesSorted(x: NodeIndex, a: seq<NodeIndex>, b: seq<NodeIndex>)
    requires !IsLeaf(x) && Sorted(a) && Sorted(b)
    requires (forall r <- a :: Within(r, Left(x))) && (forall r <- b :: Within(r, Right(x)))
    ensures Sorted(a + b)
  {
    hide Lo, Hi, Width, Level, Left, Right;
    ChildWithin(x);
    forall i, j | 0 <= i < j < |a + b| ensures Precedes((a + b)[i], (a + b)[j]) {
      if i < |a| <= j { assert a[i] in a && b[j - |a|] in b; }
    }
  }

  lemma SortedDistinct(s: seq<NodeIndex>)
    requires Sorted(s)
    ensures Distinct(s)
  {
    hide Lo, Hi;
    forall i, j | 0 <= i < j < |s| ensures s[i] != s[j] { assert Precedes(s[i], s[j]); }
  }

  /** Resolutions are in that order, so they name no node twice. */
  lemma {:induction false} ResolutionSorted(t: Tree, x: NodeIndex)
    requires WF(t)
    ensures Sorted(Resolve(t, x)) && Distinct(Resolve(t, x))
    decreases Level(x)
  {
    hide Lo, Hi, Width, Level, Left, Right, IsPow2, Populated, UnmergedOk, Sorted, Distinct, LeafNodes, Unmerged, WF;
    if Occ(t, x) {
      UnmergedSorted(t, x);
    } else if IsLeaf(x) {
      NothingSorted();
    } else {
      ResolutionSorted(t, Left(x));
      ResolutionSorted(t, Right(x));
      ResolveMembers(t, Left(x));
      ResolveMembers(t, Right(x));
      SidesSorted(x, Resolve(t, Left(x)), Resolve(t, Right(x)));
    }
    SortedDistinct(Resolve(t, x));
  }

  lemma NothingSorted()
    ensures Sorted([])
  {}

  // --------------------------------------------------------------------------
  // What is left of a resolution
  // --------------------------------------------------------------------------

  ghost predicate Before(s: seq<NodeIndex>, x: NodeIndex, y: NodeIndex) {
    exists i, j :: 0 <= i < j < |s| && s[i] == x && s[j] == y
  }

  /** `part` names elements of `all` in the same order, each once. */
  ghost predicate InOrder(all: seq<NodeIndex>, part: seq<NodeIndex>) {
    && Distinct(part) && (forall x <- part :: x in all)
    && forall i, j :: 0 <= i < j < |part| ==> Before(all, part[i], part[j])
  }

  lemma InOrderOfItself(s: seq<NodeIndex>)
    requires Distinct(s)
    ensures InOrder(s, s)
  {}

  lemma InOrderTransitive(a: seq<NodeIndex>, b: seq<NodeIndex>, c: seq<NodeIndex>)
    requires InOrder(a, b) && InOrder(b, c)
    ensures InOrder(a, c)
  {
    forall i, j | 0 <= i < j < |c| ensures Before(a, c[i], c[j]) {
      assert Before(b, c[i], c[j]);
      var x, y :| 0 <= x < y < |b| && b[x] == c[i] && b[y] == c[j];
      assert Before(a, b[x], b[y]);
    }
  }

  lemma {:induction false} RemoveFirstExact(s: seq<NodeIndex>, v: NodeIndex)
    requires Distinct(s)
    ensures InOrder(s, RemoveFirst(s, v))
    ensures forall x :: x in RemoveFirst(s, v) <==> x in s && x != v
  {
    if s != [] {
      var r := RemoveFirst(s, v);
      if s[0] == v {
        forall i, j | 0 <= i < j < |r| ensures Before(s, r[i], r[j]) { assert s[i + 1] == r[i] && s[j + 1] == r[j]; }
        assert v !in s[1..];
      } else {
        var rest := RemoveFirst(s[1..], v);
        RemoveFirstExact(s[1..], v);
        hide RemoveFirst;
        assert r == [s[0]] + rest && s[0] !in s[1..];
        forall i, j | 0 <= i < j < |r| ensures Before(s, r[i], r[j]) { BeforeInRest(s, rest, i, j); }
        assert Distinct(r);
      }
    }
  }

  lemma BeforeInRest(s: seq<NodeIndex>, rest: seq<NodeIndex>, i: nat, j: nat)
    requires s != [] && InOrder(s[1..], rest) && i < j < |rest| + 1
    ensures Before(s, ([s[0]] + rest)[i], ([s[0]] + rest)[j])
  {
    var r := [s[0]] + rest;
    if i == 0 {
      assert r[j] == rest[j - 1] && rest[j - 1] in rest;
      var k :| 0 <= k < |s[1..]| && s[1..][k] == r[j];
      assert s[0] == r[0] && s[k + 1] == r[j];
    } else {
      assert Before(s[1..], rest[i - 1], rest[j - 1]);
      var x, y :| 0 <= x < y < |s[1..]| && s[1..][x] == rest[i - 1] && s[1..][y] == rest[j - 1];
      assert s[x + 1] == r[i] && s[y + 1] == r[j];
    }
  }

  ghost predicate Excluded(except: seq<LeafIndex>, x: NodeIndex) { exists l :: l in except && x == LeafNodeIndex(l) }

  /** `remove_leaves`, on a list without duplicates: what is no excluded leaf, in the same order. */
  lemma {:induction false} RemoveLeavesExact(res: seq<NodeIndex>, except: seq<LeafIndex>)
    requires Distinct(res)
    ensures InOrder(res, RemoveLeaves(res, except))
    ensures forall x :: x in RemoveLeaves(res, except) <==> x in res && !Excluded(except, x)
    decreases |except|
  {
    hide RemoveFirst;
    if except == [] {
      InOrderOfItself(res);
    } else {
      var one := RemoveFirst(res, LeafNodeIndex(except[0]));
      RemoveFirstExact(res, LeafNodeIndex(except[0]));
      RemoveLeavesExact(one, except[1..]);
      InOrderTransitive(res, one, RemoveLeaves(one, except[1..]));
      forall x ensures Excluded(except, x) <==> x == LeafNodeIndex(except[0]) || Excluded(except[1..], x) {
        if l :| l in except && x == LeafNodeIndex(l) && l != except[0] { assert l in except[1..]; }
      }
    }
  }

  // --------------------------------------------------------------------------
  // The ciphertexts of a path
  // --------------------------------------------------------------------------

  /** The recipients of an entry: its resolution without the excluded leaves, in order. */
  ghost predicate AreRecipients(resolution: seq<NodeIndex>, except: seq<LeafIndex>, to: seq<NodeIndex>) {
    && InOrder(resolution, to)
    && (forall x :: x in to <==> x in resolution && !Excluded(except, x))
  }

  /** `encap`, entry by entry: one ciphertext of the node's path secret for each recipient and for nobody else. */
  lemma EncapTo(s: Suite, t: Tree, v: View, context: Bytes, except: seq<LeafIndex>, coins: Coins, i: nat)
    returns (to: seq<NodeIndex>)
    requires WF(t) && OccLeaf(t, v.index) && v.index < t.size && HasSecrets(v, FilteredPath(t, LeafNodeIndex(v.index)))
    requires i < |FilteredPath(t, LeafNodeIndex(v.index))|
    ensures var fp, path := FilteredPath(t, LeafNodeIndex(v.index)), Encap(s, t, v, context, except, coins);
      && |path.nodes| == |fp| && path.leaf == LeafAt(t, v.index)
      && AreRecipients(fp[i].resolution, except, to) && AllOcc(t, to)
      && KeyAt(s, v, fp[i].node).Some? && path.nodes[i].publicKey == s.publicOf(KeyAt(s, v, fp[i].node).value)
      && |path.nodes[i].encrypted| == |to|
      && forall j :: 0 <= j < |to| ==>
           path.nodes[i].encrypted[j] ==
             s.seal(KeyOfNode(t, to[j]), context, v.secrets[fp[i].node], coins(fp[i].node, to[j]))
    ensures forall l <- except :: LeafNodeIndex(l) !in to
  {
    hide Lo, Hi, Width, Level, IsPow2, UnmergedOk, Populated, FilteredPath, RemoveLeaves, Resolve, OffPath, InOrder, Excluded;
    OccLeafInTree(t, v.index);
    var fp := FilteredPath(t, LeafNodeIndex(v.index));
    FilteredPathFacts(t, LeafNodeIndex(v.index));
    ResolutionSorted(t, OffPath(LeafNodeIndex(v.index), fp[i].node));
    EncapRecipients(t, v.index, fp, i, except);
    to := RemoveLeaves(fp[i].resolution, except);
    RemoveLeavesExact(fp[i].resolution, except);
    forall l <- except ensures LeafNodeIndex(l) !in to {
      assert Excluded(except, LeafNodeIndex(l)) by { hide *; IsExcluded(except, l); }
    }
    assert Encap(s, t, v, context, except, coins).nodes[i] == EncapNode(s, t, v, i, context, except, coins);
  }

  lemma IsExcluded(except: seq<LeafIndex>, l: LeafIndex)
    requires l in except
    ensures Excluded(except, LeafNodeIndex(l))
  {}

  /** A member can open what is encrypted to its leaf or to a node that it is merged into. */
  ghost predicate Opens(t: Tree, n: NodeIndex, l: LeafIndex) {
    n == LeafNodeIndex(l) || (OccParent(t, n) && Covers(n, l) && l !in Unmerged(t, n))
  }

  lemma OpensOne(t: Tree, x: NodeIndex, l: LeafIndex, a: NodeIndex, b: NodeIndex)
    requires WF(t) && a in Resolve(t, x) && b in Resolve(t, x) && Opens(t, a, l) && Opens(t, b, l)
    ensures a == b
  {
    hide Lo, Hi, Width, Level, IsPow2, UnmergedOk, Populated, Resolve;
    ResolutionIff(t, x, a);
    ResolutionIff(t, x, b);
    Laminar(a, b);
    if a != b {
      if Within(a, b) { NotBoth(t, x, l, a, b); } else { NotBoth(t, x, l, b, a); }
    }
  }

  lemma NotBoth(t: Tree, x: NodeIndex, l: LeafIndex, a: NodeIndex, b: NodeIndex)
    requires Resolves(t, x, a) && Resolves(t, x, b) && Opens(t, a, l) && Opens(t, b, l) && Within(a, b)
    ensures a == b
  {
    hide Lo, Hi, Width, Level, IsPow2, Unmerged;
    assert Covers(a, l) && (IsLeaf(a) ==> a == LeafNodeIndex(a / 2) && a / 2 == l);
    if b == LeafNodeIndex(l) { LeafHasNothingBelow(b, a); }
  }

  lemma NotExcluded(t: Tree, except: seq<LeafIndex>, r: NodeIndex, l: LeafIndex)
    requires Shape(t) && Opens(t, r, l) && l !in except
    ensures !Excluded(except, r)
  {
    hide Lo, Hi, IsPow2;
    forall e | e in except ensures r != LeafNodeIndex(e) { assert LeafNodeIndex(e) == 2 * e; }
  }

  /** Every member below the other child of an entry can open exactly one of the ciphertexts made for it, unless it
      is excluded and new, and then it can open none. */
  lemma OneForEach(t: Tree, x: NodeIndex, except: seq<LeafIndex>, to: seq<NodeIndex>, l: LeafIndex)
    requires WF(t) && OccLeaf(t, l) && Covers(x, l) && AreRecipients(Resolve(t, x), except, to)
    ensures l !in except ==> exists j :: 0 <= j < |to| && Opens(t, to[j], l)
    ensures l in except && FreshLeaf(t, l) ==> forall j :: 0 <= j < |to| ==> !Opens(t, to[j], l)
    ensures forall i, j :: 0 <= i < |to| && 0 <= j < |to| && Opens(t, to[i], l) && Opens(t, to[j], l) ==> i == j
  {
    hide Lo, Hi, Width, Level, IsPow2, UnmergedOk, Populated, Resolve, Covers;
    if l !in except {
      var r := ResolutionReaches(t, x, l);
      NotExcluded(t, except, r, l);
      var j :| 0 <= j < |to| && to[j] == r;
      assert Opens(t, to[j], l);
    }
    forall j | 0 <= j < |to| && l in except && FreshLeaf(t, l) ensures !Opens(t, to[j], l) {
      assert to[j] in to;
      IsExcluded(except, l);
    }
    forall i, j | 0 <= i < |to| && 0 <= j < |to| && Opens(t, to[i], l) && Opens(t, to[j], l) ensures i == j {
      assert to[i] in to && to[j] in to;
      OpensOne(t, x, l, to[i], to[j]);
    }
  }
}
