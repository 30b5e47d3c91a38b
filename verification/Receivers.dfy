/** Receivers and joiners of a commit. */
module Receivers {
  import opened Wrappers
  import opened TreeMath
  import opened Crypto
  import opened RatchetTree
  import opened TreeInvariant
  import opened TreePaths
  import opened Views
  import opened Agreement
  import opened Implanting

  // --------------------------------------------------------------------------
  // Who receives
  // --------------------------------------------------------------------------

  /** A member's filtered path is empty exactly when nobody else is there. */
  lemma AloneIff(t: Tree, from: LeafIndex)
    requires WF(t) && IsPow2(t.size) && from < t.size
    ensures FilteredPath(t, LeafNodeIndex(from)) == [] <==> forall l :: OccLeaf(t, l) ==> l == from
  {
    hide Lo, Hi, Width, Level, Left, Right, IsPow2, Resolve, FilteredPath, OffPath, UnmergedOk, Populated;
    OccLeafInTree(t, from);
    var x0 := LeafNodeIndex(from);
    var fp := FilteredPath(t, x0);
    forall l | OccLeaf(t, l) && l != from ensures fp != [] { Overlap(t, from, l); }
    if fp != [] {
      FilteredPathFacts(t, x0);
      ResolveMembers(t, OffPath(x0, fp[0].node));
      var l :| Covers(OffPath(x0, fp[0].node), l) && OccLeaf(t, l);
      OffPathStep(x0, fp[0].node);
    }
  }

  /** The parent-hash check of a received path passes for what a commit sends exactly when there is somebody
      to receive it: a sole member's leaf carries a parent hash, an empty one, where the check wants none. */
  lemma SentPathChecked(s: Suite, t: Tree, from: LeafIndex, secret: Bytes, rest: Bytes, t': Tree, cv: View,
                        context: Bytes, except: seq<LeafIndex>, coins: Coins)
    requires Commits(s, t, from, secret, rest, t', cv)
    ensures from < t.size && IsPow2(t.size)
    ensures var path := SentPath(s, t, from, secret, rest, t', cv, context, except, coins);
      && (PathParentHashValid(s, t, from, path) <==> exists l :: OccLeaf(t, l) && l != from)
      && ((forall l :: OccLeaf(t, l) ==> l == from) ==> path.nodes == [] && path.leaf.content == CommitSource([]))
  {
    hide Lo, Hi, Width, Level, Left, Right, IsPow2, Resolve, FilteredPath, PathParentHashValid, Merge, Views.Update, UnmergedOk,
      Populated, SentPath, KeyOf, PublicOf;
    SentPathMerges(s, t, from, secret, rest, t', cv, context, except, coins);
    AloneIff(t, from);
    SentPathKeys(s, t, from, secret, rest, t', cv, context, except, coins);
  }

  // --------------------------------------------------------------------------
  // After the secret of the common ancestor has arrived
  // --------------------------------------------------------------------------

  lemma CommitMerged(s: Suite, t: Tree, from: LeafIndex, secret: Bytes, rest: Bytes, t': Tree, cv: View)
    requires Commits(s, t, from, secret, rest, t', cv)
    ensures PathMerged(t, from, t')
  {
    hide Lo, Hi, Update, FilteredPath, Merge, WF, CommitPath;
    CommitTree(s, t, from, secret, rest, t', cv);
    assert forall k :: 0 <= k < |CommitNodes(t, from)| ==> CommitNode(s, t', from, CommitNodes(t, from)[k], secret, k);
  }

  /** The committer's keys from an entry on are those of the secret of that entry. */
  lemma CommitPublished(s: Suite, t: Tree, from: LeafIndex, secret: Bytes, rest: Bytes, t': Tree, cv: View, k: nat)
    requires Commits(s, t, from, secret, rest, t', cv) && from < t.size && IsPow2(t.size) && k < |CommitNodes(t, from)|
    ensures var f := CommitNodes(t, from);
      && f[k] in cv.secrets && Published(s, t', f, k, cv.secrets[f[k]])
      && (forall m :: k <= m < |f| ==> f[m] in cv.secrets && cv.secrets[f[m]] == PathSecret(s, cv.secrets[f[k]], m - k))
      && cv.updateSecret == PathSecret(s, cv.secrets[f[k]], |f| - k)
  {
    hide Lo, Hi, Width, Level, IsPow2, Update, FilteredPath, Merge, WF, CommitPath, PathSecret, CommitNodes, KeyOf, PublicOf;
    CommitTree(s, t, from, secret, rest, t', cv);
    CommitView(s, t, from, secret, rest, t', cv);
    var f := CommitNodes(t, from);
    PathSecretAdd(s, secret, k + 1, |f| - k);
    forall m | k <= m < |f|
      ensures cv.secrets[f[m]] == PathSecret(s, cv.secrets[f[k]], m - k)
      ensures Occ(t', f[m]) && KeyOfNode(t', f[m]) == PublicOf(s, KeyOf(s, PathSecret(s, cv.secrets[f[k]], m - k)))
    {
      PathSecretAdd(s, secret, k + 1, m - k);
      assert CommitNode(s, t', from, f[m], secret, m);
    }
  }

  /** A member that held valid keys before the commit fits the new tree once the secret of the common
      ancestor is implanted, and agrees with the committer on the update secret and on every shared
      path secret. */
  lemma Implanted(s: Suite, t: Tree, from: LeafIndex, secret: Bytes, rest: Bytes, t': Tree, cv: View, v: View, w: View)
    returns (k: nat, r: View)
    requires Commits(s, t, from, secret, rest, t', cv)
    requires ViewOk(s, t, v) && Inside(t, v) && v.index != from && Absorbs(s, v, w)
    ensures from < t.size && IsPow2(t.size) && t'.size == t.size
    ensures var f := CommitNodes(t, from);
      && k < |f| && f[k] == Ancestor(from, v.index) && f[k] in cv.secrets
      && r == ImplantChain(s, w, f[k..], cv.secrets[f[k]])
      && k == FirstAbove(FilteredPath(t', LeafNodeIndex(from)), v.index)
    ensures ViewOk(s, t', r) && Inside(t', r) && Checked(s, t', r) == Ok(r)
    ensures Agree(t', cv, r) && r.index == v.index
  {
    hide Lo, Hi, Width, Level, Left, Right, IsPow2, Resolve, FilteredPath, Update, PathSecret, CommitPath, UnmergedOk,
      Populated, ImplantChain, Ancestor, ViewOk, Inside, Absorbs, Checked, Published, HasTail, Agree, PathMerged;
    CommitTreeFits(s, t, from, secret, rest, t', cv);
    CommitMerged(s, t, from, secret, rest, t', cv);
    OccLeafAfter(s, t, from, secret, rest, t', cv, v.index) by { hide *; FittingLeaf(s, t, v); }
    k := MeetsAt(t, from, t', v.index);
    CommitPublished(s, t, from, secret, rest, t', cv, k);
    var first := cv.secrets[CommitNodes(t, from)[k]];
    r := ImplantTail(s, t, from, w, k, first);
    AbsorbsIndex(s, v, w);
    ImplantedFits(s, t, from, t', v, w, r, k, first);
    TailAgrees(s, t, from, secret, rest, t', cv, w, r, k);
  }

  lemma FittingLeaf(s: Suite, t: Tree, v: View)
    requires ViewOk(s, t, v)
    ensures OccLeaf(t, v.index)
  {}

  /** Committer and member share the update secret and the secrets of all common occupied ancestors. */
  ghost predicate Agree(t: Tree, a: View, b: View) {
    && a.updateSecret == b.updateSecret
    && (forall n :: OccParent(t, n) && Covers(n, a.index) && Covers(n, b.index) ==>
          n in a.secrets && n in b.secrets && a.secrets[n] == b.secrets[n])
  }

  lemma TailAgrees(s: Suite, t: Tree, from: LeafIndex, secret: Bytes, rest: Bytes, t': Tree, cv: View, w: View, r: View,
                   k: nat)
    requires Commits(s, t, from, secret, rest, t', cv) && from < t.size && IsPow2(t.size)
    requires k < |CommitNodes(t, from)| && CommitNodes(t, from)[k] in cv.secrets
    requires HasTail(s, CommitNodes(t, from), k, cv.secrets[CommitNodes(t, from)[k]], w, r)
    requires forall m :: 0 <= m < |CommitNodes(t, from)| ==> (m >= k <==> Covers(CommitNodes(t, from)[m], w.index))
    ensures Agree(t', cv, r)
  {
    hide Lo, Hi, Width, Level, Left, Right, IsPow2, Resolve, FilteredPath, Update, PathSecret, CommitPath, UnmergedOk,
      Populated, WF, CommitNodes, Published, OthersKept;
    CommitTree(s, t, from, secret, rest, t', cv);
    CommitterIndex(s, t, from, secret, rest, t', cv);
    CommitPublished(s, t, from, secret, rest, t', cv, k);
    var f := CommitNodes(t, from);
    forall n | OccParent(t', n) && Covers(n, from) && Covers(n, r.index)
      ensures n in r.secrets && n in cv.secrets && r.secrets[n] == cv.secrets[n]
    {
      assert n in f by { assert n != LeafNodeIndex(from) by { assert OccLeaf(t', from); } }
      var m :| 0 <= m < |f| && f[m] == n;
      assert m >= k;
    }
  }

  // --------------------------------------------------------------------------
  // Decrypting the path secret
  // --------------------------------------------------------------------------

  /** The member's place in the recipients of entry `k`: some node there it holds a key for. */
  lemma HeldRecipient(s: Suite, t: Tree, from: LeafIndex, secret: Bytes, rest: Bytes, t': Tree, cv: View, v: View,
                      except: seq<LeafIndex>, k: nat)
    returns (held: NodeIndex)
    requires Commits(s, t, from, secret, rest, t', cv) && from < t.size && IsPow2(t.size) && t'.size == t.size
    requires ViewOk(s, t, v) && v.index != from && v.index !in except
    requires k == FirstAbove(FilteredPath(t', LeafNodeIndex(from)), v.index) < |FilteredPath(t', LeafNodeIndex(from))|
    ensures var res := RemoveLeaves(FilteredPath(t', LeafNodeIndex(from))[k].resolution, except);
      && held in res && Have(v, held)
      && (forall r :: r in res ==> Occ(t', r) && Occ(t, r) && NodeAt(t', r) == NodeAt(t, r))
      && (forall r :: r in res && OccParent(t', r) ==> (Have(v, r) <==> Covers(r, v.index) && v.index !in Unmerged(t', r)))
  {
    hide Lo, Hi, Width, Level, Left, Right, IsPow2, Resolve, FilteredPath, Update, PathSecret, CommitPath, UnmergedOk,
      Populated, OffPath, RemoveLeaves, Ancestor;
    CommitTree(s, t, from, secret, rest, t', cv);
    var i := v.index;
    LeafKept(t, t', from, i);
    Overlap(t', from, i);
    var x0 := LeafNodeIndex(from);
    OccLeafInTree(t', from);
    var fp := FilteredPath(t', x0);
    FilteredPathFacts(t', x0);
    var off := OffPath(x0, fp[k].node);
    OffPathStep(x0, fp[k].node);
    ResolveMembers(t', off);
    RemoveLeavesSubset(fp[k].resolution, except);
    forall r | r in RemoveLeaves(fp[k].resolution, except)
      ensures Occ(t', r) && Occ(t, r) && NodeAt(t', r) == NodeAt(t, r)
      ensures OccParent(t', r) ==> (Have(v, r) <==> Covers(r, i) && i !in Unmerged(t', r))
    {
      assert r in Resolve(t', off);
      assert !Covers(r, from);
      assert NodeAt(t', r) == NodeAt(t, r);
    }
    held := ResolutionReaches(t', off, i);
    assert !Covers(held, from) by { assert Within(held, off); }
    assert NodeAt(t', held) == NodeAt(t, held);
  }

  /** `encap` sealed the committer's path secret of entry `k` to every recipient of that entry. */
  lemma SealedTo(s: Suite, t: Tree, from: LeafIndex, secret: Bytes, rest: Bytes, t': Tree, cv: View,
                 context: Bytes, except: seq<LeafIndex>, coins: Coins, k: nat)
    requires Commits(s, t, from, secret, rest, t', cv) && from < t.size && IsPow2(t.size) && t'.size == t.size
    requires k < |FilteredPath(t', LeafNodeIndex(from))|
    ensures var path := SentPath(s, t, from, secret, rest, t', cv, context, except, coins);
      var e := FilteredPath(t', LeafNodeIndex(from))[k];
      var res := RemoveLeaves(e.resolution, except);
      && e.node in cv.secrets && k < |path.nodes|
      && |path.nodes[k].encrypted| == |res|
      && (forall j :: 0 <= j < |res| ==>
            && Occ(t', res[j])
            && path.nodes[k].encrypted[j] ==
                 Seal(s, KeyOfNode(t', res[j]), context, cv.secrets[e.node], coins(e.node, res[j])))
  {
    hide Lo, Hi, Width, Level, Left, Right, IsPow2, Resolve, FilteredPath, Update, PathSecret, CommitPath, UnmergedOk,
      Populated, OffPath, RemoveLeaves;
    CommitterHasSecrets(s, t, from, secret, rest, t', cv);
    var fp := FilteredPath(t', LeafNodeIndex(from));
    EncapRecipients(t', from, fp, k, except);
    var path := SentPath(s, t, from, secret, rest, t', cv, context, except, coins);
    assert path.nodes[k] == EncapNode(s, t', cv, k, context, except, coins);
  }

  /** The receiver finds a recipient it holds a key for, and decrypts the secret of the common ancestor. */
  lemma ReceiverOpens(s: Suite, t: Tree, from: LeafIndex, secret: Bytes, rest: Bytes, t': Tree, cv: View, v: View,
                      context: Bytes, except: seq<LeafIndex>, coins: Coins)
    returns (k: nat, j: nat)
    requires DecryptionWorks(s) && Commits(s, t, from, secret, rest, t', cv)
    requires ViewOk(s, t, v) && v.index != from && v.index !in except
    ensures from < t.size && IsPow2(t.size) && t'.size == t.size && WF(t')
    ensures var fp := FilteredPath(t', LeafNodeIndex(from));
      var path := SentPath(s, t, from, secret, rest, t', cv, context, except, coins);
      && k == FirstAbove(fp, v.index) < |fp| == |path.nodes|
      && (var res := RemoveLeaves(fp[k].resolution, except);
          && |res| == |path.nodes[k].encrypted| && j == FirstHeld(v, res) < |res|
          && fp[k].node in cv.secrets
          && Open(s, KeyAt(s, v, res[j]).value, context, path.nodes[k].encrypted[j]) == Some(cv.secrets[fp[k].node]))
  {
    hide Lo, Hi, Width, Level, Left, Right, IsPow2, Resolve, FilteredPath, Update, PathSecret, CommitPath, UnmergedOk,
      Populated, OffPath, RemoveLeaves, ImplantChain, SentPath, ParentsOk, Commits, Ancestor, WF;
    CommitTreeFits(s, t, from, secret, rest, t', cv);
    SentPathMerges(s, t, from, secret, rest, t', cv, context, except, coins);
    OccLeafAfter(s, t, from, secret, rest, t', cv, v.index);
    CommitMerged(s, t, from, secret, rest, t', cv);
    k := MeetsAt(t, from, t', v.index);
    var fp := FilteredPath(t', LeafNodeIndex(from));
    assert |CommitNodes(t, from)| == |fp|;
    var held := HeldRecipient(s, t, from, secret, rest, t', cv, v, except, k);
    SealedTo(s, t, from, secret, rest, t', cv, context, except, coins, k);
    var res := RemoveLeaves(fp[k].resolution, except);
    j := FirstHeld(v, res);
    var m :| 0 <= m < |res| && res[m] == held;
    RecipientKey(s, t, t', v, res[j]);
  }

  lemma OccLeafAfter(s: Suite, t: Tree, from: LeafIndex, secret: Bytes, rest: Bytes, t': Tree, cv: View, i: LeafIndex)
    requires Commits(s, t, from, secret, rest, t', cv) && i != from && OccLeaf(t, i)
    ensures OccLeaf(t', i) && LeafAt(t', i) == LeafAt(t, i)
  {
    hide Update, WF, FilteredPath, Merge;
    CommitTree(s, t, from, secret, rest, t', cv);
    LeafKept(t, t', from, i);
  }

  /** `implant` and `implant_matching` from the common ancestor do the same. */
  lemma ImplantIsChain(s: Suite, t: Tree, from: LeafIndex, secret: Bytes, rest: Bytes, t': Tree, cv: View, w: View,
                       k: nat, ks: Bytes)
    requires Commits(s, t, from, secret, rest, t', cv) && from < t.size && IsPow2(t.size) && k < |CommitNodes(t, from)|
    ensures var f := CommitNodes(t, from);
      && t'.size == t.size && InTree(f[k], t'.size)
      && Implant(s, t', w, f[k], ks) == ImplantChain(s, w, f[k..], ks)
      && ImplantMatching(s, t', w, f[k], ks) == ImplantChain(s, w, f[k..], ks)
  {
    hide Commits, PathMerged, ImplantChain, FilteredPath, OccupiedPath, CommitNodes, Implant, ImplantMatching;
    CommitTreeFits(s, t, from, secret, rest, t', cv);
    CommitMerged(s, t, from, secret, rest, t', cv);
    ImplantedChains(s, t, from, t', w, k, ks);
  }

  /** Commit agreement: every other old member that is not a joiner of this commit decrypts the path,
      its new view fits the new tree, and it shares the update secret and all common path secrets
      with the committer. */
  lemma ReceiverAgrees(s: Suite, t: Tree, from: LeafIndex, secret: Bytes, rest: Bytes, t': Tree, cv: View, v: View,
                       context: Bytes, except: seq<LeafIndex>, coins: Coins)
    returns (r: View)
    requires DecryptionWorks(s) && Commits(s, t, from, secret, rest, t', cv)
    requires ViewOk(s, t, v) && Inside(t, v) && v.index != from && v.index !in except
    ensures WF(t')
    ensures Decap(s, t', v, from, context, SentPath(s, t, from, secret, rest, t', cv, context, except, coins), except) == Ok(r)
    ensures ViewOk(s, t', r) && Inside(t', r) && Agree(t', cv, r) && r.index == v.index
  {
    hide Lo, Hi, Width, Level, IsPow2, FilteredPath, RemoveLeaves, ImplantChain, SentPath, ViewOk, Inside, Agree, Checked,
      Commits, Ancestor, Implant, WithKey, UnmergedOk, Populated;
    var k, j := ReceiverOpens(s, t, from, secret, rest, t', cv, v, context, except, coins);
    var fp := FilteredPath(t', LeafNodeIndex(from));
    var node := RemoveLeaves(fp[k].resolution, except)[j];
    WithKeyAbsorbs(s, v, node);
    var k'; k', r := Implanted(s, t, from, secret, rest, t', cv, v, WithKey(s, v, node));
    CommitTreeFits(s, t, from, secret, rest, t', cv);
    assert CommitNodes(t, from)[k] == fp[k].node;
    ImplantIsChain(s, t, from, secret, rest, t', cv, WithKey(s, v, node), k, cv.secrets[fp[k].node]);
  }

  lemma CommitTreeFits(s: Suite, t: Tree, from: LeafIndex, secret: Bytes, rest: Bytes, t': Tree, cv: View)
    requires Commits(s, t, from, secret, rest, t', cv)
    ensures from < t.size && IsPow2(t.size) && t'.size == t.size && WF(t') && WF(t)
    ensures FilteredPath(t', LeafNodeIndex(from)) == FilteredPath(t, LeafNodeIndex(from))
    ensures CommitNodes(t, from) == Nodes(FilteredPath(t', LeafNodeIndex(from)))
  {
    hide Update;
    CommitTree(s, t, from, secret, rest, t', cv);
  }

  lemma RecipientKey(s: Suite, t: Tree, t': Tree, v: View, n: NodeIndex)
    requires WF(t) && ViewOk(s, t, v) && Have(v, n) && Occ(t, n) && Occ(t', n) && NodeAt(t', n) == NodeAt(t, n)
    ensures PublicOf(s, KeyAt(s, v, n).value) == KeyOfNode(t', n)
  {
    hide Lo, Hi, WF, ViewOk;
    KeyFits(s, t, v, n);
  }

  // --------------------------------------------------------------------------
  // The variant used by group states: coordinates computed from the tree
  // --------------------------------------------------------------------------

  datatype Coords = Coords(entry: nat, recipient: nat, node: NodeIndex)

  /** `decap_coords`: the entry at the common ancestor and, among its recipients, the first node
      above the member.  Both exist for an occupied leaf that is not a joiner. */
  ghost function DecapCoords(t: Tree, to: LeafIndex, from: LeafIndex, joiners: seq<LeafIndex>): (c: Coords)
    requires WF(t) && OccLeaf(t, to) && from < t.size && to != from && to !in joiners && IsPow2(t.size)
    ensures var fp := FilteredPath(t, LeafNodeIndex(from));
      && c.entry < |fp| && fp[c.entry].node == Ancestor(to, from)
      && (var res := RemoveLeaves(fp[c.entry].resolution, joiners);
          && c.recipient < |res| && c.node == res[c.recipient] && Covers(c.node, to)
          && (forall m :: 0 <= m < c.recipient ==> !Covers(res[m], to)))
  {
    CoordsExist(t, to, from, joiners);
    var fp := FilteredPath(t, LeafNodeIndex(from));
    var k := FirstAbove(fp, to);
    var res := RemoveLeaves(fp[k].resolution, joiners);
    var j := FirstCovering(res, to);
    Coords(k, j, res[j])
  }

  lemma CoordsExist(t: Tree, to: LeafIndex, from: LeafIndex, joiners: seq<LeafIndex>)
    requires WF(t) && OccLeaf(t, to) && from < t.size && to != from && to !in joiners && IsPow2(t.size)
    ensures var fp := FilteredPath(t, LeafNodeIndex(from));
      var k := FirstAbove(fp, to);
      && k < |fp| && fp[k].node == Ancestor(to, from)
      && (var res := RemoveLeaves(fp[k].resolution, joiners); FirstCovering(res, to) < |res|)
  {
    hide Lo, Hi, Width, Level, IsPow2, FilteredPath, RemoveLeaves, Ancestor, UnmergedOk, Populated, Resolve, OffPath;
    Overlap(t, from, to);
    AncestorSymmetric(from, to);
    var fp := FilteredPath(t, LeafNodeIndex(from));
    var k := FirstAbove(fp, to);
    RemoveLeavesSubset(fp[k].resolution, joiners);
    var r := ResolutionReaches(t, OffPath(LeafNodeIndex(from), fp[k].node), to);
    var res := RemoveLeaves(fp[k].resolution, joiners);
    assert r in res;
    var m :| 0 <= m < |res| && res[m] == r;
  }

  lemma SameCoords(t: Tree, u: Tree, to: LeafIndex, from: LeafIndex, joiners: seq<LeafIndex>)
    requires WF(t) && OccLeaf(t, to) && from < t.size && to != from && to !in joiners && IsPow2(t.size)
    requires WF(u) && OccLeaf(u, to) && u.size == t.size
    requires FilteredPath(u, LeafNodeIndex(from)) == FilteredPath(t, LeafNodeIndex(from))
    ensures DecapCoords(u, to, from, joiners) == DecapCoords(t, to, from, joiners)
  {
    hide Lo, Hi, Width, Level, IsPow2, FilteredPath, WF, OccLeaf, Ancestor, FirstAbove, FirstCovering, RemoveLeaves;
  }

  lemma RecipientOffPath(t: Tree, to: LeafIndex, from: LeafIndex, joiners: seq<LeafIndex>)
    requires WF(t) && OccLeaf(t, to) && from < t.size && to != from && to !in joiners && IsPow2(t.size)
    ensures !Covers(DecapCoords(t, to, from, joiners).node, from)
  {
    hide Lo, Hi, Width, Level, Left, Right, IsPow2, Resolve, FilteredPath, UnmergedOk, Populated, RemoveLeaves, OffPath, Ancestor,
      FirstAbove, FirstCovering, Within, Apart;
    OccLeafInTree(t, from);
    var x0 := LeafNodeIndex(from);
    var c, fp := DecapCoords(t, to, from, joiners), FilteredPath(t, x0);
    hide DecapCoords;
    FilteredPathFacts(t, x0);
    RemoveLeavesSubset(fp[c.entry].resolution, joiners);
    var off := OffPath(x0, fp[c.entry].node);
    ResolveMembers(t, off);
    OffPathStep(x0, fp[c.entry].node);
    InsideIsApart(x0, off, c.node);
  }

  lemma InsideIsApart(x: NodeIndex, y: NodeIndex, z: NodeIndex)
    requires Apart(x, y) && Within(z, y) && IsLeaf(x)
    ensures !Covers(z, x / 2)
  {
    hide Width, Level, Left, Right;
    LeafFacts(x);
  }

  /** The coordinates are the same in the tree before the path is merged, and so is who is unmerged at the
      recipient: it is off the committer's path. */
  lemma SameRecipient(s: Suite, t: Tree, from: LeafIndex, secret: Bytes, rest: Bytes, t': Tree, cv: View, to: LeafIndex,
                      joiners: seq<LeafIndex>)
    requires Commits(s, t, from, secret, rest, t', cv) && OccLeaf(t, to) && to != from && to !in joiners
    ensures from < t.size && WF(t') && t'.size == t.size && IsPow2(t.size) && OccLeaf(t', to)
    ensures var c := DecapCoords(t, to, from, joiners);
      DecapCoords(t', to, from, joiners) == c && Unmerged(t', c.node) == Unmerged(t, c.node)
  {
    hide Lo, Hi, Width, Level, Left, Right, IsPow2, Resolve, FilteredPath, Views.Update, Merge, CommitPath, UnmergedOk, Populated,
      DecapCoords, PathSecret, Covers;
    CommitTree(s, t, from, secret, rest, t', cv);
    LeafKept(t, t', from, to);
    SameCoords(t, t', to, from, joiners);
    RecipientOffPath(t, to, from, joiners);
    var n := DecapCoords(t, to, from, joiners).node;
    assert NodeAt(t', n) == NodeAt(t, n);
  }

  /** The two variants of `decap` compared.  The variant with coordinates works exactly when the
      member is merged into the first recipient above it, and then gives the same view; otherwise it
      asks for a key the member does not hold. */
  lemma CoordsDecap(s: Suite, t: Tree, from: LeafIndex, secret: Bytes, rest: Bytes, t': Tree, cv: View, v: View,
                    context: Bytes, joiners: seq<LeafIndex>, coins: Coins)
    returns (r: View)
    requires DecryptionWorks(s) && Commits(s, t, from, secret, rest, t', cv)
    requires ViewOk(s, t, v) && Inside(t, v) && v.index != from && v.index !in joiners
    ensures from < t'.size && IsPow2(t'.size) && WF(t') && OccLeaf(t', v.index)
    ensures var path := SentPath(s, t, from, secret, rest, t', cv, context, joiners, coins);
      var c := DecapCoords(t', v.index, from, joiners);
      && c.entry < |path.nodes| && c.recipient < |path.nodes[c.entry].encrypted|
      && Decap(s, t', v, from, context, path, joiners) == Ok(r)
      && DecapAt(s, t', v, from, context, c.node, path.nodes[c.entry].encrypted[c.recipient]) ==
           if v.index in Unmerged(t', c.node) then Err(BadOptional) else Ok(r)
    ensures ViewOk(s, t', r) && Inside(t', r) && Agree(t', cv, r) && r.index == v.index
  {
    hide Lo, Hi, Width, Level, IsPow2, FilteredPath, RemoveLeaves, ImplantChain, SentPath, Inside, Agree, Checked,
      Ancestor, Implant, ImplantMatching, WithKey, UnmergedOk, Populated, ParentsOk, Commits, Decap, DecapAt;
    var k, j := ReceiverOpens(s, t, from, secret, rest, t', cv, v, context, joiners, coins);
    r := ReceiverAgrees(s, t, from, secret, rest, t', cv, v, context, joiners, coins);
    OccLeafAfter(s, t, from, secret, rest, t', cv, v.index);
    var c := DecapCoords(t', v.index, from, joiners);
    SameEntry(t', from, v.index, c, k);
    HeldIsFirst(s, t, from, secret, rest, t', cv, v, joiners, k, j, c);
    if v.index in Unmerged(t', c.node) {
      DecapAtWithoutKey(s, t', v, from, context, c.node,
        SentPath(s, t, from, secret, rest, t', cv, context, joiners, coins).nodes[c.entry].encrypted[c.recipient]);
    } else {
      SameResult(s, t, from, secret, rest, t', cv, v, context, joiners, coins, k, j);
    }
  }

  lemma DecapAtWithoutKey(s: Suite, t: Tree, v: View, from: LeafIndex, context: Bytes, node: NodeIndex, sealed: Bytes)
    requires Shape(t) && !Have(v, node)
    ensures DecapAt(s, t, v, from, context, node, sealed) == Err(BadOptional)
  {
    hide ImplantMatching, Ancestor, Checked;
  }

  lemma SameEntry(t: Tree, from: LeafIndex, i: LeafIndex, c: Coords, k: nat)
    requires IsPow2(t.size) && from < t.size && k == FirstAbove(FilteredPath(t, LeafNodeIndex(from)), i)
    requires WF(t) && OccLeaf(t, i) && i != from
    requires c.entry < |FilteredPath(t, LeafNodeIndex(from))|
    requires FilteredPath(t, LeafNodeIndex(from))[c.entry].node == Ancestor(i, from)
    ensures c.entry == k
  {
    hide Lo, Hi, Width, Level, IsPow2, FilteredPath, Ancestor, UnmergedOk, Populated, Resolve, OffPath;
    Overlap(t, from, i);
    AncestorSymmetric(from, i);
    OccLeafInTree(t, from);
    FilteredPathFacts(t, LeafNodeIndex(from));
  }

  /** The first node above the member among the recipients is the one whose key it holds, unless the
      member is unmerged there. */
  lemma HeldIsFirst(s: Suite, t: Tree, from: LeafIndex, secret: Bytes, rest: Bytes, t': Tree, cv: View, v: View,
                    joiners: seq<LeafIndex>, k: nat, j: nat, c: Coords)
    requires Commits(s, t, from, secret, rest, t', cv) && from < t.size && IsPow2(t.size) && t'.size == t.size
    requires ViewOk(s, t, v) && v.index != from && v.index !in joiners
    requires k == FirstAbove(FilteredPath(t', LeafNodeIndex(from)), v.index) < |FilteredPath(t', LeafNodeIndex(from))|
    requires var res := RemoveLeaves(FilteredPath(t', LeafNodeIndex(from))[k].resolution, joiners);
      && j == FirstHeld(v, res) < |res|
      && c.recipient < |res| && c.node == res[c.recipient] && Covers(c.node, v.index)
      && (forall m :: 0 <= m < c.recipient ==> !Covers(res[m], v.index))
    ensures Have(v, c.node) <==> v.index !in Unmerged(t', c.node)
    ensures Have(v, c.node) ==> j == c.recipient
  {
    hide Lo, Hi, Width, Level, IsPow2, FilteredPath, RemoveLeaves, UnmergedOk, Populated, Commits;
    var held := HeldRecipient(s, t, from, secret, rest, t', cv, v, joiners, k);
    var res := RemoveLeaves(FilteredPath(t', LeafNodeIndex(from))[k].resolution, joiners);
    assert res[j] in res && c.node in res;
    assert Covers(res[j], v.index);
    if !OccParent(t', c.node) {
      LeafOnly(s, t, from, secret, rest, t', cv, c.node, v.index);
    }
  }

  lemma LeafOnly(s: Suite, t: Tree, from: LeafIndex, secret: Bytes, rest: Bytes, t': Tree, cv: View, n: NodeIndex, i: LeafIndex)
    requires Commits(s, t, from, secret, rest, t', cv) && Occ(t', n) && !OccParent(t', n) && Covers(n, i)
    ensures n == LeafNodeIndex(i)
  {
    hide Update, FilteredPath, Merge;
    CommitTree(s, t, from, secret, rest, t', cv);
    assert IsLeaf(n);
  }

  lemma SameResult(s: Suite, t: Tree, from: LeafIndex, secret: Bytes, rest: Bytes, t': Tree, cv: View, v: View,
                   context: Bytes, joiners: seq<LeafIndex>, coins: Coins, k: nat, j: nat)
    requires Commits(s, t, from, secret, rest, t', cv) && from < t.size && IsPow2(t.size) && t'.size == t.size && WF(t')
    requires v.index != from && OccLeaf(t', v.index)
    requires var fp := FilteredPath(t', LeafNodeIndex(from));
      var path := SentPath(s, t, from, secret, rest, t', cv, context, joiners, coins);
      && k == FirstAbove(fp, v.index) < |fp| == |path.nodes|
      && (var res := RemoveLeaves(fp[k].resolution, joiners);
          && |res| == |path.nodes[k].encrypted| && j == FirstHeld(v, res) < |res|
          && fp[k].node in cv.secrets
          && Open(s, KeyAt(s, v, res[j]).value, context, path.nodes[k].encrypted[j]) == Some(cv.secrets[fp[k].node]))
    ensures var path := SentPath(s, t, from, secret, rest, t', cv, context, joiners, coins);
      var node := RemoveLeaves(FilteredPath(t', LeafNodeIndex(from))[k].resolution, joiners)[j];
      DecapAt(s, t', v, from, context, node, path.nodes[k].encrypted[j]) == Decap(s, t', v, from, context, path, joiners)
  {
    hide Lo, Hi, Width, Level, IsPow2, FilteredPath, RemoveLeaves, ImplantChain, SentPath, Checked,
      Commits, Ancestor, Implant, ImplantMatching, WithKey, UnmergedOk, Populated;
    var fp := FilteredPath(t', LeafNodeIndex(from));
    var w := WithKey(s, v, RemoveLeaves(fp[k].resolution, joiners)[j]);
    CommitTreeFits(s, t, from, secret, rest, t', cv);
    Overlap(t', from, v.index);
    assert CommitNodes(t, from)[k] == fp[k].node == Ancestor(from, v.index);
    ImplantIsChain(s, t, from, secret, rest, t', cv, w, k, cv.secrets[fp[k].node]);
  }

  // --------------------------------------------------------------------------
  // Joining
  // --------------------------------------------------------------------------

  /** A leaf that was just added is unmerged at every occupied node above it. */
  ghost predicate FreshLeaf(t: Tree, i: LeafIndex) {
    OccLeaf(t, i) && forall n :: OccParent(t, n) && Covers(n, i) ==> i in Unmerged(t, n)
  }

  /** A joiner of a commit without a path holds its leaf key only, which is all a fresh leaf may hold. */
  lemma JoinerAlone(s: Suite, t: Tree, i: LeafIndex, key: PrivateKey, at: NodeIndex)
    returns (v: View)
    requires WF(t) && FreshLeaf(t, i) && PublicOf(s, key) == LeafAt(t, i).encryptionKey
    ensures Joiner(s, t, i, key, at, None) == Ok(v)
    ensures ViewOk(s, t, v) && Inside(t, v) && v.index == i
  {
    hide Lo, Hi, Width, Level, IsPow2, UnmergedOk, Populated, ImplantMatching;
    OccLeafInTree(t, i);
    v := View(i, [], map[], map[LeafNodeIndex(i) := key]);
    assert forall n :: Have(v, n) <==> n == LeafNodeIndex(i);
  }

  /** A joiner that gets the path secret of the common ancestor ends with the committer's secrets. */
  lemma JoinerAgrees(s: Suite, t: Tree, from: LeafIndex, secret: Bytes, rest: Bytes, t': Tree, cv: View,
                     i: LeafIndex, key: PrivateKey)
    returns (r: View)
    requires Commits(s, t, from, secret, rest, t', cv) && i != from
    requires FreshLeaf(t, i) && PublicOf(s, key) == LeafAt(t, i).encryptionKey
    ensures WF(t') && SharedPathSecret(cv, i).Some?
    ensures Joiner(s, t', i, key, Ancestor(i, from), SharedPathSecret(cv, i)) == Ok(r)
    ensures ViewOk(s, t', r) && Inside(t', r) && Agree(t', cv, r) && r.index == i
  {
    hide Lo, Hi, Width, Level, IsPow2, FilteredPath, RemoveLeaves, ImplantChain, Checked, Inside, ViewOk, Agree,
      Commits, Ancestor, Implant, ImplantMatching, UnmergedOk, Populated, WF;
    CommitTreeFits(s, t, from, secret, rest, t', cv);
    var v := JoinerAlone(s, t, i, key, 0);
    assert v == View(i, [], map[], map[LeafNodeIndex(i) := key]);
    assert Absorbs(s, v, v);
    var k; k, r := Implanted(s, t, from, secret, rest, t', cv, v, v);
    AncestorSymmetric(from, i);
    CommitterIndex(s, t, from, secret, rest, t', cv);
    ImplantIsChain(s, t, from, secret, rest, t', cv, v, k, cv.secrets[CommitNodes(t, from)[k]]);
  }

  lemma CommitterIndex(s: Suite, t: Tree, from: LeafIndex, secret: Bytes, rest: Bytes, t': Tree, cv: View)
    requires Commits(s, t, from, secret, rest, t', cv)
    ensures cv.index == from
  {
    hide Update, CommitNodes;
    CommitView(s, t, from, secret, rest, t', cv);
  }
}
