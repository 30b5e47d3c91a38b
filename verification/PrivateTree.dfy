/** `TreeKEMPrivateKey`, the private view that is changed in place, and the two operations of
    `TreeKEMPublicKey` that produce and use it, `update` and `encap`. */
module PrivateTree {
  import opened Wrappers
  import opened TreeMath
  import opened Crypto
  import opened RatchetTree
  import opened TreeInvariant
  import opened TreePaths
  import opened PublicTree
  import opened Views

  lemma {:induction false} LeastElement(keys: set<nat>)
    requires keys != {}
    ensures exists n :: n in keys && forall m :: m in keys ==> n <= m
  {
    var a :| a in keys;
    var rest := keys - {a};
    if rest == {} {
      assert keys == {a};
    } else {
      LeastElement(rest);
      var b :| b in rest && forall m :: m in rest ==> b <= m;
      var n := if a < b then a else b;
      assert forall m :: m in keys ==> m == a || m in rest;
      assert n in keys && forall m :: m in keys ==> n <= m;
    }
  }

  class TreeKEMPrivateKey {
    const suite: Suite
    var index: LeafIndex
    var updateSecret: Bytes
    var pathSecrets: map<NodeIndex, Bytes>
    var keyCache: map<NodeIndex, PrivateKey>

    ghost function V(): View
      reads this
    {
      View(index, updateSecret, pathSecrets, keyCache)
    }

    constructor (s: Suite, i: LeafIndex)
      ensures suite == s && V() == View(i, [], map[], map[])
    {
      suite, index, updateSecret, pathSecrets, keyCache := s, i, [], map[], map[];
    }

    // ------------------------------------------------------------------------
    // Keys
    // ------------------------------------------------------------------------

    /** The non-const `private_key`, which caches the key it derives. */
    method PrivateKeyAt(n: NodeIndex) returns (r: Option<PrivateKey>)
      modifies this`keyCache
      ensures r == KeyAt(suite, old(V()), n)
      ensures V() == WithKey(suite, old(V()), n)
    {
      if n in keyCache {
        r := Some(keyCache[n]);
      } else if n in pathSecrets {
        r := Some(KeyOf(suite, pathSecrets[n]));
      } else {
        r := None;
      }
      if r.Some? { keyCache := keyCache[n := r.value]; }
    }

    /** `set_leaf_priv` */
    method SetLeafKey(key: PrivateKey)
      modifies this`pathSecrets, this`keyCache
      ensures V() == SetLeafKeyView(old(V()), key)
    {
      var n := LeafNodeIndex(index);
      pathSecrets := pathSecrets - {n};
      keyCache := keyCache[n := key];
    }

    /** `truncate`: collect the indices to the right of the last leaf, then erase them. */
    method TruncateInPlace(size: nat)
      requires size > 0
      modifies this`pathSecrets, this`keyCache
      ensures V() == TruncateView(old(V()), size)
    {
      var last := LeafNodeIndex(size - 1);
      var gone := set n | n in pathSecrets && n > last;
      pathSecrets := pathSecrets - gone;
      keyCache := keyCache - gone;
    }

    // ------------------------------------------------------------------------
    // Path secrets
    // ------------------------------------------------------------------------

    /** The common loop of `implant` and `implant_matching`. */
    method ImplantAlong(start: NodeIndex, above: seq<NodeIndex>, pathSecret: Bytes)
      modifies this`updateSecret, this`pathSecrets, this`keyCache
      ensures V() == ImplantChain(suite, old(V()), [start] + above, pathSecret)
    {
      hide PathSecret;
      var secret := pathSecret;
      ghost var chain := [start] + above;
      pathSecrets := pathSecrets[start := secret];
      keyCache := keyCache - {start};
      assert chain[1..] == above;
      for i := 0 to |above|
        invariant index == old(index)
        invariant ImplantChain(suite, V(), above[i..], Derive(suite, secret, PathLabel)) ==
          ImplantChain(suite, old(V()), chain, pathSecret)
      {
        var n := above[i];
        assert above[i..][0] == n && above[i..][1..] == above[i + 1..];
        secret := Derive(suite, secret, PathLabel);
        pathSecrets := pathSecrets[n := secret];
        keyCache := keyCache - {n};
      }
      updateSecret := Derive(suite, secret, PathLabel);
    }

    method ImplantInPlace(pub: TreeKEMPublicKey, start: NodeIndex, pathSecret: Bytes) returns (r: Result<()>)
      requires pub.Valid() && pub.suite == suite
      modifies this`updateSecret, this`pathSecrets, this`keyCache
      ensures r.Ok? <==> InTree(start, pub.size)
      ensures if r.Ok? then V() == Implant(suite, pub.T(), old(V()), start, pathSecret) else V() == old(V())
    {
      hide Lo, Hi, Width, Level, FilteredPath, ImplantChain, IsPow2, TreeHash;
      var fdp :- pub.ComputeFilteredPath(start);
      var above := [];
      for i := 0 to |fdp|
        invariant above == Nodes(fdp)[..i] && V() == old(V())
      {
        above := above + [fdp[i].node];
      }
      assert above == Nodes(fdp);
      ImplantAlong(start, above, pathSecret);
      return Ok(());
    }

    method ImplantMatchingInPlace(pub: TreeKEMPublicKey, start: NodeIndex, pathSecret: Bytes) returns (r: Result<()>)
      requires pub.Valid() && pub.suite == suite && IsPow2(pub.size) && InTree(start, pub.size)
      modifies this`updateSecret, this`pathSecrets, this`keyCache
      ensures r.Ok? && V() == ImplantMatching(suite, pub.T(), old(V()), start, pathSecret)
    {
      hide Lo, Hi, Width, Level, Left, Right, Parent, ImplantChain, IsPow2, TreeHash, UnmergedOk, Populated;
      var dp := ComputeDirPath(start, pub.size);
      var d := dp.value;
      var above := [];
      ghost var at := start;
      for i := 0 to |d|
        invariant V() == old(V())
        invariant InTree(at, pub.size) && DirPath(at, pub.size) == d[i..]
        invariant OccupiedPath(pub.T(), start) == above + OccupiedPath(pub.T(), at)
      {
        OccupiedStep(pub.T(), at);
        assert d[i..][0] == d[i] && d[i..][1..] == d[i + 1..];
        if pub.nodes[d[i]].Some? { above := above + [d[i]]; }
        at := Parent(at);
      }
      OccupiedStep(pub.T(), at);
      assert above == OccupiedPath(pub.T(), start);
      ImplantAlong(start, above, pathSecret);
      return Ok(());
    }

    /** `consistent(pub)`: the cached keys in ascending order of their index. */
    method CheckConsistent(pub: TreeKEMPublicKey) returns (r: Result<bool>)
      requires pub.Valid()
      ensures r == Consistent(suite, pub.T(), V())
    {
      hide Lo, Hi, Width, Level, IsPow2, TreeHash, UnmergedOk, Populated, Coherent;
      var keys := keyCache.Keys;
      while keys != {}
        invariant keys <= keyCache.Keys
        invariant forall n :: n in keyCache && n !in keys ==> n in pub.nodes
        invariant forall n :: n in keyCache && n !in keys && Occ(pub.T(), n) ==>
          PublicOf(suite, keyCache[n]) == pub.nodes[n].value.PublicKey()
        decreases keys
      {
        LeastElement(keys);
        var n :| n in keys && forall m :: m in keys ==> n <= m;
        if n !in pub.nodes {
          assert forall m :: m in keys ==> m !in pub.nodes;
          return Err(OutOfRange);
        }
        if pub.nodes[n].Some? && PublicOf(suite, keyCache[n]) != pub.nodes[n].value.PublicKey() {
          assert Occ(pub.T(), n);
          return Ok(false);
        }
        keys := keys - {n};
      }
      return Ok(true);
    }

    // ------------------------------------------------------------------------
    // Receiving
    // ------------------------------------------------------------------------

    /** `decap` with an update path. */
    method DecapInPlace(from: LeafIndex, pub: TreeKEMPublicKey, context: Bytes, path: UpdatePath, except: seq<LeafIndex>)
      returns (r: Result<()>)
      requires pub.Valid() && pub.suite == suite
      modifies this`updateSecret, this`pathSecrets, this`keyCache
      ensures r.Ok? <==> Decap(suite, pub.T(), old(V()), from, context, path, except).Ok?
      ensures r.Ok? ==> Decap(suite, pub.T(), old(V()), from, context, path, except) == Ok(V())
      ensures r.Err? ==> Decap(suite, pub.T(), old(V()), from, context, path, except) == Err(r.error)
    {
      hide Lo, Hi, Width, Level, FilteredPath, ImplantChain, IsPow2, TreeHash, UnmergedOk, Populated, RemoveLeaves,
        FirstAbove, FirstHeld, Implant, Coherent, WithKey, Consistent;
      ghost var v := V();
      OccLeafInTree(pub.T(), from);
      var dp :- pub.ComputeFilteredPath(LeafNodeIndex(from));
      if |dp| != |path.nodes| { return Err(Protocol); }
      var dpi := 0;
      while dpi < |dp| && !IsBelow(LeafNodeIndex(index), dp[dpi].node)
        invariant dpi <= |dp|
        invariant forall k :: 0 <= k < dpi ==> !Covers(dp[k].node, index)
      {
        dpi := dpi + 1;
      }
      FirstAboveIs(dp, index, dpi);
      if dpi == |dp| { return Err(Protocol); }
      var res := RemoveLeaves(dp[dpi].resolution, except);
      if |res| != |path.nodes[dpi].encrypted| { return Err(Protocol); }
      var resi := 0;
      while resi < |res| && res[resi] !in pathSecrets && res[resi] !in keyCache
        invariant resi <= |res|
        invariant forall k :: 0 <= k < resi ==> !Have(v, res[k])
      {
        resi := resi + 1;
      }
      FirstHeldIs(v, res, resi);
      if resi == |res| { return Err(Protocol); }
      FilteredPathFacts(pub.T(), LeafNodeIndex(from));
      var key := PrivateKeyAt(res[resi]);
      var plain := Open(suite, key.value, context, path.nodes[dpi].encrypted[resi]);
      if plain.None? { return Err(Protocol); }
      var done := ImplantInPlace(pub, dp[dpi].node, plain.value);
      var ok :- CheckConsistent(pub);
      if !ok { return Err(Protocol); }
      return Ok(());
    }

    /** `decap` with the coordinates of one ciphertext. */
    method DecapNodeInPlace(from: LeafIndex, pub: TreeKEMPublicKey, context: Bytes, node: NodeIndex, sealed: Bytes)
      returns (r: Result<()>)
      requires pub.Valid() && pub.suite == suite
      modifies this`updateSecret, this`pathSecrets, this`keyCache
      ensures r.Ok? ==> DecapAt(suite, pub.T(), old(V()), from, context, node, sealed) == Ok(V())
      ensures r.Err? ==> DecapAt(suite, pub.T(), old(V()), from, context, node, sealed) == Err(r.error)
    {
      hide Lo, Hi, Width, Level, ImplantChain, IsPow2, TreeHash, UnmergedOk, Populated, ImplantMatching, Coherent,
        WithKey, Ancestor, Consistent;
      var overlap := ComputeAncestor(from, index);
      var key := PrivateKeyAt(node);
      if key.None? { return Err(BadOptional); }
      var plain := Open(suite, key.value, context, sealed);
      if plain.None? { return Err(Protocol); }
      if overlap >= NodeCount(pub.size) { return Err(InvalidParameter); }
      var done := ImplantMatchingInPlace(pub, overlap, plain.value);
      var ok :- CheckConsistent(pub);
      if !ok { return Err(Protocol); }
      return Ok(());
    }
  }

  lemma OccupiedStep(t: Tree, at: NodeIndex)
    requires IsPow2(t.size) && InTree(at, t.size)
    ensures var d := DirPath(at, t.size);
      && (d == [] ==> OccupiedPath(t, at) == [])
      && (d != [] ==>
            && d[0] == Parent(at) && InTree(Parent(at), t.size) && d[1..] == DirPath(Parent(at), t.size)
            && OccupiedPath(t, at) == (if Occ(t, Parent(at)) then [Parent(at)] else []) + OccupiedPath(t, Parent(at)))
  {
    hide Lo, Hi, Width, Level, Left, Right, Parent, IsPow2;
    TreeClosed(at, t.size);
  }

  lemma {:induction false} FirstAboveIs(fp: seq<PathEntry>, leaf: LeafIndex, k: nat)
    requires k <= |fp| && (forall i :: 0 <= i < k ==> !Covers(fp[i].node, leaf))
    requires k < |fp| ==> Covers(fp[k].node, leaf)
    ensures FirstAbove(fp, leaf) == k
  {
    hide Lo, Hi;
    var f := FirstAbove(fp, leaf);
    assert f < |fp| ==> Covers(fp[f].node, leaf);
  }

  lemma FirstHeldIs(v: View, res: seq<NodeIndex>, k: nat)
    requires k <= |res| && (forall i :: 0 <= i < k ==> !Have(v, res[i]))
    requires k < |res| ==> Have(v, res[k])
    ensures FirstHeld(v, res) == k
  {
    var f := FirstHeld(v, res);
    assert f < |res| ==> Have(v, res[f]);
  }

  // --------------------------------------------------------------------------
  // Committing
  // --------------------------------------------------------------------------

  /** `create`, with the keys of the path derived and cached as `update` does next. */
  method CreateWithKeys(pub: TreeKEMPublicKey, from: LeafIndex, leafSecret: Bytes, fdp: seq<PathEntry>)
    returns (priv: TreeKEMPrivateKey, ns: seq<UpdatePathNode>, leafKey: PublicKey)
    requires pub.Valid() && from < pub.size && fdp == FilteredPath(pub.T(), LeafNodeIndex(from))
    ensures fresh(priv) && priv.suite == pub.suite
    ensures priv.V() == CommitterView(pub.suite, from, Nodes(fdp), leafSecret)
    ensures ns == PathKeys(pub.suite, leafSecret, |fdp|)
    ensures leafKey == PublicOf(pub.suite, KeyOf(pub.suite, leafSecret))
  {
    hide Lo, Hi, Width, Level, Left, Right, Parent, FilteredPath, ImplantChain, IsPow2, TreeHash, UnmergedOk, Populated,
      Coherent, PathSecret, CommitterView, Resolve, Distinct, KeyOf, PathKeys, LeafNodeIndex;
    var x0 := LeafNodeIndex(from);
    OccLeafInTree(pub.T(), from);
    priv := new TreeKEMPrivateKey(pub.suite, from);
    var done := priv.ImplantInPlace(pub, x0, leafSecret);
    ghost var f := Nodes(fdp);
    ChainDistinct(pub.T(), x0);
    ghost var v0 := priv.V();
    ChainSecrets(pub.suite, from, f, leafSecret, v0);
    ns := DeriveKeys(priv, Nodes(fdp));
    KeysOfPath(pub.suite, leafSecret, f, v0.secrets, ns);
    var key := priv.PrivateKeyAt(x0);
    leafKey := PublicOf(pub.suite, key.value);
    CommitterViewIs(pub.suite, from, f, leafSecret, v0, priv.V());
  }

  lemma KeysOfPath(s: Suite, secret: Bytes, f: seq<NodeIndex>, secrets: map<NodeIndex, Bytes>, ns: seq<UpdatePathNode>)
    requires |ns| == |f|
    requires forall i :: 0 <= i < |f| ==> f[i] in secrets && secrets[f[i]] == PathSecret(s, secret, i + 1)
    requires forall i :: 0 <= i < |f| ==> ns[i] == UpdatePathNode(PublicOf(s, KeyOf(s, secrets[f[i]])), [])
    ensures ns == PathKeys(s, secret, |f|)
  {
    hide PathSecret, KeyOf;
  }

  /** The keys of a path, derived and cached one by one. */
  method DeriveKeys(priv: TreeKEMPrivateKey, f: seq<NodeIndex>) returns (ns: seq<UpdatePathNode>)
    requires priv.keyCache == map[] && Distinct(f)
    requires forall i :: 0 <= i < |f| ==> f[i] in priv.pathSecrets
    modifies priv`keyCache
    ensures |ns| == |f|
    ensures forall i :: 0 <= i < |f| ==>
      ns[i] == UpdatePathNode(PublicOf(priv.suite, KeyOf(priv.suite, priv.pathSecrets[f[i]])), [])
    ensures forall n :: n in priv.keyCache <==> n in f
    ensures forall n :: n in priv.keyCache ==> n in priv.pathSecrets && priv.keyCache[n] == KeyOf(priv.suite, priv.pathSecrets[n])
  {
    ns := [];
    ghost var v0 := priv.V();
    for i := 0 to |f|
      invariant |ns| == i && priv.V().(cache := map[]) == v0
      invariant forall k :: 0 <= k < i ==>
        ns[k] == UpdatePathNode(PublicOf(priv.suite, KeyOf(priv.suite, v0.secrets[f[k]])), [])
      invariant forall n :: n in priv.keyCache <==> n in f[..i]
      invariant forall n :: n in priv.keyCache ==> n in v0.secrets && priv.keyCache[n] == KeyOf(priv.suite, v0.secrets[n])
    {
      assert f[i] !in f[..i];
      var key := priv.PrivateKeyAt(f[i]);
      ns := ns + [UpdatePathNode(PublicOf(priv.suite, key.value), [])];
      assert f[..i + 1] == f[..i] + [f[i]];
    }
    assert f[..|f|] == f;
  }

  /** `update`: new secrets along the path, a re-signed leaf, and the merged tree. */
  method UpdateInPlace(pub: TreeKEMPublicKey, from: LeafIndex, leafSecret: Bytes, rest: Bytes)
    returns (r: Result<TreeKEMPrivateKey>)
    requires pub.Valid() && Complete(pub.T(), pub.hashes)
    modifies pub
    ensures pub.Valid()
    ensures r.Ok? <==> Update(pub.suite, old(pub.T()), from, leafSecret, rest).Ok?
    ensures r.Ok? ==> fresh(r.value) && r.value.suite == pub.suite
    ensures r.Ok? ==> Update(pub.suite, old(pub.T()), from, leafSecret, rest) == Ok((pub.T(), r.value.V()))
    ensures r.Ok? ==> Complete(pub.T(), pub.hashes)
  {
    hide Lo, Hi, Width, Level, FilteredPath, ImplantChain, IsPow2, TreeHash, UnmergedOk, Populated, PathHashes, Merge,
      Coherent, PathSecret, CommitterView, Resolve, PathKeys;
    ghost var t := pub.T();
    OccLeafInTree(t, from);
    var x0 := LeafNodeIndex(from);
    if x0 !in pub.nodes { return Err(OutOfRange); }
    if pub.nodes[x0].None? { return Err(InvalidParameter); }
    var leaf := pub.nodes[x0].value.leaf;
    var dp := pub.ComputeFilteredPath(x0);
    var fdp := dp.value;
    var priv, ns, leafKey := CreateWithKeys(pub, from, leafSecret, fdp);
    CompleteOffPathHere(t, from, pub.hashes);
    var ph := pub.ComputeParentHashes(from, fdp, ns);
    var ph0 := if ph.value == [] then [] else ph.value[0];
    var newLeaf := LeafNode(leafKey, leaf.signatureKey, CommitSource(ph0), rest);
    assert UpdatePath(newLeaf, ns) == CommitPath(pub.suite, t, from, leafSecret, rest);
    var merged := pub.MergeInPlace(from, UpdatePath(newLeaf, ns));
    if merged.Err? { return Err(merged.error); }
    return Ok(priv);
  }

  lemma CommitterViewIs(s: Suite, from: LeafIndex, f: seq<NodeIndex>, leafSecret: Bytes, v0: View, v: View)
    requires v0 == ImplantChain(s, View(from, [], map[], map[]), [LeafNodeIndex(from)] + f, leafSecret)
    requires Distinct([LeafNodeIndex(from)] + f)
    requires v.index == v0.index && v.secrets == v0.secrets && v.updateSecret == v0.updateSecret
    requires forall n :: n in v.cache <==> n == LeafNodeIndex(from) || n in f
    requires forall n :: n in v.cache ==> n in v0.secrets && v.cache[n] == KeyOf(s, v0.secrets[n])
    ensures v == CommitterView(s, from, f, leafSecret)
  {
    hide Lo, Hi, ImplantChain, PathSecret, Distinct;
    ChainSecrets(s, from, f, leafSecret, v0);
    assert v.cache == CommitterView(s, from, f, leafSecret).cache;
  }

  /** `encap`: encrypt the path secrets to the resolutions, without the excepted leaves. */
  method EncapPath(pub: TreeKEMPublicKey, priv: TreeKEMPrivateKey, context: Bytes, except: seq<LeafIndex>, coins: Coins)
    returns (path: UpdatePath)
    requires pub.Valid() && priv.suite == pub.suite
    requires OccLeaf(pub.T(), priv.index) && priv.index < pub.size
    requires HasSecrets(priv.V(), FilteredPath(pub.T(), LeafNodeIndex(priv.index)))
    ensures path == Encap(pub.suite, pub.T(), priv.V(), context, except, coins)
  {
    hide Lo, Hi, Width, Level, FilteredPath, IsPow2, TreeHash, UnmergedOk, Populated, Coherent, Resolve, RemoveLeaves;
    ghost var t, v := pub.T(), priv.V();
    var x0 := LeafNodeIndex(priv.index);
    OccLeafInTree(t, priv.index);
    var dp := pub.ComputeFilteredPath(x0);
    var ns := [];
    for i := 0 to |dp.value|
      invariant |ns| == i
      invariant forall k :: 0 <= k < i ==> ns[k] == EncapNode(pub.suite, t, v, k, context, except, coins)
    {
      var n := dp.value[i].node;
      EncapRecipients(t, priv.index, dp.value, i, except);
      var res := RemoveLeaves(dp.value[i].resolution, except);
      var secret := priv.pathSecrets[n];
      var key := if n in priv.keyCache then priv.keyCache[n] else KeyOf(pub.suite, secret);
      var ct := [];
      for j := 0 to |res|
        invariant ct == SealTo(pub.suite, t, n, secret, res, context, coins)[..j]
      {
        ct := ct + [Seal(pub.suite, pub.nodes[res[j]].value.PublicKey(), context, secret, coins(n, res[j]))];
      }
      ns := ns + [UpdatePathNode(PublicOf(pub.suite, key), ct)];
    }
    path := UpdatePath(pub.nodes[x0].value.leaf, ns);
    assert path.nodes == Encap(pub.suite, t, v, context, except, coins).nodes;
  }
}
