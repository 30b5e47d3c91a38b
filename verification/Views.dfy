/** The private view of one member as a value, and what committing, receiving and joining do to it
    (sections 7.4 to 7.6 of RFC 9420). */
module Views {
  import opened Wrappers
  import opened TreeMath
  import opened Crypto
  import opened RatchetTree
  import opened TreeInvariant
  import opened TreePaths

  datatype View = View(
    index: LeafIndex, updateSecret: Bytes, secrets: map<NodeIndex, Bytes>, cache: map<NodeIndex, PrivateKey>)

  function Have(v: View, n: NodeIndex): bool { n in v.secrets || n in v.cache }

  function KeyAt(s: Suite, v: View, n: NodeIndex): (r: Option<PrivateKey>)
    ensures r.Some? <==> Have(v, n)
  {
    if n in v.cache then Some(v.cache[n])
    else if n in v.secrets then Some(KeyOf(s, v.secrets[n]))
    else None
  }

  // --------------------------------------------------------------------------
  // Chains of path secrets
  // --------------------------------------------------------------------------

  /** The secret `k` steps up. */
  ghost function PathSecret(s: Suite, secret: Bytes, k: nat): Bytes {
    if k == 0 then secret else Derive(s, PathSecret(s, secret, k - 1), PathLabel)
  }

  lemma {:induction false} PathSecretAdd(s: Suite, secret: Bytes, j: nat, k: nat)
    ensures PathSecret(s, PathSecret(s, secret, j), k) == PathSecret(s, secret, j + k)
  {
    if k > 0 { PathSecretAdd(s, secret, j, k - 1); }
  }

  ghost function ImplantChain(s: Suite, v: View, chain: seq<NodeIndex>, secret: Bytes): View
    decreases |chain|
  {
    if chain == [] then v.(updateSecret := secret)
    else
      var v' := v.(secrets := v.secrets[chain[0] := secret], cache := v.cache - {chain[0]});
      ImplantChain(s, v', chain[1..], Derive(s, secret, PathLabel))
  }

  ghost predicate Distinct(c: seq<NodeIndex>) { forall i, j :: 0 <= i < j < |c| ==> c[i] != c[j] }

  /** The nodes of a chain hold the secrets of the path and no cached key. */
  ghost predicate ChainHolds(s: Suite, chain: seq<NodeIndex>, secret: Bytes, r: View) {
    forall i :: 0 <= i < |chain| ==>
      chain[i] in r.secrets && r.secrets[chain[i]] == PathSecret(s, secret, i) && chain[i] !in r.cache
  }

  /** Nodes outside the chain are as they were. */
  ghost predicate OthersKept(v: View, chain: seq<NodeIndex>, r: View) {
    forall n :: n !in chain ==>
      && (n in r.secrets <==> n in v.secrets) && (n in v.secrets ==> r.secrets[n] == v.secrets[n])
      && (n in r.cache <==> n in v.cache) && (n in v.cache ==> r.cache[n] == v.cache[n])
  }

  ghost predicate ImplantedAlong(s: Suite, v: View, chain: seq<NodeIndex>, secret: Bytes, r: View) {
    && r.index == v.index && r.updateSecret == PathSecret(s, secret, |chain|)
    && ChainHolds(s, chain, secret, r) && OthersKept(v, chain, r)
  }

  lemma {:induction false} ImplantFacts(s: Suite, v: View, chain: seq<NodeIndex>, secret: Bytes)
    requires Distinct(chain)
    ensures ImplantedAlong(s, v, chain, secret, ImplantChain(s, v, chain, secret))
    decreases |chain|
  {
    if chain != [] {
      var v' := v.(secrets := v.secrets[chain[0] := secret], cache := v.cache - {chain[0]});
      var next := Derive(s, secret, PathLabel);
      var r := ImplantChain(s, v', chain[1..], next);
      assert r == ImplantChain(s, v, chain, secret);
      hide ImplantChain;
      ImplantFacts(s, v', chain[1..], next);
      ImplantedStep(s, v, chain, secret, v', r);
    }
  }

  lemma ImplantedStep(s: Suite, v: View, chain: seq<NodeIndex>, secret: Bytes, v': View, r: View)
    requires Distinct(chain) && chain != []
    requires v' == v.(secrets := v.secrets[chain[0] := secret], cache := v.cache - {chain[0]})
    requires ImplantedAlong(s, v', chain[1..], Derive(s, secret, PathLabel), r)
    ensures ImplantedAlong(s, v, chain, secret, r)
  {
    hide ChainHolds, OthersKept;
    assert PathSecret(s, secret, 0) == secret;
    PathSecretAdd(s, secret, 1, |chain| - 1);
    OthersStep(v, chain, secret, v', r);
    HoldsStep(s, chain, secret, r);
  }

  lemma OthersStep(v: View, chain: seq<NodeIndex>, secret: Bytes, v': View, r: View)
    requires Distinct(chain) && chain != []
    requires v' == v.(secrets := v.secrets[chain[0] := secret], cache := v.cache - {chain[0]})
    requires OthersKept(v', chain[1..], r)
    ensures OthersKept(v, chain, r)
    ensures chain[0] in r.secrets && r.secrets[chain[0]] == secret && chain[0] !in r.cache
  {
    assert chain[0] !in chain[1..];
    forall n | n !in chain
      ensures (n in r.secrets <==> n in v.secrets) && (n in v.secrets ==> r.secrets[n] == v.secrets[n])
      ensures (n in r.cache <==> n in v.cache) && (n in v.cache ==> r.cache[n] == v.cache[n])
    {
      assert n != chain[0] && n !in chain[1..];
    }
  }

  lemma HoldsStep(s: Suite, chain: seq<NodeIndex>, secret: Bytes, r: View)
    requires chain != [] && ChainHolds(s, chain[1..], Derive(s, secret, PathLabel), r)
    requires chain[0] in r.secrets && r.secrets[chain[0]] == secret && chain[0] !in r.cache
    ensures ChainHolds(s, chain, secret, r)
  {
    assert PathSecret(s, secret, 0) == secret && PathSecret(s, secret, 1) == Derive(s, secret, PathLabel);
    hide PathSecret, Derive;
    forall i | 1 <= i < |chain|
      ensures chain[i] in r.secrets && r.secrets[chain[i]] == PathSecret(s, secret, i) && chain[i] !in r.cache
    {
      PathSecretAdd(s, secret, 1, i - 1);
      assert chain[i] == chain[1..][i - 1];
    }
  }

  /** `implant`: along the filtered path of `start`. */
  ghost function Implant(s: Suite, t: Tree, v: View, start: NodeIndex, secret: Bytes): View
    requires IsPow2(t.size) && InTree(start, t.size)
  {
    ImplantChain(s, v, [start] + Nodes(FilteredPath(t, start)), secret)
  }

  /** The occupied proper ancestors of a node. */
  ghost function OccupiedPath(t: Tree, x: NodeIndex): seq<NodeIndex>
    requires IsPow2(t.size) && InTree(x, t.size)
    decreases t.size - Width(x)
  {
    TreeClosed(x, t.size);
    if x == t.size - 1 then []
    else (if Occ(t, Parent(x)) then [Parent(x)] else []) + OccupiedPath(t, Parent(x))
  }

  /** `implant_matching`: along the occupied ancestors of `start`. */
  ghost function ImplantMatching(s: Suite, t: Tree, v: View, start: NodeIndex, secret: Bytes): View
    requires IsPow2(t.size) && InTree(start, t.size)
  {
    ImplantChain(s, v, [start] + OccupiedPath(t, start), secret)
  }

  // --------------------------------------------------------------------------
  // Committing
  // --------------------------------------------------------------------------

  ghost function ForCommit(leaf: LeafNode, key: PublicKey, parentHash: Bytes, rest: Bytes): LeafNode {
    LeafNode(key, leaf.signatureKey, CommitSource(parentHash), rest)
  }

  /** The public halves of the keys derived along a path of `m` nodes. */
  ghost function PathKeys(s: Suite, leafSecret: Bytes, m: nat): (r: seq<UpdatePathNode>)
    ensures |r| == m
  {
    seq(m, i requires 0 <= i < m => UpdatePathNode(PublicOf(s, KeyOf(s, PathSecret(s, leafSecret, i + 1))), []))
  }

  /** The view of a committer: `create`, then every key is derived once and cached. */
  ghost function CommitterView(s: Suite, from: LeafIndex, f: seq<NodeIndex>, leafSecret: Bytes): View {
    var chain := [LeafNodeIndex(from)] + f;
    var v := ImplantChain(s, View(from, [], map[], map[]), chain, leafSecret);
    v.(cache := map n | n in v.secrets :: KeyOf(s, v.secrets[n]))
  }

  ghost function CommitPath(s: Suite, t: Tree, from: LeafIndex, leafSecret: Bytes, rest: Bytes): UpdatePath
    requires Shape(t) && OccLeaf(t, from) && from < t.size
  {
    var x0 := LeafNodeIndex(from);
    var f := Nodes(FilteredPath(t, x0));
    var ns := PathKeys(s, leafSecret, |f|);
    var ph := PathHashes(s, t, x0, f, ns);
    var ph0 := if ph == [] then [] else ph[0];
    UpdatePath(ForCommit(LeafAt(t, from), PublicOf(s, KeyOf(s, leafSecret)), ph0, rest), ns)
  }

  /** `update`: new keys along the path of the committer; `rest` carries options and signature. */
  ghost function Update(s: Suite, t: Tree, from: LeafIndex, leafSecret: Bytes, rest: Bytes): Result<(Tree, View)>
    requires Shape(t)
  {
    if from >= t.size then Err(OutOfRange)
    else if !OccLeaf(t, from) then Err(InvalidParameter)
    else
      var path := CommitPath(s, t, from, leafSecret, rest);
      var t' :- Merge(s, t, from, path);
      Ok((t', CommitterView(s, from, Nodes(FilteredPath(t, LeafNodeIndex(from))), leafSecret)))
  }

  function RemoveFirst(s: seq<NodeIndex>, v: NodeIndex): seq<NodeIndex> {
    if s == [] then [] else if s[0] == v then s[1..] else [s[0]] + RemoveFirst(s[1..], v)
  }

  /** `remove_leaves` */
  function RemoveLeaves(res: seq<NodeIndex>, except: seq<LeafIndex>): seq<NodeIndex>
    decreases |except|
  {
    if except == [] then res else RemoveLeaves(RemoveFirst(res, LeafNodeIndex(except[0])), except[1..])
  }

  type Coins = (NodeIndex, NodeIndex) -> Bytes

  ghost predicate AllOcc(t: Tree, to: seq<NodeIndex>) { forall j :: 0 <= j < |to| ==> Occ(t, to[j]) }

  ghost function SealTo(s: Suite, t: Tree, n: NodeIndex, secret: Bytes, to: seq<NodeIndex>, context: Bytes, coins: Coins)
    : (r: seq<Bytes>)
    requires AllOcc(t, to)
    ensures |r| == |to|
  {
    seq(|to|, j requires 0 <= j < |to| =>
      Seal(s, KeyOfNode(t, to[j]), context, secret, coins(n, to[j])))
  }

  ghost function KeyOfNode(t: Tree, x: NodeIndex): PublicKey
    requires Occ(t, x)
  {
    t.nodes[x].value.PublicKey()
  }

  ghost predicate HasSecrets(v: View, fp: seq<PathEntry>) {
    forall i :: 0 <= i < |fp| ==> fp[i].node in v.secrets
  }

  ghost function EncapNode(s: Suite, t: Tree, v: View, i: nat, context: Bytes, except: seq<LeafIndex>, coins: Coins)
    : UpdatePathNode
    requires WF(t) && v.index < t.size
    requires var fp := FilteredPath(t, LeafNodeIndex(v.index)); HasSecrets(v, fp) && i < |fp|
  {
    hide FilteredPath, RemoveLeaves, Lo, Hi, Width, Level, IsPow2, Resolve, UnmergedOk, Populated;
    OccLeafInTree(t, v.index);
    var fp := FilteredPath(t, LeafNodeIndex(v.index));
    EncapRecipients(t, v.index, fp, i, except);
    UpdatePathNode(
      PublicOf(s, KeyAt(s, v, fp[i].node).value),
      SealTo(s, t, fp[i].node, v.secrets[fp[i].node], RemoveLeaves(fp[i].resolution, except), context, coins))
  }

  /** `encap`: the path secret of every entry, encrypted to the resolution of the other side. */
  ghost function Encap(s: Suite, t: Tree, v: View, context: Bytes, except: seq<LeafIndex>, coins: Coins): UpdatePath
    requires WF(t) && OccLeaf(t, v.index) && v.index < t.size
    requires HasSecrets(v, FilteredPath(t, LeafNodeIndex(v.index)))
  {
    var m := |FilteredPath(t, LeafNodeIndex(v.index))|;
    UpdatePath(LeafAt(t, v.index), seq(m, i requires 0 <= i < m => EncapNode(s, t, v, i, context, except, coins)))
  }

  lemma {:induction false} RemoveLeavesSubset(res: seq<NodeIndex>, except: seq<LeafIndex>)
    ensures forall r :: r in RemoveLeaves(res, except) ==> r in res
    ensures forall r :: r in res && (forall l :: l in except ==> r != LeafNodeIndex(l)) ==> r in RemoveLeaves(res, except)
    decreases |except|
  {
    if except != [] {
      RemoveFirstSubset(res, LeafNodeIndex(except[0]));
      RemoveLeavesSubset(RemoveFirst(res, LeafNodeIndex(except[0])), except[1..]);
      assert forall l :: l in except <==> l == except[0] || l in except[1..];
    }
  }

  lemma {:induction false} RemoveFirstSubset(s: seq<NodeIndex>, v: NodeIndex)
    ensures forall r :: r in RemoveFirst(s, v) ==> r in s
    ensures forall r :: r in s && r != v ==> r in RemoveFirst(s, v)
  {
    if s != [] && s[0] != v { RemoveFirstSubset(s[1..], v); }
  }

  lemma EncapRecipients(t: Tree, from: LeafIndex, fp: seq<PathEntry>, i: nat, except: seq<LeafIndex>)
    requires WF(t) && from < t.size && fp == FilteredPath(t, LeafNodeIndex(from)) && i < |fp|
    ensures fp[i] in fp
    ensures AllOcc(t, RemoveLeaves(fp[i].resolution, except))
  {
    hide Lo, Hi, Width, Level, FilteredPath, Resolve, IsPow2, RemoveLeaves;
    OccLeafInTree(t, from);
    FilteredPathFacts(t, LeafNodeIndex(from));
    RemoveLeavesSubset(fp[i].resolution, except);
    ResolveMembers(t, OffPath(LeafNodeIndex(from), fp[i].node));
  }

  // --------------------------------------------------------------------------
  // Receiving
  // --------------------------------------------------------------------------

  /** Index of the first entry above the leaf, or the length of the path. */
  ghost function FirstAbove(fp: seq<PathEntry>, leaf: LeafIndex): (k: nat)
    ensures k <= |fp|
    ensures forall i :: 0 <= i < k ==> !Covers(fp[i].node, leaf)
    ensures k < |fp| ==> Covers(fp[k].node, leaf)
  {
    if fp == [] || Covers(fp[0].node, leaf) then 0 else 1 + FirstAbove(fp[1..], leaf)
  }

  ghost function FirstCovering(res: seq<NodeIndex>, leaf: LeafIndex): (k: nat)
    ensures k <= |res|
    ensures forall i :: 0 <= i < k ==> !Covers(res[i], leaf)
    ensures k < |res| ==> Covers(res[k], leaf)
  {
    if res == [] || Covers(res[0], leaf) then 0 else 1 + FirstCovering(res[1..], leaf)
  }

  /** Index of the first node whose key the member holds, or the length of the list. */
  ghost function FirstHeld(v: View, res: seq<NodeIndex>): (k: nat)
    ensures k <= |res|
    ensures forall i :: 0 <= i < k ==> !Have(v, res[i])
    ensures k < |res| ==> Have(v, res[k])
  {
    if res == [] || Have(v, res[0]) then 0 else 1 + FirstHeld(v, res[1..])
  }

  /** `consistent(pub)`: the cached keys of nodes that are not blank fit the tree.  Keys are visited
      in ascending order, so a wrong key is seen before an index outside the tree. */
  ghost function Consistent(s: Suite, t: Tree, v: View): Result<bool> {
    if exists n :: n in v.cache && Occ(t, n) && PublicOf(s, v.cache[n]) != t.nodes[n].value.PublicKey()
    then Ok(false)
    else if exists n :: n in v.cache && n !in t.nodes then Err(OutOfRange)
    else Ok(true)
  }

  ghost function Checked(s: Suite, t: Tree, v: View): Result<View> {
    var ok :- Consistent(s, t, v);
    if ok then Ok(v) else Err(Protocol)
  }

  /** `private_key` of a non-const view caches what it derives. */
  ghost function WithKey(s: Suite, v: View, n: NodeIndex): View {
    match KeyAt(s, v, n)
    case Some(k) => v.(cache := v.cache[n := k])
    case None => v
  }

  /** `decap(from, pub, context, path, except)` */
  ghost function Decap(s: Suite, t: Tree, v: View, from: LeafIndex, context: Bytes, path: UpdatePath,
                       except: seq<LeafIndex>): Result<View>
    requires Shape(t)
  {
    if from >= t.size then Err(InvalidParameter)
    else
      var fp := FilteredPath(t, LeafNodeIndex(from));
      if |fp| != |path.nodes| then Err(Protocol)
      else
        var k := FirstAbove(fp, v.index);
        if k == |fp| then Err(Protocol)
        else
          var res := RemoveLeaves(fp[k].resolution, except);
          if |res| != |path.nodes[k].encrypted| then Err(Protocol)
          else
            var j := FirstHeld(v, res);
            if j == |res| then Err(Protocol)
            else
              match Open(s, KeyAt(s, v, res[j]).value, context, path.nodes[k].encrypted[j])
              case None => Err(Protocol)
              case Some(secret) =>
                FilteredPathFacts(t, LeafNodeIndex(from));
                Checked(s, t, Implant(s, t, WithKey(s, v, res[j]), fp[k].node, secret))
  }

  /** `decap(from, pub, context, decrypt_node, encrypted_path_secret)` */
  ghost function DecapAt(s: Suite, t: Tree, v: View, from: LeafIndex, context: Bytes, node: NodeIndex, sealed: Bytes)
    : Result<View>
    requires Shape(t)
  {
    match KeyAt(s, v, node)
    case None => Err(BadOptional)
    case Some(key) =>
      match Open(s, key, context, sealed)
      case None => Err(Protocol)
      case Some(secret) =>
        var overlap := Ancestor(from, v.index);
        if t.size == 0 || !InTree(overlap, t.size) then Err(InvalidParameter)
        else Checked(s, t, ImplantMatching(s, t, WithKey(s, v, node), overlap, secret))
  }

  /** `joiner` */
  ghost function Joiner(s: Suite, t: Tree, index: LeafIndex, leafKey: PrivateKey, intersect: NodeIndex,
                        secret: Option<Bytes>): Result<View>
    requires Shape(t)
  {
    var v := View(index, [], map[], map[LeafNodeIndex(index) := leafKey]);
    match secret
    case None => Ok(v)
    case Some(p) =>
      if t.size == 0 || !InTree(intersect, t.size) then Err(InvalidParameter)
      else Ok(ImplantMatching(s, t, v, intersect, p))
  }

  /** `shared_path_secret` */
  ghost function SharedPathSecret(v: View, to: LeafIndex): Option<Bytes> {
    var n := Ancestor(v.index, to);
    if n in v.secrets then Some(v.secrets[n]) else None
  }

  /** `truncate` of a view: secrets to the right of the last leaf go, with their cached keys. */
  ghost function TruncateView(v: View, size: nat): View
    requires size > 0
  {
    var last := LeafNodeIndex(size - 1);
    v.(secrets := map n | n in v.secrets && n <= last :: v.secrets[n],
       cache := map n | n in v.cache && (n <= last || n !in v.secrets) :: v.cache[n])
  }

  /** `set_leaf_priv` */
  ghost function SetLeafKeyView(v: View, key: PrivateKey): View {
    var n := LeafNodeIndex(v.index);
    v.(secrets := v.secrets - {n}, cache := v.cache[n := key])
  }

  /** A node and its filtered path name no node twice. */
  lemma ChainDistinct(t: Tree, x: NodeIndex)
    requires IsPow2(t.size) && InTree(x, t.size)
    ensures Distinct([x] + Nodes(FilteredPath(t, x)))
  {
    hide Lo, Hi, Width, Level, Left, Right, IsPow2, FilteredPath, Resolve, OffPath;
    FilteredPathFacts(t, x);
  }

  /** The secrets along a freshly implanted path. */
  lemma ChainSecrets(s: Suite, from: LeafIndex, f: seq<NodeIndex>, secret: Bytes, v0: View)
    requires Distinct([LeafNodeIndex(from)] + f)
    requires v0 == ImplantChain(s, View(from, [], map[], map[]), [LeafNodeIndex(from)] + f, secret)
    ensures Distinct(f) && v0.cache == map[] && v0.index == from && v0.updateSecret == PathSecret(s, secret, |f| + 1)
    ensures forall n :: n in v0.secrets <==> n == LeafNodeIndex(from) || n in f
    ensures LeafNodeIndex(from) in v0.secrets && v0.secrets[LeafNodeIndex(from)] == secret
    ensures forall i :: 0 <= i < |f| ==> f[i] in v0.secrets && v0.secrets[f[i]] == PathSecret(s, secret, i + 1)
  {
    hide Lo, Hi, ImplantChain;
    var chain := [LeafNodeIndex(from)] + f;
    ImplantFacts(s, View(from, [], map[], map[]), chain, secret);
    assert PathSecret(s, secret, 0) == secret;
    hide PathSecret;
    assert chain[0] == LeafNodeIndex(from);
    assert forall i :: 0 <= i < |f| ==> f[i] == chain[i + 1];
    assert forall n :: n in chain <==> n == LeafNodeIndex(from) || n in f;
    forall n | n in chain ensures n in v0.secrets && n !in v0.cache {
      var k :| 0 <= k < |chain| && chain[k] == n;
    }
  }
}
