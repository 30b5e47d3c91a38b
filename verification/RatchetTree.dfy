/** The public ratchet tree as a value: its structural invariant and the meaning of the operations
    that `TreeKEMPublicKey` performs in place. */
module RatchetTree {
  import opened Wrappers
  import opened TreeMath
  import opened Crypto

  datatype Tree = Tree(size: nat, nodes: map<NodeIndex, Option<Node>>)

  predicate Occ(t: Tree, x: NodeIndex) { x in t.nodes && t.nodes[x].Some? }

  predicate OccParent(t: Tree, x: NodeIndex) {
    Occ(t, x) && t.nodes[x].value.ParentN?
  }

  ghost predicate OccLeaf(t: Tree, leaf: LeafIndex) {
    Occ(t, LeafNodeIndex(leaf)) && t.nodes[LeafNodeIndex(leaf)].value.LeafN?
  }

  function Unmerged(t: Tree, x: NodeIndex): seq<LeafIndex> {
    if OccParent(t, x) then t.nodes[x].value.parent.unmerged else []
  }

  ghost predicate Ascending(s: seq<nat>) { forall i, j :: 0 <= i < j < |s| ==> s[i] < s[j] }

  ghost predicate Occupied(t: Tree, x: NodeIndex) {
    exists l :: Covers(x, l) && OccLeaf(t, l)
  }

  /** The size is 0 or a power of two, there is an entry for every index of the tree and no other,
      and leaves are at even indices. */
  ghost predicate Shape(t: Tree) {
    && (t.size == 0 || IsPow2(t.size))
    && (forall x :: x in t.nodes <==> InTree(x, t.size))
    && (forall x :: Occ(t, x) ==> (IsLeaf(x) <==> t.nodes[x].value.LeafN?))
  }

  /** An unmerged list is strictly ascending, names occupied leaves below the node, and each of its
      leaves is also unmerged at every occupied node on the way down to it. */
  ghost predicate UnmergedOk(t: Tree) {
    forall p :: OccParent(t, p) ==>
      && Ascending(Unmerged(t, p))
      && (forall u :: u in Unmerged(t, p) ==> Covers(p, u) && OccLeaf(t, u))
      && (forall u, q :: u in Unmerged(t, p) && OccParent(t, q) && Covers(q, u) && Within(q, p) ==>
            u in Unmerged(t, q))
  }

  /** Some leaf below `x` is merged into the parent `p`. */
  ghost predicate MergedUnder(t: Tree, p: NodeIndex, x: NodeIndex) {
    exists l :: Covers(x, l) && OccLeaf(t, l) && l !in Unmerged(t, p)
  }

  /** An occupied parent has a leaf that is merged into it below each of its children. */
  ghost predicate Populated(t: Tree) {
    forall p :: OccParent(t, p) ==> MergedUnder(t, p, Left(p)) && MergedUnder(t, p, Right(p))
  }

  ghost predicate WF(t: Tree) { Shape(t) && UnmergedOk(t) && Populated(t) }

  ghost predicate SomeLeaf(t: Tree) { exists l :: OccLeaf(t, l) }

  const EmptyTree := Tree(0, map[])

  // --------------------------------------------------------------------------
  // Keys in use
  // --------------------------------------------------------------------------

  ghost function LeafAt(t: Tree, l: LeafIndex): LeafNode
    requires OccLeaf(t, l)
  {
    t.nodes[LeafNodeIndex(l)].value.leaf
  }

  /** The leaf node there, or an arbitrary one. */
  ghost function LeafAtOr(t: Tree, l: LeafIndex): LeafNode {
    if OccLeaf(t, l) then LeafAt(t, l) else LeafNode([], [], UpdateSource, [])
  }

  ghost predicate EncryptionKeyUsed(t: Tree, key: PublicKey) {
    exists l :: OccLeaf(t, l) && LeafAt(t, l).encryptionKey == key
  }

  ghost predicate SignatureKeyUsed(t: Tree, key: Bytes, except: Option<LeafIndex>) {
    exists l: nat :: OccLeaf(t, l) && Some(l) != except && LeafAt(t, l).signatureKey == key
  }

  // --------------------------------------------------------------------------
  // Operations
  // --------------------------------------------------------------------------

  /** The leftmost blank leaf, or the size when every leaf is occupied. */
  ghost function FirstBlank(t: Tree, from: nat): (i: nat)
    requires from <= t.size
    ensures from <= i <= t.size
    ensures forall l :: from <= l < i ==> OccLeaf(t, l)
    ensures i < t.size ==> !OccLeaf(t, i)
    decreases t.size - from
  {
    if from == t.size || !OccLeaf(t, from) then from else FirstBlank(t, from + 1)
  }

  ghost function Grow(t: Tree): Tree {
    var n := if t.size == 0 then 1 else 2 * t.size;
    Tree(n, map x | 0 <= x < NodeCount(n) :: if x in t.nodes then t.nodes[x] else None)
  }

  ghost function AllocateLeaf(t: Tree): (Tree, LeafIndex) {
    var i := FirstBlank(t, 0);
    (if i == t.size then Grow(t) else t, i)
  }

  /** Insertion before the first larger element. */
  function InsertSorted(s: seq<nat>, v: nat): (r: seq<nat>)
    ensures forall u :: u in r <==> u == v || u in s
  {
    if s == [] || s[0] > v then [v] + s else [s[0]] + InsertSorted(s[1..], v)
  }

  function WithUnmerged(n: Option<Node>, i: LeafIndex): Option<Node> {
    match n
    case Some(ParentN(p)) => Some(ParentN(p.(unmerged := InsertSorted(p.unmerged, i))))
    case _ => n
  }

  ghost function PlaceLeaf(t: Tree, i: LeafIndex, leaf: LeafNode): Tree {
    t.(nodes := map x | x in t.nodes ::
      if x == LeafNodeIndex(i) then Some(LeafN(leaf))
      else if Covers(x, i) then WithUnmerged(t.nodes[x], i)
      else t.nodes[x])
  }

  ghost function AddLeaf(t: Tree, leaf: LeafNode): Result<(Tree, LeafIndex)> {
    if EncryptionKeyUsed(t, leaf.encryptionKey) || SignatureKeyUsed(t, leaf.signatureKey, None)
    then Err(InvalidParameter)
    else
      var (t', i) := AllocateLeaf(t);
      Ok((PlaceLeaf(t', i, leaf), i))
  }

  ghost function Blanked(t: Tree, i: LeafIndex): Tree {
    t.(nodes := map x | x in t.nodes :: if Covers(x, i) then None else t.nodes[x])
  }

  ghost function BlankPath(t: Tree, i: LeafIndex): Result<Tree> {
    if t.nodes == map[] then Ok(t)
    else if i >= t.size then Err(OutOfRange)
    else Ok(Blanked(t, i))
  }

  ghost function SetLeaf(t: Tree, i: LeafIndex, leaf: LeafNode): Tree {
    t.(nodes := t.nodes[LeafNodeIndex(i) := Some(LeafN(leaf))])
  }

  ghost function UpdateLeaf(t: Tree, i: LeafIndex, leaf: LeafNode): Result<Tree> {
    if EncryptionKeyUsed(t, leaf.encryptionKey) || SignatureKeyUsed(t, leaf.signatureKey, Some(i))
    then Err(InvalidParameter)
    else if i >= t.size then Err(OutOfRange)
    else Ok(SetLeaf(Blanked(t, i), i, leaf))
  }

  /** Halving the size as long as the last occupied leaf stays inside. */
  ghost function ShrunkSize(size: nat, last: LeafIndex): nat {
    if size / 2 > last then ShrunkSize(size / 2, last) else size
  }

  ghost function LastOccupied(t: Tree, from: nat): (i: nat)
    ensures i <= from
    ensures forall l :: i < l <= from ==> !OccLeaf(t, l)
    ensures i > 0 ==> OccLeaf(t, i)
  {
    if from == 0 || OccLeaf(t, from) then from else LastOccupied(t, from - 1)
  }

  ghost function TruncatedTo(t: Tree, n: nat): Tree {
    Tree(n, map x | x in t.nodes && InTree(x, n) :: t.nodes[x])
  }

  /** A tree without occupied leaves loses its nodes but keeps its size. */
  ghost function Truncate(t: Tree): Tree {
    if t.size == 0 then t
    else
      var last := LastOccupied(t, t.size - 1);
      if !OccLeaf(t, last) then t.(nodes := map[])
      else TruncatedTo(t, ShrunkSize(t.size, last))
  }

  /** Resolution of a node (section 4.1.1 of RFC 9420). */
  function Resolve(t: Tree, x: NodeIndex): seq<NodeIndex>
    decreases Level(x)
  {
    if Occ(t, x) then
      [x] + LeafNodes(Unmerged(t, x))
    else if IsLeaf(x) then []
    else Resolve(t, Left(x)) + Resolve(t, Right(x))
  }

  function LeafNodes(s: seq<LeafIndex>): (r: seq<NodeIndex>)
    ensures |r| == |s| && forall i :: 0 <= i < |s| ==> r[i] == LeafNodeIndex(s[i])
  {
    seq(|s|, i requires 0 <= i < |s| => LeafNodeIndex(s[i]))
  }

  datatype PathEntry = PathEntry(node: NodeIndex, resolution: seq<NodeIndex>)

  /** The ancestors of `x` whose child off the path has a nonempty resolution. */
  ghost function FilteredPath(t: Tree, x: NodeIndex): seq<PathEntry>
    requires IsPow2(t.size) && InTree(x, t.size)
    decreases t.size - Width(x)
  {
    TreeClosed(x, t.size);
    if x == t.size - 1 then []
    else
      var res := Resolve(t, Sibling(x));
      (if res == [] then [] else [PathEntry(Parent(x), res)]) + FilteredPath(t, Parent(x))
  }

  // --------------------------------------------------------------------------
  // Hashes
  // --------------------------------------------------------------------------

  function LeafOf(n: Option<Node>): Option<LeafNode> {
    match n case Some(LeafN(l)) => Some(l) case _ => None
  }

  function ParentOf(n: Option<Node>): Option<ParentNode> {
    match n case Some(ParentN(p)) => Some(p) case _ => None
  }

  function NodeAt(t: Tree, x: NodeIndex): Option<Node> {
    if x in t.nodes then t.nodes[x] else None
  }

  /** Tree hash (section 7.8 of RFC 9420). */
  ghost function TreeHash(s: Suite, t: Tree, x: NodeIndex): Bytes
    decreases Level(x)
  {
    if IsLeaf(x) then HashTree(s, LeafInput(x / 2, LeafOf(NodeAt(t, x))))
    else HashTree(s, ParentInput(ParentOf(NodeAt(t, x)), TreeHash(s, t, Left(x)), TreeHash(s, t, Right(x))))
  }

  function Filter(s: seq<nat>, e: set<nat>): (r: seq<nat>)
    ensures forall u :: u in r <==> u in s && u !in e
  {
    if s == [] then []
    else if s[0] in e then Filter(s[1..], e)
    else [s[0]] + Filter(s[1..], e)
  }

  function Stripped(n: Option<Node>, x: NodeIndex, e: set<LeafIndex>): Option<Node> {
    match n
    case Some(ParentN(p)) => Some(ParentN(p.(unmerged := Filter(p.unmerged, e))))
    case Some(LeafN(l)) => if x / 2 in e then None else n
    case None => None
  }

  /** The tree as it was before the leaves in `e` were added: they are blank and on no list. */
  ghost function Without(t: Tree, e: set<LeafIndex>): Tree {
    t.(nodes := map x | x in t.nodes :: Stripped(t.nodes[x], x, e))
  }

  function ToSet(s: seq<nat>): set<nat> { set u | u in s }

  /** Parent hash of an occupied parent with respect to one child (section 7.9 of RFC 9420). */
  ghost function OriginalParentHash(s: Suite, t: Tree, p: NodeIndex, sibling: NodeIndex): Bytes
    requires OccParent(t, p)
  {
    var n := t.nodes[p].value.parent;
    HashParent(s, ParentHashInput(n.publicKey, n.parentHash,
      TreeHash(s, Without(t, ToSet(n.unmerged)), sibling)))
  }

  ghost predicate HasParentHash(t: Tree, child: NodeIndex, h: Bytes) {
    exists r :: r in Resolve(t, child) && Occ(t, r) && t.nodes[r].value.ParentHash() == Some(h)
  }

  ghost predicate ParentHashValidAt(s: Suite, t: Tree, p: NodeIndex)
    requires OccParent(t, p)
  {
    || HasParentHash(t, Left(p), OriginalParentHash(s, t, p, Right(p)))
    || HasParentHash(t, Right(p), OriginalParentHash(s, t, p, Left(p)))
  }

  /** Every occupied parent is named by the parent hash of a node below it (section 7.9.2). */
  ghost predicate ParentHashValid(s: Suite, t: Tree) {
    forall p :: OccParent(t, p) ==> ParentHashValidAt(s, t, p)
  }

  // --------------------------------------------------------------------------
  // Update paths
  // --------------------------------------------------------------------------

  datatype UpdatePathNode = UpdatePathNode(publicKey: PublicKey, encrypted: seq<Bytes>)
  datatype UpdatePath = UpdatePath(leaf: LeafNode, nodes: seq<UpdatePathNode>)

  /** Parent hashes along a path, bottom up: element `i` is the value that the node below entry `i`
      has to carry. */
  ghost function PathHashes(s: Suite, t: Tree, below: NodeIndex, path: seq<NodeIndex>, nodes: seq<UpdatePathNode>)
    : (r: seq<Bytes>)
    requires |path| == |nodes|
    ensures |r| == |path|
    decreases |path|
  {
    if path == [] then []
    else
      var rest := PathHashes(s, t, path[0], path[1..], nodes[1..]);
      var above := if rest == [] then [] else rest[0];
      [HashParent(s, ParentHashInput(nodes[0].publicKey, above, TreeHash(s, t, OffPath(below, path[0]))))]
      + rest
  }

  /** The child of `ancestor` off the path of `x`. */
  ghost function OffPath(x: NodeIndex, ancestor: NodeIndex): NodeIndex {
    if Within(x, Left(ancestor)) then Right(ancestor) else Left(ancestor)
  }

  function Nodes(path: seq<PathEntry>): (r: seq<NodeIndex>)
    ensures |r| == |path| && forall i :: 0 <= i < |r| ==> r[i] == path[i].node
  {
    seq(|path|, i requires 0 <= i < |path| => path[i].node)
  }

  /** The path's public keys and the parent hashes above them, with nothing unmerged. */
  ghost function WithPath(nodes: map<NodeIndex, Option<Node>>, path: seq<NodeIndex>, ns: seq<UpdatePathNode>,
                          hashes: seq<Bytes>): map<NodeIndex, Option<Node>>
    requires |path| == |ns| == |hashes|
  {
    if path == [] then nodes
    else
      var above := if |hashes| == 1 then [] else hashes[1];
      WithPath(nodes, path[1..], ns[1..], hashes[1..])
        [path[0] := Some(ParentN(ParentNode(ns[0].publicKey, above, [])))]
  }

  ghost function Merge(s: Suite, t: Tree, from: LeafIndex, path: UpdatePath): Result<Tree>
    requires Shape(t)
  {
    var t1 :- UpdateLeaf(t, from, path.leaf);
    var f := Nodes(FilteredPath(t1, LeafNodeIndex(from)));
    if |f| != |path.nodes| then Err(Protocol)
    else
      var ph := PathHashes(s, t1, LeafNodeIndex(from), f, path.nodes);
      Ok(t1.(nodes := WithPath(t1.nodes, f, path.nodes, ph)))
  }

  /** The check made before a received path is merged. */
  ghost predicate PathParentHashValid(s: Suite, t: Tree, from: LeafIndex, path: UpdatePath)
    requires IsPow2(t.size) && from < t.size
  {
    var f := Nodes(FilteredPath(t, LeafNodeIndex(from)));
    if f == [] then !path.leaf.content.CommitSource?
    else
      && |f| == |path.nodes|
      && path.leaf.content == CommitSource(PathHashes(s, t, LeafNodeIndex(from), f, path.nodes)[0])
  }
}
