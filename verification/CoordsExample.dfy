/** A run of a group, from its founder on, after which a member cannot follow a commit: it joined below
    a node that was keyed before, and a commit from outside encrypts to that node first. */
module CoordsExample {
  import opened Wrappers
  import opened TreeMath
  import opened Crypto
  import opened RatchetTree
  import opened TreeInvariant
  import opened TreePaths
  import opened TreeRuns
  import opened Views
  import opened Agreement
  import opened Implanting
  import opened Receivers
  import opened Proposals
  import opened KeySchedule
  import opened GroupState
  import opened EpochAgreement
  import opened Joining
  import opened Following
  import opened GroupRuns

  // --------------------------------------------------------------------------
  // Following a small tree by its leaves
  // --------------------------------------------------------------------------

  /** Encryption and signature key at each occupied leaf. */
  type Who = map<LeafIndex, (PublicKey, Bytes)>

  ghost predicate Looks(t: Tree, size: nat, who: Who) {
    && WF(t) && t.size == size
    && (forall l :: OccLeaf(t, l) <==> l in who)
    && (forall l <- who :: LeafAt(t, l).encryptionKey == who[l].0 && LeafAt(t, l).signatureKey == who[l].1)
  }

  lemma LooksFacts(t: Tree, size: nat, who: Who)
    requires Looks(t, size, who)
    ensures WF(t) && Shape(t) && t.size == size && forall l <- who :: OccLeaf(t, l)
  {
    hide Lo, Hi;
  }

  function KeysOf(leaf: LeafNode): (PublicKey, Bytes) { (leaf.encryptionKey, leaf.signatureKey) }

  predicate NewKeys(who: Who, leaf: LeafNode) {
    forall l <- who :: who[l].0 != leaf.encryptionKey && who[l].1 != leaf.signatureKey
  }

  lemma {:induction false} FirstBlankIs(t: Tree, from: nat, i: nat)
    requires from <= i <= t.size && (forall l :: from <= l < i ==> OccLeaf(t, l)) && (i < t.size ==> !OccLeaf(t, i))
    ensures FirstBlank(t, from) == i
    decreases i - from
  {
    hide OccLeaf;
    if from < i { FirstBlankIs(t, from + 1, i); }
  }

  /** The next leaf goes to the leftmost free place. */
  lemma AddOne(t: Tree, size: nat, who: Who, leaf: LeafNode, i: LeafIndex) returns (u: Tree)
    requires Looks(t, size, who) && NewKeys(who, leaf)
    requires i <= size && i !in who && forall l: nat :: l < i ==> l in who
    ensures AddLeaf(t, leaf) == Ok((u, i))
    ensures Looks(u, if i < size then size else if size == 0 then 1 else 2 * size, who[i := KeysOf(leaf)])
  {
    hide Lo, Hi, Width, Level, IsPow2, UnmergedOk, Populated, InsertSorted, PlaceLeaf, Covers, WF;
    FirstBlankIs(t, 0, i);
    var t1 := AllocateLeaf(t).0;
    u := PlaceLeaf(t1, i, leaf);
    assert AddLeaf(t, leaf) == Ok((u, i));
    AddLeafRoster(t, leaf, u, i);
    PlaceLeafSize(t1, i, leaf);
  }

  /** Every occupied node above the new leaf notes it. */
  lemma AddedUnmerged(t: Tree, leaf: LeafNode, u: Tree, i: LeafIndex, p: NodeIndex)
    requires WF(t) && AddLeaf(t, leaf) == Ok((u, i)) && OccParent(t, p)
    ensures OccParent(u, p) && forall l :: l in Unmerged(u, p) <==> l in Unmerged(t, p) || (l == i && Covers(p, i))
  {
    hide Lo, Hi, Width, Level, IsPow2, UnmergedOk, Populated, InsertSorted, PlaceLeaf, Covers;
    AllocatedSame(t);
    var t1 := AllocateLeaf(t).0;
    AddLeafWF(t, leaf);
    AddLeafRoster(t, leaf, u, i);
    PlaceLeafSize(t1, i, leaf);
    SameOccupied(t, t1);
    PlaceLeafNodes(t1, i, leaf);
  }

  lemma PlaceLeafSize(t: Tree, i: LeafIndex, leaf: LeafNode)
    ensures PlaceLeaf(t, i, leaf).size == t.size
  {
    hide Lo, Hi;
  }

  lemma RemoveOne(t: Tree, size: nat, who: Who, i: LeafIndex)
    requires Looks(t, size, who) && i in who
    ensures LeafNodeIndex(i) in t.nodes && BlankPath(t, i) == Ok(Blanked(t, i))
    ensures Looks(Blanked(t, i), size, who - {i})
  {
    hide Lo, Hi, Width, Level, IsPow2, UnmergedOk, Populated, Covers;
    OccLeafInTree(t, i);
    BlankedWF(t, i);
    BlankedNodes(t, i);
  }

  /** Truncation leaves a tree alone that has a leaf in its right half. */
  lemma TruncateStays(t: Tree, size: nat, who: Who, last: LeafIndex)
    requires Looks(t, size, who) && last in who && size / 2 <= last
    ensures SomeLeaf(t) && size > 0 && Truncate(t) == t
  {
    hide Lo, Hi, Width, Level, UnmergedOk, Populated, IsPow2;
    assert OccLeaf(t, last);
    OccLeafInTree(t, last);
    var l := LastOccupied(t, t.size - 1);
    assert last <= l && OccLeaf(t, l);
    assert ShrunkSize(t.size, l) == t.size;
    assert TruncatedTo(t, t.size).nodes == t.nodes;
  }

  // --------------------------------------------------------------------------
  // A commit with a path
  // --------------------------------------------------------------------------

  /** A commit with a new key goes through and replaces the key of its leaf. */
  lemma UpdateOne(s: Suite, t: Tree, size: nat, who: Who, from: LeafIndex, secret: Bytes, rest: Bytes)
    returns (t': Tree, cv: View)
    requires Looks(t, size, who) && from in who
    requires forall l <- who :: who[l].0 != PublicOf(s, KeyOf(s, secret))
    requires forall l <- who :: l != from ==> who[l].1 != who[from].1
    ensures Commits(s, t, from, secret, rest, t', cv)
    ensures Looks(t', size, who[from := (PublicOf(s, KeyOf(s, secret)), who[from].1)])
  {
    hide Lo, Hi, Width, Level, IsPow2, UnmergedOk, Populated, FilteredPath, PathHashes, Covers, WithPath, PathKeys,
      CommitterView, KeyOf, PublicOf;
    OccLeafInTree(t, from);
    var path := CommitPath(s, t, from, secret, rest);
    assert UpdateLeaf(t, from, path.leaf).Ok?;
    SamePath(t, from, path.leaf);
    hide UpdateLeaf;
    assert Merge(s, t, from, path).Ok?;
    t', cv := Views.Update(s, t, from, secret, rest).value.0, Views.Update(s, t, from, secret, rest).value.1;
    UpdatedLooks(s, t, size, who, from, secret, rest, t', cv);
  }

  lemma UpdatedLooks(s: Suite, t: Tree, size: nat, who: Who, from: LeafIndex, secret: Bytes, rest: Bytes, t': Tree, cv: View)
    requires Looks(t, size, who) && from in who && Commits(s, t, from, secret, rest, t', cv)
    ensures Looks(t', size, who[from := (PublicOf(s, KeyOf(s, secret)), who[from].1)])
  {
    hide Lo, Hi, Width, Level, IsPow2, UnmergedOk, Populated, FilteredPath, PathHashes, WithPath, PathKeys, Views.Update,
      CommitterView, KeyOf, PublicOf, Merge;
    CommitTree(s, t, from, secret, rest, t', cv);
    forall l | l != from ensures OccLeaf(t', l) <==> OccLeaf(t, l)
      ensures OccLeaf(t, l) ==> LeafAt(t', l) == LeafAt(t, l)
    {
      assert !Covers(LeafNodeIndex(l), from);
      assert NodeAt(t', LeafNodeIndex(l)) == NodeAt(t, LeafNodeIndex(l));
    }
  }

  /** With leaves 0 and 2 occupied a commit of the first member keys the node above the first four leaves. */
  lemma KeysNodeThree(s: Suite, t: Tree, secret: Bytes, rest: Bytes, t': Tree, cv: View)
    requires Commits(s, t, 0, secret, rest, t', cv) && t.size >= 4 && OccLeaf(t, 2)
    ensures OccParent(t', 3)
  {
    hide Lo, Hi, Width, Level, IsPow2, UnmergedOk, Populated, FilteredPath, Resolve, Views.Update, KeyOf, PublicOf, Merge,
      CommitPath, PathSecret;
    CommitTree(s, t, 0, secret, rest, t', cv);
    OccLeafInTree(t, 0);
    CoversFour();
    assert LeafNodeIndex(0) == 0;
    assert OffPath(0, 3) == Right(3) && Covers(Right(3), 2);
    ResolveMembers(t, Right(3));
    FilteredPathComplete(t, 0, 3);
    var f := CommitNodes(t, 0);
    var j :| 0 <= j < |f| && f[j] == 3;
    assert CommitNode(s, t', 0, f[j], secret, j);
  }

  /** For a commit of leaf 4 leaf 1 looks at the node above the first four leaves, whether it is merged
      into it or not. */
  lemma LooksAtNodeThree(t: Tree)
    requires WF(t) && IsPow2(t.size) && t.size >= 8 && OccLeaf(t, 1) && OccParent(t, 3)
    ensures DecapCoords(t, 1, 4, []).node == 3
  {
    hide Lo, Hi, Width, Level, IsPow2, UnmergedOk, Populated, FilteredPath, Resolve, Ancestor;
    OccLeafInTree(t, 4);
    var c := DecapCoords(t, 1, 4, []);
    var fp := FilteredPath(t, LeafNodeIndex(4));
    AncestorOfOneAndFour();
    CoversFour();
    NodeFromInterval(Left(7), 3);
    FilteredPathFacts(t, LeafNodeIndex(4));
    assert fp[c.entry].resolution == Resolve(t, OffPath(8, 7));
    assert OffPath(8, 7) == 3;
    OccupiedResolves(t, 3);
    assert RemoveLeaves(Resolve(t, 3), []) == Resolve(t, 3);
  }

  lemma AncestorOfOneAndFour()
    ensures Ancestor(1, 4) == 7
  {
    hide Lo, Hi, Width, Level, Ancestor;
    AncestorStep(0, 0);
    AncestorStep(0, 1);
    AncestorStep(0, 2);
    AncestorStep(1, 4);
  }

  lemma OccupiedResolves(t: Tree, x: NodeIndex)
    requires Occ(t, x)
    ensures Resolve(t, x) != [] && Resolve(t, x)[0] == x
  {}

  // --------------------------------------------------------------------------
  // Commits of own proposals
  // --------------------------------------------------------------------------

  /** Every check that is left to the environment succeeds. */
  function OpenEnv(marshalCommit: (LeafIndex, seq<ProposalOrRef>, Option<UpdatePath>, Bytes) -> Bytes,
                   marshalTag: Bytes -> Bytes): Env
  {
    Env((_, _, _, _, _, _) => true, (_, _) => true, (_, _, _) => true, _ => true, 0, marshalCommit, marshalTag)
  }

  function Adds(leaves: seq<LeafNode>): seq<Proposal> {
    seq(|leaves|, i requires 0 <= i < |leaves| => Add(leaves[i]))
  }

  ghost predicate Different(leaves: seq<LeafNode>) {
    forall i, j :: 0 <= i < j < |leaves| ==>
      leaves[i].encryptionKey != leaves[j].encryptionKey && leaves[i].signatureKey != leaves[j].signatureKey
  }

  lemma {:induction false} NoUpdates(t: Tree, leaves: seq<LeafNode>, c: LeafIndex)
    ensures ApplyUpdates(t, Own(Adds(leaves), c)) == Ok(t) && ApplyRemoves(t, Own(Adds(leaves), c)) == Ok(t)
    decreases |leaves|
  {
    if leaves != [] {
      assert Own(Adds(leaves), c)[1..] == Own(Adds(leaves[1..]), c);
      NoUpdates(t, leaves[1..], c);
    }
  }

  lemma {:induction false} AddsOnly(env: Env, st: State, leaves: seq<LeafNode>, c: LeafIndex)
    ensures var ps := Own(Adds(leaves), c);
      && AddedLeaves(ps) == leaves && NoPsks(ps)
      && NewExtensions(env, st, ps) == Ok(st.extensions) && ResolvePsks(st.psks, ps) == Ok([])
    decreases |leaves|
  {
    if leaves != [] {
      assert Own(Adds(leaves), c)[1..] == Own(Adds(leaves[1..]), c);
      AddsOnly(env, st, leaves[1..], c);
    }
  }

  lemma AddFirst(t: Tree, leaves: seq<LeafNode>, c: LeafIndex, u: Tree, i: LeafIndex, w: Tree, rest: seq<LeafIndex>)
    requires leaves != [] && AddLeaf(t, leaves[0]) == Ok((u, i))
    requires ApplyAdds(u, Own(Adds(leaves[1..]), c)) == Ok((w, rest))
    ensures ApplyAdds(t, Own(Adds(leaves), c)) == Ok((w, [i] + rest))
  {
    hide AddLeaf;
    assert Own(Adds(leaves), c)[1..] == Own(Adds(leaves[1..]), c);
  }

  lemma ValidAdds(env: Env, st: State, leaves: seq<LeafNode>, c: LeafIndex)
    requires env == OpenEnv(env.marshalCommit, env.marshalTag) && Different(leaves)
    ensures ValidNormal(env, st, Own(Adds(leaves), c), c) && !(Adds(leaves) != [] && PathRequired(Own(Adds(leaves), c)))
  {}

  /** A commit without pending proposals covers the committer's own list. */
  lemma OwnCommit(s: Suite, k: Kdf, env: Env, st: State, input: CommitInput, applied: Tree, joiners: seq<LeafIndex>)
    returns (m: Materials, next: State)
    requires Good(s, st.tree) && st.pending == []
    requires var ps := Own(input.extra, st.index);
      && ValidNormal(env, st, ps, st.index) && Apply(st.tree, ps) == Ok((applied, joiners))
      && NewExtensions(env, st, ps).Ok? && ResolvePsks(st.psks, ps).Ok?
      && (input.forcePath || PathRequired(ps) ==>
            Shape(applied) && Views.Update(s, applied, st.index, input.leafSecret, input.rest).Ok?)
    ensures Prepare(s, k, env, st, input) == Ok(m) && m.list == Own(input.extra, st.index)
    ensures m.applied == applied && m.joiners == joiners
    ensures m.path.Some? <==> input.forcePath || PathRequired(m.list)
    ensures m.path.None? ==> m.tree == applied
    ensures m.path.Some? ==>
      Shape(applied) && m.tree == Views.Update(s, applied, st.index, input.leafSecret, input.rest).value.0
    ensures Commit(s, k, env, st, input).Ok? && Commit(s, k, env, st, input).value.1 == next
    ensures next.tree == m.tree && next.pending == []
  {
    hide ValidNormal, Apply, Views.Update, Good, SentPath, MustResolve, NewExtensions, ResolvePsks, PathRequired, Successor,
      Own, NewConfirmed;
    ResolveExtra([], input.extra, st.index);
    m := Prepare(s, k, env, st, input).value;
    assert Commit(s, k, env, st, input).Ok? by { hide Prepare; }
    next := Commit(s, k, env, st, input).value.1;
    CommitFields(s, k, env, st, input);
  }

  // --------------------------------------------------------------------------
  // One commit, one joiner
  // --------------------------------------------------------------------------

  predicate NoPsks(ps: seq<CachedProposal>) { forall j :: 0 <= j < |ps| ==> !ps[j].proposal.PreSharedKey? }

  /** A sound member that nothing is pending for. */
  ghost predicate Quiet(s: Suite, k: Kdf, st: State, index: LeafIndex, size: nat, who: Who) {
    Arrived(s, k, index, st, st) && Looks(st.tree, size, who)
  }

  lemma QuietFacts(s: Suite, k: Kdf, st: State, index: LeafIndex, size: nat, who: Who)
    requires Quiet(s, k, st, index, size, who)
    ensures Member(s, st) && Good(s, st.tree) && st.tree.size > 0 && CachedFits(s, st) && st.index == index && st.pending == []
    ensures Looks(st.tree, size, who) && WF(st.tree) && Together(s, k, st, st)
  {
    hide Lo, Hi, ViewOk, UnmergedOk, Populated, ParentHashValid, UniqueKeys;
  }

  /** The committer's next state. */
  lemma Turn(s: Suite, k: Kdf, env: Env, st: State, input: CommitInput, m: Materials, next: State, index: LeafIndex,
             size: nat, who: Who, size': nat, who': Who)
    requires Quiet(s, k, st, index, size, who) && Good(s, st.tree) && Prepare(s, k, env, st, input) == Ok(m)
    requires Commit(s, k, env, st, input).Ok? && Commit(s, k, env, st, input).value.1 == next
    requires next.tree == m.tree && Looks(m.tree, size', who')
    ensures Quiet(s, k, next, index, size', who')
  {
    hide Prepare, Commit, Good, Looks, Arrived;
    QuietFacts(s, k, st, index, size, who);
    NextFields(s, k, env, st, input);
    CommitterArrives(s, k, env, st, input);
  }

  /** A joiner without pre-shared keys, when the commit asks for none. */
  lemma Joins(s: Suite, k: Kdf, env: Env, st: State, input: CommitInput, m: Materials, next: State, index: LeafIndex,
              size: nat, who: Who, size': nat, who': Who, i: LeafIndex, kit: Kit) returns (n: State)
    requires env == OpenEnv(env.marshalCommit, env.marshalTag)
    requires Quiet(s, k, st, index, size, who) && Good(s, st.tree) && Prepare(s, k, env, st, input) == Ok(m) && NoPsks(m.list)
    requires Commit(s, k, env, st, input).Ok? && Commit(s, k, env, st, input).value.1 == next
    requires next.tree == m.tree == m.applied && Looks(m.tree, size', who') && i in m.joiners && i in who'
    requires kit.psks == map[] && PublicOf(s, kit.key) == who'[i].0
    ensures KitFits(s, k, env, st, input, i, kit) && JoinBy(s, k, env, st, input, i, kit) == Ok(n)
    ensures Quiet(s, k, n, i, size', who') && InStep(s, k, next, n) && n.tree == next.tree && n.psks == map[]
  {
    hide Prepare, Commit, Good, Arrived, JoinBy, WF, PublicOf, Member, Together, CachedFits;
    QuietFacts(s, k, st, index, size, who);
    JoinsIff(s, k, env, st, input, i, kit);
    n := JoinBy(s, k, env, st, input, i, kit).value;
    ArrivedItself(s, k, i, next, n);
  }

  lemma ArrivedItself(s: Suite, k: Kdf, i: LeafIndex, next: State, n: State)
    requires Arrived(s, k, i, next, n)
    ensures Arrived(s, k, i, n, n) && InStep(s, k, next, n) && n.tree == next.tree
  {
    hide Member, TreeHash, CachedFits;
  }

  // --------------------------------------------------------------------------
  // The group
  // --------------------------------------------------------------------------

  datatype Person = Person(leaf: LeafNode, key: PrivateKey)

  function KitOf(p: Person): Kit { Kit(p.key, map[]) }

  function LeavesOf(people: seq<Person>): seq<LeafNode> { seq(|people|, i requires 0 <= i < |people| => people[i].leaf) }

  /** Six key packages with their keys, and two secrets for new keys; no key occurs twice. */
  ghost predicate Cast(s: Suite, people: seq<Person>, first: Bytes, second: Bytes) {
    && |people| == 6 && Different(LeavesOf(people))
    && PublicOf(s, KeyOf(s, first)) != PublicOf(s, KeyOf(s, second))
    && forall i :: 0 <= i < 6 ==>
         && people[i].leaf.encryptionKey == PublicOf(s, people[i].key)
         && people[i].leaf.encryptionKey != PublicOf(s, KeyOf(s, first))
         && people[i].leaf.encryptionKey != PublicOf(s, KeyOf(s, second))
  }

  function Input(secret: Bytes, extra: seq<Proposal>): CommitInput {
    CommitInput(secret, extra, false, [], (_, _) => [], [])
  }

  /** The founder adds two members. */
  function FirstInput(people: seq<Person>): CommitInput
    requires |people| == 6
  {
    Input([], Adds([people[1].leaf, people[2].leaf]))
  }

  /** The founder removes one of them, which gives the nodes above new keys. */
  function SecondInput(first: Bytes): CommitInput { Input(first, [Remove(1)]) }

  /** Three more members come in, the first of them at the leaf that became free. */
  function ThirdInput(people: seq<Person>): CommitInput
    requires |people| == 6
  {
    Input([], Adds([people[3].leaf, people[4].leaf, people[5].leaf]))
  }

  /** The last one renews the key of its leaf. */
  function FourthInput(second: Bytes): CommitInput { Input(second, []) }

  function WhoFirst(people: seq<Person>): Who
    requires |people| == 6
  {
    map[0 := KeysOf(people[0].leaf), 1 := KeysOf(people[1].leaf), 2 := KeysOf(people[2].leaf)]
  }

  function WhoSecond(s: Suite, people: seq<Person>, first: Bytes): Who
    requires |people| == 6
  {
    map[0 := (PublicOf(s, KeyOf(s, first)), people[0].leaf.signatureKey), 2 := KeysOf(people[2].leaf)]
  }

  function WhoThird(s: Suite, people: seq<Person>, first: Bytes): Who
    requires |people| == 6
  {
    WhoSecond(s, people, first)[1 := KeysOf(people[3].leaf)][3 := KeysOf(people[4].leaf)][4 := KeysOf(people[5].leaf)]
  }

  lemma AfterFirst(s: Suite, k: Kdf, env: Env, st: State, people: seq<Person>, first: Bytes, second: Bytes)
    returns (next: State)
    requires env == OpenEnv(env.marshalCommit, env.marshalTag) && Cast(s, people, first, second)
    requires Quiet(s, k, st, 0, 1, map[0 := KeysOf(people[0].leaf)]) && Good(s, st.tree)
    ensures Commit(s, k, env, st, FirstInput(people)).Ok? && Commit(s, k, env, st, FirstInput(people)).value.1 == next
    ensures Quiet(s, k, next, 0, 4, WhoFirst(people)) && Good(s, next.tree)
  {
    hide Looks, OpenEnv, Apply, NewExtensions, ResolvePsks, ValidNormal, Different, WhoFirst, Quiet, AddedLeaves, Prepare, Commit,
      Good, KeyOf, PublicOf, PathRequired, Own;
    QuietFacts(s, k, st, 0, 1, map[0 := KeysOf(people[0].leaf)]);
    var t, joiners := TwoMore(s, people, first, second, st.tree);
    var leaves := [people[1].leaf, people[2].leaf];
    AddsOnly(env, st, leaves, 0);
    ValidAdds(env, st, leaves, 0);
    var m: Materials;
    m, next := OwnCommit(s, k, env, st, FirstInput(people), t, joiners);
    Turn(s, k, env, st, FirstInput(people), m, next, 0, 1, map[0 := KeysOf(people[0].leaf)], 4, WhoFirst(people));
    QuietFacts(s, k, next, 0, 4, WhoFirst(people));
  }

  lemma TwoMore(s: Suite, people: seq<Person>, first: Bytes, second: Bytes, t: Tree) returns (u: Tree, joiners: seq<LeafIndex>)
    requires Cast(s, people, first, second) && Looks(t, 1, map[0 := KeysOf(people[0].leaf)])
    ensures joiners == [1, 2] && Looks(u, 4, WhoFirst(people)) && Different([people[1].leaf, people[2].leaf])
    ensures Apply(t, Own(Adds([people[1].leaf, people[2].leaf]), 0)) == Ok((u, joiners))
  {
    hide Looks, AddLeaf, ApplyAdds, ApplyUpdates, ApplyRemoves, KeyOf, PublicOf, Own, Truncate, SomeLeaf, Lo, Hi, WF;
    var a, b, ls := people[1].leaf, people[2].leaf, LeavesOf(people);
    assert ls[0] == people[0].leaf && ls[1] == a && ls[2] == b;
    var who := map[0 := KeysOf(people[0].leaf)];
    var t1 := AddOne(t, 1, who, a, 1);
    u := AddOne(t1, 2, who[1 := KeysOf(a)], b, 2);
    joiners := [1, 2];
    assert who[1 := KeysOf(a)][2 := KeysOf(b)] == WhoFirst(people);
    TruncateStays(u, 4, WhoFirst(people), 2);
    LooksFacts(u, 4, WhoFirst(people));
    NoneLeft(u, 0);
    assert [a, b][1..] == [b] && [b][1..] == [];
    assert [2] + [] == [2] && [1] + [2] == joiners;
    AddFirst(t1, [b], 0, u, 2, u, []);
    AddFirst(t, [a, b], 0, t1, 1, u, [2]);
    NoUpdates(t, [a, b], 0);
  }

  lemma NoneLeft(t: Tree, c: LeafIndex)
    ensures ApplyAdds(t, Own(Adds([]), c)) == Ok((t, []))
  {}

  lemma AfterSecond(s: Suite, k: Kdf, env: Env, st: State, people: seq<Person>, first: Bytes, second: Bytes)
    returns (next: State)
    requires env == OpenEnv(env.marshalCommit, env.marshalTag) && Cast(s, people, first, second)
    requires Quiet(s, k, st, 0, 4, WhoFirst(people)) && Good(s, st.tree)
    ensures Commit(s, k, env, st, SecondInput(first)).Ok? && Commit(s, k, env, st, SecondInput(first)).value.1 == next
    ensures Quiet(s, k, next, 0, 4, WhoSecond(s, people, first)) && Good(s, next.tree) && OccParent(next.tree, 3)
  {
    hide Looks, OpenEnv, Apply, NewExtensions, ResolvePsks, ValidNormal, AddedLeaves, Prepare, Commit, Good, KeyOf, PublicOf,
      PathRequired, Own, Truncate, SomeLeaf, Views.Update, Blanked, BlankPath, Different, WhoFirst, WhoSecond, WF, OccParent,
      OccLeaf, Shape, Quiet;
    QuietFacts(s, k, st, 0, 4, WhoFirst(people));
    var t, t', cv := OneLess(s, people, first, second, st.tree);
    LooksFacts(st.tree, 4, WhoFirst(people));
    RemovesOne(env, st, 1, 0, t);
    var m: Materials;
    m, next := OwnCommit(s, k, env, st, SecondInput(first), t, []);
    Turn(s, k, env, st, SecondInput(first), m, next, 0, 4, WhoFirst(people), 4, WhoSecond(s, people, first));
    QuietFacts(s, k, next, 0, 4, WhoSecond(s, people, first));
  }

  lemma OneLess(s: Suite, people: seq<Person>, first: Bytes, second: Bytes, t: Tree) returns (u: Tree, u': Tree, cv: View)
    requires Cast(s, people, first, second) && Looks(t, 4, WhoFirst(people))
    ensures OccLeaf(t, 1) && BlankPath(t, 1) == Ok(u) && Shape(u) && SomeLeaf(u) && Truncate(u) == u && u.size > 0
    ensures Views.Update(s, u, 0, first, []) == Ok((u', cv))
    ensures Looks(u', 4, WhoSecond(s, people, first)) && OccParent(u', 3)
  {
    hide Looks, KeyOf, PublicOf, Truncate, SomeLeaf, Views.Update, Blanked, BlankPath, WF, OccParent, OccLeaf, Shape;
    var left := map[0 := KeysOf(people[0].leaf), 2 := KeysOf(people[2].leaf)];
    assert WhoFirst(people) - {1} == left;
    var ls := LeavesOf(people);
    assert ls[0] == people[0].leaf && ls[2] == people[2].leaf;
    RemoveOne(t, 4, WhoFirst(people), 1);
    u := Blanked(t, 1);
    TruncateStays(u, 4, left, 2);
    LooksFacts(t, 4, WhoFirst(people));
    LooksFacts(u, 4, left);
    u', cv := UpdateOne(s, u, 4, left, 0, first, []);
    KeysNodeThree(s, u, first, [], u', cv);
    assert left[0 := (PublicOf(s, KeyOf(s, first)), people[0].leaf.signatureKey)] == WhoSecond(s, people, first);
  }

  lemma RemovesOne(env: Env, st: State, i: LeafIndex, c: LeafIndex, t: Tree)
    requires env == OpenEnv(env.marshalCommit, env.marshalTag)
    requires Shape(st.tree) && OccLeaf(st.tree, i) && i != c && st.index == c
    requires BlankPath(st.tree, i) == Ok(t) && SomeLeaf(t) && Truncate(t) == t && t.size > 0
    ensures var ps := Own([Remove(i)], c);
      && ValidNormal(env, st, ps, c) && Apply(st.tree, ps) == Ok((t, []))
      && AddedLeaves(ps) == [] && PathRequired(ps) && NoPsks(ps)
      && NewExtensions(env, st, ps) == Ok(st.extensions) && ResolvePsks(st.psks, ps) == Ok([])
  {
    hide Lo, Hi, Truncate, BlankPath, Blanked;
    OccLeafInTree(st.tree, i);
    var ps := Own([Remove(i)], c);
    assert ps[1..] == [] && NeedsPath(ps[0].proposal);
    assert ApplyUpdates(st.tree, []) == Ok(st.tree) && ApplyRemoves(t, []) == Ok(t) && ApplyAdds(t, []) == Ok((t, []));
    assert ApplyUpdates(st.tree, ps) == Ok(st.tree) && ApplyRemoves(st.tree, ps) == Ok(t) && ApplyAdds(t, ps) == Ok((t, []));
  }

  lemma AfterThird(s: Suite, k: Kdf, env: Env, st: State, people: seq<Person>, first: Bytes, second: Bytes)
    returns (next: State, one: State, four: State)
    requires env == OpenEnv(env.marshalCommit, env.marshalTag) && Cast(s, people, first, second)
    requires Quiet(s, k, st, 0, 4, WhoSecond(s, people, first)) && Good(s, st.tree) && OccParent(st.tree, 3)
    ensures Commit(s, k, env, st, ThirdInput(people)).Ok? && Commit(s, k, env, st, ThirdInput(people)).value.1 == next
    ensures KitFits(s, k, env, st, ThirdInput(people), 1, KitOf(people[3]))
    ensures JoinBy(s, k, env, st, ThirdInput(people), 1, KitOf(people[3])) == Ok(one)
    ensures KitFits(s, k, env, st, ThirdInput(people), 4, KitOf(people[5]))
    ensures JoinBy(s, k, env, st, ThirdInput(people), 4, KitOf(people[5])) == Ok(four)
    ensures Quiet(s, k, one, 1, 8, WhoThird(s, people, first)) && Quiet(s, k, four, 4, 8, WhoThird(s, people, first))
    ensures InStep(s, k, next, one) && InStep(s, k, next, four) && one.tree == four.tree == next.tree && Good(s, next.tree)
    ensures OccParent(four.tree, 3) && 1 in Unmerged(four.tree, 3)
  {
    hide Looks, OpenEnv, Apply, NewExtensions, ResolvePsks, ValidNormal, AddedLeaves, Different, WhoSecond,
      Prepare, Commit, Good, KeyOf, PublicOf, PathRequired, Own, Truncate, SomeLeaf, OccParent, Unmerged, Covers, Quiet, JoinBy,
      KitFits, InStep;
    var who, who' := WhoSecond(s, people, first), WhoThird(s, people, first);
    QuietFacts(s, k, st, 0, 4, who);
    var t, joiners := ThreeMore(s, people, first, second, st.tree);
    var leaves := [people[3].leaf, people[4].leaf, people[5].leaf];
    AddsOnly(env, st, leaves, 0);
    CastDiffers(s, people, first, second);
    ValidAdds(env, st, leaves, 0);
    var m: Materials;
    var input := ThirdInput(people);
    m, next := OwnCommit(s, k, env, st, input, t, joiners);
    Turn(s, k, env, st, input, m, next, 0, 4, who, 8, who');
    QuietFacts(s, k, next, 0, 8, who');
    hide *;
    one := Joins(s, k, env, st, input, m, next, 0, 4, who, 8, who', 1, KitOf(people[3]));
    four := Joins(s, k, env, st, input, m, next, 0, 4, who, 8, who', 4, KitOf(people[5]));
  }

  lemma CastDiffers(s: Suite, people: seq<Person>, first: Bytes, second: Bytes)
    requires Cast(s, people, first, second)
    ensures Different([people[3].leaf, people[4].leaf, people[5].leaf])
    ensures NewKeys(WhoSecond(s, people, first), people[3].leaf)
    ensures NewKeys(WhoSecond(s, people, first)[1 := KeysOf(people[3].leaf)], people[4].leaf)
    ensures NewKeys(WhoSecond(s, people, first)[1 := KeysOf(people[3].leaf)][3 := KeysOf(people[4].leaf)], people[5].leaf)
    ensures forall l <- WhoThird(s, people, first) :: WhoThird(s, people, first)[l].0 != PublicOf(s, KeyOf(s, second))
    ensures forall l <- WhoThird(s, people, first) ::
      l != 4 ==> WhoThird(s, people, first)[l].1 != WhoThird(s, people, first)[4].1
  {
    hide KeyOf, PublicOf;
    var ls := LeavesOf(people);
    assert forall i :: 0 <= i < 6 ==> ls[i] == people[i].leaf;
  }

  lemma ThreeMore(s: Suite, people: seq<Person>, first: Bytes, second: Bytes, t: Tree) returns (u: Tree, joiners: seq<LeafIndex>)
    requires Cast(s, people, first, second) && Looks(t, 4, WhoSecond(s, people, first)) && OccParent(t, 3)
    ensures joiners == [1, 3, 4] && Looks(u, 8, WhoThird(s, people, first))
    ensures Apply(t, Own(Adds([people[3].leaf, people[4].leaf, people[5].leaf]), 0)) == Ok((u, joiners))
    ensures OccParent(u, 3) && 1 in Unmerged(u, 3)
  {
    hide Looks, AddLeaf, ApplyAdds, ApplyUpdates, ApplyRemoves, KeyOf, PublicOf, Own, Truncate, SomeLeaf, OccParent, Unmerged,
      Covers, Lo, Hi, WF, Different, KeysOf;
    CastDiffers(s, people, first, second);
    var a, b, c := people[3].leaf, people[4].leaf, people[5].leaf;
    var who := WhoSecond(s, people, first);
    var t1 := AddOne(t, 4, who, a, 1);
    var t2 := AddOne(t1, 4, who[1 := KeysOf(a)], b, 3);
    u := AddOne(t2, 4, who[1 := KeysOf(a)][3 := KeysOf(b)], c, 4);
    joiners := [1, 3, 4];
    TruncateStays(u, 8, WhoThird(s, people, first), 4);
    LooksFacts(u, 8, WhoThird(s, people, first));
    NoneLeft(u, 0);
    assert [a, b, c][1..] == [b, c] && [b, c][1..] == [c] && [c][1..] == [];
    assert [4] + [] == [4] && [3] + [4] == [3, 4] && [1] + [3, 4] == joiners;
    AddFirst(t2, [c], 0, u, 4, u, []);
    AddFirst(t1, [b, c], 0, t2, 3, u, [4]);
    AddFirst(t, [a, b, c], 0, t1, 1, u, [3, 4]);
    NoUpdates(t, [a, b, c], 0);
    LooksFacts(t, 4, who);
    LooksFacts(t1, 4, who[1 := KeysOf(a)]);
    LooksFacts(t2, 4, who[1 := KeysOf(a)][3 := KeysOf(b)]);
    AddedUnmerged(t, a, t1, 1, 3);
    AddedUnmerged(t1, b, t2, 3, 3);
    AddedUnmerged(t2, c, u, 4, 3);
    CoversFour();
  }

  lemma CoversFour()
    ensures Lo(3) == 0 && Hi(3) == 4 && Lo(7) == 0 && Hi(7) == 8
    ensures Covers(3, 1) && !Covers(3, 4)
  {
    hide Lo, Hi;
    SmallNodes();
  }

  /** The last commit goes through. */
  lemma LastCommit(s: Suite, k: Kdf, env: Env, st: State, people: seq<Person>, first: Bytes, second: Bytes)
    returns (m: Materials, next: State)
    requires Cast(s, people, first, second) && env == OpenEnv(env.marshalCommit, env.marshalTag)
    requires st.index == 4 && st.pending == [] && Good(s, st.tree) && Looks(st.tree, 8, WhoThird(s, people, first))
    requires OccParent(st.tree, 3) && 1 in Unmerged(st.tree, 3)
    ensures Prepare(s, k, env, st, FourthInput(second)) == Ok(m) && m.list == [] && m.joiners == [] && m.path.Some?
    ensures Commit(s, k, env, st, FourthInput(second)).Ok? && Commit(s, k, env, st, FourthInput(second)).value.1 == next
    ensures next.pending == [] && next.tree == m.tree
    ensures Looks(m.tree, 8, WhoThird(s, people, first)[4 := (PublicOf(s, KeyOf(s, second)), people[5].leaf.signatureKey)])
    ensures WF(m.tree) && IsPow2(m.tree.size) && m.tree.size == 8 && OccLeaf(m.tree, 1)
    ensures DecapCoords(m.tree, 1, 4, []).node == 3 && 1 in Unmerged(m.tree, 3)
  {
    hide Looks, OpenEnv, Prepare, Commit, Good, KeyOf, PublicOf, PathRequired, Own, Truncate, SomeLeaf,
      Views.Update, ValidNormal, Apply, NewExtensions, ResolvePsks, Covers, UnmergedOk, Populated, IsPow2;
    var who := WhoThird(s, people, first);
    CastDiffers(s, people, first, second);
    TruncateStays(st.tree, 8, who, 4);
    LooksFacts(st.tree, 8, who);
    NothingProposed(env, st, 4);
    var t', cv := UpdateOne(s, st.tree, 8, who, 4, second, []);
    m, next := OwnCommit(s, k, env, st, FourthInput(second), st.tree, []);
    NodeThreeKept(s, st.tree, second, [], t', cv);
    LooksFacts(t', 8, who[4 := (PublicOf(s, KeyOf(s, second)), who[4].1)]);
    LooksAtNodeThree(t');
  }

  /** A member of the committer's epoch that is unmerged at its first recipient cannot follow. */
  lemma LeftBehind(s: Suite, k: Kdf, env: Env, c: State, r: State, input: CommitInput, m: Materials)
    requires DecryptionWorks(s) && TreeHashInjective(s) && env == OpenEnv(env.marshalCommit, env.marshalTag)
    requires Member(s, c) && Member(s, r) && CachedFits(s, r) && r.index != c.index && c.tree == r.tree && InStep(s, k, c, r)
    requires Prepare(s, k, env, c, input) == Ok(m) && Commit(s, k, env, c, input).Ok? && m.list == [] && m.path.Some?
    requires WF(m.tree) && IsPow2(m.tree.size) && c.index < m.tree.size && OccLeaf(m.tree, r.index) && r.index !in m.joiners
    requires r.index in Unmerged(m.tree, DecapCoords(m.tree, r.index, c.index, m.joiners).node)
    ensures HandleMessage(s, k, env, r, MessageOf(s, k, env, c, input)) == Err(BadOptional)
  {
    hide Prepare, Commit, Good, HandleCommit, WF, InStep, ViewOk, DecapCoords, IsPow2, OccLeaf;
    SameContext(s, k, c, r);
    CommitFields(s, k, env, c, input);
    NothingToUnderstand(s, k, env, c, r, input, m);
    RecipientBefore(s, k, env, c, input, m, r.index);
    hide Understands, UpdateMatches, CachedFits;
    var r' := ReceiverWithPath(s, k, env, c, r, input);
  }

  lemma RecipientBefore(s: Suite, k: Kdf, env: Env, c: State, input: CommitInput, m: Materials, i: LeafIndex)
    requires Good(s, c.tree) && Prepare(s, k, env, c, input) == Ok(m) && m.path.Some?
    requires OccLeaf(m.tree, i) && i != c.index && i !in m.joiners
    requires WF(m.tree) && IsPow2(m.tree.size) && c.index < m.tree.size
    ensures WF(m.applied) && IsPow2(m.applied.size) && c.index < m.applied.size && OccLeaf(m.applied, i)
    ensures DecapCoords(m.applied, i, c.index, m.joiners) == DecapCoords(m.tree, i, c.index, m.joiners)
    ensures var n := DecapCoords(m.tree, i, c.index, m.joiners).node; Unmerged(m.applied, n) == Unmerged(m.tree, n)
  {
    hide Lo, Hi, Width, Level, Prepare, Good, Commits, WF, DecapCoords, IsPow2, SentPath, Covers, OccLeaf, Unmerged;
    MaterialsPath(s, k, env, c, input);
    LeafBefore(s, m.applied, c.index, input.leafSecret, input.rest, m.tree, m.view, i);
    SameRecipient(s, m.applied, c.index, input.leafSecret, input.rest, m.tree, m.view, i, m.joiners);
  }

  lemma LeafBefore(s: Suite, t: Tree, from: LeafIndex, secret: Bytes, rest: Bytes, t': Tree, cv: View, i: LeafIndex)
    requires Commits(s, t, from, secret, rest, t', cv) && i != from && OccLeaf(t', i)
    ensures from < t.size && WF(t) && IsPow2(t.size) && OccLeaf(t, i)
  {
    hide Lo, Hi, Width, Level, IsPow2, Views.Update, Merge, WF, FilteredPath, OccLeaf, LeafAt, Covers;
    CommitTree(s, t, from, secret, rest, t', cv);
    LeafKept(t', t, from, i);
  }

  lemma NothingToUnderstand(s: Suite, k: Kdf, env: Env, c: State, r: State, input: CommitInput, m: Materials)
    requires Good(s, c.tree) && Prepare(s, k, env, c, input) == Ok(m) && m.list == []
    ensures Understands(c, r, m) && UpdateMatches(r, m.list) && !Removes(m.list, r.index)
  {
    hide Prepare, Good;
    MaterialsFacts(s, k, env, c, input);
    assert m.ids == [];
  }

  lemma NothingProposed(env: Env, st: State, c: LeafIndex)
    requires SomeLeaf(st.tree) && Truncate(st.tree) == st.tree && st.tree.size > 0
    ensures var ps := Own([], c);
      && ps == [] && ValidNormal(env, st, ps, c) && Apply(st.tree, ps) == Ok((st.tree, [])) && PathRequired(ps)
      && NewExtensions(env, st, ps) == Ok(st.extensions) && ResolvePsks(st.psks, ps) == Ok([])
  {
    hide Lo, Hi, Truncate;
  }

  lemma NodeThreeKept(s: Suite, t: Tree, secret: Bytes, rest: Bytes, t': Tree, cv: View)
    requires Commits(s, t, 4, secret, rest, t', cv)
    ensures NodeAt(t', 3) == NodeAt(t, 3) && Unmerged(t', 3) == Unmerged(t, 3) && (OccParent(t, 3) ==> OccParent(t', 3))
    ensures WF(t') && IsPow2(t'.size) && t'.size == t.size
  {
    hide Lo, Hi, Width, Level, IsPow2, UnmergedOk, Populated, FilteredPath, Views.Update, Merge, Covers, WF;
    CommitTree(s, t, 4, secret, rest, t', cv);
    CoversFour();
  }

  lemma AfterFourth(s: Suite, k: Kdf, env: Env, one: State, four: State, people: seq<Person>, first: Bytes, second: Bytes)
    returns (m: Materials, next: State)
    requires DecryptionWorks(s) && TreeHashInjective(s) && env == OpenEnv(env.marshalCommit, env.marshalTag)
    requires Cast(s, people, first, second)
    requires Quiet(s, k, one, 1, 8, WhoThird(s, people, first)) && Quiet(s, k, four, 4, 8, WhoThird(s, people, first))
    requires InStep(s, k, four, one) && one.tree == four.tree && Good(s, four.tree)
    requires OccParent(four.tree, 3) && 1 in Unmerged(four.tree, 3)
    ensures Prepare(s, k, env, four, FourthInput(second)) == Ok(m) && WF(m.tree) && m.tree.size == 8 && m.joiners == []
    ensures IsPow2(m.tree.size) && OccLeaf(m.tree, 1)
    ensures DecapCoords(m.tree, 1, 4, []).node == 3 && 1 in Unmerged(m.tree, 3)
    ensures Commit(s, k, env, four, FourthInput(second)).Ok? && Commit(s, k, env, four, FourthInput(second)).value.1 == next
    ensures HandleMessage(s, k, env, one, MessageOf(s, k, env, four, FourthInput(second))) == Err(BadOptional)
    ensures Good(s, next.tree)
  {
    hide Looks, OpenEnv, Prepare, Commit, Good, HandleMessage, MessageOf, WhoThird, Different, WF, ViewOk, DecapCoords, IsPow2,
      OccLeaf, OccParent, Unmerged, KeyOf, PublicOf, Quiet, InStep, Together, CachedFits, Member;
    QuietFacts(s, k, one, 1, 8, WhoThird(s, people, first));
    QuietFacts(s, k, four, 4, 8, WhoThird(s, people, first));
    m, next := LastCommit(s, k, env, four, people, first, second);
    LeftBehind(s, k, env, four, one, FourthInput(second), m);
    var who := WhoThird(s, people, first)[4 := (PublicOf(s, KeyOf(s, second)), people[5].leaf.signatureKey)];
    Turn(s, k, env, four, FourthInput(second), m, next, 4, 8, WhoThird(s, people, first), 8, who);
    QuietFacts(s, k, next, 4, 8, who);
  }

  // --------------------------------------------------------------------------
  // The run
  // --------------------------------------------------------------------------

  lemma FounderQuiet(s: Suite, k: Kdf, env: Env, founder: Person, groupId: Bytes, initSecret: Bytes, extensions: Bytes,
                     psks: map<Bytes, Bytes>) returns (st: State)
    requires PublicOf(s, founder.key) == founder.leaf.encryptionKey
    ensures st == Founder(s, k, env, groupId, founder.leaf, founder.key, initSecret, extensions, psks)
    ensures Quiet(s, k, st, 0, 1, map[0 := KeysOf(founder.leaf)]) && Good(s, st.tree)
  {
    hide Lo, Hi, Width, Level, IsPow2, TreeHash, UnmergedOk, Populated, ParentHashValid, UniqueKeys, AllInStep, Member;
    FounderInStep(s, k, env, groupId, founder.leaf, founder.key, initSecret, extensions, psks);
    st := Founder(s, k, env, groupId, founder.leaf, founder.key, initSecret, extensions, psks);
    StepSound(s, k, env, {st}, st);
    FirstTree(s, founder.leaf);
    forall l ensures OccLeaf(st.tree, l) <==> l == 0 { OccLeafInTree(st.tree, l); }
  }

  lemma CommitStep(s: Suite, k: Kdf, env: Env, w: World, st: State, input: CommitInput, next: State)
    requires st in w && Good(s, st.tree)
    requires Commit(s, k, env, st, input).Ok? && Commit(s, k, env, st, input).value.1 == next
    ensures IsStep(s, k, env, w, MakeCommit(st, input), w + {next})
  {
    hide Good, Commit;
  }

  lemma JoinStep(s: Suite, k: Kdf, env: Env, w: World, st: State, input: CommitInput, i: LeafIndex, kit: Kit, n: State)
    requires st in w && Good(s, st.tree) && kit.psks == map[]
    requires KitFits(s, k, env, st, input, i, kit) && JoinBy(s, k, env, st, input, i, kit) == Ok(n)
    ensures IsStep(s, k, env, w, JoinGroup(st, input, i, kit), w + {n})
  {
    hide Good, JoinBy, KitFits;
  }

  lemma HearStep(s: Suite, k: Kdf, env: Env, w: World, r: State, c: State, input: CommitInput)
    requires r in w && c in w && Good(s, r.tree) && Good(s, c.tree) && c.tree.size > 0 && Commit(s, k, env, c, input).Ok?
    requires HandleMessage(s, k, env, r, MessageOf(s, k, env, c, input)).Err?
    ensures IsStep(s, k, env, w, HearCommit(r, c, input), w)
  {
    hide Good, Commit, HandleMessage, MessageOf;
  }

  /** The states appear one by one; the last message changes nothing. */
  function Worlds(sts: seq<State>): seq<World>
    requires |sts| == 7
  {
    var w1 := {sts[0]};
    var w2 := w1 + {sts[1]};
    var w3 := w2 + {sts[2]};
    var w4 := w3 + {sts[3]};
    var w5 := w4 + {sts[4]};
    var w6 := w5 + {sts[5]};
    var w7 := w6 + {sts[6]};
    [w1, w2, w3, w4, w5, w6, w7, w7]
  }

  /** What happens, given the states that come of it. */
  function Script(people: seq<Person>, first: Bytes, second: Bytes, sts: seq<State>): seq<Action>
    requires |people| == 6 && |sts| == 7
  {
    [MakeCommit(sts[0], FirstInput(people)), MakeCommit(sts[1], SecondInput(first)), MakeCommit(sts[2], ThirdInput(people)),
     JoinGroup(sts[2], ThirdInput(people), 1, KitOf(people[3])), JoinGroup(sts[2], ThirdInput(people), 4, KitOf(people[5])),
     MakeCommit(sts[5], FourthInput(second)), HearCommit(sts[4], sts[5], FourthInput(second))]
  }

  lemma SevenSteps(s: Suite, k: Kdf, env: Env, people: seq<Person>, first: Bytes, second: Bytes, st: State, two: State,
                   keyed: State, five: State, one: State, four: State, last: State)
    requires |people| == 6 && Good(s, st.tree) && Good(s, two.tree) && Good(s, keyed.tree)
    requires Good(s, one.tree) && Good(s, four.tree) && four.tree.size > 0
    requires Commit(s, k, env, st, FirstInput(people)).Ok? && Commit(s, k, env, st, FirstInput(people)).value.1 == two
    requires Commit(s, k, env, two, SecondInput(first)).Ok? && Commit(s, k, env, two, SecondInput(first)).value.1 == keyed
    requires Commit(s, k, env, keyed, ThirdInput(people)).Ok? && Commit(s, k, env, keyed, ThirdInput(people)).value.1 == five
    requires KitFits(s, k, env, keyed, ThirdInput(people), 1, KitOf(people[3]))
    requires JoinBy(s, k, env, keyed, ThirdInput(people), 1, KitOf(people[3])) == Ok(one)
    requires KitFits(s, k, env, keyed, ThirdInput(people), 4, KitOf(people[5]))
    requires JoinBy(s, k, env, keyed, ThirdInput(people), 4, KitOf(people[5])) == Ok(four)
    requires Commit(s, k, env, four, FourthInput(second)).Ok? && Commit(s, k, env, four, FourthInput(second)).value.1 == last
    requires HandleMessage(s, k, env, one, MessageOf(s, k, env, four, FourthInput(second))).Err?
    ensures var sts := [st, two, keyed, five, one, four, last];
      IsGroupRun(s, k, env, Worlds(sts), Script(people, first, second, sts))
  {
    hide Good, Commit, HandleMessage, MessageOf, KitFits, JoinBy, FirstInput, SecondInput, ThirdInput, FourthInput, IsStep;
    var sts := [st, two, keyed, five, one, four, last];
    var worlds, actions := Worlds(sts), Script(people, first, second, sts);
    CommitStep(s, k, env, worlds[0], st, FirstInput(people), two);
    assert IsStep(s, k, env, worlds[0], actions[0], worlds[1]);
    CommitStep(s, k, env, worlds[1], two, SecondInput(first), keyed);
    assert IsStep(s, k, env, worlds[1], actions[1], worlds[2]);
    CommitStep(s, k, env, worlds[2], keyed, ThirdInput(people), five);
    assert IsStep(s, k, env, worlds[2], actions[2], worlds[3]);
    JoinStep(s, k, env, worlds[3], keyed, ThirdInput(people), 1, KitOf(people[3]), one);
    assert IsStep(s, k, env, worlds[3], actions[3], worlds[4]);
    JoinStep(s, k, env, worlds[4], keyed, ThirdInput(people), 4, KitOf(people[5]), four);
    assert IsStep(s, k, env, worlds[4], actions[4], worlds[5]);
    CommitStep(s, k, env, worlds[5], four, FourthInput(second), last);
    assert IsStep(s, k, env, worlds[5], actions[5], worlds[6]);
    HearStep(s, k, env, worlds[6], one, four, FourthInput(second));
    assert IsStep(s, k, env, worlds[6], actions[6], worlds[7]);
  }

  lemma WorldsAndScript(people: seq<Person>, first: Bytes, second: Bytes, sts: seq<State>)
    requires |people| == 6 && |sts| == 7
    ensures var worlds := Worlds(sts);
      |worlds| == 8 && worlds[0] == {sts[0]} && sts[4] in worlds[5] && sts[5] in worlds[5] && worlds[7] == worlds[6]
    ensures var actions := Script(people, first, second, sts);
      && |actions| == 7
      && actions[5..] == [MakeCommit(sts[5], FourthInput(second)), HearCommit(sts[4], sts[5], FourthInput(second))]
  {
    hide FirstInput, SecondInput, ThirdInput, FourthInput;
  }

  /** The states of the example, one from the other. */
  lemma Story(s: Suite, k: Kdf, env: Env, people: seq<Person>, first: Bytes, second: Bytes, groupId: Bytes,
              initSecret: Bytes, extensions: Bytes, psks: map<Bytes, Bytes>)
    returns (st: State, two: State, keyed: State, five: State, one: State, four: State, m: Materials, last: State)
    requires DecryptionWorks(s) && TreeHashInjective(s) && env == OpenEnv(env.marshalCommit, env.marshalTag)
    requires Cast(s, people, first, second)
    ensures st == Founder(s, k, env, groupId, people[0].leaf, people[0].key, initSecret, extensions, psks)
    ensures Good(s, st.tree) && Good(s, two.tree) && Good(s, keyed.tree) && Good(s, one.tree) && Good(s, four.tree)
    ensures Commit(s, k, env, st, FirstInput(people)).Ok? && Commit(s, k, env, st, FirstInput(people)).value.1 == two
    ensures Commit(s, k, env, two, SecondInput(first)).Ok? && Commit(s, k, env, two, SecondInput(first)).value.1 == keyed
    ensures Commit(s, k, env, keyed, ThirdInput(people)).Ok? && Commit(s, k, env, keyed, ThirdInput(people)).value.1 == five
    ensures KitFits(s, k, env, keyed, ThirdInput(people), 1, KitOf(people[3]))
    ensures JoinBy(s, k, env, keyed, ThirdInput(people), 1, KitOf(people[3])) == Ok(one)
    ensures KitFits(s, k, env, keyed, ThirdInput(people), 4, KitOf(people[5]))
    ensures JoinBy(s, k, env, keyed, ThirdInput(people), 4, KitOf(people[5])) == Ok(four)
    ensures one.index == 1 && four.index == 4 && four.tree.size > 0
    ensures Member(s, one) && Member(s, four) && one.tree == four.tree && InStep(s, k, four, one)
    ensures Prepare(s, k, env, four, FourthInput(second)) == Ok(m)
    ensures WF(m.tree) && IsPow2(m.tree.size) && m.tree.size == 8 && OccLeaf(m.tree, 1) && m.joiners == []
    ensures DecapCoords(m.tree, 1, 4, []).node == 3 && 1 in Unmerged(m.tree, 3)
    ensures Commit(s, k, env, four, FourthInput(second)).Ok? && Commit(s, k, env, four, FourthInput(second)).value.1 == last
    ensures HandleMessage(s, k, env, one, MessageOf(s, k, env, four, FourthInput(second))) == Err(BadOptional)
  {
    hide Looks, OpenEnv, Prepare, Commit, Good, HandleMessage, MessageOf, Founder, WhoFirst, WhoSecond, WhoThird, WF, ViewOk,
      DecapCoords, IsPow2, OccLeaf, OccParent, Unmerged, KeyOf, PublicOf, Different, Quiet, InStep, Together, CachedFits,
      Member, KitFits, JoinBy, FirstInput, SecondInput, ThirdInput, FourthInput;
    st := FounderQuiet(s, k, env, people[0], groupId, initSecret, extensions, psks);
    two := AfterFirst(s, k, env, st, people, first, second);
    keyed := AfterSecond(s, k, env, two, people, first, second);
    five, one, four := AfterThird(s, k, env, keyed, people, first, second);
    InStepWithBoth(s, k, five, four, one);
    m, last := AfterFourth(s, k, env, one, four, people, first, second);
    QuietFacts(s, k, st, 0, 1, map[0 := KeysOf(people[0].leaf)]);
    QuietFacts(s, k, one, 1, 8, WhoThird(s, people, first));
    QuietFacts(s, k, four, 4, 8, WhoThird(s, people, first));
  }

  /** `decap_coords` takes the first recipient above the member without asking whether it is merged there.
      From any founder a group of five gets to where the member at leaf 1 is unmerged at the node that a
      commit of leaf 4 is encrypted to: they are in step, and its `handle_commit` throws all the same. */
  lemma UnmergedRecipient(s: Suite, k: Kdf, env: Env, people: seq<Person>, first: Bytes, second: Bytes, groupId: Bytes,
                          initSecret: Bytes, extensions: Bytes, psks: map<Bytes, Bytes>)
    returns (worlds: seq<World>, actions: seq<Action>, one: State, four: State, m: Materials)
    requires DecryptionWorks(s) && TreeHashInjective(s) && env == OpenEnv(env.marshalCommit, env.marshalTag)
    requires Cast(s, people, first, second)
    ensures IsGroupRun(s, k, env, worlds, actions) && |actions| == 7
    ensures worlds[0] == {Founder(s, k, env, groupId, people[0].leaf, people[0].key, initSecret, extensions, psks)}
    ensures actions[5..] == [MakeCommit(four, FourthInput(second)), HearCommit(one, four, FourthInput(second))]
    ensures one in worlds[5] && four in worlds[5] && one.index == 1 && four.index == 4 && worlds[7] == worlds[6]
    ensures Member(s, one) && Member(s, four) && one.tree == four.tree && InStep(s, k, four, one)
    ensures Prepare(s, k, env, four, FourthInput(second)) == Ok(m)
    ensures WF(m.tree) && IsPow2(m.tree.size) && m.tree.size == 8 && OccLeaf(m.tree, 1) && m.joiners == []
    ensures DecapCoords(m.tree, 1, 4, []).node == 3 && 1 in Unmerged(m.tree, 3)
    ensures Commit(s, k, env, four, FourthInput(second)).Ok?
    ensures HandleMessage(s, k, env, one, MessageOf(s, k, env, four, FourthInput(second))) == Err(BadOptional)
  {
    assert |people| == 6;
    hide *;
    var st, two, keyed, five, last: State;
    st, two, keyed, five, one, four, m, last := Story(s, k, env, people, first, second, groupId, initSecret, extensions, psks);
    var sts := [st, two, keyed, five, one, four, last];
    worlds, actions := Worlds(sts), Script(people, first, second, sts);
    WorldsAndScript(people, first, second, sts);
    SevenSteps(s, k, env, people, first, second, st, two, keyed, five, one, four, last);
  }
}
