/** A commit that a sound member accepts although a public key in its path does not belong to the secret sent along:
    the member ends up with a private key that does not fit the tree. */
module WrongKeysExample {
  import opened Wrappers
  import opened TreeMath
  import opened Crypto
  import opened RatchetTree
  import opened TreeRuns
  import opened Views
  import opened Agreement
  import opened Receivers
  import opened Proposals
  import opened KeySchedule
  import opened GroupState
  import opened Following
  import opened GroupRuns
  import opened AcceptedCommits
  import opened CoordsExample

  /** A founder and somebody else, with different keys. */
  ghost predicate Pair(s: Suite, people: seq<Person>) {
    && |people| == 2 && Different(LeavesOf(people))
    && forall i :: 0 <= i < 2 ==> people[i].leaf.encryptionKey == PublicOf(s, people[i].key)
  }

  function Both(people: seq<Person>): Who
    requires |people| == 2
  {
    map[0 := KeysOf(people[0].leaf), 1 := KeysOf(people[1].leaf)]
  }

  function PairInput(people: seq<Person>): CommitInput
    requires |people| == 2
  {
    Input([], Adds([people[1].leaf]))
  }

  lemma OneMoreLeaf(s: Suite, people: seq<Person>, t: Tree) returns (u: Tree)
    requires Pair(s, people) && Looks(t, 1, map[0 := KeysOf(people[0].leaf)])
    ensures Looks(u, 2, Both(people)) && Apply(t, Own(Adds([people[1].leaf]), 0)) == Ok((u, [1]))
    ensures Different([people[1].leaf])
  {
    hide Looks, AddLeaf, ApplyAdds, ApplyUpdates, ApplyRemoves, PublicOf, Own, Truncate, SomeLeaf, Lo, Hi, WF;
    var a, who, ls := people[1].leaf, map[0 := KeysOf(people[0].leaf)], LeavesOf(people);
    assert ls[0] == people[0].leaf && ls[1] == a;
    u := AddOne(t, 1, who, a, 1);
    assert who[1 := KeysOf(a)] == Both(people);
    TruncateStays(u, 2, Both(people), 1);
    LooksFacts(u, 2, Both(people));
    NoneLeft(u, 0);
    assert [a][1..] == [] && [1] + [] == [1];
    AddFirst(t, [a], 0, u, 1, u, []);
    NoUpdates(t, [a], 0);
  }

  /** The founder adds the other member, which joins. */
  lemma Joined(s: Suite, k: Kdf, env: Env, people: seq<Person>, groupId: Bytes, initSecret: Bytes, extensions: Bytes,
               psks: map<Bytes, Bytes>)
    returns (st: State, r: State)
    requires env == OpenEnv(env.marshalCommit, env.marshalTag) && Pair(s, people)
    ensures st == Founder(s, k, env, groupId, people[0].leaf, people[0].key, initSecret, extensions, psks) && Good(s, st.tree)
    ensures JoinBy(s, k, env, st, PairInput(people), 1, KitOf(people[1])) == Ok(r) && Quiet(s, k, r, 1, 2, Both(people))
  {
    hide Looks, OpenEnv, Apply, NewExtensions, ResolvePsks, ValidNormal, Different, Quiet, AddedLeaves, Prepare, Commit, Good,
      PublicOf, PathRequired, Own, JoinBy, KitFits, InStep, Founder;
    var who := map[0 := KeysOf(people[0].leaf)];
    st := FounderQuiet(s, k, env, people[0], groupId, initSecret, extensions, psks);
    QuietFacts(s, k, st, 0, 1, who);
    var t := OneMoreLeaf(s, people, st.tree);
    var leaves := [people[1].leaf];
    AddsOnly(env, st, leaves, 0);
    ValidAdds(env, st, leaves, 0);
    var m, next := OwnCommit(s, k, env, st, PairInput(people), t, [1]);
    hide *;
    r := Joins(s, k, env, st, PairInput(people), m, next, 0, 1, who, 2, Both(people), 1, KitOf(people[1]));
  }

  /** In a group of two the only recipient is the other leaf. */
  lemma OtherLeaf(t: Tree, people: seq<Person>)
    requires |people| == 2 && Looks(t, 2, Both(people))
    ensures WF(t) && IsPow2(t.size) && t.size == 2 && OccLeaf(t, 0) && OccLeaf(t, 1) && SomeLeaf(t) && Truncate(t) == t
    ensures 1 !in Unmerged(t, DecapCoords(t, 1, 0, []).node)
  {
    hide Lo, Hi, Width, Level, UnmergedOk, Populated, DecapCoords, Truncate;
    TruncateStays(t, 2, Both(people), 1);
    RecipientOffPath(t, 1, 0, []);
    var n := DecapCoords(t, 1, 0, []).node;
    if OccParent(t, n) {
      LeafOrAbove(n);
      assert false;
    }
  }

  lemma LeafOrAbove(n: NodeIndex)
    requires Covers(n, 1) && !Covers(n, 0)
    ensures IsLeaf(n)
  {}

  lemma AnyLeafValid(env: Env, r: State)
    requires env == OpenEnv(env.marshalCommit, env.marshalTag)
    ensures forall leaf :: env.leafValid(r.tree, r.groupId, r.extensions, leaf, FromCommit, Some(0))
  {}

  lemma Unused(people: seq<Person>, leafKey: PublicKey, t: Tree)
    requires |people| == 2 && Looks(t, 2, Both(people))
    requires leafKey != people[0].leaf.encryptionKey && leafKey != people[1].leaf.encryptionKey
    ensures !EncryptionKeyUsed(t, leafKey)
  {
    hide Lo, Hi, UnmergedOk, Populated;
  }

  /** The first key above both is not that of the secret. */
  lemma Misfit(s: Suite, path: UpdatePath, t: Tree, entry: nat, key: PublicKey, secret: Bytes)
    requires MeetAt(t, 0, 1, entry) && PathTaken(t, 0, path)
    requires forall m :: 0 <= m < |path.nodes| ==> path.nodes[m].publicKey == key
    requires key != PublicOf(s, KeyOf(s, secret))
    ensures !KeysFit(s, path, entry, secret)
    ensures OccParent(t, Ancestor(0, 1)) && KeyOfNode(t, Ancestor(0, 1)) == key && Unmerged(t, Ancestor(0, 1)) == []
  {
    hide Lo, Hi, FilteredPath, Ancestor, KeyOf;
    assert PathSecret(s, secret, 0) == secret;
    assert path.nodes[entry].publicKey == key;
  }

  lemma PairGetsWrongKey(s: Suite, k: Kdf, env: Env, people: seq<Person>, r: State, leafKey: PublicKey, key: PublicKey,
                         secret: Bytes)
    returns (msg: CommitMessage, r': State)
    requires DecryptionWorks(s) && env == OpenEnv(env.marshalCommit, env.marshalTag) && |people| == 2
    requires Quiet(s, k, r, 1, 2, Both(people)) && Good(s, r.tree) && Member(s, r)
    requires leafKey != people[0].leaf.encryptionKey && leafKey != people[1].leaf.encryptionKey
    requires key != PublicOf(s, KeyOf(s, secret))
    ensures msg.sender == 0 && HandleCommit(s, k, env, r, msg) == Ok(r') && HoldsWrongKey(s, r, r', key, secret)
  {
    hide *;
    QuietFacts(s, k, r, 1, 2, Both(people));
    Unused(people, leafKey, r.tree);
    OtherLeaf(r.tree, people);
    AnyLeafValid(env, r);
    var keys := seq(|CommitNodes(r.tree, 0)|, _ => key);
    var entry;
    msg, r', entry := AnyKeysAccepted(s, k, env, r, 0, leafKey, [], keys, secret, [], []);
    Misfit(s, msg.path.value, r'.tree, entry, key, secret);
    WrongKeyHeld(s, r, r', key, secret);
  }

  /** A member that has moved to the next epoch with a secret for the node above leaves 0 and 1, which has another key. */
  ghost predicate HoldsWrongKey(s: Suite, r: State, r': State, key: PublicKey, secret: Bytes) {
    var a := Ancestor(0, 1);
    && Moved(s, r, r') && !Member(s, r') && Consistent(s, r'.tree, r'.view) == Ok(true)
    && OccParent(r'.tree, a) && KeyOfNode(r'.tree, a) == key && Unmerged(r'.tree, a) == []
    && a in r'.view.secrets && r'.view.secrets[a] == secret
  }

  lemma WrongKeyHeld(s: Suite, r: State, r': State, key: PublicKey, secret: Bytes)
    requires Moved(s, r, r') && !Member(s, r') && Consistent(s, r'.tree, r'.view) == Ok(true)
    requires OccParent(r'.tree, Ancestor(0, 1)) && KeyOfNode(r'.tree, Ancestor(0, 1)) == key
    requires Unmerged(r'.tree, Ancestor(0, 1)) == []
    requires Ancestor(0, 1) in r'.view.secrets && r'.view.secrets[Ancestor(0, 1)] == secret
    ensures HoldsWrongKey(s, r, r', key, secret)
  {
    hide Moved, Member, Ancestor, Consistent;
  }

  /** From any founder and one joiner: a path whose key for the node above both does not belong to its secret goes
      through `handle_commit`, and the joiner holds a key that does not open what is encrypted to that node. */
  lemma WrongKeyAccepted(s: Suite, k: Kdf, env: Env, people: seq<Person>, groupId: Bytes, initSecret: Bytes, extensions: Bytes,
                         psks: map<Bytes, Bytes>, leafKey: PublicKey, key: PublicKey, secret: Bytes)
    returns (st: State, r: State, msg: CommitMessage, r': State)
    requires DecryptionWorks(s) && env == OpenEnv(env.marshalCommit, env.marshalTag) && Pair(s, people)
    requires leafKey != people[0].leaf.encryptionKey && leafKey != people[1].leaf.encryptionKey
    requires key != PublicOf(s, KeyOf(s, secret))
    ensures st == Founder(s, k, env, groupId, people[0].leaf, people[0].key, initSecret, extensions, psks) && Good(s, st.tree)
    ensures JoinBy(s, k, env, st, PairInput(people), 1, KitOf(people[1])) == Ok(r) && Member(s, r)
    ensures msg.sender == 0 && HandleCommit(s, k, env, r, msg) == Ok(r') && HoldsWrongKey(s, r, r', key, secret)
  {
    assert |people| == 2;
    hide *;
    st, r := Joined(s, k, env, people, groupId, initSecret, extensions, psks);
    QuietFacts(s, k, r, 1, 2, Both(people));
    msg, r' := PairGetsWrongKey(s, k, env, people, r, leafKey, key, secret);
  }
}
