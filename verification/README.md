# Verified model of the MLS group state and the DAVE frame layer

The two C++ libraries that Flight builds into its encryption path are modelled here in Dafny, and the
properties their correctness rests on are proved for all inputs, all runs and all reachable states.

**MLS group state** (`Sources/CMLS/mlspp`, RFC 9420)

* `Bits`, `TreeMath`: index arithmetic on the array-based tree. The bit operations of the source are kept;
  their meaning is stated with the interval of leaves below a node.
* `RatchetTree`, `TreeInvariant`, `TreePaths`: the public tree as a value, its structural invariant,
  resolutions, filtered paths and the operations.
* `ParentHashes`, `OriginalHashes`, `TreeRuns`: parent-hash validity of every reachable tree, and why a memo
  keyed by node and number of excluded leaves is right.
* `PublicTree`, `PrivateTree`: `TreeKEMPublicKey` and `TreeKEMPrivateKey` as classes that change their maps in
  place, each method tied to the value operation; the tree-hash cache stays coherent.
* `TreeCodec`: the stream operators of the tree on lists of optional nodes.
* `Views`, `Agreement`, `Implanting`, `Receivers`: the private view of a member, one committer, many receivers and new
  joiners, and what they agree on.
* `Proposals`, `KeySchedule`, `TreeHashes`, `GroupState`, `EpochAgreement`, `Joining`, `Following`: proposal lists, epochs,
  and who gets to the next one.
* `GroupRuns`, `CoordsExample`: the whole group over time, with every state that anybody ever had; `AcceptedCommits`,
  `AcceptedWelcomes`, `WrongKeysExample`: what an accepted commit or Welcome of anybody leaves behind.
* `EpochSecrets`, `Recipients`, `HashBinding`, `DerivedKeys`: what goes into secrets, ciphertexts and hashes, and that none of
  it can be exchanged unnoticed.
* `HashRatchets`, `SecretTree`: the hash ratchet, the self-erasing secret tree and the key source on top of it.

**DAVE frame layer** (`Sources/CLibdave/libdave/cpp`)

* `Generations`, `ReplayWindow`, `CryptorManager`, `FrameKeys`, `FrameLifetimes`: wrapping generations, the replay window,
  expiry of cryptors and deletion of keys, the sender's counter and the receiver's list of managers.
* `Leb128`, `Frames`, `FrameProcessors`, `Encryption`, `CiphertextSizes`: the frame format, its parser and writer, a frame's
  whole way, and whether it fits the buffer that callers allocate.
* `Av1`: the rewriting of AV1 frames.

Hashing, key derivation, HPKE, authenticated encryption and marshalling are arbitrary functions held in datatypes
(`Suite`, `Kdf`, `TreeKdf`, `RatchetKdf`, `Aead`, `Env`). The only assumptions about them are stated as preconditions where
they are used: decryption undoes encryption under the same key (`DecryptionWorks`, `OpenUndoesSeal`), tree hashing is
injective (`TreeHashInjective`), transcript hashes have no collisions and different secrets have different public keys
(`TranscriptTells`, `KeysTell`, for whole runs only), derivation and parent hashing have no collisions (`KdfTells`,
`NeverZero`, `SecretsTell`, `ParentHashTells`, `RatchetTells`, `TreeTells`, where it is about exchanging inputs), and sealing keeps the length of the text (`SealSizes`). A signed message
verifies in the group context it was made in and in no other (`GroupState.HandleMessage`). Thrown exceptions are error results;
failed `assert`s are preconditions. Trees are taken to have at most 2^30 leaves, so that 32-bit node indices do not wrap.

Where the code differs from what its names or documents suggest, the code is modelled and the difference is a result:

* `decap_coords` takes the first recipient above the member, whether or not the member holds its key, while the
  decapsulation of an `UpdatePath` searches for a key that is held. A member that is unmerged at the first recipient can
  therefore not follow a commit (`Receivers.CoordsDecap`, `Following.FollowsIff`); `CoordsExample.UnmergedRecipient` is a
  run from the founder on that leads there.
* The const `consistent` does not derive the keys it means to compare: it looks at cached keys only, and implanting has just
  dropped those along the path. A path whose public keys do not belong to its secrets is therefore accepted, and the member's
  state is sound exactly when they do (`AcceptedCommits.AcceptedLeaves`, `AcceptedCommits.AnyKeysAccepted`,
  `WrongKeysExample.WrongKeyAccepted`).
* `truncate` on a tree without an occupied leaf drops the nodes but keeps the size (`TreeInvariant.TruncateWF`), and such a
  tree is written in a form that reading refuses (`TreeCodec.ReadableIff`, `TreeCodec.EmptiedTree`).
* `ProcessFrameAv1` adds position and size of an OBU in 64-bit words. If the sum wraps, it accepts frames that are no list
  of OBUs, does not end, or asks for bytes behind the frame; if no sum wraps it is right (`Av1.ReturnsRightlyIff`,
  `Av1.BytesReadTwice`, `Av1.NeverEnds`, `Av1.BytesBehindTheFrame`). The loop is modelled turn by turn, and its method takes
  the number of turns, because it need not end; one turn more than there are bytes decides (`Av1.EndsSoonOrNever`).
* An AV1 frame that ends with an empty OBU carrying a size field is rewritten to a stream that does not read back
  (`Av1.Av1KeepsMeaning`, `Av1.EmptyObuIsLost`).
* The buffer size callers ask for, `GetMaxCiphertextByteSize`, leaves 64 bytes for nonce and ranges. Seven readable ranges
  always fit and 32 never do when the stream is as long as the frame (`CiphertextSizes.PaddingSufficesIff`, `FewRangesFit`,
  `ManyRangesNeverFit`). An AV1 frame of 32 one-byte OBUs, 95 bytes in all, has 32 (`CiphertextSizes.SmallObusDoNotFit`).
* On a tree that nobody has checked, two ancestors can exclude equally many but different leaves below a node; the memo of
  original hashes, keyed by node and count, is then wrong (`OriginalHashes.MemoSoundIff`, `OriginalHashes.MemoGoesWrong`).
* `HashRatchet::get` does not end for the largest 32-bit generation (`HashRatchets.GetEndsIff`), which is excluded by
  precondition of `get` alone; the counter of the sender is therefore followed up to that generation, just short of 2^56 frames.
* A second request for a leaf of the secret tree fails by an out-of-range access, not by the check written for it, which can
  never be true (`SecretTrees.SecretTree.Get`).
* A commit of the only member carries an empty parent hash in its leaf; the check of a received path would refuse it, but
  no other member exists to receive it (`Receivers.SentPathChecked`).

## Model

| member | source | states |
|---|---|---|
| GroupRuns.EveryRunStaysInStep | Sources/CMLS/mlspp/src/state.cpp:415-467 | In every world reached by any sequence of own updates, proposals, commits, joins and messages that reach anybody at any time or never, every state that there has been is sound, and any two with the same epoch and confirmed transcript hash have the same tree and are equal: forks and late messages included, nobody is in another group without noticing. |
| GroupRuns.HearIff | Sources/CMLS/mlspp/src/state.cpp:415-1033 | Any state that hears any commit, at whatever time, follows it exactly when it is in the epoch and transcript of the committer and the condition of `Following.CanFollow` holds; it then reaches a state equal to the committer's next one. |
| GroupRuns.HearKeepsStep | Sources/CMLS/mlspp/src/state.cpp:922-1033 | A state that follows a commit is in step with every state that ever got to that epoch and transcript by whatever way. |
| GroupRuns.CommitKeepsStep | Sources/CMLS/mlspp/src/state.cpp:754-837 | The next state of a committer, whoever else commits in the same epoch, is in step with every state of its epoch and transcript. |
| GroupRuns.JoinKeepsStep | Sources/CMLS/mlspp/src/state.cpp:198-285 | A joiner that gets in is in step with every state of its epoch and transcript. |
| GroupRuns.SameTranscriptSameNext | Sources/CMLS/mlspp/src/state.cpp:793-820 | Two commits, made in whatever states, that give the same confirmed transcript hash were made in the same epoch and lead to the same tree and equal states. |
| GroupRuns.SameMaterials | Sources/CMLS/mlspp/src/state.cpp:656-751 | Behind the same list of proposals and the same path are the same applied tree, committed tree, extensions and pre-shared keys. |
| GroupRuns.SameUpdateSecret | Sources/CMLS/mlspp/src/treekem.cpp:888-931 | Commits with the same public keys on the same tree have the same update secret, when public keys tell secrets apart. |
| GroupRuns.ProposalHeard | Sources/CMLS/mlspp/src/state.cpp:888-919 | A reference that is pending changes nothing; a new proposal is accepted exactly when it passes the checks of its kind, is put behind the pending ones, and nothing else changes. |
| GroupRuns.ProposalKeepsStep | Sources/CMLS/mlspp/src/state.cpp:888-919 | Hearing of a proposal, accepted or not, known or new, keeps every two states in step. |
| GroupRuns.UpdateKeepsStep | Sources/CMLS/mlspp/src/state.cpp:492-503 | Making an update, whose key replaces the one kept so far, keeps every two states in step. |
| GroupRuns.EveryRunHoldsKeys | Sources/CMLS/mlspp/src/state.cpp:2235-2248 | For any two states of any run with one epoch and transcript: one tree, `operator==` of the states, and the private key of an occupied parent exactly for the members below it and not in its unmerged list. |
| GroupRuns.FounderInStep | Sources/CMLS/mlspp/src/state.cpp:11-46 | A newly created group of one member satisfies the invariant that all runs keep. |
| Following.FollowsIff | Sources/CMLS/mlspp/src/state.cpp:922-1033 | For members of one epoch, `handle_commit` succeeds exactly when the receiver is not the committer, knows the proposals and pre-shared keys referred to, is not removed, finds its own update to be the one it kept, and, with a path, the new leaf is acceptable and the member is merged into the first recipient above it; the outcome is then in step with the committer. Pending lists may differ. |
| Following.ResolveCommit | Sources/CMLS/mlspp/src/state.cpp:1599-1630 | Whoever knows all references of a commit resolves it to the committer's pending proposals in order followed by the committer's own; anybody else gets an error. |
| Following.UnderstandsIff | Sources/CMLS/mlspp/src/state.cpp:922-960 | A receiver makes of references and pre-shared keys what the committer means exactly when it knows them all, and `handle_commit` does not succeed otherwise. |
| Following.RatchetedUpdate | Sources/CMLS/mlspp/src/state.cpp:1035-1063 | `ratchet` goes through for a member whose leaf is updated only if the update is the last one the member made. |
| Following.UpdatedKeyIsNew | Sources/CMLS/mlspp/src/treekem.cpp:514-530 | An update that is applied has a key different from that of the leaf it replaces. |
| Following.JoinsIff | Sources/CMLS/mlspp/src/state.cpp:198-285 | A joiner gets in exactly when the leaves satisfy its checks and it holds the pre-shared keys of the commit; its state is then in step with the committer. |
| AcceptedCommits.AcceptedLeaves | Sources/CMLS/mlspp/src/state.cpp:922-1096 | Whatever commit a sound member accepts, from anybody, its new tree passes all checks and it has the key of its leaf. Without a path its state is sound again; with one it is sound exactly when the public keys of the path from the common ancestor up are those of the secrets implanted, and `consistent` returns true either way. |
| AcceptedCommits.AnyKeysAccepted | Sources/CMLS/mlspp/src/treekem.cpp:286-302 | For any public keys and any secret there is a commit, with a leaf key not in use, that a sound member merged at its recipient accepts: `handle_commit` does not compare them, because the check looks at cached keys only. |
| AcceptedCommits.DecappedView | Sources/CMLS/mlspp/src/treekem.cpp:286-302 | With any path merged, decapsulation gives the old view with the decrypted secret implanted, never fails at the final check, and fits the tree exactly when the published keys belong to that secret. |
| WrongKeysExample.WrongKeyAccepted | Sources/CMLS/mlspp/src/treekem.cpp:406-431 | From any founder and one joiner, a commit whose key for the node above both does not belong to the secret sent along: it is accepted, and the joiner's key for that node does not fit the tree. |
| Implanting.ImplantedFits | Sources/CMLS/mlspp/src/treekem.cpp:108-150 | Implanting along a merged path, whoever sent it, leaves a view that passes the consistency check, and that fits the tree exactly when the keys published from the common ancestor up are those of the implanted secrets. |
| Implanting.MergedOccupiedPath | Sources/CMLS/mlspp/src/treekem.cpp:128-150 | Above an entry of a merged path the occupied nodes are the later entries, so `implant` and `implant_matching` take the same nodes. |
| EpochSecrets.CommitSecrets | Sources/CMLS/mlspp/src/state.cpp:2430-2471 | The next epoch of a commit on the fields of the key schedule: joiner secret, epoch secret and tag from the last epoch secret, the update secret of the new view with a path and zeros without one, the pre-shared keys mixed in one by one, and the context of the new tree and transcript. |
| EpochSecrets.CommitSecretsBind | Sources/CMLS/mlspp/src/key_schedule.cpp:275-300 | With collision-free derivation, two commits of any states whose next epochs have one secret come from one epoch secret, agree on whether there is a path, on the update secret, on the pre-shared keys and on the context. |
| EpochSecrets.ScheduleBinds | Sources/CMLS/mlspp/src/key_schedule.cpp:275-300 | Equal epoch secrets mean equal last epoch secret, commit secret, list of pre-shared keys and context. |
| EpochSecrets.MixBinds | Sources/CMLS/mlspp/src/key_schedule.cpp:443-459 | Two lists of pre-shared keys with one secret are equal, names, nonces, keys and order included. |
| EpochSecrets.HandledSecrets | Sources/CMLS/mlspp/src/state.cpp:1018-1095 | Whatever commit is accepted, its tag, transcript hashes and secrets are those of the message, of the proposals it resolves to and of the update secret that was decrypted. |
| EpochSecrets.HandledChecks | Sources/CMLS/mlspp/src/state.cpp:1904-2062 | Whatever commit is accepted, every proposal passed its check of leaf, sender, support or key, no two clash, and without a path there are only additions and pre-shared keys. |
| EpochSecrets.CommitCiphertexts | Sources/CMLS/mlspp/src/state.cpp:722-748 | The path secrets of a commit are sealed in the context of the next epoch with the old transcript, to each node of the resolution without the leaves it adds, and to nobody else. |
| EpochSecrets.CommitExtensions | Sources/CMLS/mlspp/src/state.cpp:1565-1589 | A commit with a proposal of extensions puts just these into force, and one without keeps the old ones. |
| EpochSecrets.ResolvedInOrder | Sources/CMLS/mlspp/src/state.cpp:1633-1690 | The pre-shared keys of a commit are those of its proposals for them, in order and none left out. |
| AcceptedWelcomes.AcceptedWelcome | Sources/CMLS/mlspp/src/state.cpp:198-285 | Whatever Welcome is accepted, tree hash, parent hashes, keys and leaves were checked and context, secrets and tag are those of the Welcome; the state is sound exactly when the tree is well formed, the leaf key fits, and the member is merged into just the nodes it was sent secrets for, with their keys. |
| AcceptedWelcomes.InvitedFitsIff | Sources/CMLS/mlspp/src/treekem.cpp:93-150 | A joiner with a path secret fits a tree exactly when it is merged into the nodes from the common ancestor up and no others, and these have the keys of the secrets implanted. |
| AcceptedWelcomes.OccupiedPathFacts | Sources/CMLS/mlspp/src/treekem.cpp:128-150 | The nodes that `implant_matching` visits are the occupied proper ancestors, bottom up. |
| Recipients.ResolutionIff | Sources/CMLS/mlspp/src/treekem.cpp:638-665 | A resolution lists exactly the occupied nodes below without an occupied node above them and the leaves unmerged at every occupied node above them. |
| Recipients.ResolutionSorted | Sources/CMLS/mlspp/src/treekem.cpp:638-665 | From left to right, a node before those below it, none twice. |
| Recipients.RemoveLeavesExact | Sources/CMLS/mlspp/src/treekem.cpp:8-23 | Of a list without duplicates exactly the entries that are no excluded leaf are left, in the same order. |
| Recipients.EncapTo | Sources/CMLS/mlspp/src/treekem.cpp:934-965 | `encap` makes one ciphertext of the path secret for each entry of the resolution that is no excluded leaf, in order, and none for an excluded leaf. |
| Recipients.OneForEach | Sources/CMLS/mlspp/src/treekem.cpp:934-965 | Every member on the other side of an entry can open exactly one of its ciphertexts; an excluded new leaf can open none. |
| HashBinding.CommitDerives | Sources/CMLS/mlspp/src/treekem.cpp:83-91 | Along leaf and filtered path every path secret is derived from the one below and every published key from its path secret; the update secret is one step further. |
| HashBinding.NodeSecretsApart | Sources/CMLS/mlspp/src/treekem.cpp:170-186 | What the private key of a node is made of is no path secret further up, nor the update secret. |
| HashBinding.LeafBindsPath | Sources/CMLS/mlspp/src/treekem.cpp:1277-1307 | The parent hash of a leaf binds its path: two paths that pass the check with it have the same public keys, on trees that agree beside the path. |
| HashBinding.OriginalBinds | Sources/CMLS/mlspp/src/treekem.cpp:1240-1275 | Equal original parent hashes mean equal key, parent hash and sibling subtree without the unmerged leaves. |
| HashBinding.ParentHashLinks | Sources/CMLS/mlspp/src/treekem.cpp:601-630 | In a valid tree every occupied parent is named, by a node in the resolution of one child, with the hash of its key, its parent hash and the other child as it was. |
| HashBinding.HashOfTwo | Sources/CMLS/mlspp/src/treekem.cpp:1067-1113 | The root hash of a group of two, from the leaves up. |
| Joining.JoinerInStep | Sources/CMLS/mlspp/src/state.cpp:198-285 | The state a joiner builds from the Welcome passes every check of the constructor and equals the committer's next state. |
| Joining.JoinerView | Sources/CMLS/mlspp/src/treekem.cpp:94-105 | The private view of a joiner fits the committed tree, with or without a path secret. |
| Joining.FindUnique | Sources/CMLS/mlspp/src/treekem.cpp:860-875 | With unique keys the search for the joiner's own leaf finds the leaf the committer added. |
| EpochAgreement.ReceiverWithPath | Sources/CMLS/mlspp/src/state.cpp:770-1033 | For members in step: `handle_commit` on the message made by `commit` gives an equal state if the member is merged at the recipient that `decap_coords` picks, and fails with a missing key otherwise. |
| EpochAgreement.ReceiverWithoutPath | Sources/CMLS/mlspp/src/state.cpp:770-1033 | Without a path every surviving member reaches a state equal to the committer's. |
| EpochAgreement.SurvivorView | Sources/CMLS/mlspp/src/state.cpp:1035-1065 | After truncation, and with the kept key of a self-update, a surviving member's view fits the tree after the proposals. |
| EpochAgreement.CommitterMember | Sources/CMLS/mlspp/src/state.cpp:656-751 | The committer's own next state is sound: the tree passes all checks and its view fits. |
| EpochAgreement.CommittedGood | Sources/CMLS/mlspp/src/state.cpp:656-751 | The committed tree satisfies the structural invariant, is parent-hash valid and has unique keys. |
| EpochAgreement.SameValidity | Sources/CMLS/mlspp/src/state.cpp:1904-2062 | A list valid for one member in step is valid for every other member that it does not remove and that holds its pre-shared keys. |
| EpochAgreement.ValidUpdates | Sources/CMLS/mlspp/src/state.cpp:1904-2062 | A valid list updates only occupied leaves, neither removes nor updates the committer, and without a required path touches no member. |
| EpochAgreement.PathReceived | Sources/CMLS/mlspp/src/state.cpp:997-1016 | The checks a receiver makes on an honest path pass and merging gives the committer's tree. |
| GroupState.MaterialsTree | Sources/CMLS/mlspp/src/state.cpp:656-751 | What `prepare_commit` yields is the committed tree and view of the applied proposals. |
| GroupState.InStepSameTree | Sources/CMLS/mlspp/src/state.cpp:2235-2248 | Equal tree hashes of two sound states mean equal trees. |
| TreeHashes.RootHashDetermines | Sources/CMLS/mlspp/src/treekem.cpp:1067-1113 | With collision-free hashing the root hash determines size and every node of the tree. |
| TreeHashes.HashDetermines | Sources/CMLS/mlspp/src/treekem.cpp:1067-1113 | Equal tree hashes of two nodes mean the same node and the same subtree. |
| KeySchedule.ComputePskSecret | Sources/CMLS/mlspp/src/key_schedule.cpp:443-459 | The loop mixes pre-shared keys in from first to last, each with its index and the count. |
| Proposals.RosterConserved | Sources/CMLS/mlspp/src/state.cpp:1476-1589 | Applying a list keeps members at their leaves, replaces updated leaves in place, puts each joiner where `joiner_locations` says even after truncation, and changes the member count by adds minus removes. |
| Proposals.JoinersLeftmost | Sources/CMLS/mlspp/src/state.cpp:1476-1589 | Each joiner takes the leftmost leaf that is free after the removals and the joiners before it, and the tree ends as small as a power of two can be. |
| Proposals.ApplyGood | Sources/CMLS/mlspp/src/state.cpp:1549-1589 | Applying proposals keeps the structural invariant, parent-hash validity and key uniqueness, whatever the list. |
| Proposals.JoinersFresh | Sources/CMLS/mlspp/src/state.cpp:1476-1589 | Every joiner's leaf is unmerged at all occupied nodes above it. |
| Proposals.ApplyView | Sources/CMLS/mlspp/src/state.cpp:1476-1589 | A surviving member's view still fits after the proposals are applied and the tree is truncated. |
| Proposals.TruncatedRoster | Sources/CMLS/mlspp/src/treekem.cpp:968-1002 | Truncation keeps all members and never leaves an occupied leaf outside the tree. |
| Proposals.ApplyInPlace | Sources/CMLS/mlspp/src/state.cpp:1549-1589 | The in-place passes over a copy of the tree compute the applied tree and the joiners, with the source's errors. |
| Proposals.ApplyUpdatesInPlace | Sources/CMLS/mlspp/src/state.cpp:1500-1546 | The pass over update proposals is the fold of `update_leaf`. |
| Proposals.ApplyRemovesInPlace | Sources/CMLS/mlspp/src/state.cpp:1500-1546 | The pass over remove proposals is the fold of `blank_path`, with its check of the leaf. |
| Proposals.ApplyAddsInPlace | Sources/CMLS/mlspp/src/state.cpp:1500-1546 | The pass over add proposals is the fold of `add_leaf`, collecting the new leaves in order. |
| Receivers.ReceiverAgrees | Sources/CMLS/mlspp/src/treekem.cpp:305-365 | Every member that fits the tree before the commit decrypts from the sent path the committer's update secret and its path secret at every shared ancestor; its view fits the new tree. |
| Receivers.CoordsDecap | Sources/CMLS/mlspp/src/treekem.cpp:287-302 | The variant with coordinates gives the same view exactly when the member is not unmerged at the first recipient above it; otherwise it asks for a key the member does not hold. |
| Receivers.DecapCoords | Sources/CMLS/mlspp/src/treekem.cpp:791-829 | The coordinates exist for every occupied leaf that is not joining, name the common ancestor, and pick the first recipient above the leaf. |
| Receivers.SameRecipient | Sources/CMLS/mlspp/src/treekem.cpp:791-829 | The coordinates, and who is unmerged at the recipient they name, are the same before and after the path is merged. |
| Receivers.JoinerAgrees | Sources/CMLS/mlspp/src/treekem.cpp:93-150 | A joiner given the shared path secret ends with the committer's update secret and path secrets at all shared ancestors. |
| Receivers.JoinerAlone | Sources/CMLS/mlspp/src/treekem.cpp:93-105 | A joiner of a commit without a path holds its leaf key only, which is all a fresh leaf may hold. |
| Receivers.HeldRecipient | Sources/CMLS/mlspp/src/treekem.cpp:341-352 | Among the recipients there is a node whose key the member holds. |
| Receivers.AloneIff | Sources/CMLS/mlspp/src/treekem.cpp:832-851 | A filtered direct path is empty exactly when no other member is in the tree. |
| Receivers.SentPathChecked | Sources/CMLS/mlspp/src/treekem.cpp:1284-1307 | The parent-hash check passes for the path of a commit exactly when there is another member; a sole member's leaf carries an empty parent hash, which the check refuses. |
| CoordsExample.UnmergedRecipient | Sources/CMLS/mlspp/src/treekem.cpp:791-829 | From any founder, with any keys as long as none occurs twice, three commits and two joins lead to two members in step, of which one is unmerged at the recipient that `decap_coords` picks for it when the other commits: its `handle_commit` fails for want of a key. |
| Agreement.CommitTree | Sources/CMLS/mlspp/src/treekem.cpp:888-931 | After a commit the filtered path is freshly keyed from the path secrets with nothing unmerged, the other ancestors are blank and everything else is unchanged. |
| Agreement.CommitView | Sources/CMLS/mlspp/src/treekem.cpp:83-91 | The committer's view holds exactly its leaf and its filtered path, with the chained secrets and the keys derived from them. |
| Agreement.CommitterViewOk | Sources/CMLS/mlspp/src/treekem.cpp:888-931 | The committer's own view fits the new tree. |
| Agreement.SentPathMerges | Sources/CMLS/mlspp/src/treekem.cpp:934-965 | The sent path, with its ciphertexts, passes the parent-hash check and merges to the committer's tree. |
| Agreement.MergeIgnoresCiphertexts | Sources/CMLS/mlspp/src/treekem.cpp:548-572 | Merging depends on a path's leaf and public keys only. |
| Views.ImplantFacts | Sources/CMLS/mlspp/src/treekem.cpp:108-150 | Implanting a secret stores the chain of path secrets at the nodes, drops their cached keys and leaves every other node alone. |
| Views.EncapRecipients | Sources/CMLS/mlspp/src/treekem.cpp:934-965 | Every recipient that is encrypted to is occupied. |
| PrivateTree.TreeKEMPrivateKey.ImplantInPlace | Sources/CMLS/mlspp/src/treekem.cpp:108-126 | The loop over the filtered direct path computes the implanted view. |
| PrivateTree.TreeKEMPrivateKey.ImplantMatchingInPlace | Sources/CMLS/mlspp/src/treekem.cpp:128-150 | The loop over all occupied ancestors computes the implanted view. |
| PrivateTree.TreeKEMPrivateKey.PrivateKeyAt | Sources/CMLS/mlspp/src/treekem.cpp:177-186 | The cached key, or the key derived from the path secret, which is then cached. |
| PrivateTree.TreeKEMPrivateKey.DecapInPlace | Sources/CMLS/mlspp/src/treekem.cpp:305-365 | Decapsulation in place computes the view `Decap` describes, or fails with its error. |
| PrivateTree.TreeKEMPrivateKey.DecapNodeInPlace | Sources/CMLS/mlspp/src/treekem.cpp:286-302 | The variant with a given node and ciphertext. |
| PrivateTree.TreeKEMPrivateKey.CheckConsistent | Sources/CMLS/mlspp/src/treekem.cpp:406-431 | The check covers the cached keys only, in ascending node order. |
| PrivateTree.TreeKEMPrivateKey.TruncateInPlace | Sources/CMLS/mlspp/src/treekem.cpp:367-382 | Secrets right of the last leaf go together with their cached keys. |
| PrivateTree.TreeKEMPrivateKey.SetLeafKey | Sources/CMLS/mlspp/src/treekem.cpp:187-193 | The leaf gets a key of its own in place of its path secret, and no other node changes. |
| PrivateTree.CreateWithKeys | Sources/CMLS/mlspp/src/treekem.cpp:83-91 | The committer's fresh view and the public keys of its path. |
| PrivateTree.UpdateInPlace | Sources/CMLS/mlspp/src/treekem.cpp:888-931 | `update` on the mutable tree computes the committed tree and the committer's view. |
| PrivateTree.EncapPath | Sources/CMLS/mlspp/src/treekem.cpp:934-965 | The loops of `encap` compute the update path encrypted to the resolutions. |
| TreeRuns.EveryReachableTreeIsGood | Sources/CMLS/mlspp/src/treekem.cpp:451-1002 | Every tree reached from the empty tree by any sequence of add, update, remove, truncate and checked merge satisfies the structural invariant, full parent-hash validity and uniqueness of keys. |
| TreeRuns.StepKeepsGood | Sources/CMLS/mlspp/src/treekem.cpp:451-572 | One operation on any sound tree keeps all three. |
| TreeRuns.MergeUnique | Sources/CMLS/mlspp/src/treekem.cpp:548-572 | Merging keeps encryption and signature keys unique among leaves. |
| TreeInvariant.AddLeafWF | Sources/CMLS/mlspp/src/treekem.cpp:479-512 | Adding a leaf keeps the invariant, by which every occupied parent has a merged leaf below each child; the leaf was blank before and is occupied after. |
| TreeInvariant.PlaceLeafWF | Sources/CMLS/mlspp/src/treekem.cpp:490-512 | Entering a leaf into the sorted unmerged lists of its ancestors keeps them ascending, below the node and closed downwards. |
| TreeInvariant.UpdateLeafWF | Sources/CMLS/mlspp/src/treekem.cpp:514-530 | Updating a leaf keeps the invariant. |
| TreeInvariant.BlankedWF | Sources/CMLS/mlspp/src/treekem.cpp:532-546 | Blanking a path keeps the invariant. |
| TreeInvariant.TruncateWF | Sources/CMLS/mlspp/src/treekem.cpp:967-1002 | Truncation keeps the invariant exactly when a leaf is occupied or the tree is empty. |
| TreeInvariant.TruncateFacts | Sources/CMLS/mlspp/src/treekem.cpp:967-1002 | With an occupied leaf, truncation shrinks to the least power of two above the last one and keeps every occupied node. |
| TreePaths.MergeWF | Sources/CMLS/mlspp/src/treekem.cpp:548-572 | Merging a path keeps the invariant and the size. |
| TreePaths.MergeNodes | Sources/CMLS/mlspp/src/treekem.cpp:548-572 | Exactly which nodes a merge writes, blanks and leaves alone. |
| TreePaths.ResolveMembers | Sources/CMLS/mlspp/src/treekem.cpp:638-665 | A resolution lists occupied nodes below the node and is empty exactly when no leaf below is occupied. |
| TreePaths.FilteredPathFacts | Sources/CMLS/mlspp/src/treekem.cpp:832-851 | The filtered path lists ancestors bottom up, each with the nonempty resolution of the child off the path. |
| TreePaths.FilteredPathComplete | Sources/CMLS/mlspp/src/treekem.cpp:832-851 | Every ancestor left out of the filtered path has an empty resolution off the path. |
| ParentHashes.MergeValid | Sources/CMLS/mlspp/src/treekem.cpp:548-630 | A merge whose path passed the parent-hash check keeps the whole tree parent-hash valid. |
| ParentHashes.AddLeafValid | Sources/CMLS/mlspp/src/treekem.cpp:479-512 | Adding a leaf keeps every parent hash valid, because the hash leaves unmerged leaves out. |
| ParentHashes.UpdateLeafValid | Sources/CMLS/mlspp/src/treekem.cpp:514-530 | Updating a leaf keeps parent-hash validity. |
| ParentHashes.BlankPathValid | Sources/CMLS/mlspp/src/treekem.cpp:532-546 | Blanking a path keeps parent-hash validity. |
| ParentHashes.TruncateValid | Sources/CMLS/mlspp/src/treekem.cpp:967-1002 | Truncation keeps parent-hash validity. |
| ParentHashes.PathCheckBeforeUpdate | Sources/CMLS/mlspp/src/treekem.cpp:1277-1307 | Checking a path against the tree before the merge is checking it against the tree the merge starts from. |
| OriginalHashes.SameCountSameHash | Sources/CMLS/mlspp/src/treekem.cpp:1175-1238 | Two ancestors whose unmerged sets cut to a subtree have the same size give that subtree the same original hash: the sets form a chain. |
| OriginalHashes.MemoHit | Sources/CMLS/mlspp/src/treekem.cpp:1175-1238 | A memo entry found by node and number of excluded leaves is what recomputing with those leaves blanked gives. |
| OriginalHashes.MemoInsert | Sources/CMLS/mlspp/src/treekem.cpp:1175-1238 | Inserting a computed hash keeps the memo right for every ancestor. |
| OriginalHashes.OriginalUnchanged | Sources/CMLS/mlspp/src/treekem.cpp:1175-1238 | Without an excluded leaf below, the original hash is the tree hash. |
| OriginalHashes.ExcludingHashIff | Sources/CMLS/mlspp/src/treekem.cpp:1175-1238 | On any tree of the right shape, two sets give a node the same original hash exactly when they leave out the same occupied leaves and the same entries of unmerged lists below it. |
| OriginalHashes.MemoSoundIff | Sources/CMLS/mlspp/src/treekem.cpp:1175-1238 | On any tree of the right shape, whatever its unmerged lists name, a memo keyed by node and count is right at a node exactly when equal counts mean that the same leaves and list entries below it are left out. |
| OriginalHashes.MemoGoesWrong | Sources/CMLS/mlspp/src/treekem.cpp:1191-1197 | A tree of the right shape on which a memo hit is wrong: nodes 3 and 7 exclude one leaf each below node 1, but different ones. |
| OriginalHashes.ChainsTell | Sources/CMLS/mlspp/src/treekem.cpp:1191-1197 | With the structural invariant equal counts do mean equal sets. |
| PublicTree.TreeKEMPublicKey.AllocateLeafInPlace | Sources/CMLS/mlspp/src/treekem.cpp:451-477 | The leftmost blank leaf, doubling the tree when there is none; the hash cache stays coherent. |
| PublicTree.TreeKEMPublicKey.AddLeafInPlace | Sources/CMLS/mlspp/src/treekem.cpp:479-512 | `add_leaf` on the mutable tree, with its errors and a coherent cache. |
| PublicTree.TreeKEMPublicKey.AddToUnmergedLists | Sources/CMLS/mlspp/src/treekem.cpp:494-508 | The loop enters the leaf at every occupied ancestor and changes nothing else. |
| PublicTree.TreeKEMPublicKey.UpdateLeafInPlace | Sources/CMLS/mlspp/src/treekem.cpp:514-530 | `update_leaf` on the mutable tree, with its errors and the cleared hashes. |
| PublicTree.TreeKEMPublicKey.BlankPathInPlace | Sources/CMLS/mlspp/src/treekem.cpp:532-546 | `blank_path` on the mutable tree, with its error and the cleared hashes. |
| PublicTree.TreeKEMPublicKey.MergeInPlace | Sources/CMLS/mlspp/src/treekem.cpp:548-572 | `merge` on the mutable tree computes the merged tree, or fails with the same error, and the cache stays coherent. |
| PublicTree.TreeKEMPublicKey.TruncateInPlace | Sources/CMLS/mlspp/src/treekem.cpp:967-1002 | `truncate` on the mutable tree; the invariant survives when a leaf is occupied. |
| PublicTree.TreeKEMPublicKey.GetHash | Sources/CMLS/mlspp/src/treekem.cpp:1066-1113 | The recursive, caching hash is the tree hash, and the cache stays coherent and closed downwards. |
| PublicTree.TreeKEMPublicKey.SetHashAll | Sources/CMLS/mlspp/src/treekem.cpp:574-579 | After `set_hash_all` every node of the tree has a current hash. |
| PublicTree.TreeKEMPublicKey.ClearHashPath | Sources/CMLS/mlspp/src/treekem.cpp:1034-1046 | Exactly the hashes above one leaf are dropped. |
| PublicTree.TreeKEMPublicKey.ComputeParentHashes | Sources/CMLS/mlspp/src/treekem.cpp:1132-1173 | The loop computes the parent hashes along a path exactly when every sibling hash is cached. |
| PublicTree.TreeKEMPublicKey.CheckPath | Sources/CMLS/mlspp/src/treekem.cpp:1284-1307 | The check of a received path decides the parent-hash condition on its leaf. |
| PublicTree.TreeKEMPublicKey.OriginalTreeHash | Sources/CMLS/mlspp/src/treekem.cpp:1175-1238 | The memoised recursion is the tree hash with the unmerged leaves blanked. |
| PublicTree.TreeKEMPublicKey.CheckAllParentHashes | Sources/CMLS/mlspp/src/treekem.cpp:601-630 | The level by level loop decides full parent-hash validity. |
| PublicTree.TreeKEMPublicKey.ComputeFilteredPath | Sources/CMLS/mlspp/src/treekem.cpp:832-851 | The loop computes the filtered direct path. |
| PublicTree.TreeKEMPublicKey.EncryptionKeyExists | Sources/CMLS/mlspp/include/mls/treekem.h:226-240 | The search over the leaves decides whether a key is in use. |
| PublicTree.TruncatedCoherent | Sources/CMLS/mlspp/src/treekem.cpp:967-1002 | Hashes kept by a truncation are those of the smaller tree. |
| PublicTree.MergedCoherent | Sources/CMLS/mlspp/src/treekem.cpp:548-572 | Clearing the hashes above the updated leaf is enough for a merge. |
| PublicTree.CompleteOffPath | Sources/CMLS/mlspp/src/treekem.cpp:1132-1173 | A complete cache never lacks a sibling hash that the parent hashes of a merge need. |
| TreeCodec.ReadUndoesWrite | Sources/CMLS/mlspp/src/treekem.cpp:1327-1409 | Reading what is written for any tree satisfying the invariant with an occupied leaf gives its truncation: the same size and the same nodes. |
| TreeCodec.TruncatedRoundTrip | Sources/CMLS/mlspp/src/treekem.cpp:1327-1409 | A truncated tree comes back unchanged. |
| TreeCodec.WriteUndoesRead | Sources/CMLS/mlspp/src/treekem.cpp:1327-1409 | A node list that is accepted is exactly the list written for the resulting tree: the encoding is unique. |
| TreeCodec.ReadableIff | Sources/CMLS/mlspp/src/treekem.cpp:1327-1409 | What is written can be read exactly when the tree is empty or has an occupied leaf. |
| TreeCodec.EmptiedTree | Sources/CMLS/mlspp/src/treekem.cpp:967-1002 | A tree whose only leaf was removed: truncated it breaks the invariant, and the list written for it is refused. |
| TreeCodec.BlankBehind | Sources/CMLS/mlspp/src/treekem.cpp:1335-1346 | Every node behind the last occupied leaf is blank, parents included. |
| TreeCodec.WrittenNodes | Sources/CMLS/mlspp/src/treekem.cpp:1327-1349 | Entry i of the list is node i, up to the last occupied leaf, behind which all is blank. |
| TreeCodec.Write | Sources/CMLS/mlspp/src/treekem.cpp:1327-1349 | The loops of `operator<<` produce the node list. |
| TreeCodec.Load | Sources/CMLS/mlspp/src/treekem.cpp:1351-1409 | The loops of `operator>>` produce the tree or the source's error. |
| TreeMath.Left | Sources/CMLS/mlspp/src/tree_math.cpp:118-128 | The bit flip moves to the node over the left half of the leaves. |
| TreeMath.Right | Sources/CMLS/mlspp/src/tree_math.cpp:130-138 | The bit flips move to the node over the right half of the leaves. |
| TreeMath.Parent | Sources/CMLS/mlspp/src/tree_math.cpp:140-145 | The bit operations give a node of twice the width that has the argument as a child. |
| TreeMath.Sibling | Sources/CMLS/mlspp/src/tree_math.cpp:147-151 | The other child of the parent. |
| TreeMath.SiblingUnder | Sources/CMLS/mlspp/src/tree_math.cpp:153-168 | Under an ancestor: its child that does not contain the node; an error outside. |
| TreeMath.IsBelow | Sources/CMLS/mlspp/src/tree_math.cpp:110-116 | The comparison of shifted words is containment of leaf intervals. |
| TreeMath.BelowIsReachable | Sources/CMLS/mlspp/src/tree_math.cpp:110-116 | Being below is reachability by `parent` in as many steps as the levels differ. |
| TreeMath.ComputeLevel | Sources/CMLS/mlspp/src/tree_math.cpp:213-225 | The loop counts the trailing ones, the logarithm of the number of leaves below. |
| TreeMath.ComputeLog2 | Sources/CMLS/mlspp/src/tree_math.cpp:9-21 | The loop computes the integer logarithm. |
| TreeMath.ComputeFull | Sources/CMLS/mlspp/src/tree_math.cpp:39-47 | The least power of two that is at least the count. |
| TreeMath.Root | Sources/CMLS/mlspp/src/tree_math.cpp:93-102 | The root spans from the first leaf to the least power of two covering all; an error for no leaves. |
| TreeMath.LeafOfNode | Sources/CMLS/mlspp/src/tree_math.cpp:57-65 | Only leaf positions convert to leaf indices, and they convert back. |
| TreeMath.ComputeDirPath | Sources/CMLS/mlspp/src/tree_math.cpp:170-196 | The loop ends at the root and lists the proper ancestors; an error outside the tree. |
| TreeMath.DirPathIsAncestors | Sources/CMLS/mlspp/src/tree_math.cpp:170-196 | The direct path lists exactly the other nodes of the tree whose subtree contains the node. |
| TreeMath.ComputeCopath | Sources/CMLS/mlspp/src/tree_math.cpp:198-211 | The siblings along the direct path. |
| TreeMath.CopathPartition | Sources/CMLS/mlspp/src/tree_math.cpp:198-211 | The subtree of a node and those of its copath are pairwise disjoint. |
| TreeMath.CopathCovers | Sources/CMLS/mlspp/src/tree_math.cpp:198-211 | Every leaf of the tree outside the node is below a copath node. |
| TreeMath.ComputeAncestor | Sources/CMLS/mlspp/src/tree_math.cpp:67-86 | The two shifting loops compute the common ancestor of two leaves. |
| TreeMath.AncestorIsLowest | Sources/CMLS/mlspp/src/tree_math.cpp:67-86 | Every node above both leaves is above that ancestor. |
| TreeMath.AncestorSplits | Sources/CMLS/mlspp/src/tree_math.cpp:67-86 | The two leaves are below different children of their common ancestor. |
| TreeMath.Laminar | Sources/CMLS/mlspp/src/tree_math.cpp:110-116 | Two subtrees are nested or disjoint. |
| TreeMath.InTreeIsSpan | Sources/CMLS/mlspp/src/tree_math.cpp:170-175 | A node is in the tree exactly when all its leaves are. |
| SecretTrees.SecretTree.Get | Sources/CMLS/mlspp/src/key_schedule.cpp:97-146 | For any order of requests, each leaf yields once the secret of the plain recursive derivation; afterwards the store is exactly the frontier between used and unused leaves; a second request and a leaf outside fail. |
| SecretTrees.OneFrontierNode | Sources/CMLS/mlspp/src/key_schedule.cpp:97-146 | Every unused leaf has exactly one stored ancestor-or-self and a used leaf has none. |
| SecretTrees.FrontierAfter | Sources/CMLS/mlspp/src/key_schedule.cpp:120-143 | Using one more leaf replaces the frontier node above it by the siblings on the way down. |
| SecretTrees.FoundOnPath | Sources/CMLS/mlspp/src/key_schedule.cpp:104-118 | The search up the path succeeds exactly for an unused leaf. |
| SecretTrees.SecretTree.constructor | Sources/CMLS/mlspp/src/key_schedule.cpp:86-95 | The root alone is stored at first. |
| SecretTrees.GroupKeySource.Chain | Sources/CMLS/mlspp/src/key_schedule.cpp:197-219 | The ratchet of a sender and type starts at the expansion of its leaf secret with the label of that type; the leaf secret is asked for only when neither ratchet of the leaf exists, so the request never fails for a leaf of the tree. |
| SecretTrees.GroupKeySource.Next | Sources/CMLS/mlspp/src/key_schedule.cpp:221-230 | The next keys are the plain derivation at the generation returned, the largest one included. |
| SecretTrees.GroupKeySource.Get | Sources/CMLS/mlspp/src/key_schedule.cpp:232-241 | Keys by generation are the plain derivation, or an error once erased. |
| DerivedKeys.SenderKeysDiffer | Sources/CMLS/mlspp/src/key_schedule.cpp:197-241 | With collision-free derivation, two messages of a group that differ in type, sender or generation have different keys and nonces. |
| DerivedKeys.NodeSteps | Sources/CMLS/mlspp/src/key_schedule.cpp:120-143 | The secrets of the children of a node are its own expanded with the labels of the two sides. |
| DerivedKeys.RatchetSteps | Sources/CMLS/mlspp/src/key_schedule.cpp:32-47 | Secrets, keys and nonces of a ratchet generation by generation, on the field of the derivation. |
| DerivedKeys.FramesDiffer | Sources/CLibdave/libdave/cpp/src/encryptor.cpp:278-296 | No two frames of a sender share key and nonce. |
| HashRatchets.HashRatchet.Next | Sources/CMLS/mlspp/src/key_schedule.cpp:32-47 | One step returns and caches the keys of its generation and advances the 32-bit counter, which starts again at 0 after the largest generation. |
| HashRatchets.HashRatchet.Get | Sources/CMLS/mlspp/src/key_schedule.cpp:53-70 | The keys of a generation, deriving forward as far as needed; an error for an erased one. |
| HashRatchets.GetEndsIff | Sources/CMLS/mlspp/src/key_schedule.cpp:65-67 | Some number of turns of the loop, each a step with 32-bit increment, gets past the generation asked for exactly when that is not the largest one, and the ratchet is then the one `get` leaves. |
| HashRatchets.HashRatchet.Erase | Sources/CMLS/mlspp/src/key_schedule.cpp:72-80 | Exactly one generation is forgotten. |
| HashRatchets.AdvancePastFacts | Sources/CMLS/mlspp/src/key_schedule.cpp:65-67 | Deriving forward keeps what was cached and adds exactly the generations passed over. |
| CryptorManagers.ReplayWindowHolds | Sources/CLibdave/libdave/cpp/src/decryptor.cpp:157-201 | Over every run of `DecryptImpl` no expanded nonce is accepted twice, and every nonce above the first and within reach that was not accepted can still be processed. |
| CryptorManagers.KeysRetire | Sources/CLibdave/libdave/cpp/src/cryptor_manager.cpp:50-180 | Over every run the ratchet stores exactly the generations from the oldest to its next one, cryptors are made of the derived keys, exactly those before the newest generation expire, and no 32-bit arithmetic wraps. |
| CryptorManagers.GenuineFrame | Sources/CLibdave/libdave/cpp/src/decryptor.cpp:157-201 | A genuine frame less than a wrap from the oldest generation expands to the sender's counter and is decrypted exactly when the window still takes it and its generation may be used. |
| FrameLifetimes.GenuineFrameDecrypts | Sources/CLibdave/libdave/cpp/src/decryptor.cpp:157-201 | A sender's frame that the window takes is decrypted exactly when its generation is at least the oldest, at most 250 beyond the newest, and could have been reached since the ratchet was made at 170 frames a second and 2^24 frames a generation. |
| FrameLifetimes.FirstFrames | Sources/CLibdave/libdave/cpp/src/cryptor_manager.cpp:50-87 | A new manager decrypts every frame of the sender's first generation, at once and at any time. |
| FrameLifetimes.LateFramesDecrypt | Sources/CLibdave/libdave/cpp/src/cryptor_manager.cpp:120-134 | After the first frame of a newer generation, frames of the generation before are still decrypted for ten seconds, whatever else arrives. |
| FrameLifetimes.OldKeysGo | Sources/CLibdave/libdave/cpp/src/cryptor_manager.cpp:161-180 | More than ten seconds after the last step, cleaning leaves no cryptor and no stored key of a generation before the newest. |
| CryptorManagers.DecryptedSound | Sources/CLibdave/libdave/cpp/src/decryptor.cpp:157-201 | Every step keeps the invariant of keys and cryptors, whatever the frame. |
| CryptorManagers.WithCryptorSound | Sources/CLibdave/libdave/cpp/src/cryptor_manager.cpp:141-159 | A key is never asked for after its generation was deleted, and the cryptor made is that of the plain derivation. |
| CryptorManagers.CleanedSound | Sources/CLibdave/libdave/cpp/src/cryptor_manager.cpp:161-180 | Cleaning up leaves no expired cryptor; the oldest generation is then in use or the newest. |
| CryptorManagers.RunFollowsWindow | Sources/CLibdave/libdave/cpp/src/cryptor_manager.cpp:89-118 | The manager's list of missing nonces evolves as the replay window does. |
| ReplayWindow.WindowIsTwoSided | Sources/CLibdave/libdave/cpp/src/cryptor_manager.cpp:39-118 | For every run of attempts: no replay, a bounded strictly ascending list below the newest nonce, and acceptance of every new nonce within reach. |
| ReplayWindow.GrownList | Sources/CLibdave/libdave/cpp/src/cryptor_manager.cpp:98-108 | What the missing list holds after a jump ahead: nothing within reach is dropped. |
| ReplayWindow.ReachIsTight | Sources/CLibdave/libdave/cpp/src/cryptor_manager.cpp:98-108 | One nonce beyond the reach can be lost for good. |
| FrameKeys.CryptorManager.CanProcessNonce | Sources/CLibdave/libdave/cpp/src/cryptor_manager.cpp:39-48 | The check is membership in the replay window. |
| FrameKeys.CryptorManager.GetCryptor | Sources/CLibdave/libdave/cpp/src/cryptor_manager.cpp:50-87 | A cryptor of the derived key, exactly when that key is valid and its generation is at least the oldest, at most 250 beyond the newest and could have been reached by now; and the new state. |
| FrameKeys.CryptorManager.ReportCryptorSuccess | Sources/CLibdave/libdave/cpp/src/cryptor_manager.cpp:89-134 | The new window and, for a newer generation, the expiry of all older cryptors. |
| FrameKeys.CryptorManager.NoteNonce | Sources/CLibdave/libdave/cpp/src/cryptor_manager.cpp:93-118 | The loops that pop and push missing nonces compute the reported window. |
| FrameKeys.CryptorManager.CleanupExpiredCryptors | Sources/CLibdave/libdave/cpp/src/cryptor_manager.cpp:161-180 | The two loops drop expired cryptors and the keys of old generations without one. |
| FrameKeys.CryptorManager.GetKey | Sources/CLibdave/libdave/cpp/src/mls_key_ratchet.cpp:19-33 | The derived key of a generation, or an empty key when the ratchet refuses. |
| FrameKeys.DecryptImpl | Sources/CLibdave/libdave/cpp/src/decryptor.cpp:157-201 | One attempt on the mutable manager has the outcome and state the model describes. |
| FrameKeys.Decryptor.TryManagers | Sources/CLibdave/libdave/cpp/src/decryptor.cpp:109-118 | Managers are tried from the newest down; the first success ends the loop and older managers stay untouched. |
| FrameKeys.Decryptor.CleanupExpiredCryptorManagers | Sources/CLibdave/libdave/cpp/src/decryptor.cpp:217-223 | Exactly the expired managers in front go. |
| FrameKeys.Decryptor.TransitionToKeyRatchet | Sources/CLibdave/libdave/cpp/src/decryptor.cpp:24-36 | The managers so far get an expiry; a new ratchet becomes the newest, and a null one adds nothing. |
| FrameKeys.NonceCounter.GetNextCryptorAndNonce | Sources/CLibdave/libdave/cpp/src/encryptor.cpp:278-296 | The k-th call yields the nonce k mod 2^32 and the key of generation k div 2^24, although nonce and truncated generation wrap. |
| Generations.PairsDiffer | Sources/CLibdave/libdave/cpp/src/encryptor.cpp:278-296 | No two frames share key generation and nonce. |
| Generations.BigNonceRecoversCounter | Sources/CLibdave/libdave/cpp/src/cryptor_manager.cpp:14-29 | The receiver's expanded nonce is the sender's counter exactly when its generation is at or after the oldest one and less than a full wrap later. |
| Generations.WrappedGenerationIff | Sources/CLibdave/libdave/cpp/src/cryptor_manager.cpp:14-21 | A truncated generation expands correctly exactly within one wrap of the oldest. |
| Generations.ComputeWrappedBigNonce | Sources/CLibdave/libdave/cpp/src/cryptor_manager.cpp:23-29 | Mask, shift and or amount to generation times 2^24 plus the low 24 bits. |
| Encryption.SentIsReceived | Sources/CLibdave/libdave/cpp/src/decryptor.cpp:80-124 | Whatever filled the sender's processor, the receiver parses the frame, decrypts it exactly when the window and the reach allow, and rejoins the sender's byte stream. |
| Encryption.Encrypt | Sources/CLibdave/libdave/cpp/src/encryptor.cpp:96-200 | The retry loop writes the laid-out frame for the last counter taken; every earlier attempt was refused by the codec; each failure has its cause. |
| Encryption.WriteFrame | Sources/CLibdave/libdave/cpp/src/encryptor.cpp:115-188 | One attempt writes stream, tag, nonce, ranges, size and marker into the buffer, or fails when the supplemental data exceeds one byte's count. |
| CiphertextSizes.PaddingSufficesIff | Sources/CLibdave/libdave/cpp/src/encryptor.cpp:226-229 | A frame fits the size callers ask for exactly when stream, nonce and ranges together take no more than the frame size and the padding. |
| CiphertextSizes.FewRangesFit | Sources/CLibdave/libdave/cpp/src/encryptor.cpp:226-229 | Up to seven readable ranges in a frame below 2^28 bytes always fit. |
| CiphertextSizes.ManyRangesNeverFit | Sources/CLibdave/libdave/cpp/src/encryptor.cpp:226-229 | With 32 readable ranges or more it never fits, unless the stream is shorter than the frame it was made of. |
| CiphertextSizes.SmallObusDoNotFit | Sources/CLibdave/libdave/cpp/src/codec_utils.cpp:307-397 | AV1 frames of 32 to 42 OBUs of one byte each, from 95 bytes on: lists of OBUs that `ProcessFrameAv1` accepts without a wrap, and whose encrypted frame is longer than the size callers ask for, whatever the nonce. |
| Encryption.FrameBytes | Sources/CLibdave/libdave/cpp/src/encryptor.cpp:115-188 | The bytes of a frame: the stream with ciphertext in place of the encrypted bytes, eight bytes of tag over the readable bytes, nonce, ranges, the count of all that, and the marker 0xFAFA. |
| Encryption.SerializedOneByOne | Sources/CLibdave/libdave/cpp/src/frame_processors.cpp:46-65 | Every range is written as its offset and its size. |
| Frames.FrameRoundTrip | Sources/CLibdave/libdave/cpp/src/frame_processors.cpp:184-399 | For any sequence of calls on the sender's processor, parsing recovers tag, nonce, ranges, associated data and ciphertext, and rejoining gives back the stream. |
| Frames.ParseUndoesLayout | Sources/CLibdave/libdave/cpp/src/frame_processors.cpp:184-285 | Parsing recovers everything that was laid out. |
| Frames.RejoinUndoesSplit | Sources/CLibdave/libdave/cpp/src/frame_processors.cpp:123-171 | Rejoining the two halves of a split stream gives the stream back. |
| Frames.SplitUndoesRejoin | Sources/CLibdave/libdave/cpp/src/frame_processors.cpp:123-171 | Splitting a rejoined stream gives the two halves back. |
| Frames.RangesRoundTrip | Sources/CLibdave/libdave/cpp/src/frame_processors.cpp:46-94 | Reading serialised ranges gives them back, for every list of 64-bit ranges. |
| Frames.AddAllSplits | Sources/CLibdave/libdave/cpp/src/frame_processors.cpp:377-399 | After any sequence of calls the processor holds the split of the stream they spell, with adjacent ranges merged. |
| Frames.ParsedFits | Sources/CLibdave/libdave/cpp/src/frame_processors.cpp:262-280 | Splitting any frame that parses, even a forged one, leaves what rejoining asks for. |
| FrameProcessors.Reconstruct | Sources/CLibdave/libdave/cpp/src/frame_processors.cpp:123-171 | The copying loop writes the rejoined stream and returns its length. |
| FrameProcessors.ValidateUnencryptedRanges | Sources/CLibdave/libdave/cpp/src/frame_processors.cpp:96-121 | In 64-bit arithmetic the loop accepts exactly ordered ranges without overlap inside the frame. |
| FrameProcessors.SerializeUnencryptedRanges | Sources/CLibdave/libdave/cpp/src/frame_processors.cpp:46-65 | The loop writes the serialised ranges and nothing else. |
| FrameProcessors.DeserializeUnencryptedRanges | Sources/CLibdave/libdave/cpp/src/frame_processors.cpp:67-94 | The loop reads all bytes as ranges or gives none. |
| FrameProcessors.OutboundFrameProcessor.AddUnencryptedBytes | Sources/CLibdave/libdave/cpp/src/frame_processors.cpp:377-392 | Extends the last range or opens a new one. |
| FrameProcessors.OutboundFrameProcessor.AddEncryptedBytes | Sources/CLibdave/libdave/cpp/src/frame_processors.cpp:394-399 | Appends bytes outside the ranges. |
| FrameProcessors.OutboundFrameProcessor.ReconstructFrame | Sources/CLibdave/libdave/cpp/src/frame_processors.cpp:367-375 | The readable bytes with the ciphertext in between; nothing for too small a buffer. |
| FrameProcessors.InboundFrameProcessor.ParseFrame | Sources/CLibdave/libdave/cpp/src/frame_processors.cpp:184-285 | Any bytes may arrive; the frame counts as encrypted exactly when it parses. |
| FrameProcessors.InboundFrameProcessor.ReconstructFrame | Sources/CLibdave/libdave/cpp/src/frame_processors.cpp:287-300 | The readable bytes with the plaintext in between; nothing for too small a buffer. |
| Leb128s.ReadUndoesWrite | Sources/CLibdave/libdave/cpp/src/utils/leb128.cpp:20-56 | Reading undoes writing for every 64-bit value, whatever follows. |
| Leb128s.EncodingIs | Sources/CLibdave/libdave/cpp/src/utils/leb128.cpp:46-57 | The encoding has the value as its digits of seven bits, lowest first, with the top bit set in every byte but the last. |
| Leb128s.ReadFits | Sources/CLibdave/libdave/cpp/src/utils/leb128.cpp:20-44 | What is read fits in 64 bits. |
| Leb128s.WriteLeb128 | Sources/CLibdave/libdave/cpp/src/utils/leb128.cpp:46-57 | The loop writes the encoding and leaves every other byte alone. |
| Leb128s.ReadLeb128 | Sources/CLibdave/libdave/cpp/src/utils/leb128.cpp:20-44 | The shifting loop reads the value and the position behind it, or fails on a missing terminator. |
| Leb128s.Leb128Size | Sources/CLibdave/libdave/cpp/src/utils/leb128.cpp:10-18 | The length of the encoding. |
| Av1.Av1KeepsMeaning | Sources/CLibdave/libdave/cpp/src/codec_utils.cpp:296-397 | For any frame the loop accepts: frame and emitted stream read as OBUs, the stream as those of the frame without temporal delimiters, tile lists and padding, with the same types, extension bytes and payloads, exactly when no position plus size wraps on the way and the frame does not end with an empty OBU that is kept and has a size field. |
| Av1.ReturnsRightlyIff | Sources/CLibdave/libdave/cpp/src/codec_utils.cpp:307-397 | The loop ends, returns true exactly for a list of OBUs and looks at bytes of the frame only, exactly when on the way no sized OBU has a position plus size of 2^64 or more; a frame with such an OBU is no list of OBUs. |
| Av1.EndsSoonOrNever | Sources/CLibdave/libdave/cpp/src/codec_utils.cpp:307-397 | A loop that is still running after one turn more than the frame has bytes never ends. |
| Av1.NoWrapEnds | Sources/CLibdave/libdave/cpp/src/codec_utils.cpp:307-397 | Without a wrap the loop ends within that many turns and has made the calls of the rewriting. |
| Av1.TurnIsRead | Sources/CLibdave/libdave/cpp/src/codec_utils.cpp:308-356 | One turn finds what reading an OBU finds, unless the 64-bit sum of position and size wraps. |
| Av1.BytesReadTwice | Sources/CLibdave/libdave/cpp/src/codec_utils.cpp:348-356 | Twelve bytes that are no list of OBUs are accepted after a wrap, and bytes of a size field are emitted as an OBU. |
| Av1.NeverEnds | Sources/CLibdave/libdave/cpp/src/codec_utils.cpp:348-356 | Eleven bytes on which a wrap leads back to the start: the loop never ends. |
| Av1.BytesBehindTheFrame | Sources/CLibdave/libdave/cpp/src/codec_utils.cpp:348-395 | An OBU that is kept with such a size asks for bytes behind the frame. |
| Av1.RefusedAllTheSame | Sources/CLibdave/libdave/cpp/src/codec_utils.cpp:348-356 | After a wrap a frame may also be refused, so the result alone does not tell. |
| Av1.RewritingKeepsMeaning | Sources/CLibdave/libdave/cpp/src/codec_utils.cpp:296-397 | On lists of OBUs the rewriting keeps the meaning exactly when the list does not end so; a list that does yields a stream that cannot be read at all. |
| Av1.EmptyObuIsLost | Sources/CLibdave/libdave/cpp/src/codec_utils.cpp:366-376 | Two bytes, one kept OBU with size zero, are rewritten to a lone header that does not read back. |
| Av1.ProcessFrameAv1 | Sources/CLibdave/libdave/cpp/src/codec_utils.cpp:307-397 | The loop, for any number of turns, has the state and result of the run of 64-bit turns. |
| Av1.FindObu | Sources/CLibdave/libdave/cpp/src/codec_utils.cpp:308-356 | The first half of a turn finds header, extension and payload, or refuses. |
| Av1.ProcessFrame | Sources/CLibdave/libdave/cpp/src/frame_processors.cpp:323-365 | Without a wrap, of a list of OBUs exactly the payloads of those that are kept are encrypted, and exactly their headers, extension bytes and size fields are readable; any other frame is encrypted as a whole. |
| Av1.RewrittenHalves | Sources/CLibdave/libdave/cpp/src/codec_utils.cpp:360-393 | The calls for a list of OBUs hide exactly the payloads that are kept and show exactly what frames them. |
| Av1.HeaderFields | Sources/CLibdave/libdave/cpp/src/codec_utils.cpp:296-306 | Type, extension flag, size flag and the dropped types 2, 8 and 15 in plain numbers. |
| Av1.AddObu | Sources/CLibdave/libdave/cpp/src/codec_utils.cpp:360-393 | The calls for one OBU: header, extension, re-encoded or dropped size, payload. |
| Av1.WithoutSize | Sources/CLibdave/libdave/cpp/src/codec_utils.cpp:367-371 | Only the size bit is flipped: the result is the header less that bit. |
| Av1.ReadIsWellFormed | Sources/CLibdave/libdave/cpp/src/codec_utils.cpp:306-357 | What reading a frame guarantees of its OBUs. |

## Left out

- Light clients (tree slices, annotated commits, `ancestor_index`), external commits, branching and re-initialisation: the group runs cover full clients and normal commits.
- Resumption pre-shared keys: only external ones are resolved.
- Encryption of the Welcome and of messages, signatures, credentials and their lifetimes: leaf validity is an arbitrary predicate of tree, group and leaf.
- TLS marshalling of messages and hash inputs: an arbitrary function of the message contents.
- Tree indices wider than 32 bits: sizes are unbounded naturals, without the wrap that more than 2^30 leaves would cause.
- The variant of `parent_hash_valid` for a single leaf already in the tree: full validity is proved instead.
- Reuse guards of message nonces: random and undone by the receiver.
- GroupRuns.EveryRunStaysInStep: a proposal reference is taken to stand for one proposal, a pre-shared key name for one key, and the key kept for an own update or brought by a joiner to be that of its leaf; transcript hashes and public keys are taken to be free of collisions; only commits made by `Commit` travel (`AcceptedCommits` is about all others).
- GroupRuns.HandleProposal: proposals of members only, not of external senders.
- GroupState.Commit, GroupState.HandleCommit and the other steps of `State` are functions to a new state: the append to the pending proposals and the caching of an own update are not done in place.
- Several reads of the clock within one call: each step gets one time.
- HashRatchets.HashRatchet.Get: generation 2^32-1, for which the loop of the source does not end, is excluded by precondition.
- SecretTrees.GroupKeySource.Get: generation 2^32-1 is excluded, as for the ratchet.
- FrameKeys.NonceCounter.GetNextCryptorAndNonce: the calls from 2^56 - 2^24 on, which ask the ratchet for generation 2^32-1, are excluded.
- Encryption.Encrypt: the output buffer is required to hold the whole frame, which the source does not check, and the serialised ranges to take fewer than 256 bytes as it asserts.
- Encryption.WriteFrame: the same two requirements.
- H.264 and H.265 splitting and the validation of their ciphertexts, which enters as an arbitrary predicate; Opus, VP8 and VP9, which make one or two calls covered by the frame round trip.
- Passthrough and silence frames, statistics, frame-processor pools, mutexes and logging.
- Aliasing between input and output buffers of the decryptor: the tag is a copy.
- The Swift layer, the C and WebAssembly bindings and the cryptographic back ends.
