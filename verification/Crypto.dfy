/** The cipher suite as parameters of the model.  Hashing, key derivation and HPKE are arbitrary
    functions; the one assumption is that decryption undoes encryption. */
module Crypto {
  import opened Wrappers

  newtype byte = x: int | 0 <= x < 256
  type Bytes = seq<byte>
  type PublicKey = Bytes
  type PrivateKey = Bytes

  /** The labels passed to `derive_secret` by the ratchet tree. */
  datatype Label = PathLabel | NodeLabel

  /** `source` of a leaf node: only a leaf made for a commit carries a parent hash. */
  datatype LeafContent = KeyPackageSource | UpdateSource | CommitSource(parentHash: Bytes)

  /** `rest` stands for credential, capabilities, lifetime, extensions and signature. */
  datatype LeafNode = LeafNode(
    encryptionKey: PublicKey, signatureKey: Bytes, content: LeafContent, rest: Bytes)

  datatype ParentNode = ParentNode(publicKey: PublicKey, parentHash: Bytes, unmerged: seq<nat>)

  datatype Node = LeafN(leaf: LeafNode) | ParentN(parent: ParentNode) {
    function PublicKey(): Bytes {
      match this
      case LeafN(l) => l.encryptionKey
      case ParentN(p) => p.publicKey
    }

    /** The parent hash a node carries, if its kind has one. */
    function ParentHash(): Option<Bytes> {
      match this
      case LeafN(LeafNode(_, _, CommitSource(h), _)) => Some(h)
      case LeafN(_) => None
      case ParentN(p) => Some(p.parentHash)
    }
  }

  /** `PreSharedKeyID` of an external key: its name and the nonce of one use. */
  datatype PskId = PskId(name: Bytes, nonce: Bytes)

  datatype TreeHashInput =
    | LeafInput(index: nat, leaf: Option<LeafNode>)
    | ParentInput(node: Option<ParentNode>, left: Bytes, right: Bytes)

  datatype ParentHashInput = ParentHashInput(
    publicKey: PublicKey, parentHash: Bytes, siblingHash: Bytes)

  datatype Suite = Suite(
    deriveSecret: (Bytes, Label) -> Bytes,
    deriveKey: Bytes -> PrivateKey,
    publicOf: PrivateKey -> PublicKey,
    seal: (PublicKey, Bytes, Bytes, Bytes) -> Bytes,
    open: (PrivateKey, Bytes, Bytes) -> Option<Bytes>,
    treeHash: TreeHashInput -> Bytes,
    parentHash: ParentHashInput -> Bytes)

  function Derive(s: Suite, secret: Bytes, use: Label): Bytes { s.deriveSecret(secret, use) }

  function KeyOf(s: Suite, secret: Bytes): PrivateKey { s.deriveKey(Derive(s, secret, NodeLabel)) }

  function PublicOf(s: Suite, key: PrivateKey): PublicKey { s.publicOf(key) }

  /** HPKE encryption; `coins` is the randomness of one call. */
  function Seal(s: Suite, key: PublicKey, context: Bytes, text: Bytes, coins: Bytes): Bytes {
    s.seal(key, context, text, coins)
  }

  function Open(s: Suite, key: PrivateKey, context: Bytes, text: Bytes): Option<Bytes> {
    s.open(key, context, text)
  }

  function HashTree(s: Suite, i: TreeHashInput): Bytes { s.treeHash(i) }

  function HashParent(s: Suite, i: ParentHashInput): Bytes { s.parentHash(i) }

  ghost predicate DecryptionWorks(s: Suite) {
    forall key, context, text, coins ::
      s.open(key, context, s.seal(s.publicOf(key), context, text, coins)) == Some(text)
  }

  ghost predicate TreeHashInjective(s: Suite) {
    forall i, j :: s.treeHash(i) == s.treeHash(j) ==> i == j
  }
}
