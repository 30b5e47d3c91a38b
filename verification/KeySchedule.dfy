/** The key schedule of one epoch (section 8 of RFC 9420; `key_schedule.cpp`).  Extraction,
    expansion, hashing and marshalling are arbitrary functions. */
module KeySchedule {
  import opened Crypto

  /** The labels of the secrets derived from an epoch secret. */
  datatype Secret =
    | SenderData | Encryption | Exporter | Authentication | External | Confirm | Membership | Resumption | Init

  datatype ExpandLabel = JoinerLabel | EpochLabel | DerivedPskLabel

  datatype GroupContext = GroupContext(
    groupId: Bytes, epoch: nat, treeHash: Bytes, confirmed: Bytes, extensions: Bytes)

  datatype PskWithSecret = PskWithSecret(id: PskId, secret: Bytes)

  datatype Kdf = Kdf(
    extract: (Bytes, Bytes) -> Bytes,
    expand: (Bytes, ExpandLabel, Bytes) -> Bytes,
    derive: (Bytes, Secret) -> Bytes,
    zero: Bytes,
    hash: Bytes -> Bytes,
    hmac: (Bytes, Bytes) -> Bytes,
    marshalContext: GroupContext -> Bytes,
    marshalPsk: (PskId, nat, nat) -> Bytes)

  function ExtractKey(k: Kdf, a: Bytes, b: Bytes): Bytes { k.extract(a, b) }

  function ExpandWith(k: Kdf, secret: Bytes, use: ExpandLabel, context: Bytes): Bytes { k.expand(secret, use, context) }

  function DeriveFrom(k: Kdf, epochSecret: Bytes, use: Secret): Bytes { k.derive(epochSecret, use) }

  function HashOf(k: Kdf, b: Bytes): Bytes { k.hash(b) }

  function MacOf(k: Kdf, key: Bytes, b: Bytes): Bytes { k.hmac(key, b) }

  function ContextBytes(k: Kdf, c: GroupContext): Bytes { k.marshalContext(c) }

  function PskBytes(k: Kdf, id: PskId, index: nat, count: nat): Bytes { k.marshalPsk(id, index, count) }

  /** Everything else of an epoch is derived from its epoch secret when it is asked for. */
  datatype Epoch = Epoch(joinerSecret: Bytes, epochSecret: Bytes, confirmationTag: Bytes)

  /** The full initializer, also used by an invited joiner. */
  function MakeEpoch(k: Kdf, joinerSecret: Bytes, pskSecret: Bytes, confirmed: Bytes, context: Bytes): Epoch {
    var epochSecret := ExpandWith(k, ExtractKey(k, joinerSecret, pskSecret), EpochLabel, context);
    Epoch(joinerSecret, epochSecret, MacOf(k, DeriveFrom(k, epochSecret, Confirm), confirmed))
  }

  function NextEpoch(k: Kdf, e: Epoch, commitSecret: Bytes, psks: seq<PskWithSecret>, confirmed: Bytes, context: Bytes)
    : Epoch
  {
    var preJoiner := ExtractKey(k, DeriveFrom(k, e.epochSecret, Init), commitSecret);
    MakeEpoch(k, ExpandWith(k, preJoiner, JoinerLabel, context), PskSecret(k, psks), confirmed, context)
  }

  /** `operator==` of two epochs: it compares derived secrets one by one. */
  predicate SameEpoch(k: Kdf, a: Epoch, b: Epoch) {
    && a.epochSecret == b.epochSecret
    && DeriveFrom(k, a.epochSecret, SenderData) == DeriveFrom(k, b.epochSecret, SenderData)
    && DeriveFrom(k, a.epochSecret, Encryption) == DeriveFrom(k, b.epochSecret, Encryption)
    && DeriveFrom(k, a.epochSecret, Exporter) == DeriveFrom(k, b.epochSecret, Exporter)
    && DeriveFrom(k, a.epochSecret, Confirm) == DeriveFrom(k, b.epochSecret, Confirm)
    && DeriveFrom(k, a.epochSecret, Init) == DeriveFrom(k, b.epochSecret, Init)
    && DeriveFrom(k, a.epochSecret, External) == DeriveFrom(k, b.epochSecret, External)
  }

  /** The secret of a list of pre-shared keys: keys are mixed in from the first to the last. */
  function PskSecret(k: Kdf, psks: seq<PskWithSecret>): Bytes { PskSecretOf(k, psks, |psks|) }

  function PskSecretOf(k: Kdf, psks: seq<PskWithSecret>, n: nat): Bytes
    requires n <= |psks|
  {
    if n == 0 then k.zero
    else
      var psk := psks[n - 1];
      var input := ExpandWith(k, ExtractKey(k, k.zero, psk.secret), DerivedPskLabel, PskBytes(k, psk.id, n - 1, |psks|));
      ExtractKey(k, input, PskSecretOf(k, psks, n - 1))
  }

  /** `make_psk_secret`; index and count are 16-bit words in the source. */
  method ComputePskSecret(k: Kdf, psks: seq<PskWithSecret>) returns (secret: Bytes)
    requires |psks| < 0x1_0000
    ensures secret == PskSecret(k, psks)
  {
    secret := k.zero;
    var index := 0;
    while index < |psks|
      invariant 0 <= index <= |psks|
      invariant secret == PskSecretOf(k, psks, index)
    {
      var extracted := ExtractKey(k, k.zero, psks[index].secret);
      var input := ExpandWith(k, extracted, DerivedPskLabel, PskBytes(k, psks[index].id, index, |psks|));
      secret := ExtractKey(k, input, secret);
      index := index + 1;
    }
  }
}
