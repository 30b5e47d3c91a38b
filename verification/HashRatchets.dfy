/** The symmetric ratchet of one sender (section 9.1 of RFC 9420): `HashRatchet` in
    `key_schedule.cpp`. */
module HashRatchets {
  import opened Wrappers
  import opened Crypto

  datatype RatchetLabel = KeyLabel | NonceLabel | SecretLabel

  datatype KeyAndNonce = KeyAndNonce(key: Bytes, nonce: Bytes)

  /** `derive_tree_secret` as an arbitrary function of secret, label and generation. */
  datatype RatchetKdf = RatchetKdf(derive: (Bytes, RatchetLabel, nat) -> Bytes)

  function DeriveTreeSecret(k: RatchetKdf, secret: Bytes, use: RatchetLabel, generation: nat): Bytes {
    k.derive(secret, use, generation)
  }

  /** The plain definition: the secret of a generation is the base secret derived that many times. */
  function SecretAt(k: RatchetKdf, base: Bytes, generation: nat): Bytes {
    if generation == 0 then base
    else DeriveTreeSecret(k, SecretAt(k, base, generation - 1), SecretLabel, generation - 1)
  }

  function KeysOf(k: RatchetKdf, secret: Bytes, generation: nat): KeyAndNonce {
    KeyAndNonce(DeriveTreeSecret(k, secret, KeyLabel, generation), DeriveTreeSecret(k, secret, NonceLabel, generation))
  }

  function KeysAt(k: RatchetKdf, base: Bytes, generation: nat): KeyAndNonce {
    KeysOf(k, SecretAt(k, base, generation), generation)
  }

  datatype Ratchet = Ratchet(nextSecret: Bytes, nextGeneration: nat, cache: map<nat, KeyAndNonce>)

  function Advance(k: RatchetKdf, r: Ratchet): Ratchet {
    Ratchet(
      DeriveTreeSecret(k, r.nextSecret, SecretLabel, r.nextGeneration),
      r.nextGeneration + 1,
      r.cache[r.nextGeneration := KeysOf(k, r.nextSecret, r.nextGeneration)])
  }

  /** Steps until `generation` is behind the ratchet. */
  function AdvancePast(k: RatchetKdf, r: Ratchet, generation: nat): Ratchet
    decreases generation + 1 - r.nextGeneration
  {
    if r.nextGeneration <= generation then AdvancePast(k, Advance(k, r), generation) else r
  }

  /** The state `get` leaves behind: a generation that is cached, or expired, moves nothing. */
  function AfterGet(k: RatchetKdf, r: Ratchet, generation: nat): Ratchet {
    if generation in r.cache then r else AdvancePast(k, r, generation)
  }

  function Erased(r: Ratchet, generation: nat): Ratchet { r.(cache := r.cache - {generation}) }

  /** The ratchet belongs to `base`, and whatever it still stores is the plain derivation. */
  ghost predicate Follows(k: RatchetKdf, base: Bytes, r: Ratchet) {
    && r.nextSecret == SecretAt(k, base, r.nextGeneration)
    && forall g <- r.cache :: g < r.nextGeneration && r.cache[g] == KeysAt(k, base, g)
  }

  /** Advancing keeps what was cached and adds exactly the generations passed over. */
  lemma {:induction false} AdvancePastFacts(k: RatchetKdf, base: Bytes, r: Ratchet, generation: nat)
    requires Follows(k, base, r)
    ensures var a := AdvancePast(k, r, generation);
      && Follows(k, base, a)
      && a.nextGeneration == (if r.nextGeneration <= generation then generation + 1 else r.nextGeneration)
      && (forall g: nat :: g in a.cache <==> g in r.cache || r.nextGeneration <= g <= generation)
    decreases generation + 1 - r.nextGeneration
  {
    if r.nextGeneration <= generation {
      assert Follows(k, base, Advance(k, r));
      AdvancePastFacts(k, base, Advance(k, r), generation);
    }
  }

  const MAX_GENERATION := 0xFFFF_FFFF

  /** `next`: the counter is a 32-bit word and starts again behind the largest generation. */
  function WordAdvance(k: RatchetKdf, r: Ratchet): Ratchet {
    Advance(k, r).(nextGeneration := (r.nextGeneration + 1) % (MAX_GENERATION + 1))
  }

  /** The loop of `get` after some turns. */
  function AfterTurns(k: RatchetKdf, r: Ratchet, generation: nat, turns: nat): Ratchet {
    if turns == 0 then r
    else
      var x := AfterTurns(k, r, generation, turns - 1);
      if x.nextGeneration <= generation then WordAdvance(k, x) else x
  }

  /** The loop of `get` ends for every generation but the largest, and then it has advanced just past the
      generation asked for. */
  lemma GetEndsIff(k: RatchetKdf, r: Ratchet, generation: nat)
    requires r.nextGeneration <= MAX_GENERATION && generation <= MAX_GENERATION
    ensures (exists turns :: AfterTurns(k, r, generation, turns).nextGeneration > generation) <==> generation < MAX_GENERATION
    ensures generation < MAX_GENERATION ==>
      exists turns :: AfterTurns(k, r, generation, turns) == AdvancePast(k, r, generation)
  {
    if generation < MAX_GENERATION {
      var turns := if r.nextGeneration <= generation then generation + 1 - r.nextGeneration else 0;
      TurnsAdvance(k, r, generation, turns);
    } else {
      forall turns: nat ensures AfterTurns(k, r, generation, turns).nextGeneration <= generation {
        TurnsStayWords(k, r, generation, turns);
      }
    }
  }

  lemma {:induction false} TurnsStayWords(k: RatchetKdf, r: Ratchet, generation: nat, turns: nat)
    requires r.nextGeneration <= MAX_GENERATION
    ensures AfterTurns(k, r, generation, turns).nextGeneration <= MAX_GENERATION
  {
    if turns > 0 { TurnsStayWords(k, r, generation, turns - 1); }
  }

  lemma {:induction false} TurnsFromFront(k: RatchetKdf, r: Ratchet, generation: nat, turns: nat)
    requires r.nextGeneration <= generation
    ensures AfterTurns(k, r, generation, turns + 1) == AfterTurns(k, WordAdvance(k, r), generation, turns)
  {
    hide WordAdvance;
    if turns > 0 { TurnsFromFront(k, r, generation, turns - 1); }
  }

  lemma {:induction false} TurnsAdvance(k: RatchetKdf, r: Ratchet, generation: nat, turns: nat)
    requires generation < MAX_GENERATION
    requires turns == if r.nextGeneration <= generation then generation + 1 - r.nextGeneration else 0
    ensures AfterTurns(k, r, generation, turns) == AdvancePast(k, r, generation)
    ensures AdvancePast(k, r, generation).nextGeneration > generation
    decreases turns
  {
    if turns > 0 {
      assert WordAdvance(k, r) == Advance(k, r);
      TurnsFromFront(k, r, generation, turns - 1);
      TurnsAdvance(k, Advance(k, r), generation, turns - 1);
    }
  }

  class HashRatchet {
    const kdf: RatchetKdf
    ghost const base: Bytes
    var nextSecret: Bytes
    var nextGeneration: nat
    var cache: map<nat, KeyAndNonce>

    ghost function Value(): Ratchet
      reads this
    {
      Ratchet(nextSecret, nextGeneration, cache)
    }

    ghost predicate Valid()
      reads this
    {
      Follows(kdf, base, Value()) && nextGeneration <= MAX_GENERATION
    }

    constructor (kdf: RatchetKdf, baseSecret: Bytes)
      ensures Valid() && this.kdf == kdf && base == baseSecret
      ensures Value() == Ratchet(baseSecret, 0, map[])
    {
      this.kdf, base := kdf, baseSecret;
      nextSecret, nextGeneration, cache := baseSecret, 0, map[];
    }

    method Next() returns (generation: nat, keys: KeyAndNonce)
      requires Valid()
      modifies this
      ensures Value() == WordAdvance(kdf, old(Value()))
      ensures old(nextGeneration) < MAX_GENERATION ==> Valid() && Value() == Advance(kdf, old(Value()))
      ensures generation == old(nextGeneration) && keys == KeysAt(kdf, base, generation)
    {
      generation := nextGeneration;
      var key := DeriveTreeSecret(kdf, nextSecret, KeyLabel, generation);
      var nonce := DeriveTreeSecret(kdf, nextSecret, NonceLabel, generation);
      var secret := DeriveTreeSecret(kdf, nextSecret, SecretLabel, generation);
      nextGeneration := (nextGeneration + 1) % (MAX_GENERATION + 1);
      nextSecret := secret;
      cache := cache[generation := KeyAndNonce(key, nonce)];
      keys := cache[generation];
    }

    /** The largest generation is excluded because the loop of the source never ends for it (`GetEndsIff`). */
    method Get(generation: nat) returns (r: Result<KeyAndNonce>)
      requires Valid() && generation < MAX_GENERATION
      modifies this
      ensures Valid()
      ensures Value() == AfterGet(kdf, old(Value()), generation)
      ensures r == if generation in old(cache) || old(nextGeneration) <= generation
                   then Ok(KeysAt(kdf, base, generation)) else Err(Protocol)
    {
      if generation in cache {
        return Ok(cache[generation]);
      }
      if nextGeneration > generation {
        return Err(Protocol);
      }
      while nextGeneration <= generation
        invariant Valid() && nextGeneration <= generation + 1
        invariant AdvancePast(kdf, Value(), generation) == AdvancePast(kdf, old(Value()), generation)
        invariant nextGeneration == generation + 1 ==> generation in cache
      {
        var g, keys := Next();
      }
      r := Ok(cache[generation]);
    }

    method Erase(generation: nat)
      requires Valid()
      modifies this
      ensures Valid() && Value() == Erased(old(Value()), generation)
    {
      if generation !in cache {
        assert cache - {generation} == cache;
        return;
      }
      cache := cache - {generation};
    }
  }
}
