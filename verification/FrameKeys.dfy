/** `CryptorManager` as the class that updates its fields in place, `DecryptImpl` on it, and the
    sender's counter (`GetNextCryptorAndNonce`). */
module FrameKeys {
  import opened Wrappers
  import opened Crypto
  import opened Generations
  import opened ReplayWindow
  import opened HashRatchets
  import opened CryptorManagers

  class CryptorManager {
    const env: Env
    const keyRatchet: HashRatchet
    const ratchetCreation: nat
    var ratchetExpiry: nat
    var cryptors: map<nat, ExpiringCryptor>
    var oldestGeneration: nat
    var newestGeneration: nat
    var newestProcessedNonce: Option<nat>
    var missingNonces: seq<nat>

    ghost function Value(): Manager
      reads this, keyRatchet
    {
      Manager(keyRatchet.Value(), cryptors, ratchetCreation, oldestGeneration, newestGeneration,
        Window(newestProcessedNonce, missingNonces))
    }

    ghost predicate Valid(now: nat)
      reads this, keyRatchet
    {
      && keyRatchet.Valid() && keyRatchet.kdf == env.kdf
      && Sound(env, keyRatchet.base, Value(), now)
    }

    constructor (env: Env, keyRatchet: HashRatchet, now: nat)
      requires keyRatchet.Valid() && keyRatchet.kdf == env.kdf && now < MAX_TIME - EXPIRY
      requires keyRatchet.Value() == FreshManager(keyRatchet.base, now).ratchet
      ensures Valid(now) && this.env == env && this.keyRatchet == keyRatchet
      ensures Value() == FreshManager(keyRatchet.base, now)
    {
      this.env, this.keyRatchet, ratchetCreation := env, keyRatchet, now;
      ratchetExpiry := MAX_TIME;
      cryptors, oldestGeneration, newestGeneration := map[], 0, 0;
      newestProcessedNonce, missingNonces := None, [];
    }

    method UpdateExpiry(expiry: nat)
      modifies this`ratchetExpiry
      ensures ratchetExpiry == expiry
    {
      ratchetExpiry := expiry;
    }

    predicate IsExpired(now: nat)
      reads this
    {
      now > ratchetExpiry
    }

    method CanProcessNonce(generation: nat, nonce: nat) returns (r: bool)
      ensures r == CanProcess(Value().window, ComputeWrappedBigNonce(generation, nonce))
    {
      if newestProcessedNonce.None? { return true; }
      var bigNonce := ComputeWrappedBigNonce(generation, nonce);
      r := bigNonce > newestProcessedNonce.value || bigNonce in missingNonces;
    }

    method RemoveExpired(now: nat)
      modifies this`cryptors
      ensures cryptors == Unexpired(old(cryptors), now)
    {
      var pending := cryptors.Keys;
      while pending != {}
        invariant pending <= old(cryptors).Keys
        invariant forall g :: g in cryptors <==> g in old(cryptors) && (g in pending || old(cryptors)[g].expiry >= now)
        invariant forall g <- cryptors :: cryptors[g] == old(cryptors)[g]
      {
        var g :| g in pending;
        pending := pending - {g};
        if cryptors[g].expiry < now {
          cryptors := cryptors - {g};
        }
      }
    }

    method CleanupExpiredCryptors(now: nat)
      requires Valid(now)
      modifies this, keyRatchet
      ensures Valid(now) && Value() == Cleaned(old(Value()), now)
    {
      hide LifetimeGenerations, KeysAt, CreateCryptor, Follows, DropOld;
      CleanedSound(env, keyRatchet.base, Value(), now);
      RemoveExpired(now);
      assert DropOld(Value()) == Cleaned(old(Value()), now);
      hide Cleaned, Sound;
      DeleteOldKeys();
    }

    /** Keys of generations without a cryptor go, from the oldest up to the newest generation. */
    method DeleteOldKeys()
      requires keyRatchet.Valid()
      modifies this`oldestGeneration, keyRatchet
      ensures keyRatchet.Valid() && Value() == DropOld(old(Value()))
    {
      hide Follows;
      while oldestGeneration < newestGeneration && oldestGeneration !in cryptors
        invariant keyRatchet.Valid()
        invariant DropOld(Value()) == DropOld(old(Value()))
        decreases newestGeneration - oldestGeneration
      {
        keyRatchet.Erase(oldestGeneration);
        oldestGeneration := oldestGeneration + 1;
      }
    }

    /** `MlsKeyRatchet::GetKey`: an empty key when the ratchet refuses. */
    method GetKey(generation: nat) returns (key: Bytes)
      requires keyRatchet.Valid() && keyRatchet.kdf == env.kdf && generation < MAX_GENERATION
      modifies keyRatchet
      ensures keyRatchet.Valid() && keyRatchet.Value() == AfterGet(env.kdf, old(keyRatchet.Value()), generation)
      ensures key == KeyFor(keyRatchet.Value(), generation)
    {
      hide KeysAt;
      if generation !in keyRatchet.cache {
        AdvancePastFacts(env.kdf, keyRatchet.base, keyRatchet.Value(), generation);
      }
      var r := keyRatchet.Get(generation);
      key := if r.Ok? then r.value.key else [];
    }

    method MakeExpiringCryptor(generation: nat, now: nat) returns (c: ExpiringCryptor)
      requires keyRatchet.Valid() && keyRatchet.kdf == env.kdf && generation < MAX_GENERATION
      modifies keyRatchet
      ensures keyRatchet.Valid() && keyRatchet.Value() == AfterGet(env.kdf, old(keyRatchet.Value()), generation)
      ensures c == MadeCryptor(env, old(Value()), generation, now)
    {
      var key := GetKey(generation);
      var expiryTime := MAX_TIME;
      if generation < newestGeneration {
        expiryTime := now + EXPIRY;
      }
      c := ExpiringCryptor(CreateCryptor(env.aead, key), expiryTime);
    }

    /** A cryptor handed out belongs to the plain derivation at its generation. */
    method GetCryptor(generation: nat, now: nat) returns (cryptor: Option<Bytes>)
      requires Valid(now)
      modifies this, keyRatchet
      ensures Valid(now) && (Value(), cryptor) == Got(env, old(Value()), generation, now)
      ensures var c, key := Cleaned(old(Value()), now), KeysAt(env.kdf, keyRatchet.base, generation).key;
        cryptor == if MayBeUsed(c.oldest, c.newest, ratchetCreation, generation, now) && env.aead.valid(key) then Some(key) else None
      ensures cryptor.Some? ==> generation <= LifetimeGenerations(ratchetCreation, now)
    {
      hide LifetimeGenerations, KeysAt, Cleaned, Sound, Follows, AfterGet, MadeCryptor, MayBeUsed;
      GotSound(env, keyRatchet.base, Value(), generation, now);
      CleanedSound(env, keyRatchet.base, Value(), now);
      InReachIs(Cleaned(Value(), now), generation, now) by { hide *; CreatedBefore(env, keyRatchet.base, Value(), now); }
      CleanupExpiredCryptors(now);
      if generation < oldestGeneration { return None; }
      if generation > newestGeneration + MAX_GAP { return None; }
      if generation > LifetimeGenerations(ratchetCreation, now) { return None; }
      if generation !in cryptors {
        var made := MakeExpiringCryptor(generation, now);
        cryptors := cryptors[generation := made];
      }
      cryptor := cryptors[generation].cryptor;
    }

    method NoteNonce(bigNonce: nat)
      modifies this`newestProcessedNonce, this`missingNonces
      ensures Window(newestProcessedNonce, missingNonces) == Report(old(Window(newestProcessedNonce, missingNonces)), bigNonce)
    {
      if newestProcessedNonce.None? {
        newestProcessedNonce := Some(bigNonce);
      } else if bigNonce > newestProcessedNonce.value {
        var missing := Min(bigNonce - newestProcessedNonce.value - 1, MAX_MISSING);
        var popped := 0;
        while missingNonces != [] && |missingNonces| + missing > MAX_MISSING
          invariant popped <= Dropped(|old(missingNonces)|, missing)
          invariant missingNonces == old(missingNonces)[popped..]
          decreases |missingNonces|
        {
          missingNonces := missingNonces[1..];
          popped := popped + 1;
        }
        var kept := missingNonces;
        var i := bigNonce - missing;
        while i < bigNonce
          invariant bigNonce - missing <= i <= bigNonce
          invariant missingNonces == kept + CountUp(bigNonce - missing, i - (bigNonce - missing))
        {
          missingNonces := missingNonces + [i];
          i := i + 1;
        }
        newestProcessedNonce := Some(bigNonce);
      } else {
        ForgetMissing(bigNonce);
      }
    }

    /** `find` and `erase` on the missing nonces. */
    method ForgetMissing(bigNonce: nat)
      modifies this`missingNonces
      ensures missingNonces == Without(old(missingNonces), bigNonce)
    {
      var i := 0;
      while i < |missingNonces| && missingNonces[i] != bigNonce
        invariant 0 <= i <= |missingNonces| && bigNonce !in missingNonces[..i]
        invariant missingNonces == old(missingNonces)
      {
        i := i + 1;
      }
      WithoutFirst(missingNonces, bigNonce, i);
      if i < |missingNonces| {
        missingNonces := missingNonces[..i] + missingNonces[i + 1..];
      }
    }

    method ReportCryptorSuccess(generation: nat, nonce: nat, now: nat)
      requires Valid(now) && generation <= LifetimeGenerations(ratchetCreation, now)
      modifies this
      ensures Valid(now) && Value() == Reported(old(Value()), generation, nonce, now)
    {
      hide LifetimeGenerations, KeysAt, CreateCryptor, Sound, Follows, Report, ComputeWrappedBigNonce;
      ReportedSound(env, keyRatchet.base, Value(), generation, nonce, now);
      NoteNonce(ComputeWrappedBigNonce(generation, nonce));
      if generation <= newestGeneration || generation !in cryptors {
        return;
      }
      newestGeneration := generation;
      var expiryTime := now + EXPIRY;
      var pending := cryptors.Keys;
      while pending != {}
        invariant pending <= cryptors.Keys == old(cryptors).Keys
        invariant newestGeneration == generation && oldestGeneration == old(oldestGeneration)
        invariant Window(newestProcessedNonce, missingNonces) == Reported(old(Value()), generation, nonce, now).window
        invariant forall g <- pending :: cryptors[g] == old(cryptors)[g]
        invariant forall g <- cryptors :: g !in pending ==> cryptors[g] == Aged(old(cryptors), generation, now)[g]
      {
        var g :| g in pending;
        pending := pending - {g};
        if g < newestGeneration {
          cryptors := cryptors[g := cryptors[g].(expiry := Min(cryptors[g].expiry, expiryTime))];
        }
      }
      assert cryptors == Aged(old(cryptors), generation, now);
    }
  }

  method DecryptImpl(m: CryptorManager, f: Frame, now: nat) returns (outcome: Outcome)
    requires m.Valid(now)
    modifies m, m.keyRatchet
    ensures m.Valid(now)
    ensures (m.Value(), outcome) == Decrypted(m.env, old(m.Value()), f, now)
  {
    hide LifetimeGenerations, KeysAt, CreateCryptor, Cleaned, Sound, Follows, WithCryptor, Reported, CanProcess;
    hide ComputeWrappedBigNonce, ComputeWrappedGeneration, Report;
    var generation := ComputeWrappedGeneration(m.oldestGeneration, TopByte(f.truncatedNonce));
    var can := m.CanProcessNonce(generation, f.truncatedNonce);
    if !can { return InvalidNonce; }
    GotSound(m.env, m.keyRatchet.base, m.Value(), generation, now);
    var cryptor := m.GetCryptor(generation, now);
    if cryptor.None? { return MissingCryptor; }
    var opened' := OpenFrame(m.env.aead, cryptor.value, f.truncatedNonce, f.aad, f.ciphertext, f.tag);
    if opened'.None? { return DecryptionFailure; }
    m.ReportCryptorSuccess(generation, f.truncatedNonce, now);
    outcome := Success(opened'.value);
  }

  /** What trying the managers from the newest (the last) down to index `k` comes to. */
  ghost predicate TriedDownTo(env: Env, before: seq<Manager>, after: seq<Manager>, f: Frame, now: nat, k: nat)
    requires |before| == |after|
  {
    && (forall i :: k <= i < |before| ==> after[i] == Decrypted(env, before[i], f, now).0)
    && (forall i :: 0 <= i < k && i < |before| ==> after[i] == before[i])
  }

  class Decryptor {
    const env: Env
    var cryptorManagers: seq<CryptorManager>

    ghost function Parts(): set<object>
      reads this
    {
      (set m: CryptorManager | m in cryptorManagers :: m as object)
      + (set m: CryptorManager | m in cryptorManagers :: m.keyRatchet as object)
    }

    ghost predicate Valid(now: nat)
      reads this, Parts()
    {
      && (forall i :: 0 <= i < |cryptorManagers| ==> cryptorManagers[i].Valid(now) && cryptorManagers[i].env == env)
      && (forall i, j :: 0 <= i < j < |cryptorManagers| ==>
            cryptorManagers[i] != cryptorManagers[j] && cryptorManagers[i].keyRatchet != cryptorManagers[j].keyRatchet)
    }

    ghost function Values(): seq<Manager>
      reads this, Parts()
    {
      seq(|cryptorManagers|, i requires 0 <= i < |cryptorManagers| reads this, Parts() =>
        assert cryptorManagers[i] in cryptorManagers; cryptorManagers[i].Value())
    }

    constructor (env: Env)
      ensures forall now :: Valid(now)
      ensures cryptorManagers == [] && this.env == env
    {
      this.env := env;
      cryptorManagers := [];
    }

    /** The loop of `Decrypt`: managers from the newest to the oldest until one decrypts.  `k` is the last
        one tried; those before it are not touched, and without any manager the key is missing. */
    method TryManagers(f: Frame, now: nat) returns (outcome: Option<Outcome>, k: nat)
      requires Valid(now)
      modifies Parts()
      ensures Valid(now)
      ensures outcome == None <==> |cryptorManagers| == 0
      ensures k <= |cryptorManagers| && TriedDownTo(env, old(Values()), Values(), f, now, k)
      ensures outcome.Some? ==> k < |cryptorManagers| && outcome.value == Decrypted(env, old(Values())[k], f, now).1
      ensures forall i :: k < i < |cryptorManagers| ==> !Decrypted(env, old(Values())[i], f, now).1.Success?
      ensures outcome.Some? && !outcome.value.Success? ==> k == 0
    {
      hide Decrypted, CryptorManager.Valid, CryptorManager.Value;
      ghost var before := Values();
      outcome := None;
      k := |cryptorManagers|;
      while k > 0
        invariant 0 <= k <= |cryptorManagers| && Valid(now)
        invariant TriedDownTo(env, before, Values(), f, now, k)
        invariant forall i :: k <= i < |cryptorManagers| ==> !Decrypted(env, before[i], f, now).1.Success?
        invariant outcome == None <==> k == |cryptorManagers|
        invariant outcome.Some? ==> k < |cryptorManagers| && outcome.value == Decrypted(env, before[k], f, now).1
        invariant outcome.Some? ==> !outcome.value.Success?
      {
        k := k - 1;
        ghost var start := Values();
        var manager := cryptorManagers[k];
        assert start[k] == before[k];
        var result := DecryptImpl(manager, f, now);
        outcome := Some(result);
        assert forall i :: 0 <= i < |cryptorManagers| && i != k ==> Values()[i] == start[i];
        assert Values()[k] == Decrypted(env, before[k], f, now).0;
        if result.Success? {
          return;
        }
      }
    }

    /** `CleanupExpiredCryptorManagers`: expired managers go from the front, the oldest first. */
    method CleanupExpiredCryptorManagers(now: nat) returns (ghost n: nat)
      requires Valid(now)
      modifies this`cryptorManagers
      ensures Valid(now)
      ensures n <= |old(cryptorManagers)| && cryptorManagers == old(cryptorManagers)[n..]
      ensures forall i :: 0 <= i < n ==> old(cryptorManagers)[i].IsExpired(now)
      ensures cryptorManagers != [] ==> !cryptorManagers[0].IsExpired(now)
    {
      n := 0;
      while cryptorManagers != [] && cryptorManagers[0].IsExpired(now)
        invariant 0 <= n <= |old(cryptorManagers)| && cryptorManagers == old(cryptorManagers)[n..]
        invariant forall i :: 0 <= i < n ==> old(cryptorManagers)[i].IsExpired(now)
        decreases |cryptorManagers|
      {
        cryptorManagers := cryptorManagers[1..];
        n := n + 1;
      }
    }

    /** `UpdateCryptorManagerExpiry`: all managers get the same expiry. */
    method UpdateCryptorManagerExpiry(maxExpiry: nat, now: nat)
      requires Valid(now)
      modifies (set m | m in cryptorManagers)`ratchetExpiry
      ensures Valid(now) && Values() == old(Values())
      ensures forall m <- cryptorManagers :: m.ratchetExpiry == maxExpiry
    {
      hide Sound;
      ghost var before := Values();
      for i := 0 to |cryptorManagers|
        invariant Valid(now) && Values() == before
        invariant forall j :: 0 <= j < i ==> cryptorManagers[j].ratchetExpiry == maxExpiry
      {
        cryptorManagers[i].UpdateExpiry(maxExpiry);
      }
    }

    /** `TransitionToKeyRatchet`: the managers so far get an expiry; a new ratchet, if there is one, becomes the
        newest. */
    method TransitionToKeyRatchet(keyRatchet: HashRatchet?, transitionExpiry: nat, now: nat)
      requires Valid(now)
      requires keyRatchet != null ==>
        && now < MAX_TIME - EXPIRY && keyRatchet !in Parts()
        && keyRatchet.Valid() && keyRatchet.kdf == env.kdf
        && keyRatchet.Value() == FreshManager(keyRatchet.base, now).ratchet
      modifies this`cryptorManagers, (set m | m in cryptorManagers)`ratchetExpiry
      ensures Valid(now)
      ensures forall m <- old(cryptorManagers) :: m.ratchetExpiry == now + transitionExpiry
      ensures keyRatchet == null ==> cryptorManagers == old(cryptorManagers) && Values() == old(Values())
      ensures keyRatchet != null ==>
        && |cryptorManagers| == |old(cryptorManagers)| + 1
        && cryptorManagers[..|old(cryptorManagers)|] == old(cryptorManagers)
        && Values() == old(Values()) + [FreshManager(keyRatchet.base, now)]
    {
      hide Sound;
      UpdateCryptorManagerExpiry(now + transitionExpiry, now);
      if keyRatchet != null {
        var manager := new CryptorManager(env, keyRatchet, now);
        cryptorManagers := cryptorManagers + [manager];
      }
    }
  }

  /** The sender's side: one ratchet, one 32-bit counter. */
  class NonceCounter {
    const env: Env
    const keyRatchet: HashRatchet
    var truncatedNonce: nat
    var currentKeyGeneration: nat
    var cryptor: Option<Bytes>
    /** How often a nonce was taken since the ratchet was set. */
    ghost var calls: nat

    ghost predicate Valid()
      reads this, keyRatchet
    {
      && keyRatchet.Valid() && keyRatchet.kdf == env.kdf
      && truncatedNonce == calls % WORD
      && currentKeyGeneration == calls / PER_GENERATION < MAX_GENERATION
      && (forall g :: g in keyRatchet.cache <==> 0 <= g < keyRatchet.nextGeneration)
      && (cryptor.Some? ==> cryptor == CreateCryptor(env.aead, KeysAt(env.kdf, keyRatchet.base, currentKeyGeneration).key))
    }

    /** `SetKeyRatchet` */
    constructor (env: Env, keyRatchet: HashRatchet)
      requires keyRatchet.Valid() && keyRatchet.kdf == env.kdf
      requires keyRatchet.nextGeneration == 0 && keyRatchet.cache == map[]
      ensures Valid() && calls == 0 && this.env == env && this.keyRatchet == keyRatchet
    {
      this.env, this.keyRatchet := env, keyRatchet;
      truncatedNonce, currentKeyGeneration, cryptor, calls := 0, 0, None, 0;
    }

    /** The `k`-th call yields the nonce `k mod 2^32` and the key of generation `k / 2^24`, although
        both the nonce and the truncated generation wrap. */
    method GetNextCryptorAndNonce() returns (c: Option<Bytes>, nonce: nat)
      requires Valid() && (calls + 1) / PER_GENERATION < MAX_GENERATION
      modifies this, keyRatchet
      ensures Valid() && calls == old(calls) + 1
      ensures nonce == calls % WORD
      ensures c == CreateCryptor(env.aead, KeysAt(env.kdf, keyRatchet.base, calls / PER_GENERATION).key)
    {
      hide KeysAt, CreateCryptor, Follows, HashRatchet.Valid;
      calls := calls + 1;
      truncatedNonce := (truncatedNonce + 1) % WORD;
      NextCount(old(calls));
      var generation := ComputeWrappedGeneration(currentKeyGeneration, TopByte(truncatedNonce));
      hide ComputeWrappedGeneration, TopByte;
      if generation != currentKeyGeneration || cryptor.None? {
        currentKeyGeneration := generation;
        var key := KeyOf(generation);
        cryptor := CreateCryptor(env.aead, key);
      }
      return cryptor, truncatedNonce;
    }

    /** No key of the sender's own ratchet is ever deleted. */
    method KeyOf(generation: nat) returns (key: Bytes)
      requires keyRatchet.Valid() && keyRatchet.kdf == env.kdf && generation < MAX_GENERATION
      requires forall g :: g in keyRatchet.cache <==> 0 <= g < keyRatchet.nextGeneration
      modifies keyRatchet
      ensures keyRatchet.Valid() && key == KeysAt(env.kdf, keyRatchet.base, generation).key
      ensures forall g :: g in keyRatchet.cache <==> 0 <= g < keyRatchet.nextGeneration
    {
      hide KeysAt, Follows;
      ghost var before := keyRatchet.Value();
      if generation !in before.cache { AdvancePastFacts(env.kdf, keyRatchet.base, before, generation); }
      var r := keyRatchet.Get(generation);
      key := r.value.key;
    }
  }

  /** One more call moves the generation by at most one, so its top byte recovers it. */
  lemma NextCount(calls: nat)
    requires (calls + 1) / PER_GENERATION < MAX_GENERATION
    ensures (calls % WORD + 1) % WORD == (calls + 1) % WORD
    ensures ComputeWrappedGeneration(calls / PER_GENERATION, TopByte((calls + 1) % WORD)) == (calls + 1) / PER_GENERATION
  {
    hide ComputeWrappedGeneration;
    NextWord(calls);
    TruncatedParts(calls + 1);
    NextGeneration(calls);
    WrappedGenerationExact(calls / PER_GENERATION, (calls + 1) / PER_GENERATION);
  }

  lemma NextWord(calls: nat)
    ensures (calls % WORD + 1) % WORD == (calls + 1) % WORD
  {}

  lemma NextGeneration(calls: nat)
    ensures calls / PER_GENERATION <= (calls + 1) / PER_GENERATION <= calls / PER_GENERATION + 1
  {}
}
