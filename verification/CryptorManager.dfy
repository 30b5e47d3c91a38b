/** The receiver's key management (`cryptor_manager.cpp`) and its use by `DecryptImpl`
    (`decryptor.cpp`): wrapped generations, expiring cryptors, deletion of old keys.  The clock is a
    number of nanoseconds passed to each step; `MAX_TIME` is the source's "never". */
module CryptorManagers {
  import opened Wrappers
  import opened Crypto
  import opened Bits
  import opened Generations
  import opened ReplayWindow
  import opened HashRatchets

  const SECOND := 1_000_000_000
  const EXPIRY := 10 * SECOND           // kCryptorExpiry
  const MAX_TIME := 0x7FFF_FFFF_FFFF_FFFF
  const MAX_GAP := 250                  // kMaxGenerationGap
  const MAX_FRAMES_PER_SECOND := 170    // kMaxFramesPerSecond

  /** Authenticated encryption as arbitrary functions of key, nonce, associated data and text. */
  datatype Aead = Aead(
    valid: Bytes -> bool,
    seal: (Bytes, nat, Bytes, Bytes) -> (Bytes, Bytes),
    open: (Bytes, nat, Bytes, Bytes, Bytes) -> Option<Bytes>)

  datatype Env = Env(kdf: RatchetKdf, aead: Aead)

  /** `CreateCryptor`: no cryptor for a key it refuses. */
  function CreateCryptor(a: Aead, key: Bytes): Option<Bytes> { if a.valid(key) then Some(key) else None }

  function SealFrame(a: Aead, key: Bytes, nonce: nat, aad: Bytes, text: Bytes): (Bytes, Bytes) {
    a.seal(key, nonce, aad, text)
  }

  function OpenFrame(a: Aead, key: Bytes, nonce: nat, aad: Bytes, ciphertext: Bytes, tag: Bytes): Option<Bytes> {
    a.open(key, nonce, aad, ciphertext, tag)
  }

  ghost predicate OpenUndoesSeal(a: Aead) {
    forall key, nonce, aad, text :: a.valid(key) ==>
      var (ciphertext, tag) := a.seal(key, nonce, aad, text);
      a.open(key, nonce, aad, ciphertext, tag) == Some(text)
  }

  /** Counter mode with a truncated tag: the text keeps its length. */
  ghost predicate SealSizes(a: Aead) {
    forall key, nonce, aad, text ::
      var (ciphertext, tag) := a.seal(key, nonce, aad, text);
      |ciphertext| == |text| && |tag| == 8
  }

  datatype ExpiringCryptor = ExpiringCryptor(cryptor: Option<Bytes>, expiry: nat)

  datatype Manager = Manager(
    ratchet: Ratchet,
    cryptors: map<nat, ExpiringCryptor>,
    created: nat,
    oldest: nat,
    newest: nat,
    window: Window)

  datatype Frame = Frame(truncatedNonce: nat, aad: Bytes, ciphertext: Bytes, tag: Bytes)

  datatype Outcome = InvalidNonce | MissingCryptor | DecryptionFailure | Success(plaintext: Bytes)

  function FreshManager(base: Bytes, created: nat): Manager {
    Manager(Ratchet(base, 0, map[]), map[], created, 0, 0, EMPTY)
  }

  function Unexpired(cryptors: map<nat, ExpiringCryptor>, now: nat): map<nat, ExpiringCryptor> {
    map g | g in cryptors && cryptors[g].expiry >= now :: cryptors[g]
  }

  /** Keys of the oldest generations go as long as they have no cryptor and a newer one is in use. */
  function DropOld(m: Manager): Manager
    decreases m.newest - m.oldest
  {
    if m.oldest < m.newest && m.oldest !in m.cryptors then
      DropOld(m.(ratchet := Erased(m.ratchet, m.oldest), oldest := m.oldest + 1))
    else m
  }

  function Cleaned(m: Manager, now: nat): Manager { DropOld(m.(cryptors := Unexpired(m.cryptors, now))) }

  /** How many generations a sender can have used up since the ratchet was created. */
  function LifetimeGenerations(created: nat, now: nat): nat {
    if now < created then 0 else Shr(MAX_FRAMES_PER_SECOND * ((now - created) / SECOND), SHIFT)
  }

  predicate InReach(m: Manager, generation: nat, now: nat) {
    m.oldest <= generation <= m.newest + MAX_GAP && generation <= LifetimeGenerations(m.created, now)
  }

  /** A generation may be used if its keys are still there, if it is at most 250 ahead of the newest one, and if a
      sender of 170 frames a second could have come to it since the ratchet was made, at 2^24 frames a generation. */
  predicate MayBeUsed(oldest: nat, newest: nat, created: nat, generation: nat, now: nat) {
    oldest <= generation <= newest + 250 && created <= now && generation * 0x100_0000 <= 170 * ((now - created) / 1_000_000_000)
  }

  function KeyFor(r: Ratchet, generation: nat): Bytes {
    if generation in r.cache then r.cache[generation].key else []
  }

  function MadeCryptor(env: Env, m: Manager, generation: nat, now: nat): ExpiringCryptor {
    ExpiringCryptor(
      CreateCryptor(env.aead, KeyFor(AfterGet(env.kdf, m.ratchet, generation), generation)),
      if generation < m.newest then now + EXPIRY else MAX_TIME)
  }

  function WithCryptor(env: Env, m: Manager, generation: nat, now: nat): Manager {
    if generation in m.cryptors then m
    else m.(ratchet := AfterGet(env.kdf, m.ratchet, generation),
            cryptors := m.cryptors[generation := MadeCryptor(env, m, generation, now)])
  }

  /** `GetCryptor` */
  function Got(env: Env, m: Manager, generation: nat, now: nat): (Manager, Option<Bytes>) {
    var c := Cleaned(m, now);
    if !InReach(c, generation, now) then (c, None)
    else
      var w := WithCryptor(env, c, generation, now);
      (w, w.cryptors[generation].cryptor)
  }

  function Aged(cryptors: map<nat, ExpiringCryptor>, newest: nat, now: nat): map<nat, ExpiringCryptor> {
    map g | g in cryptors ::
      if g < newest then cryptors[g].(expiry := Min(cryptors[g].expiry, now + EXPIRY)) else cryptors[g]
  }

  /** `ReportCryptorSuccess` */
  function Reported(m: Manager, generation: nat, truncatedNonce: nat, now: nat): Manager {
    var w := m.(window := Report(m.window, ComputeWrappedBigNonce(generation, truncatedNonce)));
    if generation <= m.newest || generation !in m.cryptors then w
    else w.(newest := generation, cryptors := Aged(m.cryptors, generation, now))
  }

  function GenerationOf(m: Manager, f: Frame): nat {
    ComputeWrappedGeneration(m.oldest, TopByte(f.truncatedNonce))
  }

  function NonceOf(m: Manager, f: Frame): nat { ComputeWrappedBigNonce(GenerationOf(m, f), f.truncatedNonce) }

  /** `DecryptImpl` */
  function Decrypted(env: Env, m: Manager, f: Frame, now: nat): (Manager, Outcome) {
    var generation := GenerationOf(m, f);
    if !CanProcess(m.window, NonceOf(m, f)) then (m, InvalidNonce)
    else
      var (g, cryptor) := Got(env, m, generation, now);
      if cryptor.None? then (g, MissingCryptor)
      else
        match OpenFrame(env.aead, cryptor.value, f.truncatedNonce, f.aad, f.ciphertext, f.tag)
        case None => (g, DecryptionFailure)
        case Some(plaintext) => (Reported(g, generation, f.truncatedNonce, now), Success(plaintext))
  }

  // --------------------------------------------------------------------------
  // Key retirement
  // --------------------------------------------------------------------------

  /** What holds between steps: the ratchet still stores exactly the generations from the oldest one
      up to its next one, every cryptor is made of the derived key of its generation, and exactly the
      cryptors older than the newest generation will expire. */
  ghost predicate Sound(env: Env, base: Bytes, m: Manager, now: nat) {
    && m.created <= now < MAX_TIME - EXPIRY
    && Follows(env.kdf, base, m.ratchet)
    && m.oldest <= m.newest <= LifetimeGenerations(m.created, now)
    && m.ratchet.nextGeneration <= LifetimeGenerations(m.created, now) + 1
    && (forall g: nat :: g in m.ratchet.cache <==> m.oldest <= g < m.ratchet.nextGeneration)
    && (m.newest > 0 ==> m.newest in m.cryptors)
    && (forall g <- m.cryptors :: m.oldest <= g < m.ratchet.nextGeneration)
    && (forall g <- m.cryptors :: m.cryptors[g].cryptor == CreateCryptor(env.aead, KeysAt(env.kdf, base, g).key))
    && (forall g <- m.cryptors :: if g < m.newest then m.cryptors[g].expiry <= now + EXPIRY else m.cryptors[g].expiry == MAX_TIME)
  }

  lemma LifetimeIs(created: nat, now: nat, generation: nat)
    requires created <= now
    ensures generation <= LifetimeGenerations(created, now) <==>
      generation * 0x100_0000 <= 170 * ((now - created) / 1_000_000_000)
  {
    ShiftIsPower();
    var frames := 170 * ((now - created) / 1_000_000_000);
    ShrIsQuotient(frames, SHIFT);
    QuotientIs(frames, generation);
  }

  lemma QuotientIs(frames: nat, generation: nat)
    ensures generation <= frames / 0x100_0000 <==> generation * 0x100_0000 <= frames
  {}

  lemma InReachIs(m: Manager, generation: nat, now: nat)
    requires m.created <= now
    ensures InReach(m, generation, now) <==> MayBeUsed(m.oldest, m.newest, m.created, generation, now)
  {
    LifetimeIs(m.created, now, generation);
    hide LifetimeGenerations;
  }

  lemma CreatedBefore(env: Env, base: Bytes, m: Manager, now: nat)
    requires Sound(env, base, m, now)
    ensures m.created <= now
  {}

  lemma LifetimeGrows(created: nat, now: nat, later: nat)
    requires now <= later
    ensures LifetimeGenerations(created, now) <= LifetimeGenerations(created, later)
    ensures now < MAX_TIME ==> LifetimeGenerations(created, now) < 100_000
  {
    if created <= now {
      ShiftIsPower();
      var a, b := (now - created) / SECOND, (later - created) / SECOND;
      ShrIsQuotient(MAX_FRAMES_PER_SECOND * a, SHIFT);
      ShrIsQuotient(MAX_FRAMES_PER_SECOND * b, SHIFT);
      assert a <= b;
    }
  }

  lemma SoundLater(env: Env, base: Bytes, m: Manager, now: nat, later: nat)
    requires Sound(env, base, m, now) && now <= later < MAX_TIME - EXPIRY
    ensures Sound(env, base, m, later)
  {
    LifetimeGrows(m.created, now, later);
    hide LifetimeGenerations, Follows, KeysAt, CreateCryptor;
  }

  lemma {:induction false} DropOldSound(env: Env, base: Bytes, m: Manager, now: nat)
    requires Sound(env, base, m, now)
    ensures var d := DropOld(m);
      && Sound(env, base, d, now)
      && d.created == m.created && d.newest == m.newest && d.window == m.window && d.cryptors == m.cryptors
      && d.ratchet.nextGeneration == m.ratchet.nextGeneration
      && m.oldest <= d.oldest && (d.oldest == d.newest || d.oldest in d.cryptors)
      && (forall g :: m.oldest <= g < d.oldest ==> g !in m.cryptors)
    decreases m.newest - m.oldest
  {
    hide LifetimeGenerations, KeysAt, CreateCryptor;
    if m.oldest < m.newest && m.oldest !in m.cryptors {
      DropOldSound(env, base, m.(ratchet := Erased(m.ratchet, m.oldest), oldest := m.oldest + 1), now);
    }
  }

  /** Cleaning up leaves no expired cryptor, and the oldest generation is in use or the newest. */
  lemma CleanedSound(env: Env, base: Bytes, m: Manager, now: nat)
    requires Sound(env, base, m, now)
    ensures var c := Cleaned(m, now);
      && Sound(env, base, c, now)
      && c.created == m.created && c.newest == m.newest && c.window == m.window
      && c.cryptors == Unexpired(m.cryptors, now)
      && (forall g :: g in c.cryptors <==> g in m.cryptors && m.cryptors[g].expiry >= now)
      && (forall g <- c.cryptors :: c.cryptors[g] == m.cryptors[g])
      && m.oldest <= c.oldest && (c.oldest == c.newest || c.oldest in c.cryptors)
  {
    hide LifetimeGenerations, KeysAt, CreateCryptor, DropOld, Follows;
    DropOldSound(env, base, m.(cryptors := Unexpired(m.cryptors, now)), now);
  }

  /** A cryptor is made of the plain derivation at its generation, and its key is never asked for
      after the generation was dropped: the request to the ratchet cannot fail. */
  lemma WithCryptorSound(env: Env, base: Bytes, m: Manager, generation: nat, now: nat)
    requires Sound(env, base, m, now) && InReach(m, generation, now)
    ensures generation < MAX_GENERATION
    ensures generation in m.ratchet.cache || m.ratchet.nextGeneration <= generation
    ensures var w := WithCryptor(env, m, generation, now);
      && Sound(env, base, w, now)
      && generation in w.cryptors
      && w.cryptors[generation].cryptor == CreateCryptor(env.aead, KeysAt(env.kdf, base, generation).key)
  {
    LifetimeGrows(m.created, now, now);
    hide LifetimeGenerations, KeysAt, CreateCryptor, AdvancePast;
    if generation !in m.cryptors {
      if generation !in m.ratchet.cache { AdvancePastFacts(env.kdf, base, m.ratchet, generation); }
      var r := AfterGet(env.kdf, m.ratchet, generation);
      assert generation in r.cache && r.cache[generation] == KeysAt(env.kdf, base, generation);
      hide Follows;
    }
  }

  lemma GotSound(env: Env, base: Bytes, m: Manager, generation: nat, now: nat)
    requires Sound(env, base, m, now)
    ensures var (g, cryptor) := Got(env, m, generation, now);
      var c := Cleaned(m, now);
      && Sound(env, base, g, now)
      && g.window == m.window && g.newest == m.newest && g.created == m.created && m.oldest <= g.oldest == c.oldest
      && (if InReach(c, generation, now) then cryptor == CreateCryptor(env.aead, KeysAt(env.kdf, base, generation).key)
          else cryptor == None)
      && (InReach(c, generation, now) ==> generation < MAX_GENERATION)
  {
    hide LifetimeGenerations, KeysAt, CreateCryptor, DropOld, Cleaned, AfterGet, Sound, Follows, InReach, MadeCryptor;
    CleanedSound(env, base, m, now);
    var c := Cleaned(m, now);
    if InReach(c, generation, now) { WithCryptorSound(env, base, c, generation, now); }
  }

  lemma ReportedSound(env: Env, base: Bytes, m: Manager, generation: nat, truncatedNonce: nat, now: nat)
    requires Sound(env, base, m, now) && generation <= LifetimeGenerations(m.created, now)
    ensures Sound(env, base, Reported(m, generation, truncatedNonce, now), now)
  {
    hide LifetimeGenerations, KeysAt, CreateCryptor, Report, ComputeWrappedBigNonce, Follows;
  }

  /** Every step keeps the invariant, whatever the frame. */
  lemma DecryptedSound(env: Env, base: Bytes, m: Manager, f: Frame, now: nat)
    requires Sound(env, base, m, now)
    ensures var d := Decrypted(env, m, f, now).0;
      Sound(env, base, d, now) && d.created == m.created && m.oldest <= d.oldest && m.newest <= d.newest
  {
    hide LifetimeGenerations, KeysAt, CreateCryptor, DropOld, Cleaned, AdvancePast, Sound, Report;
    hide ComputeWrappedBigNonce, ComputeWrappedGeneration, Follows;
    var generation := GenerationOf(m, f);
    GotSound(env, base, m, generation, now);
    CleanedSound(env, base, m, now);
    if Got(env, m, generation, now).1.Some? {
      ReportedSound(env, base, Got(env, m, generation, now).0, generation, f.truncatedNonce, now);
    }
  }

  // --------------------------------------------------------------------------
  // Runs
  // --------------------------------------------------------------------------

  datatype Arrival = Arrival(frame: Frame, now: nat)

  /** Arrivals in the order of the clock. */
  ghost predicate Timed(arrivals: seq<Arrival>, created: nat) {
    && (forall i :: 0 <= i < |arrivals| ==> created <= arrivals[i].now < MAX_TIME - EXPIRY)
    && (forall i, j :: 0 <= i < j < |arrivals| ==> arrivals[i].now <= arrivals[j].now)
  }

  /** The manager after a run, and the expanded nonces of the frames it decrypted. */
  ghost function RunManager(env: Env, base: Bytes, created: nat, arrivals: seq<Arrival>): (Manager, seq<nat>) {
    if arrivals == [] then (FreshManager(base, created), [])
    else
      var (m, accepted) := RunManager(env, base, created, arrivals[..|arrivals| - 1]);
      var a := arrivals[|arrivals| - 1];
      var (d, outcome) := Decrypted(env, m, a.frame, a.now);
      (d, if outcome.Success? then accepted + [NonceOf(m, a.frame)] else accepted)
  }

  /** The same run as the replay window sees it. */
  ghost function Attempts(env: Env, base: Bytes, created: nat, arrivals: seq<Arrival>): seq<Attempt> {
    if arrivals == [] then []
    else
      var before := arrivals[..|arrivals| - 1];
      var m := RunManager(env, base, created, before).0;
      var a := arrivals[|arrivals| - 1];
      Attempts(env, base, created, before) +
      [Attempt(NonceOf(m, a.frame), Decrypted(env, m, a.frame, a.now).1.Success?)]
  }

  lemma {:induction false} RunIsSound(env: Env, base: Bytes, created: nat, arrivals: seq<Arrival>, now: nat)
    requires Timed(arrivals, created) && created <= now < MAX_TIME - EXPIRY
    requires arrivals != [] ==> arrivals[|arrivals| - 1].now <= now
    ensures var m := RunManager(env, base, created, arrivals).0;
      Sound(env, base, m, now) && m.created == created
  {
    hide Decrypted, NonceOf, LifetimeGenerations;
    if arrivals == [] {
    } else {
      hide Sound;
      var before := arrivals[..|arrivals| - 1];
      var a := arrivals[|arrivals| - 1];
      RunIsSound(env, base, created, before, a.now);
      DecryptedSound(env, base, RunManager(env, base, created, before).0, a.frame, a.now);
      SoundLater(env, base, RunManager(env, base, created, arrivals).0, a.now, now);
    }
  }

  lemma {:induction false} RunFollowsWindow(env: Env, base: Bytes, created: nat, arrivals: seq<Arrival>)
    requires Timed(arrivals, created)
    ensures var (m, accepted) := RunManager(env, base, created, arrivals);
      Run(Attempts(env, base, created, arrivals)) == (m.window, accepted)
  {
    if arrivals != [] {
      var before := arrivals[..|arrivals| - 1];
      var a := arrivals[|arrivals| - 1];
      RunFollowsWindow(env, base, created, before);
      RunIsSound(env, base, created, before, a.now);
      var m := RunManager(env, base, created, before).0;
      GotSound(env, base, m, GenerationOf(m, a.frame), a.now);
      hide NonceOf, GenerationOf, Got, Sound, CanProcess, Report, Run;
      var last := Attempt(NonceOf(m, a.frame), Decrypted(env, m, a.frame, a.now).1.Success?);
      StepFollowsWindow(env, m, a.frame, a.now);
      RunStep(Attempts(env, base, created, before), last);
    }
  }

  lemma StepFollowsWindow(env: Env, m: Manager, f: Frame, now: nat)
    requires Got(env, m, GenerationOf(m, f), now).0.window == m.window
    ensures var (d, outcome) := Decrypted(env, m, f, now);
      && (outcome.Success? ==> CanProcess(m.window, NonceOf(m, f)))
      && d.window == if outcome.Success? then Report(m.window, NonceOf(m, f)) else m.window
  {
    hide Got, Report, CanProcess;
  }

  /** Over every run of `DecryptImpl` the window keeps its promise: no expanded nonce is accepted
      twice, and within reach every nonce above the first that was not accepted can be processed. */
  lemma ReplayWindowHolds(env: Env, base: Bytes, created: nat, arrivals: seq<Arrival>)
    requires Timed(arrivals, created)
    ensures TwoSided(RunManager(env, base, created, arrivals).0.window, RunManager(env, base, created, arrivals).1)
  {
    RunFollowsWindow(env, base, created, arrivals);
    WindowIsTwoSided(Attempts(env, base, created, arrivals));
    hide RunManager, Attempts, Run, TwoSided;
  }

  /** Over every run: the ratchet stores exactly the generations from the oldest up to its next one,
      cryptors are made of the derived keys, exactly those before the newest generation expire, and
      no 32-bit generation arithmetic wraps. */
  lemma KeysRetire(env: Env, base: Bytes, created: nat, arrivals: seq<Arrival>, now: nat)
    requires Timed(arrivals, created) && created <= now < MAX_TIME - EXPIRY
    requires arrivals != [] ==> arrivals[|arrivals| - 1].now <= now
    ensures var m := RunManager(env, base, created, arrivals).0;
      && (forall g: nat :: g in m.ratchet.cache <==> m.oldest <= g < m.ratchet.nextGeneration)
      && (forall g <- m.ratchet.cache :: m.ratchet.cache[g] == KeysAt(env.kdf, base, g))
      && (forall g <- m.cryptors :: m.oldest <= g && m.cryptors[g].cryptor == CreateCryptor(env.aead, KeysAt(env.kdf, base, g).key))
      && (forall g <- m.cryptors :: g < m.newest <==> m.cryptors[g].expiry < MAX_TIME)
      && m.oldest + WRAP <= WORD && m.newest + MAX_GAP < WORD
  {
    RunIsSound(env, base, created, arrivals, now);
    LifetimeGrows(created, now, now);
    hide RunManager, Timed, LifetimeGenerations, KeysAt, CreateCryptor;
  }

  /** The frame a sender makes with its counter at `k`: the key of generation `k / 2^24`, the nonce
      `k mod 2^32`. */
  function SentFrame(env: Env, base: Bytes, k: nat, aad: Bytes, text: Bytes): Frame {
    var (ciphertext, tag) := SealFrame(env.aead, KeysAt(env.kdf, base, k / PER_GENERATION).key, k % WORD, aad, text);
    Frame(k % WORD, aad, ciphertext, tag)
  }

  /** What becomes of a genuine frame whose generation is less than a wrap from the oldest one: it is
      decrypted exactly when the window still takes its counter and the generation may be used. */
  lemma GenuineFrame(env: Env, base: Bytes, m: Manager, now: nat, k: nat, aad: Bytes, text: Bytes)
    requires Sound(env, base, m, now) && OpenUndoesSeal(env.aead)
    requires env.aead.valid(KeysAt(env.kdf, base, k / PER_GENERATION).key)
    requires k / PER_GENERATION < WORD && m.oldest <= k / PER_GENERATION < m.oldest + WRAP
    ensures var f := SentFrame(env, base, k, aad, text);
      var (d, outcome) := Decrypted(env, m, f, now);
      && NonceOf(m, f) == k
      && outcome == (if !CanProcess(m.window, k) then InvalidNonce
                     else if MayBeUsed(Cleaned(m, now).oldest, Cleaned(m, now).newest, m.created, k / PER_GENERATION, now) then
                        Success(text)
                     else MissingCryptor)
      && (outcome.Success? ==> d.window == Report(m.window, k))
  {
    LifetimeGrows(m.created, now, now);
    BigNonceRecoversCounter(m.oldest, k);
    WrappedGenerationIff(m.oldest, k / PER_GENERATION);
    var generation := k / PER_GENERATION;
    GotSound(env, base, m, generation, now);
    CleanedSound(env, base, m, now);
    InReachIs(Cleaned(m, now), generation, now);
    hide MayBeUsed, LifetimeGenerations, Follows, KeysAt, Cleaned, Got, InReach, Sound, CanProcess, Report;
    hide ComputeWrappedBigNonce, ComputeWrappedGeneration;
    var key := KeysAt(env.kdf, base, generation).key;
    var f := SentFrame(env, base, k, aad, text);
    assert GenerationOf(m, f) == generation;
    assert OpenFrame(env.aead, key, k % WORD, aad, f.ciphertext, f.tag) == Some(text);
  }
}
