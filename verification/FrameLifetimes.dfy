/** Which frames a receiver decrypts, in plain numbers: how far ahead and how old a generation may be, from the first
    frame of a session on, and how long the keys of older generations are kept. */
module FrameLifetimes {
  import opened Crypto
  import opened Generations
  import opened ReplayWindow
  import opened HashRatchets
  import opened CryptorManagers

  // --------------------------------------------------------------------------
  // What is in reach
  // --------------------------------------------------------------------------

  /** The frame of a sender's counter `k` that a receiver with the same base secret gets. */
  predicate IsSent(env: Env, base: Bytes, k: nat, f: Frame, text: Bytes) {
    && f.truncatedNonce == k % 0x1_0000_0000
    && (f.ciphertext, f.tag) == env.aead.seal(KeysAt(env.kdf, base, k / 0x100_0000).key, f.truncatedNonce, f.aad, text)
  }

  lemma SentIs(env: Env, base: Bytes, k: nat, f: Frame, text: Bytes)
    requires IsSent(env, base, k, f, text)
    ensures f == SentFrame(env, base, k, f.aad, text)
  {}

  /** A sender's frame whose counter the window takes is decrypted exactly when its generation may be used; `oldest`
      and `newest` are those of the manager without its expired cryptors. */
  lemma GenuineFrameDecrypts(env: Env, base: Bytes, m: Manager, now: nat, k: nat, f: Frame, text: Bytes)
    requires Sound(env, base, m, now) && OpenUndoesSeal(env.aead) && IsSent(env, base, k, f, text)
    requires env.aead.valid(KeysAt(env.kdf, base, k / 0x100_0000).key)
    requires k / 0x100_0000 < 0x1_0000_0000 && m.oldest <= k / 0x100_0000 < m.oldest + 256
    ensures var c := Cleaned(m, now);
      Decrypted(env, m, f, now).1 ==
        if !CanProcess(m.window, k) then InvalidNonce
        else if MayBeUsed(c.oldest, c.newest, m.created, k / 0x100_0000, now) then Success(text)
        else MissingCryptor
    ensures CanProcess(m.window, k) && MayBeUsed(Cleaned(m, now).oldest, Cleaned(m, now).newest, m.created, k / 0x100_0000, now) ==>
      Decrypted(env, m, f, now).0.window == Report(m.window, k)
  {
    SentIs(env, base, k, f, text);
    GenuineFrame(env, base, m, now, k, f.aad, text);
    hide MayBeUsed, Sound, Cleaned, Decrypted, CanProcess, Report, SentFrame, IsSent, OpenUndoesSeal;
  }

  /** A new manager decrypts any frame of the sender's first generation, at once and at any time. */
  lemma FirstFrames(env: Env, base: Bytes, created: nat, now: nat, k: nat, f: Frame, text: Bytes)
    requires created <= now < MAX_TIME - 10_000_000_000 && OpenUndoesSeal(env.aead) && IsSent(env, base, k, f, text)
    requires k < 0x100_0000 && env.aead.valid(KeysAt(env.kdf, base, 0).key)
    ensures Decrypted(env, FreshManager(base, created), f, now).1 == Success(text)
  {
    var m := FreshManager(base, created);
    assert k / 0x100_0000 == 0;
    assert Sound(env, base, m, now);
    assert Unexpired(m.cryptors, now) == map[];
    assert Cleaned(m, now).oldest == 0 && Cleaned(m, now).newest == 0;
    hide Sound, Cleaned, Decrypted, FreshManager, IsSent, OpenUndoesSeal;
    GenuineFrameDecrypts(env, base, m, now, k, f, text);
  }

  // --------------------------------------------------------------------------
  // How long an older generation is served
  // --------------------------------------------------------------------------

  predicate Serves(m: Manager, g: nat, until: nat) { g in m.cryptors && m.cryptors[g].expiry >= until }

  /** No frame takes a cryptor away before its time. */
  lemma ServesStep(env: Env, base: Bytes, m: Manager, f: Frame, now: nat, g: nat, until: nat)
    requires Sound(env, base, m, now) && Serves(m, g, until) && now <= until <= now + 10_000_000_000
    ensures Serves(Decrypted(env, m, f, now).0, g, until)
  {
    hide Sound, Cleaned, CanProcess, Report, ComputeWrappedBigNonce, ComputeWrappedGeneration, LifetimeGenerations, InReach, AfterGet,
      MadeCryptor;
    CleanedSound(env, base, m, now);
    assert Serves(Cleaned(m, now), g, until);
  }

  /** The manager after some more frames. */
  ghost function RunOn(env: Env, m: Manager, arrivals: seq<Arrival>): Manager
    decreases |arrivals|
  {
    if arrivals == [] then m else RunOn(env, Decrypted(env, m, arrivals[0].frame, arrivals[0].now).0, arrivals[1..])
  }

  /** Arrivals in the order of the clock, from one time to another. */
  ghost predicate Between(arrivals: seq<Arrival>, start: nat, end: nat) {
    && start <= end
    && (forall i :: 0 <= i < |arrivals| ==> start <= arrivals[i].now <= end)
    && (forall i, j :: 0 <= i < j < |arrivals| ==> arrivals[i].now <= arrivals[j].now)
  }

  lemma {:induction false} ServesOn(env: Env, base: Bytes, m: Manager, arrivals: seq<Arrival>, start: nat, now: nat, g: nat,
                                    until: nat)
    requires Sound(env, base, m, start) && Between(arrivals, start, now) && now < MAX_TIME - 10_000_000_000
    requires Serves(m, g, until) && now <= until <= start + 10_000_000_000
    ensures var r := RunOn(env, m, arrivals);
      Sound(env, base, r, now) && Serves(r, g, until) && r.created == m.created && m.newest <= r.newest
    decreases |arrivals|
  {
    hide Sound, Decrypted, Serves;
    if arrivals == [] {
      SoundLater(env, base, m, start, now);
    } else {
      var a := arrivals[0];
      SoundLater(env, base, m, start, a.now);
      DecryptedSound(env, base, m, a.frame, a.now);
      ServesStep(env, base, m, a.frame, a.now, g, until);
      assert forall i :: 0 <= i < |arrivals[1..]| ==> arrivals[1..][i] == arrivals[i + 1];
      ServesOn(env, base, Decrypted(env, m, a.frame, a.now).0, arrivals[1..], a.now, now, g, until);
    }
  }

  /** When a frame of a newer generation is decrypted, the cryptor of the newest generation so far is kept for ten
      seconds more. */
  lemma NewerGenerationReported(env: Env, base: Bytes, m: Manager, f: Frame, at: nat)
    requires Sound(env, base, m, at) && m.newest in m.cryptors
    requires Decrypted(env, m, f, at).1.Success? && GenerationOf(m, f) > m.newest
    ensures var d := Decrypted(env, m, f, at).0;
      d.newest == GenerationOf(m, f) && Serves(d, m.newest, at + 10_000_000_000)
  {
    hide Cleaned, CanProcess, Report, ComputeWrappedBigNonce, ComputeWrappedGeneration, LifetimeGenerations, InReach, AfterGet,
      MadeCryptor, KeysAt, Follows, CreateCryptor;
    assert m.cryptors[m.newest].expiry == MAX_TIME;
    CleanedSound(env, base, m, at);
  }

  /** Frames that come late: after the first frame of a newer generation the generation before is still decrypted for
      ten seconds, whatever else arrives, if it is less than a wrap from the oldest one. */
  lemma LateFramesDecrypt(env: Env, base: Bytes, m: Manager, newer: Frame, at: nat, arrivals: seq<Arrival>, now: nat, k: nat,
                          f: Frame, text: Bytes)
    requires Sound(env, base, m, at) && OpenUndoesSeal(env.aead) && m.newest in m.cryptors
    requires Decrypted(env, m, newer, at).1.Success? && GenerationOf(m, newer) > m.newest
    requires Between(arrivals, at, now) && now <= at + 10_000_000_000 && now < MAX_TIME - 10_000_000_000
    requires IsSent(env, base, k, f, text) && k / 0x100_0000 == m.newest < 0x1_0000_0000
    requires env.aead.valid(KeysAt(env.kdf, base, m.newest).key)
    requires var r := RunOn(env, Decrypted(env, m, newer, at).0, arrivals); m.newest < r.oldest + 256 && CanProcess(r.window, k)
    ensures Decrypted(env, RunOn(env, Decrypted(env, m, newer, at).0, arrivals), f, now).1 == Success(text)
  {
    hide Sound, Decrypted, Serves, CanProcess, GenerationOf, RunOn, IsSent, OpenUndoesSeal, MayBeUsed, Between, KeysAt;
    var g, d := m.newest, Decrypted(env, m, newer, at).0;
    DecryptedSound(env, base, m, newer, at);
    NewerGenerationReported(env, base, m, newer, at);
    ServesOn(env, base, d, arrivals, at, now, g, at + 10_000_000_000) by { hide *; BetweenEnds(arrivals, at, now); }
    var r := RunOn(env, d, arrivals);
    StillUsable(env, base, r, g, now, at + 10_000_000_000);
    GenuineFrameDecrypts(env, base, r, now, k, f, text);
  }

  lemma BetweenEnds(arrivals: seq<Arrival>, start: nat, end: nat)
    requires Between(arrivals, start, end)
    ensures start <= end
  {}

  lemma StillUsable(env: Env, base: Bytes, r: Manager, g: nat, now: nat, until: nat)
    requires Sound(env, base, r, now) && Serves(r, g, until) && now <= until && g <= r.newest
    ensures r.oldest <= g
    ensures var c := Cleaned(r, now); MayBeUsed(c.oldest, c.newest, r.created, g, now)
  {
    var c := Cleaned(r, now);
    CleanedSound(env, base, r, now);
    SoundBounds(env, base, r, now);
    SoundBounds(env, base, c, now);
    hide Sound, Cleaned, LifetimeGenerations;
    assert g in c.cryptors;
    LifetimeIs(r.created, now, g);
  }

  lemma SoundBounds(env: Env, base: Bytes, m: Manager, now: nat)
    requires Sound(env, base, m, now)
    ensures m.created <= now && m.newest <= LifetimeGenerations(m.created, now) && forall g <- m.cryptors :: m.oldest <= g
  {
    hide LifetimeGenerations, KeysAt, CreateCryptor, Follows;
  }

  /** Old keys go: more than ten seconds after the last step, cleaning leaves no cryptor and no stored key of a
      generation before the newest. */
  lemma OldKeysGo(env: Env, base: Bytes, m: Manager, now: nat, later: nat)
    requires Sound(env, base, m, now) && now + 10_000_000_000 < later < MAX_TIME - 10_000_000_000
    ensures var c := Cleaned(m, later);
      && c.oldest == c.newest == m.newest
      && (forall g <- c.cryptors :: g >= m.newest) && (forall g <- c.ratchet.cache :: g >= m.newest)
  {
    hide LifetimeGenerations, KeysAt, CreateCryptor, Follows, Cleaned;
    SoundLater(env, base, m, now, later);
    CleanedSound(env, base, m, later);
  }
}
