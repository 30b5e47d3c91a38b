/** A frame from the sender's processor to the receiver's stream (`encryptor.cpp`, `decryptor.cpp`). */
module Encryption {
  import opened Wrappers
  import opened Crypto
  import opened Bits
  import opened Generations
  import opened ReplayWindow
  import opened HashRatchets
  import opened CryptorManagers
  import opened FrameKeys
  import opened Leb128s
  import opened Frames
  import opened FrameProcessors

  datatype EncryptResult = Encrypted | NoCryptor | EncryptionFailure | TooManyAttempts

  /** The key of the sender's `k`-th frame. */
  function FrameKey(env: Env, base: Bytes, k: nat): Bytes { KeysAt(env.kdf, base, k / PER_GENERATION).key }

  function Sealed(env: Env, base: Bytes, k: nat, o: Outbound): (Bytes, Bytes) {
    SealFrame(env.aead, FrameKey(env, base, k), k % WORD, o.unencrypted, o.encrypted)
  }

  /** The frame made with the counter at `k`; none when its supplemental data exceeds one byte's count. */
  ghost function FrameAt(env: Env, base: Bytes, k: nat, o: Outbound): Option<Bytes> {
    var (ciphertext, tag) := Sealed(env, base, k, o);
    if SupplementalSize(k % WORD, o.ranges) >= 256 || !Fits(o.ranges, |o.unencrypted|, |ciphertext|, 0) then None
    else Some(Layout(Rejoin(o.ranges, o.unencrypted, ciphertext, 0), tag, k % WORD, o.ranges))
  }

  /** The whole way of a frame: whatever calls filled the sender's processor, the receiver parses the
      frame made with counter `k` to its nonce and associated data; it decrypts exactly when the
      replay window still takes `k` and the generation is in reach; and rejoining then gives back the
      stream those calls spelled. */
  lemma SentIsReceived(env: Env, base: Bytes, m: Manager, now: nat, k: nat, pieces: seq<Piece>)
    requires Sound(env, base, m, now) && OpenUndoesSeal(env.aead) && SealSizes(env.aead)
    requires env.aead.valid(FrameKey(env, base, k))
    requires k / PER_GENERATION < WORD && m.oldest <= k / PER_GENERATION < m.oldest + WRAP
    requires |Stream(pieces)| < LIMIT && FrameAt(env, base, k, AddAll(pieces)).Some?
    ensures var o := AddAll(pieces);
      var parsed := Parse(FrameAt(env, base, k, o).value);
      && parsed.Some?
      && parsed.value.nonce == k % WORD && parsed.value.authenticated == o.unencrypted
      && var p := parsed.value;
      && Decrypted(env, m, Frame(p.nonce, p.authenticated, p.ciphertext, p.tag), now).1 == (
           if !CanProcess(m.window, k) then InvalidNonce
           else if MayBeUsed(Cleaned(m, now).oldest, Cleaned(m, now).newest, m.created, k / PER_GENERATION, now)
           then Success(o.encrypted) else MissingCryptor)
      && Fits(p.ranges, |p.authenticated|, |o.encrypted|, 0)
      && Rejoin(p.ranges, p.authenticated, o.encrypted, 0) == Stream(pieces)
  {
    hide Sound, Decrypted, CanProcess, MayBeUsed, Cleaned, Parse, Layout, Rejoin, Fits, AddAll, Stream, KeysAt, SupplementalSize;
    var o := AddAll(pieces);
    var (ciphertext, tag) := Sealed(env, base, k, o);
    FrameRoundTrip(pieces, ciphertext, tag, k % WORD);
    GenuineFrame(env, base, m, now, k, o.unencrypted, o.encrypted);
  }

  /** The bytes of a frame, from its end: marker, count of the supplemental bytes, ranges, nonce, tag, and in front of
      them the stream in which the encrypted bytes are replaced by their ciphertext.  The readable bytes are
      authenticated with the key of the frame's generation. */
  lemma FrameBytes(env: Env, base: Bytes, k: nat, o: Outbound)
    requires SealSizes(env.aead) && FrameAt(env, base, k, o).Some?
    ensures var frame := FrameAt(env, base, k, o).value;
      var (ciphertext, tag) :=
        env.aead.seal(KeysAt(env.kdf, base, k / 0x100_0000).key, k % 0x1_0000_0000, o.unencrypted, o.encrypted);
      var n, nonce, size := |o.unencrypted| + |o.encrypted|, Leb128(k % 0x1_0000_0000), |frame|;
      && size == n + 11 + |nonce| + |Serialized(o.ranges)|
      && frame[size - 2..] == [0xFA, 0xFA] && frame[size - 3] as nat == size - n
      && Ordered(o.ranges, 0, n) && Inside(o.ranges, frame[..n], 0) == o.unencrypted && Outside(o.ranges, frame[..n], 0) == ciphertext
      && frame[n..n + 8] == tag && frame[n + 8..size - 3] == nonce + Serialized(o.ranges)
  {
    hide KeysAt, Rejoin, Fits, Serialized, Leb128, Ordered, Inside, Outside;
    var frame := FrameAt(env, base, k, o).value;
    var (ciphertext, tag) := Sealed(env, base, k, o);
    var stream := Rejoin(o.ranges, o.unencrypted, ciphertext, 0);
    SplitUndoesRejoin(o.ranges, o.unencrypted, ciphertext, 0);
    var body := Leb128(k % WORD) + Serialized(o.ranges);
    FrameParts(stream, tag, body, SupplementalSize(k % WORD, o.ranges));
    assert frame == stream + (tag + body + [SupplementalSize(k % WORD, o.ranges) as byte] + MARKER);
    assert frame[..|stream|] == stream;
  }

  /** A range is written as its offset and its size. */
  lemma {:induction false} SerializedOneByOne(ranges: Ranges, i: nat)
    requires i < |ranges|
    ensures Serialized(ranges) ==
      Serialized(ranges[..i]) + (Leb128(ranges[i].offset) + Leb128(ranges[i].size)) + Serialized(ranges[i + 1..])
    decreases i
  {
    hide Leb128;
    if i > 0 {
      SerializedOneByOne(ranges[1..], i - 1);
      assert ranges[..i][1..] == ranges[1..][..i - 1] && ranges[..i][0] == ranges[0];
      assert ranges[1..][i..] == ranges[i + 1..];
    } else {
      assert Serialized(ranges[..0]) == [];
    }
  }

  const MAX_ATTEMPTS := 10 // MAX_CIPHERTEXT_VALIDATION_RETRIES

  /** The largest frame `Encrypt` writes for what the processor holds. */
  ghost function Capacity(o: Outbound): nat {
    |o.unencrypted| + |o.encrypted| + TAG_BYTES + 5 + |Serialized(o.ranges)| + 3
  }

  lemma NonceBytes(nonce: nat)
    requires nonce < WORD
    ensures |Leb128(nonce)| <= 5
  {
    assert Pow2(8) == 256;
    Pow2Add(8, 8);
    Pow2Add(16, 16);
    Pow2Mono(32, 35);
    LengthBound(nonce, 5);
  }

  /** The retry loop of `Encrypt` on a filled processor.  `validate` stands for the codec's check of
      the finished frame.  Every attempt takes a new nonce, so no frame made is made twice. */
  method Encrypt(counter: NonceCounter, processor: OutboundFrameProcessor, validate: Bytes -> bool,
      encryptedFrame: array<byte>)
    returns (result: EncryptResult, bytesWritten: nat)
    requires counter.Valid() && processor.Valid() && SealSizes(counter.env.aead)
    requires (counter.calls + MAX_ATTEMPTS) / PER_GENERATION < MAX_GENERATION
    requires Capacity(processor.Value()) <= encryptedFrame.Length && |Serialized(processor.unencryptedRanges)| < 256
    modifies counter, counter.keyRatchet, processor`ciphertextBytes, encryptedFrame
    ensures counter.Valid() && processor.Valid() && processor.Value() == old(processor.Value())
    ensures old(counter.calls) < counter.calls <= old(counter.calls) + 10
    ensures forall k :: old(counter.calls) < k < counter.calls ==>
      Refused(counter.env, counter.keyRatchet.base, k, processor.Value(), validate)
    ensures bytesWritten <= encryptedFrame.Length
    ensures result == Encrypted ==> validate(encryptedFrame[..bytesWritten])
    ensures result == Encrypted ==>
      FrameAt(counter.env, counter.keyRatchet.base, counter.calls, processor.Value()) == Some(encryptedFrame[..bytesWritten])
    ensures result == NoCryptor ==> !counter.env.aead.valid(FrameKey(counter.env, counter.keyRatchet.base, counter.calls))
    ensures result == EncryptionFailure ==> SupplementalSize(counter.calls % WORD, processor.unencryptedRanges) >= 256
    ensures result == TooManyAttempts ==> counter.calls == old(counter.calls) + 10
    ensures result == TooManyAttempts ==>
      Refused(counter.env, counter.keyRatchet.base, counter.calls, processor.Value(), validate)
  {
    hide KeysAt, Sealed, FrameAt, Capacity, NonceCounter.Valid, OutboundFrameProcessor.Valid;
    ghost var env, base, o := counter.env, counter.keyRatchet.base, processor.Value();
    bytesWritten := 0;
    for attempt := 1 to MAX_ATTEMPTS + 1
      invariant counter.Valid() && processor.Valid() && processor.Value() == o
      invariant counter.calls == old(counter.calls) + attempt - 1
      invariant forall k :: old(counter.calls) < k <= counter.calls ==> Refused(env, base, k, o, validate)
    {
      var cryptor, truncatedNonce := counter.GetNextCryptorAndNonce();
      if cryptor.None? {
        assert !env.aead.valid(FrameKey(env, base, counter.calls)) by { hide *; }
        return NoCryptor, 0;
      }
      var ok, size := WriteFrame(counter.env, base, counter.calls, cryptor.value, truncatedNonce, processor, encryptedFrame);
      if !ok { return EncryptionFailure, 0; }
      if validate(encryptedFrame[..size]) {
        return Encrypted, size;
      }
    }
    return TooManyAttempts, 0;
  }

  ghost predicate Refused(env: Env, base: Bytes, k: nat, o: Outbound, validate: Bytes -> bool) {
    var f := FrameAt(env, base, k, o);
    f.Some? && !validate(f.value)
  }

  /** One attempt: seal, rejoin, append tag, nonce, ranges, size and marker. */
  method WriteFrame(env: Env, ghost base: Bytes, ghost k: nat, key: Bytes, truncatedNonce: nat,
      processor: OutboundFrameProcessor, encryptedFrame: array<byte>)
    returns (ok: bool, size: nat)
    requires processor.Valid() && SealSizes(env.aead)
    requires key == FrameKey(env, base, k) && truncatedNonce == k % WORD
    requires Capacity(processor.Value()) <= encryptedFrame.Length && |Serialized(processor.unencryptedRanges)| < 256
    modifies processor`ciphertextBytes, encryptedFrame
    ensures processor.Valid() && processor.Value() == old(processor.Value())
    ensures ok <==> SupplementalSize(truncatedNonce, processor.unencryptedRanges) < 256
    ensures size <= encryptedFrame.Length
    ensures ok ==> FrameAt(env, base, k, processor.Value()) == Some(encryptedFrame[..size])
  {
    hide KeysAt, FrameKey, AddAll, Fits, Rejoin, Serialized, Leb128, Spliced;
    var ranges := processor.unencryptedRanges;
    ghost var was := encryptedFrame[..];
    NonceBytes(truncatedNonce);
    var (ciphertext, tag) := SealFrame(env.aead, key, truncatedNonce, processor.unencryptedBytes, processor.encryptedBytes);
    var frameSize := |processor.encryptedBytes| + |processor.unencryptedBytes|;
    processor.ciphertextBytes := ciphertext;
    Copy(encryptedFrame, frameSize, tag, 0, TAG_BYTES);
    assert tag[0..TAG_BYTES] == tag;
    var reconstructedFrameSize := processor.ReconstructFrame(encryptedFrame);
    ghost var stream := Rejoin(ranges, processor.unencryptedBytes, ciphertext, 0);
    SpliceInFront(was, stream, tag);
    ghost var done := stream + tag;
    var nonceSize := WriteLeb128(truncatedNonce, encryptedFrame, frameSize + TAG_BYTES);
    SpliceMore(was, 0, done, Leb128(truncatedNonce));
    done := done + Leb128(truncatedNonce);
    var rangesSize := UnencryptedRangesSize(ranges);
    var at := frameSize + TAG_BYTES + nonceSize;
    rangesSize := SerializeUnencryptedRanges(ranges, encryptedFrame, at, rangesSize);
    SpliceMore(was, 0, done, Serialized(ranges));
    done := done + Serialized(ranges);
    var supplementalBytesLarge := MIN_SUPPLEMENTAL + nonceSize + rangesSize;
    if supplementalBytesLarge > 255 {
      return false, 0;
    }
    at := at + rangesSize;
    var ending := [supplementalBytesLarge as byte] + MARKER;
    Copy(encryptedFrame, at, ending, 0, 3);
    assert ending[0..3] == ending;
    SpliceMore(was, 0, done, ending);
    size := at + 3;
    SplicedPrefix(was, done + ending);
    assert done + ending == Layout(stream, tag, truncatedNonce, ranges);
    ok := true;
  }

  lemma SplicedPrefix(buffer: Bytes, data: Bytes)
    requires |data| <= |buffer|
    ensures Spliced(buffer, 0, data)[..|data|] == data
  {}
}
