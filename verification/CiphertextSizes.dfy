/** Whether a frame fits the buffer that callers allocate for it (`GetMaxCiphertextByteSize` in
    `encryptor.cpp`). */
module CiphertextSizes {
  import opened Wrappers
  import opened Crypto
  import opened Bits
  import opened Generations
  import opened CryptorManagers
  import opened Leb128s
  import opened Frames
  import opened Av1
  import opened Encryption

  const PADDING_BYTES := 64 // kTransformPaddingBytes

  function GetMaxCiphertextByteSize(frameSize: nat): nat { frameSize + MIN_SUPPLEMENTAL + PADDING_BYTES }

  lemma StreamSize(pieces: seq<Piece>)
    ensures var o := AddAll(pieces); |o.unencrypted| + |o.encrypted| == |Stream(pieces)| && Ordered(o.ranges, 0, |Stream(pieces)|)
  {
    hide AddAll, Stream, Ordered, Inside, Outside, Fits, Rejoin;
    AddAllSplits(pieces);
    RejoinUndoesSplit(AddAll(pieces).ranges, Stream(pieces), 0);
  }

  /** The frame fits what callers allocate for it exactly when nonce and ranges fit the padding. */
  lemma PaddingSufficesIff(env: Env, base: Bytes, k: nat, pieces: seq<Piece>, frameSize: nat)
    requires SealSizes(env.aead) && FrameAt(env, base, k, AddAll(pieces)).Some?
    ensures |FrameAt(env, base, k, AddAll(pieces)).value| <= GetMaxCiphertextByteSize(frameSize) <==>
      |Stream(pieces)| + |Leb128(k % WORD)| + |Serialized(AddAll(pieces).ranges)| <= frameSize + PADDING_BYTES
  {
    hide AddAll, Stream, Leb128, Serialized, Rejoin, Fits, FrameKey;
    StreamSize(pieces);
  }

  /** Up to seven readable ranges are fine for frames below 2^28 bytes. */
  lemma FewRangesFit(pieces: seq<Piece>, frameSize: nat)
    requires |Stream(pieces)| <= frameSize < 0x1000_0000 && |AddAll(pieces).ranges| <= 7
    ensures Capacity(AddAll(pieces)) <= GetMaxCiphertextByteSize(frameSize) && |Serialized(AddAll(pieces).ranges)| < 256
  {
    hide AddAll, Stream, Serialized;
    StreamSize(pieces);
    ShortRanges(AddAll(pieces).ranges, 0, |Stream(pieces)|);
  }

  lemma {:induction false} ShortRanges(ranges: Ranges, at: nat, limit: nat)
    requires Ordered(ranges, at, limit) && limit < 0x1000_0000
    ensures |Serialized(ranges)| <= 8 * |ranges|
  {
    hide Leb128;
    if ranges != [] {
      OrderedFits(ranges, at, limit);
      FourBytes(ranges[0].offset);
      FourBytes(ranges[0].size);
      ShortRanges(ranges[1..], ranges[0].End(), limit);
    }
  }

  lemma FourBytes(value: nat)
    requires value < 0x1000_0000
    ensures |Leb128(value)| <= 4
  {
    assert Pow2(7) == 0x80;
    Pow2Add(7, 7);
    Pow2Add(14, 14);
    LengthBound(value, 4);
  }

  lemma {:induction false} TwoBytesEach(ranges: Ranges)
    ensures |Serialized(ranges)| >= 2 * |ranges|
  {
    hide Leb128;
    if ranges != [] { TwoBytesEach(ranges[1..]); }
  }

  /** Thirty-two and more never fit, unless the stream is shorter than the frame it was made of. */
  lemma ManyRangesNeverFit(env: Env, base: Bytes, k: nat, pieces: seq<Piece>, frameSize: nat)
    requires SealSizes(env.aead) && FrameAt(env, base, k, AddAll(pieces)).Some?
    requires |AddAll(pieces).ranges| >= 32 && |Stream(pieces)| >= frameSize
    ensures |FrameAt(env, base, k, AddAll(pieces)).value| > GetMaxCiphertextByteSize(frameSize)
  {
    hide AddAll, Stream, Serialized, FrameAt, Leb128;
    TwoBytesEach(AddAll(pieces).ranges);
    PaddingSufficesIff(env, base, k, pieces, frameSize);
  }

  lemma FrameFits(env: Env, base: Bytes, k: nat, pieces: seq<Piece>)
    requires SealSizes(env.aead) && SupplementalSize(k % WORD, AddAll(pieces).ranges) < 256
    ensures FrameAt(env, base, k, AddAll(pieces)).Some?
  {
    hide AddAll, Stream, Ordered, Inside, Outside, Fits, Rejoin, FrameKey, SupplementalSize;
    AddAllSplits(pieces);
    RejoinUndoesSplit(AddAll(pieces).ranges, Stream(pieces), 0);
  }

  // --------------------------------------------------------------------------
  // An AV1 frame that does not fit
  // --------------------------------------------------------------------------

  /** OBUs of one byte each; all but the last have a size field. */
  function SmallObus(n: nat, payload: byte): seq<Obu> {
    if n == 0 then [Obu(0x08, None, [payload])] else [Obu(0x0A, None, [payload])] + SmallObus(n - 1, payload)
  }

  function SmallObuFrame(n: nat, payload: byte): (frame: Bytes)
    ensures |frame| == 3 * n + 2
  {
    if n == 0 then [0x08, payload] else [0x0A, 0x01, payload] + SmallObuFrame(n - 1, payload)
  }

  lemma SmallHeaders()
    ensures !HasExtension(0x08) && !HasSize(0x08) && IsKeptKind(0x08) && WithoutSize(0x08) == 0x08
    ensures !HasExtension(0x0A) && HasSize(0x0A) && IsKeptKind(0x0A)
  {
    hide And, Shr, AndNot;
    HeaderBits(0x08);
    HeaderKinds();
  }

  lemma {:induction false} SmallObusRead(n: nat, payload: byte)
    ensures ReadObus(SmallObuFrame(n, payload)) == Some(SmallObus(n, payload))
  {
    hide HasExtension, HasSize, Read;
    SmallHeaders();
    var frame := SmallObuFrame(n, payload);
    assert frame[0..] == frame;
    ReadObuAt(frame, 0);
    ReadObusStep(frame, 0);
    if n == 0 {
      assert frame[1..] == [payload] && frame[2..] == [];
      NothingToRead();
      assert [Obu(0x08, None, [payload])] + [] == SmallObus(0, payload);
    } else {
      SmallObusRead(n - 1, payload);
      ReadOne(frame[1..]);
      assert frame[2..3] == [payload] && frame[3..] == SmallObuFrame(n - 1, payload);
    }
  }

  lemma ReadOne(s: Bytes)
    requires s != [] && s[0] == 1
    ensures Read(s, 0) == Some((1, 1))
  {}

  /** The calls for the OBUs in front of the last one. */
  function Fronts(n: nat, payload: byte): seq<Piece> {
    if n == 0 then [] else Fronts(n - 1, payload) + [Clear([0x0A]), Clear([0x01]), Hidden([payload])]
  }

  lemma {:induction false} FrontsFromFront(n: nat, payload: byte)
    ensures Fronts(n + 1, payload) == [Clear([0x0A]), Clear([0x01]), Hidden([payload])] + Fronts(n, payload)
  {
    if n > 0 { FrontsFromFront(n - 1, payload); }
  }

  lemma {:induction false} SmallObusRewritten(n: nat, payload: byte)
    ensures Rewritten(SmallObus(n, payload)) == Fronts(n, payload) + [Clear([0x08]), Hidden([payload])]
    ensures SmallObus(n, payload) != []
  {
    hide HasExtension, HasSize, KindOf;
    SmallHeaders();
    var obus := SmallObus(n, payload);
    if n == 0 {
      assert obus[1..] == [] && Rewritten([]) == [];
      assert PiecesOf(obus[0], true) == [Clear([0x08]), Hidden([payload])];
    } else {
      SmallObusRewritten(n - 1, payload);
      FrontsFromFront(n - 1, payload);
      assert obus[1..] == SmallObus(n - 1, payload);
      assert Leb128(1) == [0x01];
      assert PiecesOf(obus[0], false) == [Clear([0x0A]), Clear([0x01]), Hidden([payload])];
    }
  }

  lemma AddLast(pieces: seq<Piece>, p: Piece)
    ensures AddAll(pieces + [p]) == Add(AddAll(pieces), p)
    ensures |Stream(pieces + [p])| == |Stream(pieces)| + |p.bytes|
  {
    assert (pieces + [p])[..|pieces|] == pieces;
  }

  /** Header and size of every OBU make a range of their own. */
  lemma {:induction false} FrontRanges(n: nat, payload: byte)
    ensures var o := AddAll(Fronts(n, payload));
      && o.frameIndex == |Stream(Fronts(n, payload))| == 3 * n && |o.ranges| == n
      && (n > 0 ==> o.ranges[n - 1].End() == 3 * n - 1)
  {
    hide AddAll, Stream;
    if n == 0 {
      NoPieces();
    } else {
      FrontRanges(n - 1, payload);
      var before := Fronts(n - 1, payload);
      AddLast(before, Clear([0x0A]));
      AddLast(before + [Clear([0x0A])], Clear([0x01]));
      AddLast(before + [Clear([0x0A])] + [Clear([0x01])], Hidden([payload]));
      assert Fronts(n, payload) == before + [Clear([0x0A])] + [Clear([0x01])] + [Hidden([payload])];
    }
  }

  lemma NoPieces()
    ensures AddAll([]) == NO_BYTES && Stream([]) == []
  {}

  lemma SmallObuRanges(n: nat, payload: byte)
    ensures var pieces := Rewritten(SmallObus(n, payload));
      |AddAll(pieces).ranges| == n + 1 && |Stream(pieces)| == 3 * n + 2
  {
    hide AddAll, Stream, Rewritten;
    SmallObusRewritten(n, payload);
    FrontRanges(n, payload);
    var before := Fronts(n, payload);
    AddLast(before, Clear([0x08]));
    AddLast(before + [Clear([0x08])], Hidden([payload]));
    assert Rewritten(SmallObus(n, payload)) == before + [Clear([0x08])] + [Hidden([payload])];
  }

  lemma {:induction false} TinyRanges(ranges: Ranges, at: nat, limit: nat)
    requires Ordered(ranges, at, limit) && limit < 0x80
    ensures |Serialized(ranges)| == 2 * |ranges|
  {
    if ranges != [] {
      OrderedFits(ranges, at, limit);
      TinyRanges(ranges[1..], ranges[0].End(), limit);
    }
  }

  /** Frames of 32 OBUs of one byte each, and of some more: they are proper lists of OBUs, as
      `ProcessFrameAv1` finds, and what is made of them needs more than callers allocate, whatever the nonce. */
  lemma SmallObusDoNotFit(env: Env, base: Bytes, k: nat, n: nat, payload: byte)
    requires SealSizes(env.aead) && 31 <= n <= 41
    ensures var frame := SmallObuFrame(n, payload);
      && ReadObus(frame) == Some(SmallObus(n, payload)) && !MeetsWrap(frame, 0)
      && RunAv1(frame, |frame| + 1) == Run(Returned(true), Rewritten(SmallObus(n, payload)))
      && var o := AddAll(Rewritten(SmallObus(n, payload)));
      FrameAt(env, base, k, o).Some? && |FrameAt(env, base, k, o).value| > GetMaxCiphertextByteSize(|frame|)
  {
    hide AddAll, Stream, Rewritten, ReadObus, MeetsWrap, Ordered, Serialized, FrameAt, RunFrom, SmallObus, Leb128;
    var frame, pieces := SmallObuFrame(n, payload), Rewritten(SmallObus(n, payload));
    SmallObusRead(n, payload);
    assert frame[0..] == frame;
    if MeetsWrap(frame, 0) { WrapIsMalformed(frame, 0); }
    Accepted(frame);
    SmallObuRanges(n, payload);
    StreamSize(pieces);
    TinyRanges(AddAll(pieces).ranges, 0, |Stream(pieces)|);
    NonceBytes(k % WORD);
    FrameFits(env, base, k, pieces);
    ManyRangesNeverFit(env, base, k, pieces, |frame|);
  }
}
