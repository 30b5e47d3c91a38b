/** The frame processors as the classes that grow their buffers in place (`frame_processors.cpp`). */
module FrameProcessors {
  import opened Wrappers
  import opened Crypto
  import opened Leb128s
  import opened Frames

  lemma SpliceMore(buffer: Bytes, at: nat, a: Bytes, b: Bytes)
    requires at + |a| + |b| <= |buffer|
    ensures Spliced(Spliced(buffer, at, a), at + |a|, b) == Spliced(buffer, at, a + b)
  {}

  lemma SpliceInFront(buffer: Bytes, a: Bytes, b: Bytes)
    requires |a| + |b| <= |buffer|
    ensures Spliced(Spliced(buffer, |a|, b), 0, a) == Spliced(buffer, 0, a + b)
  {}

  /** `memcpy` */
  method Copy(output: array<byte>, at: nat, source: Bytes, from: nat, size: nat)
    requires from + size <= |source| && at + size <= output.Length
    modifies output
    ensures output[..] == Spliced(old(output[..]), at, source[from..from + size])
  {
    forall i | 0 <= i < size {
      output[at + i] := source[from + i];
    }
  }

  /** `Reconstruct`: the asserted bounds are what `Fits` says. */
  method Reconstruct(ranges: Ranges, rangeBytes: Bytes, otherBytes: Bytes, output: array<byte>) returns (size: nat)
    requires Fits(ranges, |rangeBytes|, |otherBytes|, 0)
    requires |rangeBytes| + |otherBytes| <= output.Length
    modifies output
    ensures size == |rangeBytes| + |otherBytes|
    ensures output[..] == Spliced(old(output[..]), 0, Rejoin(ranges, rangeBytes, otherBytes, 0))
  {
    hide Fits, Rejoin, Spliced;
    var frameIndex: nat, rangeBytesIndex: nat, otherBytesIndex: nat := 0, 0, 0;
    ghost var was, done := output[..], [];
    SpliceNone(was, 0);
    var k := 0;
    while k < |ranges|
      invariant 0 <= k <= |ranges| && rangeBytesIndex <= |rangeBytes| && otherBytesIndex <= |otherBytes|
      invariant frameIndex == rangeBytesIndex + otherBytesIndex == |done|
      invariant Fits(ranges[k..], |rangeBytes[rangeBytesIndex..]|, |otherBytes[otherBytesIndex..]|, frameIndex)
      invariant output[..] == Spliced(was, 0, done)
      invariant Rejoin(ranges, rangeBytes, otherBytes, 0) ==
        done + Rejoin(ranges[k..], rangeBytes[rangeBytesIndex..], otherBytes[otherBytesIndex..], frameIndex)
    {
      var range := ranges[k];
      RejoinFrom(ranges, rangeBytes, otherBytes, k, rangeBytesIndex, otherBytesIndex, frameIndex);
      if range.offset > frameIndex {
        var gap := range.offset - frameIndex;
        Copy(output, frameIndex, otherBytes, otherBytesIndex, gap);
        SpliceMore(was, 0, done, otherBytes[otherBytesIndex..otherBytesIndex + gap]);
        done := done + otherBytes[otherBytesIndex..otherBytesIndex + gap];
        otherBytesIndex := otherBytesIndex + gap;
        frameIndex := frameIndex + gap;
      }
      Copy(output, frameIndex, rangeBytes, rangeBytesIndex, range.size);
      SpliceMore(was, 0, done, rangeBytes[rangeBytesIndex..rangeBytesIndex + range.size]);
      done := done + rangeBytes[rangeBytesIndex..rangeBytesIndex + range.size];
      rangeBytesIndex := rangeBytesIndex + range.size;
      frameIndex := frameIndex + range.size;
      k := k + 1;
    }
    assert ranges[k..] == [];
    RejoinStep([], rangeBytes[rangeBytesIndex..], otherBytes[otherBytesIndex..], frameIndex);
    ghost var rest := otherBytes[otherBytesIndex..];
    assert Rejoin(ranges, rangeBytes, otherBytes, 0) == done + rest;
    if otherBytesIndex < |otherBytes| {
      var left := |otherBytes| - otherBytesIndex;
      assert otherBytes[otherBytesIndex..otherBytesIndex + left] == rest;
      Copy(output, frameIndex, otherBytes, otherBytesIndex, left);
      SpliceMore(was, 0, done, rest);
      frameIndex := frameIndex + left;
    } else {
      assert done + rest == done;
    }
    size := frameIndex;
  }

  /** One range of the loop above. */
  lemma RejoinFrom(ranges: Ranges, rangeBytes: Bytes, otherBytes: Bytes, k: nat, i: nat, j: nat, at: nat)
    requires k < |ranges| && i <= |rangeBytes| && j <= |otherBytes|
    requires Fits(ranges[k..], |rangeBytes[i..]|, |otherBytes[j..]|, at)
    ensures var r := ranges[k];
      && at <= r.offset && i + r.size <= |rangeBytes| && j + (r.offset - at) <= |otherBytes|
      && Fits(ranges[k + 1..], |rangeBytes[i + r.size..]|, |otherBytes[j + (r.offset - at)..]|, r.End())
      && Rejoin(ranges[k..], rangeBytes[i..], otherBytes[j..], at) ==
           otherBytes[j..j + (r.offset - at)] + rangeBytes[i..i + r.size] +
           Rejoin(ranges[k + 1..], rangeBytes[i + r.size..], otherBytes[j + (r.offset - at)..], r.End())
  {
    hide Fits, Rejoin;
    var r := ranges[k];
    assert ranges[k..][1..] == ranges[k + 1..];
    RejoinStep(ranges[k..], rangeBytes[i..], otherBytes[j..], at);
    assert rangeBytes[i..][r.size..] == rangeBytes[i + r.size..];
    assert otherBytes[j..][r.offset - at..] == otherBytes[j + (r.offset - at)..];
  }

  function OverflowAdd(a: nat, b: nat): (bool, nat) { (a + b >= LIMIT, (a + b) % LIMIT) }

  /** `ValidateUnencryptedRanges`, in 64-bit arithmetic. */
  method ValidateUnencryptedRanges(ranges: Ranges, frameSize: nat) returns (ok: bool)
    requires FitWord(ranges) && frameSize < LIMIT
    ensures ok <==> Ordered(ranges, 0, frameSize)
  {
    hide Ordered;
    if ranges == [] {
      OrderedStep(ranges, 0, frameSize);
      return true;
    }
    ghost var at: nat := 0;
    var i := 0;
    assert ranges[0..] == ranges;
    while i < |ranges|
      invariant 0 <= i <= |ranges|
      invariant if i < |ranges| then at <= ranges[i].offset else at <= frameSize
      invariant Ordered(ranges, 0, frameSize) <==> Ordered(ranges[i..], at, frameSize)
    {
      var current := ranges[i];
      var maxEnd := if i + 1 < |ranges| then ranges[i + 1].offset else frameSize;
      var (didOverflow, currentEnd) := OverflowAdd(current.offset, current.size);
      OrderedStep(ranges[i..], at, frameSize);
      assert ranges[i..][1..] == ranges[i + 1..];
      OrderedStep(ranges[i + 1..], current.End(), frameSize);
      assert maxEnd < LIMIT by { assert i + 1 < |ranges| ==> ranges[i + 1] in ranges; }
      if didOverflow || currentEnd > maxEnd {
        return false;
      }
      at := current.End();
      i := i + 1;
    }
    OrderedStep(ranges[i..], at, frameSize);
    ok := true;
  }

  /** The asserted bound keeps the result in one byte. */
  method UnencryptedRangesSize(ranges: Ranges) returns (size: nat)
    requires |Serialized(ranges)| < 256
    ensures size == |Serialized(ranges)|
  {
    size := 0;
    for k := 0 to |ranges|
      invariant size + |Serialized(ranges[k..])| == |Serialized(ranges)|
    {
      assert ranges[k..][1..] == ranges[k + 1..];
      var a := Leb128Size(ranges[k].offset);
      var b := Leb128Size(ranges[k].size);
      size := size + a + b;
    }
  }

  method SerializeUnencryptedRanges(ranges: Ranges, buffer: array<byte>, at: nat, bufferSize: nat) returns (size: nat)
    requires |Serialized(ranges)| <= bufferSize && at + bufferSize <= buffer.Length
    modifies buffer
    ensures size == |Serialized(ranges)|
    ensures buffer[..] == Spliced(old(buffer[..]), at, Serialized(ranges))
  {
    hide Spliced, Leb128;
    ghost var was, done := buffer[..], [];
    SpliceNone(was, at);
    var writeAt := at;
    assert ranges[0..] == ranges;
    for k := 0 to |ranges|
      invariant writeAt == at + |done| && done + Serialized(ranges[k..]) == Serialized(ranges)
      invariant buffer[..] == Spliced(was, at, done)
    {
      assert ranges[k..][1..] == ranges[k + 1..];
      var range := ranges[k];
      var a, b := Leb128(range.offset), Leb128(range.size);
      assert done + Serialized(ranges[k..]) == done + a + b + Serialized(ranges[k + 1..]);
      var offsetSize := Leb128Size(range.offset);
      var sizeSize := Leb128Size(range.size);
      if offsetSize + sizeSize > at + bufferSize - writeAt {
        assert false;
        break;
      }
      var written := WriteLeb128(range.offset, buffer, writeAt);
      SpliceMore(was, at, done, a);
      writeAt := writeAt + written;
      done := done + a;
      written := WriteLeb128(range.size, buffer, writeAt);
      SpliceMore(was, at, done, b);
      writeAt := writeAt + written;
      done := done + b;
    }
    assert ranges[|ranges|..] == [] && done + [] == done;
    size := writeAt - at;
  }

  /** `DeserializeUnencryptedRanges`: all of `s[readAt..end]`, or no range and no position. */
  method DeserializeUnencryptedRanges(s: Bytes, readAt: nat, end: nat) returns (ranges: Ranges, next: Option<nat>)
    requires readAt <= end <= |s|
    ensures match Deserialized(s[readAt..end])
      case Some(all) => ranges == all && next == Some(end)
      case None => ranges == [] && next == None
    ensures FitWord(ranges)
  {
    hide Read, Deserialized;
    ghost var goal := Deserialized(s[readAt..end]);
    ranges := [];
    var at: nat := readAt;
    PrependNothing(goal);
    while at < end
      invariant readAt <= at <= end && FitWord(ranges)
      invariant goal == Prepended(ranges, Deserialized(s[at..end]))
    {
      DeserializeStep(s, at, end, ranges);
      var offset, afterOffset := ReadLeb128(s, at, end);
      if afterOffset.None? { return [], None; }
      var size, afterSize := ReadLeb128(s, afterOffset.value, end);
      if afterSize.None? { return [], None; }
      ReadWord(s[at..end]);
      ReadWord(s[afterOffset.value..end]);
      ranges := ranges + [Range(offset, size)];
      at := afterSize.value;
    }
    assert s[at..end] == [];
    NothingLeft();
    assert ranges + [] == ranges;
    next := Some(at);
  }

  ghost function Prepended(ranges: Ranges, rest: Option<Ranges>): Option<Ranges> {
    match rest
    case None => None
    case Some(more) => Some(ranges + more)
  }

  lemma PrependNothing(goal: Option<Ranges>)
    ensures goal == Prepended([], goal)
  {
    if goal.Some? { assert [] + goal.value == goal.value; }
  }

  lemma NothingLeft()
    ensures Deserialized([]) == Some([])
  {}

  lemma ReadWord(s: Bytes)
    requires Read(s, 0).Some?
    ensures Read(s, 0).value.0 < LIMIT
  {
    ReadFits(s, 0);
    WordLimit();
  }

  lemma DeserializeStep(s: Bytes, at: nat, end: nat, ranges: Ranges)
    requires at < end <= |s|
    ensures Prepended(ranges, Deserialized(s[at..end])) ==
      match Read(s[at..end], 0)
        case None => None
        case Some((offset, used)) =>
          match Read(s[at + used..end], 0)
          case None => None
          case Some((size, more)) => Prepended(ranges + [Range(offset, size)], Deserialized(s[at + used + more..end]))
  {
    hide Read;
    var t := s[at..end];
    match Read(t, 0)
    case None =>
    case Some((offset, used)) =>
      assert t[used..] == s[at + used..end];
      match Read(t[used..], 0)
      case None =>
      case Some((size, more)) =>
        assert t[used + more..] == s[at + used + more..end];
        match Deserialized(t[used + more..])
        case None =>
        case Some(rest) => assert ranges + ([Range(offset, size)] + rest) == ranges + [Range(offset, size)] + rest;
  }

  class OutboundFrameProcessor {
    var frameIndex: nat
    var unencryptedBytes: Bytes
    var encryptedBytes: Bytes
    var ciphertextBytes: Bytes
    var unencryptedRanges: Ranges
    /** The calls made since the last reset. */
    ghost var pieces: seq<Piece>

    ghost function Value(): Outbound
      reads this
    {
      Outbound(frameIndex, unencryptedRanges, unencryptedBytes, encryptedBytes)
    }

    ghost predicate Valid()
      reads this
    {
      Value() == AddAll(pieces)
    }

    constructor ()
      ensures Valid() && pieces == []
    {
      frameIndex, unencryptedBytes, encryptedBytes, ciphertextBytes, unencryptedRanges, pieces := 0, [], [], [], [], [];
    }

    method Reset()
      modifies this
      ensures Valid() && pieces == []
    {
      frameIndex, unencryptedBytes, encryptedBytes, unencryptedRanges, pieces := 0, [], [], [], [];
    }

    method AddUnencryptedBytes(bytes: Bytes)
      requires Valid()
      modifies this
      ensures Valid() && pieces == old(pieces) + [Clear(bytes)]
    {
      var n := |unencryptedRanges|;
      if n > 0 && unencryptedRanges[n - 1].End() == frameIndex {
        var last := unencryptedRanges[n - 1];
        unencryptedRanges := unencryptedRanges[..n - 1] + [last.(size := last.size + |bytes|)];
      } else {
        unencryptedRanges := unencryptedRanges + [Range(frameIndex, |bytes|)];
      }
      unencryptedBytes := unencryptedBytes + bytes;
      frameIndex := frameIndex + |bytes|;
      assert (pieces + [Clear(bytes)])[..|pieces|] == pieces;
      pieces := pieces + [Clear(bytes)];
    }

    method AddEncryptedBytes(bytes: Bytes)
      requires Valid()
      modifies this
      ensures Valid() && pieces == old(pieces) + [Hidden(bytes)]
    {
      encryptedBytes := encryptedBytes + bytes;
      frameIndex := frameIndex + |bytes|;
      assert (pieces + [Hidden(bytes)])[..|pieces|] == pieces;
      pieces := pieces + [Hidden(bytes)];
    }

    /** The readable bytes in place, the ciphertext where the plaintext was. */
    method ReconstructFrame(frame: array<byte>) returns (size: nat)
      requires Valid() && |ciphertextBytes| == |encryptedBytes|
      modifies frame
      ensures Fits(unencryptedRanges, |unencryptedBytes|, |ciphertextBytes|, 0)
      ensures |unencryptedBytes| + |ciphertextBytes| > frame.Length ==> size == 0 && frame[..] == old(frame[..])
      ensures |unencryptedBytes| + |ciphertextBytes| <= frame.Length ==>
        && size == |unencryptedBytes| + |ciphertextBytes|
        && frame[..] == Spliced(old(frame[..]), 0, Rejoin(unencryptedRanges, unencryptedBytes, ciphertextBytes, 0))
    {
      hide Fits, Rejoin, AddAll, Stream, Spliced;
      AddAllSplits(pieces);
      RejoinUndoesSplit(unencryptedRanges, Stream(pieces), 0);
      if |unencryptedBytes| + |ciphertextBytes| > frame.Length {
        return 0;
      }
      size := Reconstruct(unencryptedRanges, unencryptedBytes, ciphertextBytes, frame);
    }
  }

  class InboundFrameProcessor {
    var isEncrypted: bool
    var originalSize: nat
    var tag: Bytes
    var truncatedNonce: nat
    var unencryptedRanges: Ranges
    var authenticated: Bytes
    var ciphertext: Bytes
    var plaintext: Bytes

    ghost predicate Valid()
      reads this
    {
      isEncrypted ==> Fits(unencryptedRanges, |authenticated|, |ciphertext|, 0) && |plaintext| == |ciphertext|
    }

    constructor ()
      ensures Valid() && !isEncrypted
    {
      isEncrypted, originalSize, tag, truncatedNonce := false, 0, [], NONCE_LIMIT - 1;
      unencryptedRanges, authenticated, ciphertext, plaintext := [], [], [], [];
    }

    method Clear()
      modifies this
      ensures !isEncrypted && unencryptedRanges == [] && authenticated == [] && ciphertext == [] && plaintext == []
    {
      isEncrypted, originalSize, truncatedNonce := false, 0, NONCE_LIMIT - 1;
      unencryptedRanges, authenticated, ciphertext, plaintext := [], [], [], [];
    }

    /** Any bytes at all may arrive; the frame counts as encrypted exactly when `Parse` reads it. */
    method ParseFrame(frame: Bytes)
      requires |frame| < LIMIT
      modifies this
      ensures Valid()
      ensures isEncrypted <==> Parse(frame).Some?
      ensures isEncrypted ==> originalSize == |frame|
      ensures isEncrypted ==>
        Parse(frame) == Some(Parsed(tag, truncatedNonce, unencryptedRanges, authenticated, ciphertext))
    {
      hide Read, Deserialized, Ordered, Fits, Inside, Gaps;
      Clear();
      var n := |frame|;
      if n < MIN_SUPPLEMENTAL { return; }
      if frame[n - 2..] != MARKER { return; }
      var supplementalBytesSize := frame[n - 3] as nat;
      if n < supplementalBytesSize { return; }
      if supplementalBytesSize < MIN_SUPPLEMENTAL { return; }
      var supplementalStart := n - supplementalBytesSize;
      tag := frame[supplementalStart..supplementalStart + TAG_BYTES];
      var nonce, readAt := ReadLeb128(frame, supplementalStart + TAG_BYTES, n - 3);
      truncatedNonce := nonce % NONCE_LIMIT;
      ghost var body := frame[supplementalStart + TAG_BYTES..n - 3];
      if readAt.None? { return; }
      assert frame[readAt.value..n - 3] == body[readAt.value - (supplementalStart + TAG_BYTES)..];
      var ranges, next := DeserializeUnencryptedRanges(frame, readAt.value, n - 3);
      unencryptedRanges := ranges;
      if next.None? { return; }
      var ok := ValidateUnencryptedRanges(ranges, n);
      if !ok { return; }
      originalSize := n;
      SplitFrame(frame, supplementalStart);
      ParsedFits(ranges, frame, 0, supplementalStart);
      plaintext := seq(|ciphertext|, _ => 0 as byte);
      isEncrypted := true;
    }

    method SplitFrame(frame: Bytes, actualFrameSize: nat)
      requires Ordered(unencryptedRanges, 0, |frame|) && actualFrameSize <= |frame|
      requires authenticated == [] && ciphertext == []
      modifies this`authenticated, this`ciphertext
      ensures authenticated == Inside(unencryptedRanges, frame, 0)
      ensures ciphertext == Gaps(unencryptedRanges, frame, 0, actualFrameSize)
    {
      hide Ordered, Inside, Gaps;
      var frameIndex: nat := 0;
      var ranges := unencryptedRanges;
      assert ranges[0..] == ranges && frame[0..] == frame;
      var k := 0;
      while k < |ranges|
        invariant 0 <= k <= |ranges| && frameIndex <= |frame|
        invariant Ordered(ranges[k..], frameIndex, frameIndex + |frame[frameIndex..]|)
        invariant authenticated + Inside(ranges[k..], frame[frameIndex..], frameIndex) == Inside(ranges, frame, 0)
        invariant ciphertext + Gaps(ranges[k..], frame[frameIndex..], frameIndex, actualFrameSize) ==
          Gaps(ranges, frame, 0, actualFrameSize)
      {
        var range := ranges[k];
        SplitFrom(ranges, frame, k, frameIndex, actualFrameSize);
        var encryptedBytes := range.offset - frameIndex;
        if encryptedBytes > 0 {
          ciphertext := ciphertext + frame[frameIndex..frameIndex + encryptedBytes];
        }
        authenticated := authenticated + frame[range.offset..range.offset + range.size];
        frameIndex := range.offset + range.size;
        k := k + 1;
      }
      GapsAtEnd(frame, frameIndex, actualFrameSize);
      assert ranges[k..] == [];
      if frameIndex < actualFrameSize {
        ciphertext := ciphertext + frame[frameIndex..actualFrameSize];
      }
    }

    /** Writes the plaintext back between the readable bytes; too small a frame takes nothing. */
    method ReconstructFrame(frame: array<byte>) returns (size: nat)
      requires Valid()
      modifies frame
      ensures !isEncrypted || |authenticated| + |plaintext| > frame.Length ==> size == 0 && frame[..] == old(frame[..])
      ensures isEncrypted && |authenticated| + |plaintext| <= frame.Length ==>
        && size == |authenticated| + |plaintext|
        && frame[..] == Spliced(old(frame[..]), 0, Rejoin(unencryptedRanges, authenticated, plaintext, 0))
    {
      hide Fits, Rejoin, Spliced;
      if !isEncrypted { return 0; }
      if |authenticated| + |plaintext| > frame.Length { return 0; }
      size := Reconstruct(unencryptedRanges, authenticated, plaintext, frame);
    }
  }

  lemma GapsAtEnd(frame: Bytes, at: nat, end: nat)
    requires at <= |frame| && end <= |frame|
    ensures Ordered([], at, at + |frame[at..]|)
    ensures Inside([], frame[at..], at) == []
    ensures Gaps([], frame[at..], at, end) == if at < end then frame[at..end] else []
  {
    if at < end { assert frame[at..][..end - at] == frame[at..end]; }
  }

  /** One range of the splitting loop. */
  lemma SplitFrom(ranges: Ranges, frame: Bytes, k: nat, at: nat, end: nat)
    requires k < |ranges| && at <= |frame| && end <= |frame|
    requires Ordered(ranges[k..], at, at + |frame[at..]|)
    ensures var r := ranges[k];
      && at <= r.offset && r.End() <= |frame|
      && Ordered(ranges[k + 1..], r.End(), r.End() + |frame[r.End()..]|)
      && Inside(ranges[k..], frame[at..], at) ==
           frame[r.offset..r.End()] + Inside(ranges[k + 1..], frame[r.End()..], r.End())
      && Gaps(ranges[k..], frame[at..], at, end) ==
           frame[at..r.offset] + Gaps(ranges[k + 1..], frame[r.End()..], r.End(), end)
  {
    hide Ordered, Inside;
    var r := ranges[k];
    assert ranges[k..][1..] == ranges[k + 1..];
    SplitStep(ranges[k..], frame[at..], at);
    assert frame[at..][r.End() - at..] == frame[r.End()..];
    assert frame[at..][r.offset - at..r.End() - at] == frame[r.offset..r.End()];
    assert frame[at..][..r.offset - at] == frame[at..r.offset];
  }
}
