/** Frames split into readable and encrypted ranges and rejoined (`frame_processors.cpp`), and the
    layout of an encrypted frame (`encryptor.cpp`), as functions of byte sequences. */
module Frames {
  import opened Wrappers
  import opened Crypto
  import opened Leb128s

  datatype Range = Range(offset: nat, size: nat) {
    function End(): nat { offset + size }
  }

  type Ranges = seq<Range>

  /** The ranges follow each other without overlap, from `at` on and inside `limit`. */
  predicate Ordered(ranges: Ranges, at: nat, limit: nat) {
    if ranges == [] then at <= limit
    else at <= ranges[0].offset && Ordered(ranges[1..], ranges[0].End(), limit)
  }

  lemma {:induction false} OrderedFits(ranges: Ranges, at: nat, limit: nat)
    requires Ordered(ranges, at, limit)
    ensures at <= limit
    ensures ranges != [] ==> ranges[0].End() <= limit
  {
    if ranges != [] { OrderedFits(ranges[1..], ranges[0].End(), limit); }
  }

  lemma {:induction false} OrderedLonger(ranges: Ranges, at: nat, limit: nat, more: nat)
    requires Ordered(ranges, at, limit) && limit <= more
    ensures Ordered(ranges, at, more)
  {
    if ranges != [] { OrderedLonger(ranges[1..], ranges[0].End(), limit, more); }
  }

  /** The bytes inside the ranges, for the part `s` of a stream that starts at `at`. */
  function Inside(ranges: Ranges, s: Bytes, at: nat): Bytes
    requires Ordered(ranges, at, at + |s|)
  {
    OrderedFits(ranges, at, at + |s|);
    if ranges == [] then []
    else
      var r := ranges[0];
      s[r.offset - at..r.End() - at] + Inside(ranges[1..], s[r.End() - at..], r.End())
  }

  /** The bytes outside the ranges. */
  function Outside(ranges: Ranges, s: Bytes, at: nat): Bytes
    requires Ordered(ranges, at, at + |s|)
  {
    OrderedFits(ranges, at, at + |s|);
    if ranges == [] then s
    else
      var r := ranges[0];
      s[..r.offset - at] + Outside(ranges[1..], s[r.End() - at..], r.End())
  }

  /** Both sources hold what the ranges ask for, and the first nothing more. */
  predicate Fits(ranges: Ranges, rangeBytes: nat, otherBytes: nat, at: nat) {
    if ranges == [] then rangeBytes == 0
    else
      && at <= ranges[0].offset <= at + otherBytes && ranges[0].size <= rangeBytes
      && Fits(ranges[1..], rangeBytes - ranges[0].size, otherBytes - (ranges[0].offset - at), ranges[0].End())
  }

  /** Rejoining: bytes of the second source up to each range, then the bytes of the range. */
  function Rejoin(ranges: Ranges, rangeBytes: Bytes, otherBytes: Bytes, at: nat): (s: Bytes)
    requires Fits(ranges, |rangeBytes|, |otherBytes|, at)
    ensures |s| == |rangeBytes| + |otherBytes|
  {
    if ranges == [] then otherBytes
    else
      var gap := ranges[0].offset - at;
      otherBytes[..gap] + rangeBytes[..ranges[0].size] +
      Rejoin(ranges[1..], rangeBytes[ranges[0].size..], otherBytes[gap..], ranges[0].End())
  }

  lemma TwoParts(a: Bytes, b: Bytes)
    ensures (a + b)[..|a|] == a && (a + b)[|a|..] == b
  {}

  lemma ThreeParts(a: Bytes, b: Bytes, c: Bytes)
    ensures var s := a + b + c;
      s[..|a|] == a && s[|a|..|a| + |b|] == b && s[|a| + |b|..] == c
  {}

  lemma CutInThree(s: Bytes, i: nat, j: nat)
    requires i <= j <= |s|
    ensures s[..i] + s[i..j] + s[j..] == s
  {}

  lemma OrderedStep(ranges: Ranges, at: nat, limit: nat)
    ensures ranges == [] ==> (Ordered(ranges, at, limit) <==> at <= limit)
    ensures ranges != [] ==>
      (Ordered(ranges, at, limit) <==>
       at <= ranges[0].offset && ranges[0].End() <= limit && Ordered(ranges[1..], ranges[0].End(), limit))
  {
    if Ordered(ranges, at, limit) { OrderedFits(ranges, at, limit); }
  }

  lemma SplitStep(ranges: Ranges, s: Bytes, at: nat)
    requires Ordered(ranges, at, at + |s|)
    ensures ranges == [] ==> Inside(ranges, s, at) == [] && Outside(ranges, s, at) == s
    ensures ranges != [] ==> var r := ranges[0];
      && at <= r.offset && r.End() <= at + |s| && Ordered(ranges[1..], r.End(), r.End() + |s[r.End() - at..]|)
      && Inside(ranges, s, at) == s[r.offset - at..r.End() - at] + Inside(ranges[1..], s[r.End() - at..], r.End())
      && Outside(ranges, s, at) == s[..r.offset - at] + Outside(ranges[1..], s[r.End() - at..], r.End())
  {
    hide Ordered;
    OrderedStep(ranges, at, at + |s|);
  }

  lemma RejoinStep(ranges: Ranges, rangeBytes: Bytes, otherBytes: Bytes, at: nat)
    ensures ranges == [] ==>
      && (Fits(ranges, |rangeBytes|, |otherBytes|, at) <==> rangeBytes == [])
      && (rangeBytes == [] ==> Rejoin(ranges, rangeBytes, otherBytes, at) == otherBytes)
    ensures ranges != [] ==> var r := ranges[0];
      var ok := at <= r.offset <= at + |otherBytes| && r.size <= |rangeBytes| &&
        Fits(ranges[1..], |rangeBytes[r.size..]|, |otherBytes[r.offset - at..]|, r.End());
      && (Fits(ranges, |rangeBytes|, |otherBytes|, at) <==> ok)
      && (ok ==>
            var tail := Rejoin(ranges[1..], rangeBytes[r.size..], otherBytes[r.offset - at..], r.End());
            Rejoin(ranges, rangeBytes, otherBytes, at) == otherBytes[..r.offset - at] + rangeBytes[..r.size] + tail)
  {}

  /** Rejoining undoes splitting. */
  lemma {:induction false} RejoinUndoesSplit(ranges: Ranges, s: Bytes, at: nat)
    requires Ordered(ranges, at, at + |s|)
    ensures Fits(ranges, |Inside(ranges, s, at)|, |Outside(ranges, s, at)|, at)
    ensures Rejoin(ranges, Inside(ranges, s, at), Outside(ranges, s, at), at) == s
  {
    hide Ordered, Inside, Outside, Fits, Rejoin;
    SplitStep(ranges, s, at);
    RejoinStep(ranges, Inside(ranges, s, at), Outside(ranges, s, at), at);
    if ranges != [] {
      var r := ranges[0];
      var i, j := r.offset - at, r.End() - at;
      RejoinUndoesSplit(ranges[1..], s[j..], r.End());
      TwoParts(s[i..j], Inside(ranges[1..], s[j..], r.End()));
      TwoParts(s[..i], Outside(ranges[1..], s[j..], r.End()));
      CutInThree(s, i, j);
    }
  }

  /** Splitting undoes rejoining. */
  lemma {:induction false} SplitUndoesRejoin(ranges: Ranges, rangeBytes: Bytes, otherBytes: Bytes, at: nat)
    requires Fits(ranges, |rangeBytes|, |otherBytes|, at)
    ensures var s := Rejoin(ranges, rangeBytes, otherBytes, at);
      && Ordered(ranges, at, at + |s|)
      && Inside(ranges, s, at) == rangeBytes
      && Outside(ranges, s, at) == otherBytes
  {
    hide Ordered, Inside, Outside, Fits, Rejoin;
    RejoinStep(ranges, rangeBytes, otherBytes, at);
    var s := Rejoin(ranges, rangeBytes, otherBytes, at);
    OrderedStep(ranges, at, at + |s|);
    if ranges == [] {
      SplitStep(ranges, s, at);
    } else {
      var r := ranges[0];
      var gap := r.offset - at;
      var rest := Rejoin(ranges[1..], rangeBytes[r.size..], otherBytes[gap..], r.End());
      SplitUndoesRejoin(ranges[1..], rangeBytes[r.size..], otherBytes[gap..], r.End());
      ThreeParts(otherBytes[..gap], rangeBytes[..r.size], rest);
      TwoHalves(rangeBytes, r.size);
      TwoHalves(otherBytes, gap);
      SplitStep(ranges, s, at);
    }
  }

  lemma TwoHalves(s: Bytes, i: nat)
    requires i <= |s|
    ensures s[..i] + s[i..] == s
  {}

  // --------------------------------------------------------------------------
  // What the outbound processor accumulates
  // --------------------------------------------------------------------------

  datatype Outbound = Outbound(frameIndex: nat, ranges: Ranges, unencrypted: Bytes, encrypted: Bytes)

  const NO_BYTES := Outbound(0, [], [], [])

  /** One call of `AddUnencryptedBytes` or `AddEncryptedBytes`. */
  datatype Piece = Clear(bytes: Bytes) | Hidden(bytes: Bytes)

  function Add(o: Outbound, p: Piece): Outbound {
    match p
    case Clear(b) =>
      var ranges :=
        if o.ranges != [] && o.ranges[|o.ranges| - 1].End() == o.frameIndex then
          var last := o.ranges[|o.ranges| - 1];
          o.ranges[..|o.ranges| - 1] + [last.(size := last.size + |b|)]
        else o.ranges + [Range(o.frameIndex, |b|)];
      Outbound(o.frameIndex + |b|, ranges, o.unencrypted + b, o.encrypted)
    case Hidden(b) => Outbound(o.frameIndex + |b|, o.ranges, o.unencrypted, o.encrypted + b)
  }

  function AddAll(pieces: seq<Piece>): Outbound {
    if pieces == [] then NO_BYTES else Add(AddAll(pieces[..|pieces| - 1]), pieces[|pieces| - 1])
  }

  /** The byte stream the pieces spell. */
  function Stream(pieces: seq<Piece>): Bytes {
    if pieces == [] then [] else Stream(pieces[..|pieces| - 1]) + pieces[|pieces| - 1].bytes
  }

  /** The processor holds the split of a stream. */
  ghost predicate Splits(o: Outbound, s: Bytes) {
    && o.frameIndex == |s| && Ordered(o.ranges, 0, |s|)
    && o.unencrypted == Inside(o.ranges, s, 0) && o.encrypted == Outside(o.ranges, s, 0)
  }

  lemma CutLonger(s: Bytes, b: Bytes, i: nat, j: nat)
    requires i <= j <= |s|
    ensures (s + b)[..i] == s[..i] && (s + b)[i..j] == s[i..j] && (s + b)[j..] == s[j..] + b
  {}

  lemma {:induction false} SplitLonger(ranges: Ranges, s: Bytes, at: nat, b: Bytes)
    requires Ordered(ranges, at, at + |s|)
    ensures Ordered(ranges, at, at + |s + b|)
    ensures Inside(ranges, s + b, at) == Inside(ranges, s, at)
    ensures Outside(ranges, s + b, at) == Outside(ranges, s, at) + b
  {
    hide Ordered, Inside, Outside;
    SplitStep(ranges, s, at);
    OrderedStep(ranges, at, at + |s + b|);
    OrderedStep(ranges, at, at + |s|);
    if ranges != [] {
      var r := ranges[0];
      SplitLonger(ranges[1..], s[r.End() - at..], r.End(), b);
      CutLonger(s, b, r.offset - at, r.End() - at);
    }
    SplitStep(ranges, s + b, at);
  }

  lemma OneRange(r: Range, s: Bytes, at: nat)
    requires at <= r.offset && r.End() == at + |s|
    ensures Ordered([r], at, at + |s|)
    ensures Inside([r], s, at) == s[r.offset - at..] && Outside([r], s, at) == s[..r.offset - at]
  {
    hide Ordered, Inside, Outside;
    assert [r][1..] == [] && s[|s|..] == [];
    OrderedStep([], r.End(), r.End());
    OrderedStep([r], at, at + |s|);
    SplitStep([r], s, at);
    SplitStep([], [], r.End());
  }

  /** A range appended at the end of the stream. */
  lemma {:induction false} SplitNewRange(ranges: Ranges, s: Bytes, at: nat, b: Bytes)
    requires Ordered(ranges, at, at + |s|)
    ensures var more := ranges + [Range(at + |s|, |b|)];
      && Ordered(more, at, at + |s + b|)
      && Inside(more, s + b, at) == Inside(ranges, s, at) + b
      && Outside(more, s + b, at) == Outside(ranges, s, at)
  {
    hide Ordered, Inside, Outside;
    var last := Range(at + |s|, |b|);
    SplitStep(ranges, s, at);
    OrderedStep(ranges, at, at + |s|);
    OrderedStep(ranges + [last], at, at + |s + b|);
    TwoParts(s, b);
    if ranges == [] {
      OneRange(last, s + b, at);
      assert ranges + [last] == [last];
    } else {
      var r := ranges[0];
      SplitNewRange(ranges[1..], s[r.End() - at..], r.End(), b);
      CutLonger(s, b, r.offset - at, r.End() - at);
      assert (ranges + [last])[1..] == ranges[1..] + [last];
      SplitStep(ranges + [last], s + b, at);
    }
  }

  /** A last range that ends where the stream ends grows with it. */
  lemma {:induction false} SplitLastRange(ranges: Ranges, s: Bytes, at: nat, b: Bytes)
    requires Ordered(ranges, at, at + |s|) && ranges != [] && ranges[|ranges| - 1].End() == at + |s|
    ensures var last := ranges[|ranges| - 1];
      var more := ranges[..|ranges| - 1] + [last.(size := last.size + |b|)];
      && Ordered(more, at, at + |s + b|)
      && Inside(more, s + b, at) == Inside(ranges, s, at) + b
      && Outside(more, s + b, at) == Outside(ranges, s, at)
  {
    hide Ordered, Inside, Outside;
    var last := ranges[|ranges| - 1];
    var grown := last.(size := last.size + |b|);
    var more := ranges[..|ranges| - 1] + [grown];
    SplitStep(ranges, s, at);
    OrderedStep(ranges, at, at + |s|);
    OrderedStep(more, at, at + |s + b|);
    if |ranges| == 1 {
      assert ranges == [last] && more == [grown];
      OneRange(last, s, at);
      OneRange(grown, s + b, at);
      CutLonger(s, b, last.offset - at, last.offset - at);
    } else {
      var r := ranges[0];
      SplitLastRange(ranges[1..], s[r.End() - at..], r.End(), b);
      CutLonger(s, b, r.offset - at, r.End() - at);
      assert more[1..] == ranges[1..][..|ranges| - 2] + [grown];
      SplitStep(more, s + b, at);
    }
  }

  /** Whatever the sequence of calls, the processor holds the split of the stream they spell. */
  lemma {:induction false} AddAllSplits(pieces: seq<Piece>)
    ensures Splits(AddAll(pieces), Stream(pieces))
  {
    if pieces != [] {
      var before := pieces[..|pieces| - 1];
      AddAllSplits(before);
      AddSplits(AddAll(before), Stream(before), pieces[|pieces| - 1]);
    }
  }

  lemma AddSplits(o: Outbound, s: Bytes, p: Piece)
    requires Splits(o, s)
    ensures Splits(Add(o, p), s + p.bytes)
  {
    hide Ordered, Inside, Outside;
    if p.Hidden? {
      SplitLonger(o.ranges, s, 0, p.bytes);
    } else if o.ranges != [] && o.ranges[|o.ranges| - 1].End() == o.frameIndex {
      SplitLastRange(o.ranges, s, 0, p.bytes);
    } else {
      SplitNewRange(o.ranges, s, 0, p.bytes);
    }
  }

  // --------------------------------------------------------------------------
  // The supplemental data at the end of an encrypted frame
  // --------------------------------------------------------------------------

  const TAG_BYTES := 8               // kAesGcm128TruncatedTagBytes
  const MIN_SUPPLEMENTAL := 11       // tag, size byte and marker
  const MARKER: Bytes := [0xFA, 0xFA]
  const NONCE_LIMIT := 0x1_0000_0000

  function Serialized(ranges: Ranges): Bytes {
    if ranges == [] then []
    else Leb128(ranges[0].offset) + Leb128(ranges[0].size) + Serialized(ranges[1..])
  }

  function Deserialized(s: Bytes): Option<Ranges>
    decreases |s|
  {
    if s == [] then Some([])
    else
      match Read(s, 0)
      case None => None
      case Some((offset, used)) =>
        match Read(s[used..], 0)
        case None => None
        case Some((size, more)) =>
          match Deserialized(s[used + more..])
          case None => None
          case Some(rest) => Some([Range(offset, size)] + rest)
  }

  ghost predicate FitWord(ranges: Ranges) {
    forall r <- ranges :: r.offset < LIMIT && r.size < LIMIT
  }

  lemma {:induction false} RangesRoundTrip(ranges: Ranges)
    requires FitWord(ranges)
    ensures Deserialized(Serialized(ranges)) == Some(ranges)
  {
    if ranges != [] {
      var r := ranges[0];
      assert r in ranges && forall x <- ranges[1..] :: x in ranges;
      RangesRoundTrip(ranges[1..]);
      FirstRange(r, Serialized(ranges[1..]));
      assert [r] + ranges[1..] == ranges;
    }
  }

  lemma FirstRange(r: Range, rest: Bytes)
    requires r.offset < LIMIT && r.size < LIMIT
    ensures var s := Leb128(r.offset) + Leb128(r.size) + rest;
      Deserialized(s) == match Deserialized(rest)
        case None => None
        case Some(ranges) => Some([r] + ranges)
  {
    hide Leb128, Read;
    var a, b := Leb128(r.offset), Leb128(r.size);
    WordLimit();
    ReadUndoesWrite(r.offset, b + rest, 0);
    ReadUndoesWrite(r.size, rest, 0);
    assert a + b + rest == a + (b + rest);
    TwoParts(a, b + rest);
    ThreeParts(a, b, rest);
  }

  /** What `Encrypt` appends to the rejoined stream. */
  function SupplementalSize(nonce: nat, ranges: Ranges): nat {
    MIN_SUPPLEMENTAL + |Leb128(nonce)| + |Serialized(ranges)|
  }

  function Layout(stream: Bytes, tag: Bytes, nonce: nat, ranges: Ranges): Bytes
    requires SupplementalSize(nonce, ranges) < 256
  {
    stream + tag + Leb128(nonce) + Serialized(ranges) + [SupplementalSize(nonce, ranges) as byte] + MARKER
  }

  datatype Parsed = Parsed(tag: Bytes, nonce: nat, ranges: Ranges, authenticated: Bytes, ciphertext: Bytes)

  /** The bytes between the ranges, and behind them up to `end` if anything is left there. */
  function Gaps(ranges: Ranges, s: Bytes, at: nat, end: nat): Bytes
    requires Ordered(ranges, at, at + |s|) && end <= at + |s|
  {
    OrderedFits(ranges, at, at + |s|);
    if ranges == [] then if at < end then s[..end - at] else []
    else
      var r := ranges[0];
      s[..r.offset - at] + Gaps(ranges[1..], s[r.End() - at..], r.End(), end)
  }

  /** `ParseFrame`: nothing when the frame does not look encrypted. */
  function Parse(frame: Bytes): Option<Parsed> {
    var n := |frame|;
    if n < MIN_SUPPLEMENTAL || frame[n - 2..] != MARKER then None
    else
      var size := frame[n - 3] as nat;
      if n < size || size < MIN_SUPPLEMENTAL then None
      else
        var body := frame[n - size + TAG_BYTES..n - 3];
        match Read(body, 0)
        case None => None
        case Some((nonce, used)) =>
          match Deserialized(body[used..])
          case None => None
          case Some(ranges) =>
            if !Ordered(ranges, 0, n) then None
            else Some(Parsed(frame[n - size..n - size + TAG_BYTES], nonce % NONCE_LIMIT, ranges,
              Inside(ranges, frame, 0), Gaps(ranges, frame, 0, n - size)))
  }

  lemma {:induction false} GapsAreOutside(ranges: Ranges, s: Bytes, rest: Bytes, at: nat)
    requires Ordered(ranges, at, at + |s|)
    ensures Ordered(ranges, at, at + |s + rest|)
    ensures Gaps(ranges, s + rest, at, at + |s|) == Outside(ranges, s, at)
  {
    SplitLonger(ranges, s, at, rest);
    SplitStep(ranges, s, at);
    OrderedStep(ranges, at, at + |s|);
    hide Ordered, Outside, Inside;
    TwoParts(s, rest);
    if ranges != [] {
      var r := ranges[0];
      GapsAreOutside(ranges[1..], s[r.End() - at..], rest, r.End());
      CutLonger(s, rest, r.offset - at, r.End() - at);
    }
  }

  /** Parsing recovers everything `Encrypt` laid out. */
  lemma ParseUndoesLayout(stream: Bytes, tag: Bytes, nonce: nat, ranges: Ranges)
    requires SupplementalSize(nonce, ranges) < 256 && |tag| == TAG_BYTES && nonce < NONCE_LIMIT
    requires FitWord(ranges) && Ordered(ranges, 0, |stream|)
    ensures Parse(Layout(stream, tag, nonce, ranges)) ==
      Some(Parsed(tag, nonce, ranges, Inside(ranges, stream, 0), Outside(ranges, stream, 0)))
  {
    hide Leb128, Read, Deserialized, Inside, Outside, Gaps, Ordered, Serialized, Parse;
    var nonceBytes, rangeBytes := Leb128(nonce), Serialized(ranges);
    var size := SupplementalSize(nonce, ranges);
    var rest := tag + (nonceBytes + rangeBytes) + [size as byte] + MARKER;
    assert Layout(stream, tag, nonce, ranges) == stream + rest;
    hide Layout, SupplementalSize;
    FrameParts(stream, tag, nonceBytes + rangeBytes, size);
    TwoParts(nonceBytes, rangeBytes);
    WordLimit();
    ReadUndoesWrite(nonce, rangeBytes, 0);
    RangesRoundTrip(ranges);
    GapsAreOutside(ranges, stream, rest, 0);
    SplitLonger(ranges, stream, 0, rest);
    ParseParts(stream + rest, size, tag, nonceBytes + rangeBytes, nonce, |nonceBytes|, ranges);
  }

  /** What `Parse` makes of a frame whose parts are in place. */
  lemma ParseParts(frame: Bytes, size: nat, tag: Bytes, body: Bytes, nonce: nat, used: nat, ranges: Ranges)
    requires MIN_SUPPLEMENTAL <= size <= |frame| && size < 256
    requires frame[|frame| - 2..] == MARKER && frame[|frame| - 3] as nat == size
    requires frame[|frame| - size..|frame| - size + TAG_BYTES] == tag
    requires frame[|frame| - size + TAG_BYTES..|frame| - 3] == body
    requires Read(body, 0) == Some((nonce, used)) && Deserialized(body[used..]) == Some(ranges)
    requires nonce < NONCE_LIMIT && Ordered(ranges, 0, |frame|)
    ensures Parse(frame) ==
      Some(Parsed(tag, nonce, ranges, Inside(ranges, frame, 0), Gaps(ranges, frame, 0, |frame| - size)))
  {
    hide Read, Deserialized, Inside, Gaps, Ordered;
  }

  /** Where the parts of a frame are found from its end. */
  lemma FrameParts(stream: Bytes, tag: Bytes, body: Bytes, size: nat)
    requires size < 256 && size == |tag| + |body| + 3
    ensures var frame := stream + (tag + body + [size as byte] + MARKER);
      var n := |frame|;
      && n - size == |stream|
      && frame[n - 2..] == MARKER && frame[n - 3] == size as byte
      && frame[n - size..n - size + |tag|] == tag
      && frame[n - size + |tag|..n - 3] == body
  {}

  /** Splitting any frame that parses, even a forged one, leaves what rejoining asks for. */
  lemma {:induction false} ParsedFits(ranges: Ranges, s: Bytes, at: nat, end: nat)
    requires Ordered(ranges, at, at + |s|) && end <= at + |s|
    ensures Fits(ranges, |Inside(ranges, s, at)|, |Gaps(ranges, s, at, end)|, at)
  {
    OrderedFits(ranges, at, at + |s|);
    if ranges != [] { ParsedFits(ranges[1..], s[ranges[0].End() - at..], ranges[0].End(), end); }
  }

  /** From the calls on the sender's processor to the stream rebuilt by the receiver: the frame parses
      to the same tag, nonce, ranges, associated data and ciphertext, and rejoining the readable bytes
      with the plaintext gives back the stream the calls spelled. */
  lemma FrameRoundTrip(pieces: seq<Piece>, ciphertext: Bytes, tag: Bytes, nonce: nat)
    requires |Stream(pieces)| < LIMIT && |tag| == TAG_BYTES && nonce < NONCE_LIMIT
    requires SupplementalSize(nonce, AddAll(pieces).ranges) < 256
    requires |ciphertext| == |AddAll(pieces).encrypted|
    ensures var o := AddAll(pieces);
      && Fits(o.ranges, |o.unencrypted|, |ciphertext|, 0)
      && Parse(Layout(Rejoin(o.ranges, o.unencrypted, ciphertext, 0), tag, nonce, o.ranges)) ==
           Some(Parsed(tag, nonce, o.ranges, o.unencrypted, ciphertext))
      && Fits(o.ranges, |o.unencrypted|, |o.encrypted|, 0)
      && Rejoin(o.ranges, o.unencrypted, o.encrypted, 0) == Stream(pieces)
  {
    hide Parse, Layout, AddAll, Stream, Ordered, Inside, Outside, Rejoin, SupplementalSize, Fits;
    var o, s := AddAll(pieces), Stream(pieces);
    AddAllSplits(pieces);
    RejoinUndoesSplit(o.ranges, s, 0);
    OrderedFitsWord(o.ranges, 0, |s|);
    SplitUndoesRejoin(o.ranges, o.unencrypted, ciphertext, 0);
    var sent := Rejoin(o.ranges, o.unencrypted, ciphertext, 0);
    ParseUndoesLayout(sent, tag, nonce, o.ranges);
  }

  lemma {:induction false} OrderedFitsWord(ranges: Ranges, at: nat, limit: nat)
    requires Ordered(ranges, at, limit) && limit < LIMIT
    ensures FitWord(ranges)
  {
    if ranges != [] {
      OrderedFits(ranges, at, limit);
      OrderedFitsWord(ranges[1..], ranges[0].End(), limit);
      assert forall r <- ranges :: r == ranges[0] || r in ranges[1..];
    }
  }
}
