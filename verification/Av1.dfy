/** The rewriting of AV1 frames before encryption (`ProcessFrameAv1` in `codec_utils.cpp`). */
module Av1 {
  import opened Wrappers
  import opened Crypto
  import opened Bits
  import opened Leb128s
  import opened Frames
  import opened FrameProcessors

  /** One OBU as found in a frame: its header byte, its extension byte and its payload. */
  datatype Obu = Obu(header: byte, extension: Option<byte>, payload: Bytes)

  predicate HasExtension(header: byte) { And(header as nat, 4) != 0 }

  predicate HasSize(header: byte) { And(header as nat, 2) != 0 }

  /** Flips the "has size" bit off and no other. */
  function WithoutSize(header: byte): (h: byte)
    ensures !HasSize(h) && HasExtension(h) == HasExtension(header) && KindOf(h) == KindOf(header)
    ensures h as nat == header as nat - 2 * (header as nat / 2 % 2)
    ensures !HasSize(header) ==> h == header
  {
    ClearedBits(header as nat);
    AndNot(header as nat, 2) as byte
  }

  lemma ClearedBits(x: nat)
    ensures var y := AndNot(x, 2);
      && y <= x && And(y, 2) == 0 && And(y, 4) == And(x, 4)
      && Shr(And(y, 0x78), 3) == Shr(And(x, 0x78), 3)
      && y == x - 2 * (x / 2 % 2) && (And(x, 2) == 0 <==> x / 2 % 2 == 0)
  {
    hide And, AndNot, Shr;
    HeaderBits(x);
    BitTwoOff(x);
    HeaderBits(x - 2 * (x / 2 % 2));
  }

  lemma BitTwoOff(x: nat)
    ensures var y := x - 2 * (x / 2 % 2);
      y / 2 % 2 == 0 && y / 4 == x / 4 && y / 8 == x / 8
  {
    var p, c, b, l := x / 8, x / 4 % 2, x / 2 % 2, x % 2;
    assert x == 8 * p + 4 * c + 2 * b + l;
    ByBits(p, c, b, l);
    ByBits(p, c, 0, l);
  }

  lemma ByBits(p: nat, c: nat, b: nat, l: nat)
    requires c < 2 && b < 2 && l < 2
    ensures var x := 8 * p + 4 * c + 2 * b + l;
      x / 2 % 2 == b && x / 4 == 2 * p + c && x / 8 == p
  {
    var x := 8 * p + 4 * c + 2 * b + l;
    DivUnique(x, 2, 4 * p + 2 * c + b, l);
    DivUnique(x, 4, 2 * p + c, 2 * b + l);
    DivUnique(x, 8, p, 4 * c + 2 * b + l);
    DivUnique(4 * p + 2 * c + b, 2, 2 * p + c, b);
  }

  function KindOf(header: byte): nat { Shr(And(header as nat, 0x78), 3) }

  /** The masks of the header byte in arithmetic. */
  lemma HeaderBits(x: nat)
    ensures And(x, 4) == 4 * (x / 4 % 2) && And(x, 2) == 2 * (x / 2 % 2)
    ensures AndNot(x, 2) == x - 2 * (x / 2 % 2)
    ensures Shr(And(x, 0x78), 3) == x / 8 % 16
  {
    var h, q := x / 2, x / 4;
    assert q == h / 2;
    AndStep(x, 2);
    AndStep(h, 1);
    AndStep(q, 0);
    AndStep(x, 1);
    AndStep(h, 0);
    LowFour(x / 8);
    AndNotZero(h / 2);
    assert AndNot(h, 1) == 2 * AndNot(h / 2, 0);
    assert AndNot(x, 2) == x % 2 + 2 * AndNot(h, 1);
    AndStep(x, 60);
    AndStep(h, 30);
    AndStep(q, 15);
    assert q / 2 == x / 8;
  }

  lemma AndStep(x: nat, m: nat)
    ensures And(x, 2 * m) == 2 * And(x / 2, m)
  {
    if x > 0 && m > 0 { assert 2 * m / 2 == m; }
  }

  lemma LowFour(x: nat)
    ensures And(x, 15) == x % 16
  {
    assert Pow2(4) == 16;
    AndMask(x, 4);
  }

  const TEMPORAL_DELIMITER := 2
  const TILE_LIST := 8
  const PADDING := 15

  /** The packetizer drops these. */
  predicate IsKept(o: Obu) {
    KindOf(o.header) != TEMPORAL_DELIMITER && KindOf(o.header) != TILE_LIST && KindOf(o.header) != PADDING
  }

  /** One OBU and the number of bytes it takes; without a size field it extends to the end. */
  function ReadObu(s: Bytes): (r: Option<(Obu, nat)>)
    ensures r.Some? ==> 0 < r.value.1 <= |s|
  {
    if s == [] then None
    else
      var at := if HasExtension(s[0]) then 2 else 1;
      if at >= |s| then None
      else
        var extension := if HasExtension(s[0]) then Some(s[1]) else None;
        if !HasSize(s[0]) then Some((Obu(s[0], extension, s[at..]), |s|))
        else
          match Read(s[at..], 0)
          case None => None
          case Some((size, used)) =>
            if at + used + size > |s| then None
            else Some((Obu(s[0], extension, s[at + used..at + used + size]), at + used + size))
  }

  /** The OBUs of a frame, in order; none for a malformed frame. */
  function ReadObus(s: Bytes): Option<seq<Obu>>
    decreases |s|
  {
    if s == [] then Some([])
    else
      match ReadObu(s)
      case None => None
      case Some((o, used)) =>
        match ReadObus(s[used..])
        case None => None
        case Some(rest) => Some([o] + rest)
  }

  /** What an OBU means to a decoder: the size field is framing only. */
  function Meaning(o: Obu): Obu { o.(header := WithoutSize(o.header)) }

  function Meanings(obus: seq<Obu>): seq<Obu> {
    if obus == [] then [] else [Meaning(obus[0])] + Meanings(obus[1..])
  }

  function KeptOf(obus: seq<Obu>): seq<Obu> {
    if obus == [] then [] else (if IsKept(obus[0]) then [obus[0]] else []) + KeptOf(obus[1..])
  }

  /** The calls made for one OBU; the one at the end of the frame loses its size field. */
  function PiecesOf(o: Obu, atEnd: bool): seq<Piece> {
    if !IsKept(o) then []
    else
      [Clear([if atEnd then WithoutSize(o.header) else o.header])] +
      (if o.extension.Some? then [Clear([o.extension.value])] else []) +
      (if HasSize(o.header) && !atEnd then [Clear(Leb128(|o.payload|))] else []) +
      [Hidden(o.payload)]
  }

  function Rewritten(obus: seq<Obu>): seq<Piece> {
    if obus == [] then [] else PiecesOf(obus[0], |obus| == 1) + Rewritten(obus[1..])
  }

  /** The stream a list of calls spells, front first. */
  function Spelled(pieces: seq<Piece>): Bytes {
    if pieces == [] then [] else pieces[0].bytes + Spelled(pieces[1..])
  }

  lemma {:induction false} SpelledAppend(a: seq<Piece>, b: seq<Piece>)
    ensures Spelled(a + b) == Spelled(a) + Spelled(b)
  {
    if a == [] {
      assert a + b == b;
    } else {
      assert (a + b)[1..] == a[1..] + b;
      SpelledAppend(a[1..], b);
    }
  }

  lemma {:induction false} StreamIsSpelled(pieces: seq<Piece>)
    ensures Stream(pieces) == Spelled(pieces)
  {
    if pieces != [] {
      var before, last := pieces[..|pieces| - 1], pieces[|pieces| - 1];
      StreamIsSpelled(before);
      SpelledAppend(before, [last]);
      assert pieces == before + [last];
      assert [last][1..] == [] && last.bytes + [] == last.bytes;
    }
  }

  /** What reading guarantees of an OBU. */
  ghost predicate WellFormed(o: Obu, atEnd: bool) {
    && (o.extension.Some? <==> HasExtension(o.header))
    && |o.payload| < LIMIT
    && (!HasSize(o.header) ==> atEnd && o.payload != [])
  }

  ghost predicate AllWellFormed(obus: seq<Obu>) {
    forall i :: 0 <= i < |obus| ==> WellFormed(obus[i], i == |obus| - 1)
  }

  lemma {:induction false} ReadIsWellFormed(s: Bytes)
    requires |s| < LIMIT && ReadObus(s).Some?
    ensures AllWellFormed(ReadObus(s).value)
    ensures ReadObus(s).value == [] <==> s == []
    decreases |s|
  {
    if s != [] {
      var (o, used) := ReadObu(s).value;
      ReadIsWellFormed(s[used..]);
      var rest := ReadObus(s[used..]).value;
      assert WellFormed(o, rest == []);
      forall i | 0 <= i < |rest| + 1 ensures WellFormed(([o] + rest)[i], i == |rest|) {
        if i > 0 { assert WellFormed(rest[i - 1], i - 1 == |rest| - 1); }
      }
    }
  }

  /** The head of an OBU: header byte and extension byte. */
  function HeadOf(header: byte, extension: Option<byte>): Bytes {
    [header] + if extension.Some? then [extension.value] else []
  }

  lemma SpelledObu(o: Obu, atEnd: bool)
    ensures Spelled(PiecesOf(o, atEnd)) ==
      if !IsKept(o) then []
      else if HasSize(o.header) && !atEnd then HeadOf(o.header, o.extension) + Leb128(|o.payload|) + o.payload
      else HeadOf(if atEnd then WithoutSize(o.header) else o.header, o.extension) + o.payload
  {
    hide IsKept, HasSize, WithoutSize, Leb128;
    if IsKept(o) {
      var header := if atEnd then WithoutSize(o.header) else o.header;
      var a := [Clear([header])];
      var b := if o.extension.Some? then [Clear([o.extension.value])] else [];
      var c := if HasSize(o.header) && !atEnd then [Clear(Leb128(|o.payload|))] else [];
      var d := [Hidden(o.payload)];
      SpelledAppend(a + b + c, d);
      SpelledAppend(a + b, c);
      SpelledAppend(a, b);
      assert Spelled([]) == [];
      OnePiece(Clear([header]));
      OnePiece(Hidden(o.payload));
      OnePiece(Clear(Leb128(|o.payload|)));
      if o.extension.Some? { OnePiece(Clear([o.extension.value])); }
    }
  }

  lemma OnePiece(p: Piece)
    ensures Spelled([p]) == p.bytes
  {
    assert [p][1..] == [];
  }

  /** A sized OBU, rewritten with a fresh size field, is read back whatever follows. */
  lemma SizedReadsBack(header: byte, extension: Option<byte>, payload: Bytes, rest: Bytes)
    requires HasSize(header) && (extension.Some? <==> HasExtension(header)) && |payload| < LIMIT
    ensures var s := HeadOf(header, extension) + Leb128(|payload|) + payload + rest;
      ReadObu(s) == Some((Obu(header, extension, payload), |s| - |rest|))
  {
    hide Leb128, Read, HasSize, HasExtension;
    var head, size := HeadOf(header, extension), Leb128(|payload|);
    var s := head + size + payload + rest;
    WordLimit();
    ReadUndoesWrite(|payload|, payload + rest, 0);
    assert s == head + (size + (payload + rest));
    TwoParts(head, size + (payload + rest));
    assert s[|head|..] == size + (payload + rest);
    assert s[|head| + |size|..|head| + |size| + |payload|] == payload;
  }

  /** An OBU without a size field takes all the bytes left, if there are any behind its head. */
  lemma UnsizedReadsBack(header: byte, extension: Option<byte>, payload: Bytes)
    requires !HasSize(header) && (extension.Some? <==> HasExtension(header))
    ensures var s := HeadOf(header, extension) + payload;
      ReadObu(s) == if payload == [] then None else Some((Obu(header, extension, payload), |s|))
  {
    hide HasSize, HasExtension, Read;
    TwoParts(HeadOf(header, extension), payload);
  }

  /** The frame ends with a kept OBU that has a size field and nothing in it: without the field it is
      no OBU any more. */
  predicate EndsEmpty(obus: seq<Obu>) {
    obus != [] && var last := obus[|obus| - 1]; IsKept(last) && HasSize(last.header) && last.payload == []
  }

  /** The emitted stream reads back to the OBUs of the frame without temporal delimiters, tile lists
      and padding, with the same types, extension bytes and payloads, exactly when the frame does not
      end with an empty sized OBU that is kept; otherwise it does not read back at all. */
  lemma {:induction false} RewritingKeepsMeaning(obus: seq<Obu>)
    requires AllWellFormed(obus)
    ensures var out := ReadObus(Spelled(Rewritten(obus)));
      && (EndsEmpty(obus) ==> out == None)
      && (!EndsEmpty(obus) ==> out.Some? && Meanings(out.value) == Meanings(KeptOf(obus)))
  {
    hide IsKept, HasSize, HasExtension, WithoutSize, KindOf, ReadObu, PiecesOf;
    if obus != [] {
      var o, rest := obus[0], obus[1..];
      hide WellFormed;
      forall i | 0 <= i < |rest| ensures WellFormed(rest[i], i == |rest| - 1) {
        assert WellFormed(obus[i + 1], i + 1 == |obus| - 1);
      }
      assert WellFormed(o, rest == []);
      assert obus == [o] + rest;
      RewritingKeepsMeaning(rest);
      RewriteFirst(o, rest);
    }
  }

  lemma RewriteFirst(o: Obu, rest: seq<Obu>)
    requires WellFormed(o, rest == [])
    requires var out := ReadObus(Spelled(Rewritten(rest)));
      && (EndsEmpty(rest) ==> out == None)
      && (!EndsEmpty(rest) ==> out.Some? && Meanings(out.value) == Meanings(KeptOf(rest)))
    ensures var obus := [o] + rest;
      var out := ReadObus(Spelled(Rewritten(obus)));
      && (EndsEmpty(obus) ==> out == None)
      && (!EndsEmpty(obus) ==> out.Some? && Meanings(out.value) == Meanings(KeptOf(obus)))
  {
    hide IsKept, HasSize, HasExtension, WithoutSize, Leb128, Read, ReadObu;
    var obus := [o] + rest;
    var tail := Spelled(Rewritten(rest));
    var atEnd := rest == [];
    assert obus[1..] == rest;
    SpelledAppend(PiecesOf(o, atEnd), Rewritten(rest));
    SpelledObu(o, atEnd);
    assert EndsEmpty(obus) <==> if atEnd then IsKept(o) && HasSize(o.header) && o.payload == [] else EndsEmpty(rest);
    if IsKept(o) {
      var s := Spelled(PiecesOf(o, atEnd)) + tail;
      if atEnd {
        assert tail == [] && s == HeadOf(WithoutSize(o.header), o.extension) + o.payload;
        UnsizedReadsBack(WithoutSize(o.header), o.extension, o.payload);
        assert s[|s|..] == [];
      } else {
        SizedReadsBack(o.header, o.extension, o.payload, tail);
        assert s[|s| - |tail|..] == tail;
      }
      OneMeaning(o, rest);
    } else {
      assert [] + tail == tail && [] + KeptOf(rest) == KeptOf(rest);
    }
  }

  lemma OneMeaning(o: Obu, rest: seq<Obu>)
    requires IsKept(o)
    ensures Meanings(KeptOf([o] + rest)) == [Meaning(o)] + Meanings(KeptOf(rest))
  {
    assert ([o] + rest)[1..] == rest;
    assert ([o] + KeptOf(rest))[1..] == KeptOf(rest);
  }

  // --------------------------------------------------------------------------
  // Which bytes are encrypted
  // --------------------------------------------------------------------------

  function TypeOf(header: byte): nat { header as nat / 8 % 16 }

  predicate SizeFlag(header: byte) { header as nat / 2 % 2 == 1 }

  /** Temporal delimiters, tile lists and padding. */
  predicate IsDropped(header: byte) { TypeOf(header) == 2 || TypeOf(header) == 8 || TypeOf(header) == 15 }

  /** Section 5.3.2 of the AV1 specification: type, extension flag and size flag. */
  lemma HeaderFields(header: byte)
    ensures HasExtension(header) <==> header as nat / 4 % 2 == 1
    ensures HasSize(header) <==> SizeFlag(header)
    ensures forall extension, payload :: IsKept(Obu(header, extension, payload)) <==> !IsDropped(header)
    ensures SizeFlag(header) ==> header >= 2 && WithoutSize(header) == header - 2
    ensures !SizeFlag(header) ==> WithoutSize(header) == header
  {
    HeaderBits(header as nat);
    hide And, AndNot, Shr;
  }

  /** The payloads of the OBUs that are kept. */
  function Payloads(obus: seq<Obu>): Bytes {
    if obus == [] then []
    else (if IsDropped(obus[0].header) then [] else obus[0].payload) + Payloads(obus[1..])
  }

  /** What is in front of the payload of an OBU; the last one has no size field. */
  function FramingOf(o: Obu, last: bool): Bytes {
    [if last && SizeFlag(o.header) then o.header - 2 else o.header]
    + (if o.extension.Some? then [o.extension.value] else [])
    + (if SizeFlag(o.header) && !last then Leb128(|o.payload|) else [])
  }

  /** Headers, extension bytes and size fields of the OBUs that are kept. */
  function Framing(obus: seq<Obu>): Bytes {
    if obus == [] then []
    else (if IsDropped(obus[0].header) then [] else FramingOf(obus[0], |obus| == 1)) + Framing(obus[1..])
  }

  function HiddenBytes(pieces: seq<Piece>): Bytes {
    if pieces == [] then [] else (if pieces[0].Hidden? then pieces[0].bytes else []) + HiddenBytes(pieces[1..])
  }

  function ClearBytes(pieces: seq<Piece>): Bytes {
    if pieces == [] then [] else (if pieces[0].Clear? then pieces[0].bytes else []) + ClearBytes(pieces[1..])
  }

  lemma {:induction false} HalvesAppend(a: seq<Piece>, b: seq<Piece>)
    ensures HiddenBytes(a + b) == HiddenBytes(a) + HiddenBytes(b) && ClearBytes(a + b) == ClearBytes(a) + ClearBytes(b)
  {
    if a == [] {
      assert a + b == b;
    } else {
      assert (a + b)[1..] == a[1..] + b;
      HalvesAppend(a[1..], b);
    }
  }

  lemma OneHalf(p: Piece)
    ensures HiddenBytes([p]) == (if p.Hidden? then p.bytes else []) && ClearBytes([p]) == (if p.Clear? then p.bytes else [])
  {
    assert [p][1..] == [];
  }

  /** The processor's two buffers after a list of calls. */
  lemma {:induction false} BuffersAre(pieces: seq<Piece>)
    ensures AddAll(pieces).encrypted == HiddenBytes(pieces) && AddAll(pieces).unencrypted == ClearBytes(pieces)
  {
    if pieces != [] {
      var before, last := pieces[..|pieces| - 1], pieces[|pieces| - 1];
      BuffersAre(before);
      HalvesAppend(before, [last]);
      OneHalf(last);
      assert pieces == before + [last];
    }
  }

  lemma ObuHalves(o: Obu, last: bool)
    ensures HiddenBytes(PiecesOf(o, last)) == if IsDropped(o.header) then [] else o.payload
    ensures ClearBytes(PiecesOf(o, last)) == if IsDropped(o.header) then [] else FramingOf(o, last)
  {
    HeaderFields(o.header);
    hide IsKept, HasSize, WithoutSize, Leb128, IsDropped, SizeFlag;
    assert o == Obu(o.header, o.extension, o.payload);
    if IsKept(o) {
      var header := if last then WithoutSize(o.header) else o.header;
      var a := [Clear([header])];
      var b := if o.extension.Some? then [Clear([o.extension.value])] else [];
      var c := if HasSize(o.header) && !last then [Clear(Leb128(|o.payload|))] else [];
      var d := [Hidden(o.payload)];
      assert PiecesOf(o, last) == a + b + c + d;
      HalvesAppend(a + b + c, d);
      HalvesAppend(a + b, c);
      HalvesAppend(a, b);
      OneHalf(Clear([header]));
      OneHalf(Hidden(o.payload));
      OneHalf(Clear(Leb128(|o.payload|)));
      if o.extension.Some? { OneHalf(Clear([o.extension.value])); }
      assert HiddenBytes([]) == [] && ClearBytes([]) == [];
    }
  }

  lemma {:induction false} RewrittenHalves(obus: seq<Obu>)
    ensures HiddenBytes(Rewritten(obus)) == Payloads(obus) && ClearBytes(Rewritten(obus)) == Framing(obus)
  {
    hide PiecesOf, IsDropped, FramingOf;
    if obus != [] {
      RewrittenHalves(obus[1..]);
      ObuHalves(obus[0], |obus| == 1);
      HalvesAppend(PiecesOf(obus[0], |obus| == 1), Rewritten(obus[1..]));
    }
  }

  // --------------------------------------------------------------------------
  // The loop over a frame, in 64-bit words
  // --------------------------------------------------------------------------

  /** What one turn of the loop finds at a position. */
  datatype Turn = Refused | Taken(header: byte, extension: Option<byte>, start: nat, size: nat)

  /** The end of the payload is a sum of two words and wraps. */
  function TurnAt(frame: Bytes, i: nat): (t: Turn)
    requires i < |frame|
    ensures t.Taken? ==> i < t.start <= |frame| && (t.start + t.size) % LIMIT <= |frame|
  {
    var at := if HasExtension(frame[i]) then i + 2 else i + 1;
    if at >= |frame| then Refused
    else
      var extension := if HasExtension(frame[i]) then Some(frame[i + 1]) else None;
      if !HasSize(frame[i]) then Taken(frame[i], extension, at, |frame| - at)
      else
        match Read(frame[at..], 0)
        case None => Refused
        case Some((size, used)) =>
          if (at + used + size) % LIMIT > |frame| then Refused else Taken(frame[i], extension, at + used, size)
  }

  /** The payload ends beyond the 64-bit range, so the loop goes back. */
  predicate Wraps(t: Turn) { t.Taken? && t.start + t.size >= LIMIT }

  function ObuOf(frame: Bytes, t: Turn): Obu
    requires t.Taken? && t.start + t.size <= |frame|
  {
    Obu(t.header, t.extension, frame[t.start..t.start + t.size])
  }

  predicate IsKeptKind(header: byte) { IsKept(Obu(header, None, [])) }

  /** The loop is at a position, or has returned, or has asked for bytes behind the end of the frame. */
  datatype Ending = At(i: nat) | Returned(ok: bool) | OutOfBounds

  datatype Run = Run(ending: Ending, pieces: seq<Piece>)

  function Step(frame: Bytes, r: Run): Run {
    match r.ending
    case At(i) =>
      if i >= |frame| then r.(ending := Returned(true))
      else (
        match TurnAt(frame, i)
        case Refused => r.(ending := Returned(false))
        case Taken(header, _, start, size) =>
          var next := (start + size) % LIMIT;
          if start + size <= |frame| then Run(At(next), r.pieces + PiecesOf(ObuOf(frame, TurnAt(frame, i)), next == |frame|))
          else if IsKeptKind(header) then r.(ending := OutOfBounds)
          else r.(ending := At(next))
      )
    case _ => r
  }

  function RunFrom(frame: Bytes, r: Run, turns: nat): Run {
    if turns == 0 then r else Step(frame, RunFrom(frame, r, turns - 1))
  }

  function RunAv1(frame: Bytes, turns: nat): Run { RunFrom(frame, Run(At(0), []), turns) }

  /** Walking from a position, the loop meets a sized OBU whose position and size add up to 2^64 or more. */
  predicate MeetsWrap(frame: Bytes, i: nat)
    requires |frame| < LIMIT
    decreases |frame| - i
  {
    i < |frame| &&
    var t := TurnAt(frame, i);
    t.Taken? && (Wraps(t) || MeetsWrap(frame, t.start + t.size))
  }

  /** `ReadObu` in positions of the whole frame. */
  lemma ReadObuAt(frame: Bytes, i: nat)
    requires i < |frame|
    ensures var at := if HasExtension(frame[i]) then i + 2 else i + 1;
      ReadObu(frame[i..]) ==
        if at >= |frame| then None
        else
          var extension := if HasExtension(frame[i]) then Some(frame[i + 1]) else None;
          if !HasSize(frame[i]) then Some((Obu(frame[i], extension, frame[at..]), |frame| - i))
          else
            match Read(frame[at..], 0)
            case None => None
            case Some((size, used)) =>
              if at + used + size > |frame| then None
              else Some((Obu(frame[i], extension, frame[at + used..at + used + size]), at + used + size - i))
  {
    hide HasExtension, HasSize, Read;
    var s := frame[i..];
    assert forall j :: 0 <= j <= |s| ==> s[j..] == frame[i + j..];
    assert forall j, k :: 0 <= j <= k <= |s| ==> s[j..k] == frame[i + j..i + k];
  }

  /** A turn agrees with `ReadObu` unless its sum wraps. */
  lemma TurnIsRead(frame: Bytes, i: nat)
    requires i < |frame| < LIMIT
    ensures var t := TurnAt(frame, i);
      ReadObu(frame[i..]) ==
        if t.Refused? || Wraps(t) then None else Some((ObuOf(frame, t), t.start + t.size - i))
    ensures TurnAt(frame, i).Taken? && !Wraps(TurnAt(frame, i)) ==>
      TurnAt(frame, i).start + TurnAt(frame, i).size <= |frame|
  {
    hide HasExtension, HasSize, Read;
    ReadObuAt(frame, i);
    var at := if HasExtension(frame[i]) then i + 2 else i + 1;
    if at < |frame| {
      if !HasSize(frame[i]) {
        assert frame[at..] == frame[at..|frame|];
      } else if Read(frame[at..], 0).Some? {
        var (size, used) := Read(frame[at..], 0).value;
        ReadWord(frame[at..]);
        WrappedSum(at + used, size);
      }
    }
  }

  lemma WrappedSum(a: nat, b: nat)
    requires a < LIMIT && b < LIMIT
    ensures (a + b) % LIMIT == if a + b < LIMIT then a + b else a + b - LIMIT
  {}

  lemma ReadObusStep(frame: Bytes, i: nat)
    requires i < |frame|
    ensures ReadObus(frame[i..]) == match ReadObu(frame[i..])
      case None => None
      case Some((o, used)) =>
        match ReadObus(frame[i + used..])
        case None => None
        case Some(rest) => Some([o] + rest)
    ensures ReadObus(frame[i..]).Some? ==> ReadObus(frame[i..]).value != []
  {
    hide ReadObu;
    if ReadObu(frame[i..]).Some? {
      assert frame[i..][ReadObu(frame[i..]).value.1..] == frame[i + ReadObu(frame[i..]).value.1..];
    }
  }

  /** A frame on which the sum wraps is malformed. */
  lemma {:induction false} WrapIsMalformed(frame: Bytes, i: nat)
    requires i <= |frame| < LIMIT && MeetsWrap(frame, i)
    ensures ReadObus(frame[i..]).None?
    decreases |frame| - i
  {
    hide ReadObu, ReadObus, TurnAt;
    var t := TurnAt(frame, i);
    TurnIsRead(frame, i);
    ReadObusStep(frame, i);
    if !Wraps(t) { WrapIsMalformed(frame, t.start + t.size); }
  }

  // --------------------------------------------------------------------------
  // Runs of the loop
  // --------------------------------------------------------------------------

  lemma {:induction false} StepFirst(frame: Bytes, r: Run, turns: nat)
    ensures RunFrom(frame, r, turns + 1) == RunFrom(frame, Step(frame, r), turns)
  {
    hide Step;
    if turns > 0 { StepFirst(frame, r, turns - 1); }
  }

  /** Once the loop is over nothing changes. */
  lemma {:induction false} EndedStays(frame: Bytes, r: Run, turns: nat, more: nat)
    requires !RunFrom(frame, r, turns).ending.At? && turns <= more
    ensures RunFrom(frame, r, more) == RunFrom(frame, r, turns)
  {
    hide TurnAt;
    if turns < more { EndedStays(frame, r, turns, more - 1); }
  }

  /** The payload of the turn that follows lies in the frame. */
  predicate ReadsInside(frame: Bytes, r: Run) {
    r.ending.At? && r.ending.i < |frame| ==>
      var t := TurnAt(frame, r.ending.i); t.Taken? ==> t.start + t.size <= |frame|
  }

  /** The loop is over, returned what `ReadObus` says, and has looked at bytes of the frame only. */
  predicate Rightly(frame: Bytes, i: nat, r: Run, turns: nat)
    requires i <= |frame|
  {
    && RunFrom(frame, r, turns).ending == Returned(ReadObus(frame[i..]).Some?)
    && forall m :: 0 <= m < turns ==> ReadsInside(frame, RunFrom(frame, r, m))
  }

  /** Without a wrap the loop ends in as many turns as there are bytes left and one more. */
  lemma {:induction false} NoWrapEnds(frame: Bytes, i: nat, pieces: seq<Piece>) returns (turns: nat)
    requires i <= |frame| < LIMIT && !MeetsWrap(frame, i)
    ensures turns <= |frame| - i + 1 && Rightly(frame, i, Run(At(i), pieces), turns)
    ensures ReadObus(frame[i..]).Some? ==>
      RunFrom(frame, Run(At(i), pieces), turns).pieces == pieces + Rewritten(ReadObus(frame[i..]).value)
    decreases |frame| - i
  {
    hide ReadObu, ReadObus, TurnAt, PiecesOf, Rewritten, RunFrom;
    var r := Run(At(i), pieces);
    OneTurn(frame, r);
    if i == |frame| {
      assert frame[i..] == [];
      NothingToRead();
      assert pieces + [] == pieces;
      turns := 1;
    } else {
      var t := TurnAt(frame, i);
      TurnIsRead(frame, i);
      ReadObusStep(frame, i);
      turns := 1;
      if t.Taken? {
        var next := t.start + t.size;
        var more := pieces + PiecesOf(ObuOf(frame, t), next == |frame|);
        assert Step(frame, r) == Run(At(next), more);
        var rest := NoWrapEnds(frame, next, more);
        turns := rest + 1;
        RightlyAfter(frame, i, r, next, rest);
        if ReadObus(frame[i..]).Some? {
          RestIsEmpty(frame, next);
          RewrittenStep(ObuOf(frame, t), ReadObus(frame[next..]).value, pieces);
        }
      }
    }
  }

  lemma OneTurn(frame: Bytes, r: Run)
    ensures RunFrom(frame, r, 0) == r && RunFrom(frame, r, 1) == Step(frame, r)
  {
    hide Step;
    assert RunFrom(frame, r, 0) == r;
  }

  lemma RightlyAfter(frame: Bytes, i: nat, r: Run, next: nat, turns: nat)
    requires i < |frame| && next <= |frame| && ReadsInside(frame, r)
    requires Rightly(frame, next, Step(frame, r), turns)
    requires ReadObus(frame[i..]).Some? <==> ReadObus(frame[next..]).Some?
    ensures Rightly(frame, i, r, turns + 1) && RunFrom(frame, r, turns + 1) == RunFrom(frame, Step(frame, r), turns)
  {
    hide ReadObus, Step, ReadsInside;
    StepFirst(frame, r, turns);
    forall m | 0 <= m < turns + 1 ensures ReadsInside(frame, RunFrom(frame, r, m)) {
      if m > 0 { StepFirst(frame, r, m - 1); }
    }
  }

  lemma RestIsEmpty(frame: Bytes, i: nat)
    requires i <= |frame| && ReadObus(frame[i..]).Some?
    ensures ReadObus(frame[i..]).value == [] <==> i == |frame|
  {}

  lemma NothingToRead()
    ensures ReadObus([]) == Some([]) && Rewritten([]) == []
  {}

  /** One turn of the loop: the first OBU's pieces move from what is left to what is done. */
  lemma RewrittenStep(o: Obu, rest: seq<Obu>, done: seq<Piece>)
    ensures done + Rewritten([o] + rest) == done + PiecesOf(o, rest == []) + Rewritten(rest)
  {
    hide PiecesOf;
    assert ([o] + rest)[1..] == rest;
  }

  /** With a wrap ahead the loop comes to a turn whose payload is not in the frame. */
  lemma {:induction false} WrapIsReached(frame: Bytes, i: nat, pieces: seq<Piece>) returns (turns: nat, r: Run)
    requires i <= |frame| < LIMIT && MeetsWrap(frame, i)
    ensures r == RunFrom(frame, Run(At(i), pieces), turns) && r.ending.At? && !ReadsInside(frame, r)
    decreases |frame| - i
  {
    hide TurnAt, PiecesOf, RunFrom;
    r := Run(At(i), pieces);
    OneTurn(frame, r);
    turns := 0;
    var t := TurnAt(frame, i);
    if !Wraps(t) {
      TurnIsRead(frame, i);
      var next := Step(frame, r);
      StepWithin(frame, r);
      var first := r;
      turns, r := WrapIsReached(frame, t.start + t.size, next.pieces);
      StepFirst(frame, first, turns);
      turns := turns + 1;
    }
  }

  lemma StepWithin(frame: Bytes, r: Run)
    requires |frame| < LIMIT && r.ending.At? && r.ending.i < |frame|
    requires var t := TurnAt(frame, r.ending.i); t.Taken? && !Wraps(t)
    ensures var t := TurnAt(frame, r.ending.i); Step(frame, r).ending == At(t.start + t.size)
  {
    hide TurnAt, PiecesOf;
    TurnIsRead(frame, r.ending.i);
  }

  /** `ProcessFrameAv1` is right about a frame - it ends, returns true exactly if the frame is a list of OBUs,
      and touches no byte behind the frame - exactly when no sum of a position and a size wraps on the way. */
  lemma ReturnsRightlyIff(frame: Bytes)
    requires |frame| < LIMIT
    ensures (exists turns :: Rightly(frame, 0, Run(At(0), []), turns)) <==> !MeetsWrap(frame, 0)
    ensures MeetsWrap(frame, 0) ==> ReadObus(frame).None?
  {
    hide ReadObus, RunFrom, ReadsInside, MeetsWrap;
    assert frame[0..] == frame;
    if MeetsWrap(frame, 0) {
      WrapIsMalformed(frame, 0);
      var n, r := WrapIsReached(frame, 0, []);
      forall turns: nat ensures !Rightly(frame, 0, Run(At(0), []), turns) {
        if turns <= n && !RunFrom(frame, Run(At(0), []), turns).ending.At? { EndedStays(frame, Run(At(0), []), turns, n); }
      }
    } else {
      var n := NoWrapEnds(frame, 0, []);
    }
  }

  /** Whether the loop goes on is decided after one turn more than there are bytes. */
  lemma EndsSoonOrNever(frame: Bytes, turns: nat)
    requires |frame| < LIMIT && RunAv1(frame, |frame| + 1).ending.At?
    ensures RunAv1(frame, turns).ending.At?
  {
    hide RunFrom;
    var r := Run(At(0), []);
    forall m: nat | m <= |frame| ensures RunFrom(frame, r, m).ending.At? && RunFrom(frame, r, m).ending.i < |frame| {
      if !RunFrom(frame, r, m).ending.At? { EndedStays(frame, r, m, |frame| + 1); }
      StillRunning(frame, r, m);
      if !RunFrom(frame, r, m + 1).ending.At? { EndedStays(frame, r, m + 1, |frame| + 1); }
    }
    var visited := seq(|frame| + 1, m requires 0 <= m < |frame| + 1 => RunFrom(frame, r, m).ending.i);
    var a, b := Repeats(visited, |frame|);
    Circles(frame, r, a, b, turns);
  }

  lemma StillRunning(frame: Bytes, r: Run, m: nat)
    ensures var x := RunFrom(frame, r, m); x.ending.At? && x.ending.i >= |frame| ==> !RunFrom(frame, r, m + 1).ending.At?
  {}

  /** More values than there are places: two are equal. */
  lemma {:induction false} Repeats(s: seq<nat>, n: nat) returns (a: nat, b: nat)
    requires |s| > n && forall k :: 0 <= k < |s| ==> s[k] < n
    ensures a < b < |s| && s[a] == s[b]
    decreases n
  {
    var last := |s| - 1;
    if k :| 0 <= k < last && s[k] == s[last] {
      a, b := k, last;
    } else {
      // the places other than the last value's, renumbered
      var v := s[last];
      var t := seq(last, k requires 0 <= k < last => if s[k] > v then s[k] - 1 else s[k]);
      a, b := Repeats(t, n - 1);
    }
  }

  /** A turn depends on the position alone. */
  lemma {:induction false} SameCourse(frame: Bytes, r: Run, a: nat, b: nat, m: nat)
    requires RunFrom(frame, r, a).ending == RunFrom(frame, r, b).ending
    ensures RunFrom(frame, r, a + m).ending == RunFrom(frame, r, b + m).ending
    decreases m
  {
    hide Step;
    if m > 0 {
      SameCourse(frame, r, a, b, m - 1);
      SameStep(frame, RunFrom(frame, r, a + m - 1), RunFrom(frame, r, b + m - 1));
    }
  }

  lemma SameStep(frame: Bytes, x: Run, y: Run)
    requires x.ending == y.ending
    ensures Step(frame, x).ending == Step(frame, y).ending
  {
    hide TurnAt, PiecesOf;
  }

  lemma {:induction false} Circles(frame: Bytes, r: Run, a: nat, b: nat, turns: nat)
    requires a < b && RunFrom(frame, r, a).ending == RunFrom(frame, r, b).ending
    requires RunFrom(frame, r, b).ending.At?
    ensures RunFrom(frame, r, turns).ending.At?
  {
    hide Step;
    if turns <= b {
      if !RunFrom(frame, r, turns).ending.At? { EndedStays(frame, r, turns, b); }
    } else {
      SameCourse(frame, r, a, b, turns - b);
      Circles(frame, r, a, b, turns - (b - a));
    }
  }

  lemma NextTurn(frame: Bytes, r: Run, turn: nat, turns: nat)
    requires turn < turns
    ensures RunFrom(frame, r, turn + 1) == Step(frame, RunFrom(frame, r, turn))
    ensures !Step(frame, RunFrom(frame, r, turn)).ending.At? ==>
      RunFrom(frame, r, turns) == Step(frame, RunFrom(frame, r, turn))
  {
    hide Step;
    if !RunFrom(frame, r, turn + 1).ending.At? { EndedStays(frame, r, turn + 1, turns); }
  }

  /** A fresh size field, in a buffer of ten bytes. */
  method AddSize(processor: OutboundFrameProcessor, size: nat)
    requires processor.Valid() && size < LIMIT
    modifies processor
    ensures processor.Valid() && processor.pieces == old(processor.pieces) + [Clear(Leb128(size))]
  {
    hide Leb128, AddAll, Pow2;
    WordLimit();
    Pow2Mono(64, 70);
    LengthBound(size, 10);
    var leb128Buffer := new byte[10];
    var additionalBytesToWrite := WriteLeb128(size, leb128Buffer, 0);
    assert leb128Buffer[..additionalBytesToWrite] == leb128Buffer[..][..additionalBytesToWrite] == Leb128(size);
    processor.AddUnencryptedBytes(leb128Buffer[..additionalBytesToWrite]);
  }

  /** The calls for one OBU. */
  method AddObu(processor: OutboundFrameProcessor, o: Obu, atEnd: bool)
    requires processor.Valid() && |o.payload| < LIMIT
    modifies processor
    ensures processor.Valid() && processor.pieces == old(processor.pieces) + PiecesOf(o, atEnd)
  {
    hide HasSize, KindOf, WithoutSize, Leb128, AddAll;
    ghost var before := processor.pieces;
    if KindOf(o.header) == TEMPORAL_DELIMITER || KindOf(o.header) == TILE_LIST || KindOf(o.header) == PADDING {
      assert before + [] == before;
      return;
    }
    var obuHeader := o.header;
    var rewrittenWithoutSize := false;
    if atEnd && HasSize(o.header) {
      obuHeader := WithoutSize(o.header);
      rewrittenWithoutSize := true;
    }
    processor.AddUnencryptedBytes([obuHeader]);
    if o.extension.Some? {
      processor.AddUnencryptedBytes([o.extension.value]);
    }
    if HasSize(o.header) && !rewrittenWithoutSize {
      AddSize(processor, |o.payload|);
    }
    processor.AddEncryptedBytes(o.payload);
    assert processor.pieces == before + PiecesOf(o, atEnd);
  }

  /** The first half of a turn: where the payload is. */
  method FindObu(frame: Bytes, obuHeaderIndex: nat) returns (t: Turn)
    requires obuHeaderIndex < |frame| < LIMIT
    ensures t == TurnAt(frame, obuHeaderIndex)
  {
    hide HasSize, HasExtension, Read;
    var obuHeader := frame[obuHeaderIndex];
    var i := obuHeaderIndex + 1;
    var obuHasExtension, obuHasSize := HasExtension(obuHeader), HasSize(obuHeader);
    if obuHasExtension {
      i := i + 1;
    }
    if i >= |frame| { return Refused; }
    var obuPayloadSize: nat := 0;
    if obuHasSize {
      assert frame[i..|frame|] == frame[i..];
      var size, next := ReadLeb128(frame, i, |frame|);
      if next.None? { return Refused; }
      obuPayloadSize := size;
      i := next.value;
    } else {
      obuPayloadSize := |frame| - i;
    }
    if (i + obuPayloadSize) % LIMIT > |frame| { return Refused; }
    return Taken(obuHeader, if obuHasExtension then Some(frame[obuHeaderIndex + 1]) else None, i, obuPayloadSize);
  }

  /** One turn of the loop. */
  method TakeTurn(processor: OutboundFrameProcessor, frame: Bytes, obuHeaderIndex: nat) returns (ending: Ending)
    requires processor.Valid() && obuHeaderIndex < |frame| < LIMIT
    modifies processor
    ensures processor.Valid()
    ensures Run(ending, processor.pieces) == Step(frame, Run(At(obuHeaderIndex), old(processor.pieces)))
    ensures ending.At? ==> ending.i <= |frame|
  {
    hide TurnAt, PiecesOf, AddAll, KindOf;
    TurnIsRead(frame, obuHeaderIndex);
    var t := FindObu(frame, obuHeaderIndex);
    if t.Refused? { return Returned(false); }
    var i := (t.start + t.size) % LIMIT;
    if t.start + t.size > |frame| {
      return if IsKeptKind(t.header) then OutOfBounds else At(i);
    }
    AddObu(processor, ObuOf(frame, t), i == |frame|);
    return At(i);
  }

  /** The loop over the OBUs of a frame, for a number of turns. */
  method ProcessFrameAv1(processor: OutboundFrameProcessor, frame: Bytes, turns: nat) returns (ending: Ending)
    requires processor.Valid() && |frame| < LIMIT
    modifies processor
    ensures processor.Valid()
    ensures Run(ending, processor.pieces) == RunFrom(frame, Run(At(0), old(processor.pieces)), turns)
  {
    hide TurnAt, PiecesOf, AddAll, RunFrom;
    var i: nat := 0;
    ghost var start := Run(At(0), processor.pieces);
    OneTurn(frame, start);
    for turn := 0 to turns
      invariant i <= |frame| && processor.Valid()
      invariant Run(At(i), processor.pieces) == RunFrom(frame, start, turn)
    {
      NextTurn(frame, start, turn, turns);
      if i >= |frame| { return Returned(true); }
      ending := TakeTurn(processor, frame, i);
      if !ending.At? { return; }
      i := ending.i;
    }
    return At(i);
  }

  /** `ProcessFrame` for AV1: of a list of OBUs exactly the payloads of those that are kept are encrypted, and exactly
      what frames them is readable; any other frame is encrypted as a whole.  The loop has as many turns as it can
      use; if it is still running then, it never ends. */
  method ProcessFrame(processor: OutboundFrameProcessor, frame: Bytes) returns (ending: Ending)
    requires |frame| < LIMIT
    modifies processor
    ensures processor.Valid() && ending == RunAv1(frame, |frame| + 1).ending
    ensures ending == Returned(true) ==> processor.pieces == RunAv1(frame, |frame| + 1).pieces
    ensures ending == Returned(false) ==> processor.pieces == [Hidden(frame)]
    ensures !MeetsWrap(frame, 0) ==>
      && ending == Returned(ReadObus(frame).Some?)
      && processor.pieces == if ReadObus(frame).Some? then Rewritten(ReadObus(frame).value) else [Hidden(frame)]
    ensures !MeetsWrap(frame, 0) ==>
      && processor.encryptedBytes == (match ReadObus(frame) case Some(obus) => Payloads(obus) case None => frame)
      && processor.unencryptedBytes == (match ReadObus(frame) case Some(obus) => Framing(obus) case None => [])
  {
    hide RunFrom, ReadObus, AddAll, Rewritten, MeetsWrap;
    processor.Reset();
    ending := ProcessFrameAv1(processor, frame, |frame| + 1);
    if !MeetsWrap(frame, 0) { Accepted(frame); }
    if ending == Returned(false) {
      processor.Reset();
      processor.AddEncryptedBytes(frame);
    }
    BuffersAre(processor.pieces);
    OneHalf(Hidden(frame));
    if ReadObus(frame).Some? { RewrittenHalves(ReadObus(frame).value); }
  }

  /** A frame on which nothing wraps, in time and with the calls of `Rewritten`. */
  lemma Accepted(frame: Bytes)
    requires |frame| < LIMIT && !MeetsWrap(frame, 0)
    ensures RunAv1(frame, |frame| + 1).ending == Returned(ReadObus(frame).Some?)
    ensures ReadObus(frame).Some? ==> RunAv1(frame, |frame| + 1).pieces == Rewritten(ReadObus(frame).value)
  {
    hide RunFrom, ReadObus, Rewritten, MeetsWrap, ReadsInside;
    assert frame[0..] == frame;
    var n := NoWrapEnds(frame, 0, []);
    EndedStays(frame, Run(At(0), []), n, |frame| + 1);
    if ReadObus(frame).Some? { assert [] + Rewritten(ReadObus(frame).value) == Rewritten(ReadObus(frame).value); }
  }

  /** The frame is a list of OBUs, and the stream reads as those of them that are kept. */
  predicate KeepsMeaning(frame: Bytes, stream: Bytes) {
    && ReadObus(frame).Some? && ReadObus(stream).Some?
    && Meanings(ReadObus(stream).value) == Meanings(KeptOf(ReadObus(frame).value))
  }

  /** What the receiver's decoder makes of an AV1 frame that `ProcessFrameAv1` has accepted: its OBUs without
      those the packetizer drops, unless a sum wrapped on the way or the frame ends with an empty sized OBU. */
  lemma Av1KeepsMeaning(frame: Bytes, turns: nat)
    requires |frame| < LIMIT && RunAv1(frame, turns).ending == Returned(true)
    ensures KeepsMeaning(frame, Stream(RunAv1(frame, turns).pieces)) <==>
      !MeetsWrap(frame, 0) && !(ReadObus(frame).Some? && EndsEmpty(ReadObus(frame).value))
  {
    hide RunFrom, EndsEmpty, Rewritten, Meanings, KeptOf, Stream, MeetsWrap, ReadObus;
    assert frame[0..] == frame;
    if MeetsWrap(frame, 0) {
      WrapIsMalformed(frame, 0);
    } else {
      Accepted(frame);
      if turns <= |frame| + 1 { EndedStays(frame, Run(At(0), []), turns, |frame| + 1); }
      else { EndedStays(frame, Run(At(0), []), |frame| + 1, turns); }
      var obus := ReadObus(frame).value;
      ReadIsWellFormed(frame);
      StreamIsSpelled(Rewritten(obus));
      RewritingKeepsMeaning(obus);
    }
  }

  // --------------------------------------------------------------------------
  // Frames on which it goes wrong
  // --------------------------------------------------------------------------

  function Ones(n: nat): Bytes { seq(n, _ => 0xFF as byte) }

  lemma {:induction false} ReadOnes(n: nat, rest: Bytes, fill: nat)
    requires fill + 7 * n == 63
    ensures Read(Ones(n) + [1] + rest, fill) == Some((Pow2(64 - fill) - 1, n + 1))
    decreases n
  {
    var t := [1 as byte] + rest;
    if n == 0 {
      assert Ones(0) + [1] + rest == t && Pow2(1) == 2;
    } else {
      assert Ones(n) + [1] + rest == [(0x80 + 0x7F) as byte] + (Ones(n - 1) + [1] + rest);
      ReadHighByte(0x7F, Ones(n - 1) + [1] + rest, fill);
      hide Read;
      ReadOnes(n - 1, rest, fill + 7);
      SevenMore(57 - fill);
    }
  }

  /** A size field that stands for 2^64 - 0x80 + low. */
  lemma ReadHuge(low: nat, rest: Bytes)
    requires low < 0x80
    ensures Read([(0x80 + low) as byte] + Ones(8) + [1] + rest, 0) == Some((LIMIT - 0x80 + low, 10))
  {
    var t := Ones(8) + [1] + rest;
    assert [(0x80 + low) as byte] + Ones(8) + [1] + rest == [(0x80 + low) as byte] + t;
    ReadHighByte(low, t, 0);
    hide Read;
    ReadOnes(8, rest, 7);
    SevenMore(57);
    WordLimit();
  }

  lemma HeaderKinds()
    ensures !HasExtension(0x7A) && HasSize(0x7A) && !IsKeptKind(0x7A)
    ensures !HasExtension(0x0A) && HasSize(0x0A) && IsKeptKind(0x0A)
    ensures !HasExtension(0x01) && !HasSize(0x01) && IsKeptKind(0x01)
  {
    hide And, Shr, AndNot;
    HeaderBits(0x7A);
    HeaderBits(0x0A);
    HeaderBits(0x01);
  }

  /** The turn at the front of a frame whose size field says 2^64 - 0x80 + low. */
  lemma HugeTurn(frame: Bytes, header: byte, low: nat, rest: Bytes)
    requires (header == 0x7A || header == 0x0A) && 0x75 <= low < 0x80
    requires frame == [header] + ([(0x80 + low) as byte] + Ones(8) + [1] + rest) && |frame| < LIMIT
    ensures |frame| == 11 + |rest| && TurnAt(frame, 0) == Taken(header, None, 11, LIMIT - 0x80 + low)
    ensures Wraps(TurnAt(frame, 0)) && (11 + (LIMIT - 0x80 + low)) % LIMIT == low - 0x75
  {
    hide HasExtension, HasSize, IsKept, Read;
    HeaderKinds();
    ReadHuge(low, rest);
    assert |Ones(8)| == 8;
    hide Ones;
    var tail := [(0x80 + low) as byte] + Ones(8) + [1] + rest;
    assert frame[1..] == tail && frame[0] == header;
    WrappedSum(11, LIMIT - 0x80 + low);
  }

  /** Eleven bytes: a header, and a size field of ten bytes that starts with `low`. */
  function Eleven(header: byte, low: byte): Bytes {
    [header, low, 0xFF, 0xFF, 0xFF, 0xFF, 0xFF, 0xFF, 0xFF, 0xFF, 0x01]
  }

  lemma ElevenBytes(header: byte, low: nat, rest: Bytes)
    requires low < 0x80
    ensures Eleven(header, (0x80 + low) as byte) + rest == [header] + ([(0x80 + low) as byte] + Ones(8) + [1] + rest)
    ensures Eleven(header, (0x80 + low) as byte)[10] == 0x01
  {
    assert Ones(8) == [0xFF, 0xFF, 0xFF, 0xFF, 0xFF, 0xFF, 0xFF, 0xFF];
  }

  /** A padding OBU whose size brings the loop back to the last byte of its size field.  That byte and the
      one behind it are read again as an OBU, and the frame, which is no list of OBUs, is accepted. */
  lemma BytesReadTwice(last: byte)
    ensures var frame := Eleven(0x7A, 0xFF) + [last];
      && MeetsWrap(frame, 0) && ReadObus(frame).None?
      && RunAv1(frame, 3) == Run(Returned(true), [Clear([0x01]), Hidden([last])])
  {
    var frame := Eleven(0x7A, 0xFF) + [last];
    ElevenBytes(0x7A, 0x7F, [last]);
    HeaderKinds();
    HugeTurn(frame, 0x7A, 0x7F, [last]);
    hide HasExtension, HasSize, IsKept, Read, Eleven, RunFrom;
    assert frame[0..] == frame && frame[10] == 0x01 && frame[11..12] == [last];
    assert MeetsWrap(frame, 0);
    WrapIsMalformed(frame, 0);
    var r := Run(At(0), []);
    OneTurn(frame, r);
    StepFirst(frame, r, 2);
    StepFirst(frame, Step(frame, r), 1);
    OneTurn(frame, Step(frame, Step(frame, r)));
    assert Step(frame, r) == Run(At(10), []);
    assert TurnAt(frame, 10) == Taken(0x01, None, 11, 1);
    LastUnsized(last);
  }

  lemma LastUnsized(last: byte)
    ensures PiecesOf(Obu(0x01, None, [last]), true) == [Clear([0x01]), Hidden([last])]
  {
    hide HasExtension, HasSize, And, Shr, AndNot;
    HeaderKinds();
    assert WithoutSize(0x01) == 0x01;
  }

  lemma BackToTheStart()
    ensures MeetsWrap(Eleven(0x7A, 0xF5), 0) && Step(Eleven(0x7A, 0xF5), Run(At(0), [])) == Run(At(0), [])
  {
    var frame := Eleven(0x7A, 0xF5);
    ElevenBytes(0x7A, 0x75, []);
    assert frame + [] == frame;
    HeaderKinds();
    HugeTurn(frame, 0x7A, 0x75, []);
    hide HasExtension, HasSize, IsKept, Read, Eleven, TurnAt;
  }

  /** A padding OBU whose size brings the loop back to the start: it never ends. */
  lemma {:induction false} NeverEnds(turns: nat)
    ensures RunAv1(Eleven(0x7A, 0xF5), turns) == Run(At(0), [])
  {
    hide Eleven, Step, MeetsWrap;
    BackToTheStart();
    if turns > 0 { NeverEnds(turns - 1); }
  }

  /** An OBU that is kept, with such a size: more bytes are asked for than there are. */
  lemma BytesBehindTheFrame()
    ensures RunAv1(Eleven(0x0A, 0xFF), 1).ending == OutOfBounds && MeetsWrap(Eleven(0x0A, 0xFF), 0)
  {
    var frame := Eleven(0x0A, 0xFF);
    ElevenBytes(0x0A, 0x7F, []);
    assert frame + [] == frame;
    HeaderKinds();
    HugeTurn(frame, 0x0A, 0x7F, []);
    hide HasExtension, HasSize, IsKept, Read, Eleven, TurnAt;
    OneTurn(frame, Run(At(0), []));
  }

  /** A wrap is not always felt in the result: here the frame is refused all the same. */
  lemma RefusedAllTheSame()
    ensures RunAv1(Eleven(0x7A, 0xFF), 2).ending == Returned(false) && MeetsWrap(Eleven(0x7A, 0xFF), 0)
  {
    var frame := Eleven(0x7A, 0xFF);
    ElevenBytes(0x7A, 0x7F, []);
    assert frame + [] == frame;
    HeaderKinds();
    HugeTurn(frame, 0x7A, 0x7F, []);
    hide HasExtension, HasSize, IsKept, Read, RunFrom;
    var r := Run(At(0), []);
    OneTurn(frame, r);
    StepFirst(frame, r, 1);
    OneTurn(frame, Step(frame, r));
    hide Eleven;
    assert Step(frame, r) == Run(At(10), []);
  }

  /** One kept OBU with a size field and nothing in it: rewritten it is a lone header, which is no OBU. */
  lemma EmptyObuIsLost()
    ensures ReadObus([0x0A, 0x00]) == Some([Obu(0x0A, None, [])]) && EndsEmpty([Obu(0x0A, None, [])])
    ensures Stream(Rewritten([Obu(0x0A, None, [])])) == [0x08] && ReadObus([0x08]).None?
  {
    hide HasExtension, HasSize, IsKept, Read;
    HeaderKinds();
    var o, frame: Bytes := Obu(0x0A, None, []), [0x0A, 0x00];
    ReadObuAt(frame, 0);
    ReadObusStep(frame, 0);
    assert frame[0..] == frame && frame[1..] == [0x00] && frame[2..2] == [] && frame[2..] == [];
    ReadZero();
    NothingToRead();
    assert [o] + [] == [o];
    var lone: Bytes := [0x08];
    ReadObuAt(lone, 0);
    assert lone[0..] == lone;
    LoneHeader(o);
  }

  lemma ReadZero()
    ensures Read([0x00], 0) == Some((0, 1))
  {}

  lemma LoneHeader(o: Obu)
    requires o == Obu(0x0A, None, [])
    ensures IsKept(o) && Stream(Rewritten([o])) == [0x08]
  {
    hide And, Shr, AndNot, HasSize, HasExtension;
    HeaderBits(0x0A);
    HeaderKinds();
    StreamIsSpelled(Rewritten([o]));
    assert [o][1..] == [] && Rewritten([]) == [];
    assert Rewritten([o]) == PiecesOf(o, true);
    SpelledObu(o, true);
  }
}
