/** LEB128 numbers (`utils/leb128.cpp`): seven bits a byte, lowest first, for values of 64 bits. */
module Leb128s {
  import opened Wrappers
  import opened Crypto
  import opened Bits

  const LIMIT := 0x1_0000_0000_0000_0000

  /** The bytes that stand for a value. */
  function Leb128(value: nat): (s: Bytes)
    ensures |s| > 0
  {
    if value < 0x80 then [value as byte] else [(0x80 + value % 0x80) as byte] + Leb128(value / 0x80)
  }

  /** What reading yields with `fill` bits already taken: the value of the remaining bytes and how many
      of them were used.  The tenth byte may carry one bit only. */
  function Read(s: Bytes, fill: nat): (r: Option<(nat, nat)>)
    ensures r.Some? ==> 0 < r.value.1 <= |s|
  {
    if s == [] then None
    else if fill < 57 then
      var low := s[0] as nat % 0x80;
      if s[0] < 0x80 then Some((low, 1))
      else
        match Read(s[1..], fill + 7)
        case None => None
        case Some((value, used)) => Some((low + 0x80 * value, 1 + used))
    else if s[0] <= 1 then Some((s[0] as nat, 1))
    else None
  }

  /** Reading undoes writing for every value of 64 bits, whatever follows. */
  lemma {:induction false} ReadUndoesWrite(value: nat, rest: Bytes, fill: nat)
    requires fill % 7 == 0 && fill <= 63 && value < Pow2(64 - fill)
    ensures Read(Leb128(value) + rest, fill) == Some((value, |Leb128(value)|))
    decreases value
  {
    if fill == 63 {
      assert Pow2(1) == 2;
    } else if value >= 0x80 {
      var low := value % 0x80;
      ReadHighByte(low, Leb128(value / 0x80) + rest, fill);
      assert Leb128(value) + rest == [(0x80 + low) as byte] + (Leb128(value / 0x80) + rest);
      hide Leb128, Read;
      SevenMore(57 - fill);
      QuotientBelow(value, Pow2(57 - fill));
      ReadUndoesWrite(value / 0x80, rest, fill + 7);
    }
  }

  lemma ReadHighByte(low: nat, t: Bytes, fill: nat)
    requires low < 0x80 && fill < 57
    ensures Read([(0x80 + low) as byte] + t, fill) == match Read(t, fill + 7)
      case None => None
      case Some((value, used)) => Some((low + 0x80 * value, 1 + used))
  {
    assert ([(0x80 + low) as byte] + t)[1..] == t;
  }

  lemma QuotientBelow(value: nat, p: nat)
    requires value < 0x80 * p
    ensures value / 0x80 < p
  {}

  /** Whatever is read fits in what was left of the 64 bits. */
  lemma {:induction false} ReadFits(s: Bytes, fill: nat)
    requires fill % 7 == 0 && fill <= 63 && Read(s, fill).Some?
    ensures Read(s, fill).value.0 < Pow2(64 - fill)
  {
    Pow2Mono(1, 64 - fill);
    if fill < 57 {
      Pow2Mono(7, 64 - fill);
      assert Pow2(7) == 0x80;
      if s[0] >= 0x80 {
        ReadFits(s[1..], fill + 7);
        SevenMore(57 - fill);
      }
    }
  }

  /** A prefix that reads, reads the same with more bytes behind it. */
  lemma {:induction false} ReadPrefix(s: Bytes, rest: Bytes, fill: nat)
    requires Read(s, fill).Some?
    ensures Read(s + rest, fill) == Read(s, fill)
  {
    if fill < 57 && s[0] >= 0x80 {
      ReadPrefix(s[1..], rest, fill + 7);
      assert (s + rest)[1..] == s[1..] + rest;
    }
  }

  /** Seven bits a byte bound the length. */
  lemma {:induction false} LengthBound(value: nat, n: nat)
    requires n > 0 && value < Pow2(7 * n)
    ensures |Leb128(value)| <= n
  {
    if value >= 0x80 {
      SevenMore(7 * (n - 1));
      assert Pow2(7) == 0x80;
      LengthBound(value / 0x80, n - 1);
    }
  }

  /** The value of digits of seven bits, the lowest first. */
  function Digits(s: Bytes): nat { if s == [] then 0 else s[0] as nat % 0x80 + 0x80 * Digits(s[1..]) }

  /** The encoding, digit by digit: every byte but the last has its top bit set. */
  lemma {:induction false} EncodingIs(value: nat)
    ensures var s := Leb128(value);
      && Digits(s) == value && s[|s| - 1] < 0x80 && forall i :: 0 <= i < |s| - 1 ==> s[i] >= 0x80
    decreases value
  {
    if value >= 0x80 {
      var rest := Leb128(value / 0x80);
      EncodingIs(value / 0x80);
      var s := Leb128(value);
      assert s[1..] == rest;
      assert forall i :: 1 <= i < |s| ==> s[i] == rest[i - 1];
    } else {
      assert Leb128(value)[1..] == [];
    }
  }

  lemma WordLimit()
    ensures Pow2(64) == LIMIT
  {
    assert Pow2(8) == 256;
    Pow2Add(8, 8);
    Pow2Add(16, 16);
    Pow2Add(32, 32);
  }

  method Leb128Size(value: nat) returns (size: nat)
    ensures size == |Leb128(value)|
  {
    var v, n := value, 0;
    while v >= 0x80
      invariant n + |Leb128(v)| == |Leb128(value)|
    {
      n := n + 1;
      ShrSeven(v);
      v := Shr(v, 7);
    }
    size := n + 1;
  }

  lemma ShrSeven(v: nat)
    ensures Shr(v, 7) == v / 0x80 && And(v, 0x7F) == v % 0x80
    ensures Or(0x80, v % 0x80) == 0x80 + v % 0x80
  {
    assert Pow2(7) == 0x80;
    ShrIsQuotient(v, 7);
    AndMask(v, 7);
    OrDisjoint(v % 0x80, 1, 7);
    ShlIsProduct(1, 7);
    OrComm(0x80, v % 0x80);
  }

  /** A buffer with `data` written over it at `at`. */
  function Spliced(buffer: Bytes, at: nat, data: Bytes): (r: Bytes)
    requires at + |data| <= |buffer|
    ensures |r| == |buffer|
  {
    buffer[..at] + data + buffer[at + |data|..]
  }

  lemma SpliceOne(buffer: Bytes, at: nat, data: Bytes, b: byte)
    requires at + |data| < |buffer|
    ensures Spliced(buffer, at, data)[at + |data| := b] == Spliced(buffer, at, data + [b])
  {}

  lemma SpliceNone(buffer: Bytes, at: nat)
    requires at <= |buffer|
    ensures Spliced(buffer, at, []) == buffer
  {}

  /** Writes at `at` and leaves every other byte of the buffer alone. */
  method WriteLeb128(value: nat, buffer: array<byte>, at: nat) returns (size: nat)
    requires at + |Leb128(value)| <= buffer.Length
    modifies buffer
    ensures size == |Leb128(value)|
    ensures buffer[..] == Spliced(old(buffer[..]), at, Leb128(value))
  {
    hide And, Or, Shr, Leb128, Spliced;
    var v := value;
    ghost var was, done := buffer[..], [];
    SpliceNone(was, at);
    size := 0;
    while v >= 0x80
      invariant size == |done| && done + Leb128(v) == Leb128(value)
      invariant buffer[..] == Spliced(was, at, done)
    {
      ShrSeven(v);
      LebStep(done, v);
      SpliceOne(was, at, done, (0x80 + v % 0x80) as byte);
      buffer[at + size] := Or(0x80, And(v, 0x7F)) as byte;
      done := done + [(0x80 + v % 0x80) as byte];
      size := size + 1;
      v := Shr(v, 7);
    }
    LebStep(done, v);
    SpliceOne(was, at, done, v as byte);
    buffer[at + size] := v as byte;
    size := size + 1;
  }

  lemma LebStep(done: Bytes, v: nat)
    ensures v < 0x80 ==> Leb128(v) == [v as byte]
    ensures v >= 0x80 ==> done + Leb128(v) == done + [(0x80 + v % 0x80) as byte] + Leb128(v / 0x80)
  {}

  /** Reads from `readAt` up to `end`; no position is returned on failure. */
  method ReadLeb128(s: Bytes, readAt: nat, end: nat) returns (value: nat, next: Option<nat>)
    requires readAt <= end <= |s|
    ensures match Read(s[readAt..end], 0)
      case Some((v, used)) => value == v && next == Some(readAt + used)
      case None => value == 0 && next == None
  {
    assert Pow2(0) == 1;
    value := 0;
    var fillBits, at: nat := 0, readAt;
    ghost var goal := Read(s[readAt..end], 0);
    assert goal == Shifted(goal, 0, 0, 0);
    hide And, Or, Shl, Pow2, Read, Shifted, Placed;
    while at != end && fillBits < 64 - 7
      invariant readAt <= at <= end && fillBits % 7 == 0 && fillBits <= 63
      invariant value < Pow2(fillBits)
      invariant goal == Shifted(Read(s[at..end], fillBits), value, fillBits, at - readAt)
    {
      var leb128Byte := s[at] as nat;
      ReadOneByte(s, at, end, value, fillBits, at - readAt);
      value := Or(value, Shl(And(leb128Byte, 0x7F), fillBits));
      at := at + 1;
      fillBits := fillBits + 7;
      if leb128Byte < 0x80 {
        return value, Some(at);
      }
    }
    LastRead(s[at..end], value, fillBits, at - readAt);
    if at != end && s[at] <= 1 {
      OrIsPlaced(value, s[at] as nat, fillBits);
      value := Or(value, Shl(s[at] as nat, fillBits));
      return value, Some(at + 1);
    }
    return 0, None;
  }

  lemma ReadOneByte(s: Bytes, at: nat, end: nat, value: nat, fill: nat, used: nat)
    requires at < end <= |s| && fill < 57 && value < Pow2(fill)
    ensures var v := Or(value, Shl(And(s[at] as nat, 0x7F), fill));
      && v < Pow2(fill + 7)
      && Shifted(Read(s[at..end], fill), value, fill, used) ==
           if s[at] < 0x80 then Some((v, used + 1)) else Shifted(Read(s[at + 1..end], fill + 7), v, fill + 7, used + 1)
  {
    hide And, Or, Shl, Pow2, Read, Shifted, Placed;
    AccumulateBits(value, s[at] as nat, fill);
    ShiftRead(s[at..end], value, fill, used);
    assert s[at..end][1..] == s[at + 1..end];
  }

  /** One byte read moves its seven bits into the value accumulated so far. */
  lemma ShiftRead(s: Bytes, value: nat, fill: nat, used: nat)
    requires s != [] && fill < 57
    ensures var v := value + Placed(s[0] as nat % 0x80, fill);
      Shifted(Read(s, fill), value, fill, used) ==
        if s[0] < 0x80 then Some((v, used + 1)) else Shifted(Read(s[1..], fill + 7), v, fill + 7, used + 1)
  {
    if s[0] >= 0x80 && Read(s[1..], fill + 7).Some? {
      ShiftOneMore(s[0] as nat % 0x80, Read(s[1..], fill + 7).value.0, fill);
    }
  }

  ghost function Placed(value: nat, fill: nat): nat { value * Pow2(fill) }

  ghost function Shifted(r: Option<(nat, nat)>, value: nat, fill: nat, used: nat): Option<(nat, nat)> {
    match r
    case None => None
    case Some((v, u)) => Some((value + Placed(v, fill), used + u))
  }

  lemma AccumulateBits(value: nat, b: nat, fill: nat)
    requires value < Pow2(fill)
    ensures Or(value, Shl(And(b, 0x7F), fill)) == value + Placed(b % 0x80, fill) < Pow2(fill + 7)
  {
    var low, p := b % 0x80, Pow2(fill);
    SevenMore(fill);
    hide And, Or, Shl, Pow2;
    ShrSeven(b);
    OrDisjoint(value, low, fill);
    ScaleBelow(low, p);
  }

  lemma OrIsPlaced(value: nat, b: nat, fill: nat)
    requires value < Pow2(fill)
    ensures Or(value, Shl(b, fill)) == value + Placed(b, fill)
  {
    OrDisjoint(value, b, fill);
  }

  lemma SevenMore(fill: nat)
    ensures Pow2(fill + 7) == 0x80 * Pow2(fill)
  {
    assert Pow2(7) == 0x80;
    Pow2Add(7, fill);
  }

  lemma ScaleBelow(low: nat, p: nat)
    requires low < 0x80
    ensures low * p + p <= 0x80 * p
  {
    MulAtLeast(p, low, 0x80);
  }

  /** The tenth byte ends the number or the reading fails. */
  lemma LastRead(s: Bytes, value: nat, fill: nat, used: nat)
    requires s == [] || fill >= 57
    ensures Shifted(Read(s, fill), value, fill, used) ==
      if s != [] && s[0] <= 1 then Some((value + Placed(s[0] as nat, fill), used + 1)) else None
  {}

  lemma ShiftOneMore(low: nat, high: nat, fill: nat)
    ensures Placed(low + 0x80 * high, fill) == Placed(low, fill) + Placed(high, fill + 7)
  {
    SevenMore(fill);
    var p := Pow2(fill);
    assert (low + 0x80 * high) * p == low * p + high * (0x80 * p);
  }
}
