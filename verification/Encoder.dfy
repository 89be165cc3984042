/** The frame buffer and the bit-stuffing encoder that fills it bit by bit. */
module Encoder {
  import opened Words
  import opened Stuffing
  import opened Codec

  /** A byte buffer owned by the caller; its capacity is the length of the array. */
  class FrameBuffer {
    const payload: array<Byte>
    var length: nat

    constructor (capacity: nat)
      ensures Valid() && fresh(payload) && payload.Length == capacity && length == 0
    {
      payload := new Byte[capacity];
      length := 0;
    }

    ghost predicate Valid()
      reads this
    {
      length <= payload.Length
    }

    function Contents(): seq<Byte>
      requires Valid()
      reads this, payload
    {
      payload[..length]
    }

    /** Appends a byte unless the buffer is full. */
    method TryPut(byte: Byte) returns (ok: bool)
      requires Valid()
      modifies this, payload
      ensures Valid()
      ensures ok <==> old(length) < payload.Length
      ensures Contents() == if ok then old(Contents()) + [byte] else old(Contents())
    {
      if length + 1 > payload.Length {
        return false;
      }
      payload[length] := byte;
      length := length + 1;
      return true;
    }
  }

  class BitEncoder {
    var outByte: Byte
    var outBitsUsed: nat
    var onesRun: nat
    const lsbFirst: bool

    constructor (lsbFirst: bool)
      ensures Valid() && outByte == Zeros(8) && outBitsUsed == 0 && onesRun == 0
      ensures this.lsbFirst == lsbFirst
    {
      outByte := Zeros(8);
      outBitsUsed := 0;
      onesRun := 0;
      this.lsbFirst := lsbFirst;
    }

    /** Fewer than eight bits wait in the byte under construction; its other bits are clear. */
    ghost predicate Valid()
      reads this
    {
      outBitsUsed < 8 && onesRun <= 4 && ClearFrom(outByte, outBitsUsed, lsbFirst)
    }

    /** All bits handed over so far: those of the frame's bytes, then the pending ones. */
    ghost function Line(frame: FrameBuffer): Bits
      requires Valid() && frame.Valid()
      reads this, frame, frame.payload
    {
      LineOf(frame.Contents(), outByte, outBitsUsed, lsbFirst)
    }

    /** Puts one bit on the line, handing over the byte once it is complete. */
    method ShiftIn(bit: bool, frame: FrameBuffer) returns (ok: bool)
      requires Valid() && frame.Valid()
      modifies this, frame, frame.payload
      ensures frame.Valid() && onesRun == old(onesRun)
      ensures ok ==> Valid() && Line(frame) == old(Line(frame)) + [bit]
      ensures !ok ==> old(|Line(frame)|) + 1 == 8 * (frame.payload.Length + 1)
    {
      ghost var was := frame.Contents();
      LineShiftIn(was, outByte, outBitsUsed, bit, lsbFirst);
      outByte := SetBit(outByte, outBitsUsed, bit, lsbFirst);
      outBitsUsed := outBitsUsed + 1;
      if outBitsUsed == 8 {
        ok := frame.TryPut(outByte);
        if !ok {
          return;
        }
        LineFlush(was, outByte, lsbFirst);
        outBitsUsed := 0;
        outByte := Zeros(8);
      }
      return true;
    }

    /** The encoder has put the flag and the first `n` bits of `x` on the line. */
    ghost predicate Sent(frame: FrameBuffer, x: Bits, n: nat)
      reads this, frame, frame.payload
    {
      Valid() && frame.Valid() && SentLine(Line(frame), onesRun, x, n)
    }

    /** The next bit of the data `x`, followed by the inserted zero after a fifth one. */
    method PutBit(bit: bool, frame: FrameBuffer, ghost x: Bits, ghost n: nat) returns (ok: bool)
      requires Sent(frame, x, n) && n < |x| && x[n] == bit
      modifies this, frame, frame.payload
      ensures frame.Valid()
      ensures ok ==> Sent(frame, x, n + 1)
      ensures !ok ==> |Stuff(x)| >= 8 * frame.payload.Length
    {
      ghost var line := Line(frame);
      SentNext(line, onesRun, x, n);
      ok := ShiftIn(bit, frame);
      if !ok {
        return;
      }
      if bit && onesRun == 4 {
        onesRun := 0;
        Assoc(line, [true], [false]);
        ok := ShiftIn(false, frame);
      } else {
        onesRun := if bit then onesRun + 1 else 0;
      }
    }

    /** The next eight bits of the data `x`. */
    method PutByte(byte: Byte, frame: FrameBuffer, ghost x: Bits, ghost n: nat) returns (ok: bool)
      requires Sent(frame, x, n)
      requires Carries(x, n, byte, lsbFirst)
      modifies this, frame, frame.payload
      ensures frame.Valid()
      ensures ok ==> Sent(frame, x, n + 8)
      ensures !ok ==> |Stuff(x)| >= 8 * frame.payload.Length
    {
      assert frame.Valid();
      hide Sent;
      var i := 0;
      while i < 8
        invariant 0 <= i <= 8
        invariant frame.Valid() && Sent(frame, x, n + i)
      {
        var bit := byte[if lsbFirst then i else 7 - i];
        assert bit == BitsOf(byte, lsbFirst)[i];
        ok := PutBit(bit, frame, x, n + i);
        if !ok {
          return;
        }
        i := i + 1;
      }
      return true;
    }

    /** Completes a partly filled byte with zeros. */
    method PadAndDrain(frame: FrameBuffer) returns (ok: bool)
      requires Valid() && frame.Valid()
      modifies this, frame, frame.payload
      ensures frame.Valid()
      ensures ok ==> Stream(frame.Contents(), lsbFirst) == old(Padded(Line(frame)))
      ensures !ok ==> old(|Line(frame)|) > 8 * frame.payload.Length
    {
      PendingPadded(frame.Contents(), outByte, outBitsUsed, lsbFirst);
      if outBitsUsed > 0 {
        ok := frame.TryPut(outByte);
        if !ok {
          return;
        }
        outByte := Zeros(8);
        onesRun := 0;
        outBitsUsed := 0;
      }
      return true;
    }
  }

  // ---- the line, as a function of the frame's bytes and the byte under construction ----

  function LineOf(contents: seq<Byte>, byte: Byte, used: nat, lsbFirst: bool): (line: Bits)
    requires used <= 8
    ensures |line| == 8 * |contents| + used
  {
    Stream(contents, lsbFirst) + BitsOf(byte, lsbFirst)[..used]
  }

  lemma LineShiftIn(contents: seq<Byte>, byte: Byte, used: nat, bit: bool, lsbFirst: bool)
    requires used < 8 && ClearFrom(byte, used, lsbFirst)
    ensures var r := SetBit(byte, used, bit, lsbFirst);
      && ClearFrom(r, used + 1, lsbFirst)
      && LineOf(contents, r, used + 1, lsbFirst) == LineOf(contents, byte, used, lsbFirst) + [bit]
  {
    SetBitIsNext(byte, used, bit, lsbFirst);
    assert forall s: Bits, t: Bits :: s + (t + [bit]) == (s + t) + [bit];
  }

  lemma LineFlush(contents: seq<Byte>, byte: Byte, lsbFirst: bool)
    ensures ClearFrom(Zeros(8), 0, lsbFirst)
    ensures LineOf(contents + [byte], Zeros(8), 0, lsbFirst) == LineOf(contents, byte, 8, lsbFirst)
  {
    var s := BitsOf(byte, lsbFirst);
    StreamConcat(contents, [byte], lsbFirst);
    StreamOne(byte, lsbFirst);
    assert s[..8] == s;
  }

  lemma ClearTail(byte: Byte, used: nat, lsbFirst: bool)
    requires used <= 8 && ClearFrom(byte, used, lsbFirst)
    ensures BitsOf(byte, lsbFirst)[..used] + Zeros(8 - used) == BitsOf(byte, lsbFirst)
  {
  }

  lemma PaddedBy(line: Bits, bytes: nat, used: nat)
    requires |line| == 8 * bytes + used && used < 8
    ensures Padded(line) == if used == 0 then line else line + Zeros(8 - used)
  {
  }

  lemma PendingPadded(contents: seq<Byte>, byte: Byte, used: nat, lsbFirst: bool)
    requires used < 8 && ClearFrom(byte, used, lsbFirst)
    ensures Padded(LineOf(contents, byte, used, lsbFirst))
            == Stream(if used > 0 then contents + [byte] else contents, lsbFirst)
  {
    PaddedBy(LineOf(contents, byte, used, lsbFirst), |contents|, used);
    ClearTail(byte, used, lsbFirst);
    StreamConcat(contents, [byte], lsbFirst);
    StreamOne(byte, lsbFirst);
    Assoc(Stream(contents, lsbFirst), BitsOf(byte, lsbFirst)[..used], Zeros(8 - used));
    hide BitsOf, ClearFrom, Padded, Stream, Zeros;
  }

  predicate SentLine(line: Bits, ones: nat, x: Bits, n: nat) {
    n <= |x| && line == FLAG + StuffUpTo(x, n) && ones == OnesRun(x, n)
  }

  lemma SentNext(line: Bits, ones: nat, x: Bits, n: nat)
    requires n < |x| && SentLine(line, ones, x, n)
    ensures SentLine(line + Emit(ones, x[n]), if x[n] then NextRun(ones) else 0, x, n + 1)
    ensures |line| + |Emit(ones, x[n])| <= 8 + |Stuff(x)|
  {
    StuffGrows(x, n + 1, |x|);
    Assoc(FLAG, StuffUpTo(x, n), Emit(ones, x[n]));
  }

  /** Encodes a payload into an empty frame buffer; succeeds exactly when the whole encoding
      fits, and leaves the buffer empty otherwise. */
  method Encode(payload: seq<Byte>, frame: FrameBuffer, lsbFirst: bool) returns (ok: bool)
    requires frame.Valid()
    modifies frame, frame.payload
    ensures frame.Valid()
    ensures ok <==> old(frame.length) == 0 && |Encoding(payload, lsbFirst)| <= frame.payload.Length
    ensures frame.Contents() == if ok then Encoding(payload, lsbFirst) else []
  {
    ok := false;
    EncodedSize(payload, lsbFirst);
    if frame.payload.Length >= 2 && frame.length == 0 {
      ok := EncodeInto(payload, frame, lsbFirst);
    }
    if !ok {
      frame.length := 0;
    }
  }

  /** The steps of the encoder up to its first failure. */
  method EncodeInto(payload: seq<Byte>, frame: FrameBuffer, lsbFirst: bool) returns (ok: bool)
    requires frame.Valid() && frame.length == 0
    modifies frame, frame.payload
    ensures frame.Valid()
    ensures ok <==> |Encoding(payload, lsbFirst)| <= frame.payload.Length
    ensures ok ==> frame.Contents() == Encoding(payload, lsbFirst)
  {
    EncodedSize(payload, lsbFirst);
    ok := frame.TryPut(FLAG);
    if !ok {
      return;
    }
    var encoder := new BitEncoder(lsbFirst);
    FlagSent(DataBits(payload, lsbFirst), lsbFirst);
    ok := EncodeAfterFlag(payload, encoder, frame);
  }

  method EncodeAfterFlag(payload: seq<Byte>, encoder: BitEncoder, frame: FrameBuffer) returns (ok: bool)
    requires encoder.Sent(frame, DataBits(payload, encoder.lsbFirst), 0)
    modifies encoder, frame, frame.payload
    ensures frame.Valid()
    ensures ok <==> |Encoding(payload, encoder.lsbFirst)| <= frame.payload.Length
    ensures ok ==> frame.Contents() == Encoding(payload, encoder.lsbFirst)
  {
    hide *;
    ghost var x := DataBits(payload, encoder.lsbFirst);
    SizeOfParts(payload, encoder.lsbFirst);
    PayloadBytes(payload, encoder.lsbFirst);
    ok := PutPayload(payload, encoder, frame, x);
    if !ok {
      return;
    }
    var crc := Crc.Crc16(payload);
    CheckByteOf(payload, encoder.lsbFirst, crc);
    ok := PutCheck(crc, encoder, frame, x, 8 * |payload|);
    if !ok {
      return;
    }
    ok := Close(encoder, frame, x);
    if ok {
      BodyOf(payload, encoder.lsbFirst);
      FrameFromStream(frame.Contents(), payload, encoder.lsbFirst);
    }
  }

  method PutPayload(payload: seq<Byte>, encoder: BitEncoder, frame: FrameBuffer, ghost x: Bits)
    returns (ok: bool)
    requires encoder.Sent(frame, x, 0)
    requires forall i | 0 <= i < |payload| :: Carries(x, 8 * i, payload[i], encoder.lsbFirst)
    modifies encoder, frame, frame.payload
    ensures frame.Valid()
    ensures ok ==> encoder.Sent(frame, x, 8 * |payload|)
    ensures !ok ==> |Stuff(x)| >= 8 * frame.payload.Length
  {
    assert frame.Valid();
    hide *;
    var i := 0;
    while i < |payload|
      invariant 0 <= i <= |payload|
      invariant frame.Valid() && encoder.Sent(frame, x, 8 * i)
    {
      ok := encoder.PutByte(payload[i], frame, x, 8 * i);
      if !ok {
        return;
      }
      i := i + 1;
    }
    return true;
  }

  /** The check bytes, high byte first. */
  method PutCheck(crc: Word16, encoder: BitEncoder, frame: FrameBuffer, ghost x: Bits, ghost n: nat)
    returns (ok: bool)
    requires encoder.Sent(frame, x, n)
    requires Carries(x, n, Shr(crc, 8)[..8], encoder.lsbFirst)
    requires Carries(x, n + 8, crc[..8], encoder.lsbFirst)
    modifies encoder, frame, frame.payload
    ensures frame.Valid()
    ensures ok ==> encoder.Sent(frame, x, n + 16)
    ensures !ok ==> |Stuff(x)| >= 8 * frame.payload.Length
  {
    hide *;
    ok := encoder.PutByte(Shr(crc, 8)[..8], frame, x, n);
    if !ok {
      return;
    }
    ok := encoder.PutByte(crc[..8], frame, x, n + 8);
  }

  /** Padding and closing flag. */
  method Close(encoder: BitEncoder, frame: FrameBuffer, ghost x: Bits) returns (ok: bool)
    requires encoder.Sent(frame, x, |x|)
    modifies encoder, frame, frame.payload
    ensures frame.Valid()
    ensures ok <==> 16 + |Padded(Stuff(x))| <= 8 * frame.payload.Length
    ensures ok ==> Stream(frame.Contents(), encoder.lsbFirst) == FLAG + Padded(Stuff(x)) + FLAG
  {
    PaddedAfterFlag(Stuff(x));
    ok := encoder.PadAndDrain(frame);
    if !ok {
      return;
    }
    FlagAppended(frame.Contents(), encoder.lsbFirst);
    ok := frame.TryPut(FLAG);
  }

  lemma SizeOfParts(payload: seq<Byte>, lsbFirst: bool)
    ensures var s := Stuff(DataBits(payload, lsbFirst));
      && 8 * |Encoding(payload, lsbFirst)| == 16 + |Padded(s)|
      && |Padded(s)| >= |s|
  {
    var body := Body(payload, lsbFirst);
    assert |Encoding(payload, lsbFirst)| == 2 + |body| / 8;
  }

  lemma FlagAppended(front: seq<Byte>, lsbFirst: bool)
    ensures Stream(front + [FLAG], lsbFirst) == Stream(front, lsbFirst) + FLAG
  {
    StreamConcat(front, [FLAG], lsbFirst);
    StreamOne(FLAG, lsbFirst);
    FlagIsPalindrome(lsbFirst);
  }

  lemma FlagSent(x: Bits, lsbFirst: bool)
    ensures SentLine(LineOf([FLAG], Zeros(8), 0, lsbFirst), 0, x, 0)
  {
    StreamOne(FLAG, lsbFirst);
    FlagIsPalindrome(lsbFirst);
  }

  /** The eight bits of `x` from bit n on are those of the byte, in line order. */
  predicate Carries(x: Bits, n: nat, byte: Byte, lsbFirst: bool) {
    n + 8 <= |x| && forall j | 0 <= j < 8 :: x[n + j] == BitsOf(byte, lsbFirst)[j]
  }

  lemma DataByte(payload: seq<Byte>, lsbFirst: bool, i: nat)
    requires i < |payload| + 2
    ensures Carries(DataBits(payload, lsbFirst), 8 * i, Data(payload)[i], lsbFirst)
    ensures i < |payload| ==> Data(payload)[i] == payload[i]
  {
    forall j | 0 <= j < 8
      ensures DataBits(payload, lsbFirst)[8 * i + j] == BitsOf(Data(payload)[i], lsbFirst)[j]
    {
      StreamBit(Data(payload), lsbFirst, i, j);
    }
  }

  lemma PayloadBytes(payload: seq<Byte>, lsbFirst: bool)
    ensures forall i | 0 <= i < |payload| ::
      Carries(DataBits(payload, lsbFirst), 8 * i, payload[i], lsbFirst)
  {
    forall i | 0 <= i < |payload|
      ensures Carries(DataBits(payload, lsbFirst), 8 * i, payload[i], lsbFirst)
    {
      DataByte(payload, lsbFirst, i);
    }
  }

  lemma CheckByteOf(payload: seq<Byte>, lsbFirst: bool, crc: Word16)
    requires crc == Crc.CrcOf(payload)
    ensures Carries(DataBits(payload, lsbFirst), 8 * |payload|, Shr(crc, 8)[..8], lsbFirst)
    ensures Carries(DataBits(payload, lsbFirst), 8 * |payload| + 8, crc[..8], lsbFirst)
  {
    DataByte(payload, lsbFirst, |payload|);
    DataByte(payload, lsbFirst, |payload| + 1);
    assert Shr(crc, 8)[..8] == crc[8..];
    assert Data(payload)[|payload|] == crc[8..] && Data(payload)[|payload| + 1] == crc[..8];
  }

  lemma PaddedAfterFlag(s: Bits)
    ensures Padded(FLAG + s) == FLAG + Padded(s)
  {
    assert Padding(8 + |s|) == Padding(|s|);
    Assoc(FLAG, s, Zeros(Padding(|s|)));
  }

  lemma BodyOf(payload: seq<Byte>, lsbFirst: bool)
    ensures Body(payload, lsbFirst) == Padded(Stuff(DataBits(payload, lsbFirst)))
  {
  }

  lemma FrameFromStream(frame: seq<Byte>, payload: seq<Byte>, lsbFirst: bool)
    requires Stream(frame, lsbFirst) == FLAG + Body(payload, lsbFirst) + FLAG
    ensures frame == Encoding(payload, lsbFirst)
  {
    EncodingStream(payload, lsbFirst);
    StreamInjective(frame, Encoding(payload, lsbFirst), lsbFirst);
  }
}
