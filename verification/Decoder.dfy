/** The bit-destuffing decoder: a cursor over the frame's bits, read bit by bit. */
module Decoder {
  import opened Words
  import opened Stuffing
  import opened Codec

  datatype BitResult = BitOk | BitEof | BitErr

  class BitDecoder {
    const frame: seq<Byte>
    const lsbFirst: bool
    var onesRun: nat
    var rawBitIndex: nat
    var skipNextZero: bool

    constructor (frame: seq<Byte>, lsbFirst: bool)
      requires |frame| >= 2
      ensures Valid() && rawBitIndex == 0 && this.frame == frame && this.lsbFirst == lsbFirst
    {
      this.frame := frame;
      this.lsbFirst := lsbFirst;
      onesRun := 0;
      rawBitIndex := 0;
      skipNextZero := false;
    }

    /** The bits between the flags. */
    ghost function Raw(): Bits
      requires |frame| >= 2
    {
      Inner(frame, lsbFirst)
    }

    /** What a receiver knows after the bits read so far. */
    ghost function Seen(): Receiver
      requires |frame| >= 2 && rawBitIndex <= |Raw()|
      reads this
    {
      DestuffUpTo(Raw(), rawBitIndex)
    }

    /** The cursor's fields are the receiver's run. */
    ghost predicate Valid()
      reads this
    {
      && |frame| >= 2
      && rawBitIndex <= |Raw()|
      && !Seen().bad
      && onesRun == Seen().ones
      && (skipNextZero <==> onesRun == 5)
    }

    /** The next data bit, passing over an inserted zero. */
    method GetBit() returns (result: BitResult, bit: bool)
      requires Valid()
      modifies this
      ensures result.BitErr? ==> rawBitIndex <= |Raw()| && Seen().bad && Seen().bits == old(Seen().bits)
      ensures !result.BitErr? ==> Valid()
      ensures result.BitOk? ==> Seen().bits == old(Seen().bits) + [bit] && rawBitIndex > old(rawBitIndex)
      ensures result.BitEof? ==> rawBitIndex == |Raw()| && Seen().bits == old(Seen().bits)
      ensures rawBitIndex >= old(rawBitIndex)
    {
      bit := false;
      var rawBitsTotal := if |frame| > 2 then (|frame| - 2) * 8 else 0;
      while rawBitIndex < rawBitsTotal
        invariant Valid() && Seen().bits == old(Seen().bits) && rawBitIndex >= old(rawBitIndex)
        decreases rawBitsTotal - rawBitIndex
      {
        var rawBit := GetRawBit();
        rawBitIndex := rawBitIndex + 1;
        if skipNextZero {
          if rawBit {
            return BitErr, false;
          }
          skipNextZero := false;
          onesRun := 0;
          continue;
        }
        bit := rawBit;
        if rawBit {
          onesRun := onesRun + 1;
          if onesRun == 5 {
            skipNextZero := true;
          }
        } else {
          onesRun := 0;
        }
        return BitOk, bit;
      }
      return BitEof, false;
    }

    /** The bit under the cursor, at its byte index and bit position. */
    method GetRawBit() returns (bit: bool)
      requires Valid() && rawBitIndex < |Raw()|
      ensures bit == Raw()[rawBitIndex]
    {
      var byteIndex := 1 + rawBitIndex / 8;
      var bitIndex := rawBitIndex % 8;
      var between := frame[1..|frame| - 1];
      StreamBit(between, lsbFirst, byteIndex - 1, bitIndex);
      assert between[byteIndex - 1] == frame[byteIndex];
      bit := frame[byteIndex][if lsbFirst then bitIndex else 7 - bitIndex];
    }

    /** The next complete data byte. */
    method GetByte() returns (result: BitResult, byte: Byte)
      requires Valid()
      modifies this
      ensures result.BitErr? ==> rawBitIndex <= |Raw()| && Seen().bad
      ensures !result.BitErr? ==> Valid()
      ensures result.BitOk? ==> Seen().bits == old(Seen().bits) + BitsOf(byte, lsbFirst)
      ensures result.BitOk? ==> rawBitIndex > old(rawBitIndex)
      ensures result.BitEof? ==> rawBitIndex == |Raw()|
      ensures !result.BitOk? ==> old(Seen().bits) <= Seen().bits && |Seen().bits| < old(|Seen().bits|) + 8
    {
      byte := Zeros(8);
      var i := 0;
      while i < 8
        invariant 0 <= i <= 8 && Valid()
        invariant Seen().bits == old(Seen().bits) + BitsOf(byte, lsbFirst)[..i]
        invariant ClearFrom(byte, i, lsbFirst)
        invariant rawBitIndex >= old(rawBitIndex) + if i > 0 then 1 else 0
      {
        var bit: bool;
        result, bit := GetBit();
        if !result.BitOk? {
          return;
        }
        SetBitIsNext(byte, i, bit, lsbFirst);
        Assoc(old(Seen().bits), BitsOf(byte, lsbFirst)[..i], [bit]);
        byte := SetBit(byte, i, bit, lsbFirst);
        i := i + 1;
      }
      assert BitsOf(byte, lsbFirst)[..8] == BitsOf(byte, lsbFirst);
      return BitOk, byte;
    }
  }

  /** Decodes a frame into the caller's buffer.  The buffer receives the check bytes as well, so
      it must have room for two bytes more than the payload. */
  method Decode(frame: seq<Byte>, payload: array<Byte>, lsbFirst: bool) returns (r: Decoded)
    modifies payload
    ensures r == Decoding(frame, payload.Length, lsbFirst)
    ensures r.Payload? ==> |r.bytes| + 2 <= payload.Length && payload[..|r.bytes|] == r.bytes
  {
    if payload.Length == 0 || |frame| < 2 || frame[0] != FLAG || frame[|frame| - 1] != FLAG {
      return Rejected(InvalidFrame);
    }
    var n, reading := ReadBytes(frame, payload, lsbFirst);
    if reading == Overflow {
      return Rejected(PayloadTooLong);
    }
    if reading == Unstuffable {
      return Rejected(UnstuffError);
    }
    if n < 2 {
      return Rejected(TooShort);
    }
    var length := n - 2;
    var crc := Crc.Crc16(payload[..length]);
    PassesByBytes(payload[..n], payload[..length]);
    if crc[8..] != payload[n - 2] || crc[..8] != payload[n - 1] {
      return Rejected(CrcMismatch);
    }
    return Payload(payload[..length]);
  }

  lemma PassesByBytes(data: seq<Byte>, front: seq<Byte>)
    requires |data| >= 2 && front == data[..|data| - 2]
    ensures var crc := Crc.CrcOf(front);
      Crc.Passes(data) <==> crc[8..] == data[|data| - 2] && crc[..8] == data[|data| - 1]
  {
    var n := |data|;
    assert data[n - 2..] == [data[n - 2], data[n - 1]];
  }

  datatype Reading = Complete | Overflow | Unstuffable

  /** How reading the complete bytes of a received line into a buffer ends. */
  predicate Reads(d: Receiver, capacity: nat, reading: Reading) {
    match reading
    case Overflow => |d.bits| / 8 > capacity
    case Unstuffable => |d.bits| / 8 <= capacity && d.bad
    case Complete => |d.bits| / 8 <= capacity && !d.bad
  }

  /** The decoder's byte loop: every complete byte up to the end of the frame, or the first
      failure. */
  method ReadBytes(frame: seq<Byte>, payload: array<Byte>, lsbFirst: bool) returns (n: nat, reading: Reading)
    requires Delimited(frame)
    modifies payload
    ensures Reads(Destuff(Inner(frame, lsbFirst)), payload.Length, reading)
    ensures n <= payload.Length
    ensures reading == Complete ==> payload[..n] == Chop(Destuff(Inner(frame, lsbFirst)).bits, lsbFirst)
  {
    var decoder := new BitDecoder(frame, lsbFirst);
    ghost var raw := Inner(frame, lsbFirst);
    n := 0;
    while true
      invariant fresh(decoder) && decoder.Valid() && decoder.frame == frame && decoder.lsbFirst == lsbFirst
      invariant n <= payload.Length
      invariant decoder.Seen().bits == Stream(payload[..n], lsbFirst)
      decreases |raw| - decoder.rawBitIndex
    {
      ghost var before := payload[..n];
      var result, byte := decoder.GetByte();
      DestuffMonotone(raw, decoder.rawBitIndex, |raw|);
      if result == BitEof {
        Leftovers(before, decoder.Seen().bits, lsbFirst);
        return n, Complete;
      }
      if result == BitErr {
        return n, Unstuffable;
      }
      if n >= payload.Length {
        return n, Overflow;
      }
      StreamConcat(before, [byte], lsbFirst);
      StreamOne(byte, lsbFirst);
      payload[n] := byte;
      n := n + 1;
      assert payload[..n] == before + [byte];
    }
  }

  /** Bits short of a whole byte after complete bytes are no byte. */
  lemma Leftovers(bytes: seq<Byte>, bits: Bits, lsbFirst: bool)
    requires Stream(bytes, lsbFirst) <= bits && |bits| < 8 * |bytes| + 8
    ensures Chop(bits, lsbFirst) == bytes
  {
    var s := Stream(bytes, lsbFirst);
    forall i | 0 <= i < |bytes|
      ensures Chop(bits, lsbFirst)[i] == Chop(s, lsbFirst)[i]
    {
      assert bits[8 * i..8 * i + 8] == s[8 * i..8 * i + 8];
    }
    ChopStream(bytes, lsbFirst);
  }
}
