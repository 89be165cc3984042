/** What an encoded frame is and what a decoder makes of one, as functions of byte strings, with
    the laws that connect them.  The imperative encoder and decoder are proved against these. */
module Codec {
  import opened Words
  import opened Stuffing
  import Crc

  // ---- encoding -----------------------------------------------------------------------

  /** The data between the flags before stuffing: the payload and its two check bytes. */
  function Data(payload: seq<Byte>): (d: seq<Byte>)
    ensures |d| == |payload| + 2
  {
    payload + Crc.CheckBytes(Crc.CrcOf(payload))
  }

  function DataBits(payload: seq<Byte>, lsbFirst: bool): (x: Bits)
    ensures |x| == 8 * (|payload| + 2)
  {
    Stream(Data(payload), lsbFirst)
  }

  function Padding(n: nat): (k: nat)
    ensures k < 8 && (n + k) % 8 == 0
  {
    (8 - n % 8) % 8
  }

  function Padded(s: Bits): (t: Bits)
    ensures |t| % 8 == 0 && |t| / 8 == (|s| + 7) / 8
  {
    s + Zeros(Padding(|s|))
  }

  /** The bits between the flags: stuffed data, zero-padded to a whole byte. */
  function Body(payload: seq<Byte>, lsbFirst: bool): (s: Bits)
    ensures |s| % 8 == 0
  {
    Padded(Stuff(DataBits(payload, lsbFirst)))
  }

  function Encoding(payload: seq<Byte>, lsbFirst: bool): (frame: seq<Byte>)
    ensures |frame| >= 2
  {
    [FLAG] + Chop(Body(payload, lsbFirst), lsbFirst) + [FLAG]
  }

  lemma EncodingStream(payload: seq<Byte>, lsbFirst: bool)
    ensures Stream(Encoding(payload, lsbFirst), lsbFirst) == FLAG + Body(payload, lsbFirst) + FLAG
  {
    var body := Body(payload, lsbFirst);
    var inner := Chop(body, lsbFirst);
    StreamChop(body, lsbFirst);
    assert body[..8 * (|body| / 8)] == body;
    StreamOne(FLAG, lsbFirst);
    FlagIsPalindrome(lsbFirst);
    StreamConcat([FLAG], inner, lsbFirst);
    StreamConcat([FLAG] + inner, [FLAG], lsbFirst);
  }

  /** How many zeros the sender inserts. */
  function Inserted(payload: seq<Byte>, lsbFirst: bool): (n: nat)
    ensures n <= 8 * (|payload| + 2) / 5
  {
    var x := DataBits(payload, lsbFirst);
    StuffedSize(x, |x|);
    |Stuff(x)| - |x|
  }

  /** Size of an encoded frame: two flags and the stuffed data rounded up to bytes, with at most
      one inserted bit in five. */
  lemma EncodedSize(payload: seq<Byte>, lsbFirst: bool)
    ensures |Encoding(payload, lsbFirst)| == 2 + (8 * (|payload| + 2) + Inserted(payload, lsbFirst) + 7) / 8
    ensures Inserted(payload, lsbFirst) <= 8 * (|payload| + 2) / 5
    ensures |payload| <= 1703 ==> |Encoding(payload, lsbFirst)| <= 2048
  {
    var stuffed := Stuff(DataBits(payload, lsbFirst));
    assert |stuffed| == 8 * (|payload| + 2) + Inserted(payload, lsbFirst);
    assert |Encoding(payload, lsbFirst)| == 2 + |Padded(stuffed)| / 8;
  }

  // ---- decoding -----------------------------------------------------------------------

  datatype Reason = InvalidFrame | UnstuffError | PayloadTooLong | TooShort | CrcMismatch

  datatype Decoded = Payload(bytes: seq<Byte>) | Rejected(reason: Reason)

  predicate Delimited(frame: seq<Byte>) {
    |frame| >= 2 && frame[0] == FLAG && frame[|frame| - 1] == FLAG
  }

  /** The line bits between the flags. */
  function Inner(frame: seq<Byte>, lsbFirst: bool): Bits
    requires |frame| >= 2
  {
    Stream(frame[1..|frame| - 1], lsbFirst)
  }

  /** What the decoder answers, given room for `capacity` bytes of data and check bytes. */
  function Decoding(frame: seq<Byte>, capacity: nat, lsbFirst: bool): Decoded {
    if capacity == 0 || !Delimited(frame) then Rejected(InvalidFrame)
    else
      var r := Destuff(Inner(frame, lsbFirst));
      var data := Chop(r.bits, lsbFirst);
      if |data| > capacity then Rejected(PayloadTooLong)
      else if r.bad then Rejected(UnstuffError)
      else if |data| < 2 then Rejected(TooShort)
      else if !Crc.Passes(data) then Rejected(CrcMismatch)
      else Payload(data[..|data| - 2])
  }

  lemma InnerOfEncoding(payload: seq<Byte>, lsbFirst: bool)
    ensures Delimited(Encoding(payload, lsbFirst))
    ensures Inner(Encoding(payload, lsbFirst), lsbFirst) == Body(payload, lsbFirst)
  {
    var body := Body(payload, lsbFirst);
    var inner := Chop(body, lsbFirst);
    var frame := [FLAG] + inner + [FLAG];
    assert frame[1..|frame| - 1] == inner;
    StreamChop(body, lsbFirst);
    assert body[..8 * (|body| / 8)] == body;
  }

  lemma DataPasses(payload: seq<Byte>)
    ensures Crc.Passes(Data(payload))
    ensures Data(payload)[..|payload|] == payload
  {
    var d := Data(payload);
    assert d[..|d| - 2] == payload;
  }

  /** How a receiver reads an encoded frame: all its data, then the padding zeros. */
  lemma EncodingReceived(payload: seq<Byte>, lsbFirst: bool) returns (k: nat)
    ensures k < 8
    ensures var r := Destuff(Inner(Encoding(payload, lsbFirst), lsbFirst));
      r.bits == DataBits(payload, lsbFirst) + Zeros(k) && !r.bad && r.ones <= 4
  {
    var x := DataBits(payload, lsbFirst);
    InnerOfEncoding(payload, lsbFirst);
    k := Padding(|Stuff(x)|);
    DestuffPadded(x, k);
  }

  /** Round trip: decoding an encoding gives back the payload exactly when the output has room
      for the payload and its two check bytes. */
  lemma RoundTrip(payload: seq<Byte>, capacity: nat, lsbFirst: bool)
    ensures Decoding(Encoding(payload, lsbFirst), capacity, lsbFirst) == Payload(payload)
            <==> capacity >= |payload| + 2
  {
    var k := EncodingReceived(payload, lsbFirst);
    InnerOfEncoding(payload, lsbFirst);
    ChopWithLeftover(Data(payload), Zeros(k), lsbFirst);
    DataPasses(payload);
  }

  lemma ChopWithLeftover(bytes: seq<Byte>, z: Bits, lsbFirst: bool)
    requires |z| < 8
    ensures Chop(Stream(bytes, lsbFirst) + z, lsbFirst) == bytes
  {
    var s := Stream(bytes, lsbFirst);
    var t := s + z;
    forall i | 0 <= i < |bytes|
      ensures Chop(t, lsbFirst)[i] == Chop(s, lsbFirst)[i]
    {
      assert t[8 * i..8 * i + 8] == s[8 * i..8 * i + 8];
    }
    assert Chop(t, lsbFirst) == Chop(s, lsbFirst);
    ChopStream(bytes, lsbFirst);
  }

  /** The line carries the payload and its check bytes, and fewer than eight bits more. */
  ghost predicate CarriesPayload(line: Bits, payload: seq<Byte>, lsbFirst: bool) {
    exists z: Bits :: |z| < 8 && Carried(line, DataBits(payload, lsbFirst) + z)
  }

  /** Decoder exactness, against the sender's stuffing: a payload is accepted from a frame exactly
      if the flags are there, it fits with its check bytes, and the bits between the flags are the
      stuffed form of the payload, its check bytes and a remainder short of a byte. */
  lemma AcceptsExactly(frame: seq<Byte>, payload: seq<Byte>, capacity: nat, lsbFirst: bool)
    ensures Decoding(frame, capacity, lsbFirst) == Payload(payload)
            <==> Delimited(frame) && |payload| + 2 <= capacity && CarriesPayload(Inner(frame, lsbFirst), payload, lsbFirst)
  {
    hide DataBits, Destuff, Carried, Inner;
    if Decoding(frame, capacity, lsbFirst) == Payload(payload) {
      AcceptedData(frame, capacity, lsbFirst);
      var line := Inner(frame, lsbFirst);
      CarriedOf(line, payload, lsbFirst);
    }
    if Delimited(frame) && |payload| + 2 <= capacity && CarriesPayload(Inner(frame, lsbFirst), payload, lsbFirst) {
      var line := Inner(frame, lsbFirst);
      ReadsPayload(line, payload, lsbFirst);
      DataPasses(payload);
    }
  }

  lemma CarriedOf(line: Bits, payload: seq<Byte>, lsbFirst: bool)
    requires !Destuff(line).bad && Chop(Destuff(line).bits, lsbFirst) == Data(payload)
    ensures CarriesPayload(line, payload, lsbFirst)
  {
    hide Destuff, Carried;
    var bits := Destuff(line).bits;
    SplitLeftover(bits, lsbFirst);
    ReceivedIffCarried(line, bits);
    assert |Leftover(bits)| < 8 && Carried(line, DataBits(payload, lsbFirst) + Leftover(bits));
  }

  lemma ReadsPayload(line: Bits, payload: seq<Byte>, lsbFirst: bool)
    requires CarriesPayload(line, payload, lsbFirst)
    ensures !Destuff(line).bad && Chop(Destuff(line).bits, lsbFirst) == Data(payload)
  {
    hide Destuff, Carried;
    var z: Bits :| |z| < 8 && Carried(line, DataBits(payload, lsbFirst) + z);
    ReceivedIffCarried(line, DataBits(payload, lsbFirst) + z);
    ChopWithLeftover(Data(payload), z, lsbFirst);
  }

  /** Every answer of the decoder, against the line: a frame that is not delimited is invalid; six
      ones in a row are an error, unless the buffer is full before them; otherwise the line carries
      some data, and their complete bytes are too many, too few, of a non-zero residue, or the
      payload with its check bytes. */
  lemma ReasonsAreExact(frame: seq<Byte>, capacity: nat, lsbFirst: bool)
    ensures Decoding(frame, capacity, lsbFirst) == Rejected(InvalidFrame) <==> capacity == 0 || !Delimited(frame)
    ensures Delimited(frame) && capacity > 0 && (exists q: nat :: SixOnes(Inner(frame, lsbFirst), q)) ==>
              Decoding(frame, capacity, lsbFirst)
              == Rejected(if |Destuff(Inner(frame, lsbFirst)).bits| / 8 > capacity then PayloadTooLong else UnstuffError)
    ensures Delimited(frame) && capacity > 0 && (forall q: nat :: !SixOnes(Inner(frame, lsbFirst), q)) ==>
              exists x :: Carried(Inner(frame, lsbFirst), x) && Decoding(frame, capacity, lsbFirst) == AnswerTo(x, capacity, lsbFirst)
  {
    if Delimited(frame) && capacity > 0 {
      var line := Inner(frame, lsbFirst);
      var x := Destuff(line).bits;
      BadIffSixOnes(line);
      ReceivedIffCarried(line, x);
      hide Destuff, Inner, Carried, SixOnes;
      if !Destuff(line).bad {
        var data := Chop(x, lsbFirst);
        if |data| >= 2 {
          Crc.PassesIffZeroResidue(data);
        }
        assert Carried(line, x) && Decoding(frame, capacity, lsbFirst) == AnswerTo(x, capacity, lsbFirst);
      }
    }
  }

  /** The answer to data that have been carried without error. */
  function AnswerTo(x: Bits, capacity: nat, lsbFirst: bool): Decoded {
    var data := Chop(x, lsbFirst);
    if |x| / 8 > capacity then Rejected(PayloadTooLong)
    else if |x| < 16 then Rejected(TooShort)
    else if Crc.Feed(Crc.INIT, Stream(data, false)) != Crc.ZERO then Rejected(CrcMismatch)
    else Payload(data[..|data| - 2])
  }

  // ---- canonical form -----------------------------------------------------------------

  lemma {:induction false} StuffZeros(x: Bits, k: nat)
    ensures Stuff(x + Zeros(k)) == Stuff(x) + Zeros(k)
  {
    if k == 0 {
      assert x + Zeros(0) == x;
      assert Stuff(x) + Zeros(0) == Stuff(x);
    } else {
      StuffZeros(x, k - 1);
      StuffSnoc(x + Zeros(k - 1), false);
      ZerosSnoc(x, k);
      ZerosSnoc(Stuff(x), k);
    }
  }

  lemma ZerosSnoc(x: Bits, k: nat)
    requires k > 0
    ensures x + Zeros(k) == x + Zeros(k - 1) + [false]
  {
  }

  /** The bits after the last complete byte. */
  function Leftover(s: Bits): (r: Bits)
    ensures |r| < 8
  {
    s[8 * (|s| / 8)..]
  }

  /** Nothing in the frame lies outside what its payload determines: the zero owed after a
      final run of five ones is present, and the bits after the last data byte are zeros. */
  predicate Canonical(frame: seq<Byte>, lsbFirst: bool)
    requires |frame| >= 2
  {
    NothingElse(Destuff(Inner(frame, lsbFirst)))
  }

  predicate NothingElse(r: Receiver) {
    r.ones != 5 && Leftover(r.bits) == Zeros(|Leftover(r.bits)|)
  }

  /** The decoder also accepts frames no encoder produces; an accepted frame is byte for byte the
      encoding of its payload exactly when it is canonical. */
  lemma AcceptedIsEncoding(frame: seq<Byte>, capacity: nat, lsbFirst: bool)
    requires Decoding(frame, capacity, lsbFirst).Payload?
    ensures var p := Decoding(frame, capacity, lsbFirst).bytes;
      frame == Encoding(p, lsbFirst) <==> Canonical(frame, lsbFirst)
  {
    var p := Decoding(frame, capacity, lsbFirst).bytes;
    if frame == Encoding(p, lsbFirst) {
      EncodingIsCanonical(p, lsbFirst);
    }
    if Canonical(frame, lsbFirst) {
      AcceptedData(frame, capacity, lsbFirst);
      CanonicalIsEncoding(frame, p, lsbFirst);
    }
  }

  lemma EncodingIsCanonical(payload: seq<Byte>, lsbFirst: bool)
    ensures Canonical(Encoding(payload, lsbFirst), lsbFirst)
  {
    hide NothingElse, DataBits, Encoding, Destuff;
    var k := EncodingReceived(payload, lsbFirst);
    PaddingIsNothingElse(Destuff(Inner(Encoding(payload, lsbFirst), lsbFirst)), DataBits(payload, lsbFirst), k);
  }

  lemma PaddingIsNothingElse(r: Receiver, x: Bits, k: nat)
    requires r.bits == x + Zeros(k) && |x| % 8 == 0 && k < 8 && r.ones != 5
    ensures NothingElse(r)
  {
    var t := x + Zeros(k);
    assert 8 * (|t| / 8) == |x|;
    assert t[|x|..] == Zeros(k);
  }

  /** Stuffed data with fewer than eight zeros after it, on a byte boundary, is padded data. */
  lemma PaddingIsUnique(x: Bits, k: nat)
    requires k < 8 && (|Stuff(x)| + k) % 8 == 0
    ensures Stuff(x + Zeros(k)) == Padded(Stuff(x))
  {
    StuffZeros(x, k);
    assert k == Padding(|Stuff(x)|);
  }

  lemma SplitLeftover(bits: Bits, lsbFirst: bool)
    ensures bits == Stream(Chop(bits, lsbFirst), lsbFirst) + Leftover(bits)
  {
    StreamChop(bits, lsbFirst);
    var n := 8 * (|bits| / 8);
    assert bits == bits[..n] + bits[n..];
  }

  /** A cleanly received line with no stuffed zero outstanding and only zeros left over is the
      padded form of its data. */
  lemma CanonicalLine(line: Bits, r: Receiver, lsbFirst: bool)
    requires |line| % 8 == 0 && r == Destuff(line) && !r.bad && NothingElse(r)
    ensures line == Padded(Stuff(Stream(Chop(r.bits, lsbFirst), lsbFirst)))
  {
    hide Destuff, Stuff, Stream, Chop, Padded;
    LineIsStuffed(line);
    SplitLeftover(r.bits, lsbFirst);
    var x, k := Stream(Chop(r.bits, lsbFirst), lsbFirst), |Leftover(r.bits)|;
    StuffZeros(x, k);
    PaddingIsUnique(x, k);
  }

  lemma LineIsStuffed(line: Bits)
    requires !Destuff(line).bad && Destuff(line).ones != 5
    ensures Stuff(Destuff(line).bits) == line
  {
    CleanMeansStuffed(line, |line|);
    assert line[..|line|] == line;
  }

  lemma CanonicalIsEncoding(frame: seq<Byte>, payload: seq<Byte>, lsbFirst: bool)
    requires Delimited(frame) && Canonical(frame, lsbFirst)
    requires !Destuff(Inner(frame, lsbFirst)).bad
    requires Chop(Destuff(Inner(frame, lsbFirst)).bits, lsbFirst) == Data(payload)
    ensures frame == Encoding(payload, lsbFirst)
  {
    var line := Inner(frame, lsbFirst);
    CanonicalLine(line, Destuff(line), lsbFirst);
    assert line == Body(payload, lsbFirst);
    FrameOfInner(frame, lsbFirst);
  }

  lemma FrameOfInner(frame: seq<Byte>, lsbFirst: bool)
    requires Delimited(frame)
    ensures frame == [FLAG] + Chop(Inner(frame, lsbFirst), lsbFirst) + [FLAG]
  {
    var inner := frame[1..|frame| - 1];
    ChopStream(inner, lsbFirst);
    assert frame == [FLAG] + inner + [FLAG];
  }

  /** Every accepted frame carries its payload's check bytes after it. */
  lemma AcceptedData(frame: seq<Byte>, capacity: nat, lsbFirst: bool)
    requires Decoding(frame, capacity, lsbFirst).Payload?
    ensures var p := Decoding(frame, capacity, lsbFirst).bytes;
      Chop(Destuff(Inner(frame, lsbFirst)).bits, lsbFirst) == Data(p) && |p| + 2 <= capacity
  {
    var data := Chop(Destuff(Inner(frame, lsbFirst)).bits, lsbFirst);
    assert data == data[..|data| - 2] + data[|data| - 2..];
  }

  // ---- transparency -------------------------------------------------------------------

  /** The flag pattern starts at bit q. */
  predicate FlagAt(s: Bits, q: nat) {
    q + 8 <= |s| && s[q..q + 8] == FLAG
  }

  lemma FlagBits(s: Bits, q: nat)
    ensures FlagAt(s, q) <==> q + 8 <= |s| && !s[q] && SixOnes(s, q + 1) && !s[q + 7]
  {
    if q + 8 <= |s| {
      var w := s[q..q + 8];
      assert w[0] == s[q] && w[1] == s[q + 1] && w[2] == s[q + 2] && w[3] == s[q + 3];
      assert w[4] == s[q + 4] && w[5] == s[q + 5] && w[6] == s[q + 6] && w[7] == s[q + 7];
      if !s[q] && SixOnes(s, q + 1) && !s[q + 7] {
        assert w == FLAG;
      }
    }
  }

  lemma {:induction false} PaddedIsSpaced(x: Bits, k: nat)
    ensures forall q: nat :: !SixOnes(Stuff(x) + Zeros(k), q)
  {
    StuffedIsSpaced(x, |x|);
    var s, t := Stuff(x), Stuff(x) + Zeros(k);
    forall q: nat
      ensures !SixOnes(t, q)
    {
      assert !SixOnes(s, q);
    }
  }

  lemma SixOnesBetweenFlags(body: Bits, q: nat)
    requires forall i: nat :: !SixOnes(body, i)
    ensures var s := FLAG + body + FLAG; SixOnes(s, q) <==> q == 1 || q == |s| - 7
  {
    var s := FLAG + body + FLAG;
    var n := |s|;
    assert forall i | 0 <= i < 8 :: s[i] == FLAG[i];
    assert forall i | 0 <= i < 8 :: s[n - 8 + i] == FLAG[i];
    assert forall i | 0 <= i < |body| :: s[8 + i] == body[i];
    if 8 <= q && q + 6 <= n - 8 && SixOnes(s, q) {
      assert SixOnes(body, q - 8);
    }
  }

  /** Transparency: in the whole bit string of a frame, six ones in a row occur only inside the
      two flags. */
  lemma SixOnesOnlyInFlags(payload: seq<Byte>, lsbFirst: bool, q: nat)
    ensures var s := Stream(Encoding(payload, lsbFirst), lsbFirst);
      SixOnes(s, q) <==> q == 1 || q == |s| - 7
  {
    var x := DataBits(payload, lsbFirst);
    EncodingStream(payload, lsbFirst);
    PaddedIsSpaced(x, Padding(|Stuff(x)|));
    SixOnesBetweenFlags(Body(payload, lsbFirst), q);
  }

  /** Hence the flag pattern occurs at exactly two bit positions: the opening and the closing. */
  lemma FlagsOnlyAtEnds(payload: seq<Byte>, lsbFirst: bool, q: nat)
    ensures var s := Stream(Encoding(payload, lsbFirst), lsbFirst);
      FlagAt(s, q) <==> q == 0 || q == |s| - 8
  {
    var s := Stream(Encoding(payload, lsbFirst), lsbFirst);
    EncodingStream(payload, lsbFirst);
    FlagBits(s, q);
    SixOnesOnlyInFlags(payload, lsbFirst, q + 1);
    assert forall i | 0 <= i < 8 :: s[i] == FLAG[i] && s[|s| - 8 + i] == FLAG[i];
  }
}
