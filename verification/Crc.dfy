/** The 16-bit CRC of a frame (CRC-16/CCITT-FALSE): the byte-wise register computation, the
    bit-serial polynomial register it refines, and what the check detects. */
module Crc {
  import opened Words

  /** 0xFFFF */
  const INIT: Word16 :=
    [true, true, true, true, true, true, true, true, true, true, true, true, true, true, true, true]
  /** 0x1021: x^12 + x^5 + 1, with x^16 implicit */
  const POLY: Word16 :=
    [true, false, false, false, false, true, false, false,
     false, false, false, false, true, false, false, false]
  const ZERO: Word16 := Zeros(16)

  /** The constants as the source writes them. */
  lemma Constants()
    ensures Value(INIT[8..], INIT[..8]) == 0xFFFF
    ensures Value(POLY[8..], POLY[..8]) == 0x1021
    ensures ByteValue(FLAG) == 0x7E
  {
  }

  // ---- the register -------------------------------------------------------------------

  /** One shift of the register: multiply by x and reduce. */
  function Shift(c: Word16): (r: Word16) {
    if c[15] then Xor(Shl(c, 1), POLY) else Shl(c, 1)
  }

  /** A byte moved to the top half of a 16-bit word. */
  function Widen(b: Byte): (w: Word16) {
    Shl(b + Zeros(8), 8)
  }

  /** The bit-serial register: one message bit enters at the top. */
  function FeedBit(c: Word16, bit: bool): (r: Word16) {
    Shift(Xor(c, Zeros(15) + [bit]))
  }

  function Feed(c: Word16, s: Bits): (r: Word16) {
    if s == [] then c else FeedBit(Feed(c, s[..|s| - 1]), s[|s| - 1])
  }

  /** The CRC of a byte string: its bits, most significant first, through the register. */
  function CrcOf(bytes: seq<Byte>): (r: Word16) {
    Feed(INIT, Stream(bytes, false))
  }

  /** The two check bytes as they are sent: high byte first. */
  function CheckBytes(c: Word16): (r: seq<Byte>)
    ensures |r| == 2
  {
    [c[8..], c[..8]]
  }

  /** The decoder's test: the last two bytes are the CRC of the bytes before them. */
  predicate Passes(bytes: seq<Byte>) {
    |bytes| >= 2 && bytes[|bytes| - 2..] == CheckBytes(CrcOf(bytes[..|bytes| - 2]))
  }

  /** The byte-wise loop computes the bit-serial register. */
  method Crc16(payload: seq<Byte>) returns (crc: Word16)
    ensures crc == CrcOf(payload)
  {
    crc := INIT;
    var n := 0;
    while n < |payload|
      invariant 0 <= n <= |payload|
      invariant crc == CrcOf(payload[..n])
    {
      var byte := payload[n];
      ghost var start := crc;
      crc := Xor(crc, Widen(byte));
      NothingFed(start, byte);
      var bit := 0;
      while bit < 8
        invariant 0 <= bit <= 8
        invariant crc == PartlyFed(start, byte, bit)
      {
        PartlyFedNext(start, byte, bit);
        crc := if crc[15] then Xor(Shl(crc, 1), POLY) else Shl(crc, 1);
        bit := bit + 1;
      }
      AllFed(start, byte);
      CrcOfNext(payload, n);
      n := n + 1;
    }
    assert payload[..n] == payload;
  }

  /** The register inside the byte loop: `bit` bits fed, the others already mixed in. */
  function PartlyFed(start: Word16, byte: Byte, bit: nat): Word16
    requires bit <= 8
  {
    Xor(Feed(start, BitsOf(byte, false)[..bit]), Shl(Widen(byte), bit))
  }

  lemma NothingFed(start: Word16, byte: Byte)
    ensures PartlyFed(start, byte, 0) == Xor(start, Widen(byte))
  {
    assert Shl(Widen(byte), 0) == Widen(byte);
  }

  lemma PartlyFedNext(start: Word16, byte: Byte, bit: nat)
    requires bit < 8
    ensures PartlyFed(start, byte, bit + 1) == Shift(PartlyFed(start, byte, bit))
  {
    var m := BitsOf(byte, false);
    ShiftAhead(Feed(start, m[..bit]), byte, bit);
    assert m[..bit + 1][..bit] == m[..bit];
  }

  lemma AllFed(start: Word16, byte: Byte)
    ensures PartlyFed(start, byte, 8) == Feed(start, BitsOf(byte, false))
  {
    var m := BitsOf(byte, false);
    assert m[..8] == m;
    assert Xor(Feed(start, m), Shl(Widen(byte), 8)) == Feed(start, m);
  }

  lemma CrcOfNext(payload: seq<Byte>, n: nat)
    requires n < |payload|
    ensures CrcOf(payload[..n + 1]) == Feed(CrcOf(payload[..n]), BitsOf(payload[n], false))
  {
    assert payload[..n + 1] == payload[..n] + [payload[n]];
    StreamConcat(payload[..n], [payload[n]], false);
    StreamOne(payload[n], false);
    FeedConcat(INIT, Stream(payload[..n], false), BitsOf(payload[n], false));
  }

  /** Shifting with the byte's remaining bits already mixed in is feeding its next bit. */
  lemma ShiftAhead(c: Word16, b: Byte, k: nat)
    requires k < 8
    ensures Shift(Xor(c, Shl(Widen(b), k))) == Xor(FeedBit(c, b[7 - k]), Shl(Widen(b), k + 1))
  {
    var mixed := Xor(c, Shl(Widen(b), k));
    var fed := Xor(c, Zeros(15) + [b[7 - k]]);
    assert mixed[15] == fed[15];
    assert forall i | 0 <= i < 15 :: mixed[i] == (c[i] != Shl(Widen(b), k + 1)[i + 1]);
    assert Shift(mixed) == Xor(FeedBit(c, b[7 - k]), Shl(Widen(b), k + 1));
  }

  // ---- algebra of the register --------------------------------------------------------

  lemma {:induction false} FeedConcat(c: Word16, a: Bits, b: Bits)
    ensures Feed(c, a + b) == Feed(Feed(c, a), b)
  {
    if b == [] {
      assert a + b == a;
    } else {
      assert (a + b)[..|a + b| - 1] == a + b[..|b| - 1];
      FeedConcat(c, a, b[..|b| - 1]);
    }
  }

  lemma FeedBitLinear(c: Word16, d: Word16, x: bool, y: bool)
    ensures FeedBit(Xor(c, d), x != y) == Xor(FeedBit(c, x), FeedBit(d, y))
  {
    var l, r := FeedBit(Xor(c, d), x != y), Xor(FeedBit(c, x), FeedBit(d, y));
    assert forall i | 0 <= i < 16 :: l[i] == r[i];
    assert l == r;
  }

  /** Superposition: the register of a difference is the difference of the registers. */
  lemma {:induction false} FeedLinear(c: Word16, d: Word16, u: Bits, v: Bits)
    requires |u| == |v|
    ensures Feed(Xor(c, d), Xor(u, v)) == Xor(Feed(c, u), Feed(d, v))
  {
    if u != [] {
      var n := |u| - 1;
      assert Xor(u, v)[..n] == Xor(u[..n], v[..n]);
      FeedLinear(c, d, u[..n], v[..n]);
      FeedBitLinear(Feed(c, u[..n]), Feed(d, v[..n]), u[n], v[n]);
    }
  }

  /** At most 16 bits that drive the register to zero are the register's own leading bits. */
  lemma {:induction false} FeedToZero(c: Word16, s: Bits)
    requires |s| <= 16 && Feed(c, s) == ZERO
    ensures forall i | 0 <= i < 16 :: c[i] == (15 - i < |s| && s[15 - i])
    decreases |s|
  {
    if s != [] {
      FeedConcat(c, s[..1], s[1..]);
      assert s[..1] + s[1..] == s;
      assert s[..1][..0] == [];
      assert Feed(c, s[..1]) == FeedBit(c, s[0]);
      var d := FeedBit(c, s[0]);
      FeedToZero(d, s[1..]);
      assert !d[0];
      assert c[15] == s[0];
      forall i | 0 <= i < 15
        ensures c[i] == (15 - i < |s| && s[15 - i])
      {
        assert c[i] == d[i + 1];
      }
    }
  }

  /** Conversely, sixteen such bits do drive it to zero. */
  lemma {:induction false} FeedOwnBits(c: Word16, s: Bits)
    requires |s| <= 16
    requires forall i | 0 <= i < 16 :: c[i] == (15 - i < |s| && s[15 - i])
    ensures Feed(c, s) == ZERO
    decreases |s|
  {
    if s == [] {
      assert c == ZERO;
    } else {
      FeedConcat(c, s[..1], s[1..]);
      assert s[..1] + s[1..] == s;
      assert s[..1][..0] == [];
      var d := FeedBit(c, s[0]);
      assert c[15] == s[0];
      assert forall i | 0 <= i < 16 :: d[i] == (i > 0 && c[i - 1]);
      FeedOwnBits(d, s[1..]);
    }
  }

  /** The stream of two check bytes is the register, top bit first. */
  lemma CheckBytesStream(tail: seq<Byte>, c: Word16)
    requires |tail| == 2
    ensures tail == CheckBytes(c) <==> forall i | 0 <= i < 16 :: c[i] == Stream(tail, false)[15 - i]
  {
    var s := Stream(tail, false);
    forall k | 0 <= k < 8
      ensures s[7 - k] == tail[0][k] && s[15 - k] == tail[1][k]
    {
      StreamBit(tail, false, 0, 7 - k);
      StreamBit(tail, false, 1, 7 - k);
    }
    if tail == CheckBytes(c) {
      assert tail[0] == c[8..] && tail[1] == c[..8];
      assert forall k | 0 <= k < 8 :: tail[0][k] == c[8 + k];
    }
    if forall i | 0 <= i < 16 :: c[i] == s[15 - i] {
      assert tail[0] == c[8..];
      assert tail[1] == c[..8];
    }
  }

  /** The decoder's test is a zero residue of the whole string. */
  lemma PassesIffZeroResidue(bytes: seq<Byte>)
    requires |bytes| >= 2
    ensures Passes(bytes) <==> Feed(INIT, Stream(bytes, false)) == ZERO
  {
    var n := |bytes| - 2;
    var c := CrcOf(bytes[..n]);
    var tail := bytes[n..];
    var s := Stream(tail, false);
    assert bytes == bytes[..n] + tail;
    StreamConcat(bytes[..n], tail, false);
    FeedConcat(INIT, Stream(bytes[..n], false), s);
    CheckBytesStream(tail, c);
    if Feed(c, s) == ZERO {
      FeedToZero(c, s);
    }
    if Passes(bytes) {
      FeedOwnBits(c, s);
    }
  }

  // ---- what the check detects ---------------------------------------------------------

  function OddOnes(s: Bits): bool {
    if s == [] then false else OddOnes(s[..|s| - 1]) != s[|s| - 1]
  }

  /** All set bits of a string lie in some 16 consecutive positions. */
  predicate ShortBurst(d: Bits) {
    exists p: nat | p <= |d| :: ClearOutside(d, p, 16)
  }

  predicate ClearOutside(d: Bits, p: nat, n: nat) {
    forall i | 0 <= i < |d| :: d[i] ==> p <= i < p + n
  }

  /** The number of set bits in the register changes parity exactly with the bits fed: x + 1
      divides the generator polynomial. */
  lemma {:induction false} FeedParity(c: Word16, s: Bits)
    ensures OddOnes(Feed(c, s)) == (OddOnes(c) != OddOnes(s))
  {
    if s != [] {
      var d := Feed(c, s[..|s| - 1]);
      FeedParity(c, s[..|s| - 1]);
      StepParity(d, s[|s| - 1]);
    }
  }

  lemma {:induction false} OddOnesConcat(a: Bits, b: Bits)
    ensures OddOnes(a + b) == (OddOnes(a) != OddOnes(b))
  {
    if b == [] {
      assert a + b == a;
    } else {
      assert (a + b)[..|a + b| - 1] == a + b[..|b| - 1];
      OddOnesConcat(a, b[..|b| - 1]);
    }
  }

  lemma {:induction false} OddOnesXor(a: Bits, b: Bits)
    requires |a| == |b|
    ensures OddOnes(Xor(a, b)) == (OddOnes(a) != OddOnes(b))
  {
    if a != [] {
      var n := |a| - 1;
      assert Xor(a, b)[..n] == Xor(a[..n], b[..n]);
      OddOnesXor(a[..n], b[..n]);
    }
  }

  lemma {:induction false} OddOnesZeros(n: nat)
    ensures !OddOnes(Zeros(n))
  {
    if n > 0 {
      assert Zeros(n)[..n - 1] == Zeros(n - 1);
      OddOnesZeros(n - 1);
    }
  }

  lemma OddOnesBit(b: bool)
    ensures OddOnes([b]) == b
  {
    assert [b][..0] == [];
  }

  lemma OddOnesPoly()
    ensures OddOnes(POLY)
  {
    assert POLY == [true] + Zeros(4) + [true] + Zeros(6) + [true] + Zeros(3);
    OddOnesZeros(4);
    OddOnesZeros(6);
    OddOnesZeros(3);
    OddOnesBit(true);
    OddOnesConcat([true], Zeros(4));
    OddOnesConcat([true] + Zeros(4), [true]);
    OddOnesConcat([true] + Zeros(4) + [true], Zeros(6));
    OddOnesConcat([true] + Zeros(4) + [true] + Zeros(6), [true]);
    OddOnesConcat([true] + Zeros(4) + [true] + Zeros(6) + [true], Zeros(3));
  }

  lemma StepParity(c: Word16, bit: bool)
    ensures OddOnes(FeedBit(c, bit)) == (OddOnes(c) != bit)
  {
    var mixed := Xor(c, Zeros(15) + [bit]);
    OddOnesXor(c, Zeros(15) + [bit]);
    OddOnesZeros(15);
    OddOnesBit(bit);
    OddOnesConcat(Zeros(15), [bit]);
    assert OddOnes(mixed) == (OddOnes(c) != bit);
    assert Shl(mixed, 1) == [false] + mixed[..15];
    OddOnesBit(false);
    OddOnesConcat([false], mixed[..15]);
    OddOnesXor(Shl(mixed, 1), POLY);
    OddOnesPoly();
  }

  lemma {:induction false} FeedZeros(s: Bits)
    requires forall i | 0 <= i < |s| :: !s[i]
    ensures Feed(ZERO, s) == ZERO
  {
    if s != [] {
      FeedZeros(s[..|s| - 1]);
      assert FeedBit(ZERO, false) == ZERO;
    }
  }

  /** Trailing zeros cannot clear a register. */
  lemma {:induction false} ZerosKeepNonZero(c: Word16, s: Bits)
    requires c != ZERO && forall i | 0 <= i < |s| :: !s[i]
    ensures Feed(c, s) != ZERO
  {
    if s != [] {
      var n := |s| - 1;
      ZerosKeepNonZero(c, s[..n]);
      var d := Feed(c, s[..n]);
      ZeroIsFromZero(d);
    }
  }

  lemma ZeroIsFromZero(d: Word16)
    ensures FeedBit(d, false) == ZERO ==> d == ZERO
  {
    var one := [false];
    assert one[..0] == [];
    assert Feed(d, one) == FeedBit(Feed(d, one[..0]), false) == FeedBit(d, false);
    if Feed(d, one) == ZERO {
      FeedToZero(d, one);
      assert d == ZERO;
    }
  }

  /** Sixteen bits that leave a cleared register clear are all zero. */
  lemma ZeroBurst(s: Bits)
    requires |s| == 16 && Feed(ZERO, s) == ZERO
    ensures forall i | 0 <= i < 16 :: !s[i]
  {
    FeedToZero(ZERO, s);
    forall i | 0 <= i < 16
      ensures !s[i]
    {
      assert !ZERO[15 - i];
    }
  }

  /** Zeros around a string do not change whether it leaves a cleared register clear. */
  lemma ResidueOfWindow(head: Bits, burst: Bits, tail: Bits)
    requires forall i | 0 <= i < |head| :: !head[i]
    requires forall i | 0 <= i < |tail| :: !tail[i]
    requires Feed(ZERO, head + (burst + tail)) == ZERO
    ensures Feed(ZERO, burst) == ZERO
  {
    FeedConcat(ZERO, head, burst + tail);
    FeedZeros(head);
    FeedConcat(ZERO, burst, tail);
    if Feed(ZERO, burst) != ZERO {
      ZerosKeepNonZero(Feed(ZERO, burst), tail);
    }
  }

  /** A burst of at most 16 bits with a zero residue is no burst at all. */
  lemma BurstResidue(d: Bits)
    requires |d| >= 16 && ShortBurst(d) && Feed(ZERO, d) == ZERO
    ensures forall i | 0 <= i < |d| :: !d[i]
  {
    var p0: nat :| p0 <= |d| && ClearOutside(d, p0, 16);
    var p := if p0 + 16 <= |d| then p0 else |d| - 16;
    var burst := d[p..p + 16];
    SplitInThree(d, p, p + 16);
    ResidueOfWindow(d[..p], burst, d[p + 16..]);
    ZeroBurst(burst);
    assert forall i | p <= i < p + 16 :: d[i] == burst[i - p];
  }

  /** Of two different destuffed strings of equal length, at most one passes the check when
      their differing bits, most significant first, fit in 16 positions or are odd in number. */
  lemma CheckDetects(u: seq<Byte>, v: seq<Byte>)
    requires |u| == |v| && u != v
    requires var d := Xor(Stream(u, false), Stream(v, false)); ShortBurst(d) || OddOnes(d)
    ensures !(Passes(u) && Passes(v))
  {
    if Passes(u) && Passes(v) {
      var s, t := Stream(u, false), Stream(v, false);
      var d := Xor(s, t);
      PassesIffZeroResidue(u);
      PassesIffZeroResidue(v);
      FeedLinear(INIT, INIT, s, t);
      assert Xor(INIT, INIT) == ZERO == Xor(ZERO, ZERO);
      assert Feed(ZERO, d) == ZERO;
      FeedParity(ZERO, d);
      OddOnesZeros(16);
      if ShortBurst(d) {
        BurstResidue(d);
        assert forall i | 0 <= i < |s| :: d[i] == (s[i] != t[i]);
        assert s == t;
        StreamInjective(u, v, false);
      }
    }
  }
}
