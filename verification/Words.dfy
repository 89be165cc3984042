/** Machine words as their bits, and the two views of a byte string used on the wire:
    a sequence of bytes, and the stream of bits those bytes put on the line.

    A word is a sequence of bits with the least significant bit first, so `w[i]` is the bit of
    weight 2^i.  Shifts drop the bits that leave the word, as on unsigned C integers. */
module Words {

  type Bits = seq<bool>
  type Byte = b: Bits | |b| == 8 witness [false, false, false, false, false, false, false, false]
  type Word16 = w: Bits | |w| == 16 witness
      [false, false, false, false, false, false, false, false,
       false, false, false, false, false, false, false, false]

  /** The opening and closing flag, 0x7E. */
  const FLAG: Byte := [false, true, true, true, true, true, true, false]

  function Weight(bit: bool, weight: nat): nat { if bit then weight else 0 }

  /** The unsigned number a byte stands for. */
  function ByteValue(b: Byte): nat {
    Weight(b[0], 1) + Weight(b[1], 2) + Weight(b[2], 4) + Weight(b[3], 8)
    + Weight(b[4], 16) + Weight(b[5], 32) + Weight(b[6], 64) + Weight(b[7], 128)
  }

  /** The unsigned number of a word given as its high and low byte. */
  function Value(high: Byte, low: Byte): nat {
    256 * ByteValue(high) + ByteValue(low)
  }

  function Zeros(n: nat): (w: Bits)
    ensures |w| == n
  {
    seq(n, _ => false)
  }

  function Min(a: nat, b: nat): nat { if a < b then a else b }

  lemma PrefixSnoc<T>(s: seq<T>, n: nat)
    requires n < |s|
    ensures s[..n + 1] == s[..n] + [s[n]]
  {
  }

  lemma Assoc<T>(a: seq<T>, b: seq<T>, c: seq<T>)
    ensures (a + b) + c == a + (b + c)
  {
  }

  lemma TakeSplit<T>(s: seq<T>, i: nat, j: nat)
    requires i <= j <= |s|
    ensures s[..i] + s[i..j] == s[..j]
  {
  }

  lemma SplitInThree<T>(s: seq<T>, i: nat, j: nat)
    requires i <= j <= |s|
    ensures s == s[..i] + (s[i..j] + s[j..])
  {
  }

  function Shl(w: Bits, k: nat): (r: Bits)
    ensures |r| == |w|
  {
    seq(|w|, i requires 0 <= i < |w| => i >= k && w[i - k])
  }

  function Shr(w: Bits, k: nat): (r: Bits)
    ensures |r| == |w|
  {
    seq(|w|, i requires 0 <= i < |w| => i + k < |w| && w[i + k])
  }

  function Or(v: Bits, w: Bits): (r: Bits)
    requires |v| == |w|
    ensures |r| == |w|
  {
    seq(|w|, i requires 0 <= i < |w| => v[i] || w[i])
  }

  function Xor(v: Bits, w: Bits): (r: Bits)
    requires |v| == |w|
    ensures |r| == |w|
  {
    seq(|w|, i requires 0 <= i < |w| => v[i] != w[i])
  }

  /** The order in which a byte's bits travel; its own inverse. */
  function BitsOf(b: Byte, lsbFirst: bool): (s: Byte)
  {
    if lsbFirst then b else seq(8, i requires 0 <= i < 8 => b[7 - i])
  }

  lemma BitsOfInvolution(b: Byte, lsbFirst: bool)
    ensures BitsOf(BitsOf(b, lsbFirst), lsbFirst) == b
  {
    assert BitsOf(BitsOf(b, lsbFirst), lsbFirst) == b;
  }

  lemma FlagIsPalindrome(lsbFirst: bool)
    ensures BitsOf(FLAG, lsbFirst) == FLAG
  {
    assert BitsOf(FLAG, lsbFirst) == FLAG;
  }

  /** The bits of a byte from line position `used` on are clear. */
  predicate ClearFrom(byte: Byte, used: nat, lsbFirst: bool) {
    forall i | used <= i < 8 :: !BitsOf(byte, lsbFirst)[i]
  }

  /** The byte with its next bit set to `bit`. */
  function SetBit(byte: Byte, used: nat, bit: bool, lsbFirst: bool): Byte
    requires used < 8
  {
    Or(byte, Shl([bit] + Zeros(7), if lsbFirst then used else 7 - used))
  }

  lemma SetBitIsNext(byte: Byte, used: nat, bit: bool, lsbFirst: bool)
    requires used < 8 && ClearFrom(byte, used, lsbFirst)
    ensures var r := SetBit(byte, used, bit, lsbFirst);
      && ClearFrom(r, used + 1, lsbFirst)
      && BitsOf(r, lsbFirst)[..used + 1] == BitsOf(byte, lsbFirst)[..used] + [bit]
  {
    var s, r := BitsOf(byte, lsbFirst), SetBit(byte, used, bit, lsbFirst);
    forall i | 0 <= i < 8
      ensures BitsOf(r, lsbFirst)[i] == if i == used then s[i] || bit else s[i]
    {
    }
    assert !s[used];
  }

  /** The bits the first `n` bytes of a string put on the line. */
  function StreamUpTo(bytes: seq<Byte>, lsbFirst: bool, n: nat): (s: Bits)
    requires n <= |bytes|
    ensures |s| == 8 * n
  {
    if n == 0 then [] else StreamUpTo(bytes, lsbFirst, n - 1) + BitsOf(bytes[n - 1], lsbFirst)
  }

  /** The bits a byte string puts on the line. */
  function Stream(bytes: seq<Byte>, lsbFirst: bool): (s: Bits)
    ensures |s| == 8 * |bytes|
  {
    StreamUpTo(bytes, lsbFirst, |bytes|)
  }

  /** The complete bytes of a bit stream; up to seven trailing bits are ignored. */
  function Chop(s: Bits, lsbFirst: bool): (bytes: seq<Byte>)
    ensures |bytes| == |s| / 8
  {
    seq(|s| / 8, i requires 0 <= i < |s| / 8 => BitsOf(s[8 * i..8 * i + 8], lsbFirst))
  }

  lemma {:induction false} StreamUpToBit(bytes: seq<Byte>, lsbFirst: bool, n: nat, k: nat, j: nat)
    requires k < n <= |bytes| && j < 8
    ensures StreamUpTo(bytes, lsbFirst, n)[8 * k + j] == BitsOf(bytes[k], lsbFirst)[j]
  {
    if k < n - 1 {
      StreamUpToBit(bytes, lsbFirst, n - 1, k, j);
    }
  }

  lemma StreamBit(bytes: seq<Byte>, lsbFirst: bool, k: nat, j: nat)
    requires k < |bytes| && j < 8
    ensures 8 * k + j < |Stream(bytes, lsbFirst)|
    ensures Stream(bytes, lsbFirst)[8 * k + j] == BitsOf(bytes[k], lsbFirst)[j]
  {
    StreamUpToBit(bytes, lsbFirst, |bytes|, k, j);
  }

  lemma StreamAt(bytes: seq<Byte>, lsbFirst: bool, k: nat)
    requires k < |bytes|
    ensures Stream(bytes, lsbFirst)[8 * k..8 * k + 8] == BitsOf(bytes[k], lsbFirst)
  {
    var s := Stream(bytes, lsbFirst);
    forall j | 0 <= j < 8
      ensures s[8 * k..8 * k + 8][j] == BitsOf(bytes[k], lsbFirst)[j]
    {
      StreamBit(bytes, lsbFirst, k, j);
    }
  }

  lemma ChopStream(bytes: seq<Byte>, lsbFirst: bool)
    ensures Chop(Stream(bytes, lsbFirst), lsbFirst) == bytes
  {
    var r := Chop(Stream(bytes, lsbFirst), lsbFirst);
    forall k | 0 <= k < |bytes|
      ensures r[k] == bytes[k]
    {
      StreamAt(bytes, lsbFirst, k);
      BitsOfInvolution(bytes[k], lsbFirst);
    }
    assert r == bytes;
  }

  lemma {:induction false} StreamChopUpTo(s: Bits, lsbFirst: bool, n: nat)
    requires n <= |s| / 8
    ensures StreamUpTo(Chop(s, lsbFirst), lsbFirst, n) == s[..8 * n]
  {
    hide BitsOf;
    if n > 0 {
      StreamChopUpTo(s, lsbFirst, n - 1);
      var last := 8 * (n - 1);
      BitsOfInvolution(s[last..last + 8], lsbFirst);
      TakeSplit(s, last, last + 8);
    }
  }

  lemma StreamChop(s: Bits, lsbFirst: bool)
    ensures Stream(Chop(s, lsbFirst), lsbFirst) == s[..8 * (|s| / 8)]
  {
    StreamChopUpTo(s, lsbFirst, |s| / 8);
  }

  lemma {:induction false} StreamLocal(a: seq<Byte>, b: seq<Byte>, lsbFirst: bool, n: nat)
    requires n <= |a| && n <= |b| && forall i | 0 <= i < n :: a[i] == b[i]
    ensures StreamUpTo(a, lsbFirst, n) == StreamUpTo(b, lsbFirst, n)
  {
    if n > 0 {
      StreamLocal(a, b, lsbFirst, n - 1);
    }
  }

  lemma {:induction false} StreamConcatUpTo(a: seq<Byte>, b: seq<Byte>, lsbFirst: bool, n: nat)
    requires n <= |b|
    ensures StreamUpTo(a + b, lsbFirst, |a| + n) == Stream(a, lsbFirst) + StreamUpTo(b, lsbFirst, n)
  {
    if n == 0 {
      StreamLocal(a + b, a, lsbFirst, |a|);
    } else {
      StreamConcatUpTo(a, b, lsbFirst, n - 1);
    }
  }

  lemma StreamConcat(a: seq<Byte>, b: seq<Byte>, lsbFirst: bool)
    ensures Stream(a + b, lsbFirst) == Stream(a, lsbFirst) + Stream(b, lsbFirst)
  {
    StreamConcatUpTo(a, b, lsbFirst, |b|);
  }

  lemma StreamOne(b: Byte, lsbFirst: bool)
    ensures Stream([b], lsbFirst) == BitsOf(b, lsbFirst)
  {
    assert StreamUpTo([b], lsbFirst, 0) == [];
  }

  /** Equal streams come from equal byte strings. */
  lemma StreamInjective(a: seq<Byte>, b: seq<Byte>, lsbFirst: bool)
    requires Stream(a, lsbFirst) == Stream(b, lsbFirst)
    ensures a == b
  {
    ChopStream(a, lsbFirst);
    ChopStream(b, lsbFirst);
  }
}
