/** The bit line as a receiver sees it: frames sent least significant bit first, with any number of
    zero bits before, between and after them, packed into raw bytes at an arbitrary phase. */
module Wire {
  import opened Words
  import opened Codec
  import opened Sync

  /** What is sent: payloads, and the idle zeros before each of them and after the last. */
  datatype Traffic = Traffic(payloads: seq<seq<Byte>>, gaps: seq<nat>)

  predicate Sendable(t: Traffic) {
    && |t.gaps| == |t.payloads| + 1
    && forall j | 0 <= j < |t.payloads| :: |Encoding(t.payloads[j], true)| <= MAX_FRAME
  }

  function FrameBits(payload: seq<Byte>): Bits { Stream(Encoding(payload, true), true) }

  /** The line up to the end of frame j - 1. */
  function LineUpTo(t: Traffic, j: nat): Bits
    requires Sendable(t) && j <= |t.payloads|
  {
    if j == 0 then [] else LineUpTo(t, j - 1) + Zeros(t.gaps[j - 1]) + FrameBits(t.payloads[j - 1])
  }

  /** The whole line, filled up with zeros to whole bytes. */
  function Line(t: Traffic): (s: Bits)
    requires Sendable(t)
    ensures |s| % 8 == 0
  {
    Padded(LineUpTo(t, |t.payloads|) + Zeros(t.gaps[|t.payloads|]))
  }

  /** The raw bytes that arrive. */
  function Raw(t: Traffic): (raw: seq<Byte>)
    requires Sendable(t)
    ensures |raw| == |Line(t)| / 8
  {
    Chop(Line(t), true)
  }

  /** First bit after frame j - 1. */
  function EndOf(t: Traffic, j: nat): nat
    requires Sendable(t) && j <= |t.payloads|
  {
    |LineUpTo(t, j)|
  }

  /** First bit of frame j; for j past the last frame, the end of the line. */
  function StartOf(t: Traffic, j: nat): nat
    requires Sendable(t) && j <= |t.payloads|
  {
    if j < |t.payloads| then EndOf(t, j) + t.gaps[j] else |Line(t)|
  }

  /** Frame length in bytes. */
  function Size(t: Traffic, j: nat): nat
    requires j < |t.payloads|
  {
    |Encoding(t.payloads[j], true)|
  }

  lemma EndOfNext(t: Traffic, j: nat)
    requires Sendable(t) && j < |t.payloads|
    ensures EndOf(t, j + 1) == StartOf(t, j) + 8 * Size(t, j)
  {
    hide Encoding, Line;
  }

  lemma {:induction false} EndGrows(t: Traffic, i: nat, j: nat)
    requires Sendable(t) && i <= j <= |t.payloads|
    ensures EndOf(t, i) <= EndOf(t, j)
  {
    hide Line, Encoding;
    if i < j {
      EndGrows(t, i, j - 1);
      EndOfNext(t, j - 1);
    }
  }

  lemma NothingBefore(t: Traffic)
    requires Sendable(t)
    ensures EndOf(t, 0) == 0
  {
  }

  lemma PartsAt(a: Bits, n: nat, f: Bits, i: nat)
    requires i < |a| + n + |f|
    ensures (a + Zeros(n) + f)[i] == if i < |a| then a[i] else if i < |a| + n then false else f[i - |a| - n]
  {
  }

  lemma LineNextAt(t: Traffic, j: nat, i: nat)
    requires Sendable(t) && j < |t.payloads| && i < EndOf(t, j + 1)
    ensures LineUpTo(t, j + 1)[i] ==
            if i < EndOf(t, j) then LineUpTo(t, j)[i]
            else if i < StartOf(t, j) then false
            else FrameBits(t.payloads[j])[i - StartOf(t, j)]
    ensures |FrameBits(t.payloads[j])| == 8 * Size(t, j)
  {
    hide FrameBits, Encoding, Line;
    assert |FrameBits(t.payloads[j])| == 8 * Size(t, j) by { FrameBitsSize(t.payloads[j]); }
    PartsAt(LineUpTo(t, j), t.gaps[j], FrameBits(t.payloads[j]), i);
    EndOfNext(t, j);
  }

  lemma FrameBitsSize(payload: seq<Byte>)
    ensures |FrameBits(payload)| == 8 * |Encoding(payload, true)|
  {
    hide Encoding;
  }

  /** Each part of the line sits in the line where the layout says. */
  lemma {:induction false} LinePrefix(t: Traffic, j: nat, m: nat, i: nat)
    requires Sendable(t) && j <= m <= |t.payloads| && i < EndOf(t, j)
    ensures i < EndOf(t, m) && LineUpTo(t, m)[i] == LineUpTo(t, j)[i]
  {
    hide FrameBits, Line, Encoding;
    if j < m {
      LinePrefix(t, j, m - 1, i);
      EndOfNext(t, m - 1);
      LineNextAt(t, m - 1, i);
    }
  }

  lemma PrefixOfLine(t: Traffic, j: nat, i: nat)
    requires Sendable(t) && j <= |t.payloads| && i < EndOf(t, j)
    ensures i < |Line(t)| && Line(t)[i] == LineUpTo(t, j)[i]
  {
    hide FrameBits, Encoding;
    LinePrefix(t, j, |t.payloads|, i);
    LineAt(t, i);
  }

  lemma LineAt(t: Traffic, i: nat)
    requires Sendable(t) && i < |Line(t)|
    ensures EndOf(t, |t.payloads|) <= |Line(t)|
    ensures Line(t)[i] == (i < EndOf(t, |t.payloads|) && LineUpTo(t, |t.payloads|)[i])
  {
    hide LineUpTo;
  }

  lemma EndFits(t: Traffic, j: nat)
    requires Sendable(t) && j <= |t.payloads|
    ensures EndOf(t, j) <= |Line(t)|
  {
    hide LineUpTo, Line;
    if EndOf(t, j) > 0 {
      PrefixOfLine(t, j, EndOf(t, j) - 1);
    }
  }

  /** Frame j occupies its bits of the line. */
  lemma FrameOnLine(t: Traffic, j: nat, i: nat)
    requires Sendable(t) && j < |t.payloads| && i < 8 * Size(t, j)
    ensures StartOf(t, j) + 8 * Size(t, j) <= |Line(t)|
    ensures |FrameBits(t.payloads[j])| == 8 * Size(t, j)
    ensures Line(t)[StartOf(t, j) + i] == FrameBits(t.payloads[j])[i]
  {
    hide LineUpTo, Line, FrameBits, Encoding;
    EndOfNext(t, j);
    EndFits(t, j + 1);
    PrefixOfLine(t, j + 1, StartOf(t, j) + i);
    LineNextAt(t, j, StartOf(t, j) + i);
  }

  /** The line is idle between frames and after the last. */
  lemma IdleOnLine(t: Traffic, j: nat, q: nat)
    requires Sendable(t) && j <= |t.payloads| && EndOf(t, j) <= q < StartOf(t, j)
    ensures StartOf(t, j) <= |Line(t)| && !Line(t)[q]
  {
    hide LineUpTo, Line, FrameBits, Encoding;
    if j < |t.payloads| {
      EndOfNext(t, j);
      EndFits(t, j + 1);
      PrefixOfLine(t, j + 1, q);
      LineNextAt(t, j, q);
    } else {
      LineAt(t, q);
    }
  }

  lemma FrameBitsEnds(payload: seq<Byte>, i: nat)
    requires i < 8
    ensures |FrameBits(payload)| >= 32
    ensures FrameBits(payload)[i] == FLAG[i]
    ensures FrameBits(payload)[|FrameBits(payload)| - 8 + i] == FLAG[i]
  {
    hide Encoding;
    EncodedSize(payload, true);
    EncodingStream(payload, true);
  }

  /** The bit before the next frame's flag, or before the end, is never followed by a one. */
  lemma NoOneAtBoundary(t: Traffic, j: nat, q: nat)
    requires Sendable(t) && j <= |t.payloads| && EndOf(t, j) <= q <= StartOf(t, j) && q < |Line(t)|
    ensures !Line(t)[q]
  {
    hide LineUpTo, Line, FrameBits, Encoding;
    if q < StartOf(t, j) {
      IdleOnLine(t, j, q);
    } else {
      FrameBitsEnds(t.payloads[j], 0);
      FrameBitsSize(t.payloads[j]);
      FrameOnLine(t, j, 0);
    }
  }

  lemma ClosingOnLine(t: Traffic, j: nat, i: nat)
    requires Sendable(t) && 0 < j <= |t.payloads| && i < 8
    ensures 32 <= EndOf(t, j) <= |Line(t)| && Line(t)[EndOf(t, j) - 8 + i] == FLAG[i]
  {
    hide LineUpTo, Line, FrameBits, Encoding;
    EndOfNext(t, j - 1);
    EndFits(t, j);
    FrameBitsEnds(t.payloads[j - 1], i);
    FrameBitsSize(t.payloads[j - 1]);
    FrameOnLine(t, j - 1, 8 * Size(t, j - 1) - 8 + i);
  }

  /** From inside the closing flag of one frame to the opening flag of the next, and after the last
      frame to the end, there is no other flag. */
  lemma NoFlagBetween(t: Traffic, j: nat, q: nat)
    requires Sendable(t) && j <= |t.payloads|
    requires j > 0 ==> q + 8 > EndOf(t, j)
    requires q < StartOf(t, j)
    ensures !FlagAt(Line(t), q)
  {
    hide LineUpTo, Line;
    var s := Line(t);
    FlagBits(s, q);
    NothingBefore(t);
    if q + 8 <= |s| {
      if q + 1 >= EndOf(t, j) {
        NoOneAtBoundary(t, j, q + 1);
      } else {
        ClosingOnLine(t, j, q + 8 - EndOf(t, j));
      }
    }
  }

  /** Inside frame j flags are found exactly at its two ends. */
  lemma FlagsOfFrame(t: Traffic, j: nat, k: nat)
    requires Sendable(t) && j < |t.payloads| && k < Size(t, j)
    ensures StartOf(t, j) + 8 * Size(t, j) <= |Line(t)|
    ensures FlagAt(Line(t), StartOf(t, j) + 8 * k) <==> k == 0 || k == Size(t, j) - 1
  {
    hide LineUpTo, Line, FrameBits, Encoding;
    var f, s, b := FrameBits(t.payloads[j]), Line(t), StartOf(t, j);
    FrameBitsSize(t.payloads[j]);
    FlagsInFrameBits(t.payloads[j], 8 * k);
    FrameOnLine(t, j, 8 * k);
    var p := b + 8 * k;
    var onLine, inFrame := s[p..p + 8], f[8 * k..8 * k + 8];
    forall i | 0 <= i < 8
      ensures onLine[i] == inFrame[i]
    {
      FrameOnLine(t, j, 8 * k + i);
    }
    assert onLine == inFrame;
  }

  lemma FlagsInFrameBits(payload: seq<Byte>, q: nat)
    ensures FlagAt(FrameBits(payload), q) <==> q == 0 || q == |FrameBits(payload)| - 8
  {
    hide Encoding;
    FlagsOnlyAtEnds(payload, true, q);
  }

  // ---- frames back to back ------------------------------------------------------------

  /** Frames one after the other. */
  function Flat(frames: seq<seq<Byte>>, n: nat): seq<Byte>
    requires n <= |frames|
  {
    if n == 0 then [] else Flat(frames, n - 1) + frames[n - 1]
  }

  /** The line as idle zeros before back-to-back frames. */
  function BackToBack(payloads: seq<seq<Byte>>, idle: nat): Traffic {
    Traffic(payloads, [idle] + seq(|payloads|, _ => 0))
  }

  lemma {:induction false} BackToBackLine(payloads: seq<seq<Byte>>, idle: nat, frames: seq<seq<Byte>>, n: nat)
    requires Sendable(BackToBack(payloads, idle)) && n <= |payloads| == |frames|
    requires forall i | 0 <= i < |frames| :: frames[i] == Encoding(payloads[i], true)
    ensures var t := BackToBack(payloads, idle);
      LineUpTo(t, n) + Zeros(t.gaps[n]) == Zeros(idle) + Stream(Flat(frames, n), true)
  {
    hide Encoding;
    var t := BackToBack(payloads, idle);
    if n == 0 {
      assert [] + Zeros(idle) == Zeros(idle) == Zeros(idle) + Stream([], true);
    } else {
      BackToBackLine(payloads, idle, frames, n - 1);
      StreamConcat(Flat(frames, n - 1), frames[n - 1], true);
      Assoc(Zeros(idle), Stream(Flat(frames, n - 1), true), Stream(frames[n - 1], true));
      assert t.gaps[n] == 0 && Zeros(0) == [];
      var line := LineUpTo(t, n);
      assert line == LineUpTo(t, n - 1) + Zeros(t.gaps[n - 1]) + Stream(frames[n - 1], true);
      assert line + [] == line;
    }
  }

  // ---- aligned bytes are windows of the line ------------------------------------------

  lemma AlignedBit(a: Byte, b: Byte, k: nat, i: nat)
    requires 0 < k < 8 && i < 8
    ensures Or(Shr(a, k), Shl(b, 8 - k))[i] == if i + k < 8 then a[i + k] else b[i + k - 8]
  {
  }

  /** A right-shift phase reads the line at that bit offset. */
  lemma AlignedIsWindow(s: Bits, i: nat, k: nat)
    requires |s| % 8 == 0 && k < 8 && i < AlignedCount(|s| / 8, k)
    ensures 8 * i + k + 8 <= |s|
    ensures Aligned(Chop(s, true), i, RightPhase(k)) == s[8 * i + k..8 * i + k + 8]
  {
    var raw := Chop(s, true);
    var w := s[8 * i + k..8 * i + k + 8];
    assert raw[i] == s[8 * i..8 * i + 8];
    if k > 0 {
      assert raw[i + 1] == s[8 * (i + 1)..8 * (i + 1) + 8];
      forall b | 0 <= b < 8
        ensures Aligned(raw, i, RightPhase(k))[b] == w[b]
      {
        AlignedBit(raw[i], raw[i + 1], k, b);
      }
    }
    assert Aligned(raw, i, RightPhase(k)) == w;
  }

  lemma LeftBit(a: Byte, b: Byte, k: nat, i: nat)
    requires 0 < k < 8 && i < 8
    ensures Or(Shl(a, k), Shr(b, 8 - k))[7 - i]
            == if i + k < 8 then BitsOf(a, false)[i + k] else BitsOf(b, false)[i + k - 8]
  {
  }

  /** A left-shift phase reads a line whose bytes were packed most significant bit first. */
  lemma AlignedIsMsbWindow(s: Bits, i: nat, k: nat)
    requires |s| % 8 == 0 && k < 8 && i < AlignedCount(|s| / 8, k)
    ensures 8 * i + k + 8 <= |s|
    ensures Aligned(Chop(s, false), i, Phase(k, false)) == BitsOf(s[8 * i + k..8 * i + k + 8], false)
  {
    var raw := Chop(s, false);
    var w := s[8 * i + k..8 * i + k + 8];
    BitsOfInvolution(s[8 * i..8 * i + 8], false);
    if k > 0 {
      BitsOfInvolution(s[8 * (i + 1)..8 * (i + 1) + 8], false);
      forall b | 0 <= b < 8
        ensures Aligned(raw, i, Phase(k, false))[7 - b] == w[b]
      {
        LeftBit(raw[i], raw[i + 1], k, b);
      }
      var a := Aligned(raw, i, Phase(k, false));
      forall b | 0 <= b < 8
        ensures a[b] == BitsOf(w, false)[b]
      {
        assert a[7 - (7 - b)] == w[7 - b];
      }
    }
    assert Aligned(raw, i, Phase(k, false)) == BitsOf(w, false);
  }
}
