/** Zero insertion and removal (RFC 1662 section 5.2): after five consecutive ones the sender
    inserts a zero and the receiver drops it.  Each function below is given the whole string
    and the number of its leading bits that have been handled. */
module Stuffing {
  import opened Words

  /** Length of the run of ones the sender is in, restarted by each inserted zero. */
  function OnesRun(x: Bits, n: nat): (ones: nat)
    requires n <= |x|
    ensures ones <= 4
  {
    if n == 0 then 0
    else if x[n - 1] then NextRun(OnesRun(x, n - 1))
    else 0
  }

  function NextRun(ones: nat): nat { if ones == 4 then 0 else ones + 1 }

  /** What the sender puts on the line for one data bit after a run of `ones` ones. */
  function Emit(ones: nat, bit: bool): (s: Bits)
    ensures 1 <= |s| <= 2
  {
    if bit && ones == 4 then [true, false] else [bit]
  }

  function StuffUpTo(x: Bits, n: nat): Bits
    requires n <= |x|
  {
    if n == 0 then [] else StuffUpTo(x, n - 1) + Emit(OnesRun(x, n - 1), x[n - 1])
  }

  function Stuff(x: Bits): Bits { StuffUpTo(x, |x|) }

  /** The receiver after reading some line bits: the data bits so far, the length of the current
      run (5 means the next bit must be an inserted zero), and whether that zero was missing. */
  datatype Receiver = Receiver(bits: Bits, ones: nat, bad: bool)

  function Receive(r: Receiver, bit: bool): Receiver {
    if r.bad then r
    else if r.ones == 5 then (if bit then r.(bad := true) else r.(ones := 0))
    else Receiver(r.bits + [bit], if bit then r.ones + 1 else 0, false)
  }

  function DestuffUpTo(s: Bits, n: nat): (r: Receiver)
    requires n <= |s|
    ensures r.ones <= 5 && |r.bits| <= n
    ensures r.bad ==> r.ones == 5
  {
    if n == 0 then Receiver([], 0, false) else Receive(DestuffUpTo(s, n - 1), s[n - 1])
  }

  function Destuff(s: Bits): Receiver { DestuffUpTo(s, |s|) }

  /** Bits already delivered stay delivered, and a missing zero is never forgiven. */
  lemma {:induction false} DestuffMonotone(s: Bits, n: nat, m: nat)
    requires n <= m <= |s|
    ensures DestuffUpTo(s, n).bits <= DestuffUpTo(s, m).bits
    ensures DestuffUpTo(s, n).bad ==> DestuffUpTo(s, m) == DestuffUpTo(s, n)
  {
    if n < m {
      DestuffMonotone(s, n, m - 1);
    }
  }

  lemma {:induction false} DestuffLocal(s: Bits, t: Bits, n: nat)
    requires n <= |s| && n <= |t| && forall i | 0 <= i < n :: s[i] == t[i]
    ensures DestuffUpTo(s, n) == DestuffUpTo(t, n)
  {
    if n > 0 {
      DestuffLocal(s, t, n - 1);
    }
  }

  lemma DestuffSnoc(s: Bits, b: bool)
    ensures Destuff(s + [b]) == Receive(Destuff(s), b)
  {
    DestuffLocal(s + [b], s, |s|);
  }

  lemma DestuffEmitted(s: Bits, bit: bool)
    requires Destuff(s).ones <= 4
    ensures var r := Destuff(s);
      Destuff(s + Emit(r.ones, bit)) == Receiver(r.bits + [bit], if bit then NextRun(r.ones) else 0, false)
  {
    DestuffSnoc(s, bit);
    if bit && Destuff(s).ones == 4 {
      DestuffSnoc(s + [true], false);
      assert s + [true, false] == s + [true] + [false];
    }
  }

  /** Removal undoes insertion, and leaves the receiver in step with the sender. */
  lemma {:induction false} DestuffStuffed(x: Bits, n: nat)
    requires n <= |x|
    ensures Destuff(StuffUpTo(x, n)) == Receiver(x[..n], OnesRun(x, n), false)
  {
    if n > 0 {
      DestuffStuffed(x, n - 1);
      DestuffEmitted(StuffUpTo(x, n - 1), x[n - 1]);
      PrefixSnoc(x, n - 1);
    }
  }

  lemma DestuffStuff(x: Bits)
    ensures Destuff(Stuff(x)) == Receiver(x, OnesRun(x, |x|), false)
  {
    DestuffStuffed(x, |x|);
    assert x[..|x|] == x;
  }

  /** Zeros after the data (the padding of the last byte) arrive as data zeros. */
  lemma {:induction false} DestuffPadded(x: Bits, n: nat)
    ensures var r := Destuff(Stuff(x) + Zeros(n));
      r.bits == x + Zeros(n) && !r.bad && r.ones <= 4
  {
    if n == 0 {
      assert Stuff(x) + Zeros(0) == Stuff(x);
      assert x + Zeros(0) == x;
      DestuffStuff(x);
    } else {
      DestuffPadded(x, n - 1);
      assert Stuff(x) + Zeros(n) == (Stuff(x) + Zeros(n - 1)) + [false];
      DestuffSnoc(Stuff(x) + Zeros(n - 1), false);
      assert x + Zeros(n) == (x + Zeros(n - 1)) + [false];
    }
  }

  lemma {:induction false} StuffLocal(x: Bits, y: Bits, n: nat)
    requires n <= |x| && n <= |y| && forall i | 0 <= i < n :: x[i] == y[i]
    ensures StuffUpTo(x, n) == StuffUpTo(y, n) && OnesRun(x, n) == OnesRun(y, n)
  {
    if n > 0 {
      StuffLocal(x, y, n - 1);
    }
  }

  lemma StuffSnoc(x: Bits, b: bool)
    ensures Stuff(x + [b]) == Stuff(x) + Emit(OnesRun(x, |x|), b)
    ensures OnesRun(x + [b], |x| + 1) == if b then NextRun(OnesRun(x, |x|)) else 0
  {
    StuffLocal(x + [b], x, |x|);
  }

  /** What a clean receiver has read is the stuffed form of its data, except that the zero after
      a final run of five may still be outstanding. */
  predicate ReadsBack(s: Bits, r: Receiver) {
    && OnesRun(r.bits, |r.bits|) == r.ones % 5
    && Stuff(r.bits) == if r.ones == 5 then s + [false] else s
  }

  lemma ReadsBackStep(s: Bits, r: Receiver, bit: bool)
    requires ReadsBack(s, r) && r.ones <= 5 && !r.bad && !Receive(r, bit).bad
    ensures ReadsBack(s + [bit], Receive(r, bit))
  {
    if r.ones != 5 {
      StuffSnoc(r.bits, bit);
      if bit && r.ones == 4 {
        assert s + [true, false] == s + [true] + [false];
      }
    }
  }

  lemma {:induction false} CleanMeansStuffed(s: Bits, n: nat)
    requires n <= |s| && !DestuffUpTo(s, n).bad
    ensures ReadsBack(s[..n], DestuffUpTo(s, n))
  {
    if n > 0 {
      CleanMeansStuffed(s, n - 1);
      ReadsBackStep(s[..n - 1], DestuffUpTo(s, n - 1), s[n - 1]);
      PrefixSnoc(s, n - 1);
    }
  }

  /** A receiver that waits for an inserted zero has just read a one. */
  lemma FifthOneIsLast(s: Bits, n: nat)
    requires n <= |s| && DestuffUpTo(s, n).ones == 5
    ensures var x := DestuffUpTo(s, n).bits; x != [] && x[|x| - 1]
  {
    if n > 0 && DestuffUpTo(s, n - 1).ones == 5 {
      FifthOneIsLast(s, n - 1);
    }
  }

  /** The line carries the data: it is the stuffed form, or lacks only the zero that is owed after
      a final run of five ones. */
  predicate Carried(line: Bits, x: Bits) {
    line == Stuff(x) || (x != [] && x[|x| - 1] && line + [false] == Stuff(x))
  }

  /** What a receiver reads is exactly what the line carries. */
  lemma ReceivedIffCarried(line: Bits, x: Bits)
    ensures !Destuff(line).bad && Destuff(line).bits == x <==> Carried(line, x)
  {
    var r := Destuff(line);
    if !r.bad && r.bits == x {
      CleanMeansStuffed(line, |line|);
      assert line[..|line|] == line;
      if r.ones == 5 {
        FifthOneIsLast(line, |line|);
      }
    }
    if line == Stuff(x) {
      DestuffStuff(x);
    } else if Carried(line, x) {
      OwedZero(line, x);
    }
  }

  lemma OwedZero(line: Bits, x: Bits)
    requires x != [] && x[|x| - 1] && line + [false] == Stuff(x)
    ensures Destuff(line) == Receiver(x, 5, false)
  {
    var n := |x| - 1;
    var front := StuffUpTo(x, n);
    DestuffStuffed(x, n);
    assert OnesRun(x, n) == 4 by {
      assert Stuff(x) == front + Emit(OnesRun(x, n), true);
      assert Stuff(x)[|Stuff(x)| - 1] == false;
    }
    assert line == front + [true] by {
      assert line + [false] == front + [true] + [false];
      assert (line + [false])[..|line|] == line;
      assert (front + [true] + [false])[..|front| + 1] == front + [true];
    }
    DestuffSnoc(front, true);
    PrefixSnoc(x, n);
    assert x[..n + 1] == x;
  }

  // ---- size ---------------------------------------------------------------------------

  /** At most one inserted bit per five data bits. */
  lemma {:induction false} StuffedSize(x: Bits, n: nat)
    requires n <= |x|
    ensures n <= |StuffUpTo(x, n)|
    ensures 5 * (|StuffUpTo(x, n)| - n) + OnesRun(x, n) <= n
  {
    if n > 0 {
      StuffedSize(x, n - 1);
    }
  }

  lemma {:induction false} StuffGrows(x: Bits, n: nat, m: nat)
    requires n <= m <= |x|
    ensures StuffUpTo(x, n) <= StuffUpTo(x, m)
  {
    if n < m {
      StuffGrows(x, n, m - 1);
    }
  }

  // ---- transparency -------------------------------------------------------------------

  predicate SixOnes(s: Bits, q: nat) {
    q + 6 <= |s| && s[q] && s[q + 1] && s[q + 2] && s[q + 3] && s[q + 4] && s[q + 5]
  }

  /** No six ones, and a zero among the last `ones + 1` bits. */
  ghost predicate Spaced(s: Bits, ones: nat) {
    && (|s| > ones ==> !s[|s| - 1 - ones])
    && forall q: nat :: !SixOnes(s, q)
  }

  lemma SpacedNext(s: Bits, ones: nat, bit: bool)
    requires Spaced(s, ones) && ones <= 4
    ensures Spaced(s + [bit], if bit then ones + 1 else 0)
  {
    var t := s + [bit];
    forall q: nat
      ensures !SixOnes(t, q)
    {
      assert !SixOnes(s, q);
      if q + 6 == |t| {
        assert !t[|s| - 1 - ones];
      }
    }
  }

  lemma SpacedZero(s: Bits, ones: nat)
    requires Spaced(s, ones)
    ensures Spaced(s + [false], 0)
  {
    var t := s + [false];
    forall q: nat
      ensures !SixOnes(t, q)
    {
      assert !SixOnes(s, q);
    }
  }

  /** Stuffed data never has six ones in a row. */
  lemma {:induction false} StuffedIsSpaced(x: Bits, n: nat)
    requires n <= |x|
    ensures Spaced(StuffUpTo(x, n), OnesRun(x, n))
  {
    if n > 0 {
      StuffedIsSpaced(x, n - 1);
      var s := StuffUpTo(x, n - 1);
      SpacedNext(s, OnesRun(x, n - 1), x[n - 1]);
      if x[n - 1] && OnesRun(x, n - 1) == 4 {
        SpacedZero(s + [true], 5);
        assert s + [true, false] == s + [true] + [false];
      }
    }
  }

  // ---- when the receiver objects ------------------------------------------------------

  /** The last `ones` of the first `n` bits are ones, and the bit before them is not. */
  predicate TrailingOnes(s: Bits, n: nat, ones: nat)
    requires n <= |s|
  {
    && ones <= n && (forall i | n - ones <= i < n :: s[i])
    && (n > ones ==> !s[n - ones - 1])
  }

  lemma {:induction false} CleanRun(s: Bits, n: nat)
    requires n <= |s|
    ensures !DestuffUpTo(s, n).bad ==> TrailingOnes(s, n, DestuffUpTo(s, n).ones)
    ensures DestuffUpTo(s, n).bad ==> exists q: nat :: q + 6 <= n && SixOnes(s, q)
  {
    if n > 0 {
      CleanRun(s, n - 1);
      if !DestuffUpTo(s, n - 1).bad && DestuffUpTo(s, n).bad {
        assert SixOnes(s, n - 6);
      }
    }
  }

  lemma SixOnesAreBad(s: Bits, q: nat)
    requires SixOnes(s, q)
    ensures DestuffUpTo(s, q + 6).bad
  {
    CleanRun(s, q + 6);
    hide DestuffUpTo;
  }

  /** The receiver rejects a line if and only if it shows six ones in a row. */
  lemma BadIffSixOnes(s: Bits)
    ensures Destuff(s).bad <==> exists q: nat :: SixOnes(s, q)
  {
    CleanRun(s, |s|);
    hide DestuffUpTo, SixOnes;
    if q: nat :| SixOnes(s, q) {
      assert q + 6 <= |s| by { SixOnesFit(s, q); }
      SixOnesAreBad(s, q);
      DestuffMonotone(s, q + 6, |s|);
    }
  }

  lemma SixOnesFit(s: Bits, q: nat)
    requires SixOnes(s, q)
    ensures q + 6 <= |s|
  {
  }
}
