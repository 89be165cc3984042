/** The transmit queue: encoded frames drain in chunks into a FIFO that may refuse bytes, and a CTS
    edge in mid-frame forces a hard reset and a resend from the start of the frame. */
module Transmit {
  import opened Words
  import opened Codec
  import opened Encoder
  import opened Ring

  const QUEUE_SIZE := 64
  const FRAME_MAX := 2048

  /** What the line sees. */
  datatype WireEvent = Sent(byte: Byte) | HardReset

  datatype Enqueued = Queued | QueueFull | EncodeFailed

  /** The queue: the frame being drained and how much of it has been, the frames waiting, the CTS
      baseline, the bytes counted, and the line's history. */
  datatype Tx = Tx(current: seq<Byte>, offset: nat, queue: seq<seq<Byte>>, ctsStart: nat, ctsValid: bool,
                   wireBytes: nat, wire: seq<WireEvent>)

  const EMPTY_TX := Tx([], 0, [], 0, false, 0, [])

  function AsSent(bytes: seq<Byte>): (w: seq<WireEvent>)
    ensures |w| == |bytes|
  {
    seq(|bytes|, i requires 0 <= i < |bytes| => Sent(bytes[i]))
  }

  /** Encodes a datagram and appends it, if there is room for it. */
  function Enqueue(s: Tx, payload: seq<Byte>): (Tx, Enqueued) {
    if |s.queue| >= QUEUE_SIZE then (s, QueueFull)
    else if |Encoding(payload, true)| > FRAME_MAX then (s, EncodeFailed)
    else (s.(queue := s.queue + [Encoding(payload, true)]), Queued)
  }

  /** One drain call: at most `want` bytes, of which the FIFO takes `accepts`; the CTS counter reads
      `ctsBefore` at its start and `ctsAfter` once bytes have been put. */
  function Drain(s: Tx, want: nat, accepts: nat, ctsBefore: nat, ctsAfter: nat): Tx {
    if 0 < s.offset < |s.current| && s.ctsValid && ctsBefore != s.ctsStart then
      s.(offset := 0, ctsValid := false, wire := s.wire + [HardReset])
    else if s.offset < |s.current| then DrainBytes(s, want, accepts, ctsAfter)
    else if s.queue == [] then s.(ctsValid := false)
    else DrainBytes(s.(current := s.queue[0], offset := 0, queue := s.queue[1..], ctsValid := false),
                    want, accepts, ctsAfter)
  }

  function DrainBytes(s: Tx, want: nat, accepts: nat, ctsAfter: nat): Tx {
    var n := if s.offset <= |s.current| then Min(accepts, Min(want, |s.current| - s.offset)) else 0;
    var bytes := if s.offset <= |s.current| then s.current[s.offset..s.offset + n] else [];
    var capture := !s.ctsValid && s.offset == 0 && n > 0;
    s.(offset := s.offset + n, wireBytes := s.wireBytes + n, wire := s.wire + AsSent(bytes),
       ctsStart := if capture then ctsAfter else s.ctsStart,
       ctsValid := (s.ctsValid || capture) && s.offset + n < |s.current|)
  }

  // ---- the shape of the line ----------------------------------------------------------

  /** Abandoned attempts at a frame: the lengths of the prefixes sent before a hard reset. */
  type Attempts = seq<nat>

  predicate ProperAttempts(frame: seq<Byte>, a: Attempts) {
    forall i | 0 <= i < |a| :: 0 < a[i] < |frame|
  }

  function AttemptsWire(frame: seq<Byte>, a: Attempts, n: nat): seq<WireEvent>
    requires ProperAttempts(frame, a) && n <= |a|
  {
    if n == 0 then [] else AttemptsWire(frame, a, n - 1) + AsSent(frame[..a[n - 1]]) + [HardReset]
  }

  /** The line for the first `n` frames: for each its abandoned attempts, then the whole frame. */
  function FramesWire(frames: seq<seq<Byte>>, a: seq<Attempts>, n: nat): seq<WireEvent>
    requires n <= |frames| && n <= |a|
    requires forall i | 0 <= i < n :: ProperAttempts(frames[i], a[i])
  {
    if n == 0 then []
    else FramesWire(frames, a, n - 1) + (AttemptsWire(frames[n - 1], a[n - 1], |a[n - 1]|) + AsSent(frames[n - 1]))
  }

  /** The queue after a run in which `frames` were enqueued: the first |a| of them have been taken
      up, all but the last of these sent whole. */
  predicate ShapedBy(s: Tx, frames: seq<seq<Byte>>, a: seq<Attempts>) {
    && |a| <= |frames|
    && (forall i | 0 <= i < |a| :: ProperAttempts(frames[i], a[i]))
    && s.queue == frames[|a|..]
    && if a == [] then s.current == [] && s.offset == 0 && s.wire == []
       else
         && s.current == frames[|a| - 1]
         && s.offset <= |s.current|
         && s.wire == FramesWire(frames, a, |a| - 1)
                      + (AttemptsWire(s.current, a[|a| - 1], |a[|a| - 1]|) + AsSent(s.current[..s.offset]))
  }

  function CountSent(w: seq<WireEvent>, n: nat): nat
    requires n <= |w|
  {
    if n == 0 then 0 else CountSent(w, n - 1) + if w[n - 1].Sent? then 1 else 0
  }

  /** The baseline is valid exactly in mid-frame, and the byte counter is what the line has seen. */
  predicate Consistent(s: Tx) {
    && (s.ctsValid <==> 0 < s.offset < |s.current|)
    && s.wireBytes == CountSent(s.wire, |s.wire|)
  }

  ghost predicate Inv(s: Tx, frames: seq<seq<Byte>>) {
    && (exists a: seq<Attempts> :: ShapedBy(s, frames, a))
    && (forall i | 0 <= i < |frames| :: |frames[i]| > 0)
    && Consistent(s)
  }

  lemma {:induction false} CountConcat(u: seq<WireEvent>, v: seq<WireEvent>, n: nat)
    requires n <= |v|
    ensures CountSent(u + v, |u| + n) == CountSent(u, |u|) + CountSent(v, n)
  {
    if n == 0 {
      CountLocal(u + v, u, |u|);
    } else {
      CountConcat(u, v, n - 1);
    }
  }

  lemma {:induction false} CountLocal(u: seq<WireEvent>, v: seq<WireEvent>, n: nat)
    requires n <= |u| && n <= |v| && forall i | 0 <= i < n :: u[i] == v[i]
    ensures CountSent(u, n) == CountSent(v, n)
  {
    if n > 0 {
      CountLocal(u, v, n - 1);
    }
  }

  lemma {:induction false} CountAsSent(bytes: seq<Byte>, n: nat)
    requires n <= |bytes|
    ensures CountSent(AsSent(bytes), n) == n
  {
    if n > 0 {
      CountAsSent(bytes, n - 1);
    }
  }

  lemma AsSentSplit(frame: seq<Byte>, i: nat, j: nat)
    requires i <= j <= |frame|
    ensures AsSent(frame[..i]) + AsSent(frame[i..j]) == AsSent(frame[..j])
  {
  }

  /** Putting bytes extends the current attempt. */
  lemma PutKeepsShape(s: Tx, frames: seq<seq<Byte>>, a: seq<Attempts>, want: nat, accepts: nat, ctsAfter: nat)
    requires ShapedBy(s, frames, a) && a != []
    ensures ShapedBy(DrainBytes(s, want, accepts, ctsAfter), frames, a)
  {
    hide FramesWire, AttemptsWire, AsSent, ProperAttempts;
    var n := Min(accepts, Min(want, |s.current| - s.offset));
    var done := FramesWire(frames, a, |a| - 1);
    var tried := AttemptsWire(s.current, a[|a| - 1], |a[|a| - 1]|);
    AsSentSplit(s.current, s.offset, s.offset + n);
    Assoc(done, tried + AsSent(s.current[..s.offset]), AsSent(s.current[s.offset..s.offset + n]));
    Assoc(tried, AsSent(s.current[..s.offset]), AsSent(s.current[s.offset..s.offset + n]));
  }

  lemma PutKeepsConsistent(s: Tx, want: nat, accepts: nat, ctsAfter: nat)
    requires Consistent(s) && s.offset <= |s.current|
    ensures Consistent(DrainBytes(s, want, accepts, ctsAfter))
  {
    var n := Min(accepts, Min(want, |s.current| - s.offset));
    var bytes := s.current[s.offset..s.offset + n];
    hide CountSent, AsSent;
    CountConcat(s.wire, AsSent(bytes), |bytes|);
    CountAsSent(bytes, |bytes|);
  }

  /** Taking up the next frame completes the current one. */
  lemma TakeKeepsShape(s: Tx, frames: seq<seq<Byte>>, a: seq<Attempts>)
    requires ShapedBy(s, frames, a) && s.offset >= |s.current| && s.queue != []
    ensures ShapedBy(s.(current := s.queue[0], offset := 0, queue := s.queue[1..], ctsValid := false),
                     frames, a + [[]])
  {
    var b := a + [[]];
    assert frames[|a|..][0] == frames[|a|];
    assert s.queue[1..] == frames[|b|..];
    FramesLocal(frames, a, b, |a|);
    var next := s.queue[0];
    assert AttemptsWire(next, b[|a|], 0) == [] && AsSent(next[..0]) == [];
    if a != [] {
      assert s.current[..s.offset] == s.current;
      assert FramesWire(frames, a, |a|)
             == FramesWire(frames, a, |a| - 1)
                + (AttemptsWire(s.current, a[|a| - 1], |a[|a| - 1]|) + AsSent(s.current));
    }
    hide AttemptsWire, AsSent;
    assert s.wire == FramesWire(frames, a, |a|);
    assert s.wire + ([] + []) == s.wire;
  }

  lemma {:induction false} FramesLocal(frames: seq<seq<Byte>>, a: seq<Attempts>, b: seq<Attempts>, n: nat)
    requires n <= |frames| && n <= |a| && n <= |b|
    requires forall i | 0 <= i < n :: a[i] == b[i] && ProperAttempts(frames[i], a[i])
    ensures FramesWire(frames, a, n) == FramesWire(frames, b, n)
  {
    hide AttemptsWire, AsSent;
    if n > 0 {
      FramesLocal(frames, a, b, n - 1);
    }
  }

  /** A CTS edge in mid-frame turns the bytes sent so far into an abandoned attempt. */
  lemma ResetKeepsShape(s: Tx, frames: seq<seq<Byte>>, a: seq<Attempts>)
    requires ShapedBy(s, frames, a) && 0 < s.offset < |s.current|
    ensures ShapedBy(s.(offset := 0, ctsValid := false, wire := s.wire + [HardReset]), frames,
                     a[|a| - 1 := a[|a| - 1] + [s.offset]])
  {
    var last := |a| - 1;
    var more := a[last] + [s.offset];
    var b := a[last := more];
    FramesLocal(frames, a, b, last);
    AttemptsLocal(s.current, a[last], more, |a[last]|);
    var tried, sent := AttemptsWire(s.current, a[last], |a[last]|), AsSent(s.current[..s.offset]);
    assert AttemptsWire(s.current, more, |more|) == tried + sent + [HardReset];
    assert AsSent(s.current[..0]) == [];
    hide FramesWire, AttemptsWire, AsSent;
    Assoc(FramesWire(frames, a, last), tried + sent, [HardReset]);
    assert tried + sent + [HardReset] + [] == tried + sent + [HardReset];
  }

  lemma {:induction false} AttemptsLocal(frame: seq<Byte>, a: Attempts, b: Attempts, n: nat)
    requires ProperAttempts(frame, a) && ProperAttempts(frame, b) && n <= |a| && n <= |b|
    requires forall i | 0 <= i < n :: a[i] == b[i]
    ensures AttemptsWire(frame, a, n) == AttemptsWire(frame, b, n)
  {
    hide AsSent;
    if n > 0 {
      AttemptsLocal(frame, a, b, n - 1);
    }
  }

  lemma EnqueueKeepsShape(s: Tx, frames: seq<seq<Byte>>, a: seq<Attempts>, frame: seq<Byte>)
    requires ShapedBy(s, frames, a)
    ensures ShapedBy(s.(queue := s.queue + [frame]), frames + [frame], a)
  {
    FramesExtended(frames, frame, a, |a|);
    if a != [] {
      FramesExtended(frames, frame, a, |a| - 1);
    }
    hide FramesWire, AttemptsWire, AsSent;
    assert (frames + [frame])[|a|..] == frames[|a|..] + [frame];
  }

  lemma {:induction false} FramesExtended(frames: seq<seq<Byte>>, frame: seq<Byte>, a: seq<Attempts>, n: nat)
    requires n <= |frames| && n <= |a| && forall i | 0 <= i < n :: ProperAttempts(frames[i], a[i])
    ensures FramesWire(frames + [frame], a, n) == FramesWire(frames, a, n)
  {
    hide AttemptsWire, AsSent;
    if n > 0 {
      FramesExtended(frames, frame, a, n - 1);
    }
  }

  /** A shape is all that a state of non-empty frames and consistent counters needs. */
  lemma ShapeIsInv(s: Tx, frames: seq<seq<Byte>>, a: seq<Attempts>)
    requires ShapedBy(s, frames, a) && Consistent(s) && forall i | 0 <= i < |frames| :: |frames[i]| > 0
    ensures Inv(s, frames)
  {
    hide ShapedBy, Consistent;
  }

  lemma ResetKeepsInv(s: Tx, frames: seq<seq<Byte>>)
    requires Inv(s, frames) && 0 < s.offset < |s.current|
    ensures Inv(s.(offset := 0, ctsValid := false, wire := s.wire + [HardReset]), frames)
  {
    hide FramesWire, AttemptsWire, AsSent, CountSent, ProperAttempts;
    var a: seq<Attempts> :| ShapedBy(s, frames, a);
    ResetKeepsShape(s, frames, a);
    CountReset(s.wire);
    ShapeIsInv(s.(offset := 0, ctsValid := false, wire := s.wire + [HardReset]), frames,
               a[|a| - 1 := a[|a| - 1] + [s.offset]]);
  }

  lemma PutKeepsInv(s: Tx, frames: seq<seq<Byte>>, want: nat, accepts: nat, ctsAfter: nat)
    requires Inv(s, frames) && s.current != []
    ensures Inv(DrainBytes(s, want, accepts, ctsAfter), frames)
  {
    hide FramesWire, AttemptsWire, AsSent, CountSent, DrainBytes, ProperAttempts;
    var a: seq<Attempts> :| ShapedBy(s, frames, a);
    PutKeepsShape(s, frames, a, want, accepts, ctsAfter);
    PutKeepsConsistent(s, want, accepts, ctsAfter);
    ShapeIsInv(DrainBytes(s, want, accepts, ctsAfter), frames, a);
  }

  lemma TakeKeepsInv(s: Tx, frames: seq<seq<Byte>>)
    requires Inv(s, frames) && s.offset >= |s.current| && s.queue != []
    ensures Inv(s.(current := s.queue[0], offset := 0, queue := s.queue[1..], ctsValid := false), frames)
    ensures s.queue[0] != []
  {
    hide FramesWire, AttemptsWire, AsSent, CountSent, ProperAttempts;
    var a: seq<Attempts> :| ShapedBy(s, frames, a);
    TakeKeepsShape(s, frames, a);
    ShapeIsInv(s.(current := s.queue[0], offset := 0, queue := s.queue[1..], ctsValid := false), frames, a + [[]]);
  }

  lemma IdleKeepsInv(s: Tx, frames: seq<seq<Byte>>)
    requires Inv(s, frames) && s.offset >= |s.current|
    ensures Inv(s.(ctsValid := false), frames)
  {
    hide FramesWire, AttemptsWire, AsSent, CountSent, ProperAttempts;
    var a: seq<Attempts> :| ShapedBy(s, frames, a);
    ShapeIsInv(s.(ctsValid := false), frames, a);
  }

  lemma DrainKeepsInv(s: Tx, frames: seq<seq<Byte>>, want: nat, accepts: nat, ctsBefore: nat, ctsAfter: nat)
    requires Inv(s, frames)
    ensures Inv(Drain(s, want, accepts, ctsBefore, ctsAfter), frames)
  {
    hide Inv, DrainBytes;
    if 0 < s.offset < |s.current| && s.ctsValid && ctsBefore != s.ctsStart {
      ResetKeepsInv(s, frames);
    } else if s.offset < |s.current| {
      PutKeepsInv(s, frames, want, accepts, ctsAfter);
    } else if s.queue == [] {
      IdleKeepsInv(s, frames);
    } else {
      TakeKeepsInv(s, frames);
      var taken := s.(current := s.queue[0], offset := 0, queue := s.queue[1..], ctsValid := false);
      PutKeepsInv(taken, frames, want, accepts, ctsAfter);
    }
  }

  lemma CountReset(w: seq<WireEvent>)
    ensures CountSent(w + [HardReset], |w| + 1) == CountSent(w, |w|)
  {
    CountLocal(w + [HardReset], w, |w|);
  }

  // ---- runs ---------------------------------------------------------------------------

  datatype Op =
    | Datagram(payload: seq<Byte>)
    | DrainCall(want: nat, accepts: nat, ctsBefore: nat, ctsAfter: nat)

  function Step(s: Tx, op: Op): Tx {
    match op
    case Datagram(p) => Enqueue(s, p).0
    case DrainCall(want, accepts, before, after) => Drain(s, want, accepts, before, after)
  }

  function RunUpTo(ops: seq<Op>, n: nat): Tx
    requires n <= |ops|
  {
    if n == 0 then EMPTY_TX else Step(RunUpTo(ops, n - 1), ops[n - 1])
  }

  /** The encodings of the datagrams that were queued, in order. */
  function FramesUpTo(ops: seq<Op>, n: nat): seq<seq<Byte>>
    requires n <= |ops|
  {
    if n == 0 then [] else Extended(FramesUpTo(ops, n - 1), RunUpTo(ops, n - 1), ops[n - 1])
  }

  function Extended(frames: seq<seq<Byte>>, s: Tx, op: Op): seq<seq<Byte>> {
    if op.Datagram? && Enqueue(s, op.payload).1 == Queued then frames + [Encoding(op.payload, true)] else frames
  }

  lemma StepKeepsInv(s: Tx, frames: seq<seq<Byte>>, op: Op)
    requires Inv(s, frames)
    ensures Inv(Step(s, op), Extended(frames, s, op))
  {
    hide Inv, Drain, Enqueue, Encoding;
    match op
    case Datagram(p) => EnqueueKeepsInv(s, frames, p);
    case DrainCall(want, accepts, before, after) => DrainKeepsInv(s, frames, want, accepts, before, after);
  }

  lemma EnqueueKeepsInv(s: Tx, frames: seq<seq<Byte>>, payload: seq<Byte>)
    requires Inv(s, frames)
    ensures var (r, how) := Enqueue(s, payload);
      Inv(r, if how == Queued then frames + [Encoding(payload, true)] else frames)
  {
    hide Encoding, ShapedBy;
    var frame := Encoding(payload, true);
    if Enqueue(s, payload).1 == Queued {
      var a: seq<Attempts> :| ShapedBy(s, frames, a);
      EnqueueKeepsShape(s, frames, a, frame);
      assert forall i | 0 <= i < |frames + [frame]| :: |(frames + [frame])[i]| > 0;
    }
  }

  /** Over every run of enqueue and drain calls, with any chunk sizes, refusals and CTS edges: the
      line shows, for each queued frame in order, abandoned proper prefixes each ended by a hard
      reset and then the whole frame once, up to a last frame that may be partial; the CTS baseline
      is valid exactly in mid-frame; and the byte counter is the number of bytes on the line. */
  lemma {:induction false} EveryRunIsShaped(ops: seq<Op>, n: nat)
    requires n <= |ops|
    ensures Inv(RunUpTo(ops, n), FramesUpTo(ops, n))
  {
    hide Inv, Step, Extended;
    if n == 0 {
      StartIsShaped();
    } else {
      EveryRunIsShaped(ops, n - 1);
      StepKeepsInv(RunUpTo(ops, n - 1), FramesUpTo(ops, n - 1), ops[n - 1]);
    }
  }

  lemma StartIsShaped()
    ensures Inv(EMPTY_TX, [])
  {
    assert ShapedBy(EMPTY_TX, [], []);
  }

  // ---- what each call of a run does ---------------------------------------------------

  /** A frame has been put in part. */
  predicate MidSend(s: Tx) { 0 < s.offset < |s.current| }

  /** Call `n` has put the first bytes of a frame: all bytes put of it so far. */
  predicate PutsFirst(ops: seq<Op>, n: nat)
    requires n < |ops|
  {
    && ops[n].DrainCall?
    && RunUpTo(ops, n + 1).offset == RunUpTo(ops, n + 1).wireBytes - RunUpTo(ops, n).wireBytes > 0
  }

  /** What the CTS counter read after the last call, of the first `n`, that put first bytes. */
  function CtsAtFirst(ops: seq<Op>, n: nat): nat
    requires n <= |ops|
  {
    if n == 0 then 0 else if PutsFirst(ops, n - 1) then ops[n - 1].ctsAfter else CtsAtFirst(ops, n - 1)
  }

  predicate BaselineKept(s: Tx, cts: nat) {
    && s.offset <= |s.current| && (s.ctsValid <==> MidSend(s)) && (MidSend(s) ==> s.ctsStart == cts)
  }

  lemma DrainKeepsBaseline(s: Tx, cts: nat, want: nat, accepts: nat, ctsBefore: nat, ctsAfter: nat)
    requires BaselineKept(s, cts)
    ensures var r := Drain(s, want, accepts, ctsBefore, ctsAfter);
      BaselineKept(r, if r.offset == r.wireBytes - s.wireBytes > 0 then ctsAfter else cts)
  {
    hide AsSent;
  }

  /** The baseline is the counter read after the frame's first bytes. */
  lemma {:induction false} BaselineIsFirst(ops: seq<Op>, n: nat)
    requires n <= |ops|
    ensures BaselineKept(RunUpTo(ops, n), CtsAtFirst(ops, n))
  {
    hide Encoding, Drain;
    if n > 0 {
      BaselineIsFirst(ops, n - 1);
      if ops[n - 1].DrainCall? {
        var op := ops[n - 1];
        DrainKeepsBaseline(RunUpTo(ops, n - 1), CtsAtFirst(ops, n - 1), op.want, op.accepts, op.ctsBefore, op.ctsAfter);
      }
    }
  }

  /** There is something to put: the rest of a frame, or a frame that waits. */
  predicate HasFrame(s: Tx) { s.offset < |s.current| || s.queue != [] }

  /** The frame a drain call works on, and where in it. */
  function NextFrame(s: Tx): seq<Byte> {
    if s.offset < |s.current| then s.current else if s.queue == [] then [] else s.queue[0]
  }

  function NextByte(s: Tx): nat { if s.offset < |s.current| then s.offset else 0 }

  /** The line has been reset, no byte put, and the frame starts over with the next call. */
  predicate HasReset(s: Tx, r: Tx) {
    && r.wire == s.wire + [HardReset] && r.wireBytes == s.wireBytes
    && r.queue == s.queue && NextFrame(r) == s.current && NextByte(r) == 0
  }

  /** The next `k` bytes of the next frame have been put. */
  predicate HasPut(s: Tx, r: Tx, k: nat)
    requires HasFrame(s) && NextByte(s) + k <= |NextFrame(s)|
  {
    && r.wire == s.wire + AsSent(NextFrame(s)[NextByte(s)..NextByte(s) + k]) && r.wireBytes == s.wireBytes + k
    && r.current == NextFrame(s) && r.offset == NextByte(s) + k
    && r.queue == if s.offset < |s.current| then s.queue else s.queue[1..]
  }

  lemma DrainIsExact(s: Tx, cts: nat, want: nat, accepts: nat, ctsBefore: nat, ctsAfter: nat)
    requires BaselineKept(s, cts)
    ensures NextByte(s) <= |NextFrame(s)|
    ensures var r := Drain(s, want, accepts, ctsBefore, ctsAfter);
      if MidSend(s) && ctsBefore != cts then HasReset(s, r)
      else if HasFrame(s) then HasPut(s, r, Min(want, Min(accepts, |NextFrame(s)| - NextByte(s))))
      else r == s.(ctsValid := false)
  {
    hide AsSent;
  }

  /** What one drain call of a run adds to the line, and where it leaves the frame.  It resets the
      line exactly if a frame is in mid-send and the CTS counter differs from the one read after the
      frame's first bytes, and then the frame starts over with the next call; otherwise it puts as
      many bytes as it may, as the FIFO takes and as are left. */
  lemma DrainCallIsExact(ops: seq<Op>, n: nat)
    requires n < |ops| && ops[n].DrainCall?
    ensures var s, r, op := RunUpTo(ops, n), RunUpTo(ops, n + 1), ops[n];
      && NextByte(s) <= |NextFrame(s)|
      && if MidSend(s) && op.ctsBefore != CtsAtFirst(ops, n) then HasReset(s, r)
         else if HasFrame(s) then HasPut(s, r, Min(op.want, Min(op.accepts, |NextFrame(s)| - NextByte(s))))
         else r == s
  {
    var op := ops[n];
    BaselineIsFirst(ops, n);
    DrainIsExact(RunUpTo(ops, n), CtsAtFirst(ops, n), op.want, op.accepts, op.ctsBefore, op.ctsAfter);
    hide CtsAtFirst, Drain, HasReset, HasPut;
  }

  /** Every payload of up to 1703 bytes is queued behind the others while fewer than 64 frames wait,
      and nothing is queued while 64 do. */
  lemma EnqueueIsExact(s: Tx, payload: seq<Byte>)
    ensures |s.queue| < 64 && |payload| <= 1703 ==> Enqueue(s, payload) == (s.(queue := s.queue + [Encoding(payload, true)]), Queued)
    ensures |s.queue| >= 64 ==> Enqueue(s, payload) == (s, QueueFull)
    ensures |s.queue| < 64 && |Encoding(payload, true)| > 2048 ==> Enqueue(s, payload) == (s, EncodeFailed)
  {
    hide Encoding;
    EncodedSize(payload, true);
  }

  // ---- the queue itself ---------------------------------------------------------------

  /** The serial output: a FIFO that takes bytes while it has room, and a line reset. */
  class SerialOut {
    var room: nat
    var wire: seq<WireEvent>

    constructor ()
      ensures wire == []
    {
      room, wire := 0, [];
    }

    method TxPut(byte: Byte) returns (ok: bool)
      modifies this
      ensures ok <==> old(room) > 0
      ensures wire == if ok then old(wire) + [Sent(byte)] else old(wire)
      ensures room == if ok then old(room) - 1 else old(room)
    {
      if room == 0 {
        return false;
      }
      room := room - 1;
      wire := wire + [Sent(byte)];
      return true;
    }

    method ClockHardReset()
      modifies this
      ensures wire == old(wire) + [HardReset] && room == old(room)
    {
      wire := wire + [HardReset];
    }
  }

  class TxQueue {
    const ring: RingBuffer<seq<Byte>>
    const out: SerialOut
    var current: seq<Byte>
    var offset: nat
    var ctsStart: nat
    var ctsValid: bool
    var wireBytes: nat

    constructor (out: SerialOut)
      requires out.wire == []
      ensures Valid() && Model() == EMPTY_TX && this.out == out && fresh(ring) && fresh(ring.items)
    {
      ring := new RingBuffer<seq<Byte>>(QUEUE_SIZE);
      this.out := out;
      current, offset, ctsStart, ctsValid, wireBytes := [], 0, 0, false, 0;
    }

    ghost predicate Valid()
      reads this, ring
    {
      ring.Valid() && ring.items.Length == QUEUE_SIZE && offset <= |current|
    }

    ghost function Model(): Tx
      requires Valid()
      reads this, ring, ring.items, out
    {
      Tx(current, offset, ring.Contents(), ctsStart, ctsValid, wireBytes, out.wire)
    }

    method IsEmpty() returns (empty: bool)
      requires Valid()
      ensures empty <==> Model().queue == [] && Model().offset >= |Model().current|
    {
      empty := ring.count == 0 && offset >= |current|;
    }

    /** Encodes a datagram into a slot-sized frame and queues it. */
    method EnqueueUdp(payload: seq<Byte>) returns (result: Enqueued)
      requires Valid()
      modifies this, ring, ring.items
      ensures Valid()
      ensures (Model(), result) == Enqueue(old(Model()), payload)
    {
      hide Encoding;
      if ring.count == ring.items.Length {
        return QueueFull;
      }
      var frame := new FrameBuffer(FRAME_MAX);
      var ok := Encoder.Encode(payload, frame, true);
      if !ok {
        return EncodeFailed;
      }
      var _ := ring.PushBack(frame.Contents());
      return Queued;
    }

    /** Puts bytes of the current frame until the FIFO refuses or the chunk is done. */
    method DrainCurrent(want: nat) returns (drained: nat)
      requires Valid()
      modifies this`offset, this`wireBytes, out
      ensures Valid()
      ensures drained == Min(old(out.room), Min(want, |current| - old(offset)))
      ensures offset == old(offset) + drained && wireBytes == old(wireBytes) + drained
      ensures out.wire == old(out.wire) + AsSent(current[old(offset)..old(offset) + drained])
    {
      hide AsSent;
      NothingSent(current, offset);
      var effective := if want >= |current| - offset then |current| - offset else want;
      drained := 0;
      var i := 0;
      while i < effective
        invariant 0 <= i <= effective && drained == i && offset == old(offset) && wireBytes == old(wireBytes)
        invariant out.room == old(out.room) - i
        invariant out.wire == old(out.wire) + AsSent(current[offset..offset + i])
      {
        var ok := out.TxPut(current[offset + i]);
        if !ok {
          break;
        }
        AsSentNext(current, offset, offset + i);
        Assoc(old(out.wire), AsSent(current[offset..offset + i]), [Sent(current[offset + i])]);
        drained := drained + 1;
        i := i + 1;
      }
      offset := offset + drained;
      wireBytes := wireBytes + drained;
    }

    /** Puts a chunk and keeps the CTS baseline: captured with the first bytes of a frame, void
        once the frame is complete. */
    method PutChunk(want: nat, ctsAfter: nat) returns (drained: nat)
      requires Valid()
      modifies this, out
      ensures Valid()
      ensures Model() == DrainBytes(old(Model()), want, old(out.room), ctsAfter)
      ensures drained == wireBytes - old(wireBytes)
    {
      hide AsSent;
      var before := offset;
      drained := DrainCurrent(want);
      if !ctsValid && before == 0 && drained > 0 {
        ctsStart := ctsAfter;
        ctsValid := true;
      }
      if offset >= |current| {
        ctsValid := false;
      }
    }

    /** One drain call. */
    method DrainChunk(want: nat, ctsBefore: nat, ctsAfter: nat) returns (drained: nat)
      requires Valid()
      modifies this, ring, out
      ensures Valid()
      ensures Model() == Drain(old(Model()), want, old(out.room), ctsBefore, ctsAfter)
      ensures drained == wireBytes - old(wireBytes)
    {
      hide DrainBytes;
      drained := 0;
      var midSend := offset > 0 && offset < |current|;
      if midSend && ctsValid && ctsBefore != ctsStart {
        out.ClockHardReset();
        offset := 0;
        ctsValid := false;
        return;
      }
      if offset >= |current| {
        var ok, frame := ring.PopFront();
        if !ok {
          ctsValid := false;
          return;
        }
        current, offset := frame, 0;
        ctsValid := false;
      }
      drained := PutChunk(want, ctsAfter);
    }
  }

  lemma NothingSent(frame: seq<Byte>, i: nat)
    requires i <= |frame|
    ensures AsSent(frame[i..i]) == []
  {
  }

  lemma AsSentNext(frame: seq<Byte>, i: nat, j: nat)
    requires i <= j < |frame|
    ensures AsSent(frame[i..j + 1]) == AsSent(frame[i..j]) + [Sent(frame[j])]
  {
  }
}
