/** Both sides together: what a transmit queue puts on the line, a receiver hands over. */
module Bridge {
  import opened Words
  import opened Codec
  import opened Transmit
  import opened Wire
  import opened Receiver
  import opened EndToEnd

  /** The datagrams that were queued, in order. */
  function PayloadsUpTo(ops: seq<Op>, n: nat): seq<seq<Byte>>
    requires n <= |ops|
  {
    if n == 0 then []
    else
      PayloadsUpTo(ops, n - 1)
      + if ops[n - 1].Datagram? && Enqueue(RunUpTo(ops, n - 1), ops[n - 1].payload).1 == Queued
        then [ops[n - 1].payload] else []
  }

  lemma {:induction false} FramesOfPayloads(ops: seq<Op>, n: nat)
    requires n <= |ops|
    ensures |FramesUpTo(ops, n)| == |PayloadsUpTo(ops, n)|
    ensures forall i | 0 <= i < |FramesUpTo(ops, n)| ::
      FramesUpTo(ops, n)[i] == Encoding(PayloadsUpTo(ops, n)[i], true) && |FramesUpTo(ops, n)[i]| <= FRAME_MAX
  {
    hide Encoding, RunUpTo;
    if n > 0 {
      FramesOfPayloads(ops, n - 1);
    }
  }

  lemma AsSentConcat(u: seq<Byte>, v: seq<Byte>)
    ensures AsSent(u) + AsSent(v) == AsSent(u + v)
  {
  }

  lemma AsSentInjective(u: seq<Byte>, v: seq<Byte>)
    requires AsSent(u) == AsSent(v)
    ensures u == v
  {
    assert |u| == |AsSent(u)| == |v|;
    forall i | 0 <= i < |u|
      ensures u[i] == v[i]
    {
      assert AsSent(u)[i] == AsSent(v)[i];
    }
  }

  /** An abandoned attempt leaves a reset on the line. */
  lemma {:induction false} ResetOnLine(frames: seq<seq<Byte>>, a: seq<Attempts>, n: nat, i: nat)
    requires i < n <= |frames| && n <= |a| && a[i] != []
    requires forall j | 0 <= j < n :: ProperAttempts(frames[j], a[j])
    ensures HardReset in FramesWire(frames, a, n)
  {
    hide AsSent;
    if i < n - 1 {
      ResetOnLine(frames, a, n - 1, i);
    } else {
      ResetInAttempts(frames[i], a[i]);
    }
  }

  lemma ResetInAttempts(frame: seq<Byte>, a: Attempts)
    requires ProperAttempts(frame, a) && a != []
    ensures HardReset in AttemptsWire(frame, a, |a|)
  {
    var w := AttemptsWire(frame, a, |a|);
    hide AsSent;
    assert w[|w| - 1] == HardReset;
  }

  lemma NoResetInBytes(bytes: seq<Byte>)
    ensures HardReset !in AsSent(bytes)
  {
  }

  /** Without resets the line is the frames one after the other. */
  lemma {:induction false} PlainLine(frames: seq<seq<Byte>>, a: seq<Attempts>, n: nat)
    requires n <= |frames| && n <= |a| && forall i | 0 <= i < n :: a[i] == []
    ensures FramesWire(frames, a, n) == AsSent(Flat(frames, n))
  {
    hide AsSent;
    if n == 0 {
      assert AsSent([]) == [];
    } else {
      PlainLine(frames, a, n - 1);
      var done := AsSent(Flat(frames, n - 1));
      assert [] + AsSent(frames[n - 1]) == AsSent(frames[n - 1]);
      AsSentConcat(Flat(frames, n - 1), frames[n - 1]);
    }
  }

  /** A drained queue has put every frame on the line. */
  lemma WholeLine(s: Tx, frames: seq<seq<Byte>>, a: seq<Attempts>)
    requires ShapedBy(s, frames, a) && s.queue == [] && s.offset >= |s.current|
    ensures |a| == |frames| && forall i | 0 <= i < |a| :: ProperAttempts(frames[i], a[i])
    ensures s.wire == FramesWire(frames, a, |frames|)
  {
    hide AsSent, AttemptsWire;
    assert |a| == |frames|;
    assert s.current[..s.offset] == s.current;
  }

  /** A drained queue that was never reset has sent its frames one after the other. */
  lemma DrainedLine(s: Tx, frames: seq<seq<Byte>>, bytes: seq<Byte>)
    requires Inv(s, frames) && s.queue == [] && s.offset >= |s.current| && s.wire == AsSent(bytes)
    ensures bytes == Flat(frames, |frames|)
  {
    hide AsSent, FramesWire, AttemptsWire, ShapedBy, ProperAttempts;
    var a: seq<Attempts> :| ShapedBy(s, frames, a);
    var n := |frames|;
    WholeLine(s, frames, a);
    NoResetInBytes(bytes);
    if i :| 0 <= i < n && a[i] != [] {
      ResetOnLine(frames, a, n, i);
    }
    PlainLine(frames, a, n);
    AsSentInjective(bytes, Flat(frames, n));
  }

  lemma QueuedIsSendable(ops: seq<Op>, gaps: seq<nat>)
    requires |gaps| == |PayloadsUpTo(ops, |ops|)| + 1
    ensures Sendable(Traffic(PayloadsUpTo(ops, |ops|), gaps))
  {
    hide Encoding, FramesUpTo, PayloadsUpTo;
    FramesOfPayloads(ops, |ops|);
  }

  /** The whole bridge: after any run of the transmit queue that ends drained and saw no hard reset,
      whatever the chunk sizes and FIFO refusals were, the bytes put on the line are the frames of
      the queued datagrams; with any idle time before, between and after them, at any bit phase, a
      receiver that drains byte by byte, or in batches that fit and leave its hunts unmisled, hands
      over exactly the queued datagrams, in order. */
  lemma DatagramsCrossTheBridge(ops: seq<Op>, bytes: seq<Byte>, gaps: seq<nat>, batches: seq<seq<Byte>>)
    requires var s := RunUpTo(ops, |ops|);
      s.queue == [] && s.offset >= |s.current| && s.wire == AsSent(bytes)
    requires |gaps| == |PayloadsUpTo(ops, |ops|)| + 1
    ensures var t := Traffic(PayloadsUpTo(ops, |ops|), gaps);
      && Sendable(t) && bytes == Flat(FramesUpTo(ops, |ops|), |FramesUpTo(ops, |ops|)|)
      && Received(t, Singles(Raw(t)))
      && (Delivers(t, batches) && (forall m | 0 <= m < |batches| :: Smooth(t, batches, m)) ==> Received(t, batches))
  {
    var n := |ops|;
    var t := Traffic(PayloadsUpTo(ops, n), gaps);
    EveryRunIsShaped(ops, n);
    QueuedIsSendable(ops, gaps);
    hide Encoding, Inv, RunUpTo, AsSent, FramesUpTo, PayloadsUpTo, ReceiveUpTo, Smooth, Delivers, Sendable, Raw, Singles;
    DrainedLine(RunUpTo(ops, n), FramesUpTo(ops, n), bytes);
    EverythingArrives(t);
    if Delivers(t, batches) && (forall m | 0 <= m < |batches| :: Smooth(t, batches, m)) {
      BatchesArrive(t, batches);
    }
  }

  /** The batches yield exactly the payloads that were sent, and no rejection. */
  predicate Received(t: Traffic, batches: seq<seq<Byte>>) {
    var rx := ReceiveUpTo(batches, |batches|);
    rx.delivered == t.payloads && rx.failures == 0
  }

  /** With idle time before the first frame only, the line is those very bytes. */
  lemma BackToBackOnLine(ops: seq<Op>, bytes: seq<Byte>, idle: nat)
    requires var s := RunUpTo(ops, |ops|);
      s.queue == [] && s.offset >= |s.current| && s.wire == AsSent(bytes)
    ensures var t := BackToBack(PayloadsUpTo(ops, |ops|), idle);
      Sendable(t) && Raw(t) == Chop(Padded(Zeros(idle) + Stream(bytes, true)), true) && Received(t, Singles(Raw(t)))
  {
    var frames, payloads := FramesUpTo(ops, |ops|), PayloadsUpTo(ops, |ops|);
    var t := BackToBack(payloads, idle);
    QueuedIsSendable(ops, t.gaps);
    FramesOfPayloads(ops, |ops|);
    hide Encoding, RunUpTo, AsSent, FramesUpTo, PayloadsUpTo, ReceiveUpTo, Smooth, Delivers, Singles;
    DatagramsCrossTheBridge(ops, bytes, t.gaps, []);
    BackToBackLine(payloads, idle, frames, |payloads|);
  }
}
