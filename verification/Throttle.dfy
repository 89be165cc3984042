/** The transmit side of the event loop: drain, update the throttle, take at most one datagram when
    not throttled.  The hysteresis keeps the queue from ever being full. */
module Throttle {
  import opened Words
  import opened Codec
  import opened Transmit

  const HIGH_WATER := 48
  const LOW_WATER := 12
  const CHUNK := 32

  /** The loop's view of the transmit side. */
  datatype TxSide = TxSide(tx: Tx, throttled: bool, dropped: nat)

  const START := TxSide(EMPTY_TX, false, 0)

  /** What the world contributes to one iteration: bytes the FIFO takes, the CTS counter at two
      moments, and the datagrams waiting at the socket. */
  datatype Input = Input(accepts: nat, ctsBefore: nat, ctsAfter: nat, waiting: seq<seq<Byte>>)

  function Throttled(was: bool, used: nat): bool {
    if !was && used >= HIGH_WATER then true
    else if was && used <= LOW_WATER then false
    else was
  }

  function Iterate(s: TxSide, i: Input): TxSide {
    var tx := Drain(s.tx, CHUNK, i.accepts, i.ctsBefore, i.ctsAfter);
    var throttled := Throttled(s.throttled, |tx.queue|);
    if throttled || i.waiting == [] then TxSide(tx, throttled, s.dropped)
    else
      var (r, how) := Enqueue(tx, i.waiting[0]);
      TxSide(r, throttled, if how == QueueFull then s.dropped + 1 else s.dropped)
  }

  function Used(s: TxSide): nat { |s.tx.queue| }

  predicate Safe(s: TxSide) {
    Used(s) <= HIGH_WATER && s.dropped == 0
  }

  lemma DrainNeverGrows(s: Tx, want: nat, accepts: nat, ctsBefore: nat, ctsAfter: nat)
    ensures |Drain(s, want, accepts, ctsBefore, ctsAfter).queue| <= |s.queue|
  {
  }

  /** What one iteration keeps and how the throttle moves. */
  lemma IterationIsSafe(s: TxSide, i: Input)
    requires Safe(s)
    ensures var r := Iterate(s, i);
      && Safe(r)
      && (r.throttled ==> Used(r) <= Used(s))
      && (s.throttled && !r.throttled ==>
            |Drain(s.tx, CHUNK, i.accepts, i.ctsBefore, i.ctsAfter).queue| <= LOW_WATER)
      && (!s.throttled && r.throttled ==> Used(r) == HIGH_WATER)
  {
    DrainNeverGrows(s.tx, CHUNK, i.accepts, i.ctsBefore, i.ctsAfter);
    hide Drain;
  }

  function RunUpTo(inputs: seq<Input>, n: nat): TxSide
    requires n <= |inputs|
  {
    if n == 0 then START else Iterate(RunUpTo(inputs, n - 1), inputs[n - 1])
  }

  /** In every run the queue never holds more than 48 of its 64 frames, so no datagram is ever
      dropped because it is full. */
  lemma {:induction false} QueueNeverOverflows(inputs: seq<Input>, n: nat)
    requires n <= |inputs|
    ensures Safe(RunUpTo(inputs, n))
  {
    hide Iterate;
    if n > 0 {
      QueueNeverOverflows(inputs, n - 1);
      IterationIsSafe(RunUpTo(inputs, n - 1), inputs[n - 1]);
    }
  }

  /** Over a throttled stretch of a run, occupancy only falls. */
  lemma {:induction false} FallsWhileThrottled(inputs: seq<Input>, m: nat, n: nat)
    requires m <= n <= |inputs|
    requires forall k | m <= k <= n :: RunUpTo(inputs, k).throttled
    ensures Used(RunUpTo(inputs, n)) <= Used(RunUpTo(inputs, m))
  {
    hide Iterate;
    if m < n {
      FallsWhileThrottled(inputs, m, n - 1);
      QueueNeverOverflows(inputs, n - 1);
      IterationIsSafe(RunUpTo(inputs, n - 1), inputs[n - 1]);
    }
  }

  // ---- when the throttle acts and lets go ---------------------------------------------

  /** Both edges of the hysteresis, and what they do to the queue: a throttled loop is released
      exactly when at most 12 frames wait after the drain, an unthrottled one is throttled exactly
      when at least 48 do, and then, and only then, an encodable datagram waits in vain. */
  lemma ThrottleIsExact(s: TxSide, i: Input)
    requires Safe(s)
    ensures var r := Iterate(s, i);
      var left := |Drain(s.tx, 32, i.accepts, i.ctsBefore, i.ctsAfter).queue|;
      && (s.throttled ==> (!r.throttled <==> left <= 12))
      && (!s.throttled ==> (r.throttled <==> left >= 48))
      && Used(r) == left + if !r.throttled && i.waiting != [] && |Encoding(i.waiting[0], true)| <= 2048 then 1 else 0
  {
    DrainNeverGrows(s.tx, CHUNK, i.accepts, i.ctsBefore, i.ctsAfter);
    hide Drain, Encoding;
  }

  function Bytes(frames: seq<seq<Byte>>): nat {
    if frames == [] then 0 else |frames[0]| + Bytes(frames[1..])
  }

  /** Bytes still to be put while the CTS counter stays at `c`; a baseline other than `c` costs the
      current frame once more. */
  function Work(s: Tx, c: nat): nat {
    Bytes(s.queue)
    + (if s.offset < |s.current| then |s.current| - s.offset else 0)
    + (if 0 < s.offset < |s.current| && s.ctsStart != c then |s.current| + 1 else 0)
  }

  /** The baseline is valid exactly in mid-frame, and no empty frame waits. */
  predicate Steady(s: Tx) {
    && s.offset <= |s.current| && (s.ctsValid <==> 0 < s.offset < |s.current|)
    && forall i | 0 <= i < |s.queue| :: s.queue[i] != []
  }

  /** A drain call that finds room in the FIFO and an unchanged CTS counter gets some work done, as
      long as frames wait. */
  lemma DrainWorks(s: Tx, want: nat, accepts: nat, c: nat)
    requires Steady(s) && want > 0 && accepts > 0
    ensures var r := Drain(s, want, accepts, c, c);
      Steady(r) && (Work(r, c) < Work(s, c) || s.queue == [])
  {
    hide AsSent;
  }

  /** A world that goes on taking bytes and whose CTS counter stays at `c`. */
  predicate Flowing(i: Input, c: nat) {
    i.accepts > 0 && i.ctsBefore == i.ctsAfter == c
  }

  lemma {:induction false} RunIsSteady(inputs: seq<Input>, n: nat)
    requires n <= |inputs|
    ensures Steady(RunUpTo(inputs, n).tx)
  {
    hide Encoding, DrainBytes, Drain, Enqueue;
    if n > 0 {
      RunIsSteady(inputs, n - 1);
      var s, i := RunUpTo(inputs, n - 1), inputs[n - 1];
      DrainIsSteady(s.tx, CHUNK, i.accepts, i.ctsBefore, i.ctsAfter);
      if i.waiting != [] {
        EnqueueIsSteady(Drain(s.tx, CHUNK, i.accepts, i.ctsBefore, i.ctsAfter), i.waiting[0]);
      }
    }
  }

  lemma DrainIsSteady(s: Tx, want: nat, accepts: nat, ctsBefore: nat, ctsAfter: nat)
    requires Steady(s)
    ensures Steady(Drain(s, want, accepts, ctsBefore, ctsAfter))
  {
    hide AsSent;
  }

  lemma EnqueueIsSteady(s: Tx, payload: seq<Byte>)
    requires Steady(s)
    ensures Steady(Enqueue(s, payload).0)
  {
    hide Encoding;
  }

  /** The throttle always lets go: once the FIFO takes bytes and the CTS counter stays, a throttled
      loop takes datagrams again after no more iterations than bytes are left to put. */
  lemma {:induction false} ThrottleEnds(inputs: seq<Input>, m: nat, c: nat) returns (k: nat)
    requires m <= |inputs| && (forall n | m <= n < |inputs| :: Flowing(inputs[n], c))
    requires |inputs| - m > Work(RunUpTo(inputs, m).tx, c)
    ensures m <= k <= |inputs| && !RunUpTo(inputs, k).throttled
    decreases |inputs| - m
  {
    hide Work, Drain, Enqueue, Steady;
    k := m;
    var s := RunUpTo(inputs, m);
    if s.throttled {
      RunIsSteady(inputs, m);
      QueueNeverOverflows(inputs, m);
      DrainWorks(s.tx, CHUNK, inputs[m].accepts, c);
      ThrottleIsExact(s, inputs[m]);
      DrainNeverGrows(s.tx, CHUNK, inputs[m].accepts, c, c);
      if RunUpTo(inputs, m + 1).throttled {
        k := ThrottleEnds(inputs, m + 1, c);
      } else {
        k := m + 1;
      }
    }
  }

  /** The loop's transmit phase. */
  class TxLoop {
    const queue: TxQueue
    var udpRxThrottled: bool
    var droppedFrames: nat

    constructor ()
      ensures Valid() && Model() == START
    {
      var out := new SerialOut();
      queue := new TxQueue(out);
      udpRxThrottled, droppedFrames := false, 0;
    }

    ghost predicate Valid()
      reads this, queue, queue.ring
    {
      queue.Valid()
    }

    ghost function Model(): TxSide
      requires Valid()
      reads this, queue, queue.ring, queue.ring.items, queue.out
    {
      TxSide(queue.Model(), udpRxThrottled, droppedFrames)
    }

    method UpdateThrottle()
      requires Valid()
      modifies this
      ensures Valid() && udpRxThrottled == Throttled(old(udpRxThrottled), queue.ring.count)
      ensures droppedFrames == old(droppedFrames)
    {
      var used := queue.ring.count;
      if !udpRxThrottled && used >= HIGH_WATER {
        udpRxThrottled := true;
      } else if udpRxThrottled && used <= LOW_WATER {
        udpRxThrottled := false;
      }
    }

    method PollAndEnqueue(waiting: seq<seq<Byte>>)
      requires Valid()
      modifies this, queue, queue.ring, queue.ring.items
      ensures Valid() && udpRxThrottled == old(udpRxThrottled)
      ensures waiting == [] ==> Model() == old(Model())
      ensures waiting != [] ==>
                var (r, how) := Enqueue(old(queue.Model()), waiting[0]);
                queue.Model() == r && droppedFrames == old(droppedFrames) + if how == QueueFull then 1 else 0
    {
      if waiting != [] {
        var result := queue.EnqueueUdp(waiting[0]);
        if result == QueueFull {
          droppedFrames := droppedFrames + 1;
        }
      }
    }

    method Iteration(input: Input)
      requires Valid() && queue.out.room == input.accepts
      modifies this, queue, queue.ring, queue.ring.items, queue.out
      ensures Valid() && Model() == Iterate(old(Model()), input)
    {
      hide Drain, Enqueue;
      var _ := queue.DrainChunk(CHUNK, input.ctsBefore, input.ctsAfter);
      UpdateThrottle();
      if !udpRxThrottled {
        PollAndEnqueue(input.waiting);
      }
    }
  }
}
