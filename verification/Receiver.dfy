/** The receive side of the event loop: poll, decode, hand over, tell the accumulator. */
module Receiver {
  import opened Words
  import opened Sync
  import opened SyncLaws
  import opened Codec
  import opened Encoder
  import opened Accumulators
  import opened PollSteps
  import Decoder

  /** Room for a reconstructed frame, and for a decoded payload with its check bytes. */
  const FRAME_CAPACITY := 8192
  const PAYLOAD_CAPACITY := 8192
  const FAIL_STREAK_LIMIT := 4

  /** The receiver: the accumulator, the current run of decode failures, the payloads sent on to
      UDP and the number of frames that did not decode. */
  datatype Rx = Rx(view: View, streak: nat, delivered: seq<seq<Byte>>, failures: nat)

  const IDLE := Rx(EMPTY, 0, [], 0)

  predicate ValidRx(rx: Rx) {
    ValidView(rx.view) && rx.view.candidate.None? && rx.streak < FAIL_STREAK_LIMIT
  }

  /** What becomes of a reported candidate: decoded and accepted, or rejected; too many failures in
      a row start the accumulator over. */
  function Judge(rx: Rx, v: View, frame: seq<Byte>): Rx {
    match Decoding(frame, PAYLOAD_CAPACITY, true)
    case Payload(p) => Rx(Consume(v, true), 0, rx.delivered + [p], rx.failures)
    case Rejected(_) =>
      if rx.streak + 1 >= FAIL_STREAK_LIMIT then Rx(EMPTY, 0, rx.delivered, rx.failures + 1)
      else Rx(Consume(v, false), rx.streak + 1, rx.delivered, rx.failures + 1)
  }

  /** Every report leaves fewer bytes in the buffer, so that draining ends. */
  lemma JudgeShrinks(rx: Rx, o: Outcome)
    requires ValidRx(rx) && o == Sync.Poll(rx.view, FRAME_CAPACITY) && o.Ready?
    ensures ValidRx(Judge(rx, o.view, o.frame))
    ensures |Judge(rx, o.view, o.frame).view.buf| < |rx.view.buf|
  {
    hide Decoding, Sync.Poll, Consume, Sound, ValidLock;
    PollIsSound(rx.view, FRAME_CAPACITY);
    ReportIsNotEmpty(rx.view, o);
    ConsumeShrinks(o.view, true);
    ConsumeShrinks(o.view, false);
  }

  lemma ReportIsNotEmpty(v: View, o: Outcome)
    requires Sound(v, FRAME_CAPACITY, o) && o.Ready?
    ensures ValidView(o.view) && o.view.candidate.Some? && 0 < |o.view.buf| <= |v.buf|
  {
    hide ValidLock, Slice;
  }

  lemma ConsumeShrinks(v: View, accept: bool)
    requires ValidView(v) && v.candidate.Some? && v.buf != []
    ensures var w := Consume(v, accept);
      |w.buf| < |v.buf| && ValidView(w) && w.candidate.None?
  {
  }

  /** All complete frames currently buffered. */
  function Drain(rx: Rx): (r: Rx)
    requires ValidRx(rx)
    ensures ValidRx(r)
    decreases |rx.view.buf|
  {
    var o := Sync.Poll(rx.view, FRAME_CAPACITY);
    PollIsSound(rx.view, FRAME_CAPACITY);
    match o
    case Ready(v, _, frame) =>
      JudgeShrinks(rx, o);
      Drain(Judge(rx, v, frame))
    case TooLong(_) => rx.(view := EMPTY)
    case Waiting(v) => rx.(view := v)
  }

  /** The accumulator after the first `n` bytes of a batch; bytes it has no room for are dropped. */
  function FeedUpTo(v: View, bytes: seq<Byte>, n: nat): View
    requires n <= |bytes|
  {
    if n == 0 then v else Feed(FeedUpTo(v, bytes, n - 1), bytes[n - 1])
  }

  /** A batch of received bytes, then everything that has become complete. */
  function OnBatch(rx: Rx, bytes: seq<Byte>): (r: Rx)
    requires ValidRx(rx)
    ensures ValidRx(r)
  {
    FeedUpToIsValid(rx, bytes, |bytes|);
    Drain(rx.(view := FeedUpTo(rx.view, bytes, |bytes|)))
  }

  lemma {:induction false} FeedUpToIsValid(rx: Rx, bytes: seq<Byte>, n: nat)
    requires ValidRx(rx) && n <= |bytes|
    ensures ValidRx(rx.(view := FeedUpTo(rx.view, bytes, n)))
  {
    hide Feed, ValidView;
    if n > 0 {
      FeedUpToIsValid(rx, bytes, n - 1);
      FeedIsValid(rx.(view := FeedUpTo(rx.view, bytes, n - 1)), bytes[n - 1]);
    }
  }

  lemma FeedIsValid(rx: Rx, byte: Byte)
    requires ValidRx(rx)
    ensures ValidRx(rx.(view := Feed(rx.view, byte)))
  {
    if |rx.view.buf| < MAX_BUFFER {
      FedIsValid(rx.view, [byte]);
    }
    hide ValidLock;
  }

  /** With room for all of it, a batch is appended whole. */
  lemma {:induction false} FedUpTo(v: View, bytes: seq<Byte>, n: nat)
    requires n <= |bytes| && |v.buf| + n <= MAX_BUFFER
    ensures FeedUpTo(v, bytes, n) == v.(buf := v.buf + bytes[..n])
  {
    if n == 0 {
      assert v.buf + bytes[..0] == v.buf;
    } else {
      FedUpTo(v, bytes, n - 1);
      PrefixSnoc(bytes, n - 1);
      Assoc(v.buf, bytes[..n - 1], [bytes[n - 1]]);
    }
  }

  /** The receiver after the first `n` batches, drained after each. */
  function ReceiveUpTo(batches: seq<seq<Byte>>, n: nat): (r: Rx)
    requires n <= |batches|
    ensures ValidRx(r)
  {
    if n == 0 then IDLE else OnBatch(ReceiveUpTo(batches, n - 1), batches[n - 1])
  }

  // ---- the loop -----------------------------------------------------------------------

  class EventLoop {
    const accumulator: Accumulator
    const reconstructed: FrameBuffer
    const txPayload: array<Byte>
    var failStreak: nat
    var udpSent: seq<seq<Byte>>
    var decodeFailures: nat

    constructor ()
      ensures Valid() && Model() == IDLE
      ensures fresh(accumulator) && fresh(accumulator.buffer) && fresh(txPayload)
      ensures fresh(reconstructed) && fresh(reconstructed.payload)
    {
      accumulator := new Accumulator();
      reconstructed := new FrameBuffer(FRAME_CAPACITY);
      txPayload := new Byte[PAYLOAD_CAPACITY];
      failStreak, udpSent, decodeFailures := 0, [], 0;
    }

    /** The objects are distinct and consistent, and the frame holds what the lock has taken. */
    ghost predicate Valid()
      reads this, accumulator, accumulator.buffer, reconstructed, reconstructed.payload
    {
      && accumulator.Valid() && reconstructed.Valid()
      && reconstructed.payload != accumulator.buffer && txPayload != accumulator.buffer
      && txPayload != reconstructed.payload
      && reconstructed.payload.Length == FRAME_CAPACITY && txPayload.Length == PAYLOAD_CAPACITY
      && Holds(accumulator.Model(), reconstructed.Contents())
      && ValidRx(Model())
    }

    ghost function Model(): Rx
      requires accumulator.InBounds()
      reads this, accumulator, accumulator.buffer
    {
      Rx(accumulator.Model(), failStreak, udpSent, decodeFailures)
    }

    /** Decodes the reported candidate and gives the accumulator the verdict. */
    method DecodeToUdp(ghost rx: Rx, ghost v: View)
      requires accumulator.Valid() && reconstructed.Valid() && txPayload != accumulator.buffer
      requires txPayload != reconstructed.payload && txPayload.Length == PAYLOAD_CAPACITY
      requires accumulator.Model() == v && v.lock.None? && rx == Rx(rx.view, failStreak, udpSent, decodeFailures)
      modifies this, accumulator, accumulator.buffer, reconstructed, txPayload
      ensures accumulator.Valid() && reconstructed.Valid()
      ensures Model() == Judge(rx, v, old(reconstructed.Contents())) && accumulator.state == HUNTING
    {
      hide Decoding, Consume, ValidView, ValidLock;
      ConsumeUnlocks(v);
      var frame := reconstructed.Contents();
      var r := Decoder.Decode(frame, txPayload, true);
      if r.Payload? {
        failStreak := 0;
        udpSent := udpSent + [txPayload[..|r.bytes|]];
        accumulator.ConsumeCandidate(true);
      } else {
        decodeFailures := decodeFailures + 1;
        accumulator.ConsumeCandidate(false);
        failStreak := failStreak + 1;
        if failStreak >= FAIL_STREAK_LIMIT {
          accumulator.Init();
          failStreak := 0;
        }
      }
      reconstructed.length := 0;
    }

    /** Extracts every complete frame currently buffered. */
    method DrainFrames()
      requires Valid()
      modifies this, accumulator, accumulator.buffer, reconstructed, reconstructed.payload, txPayload
      ensures Valid() && Model() == Drain(old(Model()))
    {
      hide Drain, Judge, Sync.Poll, ValidView;
      while true
        invariant Valid() && Drain(Model()) == Drain(old(Model()))
        decreases accumulator.position
      {
        ghost var rx := Model();
        ghost var o := Sync.Poll(rx.view, FRAME_CAPACITY);
        DrainNext(rx);
        var result := accumulator.Poll(reconstructed);
        if result == POLL_FRAME_READY {
          ReportUnlocks(rx.view);
          JudgeShrinks(rx, o);
          DecodeToUdp(rx, o.view);
          continue;
        }
        if result != POLL_OK {
          reconstructed.length := 0;
          accumulator.Init();
        }
        break;
      }
    }

    /** A byte from the serial line goes into the accumulator, unless that is full. */
    method TakeByte(byte: Byte)
      requires Valid()
      modifies accumulator, accumulator.buffer
      ensures Valid() && Model() == old(Model()).(view := Feed(old(Model().view), byte))
    {
      hide ValidView, ValidLock;
      ghost var rx := Model();
      if rx.view.lock.Some? {
        var l := rx.view.lock.value;
        LockFits(rx.view);
        SliceOnPart(rx.view.buf, [byte], l, rx.view.processed - l.start);
      }
      hide Slice;
      var _ := accumulator.ProcessByte(byte);
      FeedIsValid(rx, byte);
    }

    /** Everything the serial line has received, then everything that has become complete. */
    method Receive(bytes: seq<Byte>)
      requires Valid()
      modifies this, accumulator, accumulator.buffer, reconstructed, reconstructed.payload, txPayload
      ensures Valid() && Model() == OnBatch(old(Model()), bytes)
    {
      hide Drain, ValidView, ValidLock, Feed, Slice, ValidRx;
      ghost var rx := Model();
      var i := 0;
      while i < |bytes|
        invariant 0 <= i <= |bytes| && Valid()
        invariant Model() == rx.(view := FeedUpTo(rx.view, bytes, i))
      {
        TakeByte(bytes[i]);
        i := i + 1;
      }
      DrainFrames();
    }
  }

  lemma ConsumeUnlocks(v: View)
    requires v.lock.None?
    ensures Consume(v, true).lock.None? && Consume(v, false).lock.None?
  {
  }

  lemma LockFits(v: View)
    requires ValidView(v) && v.lock.Some?
    ensures var l := v.lock.value;
      l.phase.offset < 8 && l.start < v.processed <= AlignedCount(|v.buf|, l.phase.offset)
  {
  }

  lemma ReportUnlocks(v: View)
    requires ValidView(v) && Sync.Poll(v, FRAME_CAPACITY).Ready?
    ensures Sync.Poll(v, FRAME_CAPACITY).view.lock.None?
  {
    PollIsSound(v, FRAME_CAPACITY);
    hide Sync.Poll;
  }

  lemma DrainNext(rx: Rx)
    requires ValidRx(rx)
    ensures var o := Sync.Poll(rx.view, FRAME_CAPACITY);
      if o.Ready? then
        ValidRx(Judge(rx, o.view, o.frame)) && Drain(rx) == Drain(Judge(rx, o.view, o.frame))
      else Drain(rx) == rx.(view := if o.TooLong? then EMPTY else o.view)
  {
    hide Judge, Sync.Poll;
    var o := Sync.Poll(rx.view, FRAME_CAPACITY);
    if o.Ready? {
      JudgeShrinks(rx, o);
    }
  }
}
