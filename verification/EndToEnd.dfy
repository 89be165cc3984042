/** From payloads to payloads: whatever is sent, at whatever bit phase and with whatever idle zeros
    around the frames, and however the raw bytes are split into batches, a receiver that drains after
    each batch hands over exactly the payloads, as long as no hunt is misled.  Byte by byte no hunt
    ever is. */
module EndToEnd {
  import opened Words
  import opened Codec
  import opened Sync
  import opened SyncLaws
  import opened Wire
  import opened Receiver
  import opened Batches

  /** The batches are the raw bytes that arrive. */
  predicate Delivers(t: Traffic, batches: seq<seq<Byte>>)
    requires Sendable(t)
  {
    Joined(batches, |batches|) == Raw(t)
  }

  /** Where the receiver stands after the first `n` batches. */
  function StandAt(t: Traffic, batches: seq<seq<Byte>>, n: nat): (s: Stand)
    requires Sendable(t) && n <= |batches|
    ensures s.next <= |t.payloads| && s.base <= Total(batches, n)
  {
    if n == 0 then Stand(0, 0)
    else
      var s := StandAt(t, batches, n - 1);
      Drained(t, s.base, Total(batches, n), s.next)
  }

  lemma {:induction false} StandIsAhead(t: Traffic, batches: seq<seq<Byte>>, n: nat)
    requires Sendable(t) && Delivers(t, batches) && n <= |batches|
    ensures Total(batches, n) <= |Raw(t)|
    ensures var s := StandAt(t, batches, n);
      && Ahead(t, s.base, Total(batches, n), s.next)
      && (n < |batches| ==> Total(batches, n + 1) <= |Raw(t)| && Ahead(t, s.base, Total(batches, n + 1), s.next))
  {
    hide Line, Raw, Encoding, StartOf, EndOf, Joined, Sendable, Drained;
    TotalGrows(batches, n, |batches|);
    if n < |batches| {
      TotalGrows(batches, n + 1, |batches|);
    }
    if n == 0 {
      NothingSent(t);
    } else {
      StandIsAhead(t, batches, n - 1);
      var s := StandAt(t, batches, n - 1);
      DrainedIsAhead(t, s.base, Total(batches, n), s.next);
    }
  }

  lemma NothingSent(t: Traffic)
    requires Sendable(t)
    ensures Ahead(t, 0, 0, 0)
  {
    hide Line, LineUpTo;
    NothingBefore(t);
  }

  /** The accumulator has room for batch `n`, and nothing of it is cut off behind a frame. */
  predicate Fits(t: Traffic, batches: seq<seq<Byte>>, n: nat)
    requires Sendable(t) && n < |batches|
  {
    var s, to := StandAt(t, batches, n), Total(batches, n + 1);
    to - s.base <= MAX_BUFFER && NotCut(t, to, s.next)
  }

  /** The drain after batch `n` hunts in clear windows only. */
  predicate Unmisled(t: Traffic, batches: seq<seq<Byte>>, n: nat)
    requires Sendable(t) && Delivers(t, batches) && n < |batches|
  {
    StandIsAhead(t, batches, n);
    var s, from, to := StandAt(t, batches, n), Total(batches, n), Total(batches, n + 1);
    (Seen(t, from, s.next) || Clear(t, s.base, to, s.next)) && ClearBehind(t, to, s.next)
  }

  predicate Smooth(t: Traffic, batches: seq<seq<Byte>>, n: nat)
    requires Sendable(t) && Delivers(t, batches) && n < |batches|
  {
    Fits(t, batches, n) && Unmisled(t, batches, n)
  }

  /** The receiver when `next` payloads have been handed over and nothing has been rejected. */
  function OnTrack(t: Traffic, s: Stand, to: nat): Rx
    requires Sendable(t) && s.next <= |t.payloads| && Ahead(t, s.base, to, s.next)
  {
    Rx(ViewAt(t, s.base, to, s.next), 0, t.payloads[..s.next], 0)
  }

  /** More raw bytes behind the buffer's. */
  lemma FeedOnTrack(t: Traffic, s: Stand, from: nat, to: nat, bytes: seq<Byte>)
    requires Sendable(t) && s.next <= |t.payloads| && from <= to <= |Raw(t)| && bytes == Raw(t)[from..to]
    requires Ahead(t, s.base, from, s.next) && Ahead(t, s.base, to, s.next) && to - s.base <= MAX_BUFFER
    ensures var v := FeedUpTo(ViewAt(t, s.base, from, s.next), bytes, |bytes|);
      && v.buf == Window(t, s.base, to) && v.candidate.None?
      && if Seen(t, from, s.next) then Seen(t, to, s.next) && v.lock == Some(Place(t, s.base, s.next))
         else v.lock.None? && v.processed == 0
  {
    hide Line, Raw, Encoding, StartOf, EndOf, Sendable, First, Resume, FeedUpTo;
    FedUpTo(ViewAt(t, s.base, from, s.next), bytes, |bytes|);
    assert bytes[..|bytes|] == bytes;
    assert Raw(t)[s.base..from] + Raw(t)[from..to] == Raw(t)[s.base..to];
  }

  lemma BatchIsStretch(t: Traffic, batches: seq<seq<Byte>>, n: nat)
    requires Sendable(t) && Delivers(t, batches) && n < |batches|
    ensures Total(batches, n) <= Total(batches, n + 1) <= |Raw(t)|
    ensures batches[n] == Raw(t)[Total(batches, n)..Total(batches, n + 1)]
  {
    hide Raw, Sendable;
    TotalGrows(batches, n, n + 1);
    TotalGrows(batches, n + 1, |batches|);
    JoinedSplits(batches, n + 1, |batches|);
    var done, raw := Joined(batches, n), Joined(batches, |batches|);
    assert Joined(batches, n + 1) == done + batches[n];
    assert raw[|done|..|done| + |batches[n]|] == batches[n];
  }

  /** One smooth batch keeps the receiver on track. */
  lemma OneBatch(t: Traffic, batches: seq<seq<Byte>>, n: nat, rx: Rx)
    requires Sendable(t) && Delivers(t, batches) && n < |batches| && Smooth(t, batches, n)
    requires ValidRx(rx) && Ahead(t, StandAt(t, batches, n).base, Total(batches, n), StandAt(t, batches, n).next)
    requires rx == OnTrack(t, StandAt(t, batches, n), Total(batches, n))
    ensures var s, to := StandAt(t, batches, n + 1), Total(batches, n + 1);
      Ahead(t, s.base, to, s.next) && OnBatch(rx, batches[n]) == OnTrack(t, s, to)
  {
    hide Line, Raw, Encoding, StartOf, EndOf, Joined, Sendable, Drained, Clear, ClearBehind, NotCut, FeedUpTo, ValidRx,
         ViewAt, Drain, Ahead, Total, Delivers;
    var s, from, to := StandAt(t, batches, n), Total(batches, n), Total(batches, n + 1);
    StandIsAhead(t, batches, n);
    BatchIsStretch(t, batches, n);
    FeedOnTrack(t, s, from, to, batches[n]);
    FeedUpToIsValid(rx, batches[n], |batches[n]|);
    DrainHandsOver(t, s.base, to, s.next, rx.(view := FeedUpTo(rx.view, batches[n], |batches[n]|)));
    TakeSplit(t.payloads, s.next, StandAt(t, batches, n + 1).next);
  }

  /** After every batch of a smooth run the frames that are complete have been handed over. */
  lemma {:induction false} RunsOnTrack(t: Traffic, batches: seq<seq<Byte>>, n: nat)
    requires Sendable(t) && Delivers(t, batches) && n <= |batches|
    requires forall m | 0 <= m < n :: Smooth(t, batches, m)
    ensures var s, to := StandAt(t, batches, n), Total(batches, n);
      Ahead(t, s.base, to, s.next) && ReceiveUpTo(batches, n) == OnTrack(t, s, to)
  {
    hide Line, Raw, Encoding, Joined, Sendable, Smooth, Ahead, OnTrack, OnBatch, StandAt;
    if n == 0 {
      StartsOnTrack(t, batches);
    } else {
      RunsOnTrack(t, batches, n - 1);
      OneBatch(t, batches, n - 1, ReceiveUpTo(batches, n - 1));
    }
  }

  lemma StartsOnTrack(t: Traffic, batches: seq<seq<Byte>>)
    requires Sendable(t)
    ensures StandAt(t, batches, 0) == Stand(0, 0) && Total(batches, 0) == 0 && Ahead(t, 0, 0, 0)
    ensures IDLE == OnTrack(t, Stand(0, 0), 0)
  {
    hide Line, Raw, LineUpTo;
    NothingSent(t);
    assert Raw(t)[0..0] == [] && t.payloads[..0] == [];
  }

  /** When the whole line has arrived no frame is still to come. */
  lemma NothingLeft(t: Traffic, batches: seq<seq<Byte>>)
    requires Sendable(t) && Delivers(t, batches)
    ensures StandAt(t, batches, |batches|).next == |t.payloads|
  {
    hide LineUpTo, Line, Encoding, Raw, Drained, Sendable, Ahead, Complete, StartOf, EndOf, Joined;
    var n := |batches|;
    assert Total(batches, n) == |Raw(t)|;
    if n > 0 {
      var before := StandAt(t, batches, n - 1);
      StandIsAhead(t, batches, n - 1);
      DrainedIsAhead(t, before.base, Total(batches, n), before.next);
    } else {
      NothingYet(t);
    }
    if StandAt(t, batches, n).next < |t.payloads| {
      AllIsComplete(t, StandAt(t, batches, n).next);
    }
  }

  lemma AllIsComplete(t: Traffic, j: nat)
    requires Sendable(t) && j < |t.payloads|
    ensures Complete(t, |Raw(t)|, j)
  {
    hide LineUpTo, Line, Encoding;
    EndFits(t, j + 1);
  }

  lemma NothingYet(t: Traffic)
    requires Sendable(t)
    ensures AtFront(t, Stand(0, 0), 0) && !Complete(t, 0, 0)
  {
    hide Line, Encoding;
    if |t.payloads| > 0 {
      EndOfNext(t, 0);
      OpeningFlag(t, 0);
    }
  }

  /** Recovery from batches: for every list of payloads whose encodings fit a frame, every number of
      zero bits before, between and after the frames, and every split of the raw bytes into batches
      that fit and leave the hunts unmisled, the receiver hands over exactly that list of payloads,
      in order, and rejects nothing. */
  lemma BatchesArrive(t: Traffic, batches: seq<seq<Byte>>)
    requires Sendable(t) && Delivers(t, batches)
    requires forall m | 0 <= m < |batches| :: Smooth(t, batches, m)
    ensures var rx := ReceiveUpTo(batches, |batches|);
      rx.delivered == t.payloads && rx.failures == 0
  {
    hide Line, Raw, Encoding, ReceiveUpTo, Smooth, Sendable, StandAt, Ahead, ViewAt, Delivers, ValidRx;
    RunsOnTrack(t, batches, |batches|);
    NothingLeft(t, batches);
    assert t.payloads[..|t.payloads|] == t.payloads;
  }

  // ---- byte by byte -------------------------------------------------------------------

  /** Every byte a batch of its own. */
  function Singles(raw: seq<Byte>): (batches: seq<seq<Byte>>)
    ensures |batches| == |raw|
  {
    seq(|raw|, i requires 0 <= i < |raw| => [raw[i]])
  }

  lemma {:induction false} SinglesJoin(raw: seq<Byte>, n: nat)
    requires n <= |raw|
    ensures Total(Singles(raw), n) == n && Joined(Singles(raw), n) == raw[..n]
  {
    if n > 0 {
      SinglesJoin(raw, n - 1);
      PrefixSnoc(raw, n - 1);
    }
  }

  /** Byte by byte, a lock is taken with the opening flag at the front of the buffer. */
  predicate AtFront(t: Traffic, s: Stand, to: nat)
    requires Sendable(t) && s.next <= |t.payloads|
  {
    to <= s.base + 1 || s.base == First(t, s.next)
  }

  lemma DrainedAtFront(t: Traffic, s: Stand, to: nat)
    requires Sendable(t) && s.next <= |t.payloads| && s.base <= to && Ahead(t, s.base, to, s.next)
    requires to <= s.base + 2 || s.base == First(t, s.next)
    requires to > 0 ==> !Complete(t, to - 1, s.next)
    ensures AtFront(t, Drained(t, s.base, to, s.next), to)
  {
    hide Line, Encoding, LineUpTo, Raw;
    if Complete(t, to, s.next) {
      CompleteIsSeen(t, s.base, to, s.next);
      NextIsAhead(t, s.base, to, s.next);
      NextIsEmpty(t, s.base, to, s.next);
    }
  }

  /** Right behind the last byte of a frame the next is not there yet. */
  lemma NextIsEmpty(t: Traffic, base: nat, to: nat, j: nat)
    requires Sendable(t) && j < |t.payloads| && to > 0 && to <= |Raw(t)|
    requires Complete(t, to, j) && !Complete(t, to - 1, j)
    ensures to <= Resume(t, j + 1) + 1 && !Complete(t, to, j + 1)
  {
    hide Line, Encoding, LineUpTo, Raw;
    if j + 1 < |t.payloads| {
      EndOfNext(t, j + 1);
      OpeningFlag(t, j + 1);
    }
  }

  /** Behind a frame completed by the last byte every window is too short for the search. */
  lemma ClearBehindByte(t: Traffic, to: nat, j: nat)
    requires Sendable(t) && j <= |t.payloads| && 0 < to <= |Raw(t)| && !Complete(t, to - 1, j)
    ensures ClearBehind(t, to, j)
  {
    hide Line, Encoding, LineUpTo, Raw, First, Sendable, StartOf, EndOf, Clear;
    forall i | j < i <= |t.payloads| && EndOf(t, i) <= 8 * to
      ensures ClearAfter(t, to, i)
    {
      EndGrows(t, j + 1, i);
      ResumeBeforeFirst(t, i);
      ShortIsClear(t, Resume(t, i), to, i);
    }
  }

  lemma ShortIsClear(t: Traffic, base: nat, to: nat, j: nat)
    requires Sendable(t) && Ahead(t, base, to, j) && to - base < MIN_FRAME
    ensures Clear(t, base, to, j)
  {
    WindowSize(t, base, to);
    hide Window, SizeAt;
  }

  /** One more byte leaves every window too short for the search, and fits. */
  lemma ByteIsSmooth(t: Traffic, s: Stand, n: nat)
    requires Sendable(t) && s.next <= |t.payloads| && n < |Raw(t)|
    requires Ahead(t, s.base, n, s.next) && Ahead(t, s.base, n + 1, s.next)
    requires AtFront(t, s, n) && !Complete(t, n, s.next)
    ensures n + 1 - s.base <= MAX_BUFFER && NotCut(t, n + 1, s.next)
    ensures Seen(t, n, s.next) || Clear(t, s.base, n + 1, s.next)
    ensures n + 1 <= s.base + 2 || s.base == First(t, s.next)
  {
    hide Line, Encoding, LineUpTo, Raw, Clear, StartOf;
    if Complete(t, n + 1, s.next) {
      NextIsEmpty(t, s.base, n + 1, s.next);
    }
    if Seen(t, n, s.next) {
      SeenIsFrame(t, n, s.next);
      CompleteIsSeen(t, s.base, n, s.next);
      SpareRawByte(n - s.base, Bit(t, s.next));
    } else {
      ShortIsClear(t, s.base, n + 1, s.next);
    }
  }

  lemma {:induction false} BytesAreSmooth(t: Traffic, n: nat)
    requires Sendable(t) && n <= |Raw(t)|
    ensures var batches := Singles(Raw(t));
      && Delivers(t, batches)
      && AtFront(t, StandAt(t, batches, n), n) && !Complete(t, n, StandAt(t, batches, n).next)
      && (n < |Raw(t)| ==> Smooth(t, batches, n))
  {
    hide Line, Encoding, LineUpTo, Raw, Clear, StartOf, EndOf, Resume, Drained, Sendable, Complete, Ahead, AtFront,
         NotCut, ClearBehind, Seen, Singles;
    var batches := Singles(Raw(t));
    SinglesJoin(Raw(t), |Raw(t)|);
    assert Raw(t)[..|Raw(t)|] == Raw(t);
    SinglesJoin(Raw(t), n);
    StandIsAhead(t, batches, n);
    var s := StandAt(t, batches, n);
    if n == 0 {
      NothingYet(t);
    } else {
      BytesAreSmooth(t, n - 1);
      SinglesJoin(Raw(t), n - 1);
      var before := StandAt(t, batches, n - 1);
      StandIsAhead(t, batches, n - 1);
      ByteIsSmooth(t, before, n - 1);
      DrainedAtFront(t, before, n);
      DrainedIsAhead(t, before.base, n, before.next);
    }
    if n < |Raw(t)| {
      SinglesJoin(Raw(t), n + 1);
      ByteIsSmooth(t, s, n);
      ClearBehindByte(t, n + 1, s.next);
    }
  }

  /** End-to-end recovery: for every list of payloads whose encodings fit a frame, and every number
      of zero bits before, between and after the frames, a receiver that drains after every byte
      hands over exactly that list of payloads, in order, and rejects nothing. */
  lemma EverythingArrives(t: Traffic)
    requires Sendable(t)
    ensures var rx := ReceiveUpTo(Singles(Raw(t)), |Raw(t)|);
      rx.delivered == t.payloads && rx.failures == 0
  {
    hide Line, Raw, Encoding, ReceiveUpTo, Smooth, StandAt, Singles, Complete, AtFront;
    forall n | 0 <= n < |Raw(t)|
      ensures Delivers(t, Singles(Raw(t))) && Smooth(t, Singles(Raw(t)), n)
    {
      BytesAreSmooth(t, n);
    }
    BytesAreSmooth(t, 0);
    BatchesArrive(t, Singles(Raw(t)));
  }

  /** The loop itself, fed the batches one by one, sends exactly the payloads on to UDP. */
  method ReceiveTraffic(batches: seq<seq<Byte>>, ghost t: Traffic) returns (sent: seq<seq<Byte>>)
    requires Sendable(t) && Delivers(t, batches)
    requires forall m | 0 <= m < |batches| :: Smooth(t, batches, m)
    ensures sent == t.payloads
  {
    hide Raw, OnBatch, Line, ValidRx, Slice, Smooth, Delivers, Sendable;
    var loop := new EventLoop();
    var i := 0;
    while i < |batches|
      invariant 0 <= i <= |batches|
      invariant fresh(loop) && fresh(loop.accumulator) && fresh(loop.accumulator.buffer)
      invariant fresh(loop.reconstructed) && fresh(loop.reconstructed.payload) && fresh(loop.txPayload)
      invariant loop.Valid() && loop.Model() == ReceiveUpTo(batches, i)
    {
      loop.Receive(batches[i]);
      i := i + 1;
    }
    BatchesArrive(t, batches);
    return loop.udpSent;
  }
}
