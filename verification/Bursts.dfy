/** Frames that arrive back to back in one batch: when they are all handed over, and the frames
    that are lost because the exhaustive search prefers a longer span. */
module Bursts {
  import opened Words
  import opened Stuffing
  import opened Codec
  import opened Sync
  import opened SyncLaws
  import opened Wire
  import opened Receiver
  import opened Batches

  const ALIGNED := Phase(0, false)

  // ---- no frame is shorter than the encoding of its payload ---------------------------

  /** The stuffed data end in a zero that was inserted after five ones and that needs a byte of its
      own.  The decoder does not miss that zero. */
  predicate Overhangs(payload: seq<Byte>) {
    var x := DataBits(payload, true);
    |Stuff(x)| % 8 == 1 && x[|x| - 1] && OnesRun(x, |x|) == 0
  }

  function Shortest(payload: seq<Byte>): nat {
    |Encoding(payload, true)| - if Overhangs(payload) then 1 else 0
  }

  lemma {:induction false} StuffMore(x: Bits, z: Bits, n: nat)
    requires n <= |z|
    ensures |StuffUpTo(x + z, |x| + n)| >= |Stuff(x)| + n
  {
    if n == 0 {
      StuffLocal(x + z, x, |x|);
    } else {
      StuffMore(x, z, n - 1);
    }
  }

  /** A line that carries the data and possibly more is no shorter than the stuffed data, but for an
      owed zero at the very end. */
  lemma CarriedIsLong(line: Bits, x: Bits, z: Bits)
    requires x != [] && Carried(line, x + z)
    ensures |line| >= |Stuff(x)| - if x[|x| - 1] && OnesRun(x, |x|) == 0 then 1 else 0
  {
    hide Destuff;
    StuffMore(x, z, |z|);
    if z == [] {
      assert x + z == x;
      if line != Stuff(x) {
        OwedZero(line, x);
        DestuffStuff(x);
        DestuffSnoc(line, false);
        assert Stuff(x) == line + [false];
      }
    }
  }

  /** A frame that decodes is no shorter than the shortest for its payload. */
  lemma DecodedIsLong(frame: seq<Byte>, payload: seq<Byte>, capacity: nat)
    requires Decoding(frame, capacity, true) == Payload(payload)
    ensures |frame| >= Shortest(payload)
  {
    hide Decoding, Carried, Stuff, Encoding, DataBits;
    AcceptsExactly(frame, payload, capacity, true);
    var line, x := Inner(frame, true), DataBits(payload, true);
    var z: Bits :| |z| < 8 && Carried(line, x + z);
    CarriedIsLong(line, x, z);
    EncodedSize(payload, true);
    InsertedIs(payload);
  }

  lemma InsertedIs(payload: seq<Byte>)
    ensures |DataBits(payload, true)| == 8 * (|payload| + 2)
    ensures Inserted(payload, true) == |Stuff(DataBits(payload, true))| - 8 * (|payload| + 2)
  {
  }

  // ---- what a drain can hand over at most ---------------------------------------------

  /** Raw bytes that frames for these payloads take at least. */
  function Cost(payloads: seq<seq<Byte>>): nat {
    if payloads == [] then 0 else Shortest(payloads[0]) + Cost(payloads[1..])
  }

  /** An accepted candidate takes at least its own length out of the buffer, a rejected one at
      least a byte. */
  lemma JudgeTakes(rx: Rx)
    requires ValidRx(rx) && Poll(rx.view, FRAME_CAPACITY).Ready?
    ensures var o := Poll(rx.view, FRAME_CAPACITY);
      var d := Decoding(o.frame, PAYLOAD_CAPACITY, true);
      var next := Judge(rx, o.view, o.frame);
      && ValidRx(next) && |next.view.buf| < |rx.view.buf|
      && (d.Payload? ==> next.delivered == rx.delivered + [d.bytes]
                         && |next.view.buf| + o.lock.start + |o.frame| <= |rx.view.buf|)
      && (d.Rejected? ==> next.delivered == rx.delivered)
  {
    hide Poll, Decoding, Consume;
    var o := Poll(rx.view, FRAME_CAPACITY);
    PollIsSound(rx.view, FRAME_CAPACITY);
    JudgeShrinks(rx, o);
    AcceptDropsFrame(rx.view, o);
  }

  lemma AcceptDropsFrame(v: View, o: Outcome)
    requires Sound(v, FRAME_CAPACITY, o) && o.Ready?
    ensures |Consume(o.view, true).buf| + o.lock.start + |o.frame| <= |v.buf|
  {
    hide ValidView, Slice;
  }

  /** Economy: what a drain hands over has cost no more raw bytes than were buffered. */
  lemma {:induction false} DrainIsEconomic(rx: Rx)
    requires ValidRx(rx)
    ensures rx.delivered <= Drain(rx).delivered
    ensures Cost(Drain(rx).delivered[|rx.delivered|..]) <= |rx.view.buf|
    decreases |rx.view.buf|
  {
    hide Poll, Judge, Drain, Decoding, Shortest;
    DrainNext(rx);
    var o := Poll(rx.view, FRAME_CAPACITY);
    if o.Ready? {
      JudgeTakes(rx);
      var next, d := Judge(rx, o.view, o.frame), Decoding(o.frame, PAYLOAD_CAPACITY, true);
      DrainIsEconomic(next);
      if d.Payload? {
        DecodedIsLong(o.frame, d.bytes, PAYLOAD_CAPACITY);
        SuffixCons(rx.delivered, d.bytes, Drain(rx).delivered);
      }
    } else {
      assert rx.delivered[|rx.delivered|..] == [];
    }
  }

  lemma SuffixCons<T>(s: seq<T>, x: T, r: seq<T>)
    requires s + [x] <= r
    ensures s <= r && r[|s|..] == [x] + r[|s| + 1..]
  {
    assert r[..|s| + 1] == s + [x];
    assert r[|s|] == (s + [x])[|s|];
  }

  // ---- bursts -------------------------------------------------------------------------

  /** The frames of some payloads, one right after the other. */
  function Burst(payloads: seq<seq<Byte>>): seq<Byte> {
    if payloads == [] then [] else Encoding(payloads[0], true) + Burst(payloads[1..])
  }

  predicate Encodable(payloads: seq<seq<Byte>>) {
    forall i | 0 <= i < |payloads| :: |Encoding(payloads[i], true)| <= MAX_FRAME
  }

  /** In a window short enough for the exhaustive search no complete span, at any start, phase and
      direction, is longer than the frame at its start. */
  predicate Undisputed(w: seq<Byte>, size: nat) {
    |w| <= SHORT_SEARCH_LIMIT ==> forall r | 0 <= r < 16 * (|w| - 1) :: SizeAt(w, r) <= size
  }

  /** Every frame of the burst is undisputed among the bytes from its start on. */
  predicate UndisputedBurst(payloads: seq<seq<Byte>>) {
    payloads == [] || (Undisputed(Burst(payloads), |Encoding(payloads[0], true)|) && UndisputedBurst(payloads[1..]))
  }

  /** Behind the first frame the buffer is not full enough to be cut. */
  predicate NotFull(payloads: seq<seq<Byte>>) {
    payloads == [] || |Burst(payloads[1..])| < MAX_BUFFER - TAIL_KEPT
  }

  function Frames(payloads: seq<seq<Byte>>): (f: seq<seq<Byte>>)
    ensures |f| == |payloads|
  {
    seq(|payloads|, i requires 0 <= i < |payloads| => Encoding(payloads[i], true))
  }

  lemma {:induction false} FlatFromHead(frames: seq<seq<Byte>>, n: nat)
    requires 0 < n <= |frames|
    ensures Flat(frames, n) == frames[0] + Flat(frames[1..], n - 1)
  {
    if n == 1 {
      assert Flat(frames, 1) == [] + frames[0];
      assert frames[0] + [] == frames[0];
    } else {
      FlatFromHead(frames, n - 1);
      Assoc(frames[0], Flat(frames[1..], n - 2), frames[n - 1]);
    }
  }

  lemma {:induction false} BurstIsFlat(payloads: seq<seq<Byte>>)
    ensures Burst(payloads) == Flat(Frames(payloads), |payloads|)
  {
    hide Encoding;
    if payloads != [] {
      BurstIsFlat(payloads[1..]);
      FlatFromHead(Frames(payloads), |payloads|);
      assert Frames(payloads)[1..] == Frames(payloads[1..]);
    }
  }

  lemma BurstIsSendable(payloads: seq<seq<Byte>>)
    requires Encodable(payloads)
    ensures Sendable(BackToBack(payloads, 0)) && BackToBack(payloads, 0).payloads == payloads
  {
    hide Encoding;
  }

  lemma RawOfLine(t: Traffic, s: Bits)
    requires Sendable(t) && LineUpTo(t, |t.payloads|) + Zeros(t.gaps[|t.payloads|]) == s && |s| % 8 == 0
    ensures Raw(t) == Chop(s, true)
  {
    hide LineUpTo, Chop;
    WholeBytes(s);
  }

  lemma BurstLine(payloads: seq<seq<Byte>>)
    requires Sendable(BackToBack(payloads, 0))
    ensures var t := BackToBack(payloads, 0);
      LineUpTo(t, |payloads|) + Zeros(t.gaps[|payloads|]) == Stream(Burst(payloads), true)
  {
    hide Encoding, LineUpTo, Stream, Burst, Flat, Sendable, BackToBack;
    BackToBackLine(payloads, 0, Frames(payloads), |payloads|);
    BurstIsFlat(payloads);
    assert Zeros(0) + Stream(Burst(payloads), true) == Stream(Burst(payloads), true);
  }

  /** A burst is what arrives from frames without idle bits. */
  lemma BurstIsRaw(payloads: seq<seq<Byte>>)
    requires Encodable(payloads)
    ensures Sendable(BackToBack(payloads, 0)) && Raw(BackToBack(payloads, 0)) == Burst(payloads)
  {
    hide *;
    BurstIsSendable(payloads);
    BurstLine(payloads);
    RawOfLine(BackToBack(payloads, 0), Stream(Burst(payloads), true));
    ChopStream(Burst(payloads), true);
  }

  lemma WholeBytes(s: Bits)
    requires |s| % 8 == 0
    ensures Padded(s) == s
  {
    assert Zeros(0) == [] && s + [] == s;
  }

  /** Where the first frame of a burst lies. */
  lemma FirstOfBurst(payloads: seq<seq<Byte>>)
    requires Encodable(payloads) && payloads != []
    ensures Sendable(BackToBack(payloads, 0))
    ensures var t, n, raw := BackToBack(payloads, 0), |Encoding(payloads[0], true)|, Burst(payloads);
      && 4 <= n <= |raw| && raw[n..] == Burst(payloads[1..])
      && Ahead(t, 0, |raw|, 0) && Complete(t, |raw|, 0) && OwnRank(t, 0, 0) == 0 && OwnSize(t, |raw|, 0) == n
      && Place(t, 0, 0) == Lock(0, ALIGNED) && Resume(t, 1) == n && Window(t, 0, |raw|) == raw
      && Window(t, n, |raw|) == raw[n..]
  {
    hide Encoding, Raw, Line;
    BurstIsRaw(payloads);
    var t := BackToBack(payloads, 0);
    EncodedSize(payloads[0], true);
    NothingBefore(t);
    EndOfNext(t, 0);
    EndFits(t, 1);
  }

  lemma UndisputedIsClear(t: Traffic, raw: seq<Byte>, size: nat)
    requires Sendable(t) && Ahead(t, 0, |raw|, 0) && Window(t, 0, |raw|) == raw && Undisputed(raw, size)
    requires OwnRank(t, 0, 0) == 0 && OwnSize(t, |raw|, 0) == size
    ensures Clear(t, 0, |raw|, 0)
  {
    hide SizeAt, Sendable, Ahead, Window, OwnRank, OwnSize;
  }

  /** An undisputed first frame is handed over, and what follows is the rest of the burst. */
  lemma FirstIsHandedOver(payloads: seq<seq<Byte>>, rx: Rx) returns (next: Rx)
    requires Encodable(payloads) && payloads != [] && NotFull(payloads)
    requires ValidRx(rx) && rx.view == View(Burst(payloads), 0, None, None)
    requires Undisputed(Burst(payloads), |Encoding(payloads[0], true)|)
    ensures next == Rx(View(Burst(payloads[1..]), 0, None, None), 0, rx.delivered + [payloads[0]], rx.failures)
    ensures ValidRx(next) && Drain(rx) == Drain(next)
  {
    FirstOfBurst(payloads);
    BurstIsSendable(payloads);
    hide Encoding, Burst, Sendable, SizeAt, Drain, ValidRx, Raw, Resume, Encodable, Poll, Window, OwnSize, OwnRank,
         Judge, Complete, BackToBack, Clear, Undisputed, First, Size, Line;
    var t, raw := BackToBack(payloads, 0), Burst(payloads);
    UndisputedIsClear(t, raw, |Encoding(payloads[0], true)|);
    next := FrameHandedOver(t, 0, |raw|, 0, rx);
  }

  // ---- when a burst is recovered ------------------------------------------------------

  /** A disputed first frame is passed over for a longer candidate, or for three bytes. */
  lemma DisputedReport(payloads: seq<seq<Byte>>, v: View)
    requires Encodable(payloads) && payloads != [] && v == View(Burst(payloads), 0, None, None)
    requires !Undisputed(Burst(payloads), |Encoding(payloads[0], true)|)
    ensures var o := Poll(v, FRAME_CAPACITY);
      && o.Ready? && (|o.frame| == 3 || |o.frame| > |Encoding(payloads[0], true)|)
      && o.lock != Lock(0, ALIGNED)
  {
    FirstOfBurst(payloads);
    hide Encoding, Burst, Sendable, SizeAt, Poll, Encodable, Raw, Line, Window, Ahead, AtRank;
    var n := |Encoding(payloads[0], true)|;
    BestRankIsBest(v.buf, 0);
    assert FirstRank(v) == 0;
    ShortPollReportsBest(v, FRAME_CAPACITY);
    OwnSpanOfBurst(payloads);
  }

  lemma OwnSpanOfBurst(payloads: seq<seq<Byte>>)
    requires Encodable(payloads) && payloads != []
    ensures SizeAt(Burst(payloads), 0) == |Encoding(payloads[0], true)| && AtRank(0) == Lock(0, ALIGNED)
    ensures forall r | AtRank(r) == Lock(0, ALIGNED) :: r == 0
  {
    FirstOfBurst(payloads);
    hide Encoding, Burst, SizeAt, Encodable, Raw, Line, Window;
    var t, raw := BackToBack(payloads, 0), Burst(payloads);
    CompleteIsSeen(t, 0, |raw|, 0);
    OwnSpan(t, 0, |raw|, 0);
    forall r: nat | AtRank(r) == Lock(0, ALIGNED)
      ensures r == 0
    {
      RankOfPlace(r);
    }
  }

  lemma {:induction false} CostOfBurst(payloads: seq<seq<Byte>>)
    requires forall p | p in payloads :: !Overhangs(p)
    ensures Cost(payloads) == |Burst(payloads)|
  {
    hide Encoding, Overhangs;
    if payloads != [] {
      CostOfBurst(payloads[1..]);
    }
  }

  /** An undisputed burst is handed over whole, and nothing is rejected. */
  lemma {:induction false} UndisputedArrives(payloads: seq<seq<Byte>>, rx: Rx)
    requires Encodable(payloads) && UndisputedBurst(payloads) && NotFull(payloads)
    requires ValidRx(rx) && rx.view == View(Burst(payloads), 0, None, None)
    ensures Drain(rx).delivered == rx.delivered + payloads && Drain(rx).failures == rx.failures
    decreases |payloads|
  {
    hide Encoding, Undisputed, Drain, ValidRx;
    if payloads == [] {
      DrainNothing(rx);
      assert rx.delivered + [] == rx.delivered;
    } else {
      var next := FirstIsHandedOver(payloads, rx);
      UndisputedArrives(payloads[1..], next);
      assert payloads == [payloads[0]] + payloads[1..];
      Assoc(rx.delivered, [payloads[0]], payloads[1..]);
    }
  }

  lemma DrainNothing(rx: Rx)
    requires ValidRx(rx) && rx.view.buf == [] && rx.view.lock.None?
    ensures Drain(rx) == rx
  {
    PollNothing(rx.view);
    DrainNext(rx);
    hide Poll, Drain, Judge;
  }

  /** An undisputed first frame is the one reported, and it decodes. */
  lemma FirstIsReported(payloads: seq<seq<Byte>>, v: View)
    requires Encodable(payloads) && payloads != [] && v == View(Burst(payloads), 0, None, None)
    requires Undisputed(Burst(payloads), |Encoding(payloads[0], true)|)
    ensures var o, n := Poll(v, FRAME_CAPACITY), |Encoding(payloads[0], true)|;
      && o.Ready? && o.view == View(v.buf, 0, None, Some(Span(0, n)))
      && Decoding(o.frame, PAYLOAD_CAPACITY, true) == Payload(payloads[0])
      && n <= |v.buf| && v.buf[n..] == Burst(payloads[1..])
  {
    hide Encoding, Burst, Sendable, SizeAt, Raw, Resume, Encodable, Poll, Window, OwnSize, OwnRank, Undisputed,
         Complete, BackToBack, Clear, First, Line, Decoding, Bit, Seen;
    FirstOfBurst(payloads);
    BurstIsSendable(payloads);
    var t, raw := BackToBack(payloads, 0), Burst(payloads);
    UndisputedIsClear(t, raw, |Encoding(payloads[0], true)|);
    CompleteIsSeen(t, 0, |raw|, 0);
    PollOnFrame(t, 0, |raw|, 0, v);
    DecodesBack(t, 0);
  }

  /** A buffer that is nearly full behind its first frame is cut to its tail. */
  lemma FullIsCut(payloads: seq<seq<Byte>>, rx: Rx) returns (next: Rx)
    requires Encodable(payloads) && !NotFull(payloads)
    requires ValidRx(rx) && rx.view == View(Burst(payloads), 0, None, None)
    ensures ValidRx(next) && Drain(rx) == Drain(next) && |next.view.buf| == TAIL_KEPT
    ensures next.delivered == rx.delivered + [payloads[0]]
  {
    hide Encoding, Burst, Drain, ValidRx, Encodable, Poll, Decoding, SizeAt;
    assert |Burst(payloads)| > SHORT_SEARCH_LIMIT by { FirstOfBurst(payloads); }
    FirstIsReported(payloads, rx.view);
    DrainNext(rx);
    var o := Poll(rx.view, FRAME_CAPACITY);
    next := Judge(rx, o.view, o.frame);
  }

  /** More payloads than the buffered bytes can pay for are not handed over. */
  lemma NotEnough(next: Rx, delivered: seq<seq<Byte>>, payloads: seq<seq<Byte>>)
    requires ValidRx(next) && (forall p | p in payloads :: !Overhangs(p)) && |next.view.buf| < |Burst(payloads)|
    requires |next.delivered| == |delivered|
    ensures Drain(next).delivered != delivered + payloads
  {
    hide Overhangs, Drain, ValidRx, Cost, Burst;
    DrainIsEconomic(next);
    CostOfBurst(payloads);
    assert (delivered + payloads)[|delivered|..] == payloads;
  }

  /** A disputed first frame makes the drain fall short. */
  lemma DisputedIsLost(payloads: seq<seq<Byte>>, rx: Rx)
    requires Encodable(payloads) && payloads != [] && (forall p | p in payloads :: !Overhangs(p))
    requires ValidRx(rx) && rx.view == View(Burst(payloads), 0, None, None)
    requires !Undisputed(Burst(payloads), |Encoding(payloads[0], true)|)
    ensures Drain(rx).delivered != rx.delivered + payloads
  {
    hide Encoding, Undisputed, Drain, Poll, Judge, Decoding, Overhangs;
    DisputedReport(payloads, rx.view);
    JudgeTakes(rx);
    DrainNext(rx);
    var o := Poll(rx.view, FRAME_CAPACITY);
    var d, next := Decoding(o.frame, PAYLOAD_CAPACITY, true), Judge(rx, o.view, o.frame);
    if d.Rejected? {
      NotEnough(next, rx.delivered, payloads);
    } else {
      DecodedIsLong(o.frame, d.bytes, PAYLOAD_CAPACITY);
      EncodedSize(payloads[0], true);
      DrainIsEconomic(next);
      if Drain(rx).delivered == rx.delivered + payloads {
        SamePayload(rx.delivered, d.bytes, payloads, Drain(next).delivered);
        NotEnough(next, next.delivered, payloads[1..]);
      }
    }
  }

  lemma SamePayload<T>(s: seq<T>, x: T, r: seq<T>, all: seq<T>)
    requires s + [x] <= all && all == s + r && r != []
    ensures x == r[0] && all == s + [x] + r[1..]
  {
    assert all[|s|] == (s + [x])[|s|];
    assert r == [r[0]] + r[1..];
  }

  /** Exactly when a burst is recovered.  For frames that fill the buffer back to back, none of them
      for an overhanging payload, one drain hands over all their payloads if and only if each frame
      is undisputed and the buffer behind the first is not full enough to be cut. */
  lemma {:induction false} BurstArrivesIff(payloads: seq<seq<Byte>>, rx: Rx)
    requires Encodable(payloads) && (forall p | p in payloads :: !Overhangs(p))
    requires ValidRx(rx) && rx.view == View(Burst(payloads), 0, None, None)
    ensures Drain(rx).delivered == rx.delivered + payloads <==> UndisputedBurst(payloads) && NotFull(payloads)
    decreases |payloads|
  {
    hide Encoding, Undisputed, Drain, ValidRx, Overhangs;
    if payloads == [] || (UndisputedBurst(payloads) && NotFull(payloads)) {
      UndisputedArrives(payloads, rx);
    } else if !Undisputed(Burst(payloads), |Encoding(payloads[0], true)|) {
      DisputedIsLost(payloads, rx);
    } else {
      assert payloads == [payloads[0]] + payloads[1..];
      Assoc(rx.delivered, [payloads[0]], payloads[1..]);
      if NotFull(payloads) {
        var next := FirstIsHandedOver(payloads, rx);
        BurstArrivesIff(payloads[1..], next);
      } else {
        var next := FullIsCut(payloads, rx);
        NotEnough(next, next.delivered, payloads[1..]);
      }
    }
  }

  // ---- two frames ---------------------------------------------------------------------

  /** Among the bytes of a frame only the first and the last are flags. */
  lemma FlagBytesOfEncoding(payload: seq<Byte>, k: nat)
    requires k < |Encoding(payload, true)|
    ensures var e := Encoding(payload, true); e[k] == FLAG <==> k == 0 || k == |e| - 1
    ensures |Encoding(payload, true)| >= 4
  {
    var e := Encoding(payload, true);
    hide Encoding;
    EncodedSize(payload, true);
    StreamAt(e, true, k);
    FlagsOnlyAtEnds(payload, true, 8 * k);
  }

  /** A flag right in front of a frame opens a span that is one byte longer than the frame. */
  lemma SpanFromClosingFlag(buf: seq<Byte>, at: nat, payload: seq<Byte>)
    requires at + 1 + |Encoding(payload, true)| == |buf| && buf[at] == FLAG && buf[at + 1..] == Encoding(payload, true)
    ensures SpanSize(buf, Lock(at, ALIGNED)) == |Encoding(payload, true)| + 1
  {
    var f, l := Encoding(payload, true), Lock(at, ALIGNED);
    hide Encoding;
    forall k: nat | 2 <= k <= |f|
      ensures ClosesAt(buf, l, k) <==> k == |f|
      ensures |f| >= 4
    {
      FlagBytesOfEncoding(payload, k - 1);
      assert buf[at + k] == buf[at + 1..][k - 1];
    }
    FlagBytesOfEncoding(payload, 0);
    assert IsFlag(buf, at, ALIGNED);
    hide ClosesAt, IsFlag;
    FirstClose(buf, l, MIN_FRAME - 1, |buf|, |f|);
  }

  lemma PairOf(p: seq<Byte>, q: seq<Byte>)
    ensures Burst([p, q]) == Encoding(p, true) + Encoding(q, true) && Burst([q]) == Encoding(q, true)
  {
    hide Encoding;
    assert [p, q][1..] == [q];
    assert Burst([q]) == Encoding(q, true) + Burst([]) == Encoding(q, true);
  }

  /** A frame alone in the window is undisputed: no span is longer than the window. */
  lemma AloneIsUndisputed(w: seq<Byte>)
    ensures Undisputed(w, |w|)
  {
    hide CloseFrom, IsFlag;
  }

  /** Two frames in a short window are both recovered exactly if no span is longer than the first,
      where the way back asks for payloads that do not overhang. */
  lemma PairArrivesIff(p: seq<Byte>, q: seq<Byte>)
    requires |Encoding(p, true)| + |Encoding(q, true)| <= SHORT_SEARCH_LIMIT
    ensures var w, n := Encoding(p, true) + Encoding(q, true), |Encoding(p, true)|;
      var rx := Rx(View(w, 0, None, None), 0, [], 0);
      var longest := forall r | 0 <= r < 16 * (|w| - 1) :: SizeAt(w, r) <= n;
      && ValidRx(rx)
      && (longest ==> Drain(rx).delivered == [p, q] && Drain(rx).failures == 0)
      && (!Overhangs(p) && !Overhangs(q) ==> (Drain(rx).delivered == [p, q] <==> longest))
  {
    hide Encoding, Drain, SizeAt, Overhangs;
    var ps, w := [p, q], Encoding(p, true) + Encoding(q, true);
    var rx := Rx(View(w, 0, None, None), 0, [], 0);
    PairOf(p, q);
    assert ps[1..] == [q] && [q][1..] == [] && [] + ps == ps;
    AloneIsUndisputed(Encoding(q, true));
    assert UndisputedBurst([q]);
    assert |Burst(ps[1..])| == |Encoding(q, true)|;
    if UndisputedBurst(ps) {
      UndisputedArrives(ps, rx);
    }
    if !Overhangs(p) && !Overhangs(q) {
      BurstArrivesIff(ps, rx);
    }
  }

  /** The closing flag of the first frame opens a span one byte longer than the second. */
  lemma PairIsDisputed(p: seq<Byte>, q: seq<Byte>)
    requires |Encoding(p, true)| <= |Encoding(q, true)|
    requires |Encoding(p, true)| + |Encoding(q, true)| <= SHORT_SEARCH_LIMIT
    ensures !Undisputed(Encoding(p, true) + Encoding(q, true), |Encoding(p, true)|)
  {
    var e, f := Encoding(p, true), Encoding(q, true);
    var buf := e + f;
    hide Encoding, SpanSize, AtRank;
    FlagBytesOfEncoding(p, |e| - 1);
    assert buf[|e|..] == f;
    SpanFromClosingFlag(buf, |e| - 1, q);
    PlaceOf(|e| - 1);
    assert SizeAt(buf, 16 * (|e| - 1)) > |e|;
  }

  /** A frame in front of one at least as long, both buffered before the poll, is never the one
      reported, and either verdict on what is reported drops its opening flag. */
  lemma NoLongerFrameIsLost(p: seq<Byte>, q: seq<Byte>)
    requires |Encoding(p, true)| <= |Encoding(q, true)|
    requires |Encoding(p, true)| + |Encoding(q, true)| <= SHORT_SEARCH_LIMIT
    ensures var v := View(Encoding(p, true) + Encoding(q, true), 0, None, None);
      var o := Poll(v, FRAME_CAPACITY);
      && o.Ready? && o.lock != Lock(0, ALIGNED)
      && (forall accept :: IsSuffix(Consume(o.view, accept).buf, v.buf[1..]))
      && ValidRx(Rx(v, 0, [], 0))
      && (!Overhangs(p) && !Overhangs(q) ==> Drain(Rx(v, 0, [], 0)).delivered != [p, q])
  {
    var v := View(Encoding(p, true) + Encoding(q, true), 0, None, None);
    hide Encoding, Overhangs, Drain, Burst, Poll, SizeAt, Slice, ValidLock;
    PairOf(p, q);
    PairIsDisputed(p, q);
    DisputedReport([p, q], v);
    PairArrivesIff(p, q);
    PollIsSound(v, FRAME_CAPACITY);
    var o := Poll(v, FRAME_CAPACITY);
    forall accept
      ensures IsSuffix(Consume(o.view, accept).buf, v.buf[1..])
    {
      ConsumeDropsFirst(o.view, accept);
      SuffixAfterFirst(Consume(o.view, accept).buf, o.view.buf, v.buf);
    }
  }

  lemma PlaceOf(start: nat)
    ensures AtRank(16 * start) == Lock(start, ALIGNED)
  {
  }

  lemma ConsumeDropsFirst(v: View, accept: bool)
    requires v.candidate.Some? && v.candidate.value.end > 0 && v.buf != []
    ensures IsSuffix(Consume(v, accept).buf, v.buf) && |Consume(v, accept).buf| < |v.buf|
  {
  }

  lemma SuffixAfterFirst<T>(r: seq<T>, s: seq<T>, t: seq<T>)
    requires IsSuffix(r, s) && |r| < |s| && IsSuffix(s, t)
    ensures IsSuffix(r, t[1..])
  {
    SuffixOfSuffix(r, s, t);
  }

  /** For instance: an empty datagram in front of any datagram of up to 40 bytes. */
  lemma EmptyDatagramIsLost(q: seq<Byte>)
    requires |q| <= 40
    ensures var v := View(Encoding([], true) + Encoding(q, true), 0, None, None);
      Poll(v, FRAME_CAPACITY).Ready? && Poll(v, FRAME_CAPACITY).lock != Lock(0, ALIGNED)
  {
    hide Encoding, Poll;
    EncodedSize([], true);
    EncodedSize(q, true);
    NoLongerFrameIsLost([], q);
  }
}
