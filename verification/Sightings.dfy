/** Exactly when batches are recovered: the receiver reports the frames that were sent, each at its
    own place and nothing else, if and only if every window it hunts in is clear. */
module Sightings {
  import opened Words
  import opened Codec
  import opened Sync
  import opened SyncLaws
  import opened Wire
  import opened Receiver
  import opened Batches
  import opened EndToEnd

  /** A reported candidate, its place counted in raw bytes from the first received. */
  datatype Sighting = Sighting(place: Lock, frame: seq<Byte>)

  lemma ReportShrinks(rx: Rx)
    requires ValidRx(rx)
    ensures var o := Poll(rx.view, FRAME_CAPACITY);
      o.Ready? ==>
        && ValidRx(Judge(rx, o.view, o.frame))
        && |Judge(rx, o.view, o.frame).view.buf| < |rx.view.buf| && |o.view.buf| <= |rx.view.buf|
  {
    hide Judge, Poll, Sound;
    var o := Poll(rx.view, FRAME_CAPACITY);
    if o.Ready? {
      JudgeShrinks(rx, o);
      PollIsSound(rx.view, FRAME_CAPACITY);
      ReportIsNotEmpty(rx.view, o);
    }
  }

  /** What a drain reports, whatever becomes of it, when `to` raw bytes have been received. */
  function Reports(rx: Rx, to: nat): seq<Sighting>
    requires ValidRx(rx) && |rx.view.buf| <= to
    decreases |rx.view.buf|
  {
    hide Judge, Poll;
    ReportShrinks(rx);
    var o := Poll(rx.view, FRAME_CAPACITY);
    if o.Ready? then
      [Sighting(Lock(to - |o.view.buf| + o.lock.start, o.lock.phase), o.frame)] + Reports(Judge(rx, o.view, o.frame), to)
    else []
  }

  /** The frames that were sent, each at its place. */
  function Sent(t: Traffic): (s: seq<Sighting>)
    requires Sendable(t)
    ensures |s| == |t.payloads|
  {
    seq(|t.payloads|, j requires 0 <= j < |t.payloads| => SentAt(t, j))
  }

  function SentAt(t: Traffic, j: nat): Sighting
    requires Sendable(t) && j < |t.payloads|
  {
    Sighting(Lock(First(t, j), RightPhase(Bit(t, j))), Encoding(t.payloads[j], true))
  }

  // ---- one drain ----------------------------------------------------------------------

  lemma ReportsNext(rx: Rx, to: nat)
    requires ValidRx(rx) && |rx.view.buf| <= to
    ensures var o := Poll(rx.view, FRAME_CAPACITY);
      if o.Ready? then
        && |o.view.buf| <= to && ValidRx(Judge(rx, o.view, o.frame)) && |Judge(rx, o.view, o.frame).view.buf| <= to
        && Reports(rx, to)
           == [Sighting(Lock(to - |o.view.buf| + o.lock.start, o.lock.phase), o.frame)]
              + Reports(Judge(rx, o.view, o.frame), to)
      else Reports(rx, to) == []
  {
    hide Judge, Poll;
    ReportShrinks(rx);
  }

  /** A complete frame is reported at its place. */
  lemma FrameIsReported(t: Traffic, base: nat, to: nat, j: nat, rx: Rx) returns (next: Rx)
    requires Sendable(t) && j < |t.payloads| && to <= |Raw(t)| && Ahead(t, base, to, j) && ValidRx(rx) && rx.streak == 0
    requires Poised(t, base, to, j, rx.view) && NotCut(t, to, j) && Complete(t, to, j)
    ensures Ahead(t, Resume(t, j + 1), to, j + 1) && Resume(t, j + 1) <= to
    ensures ValidRx(next) && next.streak == 0
    ensures next.view == View(Window(t, Resume(t, j + 1), to), 0, None, None)
    ensures |rx.view.buf| <= to && |next.view.buf| <= to
    ensures Reports(rx, to) == [SentAt(t, j)] + Reports(next, to)
  {
    hide Line, Raw, Encoding, StartOf, EndOf, Poll, Clear, ValidRx, Complete, Sendable, First, Resume, Size, Reports, NotCut,
         Drain, Judge;
    next := FrameHandedOver(t, base, to, j, rx);
    WindowSize(t, base, to);
    WindowSize(t, Resume(t, j + 1), to);
    ReportsNext(rx, to);
  }

  /** A hunt that is not clear reports something else than the next frame. */
  lemma MisledReport(t: Traffic, base: nat, to: nat, j: nat, v: View)
    requires Sendable(t) && j <= |t.payloads| && Ahead(t, base, to, j) && !Clear(t, base, to, j)
    requires v.buf == Window(t, base, to) && v.processed == 0 && v.lock.None?
    ensures var o := Poll(v, FRAME_CAPACITY);
      && o.Ready? && |o.view.buf| == to - base
      && (j < |t.payloads| ==> Lock(base + o.lock.start, o.lock.phase) != Lock(First(t, j), RightPhase(Bit(t, j))))
  {
    hide Line, Raw, Encoding, StartOf, EndOf, Poll, Sendable, Window, SizeAt, FirstOpening, AtRank, Resume;
    var w := v.buf;
    WindowSize(t, base, to);
    HuntIsRightIffClear(t, base, to, j);
    FastSearchFinds(t, base, to, j);
    assert FirstRank(v) == 0;
    ShortPollReportsBest(v, FRAME_CAPACITY);
    ShortPollKeeps(v);
  }

  lemma FirstOfSent(t: Traffic, j: nat)
    requires Sendable(t) && j <= |t.payloads|
    ensures if j < |t.payloads| then Sent(t)[j..] == [SentAt(t, j)] + Sent(t)[j + 1..] else Sent(t)[j..] == []
  {
    hide SentAt;
  }

  lemma ConsPrefix<T>(x: T, r: seq<T>, s: seq<T>)
    ensures [x] + r <= [x] + s <==> r <= s
  {
    assert ([x] + r)[1..] == r && ([x] + s)[1..] == s;
  }

  lemma ClearBehindNext(t: Traffic, to: nat, j: nat)
    requires Sendable(t) && j < |t.payloads| && to <= |Raw(t)| && Complete(t, to, j)
    requires Ahead(t, Resume(t, j + 1), to, j + 1)
    ensures ClearBehind(t, to, j) <==> Clear(t, Resume(t, j + 1), to, j + 1) && ClearBehind(t, to, j + 1)
  {
    hide Line, Raw, Encoding, StartOf, EndOf, Clear, Ahead, Sendable, First, Size;
    if ClearBehind(t, to, j) {
      assert ClearAfter(t, to, j + 1);
    }
  }

  /** Without a complete frame there is nothing behind it. */
  lemma NothingComplete(t: Traffic, to: nat, j: nat)
    requires Sendable(t) && j <= |t.payloads| && to <= |Raw(t)| && !Complete(t, to, j)
    ensures ClearBehind(t, to, j)
  {
    hide Line, Raw, Encoding, StartOf, LineUpTo, Clear;
    forall i | j < i <= |t.payloads|
      ensures EndOf(t, i) > 8 * to
    {
      EndGrows(t, j + 1, i);
    }
  }

  lemma DrainedNext(t: Traffic, base: nat, to: nat, j: nat)
    requires Sendable(t) && j <= |t.payloads| && base <= to <= |Raw(t)| && Ahead(t, base, to, j)
    ensures Complete(t, to, j) ==>
              j < |t.payloads| && Resume(t, j + 1) <= to && Drained(t, base, to, j) == Drained(t, Resume(t, j + 1), to, j + 1)
    ensures !Complete(t, to, j) ==> Drained(t, base, to, j).next == j
  {
    hide Line, Raw, Encoding, StartOf, LineUpTo, EndOf, Sendable;
    if Complete(t, to, j) {
      NextIsAhead(t, base, to, j);
    }
  }

  /** If what a drain reports are the frames sent, all its hunts were clear; and the other way
      round. */
  lemma {:induction false} ReportsAreSentIffClear(t: Traffic, base: nat, to: nat, j: nat, rx: Rx)
    requires Sendable(t) && j <= |t.payloads| && base <= to <= |Raw(t)| && Ahead(t, base, to, j)
    requires ValidRx(rx) && rx.streak == 0 && |rx.view.buf| <= to && NotCut(t, to, j)
    requires rx.view.buf == Window(t, base, to) && rx.view.candidate.None?
    requires if rx.view.lock.Some? then Seen(t, to, j) && rx.view.lock.value == Place(t, base, j) else rx.view.processed == 0
    ensures Reports(rx, to) <= Sent(t)[j..]
            <==> (rx.view.lock.Some? || Clear(t, base, to, j)) && ClearBehind(t, to, j)
    ensures Reports(rx, to) <= Sent(t)[j..] ==> Reports(rx, to) == Sent(t)[j..Drained(t, base, to, j).next]
    decreases |t.payloads| - j
  {
    hide Line, Raw, Encoding, StartOf, EndOf, Poll, ValidRx, Sendable, First, Resume, Size, Reports, NotCut, Judge, Clear,
         Window, ClearBehind, Ahead, Sent, Seen;
    ReportsNext(rx, to);
    if rx.view.lock.None? && !Clear(t, base, to, j) {
      MisledReport(t, base, to, j, rx.view);
      FirstOfSent(t, j);
      assert j < |t.payloads| ==> Reports(rx, to)[0].place != SentAt(t, j).place;
      assert Sent(t)[j..] != [] ==> Sent(t)[j..][0] == SentAt(t, j);
    } else if j < |t.payloads| && Complete(t, to, j) {
      var next := FrameIsReported(t, base, to, j, rx);
      LaterIsNotCut(t, to, j);
      ReportsAreSentIffClear(t, Resume(t, j + 1), to, j + 1, next);
      FirstOfSent(t, j);
      ClearBehindNext(t, to, j);
      DrainedNext(t, base, to, j);
      ConsPrefix(SentAt(t, j), Reports(next, to), Sent(t)[j + 1..]);
    } else {
      NothingComplete(t, to, j);
      DrainedNext(t, base, to, j);
      if Seen(t, to, j) {
        PollOnFrame(t, base, to, j, rx.view);
      } else {
        PollBefore(t, base, to, j, rx.view);
      }
      assert Sent(t)[j..j] == [];
    }
  }

  // ---- whole runs ---------------------------------------------------------------------

  /** No more is buffered than has been received. */
  lemma {:induction false} DrainShrinks(rx: Rx)
    requires ValidRx(rx)
    ensures |Drain(rx).view.buf| <= |rx.view.buf|
    decreases |rx.view.buf|
  {
    hide Judge, Poll, Sound;
    var o := Poll(rx.view, FRAME_CAPACITY);
    PollIsSound(rx.view, FRAME_CAPACITY);
    PollShrinks(rx.view, o);
    DrainNext(rx);
    if o.Ready? {
      JudgeShrinks(rx, o);
      DrainShrinks(Judge(rx, o.view, o.frame));
    }
  }

  lemma PollShrinks(v: View, o: Outcome)
    requires Sound(v, FRAME_CAPACITY, o)
    ensures |o.view.buf| <= |v.buf|
  {
  }

  lemma {:induction false} FeedGrows(v: View, bytes: seq<Byte>, n: nat)
    requires n <= |bytes|
    ensures |FeedUpTo(v, bytes, n).buf| <= |v.buf| + n
  {
    if n > 0 {
      FeedGrows(v, bytes, n - 1);
    }
  }

  lemma {:induction false} BufferedIsReceived(batches: seq<seq<Byte>>, n: nat)
    requires n <= |batches|
    ensures |ReceiveUpTo(batches, n).view.buf| <= Total(batches, n)
    ensures n < |batches| ==> ValidRx(Fed(batches, n)) && |Fed(batches, n).view.buf| <= Total(batches, n + 1)
  {
    hide Drain, FeedUpTo, ValidView;
    if n > 0 {
      BufferedIsReceived(batches, n - 1);
      DrainShrinks(Fed(batches, n - 1));
    }
    if n < |batches| {
      FeedUpToIsValid(ReceiveUpTo(batches, n), batches[n], |batches[n]|);
      FeedGrows(ReceiveUpTo(batches, n).view, batches[n], |batches[n]|);
    }
  }

  /** The receiver with batch `n` in the accumulator, before it drains. */
  function Fed(batches: seq<seq<Byte>>, n: nat): Rx
    requires n < |batches|
  {
    var rx := ReceiveUpTo(batches, n);
    rx.(view := FeedUpTo(rx.view, batches[n], |batches[n]|))
  }

  /** What is reported with the first `n` batches. */
  function ReportsUpTo(batches: seq<seq<Byte>>, n: nat): seq<Sighting>
    requires n <= |batches|
  {
    hide *;
    if n == 0 then []
    else
      BufferedIsReceived(batches, n - 1);
      ReportsUpTo(batches, n - 1) + Reports(Fed(batches, n - 1), Total(batches, n))
  }

  lemma SplitPrefix<T>(a: seq<T>, b: seq<T>, s: seq<T>)
    ensures a + b <= s <==> a <= s && b <= s[|a|..]
  {
  }

  /** With the receiver on track so far, batch `n` is reported right exactly if it is unmisled. */
  lemma BatchReports(t: Traffic, batches: seq<seq<Byte>>, n: nat)
    requires Sendable(t) && Delivers(t, batches) && n < |batches| && Fits(t, batches, n)
    requires forall m | 0 <= m < n :: Smooth(t, batches, m)
    ensures ValidRx(Fed(batches, n)) && |Fed(batches, n).view.buf| <= Total(batches, n + 1)
    ensures var s, r := StandAt(t, batches, n), Reports(Fed(batches, n), Total(batches, n + 1));
      && (r <= Sent(t)[s.next..] <==> Unmisled(t, batches, n))
      && (r <= Sent(t)[s.next..] ==> r == Sent(t)[s.next..StandAt(t, batches, n + 1).next])
  {
    hide Line, Raw, Encoding, StartOf, EndOf, Joined, Sendable, Drained, Clear, ClearBehind, NotCut, FeedUpTo, ValidRx, ReceiveUpTo,
         Ahead, Total, Delivers, Smooth, Reports, Sent;
    var s, from, to := StandAt(t, batches, n), Total(batches, n), Total(batches, n + 1);
    BufferedIsReceived(batches, n);
    RunsOnTrack(t, batches, n);
    StandIsAhead(t, batches, n);
    BatchIsStretch(t, batches, n);
    FeedOnTrack(t, s, from, to, batches[n]);
    ReportsAreSentIffClear(t, s.base, to, s.next, Fed(batches, n));
  }

  lemma StandMovesOn(t: Traffic, batches: seq<seq<Byte>>, n: nat)
    requires Sendable(t) && n < |batches|
    ensures StandAt(t, batches, n).next <= StandAt(t, batches, n + 1).next
  {
    hide Drained, Sendable;
    TotalGrows(batches, n, n + 1);
  }

  /** What batch `n` adds to the reports, when everything before was right. */
  lemma ReportsGoOn(t: Traffic, batches: seq<seq<Byte>>, n: nat)
    requires Sendable(t) && Delivers(t, batches) && n < |batches|
    requires (forall m | 0 <= m <= n :: Fits(t, batches, m)) && (forall m | 0 <= m < n :: Unmisled(t, batches, m))
    requires ReportsUpTo(batches, n) == Sent(t)[..StandAt(t, batches, n).next]
    ensures ReportsUpTo(batches, n + 1) <= Sent(t) <==> Unmisled(t, batches, n)
    ensures ReportsUpTo(batches, n + 1) <= Sent(t) ==>
              ReportsUpTo(batches, n + 1) == Sent(t)[..StandAt(t, batches, n + 1).next]
  {
    hide Line, Raw, Encoding, Joined, Sendable, Reports, Sent, Fed, StandAt, Unmisled, Fits, Delivers, ValidRx, Total, Ahead,
         OnTrack;
    BufferedIsReceived(batches, n);
    BatchReports(t, batches, n);
    SplitPrefix(ReportsUpTo(batches, n), Reports(Fed(batches, n), Total(batches, n + 1)), Sent(t));
    StandMovesOn(t, batches, n);
    TakeSplit(Sent(t), StandAt(t, batches, n).next, StandAt(t, batches, n + 1).next);
  }

  lemma ReportsGrow(batches: seq<seq<Byte>>, n: nat)
    requires n < |batches|
    ensures ReportsUpTo(batches, n) <= ReportsUpTo(batches, n + 1)
  {
    hide Reports, Fed;
    BufferedIsReceived(batches, n);
  }

  lemma NothingReported(t: Traffic, batches: seq<seq<Byte>>)
    requires Sendable(t)
    ensures ReportsUpTo(batches, 0) == [] == Sent(t)[..StandAt(t, batches, 0).next]
  {
    hide Sendable, Sent;
  }

  lemma {:induction false} RunReports(t: Traffic, batches: seq<seq<Byte>>, n: nat)
    requires Sendable(t) && Delivers(t, batches) && n <= |batches|
    requires forall m | 0 <= m < n :: Fits(t, batches, m)
    ensures ReportsUpTo(batches, n) <= Sent(t) <==> forall m | 0 <= m < n :: Unmisled(t, batches, m)
    ensures ReportsUpTo(batches, n) <= Sent(t) ==> ReportsUpTo(batches, n) == Sent(t)[..StandAt(t, batches, n).next]
  {
    hide Line, Raw, Encoding, Joined, Sendable, Sent, ReportsUpTo, StandAt, Unmisled, Fits, Delivers;
    if n == 0 {
      NothingReported(t, batches);
    } else {
      RunReports(t, batches, n - 1);
      ReportsGrow(batches, n - 1);
      if forall m | 0 <= m < n - 1 :: Unmisled(t, batches, m) {
        ReportsGoOn(t, batches, n - 1);
      }
    }
  }

  /** The exact condition: with batches that fit, the reports of the whole run are the frames that
      were sent, each at its own place and none besides, if and only if no hunt is misled. */
  lemma ReportsAreTheFramesIffUnmisled(t: Traffic, batches: seq<seq<Byte>>)
    requires Sendable(t) && Delivers(t, batches)
    requires forall m | 0 <= m < |batches| :: Fits(t, batches, m)
    ensures ReportsUpTo(batches, |batches|) == Sent(t) <==> forall m | 0 <= m < |batches| :: Unmisled(t, batches, m)
  {
    hide Line, Raw, Encoding, Sendable, ReportsUpTo, Sent, StandAt, Unmisled, Fits, Delivers;
    RunReports(t, batches, |batches|);
    NothingLeft(t, batches);
  }
}
