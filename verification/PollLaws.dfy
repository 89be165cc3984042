/** What every poll guarantees whatever the caller's frame holds, and exactly when the reported frame
    is the aligned slice of the raw bytes. */
module PollLaws {
  import opened Words
  import opened Sync
  import opened SyncLaws
  import opened TrackSteps

  /** A complete span: a flag at both ends and none at indices 2 to size - 2. */
  predicate Spanned(buf: seq<Byte>, l: Lock, size: nat) {
    && ValidPhase(l.phase) && 3 <= size
    && l.start + size <= AlignedCount(|buf|, l.phase.offset)
    && IsFlag(buf, l.start, l.phase) && ClosesAt(buf, l, size - 1)
    && forall j | 2 <= j < size - 1 :: !ClosesAt(buf, l, j)
  }

  /** A report at `l` of a span, resumed from a cursor at which the frame held `held`.  The frame is
      the aligned slice exactly if it held the bytes taken over so far. */
  predicate Reported(buf: seq<Byte>, l: Lock, scan: nat, held: seq<Byte>, size: nat, frame: seq<Byte>) {
    && Spanned(buf, l, size) && l.start < scan <= l.start + size
    && (held == Slice(buf, l, scan - l.start) <==> frame == Slice(buf, l, size))
    && (held == Slice(buf, l, scan - l.start) ==> size <= MAX_FRAME)
  }

  /** The guarantees of one poll from a cursor on. */
  predicate SoundTrack(v: View, l: Lock, scan: nat, held: seq<Byte>, capacity: nat, p: Polled) {
    var o := p.outcome;
    && ValidView(o.view) && IsSuffix(o.view.buf, v.buf)
    && (!o.Ready? ==> o.view.candidate.None?)
    && (o.TooLong? ==> capacity < MAX_FRAME)
    && (o.Ready? ==>
          && o.view.candidate.Some?
          && var span := o.view.candidate.value;
             && o.view == View(o.view.buf, 0, None, Some(Span(o.lock.start, span.end)))
             && if |o.view.buf| < |v.buf|
                then span.end == o.lock.start + |o.frame| && WellReported(o.view.buf, o.lock, o.frame)
                else o.lock == l && span.end > l.start && Reported(v.buf, l, scan, held, span.end - l.start, o.frame))
  }

  lemma ReadyTrack(v: View, l: Lock, scan: nat, held: seq<Byte>, capacity: nat, c: nat)
    requires |v.buf| <= MAX_BUFFER && Tracking(v.buf, l, scan)
    requires CloseFrom(v.buf, l, TestFrom(scan - l.start), scan - l.start + Room(held, capacity)) == Some(c)
    ensures SoundTrack(v, l, scan, held, capacity, TrackWith(v, l, scan, held, capacity))
  {
    hide ClosesAt, IsFlag, Slice, CloseFrom, TrackWith, AlignedCount, WellReported;
    ClosesWith(v, l, scan, held, capacity, c);
    var taken, rest := Slice(v.buf, l, scan - l.start), Slice(v.buf, Lock(scan, l.phase), l.start + c + 1 - scan);
    SliceJoin(v.buf, l, scan - l.start, c + 1);
    SameFront(held, taken, rest);
    assert Spanned(v.buf, l, c + 1);
  }

  lemma SameFront<T>(a: seq<T>, b: seq<T>, rest: seq<T>)
    ensures a + rest == b + rest <==> a == b
  {
    if a + rest == b + rest {
      assert (a + rest)[..|a|] == a && (b + rest)[..|b|] == b;
    }
  }

  lemma OpenTrack(v: View, l: Lock, scan: nat, held: seq<Byte>, capacity: nat)
    requires |v.buf| <= MAX_BUFFER && v.processed <= |v.buf| && Tracking(v.buf, l, scan)
    requires CloseFrom(v.buf, l, TestFrom(scan - l.start), scan - l.start + Room(held, capacity)).None?
    requires capacity < MAX_FRAME || |v.buf| - scan <= Room(held, capacity)
    ensures SoundTrack(v, l, scan, held, capacity, TrackWith(v, l, scan, held, capacity))
  {
    hide ClosesAt, IsFlag, Slice, CloseFrom, TrackWith, AlignedCount, Room;
    SpareRawByte(|v.buf|, l.phase.offset);
    StaysOpenWith(v, l, scan, held, capacity);
  }

  /** A poll that starts in a buffer with nothing taken over. */
  predicate SoundHunt(v: View, capacity: nat, p: Polled) {
    var o := p.outcome;
    && ValidView(o.view) && IsSuffix(o.view.buf, v.buf)
    && (o.Waiting? ==> o.view.candidate.None? || o.view.candidate == v.candidate)
    && (o.TooLong? ==> o.view.candidate.None? && capacity < MAX_FRAME)
    && (o.Ready? ==>
          && WellReported(o.view.buf, o.lock, o.frame)
          && o.view == View(o.view.buf, 0, None, Some(Span(o.lock.start, o.lock.start + |o.frame|))))
  }

  lemma TrackWithIsSound(v: View, l: Lock, scan: nat, held: seq<Byte>, capacity: nat)
    requires |v.buf| <= MAX_BUFFER && v.processed <= |v.buf| && Tracking(v.buf, l, scan)
    ensures SoundTrack(v, l, scan, held, capacity, TrackWith(v, l, scan, held, capacity))
    decreases |v.buf|, 0
  {
    hide ClosesAt, IsFlag, Slice, CloseFrom, TrackWith, AlignedCount, WellReported, PollWith, SoundTrack, Room;
    var c := CloseFrom(v.buf, l, TestFrom(scan - l.start), scan - l.start + Room(held, capacity));
    if c.Some? {
      ReadyTrack(v, l, scan, held, capacity, c.value);
    } else if capacity < MAX_FRAME || |v.buf| - scan <= Room(held, capacity) {
      OpenTrack(v, l, scan, held, capacity);
    } else {
      StaysOpenWith(v, l, scan, held, capacity);
      var rest := View(v.buf[l.start + 1..], 0, None, None);
      HuntWithIsSound(rest, [], capacity);
      SoundAfterGivingUp(v, l, scan, held, capacity, PollWith(rest, [], capacity));
    }
  }

  lemma SoundAfterGivingUp(v: View, l: Lock, scan: nat, held: seq<Byte>, capacity: nat, p: Polled)
    requires l.start < |v.buf| && SoundHunt(View(v.buf[l.start + 1..], 0, None, None), capacity, p)
    ensures SoundTrack(v, l, scan, held, capacity, p)
  {
    hide ValidView, WellReported, Reported;
    SuffixOfSuffix(p.outcome.view.buf, v.buf[l.start + 1..], v.buf);
  }

  lemma HuntWithIsSound(v: View, held: seq<Byte>, capacity: nat)
    requires ValidView(v) && v.lock.None?
    ensures SoundHunt(v, capacity, PollWith(v, held, capacity))
    decreases |v.buf|, 1
  {
    hide Hunt, TrackWith, Slice, IsFlag, ClosesAt, WellReported, SoundTrack;
    if capacity > 0 && v.buf != [] {
      var l := Hunt(v.buf, v.processed);
      if l.Some? {
        OpeningIsTracking(v.buf, l.value);
        TrackWithIsSound(v, l.value, l.value.start + 1, [FLAG], capacity);
        FreshIsSound(v, l.value, capacity, TrackWith(v, l.value, l.value.start + 1, [FLAG], capacity));
      }
    }
  }

  lemma FreshIsSound(v: View, l: Lock, capacity: nat, p: Polled)
    requires Tracking(v.buf, l, l.start + 1) && Slice(v.buf, l, 1) == [FLAG]
    requires SoundTrack(v, l, l.start + 1, [FLAG], capacity, p)
    ensures SoundHunt(v, capacity, p)
  {
    hide ValidView, Tracking, WellReported, Spanned, Slice;
    var o := p.outcome;
    if o.Ready? && |o.view.buf| >= |v.buf| {
      assert o.view.buf == v.buf;
      SpannedIsWellReported(v.buf, l, o.view.candidate.value.end - l.start);
    }
  }

  lemma SpannedIsWellReported(buf: seq<Byte>, l: Lock, size: nat)
    requires Spanned(buf, l, size) && size <= MAX_FRAME
    ensures WellReported(buf, l, Slice(buf, l, size))
  {
    ClosedIsWellReported(buf, l, size - 1);
    hide Slice, ClosesAt, IsFlag;
  }

  /** Two polls that differ only in the first bytes of the frame. */
  ghost predicate Alike(p: Polled, q: Polled, a: seq<Byte>, b: seq<Byte>) {
    && p.outcome.view == q.outcome.view
    && (p == q || exists more: seq<Byte> :: p.frame == a + more && q.frame == b + more)
  }

  lemma FramesAlike(p: Polled, q: Polled, a: seq<Byte>, b: seq<Byte>, more: seq<Byte>)
    requires p.outcome.view == q.outcome.view && p.frame == a + more && q.frame == b + more
    ensures Alike(p, q, a, b)
  {
  }

  lemma RoomByLength(a: seq<Byte>, b: seq<Byte>, capacity: nat)
    requires |a| == |b|
    ensures Room(a, capacity) == Room(b, capacity)
  {
  }

  /** Of what the frame holds only its length counts: with other bytes in it a poll takes the same
      steps and leaves the same bytes behind them. */
  lemma OnlyLengthCounts(v: View, l: Lock, scan: nat, a: seq<Byte>, b: seq<Byte>, capacity: nat)
    requires LockInBounds(v, l, scan) && |a| == |b|
    ensures Alike(TrackWith(v, l, scan, a, capacity), TrackWith(v, l, scan, b, capacity), a, b)
  {
    hide *;
    BoundsOfLock(v, l, scan);
    RoomByLength(a, b, capacity);
    var p, q := TrackWith(v, l, scan, a, capacity), TrackWith(v, l, scan, b, capacity);
    var c := CloseFrom(v.buf, l, TestFrom(scan - l.start), scan - l.start + Room(a, capacity));
    if c.Some? {
      ClosesWith(v, l, scan, a, capacity, c.value);
      ClosesWith(v, l, scan, b, capacity, c.value);
      FramesAlike(p, q, a, b, Slice(v.buf, Lock(scan, l.phase), l.start + c.value + 1 - scan));
    } else {
      StaysOpenWith(v, l, scan, a, capacity);
      StaysOpenWith(v, l, scan, b, capacity);
      if p != q {
        FramesAlike(p, q, a, b, Slice(v.buf, Lock(scan, l.phase), AlignedCount(|v.buf|, l.phase.offset) - scan));
      } else {
        SamePoll(p, a, b);
      }
    }
  }

  lemma SamePoll(p: Polled, a: seq<Byte>, b: seq<Byte>)
    ensures Alike(p, p, a, b)
  {
  }

  lemma BoundsOfLock(v: View, l: Lock, scan: nat)
    requires LockInBounds(v, l, scan)
    ensures l.phase.offset < 8 && l.start < scan <= AlignedCount(|v.buf|, l.phase.offset)
  {
  }
}
