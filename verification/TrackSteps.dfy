/** One step of a locked poll, on values: what the next raw byte decides, whatever the caller's frame
    already holds; and what that amounts to when it holds the bytes taken over so far. */
module TrackSteps {
  import opened Words
  import opened Sync
  import opened SyncLaws

  /** The cursor stands behind the opening flag, and nothing before it has closed the lock. */
  predicate Tracking(buf: seq<Byte>, l: Lock, scan: nat) {
    && ValidPhase(l.phase)
    && IsFlag(buf, l.start, l.phase)
    && l.start < scan <= AlignedCount(|buf|, l.phase.offset)
    && forall j | 2 <= j < scan - l.start :: !ClosesAt(buf, l, j)
  }

  lemma NothingReadable(buf: seq<Byte>, l: Lock, k: nat, limit: nat)
    requires l.phase.offset < 8 && l.start + k >= AlignedCount(|buf|, l.phase.offset)
    ensures CloseFrom(buf, l, k, limit).None?
  {
    assert forall j | k <= j :: !ClosesAt(buf, l, j);
    hide ClosesAt;
    NoClose(buf, l, k, limit);
  }

  /** With a full frame and more raw bytes there, the lock is given up. */
  lemma TrackOversize(v: View, l: Lock, scan: nat, held: seq<Byte>, capacity: nat)
    requires Tracking(v.buf, l, scan) && MAX_FRAME <= |held| <= capacity && scan < |v.buf|
    ensures TrackWith(v, l, scan, held, capacity) == PollWith(View(v.buf[l.start + 1..], 0, None, None), [], capacity)
  {
    hide IsFlag, ClosesAt, Slice, PollWith;
  }

  /** With no further aligned byte, the poll waits. */
  lemma TrackWaits(v: View, l: Lock, scan: nat, held: seq<Byte>, capacity: nat)
    requires Tracking(v.buf, l, scan) && scan >= AlignedCount(|v.buf|, l.phase.offset)
    requires |held| <= capacity && (|held| < MAX_FRAME || scan >= |v.buf|)
    ensures TrackWith(v, l, scan, held, capacity) == Polled(Waiting(View(v.buf, scan, Some(l), None)), held)
    ensures ValidLock(v.buf, scan, l)
  {
    var at := scan - l.start;
    NothingReadable(v.buf, l, TestFrom(at), at + Room(held, capacity));
    hide CloseFrom, IsFlag, ClosesAt, PollWith;
    assert Slice(v.buf, Lock(scan, l.phase), 0) == [] && held + [] == held;
  }

  /** With no room for it, the poll fails. */
  lemma TrackOverflows(v: View, l: Lock, scan: nat, held: seq<Byte>, capacity: nat)
    requires Tracking(v.buf, l, scan) && scan < AlignedCount(|v.buf|, l.phase.offset)
    requires capacity == |held| < MAX_FRAME
    ensures TrackWith(v, l, scan, held, capacity) == Polled(TooLong(View(v.buf, v.processed, None, None)), [])
  {
    hide IsFlag, ClosesAt, Slice, PollWith;
  }

  /** A flag from index 2 on completes the candidate. */
  lemma TrackEnds(v: View, l: Lock, scan: nat, held: seq<Byte>, capacity: nat)
    requires Tracking(v.buf, l, scan) && IsFlag(v.buf, scan, l.phase)
    requires l.start + 2 <= scan && |held| < Min(capacity, MAX_FRAME)
    ensures TrackWith(v, l, scan, held, capacity)
            == Polled(Ready(View(v.buf, 0, None, Some(Span(l.start, scan + 1))), l, held + [FLAG]), held + [FLAG])
  {
    assert ClosesAt(v.buf, l, scan - l.start);
    assert Slice(v.buf, Lock(scan, l.phase), 1) == [FLAG];
    hide ClosesAt, IsFlag, Slice, PollWith, CloseFrom;
    FirstClose(v.buf, l, scan - l.start, scan - l.start + Room(held, capacity), scan - l.start);
  }

  lemma CloseNext(buf: seq<Byte>, l: Lock, at: nat, limit: nat)
    requires l.phase.offset < 8 && 1 <= at < limit && (at >= 2 ==> !ClosesAt(buf, l, at))
    ensures CloseFrom(buf, l, TestFrom(at), limit)
            == CloseFrom(buf, l, TestFrom(at + 1), limit)
  {
    hide ClosesAt;
  }

  /** Any other byte, and whatever byte is at index 1, is taken over. */
  lemma TrackGoesOn(v: View, l: Lock, scan: nat, held: seq<Byte>, capacity: nat)
    requires Tracking(v.buf, l, scan) && scan < AlignedCount(|v.buf|, l.phase.offset)
    requires |held| < Min(capacity, MAX_FRAME) && (scan == l.start + 1 || !IsFlag(v.buf, scan, l.phase))
    ensures Tracking(v.buf, l, scan + 1)
    ensures TrackWith(v, l, scan, held, capacity)
            == TrackWith(v, l, scan + 1, held + [Aligned(v.buf, scan, l.phase)], capacity)
  {
    hide ClosesAt, IsFlag, Slice, PollWith, Aligned, CloseFrom, AlignedCount, TrackWith, Tracking, Room, TestFrom;
    TrackingNext(v.buf, l, scan);
    var at, more := scan - l.start, held + [Aligned(v.buf, scan, l.phase)];
    var limit, n := at + Room(held, capacity), AlignedCount(|v.buf|, l.phase.offset);
    assert Room(held, capacity) == 1 + Room(more, capacity) by { RoomNext(held, more, capacity); }
    CloseNext(v.buf, l, at, limit);
    var c := CloseFrom(v.buf, l, TestFrom(at), limit);
    if c.Some? {
      ClosesWith(v, l, scan, held, capacity, c.value);
      ClosesWith(v, l, scan + 1, more, capacity, c.value);
      SliceFront(v.buf, l.phase, scan, c.value + 1 - at, held);
    } else {
      StaysOpenWith(v, l, scan, held, capacity);
      StaysOpenWith(v, l, scan + 1, more, capacity);
      SliceFront(v.buf, l.phase, scan, n - scan, held);
    }
  }

  lemma RoomNext(held: seq<Byte>, more: seq<Byte>, capacity: nat)
    requires |more| == |held| + 1 && |held| < Min(capacity, MAX_FRAME)
    ensures Room(held, capacity) == 1 + Room(more, capacity)
  {
  }

  lemma TrackingNext(buf: seq<Byte>, l: Lock, scan: nat)
    requires Tracking(buf, l, scan) && scan < AlignedCount(|buf|, l.phase.offset)
    requires scan == l.start + 1 || !IsFlag(buf, scan, l.phase)
    ensures ValidPhase(l.phase) && Tracking(buf, l, scan + 1) && l.start < scan
    ensures scan - l.start >= 2 ==> !ClosesAt(buf, l, scan - l.start)
  {
    hide IsFlag;
  }

  lemma ClosesWith(v: View, l: Lock, scan: nat, held: seq<Byte>, capacity: nat, c: nat)
    requires LockInBounds(v, l, scan)
    requires CloseFrom(v.buf, l, TestFrom(scan - l.start), scan - l.start + Room(held, capacity)) == Some(c)
    ensures l.start + c < AlignedCount(|v.buf|, l.phase.offset)
    ensures var frame := held + Slice(v.buf, Lock(scan, l.phase), l.start + c + 1 - scan);
      TrackWith(v, l, scan, held, capacity)
      == Polled(Ready(View(v.buf, 0, None, Some(Span(l.start, l.start + c + 1))), l, frame), frame)
  {
    hide ClosesAt, IsFlag, Slice, PollWith, CloseFrom, AlignedCount;
    CloseIsFlag(v.buf, l, c);
    FlagIsReadable(v.buf, l.start + c, l.phase);
  }

  lemma StaysOpenWith(v: View, l: Lock, scan: nat, held: seq<Byte>, capacity: nat)
    requires LockInBounds(v, l, scan)
    requires CloseFrom(v.buf, l, TestFrom(scan - l.start), scan - l.start + Room(held, capacity)).None?
    ensures var n, room := AlignedCount(|v.buf|, l.phase.offset), Room(held, capacity);
      TrackWith(v, l, scan, held, capacity) ==
      if capacity >= MAX_FRAME && |v.buf| - scan > room then
        PollWith(View(v.buf[l.start + 1..], 0, None, None), [], capacity)
      else if capacity < MAX_FRAME && n > scan + room then Polled(TooLong(View(v.buf, v.processed, None, None)), [])
      else Polled(Waiting(View(v.buf, n, Some(l), None)), held + Slice(v.buf, Lock(scan, l.phase), n - scan))
  {
    hide ClosesAt, IsFlag, Slice, PollWith, CloseFrom, AlignedCount;
  }

  /** Taking over a byte moves it from the slice to the frame. */
  lemma SliceFront(buf: seq<Byte>, p: Phase, scan: nat, n: nat, held: seq<Byte>)
    requires p.offset < 8 && 0 < n && scan + n <= AlignedCount(|buf|, p.offset)
    ensures held + Slice(buf, Lock(scan, p), n)
            == (held + [Aligned(buf, scan, p)]) + Slice(buf, Lock(scan + 1, p), n - 1)
  {
    hide Aligned;
  }

  lemma LockIsTracking(buf: seq<Byte>, processed: nat, l: Lock)
    requires ValidLock(buf, processed, l)
    ensures Tracking(buf, l, processed)
  {
    hide IsFlag, ClosesAt;
  }

  /** A fresh lock has taken over its opening flag. */
  lemma OpeningIsTracking(buf: seq<Byte>, l: Lock)
    requires ValidPhase(l.phase) && IsFlag(buf, l.start, l.phase)
    ensures Tracking(buf, l, l.start + 1) && Slice(buf, l, 1) == [FLAG]
  {
  }

  lemma TrackIgnores(v: View, w: View, l: Lock, scan: nat, held: seq<Byte>, capacity: nat)
    requires LockInBounds(v, l, scan) && v.buf == w.buf && v.processed == w.processed
    ensures TrackWith(v, l, scan, held, capacity) == TrackWith(w, l, scan, held, capacity)
  {
    hide CloseFrom, PollWith, Slice;
  }

  // ---- a frame that holds the bytes taken over ----------------------------------------

  /** Passed the same frame again, a poll does what it does in one piece. */
  lemma PollWithHeld(v: View, held: seq<Byte>, capacity: nat)
    requires ValidView(v) && |held| <= capacity && Holds(v, held)
    ensures var p := PollWith(v, held, capacity);
      && p.outcome == Poll(v, capacity) && ValidView(p.outcome.view) && Holds(p.outcome.view, p.frame)
      && (p.outcome.Ready? ==> p.frame == p.outcome.frame)
    decreases |v.buf|, 1
  {
    hide Hunt, TrackWith, Track, Slice, IsFlag, ClosesAt;
    if capacity > 0 && v.buf != [] {
      if v.lock.Some? {
        LockIsTracking(v.buf, v.processed, v.lock.value);
        TrackWithHeld(v, v.lock.value, v.processed, held, capacity);
      } else {
        var l := Hunt(v.buf, v.processed);
        if l.Some? {
          OpeningIsTracking(v.buf, l.value);
          TrackWithHeld(v, l.value, l.value.start + 1, [FLAG], capacity);
        }
      }
    }
  }

  lemma TrackWithHeld(v: View, l: Lock, scan: nat, held: seq<Byte>, capacity: nat)
    requires |v.buf| <= MAX_BUFFER && v.processed <= |v.buf| && Tracking(v.buf, l, scan)
    requires |held| == scan - l.start <= Min(capacity, MAX_FRAME) && held == Slice(v.buf, l, |held|)
    ensures var p := TrackWith(v, l, scan, held, capacity);
      && p.outcome == Track(v, l, capacity) && ValidView(p.outcome.view) && Holds(p.outcome.view, p.frame)
      && (p.outcome.Ready? ==> p.frame == p.outcome.frame)
    decreases |v.buf|, 0
  {
    hide CloseFrom, Slice, IsFlag, ClosesAt, PollWith, Poll, AlignedCount, Track, TrackWith, Holds;
    var limit, n := Min(capacity, MAX_FRAME), AlignedCount(|v.buf|, l.phase.offset);
    assert limit == |held| + Room(held, capacity);
    CloseSkips(v.buf, l, |held|, limit);
    SpareRawByte(|v.buf|, l.phase.offset);
    var c := CloseFrom(v.buf, l, 2, limit);
    if c.Some? {
      HeldCloses(v, l, scan, held, capacity, c.value);
    } else if capacity >= MAX_FRAME && |v.buf| - l.start > MAX_FRAME {
      HeldGivesUp(v, l, scan, held, capacity);
      NothingHeld(View(v.buf[l.start + 1..], 0, None, None));
      PollWithHeld(View(v.buf[l.start + 1..], 0, None, None), [], capacity);
    } else {
      HeldStaysOpen(v, l, scan, held, capacity);
    }
  }

  lemma NothingHeld(v: View)
    requires v.lock.None?
    ensures Holds(v, [])
  {
  }

  /** The search from the cursor on is the search from index 2 on. */
  predicate SameClose(v: View, l: Lock, scan: nat, held: seq<Byte>, capacity: nat)
    requires l.phase.offset < 8 && l.start < scan
  {
    var at := scan - l.start;
    && |held| == at <= Min(capacity, MAX_FRAME)
    && CloseFrom(v.buf, l, TestFrom(at), at + Room(held, capacity))
       == CloseFrom(v.buf, l, 2, Min(capacity, MAX_FRAME))
  }

  lemma HeldCloses(v: View, l: Lock, scan: nat, held: seq<Byte>, capacity: nat, c: nat)
    requires LockInBounds(v, l, scan) && SameClose(v, l, scan, held, capacity) && |v.buf| <= MAX_BUFFER
    requires held == Slice(v.buf, l, |held|) && CloseFrom(v.buf, l, 2, Min(capacity, MAX_FRAME)) == Some(c)
    ensures var p := TrackWith(v, l, scan, held, capacity);
      && p.outcome == Track(v, l, capacity) && ValidView(p.outcome.view) && Holds(p.outcome.view, p.frame)
      && p.outcome.Ready? && p.frame == p.outcome.frame
  {
    hide CloseFrom, Slice, IsFlag, ClosesAt, PollWith, Poll, AlignedCount;
    CloseIsFlag(v.buf, l, c);
    FlagIsReadable(v.buf, l.start + c, l.phase);
    SliceJoin(v.buf, l, |held|, c + 1);
  }

  lemma HeldGivesUp(v: View, l: Lock, scan: nat, held: seq<Byte>, capacity: nat)
    requires LockInBounds(v, l, scan) && SameClose(v, l, scan, held, capacity)
    requires CloseFrom(v.buf, l, 2, Min(capacity, MAX_FRAME)).None?
    requires capacity >= MAX_FRAME && |v.buf| - l.start > MAX_FRAME
    ensures var rest := View(v.buf[l.start + 1..], 0, None, None);
      && TrackWith(v, l, scan, held, capacity) == PollWith(rest, [], capacity)
      && Track(v, l, capacity) == Poll(rest, capacity)
  {
    hide CloseFrom, Slice, PollWith, Poll;
  }

  lemma HeldStaysOpen(v: View, l: Lock, scan: nat, held: seq<Byte>, capacity: nat)
    requires |v.buf| <= MAX_BUFFER && v.processed <= |v.buf| && Tracking(v.buf, l, scan)
    requires LockInBounds(v, l, scan) && SameClose(v, l, scan, held, capacity)
    requires held == Slice(v.buf, l, |held|) && CloseFrom(v.buf, l, 2, Min(capacity, MAX_FRAME)).None?
    requires capacity < MAX_FRAME || |v.buf| - l.start <= MAX_FRAME
    ensures var p := TrackWith(v, l, scan, held, capacity);
      && p.outcome == Track(v, l, capacity) && !p.outcome.Ready? && ValidView(p.outcome.view)
      && Holds(p.outcome.view, p.frame)
  {
    hide CloseFrom, Slice, IsFlag, ClosesAt, PollWith, Poll, AlignedCount, ValidLock, Tracking;
    var n := AlignedCount(|v.buf|, l.phase.offset);
    SpareRawByte(|v.buf|, l.phase.offset);
    assert ValidPhase(l.phase) && IsFlag(v.buf, l.start, l.phase) by { TrackingBasics(v.buf, l, scan); }
    if n <= l.start + Min(capacity, MAX_FRAME) {
      SliceJoin(v.buf, l, |held|, n - l.start);
      WaitingIsValid(v.buf, l, Min(capacity, MAX_FRAME));
    }
  }

  lemma TrackingBasics(buf: seq<Byte>, l: Lock, scan: nat)
    requires Tracking(buf, l, scan)
    ensures ValidPhase(l.phase) && IsFlag(buf, l.start, l.phase)
  {
  }

  /** Nothing closes before the cursor, so the search may start there. */
  lemma CloseSkips(buf: seq<Byte>, l: Lock, at: nat, limit: nat)
    requires l.phase.offset < 8 && 1 <= at <= limit && forall j | 2 <= j < at :: !ClosesAt(buf, l, j)
    ensures CloseFrom(buf, l, 2, limit) == CloseFrom(buf, l, TestFrom(at), limit)
  {
    hide ClosesAt;
    var c := CloseFrom(buf, l, TestFrom(at), limit);
    if c.Some? {
      FirstClose(buf, l, 2, limit, c.value);
    } else {
      NoClose(buf, l, 2, limit);
    }
  }

  lemma SliceJoin(buf: seq<Byte>, l: Lock, m: nat, n: nat)
    requires l.phase.offset < 8 && m <= n && l.start + n <= AlignedCount(|buf|, l.phase.offset)
    ensures Slice(buf, l, m) + Slice(buf, Lock(l.start + m, l.phase), n - m) == Slice(buf, l, n)
  {
    hide Aligned;
  }
}
