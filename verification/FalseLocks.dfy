/** What a long window makes of false openings: one that does not close within 2048 bytes is given up,
    and nothing behind it is passed over. */
module FalseLocks {
  import opened Words
  import opened Sync
  import opened SyncLaws
  import opened TrackSteps
  import opened PollLaws
  import opened PollSteps

  /** The opening at raw index `i`, at its least right shift, where it shows one. */
  function OpeningAt(buf: seq<Byte>, i: nat): Option<Lock> {
    var p := FirstPhase(buf, i, 0);
    if i + 1 < |buf| && p.Some? then Some(Lock(i, RightPhase(p.value))) else None
  }

  /** Where the candidate of an opening ends, if it ends within 2048 bytes. */
  function CloseOf(buf: seq<Byte>, l: Lock): Option<nat>
    requires l.phase.offset < 8
  {
    CloseFrom(buf, l, 2, MAX_FRAME)
  }

  /** The opening at raw index `i` closes in time, or may still do so. */
  predicate Tenable(buf: seq<Byte>, i: nat) {
    OpeningAt(buf, i).Some? && (CloseOf(buf, OpeningAt(buf, i).value).Some? || |buf| - i <= 2048)
  }

  // ---- the same opening in the rest of the buffer -------------------------------------

  lemma FlagInRest(buf: seq<Byte>, d: nat, i: nat, p: Phase)
    requires d <= |buf| && p.offset < 8
    ensures IsFlag(buf[d..], i, p) <==> IsFlag(buf, d + i, p)
  {
    assert buf[d..|buf|] == buf[d..];
    if i < AlignedCount(|buf| - d, p.offset) {
      AlignedInPart(buf, d, |buf|, i, p);
    }
  }

  lemma {:induction false} PhaseInRest(buf: seq<Byte>, d: nat, i: nat, k: nat)
    requires d <= |buf| && k <= 8
    ensures FirstPhase(buf[d..], i, k) == FirstPhase(buf, d + i, k)
    decreases 8 - k
  {
    hide IsFlag;
    if k < 8 {
      FlagInRest(buf, d, i, RightPhase(k));
      PhaseInRest(buf, d, i, k + 1);
    }
  }

  lemma {:induction false} CloseInRest(buf: seq<Byte>, d: nat, l: Lock, k: nat)
    requires d <= |buf| && l.phase.offset < 8
    ensures CloseFrom(buf[d..], l, k, MAX_FRAME) == CloseFrom(buf, Lock(d + l.start, l.phase), k, MAX_FRAME)
    decreases MAX_FRAME - k
  {
    hide IsFlag;
    if k < MAX_FRAME {
      FlagInRest(buf, d, l.start + k, l.phase);
      CloseInRest(buf, d, l, k + 1);
    }
  }

  lemma TenableInRest(buf: seq<Byte>, d: nat, i: nat)
    requires d <= |buf|
    ensures Tenable(buf[d..], i) <==> Tenable(buf, d + i)
    ensures OpeningAt(buf[d..], i).Some? <==> OpeningAt(buf, d + i).Some?
    ensures OpeningAt(buf[d..], i).Some? ==>
              var l := OpeningAt(buf[d..], i).value;
              && l.start == i && OpeningAt(buf, d + i).value == Lock(d + i, l.phase) && l.phase.offset < 8
              && CloseOf(buf[d..], l) == CloseOf(buf, Lock(d + i, l.phase))
  {
    hide FirstPhase, CloseFrom;
    PhaseInRest(buf, d, i, 0);
    if OpeningAt(buf[d..], i).Some? {
      CloseInRest(buf, d, OpeningAt(buf[d..], i).value, 2);
    }
  }

  // ---- one poll -----------------------------------------------------------------------

  /** What a poll answers for the opening it has settled on; places are counted in the whole buffer. */
  predicate Follows(buf: seq<Byte>, l: Lock, o: Outcome)
    requires l.phase.offset < 8
  {
    var c := CloseOf(buf, l);
    && |o.view.buf| <= |buf| && o.view.buf == buf[|buf| - |o.view.buf|..]
    && if c.Some? then
         && o.Ready? && |buf| - |o.view.buf| + o.lock.start == l.start && o.lock.phase == l.phase
         && |o.frame| == c.value + 1
       else
         && o.Waiting? && o.view.lock.Some?
         && |buf| - |o.view.buf| + o.view.lock.value.start == l.start && o.view.lock.value.phase == l.phase
  }

  lemma FastHunt(buf: seq<Byte>)
    requires |buf| > SHORT_SEARCH_LIMIT
    ensures Hunt(buf, 0) == FirstOpening(buf, 0)
    ensures var l := FirstOpening(buf, 0);
      && (l.Some? ==> l.value.phase.offset < 8 && OpeningAt(buf, l.value.start) == l)
      && forall i: nat | i < (if l.Some? then l.value.start else |buf|) :: OpeningAt(buf, i).None?
  {
    hide IsFlag, FirstOpening, FirstPhase, BestRank;
    var l := FirstOpening(buf, 0);
    if l.Some? {
      FirstIsOpening(buf, l.value);
    }
    forall i: nat | i < (if l.Some? then l.value.start else |buf|)
      ensures OpeningAt(buf, i).None?
    {
      if i + 1 < |buf| {
        assert NoOpening(buf, i);
      }
    }
  }

  lemma FirstIsOpening(buf: seq<Byte>, l: Lock)
    requires FirstOpening(buf, 0) == Some(l)
    ensures l.phase.offset < 8 && OpeningAt(buf, l.start) == Some(l)
  {
    hide IsFlag, FirstOpening, FirstPhase;
    var p := FirstPhase(buf, l.start, 0);
    assert IsFlag(buf, l.start, RightPhase(l.phase.offset));
  }

  lemma TrackDecides(buf: seq<Byte>, l: Lock, capacity: nat)
    requires l.phase.offset < 8 && l.start < |buf| && capacity >= MAX_FRAME
    ensures var v, o := View(buf, 0, None, None), Track(View(buf, 0, None, None), l, capacity);
      if CloseOf(buf, l).None? && |buf| - l.start > 2048
      then o == Poll(View(buf[l.start + 1..], 0, None, None), capacity)
      else Follows(buf, l, o)
  {
    hide CloseFrom, Poll;
  }

  lemma RestFollows(buf: seq<Byte>, d: nat, l: Lock, o: Outcome)
    requires d <= |buf| && l.phase.offset < 8 && Follows(buf[d..], l, o)
    requires CloseOf(buf[d..], l) == CloseOf(buf, Lock(d + l.start, l.phase))
    ensures Follows(buf, Lock(d + l.start, l.phase), o)
  {
    hide CloseFrom;
  }

  lemma TenableOpens(buf: seq<Byte>, i: nat)
    requires Tenable(buf, i)
    ensures OpeningAt(buf, i).Some?
  {
  }

  lemma OpeningIsTenable(buf: seq<Byte>, l: Lock)
    requires OpeningAt(buf, l.start) == Some(l) && l.phase.offset < 8
    ensures Tenable(buf, l.start) <==> CloseOf(buf, l).Some? || |buf| - l.start <= 2048
  {
  }

  /** In a long window a poll follows the first tenable opening, at its least right shift, whatever
      false openings lie before it, and none if there is none. */
  lemma {:induction false} FirstTenableIsFollowed(buf: seq<Byte>, capacity: nat, i: nat)
    requires |buf| > SHORT_SEARCH_LIMIT && capacity >= MAX_FRAME
    requires forall j: nat | j < i :: !Tenable(buf, j)
    requires i < |buf| ==> Tenable(buf, i)
    ensures var o := Poll(View(buf, 0, None, None), capacity);
      if i < |buf| then
        OpeningAt(buf, i).Some? && OpeningAt(buf, i).value.phase.offset < 8 && Follows(buf, OpeningAt(buf, i).value, o)
      else o == Waiting(View(buf[|buf| - 1..], 0, None, None))
    decreases |buf|, 1
  {
    hide Tenable, OpeningAt, CloseOf, Follows, Poll, Track, Hunt, FirstOpening;
    FastHunt(buf);
    PollHunts(View(buf, 0, None, None), capacity);
    var l := FirstOpening(buf, 0);
    if i < |buf| {
      TenableOpens(buf, i);
    }
    if l.Some? {
      TrackDecides(buf, l.value, capacity);
      OpeningIsTenable(buf, l.value);
      if CloseOf(buf, l.value).None? && |buf| - l.value.start > 2048 {
        FollowsInRest(buf, l.value.start + 1, capacity, i);
      }
    }
  }

  lemma {:induction false} FollowsInRest(buf: seq<Byte>, d: nat, capacity: nat, i: nat)
    requires 0 < d <= |buf| && |buf| - d > SHORT_SEARCH_LIMIT && capacity >= MAX_FRAME && d <= i
    requires forall j: nat | j < i :: !Tenable(buf, j)
    requires i < |buf| ==> Tenable(buf, i)
    ensures var o := Poll(View(buf[d..], 0, None, None), capacity);
      if i < |buf| then
        OpeningAt(buf, i).Some? && OpeningAt(buf, i).value.phase.offset < 8 && Follows(buf, OpeningAt(buf, i).value, o)
      else o == Waiting(View(buf[|buf| - 1..], 0, None, None))
    decreases |buf|, 0
  {
    hide Tenable, OpeningAt, CloseOf, Follows, Poll;
    var rest := buf[d..];
    forall j: nat | j < i - d
      ensures !Tenable(rest, j)
    {
      TenableInRest(buf, d, j);
    }
    TenableInRest(buf, d, i - d);
    FirstTenableIsFollowed(rest, capacity, i - d);
    if i < |buf| {
      RestFollows(buf, d, OpeningAt(rest, i - d).value, Poll(View(rest, 0, None, None), capacity));
    } else {
      assert rest[|rest| - 1..] == buf[|buf| - 1..];
    }
  }

  // ---- where a hunt looks, and what it leaves -----------------------------------------

  /** In a long window a hunt finds an opening exactly if a right-shift phase shows a flag one byte
      before the cursor or later, in front of the last byte; and it never looks before that. */
  lemma LongHuntIsExact(buf: seq<Byte>, scan: nat)
    requires |buf| > SHORT_SEARCH_LIMIT
    ensures Hunt(buf, scan).Some? <==> exists i: nat, k: nat :: scan <= i + 1 < |buf| && k < 8 && IsFlag(buf, i, RightPhase(k))
    ensures Hunt(buf, scan).Some? ==> scan <= Hunt(buf, scan).value.start + 1
  {
    hide IsFlag, BestRank, FirstOpening;
    var from := if scan > 0 then scan - 1 else 0;
    var l := FirstOpening(buf, from);
    if l.Some? {
      assert IsFlag(buf, l.value.start, RightPhase(l.value.phase.offset));
    } else {
      forall i: nat, k: nat | scan <= i + 1 < |buf| && k < 8
        ensures !IsFlag(buf, i, RightPhase(k))
      {
        assert NoOpening(buf, i);
      }
    }
  }

  /** A candidate that has been reported stays pending over a poll that finds no opening, and is
      forgotten by one that takes another. */
  lemma CandidateStaysPending(v: View, frame: seq<Byte>, capacity: nat)
    requires ValidView(v) && v.lock.None? && v.buf != [] && capacity > 0
    ensures var p := PollWith(v, frame, capacity);
      if Hunt(v.buf, v.processed).None? then
        p == Polled(Waiting(View(v.buf[|v.buf| - 1..], 0, None, v.candidate)), frame)
      else p.outcome.view.candidate.Some? ==> p.outcome.Ready?
  {
    hide Hunt, TrackWith, ValidLock, SoundTrack;
    PollWithHunts(v, frame, capacity);
    var l := Hunt(v.buf, v.processed);
    if l.Some? {
      OpeningIsTracking(v.buf, l.value);
      TrackWithIsSound(v, l.value, l.value.start + 1, [FLAG], capacity);
      OnlyReportsArePending(v, l.value, [FLAG], capacity, PollWith(v, frame, capacity));
    }
  }

  lemma OnlyReportsArePending(v: View, l: Lock, held: seq<Byte>, capacity: nat, p: Polled)
    requires SoundTrack(v, l, l.start + 1, held, capacity, p)
    ensures p.outcome.view.candidate.Some? ==> p.outcome.Ready?
  {
  }

  // ---- frames without room ------------------------------------------------------------

  /** A locked poll fails exactly if the frame has no room for the candidate's next byte: the frame
      is smaller than 2048 bytes, more aligned bytes than it takes are there, and none of those it
      takes, from index 2 on, is a flag.  It then forgets the lock and keeps the buffer. */
  lemma RoomIsExact(v: View, l: Lock, capacity: nat)
    requires ValidView(v) && v.lock == Some(l) && v.buf != [] && capacity > 0
    ensures Poll(v, capacity).TooLong? <==>
              && capacity < 2048 && AlignedCount(|v.buf|, l.phase.offset) > l.start + capacity
              && forall j | 2 <= j < capacity :: !ClosesAt(v.buf, l, j)
    ensures Poll(v, capacity).TooLong? ==> Poll(v, capacity) == TooLong(View(v.buf, v.processed, None, None))
  {
    PollIsSound(v, capacity);
    hide Sound, ClosesAt, Poll, Track, CloseFrom, ValidLock;
    if capacity < MAX_FRAME {
      PollTracksLock(v, l, capacity);
      if forall j | 2 <= j < capacity :: !ClosesAt(v.buf, l, j) {
        NoClose(v.buf, l, 2, capacity);
      }
      SmallFrame(v, l, capacity);
    } else {
      NeverTooLong(v, capacity, Poll(v, capacity));
    }
  }

  lemma SmallFrame(v: View, l: Lock, capacity: nat)
    requires l.phase.offset < 8 && capacity < MAX_FRAME
    ensures var c, o := CloseFrom(v.buf, l, 2, capacity), Track(v, l, capacity);
      && (o.TooLong? <==> c.None? && AlignedCount(|v.buf|, l.phase.offset) > l.start + capacity)
      && (o.TooLong? ==> o == TooLong(View(v.buf, v.processed, None, None)))
  {
    hide CloseFrom, Slice, Poll;
  }

  lemma NeverTooLong(v: View, capacity: nat, o: Outcome)
    requires capacity >= MAX_FRAME && Sound(v, capacity, o)
    ensures !o.TooLong?
  {
  }
}
