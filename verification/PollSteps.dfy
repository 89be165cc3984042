/** The state machine's steps on values: a snapshot of the accumulator and the caller's frame, what
    holds of it in the middle of a poll, and how each step moves it on. */
module PollSteps {
  import opened Words
  import opened Sync
  import opened SyncLaws
  import opened TrackSteps

  datatype State = HUNTING | SYNCING | SYNCED

  datatype StepResult = PROGRESS | STOP | FRAME_READY | ERROR

  datatype Snap = Snap(buf: seq<Byte>, processed: nat, start: nat, end: nat, valid: bool, phase: Phase,
                       state: State, frame: seq<Byte>, capacity: nat)
  {
    function LockHeld(): Lock { Lock(start, phase) }

    function Candidate(): Option<Span> { if valid then Some(Span(start, end)) else None }

    function AsView(): View {
      View(buf, processed, if state == HUNTING then None else Some(LockHeld()), Candidate())
    }
  }

  predicate Sane(s: Snap) {
    && 0 < |s.buf| <= MAX_BUFFER && s.processed <= |s.buf|
    && s.phase.offset < 8
    && |s.frame| <= s.capacity && 0 < s.capacity
  }

  /** In the middle of a poll with cursor `scan`: what the rest of the poll amounts to is `goal`. */
  predicate InPoll(s: Snap, scan: nat, goal: Polled) {
    && Sane(s) && scan <= |s.buf|
    && if s.state == HUNTING then HuntingFor(s, scan, goal) else LockedFor(s, scan, goal)
  }

  predicate HuntingFor(s: Snap, scan: nat, goal: Polled) {
    && scan == s.processed
    && (s.valid ==> s.start < s.end)
    && goal == PollWith(View(s.buf, s.processed, None, s.Candidate()), s.frame, s.capacity)
  }

  predicate LockedFor(s: Snap, scan: nat, goal: Polled) {
    && !s.valid
    && (s.state == SYNCING <==> scan == s.start + 1)
    && Tracking(s.buf, s.LockHeld(), scan)
    && goal == TrackWith(View(s.buf, s.processed, None, None), s.LockHeld(), scan, s.frame, s.capacity)
  }

  /** The phase as the source reports it: as an equivalent left shift. */
  function ReportedOffset(p: Phase): nat {
    if p.right && 0 < p.offset < 8 then 8 - p.offset else p.offset
  }

  /** The reported offset names the equivalent left shift of the two neighbouring raw bytes, taken in
      the other order. */
  lemma ReportedIsLeftShift(buf: seq<Byte>, i: nat, p: Phase)
    requires ValidPhase(p) && p.right && i + 1 < |buf|
    ensures 0 < ReportedOffset(p) < 8
    ensures Aligned(buf, i, p) == Or(Shl(buf[i + 1], ReportedOffset(p)), Shr(buf[i], 8 - ReportedOffset(p)))
  {
    var a, b := Aligned(buf, i, p), Or(Shl(buf[i + 1], ReportedOffset(p)), Shr(buf[i], 8 - ReportedOffset(p)));
    assert forall j | 0 <= j < 8 :: a[j] == b[j];
  }

  /** What a step leaves: either the poll goes on towards its goal, or the goal is reached. */
  predicate Stepped(s: Snap, result: StepResult, scan: nat, goal: Polled) {
    match result
    case PROGRESS => InPoll(s, scan, goal)
    case STOP =>
      && goal.outcome.Waiting? && Sane(s) && scan <= |s.buf| && goal.frame == s.frame
      && if s.state == HUNTING
         then
           && scan == |s.buf| && (s.valid ==> s.start < s.end)
           && goal.outcome.view == View(s.buf[|s.buf| - 1..], 0, None, s.Candidate())
         else
           && !s.valid && (s.state == SYNCING <==> scan == s.start + 1) && ValidLock(s.buf, scan, s.LockHeld())
           && goal.outcome.view == View(s.buf, scan, Some(s.LockHeld()), None)
    case FRAME_READY =>
      && goal.outcome.Ready? && Sane(s) && goal.outcome.view == s.AsView().(processed := 0) && s.state == HUNTING
      && s.start < s.end && goal.outcome.frame == goal.frame == s.frame
      && s.phase.offset == ReportedOffset(goal.outcome.lock.phase)
    case ERROR =>
      && goal.outcome.TooLong? && Sane(s) && goal.outcome.view == s.AsView() && s.state == HUNTING && !s.valid
      && goal.frame == s.frame
  }

  lemma InPollBasics(s: Snap, scan: nat, goal: Polled)
    requires InPoll(s, scan, goal)
    ensures Sane(s) && scan <= |s.buf|
    ensures s.state != HUNTING ==> s.start < scan && (s.state == SYNCING <==> scan == s.start + 1)
    ensures s.state == HUNTING ==> scan == s.processed
  {
    hide PollWith, TrackWith, IsFlag, ClosesAt;
  }

  lemma GoesOn(s: Snap, scan: nat, goal: Polled)
    requires InPoll(s, scan, goal)
    ensures Stepped(s, PROGRESS, scan, goal)
  {
  }

  lemma HuntFails(s: Snap, scan: nat, goal: Polled)
    requires InPoll(s, scan, goal) && s.state == HUNTING && Hunt(s.buf, scan).None?
    ensures Stepped(s, STOP, |s.buf|, goal)
  {
    hide PollWith, Hunt, TrackWith;
    PollWithHunts(View(s.buf, s.processed, None, s.Candidate()), s.frame, s.capacity);
  }

  lemma HuntLocks(s: Snap, scan: nat, goal: Polled, l: Lock)
    requires InPoll(s, scan, goal) && s.state == HUNTING && Hunt(s.buf, scan) == Some(l)
    ensures l.start + 1 < |s.buf| && l.phase.offset < 8
    ensures Stepped(s.(state := SYNCING, phase := l.phase, start := l.start, valid := false, frame := [FLAG]),
                    PROGRESS, l.start + 1, goal)
  {
    hide PollWith, Hunt, TrackWith, Tracking, IsFlag, Slice;
    var v := View(s.buf, s.processed, None, s.Candidate());
    PollWithHunts(v, s.frame, s.capacity);
    OpeningIsTracking(s.buf, l);
    FlagIsReadable(s.buf, l.start, l.phase);
    TrackIgnores(v, View(s.buf, s.processed, None, None), l, l.start + 1, [FLAG], s.capacity);
  }

  lemma PollWithHunts(v: View, held: seq<Byte>, capacity: nat)
    requires v.lock.None? && capacity > 0 && v.buf != []
    ensures var l := Hunt(v.buf, v.processed);
      && (l.Some? ==> LockInBounds(v, l.value, l.value.start + 1))
      && PollWith(v, held, capacity)
         == if l.Some? then TrackWith(v, l.value, l.value.start + 1, [FLAG], capacity)
            else Polled(Waiting(View(v.buf[|v.buf| - 1..], 0, None, v.candidate)), held)
  {
    hide Hunt, TrackWith, Aligned;
  }

  lemma PollHunts(v: View, capacity: nat)
    requires v.lock.None? && capacity > 0 && v.buf != []
    ensures var l := Hunt(v.buf, v.processed);
      Poll(v, capacity) == if l.Some? then Track(v, l.value, capacity)
                           else Waiting(View(v.buf[|v.buf| - 1..], 0, None, v.candidate))
  {
    hide Hunt, Track;
  }

  /** The snapshot after a false lock has been given up. */
  function Recovered(s: Snap): Snap
    requires s.start + 1 <= |s.buf|
  {
    Snap(s.buf[s.start + 1..], 0, 0, 0, false, Phase(0, false), HUNTING, [], s.capacity)
  }

  lemma GivesUp(s: Snap, scan: nat, goal: Polled)
    requires InPoll(s, scan, goal) && s.state != HUNTING && |s.frame| >= MAX_FRAME && scan < |s.buf|
    ensures s.start + 1 < |s.buf| && InPoll(Recovered(s), 0, goal)
  {
    hide PollWith, TrackWith, Tracking;
    InPollBasics(s, scan, goal);
    TrackOversize(View(s.buf, s.processed, None, None), s.LockHeld(), scan, s.frame, s.capacity);
  }

  lemma Waits(s: Snap, scan: nat, goal: Polled)
    requires InPoll(s, scan, goal) && s.state != HUNTING
    requires scan >= AlignedCount(|s.buf|, s.phase.offset) && (|s.frame| < MAX_FRAME || scan >= |s.buf|)
    ensures Stepped(s, STOP, scan, goal)
  {
    hide PollWith, TrackWith, Tracking, ValidLock;
    TrackWaits(View(s.buf, s.processed, None, None), s.LockHeld(), scan, s.frame, s.capacity);
  }

  lemma Overflows(s: Snap, scan: nat, goal: Polled)
    requires InPoll(s, scan, goal) && s.state != HUNTING
    requires scan < AlignedCount(|s.buf|, s.phase.offset) && s.capacity <= |s.frame| < MAX_FRAME
    ensures Stepped(s.(frame := [], state := HUNTING, phase := Phase(0, s.phase.right)), ERROR, scan, goal)
  {
    hide PollWith, TrackWith, Tracking;
    TrackOverflows(View(s.buf, s.processed, None, None), s.LockHeld(), scan, s.frame, s.capacity);
  }

  lemma TakesOver(s: Snap, scan: nat, goal: Polled)
    requires InPoll(s, scan, goal) && s.state != HUNTING
    requires scan < AlignedCount(|s.buf|, s.phase.offset) && |s.frame| < Min(s.capacity, MAX_FRAME)
    requires s.state == SYNCING || Aligned(s.buf, scan, s.phase) != FLAG
    ensures Stepped(s.(frame := s.frame + [Aligned(s.buf, scan, s.phase)], state := SYNCED), PROGRESS, scan + 1, goal)
  {
    InPollBasics(s, scan, goal);
    hide PollWith, TrackWith, Tracking, Aligned, ClosesAt;
    TrackGoesOn(View(s.buf, s.processed, None, None), s.LockHeld(), scan, s.frame, s.capacity);
  }

  lemma Completes(s: Snap, scan: nat, goal: Polled)
    requires InPoll(s, scan, goal) && s.state == SYNCED
    requires scan < AlignedCount(|s.buf|, s.phase.offset) && |s.frame| < Min(s.capacity, MAX_FRAME)
    requires Aligned(s.buf, scan, s.phase) == FLAG
    ensures Stepped(s.(frame := s.frame + [FLAG], state := HUNTING, end := scan + 1, valid := true,
                       phase := Phase(ReportedOffset(s.phase), s.phase.right)),
                    FRAME_READY, scan + 1, goal)
  {
    InPollBasics(s, scan, goal);
    hide PollWith, TrackWith, Tracking, Aligned, ClosesAt;
    TrackEnds(View(s.buf, s.processed, None, None), s.LockHeld(), scan, s.frame, s.capacity);
  }

  /** What a stopped step says about the waiting view. */
  lemma StopIsWaiting(s: Snap, scan: nat, goal: Polled)
    requires Stepped(s, STOP, scan, goal)
    ensures goal.outcome.Waiting? && Sane(s) && scan <= |s.buf| && goal.frame == s.frame
    ensures s.state == HUNTING ==>
              && scan == |s.buf| && (s.valid ==> s.start < s.end)
              && goal.outcome.view == View(s.buf[|s.buf| - 1..], 0, None, s.Candidate())
    ensures s.state != HUNTING ==>
              && s.start < scan && !s.valid && (s.state == SYNCING <==> scan == s.start + 1)
              && goal.outcome.view == View(s.buf, scan, Some(s.LockHeld()), None)
              && ValidLock(s.buf, scan, s.LockHeld())
  {
  }

  lemma StillInPoll(s: Snap, scan: nat, goal: Polled)
    requires Stepped(s, PROGRESS, scan, goal)
    ensures InPoll(s, scan, goal)
  {
  }

  /** Every poll on a non-empty buffer starts with its outcome as the goal. */
  lemma EntersPoll(s: Snap)
    requires Sane(s) && ValidView(s.AsView())
    requires s.state == SYNCING ==> s.processed == s.start + 1
    requires s.state == SYNCED ==> s.processed >= s.start + 2
    ensures InPoll(s, s.processed, PollWith(s.AsView(), s.frame, s.capacity))
  {
    var v := s.AsView();
    hide TrackWith, Slice, IsFlag, ClosesAt, Hunt;
    if s.state != HUNTING {
      LockIsTracking(s.buf, s.processed, s.LockHeld());
      TrackIgnores(v, View(s.buf, s.processed, None, None), s.LockHeld(), s.processed, s.frame, s.capacity);
    }
  }

  /** A cursor at the end of the buffer leaves nothing to do. */
  lemma RunsOut(s: Snap, scan: nat, goal: Polled)
    requires InPoll(s, scan, goal) && scan >= |s.buf|
    ensures Stepped(s, STOP, scan, goal)
  {
    InPollBasics(s, scan, goal);
    if s.state == HUNTING {
      NothingToHunt(s.buf);
      HuntFails(s, scan, goal);
    } else {
      Waits(s, scan, goal);
    }
  }

  lemma NothingToHunt(buf: seq<Byte>)
    requires buf != []
    ensures Hunt(buf, |buf|).None?
  {
    assert FirstOpening(buf, |buf| - 1).None?;
    assert BestRank(buf, 16 * (|buf| - 1)).None?;
  }

  lemma ReportIsValid(s: Snap, scan: nat, goal: Polled)
    requires Stepped(s, FRAME_READY, scan, goal)
    ensures goal.outcome.Ready? && goal.outcome.view == s.AsView().(processed := 0)
    ensures goal.outcome.frame == goal.frame == s.frame && s.phase.offset == ReportedOffset(goal.outcome.lock.phase)
    ensures ValidView(goal.outcome.view) && s.state == HUNTING
  {
  }

  lemma FailureIsValid(s: Snap, scan: nat, goal: Polled)
    requires Stepped(s, ERROR, scan, goal)
    ensures goal.outcome.TooLong? && goal.outcome.view == s.AsView() && goal.frame == s.frame
    ensures ValidView(goal.outcome.view) && s.state == HUNTING
  {
  }
}
