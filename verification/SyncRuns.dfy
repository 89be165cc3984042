/** Whole runs of the accumulator: any bytes, polls with any frame and any room in it, verdicts and
    restarts, in any order.  A caller may feed or poll again before it gives its verdict, may pass
    another frame while the accumulator is locked, and may judge when there is nothing to judge. */
module SyncRuns {
  import opened Words
  import opened Sync
  import opened SyncLaws
  import opened TrackSteps
  import opened PollLaws

  datatype Op =
    | FeedByte(byte: Byte)
    | PollOnce(frame: seq<Byte>, capacity: nat)
    | Judge(accept: bool)
    | Restart

  datatype Verdict = Open | Accepted | Rejected

  /** A reported candidate of `size` raw bytes, placed in the history of all bytes the accumulator has
      taken; `kept` says that the caller's frame held what a resumed lock had taken over. */
  datatype Report = Report(lock: Lock, size: nat, frame: seq<Byte>, kept: bool, verdict: Verdict) {
    /** First raw byte that may still belong to a later candidate. */
    function Next(): nat {
      match verdict
      case Open => 0
      case Accepted => lock.start + size
      case Rejected => lock.start + 1
    }
  }

  datatype Trace = Trace(view: View, history: seq<Byte>, reports: seq<Report>) {
    /** Place in the history of the first buffered byte. */
    function Base(): int { |history| - |view.buf| }
  }

  const START := Trace(EMPTY, [], [])

  function Step(t: Trace, op: Op): Trace {
    match op
    case FeedByte(b) =>
      if |t.view.buf| >= MAX_BUFFER then t
      else Trace(Feed(t.view, b), t.history + [b], t.reports)
    case PollOnce(frame, capacity) =>
      if !ValidView(t.view) then t  // never the case in a run
      else After(t, frame, PollWith(t.view, frame, capacity).outcome)
    case Judge(accept) =>
      if t.view.candidate.None? || t.reports == [] then t.(view := Consume(t.view, accept)) else Judged(t, accept)
    case Restart => t.(view := EMPTY)
  }

  /** Nothing had been taken over, the lock was given up on the way, or the frame is the one that
      holds the bytes taken over. */
  predicate Kept(v: View, frame: seq<Byte>, o: Outcome)
    requires ValidView(v)
  {
    || v.lock.None? || |o.view.buf| < |v.buf|
    || frame == Slice(v.buf, v.lock.value, v.processed - v.lock.value.start)
  }

  function After(t: Trace, frame: seq<Byte>, o: Outcome): Trace
    requires ValidView(t.view)
  {
    if o.Ready? && o.view.candidate.Some? && o.view.candidate.value.end >= o.lock.start then
      var size := o.view.candidate.value.end - o.lock.start;
      var r := Report(Placed(t.history, o.view.buf, o.lock), size, o.frame, Kept(t.view, frame, o), Open);
      t.(view := o.view, reports := t.reports + [r])
    else t.(view := o.view)
  }

  /** A lock in the buffer, seen in the history the buffer is a suffix of. */
  function Placed(history: seq<Byte>, buf: seq<Byte>, l: Lock): Lock {
    if |buf| <= |history| then Lock(|history| - |buf| + l.start, l.phase) else l
  }

  /** A verdict is on the last report. */
  function Judged(t: Trace, accept: bool): Trace
    requires t.reports != []
  {
    var last := |t.reports| - 1;
    var r := t.reports[last].(verdict := if accept then Accepted else Rejected);
    Trace(Consume(t.view, accept), t.history, t.reports[last := r])
  }

  /** The report is a complete flag-to-flag span of the history, and its frame is the aligned slice
      there, of at most 2048 bytes, exactly if the caller had kept its frame. */
  predicate Genuine(history: seq<Byte>, r: Report) {
    && Spanned(history, r.lock, r.size)
    && (r.kept <==> r.frame == Slice(history, r.lock, r.size))
    && (r.kept ==> r.size <= MAX_FRAME)
  }

  /** Every report is genuine, no report starts inside an earlier accepted one, and none at or before
      the opening of an earlier rejected one. */
  predicate Faithful(history: seq<Byte>, reports: seq<Report>) {
    && (forall i | 0 <= i < |reports| :: Genuine(history, reports[i]))
    && (forall i, j | 0 <= i < j < |reports| :: reports[i].Next() <= reports[j].lock.start)
  }

  /** The candidate still waiting for a verdict is the last report.  Its indices may have gone
      stale, but they never lie before the report's place. */
  predicate Pending(t: Trace) {
    t.view.candidate.Some? ==>
      && t.reports != []
      && var r, span := t.reports[|t.reports| - 1], t.view.candidate.value;
         && r.verdict == Open
         && r.lock.start <= t.Base() + span.first
         && r.lock.start + r.size <= t.Base() + span.end
  }

  /** The buffer is a suffix of the bytes taken, and what was judged lies before it. */
  predicate Inv(t: Trace) {
    && ValidView(t.view)
    && IsSuffix(t.view.buf, t.history)
    && Faithful(t.history, t.reports)
    && (forall i | 0 <= i < |t.reports| :: t.reports[i].Next() <= t.Base())
    && Pending(t)
  }

  lemma StepKeepsInv(t: Trace, op: Op)
    requires Inv(t)
    ensures Inv(Step(t, op))
  {
    match op
    case FeedByte(b) =>
      hide Inv, Feed;
      if |t.view.buf| < MAX_BUFFER {
        FeedKeepsInv(t, b);
      }
    case PollOnce(frame, capacity) =>
      assert ValidView(t.view);
      hide Inv, PollWith, After;
      PollKeepsInv(t, frame, capacity);
    case Judge(accept) =>
      hide Inv, Judged;
      if t.view.candidate.Some? && t.reports != [] {
        JudgedKeepsInv(t, accept);
      }
    case Restart =>
      hide Faithful;
  }

  // ---- polling ------------------------------------------------------------------------

  /** What a poll answers, in the terms of a report. */
  predicate SoundPoll(v: View, frame: seq<Byte>, o: Outcome)
    requires ValidView(v)
  {
    && ValidView(o.view) && IsSuffix(o.view.buf, v.buf)
    && (!o.Ready? ==> o.view.candidate.None? || o.view.candidate == v.candidate)
    && (o.Ready? ==>
          && o.view.candidate.Some? && o.view.candidate.value.first == o.lock.start < o.view.candidate.value.end
          && Genuine(o.view.buf, Report(o.lock, o.view.candidate.value.end - o.lock.start, o.frame, Kept(v, frame, o), Open)))
  }

  lemma PollIsGenuine(v: View, frame: seq<Byte>, capacity: nat)
    requires ValidView(v)
    ensures SoundPoll(v, frame, PollWith(v, frame, capacity).outcome)
  {
    var p := PollWith(v, frame, capacity);
    hide PollWith, TrackWith, Slice, IsFlag, ClosesAt, SoundTrack, SoundHunt;
    if v.lock.None? {
      HuntWithIsSound(v, frame, capacity);
      HuntIsGenuine(v, frame, capacity, p);
    } else if capacity > 0 {
      LockIsTracking(v.buf, v.processed, v.lock.value);
      TrackWithIsSound(v, v.lock.value, v.processed, frame, capacity);
      PollWithTracks(v, frame, capacity);
      TrackIsGenuine(v, frame, capacity, p);
    } else {
      NoRoom(v, frame);
    }
  }

  lemma PollWithTracks(v: View, frame: seq<Byte>, capacity: nat)
    requires ValidView(v) && v.lock.Some? && capacity > 0
    ensures PollWith(v, frame, capacity) == TrackWith(v, v.lock.value, v.processed, frame, capacity)
  {
    hide TrackWith;
  }

  lemma NoRoom(v: View, frame: seq<Byte>)
    requires ValidView(v)
    ensures PollWith(v, frame, 0) == Polled(Waiting(v), frame)
  {
  }

  lemma HuntIsGenuine(v: View, frame: seq<Byte>, capacity: nat, p: Polled)
    requires ValidView(v) && v.lock.None? && SoundHunt(v, capacity, p)
    ensures SoundPoll(v, frame, p.outcome)
  {
    hide ValidView, Spanned, WellReported;
    var o := p.outcome;
    if o.Ready? {
      WellReportedIsSpanned(o.view.buf, o.lock, o.frame);
    }
  }

  lemma TrackIsGenuine(v: View, frame: seq<Byte>, capacity: nat, p: Polled)
    requires ValidView(v) && v.lock.Some? && SoundTrack(v, v.lock.value, v.processed, frame, capacity, p)
    ensures SoundPoll(v, frame, p.outcome)
  {
    hide ValidLock, Spanned, WellReported;
    var o := p.outcome;
    if o.Ready? && |o.view.buf| < |v.buf| {
      WellReportedIsSpanned(o.view.buf, o.lock, o.frame);
    } else if o.Ready? {
      assert o.view.buf == v.buf;
    }
  }

  lemma WellReportedIsSpanned(buf: seq<Byte>, l: Lock, frame: seq<Byte>)
    requires WellReported(buf, l, frame)
    ensures 3 <= |frame| <= MAX_FRAME && Spanned(buf, l, |frame|) && frame == Slice(buf, l, |frame|)
  {
    hide Aligned;
    forall j: nat | j < |frame|
      ensures ClosesAt(buf, l, j) <==> frame[j] == FLAG
    {
    }
    assert ClosesAt(buf, l, 0);
  }

  lemma PollKeepsInv(t: Trace, frame: seq<Byte>, capacity: nat)
    requires Inv(t)
    ensures Inv(After(t, frame, PollWith(t.view, frame, capacity).outcome))
  {
    assert ValidView(t.view);
    hide PollWith, Inv, SoundPoll, After;
    PollIsGenuine(t.view, frame, capacity);
    AfterKeepsInv(t, frame, PollWith(t.view, frame, capacity).outcome);
  }

  lemma AfterKeepsInv(t: Trace, frame: seq<Byte>, o: Outcome)
    requires Inv(t) && SoundPoll(t.view, frame, o)
    ensures Inv(After(t, frame, o))
  {
    hide Genuine, ValidLock, IsSuffix, Kept;
    SuffixOfSuffix(o.view.buf, t.view.buf, t.history);
    SuffixIsShorter(o.view.buf, t.view.buf);
    SuffixIsShorter(t.view.buf, t.history);
    if o.Ready? {
      var r := Report(o.lock, o.view.candidate.value.end - o.lock.start, o.frame, Kept(t.view, frame, o), Open);
      GenuineInHistory(t.history, o.view.buf, r);
    }
  }

  lemma SuffixIsShorter<T>(s: seq<T>, t: seq<T>)
    requires IsSuffix(s, t)
    ensures |s| <= |t|
  {
  }

  // ---- the same span in more bytes ----------------------------------------------------

  /** Two stretches of raw bytes show the same aligned bytes from their locks on. */
  predicate SameBytes(a: seq<Byte>, l: Lock, b: seq<Byte>, m: Lock, size: nat) {
    && l.phase == m.phase && l.phase.offset < 8
    && l.start + size <= AlignedCount(|a|, l.phase.offset) && m.start + size <= AlignedCount(|b|, m.phase.offset)
    && Slice(a, l, size) == Slice(b, m, size)
  }

  lemma ClosesInSlice(buf: seq<Byte>, l: Lock, size: nat, j: nat)
    requires l.phase.offset < 8 && l.start + size <= AlignedCount(|buf|, l.phase.offset) && j < size
    ensures ClosesAt(buf, l, j) <==> Slice(buf, l, size)[j] == FLAG
    ensures j == 0 ==> (ClosesAt(buf, l, j) <==> IsFlag(buf, l.start, l.phase))
  {
    hide Aligned;
  }

  lemma GenuineMoves(a: seq<Byte>, r: Report, b: seq<Byte>, m: Lock)
    requires Genuine(a, r) && SameBytes(a, r.lock, b, m, r.size)
    ensures Genuine(b, r.(lock := m))
  {
    hide ClosesAt, IsFlag, Slice;
    forall j: nat | j < r.size
      ensures ClosesAt(a, r.lock, j) <==> ClosesAt(b, m, j)
      ensures j == 0 ==> (ClosesAt(b, m, j) <==> IsFlag(b, m.start, m.phase))
      ensures j == 0 ==> (ClosesAt(a, r.lock, j) <==> IsFlag(a, r.lock.start, r.lock.phase))
    {
      ClosesInSlice(a, r.lock, r.size, j);
      ClosesInSlice(b, m, r.size, j);
    }
    assert ClosesAt(a, r.lock, 0);
  }

  lemma SliceInSuffix(whole: seq<Byte>, buf: seq<Byte>, l: Lock, n: nat)
    requires IsSuffix(buf, whole) && l.phase.offset < 8 && 0 < n && l.start + n <= AlignedCount(|buf|, l.phase.offset)
    ensures SameBytes(buf, l, whole, Placed(whole, buf, l), n)
  {
    hide Aligned;
    var place, d := Placed(whole, buf, l), |whole| - |buf|;
    assert whole[d..|whole|] == buf;
    forall k | 0 <= k < n
      ensures Slice(buf, l, n)[k] == Slice(whole, place, n)[k]
    {
      AlignedInPart(whole, d, |whole|, l.start + k, l.phase);
    }
    assert Slice(buf, l, n) == Slice(whole, place, n);
  }

  lemma GenuineInHistory(history: seq<Byte>, buf: seq<Byte>, r: Report)
    requires IsSuffix(buf, history) && Genuine(buf, r)
    ensures Genuine(history, r.(lock := Placed(history, buf, r.lock)))
  {
    hide ClosesAt, Slice, IsFlag;
    SliceInSuffix(history, buf, r.lock, r.size);
    GenuineMoves(buf, r, history, Placed(history, buf, r.lock));
  }

  lemma GenuineSurvives(history: seq<Byte>, b: Byte, r: Report)
    requires Genuine(history, r)
    ensures Genuine(history + [b], r)
  {
    hide ClosesAt, Slice, IsFlag;
    SliceOnPart(history, [b], r.lock, r.size);
    GenuineMoves(history, r, history + [b], r.lock);
  }

  // ---- feeding and judging ------------------------------------------------------------

  lemma FeedKeepsInv(t: Trace, b: Byte)
    requires Inv(t) && |t.view.buf| < MAX_BUFFER
    ensures Inv(Trace(Feed(t.view, b), t.history + [b], t.reports))
  {
    FedIsValid(t.view, [b]);
    forall i | 0 <= i < |t.reports|
      ensures Genuine(t.history + [b], t.reports[i])
    {
      GenuineSurvives(t.history, b, t.reports[i]);
    }
    SuffixFed(t.view.buf, t.history, b);
    hide Genuine, ValidLock, IsSuffix;
  }

  lemma SuffixFed<T>(s: seq<T>, t: seq<T>, b: T)
    requires IsSuffix(s, t)
    ensures IsSuffix(s + [b], t + [b])
  {
  }

  /** However stale the indices are, a verdict leaves nothing of an accepted candidate and not the
      opening of a rejected one. */
  lemma VerdictDrops(t: Trace, accept: bool)
    requires Inv(t) && t.view.candidate.Some? && t.reports != []
    ensures Judged(t, accept).reports[|t.reports| - 1].Next() <= Judged(t, accept).Base()
    ensures t.Base() <= Judged(t, accept).Base()
  {
    hide Genuine, ValidLock, IsSuffix;
    var r := t.reports[|t.reports| - 1];
    ReportFits(t.history, r);
    SuffixIsShorter(t.view.buf, t.history);
  }

  lemma JudgedKeepsInv(t: Trace, accept: bool)
    requires Inv(t) && t.view.candidate.Some? && t.reports != []
    ensures Inv(Judged(t, accept))
  {
    hide Genuine, IsSuffix, Consume, ValidLock;
    VerdictDrops(t, accept);
    ConsumeKeepsSuffix(t.view, accept);
    SuffixOfSuffix(Consume(t.view, accept).buf, t.view.buf, t.history);
    GenuineWhateverVerdict(t.history, t.reports[|t.reports| - 1], if accept then Accepted else Rejected);
  }

  lemma GenuineWhateverVerdict(history: seq<Byte>, r: Report, verdict: Verdict)
    requires Genuine(history, r)
    ensures Genuine(history, r.(verdict := verdict))
  {
    hide Spanned, Slice;
  }

  lemma ReportFits(history: seq<Byte>, r: Report)
    requires Genuine(history, r)
    ensures r.lock.start + r.size <= |history| && r.size >= 3
  {
  }

  lemma ConsumeKeepsSuffix(v: View, accept: bool)
    requires ValidView(v) && v.candidate.Some?
    ensures IsSuffix(Consume(v, accept).buf, v.buf)
    ensures ValidView(Consume(v, accept)) && Consume(v, accept).candidate.None?
  {
  }

  /** The state after the first `n` operations. */
  function RunUpTo(ops: seq<Op>, n: nat): Trace
    requires n <= |ops|
  {
    if n == 0 then START else Step(RunUpTo(ops, n - 1), ops[n - 1])
  }

  /** No fabricated frames: in every run the buffer is a suffix of the bytes taken, and the
      reported candidates are faithful to them. */
  lemma {:induction false} RunIsFaithful(ops: seq<Op>, n: nat)
    requires n <= |ops|
    ensures Inv(RunUpTo(ops, n))
  {
    if n > 0 {
      hide Inv, Step;
      RunIsFaithful(ops, n - 1);
      StepKeepsInv(RunUpTo(ops, n - 1), ops[n - 1]);
    } else {
      assert Inv(START);
    }
  }

  // ---- how much a verdict drops -------------------------------------------------------

  /** The candidate's indices name the last report's place. */
  predicate Fresh(t: Trace) {
    && t.view.candidate.Some? && t.reports != []
    && var r, span := t.reports[|t.reports| - 1], t.view.candidate.value;
       r.lock.start == t.Base() + span.first && r.lock.start + r.size == t.Base() + span.end
  }

  /** What a verdict leaves of the bytes taken: an accepted candidate goes whole, a rejected one loses
      its first raw byte and no more, unless the buffer is nearly full and is cut to 16 bytes. */
  lemma VerdictIsExact(t: Trace, accept: bool)
    requires Inv(t) && Fresh(t)
    ensures var r, after := t.reports[|t.reports| - 1], Step(t, Judge(accept));
      var next := r.lock.start + if accept then r.size else 1;
      && next <= |t.history|
      && after.history == t.history && after.Base() == if |t.history| - next < 8176 then next else |t.history| - 16
  {
    hide Genuine, ValidLock, IsSuffix;
    ReportFits(t.history, t.reports[|t.reports| - 1]);
    SuffixIsShorter(t.view.buf, t.history);
  }

  /** A second verdict, or one on nothing, changes nothing. */
  lemma VerdictOnNothing(t: Trace, first: bool, second: bool)
    requires Inv(t)
    ensures var after := Step(t, Judge(first)); Step(after, Judge(second)) == after
    ensures t.view.candidate.None? ==> Step(t, Judge(first)) == t
  {
    hide Faithful, ValidLock, IsSuffix;
  }

  /** Right after a poll that reports something the candidate is fresh. */
  lemma ReportIsFresh(t: Trace, frame: seq<Byte>, capacity: nat)
    requires Inv(t) && |Step(t, PollOnce(frame, capacity)).reports| > |t.reports|
    ensures Fresh(Step(t, PollOnce(frame, capacity)))
  {
    assert ValidView(t.view);
    PollIsGenuine(t.view, frame, capacity);
    var o := PollWith(t.view, frame, capacity).outcome;
    hide PollWith, Genuine, ValidLock, Kept, ValidView;
    SuffixIsShorter(o.view.buf, t.view.buf);
    SuffixIsShorter(t.view.buf, t.history);
  }

  lemma FeedKeepsFresh(t: Trace, b: Byte)
    requires Fresh(t)
    ensures Fresh(Step(t, FeedByte(b)))
  {
  }

  lemma {:induction false} FeedsKeepFresh(ops: seq<Op>, m: nat, n: nat)
    requires 0 < m <= n <= |ops| && Fresh(RunUpTo(ops, m)) && forall i | m <= i < n :: ops[i].FeedByte?
    ensures Fresh(RunUpTo(ops, n)) && RunUpTo(ops, n).reports == RunUpTo(ops, m).reports
  {
    hide Fresh, Step;
    if m < n {
      FeedsKeepFresh(ops, m, n - 1);
      FeedKeepsFresh(RunUpTo(ops, n - 1), ops[n - 1].byte);
      FeedReportsNothing(RunUpTo(ops, n - 1), ops[n - 1].byte);
    }
  }

  lemma FeedReportsNothing(t: Trace, b: Byte)
    ensures Step(t, FeedByte(b)).reports == t.reports
  {
  }

  /** In every run a verdict on a report, with nothing but received bytes in between, lets the hunt
      go on exactly behind an accepted candidate and exactly one raw byte behind the opening of a
      rejected one, unless the buffer is nearly full behind that. */
  lemma VerdictsInRuns(ops: seq<Op>, m: nat, n: nat)
    requires m < n < |ops| && ops[m].PollOnce? && ops[n].Judge? && forall i | m < i < n :: ops[i].FeedByte?
    requires |RunUpTo(ops, m + 1).reports| > |RunUpTo(ops, m).reports|
    ensures var t, after := RunUpTo(ops, n), RunUpTo(ops, n + 1);
      && t.reports == RunUpTo(ops, m + 1).reports
      && var r := t.reports[|t.reports| - 1];
         var next := r.lock.start + if ops[n].accept then r.size else 1;
         && next <= |t.history| && after.history == t.history
         && after.Base() == if |t.history| - next < 8176 then next else |t.history| - 16
  {
    hide Inv, Step, Fresh;
    RunIsFaithful(ops, m);
    RunIsFaithful(ops, n);
    ReportIsFresh(RunUpTo(ops, m), ops[m].frame, ops[m].capacity);
    FeedsKeepFresh(ops, m + 1, n);
    VerdictIsExact(RunUpTo(ops, n), ops[n].accept);
  }
}
