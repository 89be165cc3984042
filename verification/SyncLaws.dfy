/** What every poll guarantees, whatever the raw bytes are. */
module SyncLaws {
  import opened Words
  import opened Sync

  predicate IsSuffix<T(==)>(s: seq<T>, t: seq<T>) {
    |s| <= |t| && s == t[|t| - |s|..]
  }

  /** A reported candidate is exactly the aligned bytes at its place, with a flag at both ends and
      none at indices 2 to length - 2. */
  predicate WellReported(buf: seq<Byte>, l: Lock, frame: seq<Byte>) {
    && ValidPhase(l.phase)
    && 3 <= |frame| <= MAX_FRAME
    && l.start + |frame| <= AlignedCount(|buf|, l.phase.offset)
    && frame == Slice(buf, l, |frame|)
    && frame[0] == FLAG && frame[|frame| - 1] == FLAG
    && forall j | 2 <= j < |frame| - 1 :: frame[j] != FLAG
  }

  /** A flag at both ends and none at indices 2 to length - 2, as of every candidate. */
  predicate Candidate(frame: seq<Byte>) {
    && 3 <= |frame| <= MAX_FRAME && frame[0] == FLAG && frame[|frame| - 1] == FLAG
    && forall j | 2 <= j < |frame| - 1 :: frame[j] != FLAG
  }

  /** Nothing is left unexamined: a hunting accumulator keeps one byte of overlap at most, a
      locked one has at most the raw byte that the next aligned byte still needs. */
  predicate Settled(v: View) {
    if v.lock.None? then |v.buf| <= 1 && v.processed == 0 else |v.buf| - v.processed <= 1
  }

  /** The guarantees of one poll. */
  predicate Sound(v: View, capacity: nat, o: Outcome) {
    && ValidView(o.view)
    && IsSuffix(o.view.buf, v.buf)
    && (o.Ready? ==>
          && WellReported(o.view.buf, o.lock, o.frame)
          && |o.frame| <= capacity
          && o.view == View(o.view.buf, 0, None, Some(Span(o.lock.start, o.lock.start + |o.frame|))))
    && (o.Waiting? ==> o.view.candidate.None? || o.view.candidate == v.candidate)
    && (o.TooLong? ==> o.view.candidate.None? && o.view.lock.None? && capacity < MAX_FRAME)
    && (o.Waiting? && capacity >= MAX_FRAME ==> Settled(o.view))
  }

  lemma PollIsSound(v: View, capacity: nat)
    requires ValidView(v)
    ensures Sound(v, capacity, Poll(v, capacity))
    decreases |v.buf|, 1
  {
    hide Hunt, CloseFrom, IsFlag, ClosesAt, WellReported, Track;
    if capacity != 0 && v.buf != [] {
      var l := if v.lock.Some? then v.lock else Hunt(v.buf, v.processed);
      if l.Some? {
        TrackIsSound(v, l.value, capacity);
      }
    }
  }

  lemma TrackIsSound(v: View, l: Lock, capacity: nat)
    requires |v.buf| <= MAX_BUFFER && v.processed <= |v.buf| && capacity > 0
    requires ValidPhase(l.phase) && IsFlag(v.buf, l.start, l.phase)
    ensures Sound(v, capacity, Track(v, l, capacity))
    decreases |v.buf|, 0
  {
    hide CloseFrom, IsFlag, ClosesAt, Slice, Sound, AlignedCount, Poll;
    var n := AlignedCount(|v.buf|, l.phase.offset);
    FlagIsReadable(v.buf, l.start, l.phase);
    var c := CloseFrom(v.buf, l, 2, Min(capacity, MAX_FRAME));
    if c.Some? {
      ReadyIsSound(v, l, capacity, c.value);
    } else if capacity >= MAX_FRAME && |v.buf| - l.start > MAX_FRAME {
      var rest := View(v.buf[l.start + 1..], 0, None, None);
      PollIsSound(rest, capacity);
      SoundAfterDrop(v, l.start + 1, capacity, Poll(rest, capacity));
    } else if capacity < MAX_FRAME && n > l.start + capacity {
      TooLongIsSound(v, capacity);
    } else {
      assert n <= l.start + Min(capacity, MAX_FRAME) by { SpareRawByte(|v.buf|, l.phase.offset); }
      WaitingIsSound(v, l, capacity);
    }
  }

  lemma FlagIsReadable(buf: seq<Byte>, i: nat, p: Phase)
    requires p.offset < 8 && IsFlag(buf, i, p)
    ensures i < AlignedCount(|buf|, p.offset) <= |buf|
  {
  }

  lemma SpareRawByte(n: nat, offset: nat)
    ensures AlignedCount(n, offset) <= n <= AlignedCount(n, offset) + 1
  {
  }

  lemma ReadyIsSound(v: View, l: Lock, capacity: nat, c: nat)
    requires |v.buf| <= MAX_BUFFER && capacity > 0
    requires ValidPhase(l.phase) && IsFlag(v.buf, l.start, l.phase)
    requires CloseFrom(v.buf, l, 2, Min(capacity, MAX_FRAME)) == Some(c)
    ensures l.start + c < AlignedCount(|v.buf|, l.phase.offset)
    ensures Sound(v, capacity,
                  Ready(View(v.buf, 0, None, Some(Span(l.start, l.start + c + 1))), l, Slice(v.buf, l, c + 1)))
  {
    hide CloseFrom, WellReported, Slice, IsFlag, ClosesAt;
    CloseIsFlag(v.buf, l, c);
    FlagIsReadable(v.buf, l.start + c, l.phase);
    ClosedIsWellReported(v.buf, l, c);
  }

  lemma CloseIsFlag(buf: seq<Byte>, l: Lock, c: nat)
    requires l.phase.offset < 8 && ClosesAt(buf, l, c)
    ensures IsFlag(buf, l.start + c, l.phase)
  {
  }

  lemma TooLongIsSound(v: View, capacity: nat)
    requires |v.buf| <= MAX_BUFFER && v.processed <= |v.buf| && capacity < MAX_FRAME
    ensures Sound(v, capacity, TooLong(View(v.buf, v.processed, None, None)))
  {
  }

  lemma WaitingIsSound(v: View, l: Lock, capacity: nat)
    requires |v.buf| <= MAX_BUFFER && ValidPhase(l.phase) && IsFlag(v.buf, l.start, l.phase)
    requires AlignedCount(|v.buf|, l.phase.offset) <= l.start + Min(capacity, MAX_FRAME)
    requires CloseFrom(v.buf, l, 2, Min(capacity, MAX_FRAME)).None?
    ensures Sound(v, capacity, Waiting(View(v.buf, AlignedCount(|v.buf|, l.phase.offset), Some(l), None)))
  {
    WaitingIsValid(v.buf, l, Min(capacity, MAX_FRAME));
    hide CloseFrom, ValidLock, IsFlag;
  }

  lemma SoundAfterDrop(v: View, n: nat, capacity: nat, o: Outcome)
    requires n <= |v.buf| && Sound(View(v.buf[n..], 0, None, None), capacity, o)
    ensures Sound(v, capacity, o)
  {
    SuffixOfSuffix(o.view.buf, v.buf[n..], v.buf);
    hide ValidView, WellReported;
  }

  lemma SuffixOfSuffix<T>(r: seq<T>, s: seq<T>, t: seq<T>)
    requires IsSuffix(r, s) && IsSuffix(s, t)
    ensures IsSuffix(r, t)
  {
  }

  lemma WaitingIsValid(buf: seq<Byte>, l: Lock, limit: nat)
    requires ValidPhase(l.phase) && IsFlag(buf, l.start, l.phase)
    requires AlignedCount(|buf|, l.phase.offset) <= l.start + limit && limit <= MAX_FRAME
    requires CloseFrom(buf, l, 2, limit).None?
    ensures ValidLock(buf, AlignedCount(|buf|, l.phase.offset), l)
  {
  }

  lemma ClosedIsWellReported(buf: seq<Byte>, l: Lock, c: nat)
    requires ValidPhase(l.phase) && IsFlag(buf, l.start, l.phase)
    requires 2 <= c < MAX_FRAME && ClosesAt(buf, l, c)
    requires forall j | 2 <= j < c :: !ClosesAt(buf, l, j)
    ensures WellReported(buf, l, Slice(buf, l, c + 1))
  {
    hide Aligned;
    var frame := Slice(buf, l, c + 1);
    assert frame[0] == FLAG && frame[c] == FLAG;
    forall j | 2 <= j < c
      ensures frame[j] != FLAG
    {
      assert !ClosesAt(buf, l, j);
    }
  }

  /** The closing index is determined by its place and by there being none before it. */
  lemma FirstClose(buf: seq<Byte>, l: Lock, k: nat, limit: nat, c: nat)
    requires l.phase.offset < 8 && k <= c < limit && ClosesAt(buf, l, c)
    requires forall j | k <= j < c :: !ClosesAt(buf, l, j)
    ensures CloseFrom(buf, l, k, limit) == Some(c)
  {
    hide ClosesAt;
  }

  lemma NoClose(buf: seq<Byte>, l: Lock, k: nat, limit: nat)
    requires l.phase.offset < 8 && forall j | k <= j < limit :: !ClosesAt(buf, l, j)
    ensures CloseFrom(buf, l, k, limit).None?
  {
    hide ClosesAt;
  }

  lemma TrackCloses(v: View, l: Lock, capacity: nat, c: nat)
    requires l.phase.offset < 8 && CloseFrom(v.buf, l, 2, Min(capacity, MAX_FRAME)) == Some(c)
    ensures var o := Track(v, l, capacity);
      o.Ready? && o.lock == l && l.start + c < AlignedCount(|v.buf|, l.phase.offset)
      && o.frame == Slice(v.buf, l, c + 1)
  {
  }

  // ---- the exhaustive search ----------------------------------------------------------

  /** In a short window the same poll reports the span the search chose, which is a longest one
      over all places, unless the third aligned byte is already a flag. */
  lemma ShortPollReportsBest(v: View, capacity: nat)
    requires v.lock.None? && MIN_FRAME <= |v.buf| <= SHORT_SEARCH_LIMIT
    requires BestRank(v.buf, FirstRank(v)).Some?
    requires capacity >= |v.buf| || capacity >= SizeAt(v.buf, BestRank(v.buf, FirstRank(v)).value)
    ensures var best := BestRank(v.buf, FirstRank(v));
      && IsBest(v.buf, FirstRank(v), 16 * (|v.buf| - 1), best)
      && var l := AtRank(best.value);
         && ValidPhase(l.phase)
         && Poll(v, capacity).Ready? && Poll(v, capacity).lock == l
         && |Poll(v, capacity).frame| == if ClosesAt(v.buf, l, 2) then 3 else SizeAt(v.buf, best.value)
  {
    hide BestRank, AtRank, ClosesAt, CloseFrom, SpanSize, Track, FirstOpening;
    var best := BestRank(v.buf, FirstRank(v));
    BestRankIsBest(v.buf, FirstRank(v));
    var l := AtRank(best.value);
    SpanFits(v.buf, l);
    SpanCloses(v.buf, l, Min(capacity, MAX_FRAME));
    var c := if ClosesAt(v.buf, l, 2) then 2 else SizeAt(v.buf, best.value) - 1;
    assert Poll(v, capacity) == Track(v, l, capacity);
    TrackCloses(v, l, capacity, c);
  }

  lemma SpanIsClosed(buf: seq<Byte>, l: Lock)
    requires SpanSize(buf, l) > 0
    ensures ValidPhase(l.phase)
    ensures CloseFrom(buf, l, MIN_FRAME - 1, |buf|) == Some(SpanSize(buf, l) - 1)
  {
    hide CloseFrom, IsFlag;
  }

  /** A span lies inside the window. */
  lemma SpanFits(buf: seq<Byte>, l: Lock)
    ensures SpanSize(buf, l) > 0 ==>
              ValidPhase(l.phase) && l.start + SpanSize(buf, l) <= AlignedCount(|buf|, l.phase.offset) <= |buf|
  {
    hide SpanSize, CloseFrom, IsFlag, ClosesAt;
    if SpanSize(buf, l) > 0 {
      SpanIsClosed(buf, l);
      CloseIsFlag(buf, l, SpanSize(buf, l) - 1);
      FlagIsReadable(buf, l.start + (SpanSize(buf, l) - 1), l.phase);
    }
  }

  /** Where a span found by the exhaustive search ends when it is tracked. */
  lemma SpanCloses(buf: seq<Byte>, l: Lock, limit: nat)
    requires 0 < SpanSize(buf, l) <= limit
    ensures ValidPhase(l.phase)
    ensures CloseFrom(buf, l, 2, limit) == Some(if ClosesAt(buf, l, 2) then 2 else SpanSize(buf, l) - 1)
  {
    hide CloseFrom, SpanSize, ClosesAt, IsFlag;
    SpanIsClosed(buf, l);
    FirstCloseFromTwo(buf, l, limit, SpanSize(buf, l) - 1);
  }

  lemma FirstCloseFromTwo(buf: seq<Byte>, l: Lock, limit: nat, c: nat)
    requires ValidPhase(l.phase) && CloseFrom(buf, l, 3, |buf|) == Some(c) && limit > c
    ensures CloseFrom(buf, l, 2, limit) == Some(if ClosesAt(buf, l, 2) then 2 else c)
  {
    hide ClosesAt;
    assert CloseFrom(buf, l, 2, limit) == if ClosesAt(buf, l, 2) then Some(2) else CloseFrom(buf, l, 3, limit);
    if !ClosesAt(buf, l, 2) {
      FirstClose(buf, l, 3, limit, c);
    }
  }

  /** First place of the exhaustive search of a poll. */
  function FirstRank(v: View): nat {
    16 * if v.processed > 0 then v.processed - 1 else 0
  }

  // ---- resumability -------------------------------------------------------------------

  /** Feeds each chunk whole and polls after it, until a poll answers something. */
  function PollChunks(v: View, chunks: seq<seq<Byte>>, n: nat, capacity: nat): (o: Outcome)
    requires n <= |chunks| && ValidView(v)
    requires |v.buf| + Total(chunks, n) <= MAX_BUFFER
    ensures o.Waiting? ==> ValidView(o.view) && |o.view.buf| <= |v.buf| + Total(chunks, n)
  {
    if n == 0 then Waiting(v)
    else
      var o := PollChunks(v, chunks, n - 1, capacity);
      if !o.Waiting? then o
      else
        var fed := o.view.(buf := o.view.buf + chunks[n - 1]);
        FedIsValid(o.view, chunks[n - 1]);
        PollIsSound(fed, capacity);
        Poll(fed, capacity)
  }

  function Total(chunks: seq<seq<Byte>>, n: nat): nat
    requires n <= |chunks|
  {
    if n == 0 then 0 else Total(chunks, n - 1) + |chunks[n - 1]|
  }

  function Joined(chunks: seq<seq<Byte>>, n: nat): (s: seq<Byte>)
    requires n <= |chunks|
    ensures |s| == Total(chunks, n)
  {
    if n == 0 then [] else Joined(chunks, n - 1) + chunks[n - 1]
  }

  /** Aligned bytes of a stretch of raw bytes are those of the whole. */
  lemma AlignedInPart(raw: seq<Byte>, base: nat, i: nat, s: nat, p: Phase)
    requires base <= i <= |raw| && p.offset < 8 && s < AlignedCount(i - base, p.offset)
    ensures base + s < AlignedCount(|raw|, p.offset)
    ensures Aligned(raw[base..i], s, p) == Aligned(raw, base + s, p)
  {
    assert raw[base..i][s] == raw[base + s];
    if p.offset > 0 {
      assert raw[base..i][s + 1] == raw[base + s + 1];
    }
  }

  lemma FlagInLonger(buf: seq<Byte>, more: seq<Byte>, i: nat, p: Phase)
    requires p.offset < 8 && i < AlignedCount(|buf|, p.offset)
    ensures IsFlag(buf + more, i, p) == IsFlag(buf, i, p)
    ensures Aligned(buf + more, i, p) == Aligned(buf, i, p)
  {
    assert (buf + more)[i] == buf[i];
  }

  lemma FedIsValid(v: View, more: seq<Byte>)
    requires ValidView(v) && |v.buf| + |more| <= MAX_BUFFER
    ensures ValidView(v.(buf := v.buf + more))
  {
    if v.lock.Some? {
      var l := v.lock.value;
      FlagInLonger(v.buf, more, l.start, l.phase);
      forall j | 2 <= j < v.processed - l.start
        ensures !ClosesAt(v.buf + more, l, j)
      {
        assert !ClosesAt(v.buf, l, j);
        FlagInLonger(v.buf, more, l.start + j, l.phase);
      }
    }
  }

  /** Within the bytes a buffer already has, later bytes change nothing. */
  lemma CloseOnPart(part: seq<Byte>, more: seq<Byte>, l: Lock, c: nat, limit: nat)
    requires l.phase.offset < 8 && CloseFrom(part + more, l, 2, limit) == Some(c)
    ensures CloseFrom(part, l, 2, limit)
            == if l.start + c < AlignedCount(|part|, l.phase.offset) then Some(c) else None
  {
    var n := AlignedCount(|part|, l.phase.offset);
    forall j: nat | 2 <= j < limit
      ensures ClosesAt(part, l, j) ==> l.start + j < n && ClosesAt(part + more, l, j)
      ensures l.start + j < n && ClosesAt(part + more, l, j) ==> ClosesAt(part, l, j)
    {
      if l.start + j < n {
        FlagInLonger(part, more, l.start + j, l.phase);
      }
    }
    hide ClosesAt;
    if l.start + c < n {
      FirstClose(part, l, 2, limit, c);
    } else {
      NoClose(part, l, 2, limit);
    }
  }

  lemma SliceOnPart(part: seq<Byte>, more: seq<Byte>, l: Lock, n: nat)
    requires l.phase.offset < 8 && l.start + n <= AlignedCount(|part|, l.phase.offset)
    ensures Slice(part, l, n) == Slice(part + more, l, n)
  {
    forall k | 0 <= k < n
      ensures Slice(part, l, n)[k] == Slice(part + more, l, n)[k]
    {
      FlagInLonger(part, more, l.start + k, l.phase);
    }
  }

  /** A locked poll on part of the bytes of a candidate that closes at index `c`. */
  lemma PollOnPart(part: seq<Byte>, more: seq<Byte>, processed: nat, l: Lock, c: nat, capacity: nat)
    requires ValidLock(part, processed, l)
    requires CloseFrom(part + more, l, 2, Min(capacity, MAX_FRAME)) == Some(c)
    ensures l.start + c < AlignedCount(|part + more|, l.phase.offset)
    ensures var o := Poll(View(part, processed, Some(l), None), capacity);
      if l.start + c < AlignedCount(|part|, l.phase.offset)
      then o.Ready? && o.lock == l && o.frame == Slice(part + more, l, c + 1)
      else o == Waiting(View(part, AlignedCount(|part|, l.phase.offset), Some(l), None))
  {
    hide CloseFrom, Slice, IsFlag, ClosesAt, Poll, Track;
    var v := View(part, processed, Some(l), None);
    CloseIsFlag(part + more, l, c);
    FlagIsReadable(part + more, l.start + c, l.phase);
    CloseOnPart(part, more, l, c, Min(capacity, MAX_FRAME));
    PollTracksLock(v, l, capacity);
    if l.start + c < AlignedCount(|part|, l.phase.offset) {
      TrackCloses(v, l, capacity, c);
      SliceOnPart(part, more, l, c + 1);
    } else {
      TrackStaysOpen(v, l, c, capacity);
    }
  }

  lemma PollTracksLock(v: View, l: Lock, capacity: nat)
    requires v.lock == Some(l) && l.phase.offset < 8 && v.buf != [] && capacity > 0
    ensures Poll(v, capacity) == Track(v, l, capacity)
  {
    hide Track;
  }

  /** With a closing index still to come that the frame has room for, a lock is kept. */
  lemma TrackStaysOpen(v: View, l: Lock, c: nat, capacity: nat)
    requires l.phase.offset < 8 && c < Min(capacity, MAX_FRAME)
    requires AlignedCount(|v.buf|, l.phase.offset) <= l.start + c
    requires CloseFrom(v.buf, l, 2, Min(capacity, MAX_FRAME)).None?
    ensures Track(v, l, capacity) == Waiting(View(v.buf, AlignedCount(|v.buf|, l.phase.offset), Some(l), None))
  {
    hide CloseFrom, Slice, Poll;
  }

  /** What polling after each of some chunks has led to, when all bytes together are `all` and
      close the lock at index `c`. */
  predicate Resumed(v: View, all: seq<Byte>, fed: seq<Byte>, c: nat, o: Outcome)
    requires v.lock.Some? && v.lock.value.phase.offset < 8
    requires v.lock.value.start + c < AlignedCount(|all|, v.lock.value.phase.offset)
  {
    var l := v.lock.value;
    if o.Waiting? then
      o.view.lock == v.lock && o.view.candidate.None? && o.view.buf == fed && ValidView(o.view)
    else
      o.Ready? && o.lock == l && o.frame == Slice(all, l, c + 1)
  }

  lemma ResumedNext(v: View, w: View, more: seq<Byte>, rest: seq<Byte>, c: nat, capacity: nat)
    requires v.lock.Some? && v.lock.value.phase.offset < 8 && w.lock == v.lock && ValidView(w)
    requires |w.buf| + |more| <= MAX_BUFFER
    requires CloseFrom(w.buf + more + rest, v.lock.value, 2, Min(capacity, MAX_FRAME)) == Some(c)
    ensures v.lock.value.start + c < AlignedCount(|w.buf + more + rest|, v.lock.value.phase.offset)
    ensures ValidView(w.(buf := w.buf + more))
    ensures var o := Poll(w.(buf := w.buf + more), capacity);
      && Resumed(v, w.buf + more + rest, w.buf + more, c, o)
      && (rest == [] ==> o.Ready?)
  {
    var l := v.lock.value;
    var fed := w.(buf := w.buf + more);
    FedIsValid(w, more);
    PollOnPart(fed.buf, rest, fed.processed, l, c, capacity);
    PollIsSound(fed, capacity);
    assert rest == [] ==> fed.buf + rest == fed.buf;
    hide Poll, CloseFrom, Slice, ValidLock;
  }

  /** Resumability: once locked, the candidate reported is the aligned bytes from the lock to the
      first flag at index 2 or later, however its bytes are split across polls and whatever room
      the frame has, as long as it holds that candidate. */
  lemma {:induction false} ChunkingDoesNotMatter(v: View, chunks: seq<seq<Byte>>, n: nat, c: nat, capacity: nat)
    requires n <= |chunks| && ValidView(v) && v.lock.Some?
    requires |v.buf| + Total(chunks, |chunks|) <= MAX_BUFFER
    requires CloseFrom(v.buf + Joined(chunks, |chunks|), v.lock.value, 2, Min(capacity, MAX_FRAME)) == Some(c)
    ensures |v.buf| + Total(chunks, n) <= MAX_BUFFER
    ensures var o := PollChunks(v, chunks, n, capacity);
      && Resumed(v, v.buf + Joined(chunks, |chunks|), v.buf + Joined(chunks, n), c, o)
      && (0 < n == |chunks| ==> o.Ready?)
  {
    hide CloseFrom, Slice, Poll;
    TotalGrows(chunks, n, |chunks|);
    assert ClosesAt(v.buf + Joined(chunks, |chunks|), v.lock.value, c);
    if n == 0 {
      assert v.buf + Joined(chunks, 0) == v.buf;
    } else {
      hide IsFlag, ClosesAt, ValidLock;
      ChunkingDoesNotMatter(v, chunks, n - 1, c, capacity);
      var o := PollChunks(v, chunks, n - 1, capacity);
      if o.Waiting? {
        var rest := Joined(chunks, |chunks|)[|Joined(chunks, n)|..];
        JoinedSplits(chunks, n, |chunks|);
        Assoc(v.buf, Joined(chunks, n - 1), chunks[n - 1]);
        Assoc(v.buf, Joined(chunks, n), rest);
        ResumedNext(v, o.view, chunks[n - 1], rest, c, capacity);
      }
    }
  }

  lemma {:induction false} TotalGrows(chunks: seq<seq<Byte>>, n: nat, m: nat)
    requires n <= m <= |chunks|
    ensures Total(chunks, n) <= Total(chunks, m)
  {
    if n < m {
      TotalGrows(chunks, n, m - 1);
    }
  }

  lemma {:induction false} JoinedSplits(chunks: seq<seq<Byte>>, n: nat, m: nat)
    requires n <= m <= |chunks|
    ensures Joined(chunks, n) <= Joined(chunks, m)
    ensures Joined(chunks, n) + Joined(chunks, m)[|Joined(chunks, n)|..] == Joined(chunks, m)
  {
    if n < m {
      JoinedSplits(chunks, n, m - 1);
    }
  }
}
