/** What a receiver makes of frames that arrive in batches: several bytes, possibly several frames,
    may be buffered before it drains.  While it hunts in 4 to 64 buffered bytes the exhaustive search
    can be misled by a longer span; whenever that is excluded, every frame is handed over. */
module Batches {
  import opened Words
  import opened Codec
  import opened Sync
  import opened SyncLaws
  import opened Wire
  import opened Receiver

  // ---- raw bytes in the buffer and bits on the line -----------------------------------

  /** The raw byte in which frame j starts, and the bit of that byte. */
  function First(t: Traffic, j: nat): nat
    requires Sendable(t) && j <= |t.payloads|
  {
    StartOf(t, j) / 8
  }

  function Bit(t: Traffic, j: nat): nat
    requires Sendable(t) && j <= |t.payloads|
  {
    StartOf(t, j) % 8
  }

  /** The first raw byte left after frame j - 1 has been accepted. */
  function Resume(t: Traffic, j: nat): nat
    requires Sendable(t) && j <= |t.payloads|
  {
    EndOf(t, j) / 8
  }

  /** Frame j has arrived completely with the first `to` raw bytes. */
  predicate Complete(t: Traffic, to: nat, j: nat)
    requires Sendable(t)
  {
    j < |t.payloads| && EndOf(t, j + 1) <= 8 * to
  }

  /** The opening flag of frame j can be seen in the first `to` raw bytes. */
  predicate Seen(t: Traffic, to: nat, j: nat)
    requires Sendable(t) && j <= |t.payloads|
  {
    First(t, j) + 1 < to
  }

  /** The buffer holds the raw bytes from `base` up to `to`, and frame j is the next to come. */
  predicate Ahead(t: Traffic, base: nat, to: nat, j: nat)
    requires Sendable(t)
  {
    && j <= |t.payloads| && base <= to <= |Raw(t)|
    && Resume(t, j) <= base <= First(t, j)
  }

  function Window(t: Traffic, base: nat, to: nat): seq<Byte>
    requires Sendable(t) && base <= to <= |Raw(t)|
  {
    Raw(t)[base..to]
  }

  /** Where frame j opens in the buffer. */
  function Place(t: Traffic, base: nat, j: nat): Lock
    requires Sendable(t) && j <= |t.payloads| && base <= First(t, j)
  {
    Lock(First(t, j) - base, RightPhase(Bit(t, j)))
  }

  /** The aligned bytes of a buffered stretch are windows of the line. */
  lemma AlignedOnLine(t: Traffic, base: nat, to: nat, s: nat, k: nat)
    requires Sendable(t) && base <= to <= |Raw(t)| && k < 8 && s < AlignedCount(to - base, k)
    ensures var q := 8 * (base + s) + k;
      q + 8 <= |Line(t)| && Aligned(Window(t, base, to), s, RightPhase(k)) == Line(t)[q..q + 8]
  {
    hide Line, Aligned;
    AlignedInPart(Raw(t), base, to, s, RightPhase(k));
    AlignedIsWindow(Line(t), base + s, k);
  }

  lemma FlagOnLine(t: Traffic, base: nat, to: nat, s: nat, k: nat)
    requires Sendable(t) && base <= to <= |Raw(t)| && k < 8 && s < AlignedCount(to - base, k)
    ensures IsFlag(Window(t, base, to), s, RightPhase(k)) <==> FlagAt(Line(t), 8 * (base + s) + k)
  {
    AlignedOnLine(t, base, to, s, k);
    hide Line, Aligned, Raw;
  }

  lemma OpeningFlag(t: Traffic, j: nat)
    requires Sendable(t) && j < |t.payloads|
    ensures Size(t, j) >= 4 && FlagAt(Line(t), StartOf(t, j))
  {
    hide Encoding, Line, FlagAt, StartOf;
    EncodedSize(t.payloads[j], true);
    FlagsOfFrame(t, j, 0);
  }

  /** Past the last frame nothing is to be seen. */
  lemma SeenIsFrame(t: Traffic, to: nat, j: nat)
    requires Sendable(t) && j <= |t.payloads| && to <= |Raw(t)| && Seen(t, to, j)
    ensures j < |t.payloads|
  {
    hide Line, LineUpTo;
  }

  /** A complete frame has been seen, and ends where its layout says. */
  lemma CompleteIsSeen(t: Traffic, base: nat, to: nat, j: nat)
    requires Sendable(t) && Ahead(t, base, to, j) && j < |t.payloads|
    ensures 4 <= Size(t, j) <= MAX_FRAME
    ensures Resume(t, j + 1) == First(t, j) + Size(t, j)
    ensures Complete(t, to, j) <==> First(t, j) - base + Size(t, j) <= AlignedCount(to - base, Bit(t, j))
    ensures Complete(t, to, j) ==> Seen(t, to, j) && Resume(t, j + 1) <= to
  {
    hide Line, LineUpTo, Encoding, Raw;
    EndOfNext(t, j);
    OpeningFlag(t, j);
  }

  lemma ResumeBeforeFirst(t: Traffic, j: nat)
    requires Sendable(t) && j <= |t.payloads|
    ensures Resume(t, j) <= First(t, j)
  {
    hide Line, LineUpTo;
    EndFits(t, j);
  }

  // ---- hunting ------------------------------------------------------------------------

  lemma FlagsAhead(t: Traffic, base: nat, to: nat, j: nat, s: nat, k: nat)
    requires Sendable(t) && Ahead(t, base, to, j) && k < 8 && s + 1 < to - base
    ensures 8 * (base + s) + k < StartOf(t, j) ==> !IsFlag(Window(t, base, to), s, RightPhase(k))
    ensures 8 * (base + s) + k == StartOf(t, j) && j < |t.payloads| ==> IsFlag(Window(t, base, to), s, RightPhase(k))
  {
    hide Line, Raw, IsFlag, FlagAt, StartOf, LineUpTo, Window;
    FlagOnLine(t, base, to, s, k);
    if 8 * (base + s) + k < StartOf(t, j) {
      NoFlagBetween(t, j, 8 * (base + s) + k);
    } else if j < |t.payloads| {
      OpeningFlag(t, j);
    }
  }

  /** No flag is readable before bit `limit` of the window at a right-shift phase. */
  predicate NoneBefore(w: seq<Byte>, limit: nat) {
    forall s: nat, k: nat | s + 1 < |w| && k < 8 && 8 * s + k < limit :: !IsFlag(w, s, RightPhase(k))
  }

  /** The fast search finds the first flag in the order of raw index and right shift. */
  lemma FirstFlagIsFound(w: seq<Byte>, s: nat, k: nat)
    requires k < 8 && NoneBefore(w, 8 * s + k)
    requires s + 1 < |w| ==> IsFlag(w, s, RightPhase(k))
    ensures FirstOpening(w, 0) == if s + 1 < |w| then Some(Lock(s, RightPhase(k))) else None
  {
    hide IsFlag, FirstOpening;
    if s + 1 < |w| {
      assert !NoOpening(w, s);
    }
  }

  lemma NoFlagAhead(t: Traffic, base: nat, to: nat, j: nat)
    requires Sendable(t) && Ahead(t, base, to, j)
    ensures NoneBefore(Window(t, base, to), StartOf(t, j) - 8 * base)
  {
    var w := Window(t, base, to);
    WindowSize(t, base, to);
    hide Line, Raw, IsFlag, StartOf, Window, Sendable, LineUpTo, Encoding, Size;
    forall s: nat, k: nat | s + 1 < |w| && k < 8 && 8 * s + k < StartOf(t, j) - 8 * base
      ensures !IsFlag(w, s, RightPhase(k))
    {
      FlagsAhead(t, base, to, j, s, k);
    }
  }

  /** The fast search finds the next frame's opening, as soon as it can be seen. */
  lemma FastSearchFinds(t: Traffic, base: nat, to: nat, j: nat)
    requires Sendable(t) && Ahead(t, base, to, j)
    ensures FirstOpening(Window(t, base, to), 0) == if Seen(t, to, j) then Some(Place(t, base, j)) else None
  {
    hide Line, Raw, IsFlag, StartOf, FirstOpening, Window, Sendable, LineUpTo, Encoding, Size, NoneBefore;
    WindowSize(t, base, to);
    NoFlagAhead(t, base, to, j);
    if Seen(t, to, j) {
      SeenIsFrame(t, to, j);
      FlagsAhead(t, base, to, j, First(t, j) - base, Bit(t, j));
    }
    FirstFlagIsFound(Window(t, base, to), First(t, j) - base, Bit(t, j));
  }

  lemma WindowSize(t: Traffic, base: nat, to: nat)
    requires Sendable(t) && base <= to <= |Raw(t)|
    ensures |Window(t, base, to)| == to - base
  {
  }

  /** Length of frame j if the search can see all of it, 0 otherwise. */
  function OwnSize(t: Traffic, to: nat, j: nat): nat
    requires Sendable(t) && j <= |t.payloads|
  {
    if Complete(t, to, j) then Size(t, j) else 0
  }

  function OwnRank(t: Traffic, base: nat, j: nat): nat
    requires Sendable(t) && j <= |t.payloads| && base <= First(t, j)
  {
    Rank(First(t, j) - base, Bit(t, j), Bit(t, j) > 0)
  }

  /** In a window short enough for the exhaustive search no complete span, at any start, phase and
      direction, is longer than the next frame's own, nor as long and earlier in scan order. */
  predicate Clear(t: Traffic, base: nat, to: nat, j: nat)
    requires Sendable(t) && Ahead(t, base, to, j)
  {
    var w := Window(t, base, to);
    MIN_FRAME <= |w| <= SHORT_SEARCH_LIMIT ==>
      forall r | 0 <= r < 16 * (|w| - 1) && SizeAt(w, r) > 0 ::
        SizeAt(w, r) < OwnSize(t, to, j) || (SizeAt(w, r) == OwnSize(t, to, j) && r >= OwnRank(t, base, j))
  }

  /** Locked on frame j, the only closing flag is the frame's last byte. */
  lemma ClosesInFrame(t: Traffic, base: nat, to: nat, j: nat, x: nat)
    requires Sendable(t) && Ahead(t, base, to, j) && j < |t.payloads| && x < Size(t, j)
    ensures Bit(t, j) < 8
    ensures ClosesAt(Window(t, base, to), Place(t, base, j), x)
            <==> First(t, j) - base + x < AlignedCount(to - base, Bit(t, j)) && (x == 0 || x == Size(t, j) - 1)
  {
    hide Line, Raw, Encoding, StartOf, Aligned, FlagAt;
    var s, k := First(t, j) - base + x, Bit(t, j);
    if s < AlignedCount(to - base, k) {
      FlagOnLine(t, base, to, s, k);
      FlagsOfFrame(t, j, x);
    }
  }

  lemma FrameCloses(t: Traffic, base: nat, to: nat, j: nat, from: nat, limit: nat)
    requires Sendable(t) && Ahead(t, base, to, j) && j < |t.payloads| && 2 <= from <= 3
    requires limit >= Size(t, j) || limit >= to - base
    ensures Bit(t, j) < 8
    ensures CloseFrom(Window(t, base, to), Place(t, base, j), from, limit)
            == if Complete(t, to, j) then Some(Size(t, j) - 1) else None
  {
    hide ClosesAt, Line, Raw, Encoding, StartOf, CloseFrom, Window;
    var w, l := Window(t, base, to), Place(t, base, j);
    CompleteIsSeen(t, base, to, j);
    WindowSize(t, base, to);
    forall x: nat | x < Size(t, j)
      ensures ClosesAt(w, l, x) <==> l.start + x < AlignedCount(to - base, Bit(t, j)) && (x == 0 || x == Size(t, j) - 1)
    {
      ClosesInFrame(t, base, to, j, x);
    }
    if Complete(t, to, j) {
      FirstClose(w, l, from, limit, Size(t, j) - 1);
    } else {
      forall x: nat | x >= Size(t, j)
        ensures !ClosesAt(w, l, x)
      {
        NotReadable(w, l, x);
      }
      NoClose(w, l, from, limit);
    }
  }

  lemma NotReadable(buf: seq<Byte>, l: Lock, x: nat)
    requires l.phase.offset < 8 && l.start + x >= AlignedCount(|buf|, l.phase.offset)
    ensures !ClosesAt(buf, l, x)
  {
  }

  lemma OwnSpan(t: Traffic, base: nat, to: nat, j: nat)
    requires Sendable(t) && Ahead(t, base, to, j) && Seen(t, to, j)
    ensures SizeAt(Window(t, base, to), OwnRank(t, base, j)) == OwnSize(t, to, j)
    ensures AtRank(OwnRank(t, base, j)) == Place(t, base, j)
    ensures OwnRank(t, base, j) < 16 * (to - base - 1)
  {
    hide Line, Raw, Encoding, StartOf, CloseFrom, Window, IsFlag, Rank, AtRank, Resume;
    SeenIsFrame(t, to, j);
    var l := Place(t, base, j);
    WindowSize(t, base, to);
    FlagsAhead(t, base, to, j, l.start, l.phase.offset);
    FrameCloses(t, base, to, j, MIN_FRAME - 1, to - base);
    Accumulators.PlaceOfRank(l.start, l.phase.offset, l.phase.right);
    RankIsBounded(l.start, l.phase.offset, l.phase.right);
    CompleteIsSeen(t, base, to, j);
  }

  lemma RankIsBounded(start: nat, offset: nat, right: bool)
    requires offset < 8
    ensures Rank(start, offset, right) < 16 * (start + 1)
  {
  }

  lemma RankOfPlace(r: nat)
    ensures Rank(AtRank(r).start, AtRank(r).phase.offset, AtRank(r).phase.right) == r
  {
    var a, b := r / 16, r % 16;
    var c, d := b / 2, b % 2;
    Accumulators.DivMod(2, 8 * a + c, d);
    assert r == 16 * a + (2 * c + d) == 2 * (8 * a + c) + d;
  }

  /** A hunt in the window picks the next frame, or nothing while there is none to be seen, exactly
      if the window is clear. */
  lemma HuntIsRightIffClear(t: Traffic, base: nat, to: nat, j: nat)
    requires Sendable(t) && Ahead(t, base, to, j)
    ensures Hunt(Window(t, base, to), 0) == (if Seen(t, to, j) then Some(Place(t, base, j)) else None)
            <==> Clear(t, base, to, j)
  {
    hide Line, Raw, Encoding, StartOf, FirstOpening, Window, IsFlag, Rank, AtRank, Resume, SizeAt, BestRank, Seen;
    var w := Window(t, base, to);
    assert |w| == to - base by { WindowSize(t, base, to); }
    FastSearchFinds(t, base, to, j);
    if MIN_FRAME <= |w| <= SHORT_SEARCH_LIMIT {
      var best := BestRank(w, 0);
      BestRankIsBest(w, 0);
      if Seen(t, to, j) {
        OwnSpan(t, base, to, j);
        OwnBest(t, base, to, j, best);
      } else {
        NotSeenNotComplete(t, base, to, j);
      }
    }
  }

  lemma NotSeenNotComplete(t: Traffic, base: nat, to: nat, j: nat)
    requires Sendable(t) && Ahead(t, base, to, j) && !Seen(t, to, j)
    ensures !Complete(t, to, j)
  {
    hide Line, LineUpTo, Encoding, Raw, StartOf, EndOf;
    if j < |t.payloads| {
      CompleteIsSeen(t, base, to, j);
    }
  }

  /** The search is right exactly if nothing beats the frame's own span. */
  lemma OwnBest(t: Traffic, base: nat, to: nat, j: nat, best: Option<nat>)
    requires Sendable(t) && Ahead(t, base, to, j)
    requires var w := Window(t, base, to);
      && MIN_FRAME <= |w| <= SHORT_SEARCH_LIMIT && |w| == to - base
      && IsBest(w, 0, 16 * (|w| - 1), best)
      && SizeAt(w, OwnRank(t, base, j)) == OwnSize(t, to, j)
      && OwnRank(t, base, j) < 16 * (|w| - 1)
    requires AtRank(OwnRank(t, base, j)) == Place(t, base, j)
    ensures best.None? || AtRank(best.value) == Place(t, base, j) <==> Clear(t, base, to, j)
  {
    hide Line, Raw, Encoding, StartOf, Window, Rank, AtRank, Resume, SizeAt, Complete;
    var w, own := Window(t, base, to), OwnRank(t, base, j);
    if best.Some? {
      RankOfPlace(best.value);
      RankOfPlace(own);
      assert SizeAt(w, best.value) > 0;
    }
  }

  // ---- one poll -----------------------------------------------------------------------

  /** The accumulator between two drains: locked on frame j once its opening has been seen, hunting
      for it before. */
  function ViewAt(t: Traffic, base: nat, to: nat, j: nat): View
    requires Sendable(t) && Ahead(t, base, to, j)
  {
    var w := Window(t, base, to);
    if Seen(t, to, j) then View(w, AlignedCount(|w|, Bit(t, j)), Some(Place(t, base, j)), None)
    else View(w, 0, None, None)
  }

  /** Before a drain the accumulator is locked on frame j, or it hunts in a window that is clear. */
  predicate Poised(t: Traffic, base: nat, to: nat, j: nat, v: View)
    requires Sendable(t) && Ahead(t, base, to, j)
  {
    && v.buf == Window(t, base, to) && v.candidate.None?
    && if v.lock.Some? then Seen(t, to, j) && v.lock.value == Place(t, base, j)
       else v.processed == 0 && Clear(t, base, to, j)
  }

  /** The slice reported for frame j is its encoding. */
  lemma FrameIsSlice(t: Traffic, base: nat, to: nat, j: nat)
    requires Sendable(t) && Ahead(t, base, to, j) && Complete(t, to, j)
    ensures First(t, j) - base + Size(t, j) <= AlignedCount(|Window(t, base, to)|, Bit(t, j)) && Bit(t, j) < 8
    ensures Slice(Window(t, base, to), Place(t, base, j), Size(t, j)) == Encoding(t.payloads[j], true)
  {
    hide Line, Raw, Encoding, StartOf, Aligned, EndOf, Window, AlignedCount;
    CompleteIsSeen(t, base, to, j);
    WindowSize(t, base, to);
    var w, l, e := Window(t, base, to), Place(t, base, j), Encoding(t.payloads[j], true);
    forall x: nat | x < |e|
      ensures Aligned(w, l.start + x, l.phase) == e[x]
    {
      AlignedOnLine(t, base, to, l.start + x, Bit(t, j));
      WindowIsByte(t, j, x);
    }
    SliceIs(w, l, e);
  }

  lemma SliceIs(w: seq<Byte>, l: Lock, e: seq<Byte>)
    requires l.phase.offset < 8 && l.start + |e| <= AlignedCount(|w|, l.phase.offset)
    requires forall x: nat | x < |e| :: Aligned(w, l.start + x, l.phase) == e[x]
    ensures Slice(w, l, |e|) == e
  {
    hide Aligned;
  }

  lemma WindowIsByte(t: Traffic, j: nat, x: nat)
    requires Sendable(t) && j < |t.payloads| && x < Size(t, j)
    ensures var q := StartOf(t, j) + 8 * x;
      q + 8 <= |Line(t)| && Line(t)[q..q + 8] == Encoding(t.payloads[j], true)[x]
  {
    hide Line, Encoding, StartOf;
    var q, e := StartOf(t, j) + 8 * x, Encoding(t.payloads[j], true);
    FrameOnLine(t, j, 8 * x);
    var window := Line(t)[q..q + 8];
    forall b | 0 <= b < 8
      ensures window[b] == e[x][b]
    {
      FrameOnLine(t, j, 8 * x + b);
      StreamBit(e, true, x, b);
    }
    assert window == e[x];
  }

  /** The outcome of a poll that finds or has the next frame: the frame, or a lock that waits. */
  lemma PollOnFrame(t: Traffic, base: nat, to: nat, j: nat, v: View)
    requires Sendable(t) && Ahead(t, base, to, j) && Poised(t, base, to, j, v) && Seen(t, to, j)
    ensures j < |t.payloads|
    ensures var o, first := Poll(v, FRAME_CAPACITY), First(t, j) - base;
      if Complete(t, to, j) then
        && o.Ready? && o.lock == Place(t, base, j) && o.frame == Encoding(t.payloads[j], true)
        && o.view == View(v.buf, 0, None, Some(Span(first, first + Size(t, j))))
      else o == Waiting(ViewAt(t, base, to, j))
  {
    hide Line, Raw, Encoding, CloseFrom, Hunt, Slice, StartOf, EndOf, Poll, Track, Clear, Window;
    var l := Place(t, base, j);
    SeenIsFrame(t, to, j);
    WindowSize(t, base, to);
    CompleteIsSeen(t, base, to, j);
    HuntIsRightIffClear(t, base, to, j);
    FrameCloses(t, base, to, j, 2, MAX_FRAME);
    PollTracks(v, l);
    if Complete(t, to, j) {
      TrackEndsAt(v, l, Size(t, j));
      FrameIsSlice(t, base, to, j);
    } else {
      SpareRawByte(to - base, Bit(t, j));
      TrackStaysOpen(v, l, Size(t, j) - 1, FRAME_CAPACITY);
    }
  }

  /** A report from a short window has not given up any bytes. */
  lemma ShortPollKeeps(v: View)
    requires v.lock.None? && v.buf != [] && |v.buf| <= SHORT_SEARCH_LIMIT && Poll(v, FRAME_CAPACITY).Ready?
    ensures Hunt(v.buf, v.processed) == Some(Poll(v, FRAME_CAPACITY).lock)
    ensures Poll(v, FRAME_CAPACITY).view.buf == v.buf
  {
    hide Poll, Hunt, CloseFrom, Slice;
    PollSteps.PollHunts(v, FRAME_CAPACITY);
  }

  lemma PollTracks(v: View, l: Lock)
    requires v.buf != [] && l.phase.offset < 8
    requires v.lock == Some(l) || (v.lock.None? && Hunt(v.buf, v.processed) == Some(l))
    ensures Poll(v, FRAME_CAPACITY) == Track(v, l, FRAME_CAPACITY)
  {
    hide Hunt, Track;
  }

  lemma TrackEndsAt(v: View, l: Lock, size: nat)
    requires l.phase.offset < 8 && size > 0 && CloseFrom(v.buf, l, 2, MAX_FRAME) == Some(size - 1)
    ensures l.start + size <= AlignedCount(|v.buf|, l.phase.offset)
    ensures Track(v, l, FRAME_CAPACITY)
            == Ready(View(v.buf, 0, None, Some(Span(l.start, l.start + size))), l, Slice(v.buf, l, size))
  {
    hide Slice, Poll, CloseFrom, IsFlag, ClosesAt;
    assert Min(FRAME_CAPACITY, MAX_FRAME) == MAX_FRAME;
    CloseIsFlag(v.buf, l, size - 1);
    FlagIsReadable(v.buf, l.start + (size - 1), l.phase);
  }

  /** A hunting poll that cannot see the next frame yet keeps the last byte. */
  lemma PollBefore(t: Traffic, base: nat, to: nat, j: nat, v: View)
    requires Sendable(t) && Ahead(t, base, to, j) && Poised(t, base, to, j, v) && !Seen(t, to, j)
    ensures Ahead(t, Kept(base, to), to, j)
    ensures Poll(v, FRAME_CAPACITY) == Waiting(ViewAt(t, Kept(base, to), to, j))
  {
    hide Line, Raw, Encoding, Hunt, StartOf, EndOf, Poll, Track, Clear;
    HuntIsRightIffClear(t, base, to, j);
    if base == to {
      PollNothing(v);
    } else {
      PollSteps.PollHunts(v, FRAME_CAPACITY);
      LastByte(Raw(t), base, to);
    }
  }

  lemma PollNothing(v: View)
    requires v.buf == [] && v.lock.None?
    ensures Poll(v, FRAME_CAPACITY) == Waiting(v)
  {
  }

  lemma LastByte<T>(s: seq<T>, base: nat, to: nat)
    requires base < to <= |s|
    ensures s[base..to][to - base - 1..] == s[to - 1..to]
  {
  }

  /** What a hunting accumulator keeps of its buffer: the last byte. */
  function Kept(base: nat, to: nat): nat
    requires base <= to
  {
    if base < to then to - 1 else base
  }

  // ---- draining -----------------------------------------------------------------------

  /** Where a receiver stands: the first raw byte it still holds and the next frame. */
  datatype Stand = Stand(base: nat, next: nat)

  /** Behind a complete frame the next one is ahead. */
  lemma NextIsAhead(t: Traffic, base: nat, to: nat, j: nat)
    requires Sendable(t) && Ahead(t, base, to, j) && Complete(t, to, j)
    ensures Ahead(t, Resume(t, j + 1), to, j + 1) && Resume(t, j + 1) <= to
  {
    hide Line, LineUpTo, StartOf, EndOf, Raw, Encoding;
    CompleteIsSeen(t, base, to, j);
    ResumeBeforeFirst(t, j + 1);
  }

  lemma KeptIsAhead(t: Traffic, base: nat, to: nat, j: nat)
    requires Sendable(t) && Ahead(t, base, to, j) && !Seen(t, to, j)
    ensures Ahead(t, Kept(base, to), to, j)
  {
    hide Line, LineUpTo, StartOf, EndOf, Raw, Encoding;
  }

  /** Where a drain of the first `to` raw bytes leaves it. */
  function Drained(t: Traffic, base: nat, to: nat, j: nat): (s: Stand)
    requires Sendable(t) && j <= |t.payloads| && base <= to
    ensures j <= s.next <= |t.payloads| && s.base <= to
    decreases |t.payloads| - j
  {
    if Complete(t, to, j) then Drained(t, Min(Resume(t, j + 1), to), to, j + 1)
    else if Seen(t, to, j) then Stand(base, j)
    else Stand(Kept(base, to), j)
  }

  lemma {:induction false} DrainedIsAhead(t: Traffic, base: nat, to: nat, j: nat)
    requires Sendable(t) && j <= |t.payloads| && base <= to && Ahead(t, base, to, j)
    ensures var s := Drained(t, base, to, j);
      && Ahead(t, s.base, to, s.next) && !Complete(t, to, s.next)
      && (Seen(t, to, s.next) || to <= s.base + 1)
    decreases |t.payloads| - j
  {
    hide Line, LineUpTo, StartOf, EndOf, Raw, Encoding, Sendable, First, Size, Ahead, Seen, Resume;
    if Complete(t, to, j) {
      NextIsAhead(t, base, to, j);
      DrainedIsAhead(t, Resume(t, j + 1), to, j + 1);
    } else if !Seen(t, to, j) {
      KeptIsAhead(t, base, to, j);
    }
  }

  /** No hunt of the drain is misled: the window behind each frame completed by it is clear. */
  predicate ClearBehind(t: Traffic, to: nat, j: nat)
    requires Sendable(t) && to <= |Raw(t)|
  {
    forall i | j < i <= |t.payloads| && EndOf(t, i) <= 8 * to :: ClearAfter(t, to, i)
  }

  predicate ClearAfter(t: Traffic, to: nat, i: nat)
    requires Sendable(t) && to <= |Raw(t)| && i <= |t.payloads| && EndOf(t, i) <= 8 * to
  {
    ResumeBeforeFirst(t, i);
    Clear(t, Resume(t, i), to, i)
  }

  /** What is left behind a completed frame is not cut down to the buffer's tail. */
  predicate NotCut(t: Traffic, to: nat, j: nat)
    requires Sendable(t)
  {
    Complete(t, to, j) ==> to - Resume(t, j + 1) < MAX_BUFFER - TAIL_KEPT
  }

  /** A drain hands over every complete frame and rejects nothing. */
  lemma {:induction false} DrainHandsOver(t: Traffic, base: nat, to: nat, j: nat, rx: Rx)
    requires Sendable(t) && Ahead(t, base, to, j) && ValidRx(rx) && rx.streak == 0
    requires Poised(t, base, to, j, rx.view) && ClearBehind(t, to, j) && NotCut(t, to, j)
    ensures var s := Drained(t, base, to, j);
      && Ahead(t, s.base, to, s.next)
      && Drain(rx) == Rx(ViewAt(t, s.base, to, s.next), 0, rx.delivered + t.payloads[j..s.next], rx.failures)
    decreases |t.payloads| - j
  {
    hide Line, Raw, Encoding, StartOf, EndOf, Poll, Drain, Clear, Window, Judge, ViewAt, Resume, Sendable, First, Size;
    DrainedIsAhead(t, base, to, j);
    if Complete(t, to, j) {
      NextIsAhead(t, base, to, j);
      var next := FrameHandedOver(t, base, to, j, rx);
      NextIsClear(t, to, j);
      DrainHandsOver(t, Resume(t, j + 1), to, j + 1, next);
      SliceCons(t.payloads, j, Drained(t, base, to, j).next);
      Assoc(rx.delivered, [t.payloads[j]], t.payloads[j + 1..Drained(t, base, to, j).next]);
    } else {
      assert rx.delivered + t.payloads[j..j] == rx.delivered;
      DrainNext(rx);
      if Seen(t, to, j) {
        PollOnFrame(t, base, to, j, rx.view);
      } else {
        PollBefore(t, base, to, j, rx.view);
      }
    }
  }

  lemma SliceCons<T>(s: seq<T>, i: nat, n: nat)
    requires i < n <= |s|
    ensures s[i..n] == [s[i]] + s[i + 1..n]
  {
  }

  /** A complete frame is decoded, accepted and dropped, and the hunt goes on behind it. */
  lemma FrameHandedOver(t: Traffic, base: nat, to: nat, j: nat, rx: Rx) returns (next: Rx)
    requires Sendable(t) && j < |t.payloads| && to <= |Raw(t)| && Ahead(t, base, to, j) && ValidRx(rx)
    requires Poised(t, base, to, j, rx.view) && NotCut(t, to, j) && Complete(t, to, j)
    ensures Ahead(t, Resume(t, j + 1), to, j + 1)
    ensures next == Rx(View(Window(t, Resume(t, j + 1), to), 0, None, None), 0, rx.delivered + [t.payloads[j]], rx.failures)
    ensures ValidRx(next) && Drain(rx) == Drain(next)
    ensures var o := Poll(rx.view, FRAME_CAPACITY);
      && o.Ready? && next == Judge(rx, o.view, o.frame)
      && o.lock == Place(t, base, j) && o.frame == Encoding(t.payloads[j], true) && |o.view.buf| == to - base
  {
    hide Line, Raw, Encoding, StartOf, EndOf, Poll, Drain, Clear, Decoding, Window, Consume, NotCut, ValidRx,
         Complete, Sendable, First, Resume, Size, ValidView;
    NextIsAhead(t, base, to, j);
    assert Seen(t, to, j) by { CompleteIsSeen(t, base, to, j); }
    PollOnFrame(t, base, to, j, rx.view);
    WindowSize(t, base, to);
    DecodesBack(t, j);
    var o := Poll(rx.view, FRAME_CAPACITY);
    next := Judge(rx, o.view, o.frame);
    AcceptLeaves(t, base, to, j, o.view);
    DrainNext(rx);
  }

  lemma NextIsClear(t: Traffic, to: nat, j: nat)
    requires Sendable(t) && j < |t.payloads| && to <= |Raw(t)| && Complete(t, to, j)
    requires Ahead(t, Resume(t, j + 1), to, j + 1)
    requires ClearBehind(t, to, j) && NotCut(t, to, j)
    ensures Clear(t, Resume(t, j + 1), to, j + 1) && ClearBehind(t, to, j + 1) && NotCut(t, to, j + 1)
  {
    hide Line, Raw, Encoding, StartOf, EndOf, Clear, Ahead, Sendable, First, Size;
    assert ClearAfter(t, to, j + 1);
    LaterIsNotCut(t, to, j);
  }

  lemma AcceptLeaves(t: Traffic, base: nat, to: nat, j: nat, v: View)
    requires Sendable(t) && Ahead(t, base, to, j) && Complete(t, to, j) && NotCut(t, to, j)
    requires Ahead(t, Resume(t, j + 1), to, j + 1)
    requires var first := First(t, j) - base;
      v == View(Window(t, base, to), 0, None, Some(Span(first, first + Size(t, j))))
    ensures Consume(v, true) == View(Window(t, Resume(t, j + 1), to), 0, None, None)
  {
    hide Line, Raw, Encoding, StartOf, EndOf;
    CompleteIsSeen(t, base, to, j);
    var n := First(t, j) - base + Size(t, j);
    assert Window(t, base, to)[n..] == Window(t, Resume(t, j + 1), to);
  }

  lemma LaterIsNotCut(t: Traffic, to: nat, j: nat)
    requires Sendable(t) && Complete(t, to, j) && NotCut(t, to, j)
    ensures NotCut(t, to, j + 1)
  {
    hide Line, LineUpTo, Encoding;
    if j + 1 < |t.payloads| {
      EndOfNext(t, j + 1);
    }
  }

  lemma DecodesBack(t: Traffic, j: nat)
    requires Sendable(t) && j < |t.payloads|
    ensures Decoding(Encoding(t.payloads[j], true), PAYLOAD_CAPACITY, true) == Payload(t.payloads[j])
  {
    hide Encoding, Decoding;
    EncodedSize(t.payloads[j], true);
    RoundTrip(t.payloads[j], PAYLOAD_CAPACITY, true);
  }
}
