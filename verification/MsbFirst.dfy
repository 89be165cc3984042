/** Bytes that were packed most significant bit first and arrive at an unknown bit offset: the
    left-shift phases of the exhaustive search rebuild them. */
module MsbFirst {
  import opened Words
  import opened Sync
  import opened SyncLaws
  import opened Wire
  import opened Batches
  import opened Encoder
  import opened Accumulators
  import opened PollSteps

  /** Some bits, then the bytes, then some bits, in raw bytes. */
  function Packed(lead: Bits, e: seq<Byte>, trail: Bits): seq<Byte> {
    Chop(lead + Stream(e, false) + trail, false)
  }

  /** Where the bytes start. */
  function PackedAt(lead: Bits): Lock { Lock(|lead| / 8, Phase(|lead| % 8, false)) }

  /** The left shift by the bit offset rebuilds the bytes. */
  lemma PackedByte(lead: Bits, e: seq<Byte>, trail: Bits, j: nat)
    requires (|lead| + |trail|) % 8 == 0 && j < |e|
    ensures var raw, l := Packed(lead, e, trail), PackedAt(lead);
      && |raw| == (|lead| + |trail|) / 8 + |e|
      && l.start + j < AlignedCount(|raw|, l.phase.offset) && Aligned(raw, l.start + j, l.phase) == e[j]
  {
    var s, l := lead + Stream(e, false) + trail, PackedAt(lead);
    var i, k := l.start + j, l.phase.offset;
    assert 8 * i + k == |lead| + 8 * j;
    assert s[8 * i + k..8 * i + k + 8] == Stream(e, false)[8 * j..8 * j + 8];
    StreamAt(e, false, j);
    BitsOfInvolution(e[j], false);
    hide Aligned, Stream, BitsOf;
    AlignedIsMsbWindow(s, i, k);
  }

  /** The packed bytes are a span of their own length. */
  lemma PackedIsSpan(lead: Bits, e: seq<Byte>, trail: Bits)
    requires (|lead| + |trail|) % 8 == 0 && Candidate(e) && |e| >= MIN_FRAME
    ensures var raw, l := Packed(lead, e, trail), PackedAt(lead);
      && l.start + |e| <= AlignedCount(|raw|, l.phase.offset) && Slice(raw, l, |e|) == e
      && SpanSize(raw, l) == |e| && !ClosesAt(raw, l, 2)
  {
    var raw, l := Packed(lead, e, trail), PackedAt(lead);
    hide Packed, PackedAt, Aligned;
    assert l.phase.offset < 8 && !l.phase.right by { PhaseOfPacked(lead); }
    PackedByte(lead, e, trail, |e| - 1);
    forall j: nat | j < |e|
      ensures Aligned(raw, l.start + j, l.phase) == e[j]
      ensures ClosesAt(raw, l, j) <==> e[j] == FLAG
    {
      PackedByte(lead, e, trail, j);
    }
    assert ClosesAt(raw, l, 0) && IsFlag(raw, l.start, l.phase);
    hide ClosesAt, IsFlag;
    SliceIs(raw, l, e);
    FirstClose(raw, l, MIN_FRAME - 1, |raw|, |e| - 1);
  }

  lemma PhaseOfPacked(lead: Bits)
    ensures PackedAt(lead).phase.offset < 8 && !PackedAt(lead).phase.right
  {
  }

  /** No span of the window is longer than the one at place `own`, nor as long and earlier. */
  predicate Longest(raw: seq<Byte>, own: nat) {
    forall r | 0 <= r < 16 * (|raw| - 1) ::
      SizeAt(raw, r) <= SizeAt(raw, own) && (r < own ==> SizeAt(raw, r) < SizeAt(raw, own))
  }

  lemma LongestIsBest(raw: seq<Byte>, own: nat)
    requires own < 16 * (|raw| - 1) && SizeAt(raw, own) > 0
    ensures BestRank(raw, 0) == Some(own) <==> Longest(raw, own)
  {
    hide SizeAt, BestRank;
    BestRankIsBest(raw, 0);
    if Longest(raw, own) {
      BestIsUnique(raw, 0, 16 * (|raw| - 1), BestRank(raw, 0), Some(own));
    }
  }

  /** What is reported is what the search has chosen: its whole span, unless the third byte of that
      is a flag. */
  lemma ReportIsChosen(raw: seq<Byte>, capacity: nat, best: nat)
    requires MIN_FRAME <= |raw| <= SHORT_SEARCH_LIMIT && BestRank(raw, 0) == Some(best)
    ensures var l := AtRank(best);
      && l.phase.offset < 8 && l.start + SizeAt(raw, best) <= AlignedCount(|raw|, l.phase.offset)
    ensures var o, l, n := Poll(View(raw, 0, None, None), capacity), AtRank(best), SizeAt(raw, best);
      && (o.Ready? ==> o.lock == l)
      && (capacity >= n && !ClosesAt(raw, l, 2) ==> o.Ready? && o.frame == Slice(raw, l, n))
  {
    hide Poll, SpanSize, AtRank, ClosesAt, Slice, BestRank, Sound, Track, FirstOpening;
    var v, l := View(raw, 0, None, None), AtRank(best);
    BestRankIsBest(raw, 0);
    SpanFits(raw, l);
    assert FirstRank(v) == 0;
    HuntIsChosen(raw, best);
    if capacity > 0 {
      PollHunts(v, capacity);
      TrackIsOfLock(v, l, capacity);
    } else {
      NoRoomNoReport(v);
    }
    if capacity >= SizeAt(raw, best) && !ClosesAt(raw, l, 2) {
      ShortPollReportsBest(v, capacity);
      ReportIsSlice(v, capacity);
    }
  }

  lemma NoRoomNoReport(v: View)
    requires v.lock.None?
    ensures Poll(v, 0) == Waiting(v)
  {
  }

  lemma HuntIsChosen(raw: seq<Byte>, best: nat)
    requires MIN_FRAME <= |raw| <= SHORT_SEARCH_LIMIT && BestRank(raw, 0) == Some(best)
    ensures Hunt(raw, 0) == Some(AtRank(best))
  {
  }

  lemma TrackIsOfLock(v: View, l: Lock, capacity: nat)
    requires l.phase.offset < 8 && |v.buf| <= SHORT_SEARCH_LIMIT
    ensures Track(v, l, capacity).Ready? ==> Track(v, l, capacity).lock == l && Track(v, l, capacity).view.buf == v.buf
  {
    hide CloseFrom, Slice, Poll;
  }

  lemma ReportIsSlice(v: View, capacity: nat)
    requires ValidView(v) && Poll(v, capacity).Ready? && Poll(v, capacity).view.buf == v.buf
    ensures var o := Poll(v, capacity);
      && o.lock.phase.offset < 8 && o.lock.start + |o.frame| <= AlignedCount(|v.buf|, o.lock.phase.offset)
      && o.frame == Slice(v.buf, o.lock, |o.frame|)
  {
    hide Slice, ValidLock;
    PollIsSound(v, capacity);
  }

  /** Bytes packed most significant bit first in a short window are reported exactly if no span, at
      any start, phase and direction, is longer, nor as long and earlier in scan order. */
  lemma PackedIsReportedIff(lead: Bits, e: seq<Byte>, trail: Bits, capacity: nat)
    requires (|lead| + |trail|) % 8 == 0 && Candidate(e) && MIN_FRAME <= |e| <= capacity
    requires |Packed(lead, e, trail)| <= SHORT_SEARCH_LIMIT
    ensures var raw, l := Packed(lead, e, trail), PackedAt(lead);
      var o, own := Poll(View(raw, 0, None, None), capacity), Rank(l.start, l.phase.offset, false);
      && SizeAt(raw, own) == |e|
      && ((o.Ready? && o.lock == l && o.frame == e) <==> Longest(raw, own))
  {
    hide Packed, PackedAt, Poll, SpanSize, AtRank, Rank, ClosesAt, Slice, BestRank, Longest;
    var raw, l := Packed(lead, e, trail), PackedAt(lead);
    var own := Rank(l.start, l.phase.offset, false);
    PackedIsSpan(lead, e, trail);
    PhaseOfPacked(lead);
    PlaceOfRank(l.start, l.phase.offset, false);
    RankIsBounded(l.start, l.phase.offset, false);
    SpareRawByte(|raw|, l.phase.offset);
    LongestIsBest(raw, own);
    assert BestRank(raw, 0).Some? by { BestRankIsBest(raw, 0); }
    var best := BestRank(raw, 0).value;
    ReportIsChosen(raw, capacity, best);
    RankOfPlace(best);
    RankOfPlace(own);
  }

  // ---- a frame alone, shifted by fewer than eight bits --------------------------------

  /** The bytes behind `k` zero bits, filled up with zeros to one byte more. */
  function Shifted(e: seq<Byte>, k: nat): seq<Byte>
    requires k < 8
  {
    Packed(Zeros(k), e, Zeros(8 - k))
  }

  /** The first raw byte holds the zero bits and then the first bits of the flag. */
  lemma FirstRawByte(e: seq<Byte>, k: nat)
    requires k < 8 && e != [] && e[0] == FLAG
    ensures |Shifted(e, k)| == |e| + 1
    ensures forall i | 0 <= i < 8 :: BitsOf(Shifted(e, k)[0], false)[i] == (k <= i && FLAG[i - k])
  {
    var s := Zeros(k) + Stream(e, false) + Zeros(8 - k);
    var raw := Shifted(e, k);
    StreamAt(e, false, 0);
    FlagIsPalindrome(false);
    var first, window := s[0..8], Stream(e, false)[0..8];
    assert window == FLAG;
    assert raw[0] == BitsOf(first, false);
    BitsOfInvolution(first, false);
    forall i | 0 <= i < 8
      ensures first[i] == (k <= i && FLAG[i - k])
    {
      if k <= i {
        assert Stream(e, false)[i - k] == window[i - k];
      }
    }
  }

  /** With a smaller bit offset than the frame's the first raw byte opens nothing, in either
      direction. */
  lemma NoFlagBeforeShift(e: seq<Byte>, k: nat, o: nat, right: bool)
    requires 0 < k < 8 && o < k && |e| >= 1 && e[0] == FLAG && (o == 0 ==> !right)
    ensures !IsFlag(Shifted(e, k), 0, Phase(o, right))
  {
    var raw := Shifted(e, k);
    FirstRawByte(e, k);
    hide Shifted;
    var a := Aligned(raw, 0, Phase(o, right));
    var bits := BitsOf(raw[0], false);
    assert bits[0] == false && bits[o + 1] == false;
    assert raw[0][7] == bits[0] && raw[0][6 - o] == bits[o + 1];
    if right {
      assert a[7 - o] == raw[0][7];
    } else {
      assert a[6] == raw[0][6 - o];
    }
  }

  /** No place has a span as long as the frame's before it, and none a longer one. */
  lemma NoLongerPlace(e: seq<Byte>, k: nat, r: nat)
    requires k < 8 && Candidate(e) && |Shifted(e, k)| == |e| + 1 && SizeAt(Shifted(e, k), Rank(0, k, false)) == |e| > 0
    ensures SizeAt(Shifted(e, k), r) <= |e|
    ensures r < Rank(0, k, false) ==> SizeAt(Shifted(e, k), r) < |e|
  {
    hide Shifted, SpanSize, AtRank, Candidate, Rank;
    var raw, l := Shifted(e, k), AtRank(r);
    FlagFirst(e);
    SpanFits(raw, l);
    PartsOfRank(r, k);
    OwnRankOfZero(k);
    if l.start == 0 && l.phase.offset < k && ValidPhase(l.phase) {
      NoFlagBeforeShift(e, k, l.phase.offset, l.phase.right);
      NoFlagNoSpan(raw, l);
    }
  }

  lemma PartsOfRank(r: nat, k: nat)
    requires k < 8
    ensures AtRank(r).phase.offset < 8
    ensures r < Rank(0, k, false) ==> AtRank(r).start == 0 && AtRank(r).phase.offset < k
    ensures AtRank(r).start == 0 && AtRank(r).phase == Phase(0, false) ==> r == 0
  {
  }

  lemma ShiftedPlace(k: nat)
    requires k < 8
    ensures PackedAt(Zeros(k)) == Lock(0, Phase(k, false)) && ReportedOffset(Phase(k, false)) == k
  {
  }

  lemma ShiftedIsSpan(e: seq<Byte>, k: nat)
    requires k < 8 && Candidate(e) && |e| >= MIN_FRAME
    ensures SizeAt(Shifted(e, k), Rank(0, k, false)) == |e| && |Shifted(e, k)| == |e| + 1
  {
    hide SpanSize, Slice, Aligned, Candidate, AtRank, Packed, PackedAt, ClosesAt, Zeros, Rank;
    FlagFirst(e);
    FirstRawByte(e, k);
    ShiftedPlace(k);
    PackedIsSpan(Zeros(k), e, Zeros(8 - k));
    PlaceOfRank(0, k, false);
  }

  lemma ShiftedIsLongest(e: seq<Byte>, k: nat)
    requires k < 8 && Candidate(e) && |e| >= MIN_FRAME
    ensures Longest(Shifted(e, k), Rank(0, k, false))
  {
    hide Shifted, SizeAt, Candidate, Rank;
    ShiftedIsSpan(e, k);
    forall r: nat | r < 16 * (|Shifted(e, k)| - 1)
      ensures SizeAt(Shifted(e, k), r) <= |e| && (r < Rank(0, k, false) ==> SizeAt(Shifted(e, k), r) < |e|)
    {
      NoLongerPlace(e, k, r);
      OwnRankOfZero(k);
    }
  }

  lemma OwnRankOfZero(k: nat)
    ensures Rank(0, k, false) == 2 * k
  {
  }

  lemma NoFlagNoSpan(buf: seq<Byte>, l: Lock)
    requires ValidPhase(l.phase) && !IsFlag(buf, l.start, l.phase)
    ensures SpanSize(buf, l) == 0
  {
  }

  /** Every frame that fits the short search, shifted right by fewer than eight bits, is rebuilt
      from the raw bytes with the shift as its bit offset. */
  lemma ShiftedIsReported(e: seq<Byte>, k: nat, capacity: nat)
    requires k < 8 && Candidate(e) && MIN_FRAME <= |e| < SHORT_SEARCH_LIMIT && |e| <= capacity
    ensures var o := Poll(View(Shifted(e, k), 0, None, None), capacity);
      o.Ready? && o.lock == Lock(0, Phase(k, false)) && o.frame == e && ReportedOffset(o.lock.phase) == k
  {
    hide Poll, Longest, Rank, Packed, Candidate, PackedAt, SizeAt, Zeros;
    ShiftedPlace(k);
    FlagFirst(e);
    FirstRawByte(e, k);
    ShiftedIsLongest(e, k);
    PackedIsReportedIff(Zeros(k), e, Zeros(8 - k), capacity);
  }

  /** The accumulator itself: fed the shifted bytes and polled once, with room for just the frame. */
  method Rebuild(e: seq<Byte>, k: nat) returns (frame: seq<Byte>, bitOffset: nat)
    requires k < 8 && Candidate(e) && MIN_FRAME <= |e| < SHORT_SEARCH_LIMIT
    ensures frame == e && bitOffset == k
  {
    hide Poll, Sync.PollWith, ValidLock, Candidate, Packed, Shifted;
    var raw := Shifted(e, k);
    assert |raw| == |e| + 1 by { FlagFirst(e); FirstRawByte(e, k); }
    var accumulator := new Accumulator();
    var out := new FrameBuffer(|e|);
    var i := 0;
    while i < |raw|
      invariant 0 <= i <= |raw|
      invariant fresh(accumulator) && fresh(accumulator.buffer) && fresh(out) && fresh(out.payload)
      invariant accumulator.Valid() && out.Valid() && out.payload != accumulator.buffer
      invariant out.payload.Length == |e| && accumulator.Model() == View(raw[..i], 0, None, None)
    {
      var _ := accumulator.ProcessByte(raw[i]);
      PrefixSnoc(raw, i);
      i := i + 1;
    }
    assert raw[..|raw|] == raw;
    ShiftedIsReported(e, k, |e|);
    var _ := accumulator.Poll(out);
    return out.Contents(), accumulator.bitOffset;
  }

  lemma FlagFirst(e: seq<Byte>)
    requires Candidate(e)
    ensures e != [] && e[0] == FLAG
  {
  }
}
