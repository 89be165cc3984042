/** What a rejected candidate costs: how a receiver gets past stray flags and damaged frames, and when
    it starts over instead. */
module Rejections {
  import opened Words
  import opened Stuffing
  import opened Codec
  import opened Sync
  import opened SyncLaws
  import opened Wire
  import opened Receiver
  import opened Batches
  import opened Bursts

  // ---- framed byte strings ------------------------------------------------------------

  /** A flag at both ends and none anywhere between, at any bit offset. */
  ghost predicate Framed(x: seq<Byte>) {
    && 4 <= |x|
    && forall q: nat :: FlagAt(Stream(x, true), q) <==> q == 0 || q == 8 * (|x| - 1)
  }

  lemma EncodingIsFramed(payload: seq<Byte>)
    ensures Framed(Encoding(payload, true))
  {
    hide Encoding;
    EncodedSize(payload, true);
    forall q: nat
      ensures FlagAt(Stream(Encoding(payload, true), true), q) <==> q == 0 || q == 8 * (|Encoding(payload, true)| - 1)
    {
      FlagsOnlyAtEnds(payload, true, q);
    }
  }

  /** A right-shift phase reads the bits of the buffer at that offset. */
  lemma FlagInBytes(buf: seq<Byte>, i: nat, k: nat)
    requires k < 8 && i < AlignedCount(|buf|, k)
    ensures IsFlag(buf, i, RightPhase(k)) <==> FlagAt(Stream(buf, true), 8 * i + k)
  {
    hide Aligned;
    ChopStream(buf, true);
    AlignedIsWindow(Stream(buf, true), i, k);
  }

  /** A bit window inside one part of a byte string is a window of that part. */
  lemma FlagInPart(a: seq<Byte>, x: seq<Byte>, b: seq<Byte>, q: nat)
    requires q + 8 <= 8 * |x|
    ensures FlagAt(Stream(a + x + b, true), 8 * |a| + q) <==> FlagAt(Stream(x, true), q)
  {
    hide Stream;
    StreamConcat(a + x, b, true);
    StreamConcat(a, x, true);
    var s, t := Stream(a + x + b, true), Stream(x, true);
    var p := 8 * |a| + q;
    assert s == Stream(a, true) + t + Stream(b, true);
    assert s[p..p + 8] == t[q..q + 8];
  }

  /** A delimited string without six ones between its flags is framed. */
  lemma FramedByLine(x: seq<Byte>)
    requires 4 <= |x| && Delimited(x) && forall q: nat :: !SixOnes(Inner(x, true), q)
    ensures Framed(x)
  {
    var body, s := Inner(x, true), Stream(x, true);
    assert s == FLAG + body + FLAG by {
      var inner := x[1..|x| - 1];
      assert x == [FLAG] + inner + [FLAG];
      StreamConcat([FLAG], inner, true);
      StreamConcat([FLAG] + inner, [FLAG], true);
      StreamOne(FLAG, true);
    }
    hide Stream, Inner;
    assert forall i | 0 <= i < 8 :: s[i] == FLAG[i] && s[|s| - 8 + i] == FLAG[i];
    forall q: nat
      ensures FlagAt(s, q) <==> q == 0 || q == |s| - 8
    {
      SixOnesBetweenFlags(body, q + 1);
      FlagBits(s, q);
    }
  }

  // ---- polls in a long window ---------------------------------------------------------

  lemma AlignedCloses(buf: seq<Byte>, i: nat, frame: seq<Byte>)
    requires Candidate(frame) && i + |frame| <= |buf| && frame == buf[i..i + |frame|]
    ensures IsFlag(buf, i, ALIGNED)
    ensures CloseFrom(buf, Lock(i, ALIGNED), 2, MAX_FRAME) == Some(|frame| - 1)
    ensures Slice(buf, Lock(i, ALIGNED), |frame|) == frame
  {
    hide ClosesAt, IsFlag, Slice, CloseFrom, Aligned;
    var l := Lock(i, ALIGNED);
    forall j: nat | j < |frame|
      ensures Aligned(buf, l.start + j, l.phase) == frame[j]
      ensures ClosesAt(buf, l, j) <==> frame[j] == FLAG
    {
      assert buf[i + j] == frame[j];
      AlignedIsByte(buf, i, j);
    }
    AlignedIsByte(buf, i, 0);
    SliceIs(buf, l, frame);
    FirstClose(buf, l, 2, MAX_FRAME, |frame| - 1);
  }

  lemma AlignedIsByte(buf: seq<Byte>, i: nat, j: nat)
    requires i + j < |buf|
    ensures Aligned(buf, i + j, ALIGNED) == buf[i + j]
    ensures ClosesAt(buf, Lock(i, ALIGNED), j) <==> buf[i + j] == FLAG
    ensures IsFlag(buf, i + j, ALIGNED) <==> buf[i + j] == FLAG
  {
  }

  /** Behind nothing but flagless bits a flag byte opens the candidate that ends at the next flag
      byte from index 2 on. */
  lemma PollReports(v: View, i: nat, frame: seq<Byte>)
    requires v == View(v.buf, 0, None, None) && SHORT_SEARCH_LIMIT < |v.buf| <= MAX_BUFFER
    requires Candidate(frame) && i + |frame| <= |v.buf| && frame == v.buf[i..i + |frame|] && NoneBefore(v.buf, 8 * i)
    ensures Poll(v, FRAME_CAPACITY)
            == Ready(View(v.buf, 0, None, Some(Span(i, i + |frame|))), Lock(i, ALIGNED), frame)
  {
    hide ClosesAt, IsFlag, Track, NoneBefore, Poll, Slice, CloseFrom, FirstOpening, Hunt;
    var l := Lock(i, ALIGNED);
    assert ALIGNED == RightPhase(0);
    AlignedCloses(v.buf, i, frame);
    FirstFlagIsFound(v.buf, i, 0);
    HuntLong(v.buf);
    PollTracks(v, l);
    TrackEndsAt(v, l, |frame|);
  }

  lemma HuntLong(buf: seq<Byte>)
    requires |buf| > SHORT_SEARCH_LIMIT
    ensures Hunt(buf, 0) == FirstOpening(buf, 0)
  {
  }

  // ---- rejecting ----------------------------------------------------------------------

  /** A second flag right behind the opening makes six ones: such a candidate never decodes. */
  lemma DoubleFlagIsRejected(f: seq<Byte>)
    requires |f| >= 3 && f[1] == FLAG
    ensures Decoding(f, PAYLOAD_CAPACITY, true).Rejected?
  {
    if Delimited(f) {
      var line := Inner(f, true);
      StreamAt(f[1..|f| - 1], true, 0);
      assert line[0..8] == FLAG;
      assert forall b | 0 <= b < 8 :: line[b] == line[0..8][b];
      assert SixOnes(line, 1);
    }
    hide Inner, SixOnes, Decoding;
    ReasonsAreExact(f, PAYLOAD_CAPACITY, true);
  }

  /** Hunting again in the bytes of a buffer from `i` on. */
  function Again(rx: Rx, rest: seq<Byte>, failures: nat): Rx {
    Rx(View(rest, 0, None, None), rx.streak + failures, rx.delivered, rx.failures + failures)
  }

  /** A rejected candidate costs one raw byte, the fourth in a row everything that is buffered. */
  lemma RejectionCosts(rx: Rx, i: nat)
    requires ValidRx(rx) && i < |rx.view.buf| && |rx.view.buf| - i <= MAX_BUFFER - TAIL_KEPT
    requires var o := Poll(rx.view, FRAME_CAPACITY);
      && o.Ready? && o.view.buf == rx.view.buf && o.view.candidate.Some? && o.view.candidate.value.first == i
      && Decoding(o.frame, PAYLOAD_CAPACITY, true).Rejected?
    ensures rx.streak < 3 ==> ValidRx(Again(rx, rx.view.buf[i + 1..], 1))
    ensures Drain(rx) == if rx.streak < 3 then Drain(Again(rx, rx.view.buf[i + 1..], 1))
                         else Rx(EMPTY, 0, rx.delivered, rx.failures + 1)
  {
    hide Poll, Drain, Decoding;
    DrainNext(rx);
    if rx.streak >= 3 {
      DrainNothing(Rx(EMPTY, 0, rx.delivered, rx.failures + 1));
    }
  }

  // ---- damaged frames -----------------------------------------------------------------

  /** What a frame looks like that was damaged on the line without losing or gaining a flag. */
  ghost predicate Damaged(x: seq<Byte>) {
    Framed(x) && |x| < MAX_FRAME && Decoding(x, PAYLOAD_CAPACITY, true).Rejected?
  }

  /** Wrong data in an otherwise well-formed frame, as after a transmission error. */
  lemma WrongDataIsDamaged(x: seq<Byte>, d: seq<Byte>)
    requires 4 <= |x| < MAX_FRAME && Delimited(x) && Carried(Inner(x, true), Stream(d, true))
    requires !Crc.Passes(d)
    ensures Damaged(x)
  {
    var line := Inner(x, true);
    ReceivedIffCarried(line, Stream(d, true));
    BadIffSixOnes(line);
    ChopStream(d, true);
    hide Destuff, Carried, SixOnes, Inner, Stream, Framed;
    FramedByLine(x);
  }

  function Join(xs: seq<seq<Byte>>): seq<Byte> {
    if xs == [] then [] else xs[0] + Join(xs[1..])
  }

  lemma FramedIsCandidate(x: seq<Byte>)
    requires Framed(x) && |x| < MAX_FRAME
    ensures Candidate(x) && Candidate([FLAG] + x)
  {
    forall i: nat | i < |x|
      ensures x[i] == FLAG <==> i == 0 || i == |x| - 1
    {
      StreamAt(x, true, i);
      assert FlagAt(Stream(x, true), 8 * i) <==> x[i] == FLAG;
    }
    hide Stream, FlagAt;
    var d := [FLAG] + x;
    forall j | 2 <= j < |d| - 1
      ensures d[j] != FLAG
    {
      assert d[j] == x[j - 1];
    }
  }

  lemma NoneBeforeStart(w: seq<Byte>)
    ensures NoneBefore(w, 0)
  {
  }

  /** Inside a framed string that has lost its opening byte no flag is readable before its closing
      byte, at any right shift. */
  lemma NoneInside(x: seq<Byte>, rest: seq<Byte>)
    requires Framed(x)
    ensures NoneBefore(x[1..] + rest, 8 * (|x| - 2))
  {
    hide FlagAt, Stream, IsFlag, Framed;
    LongEnough(x);
    var w := x[1..] + rest;
    forall s: nat, k: nat | s + 1 < |w| && k < 8 && 8 * s + k < 8 * (|x| - 2)
      ensures !IsFlag(w, s, RightPhase(k))
    {
      FlagInside(x, rest, s, k);
    }
  }

  lemma FlagInside(x: seq<Byte>, rest: seq<Byte>, s: nat, k: nat)
    requires Framed(x) && s + 2 < |x| + |rest| && k < 8 && 8 * s + k < 8 * (|x| - 2)
    ensures !IsFlag(x[1..] + rest, s, RightPhase(k))
  {
    hide FlagAt, Stream, Aligned;
    var all := x + rest;
    assert all[1..|all|] == x[1..] + rest && [] + x + rest == all;
    AlignedInPart(all, 1, |all|, s, RightPhase(k));
    FlagInBytes(all, s + 1, k);
    FlagInPart([], x, rest, 8 * (s + 1) + k);
  }

  /** A candidate at the front of a long buffer is reported. */
  lemma FrontIsReported(buf: seq<Byte>, f: seq<Byte>)
    requires Candidate(f) && f <= buf && SHORT_SEARCH_LIMIT < |buf| <= MAX_BUFFER
    ensures Poll(View(buf, 0, None, None), FRAME_CAPACITY)
            == Ready(View(buf, 0, None, Some(Span(0, |f|))), Lock(0, ALIGNED), f)
  {
    hide Candidate, NoneBefore, Poll;
    NoneBeforeStart(buf);
    assert buf[0..0 + |f|] == f;
    PollReports(View(buf, 0, None, None), 0, f);
  }

  /** After its rejection the next candidate starts at its closing flag. */
  lemma PollBehind(x: seq<Byte>, y: seq<Byte>, rest: seq<Byte>)
    requires Framed(x) && Framed(y) && |y| < MAX_FRAME
    requires SHORT_SEARCH_LIMIT < |x| + |y| + |rest| - 1 <= MAX_BUFFER
    ensures var v, n := View(x[1..] + (y + rest), 0, None, None), |x| - 2;
      Poll(v, FRAME_CAPACITY) == Ready(View(v.buf, 0, None, Some(Span(n, n + 1 + |y|))), Lock(n, ALIGNED), [FLAG] + y)
  {
    hide Framed, Candidate, NoneBefore, Poll;
    LongEnough(x);
    ClosingByte(x);
    FramedIsCandidate(y);
    NoneInside(x, y + rest);
    var w, n := x[1..] + (y + rest), |x| - 2;
    FlagAndNext(x, y, rest);
    PollReports(View(w, 0, None, None), n, [FLAG] + y);
  }

  lemma FlagAndNext(x: seq<Byte>, y: seq<Byte>, rest: seq<Byte>)
    requires |x| >= 2 && x[|x| - 1] == FLAG
    ensures (x[1..] + (y + rest))[|x| - 2..|x| - 2 + |[FLAG] + y|] == [FLAG] + y
  {
  }

  lemma ClosingByte(x: seq<Byte>)
    requires Framed(x)
    ensures x[0] == x[|x| - 1] == FLAG
  {
    StreamAt(x, true, 0);
    StreamAt(x, true, |x| - 1);
    assert FlagAt(Stream(x, true), 0) && FlagAt(Stream(x, true), 8 * (|x| - 1));
  }

  /** A damaged frame is rejected, and the hunt goes on one raw byte behind its start. */
  lemma DamagedIsRejected(rx: Rx, x: seq<Byte>, rest: seq<Byte>)
    requires Damaged(x) && |rest| > SHORT_SEARCH_LIMIT && |x| + |rest| <= MAX_BUFFER - TAIL_KEPT
    requires ValidRx(rx) && rx.view == View(x + rest, 0, None, None)
    ensures rx.streak < 3 ==> ValidRx(Again(rx, x[1..] + rest, 1))
    ensures Drain(rx) == if rx.streak < 3 then Drain(Again(rx, x[1..] + rest, 1))
                         else Rx(EMPTY, 0, rx.delivered, rx.failures + 1)
  {
    hide Poll, Drain, Decoding, FlagAt, Candidate;
    FramedIsCandidate(x);
    FrontIsReported(x + rest, x);
    assert (x + rest)[1..] == x[1..] + rest;
    RejectionCosts(rx, 0);
  }

  /** Its closing flag, taken for an opening, makes another candidate that is rejected. */
  lemma ClosingFlagIsRejected(rx: Rx, x: seq<Byte>, y: seq<Byte>, rest: seq<Byte>)
    requires Framed(x) && Framed(y) && |y| < MAX_FRAME && |y| + |rest| > SHORT_SEARCH_LIMIT
    requires |x| + |y| + |rest| <= MAX_BUFFER - TAIL_KEPT
    requires ValidRx(rx) && rx.view == View(x[1..] + (y + rest), 0, None, None)
    ensures rx.streak < 3 ==> ValidRx(Again(rx, y + rest, 1))
    ensures Drain(rx) == if rx.streak < 3 then Drain(Again(rx, y + rest, 1))
                         else Rx(EMPTY, 0, rx.delivered, rx.failures + 1)
  {
    hide Poll, Drain, Decoding, FlagAt;
    PollBehind(x, y, rest);
    ClosingByte(y);
    DoubleFlagIsRejected([FLAG] + y);
    assert (x[1..] + (y + rest))[|x| - 1..] == y + rest;
    RejectionCosts(rx, |x| - 2);
  }

  /** A damaged frame in front of another framed string costs two failures: itself, and its closing
      flag taken for the opening of the next. */
  lemma DamagedCostsTwo(rx: Rx, x: seq<Byte>, y: seq<Byte>, rest: seq<Byte>)
    requires Damaged(x) && Framed(y) && |y| < MAX_FRAME && |y| + |rest| > SHORT_SEARCH_LIMIT
    requires |x| + |y| + |rest| <= MAX_BUFFER - TAIL_KEPT
    requires ValidRx(rx) && rx.view == View(x + (y + rest), 0, None, None)
    ensures rx.streak < 2 ==> ValidRx(Again(rx, y + rest, 2))
    ensures Drain(rx) == if rx.streak < 2 then Drain(Again(rx, y + rest, 2))
                         else Rx(EMPTY, 0, rx.delivered, rx.failures + 4 - rx.streak)
  {
    hide Framed, Drain, Decoding;
    LongEnough(x);
    DamagedIsRejected(rx, x, y + rest);
    if rx.streak < 3 {
      ClosingFlagIsRejected(Again(rx, x[1..] + (y + rest), 1), x, y, rest);
    }
  }

  lemma LongEnough(x: seq<Byte>)
    requires Framed(x)
    ensures |x| >= 4
  {
  }

  lemma DamagedIsFramed(x: seq<Byte>)
    ensures Damaged(x) ==> Framed(x) && |x| < MAX_FRAME
  {
  }

  /** A frame alone in the buffer is handed over, whatever was rejected before. */
  lemma AloneIsHandedOver(p: seq<Byte>, rx: Rx)
    requires |Encoding(p, true)| <= MAX_FRAME
    requires ValidRx(rx) && rx.view == View(Encoding(p, true), 0, None, None)
    ensures Drain(rx).delivered == rx.delivered + [p] && Drain(rx).failures == rx.failures
  {
    hide Encoding, Drain;
    PairOf(p, p);
    AloneIsUndisputed(Encoding(p, true));
    assert [p][1..] == [];
    UndisputedArrives([p], rx);
  }

  ghost predicate AllDamaged(xs: seq<seq<Byte>>) {
    forall i | 0 <= i < |xs| :: Damaged(xs[i])
  }

  /** Exactly when a frame behind damaged ones is recovered: no more than one in front of it, if
      nothing was rejected before.  Each costs two failures in a row, and the fourth makes the
      receiver start over with an empty buffer. */
  lemma {:induction false} FrameBehindDamaged(xs: seq<seq<Byte>>, p: seq<Byte>, rx: Rx)
    requires AllDamaged(xs) && SHORT_SEARCH_LIMIT < |Encoding(p, true)| < MAX_FRAME
    requires |Join(xs) + Encoding(p, true)| <= MAX_BUFFER - TAIL_KEPT
    requires ValidRx(rx) && rx.view == View(Join(xs) + Encoding(p, true), 0, None, None)
    ensures 2 * |xs| + rx.streak <= 3 ==>
              Drain(rx).delivered == rx.delivered + [p] && Drain(rx).failures == rx.failures + 2 * |xs|
    ensures 2 * |xs| + rx.streak > 3 ==>
              Drain(rx) == Rx(EMPTY, 0, rx.delivered, rx.failures + 4 - rx.streak)
    decreases |xs|
  {
    hide Encoding, Drain, Damaged, Framed;
    var e := Encoding(p, true);
    EncodingIsFramed(p);
    if xs == [] {
      assert [] + e == e;
      AloneIsHandedOver(p, rx);
    } else {
      var tail := xs[1..];
      Assoc(xs[0], Join(tail), e);
      var y, rest := e, [];
      if tail == [] {
        assert [] + e == e + [];
      } else {
        y, rest := tail[0], Join(tail[1..]) + e;
        Assoc(tail[0], Join(tail[1..]), e);
      }
      DamagedIsFramed(y);
      DamagedCostsTwo(rx, xs[0], y, rest);
      if rx.streak < 2 {
        FrameBehindDamaged(tail, p, Again(rx, y + rest, 2));
      }
    }
  }

  // ---- stray flags --------------------------------------------------------------------

  function Flags(n: nat): (s: seq<Byte>)
    ensures |s| == n
  {
    seq(n, _ => FLAG)
  }

  /** In a long window every stray flag is a candidate of its own, one that does not decode. */
  lemma StrayFlagReport(n: nat, x: seq<Byte>) returns (f: seq<Byte>)
    requires n > 0 && Framed(x) && |x| < MAX_FRAME && SHORT_SEARCH_LIMIT < n + |x| <= MAX_BUFFER
    ensures Poll(View(Flags(n) + x, 0, None, None), FRAME_CAPACITY)
            == Ready(View(Flags(n) + x, 0, None, Some(Span(0, |f|))), Lock(0, ALIGNED), f)
    ensures Decoding(f, PAYLOAD_CAPACITY, true).Rejected?
  {
    hide *;
    f := FlagsAtFront(n, x);
    DoubleFlagIsRejected(f);
    FrontIsReported(Flags(n) + x, f);
  }

  /** The candidate at the front of some flags and a framed string. */
  lemma FlagsAtFront(n: nat, x: seq<Byte>) returns (f: seq<Byte>)
    requires n > 0 && Framed(x) && |x| < MAX_FRAME
    ensures Candidate(f) && f <= Flags(n) + x && |f| >= 3 && f[1] == FLAG
  {
    ClosingByte(x);
    if n == 1 {
      FramedIsCandidate(x);
      hide Framed, Candidate;
      f := [FLAG] + x;
      assert Flags(1) == [FLAG];
    } else {
      hide Framed;
      f := [FLAG, FLAG, FLAG];
      assert (Flags(n) + x)[..3] == f;
    }
  }

  lemma NoFlags(x: seq<Byte>)
    ensures Flags(0) + x == x
  {
  }

  lemma FewerFlags(n: nat, x: seq<Byte>)
    requires n > 0
    ensures (Flags(n) + x)[1..] == Flags(n - 1) + x
  {
  }

  lemma StrayFlagIsRejected(n: nat, x: seq<Byte>, rx: Rx)
    requires n > 0 && Framed(x) && |x| < MAX_FRAME && SHORT_SEARCH_LIMIT < n + |x| <= MAX_BUFFER - TAIL_KEPT
    requires ValidRx(rx) && rx.view == View(Flags(n) + x, 0, None, None)
    ensures rx.streak < 3 ==> ValidRx(Again(rx, Flags(n - 1) + x, 1))
    ensures Drain(rx) == if rx.streak < 3 then Drain(Again(rx, Flags(n - 1) + x, 1))
                         else Rx(EMPTY, 0, rx.delivered, rx.failures + 1)
  {
    hide Framed, Poll, Drain, Decoding, Flags;
    var f := StrayFlagReport(n, x);
    FewerFlags(n, x);
    RejectionCosts(rx, 0);
  }

  /** Exactly when a long frame behind stray flags is recovered: behind no more than three, if
      nothing was rejected before. */
  lemma {:induction false} FrameBehindFlags(n: nat, p: seq<Byte>, rx: Rx)
    requires SHORT_SEARCH_LIMIT < |Encoding(p, true)| < MAX_FRAME && n + |Encoding(p, true)| <= MAX_BUFFER - TAIL_KEPT
    requires ValidRx(rx) && rx.view == View(Flags(n) + Encoding(p, true), 0, None, None)
    ensures n + rx.streak <= 3 ==> Drain(rx).delivered == rx.delivered + [p] && Drain(rx).failures == rx.failures + n
    ensures n + rx.streak > 3 ==> Drain(rx) == Rx(EMPTY, 0, rx.delivered, rx.failures + 4 - rx.streak)
    decreases n
  {
    hide Encoding, Drain, Framed, Flags;
    EncodingIsFramed(p);
    assert Flags(0) + Encoding(p, true) == Encoding(p, true) by { NoFlags(Encoding(p, true)); }
    if n == 0 {
      AloneIsHandedOver(p, rx);
    } else {
      StrayFlagIsRejected(n, Encoding(p, true), rx);
      if rx.streak < 3 {
        FrameBehindFlags(n - 1, p, Again(rx, Flags(n - 1) + Encoding(p, true), 1));
      }
    }
  }

  // ---- stray flags in a short window --------------------------------------------------

  /** A byte of flags shows no flag at any phase that takes bits of both. */
  lemma NoFlagAcrossFlags(k: nat)
    requires 0 < k < 8
    ensures Or(Shl(FLAG, k), Shr(FLAG, 8 - k)) != FLAG && Or(Shr(FLAG, k), Shl(FLAG, 8 - k)) != FLAG
  {
    var l, r := Or(Shl(FLAG, k), Shr(FLAG, 8 - k)), Or(Shr(FLAG, k), Shl(FLAG, 8 - k));
    assert l[k] == false && r[8 - k] == false;
    assert l[0] == FLAG[8 - k] && r[0] == FLAG[k];
  }

  lemma NoFlagInFlags(w: seq<Byte>, i: nat, p: Phase)
    requires i + 1 < |w| && w[i] == w[i + 1] == FLAG && 0 < p.offset < 8
    ensures !IsFlag(w, i, p)
  {
    NoFlagAcrossFlags(p.offset);
    hide Or, Shl, Shr;
  }

  /** Spans that start in the flags close after four bytes. */
  lemma SpanOfFlags(w: seq<Byte>, l: Lock)
    requires l.start + 4 <= |w| && w[l.start..l.start + 4] == [FLAG, FLAG, FLAG, FLAG]
    ensures SpanSize(w, l) <= 4
  {
    var f := w[l.start..l.start + 4];
    assert w[l.start] == f[0] && w[l.start + 1] == f[1] && w[l.start + 3] == f[3];
    assert l.phase.offset == 0 ==> ClosesAt(w, l, 3);
    hide Aligned, ClosesAt, IsFlag, CloseFrom;
    if ValidPhase(l.phase) {
      if l.phase.offset > 0 {
        NoFlagInFlags(w, l.start, l.phase);
      } else {
        FirstClose(w, l, 3, |w|, 3);
      }
    }
  }

  /** Where the longest span of a short window of flags and a frame starts. */
  function LongestFrom(n: nat): nat { if n >= 2 then n - 2 else 0 }

  lemma LongestSpan(n: nat, x: seq<Byte>)
    requires n > 0 && Framed(x)
    ensures SpanSize(Flags(n) + x, Lock(LongestFrom(n), ALIGNED)) == n + |x| - LongestFrom(n)
    ensures n >= 2 ==> ClosesAt(Flags(n) + x, Lock(LongestFrom(n), ALIGNED), 2)
    ensures n == 1 ==> !ClosesAt(Flags(n) + x, Lock(LongestFrom(n), ALIGNED), 2)
  {
    var w, l := Flags(n) + x, Lock(LongestFrom(n), ALIGNED);
    var c := n + |x| - 1 - l.start;
    forall i: nat | i < |x|
      ensures x[i] == FLAG <==> i == 0 || i == |x| - 1
    {
      FlagByte(x, i);
    }
    LongEnough(x);
    hide Framed;
    forall j: nat | l.start + j < |w|
      ensures ClosesAt(w, l, j) <==> l.start + j <= n || j == c
    {
    }
    assert ClosesAt(w, l, 0) && IsFlag(w, l.start, ALIGNED);
    hide ClosesAt, IsFlag, Flags;
    FirstClose(w, l, 3, |w|, c);
  }

  lemma FlagByte(x: seq<Byte>, i: nat)
    requires Framed(x) && i < |x|
    ensures x[i] == FLAG <==> i == 0 || i == |x| - 1
  {
    StreamAt(x, true, i);
    assert FlagAt(Stream(x, true), 8 * i) <==> x[i] == FLAG;
  }

  lemma FourFlags(n: nat, x: seq<Byte>, s: nat)
    requires Framed(x) && s + 3 <= n
    ensures s + 4 <= n + |x| && (Flags(n) + x)[s..s + 4] == [FLAG, FLAG, FLAG, FLAG]
  {
    ClosingByte(x);
    hide Framed;
  }

  lemma BestInFlags(n: nat, x: seq<Byte>)
    requires n > 0 && Framed(x)
    ensures var w := Flags(n) + x;
      IsBest(w, 0, 16 * (|w| - 1), Some(16 * LongestFrom(n)))
  {
    var w, best := Flags(n) + x, 16 * LongestFrom(n);
    LongEnough(x);
    LongestSpan(n, x);
    PlaceOf(LongestFrom(n));
    hide Framed, SpanSize, AtRank, Flags, ClosesAt;
    forall r: nat | r < 16 * (|w| - 1)
      ensures SizeAt(w, r) <= SizeAt(w, best) && (r < best ==> SizeAt(w, r) < SizeAt(w, best))
    {
      SpanFits(w, AtRank(r));
      StartOfRank(r);
      if r < best {
        FourFlags(n, x, r / 16);
        SpanOfFlags(w, AtRank(r));
      }
    }
  }

  lemma StartOfRank(r: nat)
    ensures AtRank(r).start == r / 16
  {
  }

  /** In a short window all stray flags but the last two are skipped. */
  lemma ShortWindowReport(n: nat, x: seq<Byte>)
    requires n > 0 && Framed(x) && n + |x| <= SHORT_SEARCH_LIMIT
    ensures var v := View(Flags(n) + x, 0, None, None);
      var o := Poll(v, FRAME_CAPACITY);
      o.Ready? && o.lock == Lock(LongestFrom(n), ALIGNED) && o.view.buf == v.buf
  {
    LongEnough(x);
    hide Framed, Poll, IsBest, SpanSize, AtRank, ClosesAt, Flags, LongestFrom;
    var v := View(Flags(n) + x, 0, None, None);
    BestInFlags(n, x);
    BestRankIsBest(v.buf, 0);
    BestIsUnique(v.buf, 0, 16 * (|v.buf| - 1), BestRank(v.buf, 0), Some(16 * LongestFrom(n)));
    assert FirstRank(v) == 0;
    PlaceOf(LongestFrom(n));
    ShortPollReportsBest(v, FRAME_CAPACITY);
    ShortPollKeeps(v);
  }

  /** A report that starts with two flag bytes does not decode. */
  lemma TwoFlagsAreRejected(v: View)
    requires v.lock.None? && ValidView(v) && Poll(v, FRAME_CAPACITY).Ready? && Poll(v, FRAME_CAPACITY).view.buf == v.buf
    requires var l := Poll(v, FRAME_CAPACITY).lock; l.phase == ALIGNED && l.start + 1 < |v.buf| && v.buf[l.start + 1] == FLAG
    ensures var o := Poll(v, FRAME_CAPACITY);
      && Decoding(o.frame, PAYLOAD_CAPACITY, true).Rejected?
      && o.view.candidate.Some? && o.view.candidate.value.first == o.lock.start
  {
    hide Poll, ValidLock, Decoding;
    assert ValidView(v);
    PollIsSound(v, FRAME_CAPACITY);
    DoubleFlagIsRejected(Poll(v, FRAME_CAPACITY).frame);
  }

  /** So a short window costs one failure for one stray flag and two for any more. */
  lemma ShortWindowRejects(n: nat, x: seq<Byte>, rx: Rx)
    requires n > 0 && Framed(x) && n + |x| <= SHORT_SEARCH_LIMIT && rx.streak < 3
    requires ValidRx(rx) && rx.view == View(Flags(n) + x, 0, None, None)
    ensures ValidRx(Again(rx, Flags(if n >= 2 then 1 else 0) + x, 1))
    ensures Drain(rx) == Drain(Again(rx, Flags(if n >= 2 then 1 else 0) + x, 1))
  {
    ClosingByte(x);
    LongEnough(x);
    var i := LongestFrom(n);
    assert rx.view.buf[i + 1] == FLAG;
    assert rx.view.buf[i + 1..] == Flags(if n >= 2 then 1 else 0) + x;
    hide Framed, Poll, Drain, Decoding, Flags, LongestFrom;
    ShortWindowReport(n, x);
    TwoFlagsAreRejected(rx.view);
    RejectionCosts(rx, i);
  }

  /** Behind up to three stray flags every frame is recovered, however short it is, and something is
      rejected. */
  lemma {:induction false} FrameBehindFewFlags(n: nat, p: seq<Byte>, rx: Rx)
    requires |Encoding(p, true)| < MAX_FRAME && n + rx.streak <= 3
    requires ValidRx(rx) && rx.view == View(Flags(n) + Encoding(p, true), 0, None, None)
    ensures Drain(rx).delivered == rx.delivered + [p]
    ensures rx.failures + Min(n, 1) <= Drain(rx).failures <= rx.failures + n
    ensures n == 1 ==> Drain(rx).failures == rx.failures + 1
    decreases n
  {
    hide Encoding, Drain, Framed, Flags;
    var e := Encoding(p, true);
    EncodingIsFramed(p);
    NoFlags(e);
    if n == 0 {
      AloneIsHandedOver(p, rx);
    } else if n + |e| > SHORT_SEARCH_LIMIT {
      StrayFlagIsRejected(n, e, rx);
      FrameBehindFewFlags(n - 1, p, Again(rx, Flags(n - 1) + e, 1));
    } else {
      ShortWindowRejects(n, e, rx);
      FrameBehindFewFlags(if n >= 2 then 1 else 0, p, Again(rx, Flags(if n >= 2 then 1 else 0) + e, 1));
    }
  }

  /** For instance: a doubled opening flag in front of a frame, from a fresh start. */
  lemma DoubledOpeningFlag(p: seq<Byte>)
    requires |Encoding(p, true)| < MAX_FRAME
    ensures var rx := Rx(View([FLAG] + Encoding(p, true), 0, None, None), 0, [], 0);
      ValidRx(rx) && Drain(rx).delivered == [p] && Drain(rx).failures == 1
  {
    hide Encoding, Drain;
    assert Flags(1) == [FLAG];
    FrameBehindFewFlags(1, p, Rx(View([FLAG] + Encoding(p, true), 0, None, None), 0, [], 0));
  }
}
