/** The synchroniser's resumable state machine over a bounded raw-byte buffer. */
module Accumulators {
  import opened Words
  import opened Sync
  import opened SyncLaws
  import opened TrackSteps
  import opened PollSteps
  import opened Encoder

  datatype PollResult = POLL_OK | POLL_FRAME_READY | POLL_PAYLOAD_TOO_LONG

  class Accumulator {
    const buffer: array<Byte>
    var position: nat
    var processed: nat
    var candidateStart: nat
    var candidateEnd: nat
    var candidateValid: bool
    var bitOffset: nat
    var alignShiftRight: bool
    var state: State

    constructor ()
      ensures Valid() && Model() == EMPTY && fresh(buffer)
    {
      buffer := new Byte[MAX_BUFFER];
      position, processed := 0, 0;
      candidateStart, candidateEnd, candidateValid := 0, 0, false;
      bitOffset, alignShiftRight := 0, false;
      state := HUNTING;
    }

    ghost predicate InBounds()
      reads this
    {
      buffer.Length == MAX_BUFFER && position <= MAX_BUFFER && bitOffset < 8
    }

    /** The buffered raw bytes. */
    ghost function Buffered(): (s: seq<Byte>)
      requires InBounds()
      reads this, buffer
      ensures |s| == position
    {
      buffer[..position]
    }

    ghost function Locked(): Lock
      reads this
    {
      Lock(candidateStart, Phase(bitOffset, alignShiftRight))
    }

    ghost function Model(): View
      requires InBounds()
      reads this, buffer
    {
      View(Buffered(), processed,
           if state == HUNTING then None else Some(Locked()),
           if candidateValid then Some(Span(candidateStart, candidateEnd)) else None)
    }

    ghost predicate Valid()
      reads this, buffer
    {
      && InBounds()
      && ValidView(Model())
      && (state == SYNCING ==> processed == candidateStart + 1)
      && (state == SYNCED ==> processed >= candidateStart + 2)
    }

    /** Starts over with an empty buffer. */
    method Init()
      requires Valid()
      modifies this
      ensures Valid() && Model() == EMPTY
    {
      position, processed := 0, 0;
      candidateStart, candidateEnd, candidateValid := 0, 0, false;
      bitOffset, alignShiftRight := 0, false;
      state := HUNTING;
    }

    method ProcessByte(byte: Byte) returns (taken: bool)
      requires Valid()
      modifies this, buffer
      ensures Valid()
      ensures taken <==> old(position) < MAX_BUFFER
      ensures Model() == Feed(old(Model()), byte)
    {
      if position >= MAX_BUFFER {
        return false;
      }
      FedIsValid(Model(), [byte]);
      ghost var was := Buffered();
      buffer[position] := byte;
      position := position + 1;
      assert Buffered() == was + [byte];
      return true;
    }

    /** Drops the oldest raw bytes, keeping the order of the others. */
    method DropPrefix(count: nat)
      requires InBounds()
      modifies this`position, this`processed, buffer
      ensures InBounds()
      ensures Buffered() == old(Buffered())[Min(count, old(position))..]
      ensures processed == if 0 < count && count >= old(position) then 0 else old(processed)
    {
      if count == 0 {
        return;
      }
      if count >= position {
        position, processed := 0, 0;
        return;
      }
      var remaining := position - count;
      forall i | 0 <= i < remaining {
        buffer[i] := buffer[i + count];
      }
      position := remaining;
    }

    method ResetHunting()
      requires InBounds()
      modifies this`processed, this`candidateStart, this`candidateEnd, this`candidateValid, this`state, this`bitOffset,
               this`alignShiftRight
      ensures processed == 0 && candidateStart == 0 && candidateEnd == 0 && !candidateValid
      ensures state == HUNTING && bitOffset == 0 && !alignShiftRight
    {
      processed := 0;
      candidateStart, candidateEnd, candidateValid := 0, 0, false;
      state := HUNTING;
      bitOffset, alignShiftRight := 0, false;
    }

    /** The caller's verdict on the reported candidate. */
    method ConsumeCandidate(accept: bool)
      requires Valid()
      modifies this, buffer
      ensures Valid() && Model() == Consume(old(Model()), accept)
    {
      hide ValidLock;
      if !candidateValid {
        return;
      }
      ghost var v := Model();
      var drop := if accept then candidateEnd else candidateStart + 1;
      if drop > position {
        drop := position;
      }
      if drop > 0 {
        DropPrefix(drop);
      }
      assert Buffered() == v.buf[drop..];
      ResetHunting();
      CutToTail();
      assert Model() == Consume(v, accept);
    }

    /** A nearly full buffer is cut down to its last bytes, so that it stays bounded. */
    method CutToTail()
      requires InBounds() && processed == 0
      modifies this`position, this`processed, buffer
      ensures InBounds() && processed == 0
      ensures Buffered() == var rest := old(Buffered());
        if |rest| >= MAX_BUFFER - TAIL_KEPT then rest[|rest| - TAIL_KEPT..] else rest
    {
      if position >= MAX_BUFFER - TAIL_KEPT {
        DropPrefix(position - TAIL_KEPT);
        processed := 0;
      }
    }

    // ---- searching --------------------------------------------------------------------

    /** One aligned byte, if there is such a phase and its raw bytes are there. */
    method GetAligned(i: nat, offset: nat, right: bool) returns (ok: bool, byte: Byte)
      requires InBounds()
      ensures ok <==> offset < 8 && i < AlignedCount(position, offset)
      ensures ok ==> byte == Aligned(Buffered(), i, Phase(offset, right))
    {
      byte := Zeros(8);
      if i >= position || offset >= 8 {
        return false, byte;
      }
      if offset == 0 {
        return true, buffer[i];
      }
      if i + 1 >= position {
        return false, byte;
      }
      if right {
        byte := Or(Shr(buffer[i], offset), Shl(buffer[i + 1], 8 - offset));
      } else {
        byte := Or(Shl(buffer[i], offset), Shr(buffer[i + 1], 8 - offset));
      }
      return true, byte;
    }

    method ShowsFlag(i: nat, offset: nat, right: bool) returns (yes: bool)
      requires InBounds()
      ensures yes <==> offset < 8 && IsFlag(Buffered(), i, Phase(offset, right))
    {
      var ok, byte := GetAligned(i, offset, right);
      yes := ok && byte == FLAG;
    }

    /** The phases of one raw index: byte-aligned first, then the right shifts. */
    method FindPhase(start: nat) returns (found: Option<nat>)
      requires InBounds()
      ensures found == FirstPhase(Buffered(), start, 0)
    {
      hide FirstPhase, IsFlag, Buffered, InBounds;
      ghost var buf := Buffered();
      PhaseNext(buf, start, 0);
      var aligned := ShowsFlag(start, 0, false);
      if aligned {
        return Some(0);
      }
      var bitPos := 1;
      while bitPos < 8
        invariant 1 <= bitPos <= 8
        invariant FirstPhase(buf, start, 0) == FirstPhase(buf, start, bitPos)
      {
        PhaseNext(buf, start, bitPos);
        aligned := ShowsFlag(start, bitPos, true);
        if aligned {
          return Some(bitPos);
        }
        bitPos := bitPos + 1;
      }
      PhaseNext(buf, start, 8);
      return None;
    }

    /** The fast search over the raw indices. */
    method FindOpening(scan: nat) returns (found: Option<Lock>)
      requires InBounds()
      ensures found == FirstOpening(Buffered(), if scan > 0 then scan - 1 else 0)
    {
      hide FirstOpening, FirstPhase, Buffered, InBounds;
      var start := if scan > 0 then scan - 1 else 0;
      ghost var buf, from := Buffered(), start;
      while start + 1 < position
        invariant FirstOpening(buf, from) == FirstOpening(buf, start)
        decreases position - start
      {
        OpeningNext(buf, start);
        var phase := FindPhase(start);
        if phase.Some? {
          return Some(Lock(start, Phase(phase.value, phase.value > 0)));
        }
        start := start + 1;
      }
      OpeningNext(buf, start);
      return None;
    }

    /** Length of the complete span that starts with a flag at a place, 0 if it does not close. */
    method ProbeSpan(start: nat, bitPos: nat, right: bool) returns (size: nat)
      requires InBounds() && ValidPhase(Phase(bitPos, right))
      requires IsFlag(Buffered(), start, Phase(bitPos, right))
      ensures size == SpanSize(Buffered(), Lock(start, Phase(bitPos, right)))
    {
      hide IsFlag, ClosesAt, SpanSize, Buffered, Aligned, InBounds, CloseFrom, ValidPhase;
      ghost var buf, l := Buffered(), Lock(start, Phase(bitPos, right));
      assert l.phase.offset < 8 by { OffsetOf(l.phase); }
      var frameSize := 1;
      var probe := start + 1;
      while probe < position
        invariant 1 <= frameSize == probe - start
        invariant forall j | MIN_FRAME - 1 <= j < frameSize :: !ClosesAt(buf, l, j)
        decreases position - probe
      {
        var ok, byte := GetAligned(probe, bitPos, right);
        if !ok {
          break;
        }
        FlagByByte(buf, l, frameSize);
        frameSize := frameSize + 1;
        if byte == FLAG && frameSize >= MIN_FRAME {
          SpanClosed(buf, l, frameSize - 1);
          return frameSize;
        }
        probe := probe + 1;
      }
      SpanOpen(buf, l, frameSize);
      return 0;
    }

    /** Length of the complete span at a place of the exhaustive search, 0 if there is none. */
    method SizeAtPlace(start: nat, bitPos: nat, right: bool, ghost rank: nat) returns (size: nat)
      requires InBounds() && bitPos < 8 && rank == 16 * start + 2 * bitPos + if right then 1 else 0
      ensures size == SizeAt(Buffered(), rank)
      ensures AtRank(rank) == Lock(start, Phase(bitPos, right))
    {
      assert rank == Rank(start, bitPos, right);
      PlaceOfRank(start, bitPos, right);
      SizeByCases(Buffered(), Lock(start, Phase(bitPos, right)));
      hide Rank, AtRank, SpanSize, IsFlag;
      if bitPos == 0 && right {
        return 0;
      }
      var opens := ShowsFlag(start, bitPos, right);
      if !opens {
        return 0;
      }
      size := ProbeSpan(start, bitPos, right);
    }

    /** The exhaustive search, used on short buffers only. */
    method FindCompleteShort(scan: nat) returns (found: Option<Lock>)
      requires InBounds()
      ensures var from := if scan > 0 then scan - 1 else 0;
        var best := if MIN_FRAME <= position <= SHORT_SEARCH_LIMIT then BestRank(Buffered(), 16 * from) else None;
        found == LockAt(best)
    {
      if position < MIN_FRAME || position > SHORT_SEARCH_LIMIT {
        return None;
      }
      var start := if scan > 0 then scan - 1 else 0;
      if start >= position - 1 {
        return None;
      }
      hide BestRank;
      found := SearchPlaces(start);
    }

    /** For every place from a raw index on the complete span, keeping the longest. */
    method SearchPlaces(from: nat) returns (found: Option<Lock>)
      requires InBounds() && from < position - 1
      ensures found == LockAt(BestRank(Buffered(), 16 * from))
    {
      hide *;
      var start, bestSize := from, 0;
      found := None;
      ghost var buf := Buffered();
      ghost var best: Option<nat> := None;
      NoneYet(buf, 16 * from);
      while start < position - 1
        invariant from <= start <= position - 1
        invariant IsBest(buf, 16 * from, 16 * start, best) && Tallies(buf, found, bestSize, best)
      {
        var bitPos := 0;
        while bitPos < 8
          invariant 0 <= bitPos <= 8
          invariant IsBest(buf, 16 * from, 16 * start + 2 * bitPos, best) && Tallies(buf, found, bestSize, best)
        {
          var mode := 0;
          while mode < 2
            invariant 0 <= mode <= 2
            invariant IsBest(buf, 16 * from, 16 * start + 2 * bitPos + mode, best)
            invariant Tallies(buf, found, bestSize, best)
          {
            ghost var here := 16 * start + 2 * bitPos + mode;
            var size := SizeAtPlace(start, bitPos, mode != 0, here);
            BestNext(buf, 16 * from, here, best, found, bestSize);
            best := Better(buf, best, here);
            if size > 0 && (found.None? || size > bestSize) {
              found, bestSize := Some(Lock(start, Phase(bitPos, mode != 0))), size;
            }
            mode := mode + 1;
          }
          bitPos := bitPos + 1;
        }
        start := start + 1;
      }
      BestRankIsBest(buf, 16 * from);
      BestIsUnique(buf, 16 * from, 16 * (|buf| - 1), best, BestRank(buf, 16 * from));
      TallyOfBest(buf, found, bestSize, best);
    }

    // ---- the steps of a poll ----------------------------------------------------------

    ghost function Snapshot(frame: FrameBuffer): Snap
      requires InBounds() && frame.Valid()
      reads this, buffer, frame, frame.payload
    {
      Snap(Buffered(), processed, candidateStart, candidateEnd, candidateValid, Phase(bitOffset, alignShiftRight),
           state, frame.Contents(), frame.payload.Length)
    }

    /** HUNTING to SYNCING: choose an opening and its phase. */
    method StepHunting(frame: FrameBuffer, scan: nat, ghost goal: Polled) returns (result: StepResult, next: nat)
      requires InBounds() && frame.Valid() && frame.payload != buffer
      requires InPoll(Snapshot(frame), scan, goal) && state == HUNTING
      modifies this, frame, frame.payload
      ensures InBounds() && frame.Valid() && Stepped(Snapshot(frame), result, next, goal)
      ensures result == PROGRESS || result == STOP
      ensures position == old(position) && (result == PROGRESS ==> state != HUNTING)
    {
      hide InPoll, Stepped, Hunt, BestRank, FirstOpening;
      ghost var s := Snapshot(frame);
      InPollBasics(s, scan, goal);
      var found := FindCompleteShort(scan);
      if found.None? {
        found := FindOpening(scan);
      }
      HuntByParts(s.buf, scan);
      if found.None? {
        HuntFails(s, scan, goal);
        return STOP, position;
      }
      var l := found.value;
      HuntLocks(s, scan, goal, l);
      state := SYNCING;
      bitOffset, alignShiftRight := l.phase.offset, l.phase.right;
      candidateStart, candidateValid := l.start, false;
      frame.length := 1;
      frame.payload[0] := FLAG;
      assert frame.Contents() == [FLAG];
      return PROGRESS, l.start + 1;
    }

    /** False-lock recovery: hunt again one raw byte after the opening. */
    method RejectOversized(frame: FrameBuffer, scan: nat, ghost goal: Polled) returns (next: nat)
      requires InBounds() && frame.Valid() && frame.payload != buffer
      requires InPoll(Snapshot(frame), scan, goal) && state != HUNTING && scan < position
      requires frame.length >= MAX_FRAME
      modifies this, buffer, frame
      ensures InBounds() && frame.Valid() && InPoll(Snapshot(frame), next, goal)
      ensures position < old(position)
    {
      hide InPoll;
      ghost var s := Snapshot(frame);
      GivesUp(s, scan, goal);
      var drop := candidateStart + 1;
      if drop > position {
        drop := position;
      }
      DropPrefix(drop);
      ResetHunting();
      frame.length := 0;
      next := 0;
      assert Snapshot(frame) == Recovered(s);
    }

    /** Takes over the first aligned byte after the opening flag. */
    method StepSyncing(frame: FrameBuffer, scan: nat, ghost goal: Polled) returns (result: StepResult, next: nat)
      requires InBounds() && frame.Valid() && frame.payload != buffer
      requires InPoll(Snapshot(frame), scan, goal) && state == SYNCING && scan < position
      modifies this, buffer, frame, frame.payload
      ensures InBounds() && frame.Valid() && Stepped(Snapshot(frame), result, next, goal)
      ensures result == PROGRESS ==> position < old(position)
                                     || (position == old(position) && state != HUNTING && next > scan)
    {
      hide InPoll, Stepped;
      if frame.length >= MAX_FRAME {
        next := RejectOversized(frame, scan, goal);
        GoesOn(Snapshot(frame), next, goal);
        return PROGRESS, next;
      }
      result, next := TakeSyncing(frame, scan, goal);
    }

    method TakeSyncing(frame: FrameBuffer, scan: nat, ghost goal: Polled) returns (result: StepResult, next: nat)
      requires InBounds() && frame.Valid() && frame.payload != buffer
      requires InPoll(Snapshot(frame), scan, goal) && state == SYNCING && frame.length < MAX_FRAME
      modifies this, frame, frame.payload
      ensures InBounds() && frame.Valid() && Stepped(Snapshot(frame), result, next, goal)
      ensures position == old(position)
      ensures result == PROGRESS ==> state != HUNTING && next > scan
    {
      hide InPoll, Stepped, Aligned;
      ghost var s := Snapshot(frame);
      InPollBasics(s, scan, goal);
      var ok, aligned := GetAligned(scan, bitOffset, alignShiftRight);
      if !ok {
        Waits(s, scan, goal);
        return STOP, scan;
      }
      if frame.length >= frame.payload.Length {
        Overflows(s, scan, goal);
        frame.length := 0;
        state := HUNTING;
        bitOffset := 0;
        assert frame.Contents() == [];
        return ERROR, scan;
      }
      TakesOver(s, scan, goal);
      Append(frame, aligned);
      state := SYNCED;
      return PROGRESS, scan + 1;
    }

    /** Takes over aligned bytes until the closing flag. */
    method StepSynced(frame: FrameBuffer, scan: nat, ghost goal: Polled) returns (result: StepResult, next: nat)
      requires InBounds() && frame.Valid() && frame.payload != buffer
      requires InPoll(Snapshot(frame), scan, goal) && state == SYNCED && scan < position
      modifies this, buffer, frame, frame.payload
      ensures InBounds() && frame.Valid() && Stepped(Snapshot(frame), result, next, goal)
      ensures result == PROGRESS ==> position < old(position)
                                     || (position == old(position) && state != HUNTING && next > scan)
    {
      hide InPoll, Stepped;
      if frame.length >= MAX_FRAME {
        next := RejectOversized(frame, scan, goal);
        GoesOn(Snapshot(frame), next, goal);
        return PROGRESS, next;
      }
      result, next := TakeSynced(frame, scan, goal);
    }

    method TakeSynced(frame: FrameBuffer, scan: nat, ghost goal: Polled) returns (result: StepResult, next: nat)
      requires InBounds() && frame.Valid() && frame.payload != buffer
      requires InPoll(Snapshot(frame), scan, goal) && state == SYNCED && frame.length < MAX_FRAME
      modifies this, frame, frame.payload
      ensures InBounds() && frame.Valid() && Stepped(Snapshot(frame), result, next, goal)
      ensures position == old(position)
      ensures result == PROGRESS ==> state != HUNTING && next > scan
    {
      hide InPoll, Stepped, Aligned;
      ghost var s := Snapshot(frame);
      InPollBasics(s, scan, goal);
      var ok, aligned := GetAligned(scan, bitOffset, alignShiftRight);
      if !ok {
        Waits(s, scan, goal);
        return STOP, scan;
      }
      if frame.length >= frame.payload.Length {
        Overflows(s, scan, goal);
        frame.length := 0;
        state := HUNTING;
        bitOffset := 0;
        assert frame.Contents() == [];
        return ERROR, scan;
      }
      Append(frame, aligned);
      if aligned != FLAG {
        TakesOver(s, scan, goal);
        return PROGRESS, scan + 1;
      }
      Completes(s, scan, goal);
      state := HUNTING;
      candidateEnd := scan + 1;
      candidateValid := true;
      if alignShiftRight && bitOffset > 0 {
        bitOffset := 8 - bitOffset;
      }
      return FRAME_READY, scan + 1;
    }

    // ---- polling ----------------------------------------------------------------------

    /** The end of a poll that produced no frame: a hunting accumulator keeps one byte of overlap,
        a locked one keeps everything and remembers its cursor. */
    method FinalizeNoFrame(frame: FrameBuffer, scan: nat, ghost goal: Polled)
      requires InBounds() && frame.Valid() && frame.payload != buffer
      requires Stepped(Snapshot(frame), STOP, scan, goal)
      modifies this, buffer
      ensures Valid() && frame.Valid() && Model() == goal.outcome.view && goal.outcome.Waiting?
      ensures frame.Contents() == goal.frame
    {
      ghost var s := Snapshot(frame);
      hide Stepped, ValidLock, Slice;
      StopIsWaiting(s, scan, goal);
      processed := scan;
      if state != HUNTING {
        return;
      }
      var drop := if processed > 0 then processed - 1 else 0;
      if drop > position {
        drop := position;
      }
      DropPrefix(drop);
      processed := 0;
      assert Buffered() == s.buf[|s.buf| - 1..];
    }

    /** One poll, whatever the caller's frame holds.  If it is the frame of the polls before, with
        the bytes a lock has taken over, the poll does what it does in one piece. */
    method Poll(frame: FrameBuffer) returns (result: PollResult)
      requires Valid() && frame.Valid() && frame.payload != buffer
      modifies this, buffer, frame, frame.payload
      ensures Valid() && frame.Valid()
      ensures var p := PollWith(old(Model()), old(frame.Contents()), frame.payload.Length);
        && Model() == p.outcome.view && frame.Contents() == p.frame
        && Answer(p.outcome, result, frame.Contents(), bitOffset)
      ensures old(Holds(Model(), frame.Contents())) ==>
                && Holds(Model(), frame.Contents())
                && Model() == Sync.Poll(old(Model()), frame.payload.Length).view
                && Answer(Sync.Poll(old(Model()), frame.payload.Length), result, frame.Contents(), bitOffset)
    {
      ghost var v, held := Model(), frame.Contents();
      ghost var goal := PollWith(v, held, frame.payload.Length);
      if Holds(v, held) {
        PollWithHeld(v, held, frame.payload.Length);
      }
      if frame.payload.Length == 0 || position == 0 || (state != HUNTING && bitOffset != 0 && position < 2) {
        return POLL_OK;
      }
      EntersPoll(Snapshot(frame));
      hide Sync.Poll, PollWith, Holds, ValidView, InPoll;
      result := PollLoop(frame, goal);
    }

    /** The step of the current state. */
    method Step(frame: FrameBuffer, scan: nat, ghost goal: Polled) returns (result: StepResult, next: nat)
      requires InBounds() && frame.Valid() && frame.payload != buffer
      requires InPoll(Snapshot(frame), scan, goal) && scan < position
      modifies this, buffer, frame, frame.payload
      ensures InBounds() && frame.Valid() && Stepped(Snapshot(frame), result, next, goal)
      ensures result == PROGRESS ==>
                || position < old(position)
                || (position == old(position) && old(state) == HUNTING && state != HUNTING)
                || (position == old(position) && old(state) != HUNTING && state != HUNTING && next > scan)
    {
      hide InPoll, Stepped, Snapshot;
      match state {
        case HUNTING =>
          result, next := StepHunting(frame, scan, goal);
        case SYNCING =>
          result, next := StepSyncing(frame, scan, goal);
        case SYNCED =>
          result, next := StepSynced(frame, scan, goal);
      }
    }

    method PollLoop(frame: FrameBuffer, ghost goal: Polled) returns (result: PollResult)
      requires InBounds() && frame.Valid() && frame.payload != buffer
      requires InPoll(Snapshot(frame), processed, goal)
      modifies this, buffer, frame, frame.payload
      ensures Valid() && frame.Valid() && Model() == goal.outcome.view && frame.Contents() == goal.frame
      ensures Answer(goal.outcome, result, frame.Contents(), bitOffset)
    {
      hide InPoll, Stepped;
      var scan: nat := processed;
      while scan < position
        invariant InBounds() && frame.Valid() && InPoll(Snapshot(frame), scan, goal)
        decreases position, if state == HUNTING then 1 else 0, position - scan
      {
        var step: StepResult;
        step, scan := Step(frame, scan, goal);
        if step == PROGRESS {
          StillInPoll(Snapshot(frame), scan, goal);
          continue;
        }
        if step == FRAME_READY {
          ReportIsValid(Snapshot(frame), scan, goal);
          processed := 0;
          return POLL_FRAME_READY;
        }
        if step == ERROR {
          FailureIsValid(Snapshot(frame), scan, goal);
          return POLL_PAYLOAD_TOO_LONG;
        }
        FinalizeNoFrame(frame, scan, goal);
        return POLL_OK;
      }
      RunsOut(Snapshot(frame), scan, goal);
      FinalizeNoFrame(frame, scan, goal);
      return POLL_OK;
    }
  }

  /** What the caller is told about the outcome of a poll. */
  predicate Answer(o: Outcome, result: PollResult, frame: seq<Byte>, bitOffset: nat) {
    match o
    case Waiting(_) => result == POLL_OK
    case Ready(_, l, f) => result == POLL_FRAME_READY && frame == f && bitOffset == ReportedOffset(l.phase)
    case TooLong(_) => result == POLL_PAYLOAD_TOO_LONG
  }

  method Append(frame: FrameBuffer, byte: Byte)
    requires frame.Valid() && frame.length < frame.payload.Length
    modifies frame, frame.payload
    ensures frame.Valid() && frame.Contents() == old(frame.Contents()) + [byte]
  {
    frame.payload[frame.length] := byte;
    frame.length := frame.length + 1;
  }

  lemma HuntByParts(buf: seq<Byte>, scan: nat)
    ensures var from := if scan > 0 then scan - 1 else 0;
      var best := if MIN_FRAME <= |buf| <= SHORT_SEARCH_LIMIT then BestRank(buf, 16 * from) else None;
      Hunt(buf, scan) == if LockAt(best).Some? then LockAt(best) else FirstOpening(buf, from)
  {
    hide BestRank, FirstOpening, AtRank;
  }

  // ---- value lemmas of the searches ---------------------------------------------------

  lemma OffsetOf(p: Phase)
    requires ValidPhase(p)
    ensures p.offset < 8
  {
  }

  lemma PhaseNext(buf: seq<Byte>, i: nat, k: nat)
    requires k <= 8
    ensures FirstPhase(buf, i, k) ==
            if k == 8 then None else if IsFlag(buf, i, RightPhase(k)) then Some(k) else FirstPhase(buf, i, k + 1)
  {
  }

  lemma OpeningNext(buf: seq<Byte>, i: nat)
    ensures FirstOpening(buf, i) ==
            if i + 1 >= |buf| then None
            else if FirstPhase(buf, i, 0).Some? then Some(Lock(i, RightPhase(FirstPhase(buf, i, 0).value)))
            else FirstOpening(buf, i + 1)
  {
    hide FirstPhase;
  }

  lemma FlagByByte(buf: seq<Byte>, l: Lock, j: nat)
    requires l.phase.offset < 8 && l.start + j < AlignedCount(|buf|, l.phase.offset)
    ensures ClosesAt(buf, l, j) <==> Aligned(buf, l.start + j, l.phase) == FLAG
  {
  }

  lemma SpanClosed(buf: seq<Byte>, l: Lock, c: nat)
    requires ValidPhase(l.phase) && IsFlag(buf, l.start, l.phase)
    requires MIN_FRAME - 1 <= c && ClosesAt(buf, l, c)
    requires forall j | MIN_FRAME - 1 <= j < c :: !ClosesAt(buf, l, j)
    ensures SpanSize(buf, l) == c + 1
  {
    assert c < |buf|;
    hide ClosesAt, IsFlag;
    FirstClose(buf, l, MIN_FRAME - 1, |buf|, c);
  }

  /** Past the last readable byte nothing closes. */
  lemma SpanOpen(buf: seq<Byte>, l: Lock, n: nat)
    requires ValidPhase(l.phase) && IsFlag(buf, l.start, l.phase)
    requires l.start + n >= AlignedCount(|buf|, l.phase.offset)
    requires forall j | MIN_FRAME - 1 <= j < n :: !ClosesAt(buf, l, j)
    ensures SpanSize(buf, l) == 0
  {
    assert forall j | n <= j :: !ClosesAt(buf, l, j);
    hide ClosesAt, IsFlag;
    NoClose(buf, l, MIN_FRAME - 1, |buf|);
  }

  lemma SizeByCases(buf: seq<Byte>, l: Lock)
    ensures !ValidPhase(l.phase) || !IsFlag(buf, l.start, l.phase) ==> SpanSize(buf, l) == 0
  {
  }

  lemma DivMod(d: nat, q: nat, m: nat)
    requires d == 2 || d == 16
    requires m < d
    ensures (d * q + m) / d == q && (d * q + m) % d == m
  {
  }

  lemma PlaceOfRank(start: nat, offset: nat, right: bool)
    requires offset < 8
    ensures AtRank(Rank(start, offset, right)) == Lock(start, Phase(offset, right))
  {
    var b := if right then 1 else 0;
    DivMod(16, start, 2 * offset + b);
    DivMod(2, offset, b);
    DivMod(2, 8 * start + offset, b);
    var r := Rank(start, offset, right);
    assert r == 16 * start + (2 * offset + b) == 2 * (8 * start + offset) + b;
  }

  lemma NoneYet(buf: seq<Byte>, r: nat)
    ensures IsBest(buf, r, r, None) && Tallies(buf, None, 0, None)
  {
  }

  /** The variables of the search describe the best place so far. */
  predicate Tallies(buf: seq<Byte>, found: Option<Lock>, bestSize: nat, best: Option<nat>) {
    if best.None? then found.None? && bestSize == 0
    else found == Some(AtRank(best.value)) && bestSize == SizeAt(buf, best.value) > 0
  }

  function Better(buf: seq<Byte>, best: Option<nat>, here: nat): Option<nat> {
    if SizeAt(buf, here) > (if best.None? then 0 else SizeAt(buf, best.value)) then Some(here) else best
  }

  lemma BestNext(buf: seq<Byte>, r: nat, here: nat, best: Option<nat>, found: Option<Lock>, bestSize: nat)
    requires r <= here && IsBest(buf, r, here, best)
    requires Tallies(buf, found, bestSize, best)
    ensures IsBest(buf, r, here + 1, Better(buf, best, here))
    ensures var size := SizeAt(buf, here);
      if size > 0 && (found.None? || size > bestSize)
      then Tallies(buf, Some(AtRank(here)), size, Better(buf, best, here))
      else Tallies(buf, found, bestSize, Better(buf, best, here))
  {
    hide SizeAt, AtRank;
  }

  lemma TallyOfBest(buf: seq<Byte>, found: Option<Lock>, bestSize: nat, best: Option<nat>)
    requires Tallies(buf, found, bestSize, best)
    ensures found == LockAt(best)
  {
  }

  function LockAt(place: Option<nat>): Option<Lock> {
    if place.None? then None else Some(AtRank(place.value))
  }
}
