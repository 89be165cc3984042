/** Frame synchronisation on a raw byte stream of unknown bit phase, as functions of the buffered
    bytes: which opening is chosen, where a candidate ends, and what one poll answers.  The
    accumulator, a resumable state machine, is proved to compute these. */
module Sync {
  import opened Words

  datatype Option<T> = None | Some(value: T)

  const MAX_BUFFER := 8192
  const MAX_FRAME := 2048
  const MIN_FRAME := 4
  const SHORT_SEARCH_LIMIT := 64
  const TAIL_KEPT := 16

  /** How aligned bytes are put together from two neighbouring raw bytes. */
  datatype Phase = Phase(offset: nat, right: bool)

  predicate ValidPhase(p: Phase) {
    p.offset < 8 && (p.offset == 0 ==> !p.right)
  }

  /** The phases in which the raw bytes carry their bits least significant first. */
  function RightPhase(k: nat): Phase { Phase(k, k > 0) }

  /** An opening flag at a raw index and a phase. */
  datatype Lock = Lock(start: nat, phase: Phase)

  /** How many aligned bytes `n` raw bytes give: a shifted byte needs the raw byte after it. */
  function AlignedCount(n: nat, offset: nat): nat {
    if offset == 0 || n == 0 then n else n - 1
  }

  function Aligned(buf: seq<Byte>, i: nat, p: Phase): Byte
    requires i < AlignedCount(|buf|, p.offset) && p.offset < 8
  {
    if p.offset == 0 then buf[i]
    else if p.right then Or(Shr(buf[i], p.offset), Shl(buf[i + 1], 8 - p.offset))
    else Or(Shl(buf[i], p.offset), Shr(buf[i + 1], 8 - p.offset))
  }

  predicate IsFlag(buf: seq<Byte>, i: nat, p: Phase)
    requires p.offset < 8
  {
    i < AlignedCount(|buf|, p.offset) && Aligned(buf, i, p) == FLAG
  }

  /** The first `n` aligned bytes from a lock on. */
  function Slice(buf: seq<Byte>, l: Lock, n: nat): (s: seq<Byte>)
    requires l.phase.offset < 8 && l.start + n <= AlignedCount(|buf|, l.phase.offset)
    ensures |s| == n
  {
    seq<Byte>(n, k requires 0 <= k < n => Aligned(buf, l.start + k, l.phase))
  }

  /** The locked bytes show a flag at index `j`. */
  predicate ClosesAt(buf: seq<Byte>, l: Lock, j: nat)
    requires l.phase.offset < 8
  {
    IsFlag(buf, l.start + j, l.phase)
  }

  /** The first index from `k` on, below `limit`, at which the locked bytes show a flag. */
  function CloseFrom(buf: seq<Byte>, l: Lock, k: nat, limit: nat): (c: Option<nat>)
    requires l.phase.offset < 8
    ensures c.Some? ==> k <= c.value < limit && ClosesAt(buf, l, c.value)
    ensures forall j | k <= j < (if c.Some? then c.value else limit) :: !ClosesAt(buf, l, j)
    decreases limit - k
  {
    if k >= limit then None
    else if ClosesAt(buf, l, k) then Some(k)
    else CloseFrom(buf, l, k + 1, limit)
  }

  // ---- the two searches for an opening ------------------------------------------------

  /** Least phase at which raw index `i` shows a flag, right shifts only. */
  function FirstPhase(buf: seq<Byte>, i: nat, k: nat): (r: Option<nat>)
    requires k <= 8
    ensures r.Some? ==> k <= r.value < 8 && IsFlag(buf, i, RightPhase(r.value))
    ensures forall j | k <= j < (if r.Some? then r.value else 8) :: !IsFlag(buf, i, RightPhase(j))
    decreases 8 - k
  {
    if k == 8 then None
    else if IsFlag(buf, i, RightPhase(k)) then Some(k)
    else FirstPhase(buf, i, k + 1)
  }

  predicate NoOpening(buf: seq<Byte>, i: nat) {
    forall k | 0 <= k < 8 :: !IsFlag(buf, i, RightPhase(k))
  }

  /** The fast search: first raw index from `i` on, then least phase. */
  function FirstOpening(buf: seq<Byte>, i: nat): (r: Option<Lock>)
    ensures r.Some? ==>
              && i <= r.value.start < |buf| - 1
              && r.value.phase.offset < 8 && r.value.phase == RightPhase(r.value.phase.offset)
              && IsFlag(buf, r.value.start, r.value.phase)
              && forall k | 0 <= k < r.value.phase.offset :: !IsFlag(buf, r.value.start, RightPhase(k))
    ensures forall j | i <= j < (if r.Some? then r.value.start else |buf| - 1) :: NoOpening(buf, j)
    decreases |buf| - i
  {
    if i + 1 >= |buf| then None
    else
      var p := FirstPhase(buf, i, 0);
      if p.Some? then Some(Lock(i, RightPhase(p.value))) else FirstOpening(buf, i + 1)
  }

  /** Place of a raw index, an offset and a direction in the order of the exhaustive search. */
  function Rank(start: nat, offset: nat, right: bool): nat {
    16 * start + 2 * offset + if right then 1 else 0
  }

  function AtRank(r: nat): Lock {
    Lock(r / 16, Phase(r % 16 / 2, r % 2 == 1))
  }

  /** Length of the complete flag-to-flag span that starts at a place, 0 if there is none. */
  function SpanSize(buf: seq<Byte>, l: Lock): nat {
    if !ValidPhase(l.phase) || !IsFlag(buf, l.start, l.phase) then 0
    else
      var c := CloseFrom(buf, l, MIN_FRAME - 1, |buf|);
      if c.Some? then c.value + 1 else 0
  }

  function SizeAt(buf: seq<Byte>, r: nat): nat { SpanSize(buf, AtRank(r)) }

  /** The exhaustive search over the places from `r` on. */
  function BestRank(buf: seq<Byte>, r: nat): (b: Option<nat>)
    ensures b.Some? ==> r <= b.value < 16 * (|buf| - 1)
    decreases 16 * |buf| - r
  {
    if r >= 16 * (|buf| - 1) then None
    else
      var rest := BestRank(buf, r + 1);
      var here := SizeAt(buf, r);
      if here > 0 && (rest.None? || here >= SizeAt(buf, rest.value)) then Some(r) else rest
  }

  /** A longest span among the places r..end, the earliest in scan order among equals. */
  predicate IsBest(buf: seq<Byte>, r: nat, end: int, b: Option<nat>) {
    if b.None? then forall q | r <= q < end :: SizeAt(buf, q) == 0
    else
      && r <= b.value < end && SizeAt(buf, b.value) > 0
      && (forall q | r <= q < end :: SizeAt(buf, q) <= SizeAt(buf, b.value))
      && (forall q | r <= q < b.value :: SizeAt(buf, q) < SizeAt(buf, b.value))
  }

  lemma {:induction false} BestRankIsBest(buf: seq<Byte>, r: nat)
    ensures IsBest(buf, r, 16 * (|buf| - 1), BestRank(buf, r))
    decreases 16 * |buf| - r
  {
    hide SizeAt;
    if r < 16 * (|buf| - 1) {
      BestRankIsBest(buf, r + 1);
    }
  }

  lemma BestIsUnique(buf: seq<Byte>, r: nat, end: int, a: Option<nat>, b: Option<nat>)
    requires IsBest(buf, r, end, a) && IsBest(buf, r, end, b)
    ensures a == b
  {
    hide SizeAt;
  }

  /** The opening a hunting poll locks on, one raw byte of overlap included. */
  function Hunt(buf: seq<Byte>, scan: nat): (r: Option<Lock>)
    ensures r.Some? ==> ValidPhase(r.value.phase) && IsFlag(buf, r.value.start, r.value.phase)
    ensures r.Some? ==> r.value.start < |buf| - 1
  {
    var from := if scan > 0 then scan - 1 else 0;
    var best := if MIN_FRAME <= |buf| <= SHORT_SEARCH_LIMIT then BestRank(buf, 16 * from) else None;
    BestRankIsBest(buf, 16 * from);
    if best.Some? then Some(AtRank(best.value)) else FirstOpening(buf, from)
  }

  // ---- one poll -----------------------------------------------------------------------

  /** Raw indices of a reported candidate, the end exclusive. */
  datatype Span = Span(first: nat, end: nat)

  datatype View = View(buf: seq<Byte>, processed: nat, lock: Option<Lock>, candidate: Option<Span>)

  /** A lock is an opening flag in the buffer with no closing flag among the bytes already taken
      over, and the cursor stands right after those bytes. */
  predicate ValidLock(buf: seq<Byte>, processed: nat, l: Lock) {
    && ValidPhase(l.phase)
    && IsFlag(buf, l.start, l.phase)
    && l.start < processed <= AlignedCount(|buf|, l.phase.offset)
    && forall j | 2 <= j < processed - l.start :: !ClosesAt(buf, l, j)
  }

  predicate ValidView(v: View) {
    && |v.buf| <= MAX_BUFFER
    && v.processed <= |v.buf|
    && (v.lock.Some? ==> v.candidate.None? && ValidLock(v.buf, v.processed, v.lock.value))
    && (v.candidate.Some? ==> v.candidate.value.first < v.candidate.value.end)
  }

  const EMPTY := View([], 0, None, None)

  datatype Outcome =
    | Waiting(view: View)
    | Ready(view: View, lock: Lock, frame: seq<Byte>)
    | TooLong(view: View)

  /** One poll with room for `capacity` output bytes. */
  function Poll(v: View, capacity: nat): Outcome
    requires v.lock.Some? ==> v.lock.value.phase.offset < 8
    decreases |v.buf|, 1
  {
    if capacity == 0 || v.buf == [] then Waiting(v)
    else if v.lock.Some? then Track(v, v.lock.value, capacity)
    else
      var l := Hunt(v.buf, v.processed);
      if l.Some? then Track(v, l.value, capacity)
      else Waiting(View(v.buf[|v.buf| - 1..], 0, None, v.candidate))
  }

  /** A locked poll: the candidate ends at the first flag from index 2 on.  One that would grow
      past the size limit is given up, and the hunt resumes one raw byte after its start. */
  function Track(v: View, l: Lock, capacity: nat): Outcome
    requires l.phase.offset < 8
    decreases |v.buf|, 0
  {
    var n := AlignedCount(|v.buf|, l.phase.offset);
    var c := CloseFrom(v.buf, l, 2, Min(capacity, MAX_FRAME));
    if c.Some? then
      Ready(View(v.buf, 0, None, Some(Span(l.start, l.start + c.value + 1))), l, Slice(v.buf, l, c.value + 1))
    else if capacity >= MAX_FRAME && |v.buf| - l.start > MAX_FRAME then
      Poll(View(v.buf[l.start + 1..], 0, None, None), capacity)
    else if capacity < MAX_FRAME && n > l.start + capacity then
      TooLong(View(v.buf, v.processed, None, None))
    else
      Waiting(View(v.buf, n, Some(l), None))
  }

  /** The caller's frame holds the bytes a lock has taken over so far, and no more than a candidate
      may have. */
  predicate Holds(v: View, frame: seq<Byte>)
    requires v.lock.Some? ==> LockInBounds(v, v.lock.value, v.processed)
  {
    v.lock.Some? ==>
      && |frame| == v.processed - v.lock.value.start <= MAX_FRAME
      && frame == Slice(v.buf, v.lock.value, |frame|)
  }

  predicate LockInBounds(v: View, l: Lock, scan: nat) {
    l.phase.offset < 8 && l.start < scan <= AlignedCount(|v.buf|, l.phase.offset)
  }

  /** What a poll answers and what it leaves in the caller's frame. */
  datatype Polled = Polled(outcome: Outcome, frame: seq<Byte>)

  /** One poll with a frame that already holds some bytes, whichever these are. */
  function PollWith(v: View, held: seq<Byte>, capacity: nat): Polled
    requires v.lock.Some? ==> LockInBounds(v, v.lock.value, v.processed)
    decreases |v.buf|, 1
  {
    if capacity == 0 || v.buf == [] then Polled(Waiting(v), held)
    else if v.lock.Some? then TrackWith(v, v.lock.value, v.processed, held, capacity)
    else
      var l := Hunt(v.buf, v.processed);
      if l.Some? then TrackWith(v, l.value, l.value.start + 1, [FLAG], capacity)
      else Polled(Waiting(View(v.buf[|v.buf| - 1..], 0, None, v.candidate)), held)
  }

  /** How many more bytes a frame may take. */
  function Room(held: seq<Byte>, capacity: nat): nat {
    if |held| < Min(capacity, MAX_FRAME) then Min(capacity, MAX_FRAME) - |held| else 0
  }

  /** From which index on a byte is tested for the closing flag. */
  function TestFrom(at: nat): nat { if at < 2 then 2 else at }

  /** A locked poll from a cursor on.  What is in the frame only counts by its length. */
  function TrackWith(v: View, l: Lock, scan: nat, held: seq<Byte>, capacity: nat): Polled
    requires LockInBounds(v, l, scan)
    decreases |v.buf|, 0
  {
    var n, room, at := AlignedCount(|v.buf|, l.phase.offset), Room(held, capacity), scan - l.start;
    var c := CloseFrom(v.buf, l, TestFrom(at), at + room);
    if c.Some? then
      var frame := held + Slice(v.buf, Lock(scan, l.phase), c.value + 1 - at);
      Polled(Ready(View(v.buf, 0, None, Some(Span(l.start, l.start + c.value + 1))), l, frame), frame)
    else if capacity >= MAX_FRAME && |v.buf| - scan > room then
      PollWith(View(v.buf[l.start + 1..], 0, None, None), [], capacity)
    else if capacity < MAX_FRAME && n > scan + room then
      Polled(TooLong(View(v.buf, v.processed, None, None)), [])
    else
      Polled(Waiting(View(v.buf, n, Some(l), None)), held + Slice(v.buf, Lock(scan, l.phase), n - scan))
  }

  /** The caller's verdict on a reported candidate: an accepted one is dropped whole, a rejected
      one loses only its first raw byte.  A nearly full buffer is cut down to its tail. */
  function Consume(v: View, accept: bool): View {
    if v.candidate.None? then v
    else
      var span := v.candidate.value;
      var rest := v.buf[Min(if accept then span.end else span.first + 1, |v.buf|)..];
      var kept := if |rest| >= MAX_BUFFER - TAIL_KEPT then rest[|rest| - TAIL_KEPT..] else rest;
      View(kept, 0, None, None)
  }

  function Feed(v: View, byte: Byte): View {
    if |v.buf| >= MAX_BUFFER then v else v.(buf := v.buf + [byte])
  }
}
