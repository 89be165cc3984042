/** The log queue between the two cores: core 0 copies a formatted line into the slot at `head` and
    then moves `head`; core 1 prints the slot at `tail` and then moves `tail`.  There is no lock.
    Every access to shared memory is one step, and the steps of the two cores interleave freely
    under sequential consistency. */
module LogQueue {

  const DEPTH := 128
  const LINE_MAX := 160
  const NUL := '\0'

  /** A formatted line fills its slot and is terminated within it. */
  predicate IsLine(s: string) {
    |s| == LINE_MAX && s[LINE_MAX - 1] == NUL
  }

  /** Position of the first terminator from `k` on. */
  function Terminator(s: string, k: nat): (n: nat)
    requires IsLine(s) && k < LINE_MAX
    ensures k <= n < LINE_MAX && s[n] == NUL
    ensures forall i | k <= i < n :: s[i] != NUL
    decreases LINE_MAX - k
  {
    if s[k] == NUL then k else Terminator(s, k + 1)
  }

  /** What printing a line shows. */
  function Text(s: string): string
    requires IsLine(s)
  {
    s[..Terminator(s, 0)]
  }

  /** Where core 0 is in a call: the line formatted, the head read, `copied` characters copied into
      the slot, the head moved on. */
  datatype Producer =
    | Idle
    | Formatted(line: string)
    | HeadRead(line: string, h: nat)
    | Copying(line: string, h: nat, copied: nat)
    | Published(next: nat)

  /** Where core 1 is: waiting for a line, printing one character by character, about to move on. */
  datatype Consumer = Waiting | Printing(t: nat, shown: string) | Shown(t: nat, text: string)

  datatype Log = Log(head: nat, tail: nat, slots: seq<string>, dropped: nat, highWater: nat,
                     producer: Producer, consumer: Consumer,
                     attempted: nat, taken: nat, published: seq<string>, printed: seq<string>)

  datatype Action = Write(line: string) | TakeDropped | Core0 | Core1

  function Wrap(i: nat): nat { i % DEPTH }

  /** Distance from `t` up to `h` around the ring. */
  function Depth(h: nat, t: nat): int {
    if h >= t then h - t else h + DEPTH - t
  }

  /** The next step of core 0 in a call. */
  function Produce(s: Log): Log
    requires SlotsFit(s)
  {
    match s.producer
    case Idle => s
    case Formatted(line) => s.(producer := HeadRead(line, s.head))
    case HeadRead(line, h) =>
      if Wrap(h + 1) == s.tail then s.(dropped := s.dropped + 1, producer := Idle)
      else s.(producer := Copying(line, h, 0))
    case Copying(line, h, k) =>
      if k < |line| && h < DEPTH && k < LINE_MAX then
        s.(slots := s.slots[h := s.slots[h][k := line[k]]], producer := Copying(line, h, k + 1))
      else s.(head := Wrap(h + 1), published := s.published + [line], producer := Published(Wrap(h + 1)))
    case Published(next) =>
      var depth := Depth(next, s.tail);
      s.(highWater := if depth > s.highWater then depth else s.highWater, producer := Idle)
  }

  predicate SlotsFit(s: Log) {
    |s.slots| == DEPTH && forall i | 0 <= i < DEPTH :: |s.slots[i]| == LINE_MAX
  }

  /** The next step of core 1. */
  function Print(s: Log): Log
    requires SlotsFit(s)
  {
    match s.consumer
    case Waiting => if s.tail != s.head then s.(consumer := Printing(s.tail, "")) else s
    case Printing(t, shown) =>
      if t < DEPTH && |shown| < LINE_MAX && s.slots[t][|shown|] != NUL
      then s.(consumer := Printing(t, shown + [s.slots[t][|shown|]]))
      else s.(consumer := Shown(t, shown))
    case Shown(t, text) => s.(tail := Wrap(t + 1), printed := s.printed + [text], consumer := Waiting)
  }

  /** A call of the logger or of the drop counter starts only when core 0 is not in one. */
  function Step(s: Log, a: Action): Log
    requires SlotsFit(s)
  {
    match a
    case Write(line) =>
      if s.producer.Idle? && IsLine(line) then s.(producer := Formatted(line), attempted := s.attempted + 1) else s
    case TakeDropped => if s.producer.Idle? then s.(taken := s.taken + s.dropped, dropped := 0) else s
    case Core0 => Produce(s)
    case Core1 => Print(s)
  }

  // ---- the invariant ------------------------------------------------------------------

  /** Indices and slots agree with what has been published and printed. */
  predicate Linked(s: Log)
    requires SlotsFit(s)
  {
    && |s.printed| <= |s.published| <= |s.printed| + DEPTH - 1
    && s.head == Wrap(|s.published|) && s.tail == Wrap(|s.printed|)
    && (forall i | 0 <= i < |s.published| :: IsLine(s.published[i]))
    && (forall i | |s.printed| <= i < |s.published| :: s.slots[Wrap(i)] == s.published[i])
    && (forall i | 0 <= i < |s.printed| :: s.printed[i] == Text(s.published[i]))
  }

  predicate ProducerOk(s: Log)
    requires SlotsFit(s)
  {
    match s.producer
    case Idle => true
    case Formatted(line) => IsLine(line)
    case HeadRead(line, h) => IsLine(line) && h == s.head
    case Copying(line, h, k) =>
      && IsLine(line) && h == s.head && k <= LINE_MAX
      && |s.published| < |s.printed| + DEPTH - 1
      && h < DEPTH && s.slots[h][..k] == line[..k]
    case Published(next) => next == s.head
  }

  predicate ConsumerOk(s: Log)
    requires SlotsFit(s) && Linked(s)
  {
    match s.consumer
    case Waiting => true
    case Printing(t, shown) =>
      && t == s.tail && |s.printed| < |s.published|
      && |shown| <= Terminator(s.published[|s.printed|], 0)
      && shown == s.published[|s.printed|][..|shown|]
    case Shown(t, text) =>
      t == s.tail && |s.printed| < |s.published| && text == Text(s.published[|s.printed|])
  }

  function InCall(p: Producer): nat {
    if p.Idle? || p.Published? then 0 else 1
  }

  predicate Inv(s: Log) {
    && SlotsFit(s) && Linked(s) && ProducerOk(s) && ConsumerOk(s)
    && s.attempted == |s.published| + s.dropped + s.taken + InCall(s.producer)
    && s.highWater <= DEPTH - 1
  }

  lemma WrapNext(i: nat)
    ensures Wrap(Wrap(i) + 1) == Wrap(i + 1) && Wrap(i) < DEPTH
  {
  }

  /** Fewer than 128 apart, indices fall on the same slot only if they are equal. */
  lemma WrapInjective(i: nat, j: nat)
    requires i <= j < i + DEPTH && Wrap(i) == Wrap(j)
    ensures i == j
  {
  }

  lemma FullIsNextToTail(t: nat)
    ensures Wrap(t + DEPTH) == Wrap(t)
  {
  }

  lemma DepthIsDistance(t: nat, h: nat)
    requires t <= h <= t + DEPTH - 1
    ensures Depth(Wrap(h), Wrap(t)) == h - t
  {
  }

  /** The producer never writes a slot between tail and head. */
  lemma ProducerStaysOut(s: Log, i: nat)
    requires Inv(s) && s.producer.Copying? && |s.printed| <= i < |s.published|
    ensures Wrap(i) != s.producer.h
  {
    if Wrap(i) == s.producer.h {
      WrapInjective(i, |s.published|);
    }
  }

  lemma CheckTail(s: Log)
    requires Inv(s) && s.producer.HeadRead?
    ensures Inv(Produce(s))
  {
    hide IsLine, Terminator, Text, ConsumerOk;
    WrapNext(|s.published|);
    FullIsNextToTail(|s.printed|);
    ConsumerSees(s, Produce(s));
    assert s.slots[s.producer.h][..0] == s.producer.line[..0];
  }

  /** The printing core does not look at the writing core's progress. */
  lemma ConsumerSees(s: Log, r: Log)
    requires SlotsFit(s) && Linked(s) && ConsumerOk(s) && SlotsFit(r) && Linked(r)
    requires r.consumer == s.consumer && r.tail == s.tail && r.published == s.published && r.printed == s.printed
    ensures ConsumerOk(r)
  {
  }

  lemma CopyChar(s: Log)
    requires Inv(s) && s.producer.Copying? && s.producer.copied < LINE_MAX
    ensures Inv(Produce(s))
  {
    var line, h, k := s.producer.line, s.producer.h, s.producer.copied;
    var slot := s.slots[h][k := line[k]];
    var r := Produce(s);
    assert slot[..k + 1] == line[..k + 1] by {
      assert slot[..k] == line[..k];
    }
    forall i | |s.printed| <= i < |s.published|
      ensures r.slots[Wrap(i)] == s.published[i]
    {
      ProducerStaysOut(s, i);
    }
    hide IsLine, Terminator, Text;
  }

  lemma Publish(s: Log)
    requires Inv(s) && s.producer.Copying? && s.producer.copied == LINE_MAX
    ensures Inv(Produce(s))
  {
    var line, h := s.producer.line, s.producer.h;
    var r := Produce(s);
    WrapNext(|s.published|);
    assert s.slots[h] == line by {
      assert s.slots[h][..LINE_MAX] == s.slots[h] && line[..LINE_MAX] == line;
    }
    hide Terminator, Text;
    forall i | |r.printed| <= i < |r.published|
      ensures r.slots[Wrap(i)] == r.published[i]
    {
    }
  }

  lemma NoteDepth(s: Log)
    requires Inv(s) && s.producer.Published?
    ensures Inv(Produce(s))
  {
    DepthIsDistance(|s.printed|, |s.published|);
    hide IsLine, Terminator, Text, Wrap;
  }

  lemma ProduceKeepsInv(s: Log)
    requires Inv(s)
    ensures Inv(Produce(s))
  {
    match s.producer
    case Idle =>
    case Formatted(line) => hide IsLine, Terminator, Text, Wrap;
    case HeadRead(_, _) => CheckTail(s);
    case Copying(_, _, k) => if k < LINE_MAX { CopyChar(s); } else { Publish(s); }
    case Published(_) => NoteDepth(s);
  }

  lemma StartPrinting(s: Log)
    requires Inv(s) && s.consumer.Waiting? && s.tail != s.head
    ensures Inv(Print(s))
  {
    assert |s.printed| < |s.published|;
    assert s.published[|s.printed|][..0] == "";
  }

  lemma PrintChar(s: Log)
    requires Inv(s) && s.consumer.Printing?
    ensures Inv(Print(s))
  {
    hide Terminator, ProducerOk, Text;
    var line, shown := s.published[|s.printed|], s.consumer.shown;
    assert s.slots[s.tail] == line;
    WrapNext(|s.printed|);
    var n := Terminator(line, 0);
    hide Wrap;
    TailMovesProducer(s, Print(s));
    assert Text(line) == line[..n] by { TextEnds(line); }
    if |shown| < n {
      assert shown + [line[|shown|]] == line[..|shown| + 1];
    }
  }

  lemma TextEnds(line: string)
    requires IsLine(line)
    ensures Text(line) == line[..Terminator(line, 0)]
  {
  }

  lemma MoveTail(s: Log)
    requires Inv(s) && s.consumer.Shown?
    ensures Inv(Print(s))
  {
    hide IsLine, Terminator, Text, ProducerOk;
    WrapNext(|s.printed|);
    TailMovesProducer(s, Print(s));
  }

  /** The writing core does not look at what has been printed, but for the room it leaves. */
  lemma TailMovesProducer(s: Log, r: Log)
    requires SlotsFit(s) && SlotsFit(r) && ProducerOk(s) && r.producer == s.producer && r.head == s.head
    requires r.slots == s.slots && r.published == s.published && |r.printed| >= |s.printed|
    ensures ProducerOk(r)
  {
  }

  lemma PrintKeepsInv(s: Log)
    requires Inv(s)
    ensures Inv(Print(s))
  {
    match s.consumer
    case Waiting => if s.tail != s.head { StartPrinting(s); }
    case Printing(_, _) => PrintChar(s);
    case Shown(_, _) => MoveTail(s);
  }

  lemma StepKeepsInv(s: Log, a: Action)
    requires Inv(s)
    ensures Inv(Step(s, a))
  {
    match a
    case Core0 => ProduceKeepsInv(s);
    case Core1 => PrintKeepsInv(s);
    case Write(line) => hide Terminator, Text, Wrap;
    case TakeDropped => hide Terminator, Text, Wrap;
  }

  // ---- every interleaving -------------------------------------------------------------

  function Start(slots: seq<string>): Log {
    Log(0, 0, slots, 0, 0, Idle, Waiting, 0, 0, [], [])
  }

  /** The queue after the first `n` steps of a schedule, whatever the slots held at first. */
  function RunUpTo(slots: seq<string>, schedule: seq<Action>, n: nat): (s: Log)
    requires n <= |schedule| && SlotsFit(Start(slots))
    ensures Inv(s)
  {
    if n == 0 then Start(slots)
    else
      var s := RunUpTo(slots, schedule, n - 1);
      StepKeepsInv(s, schedule[n - 1]);
      Step(s, schedule[n - 1])
  }

  function Texts(lines: seq<string>): (r: seq<string>)
    requires forall i | 0 <= i < |lines| :: IsLine(lines[i])
    ensures |r| == |lines|
  {
    seq(|lines|, i requires 0 <= i < |lines| => Text(lines[i]))
  }

  /** Under every interleaving the lines core 1 has printed are, unaltered and in order, the first
      of the lines core 0 has published; the line being printed is so far unaltered too; while a
      slot is being written it is none of those waiting to be printed; and every attempt was
      published or counted as dropped, or is still under way. */
  lemma EveryInterleavingIsSafe(slots: seq<string>, schedule: seq<Action>)
    requires SlotsFit(Start(slots))
    ensures var s := RunUpTo(slots, schedule, |schedule|);
      && (forall i | 0 <= i < |s.published| :: IsLine(s.published[i]))
      && s.printed <= Texts(s.published)
      && (s.consumer.Printing? ==> |s.printed| < |s.published| && s.consumer.shown <= Texts(s.published)[|s.printed|])
      && (s.producer.Copying? ==> forall i | |s.printed| <= i < |s.published| :: Wrap(i) != s.producer.h)
      && s.attempted == |s.published| + s.dropped + s.taken + InCall(s.producer)
  {
    var s := RunUpTo(slots, schedule, |schedule|);
    hide RunUpTo, Wrap;
    if s.producer.Copying? {
      forall i | |s.printed| <= i < |s.published|
        ensures Wrap(i) != s.producer.h
      {
        ProducerStaysOut(s, i);
      }
    }
    hide Terminator, IsLine;
    assert s.printed == Texts(s.published)[..|s.printed|];
  }

  // ---- nothing is dropped without need, and everything gets printed --------------------

  /** Lines published and not yet printed. */
  function Unread(s: Log): nat
    requires SlotsFit(s) && Linked(s)
  {
    |s.published| - |s.printed|
  }

  /** The dropped count rises in exactly those steps in which core 0 has read the head for a line and
      finds 127 lines standing between tail and head. */
  lemma DropsOnlyWhenFull(s: Log, a: Action)
    requires Inv(s)
    ensures Step(s, a).dropped > s.dropped <==> a.Core0? && s.producer.HeadRead? && Unread(s) == 127
    ensures a.Core0? && s.producer.HeadRead? && Unread(s) < 127 ==> Step(s, a).producer.Copying?
  {
    if s.producer.HeadRead? {
      WrapNext(|s.published|);
      FullIsNextToTail(|s.printed|);
      if Wrap(|s.published| + 1) == Wrap(|s.printed|) {
        WrapInjective(|s.published| + 1, |s.printed| + DEPTH);
      }
    }
    hide IsLine, Terminator, Text;
  }

  /** The high-water mark is raised to the number of lines waiting when core 0 looks, right after it
      has published. */
  lemma HighWaterIsExact(s: Log, a: Action)
    requires Inv(s)
    ensures Step(s, a).highWater
            == if a.Core0? && s.producer.Published? && Unread(s) > s.highWater then Unread(s) else s.highWater
  {
    DepthIsDistance(|s.printed|, |s.published|);
    hide IsLine, Terminator, Text, Wrap;
  }

  /** Steps of core 0 until a line is in its slot and published. */
  function StepsToPublish(p: Producer): nat {
    match p
    case Formatted(_) => LINE_MAX + 3
    case HeadRead(_, _) => LINE_MAX + 2
    case Copying(_, _, k) => if k < LINE_MAX then LINE_MAX + 1 - k else 1
    case _ => 0
  }

  /** The line core 0 is about to publish, if there is one. */
  function Pending(p: Producer): seq<string> {
    match p
    case Formatted(line) => [line]
    case HeadRead(line, _) => [line]
    case Copying(line, _, _) => [line]
    case _ => []
  }

  /** As long as fewer than 127 lines wait, the pending line stays pending or is published. */
  lemma PendingGoesOn(s: Log, a: Action)
    requires Inv(s) && (a.Core0? || a.Core1?) && (Unread(s) < 127 || Pending(s.producer) == [])
    ensures var r := Step(s, a);
      && Inv(r)
      && r.published + Pending(r.producer) == s.published + Pending(s.producer)
      && StepsToPublish(r.producer) == StepsToPublish(s.producer) - (if a.Core0? && Pending(s.producer) != [] then 1 else 0)
      && (Pending(r.producer) != [] ==> Unread(r) <= Unread(s))
  {
    hide IsLine, Terminator, Text, Wrap, ProducerOk, ConsumerOk;
    StepKeepsInv(s, a);
    if a.Core0? {
      ProduceGoesOn(s);
    }
  }

  lemma ProduceGoesOn(s: Log)
    requires Inv(s) && (Unread(s) < 127 || Pending(s.producer) == [])
    ensures SlotsFit(s)
    ensures var r := Produce(s);
      && r.published + Pending(r.producer) == s.published + Pending(s.producer)
      && StepsToPublish(r.producer) == StepsToPublish(s.producer) - (if Pending(s.producer) != [] then 1 else 0)
      && (Pending(r.producer) != [] ==> r.published == s.published) && r.printed == s.printed
  {
    hide Terminator, Text, Wrap, ConsumerOk;
    DropsOnlyWhenFull(s, Core0);
  }

  /** The queue after the first `n` steps of a schedule, from any state. */
  function RunFrom(s: Log, schedule: seq<Action>, n: nat): (r: Log)
    requires n <= |schedule| && Inv(s)
    ensures Inv(r)
  {
    if n == 0 then s
    else
      var r := RunFrom(s, schedule, n - 1);
      StepKeepsInv(r, schedule[n - 1]);
      Step(r, schedule[n - 1])
  }

  function CountCore0(schedule: seq<Action>, n: nat): nat
    requires n <= |schedule|
  {
    if n == 0 then 0 else CountCore0(schedule, n - 1) + if schedule[n - 1].Core0? then 1 else 0
  }

  lemma {:induction false} PendingArrives(s: Log, schedule: seq<Action>, n: nat)
    requires n <= |schedule| && Inv(s) && (Unread(s) < 127 || Pending(s.producer) == [])
    requires forall i | 0 <= i < n :: schedule[i].Core0? || schedule[i].Core1?
    ensures var r := RunFrom(s, schedule, n);
      && r.published + Pending(r.producer) == s.published + Pending(s.producer)
      && (Pending(r.producer) != [] ==> Unread(r) < 127 && StepsToPublish(r.producer) + CountCore0(schedule, n) == StepsToPublish(s.producer))
  {
    hide Inv, Step;
    if n > 0 {
      PendingArrives(s, schedule, n - 1);
      PendingGoesOn(RunFrom(s, schedule, n - 1), schedule[n - 1]);
    }
  }

  /** A line written while fewer than 127 lines wait is published, whatever core 1 does meanwhile:
      in any interleaving with 163 steps of core 0. */
  lemma WritePublishes(s: Log, line: string, schedule: seq<Action>)
    requires Inv(s) && s.producer.Idle? && Unread(s) < 127 && IsLine(line)
    requires forall i | 0 <= i < |schedule| :: schedule[i].Core0? || schedule[i].Core1?
    requires CountCore0(schedule, |schedule|) >= 163
    ensures Inv(Step(s, Write(line)))
    ensures RunFrom(Step(s, Write(line)), schedule, |schedule|).published == s.published + [line]
  {
    hide RunFrom, Terminator, Text, Wrap, ConsumerOk, Linked;
    StepKeepsInv(s, Write(line));
    PendingArrives(Step(s, Write(line)), schedule, |schedule|);
  }

  /** Steps of core 1 until nothing is left to print. */
  function StepsToPrint(s: Log): nat
    requires Inv(s)
  {
    match s.consumer
    case Waiting => (LINE_MAX + 3) * Unread(s)
    case Printing(_, shown) => (LINE_MAX + 3) * Unread(s) - 1 - |shown|
    case Shown(_, _) => (LINE_MAX + 3) * Unread(s) - (LINE_MAX + 1)
  }

  lemma PrintGoesOn(s: Log)
    requires Inv(s) && StepsToPrint(s) > 0
    ensures Inv(Print(s)) && StepsToPrint(Print(s)) < StepsToPrint(s) && Print(s).published == s.published
  {
    PrintKeepsInv(s);
    if s.consumer.Waiting? {
      assert Unread(s) > 0;
      if s.tail == s.head {
        WrapInjective(|s.printed|, |s.published|);
      }
    }
    hide IsLine, Text, Wrap;
  }

  lemma NothingToPrint(s: Log)
    requires Inv(s) && StepsToPrint(s) == 0
    ensures Print(s) == s && s.printed == Texts(s.published)
  {
    hide Terminator, IsLine, Wrap;
  }

  lemma {:induction false} PrintingGoesOn(s: Log, schedule: seq<Action>, n: nat)
    requires Inv(s) && n <= |schedule| && forall i | 0 <= i < n :: schedule[i].Core1?
    ensures RunFrom(s, schedule, n).published == s.published
    ensures StepsToPrint(RunFrom(s, schedule, n)) <= if n < StepsToPrint(s) then StepsToPrint(s) - n else 0
  {
    hide Inv, StepsToPrint, Print;
    if n > 0 {
      PrintingGoesOn(s, schedule, n - 1);
      var r := RunFrom(s, schedule, n - 1);
      if StepsToPrint(r) > 0 {
        PrintGoesOn(r);
      } else {
        NothingToPrint(r);
      }
    }
  }

  lemma StepsAreBounded(s: Log)
    requires Inv(s)
    ensures StepsToPrint(s) <= 163 * Unread(s)
  {
    hide Terminator, IsLine, Wrap, Text;
  }

  /** Core 1 running alone prints every published line, unaltered, in at most 163 steps a line. */
  lemma EverythingIsPrinted(s: Log, schedule: seq<Action>)
    requires Inv(s) && forall i | 0 <= i < |schedule| :: schedule[i].Core1?
    requires |schedule| >= 163 * Unread(s)
    ensures var r := RunFrom(s, schedule, |schedule|);
      r.published == s.published && r.printed == Texts(s.published)
  {
    StepsAreBounded(s);
    PrintingGoesOn(s, schedule, |schedule|);
    NothingToPrint(RunFrom(s, schedule, |schedule|));
    hide RunFrom, Terminator, IsLine, Wrap;
  }
}
