/** The command line: characters edited into a line, lines kept in a pool of slots, and the slots
    referred to by queued events. */
module CliPool {
  import opened Events
  import Words

  const LINE_MAX := 128
  const POOL_SIZE := CAPACITY
  const CHARS_PER_POLL := 16
  const BACKSPACE := '\U{0008}'
  const DELETE := '\U{007F}'

  datatype Event = CliLine(slot: nat) | Other(kind: nat)

  datatype Cli = Cli(line: string, pool: seq<string>, write: nat, queue: Fifo<Event>)

  /** What one character does to the line being edited. */
  function Edit(line: string, c: char): string {
    if c == BACKSPACE || c == DELETE then (if line == [] then [] else line[..|line| - 1])
    else if ' ' <= c <= '~' && |line| < LINE_MAX - 1 then line + [c]
    else line
  }

  predicate EndsLine(c: char) { c == '\n' || c == '\r' }

  /** The line goes into the pool's write slot; the write index moves on only if the event fits. */
  function Submit(s: Cli): Cli
    requires s.write < |s.pool|
  {
    var full := |s.queue.items| >= CAPACITY - 1;
    Cli([], s.pool[s.write := s.line], if full then s.write else (s.write + 1) % POOL_SIZE,
        Pushed(s.queue, CliLine(s.write)))
  }

  function Typed(s: Cli, c: char): Cli
    requires s.write < |s.pool|
  {
    if EndsLine(c) then Submit(s) else s.(line := Edit(s.line, c))
  }

  // ---- no slot is overwritten while an event refers to it ------------------------------

  /** Command-line events from place `i` of the queue on. */
  function CliFrom(items: seq<Event>, i: nat): (n: nat)
    requires i <= |items|
    ensures n <= |items| - i
    decreases |items| - i
  {
    if i == |items| then 0 else CliFrom(items, i + 1) + if items[i].CliLine? then 1 else 0
  }

  /** Queued events refer to the slots before the write index, in order. */
  predicate InOrder(items: seq<Event>, write: nat) {
    forall i | 0 <= i < |items| && items[i].CliLine? ::
      items[i].slot == Back(write, CliFrom(items, i))
  }

  /** The slot `n` places before slot `write`, around the start of the pool. */
  function Back(write: nat, n: nat): int {
    if n <= write then write - n else write + POOL_SIZE - n
  }

  /** The lines the queued events will show when they are popped. */
  function Pending(pool: seq<string>, items: seq<Event>, n: nat): seq<string>
    requires n <= |items|
    requires forall i | 0 <= i < |items| && items[i].CliLine? :: items[i].slot < |pool|
  {
    if n == 0 then []
    else Pending(pool, items, n - 1) + if items[n - 1].CliLine? then [pool[items[n - 1].slot]] else []
  }

  /** A run: the command line, the lines whose event was queued, and the lines read from the pool
      when their events were popped. */
  datatype Trace = Trace(cli: Cli, queued: seq<string>, read: seq<string>)

  datatype Op = Type(c: char) | PushOther(kind: nat) | PopEvent

  function Blank(n: nat): (s: seq<string>)
    ensures |s| == n
  {
    seq(n, _ => "")
  }

  const START := Trace(Cli([], Blank(POOL_SIZE), 0, Fifo([], 0, 0)), [], [])

  predicate Inv(t: Trace) {
    && |t.cli.pool| == POOL_SIZE && t.cli.write < POOL_SIZE
    && |t.cli.queue.items| <= CAPACITY - 1
    && |t.cli.line| < LINE_MAX
    && InOrder(t.cli.queue.items, t.cli.write)
    && t.queued == t.read + Pending(t.cli.pool, t.cli.queue.items, |t.cli.queue.items|)
  }

  function Step(t: Trace, op: Op): Trace
    requires Inv(t)
  {
    match op
    case Type(c) =>
      var fits := EndsLine(c) && |t.cli.queue.items| < CAPACITY - 1;
      Trace(Typed(t.cli, c), if fits then t.queued + [t.cli.line] else t.queued, t.read)
    case PushOther(k) => t.(cli := t.cli.(queue := Pushed(t.cli.queue, Other(k))))
    case PopEvent =>
      var items := t.cli.queue.items;
      Trace(t.cli.(queue := Popped(t.cli.queue)), t.queued,
            if items != [] && items[0].CliLine? then t.read + [t.cli.pool[items[0].slot]] else t.read)
  }

  lemma {:induction false} CliFromSnoc(items: seq<Event>, e: Event, i: nat)
    requires i <= |items|
    ensures CliFrom(items + [e], i) == CliFrom(items, i) + if e.CliLine? then 1 else 0
    decreases |items| - i
  {
    if i < |items| {
      CliFromSnoc(items, e, i + 1);
    } else {
      assert CliFrom(items + [e], |items| + 1) == 0;
    }
  }

  lemma {:induction false} CliFromTail(items: seq<Event>, i: nat)
    requires 1 <= i <= |items|
    ensures CliFrom(items[1..], i - 1) == CliFrom(items, i)
    decreases |items| - i
  {
    if i < |items| {
      CliFromTail(items, i + 1);
    }
  }

  lemma {:induction false} PendingSnoc(pool: seq<string>, items: seq<Event>, e: Event, n: nat)
    requires n <= |items|
    requires forall i | 0 <= i < |items + [e]| && (items + [e])[i].CliLine? :: (items + [e])[i].slot < |pool|
    ensures forall i | 0 <= i < |items| && items[i].CliLine? :: items[i].slot < |pool|
    ensures Pending(pool, items + [e], n) == Pending(pool, items, n)
  {
    assert forall i | 0 <= i < |items| :: (items + [e])[i] == items[i];
    if n > 0 {
      PendingSnoc(pool, items, e, n - 1);
    }
  }

  lemma {:induction false} PendingTail(pool: seq<string>, items: seq<Event>, n: nat)
    requires 1 <= n <= |items|
    requires forall i | 0 <= i < |items| && items[i].CliLine? :: items[i].slot < |pool|
    ensures Pending(pool, items, n)
            == (if items[0].CliLine? then [pool[items[0].slot]] else []) + Pending(pool, items[1..], n - 1)
  {
    if n > 1 {
      PendingTail(pool, items, n - 1);
    }
  }

  /** Writing a slot no queued event refers to changes no pending line. */
  lemma {:induction false} PendingUntouched(pool: seq<string>, items: seq<Event>, slot: nat, line: string, n: nat)
    requires n <= |items| && slot < |pool|
    requires forall i | 0 <= i < |items| && items[i].CliLine? :: items[i].slot < |pool| && items[i].slot != slot
    ensures Pending(pool[slot := line], items, n) == Pending(pool, items, n)
  {
    if n > 0 {
      PendingUntouched(pool, items, slot, line, n - 1);
    }
  }

  /** At most fifteen of the sixteen slots are referred to, and never the write slot. */
  lemma WriteSlotIsFree(items: seq<Event>, write: nat)
    requires |items| <= CAPACITY - 1 && write < POOL_SIZE && InOrder(items, write)
    ensures forall i | 0 <= i < |items| && items[i].CliLine? :: items[i].slot < POOL_SIZE && items[i].slot != write
  {
    forall i | 0 <= i < |items| && items[i].CliLine?
      ensures items[i].slot < POOL_SIZE && items[i].slot != write
    {
      assert 1 <= CliFrom(items, i) <= 15;
    }
  }

  lemma SubmitKeepsInv(t: Trace)
    requires Inv(t)
    ensures Inv(Step(t, Type('\n')))
  {
    var s := t.cli;
    var items := s.queue.items;
    var pool := s.pool[s.write := s.line];
    WriteSlotIsFree(items, s.write);
    PendingUntouched(s.pool, items, s.write, s.line, |items|);
    if |items| < CAPACITY - 1 {
      var e := CliLine(s.write);
      PushKeepsOrder(items, e, s.write);
      PendingSnoc(pool, items, e, |items|);
      assert Pending(pool, items + [e], |items| + 1) == Pending(pool, items, |items|) + [s.line];
      hide Pending, InOrder;
      assert t.read + (Pending(pool, items, |items|) + [s.line]) == t.read + Pending(pool, items, |items|) + [s.line];
    }
  }

  lemma PushKeepsOrder(items: seq<Event>, e: Event, write: nat)
    requires InOrder(items, write) && |items| < CAPACITY && write < POOL_SIZE
    requires e.CliLine? ==> e.slot == write
    ensures InOrder(items + [e], if e.CliLine? then (write + 1) % POOL_SIZE else write)
  {
    var more := items + [e];
    var after := if e.CliLine? then (write + 1) % POOL_SIZE else write;
    NextSlot(write);
    forall i | 0 <= i < |more| && more[i].CliLine?
      ensures more[i].slot == Back(after, CliFrom(more, i))
    {
      if i < |items| {
        CliFromSnoc(items, e, i);
        assert items[i].slot == Back(write, CliFrom(items, i));
      } else {
        assert CliFrom(more, |items| + 1) == 0;
      }
    }
  }

  lemma PopKeepsInv(t: Trace)
    requires Inv(t)
    ensures Inv(Step(t, PopEvent))
  {
    var items, pool := t.cli.queue.items, t.cli.pool;
    WriteSlotIsFree(items, t.cli.write);
    if items != [] {
      var rest := items[1..];
      forall i | 0 <= i < |rest| && rest[i].CliLine?
        ensures rest[i].slot == Back(t.cli.write, CliFrom(rest, i))
      {
        CliFromTail(items, i + 1);
      }
      PendingTail(pool, items, |items|);
      hide Pending, CliFrom;
      Words.Assoc(t.read, if items[0].CliLine? then [pool[items[0].slot]] else [], Pending(pool, rest, |rest|));
      assert t.read + [] == t.read;
    }
  }

  lemma PushOtherKeepsInv(t: Trace, kind: nat)
    requires Inv(t)
    ensures Inv(Step(t, PushOther(kind)))
  {
    var items, pool := t.cli.queue.items, t.cli.pool;
    if |items| < CAPACITY - 1 {
      WriteSlotIsFree(items, t.cli.write);
      PushKeepsOrder(items, Other(kind), t.cli.write);
      PendingSnoc(pool, items, Other(kind), |items|);
      assert Pending(pool, items + [Other(kind)], |items| + 1) == Pending(pool, items, |items|) + [];
      hide Pending, InOrder;
    }
  }

  lemma StepKeepsInv(t: Trace, op: Op)
    requires Inv(t)
    ensures Inv(Step(t, op))
  {
    match op
    case Type(c) =>
      if EndsLine(c) {
        SubmitKeepsInv(t);
        assert Step(t, op) == Step(t, Type('\n'));
      } else {
        hide Pending, InOrder;
      }
    case PushOther(kind) => PushOtherKeepsInv(t, kind);
    case PopEvent => PopKeepsInv(t);
  }

  function RunUpTo(ops: seq<Op>, n: nat): (t: Trace)
    requires n <= |ops|
    ensures Inv(t)
  {
    if n == 0 then START
    else
      StepKeepsInv(RunUpTo(ops, n - 1), ops[n - 1]);
      Step(RunUpTo(ops, n - 1), ops[n - 1])
  }

  /** In every run of typing, other pushes and pops, the dispatcher reads from the pool exactly the
      lines that were queued, in order and unaltered: those read so far are a prefix of those
      queued, and the rest still stand in their slots. */
  lemma LinesSurviveInThePool(ops: seq<Op>)
    ensures var t := RunUpTo(ops, |ops|);
      && t.read <= t.queued
      && t.queued[|t.read|..] == Pending(t.cli.pool, t.cli.queue.items, |t.cli.queue.items|)
  {
    var t := RunUpTo(ops, |ops|);
    hide Pending, RunUpTo;
    assert t.queued == t.read + Pending(t.cli.pool, t.cli.queue.items, |t.cli.queue.items|);
  }

  // ---- the port itself ----------------------------------------------------------------

  function TypedAll(s: Cli, input: string, n: nat): (r: Cli)
    requires n <= |input| && s.write < |s.pool| == POOL_SIZE
    ensures r.write < |r.pool| == POOL_SIZE
  {
    if n == 0 then s else Typed(TypedAll(s, input, n - 1), input[n - 1])
  }

  // ---- editing ------------------------------------------------------------------------

  predicate Printable(c: char) { ' ' <= c <= '~' }

  predicate Erases(c: char) { c == BACKSPACE || c == DELETE }

  predicate AllPrintable(text: string) {
    forall i | 0 <= i < |text| :: Printable(text[i])
  }

  /** Printable text that fits is added to the line, and the rest of one that does not is lost. */
  lemma {:induction false} TextIsAdded(s: Cli, text: string, n: nat)
    requires n <= |text| && s.write < |s.pool| == POOL_SIZE && AllPrintable(text) && |s.line| <= 127
    ensures TypedAll(s, text, n) == s.(line := s.line + text[..if |s.line| + n <= 127 then n else 127 - |s.line|])
  {
    if n > 0 {
      TextIsAdded(s, text, n - 1);
    } else {
      assert s.line + text[..0] == s.line;
    }
  }

  /** Every backspace or delete takes away the last character that is left. */
  lemma {:induction false} ErasingTakesAway(s: Cli, erasures: string, n: nat)
    requires n <= |erasures| && s.write < |s.pool| == POOL_SIZE && forall i | 0 <= i < |erasures| :: Erases(erasures[i])
    ensures TypedAll(s, erasures, n) == s.(line := s.line[..if n <= |s.line| then |s.line| - n else 0])
  {
    if n > 0 {
      ErasingTakesAway(s, erasures, n - 1);
    }
  }

  /** Other characters change nothing. */
  lemma OthersAreIgnored(s: Cli, c: char)
    requires s.write < |s.pool| && !Printable(c) && !Erases(c) && !EndsLine(c)
    ensures Typed(s, c) == s
  {
  }

  /** A line of up to 127 characters, typed and ended, is queued as it was typed, and the next one
      starts empty; with 15 events waiting it is lost. */
  lemma TypedLineIsQueued(t: Trace, text: string, end: char)
    requires Inv(t) && t.cli.line == [] && AllPrintable(text) && |text| <= 127 && EndsLine(end)
    ensures var s := TypedAll(t.cli, text, |text|);
      && s.line == text && Inv(t.(cli := s))
      && var r := Step(t.(cli := s), Type(end));
         r.cli.line == [] && r.queued == if |t.cli.queue.items| < 15 then t.queued + [text] else t.queued
  {
    hide Inv, TypedAll, AllPrintable, Step;
    InvBasics(t);
    TextIsAdded(t.cli, text, |text|);
    assert t.cli.line + text[..|text|] == text;
    EditingKeepsInv(t, text);
    LineEnds(t.(cli := t.cli.(line := text)), end);
  }

  lemma InvBasics(t: Trace)
    requires Inv(t)
    ensures |t.cli.pool| == POOL_SIZE && t.cli.write < POOL_SIZE
  {
  }

  lemma EditingKeepsInv(t: Trace, line: string)
    requires Inv(t) && |line| <= 127
    ensures Inv(t.(cli := t.cli.(line := line)))
  {
    hide Pending, InOrder;
  }

  lemma LineEnds(t: Trace, end: char)
    requires Inv(t) && EndsLine(end)
    ensures var r := Step(t, Type(end));
      r.cli.line == [] && r.queued == if |t.cli.queue.items| < 15 then t.queued + [t.cli.line] else t.queued
  {
    hide Pending, InOrder;
  }

  class CliPort {
    const lineBuffer: array<char>
    const pool: array<string>
    const queue: EventQueue<Event>
    var bufferLen: nat
    var poolWrite: nat

    constructor ()
      ensures Valid() && Model() == START.cli
    {
      lineBuffer := new char[LINE_MAX];
      pool := new string[POOL_SIZE](_ => "");
      queue := new EventQueue<Event>();
      bufferLen, poolWrite := 0, 0;
      new;
      assert pool[..] == Blank(POOL_SIZE);
    }

    ghost predicate Valid()
      reads this, queue
    {
      && queue.Valid() && pool.Length == POOL_SIZE && lineBuffer.Length == LINE_MAX
      && bufferLen < LINE_MAX && poolWrite < POOL_SIZE
    }

    ghost function Model(): Cli
      requires Valid()
      reads this, queue, queue.slots, pool, lineBuffer
    {
      Cli(lineBuffer[..bufferLen], pool[..], poolWrite, queue.Model())
    }

    /** One character of input. */
    method OnChar(c: char)
      requires Valid()
      modifies this, queue, queue.slots, pool, lineBuffer
      ensures Valid() && Model() == Typed(old(Model()), c)
    {
      if EndsLine(c) {
        pool[poolWrite] := lineBuffer[..bufferLen];
        var ok := queue.Push(CliLine(poolWrite));
        if ok {
          poolWrite := (poolWrite + 1) % POOL_SIZE;
        }
        bufferLen := 0;
      } else if c == BACKSPACE || c == DELETE {
        if bufferLen > 0 {
          bufferLen := bufferLen - 1;
        }
      } else if ' ' <= c <= '~' {
        if bufferLen < LINE_MAX - 1 {
          lineBuffer[bufferLen] := c;
          bufferLen := bufferLen + 1;
        }
      }
    }

    /** Takes over at most sixteen of the waiting characters. */
    method Poll(input: string) returns (taken: nat)
      requires Valid()
      modifies this, queue, queue.slots, pool, lineBuffer
      ensures Valid()
      ensures taken == if |input| < CHARS_PER_POLL then |input| else CHARS_PER_POLL
      ensures Model() == TypedAll(old(Model()), input, taken)
    {
      taken := 0;
      while taken < CHARS_PER_POLL && taken < |input|
        invariant taken <= CHARS_PER_POLL && taken <= |input|
        invariant Valid() && Model() == TypedAll(old(Model()), input, taken)
      {
        OnChar(input[taken]);
        taken := taken + 1;
      }
    }
  }
}
