/** The event queue: a circular array that keeps one slot free to tell full from empty. */
module Events {

  const CAPACITY := 16

  /** The queue as a plain sequence, with its high-water mark and its counter of refused pushes. */
  datatype Fifo<T> = Fifo(items: seq<T>, highWater: nat, drops: nat)

  function Pushed<T>(q: Fifo<T>, x: T): Fifo<T> {
    if |q.items| >= CAPACITY - 1 then q.(drops := q.drops + 1)
    else Fifo(q.items + [x], if |q.items| + 1 > q.highWater then |q.items| + 1 else q.highWater, q.drops)
  }

  function Popped<T>(q: Fifo<T>): Fifo<T> {
    if q.items == [] then q else q.(items := q.items[1..])
  }

  /** The slot `i` places after slot `r`, around the end of the array. */
  function At(r: nat, i: nat): nat {
    if r + i < CAPACITY then r + i else r + i - CAPACITY
  }

  lemma NextSlot(r: nat)
    requires r < CAPACITY
    ensures (r + 1) % CAPACITY == At(r, 1)
  {
  }

  class EventQueue<T(0)> {
    const slots: array<T>
    var write: nat
    var read: nat
    var highWater: nat
    var pushDrops: nat

    constructor ()
      ensures Valid() && Model() == Fifo([], 0, 0) && fresh(slots)
    {
      slots := new T[CAPACITY];
      write, read, highWater, pushDrops := 0, 0, 0, 0;
    }

    ghost predicate Valid()
      reads this
    {
      slots.Length == CAPACITY && write < CAPACITY && read < CAPACITY
    }

    /** Number of queued events. */
    function Count(): (n: nat)
      requires Valid()
      reads this
      ensures n < CAPACITY && (n == 0 <==> read == write)
    {
      if write >= read then write - read else CAPACITY - (read - write)
    }

    ghost function Model(): (q: Fifo<T>)
      requires Valid()
      reads this, slots
      ensures |q.items| == Count()
    {
      Fifo(seq(Count(), i requires Valid() && 0 <= i < Count() reads this, slots => slots[At(read, i)]),
           highWater, pushDrops)
    }

    method Push(event: T) returns (ok: bool)
      requires Valid()
      modifies this, slots
      ensures Valid()
      ensures ok <==> |old(Model()).items| < CAPACITY - 1
      ensures Model() == Pushed(old(Model()), event)
    {
      NextSlot(write);
      var next := (write + 1) % CAPACITY;
      if next == read {
        pushDrops := pushDrops + 1;
        return false;
      }
      ghost var was := Model().items;
      slots[write] := event;
      write := next;
      assert Model().items == was + [event];
      var count := Count();
      if count > highWater {
        highWater := count;
      }
      return true;
    }

    method Pop() returns (ok: bool, event: T)
      requires Valid()
      modifies this
      ensures Valid()
      ensures ok <==> old(Model()).items != []
      ensures ok ==> event == old(Model()).items[0]
      ensures Model() == Popped(old(Model()))
    {
      if read == write {
        event := *;
        return false, event;
      }
      ghost var was := Model().items;
      event := slots[read];
      NextSlot(read);
      read := (read + 1) % CAPACITY;
      assert Model().items == was[1..];
      return true, event;
    }
  }

  // ---- runs ---------------------------------------------------------------------------

  datatype Op<T> = PushOp(x: T) | PopOp

  function RunUpTo<T>(ops: seq<Op<T>>, n: nat): Fifo<T>
    requires n <= |ops|
  {
    if n == 0 then Fifo([], 0, 0)
    else match ops[n - 1]
         case PushOp(x) => Pushed(RunUpTo(ops, n - 1), x)
         case PopOp => Popped(RunUpTo(ops, n - 1))
  }

  /** How many of the first `n` operations were pushes on a full queue. */
  function Refused<T>(ops: seq<Op<T>>, n: nat): nat
    requires n <= |ops|
  {
    if n == 0 then 0
    else Refused(ops, n - 1)
         + if ops[n - 1].PushOp? && |RunUpTo(ops, n - 1).items| == CAPACITY - 1 then 1 else 0
  }

  /** In every run at most 15 events are queued, the high-water mark is the greatest number ever
      queued, and the drop counter is the number of refused pushes. */
  lemma {:induction false} CountersAreExact<T>(ops: seq<Op<T>>, n: nat)
    requires n <= |ops|
    ensures |RunUpTo(ops, n).items| <= CAPACITY - 1
    ensures forall k | 0 <= k <= n :: |RunUpTo(ops, k).items| <= RunUpTo(ops, n).highWater
    ensures exists k | 0 <= k <= n :: |RunUpTo(ops, k).items| == RunUpTo(ops, n).highWater
    ensures RunUpTo(ops, n).drops == Refused(ops, n)
  {
    if n == 0 {
      assert |RunUpTo(ops, 0).items| == RunUpTo(ops, 0).highWater;
    } else {
      CountersAreExact(ops, n - 1);
      var q, r := RunUpTo(ops, n - 1), RunUpTo(ops, n);
      if r.highWater == q.highWater {
        var k :| 0 <= k <= n - 1 && |RunUpTo(ops, k).items| == q.highWater;
        assert |RunUpTo(ops, k).items| == r.highWater;
      } else {
        assert |RunUpTo(ops, n).items| == r.highWater;
      }
    }
  }

  /** The events popped by the first `n` operations, and those accepted by them. */
  function PoppedBy<T>(ops: seq<Op<T>>, n: nat): seq<T>
    requires n <= |ops|
  {
    if n == 0 then []
    else
      var q := RunUpTo(ops, n - 1);
      PoppedBy(ops, n - 1) + if ops[n - 1].PopOp? && q.items != [] then [q.items[0]] else []
  }

  function AcceptedBy<T>(ops: seq<Op<T>>, n: nat): seq<T>
    requires n <= |ops|
  {
    if n == 0 then []
    else
      AcceptedBy(ops, n - 1)
      + if ops[n - 1].PushOp? && |RunUpTo(ops, n - 1).items| < 15 then [ops[n - 1].x] else []
  }

  lemma OrderGoesOn<T>(popped: seq<T>, q: Fifo<T>, x: T)
    ensures popped + (q.items + [x]) == popped + q.items + [x]
    ensures q.items != [] ==> popped + [q.items[0]] + q.items[1..] == popped + q.items
  {
  }

  /** In every run events come out in the order they went in: what has been popped and what still
      waits is what has been accepted. */
  lemma {:induction false} OrderIsKept<T>(ops: seq<Op<T>>, n: nat)
    requires n <= |ops|
    ensures PoppedBy(ops, n) + RunUpTo(ops, n).items == AcceptedBy(ops, n)
  {
    if n > 0 {
      OrderIsKept(ops, n - 1);
      var q, popped := RunUpTo(ops, n - 1), PoppedBy(ops, n - 1);
      match ops[n - 1]
      case PushOp(x) => OrderGoesOn(popped, q, x);
      case PopOp => if q.items != [] { OrderGoesOn(popped, q, q.items[0]); }
    }
  }
}
