/** The generic ring buffer: a count, a write cursor and a read cursor over fixed storage. */
module Ring {

  /** A cursor moved on by one slot, back to the start at the end of the storage. */
  function Next(i: nat, capacity: nat): nat {
    if i + 1 == capacity then 0 else i + 1
  }

  /** The slot `i` places after a cursor. */
  function Slot(cursor: nat, i: nat, capacity: nat): nat {
    if cursor + i < capacity then cursor + i else cursor + i - capacity
  }

  class RingBuffer<T(0)> {
    const items: array<T>
    var count: nat
    var head: nat
    var tail: nat

    constructor (capacity: nat)
      ensures Valid() && Contents() == [] && items.Length == capacity && fresh(items)
    {
      items := new T[capacity];
      count, head, tail := 0, 0, 0;
    }

    ghost predicate Valid()
      reads this
    {
      && count <= items.Length
      && (items.Length == 0 ==> head == 0 && tail == 0)
      && (items.Length > 0 ==> head < items.Length && tail < items.Length)
      && (items.Length > 0 ==> head == Slot(tail, count, items.Length))
    }

    /** The stored elements, oldest first. */
    ghost function Contents(): (s: seq<T>)
      requires Valid()
      reads this, items
      ensures |s| == count
    {
      seq(count, i requires 0 <= i < count && Valid() reads this, items => items[Slot(tail, i, items.Length)])
    }

    method PushBack(element: T) returns (ok: bool)
      requires Valid()
      modifies this, items
      ensures Valid()
      ensures ok <==> old(count) < items.Length
      ensures Contents() == if ok then old(Contents()) + [element] else old(Contents())
    {
      if count == items.Length {
        return false;
      }
      ghost var was := Contents();
      items[head] := element;
      head := Next(head, items.Length);
      count := count + 1;
      assert Contents() == was + [element];
      return true;
    }

    method PopFront() returns (ok: bool, element: T)
      requires Valid()
      modifies this
      ensures Valid()
      ensures ok <==> old(count) > 0
      ensures ok ==> element == old(Contents())[0] && Contents() == old(Contents())[1..]
      ensures !ok ==> Contents() == old(Contents())
    {
      if count == 0 {
        element := *;
        return false, element;
      }
      ghost var was := Contents();
      element := items[tail];
      tail := Next(tail, items.Length);
      count := count - 1;
      assert Contents() == was[1..];
      return true, element;
    }

    /** Overwrites the oldest element when full; the source assumes some storage. */
    method PushBackWrap(element: T)
      requires Valid() && items.Length > 0
      modifies this, items
      ensures Valid()
      ensures Contents() == (if old(count) == items.Length then old(Contents())[1..] else old(Contents())) + [element]
    {
      ghost var was := Contents();
      if count == items.Length {
        tail := Next(tail, items.Length);
      } else {
        count := count + 1;
      }
      items[head] := element;
      head := Next(head, items.Length);
      assert Contents() == (if |was| == items.Length then was[1..] else was) + [element];
    }
  }
}
