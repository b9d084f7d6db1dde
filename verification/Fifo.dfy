/**
 The byte FIFO: a circular buffer with a head and a count, and the queue it stands for.
 */
module Fifo {

  type Octet = bv8

  lemma WrapOnce(x: nat, c: nat)
    requires c > 0 && x < 2 * c
    ensures x % c == if x < c then x else x - c
  {
  }

  class Fifo8 {
    const data: array<Octet>
    const capacity: nat
    var head: nat
    var num: nat

    ghost predicate Valid()
      reads this
    {
      capacity > 0 && data.Length == capacity && head < capacity && num <= capacity
    }

    /** Position of the i-th byte from the head. */
    function Slot(i: nat): nat
      reads this
    {
      if head + i < capacity then head + i else head + i - capacity
    }

    ghost function Contents(): (s: seq<Octet>)
      requires Valid()
      reads this, data
      ensures |s| == num
    {
      seq(num, i requires 0 <= i < num && data.Length == capacity && num <= capacity && head < capacity reads this, data => data[Slot(i)])
    }

    /** fifo8_create. */
    constructor (size: nat)
      requires size > 0
      ensures Valid() && capacity == size && fresh(data) && Contents() == []
    {
      data := new Octet[size](_ => 0);
      capacity, head, num := size, 0, 0;
    }

    method Push(x: Octet)
      requires Valid() && num < capacity
      modifies this`num, data
      ensures Valid() && Contents() == old(Contents()) + [x]
    {
      WrapOnce(head + num, capacity);
      data[(head + num) % capacity] := x;
      num := num + 1;
    }

    /** fifo8_push_all: one copy, or two around the end of the buffer. */
    method PushAll(xs: seq<Octet>)
      requires Valid() && num + |xs| <= capacity
      modifies this`num, data
      ensures Valid() && Contents() == old(Contents()) + xs
    {
      WrapOnce(head + num, capacity);
      var start := (head + num) % capacity;
      if start + |xs| <= capacity {
        forall i | 0 <= i < |xs| {
          data[start + i] := xs[i];
        }
      } else {
        var avail := capacity - start;
        forall i | 0 <= i < avail {
          data[start + i] := xs[i];
        }
        forall i | 0 <= i < |xs| - avail {
          data[i] := xs[avail + i];
        }
      }
      num := num + |xs|;
    }

    method Pop() returns (x: Octet)
      requires Valid() && num > 0
      modifies this
      ensures Valid() && old(Contents()) == [x] + Contents()
    {
      x := data[head];
      WrapOnce(head + 1, capacity);
      head := (head + 1) % capacity;
      num := num - 1;
    }

    /** fifo8_peekpop_buf: the longest run of at most `max` bytes that does not wrap. */
    method PeekPop(max: nat, pop: bool) returns (run: seq<Octet>)
      requires Valid() && 0 < max <= num
      modifies this
      ensures Valid() && 0 < |run| <= max
      ensures old(Contents()) == if pop then run + Contents() else Contents()
      ensures run <= old(Contents())
      ensures |run| < max ==> (if pop then head == 0 else Slot(|run|) == 0)
    {
      var n := if capacity - head < max then capacity - head else max;
      run := data[head..head + n];
      if pop {
        WrapOnce(head + n, capacity);
        head := (head + n) % capacity;
        num := num - n;
      }
    }

    method Reset()
      requires Valid()
      modifies this
      ensures Valid() && Contents() == []
    {
      num, head := 0, 0;
    }
  }
}
