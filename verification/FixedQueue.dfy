/** A queue of bounded size in a circular buffer, which can grow and shrink at both ends. */
module FixedQueues {

  /** The index increment places further round a buffer. */
  function AddIndexModulo(index: int, increment: int, size: int): (i: int)
    requires 0 <= index < size && -size <= increment <= size
    ensures 0 <= i < size && (i == index + increment || i == index + increment - size || i == index + increment + size)
  {
    var i := index + increment;
    var j := if i < 0 then i + size else i;
    if j >= size then j - size else j
  }

  /** Adding one place after k is adding k + 1; and taking it back is the inverse. */
  lemma NextIndex(index: int, k: int, size: int)
    requires 0 <= index < size && 0 <= k < size
    ensures AddIndexModulo(AddIndexModulo(index, k, size), 1, size) == AddIndexModulo(index, k + 1, size)
    ensures AddIndexModulo(AddIndexModulo(index, 1, size), k, size) == AddIndexModulo(index, k + 1, size)
    ensures AddIndexModulo(AddIndexModulo(index, k + 1, size), -1, size) == AddIndexModulo(index, k, size)
    ensures AddIndexModulo(AddIndexModulo(index, -1, size), k + 1, size) == AddIndexModulo(index, k, size)
  {
  }

  /** Different places of the buffer have different indices. */
  lemma IndicesDiffer(index: int, j: int, k: int, size: int)
    requires 0 <= index < size && 0 <= j < k < size
    ensures AddIndexModulo(index, j, size) != AddIndexModulo(index, k, size)
  {
  }

  function Max(a: int, b: int): int {
    if a < b then b else a
  }

  class FixedQueue<T(0)> {
    const data: array<T>
    var head: int
    var tail: int
    var count: int

    ghost predicate Valid()
      reads this
    {
      && 0 < data.Length
      && 0 <= head < data.Length
      && 0 <= count < data.Length
      && tail == AddIndexModulo(head, count, data.Length)
    }

    /** The queued elements, from the head on. */
    ghost function Contents(): (s: seq<T>)
      requires Valid()
      reads this, data
      ensures |s| == count
    {
      seq(count, k requires Valid() && 0 <= k < count reads this, data => data[AddIndexModulo(head, k, data.Length)])
    }

    /** One slot always stays unused. */
    ghost function Capacity(): nat {
      if data.Length == 0 then 0 else data.Length - 1
    }

    constructor (size: nat)
      requires 0 < size
      ensures Valid() && Contents() == [] && data.Length == size && fresh(data)
    {
      data := new T[size];
      head, tail, count := 0, 0, 0;
    }

    method Reset()
      requires 0 < data.Length
      modifies this
      ensures Valid() && Contents() == []
    {
      head, tail, count := 0, 0, 0;
    }

    function Remaining(): (n: int)
      requires Valid()
      reads this
      ensures n == Capacity() - count
    {
      Max(data.Length - count - 1, 0)
    }

    function Empty(): (empty: bool)
      requires Valid()
      reads this, data
      ensures empty <==> Contents() == []
    {
      count == 0
    }

    function Full(): (full: bool)
      requires Valid()
      reads this, data
      ensures full <==> |Contents()| == Capacity()
    {
      Remaining() == 0
    }

    /** Adds a slot at the tail, keeping whatever it holds; no slot when the queue is full. */
    method Alloc() returns (slot: int)
      requires Valid()
      modifies this
      ensures Valid()
      ensures old(Full()) ==> slot == -1 && Contents() == old(Contents())
      ensures !old(Full()) ==> 0 <= slot < data.Length && Contents() == old(Contents()) + [data[slot]]
      ensures !old(Full()) ==> slot == AddIndexModulo(head, count - 1, data.Length) == old(tail)
      ensures !old(Full()) ==> tail == AddIndexModulo(old(tail), 1, data.Length)
    {
      if Remaining() == 0 {
        return -1;
      }
      slot := tail;
      NextIndex(head, count, data.Length);
      tail := AddIndexModulo(tail, 1, data.Length);
      count := count + 1;
    }

    /** Writes the element at the tail. */
    method SetTail(slot: int, x: T)
      requires Valid() && 0 < count && slot == AddIndexModulo(head, count - 1, data.Length)
      modifies data
      ensures Valid() && Contents() == old(Contents())[..count - 1] + [x]
      ensures data[..] == old(data[..])[slot := x]
    {
      forall k | 0 <= k < count - 1
        ensures AddIndexModulo(head, k, data.Length) != slot
      {
        IndicesDiffer(head, k, count - 1, data.Length);
      }
      data[slot] := x;
    }

    method Enqueue(x: T) returns (slot: int)
      requires Valid()
      modifies this, data
      ensures Valid() && (slot == -1 <==> old(Full()))
      ensures Contents() == if old(Full()) then old(Contents()) else old(Contents()) + [x]
    {
      slot := Alloc();
      if slot != -1 {
        SetTail(slot, x);
      }
    }

    /** Takes the last slot off the tail. */
    method Pop() returns (slot: int)
      requires Valid()
      modifies this
      ensures Valid()
      ensures old(Empty()) ==> slot == -1 && Contents() == old(Contents())
      ensures !old(Empty()) ==> 0 <= slot < data.Length && old(Contents()) == Contents() + [data[slot]]
      ensures !old(Empty()) ==> slot == tail == AddIndexModulo(old(tail), -1, data.Length) && head == old(head)
    {
      if Empty() {
        return -1;
      }
      NextIndex(head, count - 1, data.Length);
      tail := AddIndexModulo(tail, -1, data.Length);
      count := count - 1;
      slot := tail;
    }

    /** Takes the first slot off the head. */
    method Dequeue() returns (slot: int)
      requires Valid()
      modifies this
      ensures Valid()
      ensures old(Empty()) ==> slot == -1 && Contents() == old(Contents())
      ensures !old(Empty()) ==> 0 <= slot < data.Length && old(Contents()) == [data[slot]] + Contents()
      ensures tail == old(tail)
    {
      if Empty() {
        return -1;
      }
      forall k | 0 <= k < count
        ensures AddIndexModulo(AddIndexModulo(head, 1, data.Length), k, data.Length)
             == AddIndexModulo(head, k + 1, data.Length)
      {
        NextIndex(head, k, data.Length);
      }
      ghost var was := Contents();
      count := count - 1;
      slot := head;
      head := AddIndexModulo(head, 1, data.Length);
      assert was == [data[slot]] + Contents();
    }

    /** Adds a slot at the head, keeping whatever it holds; no slot when the queue is full. */
    method PushHead() returns (slot: int)
      requires Valid()
      modifies this
      ensures Valid()
      ensures old(Full()) ==> slot == -1 && Contents() == old(Contents())
      ensures !old(Full()) ==> 0 <= slot < data.Length && Contents() == [data[slot]] + old(Contents())
    {
      if Full() {
        return -1;
      }
      forall k | 0 <= k <= count
        ensures AddIndexModulo(AddIndexModulo(head, -1, data.Length), k + 1, data.Length)
             == AddIndexModulo(head, k, data.Length)
      {
        NextIndex(head, k, data.Length);
      }
      ghost var was := Contents();
      head := AddIndexModulo(head, -1, data.Length);
      count := count + 1;
      slot := head;
      assert forall k | 0 <= k < |was| :: Contents()[k + 1] == was[k];
      assert Contents() == [data[slot]] + was;
    }

    /** The slot of the last element; none when the queue is empty. */
    method PeekTail() returns (slot: int)
      requires Valid()
      ensures Empty() ==> slot == -1
      ensures !Empty() ==> slot == AddIndexModulo(head, count - 1, data.Length) && data[slot] == Contents()[count - 1]
    {
      if Empty() {
        return -1;
      }
      NextIndex(head, count - 1, data.Length);
      slot := AddIndexModulo(tail, -1, data.Length);
    }

    /** The slot of the first element; none when the queue is empty. */
    method PeekHead() returns (slot: int)
      requires Valid()
      ensures Empty() ==> slot == -1
      ensures !Empty() ==> 0 <= slot < data.Length && data[slot] == Contents()[0]
    {
      if Empty() {
        return -1;
      }
      slot := head;
    }

    /** The walk from the head to the tail visits the queued elements in order, and ends. */
    method Forward() returns (all: seq<T>)
      requires Valid()
      ensures all == Contents()
    {
      all := [];
      var i := head;
      while i != tail
        invariant |all| <= count && i == AddIndexModulo(head, |all|, data.Length)
        invariant all == Contents()[..|all|]
        decreases count - |all|
      {
        if |all| < count {
          NextIndex(head, |all|, data.Length);
        }
        all := all + [data[i]];
        i := AddIndexModulo(i, 1, data.Length);
      }
      if |all| < count {
        IndicesDiffer(head, |all|, count, data.Length);
      }
    }
  }
}
