/**
 * The bounded circular FIFO of element references used as the ready queue
 * (My_RTOS_FIFO.c). The buffer is an array of capacity `length`; `head` and
 * `tail` are slot indices standing for the source's element pointers, and a
 * pointer equal to `base + 4*length - 4` is the last slot, index `length - 1`.
 */
module Fifo {

  /** FIFO_Status. */
  datatype FifoStatus = NoError | Full | Empty | Null

  /** The slot after `i` in a ring of `len` slots: the last slot wraps to slot 0. */
  function Advance(i: nat, len: nat): (r: nat)
    requires i < len
    ensures r < len
    ensures r == Wrap(i, 1, len)
  {
    if i == len - 1 then 0 else i + 1
  }

  /** The slot `k` places after slot `head` (with `k <= len`). */
  function Wrap(head: nat, k: nat, len: nat): (r: nat)
    requires head < len && k <= len
    ensures r < len
    ensures r == head + k || r == head + k - len
  {
    if head + k < len then head + k else head + k - len
  }

  /** The `count` elements that start at slot `head`, oldest first. */
  function RingView<T>(buf: seq<T>, head: nat, count: nat): seq<T>
    requires head < |buf| && count <= |buf|
    decreases count
  {
    if count == 0 then [] else [buf[head]] + RingView(buf, Advance(head, |buf|), count - 1)
  }

  /** The i-th element of the view is the one `i` slots after the head. */
  lemma {:induction false} RingViewAt<T>(buf: seq<T>, head: nat, count: nat, i: nat)
    requires head < |buf| && count <= |buf| && i < count
    ensures |RingView(buf, head, count)| == count
    ensures RingView(buf, head, count)[i] == buf[Wrap(head, i, |buf|)]
    decreases count
  {
    RingViewLength(buf, head, count);
    if i > 0 {
      RingViewAt(buf, Advance(head, |buf|), count - 1, i - 1);
    }
  }

  lemma {:induction false} RingViewLength<T>(buf: seq<T>, head: nat, count: nat)
    requires head < |buf| && count <= |buf|
    ensures |RingView(buf, head, count)| == count
    decreases count
  {
    if count > 0 {
      RingViewLength(buf, Advance(head, |buf|), count - 1);
    }
  }

  /**
   * Writing `x` into the free slot right after the last element (the tail)
   * appends `x` to the view: this is what makes enqueue FIFO.
   */
  lemma {:induction false} RingViewPush<T>(buf: seq<T>, head: nat, count: nat, x: T)
    requires head < |buf| && count < |buf|
    ensures RingView(buf[Wrap(head, count, |buf|) := x], head, count + 1)
         == RingView(buf, head, count) + [x]
    decreases count
  {
    var len := |buf|;
    var buf' := buf[Wrap(head, count, len) := x];
    if count == 0 {
      assert RingView(buf', Advance(head, len), 0) == [];
    } else {
      var h := Advance(head, len);
      assert Wrap(h, count - 1, len) == Wrap(head, count, len);
      assert Wrap(head, count, len) != head;
      RingViewPush(buf, h, count - 1, x);
    }
  }

  /**
   * The ring invariant over the slots `buf`: `counter` elements lie from
   * `head` onward and `tail` is the slot `counter` places after `head`, so
   * both an empty and a full ring have `head == tail`; `elems` is the ring
   * view of the occupied slots.
   */
  ghost predicate RingState<T>(buf: seq<T>, head: nat, tail: nat, counter: nat, elems: seq<T>)
  {
    && counter <= |buf|
    && (|buf| == 0 ==> head == 0 && tail == 0 && counter == 0 && elems == [])
    && (|buf| > 0 ==> head < |buf| && tail == Wrap(head, counter, |buf|)
                      && |elems| == counter && elems == RingView(buf, head, counter))
  }

  /** Writing the tail slot and advancing the tail appends to the ring. */
  lemma RingStatePush<T>(buf: seq<T>, head: nat, tail: nat, counter: nat, elems: seq<T>, x: T)
    requires RingState(buf, head, tail, counter, elems) && counter < |buf|
    ensures tail < |buf|
    ensures RingState(buf[tail := x], head, Advance(tail, |buf|), counter + 1, elems + [x])
  {
    RingViewPush(buf, head, counter, x);
    RingViewLength(buf[tail := x], head, counter + 1);
  }

  /** Reading the head slot and advancing the head removes the oldest element. */
  lemma RingStatePop<T>(buf: seq<T>, head: nat, tail: nat, counter: nat, elems: seq<T>)
    requires RingState(buf, head, tail, counter, elems) && |buf| > 0 && head != tail
    ensures 0 < counter && elems[0] == buf[head]
    ensures RingState(buf, Advance(head, |buf|), tail, counter - 1, elems[1..])
  {
    RingViewLength(buf, head, counter);
    RingViewLength(buf, Advance(head, |buf|), counter - 1);
  }

  /**
   * FIFO_Buffer_t. A never-initialised buffer is the zeroed static structure:
   * a null base and zero indices.
   */
  class FifoBuffer<T> {
    var base: array?<T>
    var head: nat
    var tail: nat
    var counter: nat
    var length: nat
    /** The queued elements, oldest first. */
    ghost var elems: seq<T>

    /**
     * The buffer invariant: `counter` elements lie from `head` onward and
     * `tail` is the slot `counter` places after `head`; so both an empty and a
     * full buffer have `head == tail`. The elements are the ring view of the
     * occupied slots.
     */
    ghost predicate Valid()
      reads this, base
    {
      && (base == null ==> length == 0 && head == 0 && tail == 0 && counter == 0 && elems == [])
      && (base != null ==> length <= base.Length && RingState(base[..length], head, tail, counter, elems))
    }

    ghost function Contents(): seq<T>
      reads this
    {
      elems
    }

    /** The zeroed static structure, before FIFO_Init. */
    constructor ()
      ensures Valid() && base == null && Contents() == []
      ensures head == 0 && tail == 0 && counter == 0 && length == 0
    {
      base := null;
      head, tail, counter, length := 0, 0, 0, 0;
      elems := [];
    }

    /** FIFO_Init: a null buffer is refused; otherwise the buffer starts empty. */
    method Init(buffer: array?<T>, len: nat) returns (status: FifoStatus)
      requires Valid()
      requires buffer != null ==> len <= buffer.Length
      modifies this
      ensures Valid()
      ensures buffer == null ==> status == Null && unchanged(this)
      ensures buffer != null ==> status == NoError && base == buffer && length == len
                                 && head == 0 && tail == 0 && counter == 0
                                 && Contents() == []
    {
      if buffer == null {
        return Null;
      }
      base := buffer;
      head := 0;
      tail := 0;
      length := len;
      counter := 0;
      elems := [];
      return NoError;
    }

    /**
     * FIFO_Enqeue: refused on an uninitialised or zero-length buffer and on a
     * full one; otherwise the item goes into the tail slot and the tail
     * advances with wrap-around.
     */
    method Enqueue(item: T) returns (status: FifoStatus)
      requires Valid()
      modifies this, base
      ensures Valid() && base == old(base) && length == old(length) && head == old(head)
      ensures status != Empty
      ensures status == Null <==> old(base == null || length == 0)
      ensures status == Full <==> old(base != null && length > 0 && head == tail && counter == length)
      ensures status != NoError ==> unchanged(this) && (base != null ==> base[..] == old(base[..]))
      ensures status == NoError ==>
                && base != null
                && base[..] == old(base[..])[old(tail) := item]
                && counter == old(counter) + 1
                && tail == Advance(old(tail), length)
                && Contents() == old(Contents()) + [item]
    {
      if base == null || length == 0 {
        return Null;
      }
      if head == tail && counter == length {
        return Full;
      }
      ghost var before := base[..length];
      RingStatePush(before, head, tail, counter, elems, item);
      base[tail] := item;
      assert base[..length] == before[old(tail) := item];
      counter := counter + 1;
      if tail == length - 1 {
        tail := 0;
      } else {
        tail := tail + 1;
      }
      elems := elems + [item];
      return NoError;
    }

    /**
     * FIFO_Deqeue: `slot` is the caller's output location, returned untouched
     * when nothing is dequeued. Emptiness is tested by `head == tail` alone, so
     * a full buffer also reports Empty.
     */
    method Dequeue(slot: T) returns (status: FifoStatus, item: T)
      requires Valid()
      modifies this
      ensures Valid() && base == old(base) && length == old(length) && tail == old(tail)
      ensures status != Full
      ensures status == Null <==> old(base == null || length == 0)
      ensures status == Empty <==> old(base != null && length > 0 && head == tail)
      ensures status != NoError ==> unchanged(this) && item == slot
      ensures status == NoError ==>
                && base != null
                && old(counter) > 0
                && item == base[old(head)]
                && counter == old(counter) - 1
                && head == Advance(old(head), length)
                && item == old(Contents())[0]
                && Contents() == old(Contents())[1..]
    {
      if base == null || length == 0 {
        return Null, slot;
      }
      if head == tail {
        return Empty, slot;
      }
      RingStatePop(base[..length], head, tail, counter, elems);
      item := base[head];
      elems := elems[1..];
      counter := counter - 1;
      if head == length - 1 {
        head := 0;
      } else {
        head := head + 1;
      }
      return NoError, item;
    }

    /** FIFO_Is_Full. The head and tail are null exactly when the base is. */
    method IsFull() returns (status: FifoStatus)
      requires Valid()
      ensures status == Null <==> base == null
      ensures status == Full <==> base != null && counter == length
      ensures status == NoError <==> base != null && counter < length
    {
      if base == null {
        return Null;
      }
      if counter == length {
        return Full;
      }
      return NoError;
    }
  }
}
