/**
  The single-slot hand-off queues of main.py: every queue is created with
  `queue.Queue(maxsize=1)`, the producer puts only after seeing the queue
  empty, and the consumer gets only after seeing it non-empty. Neither side
  ever blocks, and a pending item is never overwritten.
 */
module Channel {
  import opened Wrappers

  class Slot<T> {
    /** The pending item, if any. */
    var item: Option<T>

    /** `queue.Queue(maxsize=1)`: a new queue is empty. */
    constructor ()
      ensures item == None
    {
      item := None;
    }

    /** `queue.empty()`: true exactly when the queue holds no item. */
    predicate IsEmpty(): (b: bool)
      reads this
      ensures b <==> Contents() == []
    {
      item.None?
    }

    /** The queue's contents, oldest first; `maxsize=1` bounds it by one. */
    function Contents(): (q: seq<T>)
      reads this
      ensures |q| <= 1
      ensures item.Some? ==> q == [item.value]
    {
      if item.Some? then [item.value] else []
    }

    /** `if q.empty(): q.put(x)`: stores `x` only when nothing is pending,
        and otherwise drops it, leaving the pending item in place. */
    method TryPut(x: T) returns (ok: bool)
      modifies this
      ensures ok == old(IsEmpty())
      ensures Contents() == if ok then [x] else old(Contents())
      ensures item == if ok then Some(x) else old(item)
    {
      ok := IsEmpty();
      if ok {
        item := Some(x);
      }
    }

    /** `if q.empty(): <nothing>; else: x = q.get()`: takes the pending
        item, if any, and leaves the queue empty. */
    method TryGet() returns (r: Option<T>)
      modifies this
      ensures r == old(item)
      ensures old(IsEmpty()) ==> Contents() == old(Contents())
      ensures item == None && Contents() == []
    {
      r := item;
      item := None;
    }
  }
}
