/**
 * The per-connection write queue (`schedule_item`) and its three item
 * kinds. The queue's own header is not part of this model: the operations
 * below are exactly the ones src/io/schedulers/io_scheduler.cpp calls,
 * with the semantics that file relies on, and they are assumptions.
 *
 * Assumptions made explicit here:
 * - every sendable item carries the keep-alive decision of the response
 *   it belongs to, and the queue remembers the decision of the item it
 *   removed last; `keep_file_open()` reports that remembered decision;
 * - a file item's `remaining` is the byte range still to send; sending
 *   `n` bytes of it advances the item by `n` (inside `send_to_fd`);
 * - a pending item is identified by `id`; the barrier callback answers
 *   for that id.
 */
module ScheduleItem {
  import opened Base

  datatype Item =
    | MemoryBuffer(data: seq<Byte>, keepAlive: bool)
    | UnixFile(fd: int, remaining: seq<Byte>, keepAlive: bool)
    | Pending(id: nat)

  /** What the barrier callback hands back: a memory buffer; an empty one means "not ready". */
  datatype Resolution = Resolution(data: seq<Byte>, keepAlive: bool)

  predicate Ready(r: Resolution) {
    |r.data| > 0
  }

  /** The queue: its items, front first, and the keep-alive decision of the item removed last. */
  datatype WriteQueue = WriteQueue(items: seq<Item>, keepOpen: bool)

  const EmptyQueue: WriteQueue := WriteQueue([], true)

  /** The bytes a sendable item still has to put on the wire. */
  function Bytes(it: Item): seq<Byte>
    requires !it.Pending?
  {
    if it.MemoryBuffer? then it.data else it.remaining
  }

  /** The bytes an item stands for, a pending one through the barrier's answer for it. */
  function Payload(it: Item, barrier: nat -> Resolution): seq<Byte> {
    if it.Pending? then barrier(it.id).data else Bytes(it)
  }

  /** Everything a queue of items will put on the wire, in order. */
  function Wire(items: seq<Item>, barrier: nat -> Resolution): seq<Byte> {
    if items == [] then [] else Payload(items[0], barrier) + Wire(items[1..], barrier)
  }

  function PendingCount(items: seq<Item>): nat {
    if items == [] then 0 else (if items[0].Pending? then 1 else 0) + PendingCount(items[1..])
  }

  /** One unit per sendable item plus its unsent bytes; the write loop's progress measure. */
  function Weight(items: seq<Item>): nat {
    if items == [] then 0
    else (if items[0].Pending? then 0 else 1 + |Bytes(items[0])|) + Weight(items[1..])
  }

  // ----- the operations the scheduler calls -----

  /** `operator bool`: the queue holds at least one item. */
  predicate NonEmpty(q: WriteQueue) {
    q.items != []
  }

  function Front(q: WriteQueue): Item
    requires NonEmpty(q)
  {
    q.items[0]
  }

  predicate IsFrontAsync(q: WriteQueue) {
    NonEmpty(q) && q.items[0].Pending?
  }

  predicate KeepFileOpen(q: WriteQueue) {
    q.keepOpen
  }

  /** `remove_front`: drop the front item and remember its keep-alive decision. */
  function RemoveFront(q: WriteQueue): (r: WriteQueue)
    requires NonEmpty(q)
    ensures r.items == q.items[1..]
    ensures !q.items[0].Pending? ==> r.keepOpen == q.items[0].keepAlive
  {
    var front := q.items[0];
    WriteQueue(q.items[1..], if front.Pending? then q.keepOpen else front.keepAlive)
  }

  /** `replace_front`: swap the front item for another, in the same position. */
  function ReplaceFront(q: WriteQueue, it: Item): (r: WriteQueue)
    requires NonEmpty(q)
    ensures |r.items| == |q.items| && r.items[0] == it && r.items[1..] == q.items[1..]
    ensures r.keepOpen == q.keepOpen
  {
    WriteQueue([it] + q.items[1..], q.keepOpen)
  }

  /** `put_back`: append the items of a response after everything already queued. */
  function PutBack(q: WriteQueue, items: seq<Item>): (r: WriteQueue)
    ensures |r.items| == |q.items| + |items|
    ensures r.items[..|q.items|] == q.items && r.items[|q.items|..] == items
    ensures r.keepOpen == q.keepOpen
  {
    WriteQueue(q.items + items, q.keepOpen)
  }

  /** `put_after_first_intact`: insert the items right behind the front item, or append them to an empty queue. */
  function PutAfterFirstIntact(q: WriteQueue, items: seq<Item>): (r: WriteQueue)
    ensures |r.items| == |q.items| + |items|
    ensures q.items == [] ==> r.items == items
    ensures q.items != [] ==>
              r.items[0] == q.items[0] && r.items[1..1 + |items|] == items
              && r.items[1 + |items|..] == q.items[1..]
    ensures r.keepOpen == q.keepOpen
  {
    if q.items == [] then WriteQueue(items, q.keepOpen)
    else WriteQueue([q.items[0]] + items + q.items[1..], q.keepOpen)
  }

  // ----- facts about the queue measures -----

  lemma {:induction false} WireAppend(a: seq<Item>, b: seq<Item>, barrier: nat -> Resolution)
    ensures Wire(a + b, barrier) == Wire(a, barrier) + Wire(b, barrier)
  {
    if a == [] {
      assert a + b == b;
    } else {
      assert (a + b)[1..] == a[1..] + b;
      WireAppend(a[1..], b, barrier);
    }
  }

  /**
   * Inserting behind the front keeps the wire order of appending only when
   * at most one item is queued; with two or more, the inserted response
   * overtakes the ones already waiting behind the front.
   */
  lemma {:induction false} PutAfterFirstIntactOrder(q: WriteQueue, items: seq<Item>, barrier: nat -> Resolution)
    ensures |q.items| <= 1 ==> PutAfterFirstIntact(q, items) == PutBack(q, items)
    ensures |q.items| >= 1 ==>
              Wire(PutAfterFirstIntact(q, items).items, barrier)
              == Payload(q.items[0], barrier) + Wire(items, barrier) + Wire(q.items[1..], barrier)
  {
    if |q.items| == 1 {
      assert q.items[1..] == [];
      assert [q.items[0]] + items + [] == q.items + items;
    }
    if |q.items| >= 1 {
      var r := PutAfterFirstIntact(q, items).items;
      assert r == [q.items[0]] + (items + q.items[1..]);
      WireAppend([q.items[0]], items + q.items[1..], barrier);
      WireAppend(items, q.items[1..], barrier);
      assert Wire([q.items[0]], barrier) == Payload(q.items[0], barrier) + Wire([], barrier);
    }
  }
}
