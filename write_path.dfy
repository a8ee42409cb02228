/**
 * The write path of the scheduler (`fill_channel` and the loop of
 * `process_write` in src/io/schedulers/io_scheduler.cpp) as specification
 * functions over the queue value, with the properties `process_write` promises:
 * termination, in-order delivery without loss or duplication, and who
 * decides whether the connection stays open.
 *
 * The operating system is an oracle (`Kernel`): the t-th system call of a
 * drain answers `send(t, bytes)` with `::send`'s return value and errno,
 * or `sendFile(t, bytes)` with what `unix_file::send_to_fd` did; the
 * barrier callback answers for a pending item by its id.
 */
module WritePath {
  import opened Base
  import opened ScheduleItem
  import opened Epoll
  import TcpSocket

  /** `send_to_fd`: bytes sent, the `diy` refusal (with whether reading the range back into memory worked), or another failure. */
  datatype FileReply = Sent(n: nat) | Diy(copied: bool) | SendFailed

  datatype Kernel = Kernel(
    send: (nat, seq<Byte>) -> TcpSocket.SendCall,
    sendFile: (nat, seq<Byte>) -> FileReply,
    barrier: nat -> Resolution)

  /** The kernel never claims to have sent more than it was offered, and `::send` returns -1 or a count. */
  ghost predicate Sound(k: Kernel) {
    && (forall t: nat, d: seq<Byte> :: -1 <= k.send(t, d).ret <= |d|)
    && (forall t: nat, d: seq<Byte> :: k.sendFile(t, d).Sent? ==> k.sendFile(t, d).n <= |d|)
  }

  /** A kernel that always accepts at least one byte of a non-empty offer and never fails. */
  ghost predicate Eager(k: Kernel) {
    && (forall t: nat, d: seq<Byte> :: |d| > 0 ==> k.send(t, d).ret >= 1)
    && (forall t: nat, d: seq<Byte> :: |d| > 0 ==> k.sendFile(t, d).Sent? && k.sendFile(t, d).n >= 1)
  }

  /** `fill_channel`'s effect: the new queue, the bytes the kernel accepted, its boolean result (would-block), whether it threw. */
  datatype FillResult = FillResult(queue: WriteQueue, out: seq<Byte>, wouldBlock: bool, failed: bool, t: nat)

  /**
   * How one `fill_channel` call on a sendable front can change the queue:
   * the front is popped after sending all of it, or it stays in place with
   * exactly the sent bytes taken off; nothing behind it changes, and
   * unless it blocked or failed, some progress was made.
   */
  ghost predicate FillShape(q: WriteQueue, f: FillResult)
    requires NonEmpty(q) && !Front(q).Pending?
  {
    && PendingCount(f.queue.items) == PendingCount(q.items)
    && (f.wouldBlock || f.failed || Weight(f.queue.items) < Weight(q.items))
    && (|| (&& f.queue.items == q.items[1..]
            && f.out == Bytes(q.items[0])
            && f.queue.keepOpen == q.items[0].keepAlive)
        || (&& |f.queue.items| == |q.items|
            && f.queue.items[1..] == q.items[1..]
            && !f.queue.items[0].Pending?
            && f.out + Bytes(f.queue.items[0]) == Bytes(q.items[0])
            && f.queue.items[0].keepAlive == q.items[0].keepAlive
            && (|Bytes(q.items[0])| > 0 ==> |Bytes(f.queue.items[0])| > 0)
            && f.queue.keepOpen == q.keepOpen))
  }

  /**
   * `fill_channel` on a memory buffer: one `WriteSome` of its data; a
   * throw is a failure, zero bytes is would-block and changes nothing, all
   * of it pops the item, part of it keeps the unsent tail in place.
   * The `WriteSome` of `io::Socket` is taken to classify `::send` as
   * `io::tcp_socket::write_some` does, so a 0 with another errno throws.
   */
  function FillMemory(q: WriteQueue, k: Kernel, t: nat): (f: FillResult)
    requires NonEmpty(q) && q.items[0].MemoryBuffer? && Sound(k)
    ensures f.wouldBlock ==> f.out == [] && !f.failed
    ensures f.wouldBlock || f.failed ==> f.out == [] && |f.queue.items| == |q.items|
    ensures FillShape(q, f)
  {
    var data := q.items[0].data;
    match TcpSocket.WriteSome(data, k.send(t, data))
    case Raised(_) => FillResult(q, [], false, true, t + 1)
    case Returned(n) =>
      if n == 0 then FillResult(q, [], true, false, t + 1)
      else if n == |data| then FillResult(RemoveFront(q), data, false, false, t + 1)
      else
        assert data[..n] + data[n..] == data;
        FillResult(ReplaceFront(q, MemoryBuffer(data[n..], q.items[0].keepAlive)), data[..n], false, false, t + 1)
  }

  /**
   * `fill_channel` on a file: one `send_to_fd` of its remaining range.
   * Zero bytes is would-block; the whole range pops the item; part of it
   * advances the item; on `diy` the item is replaced in place by a memory
   * buffer of the same bytes and filled as one (a failure to read the
   * range back is a failure); any other exception is a failure.
   */
  function FillFile(q: WriteQueue, k: Kernel, t: nat): (f: FillResult)
    requires NonEmpty(q) && q.items[0].UnixFile? && Sound(k)
    ensures f.wouldBlock ==> f.out == [] && !f.failed
    ensures f.wouldBlock || f.failed ==> f.out == [] && |f.queue.items| == |q.items|
    ensures FillShape(q, f)
  {
    var UnixFile(fd, remaining, keepAlive) := q.items[0];
    match k.sendFile(t, remaining)
    case Sent(n) =>
      if n == 0 then FillResult(q, [], true, false, t + 1)
      else if n == |remaining| then FillResult(RemoveFront(q), remaining, false, false, t + 1)
      else
        assert remaining[..n] + remaining[n..] == remaining;
        FillResult(ReplaceFront(q, UnixFile(fd, remaining[n..], keepAlive)), remaining[..n], false, false, t + 1)
    case Diy(copied) =>
      if !copied then FillResult(q, [], false, true, t + 1)
      else
        var q' := ReplaceFront(q, MemoryBuffer(remaining, keepAlive));
        assert Weight(q'.items) == Weight(q.items) && PendingCount(q'.items) == PendingCount(q.items);
        FillMemory(q', k, t + 1)
    case SendFailed => FillResult(q, [], false, true, t + 1)
  }

  /** `fill_channel`: dispatch on the front item's kind; any other kind is left alone. */
  function Fill(q: WriteQueue, k: Kernel, t: nat): (f: FillResult)
    requires NonEmpty(q) && Sound(k)
    ensures f.wouldBlock ==> f.out == [] && !f.failed
    ensures f.wouldBlock || f.failed ==> f.out == [] && |f.queue.items| == |q.items|
    ensures !Front(q).Pending? ==> FillShape(q, f)
    ensures Front(q).Pending? ==> f == FillResult(q, [], false, false, t)
  {
    match q.items[0]
    case MemoryBuffer(_, _) => FillMemory(q, k, t)
    case UnixFile(_, _, _) => FillFile(q, k, t)
    case Pending(_) => FillResult(q, [], false, false, t)
  }

  /** Why a `process_write` call ended; the last two remove the channel. */
  datatype Status = Blocked | Parked | Drained | Closed | Failed

  predicate Removes(s: Status) {
    s == Closed || s == Failed
  }

  /**
   * A drain's effect: the final queue, everything sent on the connection
   * (earlier bytes included), every `poll.modify` mask set on it in call
   * order (earlier ones included), and why it ended.
   */
  datatype DrainResult = DrainResult(queue: WriteQueue, sent: seq<Byte>, masks: seq<Mask>, status: Status, t: nat)

  /** The queue after the barrier callback has had its say on a pending front. */
  function Resolve(q: WriteQueue, k: Kernel): (r: WriteQueue)
    requires NonEmpty(q)
    ensures NonEmpty(r)
    ensures IsFrontAsync(q) && Ready(k.barrier(Front(q).id)) ==> !Front(r).Pending?
    ensures !IsFrontAsync(q) ==> r == q
  {
    if IsFrontAsync(q) && Ready(k.barrier(q.items[0].id)) then
      var b := k.barrier(q.items[0].id);
      ReplaceFront(q, MemoryBuffer(b.data, b.keepAlive))
    else q
  }

  /** The masks `process_write` sets when a fill leaves the queue `q` behind and the loop goes on. */
  function Settle(q: WriteQueue): (m: seq<Mask>)
    ensures NonEmpty(q) <==> m == []
  {
    if NonEmpty(q) then [] else [Complement(Write), LevelTriggered]
  }

  /**
   * The loop of `process_write`, from its head with `filled == false`,
   * the bytes sent and the masks set so far being `sent` and `masks`:
   * an empty queue ends the loop (and switches to level-triggered); an
   * unready pending front switches to level-triggered and returns; else
   * the front is filled; a failure ends it, a drained queue either drops
   * write interest and continues or closes the connection; would-block
   * ends the loop.
   */
  function Drain(q: WriteQueue, k: Kernel, t: nat, sent: seq<Byte>, masks: seq<Mask>): (d: DrainResult)
    requires Sound(k)
    ensures !NonEmpty(q) ==> d == DrainResult(q, sent, masks + [LevelTriggered], Drained, t)
    ensures IsFrontAsync(q) && !Ready(k.barrier(Front(q).id)) ==>
              d == DrainResult(q, sent, masks + [LevelTriggered], Parked, t)
    ensures d.status == Drained ==> !NonEmpty(d.queue) && (NonEmpty(q) ==> KeepFileOpen(d.queue))
    ensures d.status == Closed ==> !NonEmpty(d.queue) && !KeepFileOpen(d.queue)
    ensures d.status == Blocked ==> NonEmpty(d.queue) && !IsFrontAsync(d.queue)
    ensures d.status == Parked ==> IsFrontAsync(d.queue) && !Ready(k.barrier(Front(d.queue).id))
    ensures d.status == Failed ==> NonEmpty(d.queue)
    decreases PendingCount(q.items), Weight(q.items)
  {
    if !NonEmpty(q) then DrainResult(q, sent, masks + [LevelTriggered], Drained, t)
    else if IsFrontAsync(q) && !Ready(k.barrier(q.items[0].id)) then DrainResult(q, sent, masks + [LevelTriggered], Parked, t)
    else
      var f := Fill(Resolve(q, k), k, t);
      if f.failed then DrainResult(f.queue, sent + f.out, masks, Failed, f.t)
      else if !NonEmpty(f.queue) && !KeepFileOpen(f.queue) then DrainResult(f.queue, sent + f.out, masks, Closed, f.t)
      else if f.wouldBlock then DrainResult(f.queue, sent + f.out, masks + Settle(f.queue), Blocked, f.t)
      else
        TurnProgress(q, k, t);
        Drain(f.queue, k, f.t, sent + f.out, masks + Settle(f.queue))
  }

  /** Whether the loop of `process_write` ends after a fill with result `f`. */
  predicate Stops(f: FillResult) {
    f.failed || (!NonEmpty(f.queue) && !KeepFileOpen(f.queue)) || f.wouldBlock
  }

  /** One turn of `Drain` past its head: it stops with the fill's queue and bytes, or goes on from them. */
  lemma DrainTurn(q: WriteQueue, k: Kernel, t: nat, sent: seq<Byte>, masks: seq<Mask>)
    requires Sound(k) && NonEmpty(q) && !(IsFrontAsync(q) && !Ready(k.barrier(Front(q).id)))
    ensures var f := Fill(Resolve(q, k), k, t);
            var d := Drain(q, k, t, sent, masks);
            && (Stops(f) ==> d.queue == f.queue && d.sent == sent + f.out
                             && (d.status in {Drained, Closed} ==> !NonEmpty(f.queue)))
            && (!Stops(f) ==> d == Drain(f.queue, k, f.t, sent + f.out, masks + Settle(f.queue)))
  {
  }

  /** A turn of the loop that neither failed nor blocked lowers the loop measure. */
  lemma TurnProgress(q: WriteQueue, k: Kernel, t: nat)
    requires Sound(k) && NonEmpty(q) && !(IsFrontAsync(q) && !Ready(k.barrier(Front(q).id)))
    ensures var f := Fill(Resolve(q, k), k, t);
            !f.failed && !f.wouldBlock ==>
              PendingCount(f.queue.items) < PendingCount(q.items)
              || (PendingCount(f.queue.items) == PendingCount(q.items) && Weight(f.queue.items) < Weight(q.items))
  {
    ResolveMeasure(q, k);
  }

  lemma ResolveMeasure(q: WriteQueue, k: Kernel)
    requires NonEmpty(q) && !(IsFrontAsync(q) && !Ready(k.barrier(Front(q).id)))
    ensures IsFrontAsync(q) ==> PendingCount(Resolve(q, k).items) + 1 == PendingCount(q.items)
    ensures Payload(Front(Resolve(q, k)), k.barrier) == Payload(Front(q), k.barrier)
    ensures Resolve(q, k).items[1..] == q.items[1..]
    ensures !Front(Resolve(q, k)).Pending?
    ensures !Front(q).Pending? ==> Resolve(q, k) == q
  {
    var r := Resolve(q, k);
    assert PendingCount(r.items) == (if r.items[0].Pending? then 1 else 0) + PendingCount(r.items[1..]);
  }

  // ----- properties of the drain -----

  lemma FillWire(q: WriteQueue, f: FillResult, barrier: nat -> Resolution)
    requires NonEmpty(q) && !Front(q).Pending? && FillShape(q, f)
    ensures f.out + Wire(f.queue.items, barrier) == Wire(q.items, barrier)
  {
    if f.queue.items != q.items[1..] {
      var x := f.queue.items[0];
      calc {
        f.out + Wire(f.queue.items, barrier);
        f.out + (Bytes(x) + Wire(q.items[1..], barrier));
        (f.out + Bytes(x)) + Wire(q.items[1..], barrier);
        Wire(q.items, barrier);
      }
    }
  }

  /**
   * In-order delivery: whatever a drain sends, followed by what is left in
   * the queue, is exactly what the queue held, pending items standing for
   * the barrier's answer. Nothing is lost, duplicated or reordered, however
   * the kernel splits the writes and whether or not a file takes the
   * userspace fallback.
   */
  lemma {:induction false} DrainDelivers(q: WriteQueue, k: Kernel, t: nat, sent: seq<Byte>, masks: seq<Mask>)
    requires Sound(k)
    ensures var d := Drain(q, k, t, sent, masks);
            d.sent + Wire(d.queue.items, k.barrier) == sent + Wire(q.items, k.barrier)
    decreases PendingCount(q.items), Weight(q.items)
  {
    if NonEmpty(q) && !(IsFrontAsync(q) && !Ready(k.barrier(q.items[0].id))) {
      var q1 := Resolve(q, k);
      ResolveMeasure(q, k);
      assert Wire(q1.items, k.barrier) == Wire(q.items, k.barrier);
      var f := Fill(q1, k, t);
      FillWire(q1, f, k.barrier);
      assert (sent + f.out) + Wire(f.queue.items, k.barrier) == sent + Wire(q.items, k.barrier);
      DrainTurn(q, k, t, sent, masks);
      if !Stops(f) {
        DrainDelivers(f.queue, k, f.t, sent + f.out, masks + Settle(f.queue));
      }
    }
  }

  /** The keep-alive decision an item carries, a pending one through the barrier's answer for it. */
  function Decision(it: Item, barrier: nat -> Resolution): bool {
    if it.Pending? then barrier(it.id).keepAlive else it.keepAlive
  }

  /**
   * Whether a fully drained connection stays open is decided by the last
   * response that was queued, not by any earlier one.
   */
  lemma {:induction false} DrainDecision(q: WriteQueue, k: Kernel, t: nat, sent: seq<Byte>, masks: seq<Mask>)
    requires Sound(k) && NonEmpty(q)
    requires Drain(q, k, t, sent, masks).status in {Drained, Closed}
    ensures KeepFileOpen(Drain(q, k, t, sent, masks).queue) == Decision(q.items[|q.items| - 1], k.barrier)
    decreases PendingCount(q.items), Weight(q.items)
  {
    var q1 := Resolve(q, k);
    ResolveMeasure(q, k);
    ResolveLast(q, k);
    var f := Fill(q1, k, t);
    FillLast(q1, f, k.barrier);
    DrainTurn(q, k, t, sent, masks);
    TurnProgress(q, k, t);
    if !Stops(f) && NonEmpty(f.queue) {
      DrainDecision(f.queue, k, f.t, sent + f.out, masks + Settle(f.queue));
    }
  }

  /** The barrier's answer for a pending front carries the decision the pending item stands for. */
  lemma ResolveLast(q: WriteQueue, k: Kernel)
    requires NonEmpty(q)
    ensures var r := Resolve(q, k);
            |r.items| == |q.items| && Decision(r.items[|r.items| - 1], k.barrier) == Decision(q.items[|q.items| - 1], k.barrier)
  {
    var r := Resolve(q, k);
    var n := |q.items|;
    if n > 1 {
      assert r.items[n - 1] == r.items[1..][n - 2] == q.items[n - 1];
    }
  }

  /** A fill leaves the decision of the last item in place, or, having emptied the queue, remembers it. */
  lemma FillLast(q: WriteQueue, f: FillResult, barrier: nat -> Resolution)
    requires NonEmpty(q) && !Front(q).Pending? && FillShape(q, f)
    ensures NonEmpty(f.queue) ==>
              Decision(f.queue.items[|f.queue.items| - 1], barrier) == Decision(q.items[|q.items| - 1], barrier)
    ensures !NonEmpty(f.queue) ==> f.queue.keepOpen == Decision(q.items[|q.items| - 1], barrier)
  {
    var n := |q.items|;
    if f.queue.items == q.items[1..] {
      if NonEmpty(f.queue) {
        assert f.queue.items[|f.queue.items| - 1] == q.items[n - 1];
      }
    } else if n > 1 {
      assert f.queue.items[n - 1] == f.queue.items[1..][n - 2] == q.items[1..][n - 2];
    }
  }

  /** No item still to send is a pending placeholder or an empty buffer. */
  ghost predicate Materialised(items: seq<Item>) {
    forall i :: 0 <= i < |items| ==> !items[i].Pending? && |Bytes(items[i])| > 0
  }

  /**
   * Partial writes are harmless: against a kernel that always takes at
   * least one byte and never fails, a queue of materialised items drains
   * completely, the bytes sent being exactly its contents, and the
   * connection is then kept or closed.
   */
  lemma {:induction false} DrainCompletes(q: WriteQueue, k: Kernel, t: nat, sent: seq<Byte>, masks: seq<Mask>)
    requires Sound(k) && Eager(k) && Materialised(q.items)
    ensures Drain(q, k, t, sent, masks).status in {Drained, Closed}
    ensures Drain(q, k, t, sent, masks).sent == sent + Wire(q.items, k.barrier)
    decreases Weight(q.items)
  {
    DrainDelivers(q, k, t, sent, masks);
    if NonEmpty(q) {
      ResolveMeasure(q, k);
      DrainTurn(q, k, t, sent, masks);
      var f := Fill(q, k, t);
      assert !f.failed && !f.wouldBlock by {
        match q.items[0]
        case MemoryBuffer(data, _) =>
          assert k.send(t, data).ret >= 1;
        case UnixFile(_, remaining, _) =>
          assert k.sendFile(t, remaining).Sent? && k.sendFile(t, remaining).n >= 1;
      }
      if NonEmpty(f.queue) {
        FillMaterialised(q, f);
        DrainCompletes(f.queue, k, f.t, sent + f.out, masks + Settle(f.queue));
      }
    }
  }

  lemma FillMaterialised(q: WriteQueue, f: FillResult)
    requires NonEmpty(q) && Materialised(q.items) && FillShape(q, f)
    ensures Materialised(f.queue.items)
  {
    forall i | 0 <= i < |f.queue.items|
      ensures !f.queue.items[i].Pending? && |Bytes(f.queue.items[i])| > 0
    {
      if f.queue.items == q.items[1..] {
        assert f.queue.items[i] == q.items[i + 1];
      } else if i > 0 {
        assert f.queue.items[i] == q.items[1..][i - 1];
      }
    }
  }
}
