/**
 * The event-driven scheduler of src/io/schedulers/io_scheduler.cpp: it
 * owns one channel per socket, registers each with epoll, and on every
 * readiness event accepts connections, removes the channel, hands
 * incoming data to the read callback and queues its response, or drains
 * the channel's write queue.
 *
 * What epoll, the callbacks and the socket calls answer is given as
 * input: an `Event` carries the readiness bits of one event together with
 * the read callback's answer, the acceptor's answers and the kernel of the
 * write path. Calls into epoll and the before-removing hook are recorded,
 * in order, in the ghost `trace`; the meaning of a mask inside epoll is
 * not part of this model.
 */
module IoScheduler {
  import opened Base
  import opened ScheduleItem
  import opened Epoll
  import opened WritePath

  /** The socket state the scheduler looks at: its descriptor, whether it listens, whether it was made non-blocking. */
  datatype Sock = Sock(fd: int, acceptor: bool, nonBlocking: bool)

  /** A connection: its socket and its write queue. */
  class Channel {
    var socket: Sock
    var queue: WriteQueue
    /** Every byte the kernel has accepted for this socket, in order. */
    ghost var sent: seq<Byte>
    /** The masks `poll.modify` was called with for this channel, in order. */
    ghost var modes: seq<Mask>

    constructor (socket: Sock)
      ensures this.socket == socket && queue == EmptyQueue && sent == [] && modes == []
    {
      this.socket := socket;
      queue := EmptyQueue;
      sent := [];
      modes := [];
    }

    ghost function State(): ChannelState
      reads this
    {
      ChannelState(queue, sent, modes)
    }
  }

  /** What a channel holds besides its socket: its queue, what it has sent, and its `poll.modify` history. */
  datatype ChannelState = ChannelState(queue: WriteQueue, sent: seq<Byte>, modes: seq<Mask>)

  /** A channel `add` has just created for an accepted connection: a non-blocking, non-listening socket and no history. */
  ghost predicate NewConnection(c: Channel)
    reads c
  {
    c.State() == ChannelState(EmptyQueue, [], []) && !c.socket.acceptor && c.socket.nonBlocking
  }

  /** A registration with epoll, a deregistration, or a call of the before-removing hook. */
  datatype Effect =
    | Scheduled(ch: Channel, mask: Mask)
    | Deregistered(ch: Channel)
    | Removing(ch: Channel)

  /** What the read callback did: the peer closed the connection, or a (possibly empty) response. */
  datatype ReadReply = PeerClosed | Reply(items: seq<Item>)

  /** One answer of the acceptor's `Accept()`: a connection, and whether epoll took it; or none left. */
  datatype AcceptReply = Accepted(fd: int, registers: bool) | NoMore

  /** A readiness event and the answers of everything called while handling it. */
  datatype Event = Event(
    context: Channel,
    terminate: bool,
    read: bool,
    write: bool,
    reply: ReadReply,
    accepts: seq<AcceptReply>,
    kernel: Kernel)

  const EdgeTriggeredOnly: Mask := Of({EdgeTriggered})
  const WriteOnly: Mask := Of({Write})

  // ----- the channel list -----

  ghost predicate Distinct(s: seq<Channel>) {
    forall i, j :: 0 <= i < j < |s| ==> s[i] != s[j]
  }

  /** `channels.erase(std::remove_if(..., c == &*ctx), ...)`: every entry equal to `c` removed, the rest kept in order. */
  function Without(s: seq<Channel>, c: Channel): (r: seq<Channel>)
    ensures |r| <= |s|
    ensures c !in r
  {
    if s == [] then [] else (if s[0] == c then [] else [s[0]]) + Without(s[1..], c)
  }

  /** Exactly the entries other than `c` survive. */
  lemma {:induction false} WithoutMembers(s: seq<Channel>, c: Channel)
    ensures forall x :: x in Without(s, c) <==> x in s && x != c
  {
    if s != [] {
      WithoutMembers(s[1..], c);
      assert s == [s[0]] + s[1..];
    }
  }

  /** Without its head, a duplicate-free list stays duplicate-free and no longer holds the head. */
  lemma DistinctTail(s: seq<Channel>)
    requires Distinct(s) && s != []
    ensures Distinct(s[1..]) && s[0] !in s[1..]
  {
    forall i, j | 0 <= i < j < |s[1..]| ensures s[1..][i] != s[1..][j] {
      assert s[1..][i] == s[i + 1] && s[1..][j] == s[j + 1];
    }
    forall i | 0 <= i < |s[1..]| ensures s[1..][i] != s[0] {
      assert s[1..][i] == s[i + 1];
    }
  }

  lemma DistinctCons(x: Channel, r: seq<Channel>)
    requires Distinct(r) && x !in r
    ensures Distinct([x] + r)
  {
    forall i, j | 0 <= i < j < |[x] + r| ensures ([x] + r)[i] != ([x] + r)[j] {
      assert ([x] + r)[j] == r[j - 1];
      if i > 0 {
        assert ([x] + r)[i] == r[i - 1];
      }
    }
  }

  /** Erasing a channel keeps the list duplicate-free. */
  lemma {:induction false} WithoutDistinct(s: seq<Channel>, c: Channel)
    requires Distinct(s)
    ensures Distinct(Without(s, c))
  {
    if s != [] {
      DistinctTail(s);
      WithoutDistinct(s[1..], c);
      WithoutMembers(s[1..], c);
      if s[0] != c {
        DistinctCons(s[0], Without(s[1..], c));
      } else {
        assert Without(s, c) == Without(s[1..], c);
      }
    }
  }

  /** Erasing a channel that is not in the list changes nothing. */
  lemma {:induction false} WithoutAbsent(s: seq<Channel>, c: Channel)
    requires c !in s
    ensures Without(s, c) == s
  {
    if s != [] {
      assert s == [s[0]] + s[1..];
      WithoutAbsent(s[1..], c);
    }
  }

  /** Erasing a channel that occurs once, at slot `k`, cuts out exactly that slot and keeps the rest in order. */
  lemma {:induction false} WithoutSlot(s: seq<Channel>, c: Channel, k: nat)
    requires Distinct(s) && k < |s| && s[k] == c
    ensures Without(s, c) == s[..k] + s[k + 1..]
  {
    DistinctTail(s);
    if k == 0 {
      WithoutAbsent(s[1..], c);
    } else {
      assert s[1..][k - 1] == c;
      WithoutSlot(s[1..], c, k - 1);
      assert [s[0]] + (s[1..][..k - 1] + s[1..][k..]) == s[..k] + s[k + 1..];
    }
  }

  /** What `remove(c)` tells the outside world: the before-removing hook, then epoll deregistration. */
  ghost function Removal(c: Channel): seq<Effect> {
    [Removing(c), Deregistered(c)]
  }

  /** The registrations and hook calls of one `process_write`: `remove` if it closed or failed. */
  ghost function WriteEffects(c: Channel, d: DrainResult): seq<Effect> {
    if Removes(d.status) then Removal(c) else []
  }

  /** The channel list after a drain that ended with `status`. */
  function ChannelsAfter(s: seq<Channel>, c: Channel, status: Status): seq<Channel> {
    if Removes(status) then Without(s, c) else s
  }

  /** A drain can only take its own channel out of the list. */
  lemma ChannelsAfterMembers(s: seq<Channel>, c: Channel, status: Status)
    ensures forall x :: x in ChannelsAfter(s, c, status) <==> x in s && (x != c || !Removes(status))
  {
    WithoutMembers(s, c);
  }

  /** `poll.schedule(c, m)` for each newly added channel, in order. */
  ghost function Registrations(cs: seq<Channel>, m: Mask): seq<Effect> {
    if cs == [] then [] else [Scheduled(cs[0], m)] + Registrations(cs[1..], m)
  }

  lemma {:induction false} RegistrationsAppend(cs: seq<Channel>, ch: Channel, m: Mask)
    ensures Registrations(cs + [ch], m) == Registrations(cs, m) + [Scheduled(ch, m)]
  {
    if cs != [] {
      assert (cs + [ch])[1..] == cs[1..] + [ch];
      RegistrationsAppend(cs[1..], ch, m);
    } else {
      assert Registrations([ch], m) == [Scheduled(ch, m)] + Registrations([], m);
    }
  }

  // ----- accepting connections -----

  /** Newly added channels, one per socket in order, each with an empty queue and no history. */
  ghost predicate Opened(added: seq<Channel>, socks: seq<Sock>)
    reads added
  {
    && |added| == |socks|
    && forall j :: 0 <= j < |added| ==>
         added[j].socket == socks[j] && added[j].queue == EmptyQueue && added[j].sent == [] && added[j].modes == []
  }

  lemma OpenedAppend(added: seq<Channel>, socks: seq<Sock>, ch: Channel, s: Sock)
    requires Opened(added, socks)
    requires ch.socket == s && ch.queue == EmptyQueue && ch.sent == [] && ch.modes == []
    ensures Opened(added + [ch], socks + [s])
  {
    forall j | 0 <= j < |added| + 1
      ensures (added + [ch])[j].socket == (socks + [s])[j]
    {
      if j < |added| {
        assert (added + [ch])[j] == added[j];
      }
    }
  }

  /** Channels opened for connection sockets are new connections on those sockets. */
  lemma OpenedNew(added: seq<Channel>, socks: seq<Sock>)
    requires Opened(added, socks)
    requires forall s :: s in socks ==> !s.acceptor && s.nonBlocking
    ensures forall x :: x in added ==> NewConnection(x) && x.socket in socks
  {
    forall x | x in added
      ensures NewConnection(x) && x.socket in socks
    {
      var j :| 0 <= j < |added| && added[j] == x;
      assert x.socket == socks[j];
    }
  }

  /** The channels appended after `listed` are exactly the ones not listed before, and each is a new connection. */
  lemma NewChannels(listed: seq<Channel>, now: seq<Channel>, socks: seq<Sock>)
    requires |now| >= |listed| && now[..|listed|] == listed && Opened(now[|listed|..], socks)
    requires forall s :: s in socks ==> !s.acceptor && s.nonBlocking
    ensures forall x :: x in now && x !in listed ==> x in now[|listed|..] && NewConnection(x) && x.socket in socks
  {
    OpenedNew(now[|listed|..], socks);
    assert now == listed + now[|listed|..];
  }

  /** The sockets kept from the first `n` answers: each connection epoll took, made non-blocking. */
  function AdmittedBefore(accepts: seq<AcceptReply>, n: nat): (r: seq<Sock>)
    requires n <= |accepts|
    ensures |r| <= n
    ensures forall s :: s in r ==> !s.acceptor && s.nonBlocking
  {
    if n == 0 then []
    else
      AdmittedBefore(accepts, n - 1)
      + (match accepts[n - 1]
         case Accepted(fd, true) => [Sock(fd, false, true)]
         case _ => [])
  }

  /** One more answer that is a connection keeps its socket exactly when epoll registered it. */
  lemma AdmittedStep(accepts: seq<AcceptReply>, i: nat)
    requires i < |accepts| && accepts[i].Accepted?
    ensures AdmittedBefore(accepts, i + 1)
            == AdmittedBefore(accepts, i) + (if accepts[i].registers then [Sock(accepts[i].fd, false, true)] else [])
  {
  }

  /** Index of the first "no connection" answer. */
  function FirstNoMore(accepts: seq<AcceptReply>): (n: nat)
    requires NoMore in accepts
    ensures n < |accepts| && accepts[n] == NoMore && NoMore !in accepts[..n]
  {
    if accepts[0] == NoMore then 0
    else
      assert NoMore in accepts[1..];
      var n := FirstNoMore(accepts[1..]);
      assert accepts[..n + 1] == [accepts[0]] + accepts[1..][..n];
      n + 1
  }

  /** The sockets `add_new_connections` keeps: those among the answers before the first "no connection". */
  function Admitted(accepts: seq<AcceptReply>): seq<Sock>
    requires NoMore in accepts
  {
    AdmittedBefore(accepts, FirstNoMore(accepts))
  }

  /**
   * A connection is kept exactly when it was accepted among the first `n`
   * answers and epoll registered it; so `Admitted` keeps the registered
   * connections before the first "no connection", and answers after that
   * point are never asked for.
   */
  lemma {:induction false} AdmittedExactly(accepts: seq<AcceptReply>, n: nat, s: Sock)
    requires n <= |accepts|
    ensures s in AdmittedBefore(accepts, n) <==>
              exists i :: 0 <= i < n && accepts[i] == Accepted(s.fd, true) && s == Sock(s.fd, false, true)
  {
    if n > 0 {
      AdmittedExactly(accepts, n - 1, s);
      if accepts[n - 1] == Accepted(s.fd, true) && s == Sock(s.fd, false, true) {
        assert s in AdmittedBefore(accepts, n);
      }
    }
  }

  // ----- queuing a response -----

  /** The queue after `enqueue_item` for a read callback's response (nothing happens for an empty one). */
  function Enqueued(q: WriteQueue, items: seq<Item>): (r: WriteQueue)
    ensures r.keepOpen == q.keepOpen
  {
    if items == [] then q
    else if !items[0].Pending? then PutBack(q, items)
    else PutAfterFirstIntact(q, items)
  }

  /**
   * A response whose first item is ready is sent after everything already
   * queued; one that starts with a pending item is sent right after the
   * front item, ahead of the rest of the queue.
   */
  lemma EnqueuedOrder(q: WriteQueue, items: seq<Item>, barrier: nat -> Resolution)
    ensures items != [] && !items[0].Pending? ==>
              Wire(Enqueued(q, items).items, barrier) == Wire(q.items, barrier) + Wire(items, barrier)
    ensures items != [] && items[0].Pending? && NonEmpty(q) ==>
              Wire(Enqueued(q, items).items, barrier)
              == Payload(q.items[0], barrier) + Wire(items, barrier) + Wire(q.items[1..], barrier)
    ensures !NonEmpty(q) ==> Enqueued(q, items).items == items
  {
    WireAppend(q.items, items, barrier);
    PutAfterFirstIntactOrder(q, items, barrier);
  }

  // ----- one event -----

  /** Whether an event on a connection (not the acceptor) ends in `remove`: termination or a closed peer. */
  predicate Ends(ev: Event) {
    ev.terminate || (ev.read && ev.reply.PeerClosed?)
  }

  /**
   * A connection's state once `run` has switched it to edge-triggered and
   * queued the read callback's response, enabling write interest first
   * when the response is not empty.
   */
  function Prepared(ev: Event, s: ChannelState): ChannelState {
    var items := if ev.read && ev.reply.Reply? then ev.reply.items else [];
    ChannelState(Enqueued(s.queue, items), s.sent, s.modes + [EdgeTriggeredOnly] + (if items != [] then [WriteOnly] else []))
  }

  /** The drain of a writable connection, starting from its prepared state. */
  ghost function EventDrain(ev: Event, s: ChannelState): DrainResult
    requires Sound(ev.kernel)
  {
    var p := Prepared(ev, s);
    Drain(p.queue, ev.kernel, 0, p.sent, p.modes)
  }

  /** Whether handling `ev` removes its channel: a termination, a closed peer, or a drain that closed or failed. */
  ghost predicate RemovedBy(ev: Event, acceptor: bool, s: ChannelState)
    requires Sound(ev.kernel)
  {
    !acceptor && (Ends(ev) || (ev.write && Removes(EventDrain(ev, s).status)))
  }

  /** The state of an event's channel after the event, from its state before. */
  ghost function AfterEvent(ev: Event, acceptor: bool, s: ChannelState): ChannelState
    requires Sound(ev.kernel)
  {
    if acceptor || Ends(ev) then s.(modes := s.modes + [EdgeTriggeredOnly])
    else if ev.write then
      var d := EventDrain(ev, s);
      ChannelState(d.queue, d.sent, d.masks)
    else Prepared(ev, s)
  }

  /** After an event: the channel holds what `AfterEvent` says, and is still listed exactly when the event did not remove it. */
  ghost predicate Settled(ev: Event, acceptor: bool, s: ChannelState, channels: seq<Channel>)
    requires Sound(ev.kernel)
    reads ev.context
  {
    ev.context.State() == AfterEvent(ev, acceptor, s) && (ev.context in channels <==> !RemovedBy(ev, acceptor, s))
  }

  class Scheduler {
    var channels: seq<Channel>
    /** The calls made into epoll and the before-removing hook, oldest first. */
    ghost var trace: seq<Effect>

    /** Every channel is owned once. */
    ghost predicate Valid()
      reads this
    {
      Distinct(channels)
    }

    /** `scheduler()`: no channels. */
    constructor ()
      ensures Valid() && channels == [] && trace == []
    {
      channels := [];
      trace := [];
    }

    /**
     * `scheduler(sock, ...)`: adds the listening socket with read and
     * termination interest; when epoll refuses it the constructor throws,
     * which is `null` here.
     */
    static method Start(acceptor: Sock, registered: bool) returns (s: Scheduler?)
      ensures registered <==> s != null
      ensures s != null ==> fresh(s) && s.Valid() && |s.channels| == 1 && fresh(s.channels[0])
                            && s.channels[0].socket == acceptor && s.channels[0].queue == EmptyQueue
                            && s.trace == [Scheduled(s.channels[0], ReadTermination)]
    {
      var impl := new Scheduler();
      var ok, ch := impl.Add(acceptor, ReadTermination, registered);
      s := if ok then impl else null;
    }

    /**
     * `add`: a new channel for the socket is registered with epoll and
     * only then appended; when registration fails (`registered` false)
     * nothing is kept and the error is reported through `ok`.
     */
    method Add(socket: Sock, mask: Mask, registered: bool) returns (ok: bool, ch: Channel)
      requires Valid()
      modifies this
      ensures Valid() && ok == registered && fresh(ch)
      ensures ch.socket == socket && ch.queue == EmptyQueue && ch.sent == [] && ch.modes == []
      ensures channels == old(channels) + (if ok then [ch] else [])
      ensures trace == old(trace) + (if ok then [Scheduled(ch, mask)] else [])
    {
      ch := new Channel(socket);
      ok := registered;
      if ok {
        trace := trace + [Scheduled(ch, mask)];
        channels := channels + [ch];
      }
    }

    /** `poll.modify(c, mask)`. */
    method Modify(c: Channel, mask: Mask)
      modifies c
      ensures c.modes == old(c.modes) + [mask]
      ensures c.socket == old(c.socket) && c.queue == old(c.queue) && c.sent == old(c.sent)
    {
      c.modes := c.modes + [mask];
    }

    /** `remove`: the hook, deregistration, then the channel leaves the list. */
    method Remove(c: Channel)
      requires Valid()
      modifies this
      ensures Valid() && channels == Without(old(channels), c) && c !in channels
      ensures forall x :: x in channels <==> x in old(channels) && x != c
      ensures trace == old(trace) + Removal(c)
    {
      WithoutMembers(channels, c);
      trace := trace + [Removing(c)];
      trace := trace + [Deregistered(c)];
      WithoutDistinct(channels, c);
      channels := Without(channels, c);
    }

    /** `enqueue_item`: the response goes to the back, or right behind the front item. */
    method EnqueueItem(c: Channel, items: seq<Item>, back: bool)
      modifies c
      ensures c.queue == (if back then PutBack(old(c.queue), items) else PutAfterFirstIntact(old(c.queue), items))
      ensures c.socket == old(c.socket) && c.sent == old(c.sent) && c.modes == old(c.modes)
    {
      if back {
        c.queue := PutBack(c.queue, items);
      } else {
        c.queue := PutAfterFirstIntact(c.queue, items);
      }
    }

    /**
     * `fill_channel`: one attempt on the front item, as `Fill` says; the
     * bytes the kernel accepted are appended to what the channel has sent.
     * `filled` is the would-block result, `failed` the thrown `write_error`.
     */
    method FillChannel(c: Channel, k: Kernel, t: nat) returns (filled: bool, failed: bool, next: nat)
      requires NonEmpty(c.queue) && Sound(k)
      modifies c
      ensures var f := Fill(old(c.queue), k, t);
                c.queue == f.queue && c.sent == old(c.sent) + f.out
                && filled == f.wouldBlock && failed == f.failed && next == f.t
      ensures c.socket == old(c.socket) && c.modes == old(c.modes)
      decreases if c.queue.items[0].UnixFile? then 1 else 0
    {
      next := t + 1;
      filled, failed := false, false;
      match c.queue.items[0]
      case MemoryBuffer(data, keepAlive) =>
        match TcpSocket.WriteSome(data, k.send(t, data)) {
        case Raised(_) =>
          failed := true;
        case Returned(written) =>
          if written == 0 {
            filled := true;
          } else if written == |data| {
            c.queue := RemoveFront(c.queue);
            c.sent := c.sent + data;
          } else {
            c.queue := ReplaceFront(c.queue, MemoryBuffer(data[written..], keepAlive));
            c.sent := c.sent + data[..written];
          }
        }
      case UnixFile(fd, remaining, keepAlive) =>
        match k.sendFile(t, remaining) {
        case Sent(written) =>
          if written == 0 {
            filled := true;
          } else if written == |remaining| {
            c.queue := RemoveFront(c.queue);
            c.sent := c.sent + remaining;
          } else {
            c.queue := ReplaceFront(c.queue, UnixFile(fd, remaining[written..], keepAlive));
            c.sent := c.sent + remaining[..written];
          }
        case Diy(copied) =>
          if copied {
            c.queue := ReplaceFront(c.queue, MemoryBuffer(remaining, keepAlive));
            filled, failed, next := FillChannel(c, k, t + 1);
          } else {
            failed := true;
          }
        case SendFailed =>
          failed := true;
        }
      case Pending(_) =>
        next := t;
    }

    /**
     * The body of the `process_write` loop after the pending check: one
     * `fill_channel`, then, if the queue is now empty, either drop write
     * interest and go back to level-triggered, or remove the channel. A
     * `write_error` also removes it. `stop` says the loop returns.
     */
    method WriteTurn(c: Channel, k: Kernel, t: nat) returns (stop: bool, filled: bool, next: nat)
      requires Valid() && NonEmpty(c.queue) && Sound(k)
      modifies this, c
      ensures Valid() && c.socket == old(c.socket)
      ensures var f := Fill(old(c.queue), k, t);
                && c.queue == f.queue && c.sent == old(c.sent) + f.out
                && filled == f.wouldBlock && next == f.t
                && (stop <==> f.failed || (!NonEmpty(f.queue) && !KeepFileOpen(f.queue)))
                && c.modes == old(c.modes) + (if stop then [] else Settle(f.queue))
                && channels == (if stop then Without(old(channels), c) else old(channels))
                && trace == old(trace) + (if stop then Removal(c) else [])
    {
      var failed;
      filled, failed, next := FillChannel(c, k, t);
      stop := false;
      if failed {
        Remove(c);
        stop := true;
      } else if !NonEmpty(c.queue) {
        if KeepFileOpen(c.queue) {
          Modify(c, Complement(Write));
          Modify(c, LevelTriggered);
        } else {
          Remove(c);
          stop := true;
        }
      }
    }

    /**
     * `process_write`: drains the channel's queue as `Drain` says. The
     * channel ends with the drain's queue and has sent its bytes, the epoll
     * calls are made in the drain's order, and the channel is removed
     * exactly when the drain closed the connection or failed.
     */
    method ProcessWrite(c: Channel, k: Kernel)
      requires Valid() && c in channels && Sound(k)
      modifies this, c
      ensures Valid() && c.socket == old(c.socket)
      ensures var d := Drain(old(c.queue), k, 0, old(c.sent), old(c.modes));
                && c.queue == d.queue && c.sent == d.sent && c.modes == d.masks
                && channels == ChannelsAfter(old(channels), c, d.status)
                && trace == old(trace) + WriteEffects(c, d)
    {
      ghost var d0 := Drain(c.queue, k, 0, c.sent, c.modes);
      var t := 0;
      var filled := false;
      while NonEmpty(c.queue) && !filled
        invariant Valid() && channels == old(channels) && trace == old(trace) && c.socket == old(c.socket)
        invariant !filled ==> Drain(c.queue, k, t, c.sent, c.modes) == d0
        invariant filled ==> d0 == DrainResult(c.queue, c.sent, c.modes, Blocked, t)
        decreases if filled then 0 else 1, PendingCount(c.queue.items), Weight(c.queue.items)
      {
        ghost var q := c.queue;
        if IsFrontAsync(c.queue) {
          var b := k.barrier(Front(c.queue).id);
          if Ready(b) {
            c.queue := ReplaceFront(c.queue, MemoryBuffer(b.data, b.keepAlive));
          } else {
            Modify(c, LevelTriggered);
            return;
          }
        }
        assert c.queue == Resolve(q, k);
        TurnProgress(q, k, t);
        var stop, result, next := WriteTurn(c, k, t);
        if stop {
          return;
        }
        filled := result;
        t := next;
      }
      if !filled {
        Modify(c, LevelTriggered);
      }
    }

    /**
     * `add_new_connections`: accepts until the acceptor reports no
     * connection; each connection is made non-blocking and added with read
     * and termination interest, and one epoll refuses is dropped while the
     * loop goes on.
     */
    method AddNewConnections(accepts: seq<AcceptReply>)
      requires Valid() && NoMore in accepts
      modifies this
      ensures Valid()
      ensures |channels| >= |old(channels)| && channels[..|old(channels)|] == old(channels)
      ensures Opened(channels[|old(channels)|..], Admitted(accepts))
      ensures forall ch :: ch in channels[|old(channels)|..] ==> fresh(ch)
      ensures trace == old(trace) + Registrations(channels[|old(channels)|..], ReadTermination)
    {
      var i := 0;
      ghost var added: seq<Channel> := [];
      ghost var socks: seq<Sock> := [];
      ghost var n := FirstNoMore(accepts);
      if 0 < n {
        assert accepts[..n][0] == accepts[0];
      }
      while accepts[i] != NoMore
        invariant 0 <= i <= n && (i < n ==> accepts[i] != NoMore)
        invariant Valid() && channels == old(channels) + added
        invariant socks == AdmittedBefore(accepts, i)
        invariant Opened(added, socks)
        invariant forall ch :: ch in added ==> fresh(ch)
        invariant trace == old(trace) + Registrations(added, ReadTermination)
        decreases n - i
      {
        AdmittedStep(accepts, i);
        added, socks := AcceptOne(accepts[i], old(channels), old(trace), added, socks);
        if i + 1 < n {
          assert accepts[..n][i + 1] == accepts[i + 1];
        }
        i := i + 1;
      }
      assert channels[|old(channels)|..] == added;
    }

    /**
     * One turn of `add_new_connections` for an accepted connection: the
     * socket, made non-blocking, is added with read and termination
     * interest; `added` and `socks` grow by it exactly when epoll took it.
     */
    method AcceptOne(reply: AcceptReply, ghost base: seq<Channel>, ghost trace0: seq<Effect>,
                     ghost added: seq<Channel>, ghost socks: seq<Sock>)
      returns (ghost added': seq<Channel>, ghost socks': seq<Sock>)
      requires reply.Accepted?
      requires Valid() && channels == base + added && Opened(added, socks)
      requires trace == trace0 + Registrations(added, ReadTermination)
      modifies this
      ensures Valid() && channels == base + added' && Opened(added', socks')
      ensures trace == trace0 + Registrations(added', ReadTermination)
      ensures socks' == socks + (if reply.registers then [Sock(reply.fd, false, true)] else [])
      ensures forall ch :: ch in added' ==> ch in added || fresh(ch)
    {
      var sock := Sock(reply.fd, false, true);
      var ok, ch := Add(sock, ReadTermination, reply.registers);
      added', socks' := added, socks;
      if ok {
        RegistrationsAppend(added, ch, ReadTermination);
        OpenedAppend(added, socks, ch, sock);
        added', socks' := added + [ch], socks + [sock];
      }
    }

    /**
     * One iteration of `run`'s event loop. The event's channel is switched
     * to edge-triggered; an acceptor accepts new connections; a
     * termination removes the channel; readable data goes to the read
     * callback, whose response is queued (after enabling write interest),
     * and a peer that closed removes the channel; writability drains it.
     */
    method HandleEvent(ev: Event)
      requires Valid() && ev.context in channels && Sound(ev.kernel)
      requires ev.context.socket.acceptor ==> NoMore in ev.accepts
      modifies this, ev.context
      ensures Valid()
      ensures ev.context.socket == old(ev.context.socket)
      ensures forall x :: x in old(channels) && x != ev.context ==> x in channels
      ensures Settled(ev, old(ev.context.socket.acceptor), old(ev.context.State()), channels)
      ensures old(trace) <= trace
      ensures !old(ev.context.socket.acceptor) ==> forall x :: x in channels ==> x in old(channels)
      ensures old(ev.context.socket.acceptor) ==> forall x :: x in channels && x !in old(channels) ==>
                fresh(x) && NewConnection(x) && x.socket in Admitted(ev.accepts)
      ensures old(ev.context.socket.acceptor) ==>
                && |channels| >= |old(channels)| && channels[..|old(channels)|] == old(channels)
                && Opened(channels[|old(channels)|..], Admitted(ev.accepts))
                && trace == old(trace) + Registrations(channels[|old(channels)|..], ReadTermination)
      ensures !old(ev.context.socket.acceptor) ==>
                var removed := RemovedBy(ev, false, old(ev.context.State()));
                && channels == (if removed then Without(old(channels), ev.context) else old(channels))
                && trace == old(trace) + (if removed then Removal(ev.context) else [])
    {
      var c := ev.context;
      ghost var s0 := c.State();
      WithoutMembers(channels, c);
      Modify(c, EdgeTriggeredOnly);
      if c.socket.acceptor {
        AddNewConnections(ev.accepts);
        NewChannels(old(channels), channels, Admitted(ev.accepts));
        return;
      }
      if ev.terminate {
        Remove(c);
        return;
      }
      if ev.read {
        match ev.reply {
        case PeerClosed =>
          Remove(c);
          return;
        case Reply(items) =>
          if items != [] {
            Modify(c, WriteOnly);
            EnqueueItem(c, items, !items[0].Pending?);
          } else {
            assert c.modes == old(c.modes) + [EdgeTriggeredOnly] + [];
          }
        }
      } else {
        assert c.modes == old(c.modes) + [EdgeTriggeredOnly] + [];
      }
      assert c.State() == Prepared(ev, s0);
      if ev.write {
        ghost var d := EventDrain(ev, s0);
        ProcessWrite(c, ev.kernel);
        assert c.State() == ChannelState(d.queue, d.sent, d.masks);
        ChannelsAfterMembers(old(channels), c, d.status);
      }
    }

    /**
     * `run`: with no channels it returns at once; otherwise it handles the
     * events of one `Wait`, in order. epoll reports each channel at most
     * once per wait, and at most as many events as there are channels.
     * Each event's channel ends as `AfterEvent` says and stays listed
     * exactly when the event did not remove it; every other channel that
     * was listed stays listed and untouched; every channel that appears is
     * a new connection admitted by an acceptor event; the trace only grows.
     */
    method Run(events: seq<Event>)
      requires Valid() && |events| <= |channels|
      requires forall i :: 0 <= i < |events| ==> events[i].context in channels
      requires forall i, j :: 0 <= i < j < |events| ==> events[i].context != events[j].context
      requires forall i :: 0 <= i < |events| ==> Sound(events[i].kernel)
      requires forall i :: 0 <= i < |events| ==>
                 events[i].context.socket.acceptor ==> NoMore in events[i].accepts
      modifies this, set i | 0 <= i < |events| :: events[i].context
      ensures Valid()
      ensures old(channels) == [] ==> channels == [] && trace == old(trace)
      ensures old(trace) <= trace
      ensures forall i :: 0 <= i < |events| ==>
                Settled(events[i], old(events[i].context.socket.acceptor), old(events[i].context.State()), channels)
      ensures forall c :: c in old(channels) && (forall i :: 0 <= i < |events| ==> events[i].context != c) ==>
                c in channels
      ensures forall c :: c in channels && c !in old(channels) ==>
                && fresh(c) && NewConnection(c)
                && exists i :: 0 <= i < |events| && old(events[i].context.socket.acceptor) && c.socket in Admitted(events[i].accepts)
    {
      if |channels| == 0 {
        return;
      }
      ghost var before := seq(|events|, j requires 0 <= j < |events| reads if 0 <= j < |events| then {events[j].context} else {} => events[j].context.State());
      ghost var acceptors := seq(|events|, j requires 0 <= j < |events| reads if 0 <= j < |events| then {events[j].context} else {} => events[j].context.socket.acceptor);
      ghost var base := channels;
      var i := 0;
      while i < |events|
        invariant 0 <= i <= |events| && Valid() && old(trace) <= trace
        invariant forall j :: 0 <= j < |events| ==>
                    before[j] == old(events[j].context.State()) && acceptors[j] == old(events[j].context.socket.acceptor)
        invariant forall j :: 0 <= j < |events| ==> events[j].context.socket.acceptor == acceptors[j]
        invariant forall j :: i <= j < |events| ==> events[j].context in channels && events[j].context.State() == before[j]
        invariant forall j :: 0 <= j < i ==> Settled(events[j], acceptors[j], before[j], channels)
        invariant forall c :: c in base && (forall j :: 0 <= j < i ==> events[j].context != c) ==> c in channels
        invariant forall c :: c in channels && c !in base ==>
                    NewConnection(c) && exists j :: 0 <= j < i && acceptors[j] && c.socket in Admitted(events[j].accepts)
        invariant forall c :: c in channels && c !in base ==> fresh(c)
      {
        HandleNext(events, i, base, acceptors, before);
        i := i + 1;
      }
    }

    /**
     * One turn of `run`'s loop over the events of a wait, in terms of the
     * state each event's channel had before the loop (`before`): the
     * `i`-th event's channel settles as `AfterEvent` says, the channels
     * of earlier events keep what they settled to, and all channels that
     * appear are new connections.
     */
    method HandleNext(events: seq<Event>, i: nat, ghost base: seq<Channel>, ghost acceptors: seq<bool>, ghost before: seq<ChannelState>)
      requires i < |events| == |acceptors| == |before| && Valid()
      requires forall j :: 0 <= j < |events| ==> events[j].context in base && Sound(events[j].kernel)
      requires forall j, k :: 0 <= j < k < |events| ==> events[j].context != events[k].context
      requires forall j :: 0 <= j < |events| ==>
                 events[j].context.socket.acceptor == acceptors[j] && (acceptors[j] ==> NoMore in events[j].accepts)
      requires forall j :: i <= j < |events| ==> events[j].context in channels && events[j].context.State() == before[j]
      requires forall j :: 0 <= j < i ==> Settled(events[j], acceptors[j], before[j], channels)
      requires forall c :: c in base && (forall j :: 0 <= j < i ==> events[j].context != c) ==> c in channels
      requires forall c :: c in channels && c !in base ==>
                 NewConnection(c) && exists j :: 0 <= j < i && acceptors[j] && c.socket in Admitted(events[j].accepts)
      modifies this, events[i].context
      ensures Valid() && old(trace) <= trace
      ensures forall j :: 0 <= j < |events| ==> events[j].context.socket.acceptor == acceptors[j]
      ensures forall j :: i + 1 <= j < |events| ==> events[j].context in channels && events[j].context.State() == before[j]
      ensures forall j :: 0 <= j < i + 1 ==> Settled(events[j], acceptors[j], before[j], channels)
      ensures forall c :: c in base && (forall j :: 0 <= j < i + 1 ==> events[j].context != c) ==> c in channels
      ensures forall c :: c in channels && c !in base ==>
                NewConnection(c) && exists j :: 0 <= j < i + 1 && acceptors[j] && c.socket in Admitted(events[j].accepts)
      ensures forall c :: c in channels && c !in old(channels) ==> fresh(c)
    {
      var ev := events[i];
      HandleEvent(ev);
      forall j | 0 <= j < i
        ensures Settled(events[j], acceptors[j], before[j], channels)
      {
        assert events[j].context != ev.context;
      }
    }
  }

  /**
   * The public `scheduler`: a handle to the implementation object. Moving
   * one hands the implementation over and leaves the source empty.
   */
  class SchedulerHandle {
    var impl: Scheduler?

    constructor (impl: Scheduler?)
      ensures this.impl == impl
    {
      this.impl := impl;
    }

    /**
     * `operator=(scheduler&&)`: from another handle, take its
     * implementation and leave it null; self-assignment changes nothing.
     * The implementation held before is dropped, not destroyed.
     */
    method MoveAssign(other: SchedulerHandle)
      modifies this, other
      ensures other == this ==> impl == old(impl)
      ensures other != this ==> impl == old(other.impl) && other.impl == null
    {
      if this != other {
        impl := other.impl;
        other.impl := null;
      }
    }

    /** `scheduler(scheduler&&)`: `*this = std::move(other)`. */
    constructor Moved(other: SchedulerHandle)
      modifies other
      ensures impl == old(other.impl) && other.impl == null
    {
      impl := null;
      new;
      MoveAssign(other);
    }

    /** `run()`: forwards to the implementation. */
    method Run(events: seq<Event>)
      requires impl != null && impl.Valid() && |events| <= |impl.channels|
      requires forall i :: 0 <= i < |events| ==> events[i].context in impl.channels
      requires forall i, j :: 0 <= i < j < |events| ==> events[i].context != events[j].context
      requires forall i :: 0 <= i < |events| ==> Sound(events[i].kernel)
      requires forall i :: 0 <= i < |events| ==>
                 events[i].context.socket.acceptor ==> NoMore in events[i].accepts
      modifies impl, set i | 0 <= i < |events| :: events[i].context
      ensures impl == old(impl) && impl.Valid() && old(impl.trace) <= impl.trace
      ensures forall i :: 0 <= i < |events| ==>
                Settled(events[i], old(events[i].context.socket.acceptor), old(events[i].context.State()), impl.channels)
      ensures forall c :: c in old(impl.channels) && (forall i :: 0 <= i < |events| ==> events[i].context != c) ==>
                c in impl.channels
      ensures forall c :: c in impl.channels && c !in old(impl.channels) ==>
                && fresh(c) && NewConnection(c)
                && exists i :: 0 <= i < |events| && old(events[i].context.socket.acceptor) && c.socket in Admitted(events[i].accepts)
    {
      impl.Run(events);
    }
  }
}
