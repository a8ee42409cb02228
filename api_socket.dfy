/**
 * The earlier-generation `IO::Socket` (src/api/io/socket/socket.h):
 * descriptor ownership under move construction and move assignment, and
 * the result classification of `ReadSome`, `Read` and `Write`. System
 * calls are parameters; `Close()` is not part of this model beyond the
 * effect stated on the method below.
 */
module ApiSocket {
  import opened Base
  import TcpSocket

  /** The exception types thrown: the socket's own two and `std::runtime_error`. */
  datatype Error = WriteError | ConnectionClosedByPeer | RuntimeError

  datatype Outcome<T> = Returned(value: T) | Raised(error: Error)

  /** A descriptor-owning socket; `fd == -1` means it owns nothing. */
  class Socket {
    var fd: int
    var port: int
    var address: seq<Byte>
    var connection: bool
    /** Descriptors this object has released through `Close()`, oldest first. */
    ghost var closed: seq<int>

    constructor (fd: int, port: int, address: seq<Byte>, connection: bool)
      ensures this.fd == fd && this.port == port && this.address == address && this.connection == connection
      ensures closed == []
    {
      this.fd, this.port, this.address, this.connection := fd, port, address, connection;
      closed := [];
    }

    /** Releases the descriptor held, if any, and leaves the object owning nothing. */
    method Close()
      modifies this
      ensures fd == -1
      ensures closed == old(closed) + (if old(fd) != -1 then [old(fd)] else [])
      ensures port == old(port) && address == old(address) && connection == old(connection)
    {
      if fd != -1 {
        closed := closed + [fd];
      }
      fd := -1;
    }

    /**
     * `operator=(Socket&&)`: from a different object, release what this one
     * holds, take over all four fields, and leave `other` owning nothing;
     * self-assignment changes nothing.
     */
    method MoveAssign(other: Socket)
      modifies this, other
      ensures other == this ==> fd == old(fd) && port == old(port) && address == old(address)
                                && connection == old(connection) && closed == old(closed)
      ensures other != this ==>
                && fd == old(other.fd) && port == old(other.port)
                && address == old(other.address) && connection == old(other.connection)
                && other.fd == -1
                && other.port == old(other.port) && other.address == old(other.address)
                && other.connection == old(other.connection) && other.closed == old(other.closed)
                && closed == old(closed) + (if old(fd) != -1 then [old(fd)] else [])
    {
      if this != other {
        Close();
        fd := other.fd;
        port := other.port;
        address := other.address;
        connection := other.connection;
        other.fd := -1;
      }
    }

    /**
     * `Socket(Socket&&)`: starts owning nothing and move-assigns, so the new
     * object holds what `other` held, nothing is closed, and `other` is left
     * owning nothing: at most one of the two holds a descriptor.
     */
    constructor Moved(other: Socket)
      modifies other
      ensures fd == old(other.fd) && port == old(other.port)
      ensures address == old(other.address) && connection == old(other.connection)
      ensures other.fd == -1 && closed == []
      ensures other.closed == old(other.closed)
    {
      fd := -1;
      port := 0;
      address := [];
      connection := false;
      closed := [];
      new;
      MoveAssign(other);
    }
  }

  /**
   * `ReadSome`: `AvailableToRead()` (None when it throws, which is passed
   * on), a buffer of that size, one `::read`; any count other than the
   * number available throws `std::runtime_error`.
   */
  function ReadSome(available: Option<nat>, call: TcpSocket.ReadCall): (r: Outcome<seq<Byte>>)
    requires available.Some? && call.Delivered? ==> |call.bytes| <= available.value
    ensures available.None? ==> r == Raised(RuntimeError)
    ensures available.Some? ==>
              (r.Raised? <==> !(call.Delivered? && |call.bytes| == available.value))
    ensures r.Raised? ==> r.error == RuntimeError
    ensures r.Returned? ==> call.Delivered? && r.value == call.bytes
  {
    match available
    case None => Raised(RuntimeError)
    case Some(n) =>
      var result := Zeros(n);
      match call
      case ReadFailed(_) => Raised(RuntimeError)
      case Delivered(bytes) =>
        if |bytes| != n then Raised(RuntimeError) else Returned(CopyInto(result, bytes))
  }

  /**
   * `Read(size)`: a zero-byte read throws `ConnectionClosedByPeer`; -1 with
   * EAGAIN/EWOULDBLOCK returns the `size`-byte buffer as it is, -1 with any
   * other errno throws `std::runtime_error`; a short read is resized to
   * the count read.
   */
  function Read(size: nat, call: TcpSocket.ReadCall): (r: Outcome<seq<Byte>>)
    requires call.Delivered? ==> |call.bytes| <= size
    ensures r == Raised(ConnectionClosedByPeer) <==> call == TcpSocket.Delivered([])
    ensures r == Raised(RuntimeError) <==> call.ReadFailed? && !TcpSocket.WouldBlock(call.errno)
    ensures r.Raised? ==> r.error != WriteError
    ensures call.ReadFailed? && TcpSocket.WouldBlock(call.errno) ==> r == Returned(Zeros(size))
    ensures call.Delivered? && |call.bytes| > 0 ==> r == Returned(call.bytes)
  {
    var result := Zeros(size);
    match call
    case Delivered(bytes) =>
      if |bytes| == 0 then Raised(ConnectionClosedByPeer)
      else if |bytes| != size then
        ReadThenResize(size, bytes);
        Returned(Resize(CopyInto(result, bytes), |bytes|))
      else
        var full := CopyInto(result, bytes);
        assert full == full[..|bytes|];
        Returned(full)
    case ReadFailed(errno) =>
      if !TcpSocket.WouldBlock(errno) then Raised(RuntimeError) else Returned(result)
  }

  /**
   * `Write`: only -1 is inspected; with an errno other than
   * EAGAIN/EWOULDBLOCK it throws `WriteError` (the ECONNRESET and EPIPE
   * tests after it can never fire); otherwise it returns the count with -1
   * read as 0. Unlike `write_some`, a zero return never throws.
   */
  function Write(data: seq<Byte>, call: TcpSocket.SendCall): (r: Outcome<nat>)
    requires -1 <= call.ret <= |data|
    ensures r.Raised? <==> call.ret == -1 && !TcpSocket.WouldBlock(call.errno)
    ensures r.Raised? ==> r.error == WriteError
    ensures r.Returned? ==> r.value == if call.ret == -1 then 0 else call.ret
  {
    var peerClosed: Outcome<nat> := Raised(ConnectionClosedByPeer);
    if call.ret == -1 && !TcpSocket.WouldBlock(call.errno) then Raised(WriteError)
    else if call.ret == -1 && call.errno == TcpSocket.ECONNRESET then peerClosed
    else if call.ret == -1 && call.errno == TcpSocket.EPIPE then peerClosed
    else Returned(if call.ret == -1 then 0 else call.ret)
  }

  /**
   * The two generations disagree on a zero-byte send: `write_some` throws
   * unless errno says would-block, `Write` returns 0. On every other
   * sound input they agree.
   */
  lemma WriteAgreesWithWriteSome(data: seq<Byte>, call: TcpSocket.SendCall)
    requires -1 <= call.ret <= |data|
    ensures call.ret != 0 ==>
              (Write(data, call).Returned? <==> TcpSocket.WriteSome(data, call).Returned?)
    ensures call.ret != 0 && Write(data, call).Returned? ==>
              Write(data, call).value == TcpSocket.WriteSome(data, call).value
    ensures call.ret == 0 && !TcpSocket.WouldBlock(call.errno) ==>
              Write(data, call) == Returned(0) && TcpSocket.WriteSome(data, call).Raised?
  {
  }
}
