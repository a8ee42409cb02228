/**
 * Result classification of `io::tcp_socket::read_some` and `write_some`
 * (src/io/socket/socket.h): the system call's return value and `errno`
 * are mapped to a returned value or to one of the socket's exception
 * types. The system calls themselves are parameters.
 */
module TcpSocket {
  import opened Base

  /** Linux errno values named by the source. */
  const EAGAIN: int := 11
  const EWOULDBLOCK: int := 11
  const EPIPE: int := 32
  const ECONNRESET: int := 104

  predicate WouldBlock(errno: int) {
    errno == EAGAIN || errno == EWOULDBLOCK
  }

  /** The exception types thrown by `tcp_socket`. */
  datatype Error = WriteError | ConnectionClosedByPeer

  /** A call either returns a value or throws. */
  datatype Outcome<T> = Returned(value: T) | Raised(error: Error)

  /** What `::read` did: delivered some bytes (possibly none), or returned -1 with `errno`. */
  datatype ReadCall = Delivered(bytes: seq<Byte>) | ReadFailed(errno: int)

  /** What `::send` did: its return value and the `errno` seen afterwards. */
  datatype SendCall = SendCall(ret: int, errno: int)

  /**
   * `read_some`: a buffer of `available` bytes is read into; a zero-byte
   * read throws, any other count resizes the buffer to that count, and a
   * failed read (-1) leaves the buffer at `available` value-initialised bytes.
   */
  function ReadSome(available: nat, call: ReadCall): (r: Outcome<seq<Byte>>)
    requires call.Delivered? ==> |call.bytes| <= available
    ensures r.Raised? <==> call == Delivered([])
    ensures r.Raised? ==> r.error == ConnectionClosedByPeer
    ensures call.Delivered? && r.Returned? ==> r.value == call.bytes
    ensures call.ReadFailed? ==> r.Returned? && r.value == Zeros(available)
  {
    var result := Zeros(available);
    match call
    case Delivered(bytes) =>
      if |bytes| == 0 then Raised(ConnectionClosedByPeer)
      else
        ReadThenResize(available, bytes);
        Returned(Resize(CopyInto(result, bytes), |bytes|))
    case ReadFailed(_) => Returned(result)
  }

  /**
   * `write_some`: a non-positive count with an errno other than
   * EAGAIN/EWOULDBLOCK throws `write_error`; the ECONNRESET and EPIPE
   * tests come after that test and can never fire; otherwise the count is
   * returned, with -1 read as 0.
   */
  function WriteSome(data: seq<Byte>, call: SendCall): (r: Outcome<nat>)
    requires -1 <= call.ret <= |data|
    ensures r.Raised? <==> call.ret <= 0 && !WouldBlock(call.errno)
    ensures r.Raised? ==> r.error == WriteError
    ensures r.Returned? ==> r.value <= |data|
    ensures r.Returned? && call.ret == -1 ==> r.value == 0
    ensures r.Returned? && call.ret >= 0 ==> r.value == call.ret
  {
    var peerClosed: Outcome<nat> := Raised(ConnectionClosedByPeer);
    if call.ret <= 0 && !WouldBlock(call.errno) then Raised(WriteError)
    else if call.ret <= 0 && call.errno == ECONNRESET then peerClosed
    else if call.ret <= 0 && call.errno == EPIPE then peerClosed
    else Returned(if call.ret == -1 then 0 else call.ret)
  }
}
