/**
 * Shared vocabulary: bytes, an Option type, and the std::vector buffer
 * operations (value-initialised resize) that the socket readers rely on.
 */
module Base {

  /** One octet, as `char`/`unsigned char` in the C++ sources. */
  type Byte = b: int | 0 <= b < 256

  datatype Option<+T> = None | Some(value: T)

  /** `n` value-initialised bytes, as `std::vector<char>(n)` or `resize(n)` on an empty buffer. */
  function Zeros(n: nat): (r: seq<Byte>)
    ensures |r| == n
    ensures forall i :: 0 <= i < n ==> r[i] == 0
  {
    if n == 0 then [] else Zeros(n - 1) + [0]
  }

  /** `buf.resize(n)`: truncate, or extend with value-initialised bytes. */
  function Resize(buf: seq<Byte>, n: nat): (r: seq<Byte>)
    ensures |r| == n
    ensures forall i :: 0 <= i < n && i < |buf| ==> r[i] == buf[i]
    ensures forall i :: |buf| <= i < n ==> r[i] == 0
  {
    if n <= |buf| then buf[..n] else buf + Zeros(n - |buf|)
  }

  /** What `::read(fd, &buf.front(), ...)` leaves in `buf` after delivering `bytes`. */
  function CopyInto(buf: seq<Byte>, bytes: seq<Byte>): (r: seq<Byte>)
    requires |bytes| <= |buf|
    ensures |r| == |buf|
    ensures r[..|bytes|] == bytes
    ensures r[|bytes|..] == buf[|bytes|..]
  {
    bytes + buf[|bytes|..]
  }

  /** Reading `bytes` into a fresh buffer and then resizing to the count read yields exactly `bytes`. */
  lemma ReadThenResize(size: nat, bytes: seq<Byte>)
    requires |bytes| <= size
    ensures Resize(CopyInto(Zeros(size), bytes), |bytes|) == bytes
  {
  }
}
