/** The streaming staging buffer of ofi_net.h (struct ofi_byteq) and the
    buffered socket built from two of them (struct ofi_bsock).

    A byte queue is a fixed 9000-byte array with a usable `size` and two
    indices: bytes in [head, tail) are queued, bytes in [tail, size) are
    free. Nothing wraps around: the indices only return to 0 when the queue
    drains. */
module StagingBuffers {
  import opened Common

  type byte = bv8

  /** OFI_BYTEQ_SIZE, the capacity of the array behind every byte queue. */
  const OFI_BYTEQ_SIZE: nat := 9000

  /** The usable size ofi_byteq_init derives from the requested one: the
      request clamped into [0, OFI_BYTEQ_SIZE]. */
  function ClampedSize(requested: int): (s: nat)
    ensures s <= OFI_BYTEQ_SIZE
    ensures 0 <= requested <= OFI_BYTEQ_SIZE ==> s == requested
    ensures requested < 0 ==> s == 0
    ensures requested > OFI_BYTEQ_SIZE ==> s == OFI_BYTEQ_SIZE
  {
    if requested > OFI_BYTEQ_SIZE then OFI_BYTEQ_SIZE
    else if requested >= 0 then requested
    else 0
  }

  class ByteQueue {
    var size: nat
    var head: nat
    var tail: nat
    const data: array<byte>

    ghost predicate Valid()
      reads this
    {
      data.Length == OFI_BYTEQ_SIZE && head <= tail <= size <= OFI_BYTEQ_SIZE
    }

    /** The queued bytes, oldest first. */
    function Contents(): (c: seq<byte>)
      reads this, data
      requires Valid()
      ensures |c| == tail - head
    {
      data[head..tail]
    }

    /** ofi_byteq_init: an empty, zero-filled queue of the clamped size. */
    constructor (requested: int)
      ensures Valid() && fresh(data)
      ensures size == ClampedSize(requested) && head == 0 && tail == 0
      ensures Contents() == []
      ensures forall j :: 0 <= j < data.Length ==> data[j] == 0
    {
      size := ClampedSize(requested);
      head := 0;
      tail := 0;
      data := new byte[OFI_BYTEQ_SIZE](_ => 0);
    }

    /** ofi_byteq_discard: drops every queued byte and rewinds both indices. */
    method Discard()
      requires Valid()
      modifies this
      ensures Valid() && head == 0 && tail == 0 && size == old(size)
      ensures Contents() == []
    {
      head := 0;
      tail := 0;
    }

    /** ofi_byteq_readable: the number of queued bytes. */
    function Readable(): (n: nat)
      reads this, data
      requires Valid()
      ensures n == |Contents()|
      ensures n <= size
    {
      tail - head
    }

    /** ofi_byteq_writeable: the free room behind the queued bytes. The room
        before `head` freed by earlier reads is not counted. */
    function Writeable(): (n: nat)
      reads this
      requires Valid()
      ensures n + tail == size
      ensures n <= OFI_BYTEQ_SIZE - tail
    {
      size - tail
    }

    /** ofi_byteq_consume: drops the oldest `bytes` queued bytes; dropping all
        of them rewinds the queue. */
    method Consume(bytes: nat)
      requires Valid() && bytes <= Readable()
      modifies this
      ensures Valid() && size == old(size)
      ensures Contents() == old(Contents())[bytes..]
      ensures bytes == old(Readable()) ==> head == 0 && tail == 0
      ensures bytes != old(Readable()) ==> head == old(head) + bytes && tail == old(tail)
    {
      if bytes == Readable() {
        Discard();
      } else {
        head := head + bytes;
      }
    }

    /** ofi_byteq_add: makes `bytes` bytes already placed after the tail part
        of the queue. */
    method Add(bytes: nat)
      requires Valid() && bytes <= Writeable()
      modifies this
      ensures Valid() && size == old(size) && head == old(head)
      ensures tail == old(tail) + bytes
      ensures Contents() == old(Contents()) + data[old(tail)..tail]
    {
      tail := tail + bytes;
    }

    /** ofi_byteq_read: copies out min(len, readable) of the oldest bytes and
        removes them from the queue; draining the queue rewinds it. */
    method Read(buf: array<byte>, len: nat) returns (n: nat)
      requires Valid() && buf != data && len <= buf.Length
      modifies this, buf
      ensures Valid() && size == old(size)
      ensures n == Min(len, old(Readable()))
      ensures buf[..n] == old(Contents())[..n] && buf[n..] == old(buf[..])[n..]
      ensures Contents() == old(Contents())[n..]
      ensures 0 < n == old(Readable()) ==> head == 0 && tail == 0
      ensures n < old(Readable()) || n == 0 ==> head == old(head) + n && tail == old(tail)
    {
      var avail := Readable();
      if avail == 0 {
        return 0;
      }
      if len < avail {
        CopyOut(buf, len);
        assert Contents()[..len] == data[head..head + len];
        head := head + len;
        return len;
      }
      CopyOut(buf, avail);
      Discard();
      return avail;
    }

    /** The memcpy out of the queue's storage. */
    method CopyOut(buf: array<byte>, n: nat)
      requires Valid() && buf != data && n <= buf.Length && head + n <= tail
      modifies buf
      ensures buf[..n] == data[head..head + n] && buf[n..] == old(buf[..])[n..]
    {
      forall j | 0 <= j < n {
        buf[j] := data[head + j];
      }
    }

    /** ofi_byteq_write: appends the first `len` bytes of `buf`; the caller
        must have checked there is room. */
    method Write(buf: array<byte>, len: nat)
      requires Valid() && buf != data && len <= buf.Length && len <= Writeable()
      modifies this, data
      ensures Valid() && size == old(size) && head == old(head) && tail == old(tail) + len
      ensures Contents() == old(Contents()) + buf[..len]
      ensures data[..old(tail)] == old(data[..tail])
    {
      forall j | 0 <= j < len {
        data[tail + j] := buf[j];
      }
      assert data[..tail] == old(data[..tail]);
      assert data[tail..tail + len] == buf[..len];
      assert data[head..tail] == old(Contents());
      assert data[head..tail + len] == data[head..tail] + data[tail..tail + len];
      Add(len);
    }
  }

  /** INVALID_SOCKET on POSIX systems. */
  const INVALID_SOCKET: int := -1
  const SIZE_MAX: SizeT := SIZE_MODULUS - 1
  const UINT32_MAX: nat := 0xFFFF_FFFF

  /** A socket with a send and a receive staging queue. */
  class BufferedSocket {
    var sock: int
    var zerocopySize: SizeT
    var asyncIndex: nat
    var doneIndex: nat
    const sq: ByteQueue
    const rq: ByteQueue

    ghost predicate Valid()
      reads this, sq, rq
    {
      sq != rq && sq.data != rq.data && sq.Valid() && rq.Valid()
    }

    /** ofi_bsock_init: no socket yet, both queues empty and sized from the
        requests, zero-copy off, and both async indices one below 0 so that
        the first asynchronous operation wraps to index 0. */
    constructor (sbufSize: int, rbufSize: int)
      ensures Valid() && fresh(sq) && fresh(rq) && fresh(sq.data) && fresh(rq.data)
      ensures sock == INVALID_SOCKET && zerocopySize == SIZE_MAX
      ensures asyncIndex == UINT32_MAX && doneIndex == UINT32_MAX
      ensures (asyncIndex + 1) % (UINT32_MAX + 1) == 0
      ensures sq.size == ClampedSize(sbufSize) && sq.Contents() == []
      ensures rq.size == ClampedSize(rbufSize) && rq.Contents() == []
    {
      sock := INVALID_SOCKET;
      sq := new ByteQueue(sbufSize);
      rq := new ByteQueue(rbufSize);
      zerocopySize := SIZE_MAX;
      asyncIndex := UINT32_MAX;
      doneIndex := UINT32_MAX;
    }

    /** ofi_bsock_discard: empties both queues. */
    method Discard()
      requires Valid()
      modifies sq, rq
      ensures Valid()
      ensures sq.Contents() == [] && rq.Contents() == []
      ensures sq.size == old(sq.size) && rq.size == old(rq.size)
    {
      rq.Discard();
      sq.Discard();
    }

    /** ofi_bsock_readable: bytes received and not yet handed to the user. */
    function Readable(): (n: nat)
      reads this, sq, rq, rq.data
      requires Valid()
      ensures n == |rq.Contents()|
    {
      rq.Readable()
    }

    /** ofi_bsock_tosend: bytes staged and not yet sent. */
    function ToSend(): (n: nat)
      reads this, sq, rq, sq.data
      requires Valid()
      ensures n == |sq.Contents()|
    {
      sq.Readable()
    }
  }
}
