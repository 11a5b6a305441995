/** Network buffers (src/net_buf.cc): bytes are appended at the end while there is room; and network byte order. */
module NetBuffer {
  import opened Machine

  const SMALL := 240               // NET_BUF_DATA_SIZE
  const LARGE := 2048              // EXT_BUF_SIZE

  /** Network byte order. */
  function Be16(n: nat): (r: seq<byte>)
    requires n < 65536
    ensures |r| == 2 && FromBe16(r) == n == 256 * r[0] as nat + r[1] as nat
  {
    [(n / 256) as byte, (n % 256) as byte]
  }

  function FromBe16(b: seq<byte>): nat
    requires |b| == 2
  {
    256 * b[0] as nat + b[1] as nat
  }

  function Be32(n: nat): (r: seq<byte>)
    requires n < TWO32
    ensures |r| == 4 && FromBe32(r) == n
    ensures n == 0x100_0000 * r[0] as nat + 0x1_0000 * r[1] as nat + 0x100 * r[2] as nat + r[3] as nat
  {
    var r := Be16(n / 65536) + Be16(n % 65536);
    assert r[..2] == Be16(n / 65536) && r[2..] == Be16(n % 65536);
    r
  }

  function FromBe32(b: seq<byte>): (n: nat)
    requires |b| == 4
    ensures n < TWO32
  {
    65536 * FromBe16(b[..2]) + FromBe16(b[2..])
  }

  function Zeros(n: nat): (r: seq<byte>)
    ensures |r| == n
  {
    seq(n, _ => 0)
  }

  /** The room of the buffer that alloc_net_buffer gives for a length it does not refuse. */
  function Room(len: nat): nat {
    if len > SMALL then LARGE else SMALL
  }

  /** Up to 240 bytes fit behind the object itself; more take a buffer of 2048. */
  lemma RoomForm(len: nat)
    ensures Room(len) == if len <= 240 then 240 else 2048
  {
  }

  /** net_buf_t: what has been appended, and the room left; `data` starts after what was popped. */
  class NetBuf {
    var data: seq<byte>
    var left: nat

    constructor (len: nat)
      ensures data == [] && left == Room(len)
    {
      data, left := [], Room(len);
    }

    /** Refused without a trace when there is not room for all of it. */
    method Append(more: seq<byte>) returns (r: int)
      modifies this
      ensures old(left) < |more| ==> r < 0 && data == old(data) && left == old(left)
      ensures old(left) >= |more| ==> r == 0 && data == old(data) + more && left == old(left) - |more|
    {
      if left < |more| {
        return -1;
      }
      data, left := data + more, left - |more|;
      return 0;
    }

    /** append_zero. */
    method AppendZero(len: nat) returns (r: int)
      modifies this
      ensures old(left) < len ==> r < 0 && data == old(data) && left == old(left)
      ensures old(left) >= len ==> r == 0 && data == old(data) + Zeros(len) && left == old(left) - len
    {
      if left < len {
        return -1;
      }
      data, left := data + Zeros(len), left - len;
      return 0;
    }

    method PopFront(len: nat) returns (r: int)
      modifies this`data
      ensures |old(data)| < len ==> r < 0 && data == old(data)
      ensures |old(data)| >= len ==> r == 0 && data == old(data)[len..]
    {
      if |data| < len {
        return -1;
      }
      data := data[len..];
      return 0;
    }
  }
}
