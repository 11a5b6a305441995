/**
 Internet packets (src/ip.cc): a header of 20 bytes with its own checksum, and the data. The
 receiver looks at the checksum, the protocol and the source; it reads neither the total length
 nor the destination.
 */
module Ip {
  import opened Machine
  import opened Checksum
  import opened NetBuffer

  const HEADER := 20

  /** is_broadcast, with the subnet mask 255.255.255.0 that the system sets. */
  predicate Broadcast(ip: nat) {
    ip == 0xffff_ffff || ip == 0 || ip % 256 == 255
  }

  /** The last byte decides, and the two special addresses. */
  lemma BroadcastExact(a: nat, b: nat, c: nat, e: nat)
    requires a < 256 && b < 256 && c < 256 && e < 256
    ensures var ip := 0x100_0000 * a + 0x1_0000 * b + 0x100 * c + e;
            Broadcast(ip) <==> e == 255 || (a == 0 && b == 0 && c == 0 && e == 0)
  {
  }

  /** check_ip: neither broadcast nor the sender itself. */
  predicate Addressable(own: nat, ip: nat) {
    !Broadcast(ip) && ip != own
  }

  /** The header with a cleared checksum field: version 4, five words, no fragments, time to live 32. */
  function Header(total: nat, id: nat, protocol: byte, src: nat, dst: nat): (r: seq<byte>)
    requires total < 65536 && id < 65536 && src < TWO32 && dst < TWO32
    ensures |r| == HEADER
  {
    [0x45, 0] + Be16(total) + Be16(id) + [0, 0, 32, protocol, 0, 0] + Be32(src) + Be32(dst)
  }

  ghost function Packet(id: nat, protocol: byte, src: nat, dst: nat, data: seq<byte>): (r: seq<byte>)
    requires |data| + HEADER < 65536 && id < 65536 && src < TWO32 && dst < TWO32
    ensures |r| == HEADER + |data|
  {
    var header := Header(|data| + HEADER, id, protocol, src, dst);
    Filled(header, 10, Spec(header)) + data
  }

  /** transmit, up to the hand-over to Ethernet: None when the destination is refused or no buffer holds the packet. */
  method Transmit(own: nat, dst: nat, id: nat, protocol: byte, data: seq<byte>) returns (packet: Option<seq<byte>>)
    requires own < TWO32 && dst < TWO32 && id < 65536
    ensures packet == if Addressable(own, dst) && |data| + HEADER <= LARGE
                      then Some(Packet(id, protocol, own, dst, data)) else None
  {
    var total := |data| + HEADER;
    if Broadcast(dst) || dst == own || total > LARGE {
      return None;
    }
    var buffer := new NetBuf(total);
    var header := Header(total, id, protocol, own, dst);
    CheckSumExact(header);
    var c := CheckSum(header);
    header := Filled(header, 10, c);
    var r := buffer.Append(header);
    assert buffer.data == header;
    r := buffer.Append(data);
    packet := Some(buffer.data);
  }

  /** What the upper layers are given. */
  datatype Arrival = Arrival(protocol: byte, src: nat, data: seq<byte>)

  /** receive: a header that checks to zero lets everything behind it through. */
  method Receive(buf: seq<byte>) returns (got: Option<Arrival>)
    requires |buf| >= HEADER
    ensures got == if Spec(buf[..HEADER]) == 0 then Some(Arrival(buf[9], FromBe32(buf[12..16]), buf[HEADER..])) else None
  {
    var header := buf[..HEADER];
    CheckSumExact(header);
    var c := CheckSum(header);
    if c != 0 {
      return None;
    }
    return Some(Arrival(buf[9], FromBe32(buf[12..16]), buf[HEADER..]));
  }

  /** Every field of a packet at its place in the header (section 3.1 of RFC 791), and that it checks at the other end. */
  lemma PacketReads(id: nat, protocol: byte, src: nat, dst: nat, data: seq<byte>)
    requires |data| + HEADER < 65536 && id < 65536 && src < TWO32 && dst < TWO32
    ensures var p := Packet(id, protocol, src, dst, data);
            && Spec(p[..20]) == 0 && p[0] == 0x45 && p[1] == 0 && FromBe16(p[2..4]) == |data| + 20 && FromBe16(p[4..6]) == id
            && p[6] == 0 && p[7] == 0 && p[8] == 32 && p[9] == protocol
            && FromBe32(p[12..16]) == src && FromBe32(p[16..20]) == dst && p[20..] == data
  {
    var header := Header(|data| + HEADER, id, protocol, src, dst);
    var p := Packet(id, protocol, src, dst, data);
    FilledChecks(header, 10);
    assert p[..HEADER] == Filled(header, 10, Spec(header));
    assert p[2..4] == header[2..4] == Be16(|data| + HEADER);
    assert p[4..6] == header[4..6] == Be16(id);
    assert p[12..16] == header[12..16] == Be32(src);
    assert p[16..20] == header[16..20] == Be32(dst);
    assert p[HEADER..] == data;
  }
}
