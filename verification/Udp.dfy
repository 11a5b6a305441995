/**
 UDP (src/udp.cc), and the way of a datagram through the layers below it.

 A datagram is built behind a pseudo header in a network buffer, its checksum field is filled, and
 the pseudo header is dropped; the receiver rebuilds the pseudo header from the addresses it knows
 and lets the datagram through when the whole checks to zero. It passes on everything behind the
 header, including what Ethernet has padded.
 */
module Udp {
  import opened Machine
  import opened Checksum
  import opened NetBuffer
  import Ethernet
  import Ip

  const PROTO_IP: nat := 0x0800
  const PSEUDO := 12
  const HEADER := 8
  const PROTO_UDP: byte := 17

  datatype Delivery = Delivery(srcPort: nat, dstPort: nat, payload: seq<byte>)

  function Pseudo(srcIp: nat, dstIp: nat, total: nat): (r: seq<byte>)
    requires srcIp < TWO32 && dstIp < TWO32 && total < 65536
    ensures |r| == PSEUDO
  {
    Be32(srcIp) + Be32(dstIp) + [0, PROTO_UDP] + Be16(total)
  }

  /** The pseudo header, field by field. */
  lemma PseudoFields(srcIp: nat, dstIp: nat, total: nat)
    requires srcIp < TWO32 && dstIp < TWO32 && total < 65536
    ensures var p := Pseudo(srcIp, dstIp, total);
            && FromBe32(p[0..4]) == srcIp && FromBe32(p[4..8]) == dstIp && p[8] == 0 && p[9] == 17
            && FromBe16(p[10..12]) == total
  {
    var p := Pseudo(srcIp, dstIp, total);
    assert p[0..4] == Be32(srcIp) && p[4..8] == Be32(dstIp) && p[10..12] == Be16(total);
  }

  /** The header with a cleared checksum field. */
  function Header(srcPort: nat, dstPort: nat, total: nat): (r: seq<byte>)
    requires srcPort < 65536 && dstPort < 65536 && total < 65536
    ensures |r| == HEADER
  {
    Be16(srcPort) + Be16(dstPort) + Be16(total) + [0, 0]
  }

  /** The datagram that carries the payload, with its checksum. */
  ghost function Datagram(srcIp: nat, dstIp: nat, srcPort: nat, dstPort: nat, data: seq<byte>): seq<byte>
    requires srcIp < TWO32 && dstIp < TWO32 && srcPort < 65536 && dstPort < 65536 && |data| + HEADER < 65536
  {
    var total := |data| + HEADER;
    var whole := Pseudo(srcIp, dstIp, total) + Header(srcPort, dstPort, total) + data;
    Filled(whole, PSEUDO + 6, Spec(whole))[PSEUDO..]
  }

  /** The length field: 16 bits. */
  function Total(len: nat): (t: nat)
    ensures t < 65536 && (len + HEADER < 65536 ==> t == len + HEADER)
  {
    (len + HEADER) % 65536
  }

  /**
   transmit, up to the hand-over to IP: refused exactly when the length, cut to 16 bits, asks for
   more than the largest buffer; what is sent carries the payload exactly when it fits.
   */
  method Transmit(srcIp: nat, dstIp: nat, srcPort: nat, dstPort: nat, data: seq<byte>) returns (sent: Option<seq<byte>>)
    requires srcIp < TWO32 && dstIp < TWO32 && srcPort < 65536 && dstPort < 65536 && |data| + HEADER < TWO32
    ensures sent.None? <==> Total(|data|) + PSEUDO > LARGE
    ensures |data| + HEADER + PSEUDO <= LARGE ==> sent == Some(Datagram(srcIp, dstIp, srcPort, dstPort, data))
    ensures |data| + HEADER + PSEUDO > LARGE && sent.Some? ==> |sent.value| == HEADER && |data| + HEADER >= 65536
  {
    var total := Total(|data|);
    if total + PSEUDO > LARGE {
      return None;
    }
    var buffer := new NetBuf(total + PSEUDO);
    var r := buffer.Append(Pseudo(srcIp, dstIp, total));
    r := buffer.Append(Header(srcPort, dstPort, total));
    assert buffer.data == Pseudo(srcIp, dstIp, total) + Header(srcPort, dstPort, total);
    r := buffer.Append(data);
    CheckSumExact(buffer.data);
    var c := CheckSum(buffer.data);
    buffer.data := Filled(buffer.data, PSEUDO + 6, c);
    r := buffer.PopFront(PSEUDO);
    sent := Some(buffer.data);
  }

  /**
   What the check of a datagram covers: as many bytes from its start as its length field says,
   also past its end, or none when the buffer for the check cannot take them.
   */
  function Checked(buf: seq<byte>, after: seq<byte>): (r: seq<byte>)
    requires |buf| >= HEADER && |buf| + |after| >= LARGE
    ensures r <= buf + after && |r| < 65536
    ensures 256 * buf[4] as nat + buf[5] as nat <= |buf| <= 2036 ==> |r| == 256 * buf[4] as nat + buf[5] as nat
  {
    var total := FromBe16(buf[4..6]);
    if PSEUDO + total <= Room(PSEUDO + |buf|) then (buf + after)[..total] else []
  }

  /** It fits into a buffer, and checks to zero behind the pseudo header of the two addresses. */
  ghost predicate Accepts(buf: seq<byte>, after: seq<byte>, fromIp: nat, ownIp: nat)
    requires fromIp < TWO32 && ownIp < TWO32 && |buf| >= HEADER && |buf| + |after| >= LARGE
  {
    |buf| + PSEUDO <= LARGE && Spec(Pseudo(fromIp, ownIp, FromBe16(buf[4..6])) + Checked(buf, after)) == 0
  }

  /** Nothing that does not fit behind a pseudo header is accepted. */
  lemma TooLarge(buf: seq<byte>, after: seq<byte>, fromIp: nat, ownIp: nat)
    requires fromIp < TWO32 && ownIp < TWO32 && |buf| > 2036 && |buf| + |after| >= LARGE
    ensures !Accepts(buf, after, fromIp, ownIp)
  {
  }

  function Answer(buf: seq<byte>): Delivery
    requires |buf| >= HEADER
  {
    Delivery(FromBe16(buf[0..2]), FromBe16(buf[2..4]), buf[HEADER..])
  }

  /**
   receive: lets a datagram through exactly when it fits into a buffer and it checks, with the
   pseudo header of the two addresses, to zero; then it gives the ports and all that follows the
   header. `after` are the bytes that lie behind the datagram in memory.
   */
  method Receive(buf: seq<byte>, after: seq<byte>, fromIp: nat, ownIp: nat) returns (got: Option<Delivery>)
    requires fromIp < TWO32 && ownIp < TWO32 && |buf| >= HEADER && |buf| + |after| >= LARGE
    ensures got == if Accepts(buf, after, fromIp, ownIp) then Some(Answer(buf)) else None
  {
    var total := FromBe16(buf[4..6]);
    if PSEUDO + |buf| > LARGE {
      return None;
    }
    var buffer := new NetBuf(PSEUDO + |buf|);
    var r := buffer.Append(Pseudo(fromIp, ownIp, total));
    assert buffer.data == Pseudo(fromIp, ownIp, total);
    if buffer.left >= total {
      r := buffer.Append((buf + after)[..total]);
    }
    assert buffer.data == Pseudo(fromIp, ownIp, total) + Checked(buf, after);
    CheckSumExact(buffer.data);
    var c := CheckSum(buffer.data);
    if c != 0 {
      return None;
    }
    return Some(Answer(buf));
  }

  lemma HeaderFields(srcPort: nat, dstPort: nat, total: nat, d: seq<byte>)
    requires srcPort < 65536 && dstPort < 65536 && total < 65536 && |d| >= HEADER
    requires forall i :: 0 <= i < 6 ==> d[i] == Header(srcPort, dstPort, total)[i]
    ensures FromBe16(d[0..2]) == srcPort && FromBe16(d[2..4]) == dstPort && FromBe16(d[4..6]) == total
  {
    assert d[0..2] == Be16(srcPort);
    assert d[2..4] == Be16(dstPort);
    assert d[4..6] == Be16(total);
  }

  /** What a datagram says of itself, and that it checks at the other end. */
  lemma DatagramChecks(srcIp: nat, dstIp: nat, srcPort: nat, dstPort: nat, data: seq<byte>)
    requires srcIp < TWO32 && dstIp < TWO32 && srcPort < 65536 && dstPort < 65536 && |data| + HEADER < 65536
    ensures var d, total := Datagram(srcIp, dstIp, srcPort, dstPort, data), |data| + HEADER;
            && |d| == |data| + 8 && FromBe16(d[0..2]) == srcPort && FromBe16(d[2..4]) == dstPort && FromBe16(d[4..6]) == total
            && d[8..] == data && Spec(Pseudo(srcIp, dstIp, total) + d[..total]) == 0
  {
    var total := |data| + HEADER;
    var pseudo, header := Pseudo(srcIp, dstIp, total), Header(srcPort, dstPort, total);
    var whole := pseudo + header + data;
    FilledChecks(whole, PSEUDO + 6);
    var filled, d := Filled(whole, PSEUDO + 6, Spec(whole)), Datagram(srcIp, dstIp, srcPort, dstPort, data);
    assert pseudo + d[..total] == filled;
    forall i | 0 <= i < 6 ensures d[i] == header[i] { assert filled[PSEUDO + i] == whole[PSEUDO + i]; }
    HeaderFields(srcPort, dstPort, total, d);
    assert d[HEADER..] == data;
  }

  const LEAST_PAYLOAD := 18        // fewer bytes are padded
  const MOST_PAYLOAD := 2006       // more bytes do not fit into Ethernet's buffer

  /** What arrives of a payload: Ethernet's padding cannot be told from data. */
  function Arrived(data: seq<byte>): (r: seq<byte>)
    ensures r == data <==> |data| >= LEAST_PAYLOAD
  {
    if |data| < LEAST_PAYLOAD then data + Zeros(LEAST_PAYLOAD - |data|) else data
  }

  /** Zeros up to 18 bytes. */
  lemma ArrivedForm(data: seq<byte>, i: nat)
    ensures |Arrived(data)| == (if |data| < 18 then 18 else |data|)
    ensures i < |Arrived(data)| ==> Arrived(data)[i] == if i < |data| then data[i] else 0
  {
  }

  /** The data of a packet together with the padding of the frame around it. */
  function Spread(d: seq<byte>): (r: seq<byte>)
    ensures |r| >= |d|
  {
    if |d| < LEAST_PAYLOAD + HEADER then d + Zeros(LEAST_PAYLOAD + HEADER - |d|) else d
  }

  /** A padded datagram still checks, and gives its ports and the padded payload. */
  lemma PaddedAccepted(srcIp: nat, dstIp: nat, srcPort: nat, dstPort: nat, data: seq<byte>, after: seq<byte>)
    requires srcIp < TWO32 && dstIp < TWO32 && srcPort < 65536 && dstPort < 65536
    requires |data| <= MOST_PAYLOAD && |after| >= LARGE
    ensures var buf := Spread(Datagram(srcIp, dstIp, srcPort, dstPort, data));
            && |buf| >= HEADER && Accepts(buf, after, srcIp, dstIp)
            && Answer(buf) == Delivery(srcPort, dstPort, Arrived(data))
  {
    DatagramChecks(srcIp, dstIp, srcPort, dstPort, data);
    var d := Datagram(srcIp, dstIp, srcPort, dstPort, data);
    var buf := Spread(d);
    assert buf[0..2] == d[0..2] && buf[2..4] == d[2..4] && buf[4..6] == d[4..6];
    assert (buf + after)[..|d|] == d[..|d|];
    assert buf[HEADER..] == Arrived(data);
  }

  // ---------------------------------------------------------------- the layers together

  /** The two ends of a transmission: addresses, and the hardware addresses that resolution has found. */
  datatype Ends = Ends(srcIp: nat, dstIp: nat, srcMac: Ethernet.Mac, dstMac: Ethernet.Mac) {
    predicate Valid() {
      srcIp < TWO32 && dstIp < TWO32
    }

    predicate Reachable() {
      Ip.Addressable(srcIp, dstIp) && dstMac != srcMac
    }
  }

  /** The frame around a datagram. */
  ghost function Framed(e: Ends, id: nat, d: seq<byte>): seq<byte>
    requires e.Valid() && id < 65536 && |d| <= LARGE
  {
    Ethernet.Header(e.dstMac, e.srcMac, PROTO_IP) + Ethernet.Padded(Ip.Packet(id, PROTO_UDP, e.srcIp, e.dstIp, d))
  }

  /** Every field the receiver looks at, and what it takes for the datagram. */
  lemma FramedReads(e: Ends, id: nat, d: seq<byte>)
    requires e.Valid() && id < 65536 && |d| <= LARGE
    ensures var f := Framed(e, id, d);
            && |f| >= Ethernet.HEADER + Ethernet.LEAST && |f| == 34 + |Spread(d)|
            && f[0..6] == e.dstMac && f[6..12] == e.srcMac && FromBe32(f[30..34]) == e.dstIp && FromBe16(f[16..18]) == |d| + 20
            && FromBe16(f[12..14]) == 0x0800 && Spec(f[14..34]) == 0 && f[23] == 17
            && FromBe32(f[26..30]) == e.srcIp && f[34..] == Spread(d)
  {
    var packet := Ip.Packet(id, PROTO_UDP, e.srcIp, e.dstIp, d);
    var f := Framed(e, id, d);
    Ethernet.FrameReads(e.dstMac, e.srcMac, PROTO_IP, packet);
    Ip.PacketReads(id, PROTO_UDP, e.srcIp, e.dstIp, d);
    assert f[14..][..20] == packet[..20] == f[14..34];
    assert f[26..30] == packet[12..16] && f[30..34] == packet[16..20] && f[16..18] == packet[2..4];
    assert f[34..] == f[14..][20..] == Spread(d);
  }

  /** The three layers of the sender: the frame that leaves, if one does. */
  method Send(e: Ends, id: nat, srcPort: nat, dstPort: nat, data: seq<byte>) returns (frame: Option<seq<byte>>)
    requires e.Valid() && id < 65536 && srcPort < 65536 && dstPort < 65536 && |data| + HEADER < TWO32
    ensures !e.Reachable() || (MOST_PAYLOAD < |data| && |data| + HEADER < 65536) ==> frame.None?
    ensures e.Reachable() && |data| <= MOST_PAYLOAD ==>
              frame == Some(Framed(e, id, Datagram(e.srcIp, e.dstIp, srcPort, dstPort, data)))
    ensures frame.Some? && |data| > MOST_PAYLOAD ==> exists d :: |d| == HEADER && frame.value == Framed(e, id, d)
  {
    var sent := Transmit(e.srcIp, e.dstIp, srcPort, dstPort, data);
    if sent.None? {
      return None;
    }
    var packet := Ip.Transmit(e.srcIp, e.dstIp, id, PROTO_UDP, sent.value);
    if packet.None? {
      return None;
    }
    frame := Ethernet.Transmit(e.srcMac, e.dstMac, PROTO_IP, packet.value);
  }

  /** The three layers of the receiver: each looks at its own fields, and nothing is cut off at the end. */
  method Deliver(frame: seq<byte>, after: seq<byte>, ownIp: nat) returns (got: Option<Delivery>)
    requires |frame| >= Ethernet.HEADER + Ethernet.LEAST && |after| >= LARGE && ownIp < TWO32
    ensures got == if && |frame| <= LARGE && FromBe16(frame[12..14]) == PROTO_IP
                      && Spec(frame[14..34]) == 0 && frame[23] == PROTO_UDP
                      && Accepts(frame[34..], after, FromBe32(frame[26..30]), ownIp)
                   then Some(Answer(frame[34..])) else None
  {
    got := None;
    var up := Ethernet.Receive(frame);
    if up.Some? && up.value.0 == PROTO_IP {
      var packet := up.value.1;
      assert packet[..20] == frame[14..34] && packet[12..16] == frame[26..30] && packet[20..] == frame[34..];
      var arrival := Ip.Receive(packet);
      if arrival.Some? && arrival.value.protocol == PROTO_UDP {
        got := Receive(arrival.value.data, after, arrival.value.src, ownIp);
      }
    }
  }

  /**
   Between two hosts, over a wire that carries every frame: a payload arrives as it was sent if
   and only if it has 18 to 2006 bytes. A shorter one arrives with zeros behind it, a longer one
   does not arrive, and one so long that its length wraps does not arrive as it was sent.
   */
  method SendAndReceive(e: Ends, id: nat, srcPort: nat, dstPort: nat, data: seq<byte>, after: seq<byte>)
    returns (got: Option<Delivery>)
    requires e.Valid() && id < 65536 && srcPort < 65536 && dstPort < 65536 && |data| + HEADER < TWO32 && |after| >= LARGE
    ensures !e.Reachable() || 2006 < |data| < 65528 ==> got.None?
    ensures e.Reachable() && |data| <= 2006 ==> got == Some(Delivery(srcPort, dstPort, Arrived(data)))
    ensures e.Reachable() ==> (got == Some(Delivery(srcPort, dstPort, data)) <==> 18 <= |data| <= 2006)
  {
    var frame := Send(e, id, srcPort, dstPort, data);
    if frame.None? {
      return None;
    }
    if |data| <= MOST_PAYLOAD {
      FramedReads(e, id, Datagram(e.srcIp, e.dstIp, srcPort, dstPort, data));
      PaddedAccepted(e.srcIp, e.dstIp, srcPort, dstPort, data, after);
    } else {
      ghost var d :| |d| == HEADER && frame.value == Framed(e, id, d);
      FramedReads(e, id, d);
    }
    got := Deliver(frame.value, after, e.dstIp);
  }

  /** One byte is sent and eighteen arrive. */
  method OneByte(e: Ends, srcPort: nat, dstPort: nat, after: seq<byte>) returns (got: Option<Delivery>)
    requires e.Valid() && e.Reachable() && srcPort < 65536 && dstPort < 65536 && |after| >= LARGE
    ensures got == Some(Delivery(srcPort, dstPort, [7] + Zeros(17)))
  {
    got := SendAndReceive(e, 0, srcPort, dstPort, [7], after);
  }

  /** 2010 bytes: transmit has a datagram and reports success, and no frame leaves. */
  method LostWithoutNotice(e: Ends, srcPort: nat, dstPort: nat) returns (sent: Option<seq<byte>>, frame: Option<seq<byte>>)
    requires e.Valid() && srcPort < 65536 && dstPort < 65536
    ensures sent.Some? && |sent.value| == 2018 && frame.None?
  {
    sent := Transmit(e.srcIp, e.dstIp, srcPort, dstPort, Zeros(2010));
    DatagramChecks(e.srcIp, e.dstIp, srcPort, dstPort, Zeros(2010));
    frame := Send(e, 0, srcPort, dstPort, Zeros(2010));
  }

  /** 65528 bytes: the length wraps to nothing, and a bare header is handed on. */
  method LengthWraps(srcIp: nat, dstIp: nat, srcPort: nat, dstPort: nat) returns (sent: Option<seq<byte>>)
    requires srcIp < TWO32 && dstIp < TWO32 && srcPort < 65536 && dstPort < 65536
    ensures sent.Some? && |sent.value| == HEADER
  {
    sent := Transmit(srcIp, dstIp, srcPort, dstPort, Zeros(65528));
  }

  /** A changed byte, the length field apart, is noticed exactly when the check covers it. */
  lemma DamageDetected(buf: seq<byte>, after: seq<byte>, fromIp: nat, ownIp: nat, j: nat, x: byte)
    requires fromIp < TWO32 && ownIp < TWO32 && |buf| >= HEADER && |buf| + |after| >= LARGE
    requires Accepts(buf, after, fromIp, ownIp) && j < |buf| && j != 4 && j != 5 && x != buf[j]
    ensures Accepts(buf[j := x], after, fromIp, ownIp) <==> j >= |Checked(buf, after)|
  {
    var pseudo, covered, bad := Pseudo(fromIp, ownIp, FromBe16(buf[4..6])), Checked(buf, after), buf[j := x];
    assert bad[4..6] == buf[4..6];
    assert bad + after == (buf + after)[j := x];
    if j < |covered| {
      OneByteDetected(pseudo + covered, PSEUDO + j, x);
      assert (pseudo + covered)[PSEUDO + j := x] == pseudo + Checked(bad, after);
    } else {
      assert Checked(bad, after) == covered;
    }
  }
}
