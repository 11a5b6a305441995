/**
 Ethernet frames (src/ethernet.cc): a header of two addresses and a protocol number, and data
 that is padded with zeros to 46 bytes. Nothing in a frame says where the padding starts.
 */
module Ethernet {
  import opened Machine
  import opened NetBuffer

  const HEADER := 14
  const LEAST := 46

  /** A hardware address. */
  type Mac = m: seq<byte> | |m| == 6 witness [0, 0, 0, 0, 0, 0]

  function Padded(data: seq<byte>): (r: seq<byte>)
    ensures |r| == (if |data| < LEAST then LEAST else |data|) && data <= r
  {
    if |data| < LEAST then data + Zeros(LEAST - |data|) else data
  }

  function Header(dst: Mac, src: Mac, proto: nat): (r: seq<byte>)
    requires proto < 65536
    ensures |r| == HEADER
  {
    dst + src + Be16(proto)
  }

  /** transmit: the frame for the card, or None when it goes to the sender itself or no buffer holds it. */
  method Transmit(own: Mac, dst: Mac, proto: nat, data: seq<byte>) returns (frame: Option<seq<byte>>)
    requires proto < 65536
    ensures frame == if dst != own && |Padded(data)| + HEADER <= LARGE then Some(Header(dst, own, proto) + Padded(data)) else None
  {
    var length := |data|;
    if length < LEAST {
      length := LEAST;
    }
    if dst == own || length + HEADER > LARGE {
      return None;
    }
    var buf := new NetBuf(length + HEADER);
    var r := buf.Append(Header(dst, own, proto));
    r := buf.Append(data);
    assert buf.data == Header(dst, own, proto) + data;
    if length > |data| {
      r := buf.AppendZero(length - |data|);
      assert buf.data == Header(dst, own, proto) + (data + Zeros(length - |data|));
    }
    frame := Some(buf.data);
  }

  /**
   receive, for the frames a card delivers, which are no shorter than the least frame: the
   protocol number and all that follows the header, padding included.
   */
  method Receive(frame: seq<byte>) returns (got: Option<(nat, seq<byte>)>)
    requires |frame| >= HEADER + LEAST
    ensures got == if |frame| <= LARGE then Some((FromBe16(frame[12..14]), frame[HEADER..])) else None
  {
    if |frame| > LARGE {
      return None;
    }
    var buf := new NetBuf(|frame|);
    var r := buf.Append(frame);
    assert buf.data == frame;
    var proto := FromBe16(buf.data[12..14]);
    r := buf.PopFront(HEADER);
    return Some((proto, buf.data));
  }

  /** The two addresses in a frame, its protocol number, and its data with the padding. */
  lemma FrameReads(dst: Mac, src: Mac, proto: nat, data: seq<byte>)
    requires proto < 65536
    ensures var frame := Header(dst, src, proto) + Padded(data);
            && |frame| >= HEADER + LEAST && frame[0..6] == dst && frame[6..12] == src
            && FromBe16(frame[12..14]) == proto && frame[14..] == Padded(data)
  {
    var frame := Header(dst, src, proto) + Padded(data);
    assert frame[0..6] == dst && frame[6..12] == src && frame[12..14] == Be16(proto);
    assert frame[HEADER..] == Padded(data);
  }
}
