/** RTP headers, the two ways a packet leaves the server, and the receiver's view of both. */
module Rtp {
  import opened Bytes

  const RTP_VERSION := 2
  const RTP_PAYLOAD_TYPE_H264 := 96
  const RTP_PAYLOAD_TYPE_AAC := 97
  const RTP_HEADER_SIZE := 12

  type bit = x: int | 0 <= x < 2
  type uint2 = x: int | 0 <= x < 4
  type uint4 = x: int | 0 <= x < 0x10
  type uint7 = x: int | 0 <= x < 0x80

  datatype RtpHeader = RtpHeader(
    csrcLen: uint4, extension: bit, padding: bit, version: uint2,
    payloadType: uint7, marker: bit,
    seqNum: uint16, timestamp: uint32, ssrc: uint32)

  /** The twelve octets the packed C struct occupies on a little-endian host. */
  function MemoryImage(h: RtpHeader): (image: seq<byte>)
    ensures |image| == RTP_HEADER_SIZE
  {
    [h.csrcLen + 0x10 * h.extension + 0x20 * h.padding + 0x40 * h.version,
     h.payloadType + 0x80 * h.marker]
    + LittleEndian16(h.seqNum) + LittleEndian32(h.timestamp) + LittleEndian32(h.ssrc)
  }

  /** The header after the in-place htons/htonl calls before a send (and, again, after it). */
  function SwapOrder(h: RtpHeader): RtpHeader {
    h.(seqNum := Swap16(h.seqNum), timestamp := Swap32(h.timestamp), ssrc := Swap32(h.ssrc))
  }

  lemma SwapOrderTwice(h: RtpHeader)
    ensures SwapOrder(SwapOrder(h)) == h
  {
    Swap16Laws(h.seqNum);
    Swap32Laws(h.timestamp);
    Swap32Laws(h.ssrc);
  }

  /** What goes on the wire for one packet: the swapped header image, then the payload. */
  function PacketBytes(h: RtpHeader, payload: seq<byte>): seq<byte> {
    MemoryImage(SwapOrder(h)) + payload
  }

  /** The header n packets and a number of ticks later, with 16-bit and 32-bit wrap-around. */
  function Advance(h: RtpHeader, n: nat, ticks: nat): RtpHeader {
    h.(seqNum := (h.seqNum + n) % 0x1_0000, timestamp := (h.timestamp + ticks) % 0x1_0000_0000)
  }

  lemma AdvanceBy(h: RtpHeader, n: nat, ticks: nat)
    ensures Advance(h, n, ticks)
         == h.(seqNum := (h.seqNum + n) % 0x1_0000, timestamp := (h.timestamp + ticks) % 0x1_0000_0000)
  {}

  /** One packet on only the number moves; some ticks on only the timestamp. */
  lemma AdvanceOne(h: RtpHeader, ticks: nat)
    ensures Advance(h, 1, 0) == h.(seqNum := (h.seqNum + 1) % 0x1_0000)
    ensures Advance(h, 0, ticks) == h.(timestamp := (h.timestamp + ticks) % 0x1_0000_0000)
  {}

  lemma AdvanceTwice(h: RtpHeader, n: nat, t: nat, n': nat, t': nat)
    ensures Advance(Advance(h, n, t), n', t') == Advance(h, n + n', t + t')
    ensures Advance(h, 0, 0) == h
  {
    WrapAdd(h.seqNum, n, n', 0x1_0000);
    WrapAdd(h.timestamp, t, t', 0x1_0000_0000);
  }

  // ----- The receiver: RFC 3550 section 5.1 -----

  datatype Packet = Packet(header: RtpHeader, payload: seq<byte>)

  /** Octets to skip for a header extension (RFC 3550 section 5.3.1). */
  function ExtensionSize(h: RtpHeader, bytes: seq<byte>, at: nat): Option<nat> {
    if h.extension == 0 then Some(0)
    else if |bytes| < at + 4 then None
    else Some(4 + 4 * FromBigEndian16(bytes[at + 2], bytes[at + 3]))
  }

  /** Octets of padding, whose count is the last octet of the packet. */
  function PaddingSize(h: RtpHeader, bytes: seq<byte>): Option<nat> {
    if h.padding == 0 then Some(0)
    else if bytes == [] || bytes[|bytes| - 1] == 0 then None
    else Some(bytes[|bytes| - 1])
  }

  function ParseHeader(bytes: seq<byte>): RtpHeader
    requires |bytes| >= RTP_HEADER_SIZE
  {
    RtpHeader(
      bytes[0] % 0x10, bytes[0] / 0x10 % 2, bytes[0] / 0x20 % 2, bytes[0] / 0x40,
      bytes[1] % 0x80, bytes[1] / 0x80,
      FromBigEndian16(bytes[2], bytes[3]),
      FromBigEndian32(bytes[4], bytes[5], bytes[6], bytes[7]),
      FromBigEndian32(bytes[8], bytes[9], bytes[10], bytes[11]))
  }

  function ParsePacket(bytes: seq<byte>): Option<Packet> {
    if |bytes| < RTP_HEADER_SIZE then None else
      var h := ParseHeader(bytes);
      var fixed := RTP_HEADER_SIZE + 4 * h.csrcLen;
      match (ExtensionSize(h, bytes, fixed), PaddingSize(h, bytes))
      case (Some(ext), Some(pad)) =>
        if h.version != RTP_VERSION || |bytes| < fixed + ext + pad then None
        else Some(Packet(h, bytes[fixed + ext..|bytes| - pad]))
      case _ => None
  }

  /** The headers rtpHeaderInit sets up: version 2 and nothing optional. */
  predicate Plain(h: RtpHeader) {
    h.version == RTP_VERSION && h.csrcLen == 0 && h.extension == 0 && h.padding == 0
  }

  /** The image of a swapped header, octet by octet: each field is in network order. */
  lemma ImageInNetworkOrder(h: RtpHeader)
    ensures
      var image := MemoryImage(SwapOrder(h));
      && image[2..4] == BigEndian16(h.seqNum)
      && image[4..8] == BigEndian32(h.timestamp)
      && image[8..12] == BigEndian32(h.ssrc)
  {
    Swap16Laws(h.seqNum);
    Swap32Laws(h.timestamp);
    Swap32Laws(h.ssrc);
  }

  lemma FirstTwoOctets(h: RtpHeader, b0: byte, b1: byte)
    requires b0 == h.csrcLen + 0x10 * h.extension + 0x20 * h.padding + 0x40 * h.version
    requires b1 == h.payloadType + 0x80 * h.marker
    ensures b0 % 0x10 == h.csrcLen && b0 / 0x10 % 2 == h.extension
    ensures b0 / 0x20 % 2 == h.padding && b0 / 0x40 == h.version
    ensures b1 % 0x80 == h.payloadType && b1 / 0x80 == h.marker
  {
    DivMod(b0, h.extension + 2 * h.padding + 4 * h.version, h.csrcLen, 0x10);
    DivMod(b0, h.padding + 2 * h.version, h.csrcLen + 0x10 * h.extension, 0x20);
    DivMod(b0, h.version, h.csrcLen + 0x10 * h.extension + 0x20 * h.padding, 0x40);
    DivMod(b1, h.marker, h.payloadType, 0x80);
    DivMod(b0 / 0x10, h.padding + 2 * h.version, h.extension, 2);
    DivMod(b0 / 0x20, h.version, h.padding, 2);
  }

  /** The receiver reads back every field the server holds in host order. */
  lemma ParseHeaderInverse(h: RtpHeader, payload: seq<byte>)
    ensures ParseHeader(PacketBytes(h, payload)) == h
  {
    var b := PacketBytes(h, payload);
    var image := MemoryImage(SwapOrder(h));
    ImageInNetworkOrder(h);
    FirstTwoOctets(h, image[0], image[1]);
    assert b[2..4] == BigEndian16(h.seqNum) && b[4..8] == BigEndian32(h.timestamp)
           && b[8..12] == BigEndian32(h.ssrc) by {
      assert b[..RTP_HEADER_SIZE] == image;
      assert b[2..4] == image[2..4] && b[4..8] == image[4..8] && b[8..12] == image[8..12];
    }
    assert b[0] == image[0] && b[1] == image[1];
    HeaderFromSlices(h, b);
  }

  lemma HeaderFromSlices(h: RtpHeader, b: seq<byte>)
    requires |b| >= RTP_HEADER_SIZE
    requires b[2..4] == BigEndian16(h.seqNum)
    requires b[4..8] == BigEndian32(h.timestamp)
    requires b[8..12] == BigEndian32(h.ssrc)
    ensures FromBigEndian16(b[2], b[3]) == h.seqNum
    ensures FromBigEndian32(b[4], b[5], b[6], b[7]) == h.timestamp
    ensures FromBigEndian32(b[8], b[9], b[10], b[11]) == h.ssrc
  {}

  lemma PacketShape(h: RtpHeader, payload: seq<byte>)
    ensures |PacketBytes(h, payload)| == RTP_HEADER_SIZE + |payload|
    ensures PacketBytes(h, payload)[RTP_HEADER_SIZE..] == payload
  {}

  lemma ParsePacketInverse(h: RtpHeader, payload: seq<byte>)
    requires Plain(h)
    ensures ParsePacket(PacketBytes(h, payload)) == Some(Packet(h, payload))
  {
    ParseHeaderInverse(h, payload);
    PacketShape(h, payload);
    hide ParseHeader, PacketBytes;
    var b := PacketBytes(h, payload);
    assert b[RTP_HEADER_SIZE..|b|] == payload;
  }

  // ----- Interleaved framing: RFC 2326 section 10.12 -----

  datatype Chunk = Chunk(channel: byte, packet: seq<byte>)

  const DOLLAR: byte := 0x24

  /** '$', the channel and the length: the prefix holds only the low sixteen bits of it. */
  function Prefix(channel: byte, length: nat): (prefix: seq<byte>)
    ensures |prefix| == 4
  {
    [DOLLAR, channel, length / 0x100 % 0x100, length % 0x100]
  }

  function Interleaved(c: Chunk): seq<byte> {
    Prefix(c.channel, |c.packet|) + c.packet
  }

  function Stream(chunks: seq<Chunk>): seq<byte> {
    if chunks == [] then []
    else Stream(chunks[..|chunks| - 1]) + Interleaved(chunks[|chunks| - 1])
  }

  function Deframe(stream: seq<byte>): Option<seq<Chunk>> {
    if stream == [] then Some([])
    else if |stream| < 4 || stream[0] != DOLLAR then None
    else
      var n := FromBigEndian16(stream[2], stream[3]);
      if |stream| < 4 + n then None
      else match Deframe(stream[4 + n..])
        case None => None
        case Some(rest) => Some([Chunk(stream[1], stream[4..4 + n])] + rest)
  }

  /** A frame on the wire, octet by octet. */
  lemma FrameMeaning(c: Chunk)
    requires |c.packet| < 0x1_0000
    ensures Interleaved(c) == [0x24, c.channel, |c.packet| / 256, |c.packet| % 256] + c.packet
  {}

  lemma PrefixFields(channel: byte, length: nat)
    requires length < 0x1_0000
    ensures
      var p := Prefix(channel, length);
      p[0] == DOLLAR && p[1] == channel && FromBigEndian16(p[2], p[3]) == length
  {}

  lemma DeframeOne(c: Chunk)
    requires |c.packet| < 0x1_0000
    ensures Deframe(Interleaved(c)) == Some([c])
  {
    PrefixFields(c.channel, |c.packet|);
    hide Prefix, FromBigEndian16;
    var s := Interleaved(c);
    assert s[..4] == Prefix(c.channel, |c.packet|);
    assert s[4..4 + |c.packet|] == c.packet;
    assert s[4 + |c.packet|..] == [];
    assert Deframe(s[4 + |c.packet|..]) == Some([]);
    assert [c] + [] == [c];
  }

  /** The first chunk of a stream and the rest of the stream. */
  lemma DeframeHead(stream: seq<byte>)
    requires Deframe(stream).Some? && stream != []
    ensures |stream| >= 4 && stream[0] == DOLLAR
    ensures
      var n := FromBigEndian16(stream[2], stream[3]);
      && 4 + n <= |stream|
      && Deframe(stream[4 + n..]).Some?
      && Deframe(stream).value == [Chunk(stream[1], stream[4..4 + n])] + Deframe(stream[4 + n..]).value
  {}

  lemma DeframeCons(stream: seq<byte>)
    requires |stream| >= 4 && stream[0] == DOLLAR
    requires
      var n := FromBigEndian16(stream[2], stream[3]);
      4 + n <= |stream| && Deframe(stream[4 + n..]).Some?
    ensures
      var n := FromBigEndian16(stream[2], stream[3]);
      Deframe(stream) == Some([Chunk(stream[1], stream[4..4 + n])] + Deframe(stream[4 + n..]).value)
  {}

  /** One more framed packet on a well-formed stream is one more chunk for the receiver. */
  lemma {:induction false} DeframeAppend(stream: seq<byte>, c: Chunk)
    requires Deframe(stream).Some?
    requires |c.packet| < 0x1_0000
    ensures Deframe(stream + Interleaved(c)) == Some(Deframe(stream).value + [c])
  {
    hide Interleaved, FromBigEndian16, Deframe;
    var more := Interleaved(c);
    if stream == [] {
      DeframeNothing();
      DeframeOne(c);
      assert [] + more == more;
      assert [] + [c] == [c];
    } else {
      DeframeHead(stream);
      var n: nat := FromBigEndian16(stream[2], stream[3]);
      ConcatSlices(stream, more, 4, 4 + n);
      DeframeAppend(stream[4 + n..], c);
      DeframeLonger(stream, more, n);
      ConcatAssoc([Chunk(stream[1], stream[4..4 + n])], Deframe(stream[4 + n..]).value, [c]);
    }
  }

  lemma DeframeLonger(stream: seq<byte>, more: seq<byte>, n: nat)
    requires |stream| >= 4 && stream[0] == DOLLAR && n == FromBigEndian16(stream[2], stream[3])
    requires 4 + n <= |stream| && Deframe(stream[4 + n..] + more).Some?
    ensures Deframe(stream + more) == Some([Chunk(stream[1], stream[4..4 + n])] + Deframe(stream[4 + n..] + more).value)
  {
    hide FromBigEndian16, Deframe;
    var s := stream + more;
    ConcatSlices(stream, more, 4, 4 + n);
    assert s[0] == stream[0] && s[1] == stream[1] && s[2] == stream[2] && s[3] == stream[3];
    DeframeCons(s);
  }

  lemma DeframeNothing()
    ensures Deframe([]) == Some([])
  {}

  lemma {:induction false} DeframeInverse(chunks: seq<Chunk>)
    requires forall c :: c in chunks ==> |c.packet| < 0x1_0000
    ensures Deframe(Stream(chunks)) == Some(chunks)
  {
    hide Interleaved, Deframe;
    if chunks == [] {
      assert Deframe([]) == Some([]) by { DeframeNothing(); }
    } else {
      var front, last := chunks[..|chunks| - 1], chunks[|chunks| - 1];
      DeframeInverse(front);
      DeframeAppend(Stream(front), last);
      assert front + [last] == chunks;
    }
  }

  lemma {:induction false} StreamCons(c: Chunk, chunks: seq<Chunk>)
    ensures Stream([c] + chunks) == Interleaved(c) + Stream(chunks)
  {
    var all := [c] + chunks;
    if chunks == [] {
      assert all[..0] == [] && all[0] == c;
    } else {
      var front := chunks[..|chunks| - 1];
      assert all[..|all| - 1] == [c] + front;
      StreamCons(c, front);
    }
  }

  /** The receiver recovers a stream if and only if no packet outgrows the 16-bit length. */
  lemma {:induction false} DeframeExactly(chunks: seq<Chunk>)
    ensures Deframe(Stream(chunks)) == Some(chunks)
       <==> forall c :: c in chunks ==> |c.packet| < 0x1_0000
  {
    if forall c :: c in chunks ==> |c.packet| < 0x1_0000 {
      DeframeInverse(chunks);
    } else {
      var c, rest := chunks[0], chunks[1..];
      assert chunks == [c] + rest;
      StreamCons(c, rest);
      if |c.packet| < 0x1_0000 {
        DeframeExactly(rest);
        var bad :| bad in chunks && |bad.packet| >= 0x1_0000;
        assert bad in rest;
        StreamHead(c, rest);
      } else {
        LongPacketLost(c, rest);
      }
    }
  }

  /** Behind a packet that fits, the receiver goes on with the rest of the stream. */
  lemma StreamHead(c: Chunk, rest: seq<Chunk>)
    requires |c.packet| < 0x1_0000
    ensures Deframe(Stream([c] + rest)) == Some([c] + rest) ==> Deframe(Stream(rest)) == Some(rest)
  {
    var s := Stream([c] + rest);
    StreamCons(c, rest);
    PrefixFields(c.channel, |c.packet|);
    hide Prefix, FromBigEndian16, Deframe, Stream;
    assert s[..4] == Prefix(c.channel, |c.packet|);
    assert s[4 + |c.packet|..] == Stream(rest);
    if Deframe(s) == Some([c] + rest) {
      DeframeHead(s);
      assert Deframe(s).value[1..] == rest;
    }
  }

  lemma LongPacketLost(c: Chunk, rest: seq<Chunk>)
    requires |c.packet| >= 0x1_0000
    ensures Deframe(Stream([c] + rest)) != Some([c] + rest)
  {
    var s := Stream([c] + rest);
    StreamCons(c, rest);
    hide Deframe, Stream;
    if Deframe(s).Some? {
      DeframeHead(s);
      assert Deframe(s).value[0].packet != c.packet;
    }
  }

  // ----- The sending side -----

  /** Everything a socket has carried: octets over TCP, whole packets over UDP. */
  datatype Wire = Tcp(stream: seq<byte>) | Udp(datagrams: seq<seq<byte>>)

  /** One more packet on the wire; only TCP frames it, with its channel. */
  function Deliver(w: Wire, channel: byte, packet: seq<byte>): Wire {
    match w
    case Tcp(stream) => Tcp(stream + Interleaved(Chunk(channel, packet)))
    case Udp(datagrams) => Udp(datagrams + [packet])
  }

  /** Octets a send call reports beyond the payload: the header, and over TCP the prefix. */
  function Overhead(w: Wire): nat {
    if w.Tcp? then 16 else 12
  }

  /** Since `before`, `sent` sends have succeeded and then, if they are not all of n, one has failed. */
  ghost predicate Answered(answers: seq<bool>, before: seq<bool>, sent: nat, n: nat) {
    answers == before + seq(sent, _ => true) + if sent < n then [false] else []
  }

  /** So where no send fails all n of them are made, and no more. */
  lemma AnsweredMeaning(answers: seq<bool>, before: seq<bool>, sent: nat, n: nat)
    requires Answered(answers, before, sent, n) && sent <= n
    ensures |before| <= |answers| && answers[..|before|] == before
    ensures if false in answers[|before|..] then sent < n else sent == n && |answers| == |before| + n
  {
    var since := answers[|before|..];
    if sent < n {
      assert since[sent] == false;
    } else {
      assert since == seq(sent, _ => true);
    }
  }

  lemma NoAnswer(before: seq<bool>)
    ensures Answered(before, before, 0, 0)
  {}

  lemma OneAnswer(answers: seq<bool>, before: seq<bool>, k: nat, n: nat, ok: bool)
    requires Answered(answers, before, k, k) && k < n
    ensures if ok then Answered(answers + [ok], before, k + 1, k + 1) else Answered(answers + [ok], before, k, n)
  {}

  /** k sends in a row behind a others. */
  lemma MoreAnswers(answers: seq<bool>, middle: seq<bool>, before: seq<bool>, a: nat, k: nat, n: nat)
    requires Answered(middle, before, a, a) && Answered(answers, middle, k, n) && k <= n
    ensures Answered(answers, before, a + k, a + n)
  {}

  lemma SameAnswers(answers: seq<bool>, before: seq<bool>, k: nat, n: nat, n': nat)
    requires Answered(answers, before, k, n) && (k < n <==> k < n')
    ensures Answered(answers, before, k, n')
  {}

  /**
   A connected socket. A send transfers everything it is given, or fails and transfers nothing.
   answers records, for each send so far, whether it succeeded.
   */
  class Socket {
    var wire: Wire
    ghost var answers: seq<bool>

    constructor (wire: Wire)
      ensures this.wire == wire && answers == []
    {
      this.wire := wire;
      answers := [];
    }

    method Send(buf: array<byte>) returns (ret: int)
      requires wire.Tcp?
      modifies this
      ensures ret == buf.Length || ret == -1
      ensures wire == if ret < 0 then old(wire) else Tcp(old(wire).stream + buf[..])
      ensures answers == old(answers) + [ret >= 0]
    {
      if * {
        ret := -1;
      } else {
        wire := Tcp(wire.stream + buf[..]);
        ret := buf.Length;
      }
      answers := answers + [ret >= 0];
    }

    method SendTo(datagram: seq<byte>) returns (ret: int)
      requires wire.Udp?
      modifies this
      ensures ret == |datagram| || ret == -1
      ensures wire == if ret < 0 then old(wire) else Udp(old(wire).datagrams + [datagram])
      ensures answers == old(answers) + [ret >= 0]
    {
      if * {
        ret := -1;
      } else {
        wire := Udp(wire.datagrams + [datagram]);
        ret := |datagram|;
      }
      answers := answers + [ret >= 0];
    }
  }

  /** The packet buffer both media threads reuse for everything they send. */
  class RtpPacket {
    var rtpHeader: RtpHeader
    const payload: array<byte>

    constructor (bufferSize: nat)
      requires bufferSize >= RTP_HEADER_SIZE
      ensures fresh(payload) && payload.Length == bufferSize - RTP_HEADER_SIZE
    {
      payload := new byte[bufferSize - RTP_HEADER_SIZE];
      rtpHeader := RtpHeader(0, 0, 0, 0, 0, 0, 0, 0, 0);
    }

    method RtpHeaderInit(csrcLen: uint4, extension: bit, padding: bit, version: uint2,
                         payloadType: uint7, marker: bit,
                         seqNum: uint16, timestamp: uint32, ssrc: uint32)
      modifies this
      ensures rtpHeader ==
        RtpHeader(csrcLen, extension, padding, version, payloadType, marker, seqNum, timestamp, ssrc)
    {
      rtpHeader := rtpHeader.(csrcLen := csrcLen, extension := extension, padding := padding, version := version);
      rtpHeader := rtpHeader.(payloadType := payloadType, marker := marker);
      rtpHeader := rtpHeader.(seqNum := seqNum, timestamp := timestamp, ssrc := ssrc);
    }

    /** htons/htonl (or their inverses) on the three multi-octet fields, in place. */
    method SwapInPlace()
      modifies this
      ensures rtpHeader == SwapOrder(old(rtpHeader))
    {
      rtpHeader := rtpHeader.(seqNum := Swap16(rtpHeader.seqNum));
      rtpHeader := rtpHeader.(timestamp := Swap32(rtpHeader.timestamp));
      rtpHeader := rtpHeader.(ssrc := Swap32(rtpHeader.ssrc));
    }

    /** seq++ on the 16-bit field. */
    method NextSeq()
      modifies this
      ensures rtpHeader == old(rtpHeader).(seqNum := (old(rtpHeader).seqNum + 1) % 0x1_0000)
    {
      rtpHeader := rtpHeader.(seqNum := (rtpHeader.seqNum + 1) % 0x1_0000);
    }

    /** timestamp += ticks on the 32-bit field. */
    method AddTicks(ticks: nat)
      modifies this
      ensures rtpHeader == old(rtpHeader).(timestamp := (old(rtpHeader).timestamp + ticks) % 0x1_0000_0000)
    {
      rtpHeader := rtpHeader.(timestamp := (rtpHeader.timestamp + ticks) % 0x1_0000_0000);
    }

    static method FillPrefix(buf: array<byte>, channel: byte, rtpSize: nat)
      requires buf.Length >= 4
      modifies buf
      ensures buf[..4] == Prefix(channel, rtpSize)
    {
      buf[0] := 0x24;
      buf[1] := channel;
      buf[2] := rtpSize / 0x100 % 0x100;
      buf[3] := rtpSize % 0x100;
    }

    method SendOverTcp(socket: Socket, dataSize: nat, channel: byte) returns (ret: int)
      requires socket.wire.Tcp? && dataSize <= payload.Length
      modifies this, socket
      ensures rtpHeader == old(rtpHeader)
      ensures ret == dataSize + 16 || ret == -1
      ensures socket.answers == old(socket.answers) + [ret >= 0]
      ensures socket.wire ==
        if ret < 0 then old(socket.wire)
        else Deliver(old(socket.wire), channel, PacketBytes(old(rtpHeader), payload[..dataSize]))
    {
      hide Swap16, Swap32, MemoryImage;
      SwapInPlace();
      var rtpSize := RTP_HEADER_SIZE + dataSize;
      var tempBuf := new byte[4 + rtpSize];
      FillPrefix(tempBuf, channel, rtpSize);
      CopyInto(tempBuf, 4, MemoryImage(rtpHeader) + payload[..dataSize]);
      ret := socket.Send(tempBuf);
      SwapInPlace();
      SwapOrderTwice(old(rtpHeader));
    }

    method SendOverUdp(socket: Socket, dataSize: nat) returns (ret: int)
      requires socket.wire.Udp? && dataSize <= payload.Length
      modifies this, socket
      ensures rtpHeader == old(rtpHeader)
      ensures ret == dataSize + 12 || ret == -1
      ensures socket.answers == old(socket.answers) + [ret >= 0]
      ensures socket.wire ==
        if ret < 0 then old(socket.wire)
        else Udp(old(socket.wire).datagrams + [PacketBytes(old(rtpHeader), payload[..dataSize])])
    {
      hide Swap16, Swap32, MemoryImage;
      SwapInPlace();
      ret := socket.SendTo(MemoryImage(rtpHeader) + payload[..dataSize]);
      SwapInPlace();
      SwapOrderTwice(old(rtpHeader));
    }

    /** The one call in which the TCP and the UDP senders differ. */
    method SendOver(socket: Socket, dataSize: nat, channel: byte) returns (ret: int)
      requires dataSize <= payload.Length
      modifies this, socket
      ensures rtpHeader == old(rtpHeader)
      ensures ret == dataSize + Overhead(old(socket.wire)) || ret == -1
      ensures socket.answers == old(socket.answers) + [ret >= 0]
      ensures socket.wire ==
        if ret < 0 then old(socket.wire)
        else Deliver(old(socket.wire), channel, PacketBytes(old(rtpHeader), payload[..dataSize]))
    {
      hide PacketBytes, Interleaved;
      if socket.wire.Tcp? {
        ret := SendOverTcp(socket, dataSize, channel);
      } else {
        ret := SendOverUdp(socket, dataSize);
      }
    }
  }
}
