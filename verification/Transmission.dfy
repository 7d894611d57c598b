/**
 What a media thread puts on the wire: a plan of payloads, each sent behind the current RTP
 header, after which the sequence number moves by one and the timestamp by the item's tick.
 */
module Transmission {
  import opened Bytes
  import opened Rtp

  /** One payload and the timestamp increase that follows its successful send. */
  datatype Item = Item(payload: seq<byte>, tick: nat)

  type Plan = seq<Item>

  function HeaderAfter(h: RtpHeader, plan: Plan): RtpHeader {
    if plan == [] then h
    else Advance(HeaderAfter(h, plan[..|plan| - 1]), 1, plan[|plan| - 1].tick)
  }

  function PacketsOf(h: RtpHeader, plan: Plan): (packets: seq<seq<byte>>)
    ensures |packets| == |plan|
  {
    if plan == [] then []
    else
      var front, last := plan[..|plan| - 1], plan[|plan| - 1];
      PacketsOf(h, front) + [PacketBytes(HeaderAfter(h, front), last.payload)]
  }

  function Ticks(plan: Plan): nat {
    if plan == [] then 0 else Ticks(plan[..|plan| - 1]) + plan[|plan| - 1].tick
  }

  function Payloads(plan: Plan): (payloads: seq<seq<byte>>)
    ensures |payloads| == |plan|
    ensures forall i :: 0 <= i < |plan| ==> payloads[i] == plan[i].payload
  {
    seq(|plan|, i requires 0 <= i < |plan| => plan[i].payload)
  }

  function Tagged(channel: byte, packets: seq<seq<byte>>): (chunks: seq<Chunk>)
    ensures |chunks| == |packets|
    ensures forall i :: 0 <= i < |packets| ==> chunks[i] == Chunk(channel, packets[i])
  {
    seq(|packets|, i requires 0 <= i < |packets| => Chunk(channel, packets[i]))
  }

  function DeliverAll(w: Wire, channel: byte, packets: seq<seq<byte>>): (w': Wire)
    ensures w'.Tcp? == w.Tcp?
  {
    if packets == [] then w
    else Deliver(DeliverAll(w, channel, packets[..|packets| - 1]), channel, packets[|packets| - 1])
  }

  /** The wire after a whole plan went out on it. */
  function Transmit(w: Wire, channel: byte, h: RtpHeader, plan: Plan): (w': Wire)
    ensures w'.Tcp? == w.Tcp?
  {
    DeliverAll(w, channel, PacketsOf(h, plan))
  }

  predicate AllPlain(h: RtpHeader, plan: Plan) {
    Plain(h) && forall i :: 0 <= i < |plan| ==> |plan[i].payload| + RTP_HEADER_SIZE < 0x1_0000
  }

  lemma NothingSent(w: Wire, channel: byte, h: RtpHeader)
    ensures Transmit(w, channel, h, []) == w && HeaderAfter(h, []) == h
  {}

  // ----- Growing a plan by one item, or by another plan -----

  lemma OneMore(w: Wire, channel: byte, h: RtpHeader, plan: Plan, item: Item)
    ensures HeaderAfter(h, plan + [item]) == Advance(HeaderAfter(h, plan), 1, item.tick)
    ensures PacketsOf(h, plan + [item]) == PacketsOf(h, plan) + [PacketBytes(HeaderAfter(h, plan), item.payload)]
    ensures Transmit(w, channel, h, plan + [item])
         == Deliver(Transmit(w, channel, h, plan), channel, PacketBytes(HeaderAfter(h, plan), item.payload))
    ensures Ticks(plan + [item]) == Ticks(plan) + item.tick
  {}

  lemma {:induction false} PlanConcat(h: RtpHeader, a: Plan, b: Plan)
    ensures HeaderAfter(h, a + b) == HeaderAfter(HeaderAfter(h, a), b)
    ensures PacketsOf(h, a + b) == PacketsOf(h, a) + PacketsOf(HeaderAfter(h, a), b)
    ensures Ticks(a + b) == Ticks(a) + Ticks(b)
  {
    hide PacketBytes, Advance;
    if b == [] {
      assert a + b == a;
    } else {
      var front, last := b[..|b| - 1], b[|b| - 1];
      assert (a + b)[..|a + b| - 1] == a + front;
      PlanConcat(h, a, front);
    }
  }

  lemma {:induction false} DeliverConcat(w: Wire, channel: byte, a: seq<seq<byte>>, b: seq<seq<byte>>)
    ensures DeliverAll(w, channel, a + b) == DeliverAll(DeliverAll(w, channel, a), channel, b)
  {
    hide Deliver;
    if b == [] {
      assert a + b == a;
    } else {
      var front := b[..|b| - 1];
      assert (a + b)[..|a + b| - 1] == a + front;
      DeliverConcat(w, channel, a, front);
    }
  }

  lemma TransmitConcat(w: Wire, channel: byte, h: RtpHeader, a: Plan, b: Plan)
    ensures Transmit(w, channel, h, a + b)
         == Transmit(Transmit(w, channel, h, a), channel, HeaderAfter(h, a), b)
    ensures HeaderAfter(h, a + b) == HeaderAfter(HeaderAfter(h, a), b)
  {
    hide PacketsOf, DeliverAll, HeaderAfter;
    PlanConcat(h, a, b);
    DeliverConcat(w, channel, PacketsOf(h, a), PacketsOf(HeaderAfter(h, a), b));
  }

  // ----- The two transports carry the same packets -----

  lemma {:induction false} DeliveredOverTcp(stream: seq<byte>, channel: byte, packets: seq<seq<byte>>)
    ensures DeliverAll(Tcp(stream), channel, packets) == Tcp(stream + Stream(Tagged(channel, packets)))
  {
    hide Interleaved;
    if packets != [] {
      var front, last := packets[..|packets| - 1], packets[|packets| - 1];
      var tagged := Tagged(channel, packets);
      DeliveredOverTcp(stream, channel, front);
      assert tagged[..|tagged| - 1] == Tagged(channel, front);
      assert tagged[|tagged| - 1] == Chunk(channel, last);
    }
  }

  lemma {:induction false} DeliveredOverUdp(datagrams: seq<seq<byte>>, channel: byte, packets: seq<seq<byte>>)
    ensures DeliverAll(Udp(datagrams), channel, packets) == Udp(datagrams + packets)
  {
    if packets != [] {
      var front, last := packets[..|packets| - 1], packets[|packets| - 1];
      DeliveredOverUdp(datagrams, channel, front);
      assert datagrams + packets == datagrams + front + [last];
    }
  }

  // ----- Sequence numbers and timestamps over a whole plan -----

  lemma {:induction false} HeaderAfterPlan(h: RtpHeader, plan: Plan)
    ensures HeaderAfter(h, plan) == Advance(h, |plan|, Ticks(plan))
  {
    hide Advance;
    if plan == [] {
      AdvanceTwice(h, 0, 0, 0, 0);
    } else {
      var front := plan[..|plan| - 1];
      HeaderAfterPlan(h, front);
      AdvanceTwice(h, |front|, Ticks(front), 1, plan[|plan| - 1].tick);
    }
  }

  lemma {:induction false} PacketAt(h: RtpHeader, plan: Plan, k: nat)
    requires k < |plan|
    ensures PacketsOf(h, plan)[k] == PacketBytes(HeaderAfter(h, plan[..k]), plan[k].payload)
  {
    hide PacketBytes, Advance;
    if k < |plan| - 1 {
      var front := plan[..|plan| - 1];
      PacketAt(h, front, k);
      assert front[..k] == plan[..k];
    }
  }

  /**
   What a receiver parses from the k-th packet: the k-th payload under the initial header with
   sequence number k further and the timestamp moved by the ticks of the k items before it.
   */
  lemma PacketParses(h: RtpHeader, plan: Plan, k: nat)
    requires Plain(h)
    requires k < |plan|
    ensures ParsePacket(PacketsOf(h, plan)[k])
         == Some(Packet(
                   h.(seqNum := (h.seqNum + k) % 0x1_0000, timestamp := (h.timestamp + Ticks(plan[..k])) % 0x1_0000_0000),
                   plan[k].payload))
  {
    hide ParsePacket, PacketBytes, PacketsOf, HeaderAfter, Ticks, Advance;
    PacketAt(h, plan, k);
    HeaderAfterPlan(h, plan[..k]);
    AdvanceBy(h, k, Ticks(plan[..k]));
    ParsePacketInverse(HeaderAfter(h, plan[..k]), plan[k].payload);
  }

  // ----- The receiver -----

  function OnChannel(channel: byte, chunks: seq<Chunk>): seq<seq<byte>> {
    if chunks == [] then []
    else
      var last := chunks[|chunks| - 1];
      OnChannel(channel, chunks[..|chunks| - 1]) + if last.channel == channel then [last.packet] else []
  }

  /** The RTP payloads of a list of packets, if every packet parses. */
  function ParsePayloads(packets: seq<seq<byte>>): Option<seq<seq<byte>>> {
    if packets == [] then Some([])
    else match (ParsePayloads(packets[..|packets| - 1]), ParsePacket(packets[|packets| - 1]))
      case (Some(front), Some(last)) => Some(front + [last.payload])
      case _ => None
  }

  /** The payloads a receiver finds on one channel of an interleaved stream. */
  function Receive(channel: byte, stream: seq<byte>): Option<seq<seq<byte>>> {
    match Deframe(stream)
    case None => None
    case Some(chunks) => ParsePayloads(OnChannel(channel, chunks))
  }

  lemma {:induction false} PayloadsParse(h: RtpHeader, plan: Plan)
    requires Plain(h)
    ensures ParsePayloads(PacketsOf(h, plan)) == Some(Payloads(plan))
  {
    hide ParsePacket, PacketBytes;
    if plan != [] {
      var n := |plan| - 1;
      PayloadsParse(h, plan[..n]);
      HeaderAfterPlan(h, plan[..n]);
      ParsePacketInverse(HeaderAfter(h, plan[..n]), plan[n].payload);
      var packets := PacketsOf(h, plan);
      assert packets[..n] == PacketsOf(h, plan[..n]);
      assert Payloads(plan) == Payloads(plan[..n]) + [plan[n].payload];
    }
  }

  lemma {:induction false} TaggedOnChannel(channel: byte, packets: seq<seq<byte>>)
    ensures OnChannel(channel, Tagged(channel, packets)) == packets
  {
    if packets != [] {
      var n := |packets| - 1;
      TaggedOnChannel(channel, packets[..n]);
      assert Tagged(channel, packets)[..n] == Tagged(channel, packets[..n]);
      assert packets[..n] + [packets[n]] == packets;
    }
  }

  lemma {:induction false} PacketLengths(h: RtpHeader, plan: Plan)
    ensures forall i :: 0 <= i < |plan| ==> |PacketsOf(h, plan)[i]| == RTP_HEADER_SIZE + |plan[i].payload|
  {
    forall i | 0 <= i < |plan|
      ensures |PacketsOf(h, plan)[i]| == RTP_HEADER_SIZE + |plan[i].payload|
    {
      PacketAt(h, plan, i);
    }
  }

  /** Sent alone on a connection, a plan arrives payload for payload. */
  lemma PlanReceived(channel: byte, h: RtpHeader, plan: Plan)
    requires AllPlain(h, plan)
    ensures Receive(channel, Transmit(Tcp([]), channel, h, plan).stream) == Some(Payloads(plan))
  {
    hide ParsePayloads, PacketBytes, Interleaved, Deframe;
    var packets := PacketsOf(h, plan);
    PacketLengths(h, plan);
    DeliveredOverTcp([], channel, packets);
    assert [] + Stream(Tagged(channel, packets)) == Stream(Tagged(channel, packets));
    DeframeInverse(Tagged(channel, packets));
    TaggedOnChannel(channel, packets);
    PayloadsParse(h, plan);
  }

  /**
   The TCP path is the UDP path framed: deframing what a plan puts on a TCP connection gives,
   all on the plan's channel, exactly the datagrams it would have sent.
   */
  lemma TcpIsFramedUdp(channel: byte, h: RtpHeader, plan: Plan)
    requires AllPlain(h, plan)
    ensures
      var tcp, udp := Transmit(Tcp([]), channel, h, plan), Transmit(Udp([]), channel, h, plan);
      tcp.Tcp? && udp.Udp? && Deframe(tcp.stream) == Some(Tagged(channel, udp.datagrams))
  {
    hide PacketBytes, Interleaved, Deframe;
    PacketLengths(h, plan);
    var packets := PacketsOf(h, plan);
    DeliveredOverTcp([], channel, packets);
    assert [] + Stream(Tagged(channel, packets)) == Stream(Tagged(channel, packets));
    DeliveredOverUdp([], channel, packets);
    assert [] + packets == packets;
    DeframeInverse(Tagged(channel, packets));
  }
}
