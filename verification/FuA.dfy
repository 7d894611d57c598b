/**
 One NAL unit on the wire (RFC 6184 sections 5.6 and 5.8): the plan the server follows and
 the senders that follow it, over either transport.

 Below, x is always a NAL unit followed by the one octet after it in the window. Fragments
 start at octet 1 of the unit but are cut to the length of the whole unit, so the last one ends
 with that extra octet. RTP_MAX_PKT_SIZE is written out as 1400, which keeps products linear.
 */
module FuA {
  import opened Bytes
  import opened Rtp
  import opened Transmission

  const FU_A := 28
  const FRAME_TICKS := 90000 / 30

  /** How many fragments of up to 1400 octets of data a unit of this size takes. */
  function FragmentCount(filesize: nat): (n: nat) {
    (filesize + 1400 - 1) / 1400
  }

  function FuIndicator(first: byte): byte {
    first / 0x20 % 4 * 0x20 + FU_A
  }

  function FuHeader(first: byte, start: bool, end: bool): byte {
    (if start then 0x80 else 0) + (if end then 0x40 else 0) + first % 0x20
  }

  function FragmentData(x: seq<byte>, i: nat): seq<byte>
    requires 1 + 1400 * i <= |x|
  {
    var from := 1 + 1400 * i;
    if from + 1400 <= |x| then x[from..from + 1400] else x[from..]
  }

  /** The i-th of n fragments: the first one and only it starts, the last one and only it ends. */
  function Fragment(x: seq<byte>, i: nat, n: nat): seq<byte>
    requires 1 + 1400 * i <= |x|
  {
    [FuIndicator(x[0]), FuHeader(x[0], i == 0, i == n - 1)] + FragmentData(x, i)
  }

  /** Parameter sets and SEI share the timestamp of the picture they precede. */
  predicate Timeless(first: byte) {
    first % 0x20 in {6, 7, 8}
  }

  lemma FragmentBounds(filesize: nat, i: nat)
    requires filesize > 1400
    ensures FragmentCount(filesize) >= 2
    ensures i < FragmentCount(filesize) <==> 1400 * i < filesize
  {}

  /** The full fragments and the remainder the senders count are the fragments there are. */
  lemma SplitCount(split: nat, remain: nat)
    requires remain < 1400
    ensures FragmentCount(1400 * split + remain) == if remain > 0 then split + 1 else split
  {}

  method SplitSizes(filesize: nat) returns (split: nat, remain: nat)
    ensures filesize == 1400 * split + remain && remain < 1400
    ensures FragmentCount(filesize) == if remain > 0 then split + 1 else split
  {
    split, remain := filesize / 1400, filesize % 1400;
    SplitCount(split, remain);
  }

  function FragmentItem(x: seq<byte>, i: nat, n: nat): Item
    requires 1 + 1400 * i <= |x|
  {
    Item(Fragment(x, i, n), if i == n - 1 then FRAME_TICKS else 0)
  }

  function FragmentPlan(x: seq<byte>): (plan: Plan)
    requires |x| - 1 > 1400
    ensures |plan| == FragmentCount(|x| - 1)
  {
    var n := FragmentCount(|x| - 1);
    seq(n, i requires 0 <= i < n => FragmentItem(x, i, n))
  }

  lemma FragmentAt(x: seq<byte>, i: nat)
    requires |x| - 1 > 1400 && i < FragmentCount(|x| - 1)
    ensures 1 + 1400 * i <= |x|
    ensures FragmentPlan(x)[i] == FragmentItem(x, i, FragmentCount(|x| - 1))
  {}

  /** The payloads sent for the unit x[..|x| - 1]. */
  function UnitPlan(x: seq<byte>): Plan
    requires x != []
  {
    var filesize := |x| - 1;
    if filesize <= 1400 then [Item(x[..filesize], if Timeless(x[0]) then 0 else FRAME_TICKS)]
    else FragmentPlan(x)
  }

  lemma UnitPlanSmall(x: seq<byte>)
    requires x != []
    ensures UnitPlan(x) != []
    ensures forall i :: 0 <= i < |UnitPlan(x)| ==> |UnitPlan(x)[i].payload| <= 1400 + 2
  {}

  // ----- The senders -----

  /**
   The senders build their two octets with masks. For every octet the masks are the sums on the
   right, and the senders below are written with the sums.
   */
  lemma SenderMasks(b: bv8)
    ensures (b & 0x60) | 28 == b / 0x20 % 4 * 0x20 + 28
    ensures b & 0x1F == b % 0x20
    ensures (b & 0x1F) | 0x80 == b % 0x20 + 0x80
    ensures (b & 0x1F) | 0x40 == b % 0x20 + 0x40
  {}

  /** Write an FU indicator, an FU header and fragment data to the front of the payload. */
  method PackFragment(payload: array<byte>, indicator: byte, header: byte, data: seq<byte>)
    requires 2 + |data| <= payload.Length
    modifies payload
    ensures payload[..2 + |data|] == [indicator, header] + data
  {
    payload[0] := indicator;
    payload[1] := header;
    CopyInto(payload, 2, data);
  }

  lemma {:induction false} FragmentTicks(x: seq<byte>, i: nat)
    requires |x| - 1 > 1400
    requires i <= |FragmentPlan(x)|
    ensures Ticks(FragmentPlan(x)[..i]) == if i == |FragmentPlan(x)| then FRAME_TICKS else 0
  {
    if i > 0 {
      var plan := FragmentPlan(x);
      FragmentTicks(x, i - 1);
      FragmentAt(x, i - 1);
      assert plan[..i][..i - 1] == plan[..i - 1];
    }
  }

  /** Every fragment of a unit is sent under the timestamp the unit found. */
  lemma FragmentHeaders(h: RtpHeader, x: seq<byte>, i: nat)
    requires |x| - 1 > 1400
    requires i <= |FragmentPlan(x)|
    ensures HeaderAfter(h, FragmentPlan(x)[..i])
         == Advance(h, i, if i == |FragmentPlan(x)| then FRAME_TICKS else 0)
  {
    FragmentTicks(x, i);
    HeaderAfterPlan(h, FragmentPlan(x)[..i]);
  }

  lemma OneFragment(w: Wire, channel: byte, h: RtpHeader, x: seq<byte>, i: nat)
    requires |x| - 1 > 1400
    requires i < |FragmentPlan(x)|
    ensures
      var plan := FragmentPlan(x);
      Transmit(w, channel, h, plan[..i + 1])
        == Deliver(Transmit(w, channel, h, plan[..i]), channel, PacketBytes(Advance(h, i, 0), plan[i].payload))
  {
    hide PacketBytes, Deliver, Advance, Transmit, HeaderAfter, FragmentPlan;
    var plan := FragmentPlan(x);
    assert plan[..i + 1] == plan[..i] + [plan[i]];
    OneMore(w, channel, h, plan[..i], plan[i]);
    FragmentHeaders(h, x, i);
  }

  /** So a receiver parses the same timestamp from all fragments of a unit, and consecutive numbers. */
  lemma FragmentPacket(h: RtpHeader, x: seq<byte>, i: nat)
    requires Plain(h) && |x| - 1 > 1400 && i < |FragmentPlan(x)|
    ensures
      var p := ParsePacket(PacketsOf(h, FragmentPlan(x))[i]);
      && p.Some?
      && p.value.header.timestamp == h.timestamp
      && p.value.header.seqNum == (h.seqNum + i) % 0x1_0000
      && p.value.payload == FragmentPlan(x)[i].payload
  {
    hide ParsePacket, FragmentPlan, PacketsOf;
    FragmentTicks(x, i);
    PacketParses(h, FragmentPlan(x), i);
  }

  /** The FU header of a fragment of 1400 octets: only a last one without remainder ends the unit. */
  method FullFragmentOctet(naluType: byte, i: nat, splitSize: nat, remainSize: nat) returns (octet: byte)
    requires i < splitSize && remainSize < 1400
    requires 1400 * splitSize + remainSize > 1400
    ensures octet == FuHeader(naluType, i == 0, i == FragmentCount(1400 * splitSize + remainSize) - 1)
  {
    SplitCount(splitSize, remainSize);
    if i == 0 {
      octet := naluType % 0x20 + 0x80;
    } else if remainSize == 0 && i == splitSize - 1 {
      octet := naluType % 0x20 + 0x40;
    } else {
      octet := naluType % 0x20;
    }
  }

  /** The state between fragments: i of them are on the stream and the timestamp has not moved. */
  ghost predicate FragmentsSent(wire: Wire, header: RtpHeader,
                                w: Wire, h: RtpHeader, x: seq<byte>, i: nat)
    requires |x| - 1 > 1400
  {
    i <= |FragmentPlan(x)| && header == Advance(h, i, 0) && wire == Transmit(w, 0, h, FragmentPlan(x)[..i])
  }

  lemma NoFragmentSent(w: Wire, h: RtpHeader, x: seq<byte>)
    requires |x| - 1 > 1400
    ensures FragmentsSent(w, h, w, h, x, 0)
  {}

  /** The first packets of a plan are on the wire, each sent once; the next one failed unless they are all. */
  ghost predicate PlanSent(wire: Wire, header: RtpHeader, answers: seq<bool>,
                           w: Wire, h: RtpHeader, before: seq<bool>, plan: Plan, sent: nat) {
    && sent <= |plan|
    && header == HeaderAfter(h, plan[..sent])
    && wire == Transmit(w, 0, h, plan[..sent])
    && Answered(answers, before, sent, |plan|)
  }

  /** The fragments sent are the plan sent, once the timestamp has moved behind the last one. */
  lemma FragmentsSentMeaning(wire: Wire, header: RtpHeader, answers: seq<bool>,
                             w: Wire, h: RtpHeader, before: seq<bool>, x: seq<byte>, i: nat)
    requires |x| - 1 > 1400
    requires FragmentsSent(wire, header, w, h, x, i)
    requires Answered(answers, before, i, |FragmentPlan(x)|)
    ensures
      var header' :=
        if i < |FragmentPlan(x)| then header
        else header.(timestamp := (header.timestamp + FRAME_TICKS) % 0x1_0000_0000);
      PlanSent(wire, header', answers, w, h, before, FragmentPlan(x), i)
  {
    hide Transmit, Advance, FragmentPlan, Answered;
    FragmentHeaders(h, x, i);
    AdvanceTwice(h, i, 0, 0, FRAME_TICKS);
    AdvanceOne(header, FRAME_TICKS);
  }

  /** The slice each turn of the loop copies is the fragment's data. */
  lemma FragmentSlice(rec: seq<byte>, filesize: nat, i: nat, size: nat)
    requires 1400 < filesize < |rec|
    requires i < FragmentCount(filesize)
    requires size <= 1400
    requires 1 + 1400 * i + size <= filesize + 1
    requires size < 1400 ==> 1400 * i + size == filesize
    ensures |FragmentPlan(rec[..filesize + 1])| == FragmentCount(filesize)
    ensures FragmentPlan(rec[..filesize + 1])[i].payload
         == [FuIndicator(rec[0]), FuHeader(rec[0], i == 0, i == FragmentCount(filesize) - 1)]
            + rec[1 + 1400 * i..1 + 1400 * i + size]
  {}

  /** Octets a fragment costs beyond its data. */
  function FragmentOverhead(w: Wire): nat {
    2 + Overhead(w)
  }

  function FragmentsOverhead(w: Wire, n: nat): nat {
    if w.Tcp? then 18 * n else 14 * n
  }

  /** Octets a whole unit costs beyond its own size. */
  function UnitOverhead(w: Wire, filesize: nat): nat {
    if filesize <= 1400 then Overhead(w) else FragmentsOverhead(w, FragmentCount(filesize))
  }

  lemma IndicatorOf(first: byte)
    ensures FuIndicator(first) == first / 0x20 % 4 * 0x20 + 28
  {}

  lemma NextNumber(h: RtpHeader, i: nat)
    ensures
      var now := Advance(h, i, 0);
      Advance(h, i + 1, 0) == now.(seqNum := (now.seqNum + 1) % 0x1_0000)
  {
    AdvanceTwice(h, i, 0, 1, 0);
    AdvanceOne(Advance(h, i, 0), 0);
  }

  /** One turn of the fragment loop: pack size octets from rec + pos, send, and on success count the packet. */
  method SendFragment(socket: Socket, rtpPacket: RtpPacket, header: byte,
                      rec: seq<byte>, pos: nat, size: nat,
                      ghost w: Wire, ghost h: RtpHeader, ghost filesize: nat, ghost i: nat)
    returns (ret: int)
    requires 1400 < filesize < |rec| && i < FragmentCount(filesize)
    requires pos == 1 + 1400 * i && size <= 1400
    requires if size == 1400 then 1400 * i + size <= filesize else 1400 * i + size == filesize
    requires header == FuHeader(rec[0], i == 0, i == FragmentCount(filesize) - 1)
    requires rtpPacket.payload.Length >= 1402
    requires FragmentsSent(socket.wire, rtpPacket.rtpHeader, w, h, rec[..filesize + 1], i)
    modifies socket, rtpPacket, rtpPacket.payload
    ensures ret == -1 || ret == size + FragmentOverhead(w)
    ensures socket.answers == old(socket.answers) + [ret >= 0]
    ensures FragmentsSent(socket.wire, rtpPacket.rtpHeader, w, h, rec[..filesize + 1],
                          if ret < 0 then i else i + 1)
  {
    hide PacketBytes, Deliver, FragmentPlan, Advance, Transmit, FuIndicator, FuHeader, FragmentCount;
    FragmentSlice(rec, filesize, i, size);
    var indicator := rec[0] / 0x20 % 4 * 0x20 + 28;
    IndicatorOf(rec[0]);
    PackFragment(rtpPacket.payload, indicator, header, rec[pos..pos + size]);
    ret := rtpPacket.SendOver(socket, size + 2, 0x00);
    if ret >= 0 {
      rtpPacket.NextSeq();
      NextNumber(h, i);
      OneFragment(w, 0, h, rec[..filesize + 1], i);
    }
  }

  lemma SinglePlan(w: Wire, channel: byte, h: RtpHeader, x: seq<byte>)
    requires 0 < |x| <= 1401
    ensures
      var plan := UnitPlan(x);
      && |plan| == 1
      && Transmit(w, channel, h, plan[..0]) == w && HeaderAfter(h, plan[..0]) == h
      && Transmit(w, channel, h, plan[..1]) == Deliver(w, channel, PacketBytes(h, x[..|x| - 1]))
      && HeaderAfter(h, plan[..1])
         == var next := h.(seqNum := (h.seqNum + 1) % 0x1_0000);
            if Timeless(x[0]) then next
            else next.(timestamp := (next.timestamp + FRAME_TICKS) % 0x1_0000_0000)
  {
    hide PacketBytes, Deliver, Advance, Transmit, HeaderAfter, Timeless;
    var plan := UnitPlan(x);
    NothingSent(w, channel, h);
    OneMore(w, channel, h, [], plan[0]);
    AdvanceTwice(h, 1, 0, 0, FRAME_TICKS);
    AdvanceOne(h, 0);
    AdvanceOne(Advance(h, 1, 0), FRAME_TICKS);
    assert plan[..0] == [] && plan[..1] == [] + [plan[0]];
  }

  method SendManager(socket: Socket, rtpPacket: RtpPacket, rec: seq<byte>, filesize: nat)
    returns (ret: int, ghost sent: nat)
    requires filesize < |rec|
    requires rtpPacket.payload.Length >= 1400 + 2
    modifies socket, rtpPacket, rtpPacket.payload
    ensures PlanSent(socket.wire, rtpPacket.rtpHeader, socket.answers,
                     old(socket.wire), old(rtpPacket.rtpHeader), old(socket.answers),
                     UnitPlan(rec[..filesize + 1]), sent)
    ensures ret == -1 <==> sent < |UnitPlan(rec[..filesize + 1])|
    ensures ret != -1 ==> ret == filesize + UnitOverhead(old(socket.wire), filesize)
  {
    if filesize <= 1400 {
      ret, sent := SendSingle(socket, rtpPacket, rec, filesize);
    } else {
      ret, sent := SendFragments(socket, rtpPacket, rec, filesize);
    }
  }

  method SendSingle(socket: Socket, rtpPacket: RtpPacket, rec: seq<byte>, filesize: nat)
    returns (ret: int, ghost sent: nat)
    requires filesize < |rec| && filesize <= 1400
    requires rtpPacket.payload.Length >= 1400 + 2
    modifies socket, rtpPacket, rtpPacket.payload
    ensures PlanSent(socket.wire, rtpPacket.rtpHeader, socket.answers,
                     old(socket.wire), old(rtpPacket.rtpHeader), old(socket.answers),
                     UnitPlan(rec[..filesize + 1]), sent)
    ensures ret == -1 <==> sent < |UnitPlan(rec[..filesize + 1])|
    ensures ret != -1 ==> ret == filesize + Overhead(old(socket.wire))
  {
    ghost var h, w, x := rtpPacket.rtpHeader, socket.wire, rec[..filesize + 1];
    hide PacketBytes, Deliver, Advance, Transmit, HeaderAfter, UnitPlan, Answered;
    SinglePlan(w, 0, h, x);
    sent := 0;
    CopyInto(rtpPacket.payload, 0, rec[..filesize]);
    assert rtpPacket.payload[..filesize] == x[..filesize];
    ret := rtpPacket.SendOver(socket, filesize, 0x00);
    NoAnswer(old(socket.answers));
    OneAnswer(old(socket.answers), old(socket.answers), 0, 1, ret >= 0);
    if ret < 0 { return; }
    sent := 1;
    rtpPacket.NextSeq();
    var naluType := rec[0] % 0x20;
    if !(naluType == 6 || naluType == 7 || naluType == 8) {
      rtpPacket.AddTicks(FRAME_TICKS);
    }
  }

  /** The loop over the fragments of exactly 1400 octets. */
  method SendFullFragments(socket: Socket, rtpPacket: RtpPacket, rec: seq<byte>, filesize: nat,
                           splitSize: nat, remainSize: nat)
    returns (sendBytes: int, ghost i: nat)
    requires 1400 < filesize == 1400 * splitSize + remainSize < |rec| && remainSize < 1400
    requires rtpPacket.payload.Length >= 1400 + 2
    modifies socket, rtpPacket, rtpPacket.payload
    ensures FragmentsSent(socket.wire, rtpPacket.rtpHeader,
                          old(socket.wire), old(rtpPacket.rtpHeader), rec[..filesize + 1], i)
    ensures Answered(socket.answers, old(socket.answers), i, splitSize)
    ensures if sendBytes == -1 then i < splitSize
            else i == splitSize && sendBytes == 1400 * i + FragmentsOverhead(old(socket.wire), i)
  {
    ghost var h, w := rtpPacket.rtpHeader, socket.wire;
    hide FragmentsSent, FuHeader, FragmentCount, Answered;
    var naluType := rec[0];
    SplitCount(splitSize, remainSize);
    var k, pos := 0, 1;
    sendBytes, i := 0, 0;
    NoFragmentSent(w, h, rec[..filesize + 1]);
    NoAnswer(old(socket.answers));
    while k < splitSize
      invariant i == k <= splitSize && pos == 1 + 1400 * k
      invariant FragmentsSent(socket.wire, rtpPacket.rtpHeader, w, h, rec[..filesize + 1], k)
      invariant sendBytes == 1400 * k + FragmentsOverhead(w, k)
      invariant Answered(socket.answers, old(socket.answers), k, k)
    {
      ghost var answers := socket.answers;
      var header := FullFragmentOctet(naluType, k, splitSize, remainSize);
      var ret := SendFragment(socket, rtpPacket, header, rec, pos, 1400, w, h, filesize, k);
      OneAnswer(answers, old(socket.answers), k, splitSize, ret >= 0);
      if ret < 0 { return -1, k; }
      sendBytes := sendBytes + ret;
      pos := pos + 1400;
      k, i := k + 1, k + 1;
    }
  }

  /** The last fragment, with the octets the full ones leave over. */
  method SendRemainder(socket: Socket, rtpPacket: RtpPacket, rec: seq<byte>, filesize: nat,
                       splitSize: nat, remainSize: nat,
                       ghost w: Wire, ghost h: RtpHeader, ghost before: seq<bool>)
    returns (ret: int, ghost i: nat)
    requires 1400 < filesize == 1400 * splitSize + remainSize < |rec| && 0 < remainSize < 1400
    requires rtpPacket.payload.Length >= 1400 + 2
    requires FragmentsSent(socket.wire, rtpPacket.rtpHeader, w, h, rec[..filesize + 1], splitSize)
    requires Answered(socket.answers, before, splitSize, splitSize)
    modifies socket, rtpPacket, rtpPacket.payload
    ensures FragmentsSent(socket.wire, rtpPacket.rtpHeader, w, h, rec[..filesize + 1], i)
    ensures Answered(socket.answers, before, i, splitSize + 1)
    ensures if ret == -1 then i == splitSize else i == splitSize + 1 && ret == remainSize + FragmentOverhead(w)
  {
    hide FragmentsSent, FragmentCount, Answered;
    SplitCount(splitSize, remainSize);
    var header := rec[0] % 0x20 + 0x40;
    ghost var answers := socket.answers;
    i := splitSize;
    ret := SendFragment(socket, rtpPacket, header, rec, 1 + 1400 * splitSize, remainSize, w, h, filesize, i);
    OneAnswer(answers, before, i, splitSize + 1, ret >= 0);
    if ret >= 0 {
      i := i + 1;
    }
  }

  /** Full fragments and remainder add up to the unit and its overhead. */
  lemma OverheadsAddUp(w: Wire, split: nat, remain: nat)
    requires remain < 1400 < 1400 * split + remain
    ensures 1400 * split + FragmentsOverhead(w, split) + (if remain > 0 then remain + FragmentOverhead(w) else 0)
         == 1400 * split + remain + UnitOverhead(w, 1400 * split + remain)
  {
    SplitCount(split, remain);
  }

  method SendFragments(socket: Socket, rtpPacket: RtpPacket, rec: seq<byte>, filesize: nat)
    returns (sendBytes: int, ghost sent: nat)
    requires filesize < |rec| && filesize > 1400
    requires rtpPacket.payload.Length >= 1400 + 2
    modifies socket, rtpPacket, rtpPacket.payload
    ensures PlanSent(socket.wire, rtpPacket.rtpHeader, socket.answers,
                     old(socket.wire), old(rtpPacket.rtpHeader), old(socket.answers),
                     FragmentPlan(rec[..filesize + 1]), sent)
    ensures sendBytes == -1 <==> sent < |FragmentPlan(rec[..filesize + 1])|
    ensures sendBytes != -1 ==> sendBytes == filesize + UnitOverhead(old(socket.wire), filesize)
  {
    ghost var x := rec[..filesize + 1];
    ghost var h, w, before := rtpPacket.rtpHeader, socket.wire, socket.answers;
    hide FragmentsSent, FragmentPlan, FragmentCount, Transmit, HeaderAfter, Advance, Answered, PlanSent,
         UnitOverhead, FragmentsOverhead, FragmentOverhead;
    var splitSize, remainSize := SplitSizes(filesize);
    sendBytes, sent := SendFullFragments(socket, rtpPacket, rec, filesize, splitSize, remainSize);
    SameAnswers(socket.answers, before, sent, splitSize, if sendBytes == -1 then |FragmentPlan(x)| else splitSize);
    if sendBytes != -1 && remainSize > 0 {
      var ret;
      ret, sent := SendRemainder(socket, rtpPacket, rec, filesize, splitSize, remainSize, w, h, before);
      sendBytes := if ret < 0 then -1 else sendBytes + ret;
    }
    OverheadsAddUp(w, splitSize, remainSize);
    FragmentsSentMeaning(socket.wire, rtpPacket.rtpHeader, socket.answers, w, h, before, x, sent);
    if sendBytes != -1 {
      rtpPacket.AddTicks(FRAME_TICKS);
    }
  }

  // ----- Byte accounting -----

  /** Octets handed to the network: the stream, or the datagrams laid end to end. */
  function WireSize(w: Wire): nat {
    match w
    case Tcp(stream) => |stream|
    case Udp(datagrams) => TotalSize(datagrams)
  }

  function TotalSize(packets: seq<seq<byte>>): nat {
    if packets == [] then 0 else TotalSize(packets[..|packets| - 1]) + |packets[|packets| - 1]|
  }

  lemma DeliverSize(w: Wire, channel: byte, h: RtpHeader, payload: seq<byte>)
    ensures WireSize(Deliver(w, channel, PacketBytes(h, payload))) == WireSize(w) + |payload| + Overhead(w)
  {}

  lemma {:induction false} FragmentsSize(w: Wire, channel: byte, h: RtpHeader, x: seq<byte>, i: nat)
    requires |x| - 1 > 1400 && i <= |FragmentPlan(x)|
    ensures
      WireSize(Transmit(w, channel, h, FragmentPlan(x)[..i])) == WireSize(w) + FragmentsOverhead(w, i)
        + if i < |FragmentPlan(x)| then 1400 * i else |x| - 1
  {
    hide Deliver, PacketBytes, WireSize, FragmentPlan, Transmit, Advance;
    if i == 0 {
      NothingSent(w, channel, h);
      assert FragmentPlan(x)[..0] == [];
    } else {
      FragmentsSize(w, channel, h, x, i - 1);
      OneFragment(w, channel, h, x, i - 1);
      FragmentAt(x, i - 1);
      FragmentBounds(|x| - 1, i - 1);
      FragmentBounds(|x| - 1, i);
      var before, payload := Transmit(w, channel, h, FragmentPlan(x)[..i - 1]), FragmentPlan(x)[i - 1].payload;
      DeliverSize(before, channel, Advance(h, i - 1, 0), payload);
    }
  }

  /** What the senders return is what a unit adds to the wire. */
  lemma UnitSize(w: Wire, channel: byte, h: RtpHeader, x: seq<byte>)
    requires x != []
    ensures WireSize(Transmit(w, channel, h, UnitPlan(x))) == WireSize(w) + (|x| - 1) + UnitOverhead(w, |x| - 1)
  {
    hide Deliver, PacketBytes, WireSize, FragmentPlan, Transmit;
    if |x| - 1 <= 1400 {
      SinglePlan(w, channel, h, x);
      DeliverSize(w, channel, h, x[..|x| - 1]);
      assert UnitPlan(x)[..1] == UnitPlan(x);
    } else {
      FragmentsSize(w, channel, h, x, |FragmentPlan(x)|);
      assert FragmentPlan(x)[..|FragmentPlan(x)|] == FragmentPlan(x);
    }
  }
}
