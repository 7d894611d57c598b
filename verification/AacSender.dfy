/** The audio thread: read a header and a frame, send the raw block, and carry on even if the send fails. */
module AacSender {
  import opened Bytes
  import opened Rtp
  import opened Transmission
  import opened Adts
  import opened AacStream
  import opened Files

  const AAC_HEADER := RtpHeader(0, 0, 0, RTP_VERSION, RTP_PAYLOAD_TYPE_AAC, 1, 0, 0, 0x32611)

  /** rtpSendAACFrame over either transport: on failure neither the wire nor the header moves. */
  method SendAacFrame(socket: Socket, rtpPacket: RtpPacket, frame: seq<byte>) returns (ret: int)
    requires |frame| + AU_PREFIX_SIZE <= rtpPacket.payload.Length
    modifies socket, rtpPacket, rtpPacket.payload
    ensures ret == 0 || ret == -1
    ensures rtpPacket.rtpHeader ==
      var h := old(rtpPacket.rtpHeader);
      if ret < 0 then h
      else h.(seqNum := (h.seqNum + 1) % 0x1_0000, timestamp := (h.timestamp + 1025) % 0x1_0000_0000)
    ensures socket.answers == old(socket.answers) + [ret == 0]
    ensures socket.wire
         == if ret < 0 then old(socket.wire)
            else Deliver(old(socket.wire), 2, PacketBytes(old(rtpPacket.rtpHeader), AuPayload(frame)))
  {
    hide PacketBytes, Deliver;
    FillAu(rtpPacket.payload, frame);
    ret := rtpPacket.SendOver(socket, |frame| + AU_PREFIX_SIZE, 0x02);
    if ret < 0 {
      return -1;
    }
    rtpPacket.NextSeq();
    rtpPacket.AddTicks(AAC_TICKS);
    ret := 0;
  }

  method FillAu(payload: array<byte>, frame: seq<byte>)
    requires |frame| + AU_PREFIX_SIZE <= payload.Length
    modifies payload
    ensures payload[..|frame| + AU_PREFIX_SIZE] == AuPayload(frame)
  {
    payload[0] := 0x00;
    payload[1] := 0x10;
    payload[2] := |frame| / 0x20 % 0x100;
    payload[3] := |frame| % 0x20 * 8;
    CopyInto(payload, 4, frame);
  }

  /** Between frames: what was tried, what came of it, and the header it left. */
  ghost predicate Underway(wire: Wire, header: RtpHeader, w: Wire, blocks: seq<seq<byte>>, outcomes: seq<bool>) {
    && |outcomes| == |blocks|
    && wire == Transmit(w, 2, AAC_HEADER, Select(AacPlan(blocks), outcomes))
    && header == HeaderAfter(AAC_HEADER, Select(AacPlan(blocks), outcomes))
  }

  lemma NothingDone(w: Wire)
    ensures Underway(w, AAC_HEADER, w, [], [])
  {}

  lemma {:induction false} AacTicks(blocks: seq<seq<byte>>)
    ensures Ticks(AacPlan(blocks)) == 1025 * |blocks|
  {
    hide AuPayload;
    if blocks != [] {
      var n := |blocks| - 1;
      AacTicks(blocks[..n]);
      assert AacPlan(blocks)[..n] == AacPlan(blocks[..n]);
    }
  }

  /** What a receiver parses from packet k: payload type 97 with the marker, number k and 1025 ticks a block. */
  lemma AudioPacket(blocks: seq<seq<byte>>, k: nat)
    requires k < |blocks|
    ensures ParsePacket(PacketsOf(AAC_HEADER, AacPlan(blocks))[k])
         == Some(Packet(
                   RtpHeader(0, 0, 0, 2, 97, 1, k % 0x1_0000, 1025 * k % 0x1_0000_0000, 0x32611),
                   AuPayload(blocks[k])))
  {
    hide AuPayload, ParsePacket, PacketsOf, Ticks;
    PacketParses(AAC_HEADER, AacPlan(blocks), k);
    AacTicks(blocks[..k]);
    assert AacPlan(blocks)[..k] == AacPlan(blocks[..k]);
  }

  /** One block further: the number moves by one and the timestamp by 1025. */
  lemma NextBlock(h: RtpHeader)
    ensures Advance(h, 1, AAC_TICKS)
         == h.(seqNum := (h.seqNum + 1) % 0x1_0000, timestamp := (h.timestamp + 1025) % 0x1_0000_0000)
  {}

  lemma OneTried(wire: Wire, header: RtpHeader, w: Wire, blocks: seq<seq<byte>>, outcomes: seq<bool>,
                 block: seq<byte>, ok: bool)
    requires Underway(wire, header, w, blocks, outcomes)
    ensures
      var wire' := if ok then Deliver(wire, 2, PacketBytes(header, AuPayload(block))) else wire;
      var header' := if ok then Advance(header, 1, AAC_TICKS) else header;
      Underway(wire', header', w, blocks + [block], outcomes + [ok])
  {
    hide PacketBytes, Deliver, Advance, AuPayload, Transmit, HeaderAfter, Select;
    var plan, item := AacPlan(blocks), AacItem(block);
    assert AacPlan(blocks + [block]) == plan + [item];
    SelectOneMore(plan, outcomes, item, ok);
    var sent := Select(plan, outcomes);
    OneMore(w, 2, AAC_HEADER, sent, item);
    assert sent + [] == sent;
  }

  /** What is still to come, after the blocks already tried, completes the whole run. */
  ghost predicate Remaining(total: AacRun, blocks: seq<seq<byte>>, buf: FrameBuffer, offset: nat, rest: seq<byte>) {
    var run := Run(buf, offset, rest);
    total == AacRun(blocks + run.blocks, run.end)
  }

  lemma RemainingTurn(total: AacRun, blocks: seq<seq<byte>>, buf: FrameBuffer, offset: nat, rest: seq<byte>)
    requires Remaining(total, blocks, buf, offset, rest)
    ensures
      match TakeTurn(buf, offset, rest)
      case Stop(end) => total == AacRun(blocks, end)
      case Block(data, buf', offset', consumed) =>
        Remaining(total, blocks + [data], buf', offset', rest[consumed..])
  {}

  method ReadBlock(fp: InputFile, frame: array<byte>, offset: nat, h: AdtsHeader, ghost header: nat)
    returns (stopped: bool, end: AacEnd, data: seq<byte>, next: nat)
    requires fp.Valid() && frame.Length == AAC_BUFFER_SIZE
    modifies fp, frame
    ensures fp.Valid()
    ensures
      match TakeBlock(old(frame[..]), offset, fp.data[old(fp.pos)..], h, header)
      case Stop(e) => stopped && end == e
      case Block(d, buf, o, consumed) =>
        && !stopped && data == d && next == o && frame[..] == buf
        && |d| + AU_PREFIX_SIZE <= AAC_BUFFER_SIZE - RTP_HEADER_SIZE
        && header + fp.pos == old(fp.pos) + consumed
  {
    stopped, end, data, next := true, NoData, [], offset;
    ghost var buf: FrameBuffer := frame[..];
    ghost var rest := fp.data[fp.pos..];
    var wanted := Wanted(h);
    var crc := if h.protectionAbsent == 0 then CRC_SIZE else 0;
    var available := fp.Available(wanted);
    if available > 0 && (offset + available > AAC_BUFFER_SIZE || available < crc
       || available - crc + AU_PREFIX_SIZE > AAC_BUFFER_SIZE - RTP_HEADER_SIZE) {
      end := Overrun;
      return;
    }
    if available == 0 {
      return;
    }
    var rSize := fp.Read(frame, offset, wanted);
    assert frame[..] == Put(buf, offset, rest[..rSize]);
    stopped := false;
    data := frame[offset + crc..offset + rSize];
    assert data == rest[crc..rSize];
    next := offset + crc;
  }

  /** Read one header and one frame behind it, or find out why the loop stops. */
  method ReadFrame(fp: InputFile, frame: array<byte>, offset: nat)
    returns (stopped: bool, end: AacEnd, data: seq<byte>, next: nat)
    requires fp.Valid() && frame.Length == AAC_BUFFER_SIZE
    modifies fp, frame
    ensures fp.Valid()
    ensures
      match TakeTurn(old(frame[..]), offset, fp.data[old(fp.pos)..])
      case Stop(e) => stopped && end == e
      case Block(d, buf, o, consumed) =>
        && !stopped && data == d && next == o && frame[..] == buf
        && |d| + AU_PREFIX_SIZE <= AAC_BUFFER_SIZE - RTP_HEADER_SIZE
        && fp.pos == old(fp.pos) + consumed
  {
    hide ParseAdtsHeader;
    stopped, end, data, next := true, EndOfFile, [], offset;
    ghost var buf: FrameBuffer := frame[..];
    ghost var rest := fp.data[fp.pos..];
    if fp.AtEnd() {
      return;
    }
    if offset + ADTS_HEADER_SIZE > AAC_BUFFER_SIZE {
      end := Overrun;
      return;
    }
    var rSize := fp.Read(frame, offset, ADTS_HEADER_SIZE);
    assert frame[..] == Put(buf, offset, rest[..rSize]);
    var parsed := ParseAdtsHeader(frame[offset..offset + ADTS_HEADER_SIZE]);
    if parsed.None? {
      end := BadHeader;
      return;
    }
    assert fp.data[fp.pos..] == rest[rSize..];
    stopped, end, data, next := ReadBlock(fp, frame, offset, parsed.value, rSize);
  }

  /**
   The audio loop over either transport. Every block of the run is tried once, in order; those
   whose send failed leave no trace, not even in the sequence numbers.
   */
  method SendAac(file: Option<seq<byte>>, socket: Socket)
    returns (ret: int, end: AacEnd, ghost buf: FrameBuffer, ghost outcomes: seq<bool>)
    modifies socket
    ensures file.None? ==> ret == -1 && socket.wire == old(socket.wire)
    ensures socket.answers == old(socket.answers) + outcomes
    ensures file.Some? ==>
      var run := Run(buf, 0, file.value);
      && ret == 0 && end == run.end
      && |outcomes| == |run.blocks|
      && socket.wire == Transmit(old(socket.wire), 2, AAC_HEADER, Select(AacPlan(run.blocks), outcomes))
  {
    hide Transmit, HeaderAfter, Run, Select, Underway;
    var frame := new byte[AAC_BUFFER_SIZE];
    buf := frame[..];
    if file.None? {
      return -1, EndOfFile, buf, [];
    }
    var fp := new InputFile(file.value);
    var rtpPacket := new RtpPacket(AAC_BUFFER_SIZE);
    rtpPacket.RtpHeaderInit(0, 0, 0, RTP_VERSION, RTP_PAYLOAD_TYPE_AAC, 1, 0, 0, 0x32611);
    end, outcomes := SendBlocks(fp, socket, rtpPacket, frame);
    assert file.value[0..] == file.value;
    ret := 0;
  }

  method SendBlocks(fp: InputFile, socket: Socket, rtpPacket: RtpPacket, frame: array<byte>)
    returns (end: AacEnd, ghost outcomes: seq<bool>)
    requires fp.Valid() && frame.Length == AAC_BUFFER_SIZE
    requires rtpPacket.payload.Length == AAC_BUFFER_SIZE - RTP_HEADER_SIZE && rtpPacket.payload != frame
    requires rtpPacket.rtpHeader == AAC_HEADER
    modifies fp, socket, rtpPacket, rtpPacket.payload, frame
    ensures
      var run := Run(old(frame[..]), 0, fp.data[old(fp.pos)..]);
      && end == run.end
      && |outcomes| == |run.blocks|
      && socket.wire == Transmit(old(socket.wire), 2, AAC_HEADER, Select(AacPlan(run.blocks), outcomes))
    ensures socket.answers == old(socket.answers) + outcomes
  {
    hide Transmit, HeaderAfter, Run, Select, TakeTurn, PacketBytes, Deliver, Advance, AuPayload, Underway, Remaining;
    ghost var w, total := socket.wire, Run(frame[..], 0, fp.data[fp.pos..]);
    ghost var blocks: seq<seq<byte>> := [];
    outcomes := [];
    var offset := 0;
    NothingDone(w);
    RemainingAll(frame[..], fp.data[fp.pos..]);
    while true
      invariant fp.Valid()
      invariant Underway(socket.wire, rtpPacket.rtpHeader, w, blocks, outcomes)
      invariant Remaining(total, blocks, frame[..], offset, fp.data[fp.pos..])
      invariant socket.answers == old(socket.answers) + outcomes
      decreases |fp.data| - fp.pos
    {
      RemainingTurn(total, blocks, frame[..], offset, fp.data[fp.pos..]);
      var stopped, data, next;
      stopped, end, data, next := ReadFrame(fp, frame, offset);
      if stopped {
        UnderwayMeaning(socket.wire, rtpPacket.rtpHeader, w, blocks, outcomes);
        return;
      }
      offset := next;
      ghost var wire, header := socket.wire, rtpPacket.rtpHeader;
      NextBlock(header);
      var ret := SendAacFrame(socket, rtpPacket, data);
      OneTried(wire, header, w, blocks, outcomes, data, ret == 0);
      ConcatAssoc(old(socket.answers), outcomes, [ret == 0]);
      blocks, outcomes := blocks + [data], outcomes + [ret == 0];
    }
  }

  lemma UnderwayMeaning(wire: Wire, header: RtpHeader, w: Wire, blocks: seq<seq<byte>>, outcomes: seq<bool>)
    requires Underway(wire, header, w, blocks, outcomes)
    ensures |outcomes| == |blocks|
    ensures wire == Transmit(w, 2, AAC_HEADER, Select(AacPlan(blocks), outcomes))
  {}

  lemma RemainingAll(buf: FrameBuffer, rest: seq<byte>)
    ensures Remaining(Run(buf, 0, rest), [], buf, 0, rest)
  {}
}
