/**
 The audio file loop on values: what the thread reads, what it takes for a raw block, and when
 it stops. A run of the C code that would read or write outside its buffers is cut off there
 and reported as an overrun.
 */
module AacStream {
  import opened Bytes
  import opened Rtp
  import opened Transmission
  import opened Adts

  const AAC_BUFFER_SIZE: nat := 50000
  const CRC_SIZE := 2
  const AU_PREFIX_SIZE := 4
  const AAC_TICKS := 1025

  type FrameBuffer = b: seq<byte> | |b| == AAC_BUFFER_SIZE witness seq(AAC_BUFFER_SIZE, _ => 0)

  datatype AacEnd = EndOfFile | BadHeader | NoData | Overrun

  /** The raw blocks sent, or tried, and why the loop ended. */
  datatype AacRun = AacRun(blocks: seq<seq<byte>>, end: AacEnd)

  function Min(a: nat, b: nat): nat {
    if a <= b then a else b
  }

  /** The buffer after fread to offset `at`. */
  function Put(buf: FrameBuffer, at: nat, data: seq<byte>): FrameBuffer
    requires at + |data| <= AAC_BUFFER_SIZE
  {
    buf[..at] + data + buf[at + |data|..]
  }

  /** aacFrameLength - 7, in unsigned 32-bit arithmetic. */
  function Wanted(h: AdtsHeader): nat {
    (h.aacFrameLength - ADTS_HEADER_SIZE) % 0x1_0000_0000
  }

  /**
   One turn of the loop: the block it sends and how many octets of the file it consumes, or why
   it sends none. `offset` is how far the frame pointer has moved.
   */
  datatype Turn = Block(data: seq<byte>, buf: FrameBuffer, offset: nat, consumed: nat) | Stop(end: AacEnd)

  function TakeHeader(buf: FrameBuffer, offset: nat, rest: seq<byte>): (FrameBuffer, Option<AdtsHeader>)
    requires offset + ADTS_HEADER_SIZE <= AAC_BUFFER_SIZE
  {
    var buf' := Put(buf, offset, rest[..Min(ADTS_HEADER_SIZE, |rest|)]);
    (buf', ParseAdtsHeader(buf'[offset..offset + ADTS_HEADER_SIZE]))
  }

  function TakeTurn(buf: FrameBuffer, offset: nat, rest: seq<byte>): (turn: Turn)
    ensures turn.Block? ==> 0 < turn.consumed <= |rest|
  {
    if rest == [] then Stop(EndOfFile)
    else if offset + ADTS_HEADER_SIZE > AAC_BUFFER_SIZE then Stop(Overrun)
    else
      var header := Min(ADTS_HEADER_SIZE, |rest|);
      match TakeHeader(buf, offset, rest)
      case (_, None) => Stop(BadHeader)
      case (buf', Some(h)) => TakeBlock(buf', offset, rest[header..], h, header)
  }

  function TakeBlock(buf: FrameBuffer, offset: nat, rest: seq<byte>, h: AdtsHeader, header: nat): (turn: Turn)
    ensures turn.Block? ==> header < turn.consumed <= header + |rest|
  {
    var n := Min(Wanted(h), |rest|);
    var crc := if h.protectionAbsent == 0 then CRC_SIZE else 0;
    if n == 0 then Stop(NoData)
    else if offset + n > AAC_BUFFER_SIZE || n < crc
            || n - crc + AU_PREFIX_SIZE > AAC_BUFFER_SIZE - RTP_HEADER_SIZE then Stop(Overrun)
    else Block(rest[crc..n], Put(buf, offset, rest[..n]), offset + crc, header + n)
  }

  function Run(buf: FrameBuffer, offset: nat, rest: seq<byte>): AacRun
    decreases |rest|
  {
    match TakeTurn(buf, offset, rest)
    case Stop(end) => AacRun([], end)
    case Block(data, buf', offset', consumed) =>
      var tail := Run(buf', offset', rest[consumed..]);
      AacRun([data] + tail.blocks, tail.end)
  }

  // ----- Any file -----

  lemma ShortPut(buf: FrameBuffer, at: nat, data: seq<byte>, k: nat)
    requires at + |data| <= AAC_BUFFER_SIZE && at + k < AAC_BUFFER_SIZE
    ensures Put(buf, at, data)[at + k] == if k < |data| then data[k] else buf[at + k]
  {}

  /**
   The loop ends in a bad header with nothing sent exactly if the first twelve bits it finds, which
   a last octet alone completes from the buffer, are not all ones.
   */
  lemma BadHeaderExactly(buf: FrameBuffer, offset: nat, rest: seq<byte>)
    ensures Run(buf, offset, rest) == AacRun([], BadHeader) <==>
      && rest != [] && offset + 7 <= 50000
      && (rest[0] < 0xFF || (if |rest| > 1 then rest[1] else buf[offset + 1]) < 0xF0)
  {
    hide ParseAdtsHeader, Put;
    if rest != [] && offset + ADTS_HEADER_SIZE <= AAC_BUFFER_SIZE {
      var data := rest[..Min(ADTS_HEADER_SIZE, |rest|)];
      var b := Put(buf, offset, data)[offset..offset + ADTS_HEADER_SIZE];
      ShortPut(buf, offset, data, 0);
      ShortPut(buf, offset, data, 1);
      RefusedExactly(b);
    }
  }

  /**
   One turn over any octets that start with a full header. The frame ends where its length field
   says, or with the file: cut short, or because a length below seven wraps around. Its raw block is
   what follows the header and, unless bit 15 is set, two octets of CRC.
   */
  lemma TurnMeaning(buf: FrameBuffer, offset: nat, rest: seq<byte>)
    requires |rest| >= 7 && rest[0] == 0xFF && rest[1] >= 0xF0 && offset + 7 <= 50000
    ensures
      var b3: int, b4: int, b5: int := rest[3], rest[4], rest[5];
      var length, crc := b3 % 4 * 2048 + b4 * 8 + b5 / 32, if rest[1] % 2 == 0 then 2 else 0;
      var end := if 7 <= length <= |rest| then length else |rest|;
      var turn := TakeTurn(buf, offset, rest);
      if end == 7 then turn == Stop(NoData)
      else if end - 7 < crc || offset + end - 7 > 50000 || end - 7 - crc > 49984 then turn == Stop(Overrun)
      else turn.Block? && turn.data == rest[7 + crc..end] && turn.offset == offset + crc && turn.consumed == end
  {
    hide Put, ParseAdtsHeader, Wanted;
    PutThere(buf, offset, rest[..7]);
    LengthAndCrc(rest[..7]);
    var h := ParseAdtsHeader(rest[..7]).value;
    WantedMeaning(h);
    var n, crc := Min(Wanted(h), |rest| - 7), if h.protectionAbsent == 0 then 2 else 0;
    assert TakeTurn(buf, offset, rest) == TakeBlock(Put(buf, offset, rest[..7]), offset, rest[7..], h, 7);
    assert n <= 50000 ==> 7 + n == if 7 <= h.aacFrameLength <= |rest| then h.aacFrameLength else |rest|;
    if crc <= n {
      SliceOfTail(rest, 7, crc, n);
    }
  }

  lemma LengthAndCrc(b: seq<byte>)
    requires |b| == 7 && b[0] == 0xFF && b[1] >= 0xF0
    ensures
      var b3: int, b4: int, b5: int := b[3], b[4], b[5];
      var parsed := ParseAdtsHeader(b);
      && parsed.Some?
      && parsed.value.protectionAbsent == b[1] % 2
      && parsed.value.aacFrameLength == b3 % 4 * 2048 + b4 * 8 + b5 / 32
  {}

  lemma WantedMeaning(h: AdtsHeader)
    ensures Wanted(h) == if h.aacFrameLength >= 7 then h.aacFrameLength - 7 else h.aacFrameLength + 4294967289
  {}

  // ----- Files of well-formed frames -----

  datatype AdtsFrame = AdtsFrame(header: AdtsHeader, crc: seq<byte>, raw: seq<byte>)

  predicate WellFormed(f: AdtsFrame) {
    && |f.crc| == (if f.header.protectionAbsent == 0 then CRC_SIZE else 0)
    && f.raw != []
    && f.header.aacFrameLength == ADTS_HEADER_SIZE + |f.crc| + |f.raw|
  }

  predicate AllWellFormed(frames: seq<AdtsFrame>) {
    forall i :: 0 <= i < |frames| ==> WellFormed(frames[i])
  }

  function FrameBytes(f: AdtsFrame): seq<byte> {
    Encode(f.header) + (f.crc + f.raw)
  }

  function FileBytes(frames: seq<AdtsFrame>): seq<byte> {
    if frames == [] then [] else FrameBytes(frames[0]) + FileBytes(frames[1..])
  }

  function Raws(frames: seq<AdtsFrame>): (raws: seq<seq<byte>>)
    ensures |raws| == |frames|
    ensures forall i :: 0 <= i < |frames| ==> raws[i] == frames[i].raw
  {
    seq(|frames|, i requires 0 <= i < |frames| => frames[i].raw)
  }

  /** Header and body of a frame stay inside the buffer behind the given offset. */
  predicate Inside(f: AdtsFrame, offset: nat) {
    offset + ADTS_HEADER_SIZE <= AAC_BUFFER_SIZE && offset + |f.crc| + |f.raw| <= AAC_BUFFER_SIZE
  }

  /** How many frames get through: the frame pointer moves past every CRC and never moves back. */
  function Reach(frames: seq<AdtsFrame>, offset: nat): (n: nat)
    ensures n <= |frames|
  {
    if frames == [] || !Inside(frames[0], offset) then 0
    else 1 + Reach(frames[1..], offset + |frames[0].crc|)
  }

  function CrcFrames(frames: seq<AdtsFrame>): nat {
    if frames == [] then 0 else (if frames[0].crc == [] then 0 else 1) + CrcFrames(frames[1..])
  }

  /** Where the frame pointer stands before frame i: two octets behind every CRC frame so far. */
  function OffsetAt(frames: seq<AdtsFrame>, offset: nat, i: nat): nat
    requires i <= |frames|
  {
    offset + 2 * CrcFrames(frames[..i])
  }

  lemma OffsetShift(frames: seq<AdtsFrame>, offset: nat, i: nat)
    requires 1 <= i <= |frames| && WellFormed(frames[0])
    ensures OffsetAt(frames, offset, i) == OffsetAt(frames[1..], offset + |frames[0].crc|, i - 1)
    ensures OffsetAt(frames, offset, 0) == offset
  {
    assert frames[..i][1..] == frames[1..][..i - 1];
    assert frames[..0] == [];
  }

  /** Reach in closed form: frame k gets through if and only if it and all before it stay inside. */
  lemma {:induction false} ReachMeaning(frames: seq<AdtsFrame>, offset: nat, k: nat)
    requires AllWellFormed(frames)
    requires k < |frames|
    ensures k < Reach(frames, offset)
       <==> forall i :: 0 <= i <= k ==> Inside(frames[i], OffsetAt(frames, offset, i))
    decreases k
  {
    hide Inside, OffsetAt, WellFormed;
    var rest, next := frames[1..], offset + |frames[0].crc|;
    OffsetShift(frames, offset, 1);
    if k > 0 && Inside(frames[0], offset) {
      ReachMeaning(rest, next, k - 1);
      forall i | 1 <= i <= k
        ensures Inside(frames[i], OffsetAt(frames, offset, i)) == Inside(rest[i - 1], OffsetAt(rest, next, i - 1))
      {
        OffsetShift(frames, offset, i);
      }
      forall j | 0 <= j <= k - 1
        ensures Inside(frames[j + 1], OffsetAt(frames, offset, j + 1)) == Inside(rest[j], OffsetAt(rest, next, j))
      {}
    }
  }

  /** One well-formed frame at the front of the file gives its raw block, or the overrun. */
  lemma TurnOfFrame(buf: FrameBuffer, offset: nat, f: AdtsFrame, tail: seq<byte>)
    requires WellFormed(f)
    ensures
      var turn := TakeTurn(buf, offset, FrameBytes(f) + tail);
      if Inside(f, offset) then
        turn.Block? && turn.data == f.raw && turn.offset == offset + |f.crc| && turn.consumed == |FrameBytes(f)|
      else turn == Stop(Overrun)
  {
    hide Encode, ParseAdtsHeader, Put;
    var rest, body := FrameBytes(f) + tail, f.crc + f.raw;
    assert rest[..ADTS_HEADER_SIZE] == Encode(f.header);
    assert rest[ADTS_HEADER_SIZE..] == body + tail;
    if offset + ADTS_HEADER_SIZE <= AAC_BUFFER_SIZE {
      PutThere(buf, offset, Encode(f.header));
      ParseEncoded(f.header);
      assert (body + tail)[|f.crc|..|body|] == f.raw;
    }
  }

  lemma {:induction false} RepeatedCrc(f: AdtsFrame, n: nat)
    requires f.crc != []
    ensures CrcFrames(seq(n, _ => f)) == n
  {
    if n > 0 {
      RepeatedCrc(f, n - 1);
      assert seq(n, _ => f)[1..] == seq(n - 1, _ => f);
    }
  }

  /** A file of 25000 equal frames with CRC is never sent to its end. */
  lemma CrcFramesOverrun(buf: FrameBuffer, f: AdtsFrame)
    requires WellFormed(f) && f.header.protectionAbsent == 0
    ensures Run(buf, 0, FileBytes(seq(25000, _ => f))).end == Overrun
  {
    hide Run, WellFormed;
    var frames, k := seq(25000, _ => f), 24999;
    RunOfFrames(buf, 0, frames);
    ReachMeaning(frames, 0, k);
    assert frames[..k] == seq(k, _ => f);
    CrcThere(f);
    RepeatedCrc(f, k);
    assert !Inside(frames[k], OffsetAt(frames, 0, k));
  }

  lemma CrcThere(f: AdtsFrame)
    requires WellFormed(f) && f.header.protectionAbsent == 0
    ensures f.crc != []
  {}

  lemma PutThere(buf: FrameBuffer, at: nat, data: seq<byte>)
    requires at + |data| <= AAC_BUFFER_SIZE
    ensures Put(buf, at, data)[at..at + |data|] == data
  {}

  /**
   Over a file of well-formed frames the loop takes exactly the raw blocks of the frames it
   reaches: all of them up to the end of the file, or those before the first that would overrun.
   */
  lemma {:induction false} RunOfFrames(buf: FrameBuffer, offset: nat, frames: seq<AdtsFrame>)
    requires AllWellFormed(frames)
    ensures
      var n := Reach(frames, offset);
      Run(buf, offset, FileBytes(frames))
      == AacRun(Raws(frames[..n]), if n == |frames| then EndOfFile else Overrun)
    decreases |frames|
  {
    hide TakeTurn, FrameBytes, Inside;
    if frames == [] {
      assert TakeTurn(buf, offset, []) == Stop(EndOfFile) by { TurnAtEnd(buf, offset); }
      assert Raws(frames[..0]) == [];
    } else {
      var f, rest := frames[0], frames[1..];
      var bytes := FileBytes(frames);
      TurnOfFrame(buf, offset, f, FileBytes(rest));
      var turn := TakeTurn(buf, offset, bytes);
      if turn.Block? {
        assert bytes[turn.consumed..] == FileBytes(rest);
        RunOfFrames(turn.buf, turn.offset, rest);
        var n := Reach(rest, turn.offset);
        assert [f.raw] + Raws(rest[..n]) == Raws(frames[..n + 1]);
      } else {
        assert Raws(frames[..0]) == [];
      }
    }
  }

  lemma TurnAtEnd(buf: FrameBuffer, offset: nat)
    ensures TakeTurn(buf, offset, []) == Stop(EndOfFile)
  {}

  // ----- Access units on the wire: RFC 3640 sections 3.2.1 and 3.3.6 -----

  /** One AU header of 13 + 3 bits, behind the 16-bit count of AU header bits. */
  function AuPayload(block: seq<byte>): seq<byte> {
    [0x00, 0x10, |block| / 0x20 % 0x100, |block| % 0x20 * 8] + block
  }

  function DecodeAu(payload: seq<byte>): Option<seq<byte>> {
    if |payload| < AU_PREFIX_SIZE || FromBigEndian16(payload[0], payload[1]) != 16 then None
    else
      var size, index := payload[2] as int * 0x20 + payload[3] / 8, payload[3] % 8;
      if index != 0 || |payload| != AU_PREFIX_SIZE + size then None else Some(payload[AU_PREFIX_SIZE..])
  }

  /** The decoder gets a block back exactly if its size fits the 13 bits of the AU header. */
  lemma AuRoundTrip(block: seq<byte>)
    ensures DecodeAu(AuPayload(block)) == Some(block) <==> |block| < 0x2000
  {
    var p, n := AuPayload(block), |block|;
    assert p[AU_PREFIX_SIZE..] == block;
    DivMod(n % 0x20 * 8, n % 0x20, 0, 8);
    assert n == n / 0x20 * 0x20 + n % 0x20;
    if n < 0x2000 {
      DivMod(n / 0x20, 0, n / 0x20, 0x100);
    }
  }

  function AacItem(block: seq<byte>): Item {
    Item(AuPayload(block), AAC_TICKS)
  }

  function AacPlan(blocks: seq<seq<byte>>): (plan: Plan)
    ensures |plan| == |blocks|
    ensures forall i :: 0 <= i < |blocks| ==> plan[i] == AacItem(blocks[i])
  {
    seq(|blocks|, i requires 0 <= i < |blocks| => AacItem(blocks[i]))
  }

  function DecodeAll(payloads: seq<seq<byte>>): Option<seq<seq<byte>>> {
    if payloads == [] then Some([])
    else match (DecodeAll(payloads[..|payloads| - 1]), DecodeAu(payloads[|payloads| - 1]))
      case (Some(front), Some(last)) => Some(front + [last])
      case _ => None
  }

  lemma {:induction false} PlanDecodes(blocks: seq<seq<byte>>)
    requires forall i :: 0 <= i < |blocks| ==> |blocks[i]| < 0x2000
    ensures DecodeAll(Payloads(AacPlan(blocks))) == Some(blocks)
  {
    hide DecodeAu, AuPayload;
    if blocks != [] {
      var n := |blocks| - 1;
      var payloads := Payloads(AacPlan(blocks));
      PlanDecodes(blocks[..n]);
      AuRoundTrip(blocks[n]);
      assert payloads[..n] == Payloads(AacPlan(blocks[..n]));
      assert blocks[..n] + [blocks[n]] == blocks;
    }
  }

  // ----- Failed sends -----

  /** The items whose sends succeeded. */
  function Select<T>(items: seq<T>, outcomes: seq<bool>): seq<T>
    requires |items| == |outcomes|
  {
    if items == [] then []
    else
      var n := |items| - 1;
      Select(items[..n], outcomes[..n]) + if outcomes[n] then [items[n]] else []
  }

  lemma SelectOneMore<T>(items: seq<T>, outcomes: seq<bool>, item: T, ok: bool)
    requires |items| == |outcomes|
    ensures Select(items + [item], outcomes + [ok]) == Select(items, outcomes) + if ok then [item] else []
  {}

  /** The plan of the blocks that got through is the part of the plan that got through. */
  lemma {:induction false} SelectPlan(blocks: seq<seq<byte>>, outcomes: seq<bool>)
    requires |blocks| == |outcomes|
    ensures Select(AacPlan(blocks), outcomes) == AacPlan(Select(blocks, outcomes))
  {
    hide AuPayload;
    if blocks == [] {
      assert AacPlan(blocks) == [] && AacPlan([]) == [];
    } else {
      var n := |blocks| - 1;
      SelectPlan(blocks[..n], outcomes[..n]);
      assert AacPlan(blocks)[..n] == AacPlan(blocks[..n]);
    }
  }

  lemma {:induction false} SelectAll<T>(items: seq<T>, outcomes: seq<bool>)
    requires |items| == |outcomes|
    ensures false !in outcomes ==> Select(items, outcomes) == items
    ensures forall x :: x in Select(items, outcomes) ==> x in items
  {
    if items != [] {
      var n := |items| - 1;
      SelectAll(items[..n], outcomes[..n]);
      assert items == items[..n] + [items[n]];
    }
  }
}
