/** ADTS headers (ISO/IEC 13818-7 section 6.2): the layout, and the parser as the server has it. */
module Adts {
  import opened Bytes
  import opened Rtp

  const ADTS_HEADER_SIZE := 7

  type uint3 = x: int | 0 <= x < 8
  type uint11 = x: int | 0 <= x < 0x800
  type uint13 = x: int | 0 <= x < 0x2000

  datatype AdtsHeader = AdtsHeader(
    id: bit, layer: uint2, protectionAbsent: bit,
    profile: uint2, samplingFreqIndex: uint4, privateBit: bit, channelCfg: uint3,
    originalCopy: bit, home: bit,
    copyrightIdentificationBit: bit, copyrightIdentificationStart: bit,
    aacFrameLength: uint13, adtsBufferFullness: uint11, numberOfRawDataBlockInFrame: uint2)

  /** The seven octets the standard lays the fields out in. */
  function Encode(h: AdtsHeader): (bytes: seq<byte>)
    ensures |bytes| == ADTS_HEADER_SIZE
  {
    [0xFF,
     0xF0 + 8 * h.id + 2 * h.layer + h.protectionAbsent,
     0x40 * h.profile + 4 * h.samplingFreqIndex + 2 * h.privateBit + h.channelCfg / 4,
     0x40 * (h.channelCfg % 4) + 0x20 * h.originalCopy + 0x10 * h.home
       + 8 * h.copyrightIdentificationBit + 4 * h.copyrightIdentificationStart + h.aacFrameLength / 0x800,
     h.aacFrameLength / 8 % 0x100,
     0x20 * (h.aacFrameLength % 8) + h.adtsBufferFullness / 0x40,
     4 * (h.adtsBufferFullness % 0x40) + h.numberOfRawDataBlockInFrame]
  }

  /** The parser's masks and shifts on one octet are quotients and remainders. */
  lemma ParserMasks(b: bv8)
    ensures b & 0xF0 == 0xF0 <==> b / 0x10 == 0xF
    ensures (b & 0x08) >> 3 == b / 8 % 2 && (b & 0x06) >> 1 == b / 2 % 4 && b & 0x01 == b % 2
    ensures (b & 0xC0) >> 6 == b / 0x40 && (b & 0x3C) >> 2 == b / 4 % 0x10 && (b & 0x02) >> 1 == b / 2 % 2
    ensures (b & 0x20) >> 5 == b / 0x20 % 2 && (b & 0x10) >> 4 == b / 0x10 % 2 && b & (0x04 >> 2) == b % 2
    ensures b & 0x03 == b % 4 && (b & 0xE0) >> 5 == b / 0x20 && b & 0x1F == b % 0x20 && (b & 0xFC) >> 2 == b / 4
  {}

  /**
   parseAdtsHeader. Shifting binds tighter than masking in the source, so
   copyrightIdentificationStart is taken from the lowest bit of the fourth octet.
   */
  function ParseAdtsHeader(b: seq<byte>): Option<AdtsHeader>
    requires |b| == ADTS_HEADER_SIZE
  {
    if b[0] == 0xFF && b[1] / 0x10 == 0xF then
      var b2: int, b3: int, b4: int, b5: int, b6: int := b[2], b[3], b[4], b[5], b[6];
      Some(AdtsHeader(
             b[1] / 8 % 2, b[1] / 2 % 4, b[1] % 2,
             b2 / 0x40, b2 / 4 % 0x10, b2 / 2 % 2, b2 % 2 * 4 + b3 / 0x40,
             b3 / 0x20 % 2, b3 / 0x10 % 2,
             b3 / 8 % 2, b3 % 2,
             b3 % 4 * 0x800 + b4 * 8 + b5 / 0x20,
             b5 % 0x20 * 0x40 + b6 / 4, b6 % 4))
    else None
  }

  /** A header is refused exactly if its first twelve bits, the syncword, are not all ones. */
  lemma RefusedExactly(b: seq<byte>)
    requires |b| == ADTS_HEADER_SIZE
    ensures ParseAdtsHeader(b).None? <==> b[0] < 0xFF || b[1] < 0xF0
  {}

  lemma SecondOctet(h: AdtsHeader, b: byte)
    requires b == 0xF0 + 8 * h.id + 2 * h.layer + h.protectionAbsent
    ensures b / 0x10 == 0xF && b / 8 % 2 == h.id && b / 2 % 4 == h.layer && b % 2 == h.protectionAbsent
  {
    DivMod(b, 0xF, 8 * h.id + 2 * h.layer + h.protectionAbsent, 0x10);
    DivMod(b, 30 + h.id, 2 * h.layer + h.protectionAbsent, 8);
    DivMod(b, 120 + 4 * h.id + h.layer, h.protectionAbsent, 2);
    DivMod(30 + h.id, 15, h.id, 2);
    DivMod(120 + 4 * h.id + h.layer, 30 + h.id, h.layer, 4);
  }

  lemma ThirdOctet(h: AdtsHeader, b: byte)
    requires b == 0x40 * h.profile + 4 * h.samplingFreqIndex + 2 * h.privateBit + h.channelCfg / 4
    ensures b / 0x40 == h.profile && b / 4 % 0x10 == h.samplingFreqIndex
    ensures b / 2 % 2 == h.privateBit && b % 2 == h.channelCfg / 4
  {
    var c := h.channelCfg / 4;
    DivMod(b, h.profile, 4 * h.samplingFreqIndex + 2 * h.privateBit + c, 0x40);
    DivMod(b, 0x10 * h.profile + h.samplingFreqIndex, 2 * h.privateBit + c, 4);
    DivMod(b, 0x20 * h.profile + 2 * h.samplingFreqIndex + h.privateBit, c, 2);
    DivMod(0x10 * h.profile + h.samplingFreqIndex, h.profile, h.samplingFreqIndex, 0x10);
    DivMod(0x20 * h.profile + 2 * h.samplingFreqIndex + h.privateBit,
           0x10 * h.profile + h.samplingFreqIndex, h.privateBit, 2);
  }

  lemma FourthOctet(h: AdtsHeader, b: byte, c: nat, l: nat)
    requires c < 4 && l < 4
    requires b == 0x40 * c + 0x20 * h.originalCopy + 0x10 * h.home
                  + 8 * h.copyrightIdentificationBit + 4 * h.copyrightIdentificationStart + l
    ensures b / 0x40 == c && b / 0x20 % 2 == h.originalCopy && b / 0x10 % 2 == h.home
    ensures b / 8 % 2 == h.copyrightIdentificationBit && b % 4 == l && b % 2 == l % 2
  {
    var o, m, i, s := h.originalCopy, h.home, h.copyrightIdentificationBit, h.copyrightIdentificationStart;
    DivMod(b, c, 0x20 * o + 0x10 * m + 8 * i + 4 * s + l, 0x40);
    DivMod(b, 2 * c + o, 0x10 * m + 8 * i + 4 * s + l, 0x20);
    DivMod(b, 4 * c + 2 * o + m, 8 * i + 4 * s + l, 0x10);
    DivMod(b, 8 * c + 4 * o + 2 * m + i, 4 * s + l, 8);
    DivMod(b, 0x10 * c + 8 * o + 4 * m + 2 * i + s, l, 4);
    DivMod(b, 0x20 * c + 0x10 * o + 8 * m + 4 * i + 2 * s + l / 2, l % 2, 2);
    DivMod(2 * c + o, c, o, 2);
    DivMod(4 * c + 2 * o + m, 2 * c + o, m, 2);
    DivMod(8 * c + 4 * o + 2 * m + i, 4 * c + 2 * o + m, i, 2);
  }

  lemma LastOctets(len: uint13, full: uint11, blocks: uint2, b4: byte, b5: byte, b6: byte)
    requires b4 == len / 8 % 0x100
    requires b5 == 0x20 * (len % 8) + full / 0x40
    requires b6 == 4 * (full % 0x40) + blocks
    ensures len / 0x800 * 0x800 + (b4 as int) * 8 + b5 / 0x20 == len
    ensures (b5 % 0x20) as int * 0x40 + b6 / 4 == full && b6 % 4 == blocks
  {
    DivMod(b5, len % 8, full / 0x40, 0x20);
    DivMod(b6, full % 0x40, blocks, 4);
    DivMod(len, len / 0x800, len / 8 % 0x100 * 8 + len % 8, 0x800) by {
      HighPart(len);
    }
  }

  lemma HighPart(len: uint13)
    ensures len == len / 0x800 * 0x800 + len / 8 % 0x100 * 8 + len % 8
  {
    var q := len / 8;
    assert len == 8 * q + len % 8;
    assert q == 0x100 * (q / 0x100) + q % 0x100;
    DivMod(len, q / 0x100, q % 0x100 * 8 + len % 8, 0x800);
  }

  /**
   Every field of a laid-out header parses back, except copyrightIdentificationStart, which
   comes back as bit 11 of the frame length.
   */
  lemma ParseEncoded(h: AdtsHeader)
    ensures ParseAdtsHeader(Encode(h))
         == Some(h.(copyrightIdentificationStart := h.aacFrameLength / 0x800 % 2))
  {
    var b := Encode(h);
    SecondOctet(h, b[1]);
    ThirdOctet(h, b[2]);
    FourthOctet(h, b[3], h.channelCfg % 4, h.aacFrameLength / 0x800);
    LastOctets(h.aacFrameLength, h.adtsBufferFullness, h.numberOfRawDataBlockInFrame, b[4], b[5], b[6]);
    assert h.channelCfg / 4 * 4 + h.channelCfg % 4 == h.channelCfg;
  }

  /** The header comes back unchanged exactly when the two bits happen to agree. */
  lemma ParseExactly(h: AdtsHeader)
    ensures ParseAdtsHeader(Encode(h)) == Some(h)
       <==> h.copyrightIdentificationStart == h.aacFrameLength / 0x800 % 2
  {
    ParseEncoded(h);
  }

  /** A header with the bit set and a frame shorter than 2048 octets loses the bit. */
  lemma StartBitLost(h: AdtsHeader)
    requires h.copyrightIdentificationStart == 1 && h.aacFrameLength < 0x800
    ensures ParseAdtsHeader(Encode(h)) == Some(h.(copyrightIdentificationStart := 0))
  {
    ParseEncoded(h);
  }
}
