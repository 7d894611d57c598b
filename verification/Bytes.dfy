/** Octets, fixed-width unsigned integers and their byte orders. */
module Bytes {

  type byte = x: int | 0 <= x < 0x100
  type uint16 = x: int | 0 <= x < 0x1_0000
  type uint32 = x: int | 0 <= x < 0x1_0000_0000

  datatype Option<+T> = None | Some(value: T)

  // ----- Quotients, remainders and wrap-around -----

  /** The quotient and remainder are the only ones there are. */
  lemma DivMod(x: nat, q: nat, r: nat, m: nat)
    requires r < m && x == q * m + r
    ensures x / m == q && x % m == r
  {
    var d := x / m - q;
    Euclid(x, m);
    assert d * m == x / m * m - q * m;
    NoSmallMultiple(d, m);
  }

  lemma NoSmallMultiple(d: int, m: int)
    requires -m < d * m < m
    ensures d == 0
  {}

  /** Adding step by step under wrap-around is adding once. */
  lemma WrapAdd(x: nat, a: nat, b: nat, m: nat)
    requires m > 0
    ensures ((x + a) % m + b) % m == (x + a + b) % m
  {
    var q, r := (x + a) / m, (x + a) % m;
    var q', r' := (r + b) / m, (r + b) % m;
    Euclid(x + a, m);
    Euclid(r + b, m);
    Distribute(q, q', m);
    DivMod(x + a + b, q + q', r', m);
  }

  lemma Euclid(x: nat, m: nat)
    requires m > 0
    ensures x == x / m * m + x % m
  {}

  lemma Distribute(q: nat, q': nat, m: nat)
    ensures (q + q') * m == q * m + q' * m
  {}

  // ----- Byte orders -----

  /** How a little-endian host lays a 16-bit field out in memory. */
  function LittleEndian16(x: uint16): seq<byte> {
    [x % 0x100, x / 0x100]
  }

  /** The network order of a 16-bit field: most significant octet first. */
  function BigEndian16(x: uint16): seq<byte> {
    [x / 0x100, x % 0x100]
  }

  /** How a little-endian host lays a 32-bit field out in memory. */
  function LittleEndian32(x: uint32): seq<byte> {
    LittleEndian16(x % 0x1_0000) + LittleEndian16(x / 0x1_0000)
  }

  /** The network order of a 32-bit field: most significant octet first. */
  function BigEndian32(x: uint32): seq<byte> {
    BigEndian16(x / 0x1_0000) + BigEndian16(x % 0x1_0000)
  }

  function FromBigEndian16(hi: byte, lo: byte): uint16 {
    hi * 0x100 + lo
  }

  function FromBigEndian32(b3: byte, b2: byte, b1: byte, b0: byte): uint32 {
    FromBigEndian16(b3, b2) * 0x1_0000 + FromBigEndian16(b1, b0)
  }

  /** htons and ntohs on a little-endian host: swap the two octets. */
  function Swap16(x: uint16): uint16 {
    x % 0x100 * 0x100 + x / 0x100
  }

  /** htonl and ntohl on a little-endian host: reverse the four octets. */
  function Swap32(x: uint32): uint32 {
    Swap16(x % 0x1_0000) * 0x1_0000 + Swap16(x / 0x1_0000)
  }

  lemma Swap16Laws(x: uint16)
    ensures Swap16(Swap16(x)) == x
    ensures LittleEndian16(Swap16(x)) == BigEndian16(x)
  {
    DivMod(Swap16(x), x % 0x100, x / 0x100, 0x100);
  }

  /** Swapping twice is the identity, and a swapped field lies in memory in network order. */
  lemma Swap32Laws(x: uint32)
    ensures Swap32(Swap32(x)) == x
    ensures LittleEndian32(Swap32(x)) == BigEndian32(x)
  {
    var hi, lo := x / 0x1_0000, x % 0x1_0000;
    Swap16Laws(hi);
    Swap16Laws(lo);
    hide Swap16, LittleEndian16, BigEndian16;
    DivMod(Swap32(x), Swap16(lo), Swap16(hi), 0x1_0000);
  }

  // ----- Sequences -----

  lemma ConcatSlices<T>(a: seq<T>, b: seq<T>, from: nat, to: nat)
    requires from <= to <= |a|
    ensures (a + b)[from..to] == a[from..to]
    ensures (a + b)[to..] == a[to..] + b
  {}

  lemma ConcatAssoc<T>(a: seq<T>, b: seq<T>, c: seq<T>)
    ensures (a + b) + c == a + (b + c)
  {}

  lemma SliceOfTail<T>(s: seq<T>, from: nat, lo: nat, hi: nat)
    requires lo <= hi && from + hi <= |s|
    ensures s[from..][lo..hi] == s[from + lo..from + hi]
  {}

  lemma InTheMiddle<T>(a: seq<T>, b: seq<T>, c: seq<T>, i: nat)
    requires i < |b|
    ensures (a + b + c)[|a| + i] == b[i] && (a + b + c)[..|a| + i] == a + b[..i]
  {}

  // ----- Copying -----

  /** memcpy between distinct buffers. */
  method CopyInto(dst: array<byte>, at: nat, src: seq<byte>)
    requires at + |src| <= dst.Length
    modifies dst
    ensures dst[..] == old(dst[..at]) + src + old(dst[at + |src|..])
  {
    forall k | 0 <= k < |src| {
      dst[at + k] := src[k];
    }
    assert dst[..at] == old(dst[..at]);
    assert dst[at..at + |src|] == src;
    assert dst[at + |src|..] == old(dst[at + |src|..]);
    assert dst[..] == dst[..at] + dst[at..at + |src|] + dst[at + |src|..];
  }
}
