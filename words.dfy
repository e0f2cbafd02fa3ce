/** Machine words and their little-endian byte layout: the part of rapidhash.go
    that reads 32- and 64-bit words out of a byte slice (read32, read64) and the
    encoding/binary helpers it relies on, stated by what they mean. */
module Words {

  type byte = bv8
  type u32 = bv32
  type u64 = bv64

  /** The 8 bytes of x, least significant first (binary.LittleEndian.PutUint64). */
  function EncodeLE64(x: u64): (r: seq<byte>)
    ensures |r| == 8
  {
    [(x & 0xff) as byte, ((x >> 8) & 0xff) as byte,
     ((x >> 16) & 0xff) as byte, ((x >> 24) & 0xff) as byte,
     ((x >> 32) & 0xff) as byte, ((x >> 40) & 0xff) as byte,
     ((x >> 48) & 0xff) as byte, ((x >> 56) & 0xff) as byte]
  }

  /** The 4 bytes of x, least significant first (binary.LittleEndian.PutUint32). */
  function EncodeLE32(x: u32): (r: seq<byte>)
    ensures |r| == 4
  {
    [(x & 0xff) as byte, ((x >> 8) & 0xff) as byte,
     ((x >> 16) & 0xff) as byte, ((x >> 24) & 0xff) as byte]
  }

  /** binary.LittleEndian.Uint64: the word whose little-endian bytes are b. */
  function DecodeLE64(b: seq<byte>): u64
    requires |b| == 8
  {
    (b[0] as u64) | ((b[1] as u64) << 8) | ((b[2] as u64) << 16) | ((b[3] as u64) << 24) |
    ((b[4] as u64) << 32) | ((b[5] as u64) << 40) | ((b[6] as u64) << 48) | ((b[7] as u64) << 56)
  }

  /** binary.LittleEndian.Uint32: the word whose little-endian bytes are b. */
  function DecodeLE32(b: seq<byte>): u32
    requires |b| == 4
  {
    (b[0] as u32) | ((b[1] as u32) << 8) | ((b[2] as u32) << 16) | ((b[3] as u32) << 24)
  }

  /** Encoding undoes decoding: the word decoded from b has b as its bytes. */
  lemma EncodeDecode64(b: seq<byte>)
    requires |b| == 8
    ensures EncodeLE64(DecodeLE64(b)) == b
  {
  }

  lemma EncodeDecode32(b: seq<byte>)
    requires |b| == 4
    ensures EncodeLE32(DecodeLE32(b)) == b
  {
  }

  /** Decoding undoes encoding. */
  lemma DecodeEncode64(x: u64)
    ensures DecodeLE64(EncodeLE64(x)) == x
  {
  }

  lemma DecodeEncode32(x: u32)
    ensures DecodeLE32(EncodeLE32(x)) == x
  {
  }

  /** A 64-bit word is determined by its little-endian bytes. */
  lemma EncodeLE64Injective(x: u64, y: u64)
    requires EncodeLE64(x) == EncodeLE64(y)
    ensures x == y
  {
    DecodeEncode64(x);
    DecodeEncode64(y);
  }

  /** Widening a 32-bit word to 64 bits appends four zero bytes. */
  lemma Widen32(x: u32)
    ensures EncodeLE64(x as u64) == EncodeLE32(x) + [0, 0, 0, 0]
  {
  }

  /** The first w bytes of p, with missing bytes read as zero: the temporary
      buffer that read32/read64 fill with copy() when p is short. */
  function Window(p: seq<byte>, w: nat): (q: seq<byte>)
    ensures |q| == w
  {
    if |p| >= w then p[..w] else p + seq(w - |p|, _ => 0 as byte)
  }

  /** The window holds p's bytes where p has them and zeros past its end. */
  lemma WindowBytes(p: seq<byte>, w: nat)
    ensures forall k :: 0 <= k < w ==> Window(p, w)[k] == if k < |p| then p[k] else 0
  {
  }

  /** Byte k of data, or 0 past its end. */
  function ByteAt(data: seq<byte>, k: nat): byte
  {
    if k < |data| then data[k] else 0
  }

  /** The four bytes of data from index from on, zero-padded: what read32
      decodes from data[from:], straight from the slice or from its zero-filled
      copy. */
  function Bytes4(data: seq<byte>, from: nat): seq<byte>
  {
    [ByteAt(data, from), ByteAt(data, from + 1), ByteAt(data, from + 2), ByteAt(data, from + 3)]
  }

  /** The eight bytes of data from index from on, zero-padded: what read64
      decodes from data[from:]. */
  function Bytes8(data: seq<byte>, from: nat): seq<byte>
  {
    [ByteAt(data, from), ByteAt(data, from + 1), ByteAt(data, from + 2), ByteAt(data, from + 3),
     ByteAt(data, from + 4), ByteAt(data, from + 5), ByteAt(data, from + 6), ByteAt(data, from + 7)]
  }

  /** read32(data[from:]): the little-endian 32-bit word at the front of the
      slice, zero-padded when fewer than 4 bytes remain, widened to 64 bits.
      The slice is the suffix of data from index from, as Go's data[from:]. */
  function Read32(data: seq<byte>, from: nat): (r: u64)
    requires from <= |data|
    ensures r < 0x1_0000_0000
  {
    DecodeLE32(Bytes4(data, from)) as u64
  }

  /** read64(data[from:]): the little-endian 64-bit word at the front of the
      slice, zero-padded when fewer than 8 bytes remain. */
  function Read64(data: seq<byte>, from: nat): u64
    requires from <= |data|
  {
    DecodeLE64(Bytes8(data, from))
  }

  /** The padded bytes are the window of the slice data[from:]. */
  lemma Bytes4Window(data: seq<byte>, from: nat)
    requires from <= |data|
    ensures Bytes4(data, from) == Window(data[from..], 4)
  {
    WindowBytes(data[from..], 4);
  }

  lemma Bytes8Window(data: seq<byte>, from: nat)
    requires from <= |data|
    ensures Bytes8(data, from) == Window(data[from..], 8)
  {
    WindowBytes(data[from..], 8);
  }

  /** read32 lays out the first four bytes of the slice, zero-padded, then
      four zero bytes. */
  lemma Read32Bytes(data: seq<byte>, from: nat)
    requires from <= |data|
    ensures EncodeLE64(Read32(data, from)) == Window(data[from..], 4) + [0, 0, 0, 0]
  {
    EncodeDecode32(Bytes4(data, from));
    Widen32(DecodeLE32(Bytes4(data, from)));
    Bytes4Window(data, from);
  }

  /** read64 lays out the first eight bytes of the slice, zero-padded. */
  lemma Read64Bytes(data: seq<byte>, from: nat)
    requires from <= |data|
    ensures EncodeLE64(Read64(data, from)) == Window(data[from..], 8)
  {
    EncodeDecode64(Bytes8(data, from));
    Bytes8Window(data, from);
  }

  /** With at least four bytes left, read32 decodes them without padding
      (binary.LittleEndian.Uint32(p)). */
  lemma Read32Full(data: seq<byte>, from: nat)
    requires from + 4 <= |data|
    ensures Read32(data, from) == DecodeLE32(data[from..from + 4]) as u64
  {
    Bytes4Slice(data, from);
  }

  /** With at least four bytes left, no padding is needed. */
  lemma Bytes4Slice(data: seq<byte>, from: nat)
    requires from + 4 <= |data|
    ensures Bytes4(data, from) == data[from..from + 4]
  {
    assert Bytes4(data, from) == data[from..from + 4];
  }

  /** With at least eight bytes left, read64 decodes them without padding
      (binary.LittleEndian.Uint64(p)). */
  lemma Read64Full(data: seq<byte>, from: nat)
    requires from + 8 <= |data|
    ensures Read64(data, from) == DecodeLE64(data[from..from + 8])
  {
    assert Bytes8(data, from) == data[from..from + 8];
  }

  /** Reading an empty slice gives 0. */
  lemma ReadBounds(data: seq<byte>, from: nat)
    requires from <= |data|
    ensures from == |data| ==> Read32(data, from) == 0 && Read64(data, from) == 0
  {
  }
}
