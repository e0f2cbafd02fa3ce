/** The rapidhash digest of rapidhash.go: seed derivation, the length dispatch
    (empty, 1-3 bytes, 4-16 bytes with overlapping windows, more than 16 bytes
    with 48-byte blocks and a 16/32-byte tail), the finalization, and the
    fixed-width entry points Uint64WithSeed and Uint32WithSeed. */
module Rapidhash {
  import opened Words
  import opened Mixer

  /** The three 64-bit secret words (Go: [3]uint64). */
  type Secret = s: seq<u64> | |s| == 3 witness [0, 0, 0]

  /** RapidSeed, the default seed. */
  const RapidSeed: u64 := 0xbdd89aa982704029

  /** rapidSecret, the default secret. */
  const RapidSecret: Secret := [0x2d358dccaa6c78a5, 0x8bb84b93962eacc9, 0x4b33a62ed433d4a3]

  /** One more than the largest length a slice can have here: the length is
      hashed as the uint64 it converts to. */
  const MaxLen: nat := 0x1_0000_0000_0000_0000

  /** uint64(len(data)): the length as the word that is mixed into the hash. */
  function LenWord(len: nat): u64
    requires len < MaxLen
  {
    len as u64
  }

  /** Bytes consumed per pass of the long-input loop. */
  const BlockLen: nat := 48

  /* ----- seed derivation and finalization ----- */

  /** The per-call seed (line 85): seed ^ rapidMix(seed ^ secret[0], secret[1]) ^ length. */
  function DeriveSeed(seed: u64, secret: Secret, len: u64): u64
  {
    seed ^ RapidMix(seed ^ secret[0], secret[1]) ^ len
  }

  /** The last line of the digest, rapidMix(a ^ secret[0] ^ length, b ^ secret[2]),
      taken on the halves lo, hi that rapidMul has left in a and b. */
  function Fold(lo: u64, hi: u64, secret: Secret, len: u64): u64
  {
    RapidMix(lo ^ secret[0] ^ len, hi ^ secret[2])
  }

  /** rapidMul(&a, &b), then Fold of the two halves. */
  function MulMix(a: u64, b: u64, secret: Secret, len: u64): u64
  {
    var (lo, hi) := RapidMul(a, b);
    Fold(lo, hi, secret, len)
  }

  /** The finalization: a ^= secret[1]; b ^= seed; rapidMul(&a, &b); then Fold. */
  function Finalize(a: u64, b: u64, seed: u64, secret: Secret, len: u64): u64
  {
    MulMix(a ^ secret[1], b ^ seed, secret, len)
  }

  /** The finalization as the steps the code takes. */
  lemma FinalizeSteps(a: u64, b: u64, seed: u64, secret: Secret, len: u64)
    ensures Finalize(a, b, seed, secret, len)
         == Fold(RapidMul(a ^ secret[1], b ^ seed).0, RapidMul(a ^ secret[1], b ^ seed).1, secret, len)
  {
  }

  /** The finalization folds the exact 128-bit product of its operands: for any
      split hi*2^64 + lo of a*b, MulMix(a, b) is Fold(lo, hi). */
  lemma MulMixProduct(a: u64, b: u64, lo: u64, hi: u64, secret: Secret, len: u64)
    requires (hi as u128) * Radix + (lo as u128) == (a as u128) * (b as u128)
    ensures MulMix(a, b, secret, len) == Fold(lo, hi, secret, len)
  {
    hide RapidMix, Fold;
    MulUnique(a, b, lo, hi);
  }

  /** With b = 0 the finalization multiplies a ^ secret[1] by the seed itself. */
  lemma FinalizeZeroB(a: u64, seed: u64, secret: Secret, len: u64)
    ensures Finalize(a, 0, seed, secret, len) == MulMix(a ^ secret[1], seed, secret, len)
  {
    hide MulMix;
    assert 0 ^ seed == seed;
  }

  /* ----- inputs of at most 16 bytes ----- */

  /** delta = (length & 24) >> (length >> 3), with Go's rule that an unsigned
      shift by 64 or more gives 0. */
  function Delta(len: u64): (d: u64)
    ensures 4 <= len <= 16 ==> d == if len < 8 then 0 else 4
  {
    var s := len >> 3;
    if s >= 64 then 0 else (len & 24) >> s
  }

  /** For 4 <= length <= 16, delta is 0 below 8 and 4 from 8 on, so the windows
      data[delta:], data[length-4:] and data[length-4-delta:] all start in
      range and hold 4 bytes. */
  lemma DeltaWindow(len: nat)
    requires 4 <= len <= 16
    ensures Delta(LenWord(len)) as nat == if len < 8 then 0 else 4
  {
    DeltaValues(len);
  }

  lemma DeltaValues(len: nat)
    requires 4 <= len <= 16
    ensures Delta(len as u64) as nat == if len < 8 then 0 else 4
  {
    if len == 4 {} else if len == 5 {} else if len == 6 {} else if len == 7 {}
    else if len == 8 {} else if len == 9 {} else if len == 10 {} else if len == 11 {}
    else if len == 12 {} else if len == 13 {} else if len == 14 {} else if len == 15 {}
    else {}
  }

  /** (read32(data[hiOff:]) << 32) | read32(data[loOff:]): two 4-byte windows
      packed into one word (lines 93-94). */
  function Pair32(data: seq<byte>, hiOff: nat, loOff: nat): u64
    requires hiOff <= |data| && loOff <= |data|
  {
    (Read32(data, hiOff) << 32) | Read32(data, loOff)
  }

  /** uint64(x) | uint64(y)<<8 | uint64(z)<<16: the three bytes read for inputs
      of 1 to 3 bytes (lines 97-99). */
  function Pack24(x: byte, y: byte, z: byte): u64
  {
    (x as u64) | ((y as u64) << 8) | ((z as u64) << 16)
  }

  /** Two 32-bit words packed as (hi << 32) | lo lay out lo's bytes, then hi's. */
  lemma Pack32(hi: u32, lo: u32)
    ensures EncodeLE64(((hi as u64) << 32) | (lo as u64)) == EncodeLE32(lo) + EncodeLE32(hi)
  {
  }

  /** Pack24 lays out its three bytes, then five zero bytes. */
  lemma Pack24Bytes(x: byte, y: byte, z: byte)
    ensures EncodeLE64(Pack24(x, y, z)) == [x, y, z, 0, 0, 0, 0, 0]
  {
  }

  /** The packed word lays out the low window's bytes, then the high window's,
      each zero-padded past the end of data. */
  lemma Pair32Bytes(data: seq<byte>, hiOff: nat, loOff: nat)
    requires hiOff <= |data| && loOff <= |data|
    ensures EncodeLE64(Pair32(data, hiOff, loOff)) == Bytes4(data, loOff) + Bytes4(data, hiOff)
  {
    hide EncodeLE64, EncodeLE32, DecodeLE32;
    assert Pair32(data, hiOff, loOff)
        == ((DecodeLE32(Bytes4(data, hiOff)) as u64) << 32) | (DecodeLE32(Bytes4(data, loOff)) as u64);
    Pack32(DecodeLE32(Bytes4(data, hiOff)), DecodeLE32(Bytes4(data, loOff)));
    EncodeDecode32(Bytes4(data, hiOff));
    EncodeDecode32(Bytes4(data, loOff));
  }

  /** The operands a, b for inputs of at most 16 bytes (lines 89-104). */
  function ShortOperands(data: seq<byte>): (u64, u64)
    requires |data| <= 16
  {
    var len := |data|;
    if len >= 4 then
      // Go's delta, (length & 24) >> (length >> 3), as DeltaWindow shows
      var delta := if len < 8 then 0 else 4;
      (Pair32(data, 0, len - 4), Pair32(data, delta, len - 4 - delta))
    else if len > 0 then
      // data[len / 2] is data[length>>1]
      (Pack24(data[0], data[len / 2], data[len - 1]), 0)
    else
      (0, 0)
  }

  /** For 1 to 3 bytes, a packs the first, middle and last byte into its low 24
      bits and b is 0; for no bytes, both are 0. */
  lemma TinyOperands(data: seq<byte>)
    requires |data| <= 3
    ensures var (a, b) := ShortOperands(data);
      b == 0 && a < 0x100_0000 &&
      (|data| == 0 ==> a == 0) &&
      (|data| > 0 ==> EncodeLE64(a) == [data[0], data[|data| / 2], data[|data| - 1], 0, 0, 0, 0, 0])
  {
    if |data| > 0 {
      Pack24Bytes(data[0], data[|data| / 2], data[|data| - 1]);
    }
  }

  /** For 4 to 16 bytes, a holds the last 4 bytes in its low half and the
      first 4 in its high half. */
  lemma OverlapA(data: seq<byte>)
    requires 4 <= |data| <= 16
    ensures EncodeLE64(ShortOperands(data).0) == data[|data| - 4..] + data[..4]
  {
    hide EncodeLE64, Bytes4, Pair32;
    var len := |data|;
    Pair32Bytes(data, 0, len - 4);
    Bytes4Slice(data, 0);
    Bytes4Slice(data, len - 4);
    assert data[0..4] == data[..4];
    assert data[len - 4..len - 4 + 4] == data[len - 4..];
  }

  /** For 4 to 16 bytes, b holds the 4 bytes ending delta before the end in its
      low half and the 4 starting at delta in its high half, where delta is 0
      below 8 bytes and 4 from 8 on. */
  lemma OverlapB(data: seq<byte>)
    requires 4 <= |data| <= 16
    ensures var len, d := |data|, if |data| < 8 then 0 else 4;
      EncodeLE64(ShortOperands(data).1) == data[len - 4 - d..len - d] + data[d..d + 4]
  {
    hide EncodeLE64, Bytes4, Pair32;
    var len := |data|;
    var d := if len < 8 then 0 else 4;
    Pair32Bytes(data, d, len - 4 - d);
    Bytes4Slice(data, d);
    Bytes4Slice(data, len - 4 - d);
  }

  /* ----- inputs of more than 16 bytes ----- */

  /** rapidMix(read64(data[off:]) ^ k, read64(data[off+8:]) ^ acc): one
      accumulator's step over the 16 bytes at off. The 16 bytes lie inside data,
      so neither read is padded. */
  function Lane(data: seq<byte>, off: nat, k: u64, acc: u64): u64
    requires off + 16 <= |data|
  {
    RapidMix(Read64(data, off) ^ k, Read64(data, off + 8) ^ acc)
  }

  /** The loop at lines 111-117 with i bytes left and accumulators seed, see1,
      see2: while i > 48, mix the 48-byte block at data[length-i:] into the
      three lanes and lower i by 48; then fold the lanes with seed ^ see1 ^ see2. */
  function Blocks(data: seq<byte>, i: nat, seed: u64, see1: u64, see2: u64, secret: Secret): u64
    requires 0 < i <= |data|
    decreases i
  {
    if i > BlockLen then
      var off := |data| - i;
      Blocks(data, i - BlockLen, Lane(data, off, secret[0], seed),
             Lane(data, off + 16, secret[1], see1), Lane(data, off + 32, secret[2], see2), secret)
    else
      Merge(seed, see1, see2)
  }

  /** seed ^= see1 ^ see2: the three lanes folded into one after the loop. */
  function Merge(seed: u64, see1: u64, see2: u64): u64
  {
    seed ^ (see1 ^ see2)
  }

  /** One pass of the loop, unrolled. */
  lemma BlocksStep(data: seq<byte>, i: nat, seed: u64, see1: u64, see2: u64, secret: Secret)
    requires BlockLen < i <= |data|
    ensures Blocks(data, i, seed, see1, see2, secret)
         == Blocks(data, i - BlockLen, Lane(data, |data| - i, secret[0], seed),
                   Lane(data, |data| - i + 16, secret[1], see1), Lane(data, |data| - i + 32, secret[2], see2), secret)
  {
  }

  /** The three accumulators of the long-input loop. */
  datatype Lanes = Lanes(seed: u64, see1: u64, see2: u64)

  /** One pass of the loop over the 48-byte block at data[off..off+48]. */
  function MixBlock(data: seq<byte>, off: nat, acc: Lanes, secret: Secret): Lanes
    requires off + BlockLen <= |data|
  {
    Lanes(Lane(data, off, secret[0], acc.seed),
          Lane(data, off + 16, secret[1], acc.see1),
          Lane(data, off + 32, secret[2], acc.see2))
  }

  /** The accumulators after the first n blocks of data, front to back. */
  function Stripes(data: seq<byte>, n: nat, init: Lanes, secret: Secret): Lanes
    requires n * BlockLen <= |data|
    decreases n
  {
    if n == 0 then init
    else MixBlock(data, (n - 1) * BlockLen, Stripes(data, n - 1, init, secret), secret)
  }

  /** The number of 48-byte blocks the loop consumes: it stops once at most 48
      bytes remain, so some 1..48 bytes are always left for the tail. */
  function BlockCount(len: nat): (n: nat)
    requires len > 16
    ensures len > BlockLen ==> 0 < len - n * BlockLen <= BlockLen
    ensures len <= BlockLen ==> n == 0
  {
    if len > BlockLen then (len - 1) / BlockLen else 0
  }

  /** The loop runs BlockCount(len) times: it stops at the first multiple of 48
      that leaves at most 48 bytes. */
  lemma LoopCount(len: nat, n: nat)
    requires len > BlockLen && n * BlockLen < len && len - n * BlockLen <= BlockLen
    ensures n == BlockCount(len)
  {
  }

  /** After n passes the loop's accumulators are the first n blocks folded front
      to back from (seed, seed, seed), with |data| - 48n bytes left. */
  lemma {:induction false} BlocksStripes(data: seq<byte>, n: nat, seed: u64, secret: Secret)
    requires |data| > BlockLen && n <= BlockCount(|data|)
    ensures var acc := Stripes(data, n, Lanes(seed, seed, seed), secret);
      Blocks(data, |data| - n * BlockLen, acc.seed, acc.see1, acc.see2, secret)
        == Blocks(data, |data|, seed, seed, seed, secret)
  {
    hide Lane, Blocks;
    if n > 0 {
      BlocksStripes(data, n - 1, seed, secret);
      var acc := Stripes(data, n - 1, Lanes(seed, seed, seed), secret);
      BlocksStep(data, |data| - (n - 1) * BlockLen, acc.seed, acc.see1, acc.see2, secret);
    }
  }

  /** The tail at lines 120-125 on the last i bytes: one mix when 16 < i, a
      second when 32 < i; read64(data[length-i+8:]) ^ seed ^ secret[1] is the
      lane step with accumulator seed ^ secret[1]. */
  function Tail(data: seq<byte>, i: nat, seed: u64, secret: Secret): u64
    requires 0 < i <= BlockLen && i <= |data|
  {
    var off := |data| - i;
    if i > 16 then
      var s := Lane(data, off, secret[2], seed ^ secret[1]);
      if i > 32 then Lane(data, off + 16, secret[2], s) else s
    else
      seed
  }

  /** The tail as the steps the code takes. */
  lemma TailSteps(data: seq<byte>, i: nat, seed: u64, secret: Secret)
    requires 0 < i <= BlockLen && i <= |data|
    ensures i <= 16 ==> Tail(data, i, seed, secret) == seed
    ensures 16 < i <= 32 ==> Tail(data, i, seed, secret) == Lane(data, |data| - i, secret[2], seed ^ secret[1])
    ensures 32 < i ==>
      Tail(data, i, seed, secret)
        == Lane(data, |data| - i + 16, secret[2], Lane(data, |data| - i, secret[2], seed ^ secret[1]))
  {
  }

  /** The seed that enters the finalization for inputs over 16 bytes. */
  function LongSeed(data: seq<byte>, seed: u64, secret: Secret): u64
    requires |data| > 16
  {
    var len := |data|;
    if len > BlockLen then
      Tail(data, len - BlockCount(len) * BlockLen, Blocks(data, len, seed, seed, seed, secret), secret)
    else
      Tail(data, len, seed, secret)
  }

  /** For more than 48 bytes, LongSeed is the tail over the 1..48 bytes the
      blocks leave, seeded with the merged lanes of all blocks folded front to
      back. */
  lemma {:induction false} LongSeedStripes(data: seq<byte>, seed: u64, secret: Secret)
    requires |data| > BlockLen
    ensures var acc := Stripes(data, BlockCount(|data|), Lanes(seed, seed, seed), secret);
      LongSeed(data, seed, secret)
        == Tail(data, |data| - BlockCount(|data|) * BlockLen, Merge(acc.seed, acc.see1, acc.see2), secret)
  {
    hide Lane, Tail, Stripes, MixBlock, Merge;
    BlocksStripes(data, BlockCount(|data|), seed, secret);
  }

  /** For more than 16 bytes the two final reads, read64(data[length-16:]) and
      read64(data[length-8:]), take whole 8-byte windows inside data: the last
      16 bytes, with no zero padding. */
  lemma FinalReadsFull(data: seq<byte>)
    requires |data| > 16
    ensures Read64(data, |data| - 16) == DecodeLE64(data[|data| - 16..|data| - 8])
    ensures Read64(data, |data| - 8) == DecodeLE64(data[|data| - 8..])
  {
    hide Read64, DecodeLE64;
    var n := |data|;
    Read64Full(data, n - 16);
    assert n - 16 + 8 == n - 8;
    Read64Full(data, n - 8);
    assert data[n - 8..n - 8 + 8] == data[n - 8..];
  }

  /** The digest of data under seed and secret: what HashWithSeedAndSecret
      returns. */
  function Digest(data: seq<byte>, seed: u64, secret: Secret): u64
    requires |data| < MaxLen
  {
    var len := |data|;
    var s := DeriveSeed(seed, secret, LenWord(len));
    if len <= 16 then
      var (a, b) := ShortOperands(data);
      Finalize(a, b, s, secret, LenWord(len))
    else
      Finalize(Read64(data, len - 16), Read64(data, len - 8), LongSeed(data, s, secret), secret, LenWord(len))
  }

  /* ----- the implementation ----- */

  /** HashWithSeedAndSecret, step by step as rapidhash.go runs it; Read32(data, k)
      and Read64(data, k) are read32(data[k:]) and read64(data[k:]). */
  method HashWithSeedAndSecret(data: seq<byte>, seed: u64, secret: Secret) returns (h: u64)
    requires |data| < MaxLen
    ensures h == Digest(data, seed, secret)
  {
    hide RapidMix, RapidMul, Read32, Read64, Lane, Fold, DeriveSeed, Pair32, Pack24, Delta, LenWord;
    hide Finalize, Tail;
    var length := |data|;
    var len64 := LenWord(length);
    var s := DeriveSeed(seed, secret, len64);
    var a: u64, b: u64;
    if length <= 16 {
      if length >= 4 {
        DeltaWindow(length);
        var delta := Delta(len64) as nat;
        a := Pair32(data, 0, length - 4);
        b := Pair32(data, delta, length - 4 - delta);
      } else if length > 0 {
        a := Pack24(data[0], data[length / 2], data[length - 1]);
        b := 0;
      } else {
        a, b := 0, 0;
      }
    } else {
      ghost var s0 := s;
      var i := length;
      if i > BlockLen {
        var see1, see2 := s, s;
        ghost var n: nat := 0;
        while i > BlockLen
          invariant 0 < i <= length && length - i == n * BlockLen
          invariant Blocks(data, i, s, see1, see2, secret) == Blocks(data, length, s0, s0, s0, secret)
        {
          s := Lane(data, length - i, secret[0], s);
          see1 := Lane(data, length - i + 16, secret[1], see1);
          see2 := Lane(data, length - i + 32, secret[2], see2);
          i := i - BlockLen;
          n := n + 1;
        }
        LoopCount(length, n);
        s := s ^ (see1 ^ see2);
      }
      assert Tail(data, i, s, secret) == LongSeed(data, s0, secret);
      TailSteps(data, i, s, secret);
      if i > 16 {
        s := Lane(data, length - i, secret[2], s ^ secret[1]);
        if i > 32 {
          s := Lane(data, length - i + 16, secret[2], s);
        }
      }
      a := Read64(data, length - 16);
      b := Read64(data, length - 8);
    }
    assert Finalize(a, b, s, secret, len64) == Digest(data, seed, secret);
    FinalizeSteps(a, b, s, secret, len64);
    a := a ^ secret[1];
    b := b ^ s;
    var (lo, hi) := RapidMul(a, b);
    a, b := lo, hi;
    h := Fold(a, b, secret, len64);
  }

  /** HashWithSeed: the digest under the default secret. */
  method HashWithSeed(data: seq<byte>, seed: u64) returns (h: u64)
    requires |data| < MaxLen
    ensures h == Digest(data, seed, RapidSecret)
  {
    h := HashWithSeedAndSecret(data, seed, RapidSecret);
  }

  /** Hash: the digest under the default seed and the default secret. */
  method Hash(data: seq<byte>) returns (h: u64)
    requires |data| < MaxLen
    ensures h == Digest(data, RapidSeed, RapidSecret)
  {
    h := HashWithSeed(data, RapidSeed);
  }

  /* ----- fixed-width entry points ----- */

  /** Uint64WithSeed, as written: the seed derivation for length 8 under the
      default secret, then the finalization with a = value and b = 0. */
  function Uint64WithSeed(value: u64, seed: u64): (r: u64)
    ensures r == Finalize(value, 0, DeriveSeed(seed, RapidSecret, 8), RapidSecret, 8)
  {
    var seed' := DeriveSeed(seed, RapidSecret, 8);
    FinalizeZeroB(value, seed', RapidSecret, 8);
    var (lo, hi) := RapidMul(value ^ RapidSecret[1], seed');
    Fold(lo, hi, RapidSecret, 8)
  }

  /** Uint64: Uint64WithSeed under the default seed. */
  function Uint64(value: u64): (r: u64)
    ensures r == Finalize(value, 0, DeriveSeed(RapidSeed, RapidSecret, 8), RapidSecret, 8)
  {
    Uint64WithSeed(value, RapidSeed)
  }

  /** Uint32WithSeed, as written: the seed derivation for length 4 under the
      default secret, then the finalization with a = uint64(value) and b = 0. */
  function Uint32WithSeed(value: u32, seed: u64): (r: u64)
    ensures r == Finalize(value as u64, 0, DeriveSeed(seed, RapidSecret, 4), RapidSecret, 4)
  {
    var a := value as u64;
    var seed' := DeriveSeed(seed, RapidSecret, 4);
    FinalizeZeroB(a, seed', RapidSecret, 4);
    var (lo, hi) := RapidMul(a ^ RapidSecret[1], seed');
    Fold(lo, hi, RapidSecret, 4)
  }

  /** Uint32: Uint32WithSeed under the default seed. */
  function Uint32(value: u32): (r: u64)
    ensures r == Finalize(value as u64, 0, DeriveSeed(RapidSeed, RapidSecret, 4), RapidSecret, 4)
  {
    Uint32WithSeed(value, RapidSeed)
  }

  /** The 64-bit word with its two 32-bit halves swapped. */
  function Rotate32(v: u64): u64
  {
    (v << 32) | (v >> 32)
  }

  /** The 64-bit word holding v in both 32-bit halves. */
  function Twice32(v: u32): u64
  {
    ((v as u64) << 32) | (v as u64)
  }

  /** Swapping the halves of v swaps its first and last four bytes. */
  lemma Rotate32Bytes(v: u64)
    ensures EncodeLE64(Rotate32(v)) == EncodeLE64(v)[4..] + EncodeLE64(v)[..4]
  {
    Rotate32Layout(v);
    SwapHalves(EncodeLE64(v));
  }

  lemma Rotate32Layout(v: u64)
    ensures var e := EncodeLE64(v);
      EncodeLE64(Rotate32(v)) == [e[4], e[5], e[6], e[7], e[0], e[1], e[2], e[3]]
  {
  }

  lemma SwapHalves(e: seq<byte>)
    requires |e| == 8
    ensures e[4..] + e[..4] == [e[4], e[5], e[6], e[7], e[0], e[1], e[2], e[3]]
  {
  }

  /** Twice32(v) lays out the bytes of v twice. */
  lemma Twice32Bytes(v: u32)
    ensures EncodeLE64(Twice32(v)) == EncodeLE32(v) + EncodeLE32(v)
  {
    Pack32(v, v);
  }

  /** On the 8 little-endian bytes of v the general path reads a = v with its
      halves swapped and b = v. */
  lemma Uint64BytesOperands(v: u64)
    ensures ShortOperands(EncodeLE64(v)) == (Rotate32(v), v)
  {
    hide ShortOperands, Rotate32;
    Uint64BytesA(v);
    Uint64BytesB(v);
  }

  /** a: the last four bytes of v, then the first four, is v rotated by 32. */
  lemma Uint64BytesA(v: u64)
    ensures ShortOperands(EncodeLE64(v)).0 == Rotate32(v)
  {
    hide Pair32, Rotate32;
    var data := EncodeLE64(v);
    OverlapA(data);
    Rotate32Bytes(v);
    EncodeLE64Injective(ShortOperands(data).0, Rotate32(v));
  }

  /** b: with delta = 4 the two windows are the first four bytes, then the
      last four, which is v itself. */
  lemma Uint64BytesB(v: u64)
    ensures ShortOperands(EncodeLE64(v)).1 == v
  {
    hide Pair32;
    var data := EncodeLE64(v);
    OverlapB(data);
    assert data[0..4] + data[4..8] == data;
    EncodeLE64Injective(ShortOperands(data).1, v);
  }

  /** On the 4 little-endian bytes of v the general path reads a = b = v<<32|v. */
  lemma Uint32BytesOperands(v: u32)
    ensures ShortOperands(EncodeLE32(v)) == (Twice32(v), Twice32(v))
  {
    hide Pair32, Twice32;
    var data := EncodeLE32(v);
    var (a, b) := ShortOperands(data);
    OverlapA(data);
    OverlapB(data);
    Twice32Bytes(v);
    assert data[0..] == data[..4] == data[0..4] == data;
    EncodeLE64Injective(a, Twice32(v));
    EncodeLE64Injective(b, Twice32(v));
  }

  /** The general path on the 8 little-endian bytes of v finalizes
      (Rotate32(v), v), where Uint64WithSeed finalizes (v, 0). */
  lemma DigestOfUint64Bytes(v: u64, seed: u64)
    ensures Digest(EncodeLE64(v), seed, RapidSecret)
         == Finalize(Rotate32(v), v, DeriveSeed(seed, RapidSecret, 8), RapidSecret, 8)
  {
    hide RapidMix, RapidMul, Finalize, DeriveSeed, ShortOperands, EncodeLE64, Rotate32;
    Uint64BytesOperands(v);
    assert LenWord(8) == 8;
  }

  /** The general path on the 4 little-endian bytes of v finalizes
      (v<<32|v, v<<32|v), where Uint32WithSeed finalizes (uint64(v), 0). */
  lemma DigestOfUint32Bytes(v: u32, seed: u64)
    ensures Digest(EncodeLE32(v), seed, RapidSecret)
         == Finalize(Twice32(v), Twice32(v), DeriveSeed(seed, RapidSecret, 4), RapidSecret, 4)
  {
    hide RapidMix, RapidMul, Finalize, DeriveSeed, ShortOperands, EncodeLE32, Twice32;
    Uint32BytesOperands(v);
    assert LenWord(4) == 4;
  }
}
