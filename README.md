# rapidhash-go in Dafny

This project models rapidhash-go, a Go implementation of the rapidhash 64-bit
non-cryptographic hash. Its core is one file, `rapidhash.go`. The model covers:

- the 64x64->128-bit multiply `rapidMul` and the multiply-and-fold `rapidMix`;
- the little-endian word reads `read32` and `read64`, which zero-pad a slice
  that is too short;
- the one-shot digest `HashWithSeedAndSecret` and its wrappers `HashWithSeed`
  and `Hash`;
- the fixed-width entry points `Uint64WithSeed`, `Uint64`, `Uint32WithSeed`
  and `Uint32`;
- the buffering `Hasher`: `NewHasher`, `NewHasherWithSeed`, `Write`, `Sum64`,
  `Sum`, `Reset`, `Size` and `BlockSize`.

The project has four modules:

- `Words` holds the 8-, 32- and 64-bit words, their little-endian byte layout,
  and `Read32`/`Read64`. `Read32(data, k)` stands for Go's `read32(data[k:])`.
- `Mixer` holds `RapidMul` and `RapidMix`. Go's `rapidMul(&a, &b)` overwrites
  its two locals; here it is a function that returns the pair (low half, high
  half).
- `Rapidhash` holds the specification function `Digest` and its parts:
  - `DeriveSeed`, the per-call seed;
  - `ShortOperands`, the operands for inputs of up to 16 bytes;
  - `Blocks`, `Stripes` and `Tail`, the 48-byte loop and the 16/32-byte tail;
  - `Finalize`, the final multiply and fold.

  The method `HashWithSeedAndSecret` runs the Go code step by step, loop
  included, and is proved to return `Digest`.
- `Streaming` holds the `Hasher` class. Its fields are the seed, the secret
  and the byte buffer. A ghost history of writes makes the buffer's meaning
  explicit.

Machine words are bit-vectors (`bv8`, `bv32`, `bv64`, `bv128`), so Go's
wrap-around on `uint64` is exact. A length enters the hash as `uint64(len)`,
and every input is shorter than 2^64 bytes (`MaxLen`).

## Model

| member | source | states |
|---|---|---|
| Mixer.RapidMul | rapidhash.go:29-40 | rapidMul in overwrite mode: the pair (low half, high half) of the 128-bit product that bits.Mul64 computes; its exactness is MulExact |
| Mixer.RapidMix | rapidhash.go:43-46 | rapidMix: the xor of the two halves; MixFoldsProduct ties it to the exact product |
| Mixer.MulExact | rapidhash.go:29-40 | rapidMul's two halves recombine, as hi*2^64 + lo, to the exact 128-bit product of its operands |
| Mixer.MulUnique | rapidhash.go:29-40 | any split of a*b into a high and a low 64-bit half is the pair rapidMul returns |
| Mixer.MixFoldsProduct | rapidhash.go:43-46 | rapidMix(a, b) is lo XOR hi of the exact 128-bit product a*b |
| Words.Read32 | rapidhash.go:49-57 | read32(data[k:]) is zero-extended into 64 bits: its result is below 2^32 |
| Words.Read64 | rapidhash.go:60-68 | read64(data[k:]): the little-endian decoding of the slice's first 8 bytes, zero-padded; its layout is Read64Bytes |
| Words.Read32Bytes | rapidhash.go:49-57 | read32(data[k:]) lays out the first 4 bytes of the slice, zero-padded when fewer remain, followed by 4 zero bytes |
| Words.Read64Bytes | rapidhash.go:60-68 | read64(data[k:]) lays out the first 8 bytes of the slice, zero-padded when fewer remain |
| Words.Read32Full | rapidhash.go:49-57 | with at least 4 bytes left, read32 is the little-endian decoding of exactly those bytes |
| Words.Read64Full | rapidhash.go:60-68 | with at least 8 bytes left, read64 is the little-endian decoding of exactly those bytes |
| Words.ReadBounds | rapidhash.go:49-68 | reading an empty slice gives 0 for both widths |
| Words.EncodeDecode64 | rapidhash.go:66-67 | decoding 8 bytes little-endian and re-encoding the word gives back the bytes |
| Words.DecodeEncode64 | rapidhash.go:66-67 | encoding a word little-endian and decoding it gives back the word |
| Words.EncodeDecode32 | rapidhash.go:54-56 | the same round trip for 4 bytes and 32-bit words |
| Words.DecodeEncode32 | rapidhash.go:54-56 | the same round trip for 32-bit words and 4 bytes |
| Words.EncodeLE64Injective | rapidhash.go:66-67 | a 64-bit word is determined by its little-endian bytes |
| Words.Window | rapidhash.go:50-53 | the zero-filled copy read32/read64 decode when the slice is short always has the full word width |
| Rapidhash.DeriveSeed | rapidhash.go:85 | the per-call seed: seed ^ rapidMix(seed ^ secret[0], secret[1]) ^ length |
| Rapidhash.Finalize | rapidhash.go:133-137 | the finalization: a ^= secret[1], b ^= seed, rapidMul, then rapidMix of the halves with secret[0], the length and secret[2]; MulMixProduct states it on the exact product |
| Rapidhash.MulMixProduct | rapidhash.go:135-137 | the finalization folds the exact 128-bit product: for any split hi*2^64 + lo of a*b, the result is the fold of (lo, hi) |
| Rapidhash.Delta | rapidhash.go:92 | delta = (length & 24) >> (length >> 3), with Go's zero result for a shift of 64 or more; for lengths 4..16 it is 0 below 8 and 4 from 8 on |
| Rapidhash.ShortOperands | rapidhash.go:89-104 | the operands a, b for at most 16 bytes: overlapping 4-byte windows for 4..16 bytes, three packed bytes for 1..3, zeros for none; OverlapA, OverlapB and TinyOperands state their contents |
| Rapidhash.DeltaWindow | rapidhash.go:92 | for lengths 4..16, delta = (length & 24) >> (length >> 3) is 0 below 8 bytes and 4 from 8 bytes on |
| Rapidhash.Pair32Bytes | rapidhash.go:93-94 | (read32(x) << 32) \| read32(y) lays out the 4 padded bytes of y, then those of x |
| Rapidhash.OverlapA | rapidhash.go:90-93 | for 4..16 bytes, a holds the last 4 bytes in its low half and the first 4 in its high half |
| Rapidhash.OverlapB | rapidhash.go:92-94 | for 4..16 bytes, b holds the 4 bytes ending delta before the end in its low half and the 4 starting at delta in its high half |
| Rapidhash.TinyOperands | rapidhash.go:95-103 | for 1..3 bytes, a packs the first, middle and last byte into its low 24 bits and b is 0; for no bytes both are 0 |
| Rapidhash.Lane | rapidhash.go:112-114 | one accumulator's step of the loop: rapidMix of the two 64-bit words at an offset, xored with a secret word and the accumulator |
| Rapidhash.Blocks | rapidhash.go:107-117 | the loop as written, tail-recursive on the remaining length i: three lane steps per 48-byte block at data[length-i:], then the merge; BlocksStripes relates it to the front-to-back fold |
| Rapidhash.Merge | rapidhash.go:117 | seed ^= see1 ^ see2 after the loop |
| Rapidhash.BlockCount | rapidhash.go:107-116 | over 48 bytes, the loop consumes whole 48-byte blocks until 1..48 bytes remain; at most 48 bytes, it does not run |
| Rapidhash.LoopCount | rapidhash.go:111-116 | the loop stops after exactly BlockCount(length) passes |
| Rapidhash.BlocksStripes | rapidhash.go:107-117 | after n passes, the loop's three accumulators are the first n blocks folded front to back from (seed, seed, seed) |
| Rapidhash.LongSeedStripes | rapidhash.go:105-125 | over 48 bytes, the seed entering the finalization is the tail over the 1..48 remaining bytes, seeded with seed ^ see1 ^ see2 of all blocks |
| Rapidhash.Tail | rapidhash.go:120-125 | the tail over the last i bytes: one lane step with accumulator seed ^ secret[1] when 16 < i, a second when 32 < i |
| Rapidhash.FinalReadsFull | rapidhash.go:128-129 | for more than 16 bytes, read64(data[length-16:]) and read64(data[length-8:]) decode the last 16 bytes as two whole 8-byte windows, with no zero padding |
| Rapidhash.Digest | rapidhash.go:81-138 | the digest as a function: the derived seed, the short or long operands and seed, then the finalization; HashWithSeedAndSecret is proved to compute it |
| Rapidhash.HashWithSeedAndSecret | rapidhash.go:81-138 | the step-by-step digest, with its 48-byte loop, its tail and its finalization, returns Digest(data, seed, secret) |
| Rapidhash.HashWithSeed | rapidhash.go:76-78 | the digest under the given seed and the default secret |
| Rapidhash.Hash | rapidhash.go:71-73 | the digest under the default seed RapidSeed and the default secret |
| Rapidhash.Uint64WithSeed | rapidhash.go:162-171 | the seed derived for length 8, then the finalization of a = value and b = 0 |
| Rapidhash.Uint64 | rapidhash.go:157-159 | Uint64WithSeed under the default seed |
| Rapidhash.Uint32WithSeed | rapidhash.go:179-187 | the seed derived for length 4, then the finalization of a = uint64(value) and b = 0 |
| Rapidhash.Uint32 | rapidhash.go:174-176 | Uint32WithSeed under the default seed |
| Rapidhash.FinalizeZeroB | rapidhash.go:166-168 | with b = 0, the finalization multiplies value ^ secret[1] by the derived seed itself, as Uint64WithSeed and Uint32WithSeed do |
| Rapidhash.Uint64BytesOperands | rapidhash.go:89-94 | on the 8 little-endian bytes of v, the general path reads a = v with its 32-bit halves swapped and b = v |
| Rapidhash.Uint32BytesOperands | rapidhash.go:89-94 | on the 4 little-endian bytes of v, the general path reads a = b = v<<32 \| v |
| Rapidhash.DigestOfUint64Bytes | rapidhash.go:162-171 | hashing the 8 bytes of v finalizes (Rotate32(v), v), where Uint64WithSeed finalizes (v, 0) |
| Rapidhash.DigestOfUint32Bytes | rapidhash.go:179-187 | hashing the 4 bytes of v finalizes (v<<32 \| v, v<<32 \| v), where Uint32WithSeed finalizes (v, 0) |
| Streaming.ConcatAppend | rapidhash.go:215-218 | appending a write to the history appends its bytes to the concatenation the buffer holds |
| Streaming.Hasher.New | rapidhash.go:197-203 | a new hasher has an empty buffer, the default seed and the default secret |
| Streaming.Hasher.NewWithSeed | rapidhash.go:206-212 | a new hasher has an empty buffer, the given seed and the default secret |
| Streaming.Hasher.Write | rapidhash.go:215-218 | the buffer gains exactly p at its end, seed and secret stay, the whole of p is reported written, and the buffer stays the concatenation of all writes |
| Streaming.Hasher.Sum64 | rapidhash.go:221-223 | the digest of the buffer under the hasher's seed and secret, which is the digest of the concatenated writes |
| Streaming.Hasher.Sum | rapidhash.go:226-229 | b is kept as a prefix, followed by the 8 little-endian bytes of the digest |
| Streaming.Hasher.Reset | rapidhash.go:232-234 | the buffer and the history become empty; seed and secret stay |
| Streaming.Hasher.Size | rapidhash.go:237-239 | the number of bytes Sum appends, that of one encoded 64-bit digest |
| Streaming.Hasher.BlockSize | rapidhash.go:242-244 | the 48-byte block length of the long-input loop, a multiple of the digest size |
| Streaming.HashChunks | rapidhash.go:197-223 | writing chunks one by one into a new hasher and taking Sum64 gives the one-shot digest of their concatenation |

## Left out

- `String` and `StringWithSeed` (lines 141-154) reinterpret a string's bytes as a slice through `unsafe`. Strings have no byte representation here, so they are not modelled; they hash the same bytes `HashWithSeed` does.
- The `protected` constant (line 23) is `false`, so the xor-accumulating branch of `rapidMul` (lines 33-35) is dead code. Only the overwriting branch is modelled.
- The capacity hint of 64 given to the buffer in `NewHasher` and `NewHasherWithSeed` only affects allocation. A buffer is a `seq<byte>` here.
- `Write` always returns a nil error. The model's `Write` returns only the byte count.
- `Sum` builds its result with `binary.LittleEndian.AppendUint64(b, hash)`, which writes into the spare capacity of `b` when it has room, so the result can share memory with the caller's slice. The model's `Sum` returns a new sequence and does not capture that sharing.
- Concurrent use of one `Hasher` is not modelled.
- Go slices `data[k:]` are modelled as a read offset `k` into `data`. A slice's `len` is bounded by 2^64 here (`MaxLen`), so `uint64(len(data))` never wraps.
- For lengths 4..16 the delta of line 92 takes only the values 0 (4..7 bytes) and 4 (8..16 bytes), never 8, so every 4-byte window lies inside the input and no read in this branch is zero-padded (`Delta`, `DeltaWindow`, `OverlapA`, `OverlapB`).
- `Uint64WithSeed` and `Uint32WithSeed` do not equal the digest of the value's little-endian bytes. The code finalizes (v, 0), while the general path finalizes the operands shown by `DigestOfUint64Bytes` and `DigestOfUint32Bytes`. The model keeps the code as written.
- Line 85 groups the xor as `seed ^ (rapidMix(...) ^ length)`, and line 121 as `(read64(...) ^ seed) ^ secret[1]`. The model writes `DeriveSeed` as `(seed ^ rapidMix(...)) ^ len` and the tail lane with accumulator `seed ^ secret[1]`. These are equal because xor is associative.
- The secret is a `[3]uint64` array in Go and a length-3 sequence of 64-bit words here.
- The statistical and performance tests are not modelled; no concrete hash values are stated.
