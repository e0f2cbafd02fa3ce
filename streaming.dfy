/** The buffering Hasher of rapidhash.go: writes append to a byte buffer, and
    the digest of the buffer is taken on demand under the hasher's seed and
    secret. */
module Streaming {
  import opened Words
  import opened Rapidhash

  /** The bytes of a history of writes, in order. */
  function Concat(chunks: seq<seq<byte>>): seq<byte>
  {
    if |chunks| == 0 then [] else chunks[0] + Concat(chunks[1..])
  }

  /** Writing one more chunk appends its bytes to the concatenation. */
  lemma {:induction false} ConcatAppend(chunks: seq<seq<byte>>, p: seq<byte>)
    ensures Concat(chunks + [p]) == Concat(chunks) + p
  {
    if |chunks| == 0 {
      assert chunks + [p] == [p];
      assert Concat([p][1..]) == [];
    } else {
      assert (chunks + [p])[1..] == chunks[1..] + [p];
      ConcatAppend(chunks[1..], p);
    }
  }

  /** Hasher: the seed, the secret and the bytes written since the last
      reset. The ghost history records the writes that built the buffer. */
  class Hasher {
    var seed: u64
    var secret: Secret
    var buf: seq<byte>
    ghost var chunks: seq<seq<byte>>

    /** The buffer holds exactly the bytes of the writes since the last reset. */
    ghost predicate Valid()
      reads this
    {
      buf == Concat(chunks)
    }

    /** NewHasher: an empty hasher under the default seed and secret. */
    constructor New()
      ensures Valid() && buf == [] && chunks == []
      ensures seed == RapidSeed && secret == RapidSecret
    {
      seed := RapidSeed;
      secret := RapidSecret;
      buf := [];
      chunks := [];
    }

    /** NewHasherWithSeed: an empty hasher under the given seed and the default
        secret. */
    constructor NewWithSeed(seed: u64)
      ensures Valid() && buf == [] && chunks == []
      ensures this.seed == seed && secret == RapidSecret
    {
      this.seed := seed;
      secret := RapidSecret;
      buf := [];
      chunks := [];
    }

    /** Write appends p to the buffer and reports all of p as written. */
    method Write(p: seq<byte>) returns (n: nat)
      requires Valid()
      modifies this
      ensures Valid()
      ensures buf == old(buf) + p && chunks == old(chunks) + [p]
      ensures seed == old(seed) && secret == old(secret)
      ensures n == |p|
    {
      ConcatAppend(chunks, p);
      buf := buf + p;
      chunks := chunks + [p];
      n := |p|;
    }

    /** Sum64: the digest of everything written since the last reset. */
    method Sum64() returns (h: u64)
      requires |buf| < MaxLen
      ensures h == Digest(buf, seed, secret)
      ensures Valid() ==> h == Digest(Concat(chunks), seed, secret)
    {
      h := HashWithSeedAndSecret(buf, seed, secret);
    }

    /** Sum: b followed by the 8 little-endian bytes of the digest. */
    method Sum(b: seq<byte>) returns (r: seq<byte>)
      requires |buf| < MaxLen
      ensures |r| == |b| + Size() && r[..|b|] == b
      ensures r[|b|..] == EncodeLE64(Digest(buf, seed, secret))
    {
      var h := Sum64();
      r := b + EncodeLE64(h);
      assert r[..|b|] == b;
      assert r[|b|..] == EncodeLE64(h);
    }

    /** Reset empties the buffer; the seed and the secret stay. */
    method Reset()
      requires Valid()
      modifies this
      ensures Valid() && buf == [] && chunks == []
      ensures seed == old(seed) && secret == old(secret)
    {
      buf := [];
      chunks := [];
    }

    /** Size: the number of bytes Sum appends, those of one 64-bit digest. */
    function Size(): (n: nat)
      ensures forall x: u64 :: |EncodeLE64(x)| == n
    {
      8
    }

    /** BlockSize: the 48 bytes the digest's long-input loop consumes per pass. */
    function BlockSize(): (n: nat)
      ensures n == BlockLen && n % Size() == 0
    {
      48
    }
  }

  /** Feeding chunks one by one to a new hasher and taking Sum64 gives the
      one-shot digest of their concatenation, what Hash returns for it. */
  method HashChunks(chunks: seq<seq<byte>>) returns (d: u64)
    requires |Concat(chunks)| < MaxLen
    ensures d == Digest(Concat(chunks), RapidSeed, RapidSecret)
  {
    var hasher := new Hasher.New();
    var i := 0;
    while i < |chunks|
      invariant 0 <= i <= |chunks|
      invariant hasher.Valid() && hasher.chunks == chunks[..i]
      invariant hasher.seed == RapidSeed && hasher.secret == RapidSecret
    {
      assert chunks[..i + 1] == chunks[..i] + [chunks[i]];
      var _ := hasher.Write(chunks[i]);
      i := i + 1;
    }
    assert chunks[..i] == chunks;
    d := hasher.Sum64();
  }
}
