/**
 * The byte generators of the vOW engine (prng.c): the POSIX-style linear
 * congruential generator, the AES-CTR generator (the block cipher is a
 * parameter) and the XXH64-chained extendable-output function (XXH64 is a
 * parameter).
 */
module Prng {
  import opened Bytes

  // ---------------------------------------------------------------------
  // Linear congruential generator (the branch without USE_AES_PRNG)
  // ---------------------------------------------------------------------

  const LCG_A: U64 := 1103515245
  const LCG_B: U64 := 12345
  const LCG_RAND_MAX: U64 := 32768

  /** One update `sampled = sampled * A + B` in 64-bit unsigned arithmetic. */
  function LcgNext(a: U64, b: U64, sampled: U64): U64
  {
    (sampled * a + b) % TWO_64
  }

  /** The generator state after n updates. */
  function LcgIter(a: U64, b: U64, sampled: U64, n: nat): U64
  {
    if n == 0 then sampled else LcgNext(a, b, LcgIter(a, b, sampled, n - 1))
  }

  lemma {:induction false} LcgIterFront(a: U64, b: U64, sampled: U64, n: nat)
    ensures LcgIter(a, b, LcgNext(a, b, sampled), n) == LcgIter(a, b, sampled, n + 1)
    decreases n
  {
    if n > 0 {
      LcgIterFront(a, b, sampled, n - 1);
    }
  }

  /** The byte written after an update: `((sampled / rand_max) >> 1)` cast to 32 bits, mod rand_max, cast to a byte. */
  function LcgByte(sampled: U64, randMax: U64): byte
    requires randMax > 0
  {
    (((sampled / randMax) / 2) % TWO_32 % randMax) % 256
  }

  /** With rand_max = 32768 every output byte is bits 16..23 of the updated state. */
  lemma LcgByteBits(sampled: U64)
    ensures LcgByte(sampled, LCG_RAND_MAX) == (sampled / 65536) % 256
  {
    var y := (sampled / 32768) / 2;
    DivDiv(sampled, 32768, 2);
    ModNested(y, 32768, 131072);
    ModNested(y, 256, 128);
  }

  /**
   * The bytes one sample of n bytes writes into buffer[0..n): the first update
   * fills the last byte, the next update the byte before it, and so on.
   */
  function LcgBytes(a: U64, b: U64, randMax: U64, sampled: U64, n: nat): (r: seq<byte>)
    requires randMax > 0
    ensures |r| == n
    decreases n
  {
    if n == 0 then []
    else
      var next := LcgNext(a, b, sampled);
      LcgBytes(a, b, randMax, next, n - 1) + [LcgByte(next, randMax)]
  }

  /** Byte i of an n-byte sample comes from the state after n - i updates. */
  lemma {:induction false} LcgBytesAt(a: U64, b: U64, randMax: U64, sampled: U64, n: nat, i: nat)
    requires randMax > 0 && i < n
    ensures LcgBytes(a, b, randMax, sampled, n)[i] == LcgByte(LcgIter(a, b, sampled, n - i), randMax)
    decreases n
  {
    var next := LcgNext(a, b, sampled);
    var rest := LcgBytes(a, b, randMax, next, n - 1);
    assert LcgBytes(a, b, randMax, sampled, n) == rest + [LcgByte(next, randMax)];
    if i < n - 1 {
      LcgBytesAt(a, b, randMax, next, n - 1, i);
      LcgIterFront(a, b, sampled, n - 1 - i);
      assert rest[i] == LcgByte(LcgIter(a, b, next, n - 1 - i), randMax);
    } else {
      assert LcgIter(a, b, sampled, 1) == LcgNext(a, b, LcgIter(a, b, sampled, 0));
    }
  }

  /** prng_state_t of the LCG branch. */
  class LcgPrng {
    var a: U64
    var b: U64
    var randMax: U64
    var sampled: U64

    /** Storage for a generator; its contents are arbitrary until Init. */
    constructor ()
    {
    }

    /** init_prng: the POSIX.1-2001 constants and the seed as the state. */
    method Init(seed: U64)
      modifies this
      ensures a == LCG_A && b == LCG_B && randMax == LCG_RAND_MAX && sampled == seed
    {
      a := LCG_A;
      b := LCG_B;
      randMax := LCG_RAND_MAX;
      sampled := seed;
    }

    /** sample_prng: fills buffer[0..nbytes) from the top down, one update per byte. */
    method Sample(buffer: array<byte>, nbytes: nat)
      requires randMax > 0 && nbytes <= buffer.Length
      modifies this`sampled, buffer
      ensures sampled == LcgIter(a, b, old(sampled), nbytes)
      ensures buffer[..nbytes] == LcgBytes(a, b, randMax, old(sampled), nbytes)
      ensures buffer[nbytes..] == old(buffer[nbytes..])
    {
      ghost var s0 := sampled;
      var k := nbytes;
      while k > 0
        invariant 0 <= k <= nbytes
        invariant sampled == LcgIter(a, b, s0, nbytes - k)
        invariant forall i :: k <= i < nbytes ==> buffer[i] == LcgByte(LcgIter(a, b, s0, nbytes - i), randMax)
        invariant forall i :: 0 <= i < k || nbytes <= i < buffer.Length ==> buffer[i] == old(buffer[i])
      {
        k := k - 1;
        sampled := LcgNext(a, b, sampled);
        buffer[k] := LcgByte(sampled, randMax);
      }
      forall i | 0 <= i < nbytes
        ensures buffer[i] == LcgBytes(a, b, randMax, s0, nbytes)[i]
      {
        LcgBytesAt(a, b, randMax, s0, nbytes, i);
      }
    }
  }

  // ---------------------------------------------------------------------
  // AES-CTR generator (the USE_AES_PRNG branch)
  // ---------------------------------------------------------------------

  type Block = s: seq<byte> | |s| == 16 witness seq(16, i => 0)

  /** A block cipher: (key bytes, plaintext block) to ciphertext block. */
  type Cipher = (seq<byte>, Block) -> Block

  /** The plaintext for counter value c: c as a little-endian 64-bit word, then eight zero bytes. */
  function CounterBlock(c: nat): Block
  {
    LeBytes(c, 8) + seq(8, i => 0)
  }

  /** Counter increments of one sample of n bytes: one per full block while more than 16 remain, then one more. */
  function AesBlocks(n: nat): (r: nat)
    ensures r >= 1
  {
    if n <= 16 then 1 else 1 + AesBlocks(n - 16)
  }

  /** The count grows by max(1, ceil(n/16)). */
  lemma {:induction false} AesBlocksCount(n: nat)
    ensures AesBlocks(n) == if n == 0 then 1 else (n + 15) / 16
  {
    if n > 16 {
      AesBlocksCount(n - 16);
      assert (n + 15) / 16 == (n - 16 + 15) / 16 + 1;
    }
  }

  /** The n bytes one sample produces when the count starts at c. */
  function CtrStream(enc: Cipher, key: seq<byte>, c: nat, n: nat): (r: seq<byte>)
    requires c + AesBlocks(n) < TWO_64
    ensures |r| == n
    decreases n
  {
    var blk := enc(key, CounterBlock(c + 1));
    if n <= 16 then blk[..n] else blk + CtrStream(enc, key, c + 1, n - 16)
  }

  /** Byte i of the stream is byte i mod 16 of the encryption of counter c + 1 + i/16. */
  lemma {:induction false} CtrStreamAt(enc: Cipher, key: seq<byte>, c: nat, n: nat, i: nat)
    requires c + AesBlocks(n) < TWO_64 && i < n
    ensures CtrStream(enc, key, c, n)[i] == KeystreamByte(enc, key, c, i)
    decreases n
  {
    var blk := enc(key, CounterBlock(c + 1));
    if n <= 16 {
      assert CtrStream(enc, key, c, n) == blk[..n];
      BlockIndex(i, 0);
    } else {
      var rest := CtrStream(enc, key, c + 1, n - 16);
      assert CtrStream(enc, key, c, n) == blk + rest;
      if i < 16 {
        BlockIndex(i, 0);
      } else {
        CtrStreamAt(enc, key, c + 1, n - 16, i - 16);
        DivShift(i, 16);
        assert rest[i - 16] == KeystreamByte(enc, key, c, i);
      }
    }
  }

  /** prng_state_t of the AES branch: the counter and the 16 bytes the key schedule is loaded from. */
  class AesPrng {
    var count: U64
    var key: seq<byte>

    /** Storage for a generator; its contents are arbitrary until Init. */
    constructor ()
    {
    }

    /** init_prng: count 0, key bytes 0..3 the little-endian bytes of the seed, the other twelve zero. */
    method Init(seed: U64)
      modifies this
      ensures count == 0 && |key| == 16
      ensures Le(key[..4]) == seed % TWO_32
      ensures forall j :: 4 <= j < 16 ==> key[j] == 0
    {
      var inp := new byte[16](j => 0);
      for i := 0 to 4
        invariant forall j :: 0 <= j < i ==> inp[j] == (seed / Pow256(j)) % 256
        invariant forall j :: i <= j < 16 ==> inp[j] == 0
      {
        inp[i] := (seed / Pow256(i)) % 256;
      }
      count := 0;
      key := inp[..];
      forall j | 0 <= j < 4
        ensures key[..4][j] == LeBytes(seed, 4)[j]
      {
        LeBytesAt(seed, 4, j);
      }
      assert key[..4] == LeBytes(seed, 4);
      LeOfLeBytes(seed, 4);
      assert Pow256(4) == TWO_32;
    }

    /**
     * sample_prng: nbytes bytes of AES-CTR keystream into buffer[0..nbytes).
     * The source assumes the count never passes 64 bits.
     */
    method Sample(enc: Cipher, buffer: array<byte>, nbytes: nat)
      requires nbytes <= buffer.Length
      requires count + AesBlocks(nbytes) < TWO_64
      modifies this`count, buffer
      ensures count == old(count) + AesBlocks(nbytes)
      ensures buffer[..nbytes] == CtrStream(enc, key, old(count), nbytes)
      ensures buffer[nbytes..] == old(buffer[nbytes..])
    {
      ghost var c0 := count;
      var n: nat := nbytes;
      var off: nat := 0;
      while n > 16
        invariant off + n == nbytes && off == 16 * (count - c0)
        invariant count >= c0 && count - c0 + AesBlocks(n) == AesBlocks(nbytes)
        invariant forall i :: 0 <= i < off ==> buffer[i] == KeystreamByte(enc, key, c0, i)
        invariant forall i :: nbytes <= i < buffer.Length ==> buffer[i] == old(buffer[i])
      {
        count := count + 1;
        var blk := enc(key, CounterBlock(count));
        PutBlock(buffer, off, blk, 16);
        BlockIsKeystream(enc, key, c0, count - c0 - 1, blk, 16);
        n := n - 16;
        off := off + 16;
      }
      count := count + 1;
      var last := enc(key, CounterBlock(count));
      PutBlock(buffer, off, last, n);
      BlockIsKeystream(enc, key, c0, count - c0 - 1, last, n);
      CtrStreamFromBytes(enc, key, c0, nbytes, buffer[..nbytes]);
    }
  }

  /** Byte i of the keystream when the count starts at c. */
  function KeystreamByte(enc: Cipher, key: seq<byte>, c: nat, i: nat): byte
  {
    enc(key, CounterBlock(c + 1 + i / 16))[i % 16]
  }

  /** Block k of the keystream holds keystream bytes 16k .. 16k+15. */
  lemma BlockIsKeystream(enc: Cipher, key: seq<byte>, c: nat, k: nat, blk: Block, len: nat)
    requires blk == enc(key, CounterBlock(c + k + 1)) && len <= 16
    ensures forall i :: 16 * k <= i < 16 * k + len ==> blk[i - 16 * k] == KeystreamByte(enc, key, c, i)
  {
    forall i | 16 * k <= i < 16 * k + len
      ensures blk[i - 16 * k] == KeystreamByte(enc, key, c, i)
    {
      BlockIndex(i, k);
    }
  }

  /** A string of keystream bytes is the stream CtrStream describes. */
  lemma CtrStreamFromBytes(enc: Cipher, key: seq<byte>, c: nat, n: nat, s: seq<byte>)
    requires c + AesBlocks(n) < TWO_64 && |s| == n
    requires forall i :: 0 <= i < n ==> s[i] == KeystreamByte(enc, key, c, i)
    ensures s == CtrStream(enc, key, c, n)
  {
    forall i | 0 <= i < n
      ensures s[i] == CtrStream(enc, key, c, n)[i]
    {
      CtrStreamAt(enc, key, c, n, i);
    }
  }

  lemma BlockIndex(i: nat, k: nat)
    requires 16 * k <= i < 16 * k + 16
    ensures i / 16 == k && i % 16 == i - 16 * k
  {
    ModUnique(i, 16, k, i - 16 * k);
  }

  /** One AES128_enc output or memcpy: len bytes of blk into buffer[off..off+len). */
  method PutBlock(buffer: array<byte>, off: nat, blk: Block, len: nat)
    requires len <= 16 && off + len <= buffer.Length
    modifies buffer
    ensures forall j :: off <= j < off + len ==> buffer[j] == blk[j - off]
    ensures forall j :: 0 <= j < off || off + len <= j < buffer.Length ==> buffer[j] == old(buffer[j])
  {
    forall j | 0 <= j < len {
      buffer[off + j] := blk[j];
    }
  }

  // ---------------------------------------------------------------------
  // XXH64-chained XOF (the USE_XXHASH_XOF branch)
  // ---------------------------------------------------------------------

  /** XXH64(input, seed). */
  type Hash64 = (seq<byte>, U64) -> U64

  /** Link k of the chain: the salt for k = 0, then XXH64 of the input seeded with the previous link. */
  function XofChain(hash: Hash64, input: seq<byte>, salt: U64, k: nat): U64
  {
    if k == 0 then salt else hash(input, XofChain(hash, input, salt, k - 1))
  }

  /** The XOF output: the links of the chain after the salt, each stored as 8 little-endian bytes, cut to n. */
  function XofBytes(hash: Hash64, input: seq<byte>, salt: U64, n: nat): (r: seq<byte>)
    ensures |r| == n
    decreases n
  {
    var word := LeBytes(hash(input, salt), 8);
    if n <= 8 then word[..n] else word + XofBytes(hash, input, hash(input, salt), n - 8)
  }

  /** The chain started one link later. */
  lemma {:induction false} XofChainShift(hash: Hash64, input: seq<byte>, salt: U64, k: nat)
    ensures XofChain(hash, input, hash(input, salt), k) == XofChain(hash, input, salt, k + 1)
  {
    if k > 0 {
      XofChainShift(hash, input, salt, k - 1);
    }
  }

  /** Output byte i is byte i mod 8 of chain link i/8 + 1. */
  lemma {:induction false} XofBytesAt(hash: Hash64, input: seq<byte>, salt: U64, n: nat, i: nat)
    requires i < n
    ensures XofBytes(hash, input, salt, n)[i] == ByteOf(XofChain(hash, input, salt, i / 8 + 1), i % 8)
    decreases n
  {
    if i < 8 {
      ByteOfIsLeBytes(hash(input, salt), i);
    } else {
      XofBytesAt(hash, input, hash(input, salt), n - 8, i - 8);
      XofChainShift(hash, input, salt, (i - 8) / 8 + 1);
      DivShift(i, 8);
    }
  }

  /** A shorter output is a prefix of a longer one. */
  lemma XofBytesPrefix(hash: Hash64, input: seq<byte>, salt: U64, m: nat, n: nat)
    requires m <= n
    ensures XofBytes(hash, input, salt, n)[..m] == XofBytes(hash, input, salt, m)
  {
    forall i | 0 <= i < m
      ensures XofBytes(hash, input, salt, n)[i] == XofBytes(hash, input, salt, m)[i]
    {
      XofBytesAt(hash, input, salt, n, i);
      XofBytesAt(hash, input, salt, m, i);
    }
  }

  /** The index arithmetic of the XOF loop: byte i is byte i % 8 of word i / 8. */
  lemma XofIndex(i: nat)
    ensures i == 8 * (i / 8) + i % 8
    ensures (i + 1) / 8 == if i % 8 == 7 then i / 8 + 1 else i / 8
    ensures (i + 8) / 8 == i / 8 + 1
    ensures (i + 7) / 8 == if i % 8 == 0 then i / 8 else i / 8 + 1
  {
    var q, r := i / 8, i % 8;
    assert i == 8 * q + r;
    assert i + 1 == 8 * q + (r + 1);
    assert i + 8 == 8 * (q + 1) + r;
    assert i + 7 == 8 * q + (r + 7);
  }

  /** XOF: writes output[0..nbytesOutput), hashing anew at every eighth byte. */
  method Xof(hash: Hash64, output: array<byte>, input: seq<byte>, nbytesOutput: nat, salt: U64)
    requires nbytesOutput <= output.Length
    modifies output
    ensures output[..nbytesOutput] == XofBytes(hash, input, salt, nbytesOutput)
    ensures output[nbytesOutput..] == old(output[nbytesOutput..])
  {
    var roundOutput := salt;
    var hashRound := 0;
    var i := 0;
    while i < nbytesOutput
      invariant 0 <= i <= nbytesOutput && hashRound == i / 8
      invariant roundOutput == XofChain(hash, input, salt, (i + 7) / 8)
      invariant forall k :: 0 <= k < i ==> output[k] == ByteOf(XofChain(hash, input, salt, k / 8 + 1), k % 8)
      invariant forall k :: nbytesOutput <= k < output.Length ==> output[k] == old(output[k])
    {
      // the switch on i & 7: case 0 hashes, every case stores one byte, case 7 moves to the next word
      var k := i % 8;
      XofIndex(i);
      if k == 0 {
        roundOutput := hash(input, roundOutput);
      }
      assert roundOutput == XofChain(hash, input, salt, i / 8 + 1);
      output[8 * hashRound + k] := ByteOf(roundOutput, k);
      if k == 7 {
        hashRound := hashRound + 1;
      }
      i := i + 1;
    }
    forall k | 0 <= k < nbytesOutput
      ensures output[k] == XofBytes(hash, input, salt, nbytesOutput)[k]
    {
      XofBytesAt(hash, input, salt, nbytesOutput, k);
    }
  }
}
