/**
 * The CTR_DRBG-style generator behind randombytes (random.c): a 32-byte key
 * and a 16-byte counter V read as a big-endian number. Each output block is
 * the cipher applied to the incremented counter; after every request the
 * update step of section 10.2.1.2 of NIST SP 800-90A Rev. 1 replaces the key
 * and the counter. The block cipher is a parameter.
 */
module Random {
  import opened Bytes
  import opened Prng

  datatype Option<T> = None | Some(value: T)

  /** The counter plus one: trailing 0xff bytes become 0x00 and the byte before them grows by one. */
  function Inc(v: seq<byte>): (r: seq<byte>)
    ensures |r| == |v|
  {
    if v == [] then []
    else if v[|v| - 1] == 255 then Inc(v[..|v| - 1]) + [0]
    else v[..|v| - 1] + [v[|v| - 1] + 1]
  }

  /** The counter after k increments. */
  function IncN(v: seq<byte>, k: nat): (r: seq<byte>)
    ensures |r| == |v|
  {
    if k == 0 then v else Inc(IncN(v, k - 1))
  }

  lemma BeAppend(s: seq<byte>, x: byte)
    ensures Be(s + [x]) == 256 * Be(s) + x
  {
    assert (s + [x])[..|s|] == s;
  }

  /** Multiplying both the number and the modulus by a scales the remainder. */
  lemma MulMod(a: nat, x: nat, m: nat)
    requires a > 0 && m > 0
    ensures (a * x) % (a * m) == a * (x % m)
  {
    var q, r := x / m, x % m;
    assert a * x == (a * m) * q + a * r;
    assert a * r < a * m;
    ModUnique(a * x, a * m, q, a * r);
  }

  lemma ModSucc(x: nat, m: nat)
    requires m > 0
    ensures ((x % m) + 1) % m == (x + 1) % m
  {
    assert x + 1 == m * (x / m) + (x % m + 1);
    ModAddMultiple(x % m + 1, m, x / m);
  }

  /** Inc adds one to the big-endian value, modulo 256^|v|. */
  lemma {:induction false} BeInc(v: seq<byte>)
    ensures Be(Inc(v)) == (Be(v) + 1) % Pow256(|v|)
    decreases |v|
  {
    var n := |v|;
    if n == 0 {
      assert Pow256(0) == 1;
    } else {
      var init, last := v[..n - 1], v[n - 1];
      var P := Pow256(n - 1);
      assert v == init + [last];
      BeAppend(init, last);
      BeBound(init);
      assert Pow256(n) == 256 * P;
      if last == 255 {
        BeInc(init);
        BeAppend(Inc(init), 0);
        assert Be(v) + 1 == 256 * (Be(init) + 1);
        MulMod(256, Be(init) + 1, P);
      } else {
        BeAppend(init, last + 1);
        assert Be(v) + 1 < Pow256(n);
        ModUnique(Be(v) + 1, Pow256(n), 0, Be(v) + 1);
      }
    }
  }

  /** k increments add k to the big-endian value, modulo 256^|v|. */
  lemma {:induction false} BeIncN(v: seq<byte>, k: nat)
    ensures Be(IncN(v, k)) == (Be(v) + k) % Pow256(|v|)
  {
    var P := Pow256(|v|);
    if k == 0 {
      BeBound(v);
      ModUnique(Be(v), P, 0, Be(v));
    } else {
      BeIncN(v, k - 1);
      BeInc(IncN(v, k - 1));
      ModSucc(Be(v) + k - 1, P);
    }
  }

  /** The shape of an increment whose last non-0xff byte is at j. */
  lemma {:induction false} IncAt(v: seq<byte>, j: nat)
    requires j < |v| && v[j] != 255
    requires forall k :: j < k < |v| ==> v[k] == 255
    ensures Inc(v) == v[..j] + [v[j] + 1] + seq(|v| - j - 1, k => 0)
    decreases |v|
  {
    var n := |v|;
    if j < n - 1 {
      IncAt(v[..n - 1], j);
      assert v[..n - 1][..j] == v[..j];
    } else {
      assert v[..n - 1] == v[..j];
    }
  }

  /** Incrementing an all-0xff counter wraps it to zero. */
  lemma {:induction false} IncAllOnes(v: seq<byte>)
    requires forall k :: 0 <= k < |v| ==> v[k] == 255
    ensures Inc(v) == seq(|v|, k => 0)
    decreases |v|
  {
    if |v| > 0 {
      IncAllOnes(v[..|v| - 1]);
    }
  }

  /** The increment loop of random.c: from the last byte backwards, 0xff wraps to 0x00 and carries. */
  method IncrementCounter(v: array<byte>)
    modifies v
    ensures v[..] == Inc(old(v[..]))
  {
    var j := v.Length - 1;
    var done := false;
    while j >= 0 && !done
      invariant -1 <= j < v.Length
      invariant !done ==> forall k :: j < k < v.Length ==> v[k] == 0 && old(v[k]) == 255
      invariant !done ==> forall k :: 0 <= k <= j ==> v[k] == old(v[k])
      invariant done ==> v[..] == Inc(old(v[..]))
      decreases j + 1, if done then 0 else 1
    {
      if v[j] == 255 {
        v[j] := 0;
        j := j - 1;
      } else {
        IncAt(old(v[..]), j);
        v[j] := v[j] + 1;
        assert v[..] == old(v[..])[..j] + [old(v[j]) + 1] + seq(v.Length - j - 1, k => 0);
        done := true;
      }
    }
    if !done {
      IncAllOnes(old(v[..]));
      assert v[..] == seq(v.Length, k => 0);
    }
  }

  /** temp of the update step: three blocks of the incremented counters, XORed with the provided data if there is any. */
  function UpdateTemp(enc: Cipher, key: seq<byte>, v: seq<byte>, provided: Option<seq<byte>>): (t: seq<byte>)
    requires |v| == 16 && (provided.Some? ==> |provided.value| == 48)
    ensures |t| == 48
  {
    var blocks := enc(key, IncN(v, 1)) + enc(key, IncN(v, 2)) + enc(key, IncN(v, 3));
    if provided.Some? then XorBytes(blocks, provided.value) else blocks
  }

  /** Byte j of the output that starts at counter v: byte j mod 16 of the encryption of v incremented j/16 + 1 times. */
  function DrbgByte(enc: Cipher, key: seq<byte>, v: seq<byte>, j: nat): byte
    requires |v| == 16
  {
    enc(key, IncN(v, j / 16 + 1))[j % 16]
  }

  /** Block k of the output holds output bytes 16k .. 16k+15. */
  lemma DrbgBlock(enc: Cipher, key: seq<byte>, v: seq<byte>, k: nat, blk: Block, len: nat)
    requires |v| == 16 && blk == enc(key, IncN(v, k + 1)) && len <= 16
    ensures forall j :: 16 * k <= j < 16 * k + len ==> blk[j - 16 * k] == DrbgByte(enc, key, v, j)
  {
    forall j | 16 * k <= j < 16 * k + len
      ensures blk[j - 16 * k] == DrbgByte(enc, key, v, j)
    {
      BlockIndex(j, k);
    }
  }

  /** The three blocks of the update step, written into temp. */
  method UpdateBlocks(enc: Cipher, key: array<byte>, v: array<byte>, temp: array<byte>)
    requires key.Length == 32 && v.Length == 16 && temp.Length == 48
    requires key != v && temp != v && temp != key
    modifies v, temp
    ensures v[..] == IncN(old(v[..]), 3)
    ensures temp[..] == enc(key[..], IncN(old(v[..]), 1)) + enc(key[..], IncN(old(v[..]), 2)) + enc(key[..], IncN(old(v[..]), 3))
  {
    ghost var v0 := v[..];
    for i := 0 to 3
      invariant v[..] == IncN(v0, i)
      invariant forall j :: 0 <= j < 16 * i ==> temp[j] == DrbgByte(enc, key[..], v0, j)
    {
      IncrementCounter(v);
      var blk := enc(key[..], v[..]);
      PutBlock(temp, 16 * i, blk, 16);
      DrbgBlock(enc, key[..], v0, i, blk, 16);
    }
    ghost var blocks := enc(key[..], IncN(v0, 1)) + enc(key[..], IncN(v0, 2)) + enc(key[..], IncN(v0, 3));
    forall j | 0 <= j < 48
      ensures temp[j] == blocks[j]
    {
      BlockIndex(j, j / 16);
    }
  }

  /** temp[i] ^= provided_data[i] for all 48 bytes. */
  method XorInto(temp: array<byte>, data: seq<byte>)
    requires temp.Length == 48 && |data| == 48
    modifies temp
    ensures temp[..] == XorBytes(old(temp[..]), data)
  {
    for i := 0 to 48
      invariant forall j :: 0 <= j < i ==> temp[j] == XorByte(old(temp[j]), data[j])
      invariant forall j :: i <= j < 48 ==> temp[j] == old(temp[j])
    {
      temp[i] := XorByte(temp[i], data[i]);
    }
  }

  /** AES256_CTR_DRBG_Update: three increments and encryptions under the old key, then Key := temp[0..32), V := temp[32..48). */
  method CtrDrbgUpdate(enc: Cipher, provided: Option<seq<byte>>, key: array<byte>, v: array<byte>)
    requires key.Length == 32 && v.Length == 16 && key != v
    requires provided.Some? ==> |provided.value| == 48
    modifies key, v
    ensures key[..] == UpdateTemp(enc, old(key[..]), old(v[..]), provided)[..32]
    ensures v[..] == UpdateTemp(enc, old(key[..]), old(v[..]), provided)[32..]
  {
    var temp := new byte[48];
    UpdateBlocks(enc, key, v, temp);
    if provided.Some? {
      XorInto(temp, provided.value);
    }
    ghost var t := temp[..];
    assert t == UpdateTemp(enc, old(key[..]), old(v[..]), provided);
    forall i | 0 <= i < 32 {
      key[i] := temp[i];
    }
    forall i | 0 <= i < 16 {
      v[i] := temp[32 + i];
    }
    assert key[..] == t[..32];
    assert v[..] == t[32..];
  }

  /** The n bytes randombytes produces: the encryptions of V+1, V+2, ... cut to n (no block for n = 0). */
  function DrbgStream(enc: Cipher, key: seq<byte>, v: seq<byte>, n: nat): (r: seq<byte>)
    requires |v| == 16
    ensures |r| == n
    decreases n
  {
    if n == 0 then []
    else
      var blk := enc(key, Inc(v));
      if n <= 16 then blk[..n] else blk + DrbgStream(enc, key, Inc(v), n - 16)
  }

  /** Byte i of the stream is byte i mod 16 of the encryption of V incremented i/16 + 1 times. */
  lemma {:induction false} DrbgStreamAt(enc: Cipher, key: seq<byte>, v: seq<byte>, n: nat, i: nat)
    requires |v| == 16 && i < n
    ensures DrbgStream(enc, key, v, n)[i] == DrbgByte(enc, key, v, i)
    decreases n
  {
    var blk := enc(key, Inc(v));
    assert IncN(v, 1) == Inc(v);
    if n <= 16 {
      assert DrbgStream(enc, key, v, n) == blk[..n];
      BlockIndex(i, 0);
    } else {
      var rest := DrbgStream(enc, key, Inc(v), n - 16);
      assert DrbgStream(enc, key, v, n) == blk + rest;
      if i < 16 {
        BlockIndex(i, 0);
      } else {
        DrbgStreamAt(enc, key, Inc(v), n - 16, i - 16);
        DivShift(i, 16);
        IncNFront(v, (i - 16) / 16 + 1);
      }
    }
  }

  /** The block count after a step of the randombytes loop. */
  lemma CeilStep(xlen: nat, len: nat, k: nat)
    requires 0 < len <= xlen && xlen - len == 16 * k
    ensures len <= 16 ==> k + 1 == (xlen + 15) / 16
  {
    if len <= 16 {
      ModUnique(xlen + 15, 16, k + 1, len - 1);
    }
  }

  /** A string of output bytes is the stream DrbgStream describes. */
  lemma DrbgStreamFromBytes(enc: Cipher, key: seq<byte>, v: seq<byte>, n: nat, s: seq<byte>)
    requires |v| == 16 && |s| == n
    requires forall j :: 0 <= j < n ==> s[j] == DrbgByte(enc, key, v, j)
    ensures s == DrbgStream(enc, key, v, n)
  {
    forall j | 0 <= j < n
      ensures s[j] == DrbgStream(enc, key, v, n)[j]
    {
      DrbgStreamAt(enc, key, v, n, j);
    }
  }

  lemma {:induction false} IncNFront(v: seq<byte>, k: nat)
    ensures IncN(Inc(v), k) == IncN(v, k + 1)
  {
    if k > 0 {
      IncNFront(v, k - 1);
    }
  }

  /** AES256_CTR_DRBG_struct: the global DRBG_ctx. */
  class Drbg {
    var key: array<byte>
    var v: array<byte>
    var reseedCounter: int

    ghost predicate Valid()
      reads this
    {
      key.Length == 32 && v.Length == 16 && key != v
    }

    /** Storage for the context; key and counter bytes are arbitrary until seeded. */
    constructor ()
      ensures Valid() && fresh(key) && fresh(v)
    {
      key := new byte[32];
      v := new byte[16];
    }

    /**
     * The block loop of randombytes: ceil(xlen/16) increments of V, each
     * encryption stored at the next 16 bytes of x, the last one cut short.
     */
    method GenerateBlocks(enc: Cipher, x: array<byte>, xlen: nat)
      requires Valid() && xlen <= x.Length && x != key && x != v
      modifies v, x
      ensures v[..] == IncN(old(v[..]), (xlen + 15) / 16)
      ensures x[..xlen] == DrbgStream(enc, key[..], old(v[..]), xlen)
      ensures x[xlen..] == old(x[xlen..])
    {
      ghost var v0 := v[..];
      var kb := key[..];
      ghost var k := 0;
      var i := 0;
      var len := xlen;
      while len > 0
        invariant 0 <= len <= xlen
        invariant len > 0 ==> i == xlen - len == 16 * k
        invariant len == 0 ==> k == (xlen + 15) / 16
        invariant v[..] == IncN(v0, k)
        invariant forall j :: 0 <= j < xlen - len ==> x[j] == DrbgByte(enc, kb, v0, j)
        invariant forall j :: xlen <= j < x.Length ==> x[j] == old(x[j])
      {
        IncrementCounter(v);
        k := k + 1;
        var block := enc(kb, v[..]);
        var n := if len > 15 then 16 else len;
        PutBlock(x, i, block, n);
        DrbgBlock(enc, kb, v0, k - 1, block, n);
        CeilStep(xlen, len, k - 1);
        if len > 15 {
          i := i + 16;
          len := len - 16;
        } else {
          len := 0;
        }
      }
      DrbgStreamFromBytes(enc, kb, v0, xlen, x[..xlen]);
    }

    /** randombytes: xlen output bytes, then an update without provided data and one more reseed count. */
    method RandomBytes(enc: Cipher, x: array<byte>, xlen: nat)
      requires Valid() && xlen <= x.Length && x != key && x != v
      modifies key, v, this`reseedCounter, x
      ensures Valid()
      ensures x[..xlen] == DrbgStream(enc, old(key[..]), old(v[..]), xlen)
      ensures x[xlen..] == old(x[xlen..])
      ensures key[..] == UpdateTemp(enc, old(key[..]), IncN(old(v[..]), (xlen + 15) / 16), None)[..32]
      ensures v[..] == UpdateTemp(enc, old(key[..]), IncN(old(v[..]), (xlen + 15) / 16), None)[32..]
      ensures reseedCounter == old(reseedCounter) + 1
    {
      GenerateBlocks(enc, x, xlen);
      CtrDrbgUpdate(enc, None, key, v);
      reseedCounter := reseedCounter + 1;
    }
  }
}
