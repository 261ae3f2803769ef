/**
 * The multiprecision helpers of the test utilities: a three-way comparison of
 * digit strings, a plain subtraction with borrow, and the generators of
 * pseudo-random field elements, which fill digits from bytes of rand(), mask
 * the top digit to the field's bit length and subtract p until the value
 * drops below p.  The bytes returned by rand() are an input here.
 */
module TestExtras {
  import opened Bytes
  import opened Digits
  import P697

  /** NBITS_TO_NWORDS: the number of 64-bit digits that hold nbits bits. */
  function NbitsToNwords(nbits: nat): nat
  {
    (nbits + 63) / 64
  }

  lemma MulComm(x: int, y: int)
    ensures x * y == y * x
  {
  }

  /* ---------------- compare_words ---------------- */

  /** When the digits above i agree, digit i decides the order of the values. */
  lemma TopDigitDecides(a: seq<U64>, b: seq<U64>, i: nat)
    requires |a| == |b| && i < |a|
    requires forall j :: i < j < |a| ==> a[j] == b[j]
    requires a[i] > b[i]
    ensures Val(a) > Val(b)
  {
    assert a[i + 1..] == b[i + 1..];
    ValSplit(a, i + 1);
    ValSplit(b, i + 1);
    var h := Val(a[i + 1..]);
    var w := Base(i + 1) * h;
    assert Val(a) == Val(a[..i + 1]) + w && Val(b) == Val(b[..i + 1]) + w;
    ValPrefix(a, i);
    ValPrefix(b, i);
    ValBound(b[..i]);
    var B := Base(i);
    MulLe(b[i] + 1, a[i], B);
    assert (b[i] + 1) * B == b[i] * B + B;
    assert Val(a[..i + 1]) >= a[i] * B;
  }

  /**
   * compare_words: scanning from the top digit, 1 at the first digit where a is
   * larger, -1 where it is smaller, 0 when all agree; so the result is the
   * order of the two little-endian values.
   */
  method CompareWords(a: seq<U64>, b: seq<U64>) returns (r: int)
    requires |a| == |b|
    ensures r == 1 <==> Val(a) > Val(b)
    ensures r == 0 <==> Val(a) == Val(b)
    ensures r == -1 <==> Val(a) < Val(b)
  {
    var i := |a| - 1;
    while i >= 0
      invariant -1 <= i < |a|
      invariant forall j :: i < j < |a| ==> a[j] == b[j]
    {
      if a[i] > b[i] {
        TopDigitDecides(a, b, i);
        return 1;
      } else if a[i] < b[i] {
        TopDigitDecides(b, a, i);
        return -1;
      }
      i := i - 1;
    }
    assert a == b;
    return 0;
  }

  /* ---------------- sub_test ---------------- */

  /** One digit of sub_test: the wrapped difference less the borrow, and the new borrow. */
  function SubTestDigit(x: U64, y: U64, borrow: nat): (nat, U64)
    requires borrow <= 1
  {
    var res := (x - y) % TWO_64;
    var carry := if x < y then 1 else 0;
    var c := (res - borrow) % TWO_64;
    (if carry == 1 || res < borrow then 1 else 0, c)
  }

  /** The digit step of sub_test is a SUBC. */
  lemma SubTestDigitIsSubC(x: U64, y: U64, borrow: nat)
    requires borrow <= 1
    ensures SubTestDigit(x, y, borrow) == SubC(borrow, x, y)
  {
    var res := (x - y) % TWO_64;
    if x < y {
      ModUnique(x - y, TWO_64, -1, x - y + TWO_64);
      ModUnique(res - borrow, TWO_64, 0, res - borrow);
    } else {
      ModUnique(x - y, TWO_64, 0, x - y);
      if res < borrow {
        ModUnique(res - borrow, TWO_64, -1, res - borrow + TWO_64);
      } else {
        ModUnique(res - borrow, TWO_64, 0, res - borrow);
      }
    }
  }

  /** One round of the sub_test loop keeps the chain equation. */
  lemma SubTestStep(low: seq<U64>, x: seq<U64>, b: seq<U64>, i: nat, borrow: nat)
    requires |low| == i < |x| == |b| && borrow <= 1
    requires Val(low) - borrow * Base(i) == Val(x[..i]) - Val(b[..i])
    ensures var r := SubTestDigit(x[i], b[i], borrow);
      Val(low + [r.1]) - r.0 * Base(i + 1) == Val(x[..i + 1]) - Val(b[..i + 1])
  {
    var r := SubTestDigit(x[i], b[i], borrow);
    SubTestDigitIsSubC(x[i], b[i], borrow);
    ValPush(low, r.1);
    ValPrefix(x, i);
    ValPrefix(b, i);
    SubStep(Val(low), Val(x[..i]), Val(b[..i]), Base(i), borrow, x[i], b[i], r.1, r.0);
  }

  lemma ChainArith(vc: int, vx: int, vy: int, borrow: int, b: int)
    requires 0 <= vc < b && 0 <= vx < b && 0 <= vy < b && (borrow == 0 || borrow == 1)
    requires vc - borrow * b == vx - vy
    ensures vc == (vx - vy) % b
    ensures vx >= vy ==> vc == vx - vy
  {
    if borrow == 0 {
      ModUnique(vx - vy, b, 0, vc);
    } else {
      ModUnique(vx - vy, b, -1, vc);
    }
  }

  /** The equation at the end of a borrow chain fixes the result mod Base(n), and exactly when x >= y. */
  lemma ChainResult(c: seq<U64>, x: seq<U64>, y: seq<U64>, borrow: nat)
    requires |c| == |x| == |y| && borrow <= 1
    requires Val(c) - borrow * Base(|c|) == Val(x) - Val(y)
    ensures Val(c) == (Val(x) - Val(y)) % Base(|c|)
    ensures Val(x) >= Val(y) ==> Val(c) == Val(x) - Val(y)
  {
    ValBound(c);
    ValBound(x);
    ValBound(y);
    ChainArith(Val(c), Val(x), Val(y), borrow, Base(|c|));
  }

  /**
   * sub_test: c[cOff..cOff+n) := a[aOff..aOff+n) - b, digit by digit with a
   * borrow; the last borrow is dropped.  c may be a itself at the same offset
   * (or anywhere that is not ahead of a within the n digits): each digit of a is
   * read before any write can reach it.
   */
  method SubTest(a: array<U64>, aOff: nat, b: seq<U64>, c: array<U64>, cOff: nat)
    requires aOff + |b| <= a.Length && cOff + |b| <= c.Length
    requires a != c || cOff <= aOff || aOff + |b| <= cOff
    modifies c
    ensures forall k :: 0 <= k < c.Length && !(cOff <= k < cOff + |b|) ==> c[k] == old(c[k])
    ensures Val(c[cOff..cOff + |b|]) == (Val(old(a[aOff..aOff + |b|])) - Val(b)) % Base(|b|)
    ensures Val(old(a[aOff..aOff + |b|])) >= Val(b) ==> Val(c[cOff..cOff + |b|]) == Val(old(a[aOff..aOff + |b|])) - Val(b)
  {
    ghost var x := a[aOff..aOff + |b|];
    var borrow, cs := SubTestChain(a, aOff, b, c, cOff);
    ChainResult(cs, x, b, borrow);
  }

  /** The digit loop of sub_test; it also yields the final borrow and the digits it wrote. */
  method SubTestChain(a: array<U64>, aOff: nat, b: seq<U64>, c: array<U64>, cOff: nat) returns (borrow: nat, ghost cs: seq<U64>)
    requires aOff + |b| <= a.Length && cOff + |b| <= c.Length
    requires a != c || cOff <= aOff || aOff + |b| <= cOff
    modifies c
    ensures borrow <= 1 && |cs| == |b| && c[cOff..cOff + |b|] == cs
    ensures forall k :: 0 <= k < c.Length && !(cOff <= k < cOff + |b|) ==> c[k] == old(c[k])
    ensures Val(cs) - borrow * Base(|b|) == Val(old(a[aOff..aOff + |b|])) - Val(b)
  {
    var n := |b|;
    ghost var x := a[aOff..aOff + n];
    cs := [];
    borrow := 0;
    var i := 0;
    while i < n
      invariant 0 <= i <= n && borrow <= 1 && |cs| == i
      invariant forall j :: i <= j < n ==> a[aOff + j] == x[j]
      invariant forall j :: 0 <= j < i ==> c[cOff + j] == cs[j]
      invariant forall k :: 0 <= k < c.Length && !(cOff <= k < cOff + i) ==> c[k] == old(c[k])
      invariant Val(cs) - borrow * Base(i) == Val(x[..i]) - Val(b[..i])
    {
      assert a[aOff + i] == x[i];
      var r := SubTestDigit(a[aOff + i], b[i], borrow);
      SubTestStep(cs, x, b, i, borrow);
      c[cOff + i] := r.1;
      assert forall j :: i < j < n ==> a[aOff + j] == x[j];
      cs := cs + [r.1];
      assert forall j :: 0 <= j <= i ==> c[cOff + j] == cs[j];
      borrow := r.0;
      i := i + 1;
    }
    assert c[cOff..cOff + n] == cs;
    assert x[..n] == x && b[..n] == b;
  }

  /* ---------------- filling digits from bytes ---------------- */

  /** The digits a little-endian host sees after n*8 bytes are stored through a byte pointer. */
  function WordsOfBytes(rnd: seq<byte>): (r: seq<U64>)
    requires |rnd| % 8 == 0
    ensures |r| == |rnd| / 8
  {
    seq(|rnd| / 8, w requires 0 <= w < |rnd| / 8 => WordOfBytes(rnd[8 * w..8 * w + 8]))
  }

  function WordOfBytes(bs: seq<byte>): U64
    requires |bs| == 8
  {
    LeBound(bs);
    assert Pow256(8) == TWO_64;
    Le(bs)
  }

  /** Storing bytes into digits preserves the little-endian value. */
  lemma {:induction false} ValWordsOfBytes(rnd: seq<byte>)
    requires |rnd| % 8 == 0
    ensures Val(WordsOfBytes(rnd)) == Le(rnd)
  {
    var n := |rnd| / 8;
    if n > 0 {
      var w := WordsOfBytes(rnd);
      var init := rnd[..8 * (n - 1)];
      ValWordsOfBytes(init);
      WordsOfBytesLast(rnd);
      LeSplit(rnd, 8 * (n - 1));
      BaseIsPow256(n - 1);
      ValPrefix(w, n - 1);
      assert w[..n] == w;
      MulComm(w[n - 1], Base(n - 1));
    } else {
      assert rnd == [];
    }
  }

  /** The last eight bytes make the top digit; the bytes before it make the digits below. */
  lemma WordsOfBytesLast(rnd: seq<byte>)
    requires |rnd| % 8 == 0 && |rnd| >= 8
    ensures WordsOfBytes(rnd)[..|rnd| / 8 - 1] == WordsOfBytes(rnd[..|rnd| - 8])
    ensures WordsOfBytes(rnd)[|rnd| / 8 - 1] == Le(rnd[|rnd| - 8..])
  {
    var n := |rnd| / 8;
    var init := rnd[..8 * (n - 1)];
    forall j | 0 <= j < n - 1
      ensures WordsOfBytes(rnd)[j] == WordsOfBytes(init)[j]
    {
      assert init[8 * j..8 * j + 8] == rnd[8 * j..8 * j + 8];
    }
    assert rnd[8 * (n - 1)..] == rnd[8 * (n - 1)..8 * (n - 1) + 8];
  }

  /** The byte loop of the generators: digits off..off+n of a receive the random bytes, little-endian. */
  method FillFromBytes(a: array<U64>, off: nat, rnd: seq<byte>)
    requires |rnd| % 8 == 0 && off + |rnd| / 8 <= a.Length
    modifies a
    ensures a[off..off + |rnd| / 8] == WordsOfBytes(rnd)
    ensures forall k :: 0 <= k < a.Length && !(off <= k < off + |rnd| / 8) ==> a[k] == old(a[k])
  {
    var n := |rnd| / 8;
    var w := 0;
    while w < n
      invariant 0 <= w <= n
      invariant forall j :: 0 <= j < w ==> a[off + j] == WordsOfBytes(rnd)[j]
      invariant forall k :: 0 <= k < a.Length && !(off <= k < off + w) ==> a[k] == old(a[k])
    {
      a[off + w] := WordOfBytes(rnd[8 * w..8 * w + 8]);
      w := w + 1;
    }
    assert a[off..off + n] == WordsOfBytes(rnd);
  }

  /* ---------------- masking the top digit ---------------- */

  /**
   * `a[nwords-1] &= ((digit_t)(-1) << diff) >> diff`: the mask has its low
   * 64 - diff bits set, so the top digit keeps exactly those bits.
   */
  function KeepLowBits(w: U64, k: nat): U64
    requires k <= 64
  {
    Pow2Monotone(k, 64);
    Pow2Values();
    w % Pow2(k)
  }

  /** Masking the top digit to k bits reduces the value mod 2^(64(n-1)+k). */
  lemma MaskTopValue(s: seq<U64>, k: nat)
    requires |s| > 0 && k <= 64
    ensures Val(s[..|s| - 1] + [KeepLowBits(s[|s| - 1], k)]) == Val(s) % Pow2(64 * (|s| - 1) + k)
  {
    var n := |s|;
    var lo, top := s[..n - 1], s[n - 1];
    var B, K := Base(n - 1), Pow2(k);
    var v := Val(s);
    ValPush(lo, KeepLowBits(top, k));
    ValBound(lo);
    BaseIsPow2(n - 1);
    Pow2Add(64 * (n - 1), k);
    assert Pow2(64 * (n - 1) + k) == B * K;
    assert v == B * top + Val(lo) by {
      assert s == lo + [top];
      ValPush(lo, top);
    }
    ModUnique(v, B, top, Val(lo));
    DivModMul(v, B, K);
    assert v % (B * K) == Val(lo) + B * (top % K);
    assert KeepLowBits(top, k) == top % K;
    MulComm(B, top % K);
  }

  /** The masking statement on digit off+n-1 of a. */
  method MaskTopWord(a: array<U64>, off: nat, n: nat, k: nat)
    requires 0 < n && off + n <= a.Length && k <= 64
    modifies a
    ensures forall j :: 0 <= j < a.Length && j != off + n - 1 ==> a[j] == old(a[j])
    ensures Val(a[off..off + n]) == Val(old(a[off..off + n])) % Pow2(64 * (n - 1) + k)
  {
    ghost var s := a[off..off + n];
    a[off + n - 1] := KeepLowBits(a[off + n - 1], k);
    assert a[off..off + n] == s[..n - 1] + [KeepLowBits(s[n - 1], k)];
    MaskTopValue(s, k);
  }

  /* ---------------- reduction by repeated subtraction ---------------- */

  /**
   * `while (compare_words(p, a, nwords) < 1) sub_test(a, p, a, nwords);`:
   * subtract p from digits off..off+|p| of a until they drop below p.  Each
   * subtraction strictly lowers the value, so the loop ends; the value keeps its
   * residue mod p.
   */
  method ReduceBelow(a: array<U64>, off: nat, p: seq<U64>)
    requires off + |p| <= a.Length && Val(p) > 0
    modifies a
    ensures Val(a[off..off + |p|]) == Val(old(a[off..off + |p|])) % Val(p)
    ensures forall k :: 0 <= k < a.Length && !(off <= k < off + |p|) ==> a[k] == old(a[k])
  {
    var n := |p|;
    ghost var v0 := Val(a[off..off + n]);
    ghost var q := 0;
    var cmp := CompareWords(p, a[off..off + n]);
    while cmp < 1
      invariant Val(a[off..off + n]) + q * Val(p) == v0 && q >= 0
      invariant cmp <= 1 && (cmp == 1 <==> Val(p) > Val(a[off..off + n]))
      invariant forall k :: 0 <= k < a.Length && !(off <= k < off + n) ==> a[k] == old(a[k])
      decreases Val(a[off..off + n])
    {
      SubTest(a, off, p, a, off);
      assert (q + 1) * Val(p) == q * Val(p) + Val(p);
      q := q + 1;
      cmp := CompareWords(p, a[off..off + n]);
    }
    ghost var va, vp := Val(a[off..off + n]), Val(p);
    assert va + q * vp == v0 && va < vp;
    MulComm(q, vp);
    ModUnique(v0, vp, q, va);
  }

  /* ---------------- the generators ---------------- */

  /** NBITS_FIELD697 and the 11 digits of p697 kept by the test utilities. */
  const NBITS_FIELD697: nat := 697

  const P697_TEST_WORDS: seq<U64> := [
    0xFFFFFFFFFFFFFFFF, 0xFFFFFFFFFFFFFFFF, 0xFFFFFFFFFFFFFFFF, 0xFFFFFFFFFFFFFFFF, 0xFFFFFFFFFFFFFFFF, 0x604054AFFFFFFFFF,
    0xDF4970CF7313736F, 0x719AEC973BF54225, 0x40E474DA88B90FFE, 0x9A0E279D6CEB3C8E, 0x01B39F97671708CF]

  /**
   * fprandom697_test on the element stored at digits off..off+11 of a: the
   * 88 random bytes, masked to 697 bits and reduced below p697.
   */
  method FpRandom697(a: array<U64>, off: nat, rnd: seq<byte>)
    requires |rnd| == 8 * NbitsToNwords(NBITS_FIELD697) && off + NbitsToNwords(NBITS_FIELD697) <= a.Length
    modifies a
    ensures Val(a[off..off + 11]) == (Le(rnd) % Pow2(NBITS_FIELD697)) % P697.P
    ensures Val(a[off..off + 11]) < P697.P
    ensures forall k :: 0 <= k < a.Length && !(off <= k < off + 11) ==> a[k] == old(a[k])
  {
    Load697(a, off, rnd);
    P697.P697Digits();
    assert P697_TEST_WORDS == P697.P697_WORDS;
    ReduceBelow(a, off, P697_TEST_WORDS);
  }

  /** The first half of fprandom697_test: the bytes stored as 11 digits, the top digit masked to 697 bits in all. */
  method Load697(a: array<U64>, off: nat, rnd: seq<byte>)
    requires |rnd| == 8 * NbitsToNwords(NBITS_FIELD697) && off + NbitsToNwords(NBITS_FIELD697) <= a.Length
    modifies a
    ensures Val(a[off..off + 11]) == Le(rnd) % Pow2(NBITS_FIELD697)
    ensures forall k :: 0 <= k < a.Length && !(off <= k < off + 11) ==> a[k] == old(a[k])
  {
    var diff := 704 - NBITS_FIELD697;
    var nwords := NbitsToNwords(NBITS_FIELD697);
    assert nwords == 11 && 64 * (nwords - 1) + (64 - diff) == NBITS_FIELD697;
    FillFromBytes(a, off, rnd);
    ghost var w := a[off..off + 11];
    ValWordsOfBytes(rnd);
    assert Val(w) == Le(rnd);
    MaskTopWord(a, off, nwords, 64 - diff);
    assert Val(a[off..off + 11]) == Val(w) % Pow2(NBITS_FIELD697);
  }

  /** fp2random697_test: two consecutive field elements, each from its own 88 bytes and each below p697. */
  method Fp2Random697(a: array<U64>, rnd0: seq<byte>, rnd1: seq<byte>)
    requires |rnd0| == 88 && |rnd1| == 88 && 2 * NbitsToNwords(NBITS_FIELD697) <= a.Length
    modifies a
    ensures Val(a[0..11]) == (Le(rnd0) % Pow2(NBITS_FIELD697)) % P697.P
    ensures Val(a[11..22]) == (Le(rnd1) % Pow2(NBITS_FIELD697)) % P697.P
    ensures Val(a[0..11]) < P697.P && Val(a[11..22]) < P697.P
    ensures forall k :: 22 <= k < a.Length ==> a[k] == old(a[k])
  {
    FpRandom697(a, 0, rnd0);
    ghost var first := a[0..11];
    ghost var v0 := Val(first);
    FpRandom697(a, 11, rnd1);
    assert a[0..11] == first;
  }


  /** The two small primes the cryptanalysis tests can be built with (p_32_20 or p_36_22). */
  datatype SmallPrime = P32_20 | P36_22

  /** p128 of each build: 2^32*3^20*23 - 1 and 2^36*3^22*31 - 1. */
  function P128Words(choice: SmallPrime): seq<U64>
  {
    match choice
    case P32_20 => [0xAC0E7A06FFFFFFFF, 0x0000000000000012]
    case P36_22 => [0x02A0B06FFFFFFFFF, 0x0000000000000E28]
  }

  /** NBITS_FIELD128 of each build. */
  function NbitsField128(choice: SmallPrime): nat
  {
    match choice
    case P32_20 => 69
    case P36_22 => 76
  }

  /** The value of p128, and the bit length that matches it. */
  lemma P128Value(choice: SmallPrime)
    ensures Val(P128Words(choice)) == if choice == P32_20 then 0x12ac0e7a06ffffffff else 0xe2802a0b06fffffffff
    ensures Pow2(NbitsField128(choice) - 1) <= Val(P128Words(choice)) < Pow2(NbitsField128(choice))
  {
    var s := P128Words(choice);
    ValFront(s);
    ValFront(s[1..]);
    assert s[1..][1..] == [];
    Pow2Values();
    Pow2Add(64, 4);
    Pow2Add(64, 5);
    Pow2Add(64, 11);
    Pow2Add(64, 12);
    assert Pow2(4) == 16;
    Pow2Add(4, 1);
    Pow2Add(5, 6);
    Pow2Add(11, 1);
  }

  /**
   * fprandom128_test: the two digits are cleared, filled from 16 random bytes,
   * the top digit masked to NBITS_FIELD128 - 64 bits, and the value reduced
   * below p128.
   */
  method FpRandom128(a: array<U64>, choice: SmallPrime, rnd: seq<byte>)
    requires a.Length == NbitsToNwords(128) && |rnd| == 8 * NbitsToNwords(NbitsField128(choice))
    modifies a
    ensures Val(a[..]) == (Le(rnd) % Pow2(NbitsField128(choice))) % Val(P128Words(choice))
    ensures Val(a[..]) < Val(P128Words(choice))
  {
    var nbits := NbitsField128(choice);
    var diff := 128 - nbits;
    var nwords := NbitsToNwords(nbits);
    var i := 0;
    while i < NbitsToNwords(128)
      invariant 0 <= i <= NbitsToNwords(128)
      invariant forall j :: 0 <= j < i ==> a[j] == 0
    {
      a[i] := 0;
      i := i + 1;
    }
    // The cleared digits are both overwritten by the fill, so the clearing has no effect on the result.
    FillFromBytes(a, 0, rnd);
    ValWordsOfBytes(rnd);
    MaskTopWord(a, 0, nwords, 64 - diff);
    P128Value(choice);
    assert a[0..2] == a[..];
    ReduceBelow(a, 0, P128Words(choice));
  }
}
