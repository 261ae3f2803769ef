/**
 * Multiprecision integers as little-endian strings of 64-bit digits (digit_t),
 * with the carry/borrow primitives the field arithmetic is built from.
 */
module Digits {
  import opened Bytes

  /** (2^64)^i: the weight of digit i. */
  function Base(i: nat): (r: nat)
    ensures r >= 1
  {
    if i == 0 then 1 else TWO_64 * Base(i - 1)
  }

  /** The value of a little-endian digit string: digit 0 is the least significant. */
  function Val(s: seq<U64>): nat
  {
    if s == [] then 0 else Val(s[..|s| - 1]) + s[|s| - 1] * Base(|s| - 1)
  }

  lemma BaseAdd(i: nat, j: nat)
    ensures Base(i + j) == Base(i) * Base(j)
    decreases i
  {
    if i > 0 {
      BaseAdd(i - 1, j);
      calc {
        Base(i + j);
        TWO_64 * Base(i - 1 + j);
        TWO_64 * (Base(i - 1) * Base(j));
        (TWO_64 * Base(i - 1)) * Base(j);
      }
    }
  }

  lemma BaseIsPow2(i: nat)
    ensures Base(i) == Pow2(64 * i)
  {
    if i > 0 {
      BaseIsPow2(i - 1);
      Pow2Add(64, 64 * (i - 1));
      Pow2Values();
    }
  }

  lemma {:induction false} BaseIsPow256(i: nat)
    ensures Base(i) == Pow256(8 * i)
  {
    if i > 0 {
      BaseIsPow256(i - 1);
      assert 8 * i == 8 + 8 * (i - 1);
      Pow256Add(8, 8 * (i - 1));
      assert Pow256(8) == TWO_64;
    }
  }

  lemma {:induction false} ValBound(s: seq<U64>)
    ensures Val(s) < Base(|s|)
  {
    if s != [] {
      var n := |s|;
      ValBound(s[..n - 1]);
      MulLe(s[n - 1], TWO_64 - 1, Base(n - 1));
      assert Val(s) <= Base(n - 1) - 1 + (TWO_64 - 1) * Base(n - 1);
    }
  }

  lemma MulLe(x: nat, y: nat, b: nat)
    requires x <= y
    ensures x * b <= y * b
  {
    assert y * b == x * b + (y - x) * b;
  }

  /** Appending a digit adds it at the next weight. */
  lemma ValPush(s: seq<U64>, w: U64)
    ensures Val(s + [w]) == Val(s) + w * Base(|s|)
  {
    assert (s + [w])[..|s|] == s;
  }

  /** The prefix of length i+1 is the prefix of length i plus digit i. */
  lemma ValPrefix(s: seq<U64>, i: nat)
    requires i < |s|
    ensures Val(s[..i + 1]) == Val(s[..i]) + s[i] * Base(i)
  {
    assert s[..i + 1] == s[..i] + [s[i]];
    ValPush(s[..i], s[i]);
  }

  lemma {:induction false} ValSplit(s: seq<U64>, k: nat)
    requires k <= |s|
    ensures Val(s) == Val(s[..k]) + Base(k) * Val(s[k..])
  {
    var n := |s|;
    if k == n {
      assert s[..k] == s;
      assert s[k..] == [];
    } else {
      var init := s[..n - 1];
      ValSplit(init, k);
      assert init[..k] == s[..k];
      assert init[k..] == s[k..][..n - 1 - k];
      var hi := s[k..];
      assert Val(hi) == Val(hi[..n - 1 - k]) + s[n - 1] * Base(n - 1 - k);
      BaseAdd(k, n - 1 - k);
      var a, b, c, d, e := Val(s[..k]), Base(k), Val(init[k..]), s[n - 1], Base(n - 1 - k);
      assert Val(s) == a + b * c + d * (b * e);
      calc {
        b * Val(hi);
        b * (c + d * e);
        { MulDistrib2(b, c, d, e); }
        b * c + d * (b * e);
      }
    }
  }

  lemma MulDistrib2(b: int, c: int, d: int, e: int)
    ensures b * (c + d * e) == b * c + d * (b * e)
  {
  }

  /** Peeling off the least significant digit. */
  lemma ValFront(s: seq<U64>)
    requires |s| > 0
    ensures Val(s) == s[0] + TWO_64 * Val(s[1..])
  {
    ValSplit(s, 1);
    assert s[..1] == [s[0]];
    assert [s[0]][..0] == [];
  }

  /** Equal values on equally long strings mean equal strings. */
  lemma {:induction false} ValInjective(s: seq<U64>, t: seq<U64>)
    requires |s| == |t| && Val(s) == Val(t)
    ensures s == t
  {
    var n := |s|;
    if n > 0 {
      ValBound(s[..n - 1]);
      ValBound(t[..n - 1]);
      var a, b := Val(s[..n - 1]), Val(t[..n - 1]);
      var B := Base(n - 1);
      DigitsUnique(a, s[n - 1], b, t[n - 1], B);
      ValInjective(s[..n - 1], t[..n - 1]);
      assert s == s[..n - 1] + [s[n - 1]];
      assert t == t[..n - 1] + [t[n - 1]];
    }
  }

  lemma DigitsUnique(a: nat, x: nat, b: nat, y: nat, B: nat)
    requires a < B && b < B && a + x * B == b + y * B
    ensures x == y && a == b
  {
    if x > y {
      assert (x - y) * B == b - a;
      MulAtLeast(B, x - y);
    } else if y > x {
      assert (y - x) * B == a - b;
      MulAtLeast(B, y - x);
    }
  }

  /** The n-digit little-endian representation of x mod Base(n). */
  function ToWords(x: nat, n: nat): (r: seq<U64>)
    ensures |r| == n
  {
    if n == 0 then [] else [x % TWO_64] + ToWords(x / TWO_64, n - 1)
  }

  lemma {:induction false} ValToWords(x: nat, n: nat)
    ensures Val(ToWords(x, n)) == x % Base(n)
  {
    if n > 0 {
      var r := ToWords(x, n);
      ValToWords(x / TWO_64, n - 1);
      ValSplit(r, 1);
      assert r[..1] == [x % TWO_64];
      assert Val([x % TWO_64]) == x % TWO_64 by {
        assert [x % TWO_64][..0] == [];
      }
      assert r[1..] == ToWords(x / TWO_64, n - 1);
      DivModMul(x, TWO_64, Base(n - 1));
    }
  }

  /** A digit string represents exactly its own value. */
  lemma ToWordsOfVal(s: seq<U64>)
    ensures ToWords(Val(s), |s|) == s
  {
    var v := Val(s);
    var r := ToWords(v, |s|);
    ValBound(s);
    ValToWords(v, |s|);
    ModUnique(v, Base(|s|), 0, v);
    assert Val(r) == v;
    ValInjective(r, s);
  }

  /** ADDC: one digit of a carry chain; the outgoing carry is the overflow of x + y + carry. */
  function AddC(carry: nat, x: U64, y: U64): (r: (nat, U64))
    requires carry <= 1
    ensures r.0 <= 1 && r.1 + r.0 * TWO_64 == x + y + carry
  {
    var t := x + y + carry;
    if t >= TWO_64 then (1, t - TWO_64) else (0, t)
  }

  /** SUBC: one digit of a borrow chain; the outgoing borrow is set when x - y - borrow < 0. */
  function SubC(borrow: nat, x: U64, y: U64): (r: (nat, U64))
    requires borrow <= 1
    ensures r.0 <= 1 && r.1 - r.0 * TWO_64 == x - y - borrow
  {
    var t := x - y - borrow;
    if t < 0 then (1, t + TWO_64) else (0, t)
  }

  /** One digit of a borrow chain keeps the equation between the partial difference and the partial operands. */
  lemma SubStep(vc: int, vx: int, vy: int, b: int, bin: int, xi: int, yi: int, diff: int, bout: int)
    requires vc - bin * b == vx - vy
    requires diff - bout * TWO_64 == xi - yi - bin
    ensures (vc + diff * b) - bout * (TWO_64 * b) == (vx + xi * b) - (vy + yi * b)
  {
    assert bout * (TWO_64 * b) == (bout * TWO_64) * b;
    assert diff * b - (bout * TWO_64) * b == (diff - bout * TWO_64) * b;
    assert (xi - yi - bin) * b == xi * b - yi * b - bin * b;
  }

  const ALL_ONES: U64 := 0xFFFF_FFFF_FFFF_FFFF

  /** `0 - (digit_t)bit`: all ones when the bit is set, zero otherwise. */
  function MaskOf(bit: nat): (r: U64)
    requires bit <= 1
    ensures bit == 1 ==> r == ALL_ONES
    ensures bit == 0 ==> r == 0
  {
    (0 - bit) % TWO_64
  }

  /** Digit-wise AND with a mask that is either all ones or zero. */
  function AndMask(s: seq<U64>, mask: U64): (r: seq<U64>)
    requires mask == 0 || mask == ALL_ONES
    ensures |r| == |s|
  {
    if mask == 0 then seq(|s|, i => 0) else s
  }

  lemma ValAndMask(s: seq<U64>, mask: U64)
    requires mask == 0 || mask == ALL_ONES
    ensures Val(AndMask(s, mask)) == if mask == 0 then 0 else Val(s)
  {
    if mask == 0 {
      ValZeros(|s|);
    }
  }

  lemma {:induction false} ValZeros(n: nat)
    ensures Val(seq(n, i => 0)) == 0
  {
    if n > 0 {
      assert seq(n, i => 0)[..n - 1] == seq(n - 1, i => 0);
      ValZeros(n - 1);
    }
  }
}
