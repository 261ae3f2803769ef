/**
 * Fixed-width integer types of the C sources and the byte-string views of them.
 * Widths are explicit: a C `uint32_t` addition is `Add32`, a byte of a 64-bit
 * word is `ByteOf`, a little-endian byte string has the value `Le`.
 */
module Bytes {

  type byte = x: int | 0 <= x < 256
  type U32 = x: int | 0 <= x < 0x1_0000_0000
  type U64 = x: int | 0 <= x < 0x1_0000_0000_0000_0000

  const TWO_32: nat := 0x1_0000_0000
  const TWO_64: nat := 0x1_0000_0000_0000_0000

  function Pow2(n: nat): (r: nat)
    ensures r >= 1
  {
    if n == 0 then 1 else 2 * Pow2(n - 1)
  }

  lemma {:induction false} Pow2Add(a: nat, b: nat)
    ensures Pow2(a + b) == Pow2(a) * Pow2(b)
  {
    if a > 0 {
      Pow2Add(a - 1, b);
    }
  }

  lemma {:induction false} Pow2Monotone(a: nat, b: nat)
    requires a <= b
    ensures Pow2(a) <= Pow2(b)
  {
    if a < b {
      Pow2Monotone(a, b - 1);
    }
  }

  lemma Pow2Values()
    ensures Pow2(8) == 256 && Pow2(16) == 65536 && Pow2(15) == 32768
    ensures Pow2(32) == TWO_32 && Pow2(64) == TWO_64
  {
    assert Pow2(3) == 8;
    Pow2Add(3, 3);
    Pow2Add(6, 2);
    assert Pow2(8) == 256;
    Pow2Add(8, 7);
    Pow2Add(15, 1);
    Pow2Add(16, 16);
    Pow2Add(32, 32);
  }

  /** When 2^a divides 2^b, reducing mod 2^b first does not change a reduction mod 2^a. */
  lemma ModPow2Nested(x: int, a: nat, b: nat)
    requires a <= b
    ensures (x % Pow2(b)) % Pow2(a) == x % Pow2(a)
  {
    Pow2Add(a, b - a);
    ModNested(x, Pow2(a), Pow2(b - a));
  }

  lemma ModNested(x: int, m: nat, k: nat)
    requires m > 0 && k > 0
    ensures (x % (m * k)) % m == x % m
  {
    var q := x / (m * k);
    var r := x % (m * k);
    assert x == (m * k) * q + r;
    assert x == m * (k * q) + r;
    ModAddMultiple(r, m, k * q);
  }

  /** Adding a multiple of m does not change the remainder mod m. */
  lemma ModAddMultiple(r: int, m: nat, q: int)
    requires m > 0
    ensures (m * q + r) % m == r % m
  {
    var b := r / m;
    assert r == m * b + r % m;
    assert m * q + r == m * (q + b) + r % m;
    ModUnique(m * q + r, m, q + b, r % m);
  }

  lemma MulDistrib(d: int, a: int, b: int, c: int)
    ensures d * (a + b * c) == d * a + (d * b) * c
  {
  }

  lemma MulAtLeast(m: nat, d: int)
    requires d >= 1
    ensures m * d >= m
  {
    assert m * d == m + m * (d - 1);
  }

  /** A C `uint32_t` addition: the sum wraps modulo 2^32. */
  function Add32(x: U32, y: U32): (r: U32)
    ensures x + y < TWO_32 ==> r == x + y
    ensures x + y >= TWO_32 ==> r == x + y - TWO_32
  {
    if x + y < TWO_32 then x + y else x + y - TWO_32
  }

  /** A running uint32_t counter: adding y to x reduced modulo 2^32 is x + y reduced modulo 2^32. */
  lemma Add32Step(x: nat, y: U32)
    ensures Add32(x % TWO_32, y) == (x + y) % TWO_32
  {
    var q := x / TWO_32;
    var r := x % TWO_32;
    if r + y < TWO_32 {
      ModUnique(x + y, TWO_32, q, r + y);
    } else {
      ModUnique(x + y, TWO_32, q + 1, r + y - TWO_32);
    }
  }

  /** n successive uint32_t increments of x. */
  function Inc32N(x: U32, n: nat): U32
    decreases n
  {
    if n == 0 then x else Add32(Inc32N(x, n - 1), 1)
  }

  /** m increments followed by n increments are m + n increments. */
  lemma {:induction false} Inc32NAdd(x: U32, m: nat, n: nat)
    ensures Inc32N(Inc32N(x, m), n) == Inc32N(x, m + n)
    decreases n
  {
    if n > 0 {
      Inc32NAdd(x, m, n - 1);
    }
  }

  /** n wrapping increments add n modulo 2^32. */
  lemma {:induction false} Inc32NValue(x: U32, n: nat)
    ensures Inc32N(x, n) == (x + n) % TWO_32
    decreases n
  {
    if n > 0 {
      Inc32NValue(x, n - 1);
      Add32Step(x + (n - 1), 1);
    }
  }

  /** Byte k (0 = least significant) of a 64-bit word, as a little-endian host stores it. */
  function ByteOf(x: U64, k: nat): byte
    requires k < 8
  {
    (x / Pow2(8 * k)) % 256
  }

  /** The value of a byte string read little-endian: byte 0 is the least significant. */
  function Le(s: seq<byte>): nat
  {
    if s == [] then 0 else s[0] + 256 * Le(s[1..])
  }

  /** 256^n: the weight of byte n. */
  function Pow256(n: nat): (r: nat)
    ensures r >= 1
  {
    if n == 0 then 1 else 256 * Pow256(n - 1)
  }

  lemma {:induction false} Pow256Add(a: nat, b: nat)
    ensures Pow256(a + b) == Pow256(a) * Pow256(b)
  {
    if a > 0 {
      Pow256Add(a - 1, b);
      assert Pow256(a + b) == 256 * (Pow256(a - 1) * Pow256(b));
    }
  }

  lemma {:induction false} Pow256IsPow2(n: nat)
    ensures Pow256(n) == Pow2(8 * n)
  {
    if n > 0 {
      Pow256IsPow2(n - 1);
      assert 8 * n == 8 + 8 * (n - 1);
      Pow2Add(8, 8 * (n - 1));
      Pow2Values();
    }
  }

  lemma {:induction false} LeBound(s: seq<byte>)
    ensures Le(s) < Pow256(|s|)
  {
    if s != [] {
      LeBound(s[1..]);
    }
  }

  /** Equally long strings with the same little-endian value are equal. */
  lemma {:induction false} LeInjective(s: seq<byte>, t: seq<byte>)
    requires |s| == |t| && Le(s) == Le(t)
    ensures s == t
  {
    if s != [] {
      ModAddMultiple(s[0], 256, Le(s[1..]));
      ModAddMultiple(t[0], 256, Le(t[1..]));
      assert s[0] == t[0];
      LeInjective(s[1..], t[1..]);
      assert s == [s[0]] + s[1..];
      assert t == [t[0]] + t[1..];
    }
  }

  /** Splitting a little-endian string after its first k bytes. */
  lemma {:induction false} LeSplit(s: seq<byte>, k: nat)
    requires k <= |s|
    ensures Le(s) == Le(s[..k]) + Pow256(k) * Le(s[k..])
  {
    if k > 0 {
      var t := s[1..];
      LeSplit(t, k - 1);
      assert t[..k - 1] == s[..k][1..];
      assert t[k - 1..] == s[k..];
      var a, b, c := Le(t[..k - 1]), Pow256(k - 1), Le(s[k..]);
      assert Le(s[..k]) == s[0] + 256 * a;
      assert Le(t) == a + b * c;
      assert Le(s) == s[0] + 256 * Le(t);
      MulDistrib(256, a, b, c);
    } else {
      assert s[..0] == [] && s[0..] == s;
    }
  }

  /** Encoding of a natural number as n little-endian bytes (truncating). */
  function LeBytes(x: nat, n: nat): (r: seq<byte>)
    ensures |r| == n
  {
    if n == 0 then [] else [x % 256] + LeBytes(x / 256, n - 1)
  }

  lemma {:induction false} LeOfLeBytes(x: nat, n: nat)
    ensures Le(LeBytes(x, n)) == x % Pow256(n)
  {
    if n > 0 {
      LeOfLeBytes(x / 256, n - 1);
      DivModMul(x, 256, Pow256(n - 1));
    }
  }

  /** Byte k of the n-byte encoding is byte k of the number. */
  lemma {:induction false} LeBytesAt(x: nat, n: nat, k: nat)
    requires k < n
    ensures LeBytes(x, n)[k] == (x / Pow256(k)) % 256
  {
    if k > 0 {
      LeBytesAt(x / 256, n - 1, k - 1);
      DivDiv(x, 256, Pow256(k - 1));
    }
  }

  /** The first m bytes of an n-byte encoding are the m-byte encoding. */
  lemma LeBytesPrefix(x: nat, n: nat, m: nat)
    requires m <= n
    ensures LeBytes(x, n)[..m] == LeBytes(x, m)
  {
    forall k | 0 <= k < m
      ensures LeBytes(x, n)[k] == LeBytes(x, m)[k]
    {
      LeBytesAt(x, n, k);
      LeBytesAt(x, m, k);
    }
  }

  /** The bytes a little-endian host stores for a 64-bit word are its 8-byte encoding. */
  lemma ByteOfIsLeBytes(x: U64, k: nat)
    requires k < 8
    ensures ByteOf(x, k) == LeBytes(x, 8)[k]
  {
    LeBytesAt(x, 8, k);
    Pow256IsPow2(k);
  }

  /** Removing one multiple of m lowers the quotient by one and keeps the remainder. */
  lemma DivShift(i: nat, m: nat)
    requires m > 0 && i >= m
    ensures (i - m) / m == i / m - 1 && (i - m) % m == i % m
  {
    var q, r := (i - m) / m, (i - m) % m;
    assert i == m * (q + 1) + r;
    ModUnique(i, m, q + 1, r);
  }

  /** Dividing twice is dividing by the product. */
  lemma DivDiv(x: nat, a: nat, b: nat)
    requires a > 0 && b > 0
    ensures (x / a) / b == x / (a * b)
  {
    var q, r := x / a, x % a;
    var q2, r2 := q / b, q % b;
    assert x == a * q + r;
    assert q == b * q2 + r2;
    DivDivArith(x, a, b, q, r, q2, r2);
    ModUnique(x, a * b, q2, a * r2 + r);
  }

  lemma DivDivArith(x: int, a: int, b: int, q: int, r: int, q2: int, r2: int)
    requires a > 0 && b > 0 && 0 <= r < a && 0 <= r2 < b
    requires x == a * q + r && q == b * q2 + r2
    ensures x == (a * b) * q2 + (a * r2 + r) && 0 <= a * r2 + r < a * b
  {
    assert a * q == a * (b * q2) + a * r2;
    assert a * r2 <= a * (b - 1);
  }

  /** (x % (a*b)) == x % a + a * ((x / a) % b) */
  lemma DivModMul(x: nat, a: nat, b: nat)
    requires a > 0 && b > 0
    ensures x % (a * b) == x % a + a * ((x / a) % b)
  {
    var q := x / a;
    assert x == a * q + x % a;
    assert q == b * (q / b) + q % b;
    assert x == (a * b) * (q / b) + (x % a + a * (q % b)) by {
      assert a * q == a * (b * (q / b)) + a * (q % b);
    }
    assert 0 <= x % a + a * (q % b) < a * b by {
      assert q % b <= b - 1;
      assert a * (q % b) <= a * (b - 1);
    }
    ModUnique(x, a * b, q / b, x % a + a * (q % b));
  }

  /** ModUnique with the quotient written on the other side. */
  lemma ModOfDiff(x: int, m: nat, k: int, r: int)
    requires m > 0 && 0 <= r < m && r - k * m == x
    ensures x % m == r
  {
    assert m * (-k) == -(k * m);
    ModUnique(x, m, -k, r);
  }

  /** The remainder is determined by any decomposition x == m*q + r with 0 <= r < m. */
  lemma ModUnique(x: int, m: nat, q: int, r: int)
    requires m > 0 && 0 <= r < m && x == m * q + r
    ensures x % m == r && x / m == q
  {
    var q', r' := x / m, x % m;
    assert m * q' + r' == m * q + r;
    assert m * (q - q') == r' - r;
    if q - q' >= 1 {
      MulAtLeast(m, q - q');
    } else if q' - q >= 1 {
      MulAtLeast(m, q' - q);
    }
  }

  /** The value of a byte string read big-endian: the last byte is the least significant. */
  function Be(s: seq<byte>): nat
  {
    if s == [] then 0 else 256 * Be(s[..|s| - 1]) + s[|s| - 1]
  }

  lemma {:induction false} BeBound(s: seq<byte>)
    ensures Be(s) < Pow256(|s|)
  {
    if s != [] {
      BeBound(s[..|s| - 1]);
    }
  }

  /** XOR of two bytes. */
  function XorByte(x: byte, y: byte): byte
  {
    ((x as bv8) ^ (y as bv8)) as int
  }

  /** Byte-wise XOR of two equally long strings. */
  function XorBytes(s: seq<byte>, t: seq<byte>): (r: seq<byte>)
    requires |s| == |t|
    ensures |r| == |s|
  {
    seq(|s|, i requires 0 <= i < |s| => XorByte(s[i], t[i]))
  }
}
