/**
 * Modular arithmetic over GF(p697) on 11-digit little-endian strings, as the
 * portable branch of the x64 code computes it: every routine is a carry or
 * borrow chain over the digits, optionally followed by a masked correction
 * chain that adds back a multiple of p.
 *
 * Each routine is a method on arrays proved to compute a value function of its
 * inputs (`FpAddValue`, `FpSubValue`, ...); the lemmas after them show what the
 * value functions mean for inputs in the lazy range [0, 2p).
 */
module FpX64 {
  import opened Bytes
  import opened Digits
  import opened P697

  /* ---------------- carry and borrow chains ---------------- */

  lemma AddStep(vc: int, vx: int, vy: int, b: int, cin: int, xi: int, yi: int, sum: int, cout: int)
    requires vc + cin * b == vx + vy
    requires sum + cout * TWO_64 == xi + yi + cin
    ensures (vc + sum * b) + cout * (TWO_64 * b) == (vx + xi * b) + (vy + yi * b)
  {
    assert cout * (TWO_64 * b) == (cout * TWO_64) * b;
    assert sum * b + (cout * TWO_64) * b == (sum + cout * TWO_64) * b;
    assert (xi + yi + cin) * b == xi * b + yi * b + cin * b;
  }

  /**
   * A loop of ADDC over all digits, starting with carry 0: c := x + y, and the
   * final carry is the bit that does not fit.  x and y are the digit values read
   * by the loop; c may be the array they were read from.
   */
  method AddChain(x: seq<U64>, y: seq<U64>, c: array<U64>) returns (carry: nat)
    requires |x| == c.Length && |y| == c.Length
    modifies c
    ensures carry <= 1
    ensures Val(c[..]) + carry * Base(c.Length) == Val(x) + Val(y)
  {
    carry := 0;
    var i := 0;
    while i < c.Length
      invariant 0 <= i <= c.Length && carry <= 1
      invariant Val(c[..i]) + carry * Base(i) == Val(x[..i]) + Val(y[..i])
    {
      ghost var low := c[..i];
      var r := AddC(carry, x[i], y[i]);
      c[i] := r.1;
      assert c[..i] == low;
      ValPrefix(c[..], i);
      ValPrefix(x, i);
      ValPrefix(y, i);
      AddStep(Val(low), Val(x[..i]), Val(y[..i]), Base(i), carry, x[i], y[i], r.1, r.0);
      carry := r.0;
      i := i + 1;
    }
    assert c[..] == c[..c.Length];
    assert x == x[..|x|] && y == y[..|y|];
  }

  /**
   * A loop of SUBC over all digits, starting with borrow 0: c := x - y, and the
   * final borrow is set when the difference wrapped around.
   */
  method SubChain(x: seq<U64>, y: seq<U64>, c: array<U64>) returns (borrow: nat)
    requires |x| == c.Length && |y| == c.Length
    modifies c
    ensures borrow <= 1
    ensures Val(c[..]) - borrow * Base(c.Length) == Val(x) - Val(y)
  {
    borrow := 0;
    var i := 0;
    while i < c.Length
      invariant 0 <= i <= c.Length && borrow <= 1
      invariant Val(c[..i]) - borrow * Base(i) == Val(x[..i]) - Val(y[..i])
    {
      ghost var low := c[..i];
      var r := SubC(borrow, x[i], y[i]);
      c[i] := r.1;
      assert c[..i] == low;
      ValPrefix(c[..], i);
      ValPrefix(x, i);
      ValPrefix(y, i);
      SubStep(Val(low), Val(x[..i]), Val(y[..i]), Base(i), borrow, x[i], y[i], r.1, r.0);
      borrow := r.0;
      i := i + 1;
    }
    assert c[..] == c[..c.Length];
    assert x == x[..|x|] && y == y[..|y|];
  }

  /* ---------------- value functions ---------------- */

  /** What mp_sub697_p2 leaves in c: a - b + 2p, wrapped to 704 bits. */
  function SubP2Value(a: nat, b: nat): nat
  {
    (a - b + 2 * P) % R
  }

  /** What mp_sub697_p4 leaves in c: a - b + 4p, wrapped to 704 bits. */
  function SubP4Value(a: nat, b: nat): nat
  {
    (a - b + 4 * P) % R
  }

  /** What fpadd697 leaves in c: the wrapped sum, minus 2p unless that would go negative. */
  function FpAddValue(a: nat, b: nat): nat
  {
    var s := (a + b) % R;
    if s < 2 * P then s else s - 2 * P
  }

  /** What fpsub697 leaves in c: the difference, plus 2p (wrapped) when it went negative. */
  function FpSubValue(a: nat, b: nat): nat
  {
    if a >= b then a - b else (a - b + 2 * P) % R
  }

  /** What fpneg697 leaves in a: 2p - a, wrapped to 704 bits. */
  function FpNegValue(a: nat): nat
  {
    (2 * P - a) % R
  }

  /** What fpdiv2_697 leaves in c: a (plus p when a is odd), wrapped, then halved. */
  function FpDiv2Value(a: nat): nat
  {
    ((a + (a % 2) * P) % R) / 2
  }

  /** What fpcorrection697 leaves in a: a - p when that is not negative, a otherwise. */
  function FpCorrectionValue(a: nat): nat
  {
    if a < P then a else a - P
  }

  /* ---------------- arithmetic facts used by the routines ---------------- */

  lemma FieldFacts()
    ensures 0 < P && 4 * P < R && R == Base(NWORDS_FIELD) && P % 2 == 1
    ensures Val(P697_WORDS) == P && Val(P697X2_WORDS) == 2 * P && Val(P697X4_WORDS) == 4 * P
    ensures 8 * P < R
  {
    RIsBase();
    P697Digits();
    MultiplesValue();
  }

  /** A value that fits in 11 digits is its own residue mod R, up to the carry. */
  lemma Wrapped(v: nat, k: int, w: int)
    requires v < R && v + k * R == w
    ensures v == w % R
  {
    ModUnique(w, R, k, v);
  }

  /* ---------------- the routines ---------------- */

  /** mp_sub697_p2: c = a - b + 2p over 704 bits. */
  method MpSubP2(a: array<U64>, b: array<U64>, c: array<U64>)
    requires a.Length == NWORDS_FIELD && b.Length == NWORDS_FIELD && c.Length == NWORDS_FIELD
    modifies c
    ensures Val(c[..]) == SubP2Value(Val(old(a[..])), Val(old(b[..])))
  {
    FieldFacts();
    var x, y := a[..], b[..];
    var borrow := SubChain(x, y, c);
    ghost var v1 := Val(c[..]);
    var carry := AddChain(c[..], P697X2_WORDS, c);
    ValBound(c[..]);
    Wrapped(Val(c[..]), carry as int - borrow, Val(x) - Val(y) + 2 * P);
  }

  /** mp_sub697_p4: c = a - b + 4p over 704 bits. */
  method MpSubP4(a: array<U64>, b: array<U64>, c: array<U64>)
    requires a.Length == NWORDS_FIELD && b.Length == NWORDS_FIELD && c.Length == NWORDS_FIELD
    modifies c
    ensures Val(c[..]) == SubP4Value(Val(old(a[..])), Val(old(b[..])))
  {
    FieldFacts();
    var x, y := a[..], b[..];
    var borrow := SubChain(x, y, c);
    var carry := AddChain(c[..], P697X4_WORDS, c);
    ValBound(c[..]);
    Wrapped(Val(c[..]), carry as int - borrow, Val(x) - Val(y) + 4 * P);
  }

  /** fpadd697: c = a + b, then 2p subtracted and added back under a mask when it went negative. */
  method FpAdd(a: array<U64>, b: array<U64>, c: array<U64>)
    requires a.Length == NWORDS_FIELD && b.Length == NWORDS_FIELD && c.Length == NWORDS_FIELD
    modifies c
    ensures Val(c[..]) == FpAddValue(Val(old(a[..])), Val(old(b[..])))
  {
    FieldFacts();
    var x, y := a[..], b[..];
    var carry := AddChain(x, y, c);
    ValBound(c[..]);
    Wrapped(Val(c[..]), carry, Val(x) + Val(y));
    Minus2PMasked(c);
  }

  /**
   * The closing chains of fpadd697: c := c - 2p with a borrow chain, then 2p
   * added back under the mask the final borrow makes.
   */
  method Minus2PMasked(c: array<U64>)
    requires c.Length == NWORDS_FIELD
    modifies c
    ensures Val(c[..]) == if Val(old(c[..])) < 2 * P then Val(old(c[..])) else Val(old(c[..])) - 2 * P
  {
    FieldFacts();
    ValBound(c[..]);
    ghost var s := Val(c[..]);
    var borrow := SubChain(c[..], P697X2_WORDS, c);
    ValBound(c[..]);
    ghost var d := Val(c[..]);
    var mask := MaskOf(borrow);
    var m := AndMask(P697X2_WORDS, mask);
    ValAndMask(P697X2_WORDS, mask);
    var carry := AddChain(c[..], m, c);
    ValBound(c[..]);
    Minus2PChains(s, d, borrow, Val(c[..]), carry);
  }

  /**
   * The closing two chains of fpadd697: subtract 2p, then add back 2p masked by
   * the borrow.  Together they subtract 2p exactly when s is at least 2p.
   */
  lemma Minus2PChains(s: int, d: int, c2: int, e: int, c3: int)
    requires 0 <= s < R && 0 <= d < R && 0 <= e < R && 2 * P < R
    requires (c2 == 0 || c2 == 1) && (c3 == 0 || c3 == 1)
    requires d - c2 * R == s - 2 * P
    requires e + c3 * R == d + (if c2 == 1 then 2 * P else 0)
    ensures e == if s < 2 * P then s else s - 2 * P
  {
    if c2 == 1 {
      assert e + c3 * R == s + R;
      DigitsUnique(e, c3, s, 1, R);
    } else {
      DigitsUnique(e, c3, s - 2 * P, 0, R);
    }
  }

  /** fpsub697: c = a - b, then 2p added under a mask when the subtraction borrowed. */
  method FpSub(a: array<U64>, b: array<U64>, c: array<U64>)
    requires a.Length == NWORDS_FIELD && b.Length == NWORDS_FIELD && c.Length == NWORDS_FIELD
    modifies c
    ensures Val(c[..]) == FpSubValue(Val(old(a[..])), Val(old(b[..])))
  {
    FieldFacts();
    var x, y := a[..], b[..];
    ValBound(x);
    ValBound(y);
    var borrow := SubChain(x, y, c);
    ValBound(c[..]);
    assert borrow == 1 <==> Val(x) < Val(y);
    var mask := MaskOf(borrow);
    var m := AndMask(P697X2_WORDS, mask);
    ValAndMask(P697X2_WORDS, mask);
    var carry := AddChain(c[..], m, c);
    ValBound(c[..]);
    if borrow == 1 {
      Wrapped(Val(c[..]), carry as int - 1, Val(x) - Val(y) + 2 * P);
    } else {
      DigitsUnique(Val(c[..]), carry, Val(x) - Val(y), 0, R);
    }
  }

  /** fpneg697: a := 2p - a, one borrow chain in place. */
  method FpNeg(a: array<U64>)
    requires a.Length == NWORDS_FIELD
    modifies a
    ensures Val(a[..]) == FpNegValue(Val(old(a[..])))
  {
    FieldFacts();
    var x := a[..];
    var borrow := SubChain(P697X2_WORDS, x, a);
    ValBound(a[..]);
    Wrapped(Val(a[..]), -(borrow as int), 2 * P - Val(x));
  }

  /** The parity of a digit string is the parity of its lowest digit. */
  lemma ValParity(s: seq<U64>)
    requires |s| > 0
    ensures Val(s) % 2 == s[0] % 2
  {
    ValFront(s);
    FrontParity(s[0], Val(s[1..]));
  }

  lemma FrontParity(d: int, q: int)
    ensures (d + TWO_64 * q) % 2 == d % 2
  {
    assert TWO_64 * q == 2 * (TWO_64 / 2 * q);
    ModAddMultiple(d, 2, TWO_64 / 2 * q);
  }

  /** fpdiv2_697: c = a + (p if a is odd), then shifted right by one bit. */
  method FpDiv2(a: array<U64>, c: array<U64>)
    requires a.Length == NWORDS_FIELD && c.Length == NWORDS_FIELD
    modifies c
    ensures Val(c[..]) == FpDiv2Value(Val(old(a[..])))
  {
    FieldFacts();
    var x := a[..];
    ValParity(x);
    var mask := MaskOf(a[0] % 2);
    var m := AndMask(P697_WORDS, mask);
    ValAndMask(P697_WORDS, mask);
    var carry := AddChain(x, m, c);
    ValBound(c[..]);
    Wrapped(Val(c[..]), carry, Val(x) + (Val(x) % 2) * P);
    ShiftRight1(c);
  }

  /** fpcorrection697: a := a - p, and p added back under a mask when that borrowed. */
  method FpCorrection(a: array<U64>)
    requires a.Length == NWORDS_FIELD
    modifies a
    ensures Val(a[..]) == FpCorrectionValue(Val(old(a[..])))
  {
    FieldFacts();
    var x := a[..];
    ValBound(x);
    var borrow := SubChain(x, P697_WORDS, a);
    ValBound(a[..]);
    assert borrow == 1 <==> Val(x) < P;
    var mask := MaskOf(borrow);
    var m := AndMask(P697_WORDS, mask);
    ValAndMask(P697_WORDS, mask);
    var carry := AddChain(a[..], m, a);
    ValBound(a[..]);
    if borrow == 1 {
      DigitsUnique(Val(a[..]), carry, Val(x), 1, R);
    } else {
      DigitsUnique(Val(a[..]), carry, Val(x) - P, 0, R);
    }
  }

  /* ---------------- the one-bit right shift ---------------- */

  const TWO_63: nat := 0x8000_0000_0000_0000

  /** The digits of s shifted right by one bit: each digit takes the low bit of the next one as its top bit. */
  function HalveWords(s: seq<U64>): (r: seq<U64>)
    requires |s| > 0
    ensures |r| == |s|
  {
    if |s| == 1 then [s[0] / 2] else [s[0] / 2 + (s[1] % 2) * TWO_63] + HalveWords(s[1..])
  }

  lemma {:induction false} HalveWordsAt(s: seq<U64>, i: nat)
    requires i < |s|
    ensures HalveWords(s)[i] == if i + 1 < |s| then s[i] / 2 + (s[i + 1] % 2) * TWO_63 else s[i] / 2
  {
    if i > 0 {
      HalveWordsAt(s[1..], i - 1);
    }
  }

  /** Halving the digits halves the value (rounding down). */
  lemma {:induction false} HalveWordsValue(s: seq<U64>)
    requires |s| > 0
    ensures 2 * Val(HalveWords(s)) + s[0] % 2 == Val(s)
  {
    var h := HalveWords(s);
    ValFront(s);
    ValFront(h);
    if |s| == 1 {
      assert s[1..] == [] && h[1..] == [];
    } else {
      var t := s[1..];
      HalveWordsValue(t);
      assert h[1..] == HalveWords(t);
      var vt, vh := Val(t), Val(HalveWords(t));
      assert 2 * vh == vt - t[0] % 2;
      calc {
        2 * Val(h);
        2 * (s[0] / 2 + (s[1] % 2) * TWO_63) + 2 * (TWO_64 * vh);
        2 * (s[0] / 2) + (s[1] % 2) * TWO_64 + TWO_64 * (2 * vh);
        2 * (s[0] / 2) + (s[1] % 2) * TWO_64 + TWO_64 * (vt - s[1] % 2);
        s[0] - s[0] % 2 + TWO_64 * vt;
      }
    }
  }

  /**
   * mp_shiftr1: x := x >> 1 over all digits, lowest digit first; the top bit of
   * digit i is the low bit of digit i+1 (the C code combines the two halves with
   * XOR, which equals the sum here because the bits do not overlap).
   */
  method ShiftRight1(x: array<U64>)
    requires x.Length > 0
    modifies x
    ensures x[..] == HalveWords(old(x[..]))
    ensures Val(x[..]) == Val(old(x[..])) / 2
  {
    ghost var s := x[..];
    var i := 0;
    while i < x.Length - 1
      invariant 0 <= i <= x.Length - 1
      invariant forall j :: 0 <= j < i ==> x[j] == HalveWords(s)[j]
      invariant forall j :: i <= j < x.Length ==> x[j] == s[j]
    {
      HalveWordsAt(s, i);
      x[i] := x[i] / 2 + (x[i + 1] % 2) * TWO_63;
      i := i + 1;
    }
    HalveWordsAt(s, i);
    x[i] := x[i] / 2;
    assert x[..] == HalveWords(s);
    HalveWordsValue(s);
    ValParity(s);
    ModUnique(Val(s), 2, Val(x[..]), s[0] % 2);
  }

  /* ---------------- meaning on the lazy range [0, 2p) ---------------- */

  /** Two numbers with equal residues keep equal residues after adding y. */
  lemma CongAdd(x: int, x': int, y: int, m: nat)
    requires m > 0 && x % m == x' % m
    ensures (x + y) % m == (x' + y) % m
  {
    var r, q, q' := x % m, x / m, x' / m;
    assert x == m * q + r && x' == m * q' + r;
    assert x + y == m * q + (r + y);
    assert x' + y == m * q' + (r + y);
    ModAddMultiple(r + y, m, q);
    ModAddMultiple(r + y, m, q');
  }

  /** Sums grouped either way agree mod m when every partial sum is replaced by a congruent number. */
  lemma AssociativeMod(a: int, b: int, c: int, ab: int, bc: int, x: int, y: int, m: nat)
    requires m > 0
    requires ab % m == (a + b) % m && bc % m == (b + c) % m
    requires x % m == (ab + c) % m && y % m == (a + bc) % m
    ensures x % m == y % m
  {
    CongAdd(ab, a + b, c, m);
    CongAdd(bc, b + c, a, m);
    assert (b + c) + a == (a + b) + c;
    assert a + bc == bc + a;
  }

  /** Two numbers with equal residues keep equal residues when subtracted from y. */
  lemma CongSub(x: int, x': int, y: int, m: nat)
    requires m > 0 && x % m == x' % m
    ensures (y - x) % m == (y - x') % m
  {
    var r, q, q' := x % m, x / m, x' / m;
    assert x == m * q + r && x' == m * q' + r;
    assert m * (q' - q) == m * q' - m * q;
    assert y - x == m * (q' - q) + (y - x');
    ModAddMultiple(y - x', m, q' - q);
  }

  /** fpcorrection697 reduces every value below 2p to its residue mod p. */
  lemma FpCorrectionLazy(a: nat)
    requires a < 2 * P
    ensures FpCorrectionValue(a) == a % P
    ensures FpCorrectionValue(a) < P
  {
    FieldFacts();
    if a < P {
      ModUnique(a, P, 0, a);
    } else {
      ModUnique(a, P, 1, a - P);
    }
  }

  /** fpadd697 on the lazy range: a + b, less 2p once it reaches 2p; below 2p and congruent to a + b. */
  lemma FpAddLazy(a: nat, b: nat)
    requires a < 2 * P && b < 2 * P
    ensures FpAddValue(a, b) == if a + b < 2 * P then a + b else a + b - 2 * P
    ensures FpAddValue(a, b) < 2 * P
    ensures FpAddValue(a, b) % P == (a + b) % P
  {
    FieldFacts();
    ModUnique(a + b, R, 0, a + b);
    if a + b >= 2 * P {
      ModAddMultiple(a + b - 2 * P, P, 2);
    }
  }

  /** fpsub697 on the lazy range: a - b, plus 2p when negative; below 2p and congruent to a - b. */
  lemma FpSubLazy(a: nat, b: nat)
    requires a < 2 * P && b < 2 * P
    ensures FpSubValue(a, b) == if a >= b then a - b else a - b + 2 * P
    ensures FpSubValue(a, b) < 2 * P
    ensures FpSubValue(a, b) % P == (a - b) % P
  {
    FieldFacts();
    if a < b {
      ModUnique(a - b + 2 * P, R, 0, a - b + 2 * P);
      ModAddMultiple(a - b, P, 2);
    }
  }

  /** fpneg697 for a up to 2p: exactly 2p - a, a negative of a mod p; nonzero, and 2p itself when a = 0. */
  lemma FpNegLazy(a: nat)
    requires a <= 2 * P
    ensures FpNegValue(a) == 2 * P - a
    ensures (FpNegValue(a) + a) % P == 0
    ensures a < 2 * P ==> 1 <= FpNegValue(a)
    ensures a == 0 ==> FpNegValue(a) == 2 * P
  {
    FieldFacts();
    ModUnique(2 * P - a, R, 0, 2 * P - a);
    ModUnique(2 * P, P, 2, 0);
  }

  /** fpdiv2_697 on the lazy range: twice the result is a (or a + p), so it halves a mod p and stays below 2p. */
  lemma FpDiv2Lazy(a: nat)
    requires a < 2 * P
    ensures 2 * FpDiv2Value(a) == a + (a % 2) * P
    ensures (2 * FpDiv2Value(a)) % P == a % P
    ensures FpDiv2Value(a) < 2 * P
  {
    FieldFacts();
    var t := a + (a % 2) * P;
    ModUnique(t, R, 0, t);
    assert t % 2 == 0 by {
      if a % 2 == 1 {
        assert a == 2 * (a / 2) + 1;
        assert P == 2 * (P / 2) + 1;
        assert t == 2 * (a / 2 + P / 2 + 1);
      }
    }
    assert t == 2 * (t / 2);
    ModAddMultiple(a, P, a % 2);
  }

  /** mp_sub697_p2 on the lazy range: exactly a - b + 2p, positive and below 4p, congruent to a - b. */
  lemma SubP2Lazy(a: nat, b: nat)
    requires a < 2 * P && b < 2 * P
    ensures SubP2Value(a, b) == a - b + 2 * P
    ensures 0 < SubP2Value(a, b) < 4 * P
    ensures SubP2Value(a, b) % P == (a - b) % P
  {
    FieldFacts();
    ModUnique(a - b + 2 * P, R, 0, a - b + 2 * P);
    ModAddMultiple(a - b, P, 2);
  }

  /** mp_sub697_p4 for inputs below 4p: exactly a - b + 4p, positive and below 8p, congruent to a - b. */
  lemma SubP4Lazy(a: nat, b: nat)
    requires a < 4 * P && b < 4 * P
    ensures SubP4Value(a, b) == a - b + 4 * P
    ensures 0 < SubP4Value(a, b) < 8 * P
    ensures SubP4Value(a, b) % P == (a - b) % P
  {
    FieldFacts();
    ModUnique(a - b + 4 * P, R, 0, a - b + 4 * P);
    ModAddMultiple(a - b, P, 4);
  }

  /** The associativity law of the addition test: (a+b)+c = a+(b+c) after correction, for inputs in the lazy range. */
  lemma FpAddAssociative(a: nat, b: nat, c: nat)
    requires a < 2 * P && b < 2 * P && c < 2 * P
    ensures FpCorrectionValue(FpAddValue(FpAddValue(a, b), c)) == FpCorrectionValue(FpAddValue(a, FpAddValue(b, c)))
  {
    var ab, bc := FpAddValue(a, b), FpAddValue(b, c);
    FpAddLazy(a, b);
    FpAddLazy(b, c);
    var x, y := FpAddValue(ab, c), FpAddValue(a, bc);
    FpAddLazy(ab, c);
    FpAddLazy(a, bc);
    AssociativeMod(a, b, c, ab, bc, x, y, P);
    FpCorrectionLazy(x);
    FpCorrectionLazy(y);
  }

  /** The commutativity law of the addition test: a+b = b+a (even before correction). */
  lemma FpAddCommutative(a: nat, b: nat)
    ensures FpAddValue(a, b) == FpAddValue(b, a)
    ensures FpCorrectionValue(FpAddValue(a, b)) == FpCorrectionValue(FpAddValue(b, a))
  {
    assert a + b == b + a;
  }

  /** The identity law of the addition test: a+0 = a without correction, for a in the lazy range. */
  lemma FpAddZero(a: nat)
    requires a < 2 * P
    ensures FpAddValue(a, 0) == a
  {
    FpAddLazy(a, 0);
  }

  /** The inverse law of the addition test: a+(-a) = 0 after correction, for a in the lazy range. */
  lemma FpAddNegation(a: nat)
    requires a < 2 * P
    ensures FpCorrectionValue(FpAddValue(a, FpNegValue(a))) == 0
  {
    FieldFacts();
    FpNegLazy(a);
    ModUnique(2 * P, R, 0, 2 * P);
  }

  /**
   * The subtraction laws of the arithmetic tests, for inputs in the lazy range:
   * (a-b)-c = a-(b+c) after correction, a-0 = a without correction and a-a = 0
   * after correction.  The remaining law, a-b = -(b-a), is `FpSubNegLaw`.
   */
  lemma FpSubTestLaws(a: nat, b: nat, c: nat)
    requires a < 2 * P && b < 2 * P && c < 2 * P
    ensures FpCorrectionValue(FpSubValue(FpSubValue(a, b), c)) == FpCorrectionValue(FpSubValue(a, FpAddValue(b, c)))
    ensures FpSubValue(a, 0) == a
    ensures FpCorrectionValue(FpSubValue(a, a)) == 0
  {
    FieldFacts();
    var ab, bc := FpSubValue(a, b), FpAddValue(b, c);
    FpSubLazy(a, b);
    FpAddLazy(b, c);
    FpSubLazy(ab, c);
    FpSubLazy(a, bc);
    CongAdd(ab, a as int - b, -(c as int), P);
    CongSub(bc, b + c, a, P);
    assert a as int - (b + c) == (a as int - b) + -(c as int);
    FpCorrectionLazy(FpSubValue(ab, c));
    FpCorrectionLazy(FpSubValue(a, bc));
  }

  /**
   * a-b = -(b-a) after correction holds whenever a and b differ.  When they are
   * equal, b-a is 0 and fpneg697 turns it into 2p, which fpcorrection697 maps
   * to p rather than 0 (see `FpSubNegLawFailsOnEqualInputs`).
   */
  lemma FpSubNegLaw(a: nat, b: nat)
    requires a < 2 * P && b < 2 * P && a != b
    ensures FpCorrectionValue(FpSubValue(a, b)) == FpCorrectionValue(FpNegValue(FpSubValue(b, a)))
  {
    FieldFacts();
    var ab, ba := FpSubValue(a, b), FpSubValue(b, a);
    FpSubLazy(a, b);
    FpSubLazy(b, a);
    FpNegLazy(ba);
    CongSub(ba, b as int - a, 0, P);
    ModAddMultiple(-(ba as int), P, 2);
    FpCorrectionLazy(ab);
    FpCorrectionLazy(FpNegValue(ba));
  }

  /** With a = b the tested law a-b = -(b-a) fails: the left side corrects to 0, the right side to p. */
  lemma FpSubNegLawFailsOnEqualInputs(a: nat)
    requires a < 2 * P
    ensures FpCorrectionValue(FpSubValue(a, a)) == 0
    ensures FpCorrectionValue(FpNegValue(FpSubValue(a, a))) == P
  {
    FieldFacts();
    FpNegLazy(0);
  }

  /** Negation kept inside [0, 2p): fpneg697 followed by the conditional subtraction of 2p that fpadd697 ends with. */
  function FpNegReducedValue(a: nat): nat
  {
    var n := FpNegValue(a);
    if n < 2 * P then n else n - 2 * P
  }

  /** fpneg697 with the range its comment promises: a := 2p - a, then 2p subtracted and added back under a mask. */
  method FpNegReduced(a: array<U64>)
    requires a.Length == NWORDS_FIELD
    modifies a
    ensures Val(a[..]) == FpNegReducedValue(Val(old(a[..])))
  {
    FieldFacts();
    FpNeg(a);
    Minus2PMasked(a);
  }

  /** The reduced negation stays in [0, 2p), is a negative of a mod p, and satisfies a-b = -(b-a) for all inputs. */
  lemma FpNegReducedLazy(a: nat, b: nat)
    requires a < 2 * P && b < 2 * P
    ensures FpNegReducedValue(a) < 2 * P
    ensures (FpNegReducedValue(a) + a) % P == 0
    ensures FpCorrectionValue(FpSubValue(a, b)) == FpCorrectionValue(FpNegReducedValue(FpSubValue(b, a)))
  {
    FieldFacts();
    FpNegLazy(a);
    if a == 0 {
      ModUnique(0, P, 0, 0);
    }
    if a == b {
      FpNegLazy(0);
      FpCorrectionLazy(0);
    } else {
      FpSubNegLaw(a, b);
      FpNegLazy(FpSubValue(b, a));
      FpSubLazy(b, a);
    }
  }
}
