/**
 * The field prime p697 = 2^356 * 3^215 - 1 and its precomputed multiples and
 * Montgomery constants, each stored as 11 little-endian 64-bit digits.
 */
module P697 {
  import opened Bytes
  import opened Digits

  /** NWORDS_FIELD: 697 bits need 11 digits. */
  const NWORDS_FIELD: nat := 11

  /** The prime as an integer. */
  const P: nat := 0x1b39f97671708cf9a0e279d6ceb3c8e40e474da88b90ffe719aec973bf54225df4970cf7313736f604054afffffffffffffffffffffffffffffffffffffffffffffffffffffffffffffffffffffffffffffffffffffffff

  /** R = 2^704, the Montgomery radix and the modulus of an 11-digit string. */
  const R: nat := 0x1_0000_0000_0000_0000_0000_0000_0000_0000_0000_0000_0000_0000_0000_0000_0000_0000_0000_0000_0000_0000_0000_0000_0000_0000_0000_0000_0000_0000_0000_0000_0000_0000_0000_0000_0000_0000_0000_0000_0000_0000_0000_0000_0000_0000

  const P697_WORDS: seq<U64> := [
    0xFFFFFFFFFFFFFFFF, 0xFFFFFFFFFFFFFFFF, 0xFFFFFFFFFFFFFFFF, 0xFFFFFFFFFFFFFFFF, 0xFFFFFFFFFFFFFFFF, 0x604054AFFFFFFFFF,
    0xDF4970CF7313736F, 0x719AEC973BF54225, 0x40E474DA88B90FFE, 0x9A0E279D6CEB3C8E, 0x01B39F97671708CF]

  const P697P1_WORDS: seq<U64> := [
    0x0000000000000000, 0x0000000000000000, 0x0000000000000000, 0x0000000000000000, 0x0000000000000000, 0x604054B000000000,
    0xDF4970CF7313736F, 0x719AEC973BF54225, 0x40E474DA88B90FFE, 0x9A0E279D6CEB3C8E, 0x01B39F97671708CF]

  const P697X2_WORDS: seq<U64> := [
    0xFFFFFFFFFFFFFFFE, 0xFFFFFFFFFFFFFFFF, 0xFFFFFFFFFFFFFFFF, 0xFFFFFFFFFFFFFFFF, 0xFFFFFFFFFFFFFFFF, 0xC080A95FFFFFFFFF,
    0xBE92E19EE626E6DE, 0xE335D92E77EA844B, 0x81C8E9B511721FFC, 0x341C4F3AD9D6791C, 0x03673F2ECE2E119F]

  const P697X4_WORDS: seq<U64> := [
    0xFFFFFFFFFFFFFFFC, 0xFFFFFFFFFFFFFFFF, 0xFFFFFFFFFFFFFFFF, 0xFFFFFFFFFFFFFFFF, 0xFFFFFFFFFFFFFFFF, 0x810152BFFFFFFFFF,
    0x7D25C33DCC4DCDBD, 0xC66BB25CEFD50897, 0x0391D36A22E43FF9, 0x68389E75B3ACF239, 0x06CE7E5D9C5C233E]

  const MONTGOMERY_R2_WORDS: seq<U64> := [
    0x90E8717898EB005C, 0x1DF9EB2CE3B0E597, 0x70EDDE1C2495B71C, 0x441E14E451B09CBC, 0x362ACF49015E62FF, 0x139D92FB72D960C4,
    0x7840FBE341B9CCE6, 0xFC3D2E62C11AEF2F, 0xE8053C8FF2621C9B, 0x7D2E06601F8D8373, 0x01634C22A8B7316F]

  const MONTGOMERY_ONE_WORDS: seq<U64> := [
    0x0000000000000096, 0x0000000000000000, 0x0000000000000000, 0x0000000000000000, 0x0000000000000000, 0x9A4E60E000000000,
    0x2AF7E672929A5CBD, 0x6F395F62DE4B3DCF, 0xFA2387F3E390A0E9, 0xBBB4C9C22E2A84A5, 0x00C07D499880D65B]

  function Pow3(n: nat): (r: nat)
    ensures r >= 1
  {
    if n == 0 then 1 else 3 * Pow3(n - 1)
  }

  /** The value of an 11-digit string written out in Horner form. */
  lemma Val11(s: seq<U64>)
    requires |s| == 11
    ensures Val(s) == s[0] + TWO_64 * (s[1] + TWO_64 * (s[2] + TWO_64 * (s[3] + TWO_64 * (s[4] + TWO_64 * (s[5] + TWO_64 * (s[6] + TWO_64 * (s[7] + TWO_64 * (s[8] + TWO_64 * (s[9] + TWO_64 * (s[10]))))))))))
  {
    assert s[11..] == [];
    ValFront(s[10..]);
    assert s[10..][1..] == s[11..];
    assert Val(s[10..]) == s[10];
    ValFront(s[9..]);
    assert s[9..][1..] == s[10..];
    assert Val(s[9..]) == s[9] + TWO_64 * (s[10]);
    ValFront(s[8..]);
    assert s[8..][1..] == s[9..];
    assert Val(s[8..]) == s[8] + TWO_64 * (s[9] + TWO_64 * (s[10]));
    ValFront(s[7..]);
    assert s[7..][1..] == s[8..];
    assert Val(s[7..]) == s[7] + TWO_64 * (s[8] + TWO_64 * (s[9] + TWO_64 * (s[10])));
    ValFront(s[6..]);
    assert s[6..][1..] == s[7..];
    assert Val(s[6..]) == s[6] + TWO_64 * (s[7] + TWO_64 * (s[8] + TWO_64 * (s[9] + TWO_64 * (s[10]))));
    ValFront(s[5..]);
    assert s[5..][1..] == s[6..];
    assert Val(s[5..]) == s[5] + TWO_64 * (s[6] + TWO_64 * (s[7] + TWO_64 * (s[8] + TWO_64 * (s[9] + TWO_64 * (s[10])))));
    ValFront(s[4..]);
    assert s[4..][1..] == s[5..];
    assert Val(s[4..]) == s[4] + TWO_64 * (s[5] + TWO_64 * (s[6] + TWO_64 * (s[7] + TWO_64 * (s[8] + TWO_64 * (s[9] + TWO_64 * (s[10]))))));
    ValFront(s[3..]);
    assert s[3..][1..] == s[4..];
    assert Val(s[3..]) == s[3] + TWO_64 * (s[4] + TWO_64 * (s[5] + TWO_64 * (s[6] + TWO_64 * (s[7] + TWO_64 * (s[8] + TWO_64 * (s[9] + TWO_64 * (s[10])))))));
    ValFront(s[2..]);
    assert s[2..][1..] == s[3..];
    assert Val(s[2..]) == s[2] + TWO_64 * (s[3] + TWO_64 * (s[4] + TWO_64 * (s[5] + TWO_64 * (s[6] + TWO_64 * (s[7] + TWO_64 * (s[8] + TWO_64 * (s[9] + TWO_64 * (s[10]))))))));
    ValFront(s[1..]);
    assert s[1..][1..] == s[2..];
    assert Val(s[1..]) == s[1] + TWO_64 * (s[2] + TWO_64 * (s[3] + TWO_64 * (s[4] + TWO_64 * (s[5] + TWO_64 * (s[6] + TWO_64 * (s[7] + TWO_64 * (s[8] + TWO_64 * (s[9] + TWO_64 * (s[10])))))))));
    ValFront(s[0..]);
    assert s[0..][1..] == s[1..];
    assert Val(s[0..]) == s[0] + TWO_64 * (s[1] + TWO_64 * (s[2] + TWO_64 * (s[3] + TWO_64 * (s[4] + TWO_64 * (s[5] + TWO_64 * (s[6] + TWO_64 * (s[7] + TWO_64 * (s[8] + TWO_64 * (s[9] + TWO_64 * (s[10]))))))))));
    assert s[0..] == s;
  }

  lemma {:induction false} Pow3Add(a: nat, b: nat)
    ensures Pow3(a + b) == Pow3(a) * Pow3(b)
  {
    if a > 0 {
      Pow3Add(a - 1, b);
    }
  }

  lemma Pow3Value()
    ensures Pow3(215) == 0x1b39f97671708cf9a0e279d6ceb3c8e40e474da88b90ffe719aec973bf54225df4970cf7313736f604054b
  {
    assert Pow3(5) == 243;
    Pow3Add(5, 5);
    assert Pow3(10) == 0xe6a9;
    Pow3Add(10, 10);
    assert Pow3(20) == 0xcfd41b91;
    Pow3Add(20, 20);
    assert Pow3(40) == 0xa8b8b452291fe821;
    Pow3Add(40, 40);
    assert Pow3(80) == 0x6f32f1ef8b18a2bc3cea59789c79d441;
    Pow3Add(80, 80);
    assert Pow3(160) == 0x304d37f120d696c834550e63d9bb9c14b4f9165c9ede434e4644e3998d6db881;
    Pow3Add(160, 40);
    assert Pow3(200) == 0x1fd5863c3eb0469ec21a937a76f3432ffd73d97e447606b683ecf6f6e4a7ae225bfaff1eaaf8b0a1;
    Pow3Add(200, 10);
    assert Pow3(210) == 0x1caeda8fbe17c1d14132040b62b714f4786466e205dd3bf26903fd50da6b9924d35239e7f8da4cdd4049;
    Pow3Add(210, 5);
    assert Pow3(215) == 0x1b39f97671708cf9a0e279d6ceb3c8e40e474da88b90ffe719aec973bf54225df4970cf7313736f604054b;
  }

  lemma Pow2Value()
    ensures Pow2(356) == 0x100000000000000000000000000000000000000000000000000000000000000000000000000000000000000000
  {
    assert Pow2(4) == 16;
    Pow2Values();
    Pow2Add(64, 64);
    assert Pow2(128) == 0x100000000000000000000000000000000;
    Pow2Add(128, 128);
    assert Pow2(256) == 0x10000000000000000000000000000000000000000000000000000000000000000;
    Pow2Add(256, 64);
    assert Pow2(320) == 0x100000000000000000000000000000000000000000000000000000000000000000000000000000000;
    Pow2Add(320, 32);
    assert Pow2(352) == 0x10000000000000000000000000000000000000000000000000000000000000000000000000000000000000000;
    Pow2Add(352, 4);
  }

  lemma RIsBase()
    ensures R == Base(NWORDS_FIELD)
  {
  }

  /** The digits of p697 spell the prime. */
  lemma P697Digits()
    ensures Val(P697_WORDS) == P && P > 0
  {
    Val11(P697_WORDS);
  }

  /** p697 is 2^356 * 3^215 - 1. */
  lemma P697Value()
    ensures Val(P697_WORDS) == P
    ensures P == Pow2(356) * Pow3(215) - 1
  {
    P697Digits();
    Pow2Value();
    Pow3Value();
  }

  /** 2p and 4p are the stored multiples, and 4p still fits in 11 digits. */
  lemma MultiplesValue()
    ensures Val(P697X2_WORDS) == 2 * P
    ensures Val(P697X4_WORDS) == 4 * P
    ensures 4 * P < R
  {
    Val11(P697X2_WORDS);
    Val11(P697X4_WORDS);
  }

  /** p + 1 is the stored successor, and it is a multiple of 2^356 (hence its five low digits vanish). */
  lemma SuccessorValue()
    ensures Val(P697P1_WORDS) == P + 1
    ensures (P + 1) % Pow2(356) == 0
    ensures P697P1_WORDS[..5] == [0, 0, 0, 0, 0]
  {
    Val11(P697P1_WORDS);
    Pow2Value();
  }

  /** Montgomery_one is R mod p, the Montgomery form of 1. */
  lemma MontgomeryOneValue()
    ensures Val(MONTGOMERY_ONE_WORDS) == R % P
  {
    Val11(MONTGOMERY_ONE_WORDS);
    assert Val(MONTGOMERY_ONE_WORDS) == 0xc07d499880d65bbbb4c9c22e2a84a5fa2387f3e390a0e96f395f62de4b3dcf2af7e672929a5cbd9a4e60e00000000000000000000000000000000000000000000000000000000000000000000000000000000000000096;
  }

  /** Montgomery_R2 is R^2 mod p, the factor that converts into Montgomery form. */
  lemma MontgomeryR2Value()
    ensures Val(MONTGOMERY_R2_WORDS) == (R * R) % P
  {
    Val11(MONTGOMERY_R2_WORDS);
    assert Val(MONTGOMERY_R2_WORDS) == 0x1634c22a8b7316f7d2e06601f8d8373e8053c8ff2621c9bfc3d2e62c11aef2f7840fbe341b9cce6139d92fb72d960c4362acf49015e62ff441e14e451b09cbc70edde1c2495b71c1df9eb2ce3b0e59790e8717898eb005c;
  }
}
