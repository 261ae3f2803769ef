/**
 * Instance parameters, states and triples of the vOW collision search, and
 * the small routines on them: GetC, state and j-invariant comparison, the
 * memory index, the most significant bit of a scalar, memory access and the
 * overflow mask.
 *
 * A state (st_t) is one 64-bit digit of which only the low NBYTES_STATE
 * bytes are ever written. The model keeps exactly those bytes, least
 * significant first, so the digit of a state s is Le(s).
 */
module VowBase {
  import opened Bytes

  /** The fields of instance_t and the MEMORY_LOG_SIZE / MEMORY_SIZE macros the search reads. */
  datatype Instance = Instance(
    prngSeed: nat,
    nbitsState: nat,
    nbytesState: nat,
    nwordsState: nat,
    nbitsOverflow: nat,
    maxSteps: nat,
    maxDist: nat,
    maxFunctionVersions: nat,
    distBound: nat,
    memoryLogSize: nat,
    memorySize: nat)

  /**
   * The shape every instance has: a one-digit state, a power-of-two table,
   * 32-bit parameters. NBITS_STATE and NBITS_OVERFLOW are separate fields of
   * instance_t that the code never relates; an instance generator would set
   * NBITS_STATE = 8 * (NBYTES_STATE - 1) + NBITS_OVERFLOW (StateBits below),
   * but no proof here depends on it, so every result holds for any pairing.
   */
  predicate ValidInstance(inst: Instance)
  {
    && inst.prngSeed < TWO_32
    && inst.nwordsState == 1
    && 1 <= inst.nbytesState <= 8
    && 1 <= inst.nbitsOverflow <= 8
    && 1 <= inst.nbitsState <= 8 * inst.nbytesState
    && inst.memoryLogSize <= inst.nbitsState
    && inst.memoryLogSize < 32
    && inst.nbitsState - inst.memoryLogSize < 32
    && inst.memorySize == Pow2(inst.memoryLogSize)
    && 0 < inst.maxSteps < TWO_32
    && 0 < inst.maxDist < TWO_32
    && inst.maxFunctionVersions < TWO_32
    && inst.distBound < TWO_32
  }

  /** trip_t: a trail of currentSteps steps from initialState to currentState. */
  datatype Trip = Trip(currentSteps: U32, currentState: seq<byte>, initialState: seq<byte>)

  /** Both states of a triple have the state length. */
  predicate TripOk(inst: Instance, t: Trip)
  {
    |t.currentState| == inst.nbytesState && |t.initialState| == inst.nbytesState
  }

  /** GetC_SIDH: the low bit of the state digit, which picks the side of the meet. */
  function GetC(s: seq<byte>): (c: nat)
    requires |s| > 0
    ensures c <= 1 && c == Le(s) % 2
  {
    ModAddMultiple(s[0], 2, 128 * Le(s[1..]));
    s[0] % 2
  }

  /**
   * is_equal_st: the state digits agree. With NWORDS_STATE = 1 its word loop
   * makes a single comparison.
   */
  function IsEqualSt(s: seq<byte>, t: seq<byte>): (r: bool)
    requires |s| == |t|
    ensures r <==> Le(s) == Le(t)
    ensures r <==> s == t
  {
    if Le(s) == Le(t) then LeInjective(s, t); s == t else s == t
  }

  /** IsEqualJinvSIDH: byte-wise comparison of two encoded j-invariants, leaving at the first difference. */
  method IsEqualJinv(j0: seq<byte>, j1: seq<byte>) returns (r: bool)
    requires |j0| == |j1|
    ensures r <==> j0 == j1
  {
    var i := 0;
    while i < |j0|
      invariant 0 <= i <= |j0|
      invariant j0[..i] == j1[..i]
    {
      if j0[i] != j1[i] {
        return false;
      }
      i := i + 1;
    }
    assert j0 == j0[..i] && j1 == j1[..i];
    return true;
  }

  /**
   * MemIndexSIDH: the 64-bit sum of the state digit and the number of the
   * random function, masked to the table size.
   */
  function MemIndex(inst: Instance, s: seq<byte>, randomFunctions: U32): (r: nat)
    requires ValidInstance(inst) && |s| == inst.nbytesState
    ensures r < inst.memorySize
    ensures r == (Le(s) + randomFunctions) % inst.memorySize
  {
    Pow2Monotone(inst.memoryLogSize, 64);
    Pow2Values();
    ModPow2Nested(Le(s) + randomFunctions, inst.memoryLogSize, 64);
    ((Le(s) + randomFunctions) % TWO_64) % inst.memorySize
  }

  // ---------------------------------------------------------------------
  // GetMSBSIDH
  // ---------------------------------------------------------------------

  /** Bit k of a little-endian byte string. */
  function Bit(m: seq<byte>, k: nat): nat
    requires k < 8 * |m|
  {
    (m[k / 8] / Pow2(k % 8)) % 2
  }

  /** The 1-based position of the highest set bit among bits [0, n), or 0 when none is set. */
  function HighestBit(m: seq<byte>, n: nat): (r: nat)
    requires n <= 8 * |m|
    ensures r <= n
  {
    if n == 0 then 0
    else if Bit(m, n - 1) == 1 then n
    else HighestBit(m, n - 1)
  }

  /** HighestBit is the highest set bit: that bit is set, every bit above it is clear. */
  lemma {:induction false} HighestBitIsHighest(m: seq<byte>, n: nat)
    requires n <= 8 * |m|
    ensures HighestBit(m, n) > 0 ==> Bit(m, HighestBit(m, n) - 1) == 1
    ensures forall k :: HighestBit(m, n) <= k < n ==> Bit(m, k) == 0
  {
    if n > 0 && Bit(m, n - 1) != 1 {
      HighestBitIsHighest(m, n - 1);
    }
  }

  /** A scalar with no bit set has highest bit 0, and only such a scalar. */
  lemma HighestBitZero(m: seq<byte>, n: nat)
    requires n <= 8 * |m|
    ensures HighestBit(m, n) == 0 <==> forall k :: 0 <= k < n ==> Bit(m, k) == 0
  {
    HighestBitIsHighest(m, n);
  }

  /** Bit number k of the byte the source's index arithmetic selects, where index -1 is the byte before m. */
  function ReadBit(m: seq<byte>, before: byte, k: int): nat
    requires -1 <= k < 8 * |m|
  {
    var index := k / 8;
    var b := if index < 0 then before else m[index];
    (b / Pow2(k % 8)) % 2
  }

  /**
   * GetMSBSIDH as written: msb counts down from NBITS_STATE while the bit
   * below it is clear. The read after the last decrement uses index
   * (msb - 1) >> 3, which is -1 once msb reaches 0; `before` stands for the
   * byte in memory just before the scalar and lastIndex reports the index
   * of the last read.
   */
  method GetMsbAsWritten(inst: Instance, m: seq<byte>, before: byte) returns (msb: nat, lastIndex: int)
    requires ValidInstance(inst) && |m| == inst.nbytesState
    ensures msb == HighestBit(m, inst.nbitsState)
    ensures lastIndex == (msb - 1) / 8
    ensures lastIndex < 0 <==> msb == 0
  {
    msb := inst.nbitsState;
    lastIndex := (msb - 1) / 8;
    var bit := ReadBit(m, before, msb - 1);
    while bit == 0 && msb > 0
      invariant msb <= inst.nbitsState
      invariant HighestBit(m, inst.nbitsState) == HighestBit(m, msb)
      invariant msb > 0 ==> bit == Bit(m, msb - 1)
      invariant lastIndex == (msb - 1) / 8
    {
      msb := msb - 1;
      lastIndex := (msb - 1) / 8;
      bit := ReadBit(m, before, msb - 1);
    }
  }

  /** GetMSBSIDH with the read guarded: once msb is 0 no byte is read. */
  method GetMsb(inst: Instance, m: seq<byte>) returns (msb: nat)
    requires ValidInstance(inst) && |m| == inst.nbytesState
    ensures msb == HighestBit(m, inst.nbitsState)
  {
    msb := inst.nbitsState;
    var bit := Bit(m, msb - 1);
    while bit == 0 && msb > 0
      invariant msb <= inst.nbitsState
      invariant HighestBit(m, inst.nbitsState) == HighestBit(m, msb)
      invariant msb > 0 ==> bit == Bit(m, msb - 1)
    {
      msb := msb - 1;
      if msb > 0 {
        bit := Bit(m, msb - 1);
      }
    }
  }

  // ---------------------------------------------------------------------
  // Memory access
  // ---------------------------------------------------------------------

  /** read_from_memory: a copy of the triple at the address. */
  method ReadFromMemory(memory: array<Trip>, address: nat) returns (t: Trip)
    requires address < memory.Length
    ensures t == memory[address]
  {
    t := memory[address];
  }

  /** write_to_memory: the triple replaces the one at the address and no other slot changes. */
  method WriteToMemory(memory: array<Trip>, address: nat, t: Trip)
    requires address < memory.Length
    modifies memory
    ensures memory[address] == t
    ensures forall i :: 0 <= i < memory.Length && i != address ==> memory[i] == old(memory[i])
  {
    memory[address] := t;
  }

  // ---------------------------------------------------------------------
  // fix_overflow
  // ---------------------------------------------------------------------

  /** The number of meaningful bits of a state: the full low bytes and NBITS_OVERFLOW bits of the top one. */
  function StateBits(inst: Instance): nat
    requires ValidInstance(inst)
  {
    8 * (inst.nbytesState - 1) + inst.nbitsOverflow
  }

  /**
   * fix_overflow: the top state byte is ANDed with 0xFF >> (8 - NBITS_OVERFLOW),
   * which keeps its low NBITS_OVERFLOW bits. Only that byte changes, and the
   * state digit is reduced modulo 2^StateBits.
   */
  function FixOverflow(inst: Instance, s: seq<byte>): (r: seq<byte>)
    requires ValidInstance(inst) && |s| == inst.nbytesState
    ensures |r| == |s| && r[..|s| - 1] == s[..|s| - 1]
    ensures r[|s| - 1] < Pow2(inst.nbitsOverflow)
    ensures Le(r) == Le(s) % Pow2(StateBits(inst))
  {
    var n := |s|;
    var k := inst.nbitsOverflow;
    Pow2Monotone(k, 8);
    Pow2Values();
    var r := s[..n - 1] + [s[n - 1] % Pow2(k)];
    FixOverflowValue(s, r, n - 1, k);
    r
  }

  /** Reducing the top byte modulo 2^k reduces the little-endian value modulo 2^(8n + k). */
  lemma FixOverflowValue(s: seq<byte>, r: seq<byte>, n: nat, k: nat)
    requires |s| == n + 1 && k <= 8
    requires r == s[..n] + [s[n] % Pow2(k)]
    ensures Le(r) == Le(s) % Pow2(8 * n + k)
  {
    LeSplit(s, n);
    LeSplit(r, n);
    assert r[..n] == s[..n] && r[n..] == [s[n] % Pow2(k)] && s[n..] == [s[n]];
    assert Le([s[n]]) == s[n] + 256 * Le([]);
    assert Le([s[n] % Pow2(k)]) == s[n] % Pow2(k) + 256 * Le([]);
    var lo := Le(s[..n]);
    LeBound(s[..n]);
    Pow256IsPow2(n);
    Pow2Add(8 * n, k);
    ModUnique(Le(s), Pow256(n), s[n], lo);
    DivModMul(Le(s), Pow256(n), Pow2(k));
  }

  /** Masking twice is masking once. */
  lemma FixOverflowIdempotent(inst: Instance, s: seq<byte>)
    requires ValidInstance(inst) && |s| == inst.nbytesState
    ensures FixOverflow(inst, FixOverflow(inst, s)) == FixOverflow(inst, s)
  {
    var r := FixOverflow(inst, s);
    var rr := FixOverflow(inst, r);
    ModPow2Nested(Le(s), StateBits(inst), StateBits(inst));
    LeInjective(rr, r);
  }
}
