/**
 * The SIKE instantiation of the vOW random function and the per-core
 * routines of the search: statistics and private-state initialisation,
 * sampling a starting point, one step of the random function, the
 * distinguished-point test and backtracking two trails to their collision.
 *
 * The isogeny arithmetic that maps a state to a j-invariant (GetIsogeny with
 * fp2_encode), the XXH64 hash and the comparison with the instance's
 * j-invariant are inputs, gathered in an Oracle.
 */
module SikeVow {
  import opened Bytes
  import opened Prng
  import opened VowBase

  /**
   * jinv: the encoded j-invariant (FP2_ENCODED_BYTES bytes) of the curve a
   * state selects; hash: XXH64; golden: whether an encoded j-invariant decodes
   * to the instance's.
   */
  datatype Oracle = Oracle(
    encodedBytes: nat,
    jinv: seq<byte> -> seq<byte>,
    hash: Hash64,
    golden: seq<byte> -> bool)

  /** Every encoding has FP2_ENCODED_BYTES bytes. */
  ghost predicate WellFormed(o: Oracle)
  {
    forall s :: |o.jinv(s)| == o.encodedBytes
  }

  // ---------------------------------------------------------------------
  // The random function
  // ---------------------------------------------------------------------

  /**
   * The state half of UpdateStSIDH: NBYTES_STATE bytes of the XOF of the
   * encoded j-invariant of the state's curve, salted with the function
   * version, masked by fix_overflow.
   */
  function Step(inst: Instance, o: Oracle, s: seq<byte>, version: U32): (r: seq<byte>)
    requires ValidInstance(inst)
    ensures |r| == inst.nbytesState
  {
    FixOverflow(inst, XofBytes(o.hash, o.jinv(s), version, inst.nbytesState))
  }

  /** The next state is always a masked state: fix_overflow leaves it alone and its digit has StateBits bits. */
  lemma StepIsMasked(inst: Instance, o: Oracle, s: seq<byte>, version: U32)
    requires ValidInstance(inst)
    ensures FixOverflow(inst, Step(inst, o, s, version)) == Step(inst, o, s, version)
    ensures Le(Step(inst, o, s, version)) < Pow2(StateBits(inst))
  {
    var x := XofBytes(o.hash, o.jinv(s), version, inst.nbytesState);
    FixOverflowIdempotent(inst, x);
  }

  /** A random function on states. */
  type StepFn = seq<byte> -> seq<byte>

  /** f maps every string to a state. */
  ghost predicate KeepsLength(inst: Instance, f: StepFn)
  {
    forall s :: |f(s)| == inst.nbytesState
  }

  /**
   * f is random function number `version`. The trigger keeps the solver
   * from unfolding Step wherever f is applied.
   */
  ghost predicate StepsWith(inst: Instance, o: Oracle, version: U32, f: StepFn)
    requires ValidInstance(inst)
  {
    forall s {:trigger Step(inst, o, s, version)} :: f(s) == Step(inst, o, s, version)
  }

  /** Random function number `version` as a function value. */
  function StepOf(inst: Instance, o: Oracle, version: U32): (f: StepFn)
    requires ValidInstance(inst)
    ensures KeepsLength(inst, f) && StepsWith(inst, o, version, f)
  {
    s => Step(inst, o, s, version)
  }

  /** n applications of f to s. */
  function Walk(f: StepFn, s: seq<byte>, n: nat): seq<byte>
    decreases n
  {
    if n == 0 then s else f(Walk(f, s, n - 1))
  }

  /** Applying f m times and then n times is applying it m + n times. */
  lemma {:induction false} WalkAdd(f: StepFn, s: seq<byte>, m: nat, n: nat)
    ensures Walk(f, Walk(f, s, m), n) == Walk(f, s, m + n)
    decreases n
  {
    if n > 0 {
      WalkAdd(f, s, m, n - 1);
    }
  }

  /** A triple whose current state is its initial state walked currentSteps steps of f. */
  ghost predicate TrailOk(inst: Instance, f: StepFn, t: Trip)
  {
    TripOk(inst, t) && t.currentState == Walk(f, t.initialState, t.currentSteps)
  }

  /**
   * UpdateStSIDH: the encoded j-invariant of the state's curve, and the next
   * state, computed by the XOF into a fresh buffer and fix_overflow.
   */
  method UpdateState(inst: Instance, o: Oracle, ghost f: StepFn, s: seq<byte>, version: U32)
    returns (j: seq<byte>, r: seq<byte>)
    requires ValidInstance(inst) && StepsWith(inst, o, version, f)
    ensures j == o.jinv(s) && r == f(s)
  {
    j := o.jinv(s);
    var buffer := new byte[inst.nbytesState];
    Xof(o.hash, buffer, j, inst.nbytesState, version);
    assert buffer[..] == buffer[..inst.nbytesState];
    r := FixOverflow(inst, buffer[..]);
    assert r == Step(inst, o, s, version);
  }

  // ---------------------------------------------------------------------
  // DistinguishedSIDH
  // ---------------------------------------------------------------------

  /**
   * The value DistinguishedSIDH compares with DIST_BOUND: the low 32 bits of
   * the state shifted right by MEMORY_LOG_SIZE, plus function_version *
   * DIST_BOUND, all in uint32_t, masked to NBITS_STATE - MEMORY_LOG_SIZE bits.
   * The 32-bit wrap-around does not change the masked value.
   */
  function DistValue(inst: Instance, s: seq<byte>, version: U32): (val: nat)
    requires ValidInstance(inst) && |s| == inst.nbytesState
    ensures val < Pow2(inst.nbitsState - inst.memoryLogSize)
    ensures val == (Le(s) % TWO_32 / inst.memorySize + version * inst.distBound)
                   % Pow2(inst.nbitsState - inst.memoryLogSize)
  {
    var k := inst.nbitsState - inst.memoryLogSize;
    var shifted := (Le(s) % TWO_32) / Pow2(inst.memoryLogSize);
    var sum := (shifted + (version * inst.distBound) % TWO_32) % TWO_32;
    WrapBelow(shifted, version * inst.distBound, k);
    sum % Pow2(k)
  }

  /** Reducing modulo 2^32 before reducing modulo 2^k, k <= 32, changes nothing. */
  lemma WrapBelow(a: int, b: int, k: nat)
    requires k <= 32
    ensures ((a + b % TWO_32) % TWO_32) % Pow2(k) == (a + b) % Pow2(k)
  {
    var x := a + b % TWO_32;
    var q := b / TWO_32;
    Pow2Values();
    Pow2Add(k, 32 - k);
    WrapBelowArith(a, b, x, q, Pow2(k), Pow2(32 - k));
  }

  lemma WrapBelowArith(a: int, b: int, x: int, q: int, p: nat, u: nat)
    requires p > 0 && u > 0 && p * u == TWO_32
    requires x == a + b % TWO_32 && q == b / TWO_32
    ensures (x % TWO_32) % p == (a + b) % p
  {
    ModNested(x, p, u);
    assert a + b == TWO_32 * q + x;
    assert TWO_32 * q == p * (u * q);
    ModAddMultiple(x, p, u * q);
  }

  /** DistinguishedSIDH: the state is distinguished for function `version`. */
  predicate Distinguished(inst: Instance, s: seq<byte>, version: U32)
    requires ValidInstance(inst) && |s| == inst.nbytesState
  {
    DistValue(inst, s, version) <= inst.distBound
  }

  // ---------------------------------------------------------------------
  // BacktrackSIDH, specified
  // ---------------------------------------------------------------------

  /**
   * The trail starts after the swap and the catch-up: the start of the longer
   * trail walked forward by the difference L in length, the start of the
   * shorter one, and L.
   */
  ghost function CatchUp(inst: Instance, f: StepFn, c0: Trip, c1: Trip): (r: (seq<byte>, seq<byte>, nat))
    requires KeepsLength(inst, f) && TripOk(inst, c0) && TripOk(inst, c1)
    ensures |r.0| == inst.nbytesState && |r.1| == inst.nbytesState
  {
    if c0.currentSteps < c1.currentSteps then
      var l := c1.currentSteps - c0.currentSteps;
      (Walk(f, c1.initialState, l), c0.initialState, l)
    else
      var l := c0.currentSteps - c1.currentSteps;
      (Walk(f, c0.initialState, l), c1.initialState, l)
  }

  /**
   * The first round i in [from, rounds) at which the walks from a and b reach
   * states with equal j-invariants, or rounds when there is none.
   */
  ghost function FirstMatch(o: Oracle, f: StepFn, a: seq<byte>, b: seq<byte>, from: nat, rounds: nat): (r: nat)
    ensures from <= rounds ==> from <= r <= rounds
    ensures forall i :: from <= i < r ==> o.jinv(Walk(f, a, i)) != o.jinv(Walk(f, b, i))
    ensures r < rounds ==> o.jinv(Walk(f, a, r)) == o.jinv(Walk(f, b, r))
    decreases rounds - from
  {
    if from >= rounds then from
    else if o.jinv(Walk(f, a, from)) == o.jinv(Walk(f, b, from)) then from
    else FirstMatch(o, f, a, b, from + 1, rounds)
  }

  /** The j-invariants of the two walks differ after m steps. */
  ghost predicate Differ(o: Oracle, f: StepFn, a: seq<byte>, b: seq<byte>, m: nat)
  {
    o.jinv(Walk(f, a, m)) != o.jinv(Walk(f, b, m))
  }

  /** FirstMatch is the first round at or after `from` whose j-invariants agree. */
  lemma {:induction false} FirstMatchIs(o: Oracle, f: StepFn, a: seq<byte>, b: seq<byte>, from: nat, i: nat, rounds: nat)
    requires from <= i <= rounds
    requires forall m :: from <= m < i ==> Differ(o, f, a, b, m)
    requires i < rounds ==> !Differ(o, f, a, b, i)
    ensures FirstMatch(o, f, a, b, from, rounds) == i
    decreases i - from
  {
    if from < i {
      assert Differ(o, f, a, b, from);
      FirstMatchIs(o, f, a, b, from + 1, i, rounds);
    }
  }

  /** How backtracking ends: equal starts (Robin Hood), a meeting at some round, or no meeting. */
  datatype Outcome = RobinHood | Matched(round: nat) | Exhausted

  ghost function BacktrackOutcome(inst: Instance, o: Oracle, f: StepFn, c0: Trip, c1: Trip): Outcome
    requires KeepsLength(inst, f) && TripOk(inst, c0) && TripOk(inst, c1)
  {
    var cu := CatchUp(inst, f, c0, c1);
    if cu.0 == cu.1 then RobinHood
    else
      var rounds := Add32(c1.currentSteps, 1);
      var k := FirstMatch(o, f, cu.0, cu.1, 0, rounds);
      if k < rounds then Matched(k) else Exhausted
  }

  /** The value BacktrackSIDH returns: true only for a meeting of states on different sides on the golden curve. */
  ghost function BacktrackResult(inst: Instance, o: Oracle, f: StepFn, c0: Trip, c1: Trip): bool
    requires KeepsLength(inst, f) && TripOk(inst, c0) && TripOk(inst, c1) && inst.nbytesState > 0
  {
    match BacktrackOutcome(inst, o, f, c0, c1)
    case Matched(k) =>
      var cu := CatchUp(inst, f, c0, c1);
      var ak := Walk(f, cu.0, k);
      var bk := Walk(f, cu.1, k);
      GetC(ak) != GetC(bk) && o.golden(o.jinv(ak))
    case _ => false
  }

  /** The rounds the lockstep loop runs: up to and including the first match, or all of them. */
  ghost function RoundsWalked(o: Oracle, f: StepFn, a: seq<byte>, b: seq<byte>, rounds: nat): nat
  {
    var k := FirstMatch(o, f, a, b, 0, rounds);
    if k < rounds then k + 1 else rounds
  }

  /** Function evaluations backtracking spends: L for the catch-up and two per round walked. */
  ghost function LocateSteps(inst: Instance, o: Oracle, f: StepFn, c0: Trip, c1: Trip): nat
    requires KeepsLength(inst, f) && TripOk(inst, c0) && TripOk(inst, c1)
  {
    var cu := CatchUp(inst, f, c0, c1);
    if cu.0 == cu.1 then cu.2
    else cu.2 + 2 * RoundsWalked(o, f, cu.0, cu.1, Add32(c1.currentSteps, 1))
  }

  /**
   * The triples BacktrackSIDH leaves behind through its pointers: only the
   * initial states change, each ending at its caught-up start walked to the
   * round the lockstep loop stopped at (none at the Robin Hood exit, the
   * matching round, or every round when none matches).
   */
  ghost function Backtracked(inst: Instance, o: Oracle, f: StepFn, c0: Trip, c1: Trip): (Trip, Trip)
    requires KeepsLength(inst, f) && TripOk(inst, c0) && TripOk(inst, c1)
  {
    var cu := CatchUp(inst, f, c0, c1);
    var m := if cu.0 == cu.1 then 0 else FirstMatch(o, f, cu.0, cu.1, 0, Add32(c1.currentSteps, 1));
    (c0.(initialState := Walk(f, cu.0, m)), c1.(initialState := Walk(f, cu.1, m)))
  }

  /**
   * After a meeting the two triples hold the colliding pair in their initial
   * states: equal j-invariants, hence one common image, and the result is
   * read off them (different sides, golden j-invariant).
   */
  lemma BacktrackLeavesCollision(inst: Instance, o: Oracle, version: U32, c0: Trip, c1: Trip)
    requires ValidInstance(inst) && TripOk(inst, c0) && TripOk(inst, c1)
    requires BacktrackOutcome(inst, o, StepOf(inst, o, version), c0, c1).Matched?
    ensures var f := StepOf(inst, o, version);
            var r := Backtracked(inst, o, f, c0, c1);
            && o.jinv(r.0.initialState) == o.jinv(r.1.initialState)
            && Step(inst, o, r.0.initialState, version) == Step(inst, o, r.1.initialState, version)
            && BacktrackResult(inst, o, f, c0, c1)
               == (GetC(r.0.initialState) != GetC(r.1.initialState) && o.golden(o.jinv(r.0.initialState)))
  {
    var f := StepOf(inst, o, version);
    var cu := CatchUp(inst, f, c0, c1);
    var k := FirstMatch(o, f, cu.0, cu.1, 0, Add32(c1.currentSteps, 1));
    assert Backtracked(inst, o, f, c0, c1) == (c0.(initialState := Walk(f, cu.0, k)), c1.(initialState := Walk(f, cu.1, k)));
  }

  /**
   * Whatever the outcome, the first triple's initial state is left on the
   * trail of the longer triple: its start walked the catch-up steps and then
   * the rounds walked in lockstep.
   */
  lemma {:induction false} BacktrackStaysOnLongerTrail(inst: Instance, o: Oracle, f: StepFn, c0: Trip, c1: Trip)
    requires KeepsLength(inst, f) && TripOk(inst, c0) && TripOk(inst, c1)
    ensures var start := if c0.currentSteps < c1.currentSteps then c1.initialState else c0.initialState;
            var l := if c0.currentSteps < c1.currentSteps then c1.currentSteps - c0.currentSteps
                     else c0.currentSteps - c1.currentSteps;
            exists n: nat :: l <= n <= l + Add32(c1.currentSteps, 1) && Backtracked(inst, o, f, c0, c1).0.initialState == Walk(f, start, n)
  {
    var cu := CatchUp(inst, f, c0, c1);
    var rounds := Add32(c1.currentSteps, 1);
    var m := if cu.0 == cu.1 then 0 else FirstMatch(o, f, cu.0, cu.1, 0, rounds);
    var start := if c0.currentSteps < c1.currentSteps then c1.initialState else c0.initialState;
    assert cu.0 == Walk(f, start, cu.2);
    assert Backtracked(inst, o, f, c0, c1).0.initialState == Walk(f, cu.0, m);
    WalkAdd(f, start, cu.2, m);
    assert m <= rounds && Walk(f, cu.0, m) == Walk(f, start, cu.2 + m);
  }

  /**
   * A true result is the golden collision: two different states, one from
   * each side, whose j-invariants agree, so that random function `version`
   * sends them to the same state, and whose j-invariant is the golden one.
   * Every earlier round had different j-invariants.
   */
  lemma BacktrackTrueIsGoldenCollision(inst: Instance, o: Oracle, version: U32, c0: Trip, c1: Trip)
    requires ValidInstance(inst) && TripOk(inst, c0) && TripOk(inst, c1)
    requires BacktrackResult(inst, o, StepOf(inst, o, version), c0, c1)
    ensures BacktrackOutcome(inst, o, StepOf(inst, o, version), c0, c1).Matched?
    ensures var f := StepOf(inst, o, version);
            var cu := CatchUp(inst, f, c0, c1);
            var k := BacktrackOutcome(inst, o, f, c0, c1).round;
            var ak := Walk(f, cu.0, k);
            var bk := Walk(f, cu.1, k);
            && ak != bk
            && GetC(ak) + GetC(bk) == 1
            && Step(inst, o, ak, version) == Step(inst, o, bk, version)
            && o.golden(o.jinv(ak))
            && forall i :: 0 <= i < k ==> o.jinv(Walk(f, cu.0, i)) != o.jinv(Walk(f, cu.1, i))
  {
    var f := StepOf(inst, o, version);
    var cu := CatchUp(inst, f, c0, c1);
    var k := FirstMatch(o, f, cu.0, cu.1, 0, Add32(c1.currentSteps, 1));
    assert o.jinv(Walk(f, cu.0, k)) == o.jinv(Walk(f, cu.1, k));
  }

  /**
   * Two triples that replay under the same random function and end in the
   * same state always meet within c1.currentSteps + 1 rounds: backtracking
   * never runs out of rounds.
   */
  lemma BacktrackNeverExhausted(inst: Instance, o: Oracle, f: StepFn, c0: Trip, c1: Trip)
    requires KeepsLength(inst, f) && TrailOk(inst, f, c0) && TrailOk(inst, f, c1)
    requires c0.currentState == c1.currentState
    requires c1.currentSteps + 1 < TWO_32
    ensures BacktrackOutcome(inst, o, f, c0, c1) != Exhausted
  {
    var cu := CatchUp(inst, f, c0, c1);
    if cu.0 != cu.1 {
      var m: nat;
      if c0.currentSteps < c1.currentSteps {
        m := c0.currentSteps;
        WalkAdd(f, c1.initialState, cu.2, m);
      } else {
        m := c1.currentSteps;
        WalkAdd(f, c0.initialState, cu.2, m);
      }
      assert Walk(f, cu.0, m) == Walk(f, cu.1, m);
      var k := FirstMatch(o, f, cu.0, cu.1, 0, Add32(c1.currentSteps, 1));
      assert k <= m;
    }
  }

  // ---------------------------------------------------------------------
  // Shared and private state
  // ---------------------------------------------------------------------

  /** The first four XOF bytes, read as a uint32_t, are the low half of the first hash. */
  lemma XofWordLow(hash: Hash64, input: seq<byte>, salt: U64)
    ensures Le(XofBytes(hash, input, salt, 4)) == hash(input, salt) % TWO_32
  {
    LeBytesPrefix(hash(input, salt), 8, 4);
    LeOfLeBytes(hash(input, salt), 4);
    Pow256IsPow2(4);
    Pow2Values();
  }

  /** The state SampleSIDH draws from an LCG in state `sampled`: NBYTES_STATE generator bytes, masked. */
  function SampledState(inst: Instance, a: U64, b: U64, randMax: U64, sampled: U64): (s: seq<byte>)
    requires ValidInstance(inst) && randMax > 0
    ensures |s| == inst.nbytesState
  {
    FixOverflow(inst, LcgBytes(a, b, randMax, sampled, inst.nbytesState))
  }

  /** A sampled state is a masked state: fix_overflow leaves it alone. */
  lemma SampledIsMasked(inst: Instance, a: U64, b: U64, randMax: U64, sampled: U64)
    requires ValidInstance(inst) && randMax > 0
    ensures FixOverflow(inst, SampledState(inst, a, b, randMax, sampled)) == SampledState(inst, a, b, randMax, sampled)
  {
    FixOverflowIdempotent(inst, LcgBytes(a, b, randMax, sampled, inst.nbytesState));
  }

  /** shared_state_t: the table of triples and the statistics of a run. */
  class SharedState {
    const memory: array<Trip>
    var collectVowStats: bool
    var success: bool
    var collisions: U32
    var memCollisions: U32
    var distPoints: U32
    var numberStepsCollect: U32
    var numberStepsLocate: U32
    var numberSteps: U32
    var finalAvgRandomFunctions: nat

    /** A shared state around the given table; the statistics are arbitrary until InitStats. */
    constructor (memory: array<Trip>)
      ensures this.memory == memory
    {
      this.memory := memory;
    }

    /** init_stats: stop at the first success, no success yet, every counter zero; the table is not touched. */
    method InitStats()
      modifies this
      ensures !collectVowStats && !success
      ensures collisions == 0 && memCollisions == 0 && distPoints == 0
      ensures numberStepsCollect == 0 && numberStepsLocate == 0 && numberSteps == 0
      ensures finalAvgRandomFunctions == 0
    {
      collectVowStats := false;
      success := false;
      collisions := 0;
      memCollisions := 0;
      distPoints := 0;
      numberStepsCollect := 0;
      numberStepsLocate := 0;
      numberSteps := 0;
      finalAvgRandomFunctions := 0;
    }
  }

  /**
   * The seed of a thread's generator: the first four bytes of the XOF of the
   * 4-byte instance seed salted with thread_id + 1, read as a uint32_t, which
   * is the low 32 bits of one XXH64 hash.
   */
  method ThreadSeed(inst: Instance, o: Oracle, salt: U32) returns (seed: U32)
    requires ValidInstance(inst)
    ensures seed == o.hash(LeBytes(inst.prngSeed, 4), salt) % TWO_32
  {
    var seedBytes := new byte[4];
    var input := LeBytes(inst.prngSeed, 4);
    Xof(o.hash, seedBytes, input, 4, salt);
    assert seedBytes[..] == seedBytes[..4];
    XofWordLow(o.hash, input, salt);
    seed := Le(seedBytes[..]);
  }

  /** private_state_t: one core's walk, its generator and its counters. */
  class PrivateState {
    var threadId: int
    var current: Trip
    var currentDist: U32
    var functionVersion: U32
    var randomFunctions: U32
    var prngSeed: U32
    const prng: LcgPrng
    var collectVowStats: bool
    var iterations: U32
    var collisions: U32
    var memCollisions: U32
    var distPoints: U32
    var numberStepsCollect: U32
    var numberStepsLocate: U32
    var trip: Trip

    /** Storage for a private state; its contents are arbitrary until Init. */
    constructor ()
      ensures fresh(prng)
    {
      prng := new LcgPrng();
    }

    /**
     * init_private_state: thread 0, function version 1, counters zero, step
     * counts of both triples zero, and the generator seeded with the low
     * 32 bits of XXH64 of the instance seed salted with thread_id + 1. The
     * states of `current` and `trip` keep whatever they held.
     */
    method Init(inst: Instance, o: Oracle, S: SharedState)
      requires ValidInstance(inst)
      modifies this, prng
      ensures threadId == 0 && currentDist == 0 && randomFunctions == 1 && functionVersion == 1
      ensures collectVowStats == S.collectVowStats
      ensures collisions == 0 && memCollisions == 0 && distPoints == 0
      ensures numberStepsCollect == 0 && numberStepsLocate == 0 && iterations == old(iterations)
      ensures current == old(current).(currentSteps := 0) && trip == old(trip).(currentSteps := 0)
      ensures prngSeed == o.hash(LeBytes(inst.prngSeed, 4), 1) % TWO_32
      ensures prng.a == LCG_A && prng.b == LCG_B && prng.randMax == LCG_RAND_MAX
      ensures prng.sampled == prngSeed
    {
      ResetCounters(S);
      ResetTrips();
      prngSeed := ThreadSeed(inst, o, threadId + 1);
      prng.Init(prngSeed);
    }

    /** The counters and function versions of init_private_state. */
    method ResetCounters(S: SharedState)
      modifies this`threadId, this`currentDist, this`randomFunctions, this`functionVersion, this`collectVowStats
      modifies this`collisions, this`memCollisions, this`distPoints, this`numberStepsCollect, this`numberStepsLocate
      ensures threadId == 0 && currentDist == 0 && randomFunctions == 1 && functionVersion == 1
      ensures collectVowStats == S.collectVowStats
      ensures collisions == 0 && memCollisions == 0 && distPoints == 0
      ensures numberStepsCollect == 0 && numberStepsLocate == 0
    {
      threadId := 0;
      currentDist := 0;
      randomFunctions := 1;
      functionVersion := 1;
      collectVowStats := S.collectVowStats;
      collisions := 0;
      memCollisions := 0;
      distPoints := 0;
      numberStepsCollect := 0;
      numberStepsLocate := 0;
    }

    /** The step counts of both triples set to zero; their states are left as they were. */
    method ResetTrips()
      modifies this`current, this`trip
      ensures current == old(current).(currentSteps := 0) && trip == old(trip).(currentSteps := 0)
    {
      current := current.(currentSteps := 0);
      trip := trip.(currentSteps := 0);
    }

    /** SampleSIDH: a new starting point drawn from the generator, a trail of length 0. */
    method Sample(inst: Instance)
      requires ValidInstance(inst) && prng.randMax > 0
      modifies this`current, prng`sampled
      ensures prng.sampled == LcgIter(prng.a, prng.b, old(prng.sampled), inst.nbytesState)
      ensures var s := SampledState(inst, prng.a, prng.b, prng.randMax, old(prng.sampled));
              current == Trip(0, s, s)
    {
      var buffer := new byte[inst.nbytesState];
      prng.Sample(buffer, inst.nbytesState);
      assert buffer[..] == buffer[..inst.nbytesState];
      var s := FixOverflow(inst, buffer[..]);
      current := Trip(0, s, s);
    }

    /** UpdateSIDH: one step of the current random function, counted as a collecting step. */
    method Update(inst: Instance, o: Oracle, ghost f: StepFn)
      requires ValidInstance(inst) && StepsWith(inst, o, functionVersion, f)
      modifies this`current, this`numberStepsCollect
      ensures current == old(current).(currentState := f(old(current.currentState)))
      ensures current.currentState == Step(inst, o, old(current.currentState), functionVersion)
      ensures numberStepsCollect == Add32(old(numberStepsCollect), 1)
    {
      var j, r := UpdateState(inst, o, f, current.currentState, functionVersion);
      current := current.(currentState := r);
      numberStepsCollect := Add32(numberStepsCollect, 1);
    }

    /**
     * BacktrackSIDH on this thread's counters: the search of BacktrackWalk,
     * with the locating steps and collisions it counts added to the fields,
     * returning the two triples as BacktrackSIDH leaves them.
     */
    method Backtrack(inst: Instance, o: Oracle, ghost f: StepFn, c0: Trip, c1: Trip) returns (res: bool, d0: Trip, d1: Trip)
      requires ValidInstance(inst) && WellFormed(o) && TripOk(inst, c0) && TripOk(inst, c1)
      requires KeepsLength(inst, f) && StepsWith(inst, o, functionVersion, f)
      modifies this`numberStepsLocate, this`collisions
      ensures res == BacktrackResult(inst, o, f, c0, c1)
      ensures collisions == if BacktrackOutcome(inst, o, f, c0, c1).Matched?
                            then Add32(old(collisions), 1) else old(collisions)
      ensures numberStepsLocate == Inc32N(old(numberStepsLocate), LocateSteps(inst, o, f, c0, c1))
      ensures (d0, d1) == Backtracked(inst, o, f, c0, c1)
    {
      res, collisions, numberStepsLocate, d0, d1 := BacktrackWalk(inst, o, f, functionVersion, c0, c1, collisions, numberStepsLocate);
    }
  }

  /**
   * BacktrackSIDH: walks the longer trail forward by the difference, stops
   * at once when the starts coincide (Robin Hood), and otherwise walks both
   * in lockstep for c1.currentSteps + 1 rounds (in uint32_t) until their
   * j-invariants agree, counting a collision there. Every function
   * evaluation is counted as a locating step. Only the initial states are
   * swapped, so c1.currentSteps keeps the count of the second triple. The
   * source rewrites the two triples through its pointers; d0 and d1 are the
   * triples it leaves.
   */
  method BacktrackWalk(inst: Instance, o: Oracle, ghost f: StepFn, version: U32, c0: Trip, c1: Trip,
                       collisions0: U32, locate0: U32)
    returns (res: bool, collisions: U32, locate: U32, d0: Trip, d1: Trip)
    requires ValidInstance(inst) && WellFormed(o) && TripOk(inst, c0) && TripOk(inst, c1)
    requires KeepsLength(inst, f) && StepsWith(inst, o, version, f)
    ensures res == BacktrackResult(inst, o, f, c0, c1)
    ensures (d0, d1) == Backtracked(inst, o, f, c0, c1)
    ensures collisions == if BacktrackOutcome(inst, o, f, c0, c1).Matched?
                          then Add32(collisions0, 1) else collisions0
    ensures locate == Inc32N(locate0, LocateSteps(inst, o, f, c0, c1))
  {
    var a, b, l;
    a, b, l, locate := CatchUpTrails(inst, o, f, version, c0, c1, locate0);
    collisions := collisions0;
    if IsEqualSt(a, b) {
      RobinHoodOutcome(inst, o, f, c0, c1);
      return false, collisions, locate, c0.(initialState := a), c1.(initialState := b);
    }
    var rounds := Add32(c1.currentSteps, 1);
    var matched, locate1, a', b';
    res, matched, collisions, locate1, a', b' := LockstepWalk(inst, o, f, version, a, b, rounds, collisions0, locate);
    d0, d1 := c0.(initialState := a'), c1.(initialState := b');
    LockstepOutcome(inst, o, f, c0, c1);
    assert LocateSteps(inst, o, f, c0, c1) == l + 2 * RoundsWalked(o, f, a, b, rounds);
    Inc32NAdd(locate0, l, 2 * RoundsWalked(o, f, a, b, rounds));
    locate := locate1;
  }

  /**
   * The first half of BacktrackSIDH: c0 is made the triple with more steps
   * by swapping the initial states, and its start is walked forward by the
   * difference L.
   */
  method CatchUpTrails(inst: Instance, o: Oracle, ghost f: StepFn, version: U32, c0: Trip, c1: Trip, locate0: U32)
    returns (a: seq<byte>, b: seq<byte>, l: nat, locate: U32)
    requires ValidInstance(inst) && TripOk(inst, c0) && TripOk(inst, c1)
    requires KeepsLength(inst, f) && StepsWith(inst, o, version, f)
    ensures (a, b, l) == CatchUp(inst, f, c0, c1)
    ensures locate == Inc32N(locate0, l)
  {
    a, b := c0.initialState, c1.initialState;
    if c0.currentSteps < c1.currentSteps {
      a, b := b, a;
      l := c1.currentSteps - c0.currentSteps;
    } else {
      l := c0.currentSteps - c1.currentSteps;
    }
    a, locate := CatchUpWalk(inst, o, f, version, a, l, locate0);
  }

  /** When the caught-up starts coincide, backtracking stops with no further step and no collision. */
  lemma RobinHoodOutcome(inst: Instance, o: Oracle, f: StepFn, c0: Trip, c1: Trip)
    requires KeepsLength(inst, f) && TripOk(inst, c0) && TripOk(inst, c1) && inst.nbytesState > 0
    requires CatchUp(inst, f, c0, c1).0 == CatchUp(inst, f, c0, c1).1
    ensures BacktrackOutcome(inst, o, f, c0, c1) == RobinHood
    ensures LocateSteps(inst, o, f, c0, c1) == CatchUp(inst, f, c0, c1).2
    ensures !BacktrackResult(inst, o, f, c0, c1)
  {
  }

  /** When the caught-up starts differ, backtracking is decided by the first matching round. */
  lemma LockstepOutcome(inst: Instance, o: Oracle, f: StepFn, c0: Trip, c1: Trip)
    requires KeepsLength(inst, f) && TripOk(inst, c0) && TripOk(inst, c1) && inst.nbytesState > 0
    requires CatchUp(inst, f, c0, c1).0 != CatchUp(inst, f, c0, c1).1
    ensures var cu := CatchUp(inst, f, c0, c1);
            var rounds := Add32(c1.currentSteps, 1);
            var k := FirstMatch(o, f, cu.0, cu.1, 0, rounds);
            && BacktrackOutcome(inst, o, f, c0, c1) == (if k < rounds then Matched(k) else Exhausted)
            && LocateSteps(inst, o, f, c0, c1) == cu.2 + 2 * RoundsWalked(o, f, cu.0, cu.1, rounds)
            && BacktrackResult(inst, o, f, c0, c1)
               == (k < rounds && GetC(Walk(f, cu.0, k)) != GetC(Walk(f, cu.1, k)) && o.golden(o.jinv(Walk(f, cu.0, k))))
  {
  }

  /**
   * The catch-up loop of BacktrackSIDH: l steps of random function `version`
   * from start, each adding one to the uint32_t locating-step counter.
   */
  method CatchUpWalk(inst: Instance, o: Oracle, ghost f: StepFn, version: U32, start: seq<byte>, l: nat, locate0: U32)
    returns (a: seq<byte>, locate: U32)
    requires ValidInstance(inst) && StepsWith(inst, o, version, f)
    ensures a == Walk(f, start, l)
    ensures locate == Inc32N(locate0, l)
  {
    a := start;
    locate := locate0;
    var i := 0;
    while i < l
      invariant 0 <= i <= l
      invariant a == Walk(f, start, i)
      invariant locate == Inc32N(locate0, i)
    {
      var j;
      j, a := UpdateState(inst, o, f, a, version);
      locate := Add32(locate, 1);
      i := i + 1;
    }
  }

  /**
   * One round of the lockstep loop of BacktrackSIDH: both states advance one
   * step, each counted as a locating step, and the two encoded j-invariants
   * are compared. The ghost arguments place the round on the two walks.
   */
  method LockstepRound(inst: Instance, o: Oracle, ghost f: StepFn, version: U32,
                       ghost a0: seq<byte>, ghost b0: seq<byte>, ghost i: nat,
                       a: seq<byte>, b: seq<byte>, ghost locate0: U32, locate: U32)
    returns (same: bool, j0: seq<byte>, a': seq<byte>, b': seq<byte>, locate': U32)
    requires ValidInstance(inst) && WellFormed(o) && StepsWith(inst, o, version, f)
    requires a == Walk(f, a0, i) && b == Walk(f, b0, i)
    requires locate == Inc32N(locate0, 2 * i)
    ensures j0 == o.jinv(a) && a' == Walk(f, a0, i + 1) && b' == Walk(f, b0, i + 1)
    ensures same <==> !Differ(o, f, a0, b0, i)
    ensures locate' == Inc32N(locate0, 2 * (i + 1))
  {
    j0, a' := UpdateState(inst, o, f, a, version);
    locate' := Add32(locate, 1);
    var j1;
    j1, b' := UpdateState(inst, o, f, b, version);
    locate' := Add32(locate', 1);
    assert Inc32N(locate0, 2 * i + 1) == Add32(Inc32N(locate0, 2 * i), 1);
    same := IsEqualJinv(j0, j1);
  }

  /**
   * The lockstep loop of BacktrackSIDH: rounds until the first one whose
   * j-invariants agree; there it counts a collision and answers whether the
   * two states lie on different sides and the j-invariant is the golden one.
   * a and b are the states the loop leaves in the two initial states: those
   * it stepped from in the matching round, or those after the last round.
   */
  method LockstepWalk(inst: Instance, o: Oracle, ghost f: StepFn, version: U32, a0: seq<byte>, b0: seq<byte>,
                      rounds: nat, collisions0: U32, locate0: U32)
    returns (res: bool, matched: bool, collisions: U32, locate: U32, a: seq<byte>, b: seq<byte>)
    requires ValidInstance(inst) && WellFormed(o) && KeepsLength(inst, f) && StepsWith(inst, o, version, f)
    requires |a0| == inst.nbytesState && |b0| == inst.nbytesState
    ensures var k := FirstMatch(o, f, a0, b0, 0, rounds);
            && matched == (k < rounds)
            && a == Walk(f, a0, k) && b == Walk(f, b0, k)
            && res == (matched && GetC(Walk(f, a0, k)) != GetC(Walk(f, b0, k)) && o.golden(o.jinv(Walk(f, a0, k))))
            && collisions == (if matched then Add32(collisions0, 1) else collisions0)
            && locate == Inc32N(locate0, 2 * RoundsWalked(o, f, a0, b0, rounds))
  {
    a, b := a0, b0;
    locate := locate0;
    collisions := collisions0;
    var i := 0;
    while i < rounds
      invariant 0 <= i <= rounds
      invariant a == Walk(f, a0, i) && b == Walk(f, b0, i)
      invariant |a| == inst.nbytesState && |b| == inst.nbytesState
      invariant forall m :: 0 <= m < i ==> Differ(o, f, a0, b0, m)
      invariant locate == Inc32N(locate0, 2 * i)
    {
      var same, j0, a', b';
      same, j0, a', b', locate := LockstepRound(inst, o, f, version, a0, b0, i, a, b, locate0, locate);
      if same {
        FirstMatchIs(o, f, a0, b0, 0, i, rounds);
        collisions := Add32(collisions, 1);
        return GetC(a) != GetC(b) && o.golden(j0), true, collisions, locate, a, b;
      }
      a, b := a', b';
      i := i + 1;
    }
    assert i == rounds;
    FirstMatchIs(o, f, a0, b0, 0, i, rounds);
    return false, false, collisions, locate, a, b;
  }
}
