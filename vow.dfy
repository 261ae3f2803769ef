/**
 * The van Oorschot-Wiener driver of vow.c: one iteration of a core (a step
 * of the current random function, the distinguished-point test, the table
 * lookup, backtracking, and the change of random function) and the loop
 * that runs iterations until success or until the random functions are
 * used up.
 *
 * One iteration is specified by the function Iteration on a snapshot of
 * the fields of private_state_t it touches, and the lemmas below state what
 * the source promises of it: the walk stays a trail of the current random
 * function, the table only receives distinguished trails, and success is
 * reported only for the golden collision.
 */
module Vow {
  import opened Bytes
  import opened Prng
  import opened VowBase
  import opened SikeVow

  // ---------------------------------------------------------------------
  // A snapshot of a core
  // ---------------------------------------------------------------------

  /** The fields of private_state_t that an iteration reads or writes, and the generator state. */
  datatype Core = Core(
    current: Trip,
    currentDist: U32,
    functionVersion: U32,
    randomFunctions: U32,
    sampled: U64,
    collisions: U32,
    memCollisions: U32,
    distPoints: U32,
    numberStepsCollect: U32,
    numberStepsLocate: U32,
    trip: Trip)

  /** The constants of a core's linear congruential generator. */
  datatype Lcg = Lcg(a: U64, b: U64, randMax: U64)

  function Snapshot(ps: PrivateState): Core
    reads ps, ps.prng
  {
    Core(ps.current, ps.currentDist, ps.functionVersion, ps.randomFunctions, ps.prng.sampled,
         ps.collisions, ps.memCollisions, ps.distPoints, ps.numberStepsCollect, ps.numberStepsLocate, ps.trip)
  }

  function GenOf(ps: PrivateState): Lcg
    reads ps.prng
  {
    Lcg(ps.prng.a, ps.prng.b, ps.prng.randMax)
  }

  /** Every slot of the table holds a triple of state-sized states. */
  ghost predicate TableOk(inst: Instance, memory: seq<Trip>)
  {
    |memory| == inst.memorySize && forall i :: 0 <= i < |memory| ==> TripOk(inst, memory[i])
  }

  /**
   * What holds of a core between iterations: the function version and the
   * count of random functions move together, the current triple is a trail
   * of the current random function, and neither the trail length nor the
   * count of distinguished points has reached its bound.
   */
  ghost predicate Walking(inst: Instance, o: Oracle, g: Lcg, c: Core)
  {
    && ValidInstance(inst)
    && g.randMax > 0
    && c.functionVersion == c.randomFunctions
    && TrailOk(inst, StepOf(inst, o, c.functionVersion), c.current)
    && c.current.currentSteps < inst.maxSteps
    && c.currentDist < inst.maxDist
  }

  /**
   * The golden collision under random function `version`: two different
   * states on different sides whose j-invariant is the instance's, so that
   * the random function maps both to the same state.
   */
  ghost predicate GoldenCollision(inst: Instance, o: Oracle, version: U32, a: seq<byte>, b: seq<byte>)
    requires ValidInstance(inst)
  {
    && |a| == inst.nbytesState && |b| == inst.nbytesState
    && a != b
    && GetC(a) != GetC(b)
    && Step(inst, o, a, version) == Step(inst, o, b, version)
    && o.golden(o.jinv(a))
  }

  // ---------------------------------------------------------------------
  // One iteration, as a function of the snapshot
  // ---------------------------------------------------------------------

  /** What an iteration leaves: the core, the table, whether the loop stops, and success. */
  datatype Round = Round(core: Core, memory: seq<Trip>, stop: bool, success: bool)

  /** SampleSIDH: the current triple restarts at the next generator output, with no steps. */
  ghost function Resample(inst: Instance, g: Lcg, c: Core): Core
    requires ValidInstance(inst) && g.randMax > 0
  {
    var s := SampledState(inst, g.a, g.b, g.randMax, c.sampled);
    c.(current := Trip(0, s, s), sampled := LcgIter(g.a, g.b, c.sampled, inst.nbytesState))
  }

  /** UpdateSIDH and the step count: one step of the current random function. */
  ghost function Advance(inst: Instance, o: Oracle, c: Core): Core
    requires ValidInstance(inst)
  {
    var t := c.current;
    c.(current := Trip(Add32(t.currentSteps, 1), Step(inst, o, t.currentState, c.functionVersion), t.initialState),
       numberStepsCollect := Add32(c.numberStepsCollect, 1))
  }

  /** The distinguished-point block of vOW_one_iteration, entered only for a distinguished point. */
  ghost function Collect(inst: Instance, o: Oracle, g: Lcg, collect: bool, c: Core, memory: seq<Trip>, success: bool): Round
    requires ValidInstance(inst) && g.randMax > 0 && TripOk(inst, c.current) && TableOk(inst, memory)
  {
    if Distinguished(inst, c.current.currentState, c.functionVersion)
    then AtDistinguished(inst, o, g, collect, c, memory, success)
    else Round(c, memory, false, success)
  }

  /**
   * At a distinguished point: count it, read its slot, count a memory
   * collision when the slot is empty or holds another state, and otherwise
   * backtrack from the triple read into `trip`, which backtracking rewrites
   * in place; stop with success when not collecting statistics and
   * backtracking succeeded (or success was already set); else store the
   * current triple in the slot and restart the walk.
   */
  ghost function AtDistinguished(inst: Instance, o: Oracle, g: Lcg, collect: bool, c: Core, memory: seq<Trip>, success: bool): Round
    requires ValidInstance(inst) && g.randMax > 0 && TripOk(inst, c.current) && TableOk(inst, memory)
  {
    var t := c.current;
    var id := MemIndex(inst, t.currentState, c.randomFunctions);
    var stored := memory[id];
    var c1 := c.(currentDist := Add32(c.currentDist, 1), distPoints := Add32(c.distPoints, 1), trip := stored);
    if stored.currentSteps == 0 || stored.currentState != t.currentState then
      var c2 := c1.(memCollisions := Add32(c1.memCollisions, 1));
      Round(Resample(inst, g, c2), memory[id := t], false, success)
    else
      var f := StepOf(inst, o, c.functionVersion);
      var c2 := c1.(collisions := if BacktrackOutcome(inst, o, f, stored, t).Matched?
                                  then Add32(c1.collisions, 1) else c1.collisions,
                    numberStepsLocate := Inc32N(c1.numberStepsLocate, LocateSteps(inst, o, f, stored, t)),
                    trip := Backtracked(inst, o, f, stored, t).0);
      if !collect && (BacktrackResult(inst, o, f, stored, t) || success) then Round(c2, memory, true, true)
      else Round(Resample(inst, g, c2), memory[id := t], false, success)
  }

  /** The walk has run MAX_STEPS steps without a distinguished point: restart it. */
  ghost function Restart(inst: Instance, g: Lcg, c: Core): Core
    requires ValidInstance(inst) && g.randMax > 0
  {
    if c.current.currentSteps >= inst.maxSteps then Resample(inst, g, c) else c
  }

  /**
   * MAX_DIST distinguished points under one random function: stop when
   * collecting statistics, else restart the walk under the next random
   * function; then the MAX_STEPS check.
   */
  ghost function Rotate(inst: Instance, g: Lcg, collect: bool, c: Core, memory: seq<Trip>, success: bool): Round
    requires ValidInstance(inst) && g.randMax > 0
  {
    if c.currentDist >= inst.maxDist then
      if collect then Round(c, memory, true, success)
      else
        var c1 := Resample(inst, g, c).(functionVersion := Add32(c.functionVersion, 1),
                                         randomFunctions := Add32(c.randomFunctions, 1),
                                         currentDist := 0);
        Round(Restart(inst, g, c1), memory, false, success)
    else Round(Restart(inst, g, c), memory, false, success)
  }

  /** vOW_one_iteration. */
  ghost function Iteration(inst: Instance, o: Oracle, g: Lcg, collect: bool, c: Core, memory: seq<Trip>, success: bool): Round
    requires ValidInstance(inst) && g.randMax > 0 && TripOk(inst, c.current) && TableOk(inst, memory)
  {
    var r := Collect(inst, o, g, collect, Advance(inst, o, c), memory, success);
    if r.stop then r else Rotate(inst, g, collect, r.core, r.memory, r.success)
  }

  // ---------------------------------------------------------------------
  // What one iteration keeps
  // ---------------------------------------------------------------------

  /** Walking, after the step: the trail may have reached MAX_STEPS. */
  ghost predicate Stepped(inst: Instance, o: Oracle, g: Lcg, c: Core)
  {
    && ValidInstance(inst)
    && g.randMax > 0
    && c.functionVersion == c.randomFunctions
    && TrailOk(inst, StepOf(inst, o, c.functionVersion), c.current)
    && c.current.currentSteps <= inst.maxSteps
    && c.currentDist < inst.maxDist
  }

  /** Stepped, after the distinguished-point block: the count may have reached MAX_DIST. */
  ghost predicate Settled(inst: Instance, o: Oracle, g: Lcg, c: Core)
  {
    && ValidInstance(inst)
    && g.randMax > 0
    && c.functionVersion == c.randomFunctions
    && TrailOk(inst, StepOf(inst, o, c.functionVersion), c.current)
    && c.current.currentSteps <= inst.maxSteps
    && c.currentDist <= inst.maxDist
  }

  /** One step extends the trail by one step of the current random function. */
  lemma AdvanceIsTrail(inst: Instance, o: Oracle, g: Lcg, c: Core)
    requires Walking(inst, o, g, c)
    ensures Stepped(inst, o, g, Advance(inst, o, c))
    ensures Advance(inst, o, c).current.currentSteps == c.current.currentSteps + 1
  {
    var f := StepOf(inst, o, c.functionVersion);
    var t := c.current;
    StepExtendsTrail(inst, f, t);
    assert f(t.currentState) == Step(inst, o, t.currentState, c.functionVersion);
  }

  /** A step of f from the end of a trail of f is a trail of f one step longer. */
  lemma StepExtendsTrail(inst: Instance, f: StepFn, t: Trip)
    requires KeepsLength(inst, f) && TrailOk(inst, f, t) && t.currentSteps + 1 < TWO_32
    ensures var t' := Trip(Add32(t.currentSteps, 1), f(t.currentState), t.initialState);
            TrailOk(inst, f, t') && t'.currentSteps == t.currentSteps + 1
  {
    assert Walk(f, t.initialState, t.currentSteps + 1) == f(Walk(f, t.initialState, t.currentSteps));
  }

  /** A sampled start is a trail of length 0 of every random function. */
  lemma ResampleIsTrail(inst: Instance, o: Oracle, g: Lcg, c: Core, version: U32)
    requires ValidInstance(inst) && g.randMax > 0
    ensures TrailOk(inst, StepOf(inst, o, version), Resample(inst, g, c).current)
    ensures Resample(inst, g, c).current.currentSteps == 0
  {
  }

  /** Storing a triple of state-sized states keeps the table's shape. */
  lemma TableUpdate(inst: Instance, memory: seq<Trip>, id: nat, t: Trip)
    requires TableOk(inst, memory) && id < |memory| && TripOk(inst, t)
    ensures TableOk(inst, memory[id := t])
  {
    assert forall i :: 0 <= i < |memory| ==> memory[id := t][i] == if i == id then t else memory[i];
  }

  /**
   * The distinguished-point block keeps the trail and the random function,
   * counts at most one more distinguished point, and changes the table in
   * at most the slot of the current state, which receives the current trail.
   */
  lemma CollectKeeps(inst: Instance, o: Oracle, g: Lcg, collect: bool, c: Core, memory: seq<Trip>, success: bool)
    requires Stepped(inst, o, g, c) && TableOk(inst, memory)
    ensures var r := Collect(inst, o, g, collect, c, memory, success);
            && TableOk(inst, r.memory)
            && (!r.stop ==> Settled(inst, o, g, r.core))
            && r.core.functionVersion == c.functionVersion
            && (r.core.currentDist == c.currentDist ||
                (Distinguished(inst, c.current.currentState, c.functionVersion) &&
                 r.core.currentDist == c.currentDist + 1))
            && (r.memory == memory ||
                (Distinguished(inst, c.current.currentState, c.functionVersion) &&
                 r.memory == memory[MemIndex(inst, c.current.currentState, c.randomFunctions) := c.current]))
  {
    if Distinguished(inst, c.current.currentState, c.functionVersion) {
      AtDistinguishedKeeps(inst, o, g, collect, c, memory, success);
    }
  }

  /** CollectKeeps at a distinguished point. */
  lemma AtDistinguishedKeeps(inst: Instance, o: Oracle, g: Lcg, collect: bool, c: Core, memory: seq<Trip>, success: bool)
    requires Stepped(inst, o, g, c) && TableOk(inst, memory)
    ensures var r := AtDistinguished(inst, o, g, collect, c, memory, success);
            var id := MemIndex(inst, c.current.currentState, c.randomFunctions);
            && TableOk(inst, r.memory)
            && (!r.stop ==> Settled(inst, o, g, r.core))
            && r.core.functionVersion == c.functionVersion
            && r.core.currentDist == c.currentDist + 1
            && (r.memory == memory || r.memory == memory[id := c.current])
  {
    var t := c.current;
    var id := MemIndex(inst, t.currentState, c.randomFunctions);
    TableUpdate(inst, memory, id, t);
    var c1 := c.(currentDist := Add32(c.currentDist, 1), distPoints := Add32(c.distPoints, 1), trip := memory[id]);
    ResampleIsTrail(inst, o, g, c1.(memCollisions := Add32(c1.memCollisions, 1)), c.functionVersion);
    var f := StepOf(inst, o, c.functionVersion);
    var stored := memory[id];
    if stored.currentSteps != 0 && stored.currentState == t.currentState {
      var c2 := c1.(collisions := if BacktrackOutcome(inst, o, f, stored, t).Matched?
                                  then Add32(c1.collisions, 1) else c1.collisions,
                    numberStepsLocate := Inc32N(c1.numberStepsLocate, LocateSteps(inst, o, f, stored, t)),
                    trip := Backtracked(inst, o, f, stored, t).0);
      ResampleIsTrail(inst, o, g, c2, c.functionVersion);
    }
  }

  /**
   * The MAX_DIST and MAX_STEPS checks leave a walking core unless they stop
   * it, and a new random function only after MAX_DIST distinguished points
   * outside statistics collection, with a fresh trail and the count reset.
   */
  lemma RotateKeeps(inst: Instance, o: Oracle, g: Lcg, collect: bool, c: Core, memory: seq<Trip>, success: bool)
    requires Settled(inst, o, g, c)
    ensures var r := Rotate(inst, g, collect, c, memory, success);
            && r.memory == memory && r.success == success
            && (!r.stop ==> Walking(inst, o, g, r.core))
            && (r.core.functionVersion != c.functionVersion ==>
                  && !collect && !r.stop && c.currentDist == inst.maxDist
                  && r.core.functionVersion == Add32(c.functionVersion, 1)
                  && r.core.currentDist == 0 && r.core.current.currentSteps == 0)
  {
    if c.currentDist >= inst.maxDist && !collect {
      var c1 := Resample(inst, g, c).(functionVersion := Add32(c.functionVersion, 1),
                                       randomFunctions := Add32(c.randomFunctions, 1),
                                       currentDist := 0);
      ResampleIsTrail(inst, o, g, c, c1.functionVersion);
    } else {
      ResampleIsTrail(inst, o, g, c, c.functionVersion);
    }
  }

  /**
   * An iteration that does not stop leaves a walking core: the trail is
   * extended by one step of the current random function or restarted at a
   * sampled state, and the table keeps its shape.
   */
  lemma IterationKeepsWalking(inst: Instance, o: Oracle, g: Lcg, collect: bool, c: Core, memory: seq<Trip>, success: bool)
    requires Walking(inst, o, g, c) && TableOk(inst, memory)
    ensures var r := Iteration(inst, o, g, collect, c, memory, success);
            TableOk(inst, r.memory) && (!r.stop ==> Walking(inst, o, g, r.core))
  {
    AdvanceIsTrail(inst, o, g, c);
    var c' := Advance(inst, o, c);
    CollectKeeps(inst, o, g, collect, c', memory, success);
    var r := Collect(inst, o, g, collect, c', memory, success);
    if !r.stop {
      RotateKeeps(inst, o, g, collect, r.core, r.memory, r.success);
    }
  }

  /**
   * The table changes in at most one slot: the slot of the state the walk
   * reached, which must be distinguished under the current random function,
   * and it receives that trail, one step longer than before.
   */
  lemma IterationStoresDistinguished(inst: Instance, o: Oracle, g: Lcg, collect: bool, c: Core, memory: seq<Trip>, success: bool)
    requires Walking(inst, o, g, c) && TableOk(inst, memory)
    ensures var r := Iteration(inst, o, g, collect, c, memory, success);
            var t := Advance(inst, o, c).current;
            r.memory == memory ||
              (&& Distinguished(inst, t.currentState, c.functionVersion)
               && TrailOk(inst, StepOf(inst, o, c.functionVersion), t)
               && t.currentSteps == c.current.currentSteps + 1
               && r.memory == memory[MemIndex(inst, t.currentState, c.randomFunctions) := t])
  {
    AdvanceIsTrail(inst, o, g, c);
    var c' := Advance(inst, o, c);
    CollectKeeps(inst, o, g, collect, c', memory, success);
    var r := Collect(inst, o, g, collect, c', memory, success);
    if !r.stop {
      RotateKeeps(inst, o, g, collect, r.core, r.memory, r.success);
    }
  }

  /**
   * The core moves to a new random function only on its MAX_DIST-th
   * distinguished point, outside statistics collection, and then starts a
   * fresh trail with the distinguished-point count reset.
   */
  lemma IterationRotates(inst: Instance, o: Oracle, g: Lcg, collect: bool, c: Core, memory: seq<Trip>, success: bool)
    requires Walking(inst, o, g, c) && TableOk(inst, memory)
    ensures var r := Iteration(inst, o, g, collect, c, memory, success);
            r.core.functionVersion != c.functionVersion ==>
              && !collect && !r.stop
              && r.core.functionVersion == Add32(c.functionVersion, 1)
              && Distinguished(inst, Advance(inst, o, c).current.currentState, c.functionVersion)
              && c.currentDist + 1 == inst.maxDist
              && r.core.currentDist == 0 && r.core.current.currentSteps == 0
  {
    AdvanceIsTrail(inst, o, g, c);
    var c' := Advance(inst, o, c);
    CollectKeeps(inst, o, g, collect, c', memory, success);
    var r := Collect(inst, o, g, collect, c', memory, success);
    if !r.stop {
      RotateKeeps(inst, o, g, collect, r.core, r.memory, r.success);
    }
  }

  /**
   * Whatever the current triple holds, an iteration leaves a state-sized
   * current triple and a table of state-sized triples.
   */
  lemma IterationKeepsShape(inst: Instance, o: Oracle, g: Lcg, collect: bool, c: Core, memory: seq<Trip>, success: bool)
    requires ValidInstance(inst) && g.randMax > 0 && TripOk(inst, c.current) && TableOk(inst, memory)
    ensures var r := Iteration(inst, o, g, collect, c, memory, success);
            TripOk(inst, r.core.current) && TableOk(inst, r.memory)
  {
    var c' := Advance(inst, o, c);
    var r := Collect(inst, o, g, collect, c', memory, success);
    if Distinguished(inst, c'.current.currentState, c'.functionVersion) {
      AtDistinguishedShape(inst, o, g, collect, c', memory, success);
    }
    if !r.stop {
      RotateShape(inst, g, collect, r.core, r.memory, r.success);
    }
  }

  /** IterationKeepsShape for the distinguished-point block. */
  lemma AtDistinguishedShape(inst: Instance, o: Oracle, g: Lcg, collect: bool, c: Core, memory: seq<Trip>, success: bool)
    requires ValidInstance(inst) && g.randMax > 0 && TripOk(inst, c.current) && TableOk(inst, memory)
    ensures var r := AtDistinguished(inst, o, g, collect, c, memory, success);
            TripOk(inst, r.core.current) && TableOk(inst, r.memory)
  {
    var t := c.current;
    TableUpdate(inst, memory, MemIndex(inst, t.currentState, c.randomFunctions), t);
  }

  /** IterationKeepsShape for the MAX_DIST and MAX_STEPS checks. */
  lemma RotateShape(inst: Instance, g: Lcg, collect: bool, c: Core, memory: seq<Trip>, success: bool)
    requires ValidInstance(inst) && g.randMax > 0 && TripOk(inst, c.current)
    ensures var r := Rotate(inst, g, collect, c, memory, success);
            TripOk(inst, r.core.current) && r.memory == memory
  {
  }

  /**
   * Success is newly reported only for the golden collision, under the
   * random function the core was walking, and never while collecting
   * statistics. This holds even when the current triple is no trail, since
   * backtracking checks what it finds.
   */
  lemma IterationSuccessIsGolden(inst: Instance, o: Oracle, g: Lcg, collect: bool, c: Core, memory: seq<Trip>, success: bool)
    requires ValidInstance(inst) && g.randMax > 0 && TripOk(inst, c.current) && TableOk(inst, memory)
    ensures var r := Iteration(inst, o, g, collect, c, memory, success);
            r.success && !success ==>
              && !collect && r.stop && r.core.functionVersion == c.functionVersion
              && exists a, b :: GoldenCollision(inst, o, c.functionVersion, a, b)
  {
    var r := Iteration(inst, o, g, collect, c, memory, success);
    var c' := Advance(inst, o, c);
    var t := c'.current;
    if r.success && !success && Distinguished(inst, t.currentState, c.functionVersion) {
      var stored := memory[MemIndex(inst, t.currentState, c.randomFunctions)];
      var f := StepOf(inst, o, c.functionVersion);
      if stored.currentSteps != 0 && stored.currentState == t.currentState && BacktrackResult(inst, o, f, stored, t) {
        BacktrackTrueIsGoldenCollision(inst, o, c.functionVersion, stored, t);
        var cu := CatchUp(inst, f, stored, t);
        var k := BacktrackOutcome(inst, o, f, stored, t).round;
        WalkLength(inst, f, cu.0, k);
        WalkLength(inst, f, cu.1, k);
        assert GoldenCollision(inst, o, c.functionVersion, Walk(f, cu.0, k), Walk(f, cu.1, k));
      }
    }
  }

  /** A walk of a state keeps the state length. */
  lemma {:induction false} WalkLength(inst: Instance, f: StepFn, s: seq<byte>, n: nat)
    requires KeepsLength(inst, f) && |s| == inst.nbytesState
    ensures |Walk(f, s, n)| == inst.nbytesState
  {
    if n > 0 {
      assert |f(Walk(f, s, n - 1))| == inst.nbytesState;
    }
  }

  // ---------------------------------------------------------------------
  // The core's methods
  // ---------------------------------------------------------------------

  /** UpdateSIDH followed by current_steps += 1. */
  method StepWalk(inst: Instance, o: Oracle, ps: PrivateState)
    requires ValidInstance(inst)
    modifies ps`current, ps`numberStepsCollect
    ensures Snapshot(ps) == Advance(inst, o, old(Snapshot(ps)))
  {
    ps.Update(inst, o, StepOf(inst, o, ps.functionVersion));
    ps.current := ps.current.(currentSteps := Add32(ps.current.currentSteps, 1));
  }

  /** The distinguished-point block of vOW_one_iteration. */
  method HandleDistinguished(inst: Instance, o: Oracle, S: SharedState, ps: PrivateState, success: bool)
    returns (stop: bool, success': bool)
    requires ValidInstance(inst) && WellFormed(o) && ps.prng.randMax > 0
    requires TripOk(inst, ps.current) && TableOk(inst, S.memory[..])
    modifies ps`currentDist, ps`distPoints, ps`trip, ps`memCollisions, ps`collisions, ps`numberStepsLocate
    modifies ps`current, ps.prng`sampled, S.memory
    ensures var r := Collect(inst, o, GenOf(ps), ps.collectVowStats, old(Snapshot(ps)), old(S.memory[..]), success);
            Snapshot(ps) == r.core && S.memory[..] == r.memory && stop == r.stop && success' == r.success
  {
    if Distinguished(inst, ps.current.currentState, ps.functionVersion) {
      stop, success' := VisitDistinguished(inst, o, S, ps, success);
    } else {
      stop, success' := false, success;
    }
  }

  /** The body of the distinguished-point block. */
  method VisitDistinguished(inst: Instance, o: Oracle, S: SharedState, ps: PrivateState, success: bool)
    returns (stop: bool, success': bool)
    requires ValidInstance(inst) && WellFormed(o) && ps.prng.randMax > 0
    requires TripOk(inst, ps.current) && TableOk(inst, S.memory[..])
    modifies ps`currentDist, ps`distPoints, ps`trip, ps`memCollisions, ps`collisions, ps`numberStepsLocate
    modifies ps`current, ps.prng`sampled, S.memory
    ensures var r := AtDistinguished(inst, o, GenOf(ps), ps.collectVowStats, old(Snapshot(ps)), old(S.memory[..]), success);
            Snapshot(ps) == r.core && S.memory[..] == r.memory && stop == r.stop && success' == r.success
  {
    ghost var c := Snapshot(ps);
    var t := ps.current;
    ps.currentDist := Add32(ps.currentDist, 1);
    ps.distPoints := Add32(ps.distPoints, 1);
    var id := MemIndex(inst, t.currentState, ps.randomFunctions);
    ps.trip := ReadFromMemory(S.memory, id);
    ghost var c1 := c.(currentDist := Add32(c.currentDist, 1), distPoints := Add32(c.distPoints, 1), trip := ps.trip);
    assert Snapshot(ps) == c1;
    var read := ps.trip.currentSteps > 0;
    if !read || !IsEqualSt(ps.trip.currentState, t.currentState) {
      ps.memCollisions := Add32(ps.memCollisions, 1);
      assert Snapshot(ps) == c1.(memCollisions := Add32(c1.memCollisions, 1));
    } else {
      var res := Locate(inst, o, ps, t);
      ghost var f := StepOf(inst, o, c.functionVersion);
      assert Snapshot(ps) == c1.(collisions := if BacktrackOutcome(inst, o, f, c1.trip, t).Matched?
                                               then Add32(c1.collisions, 1) else c1.collisions,
                                 numberStepsLocate := Inc32N(c1.numberStepsLocate, LocateSteps(inst, o, f, c1.trip, t)),
                                 trip := Backtracked(inst, o, f, c1.trip, t).0);
      if !ps.collectVowStats {
        if res || success {
          return true, true;
        }
      }
    }
    StoreAndRestart(inst, S, ps, id, t);
    return false, success;
  }

  /**
   * The backtracking call of the distinguished-point block, from the stored
   * triple in `trip` to t, the copy of the current one. `trip` takes the
   * initial state backtracking leaves in it; what it leaves in t is dead,
   * since t is copied afresh before every call.
   */
  method Locate(inst: Instance, o: Oracle, ps: PrivateState, t: Trip) returns (res: bool)
    requires ValidInstance(inst) && WellFormed(o) && TripOk(inst, ps.trip) && TripOk(inst, t)
    modifies ps`collisions, ps`numberStepsLocate, ps`trip
    ensures var f := StepOf(inst, o, ps.functionVersion);
            && res == BacktrackResult(inst, o, f, old(ps.trip), t)
            && Snapshot(ps) == old(Snapshot(ps)).(
                 collisions := if BacktrackOutcome(inst, o, f, old(ps.trip), t).Matched?
                               then Add32(old(ps.collisions), 1) else old(ps.collisions),
                 numberStepsLocate := Inc32N(old(ps.numberStepsLocate), LocateSteps(inst, o, f, old(ps.trip), t)),
                 trip := Backtracked(inst, o, f, old(ps.trip), t).0)
  {
    var d0, d1;
    res, d0, d1 := ps.Backtrack(inst, o, StepOf(inst, o, ps.functionVersion), ps.trip, t);
    ps.trip := d0;
  }

  /** write_to_memory of the current triple and SampleSIDH. */
  method StoreAndRestart(inst: Instance, S: SharedState, ps: PrivateState, id: nat, t: Trip)
    requires ValidInstance(inst) && ps.prng.randMax > 0 && id < S.memory.Length
    modifies ps`current, ps.prng`sampled, S.memory
    ensures Snapshot(ps) == Resample(inst, GenOf(ps), old(Snapshot(ps)))
    ensures S.memory[..] == old(S.memory[..])[id := t]
  {
    WriteToMemory(S.memory, id, t);
    ps.Sample(inst);
  }

  /** The MAX_DIST and MAX_STEPS checks at the end of vOW_one_iteration. */
  method ChangeFunction(inst: Instance, ps: PrivateState, ghost memory: seq<Trip>, success: bool)
    returns (stop: bool, success': bool)
    requires ValidInstance(inst) && ps.prng.randMax > 0
    modifies ps`current, ps`functionVersion, ps`randomFunctions, ps`currentDist, ps.prng`sampled
    ensures var r := Rotate(inst, GenOf(ps), ps.collectVowStats, old(Snapshot(ps)), memory, success);
            Snapshot(ps) == r.core && stop == r.stop && success' == r.success
  {
    if ps.currentDist >= inst.maxDist {
      if ps.collectVowStats {
        return true, success;
      }
      ps.Sample(inst);
      ps.functionVersion := Add32(ps.functionVersion, 1);
      ps.randomFunctions := Add32(ps.randomFunctions, 1);
      ps.currentDist := 0;
    }
    if ps.current.currentSteps >= inst.maxSteps {
      ps.Sample(inst);
    }
    return false, success;
  }

  /** vOW_one_iteration on the core's fields and the shared table. */
  method OneIteration(inst: Instance, o: Oracle, S: SharedState, ps: PrivateState, success: bool)
    returns (stop: bool, success': bool)
    requires ValidInstance(inst) && WellFormed(o) && ps.prng.randMax > 0
    requires TripOk(inst, ps.current) && TableOk(inst, S.memory[..])
    modifies ps`current, ps`currentDist, ps`functionVersion, ps`randomFunctions, ps`distPoints, ps`trip
    modifies ps`memCollisions, ps`collisions, ps`numberStepsCollect, ps`numberStepsLocate
    modifies ps.prng`sampled, S.memory
    ensures var r := Iteration(inst, o, GenOf(ps), ps.collectVowStats, old(Snapshot(ps)), old(S.memory[..]), success);
            Snapshot(ps) == r.core && S.memory[..] == r.memory && stop == r.stop && success' == r.success
  {
    StepWalk(inst, o, ps);
    stop, success' := HandleDistinguished(inst, o, S, ps, success);
    if !stop {
      stop, success' := ChangeFunction(inst, ps, S.memory[..], success');
    }
  }

  // ---------------------------------------------------------------------
  // The search loop
  // ---------------------------------------------------------------------

  /**
   * init_private_state zeroes the step counts of `current` and `trip` and
   * leaves their states as the storage held them. When the two states of
   * `current` differ, the core vOW starts iterating from is no trail of any
   * random function, so it is not walking.
   */
  method InitLeavesStaleTrail(inst: Instance, o: Oracle, S: SharedState, ps: PrivateState)
    requires ValidInstance(inst) && TripOk(inst, ps.current)
    requires ps.current.currentState != ps.current.initialState
    modifies ps, ps.prng
    ensures ps.current == old(ps.current).(currentSteps := 0)
    ensures forall v: U32 :: !TrailOk(inst, StepOf(inst, o, v), ps.current)
    ensures !Walking(inst, o, GenOf(ps), Snapshot(ps))
  {
    ps.Init(inst, o, S);
  }

  /**
   * init_private_state followed by SampleSIDH: the core starts walking a
   * trail of length 0 from a sampled state, under random function 1.
   */
  method StartWalk(inst: Instance, o: Oracle, S: SharedState, ps: PrivateState)
    requires ValidInstance(inst)
    modifies ps, ps.prng
    ensures Walking(inst, o, GenOf(ps), Snapshot(ps))
    ensures ps.functionVersion == 1 && ps.randomFunctions == 1 && ps.currentDist == 0
    ensures ps.collisions == 0 && ps.memCollisions == 0 && ps.distPoints == 0
    ensures ps.numberStepsCollect == 0 && ps.numberStepsLocate == 0
    ensures ps.collectVowStats == S.collectVowStats
    ensures var s := SampledState(inst, LCG_A, LCG_B, LCG_RAND_MAX, ps.prngSeed);
            ps.current == Trip(0, s, s) && ps.prng.sampled == LcgIter(LCG_A, LCG_B, ps.prngSeed, inst.nbytesState)
  {
    ps.Init(inst, o, S);
    ps.Sample(inst);
  }

  /** How the loop of vOW ended: the last round, and the number of iterations run. */
  datatype Finish = Finish(round: Round, iterations: nat)

  /** What the loop runs each time round: a core, the table and the success flag to a round. */
  type Body = (Core, seq<Trip>, bool) -> Round

  /**
   * vOW_one_iteration as the body of the loop: Iteration, on a state-sized
   * core and table (elsewhere it stops, which no run of the loop reaches, by
   * LoopKeepsShape).
   */
  ghost function Next(inst: Instance, o: Oracle, g: Lcg, collect: bool): Body
  {
    (c: Core, memory: seq<Trip>, success: bool) =>
      if ValidInstance(inst) && g.randMax > 0 && TripOk(inst, c.current) && TableOk(inst, memory)
      then Iteration(inst, o, g, collect, c, memory, success)
      else Round(c, memory, true, success)
  }

  /** On a state-sized core and table, Next is Iteration, and it leaves them state-sized. */
  lemma NextIsIteration(inst: Instance, o: Oracle, g: Lcg, collect: bool, c: Core, memory: seq<Trip>, success: bool)
    requires ValidInstance(inst) && g.randMax > 0 && TripOk(inst, c.current) && TableOk(inst, memory)
    ensures var r := Next(inst, o, g, collect)(c, memory, success);
            && r == Iteration(inst, o, g, collect, c, memory, success)
            && TripOk(inst, r.core.current) && TableOk(inst, r.memory)
  {
    IterationKeepsShape(inst, o, g, collect, c, memory, success);
  }

  /**
   * The loop of vOW stops before iteration i when the fuel is spent, the
   * random functions are used up, success was reported, or an interrupt was
   * seen.
   */
  predicate Halts(inst: Instance, fuel: nat, interrupted: nat -> bool, i: nat, c: Core, success: bool)
  {
    i >= fuel || c.randomFunctions > inst.maxFunctionVersions || success || interrupted(i)
  }

  /**
   * The loop of vOW from iteration i, with `fuel` bounding the iterations
   * and interrupted(i) the Ctrl+C flag as seen before iteration i. While
   * random_functions <= MAX_FUNCTION_VERSIONS and there is no success, an
   * interrupt ends the loop, and otherwise the body runs once; the loop is
   * left as soon as the body asks to stop.
   */
  ghost function Loop(inst: Instance, body: Body, interrupted: nat -> bool, fuel: nat,
                      i: nat, c: Core, memory: seq<Trip>, success: bool): Finish
    decreases fuel - i
  {
    if Halts(inst, fuel, interrupted, i, c, success) then
      Finish(Round(c, memory, false, success), i)
    else
      var r := body(c, memory, success);
      if r.stop then Finish(r, i + 1)
      else Loop(inst, body, interrupted, fuel, i + 1, r.core, r.memory, r.success)
  }

  /** Where the guard halts it, the loop leaves the core and the table as they are. */
  lemma LoopHalt(inst: Instance, body: Body, interrupted: nat -> bool, fuel: nat,
                 i: nat, c: Core, memory: seq<Trip>, success: bool)
    requires Halts(inst, fuel, interrupted, i, c, success)
    ensures Loop(inst, body, interrupted, fuel, i, c, memory, success) == Finish(Round(c, memory, false, success), i)
  {
  }

  /** One step of the loop: past the guard, the body runs once and the loop goes on unless it stopped. */
  lemma LoopStep(inst: Instance, body: Body, interrupted: nat -> bool, fuel: nat,
                 i: nat, c: Core, memory: seq<Trip>, success: bool)
    requires !Halts(inst, fuel, interrupted, i, c, success)
    ensures var r := body(c, memory, success);
            Loop(inst, body, interrupted, fuel, i, c, memory, success)
            == if r.stop then Finish(r, i + 1)
               else Loop(inst, body, interrupted, fuel, i + 1, r.core, r.memory, r.success)
  {
  }

  /** From iteration i <= fuel, the loop stops at an iteration between i and fuel. */
  lemma {:induction false} LoopBounds(inst: Instance, body: Body, interrupted: nat -> bool, fuel: nat,
                                      i: nat, c: Core, memory: seq<Trip>, success: bool)
    requires i <= fuel
    ensures var n := Loop(inst, body, interrupted, fuel, i, c, memory, success).iterations;
            i <= n <= fuel
    decreases fuel - i
  {
    if !Halts(inst, fuel, interrupted, i, c, success) {
      var r := body(c, memory, success);
      LoopStep(inst, body, interrupted, fuel, i, c, memory, success);
      if !r.stop {
        LoopBounds(inst, body, interrupted, fuel, i + 1, r.core, r.memory, r.success);
      }
    }
  }

  /**
   * Why the loop ended: unless the body asked to stop, the guard halted it
   * at the iteration reached, with the core and success flag it ended with.
   */
  lemma {:induction false} LoopEnds(inst: Instance, body: Body, interrupted: nat -> bool, fuel: nat,
                                    i: nat, c: Core, memory: seq<Trip>, success: bool)
    ensures var f := Loop(inst, body, interrupted, fuel, i, c, memory, success);
            f.round.stop || Halts(inst, fuel, interrupted, f.iterations, f.round.core, f.round.success)
    decreases fuel - i
  {
    if !Halts(inst, fuel, interrupted, i, c, success) {
      var r := body(c, memory, success);
      LoopStep(inst, body, interrupted, fuel, i, c, memory, success);
      if !r.stop {
        LoopEnds(inst, body, interrupted, fuel, i + 1, r.core, r.memory, r.success);
      }
    }
  }

  /** From a state-sized core and table, the loop of vOW leaves a state-sized core and table. */
  lemma {:induction false} LoopKeepsShape(inst: Instance, o: Oracle, g: Lcg, collect: bool, interrupted: nat -> bool,
                                          fuel: nat, i: nat, c: Core, memory: seq<Trip>, success: bool)
    requires ValidInstance(inst) && g.randMax > 0 && TripOk(inst, c.current) && TableOk(inst, memory)
    ensures var f := Loop(inst, Next(inst, o, g, collect), interrupted, fuel, i, c, memory, success);
            TripOk(inst, f.round.core.current) && TableOk(inst, f.round.memory)
    decreases fuel - i
  {
    var body := Next(inst, o, g, collect);
    if !Halts(inst, fuel, interrupted, i, c, success) {
      var r := body(c, memory, success);
      NextIsIteration(inst, o, g, collect, c, memory, success);
      LoopStep(inst, body, interrupted, fuel, i, c, memory, success);
      if !r.stop {
        LoopKeepsShape(inst, o, g, collect, interrupted, fuel, i + 1, r.core, r.memory, r.success);
      }
    }
  }

  /**
   * Success is newly reported only when the loop of vOW stopped at an
   * iteration that found the golden collision, under the random function
   * the core ends with, and never while collecting statistics.
   */
  lemma {:induction false} LoopSuccessIsGolden(inst: Instance, o: Oracle, g: Lcg, collect: bool, interrupted: nat -> bool,
                                               fuel: nat, i: nat, c: Core, memory: seq<Trip>)
    requires ValidInstance(inst) && g.randMax > 0 && TripOk(inst, c.current) && TableOk(inst, memory)
    ensures var f := Loop(inst, Next(inst, o, g, collect), interrupted, fuel, i, c, memory, false);
            f.round.success ==>
              && !collect && f.round.stop
              && exists a, b :: GoldenCollision(inst, o, f.round.core.functionVersion, a, b)
    decreases fuel - i
  {
    var body := Next(inst, o, g, collect);
    if !Halts(inst, fuel, interrupted, i, c, false) {
      var r := body(c, memory, false);
      NextIsIteration(inst, o, g, collect, c, memory, false);
      IterationSuccessIsGolden(inst, o, g, collect, c, memory, false);
      LoopStep(inst, body, interrupted, fuel, i, c, memory, false);
      if !r.stop {
        LoopSuccessIsGolden(inst, o, g, collect, interrupted, fuel, i + 1, r.core, r.memory);
      }
    }
  }

  /** A loop of vOW entered with a walking core leaves it walking unless an iteration stopped it. */
  lemma {:induction false} LoopKeepsWalking(inst: Instance, o: Oracle, g: Lcg, collect: bool, interrupted: nat -> bool,
                                            fuel: nat, i: nat, c: Core, memory: seq<Trip>, success: bool)
    requires Walking(inst, o, g, c) && TableOk(inst, memory)
    ensures var f := Loop(inst, Next(inst, o, g, collect), interrupted, fuel, i, c, memory, success);
            !f.round.stop ==> Walking(inst, o, g, f.round.core)
    decreases fuel - i
  {
    var body := Next(inst, o, g, collect);
    if !Halts(inst, fuel, interrupted, i, c, success) {
      IterationKeepsShape(inst, o, g, collect, c, memory, success);
      var r := body(c, memory, success);
      NextIsIteration(inst, o, g, collect, c, memory, success);
      IterationKeepsWalking(inst, o, g, collect, c, memory, success);
      LoopStep(inst, body, interrupted, fuel, i, c, memory, success);
      if !r.stop {
        LoopKeepsWalking(inst, o, g, collect, interrupted, fuel, i + 1, r.core, r.memory, r.success);
      }
    }
  }

  /** The body of the loop of vOW, past its guard: one iteration, which is one step of Loop. */
  method SearchStep(inst: Instance, o: Oracle, S: SharedState, ps: PrivateState, fuel: nat, interrupted: nat -> bool,
                    i: nat, success: bool)
    returns (stop: bool, success': bool)
    requires ValidInstance(inst) && WellFormed(o) && ps.prng.randMax > 0
    requires TripOk(inst, ps.current) && TableOk(inst, S.memory[..])
    requires !Halts(inst, fuel, interrupted, i, Snapshot(ps), success)
    modifies ps`current, ps`currentDist, ps`functionVersion, ps`randomFunctions, ps`distPoints, ps`trip
    modifies ps`memCollisions, ps`collisions, ps`numberStepsCollect, ps`numberStepsLocate
    modifies ps.prng`sampled, S.memory
    ensures TripOk(inst, ps.current) && TableOk(inst, S.memory[..])
    ensures var body := Next(inst, o, GenOf(ps), ps.collectVowStats);
            Loop(inst, body, interrupted, fuel, i, old(Snapshot(ps)), old(S.memory[..]), success)
            == if stop then Finish(Round(Snapshot(ps), S.memory[..], true, success'), i + 1)
               else Loop(inst, body, interrupted, fuel, i + 1, Snapshot(ps), S.memory[..], success')
  {
    NextIsIteration(inst, o, GenOf(ps), ps.collectVowStats, Snapshot(ps), S.memory[..], success);
    LoopStep(inst, Next(inst, o, GenOf(ps), ps.collectVowStats), interrupted, fuel, i, Snapshot(ps), S.memory[..], success);
    stop, success' := OneIteration(inst, o, S, ps, success);
  }

  /**
   * The loop of vOW on the core's fields and the shared table: it leaves
   * them as Loop with body Next says, from any state-sized current triple.
   */
  method Search(inst: Instance, o: Oracle, S: SharedState, ps: PrivateState, fuel: nat, interrupted: nat -> bool)
    returns (success: bool)
    requires ValidInstance(inst) && WellFormed(o) && ps.prng.randMax > 0
    requires TripOk(inst, ps.current) && TableOk(inst, S.memory[..])
    modifies ps`current, ps`currentDist, ps`functionVersion, ps`randomFunctions, ps`distPoints, ps`trip
    modifies ps`memCollisions, ps`collisions, ps`numberStepsCollect, ps`numberStepsLocate
    modifies ps.prng`sampled, S.memory
    ensures var f := Loop(inst, Next(inst, o, GenOf(ps), ps.collectVowStats), interrupted, fuel, 0, old(Snapshot(ps)), old(S.memory[..]), false);
            Snapshot(ps) == f.round.core && S.memory[..] == f.round.memory && success == f.round.success
  {
    ghost var body := Next(inst, o, GenOf(ps), ps.collectVowStats);
    ghost var f := Loop(inst, body, interrupted, fuel, 0, Snapshot(ps), S.memory[..], false);
    ghost var broke := false;
    success := false;
    var i := 0;
    while i < fuel && ps.randomFunctions <= inst.maxFunctionVersions && !success
      invariant ps.prng.randMax > 0 && TripOk(inst, ps.current) && TableOk(inst, S.memory[..])
      invariant body == Next(inst, o, GenOf(ps), ps.collectVowStats)
      invariant f == Loop(inst, body, interrupted, fuel, i, Snapshot(ps), S.memory[..], success)
      decreases fuel - i
    {
      if interrupted(i) {
        LoopHalt(inst, body, interrupted, fuel, i, Snapshot(ps), S.memory[..], success);
        broke := true;
        break;
      }
      var stop;
      stop, success := SearchStep(inst, o, S, ps, fuel, interrupted, i, success);
      if stop {
        broke := true;
        break;
      }
      i := i + 1;
    }
    if !broke {
      LoopHalt(inst, body, interrupted, fuel, i, Snapshot(ps), S.memory[..], success);
    }
  }

  /**
   * vOW as written: init_private_state, then the search straight away from
   * the triple the storage of the private state held, then the core's
   * counters added to the shared statistics and the verdict published. ps
   * is that storage: its states have the state length, as st_t always does,
   * and are otherwise arbitrary. `start` is the core the loop starts from.
   */
  method VowAsWritten(inst: Instance, o: Oracle, S: SharedState, ps: PrivateState, fuel: nat, interrupted: nat -> bool)
    returns (success: bool, ghost start: Core)
    requires ValidInstance(inst) && WellFormed(o) && TableOk(inst, S.memory[..])
    requires TripOk(inst, ps.current)
    modifies S, S.memory, ps, ps.prng
    ensures ps.prngSeed == o.hash(LeBytes(inst.prngSeed, 4), 1) % TWO_32
    ensures start == Core(old(ps.current).(currentSteps := 0), 0, 1, 1, ps.prngSeed, 0, 0, 0, 0, 0,
                          old(ps.trip).(currentSteps := 0))
    ensures GenOf(ps) == Lcg(LCG_A, LCG_B, LCG_RAND_MAX) && ps.collectVowStats == S.collectVowStats
    ensures var f := Loop(inst, Next(inst, o, GenOf(ps), ps.collectVowStats), interrupted, fuel, 0, start, old(S.memory[..]), false);
            Snapshot(ps) == f.round.core && S.memory[..] == f.round.memory && success == f.round.success
    ensures S.success == success
    ensures success ==> !S.collectVowStats && exists a, b :: GoldenCollision(inst, o, ps.functionVersion, a, b)
    ensures TableOk(inst, S.memory[..])
    ensures TotalsOf(S) == Added(old(TotalsOf(S)), Snapshot(ps))
  {
    ghost var m0 := S.memory[..];
    ps.Init(inst, o, S);
    start := Snapshot(ps);
    success := Search(inst, o, S, ps, fuel, interrupted);
    LoopKeepsShape(inst, o, GenOf(ps), ps.collectVowStats, interrupted, fuel, 0, start, m0, false);
    LoopSuccessIsGolden(inst, o, GenOf(ps), ps.collectVowStats, interrupted, fuel, 0, start, m0);
    Publish(S, ps, success);
  }

  /**
   * vOW with the start corrected: a fresh core started walking at a sampled
   * state, the search, then the core's counters added to the shared
   * statistics and the verdict published. `start` is the core the loop
   * starts from.
   */
  method Vow(inst: Instance, o: Oracle, S: SharedState, fuel: nat, interrupted: nat -> bool)
    returns (success: bool, ps: PrivateState, ghost start: Core)
    requires ValidInstance(inst) && WellFormed(o) && TableOk(inst, S.memory[..])
    modifies S, S.memory
    ensures fresh(ps)
    ensures Walking(inst, o, GenOf(ps), start)
    ensures start.functionVersion == 1 && start.randomFunctions == 1 && start.currentDist == 0
    ensures start.collisions == 0 && start.memCollisions == 0 && start.distPoints == 0
    ensures start.numberStepsCollect == 0 && start.numberStepsLocate == 0
    ensures var s := SampledState(inst, LCG_A, LCG_B, LCG_RAND_MAX, ps.prngSeed);
            start.current == Trip(0, s, s) && start.sampled == LcgIter(LCG_A, LCG_B, ps.prngSeed, inst.nbytesState)
    ensures ps.collectVowStats == S.collectVowStats
    ensures var f := Loop(inst, Next(inst, o, GenOf(ps), ps.collectVowStats), interrupted, fuel, 0, start, old(S.memory[..]), false);
            Snapshot(ps) == f.round.core && S.memory[..] == f.round.memory && success == f.round.success
    ensures S.success == success
    ensures success ==> !S.collectVowStats && exists a, b :: GoldenCollision(inst, o, ps.functionVersion, a, b)
    ensures TableOk(inst, S.memory[..])
    ensures TotalsOf(S) == Added(old(TotalsOf(S)), Snapshot(ps))
  {
    ps := new PrivateState();
    ghost var m0 := S.memory[..];
    StartWalk(inst, o, S, ps);
    start := Snapshot(ps);
    success := Search(inst, o, S, ps, fuel, interrupted);
    LoopKeepsShape(inst, o, GenOf(ps), ps.collectVowStats, interrupted, fuel, 0, start, m0, false);
    LoopSuccessIsGolden(inst, o, GenOf(ps), ps.collectVowStats, interrupted, fuel, 0, start, m0);
    Publish(S, ps, success);
  }

  /** The statistics of shared_state_t that vOW adds to. */
  datatype Totals = Totals(
    collisions: U32,
    memCollisions: U32,
    distPoints: U32,
    numberStepsCollect: U32,
    numberStepsLocate: U32,
    numberSteps: U32,
    finalAvgRandomFunctions: nat)

  function TotalsOf(S: SharedState): Totals
    reads S
  {
    Totals(S.collisions, S.memCollisions, S.distPoints, S.numberStepsCollect, S.numberStepsLocate,
           S.numberSteps, S.finalAvgRandomFunctions)
  }

  /**
   * The statistics after a core's run: each uint32_t counter of the core
   * added with wrap-around, the step total recomputed from the collecting
   * and locating totals, and the core's number of random functions added to
   * the running sum.
   */
  function Added(t: Totals, c: Core): Totals
  {
    var collect := Add32(t.numberStepsCollect, c.numberStepsCollect);
    var locate := Add32(t.numberStepsLocate, c.numberStepsLocate);
    Totals(Add32(t.collisions, c.collisions), Add32(t.memCollisions, c.memCollisions),
           Add32(t.distPoints, c.distPoints), collect, locate, Add32(collect, locate),
           t.finalAvgRandomFunctions + c.randomFunctions)
  }

  /** The end of vOW: the core's counters added to the shared statistics, and the verdict. */
  method Publish(S: SharedState, ps: PrivateState, success: bool)
    modifies S
    ensures TotalsOf(S) == Added(old(TotalsOf(S)), Snapshot(ps))
    ensures S.success == success && S.collectVowStats == old(S.collectVowStats)
  {
    S.collisions := Add32(S.collisions, ps.collisions);
    S.memCollisions := Add32(S.memCollisions, ps.memCollisions);
    S.distPoints := Add32(S.distPoints, ps.distPoints);
    S.numberStepsCollect := Add32(S.numberStepsCollect, ps.numberStepsCollect);
    S.numberStepsLocate := Add32(S.numberStepsLocate, ps.numberStepsLocate);
    S.numberSteps := Add32(S.numberStepsCollect, S.numberStepsLocate);
    S.finalAvgRandomFunctions := S.finalAvgRandomFunctions + ps.randomFunctions;
    S.success := success;
  }
}
