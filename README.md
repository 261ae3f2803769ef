# vOW4SIKE core in Dafny

This project models three parts of vOW4SIKE, a van Oorschot–Wiener (vOW) parallel collision search against SIKE, and proves properties of each.

**The vOW engine** (`vow.c`, `sike_vow.c`, `sidh_vow_base.c`).
- A core walks a *trail* of states. Each trail is a triple of current state, initial state and step count.
- Each step applies a random function: it maps a state to the j-invariant of an isogenous curve, then hashes that j-invariant, salted with the function version, back to a state.
- A *distinguished* state is looked up in a table of triples. A stored triple that ends at the same state is backtracked against the current one to the point where the two trails merge.
- The search succeeds when that collision is the *golden* one: two states on different sides whose common image has the instance's j-invariant.
- Per random function the core collects MAX_DIST distinguished points and then moves to the next function version. A trail longer than MAX_STEPS is abandoned.

The engine is modelled as two classes:
- `SharedState` (`shared_state_t`: the table and the statistics);
- `PrivateState` (`private_state_t`: the walk, the generator and the counters).

Methods on them are proved against ghost functions of a snapshot of the fields. `Vow.Iteration` is one `vOW_one_iteration`, and `Vow.Loop` is the `while` loop of `vOW` around it. Lemmas state what an iteration, and so the loop, keeps:
- the current triple stays a trail of the current random function;
- only distinguished trails enter the table;
- the function version moves only after MAX_DIST points;
- success is reported only for the golden collision.

`Vow.VowAsWritten` is `vOW` as written. `Vow.Vow` is a corrected driver that samples a starting point before the first iteration (see "## Findings").

The isogeny step, the XXH64 hash and the comparison with the instance's j-invariant are inputs, gathered in an `Oracle`.

**The byte generators** (`prng.c`, `random.c`).
- `prng.c` holds the POSIX-style linear congruential generator, the AES-CTR generator with its block counter, and the XXH64-chained XOF.
- `random.c` is a CTR_DRBG-style generator. It has a 128-bit big-endian counter V, the update step of section 10.2.1.2 of NIST SP 800-90A Rev. 1 (CTR_DRBG_Update), and `randombytes`.
- The block cipher and the hash are function-typed parameters.

**Arithmetic modulo p697 = 2^356·3^215 − 1** (`fp_x64.c`, `P697.c`, `test_extras.c`).
- The routines are carry/borrow loops over 11 little-endian 64-bit words, modelled as methods on `array<U64>`.
- Each method is proved to compute a value function of the inputs' values. Lemmas give the ranges and congruences that the source comments promise, and the algebraic laws that `arith_tests-p697.c` checks.
- The constants of `P697.c` are proved to be the numbers they claim to be.

Conventions:
- A state (`st_t`, one 64-bit digit) is the `seq<byte>` of its NBYTES_STATE meaningful bytes, least significant first; `Le` reads it as a number.
- `uint32_t` counters are `U32`. Their wrap-around is explicit (`Add32`, `Inc32N`).

## Model

Source paths are relative to the repository root.

| member | source | states |
|---|---|---|
| VowBase.GetC | SIKE_vOW_hw-sw/ref_c/SIKE_vOW_software/src/sidh_vow_base.c:18-21 | The side bit is bit 0 of the state digit: 0 or 1, equal to the digit mod 2. |
| VowBase.IsEqualSt | SIKE_vOW_hw-sw/ref_c/SIKE_vOW_software/src/sidh_vow_base.c:38-45 | True iff the state digits are equal, which holds iff the byte strings are equal (after `copy_st` the comparison holds). |
| VowBase.IsEqualJinv | SIKE_vOW_hw-sw/ref_c/SIKE_vOW_software/src/sidh_vow_base.c:47-54 | The byte loop that leaves at the first difference returns true iff the two encodings are equal. |
| VowBase.MemIndex | SIKE_vOW_hw-sw/ref_c/SIKE_vOW_software/src/sidh_vow_base.c:66-70 | The index is (digit + random_functions) mod MEMORY_SIZE, so it is always a valid slot; the 64-bit wrap of the sum does not change it. |
| VowBase.HighestBitIsHighest | SIKE_vOW_hw-sw/ref_c/SIKE_vOW_software/src/sidh_vow_base.c:72-82 | The reference for GetMSBSIDH: the returned position holds a set bit and every bit above it up to NBITS_STATE is clear. |
| VowBase.HighestBitZero | SIKE_vOW_hw-sw/ref_c/SIKE_vOW_software/src/sidh_vow_base.c:72-82 | GetMSBSIDH's result is 0 iff none of the low NBITS_STATE bits is set. |
| VowBase.GetMsbAsWritten | SIKE_vOW_hw-sw/ref_c/SIKE_vOW_software/src/sidh_vow_base.c:72-82 | The loop as written returns the highest set bit, and its last read is at byte index −1 exactly when that result is 0. |
| VowBase.GetMsb | SIKE_vOW_hw-sw/ref_c/SIKE_vOW_software/src/sidh_vow_base.c:72-82 | The guarded loop returns the 1-based position of the highest set bit among the low NBITS_STATE bits, or 0, and never reads outside the scalar. |
| VowBase.ReadFromMemory | SIKE_vOW_hw-sw/ref_c/SIKE_vOW_software/src/sidh_vow_base.c:87-90 | `read_from_memory` returns a copy of the triple at the address. |
| VowBase.WriteToMemory | SIKE_vOW_hw-sw/ref_c/SIKE_vOW_software/src/sidh_vow_base.c:92-95 | `write_to_memory` puts the triple in the addressed slot, so a later read there returns it, and no other slot changes. |
| VowBase.FixOverflow | SIKE_vOW_hw-sw/ref_c/SIKE_vOW_software/src/sidh_vow_base.c:97-100 | Only the top state byte changes, and it keeps its low NBITS_OVERFLOW bits; the digit is reduced mod 2^(8·(NBYTES_STATE−1)+NBITS_OVERFLOW). |
| VowBase.FixOverflowIdempotent | SIKE_vOW_hw-sw/ref_c/SIKE_vOW_software/src/sidh_vow_base.c:97-100 | Masking twice equals masking once. |
| SikeVow.Step | SIKE_vOW_hw-sw/ref_c/SIKE_vOW_software/src/sike_vow.c:154-178 | The next state of the random function always has NBYTES_STATE bytes. |
| SikeVow.StepIsMasked | SIKE_vOW_hw-sw/ref_c/SIKE_vOW_software/src/sike_vow.c:176-177 | The oracle's output state is already overflow-masked: `fix_overflow` leaves it alone, and its digit is below 2^StateBits. |
| SikeVow.StepOf | SIKE_vOW_hw-sw/ref_c/SIKE_vOW_software/src/sike_vow.c:154-178 | The random function of a version keeps the state length and agrees with Step on every state. |
| SikeVow.WalkAdd | SIKE_vOW_hw-sw/ref_c/SIKE_vOW_software/src/sike_vow.c:218-222 | Walking m steps and then n steps is walking m+n steps: catch-up followed by lockstep is one walk. |
| SikeVow.UpdateState | SIKE_vOW_hw-sw/ref_c/SIKE_vOW_software/src/sike_vow.c:154-178 | `UpdateStSIDH` returns the encoded j-invariant of the state and the next state of the version's random function, computed by the XOF and `fix_overflow`. |
| SikeVow.DistValue | SIKE_vOW_hw-sw/ref_c/SIKE_vOW_software/src/sike_vow.c:188-198 | The value compared with DIST_BOUND is (low 32 bits of the digit >> MEMORY_LOG_SIZE + function_version·DIST_BOUND) mod 2^(NBITS_STATE−MEMORY_LOG_SIZE), so below that power: the uint32_t wrap of `val +=` does not change it. It depends only on the state and the version. |
| SikeVow.FirstMatch | SIKE_vOW_hw-sw/ref_c/SIKE_vOW_software/src/sike_vow.c:227-247 | The first lockstep round at which the two walks have equal j-invariants: no earlier round matches, and that round does unless it is the bound. |
| SikeVow.FirstMatchIs | SIKE_vOW_hw-sw/ref_c/SIKE_vOW_software/src/sike_vow.c:227-247 | FirstMatch is the unique round i such that every earlier round differs and round i matches. |
| SikeVow.CatchUp | SIKE_vOW_hw-sw/ref_c/SIKE_vOW_software/src/sike_vow.c:210-222 | After the swap of initial states and the catch-up, both states keep the state length. |
| SikeVow.RobinHoodOutcome | SIKE_vOW_hw-sw/ref_c/SIKE_vOW_software/src/sike_vow.c:224-225 | Equal initial states after catch-up give the Robin Hood outcome: false, with no collision counted and only the catch-up steps added. |
| SikeVow.LockstepOutcome | SIKE_vOW_hw-sw/ref_c/SIKE_vOW_software/src/sike_vow.c:227-249 | Otherwise the first match within c1.current_steps+1 rounds decides. The result is false on equal sides and the golden test on different sides; two steps are counted per round walked; running out of rounds gives false. |
| SikeVow.BacktrackTrueIsGoldenCollision | SIKE_vOW_hw-sw/ref_c/SIKE_vOW_software/src/sike_vow.c:203-250 | A true result means a golden collision: two different states on different sides whose j-invariants match, the first such round, mapped to the same next state. |
| SikeVow.BacktrackNeverExhausted | SIKE_vOW_hw-sw/ref_c/SIKE_vOW_software/src/sike_vow.c:227-248 | When both triples are trails of the current random function ending at the same state, the lockstep loop always ends at a match, so the "should never reach here" return is unreachable. |
| SikeVow.BacktrackLeavesCollision | SIKE_vOW_hw-sw/ref_c/SIKE_vOW_software/src/sike_vow.c:227-244 | After a match the initial states left in c0 and c1 are the colliding pair: equal j-invariants, one common image, and the result is the side-and-golden test on them, as the source reads it off `c0->initial_state` and `c1->initial_state`. |
| SikeVow.BacktrackStaysOnLongerTrail | SIKE_vOW_hw-sw/ref_c/SIKE_vOW_software/src/sike_vow.c:209-246 | Whatever the outcome, the initial state left in c0 is the longer trail's start walked the catch-up steps plus at most c1.current_steps+1 lockstep rounds. |
| SikeVow.XofWordLow | SIKE_vOW_hw-sw/ref_c/SIKE_vOW_software/src/prng.c:52-88 | The first four XOF bytes, read as a uint32_t, are the low 32 bits of the first chained hash. |
| SikeVow.SampledState | SIKE_vOW_hw-sw/ref_c/SIKE_vOW_software/src/sike_vow.c:54-61 | A sampled starting state has NBYTES_STATE bytes. |
| SikeVow.SampledIsMasked | SIKE_vOW_hw-sw/ref_c/SIKE_vOW_software/src/sike_vow.c:54-61 | A sampled starting state is overflow-masked. |
| SikeVow.SharedState.InitStats | SIKE_vOW_hw-sw/ref_c/SIKE_vOW_software/src/sike_vow.c:12-25 | `init_stats` clears `success` and `collect_vow_stats` and zeroes every counter. |
| SikeVow.ThreadSeed | SIKE_vOW_hw-sw/ref_c/SIKE_vOW_software/src/sike_vow.c:47 | A thread's PRNG seed is the low 32 bits of XXH64 of the 4-byte instance seed, salted with thread_id + 1. |
| SikeVow.PrivateState.Init | SIKE_vOW_hw-sw/ref_c/SIKE_vOW_software/src/sike_vow.c:29-49 | `init_private_state`: thread 0, distance 0, version and random-function count 1, all counters 0, both step counts 0 (states untouched), the seed as in ThreadSeed, and the LCG initialised from it. |
| SikeVow.PrivateState.ResetCounters | SIKE_vOW_hw-sw/ref_c/SIKE_vOW_software/src/sike_vow.c:31-41 | The scalar fields of `init_private_state` take their initial values. |
| SikeVow.PrivateState.ResetTrips | SIKE_vOW_hw-sw/ref_c/SIKE_vOW_software/src/sike_vow.c:43-44 | Only the step counts of `current` and `trip` are zeroed. |
| SikeVow.PrivateState.Sample | SIKE_vOW_hw-sw/ref_c/SIKE_vOW_software/src/sike_vow.c:54-61 | `SampleSIDH`: the current triple becomes (0, s, s), with s the masked next NBYTES_STATE generator bytes; the generator advances NBYTES_STATE times. |
| SikeVow.PrivateState.Update | SIKE_vOW_hw-sw/ref_c/SIKE_vOW_software/src/sike_vow.c:180-186 | `UpdateSIDH` replaces the current state by its image under the current random function and adds 1 (mod 2^32) to `number_steps_collect`; nothing else changes. |
| SikeVow.PrivateState.Backtrack | SIKE_vOW_hw-sw/ref_c/SIKE_vOW_software/src/sike_vow.c:203-250 | `BacktrackSIDH` returns the backtracking result; `collisions` grows by 1 exactly on a match, and `number_steps_locate` by the catch-up and lockstep steps. It also returns the two triples with the initial states BacktrackSIDH leaves in them through its pointers (Backtracked). |
| SikeVow.BacktrackWalk | SIKE_vOW_hw-sw/ref_c/SIKE_vOW_software/src/sike_vow.c:203-250 | The body of `BacktrackSIDH` on values: the same result and counter updates, and the two triples as the swap, the catch-up and the lockstep copies leave them (only the initial states change). |
| SikeVow.CatchUpTrails | SIKE_vOW_hw-sw/ref_c/SIKE_vOW_software/src/sike_vow.c:210-222 | Only the initial states are swapped, never the step counts. The longer trail's start advances |Δsteps| steps, and the locating counter grows by |Δsteps|. |
| SikeVow.CatchUpWalk | SIKE_vOW_hw-sw/ref_c/SIKE_vOW_software/src/sike_vow.c:218-222 | The catch-up loop walks l steps and adds l (mod 2^32) to the locating counter. |
| SikeVow.LockstepRound | SIKE_vOW_hw-sw/ref_c/SIKE_vOW_software/src/sike_vow.c:227-246 | One lockstep round: both walks advance one step, the round matches iff the j-invariants are equal, and the counter grows by 2. |
| SikeVow.LockstepWalk | SIKE_vOW_hw-sw/ref_c/SIKE_vOW_software/src/sike_vow.c:227-249 | The lockstep loop returns the golden test at the first matching round, with one collision counted, or false without a match; it counts 2 steps per round walked. The states it leaves are the two walks at the matching round, or after every round when none matches. |
| Vow.AdvanceIsTrail | SIKE_vOW_hw-sw/ref_c/SIKE_vOW_software/src/vow.c:21-22 | One step of the current random function extends a trail by one step and keeps it a trail. |
| Vow.StepExtendsTrail | SIKE_vOW_hw-sw/ref_c/SIKE_vOW_software/src/vow.c:21-22 | Applying the random function to the current state and adding 1 to the step count keeps a triple a trail. |
| Vow.ResampleIsTrail | SIKE_vOW_hw-sw/ref_c/SIKE_vOW_software/src/sike_vow.c:54-61 | A freshly sampled triple is a trail of length 0 under every random function. |
| Vow.TableUpdate | SIKE_vOW_hw-sw/ref_c/SIKE_vOW_software/src/vow.c:54 | Storing a well-formed triple keeps every slot well formed. |
| Vow.CollectKeeps | SIKE_vOW_hw-sw/ref_c/SIKE_vOW_software/src/vow.c:25-56 | The distinguished-point block keeps the version and the table shape. `current_dist` grows by 1 only at a distinguished point and is unchanged otherwise. The table changes only at a distinguished point, at MemIndex, by receiving the current triple. |
| Vow.AtDistinguishedKeeps | SIKE_vOW_hw-sw/ref_c/SIKE_vOW_software/src/vow.c:29-55 | At a distinguished point `current_dist` grows by exactly 1, and the table is unchanged or receives the current triple at its slot. |
| Vow.RotateKeeps | SIKE_vOW_hw-sw/ref_c/SIKE_vOW_software/src/vow.c:59-72 | The MAX_DIST/MAX_STEPS checks leave a walking core unless they stop. The version changes only at MAX_DIST outside stats mode, and then by +1 with a fresh trail and `current_dist` 0. |
| Vow.IterationKeepsWalking | SIKE_vOW_hw-sw/ref_c/SIKE_vOW_software/src/vow.c:14-74 | When an iteration returns false: `current_steps` < MAX_STEPS, `current_dist` < MAX_DIST, version = random_functions, and the current state is the initial state walked `current_steps` times; the table stays well formed. |
| Vow.IterationStoresDistinguished | SIKE_vOW_hw-sw/ref_c/SIKE_vOW_software/src/vow.c:25-56 | An iteration changes at most one slot. That slot is the one of the distinguished state just reached, and it receives that trail of the current function, one step longer. |
| Vow.IterationRotates | SIKE_vOW_hw-sw/ref_c/SIKE_vOW_software/src/vow.c:59-67 | A new random function (version +1) starts only on the MAX_DIST-th distinguished point, outside stats mode, with `current_dist` and the steps at 0. |
| Vow.IterationSuccessIsGolden | SIKE_vOW_hw-sw/ref_c/SIKE_vOW_software/src/vow.c:42-51 | Success is newly set only outside stats mode, together with a stop, and only when a golden collision exists under the walked function, which stays the core's function version; this holds from any state-sized current triple, trail or not. |
| Vow.IterationKeepsShape | SIKE_vOW_hw-sw/ref_c/SIKE_vOW_software/src/vow.c:14-74 | From any state-sized current triple and table, an iteration leaves a state-sized current triple and a table of state-sized triples. |
| Vow.AtDistinguishedShape | SIKE_vOW_hw-sw/ref_c/SIKE_vOW_software/src/vow.c:29-55 | The distinguished-point block keeps the current triple and every slot state-sized. |
| Vow.RotateShape | SIKE_vOW_hw-sw/ref_c/SIKE_vOW_software/src/vow.c:59-72 | The MAX_DIST and MAX_STEPS checks keep the current triple state-sized and do not touch the table. |
| Vow.WalkLength | SIKE_vOW_hw-sw/ref_c/SIKE_vOW_software/src/sike_vow.c:218-247 | A walk keeps the state length. |
| Vow.StepWalk | SIKE_vOW_hw-sw/ref_c/SIKE_vOW_software/src/vow.c:21-22 | UpdateSIDH and `current_steps += 1`: the snapshot moves by exactly one Advance. |
| Vow.HandleDistinguished | SIKE_vOW_hw-sw/ref_c/SIKE_vOW_software/src/vow.c:25-56 | The distinguished-point block changes the core (including the `trip` that backtracking rewrites in place) and the table exactly as Collect says, and returns its stop and success. |
| Vow.VisitDistinguished | SIKE_vOW_hw-sw/ref_c/SIKE_vOW_software/src/vow.c:27-55 | Inside the block, the counters, the memory read into `trip`, the memory-versus-value collision test, backtracking with its in-place rewrite of `trip.initial_state`, the early success return and the store-and-resample all follow AtDistinguished. |
| Vow.Locate | SIKE_vOW_hw-sw/ref_c/SIKE_vOW_software/src/vow.c:42-43 | Backtracking the stored triple in `trip` against a copy of the current one yields the result and counter updates of BacktrackSIDH, and `trip` takes the initial state BacktrackSIDH leaves in it. |
| Vow.StoreAndRestart | SIKE_vOW_hw-sw/ref_c/SIKE_vOW_software/src/vow.c:54-55 | The triple goes to its slot and no other slot changes; the walk restarts at a sampled state. |
| Vow.ChangeFunction | SIKE_vOW_hw-sw/ref_c/SIKE_vOW_software/src/vow.c:59-73 | The MAX_DIST and MAX_STEPS checks change the core exactly as Rotate says. |
| Vow.OneIteration | SIKE_vOW_hw-sw/ref_c/SIKE_vOW_software/src/vow.c:14-74 | `vOW_one_iteration` changes the core (every field it touches, `trip` included) and the table exactly as Iteration says, and returns its stop and success. |
| Vow.InitLeavesStaleTrail | SIKE_vOW_hw-sw/ref_c/SIKE_vOW_software/src/sike_vow.c:29-49 | `init_private_state` zeroes the step counts of `current` and `trip` and keeps their states; when the two states of `current` differ, the core it leaves is no trail of any random function, so not walking. |
| Vow.StartWalk | SIKE_vOW_hw-sw/ref_c/SIKE_vOW_software/src/sike_vow.c:29-61 | `init_private_state` then `SampleSIDH` gives a walking core: version 1, counters 0, and a trail (0, s, s) from the seeded generator. |
| Vow.Search | SIKE_vOW_hw-sw/ref_c/SIKE_vOW_software/src/vow.c:99-110 | The `while` loop of `vOW` leaves the core, the table and `success` exactly as `Loop` says with body `Next`, from the core and table it started from and `success` = false. `Loop` halts before iteration i when random_functions > MAX_FUNCTION_VERSIONS, success is set, Ctrl+C was seen, or the fuel is spent; otherwise it runs `vOW_one_iteration` once and is left when that returns true. |
| Vow.NextIsIteration | SIKE_vOW_hw-sw/ref_c/SIKE_vOW_software/src/vow.c:14-74 | On a state-sized core and table the loop's body is exactly `vOW_one_iteration` (Iteration), and it leaves them state-sized. |
| Vow.LoopBounds | SIKE_vOW_hw-sw/ref_c/SIKE_vOW_software/src/vow.c:99-110 | Started at iteration i ≤ fuel, the loop ends after an iteration count between i and fuel. |
| Vow.LoopEnds | SIKE_vOW_hw-sw/ref_c/SIKE_vOW_software/src/vow.c:99-110 | The loop exits only through its guard or a break: either the last iteration returned true, or at the iteration reached random_functions > MAX_FUNCTION_VERSIONS, success is set, Ctrl+C was seen, or the fuel is spent. |
| Vow.LoopKeepsShape | SIKE_vOW_hw-sw/ref_c/SIKE_vOW_software/src/vow.c:99-110 | From a state-sized current triple and table, the loop leaves a state-sized current triple and table. |
| Vow.LoopSuccessIsGolden | SIKE_vOW_hw-sw/ref_c/SIKE_vOW_software/src/vow.c:99-110 | Started without success, the loop ends with success only outside stats mode, after an iteration that returned true, and with a golden collision under the function version the core ends with. |
| Vow.LoopKeepsWalking | SIKE_vOW_hw-sw/ref_c/SIKE_vOW_software/src/vow.c:99-110 | Started from a walking core, the loop leaves a walking core unless an iteration returned true. |
| Vow.Publish | SIKE_vOW_hw-sw/ref_c/SIKE_vOW_software/src/vow.c:113-124 | Each private counter is added (mod 2^32) to its shared counter; `number_steps` becomes collect + locate; the random-function count is added to the average; `S->success` is the result. |
| Vow.VowAsWritten | SIKE_vOW_hw-sw/ref_c/SIKE_vOW_software/src/vow.c:86-127 | `vOW` as written: `init_private_state`, then the loop from the core `init_private_state` leaves (step counts zeroed, states whatever the storage held). The final core and table are those of `Loop` from that core; success equals `S->success` and means a golden collision under the final function version, outside stats mode; the table stays well formed; the statistics are increased by the core's counters. |
| Vow.Vow | SIKE_vOW_hw-sw/ref_c/SIKE_vOW_software/src/vow.c:86-127 | The corrected `vOW`, which samples a starting point before the first iteration: the loop starts from a walking core (version 1, counters 0, trail (0, s, s) at the sampled s), and the final core and table are those of `Loop` from it. Success equals `S->success` and means a golden collision under the final function version, outside stats mode; the table stays well formed; the statistics are increased by the core's counters. |
| Prng.LcgIterFront | SIKE_vOW_hw-sw/ref_c/SIKE_vOW_software/src/prng.c:43-46 | n+1 LCG updates are one update followed by n. |
| Prng.LcgByteBits | SIKE_vOW_hw-sw/ref_c/SIKE_vOW_software/src/prng.c:45 | With rand_max = 32768, an output byte is bits 16..23 of the updated state. |
| Prng.LcgBytes | SIKE_vOW_hw-sw/ref_c/SIKE_vOW_software/src/prng.c:43-46 | The LCG output has exactly nbytes bytes. |
| Prng.LcgBytesAt | SIKE_vOW_hw-sw/ref_c/SIKE_vOW_software/src/prng.c:43-46 | The buffer is filled from the highest index down: byte i comes from the (nbytes−i)-th update. |
| Prng.LcgPrng.Init | SIKE_vOW_hw-sw/ref_c/SIKE_vOW_software/src/prng.c:18-22 | The LCG `init_prng` sets A = 1103515245, B = 12345, rand_max = 32768 and sampled = seed. |
| Prng.LcgPrng.Sample | SIKE_vOW_hw-sw/ref_c/SIKE_vOW_software/src/prng.c:43-46 | The LCG `sample_prng` writes exactly buffer[0..nbytes) with the LCG bytes and advances the state nbytes times; bytes past nbytes are untouched, and equal states give equal output. |
| Prng.AesBlocksCount | SIKE_vOW_hw-sw/ref_c/SIKE_vOW_software/src/prng.c:33-40 | The AES `sample_prng` uses max(1, ⌈nbytes/16⌉) counter blocks. |
| Prng.CtrStreamAt | SIKE_vOW_hw-sw/ref_c/SIKE_vOW_software/src/prng.c:31-41 | Output byte i is byte i mod 16 of the encryption of counter count+⌊i/16⌋+1. |
| Prng.AesPrng.Init | SIKE_vOW_hw-sw/ref_c/SIKE_vOW_software/src/prng.c:11-16 | The AES `init_prng`: count 0; key bytes 0..3 are the little-endian bytes of the 32-bit seed, the others zero. |
| Prng.AesPrng.Sample | SIKE_vOW_hw-sw/ref_c/SIKE_vOW_software/src/prng.c:31-41 | The AES `sample_prng`: count grows by max(1, ⌈nbytes/16⌉); exactly nbytes bytes of the counter-mode stream are written. |
| Prng.XofBytesAt | SIKE_vOW_hw-sw/ref_c/SIKE_vOW_software/src/prng.c:52-88 | XOF byte i is byte i mod 8 of the (⌊i/8⌋+1)-th chained hash, where the chain starts at the salt and each link is XXH64(input, previous). |
| Prng.XofChainShift | SIKE_vOW_hw-sw/ref_c/SIKE_vOW_software/src/prng.c:52-88 | The chain after one link is the chain salted with that link. |
| Prng.XofBytesPrefix | SIKE_vOW_hw-sw/ref_c/SIKE_vOW_software/src/prng.c:52-88 | A shorter XOF output is a prefix of a longer one. |
| Prng.Xof | SIKE_vOW_hw-sw/ref_c/SIKE_vOW_software/src/prng.c:50-88 | `XOF` writes exactly nbytes_output bytes, equal to the chained-hash layout, and nothing past them. |
| Random.BeInc | SIKE_vOW_hw-sw/ref_c/random/random.c:20-27 | Incrementing V adds 1 to it as a big-endian integer modulo 2^128. |
| Random.BeIncN | SIKE_vOW_hw-sw/ref_c/random/random.c:50-59 | k increments add k modulo 2^128. |
| Random.IncAt | SIKE_vOW_hw-sw/ref_c/random/random.c:20-27 | Trailing 0xff bytes become 0x00 and the first other byte from the right is incremented; bytes before it are unchanged. |
| Random.IncAllOnes | SIKE_vOW_hw-sw/ref_c/random/random.c:20-27 | An all-0xff counter wraps to all zeros. |
| Random.IncrementCounter | SIKE_vOW_hw-sw/ref_c/random/random.c:20-27 | The in-place byte loop computes the increment. |
| Random.UpdateBlocks | SIKE_vOW_hw-sw/ref_c/random/random.c:18-30 | The update step increments V three times and fills temp with the encryptions of V+1, V+2 and V+3. |
| Random.XorInto | SIKE_vOW_hw-sw/ref_c/random/random.c:31-33 | The provided data is XORed into all 48 bytes of temp. |
| Random.CtrDrbgUpdate | SIKE_vOW_hw-sw/ref_c/random/random.c:12-37 | `AES256_CTR_DRBG_Update`: Key becomes temp[0..32) and V becomes temp[32..48), with the provided data XORed in when present. |
| Random.DrbgStreamAt | SIKE_vOW_hw-sw/ref_c/random/random.c:50-70 | Output byte j is byte j mod 16 of the encryption of V+⌊j/16⌋+1. |
| Random.Drbg.GenerateBlocks | SIKE_vOW_hw-sw/ref_c/random/random.c:50-70 | The block loop writes exactly xlen bytes of the stream, in 16-byte blocks with a truncated last block, and leaves V incremented ⌈xlen/16⌉ times. |
| Random.Drbg.RandomBytes | SIKE_vOW_hw-sw/ref_c/random/random.c:45-73 | `randombytes` writes xlen bytes of the stream and then applies the update with no provided data to the advanced V; `reseed_counter` grows by 1. |
| P697.P697Value | SIKE_sw/src/P697/P697.c:25-29 | The words of `p697` are 2^356·3^215 − 1. |
| P697.MultiplesValue | SIKE_sw/src/P697/P697.c:32-35 | `p697x2` = 2p and `p697x4` = 4p, and 4p < 2^704. |
| P697.SuccessorValue | SIKE_sw/src/P697/P697.c:30-31 | `p697p1` = p + 1, a multiple of 2^356 whose five low words are zero. |
| P697.MontgomeryOneValue | SIKE_sw/src/P697/P697.c:69-71 | `Montgomery_one` = 2^704 mod p. |
| P697.MontgomeryR2Value | SIKE_sw/src/P697/P697.c:66-68 | `Montgomery_R2` = (2^704)^2 mod p. |
| FpX64.AddChain | SIKE_sw/src/P697/AMD64/fp_x64.c:74-76 | The ADDC loop yields the sum with a final carry of 0 or 1. |
| FpX64.SubChain | SIKE_sw/src/P697/AMD64/fp_x64.c:106-108 | The SUBC loop yields the difference with a final borrow of 0 or 1. |
| FpX64.MpSubP2 | SIKE_sw/src/P697/AMD64/fp_x64.c:21-40 | `mp_sub697_p2` computes (a − b + 2p) mod 2^704. |
| FpX64.MpSubP4 | SIKE_sw/src/P697/AMD64/fp_x64.c:43-62 | `mp_sub697_p4` computes (a − b + 4p) mod 2^704. |
| FpX64.SubP2Lazy | SIKE_sw/src/P697/AMD64/fp_x64.c:21-40 | For a, b < 2p the result is a − b + 2p, in (0, 4p), congruent to a − b. |
| FpX64.SubP4Lazy | SIKE_sw/src/P697/AMD64/fp_x64.c:43-62 | For a, b < 4p the result is a − b + 4p, in (0, 8p), congruent to a − b. |
| FpX64.FpAdd | SIKE_sw/src/P697/AMD64/fp_x64.c:65-94 | For any inputs the words end up holding the 704-bit wrapped sum a + b, minus 2p unless that would go below zero (the value function FpAddLazy reads in the lazy range). |
| FpX64.Minus2PMasked | SIKE_sw/src/P697/AMD64/fp_x64.c:78-87 | Subtracting 2p and adding it back under the borrow mask leaves c if c < 2p and c − 2p otherwise. |
| FpX64.FpAddLazy | SIKE_sw/src/P697/AMD64/fp_x64.c:65-69 | For a, b < 2p: a + b or a + b − 2p, below 2p, congruent to a + b mod p. |
| FpX64.FpSub | SIKE_sw/src/P697/AMD64/fp_x64.c:97-121 | For any inputs the words end up holding a − b when a ≥ b, and a − b + 2p wrapped to 704 bits otherwise. |
| FpX64.FpSubLazy | SIKE_sw/src/P697/AMD64/fp_x64.c:97-101 | For a, b < 2p: a − b if a ≥ b, else a − b + 2p; below 2p and congruent to a − b. |
| FpX64.FpNeg | SIKE_sw/src/P697/AMD64/fp_x64.c:124-132 | For any input the words end up holding 2p − a wrapped to 704 bits, in place. |
| FpX64.FpNegLazy | SIKE_sw/src/P697/AMD64/fp_x64.c:124-132 | For a ≤ 2p the result is 2p − a, a negative of a mod p, in [1, 2p] for a < 2p, and exactly 2p for a = 0. |
| FpX64.FpDiv2 | SIKE_sw/src/P697/AMD64/fp_x64.c:135-148 | For any input the words end up holding (a, plus p when a is odd, wrapped to 704 bits) halved. |
| FpX64.FpDiv2Lazy | SIKE_sw/src/P697/AMD64/fp_x64.c:135-138 | Twice the result is a, or a + p when a is odd; so it is congruent to a and, for a < 2p, below 2p. |
| FpX64.HalveWordsValue | SIKE_sw/src/P697/AMD64/fp_x64.c:147 | The word-wise right shift by one halves the value (the low bit is dropped). |
| FpX64.ShiftRight1 | SIKE_sw/src/P697/AMD64/fp_x64.c:147 | `mp_shiftr1` in place: the words become the halved words, and the value is halved. |
| FpX64.FpCorrection | SIKE_sw/src/P697/AMD64/fp_x64.c:151-165 | For any input the words end up holding a − p when a ≥ p, and a otherwise, in place. |
| FpX64.FpCorrectionLazy | SIKE_sw/src/P697/AMD64/fp_x64.c:151-152 | For a < 2p the result is a mod p, the unique value in [0, p) congruent to a. |
| FpX64.FpAddAssociative | SIKE_sw/tests/arith_tests-p697.c:48-52 | After correction, (a+b)+c = a+(b+c). |
| FpX64.FpAddCommutative | SIKE_sw/tests/arith_tests-p697.c:54-58 | a+b = b+a, before and after correction. |
| FpX64.FpAddZero | SIKE_sw/tests/arith_tests-p697.c:60-62 | a+0 = a without correction. |
| FpX64.FpAddNegation | SIKE_sw/tests/arith_tests-p697.c:64-69 | After correction, a+(−a) = 0. |
| FpX64.FpSubTestLaws | SIKE_sw/tests/arith_tests-p697.c:81-102 | After correction (a−b)−c = a−(b+c) and a−a = 0; a−0 = a without correction. |
| FpX64.FpSubNegLaw | SIKE_sw/tests/arith_tests-p697.c:87-92 | After correction, a−b = −(b−a) whenever a ≠ b. |
| FpX64.FpSubNegLawFailsOnEqualInputs | SIKE_sw/tests/arith_tests-p697.c:87-92 | With a = b, a−b corrects to 0 but −(b−a) = 2p corrects to p. |
| FpX64.FpNegReduced | SIKE_sw/src/P697/AMD64/fp_x64.c:124-132 | Negation followed by the masked subtraction of 2p computes the reduced negation. |
| FpX64.FpNegReducedLazy | SIKE_sw/src/P697/AMD64/fp_x64.c:124-126 | The reduced negation stays in [0, 2p) and is a negative of a mod p, and a−b = −(b−a) after correction for all a, b < 2p. |
| TestExtras.TopDigitDecides | SIKE_vOW_hw-sw/ref_c_riscv/SIKE_cryptanalysis/tests/test_extras.c:78-82 | The highest differing word decides the order of the values. |
| TestExtras.CompareWords | SIKE_vOW_hw-sw/ref_c_riscv/SIKE_cryptanalysis/tests/test_extras.c:73-85 | `compare_words` returns 1, 0 or −1 exactly as a >, = or < b as little-endian values. |
| TestExtras.SubTestDigitIsSubC | SIKE_vOW_hw-sw/ref_c_riscv/SIKE_cryptanalysis/tests/test_extras.c:96-99 | The carry/res/borrow step of `sub_test` is a subtract-with-borrow. |
| TestExtras.SubTest | SIKE_vOW_hw-sw/ref_c_riscv/SIKE_cryptanalysis/tests/test_extras.c:88-101 | `sub_test` writes (a − b) mod 2^(64·nwords), which is a − b when a ≥ b; other words are untouched, and c may be a itself. |
| TestExtras.SubTestChain | SIKE_vOW_hw-sw/ref_c_riscv/SIKE_cryptanalysis/tests/test_extras.c:94-100 | The loop yields the difference with a final borrow of 0 or 1. |
| TestExtras.ValWordsOfBytes | SIKE_vOW_hw-sw/ref_c_riscv/SIKE_cryptanalysis/tests/test_extras.c:220-223 | Bytes written through a byte pointer into the words read back as the same little-endian number. |
| TestExtras.FillFromBytes | SIKE_vOW_hw-sw/ref_c_riscv/SIKE_cryptanalysis/tests/test_extras.c:220-223 | The byte fill sets exactly the field's words to the little-endian words of the bytes. |
| TestExtras.MaskTopValue | SIKE_vOW_hw-sw/ref_c_riscv/SIKE_cryptanalysis/tests/test_extras.c:224 | Masking the top word to its low k bits reduces the value mod 2^(64·(n−1)+k). |
| TestExtras.MaskTopWord | SIKE_vOW_hw-sw/ref_c_riscv/SIKE_cryptanalysis/tests/test_extras.c:224 | `a[nwords-1] &= mask` reduces the element mod 2^697 and changes only that word. |
| TestExtras.ReduceBelow | SIKE_vOW_hw-sw/ref_c_riscv/SIKE_cryptanalysis/tests/test_extras.c:226-228 | Repeated `sub_test` while p ≤ a ends with a mod p; it terminates because a decreases each round. |
| TestExtras.Load697 | SIKE_vOW_hw-sw/ref_c_riscv/SIKE_cryptanalysis/tests/test_extras.c:220-224 | The fill and mask give the random bytes mod 2^697. |
| TestExtras.FpRandom697 | SIKE_vOW_hw-sw/ref_c_riscv/SIKE_cryptanalysis/tests/test_extras.c:214-229 | `fprandom697_test` yields (bytes mod 2^697) mod p697, which is below p697; only the 11 words are written. |
| TestExtras.Fp2Random697 | SIKE_vOW_hw-sw/ref_c_riscv/SIKE_cryptanalysis/tests/test_extras.c:304-310 | `fp2random697_test` fills two consecutive field elements, each below p697. |
| TestExtras.P128Value | SIKE_vOW_hw-sw/ref_c_riscv/SIKE_cryptanalysis/tests/test_extras.c:19-24 | The two small primes are 2^32·3^20·23 − 1 (69 bits) and 2^36·3^22·31 − 1 (76 bits). |
| TestExtras.FpRandom128 | SIKE_vOW_hw-sw/ref_c_riscv/SIKE_cryptanalysis/tests/test_extras.c:104-121 | `fprandom128_test` yields (bytes mod 2^NBITS_FIELD128) mod p128, below p128. |

## Left out

- Isogeny arithmetic (`GetIsogeny`, `LadderThreePtSIDH`, `fp2_encode`, `fp2_decode`, `fp2_is_equal`) is not part of this model. It is the oracle `jinv` (state to encoded j-invariant) and `golden` (decoded j-invariant equals `insts_constants.jinv`).
- XXH64, AES-128 and the AES-256 block function are uninterpreted parameters. The AES key schedule is kept as the 16-byte key it is loaded from.
- The AES-CBC branch of `XOF` (prng.c:90-122) is not modelled. It is cipher calls under length assumptions.
- `mp_mul` and `rdc_mont` (fp_x64.c:168-802) are not modelled: unrolled multiplication and a Montgomery reduction built on macros that are not shown. The `OS_LINUX` assembly branches are not modelled either.
- `ADDC`, `SUBC` and `mp_shiftr1` are not shown in the source. They are modelled by their arithmetic meaning.
- A state is the NBYTES_STATE bytes that are ever written. The generator and the XOF never write the surplus bytes of the 64-bit digit, and `copy_st` and `write_to_memory` copy whole digits, so every triple written to the table during a run carries the surplus bytes of the private state's `current` digit. The model leaves the surplus bytes out and compares states as byte strings: it assumes that every slot's surplus bytes equal the private state's. A slot never written during the run holds arbitrary surplus bytes (neither `init_stats` nor anything else initialises the table). If such a slot's low NBYTES_STATE bytes equal the current state but its surplus bytes differ, `is_equal_st` (sidh_vow_base.c:38-45) fails and the source counts a memory collision, while the model backtracks.
- `copy_st`, `copy_trip` and `SwapStSIDH` are value assignments of the `Trip` datatype and of `seq<byte>` states. The model does not capture aliasing between the triples.
- The table is a fixed `array<Trip>`. Its contents before the run are arbitrary well-formed triples, because the source does not initialise them.
- `wall_time` and `total_time` are left out (floating point and clocks). `final_avg_random_functions` is an unbounded `nat` sum rather than a `double`.
- Ctrl+C (`sigintHandler`, `ctrl_c_pressed`) is the input `interrupted(i)`, the flag as seen before iteration i. `printf` is left out.
- Vow.Vow: the corrected driver samples a starting point before the first iteration, which `vOW` (vow.c:92-99) does not do, so its walks and generator outputs differ from the source's from the first step on; Vow.VowAsWritten is the driver as written (third row under "## Findings").
- Vow.VowAsWritten: the private state's storage is a parameter whose states have the state length; the model does not say which bytes an uninitialised stack local holds.
- Vow.Locate: BacktrackSIDH also rewrites the initial state of the temporary triple `t` of `vOW`; the model drops that triple, because `copy_trip` overwrites it before every use.
- Vow.Next: on a core or table that is not state-sized the body stops the loop; the source has no such case, and LoopKeepsShape shows no run of the loop reaches it.
- Vow.Search: the source loop need not terminate. The model runs at most `fuel` iterations, and a run that uses up its fuel ends like an interrupted one.
- SikeVow.PrivateState.Init: `thread_id` is always 0, as in the one-core source. `iterations` is never written by the source and is left unchanged.
- SikeVow.ThreadSeed: states the seed as the hash value only; the byte layout of the XOF it goes through is stated by Prng.Xof.
- Prng.LcgPrng.Sample: `prng.h` is not part of this model, so the widths of the LCG fields are assumed. `sampled` is a 64-bit value whose update wraps mod 2^64; the output bytes depend only on its low 24 bits.
- Which generator branch (LCG or AES, `USE_AES_PRNG`) a build uses is a compile-time choice. The engine is modelled with the LCG, as in the default build.
- Random.Drbg.RandomBytes: `reseed_counter` is an unbounded `nat`, so its wrap-around at the C integer width is not modelled.
- Prng.AesPrng.Sample: requires that `count` does not pass 2^64, as the source comment assumes.
- TestExtras.FpRandom128: requires one of the two primes to be chosen. With neither `p_32_20` nor `p_36_22` defined, `nwords` is 0, the code indexes `a[-1]`, and the reduction loop never ends; that configuration is not modelled.
- The other `fprandom*_test` and `fp2random*_test` variants (p377 to p751) are the same code with other constants. Only p697 and p128 are modelled.
- `rand()` is replaced by the input byte string it would produce.
- Vow.Search: `random_functions` is a `uint32_t`. With MAX_FUNCTION_VERSIONS = 2^32 − 1 it would wrap and the loop would continue; the model wraps it (`Add32`) and proves nothing about that case beyond the invariants.

## Findings

| source | as written | input that shows it | evidently intended | confidence | as-written member | corrected member |
|---|---|---|---|---|---|---|
| SIKE_sw/src/P697/AMD64/fp_x64.c:124-132 | `fpneg697` computes 2p − a, which is 2p for a = 0. That is outside the [0, 2p−1] range its comment promises, and the test law a−b = −(b−a) (arith_tests-p697.c:87-92) then fails after correction | a = b (any a < 2p): a−b corrects to 0, −(b−a) = 2p corrects to p | a result in [0, 2p), e.g. 2p − a followed by a masked subtraction of 2p | not executed; the failing input is proved | FpX64.FpSubNegLawFailsOnEqualInputs | FpX64.FpNegReducedLazy |
| SIKE_vOW_hw-sw/ref_c/SIKE_vOW_software/src/sidh_vow_base.c:77-79 | When the low NBITS_STATE bits are all zero, the last loop pass reads `m[(0 - 1) >> 3]`, the byte before the scalar | m = all-zero bytes | stop reading once msb reaches 0, returning 0 | not executed; the out-of-range index is proved | VowBase.GetMsbAsWritten | VowBase.GetMsb |
| SIKE_vOW_hw-sw/ref_c/SIKE_vOW_software/src/sike_vow.c:43-44 | `init_private_state` zeroes only the step counts `current.current_steps` and `trip.current_steps`, and `vOW` (vow.c:92-107, modelled by Vow.VowAsWritten) starts iterating without sampling, so the first walk starts from whatever bytes `current` held | a `current` triple whose current and initial states differ | sample a starting point (`SampleSIDH`) before the first iteration | not executed; the uninitialised local is read in the C code | Vow.InitLeavesStaleTrail | Vow.StartWalk |
