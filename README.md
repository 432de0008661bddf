# N-body lab: a verified model of its sequential core

The repository simulates N point masses under gravity with an explicit
Euler step (DT = 0.05). It does so in three programs:

- `code/orig_serial.c`, a single-threaded integrator. It has no floor on
  the divisor. After every step it exchanges the velocities of bodies that
  landed on the same position.
- `naive_parallel.c`, a threaded integrator. Every worker computes the full
  direct sum for its own bodies, with the divisor max(d³, ε).
- `memory_hell.c`, a threaded integrator that computes each pairwise force
  once. The body with the smaller index computes it and stores it in an
  N×N force cache. The body with the larger index reads it back negated.
  A per-pair counting semaphore gates that read when the two bodies
  belong to different workers. Its divisor is max(d, ε)³.

This project models the integer, array and real-number logic of those
three programs, with Dafny `real` in place of `double`. The Euclidean
distance is a parameter `dist(a, b)`. Where a proof needs it, `dist` is
required to be symmetric. This replaces `sqrt` and `pow`.

The modules are:

- `Vectors`: the vector helpers.
- `Gravity`: the three divisor modes and a snapshot of the bodies. Also
  the reference definitions: the pull of one body on another, the direct
  sum, the Euler update of a range, one step and a run of steps.
- `Partition`: `localBodies`, the rank ranges, `getRank` as written, the
  corrected owner of a body, and the post and wait conditions of the
  force cache's gates.
- `Euler`: `computePositions` and `computeVelocities` as in-place array
  loops over a range, and the same update over every rank in order.
- `DirectSum`: the direct-sum `computeAccelerations` that the naive and
  serial programs share, as an in-place loop over a range.
- `ForceCache`: the slot arithmetic and the invariant the force cache and
  its gates keep. The invariant describes the cache after each pair visit
  of the ascending-order pass, with one lemma per kind of visit.
- `MemoryHell`: `memory_hell.c` as a class over its global arrays, with
  the semaphores as an integer array.
- `NaiveParallel`: `naive_parallel.c` as a class.
- `Collisions`: `resolveCollisions` as a specification, with its
  properties.
- `Serial`: `code/orig_serial.c` as a class.

The threaded programs run one schedule here. Each phase of a step
(accelerations, then positions, then velocities) runs for every rank in
rank order before the next phase starts. Under that schedule every gate
wait finds its post, and every gate is back at zero after the step.
Every cached force is written before it is read. The accelerations
equal the direct sum with the program's divisor. The state after a step
equals the reference step.

The three programs' divisors differ. They agree when no clamp fires
(`Gravity.AccelAgree`, `Gravity.EvolveAgree`). The two parallel programs
are therefore equal only under that condition, which is weaker than
"identical trajectories". The model follows the code here.

A second difference from the design is the gate condition. The design
describes the gate as used exactly when the owners of the two bodies
differ. The code instead posts and waits when `getRank` of the smaller
index is below `getRank` of the larger. `getRank` is wrong on part of the
last worker's range (see Findings). The model keeps the code's condition
and proves that it still gates every pair whose owners differ
(`Partition.CrossOwnerPairsGated`). It also proves that the posts and waits
match (`Partition.PostsMatchWaits`).

## Model

| member | source | states |
|---|---|---|
| Vectors.Add | memory_hell.c:23-28 | a definition with no contract: componentwise sum; its uses are stated by Euler.AdvanceRange and DirectSum.AccumulateBody |
| Vectors.Scale | memory_hell.c:30-35 | a definition with no contract: both components times the factor; ForceCache.ReuseSideContribution and Gravity.ThirdLaw carry the properties the kernel needs (scaling by −1 negates, scaling by 1/m_i undoes m_i) |
| Vectors.Sub | memory_hell.c:37-42 | a definition with no contract: componentwise difference; ForceCache.SharedForceAntisymmetric uses that swapping the operands negates it |
| Gravity.Denominator | memory_hell.c:121-123 | a definition with no contract: max(d, ε)³, max(d³, ε) or d³ by mode; its properties are Gravity.DenominatorPositive, Gravity.DenominatorWhenFar and Gravity.ClampedSeparated |
| Gravity.DenominatorPositive | naive_parallel.c:84-85 | with either clamp the divisor is positive; with the cube clamp it is at least ε and at least d³; with the distance clamp it is at least ε³ |
| Gravity.DenominatorWhenFar | naive_parallel.c:84-85 | when d ≥ ε and d³ ≥ ε, neither clamp fires and the divisor is d³ |
| Gravity.ClampedSeparated | memory_hell.c:121-122 | with either clamp, no pair of bodies has a zero divisor, whatever the positions |
| Gravity.AccelIgnoresOwnMass | naive_parallel.c:86 | the acceleration of body i does not depend on the mass of body i |
| Gravity.ThirdLaw | memory_hell.c:117 | for a symmetric distance, m_i times the pull of j on i is the negation of m_j times the pull of i on j |
| Gravity.AccelAgree | naive_parallel.c:84-86 | when no clamp fires, the accelerations of the three programs are equal |
| Gravity.EvolveAgree | memory_hell.c:171-176 | when no clamp fires at any step of a run, the memory_hell and naive runs reach the same positions and velocities |
| Gravity.Snapshot | memory_hell.c:121-123 | the bodies the kernel reads are well formed exactly when there is one mass per position, and with a clamping divisor no pair has a zero divisor |
| Gravity.StepSpec | memory_hell.c:174-176 | a definition with no contract: the reference step, positions moved with the old velocities and velocities with the new accelerations; MemoryHell.Simulation.Step, NaiveParallel.Simulation.Step and Serial.SerialStep are proved equal to it |
| Gravity.AdvanceSplit | memory_hell.c:145-146 | updating [a, b) and then [b, c) is the update of [a, c) |
| Gravity.AdvanceEmpty | memory_hell.c:145 | an empty range changes nothing |
| Partition.LocalBodies | memory_hell.c:55-56 | the share is at least 1; when T ≤ N it is the largest L with L·T ≤ N; when T > N it is 1 |
| Partition.RankRange | memory_hell.c:165-168 | every rank's range lies inside [0, N) and is half-open, and first ≥ last means empty |
| Partition.Owner | memory_hell.c:165-168 | every body lies in the range of some rank below T (the ranges cover [0, N)) |
| Partition.OwnerUnique | memory_hell.c:165-168 | a body lies in exactly one rank's range (the ranges are disjoint) |
| Partition.OwnerMonotone | memory_hell.c:165-168 | a higher body index never has a lower owner |
| Partition.RangeChain | memory_hell.c:165-168 | the ranges follow one another in rank order from 0, and the last one ends at N |
| Partition.GetRank | memory_hell.c:92-98 | a definition with no contract: body / localBodies, with a quotient equal to T moved to T−1; its properties are Partition.GetRankMonotone, Partition.GetRankVersusOwner, Partition.GetRankExactOnLastRange and Partition.GetRankCounterexample |
| Partition.GetRankMonotone | memory_hell.c:92-98 | getRank never decreases as the body index grows |
| Partition.GetRankVersusOwner | memory_hell.c:92-98 | getRank is the owner for bodies of ranks below T−1, and at least T−1 for the last rank's bodies |
| Partition.GetRankExactOnLastRange | memory_hell.c:95-96 | getRank is T−1 on all of the last rank's bodies if and only if T > N or N mod T ≤ N / T |
| Partition.GetRankCounterexample | memory_hell.c:95-96 | for N = 11 and T = 4, body 10 belongs to rank 3 but getRank returns 5 |
| Partition.Posts | memory_hell.c:125 | a definition with no contract: for i < j, post when getRank(i) < getRank(j); Partition.PostsMatchWaits and Partition.CrossOwnerPairsGated carry its properties |
| Partition.Waits | memory_hell.c:116 | a definition with no contract: for i > j, wait when getRank(i) > getRank(j); Partition.PostsMatchWaits and Partition.WaitsOnLowerRanks carry its properties |
| Partition.PostsMatchWaits | memory_hell.c:116-125 | for j < i, the compute side posts slot (j, i) exactly when the reuse side waits on it |
| Partition.CrossOwnerPairsGated | memory_hell.c:116-125 | every pair whose two bodies have different owners is posted and waited on |
| Partition.WaitsOnLowerRanks | memory_hell.c:116 | a body only waits on a body whose owner is not above its own |
| Euler.AdvanceRange | memory_hell.c:133-147 | computeVelocities and computePositions add DT times the rate to the entries in [first, last) and change no other entry |
| Euler.AdvanceByRanks | memory_hell.c:165-176 | running the update over every rank's range in rank order updates every body exactly once |
| DirectSum.ComputeAccelerations | naive_parallel.c:71-90 | the bodies of [first, last) get the direct sum of the pulls of all other bodies, and no other acceleration changes |
| DirectSum.AccumulateBody | naive_parallel.c:78-88 | the acceleration of body i is reset and then gets one pull per j ≠ i; no other entry changes |
| ForceCache.Slot | memory_hell.c:124 | the index row·N + col of a pair is inside the N·N cache |
| ForceCache.SlotInjective | memory_hell.c:117-124 | two different pairs never share a slot |
| ForceCache.SlotCovers | memory_hell.c:59-60 | every slot of the N·N cache is the slot of the pair (slot / N, slot mod N) |
| ForceCache.SharedForce | memory_hell.c:123 | a definition with no contract: G m_i m_j (p_j − p_i) / divisor; ForceCache.SharedForceAntisymmetric, ForceCache.ComputeSideContribution and ForceCache.ReuseSideContribution carry its properties |
| ForceCache.SharedForceAntisymmetric | memory_hell.c:117 | for a symmetric distance, the force stored for (j, i) is the negation of the one for (i, j) |
| ForceCache.ComputeSideContribution | memory_hell.c:123-128 | the stored force divided by m_i is the pull of j on i |
| ForceCache.ReuseSideContribution | memory_hell.c:117-128 | the negated force read from slot (j, i), divided by m_i, is the pull of j on i |
| ForceCache.CacheStart | memory_hell.c:208-214 | with every gate at zero, the cache invariant holds before the first pair |
| ForceCache.CacheEnd | memory_hell.c:106-131 | after the last body's pass every gate is back at zero, so the posts and waits balance |
| ForceCache.SelfStep | memory_hell.c:113 | skipping the pair (i, i) keeps the invariant |
| ForceCache.ReuseStep | memory_hell.c:114-118 | when body k reaches a lower column j, slot (j, k) already holds the shared force, and its gate is 1 exactly when k must wait; taking it keeps the invariant |
| ForceCache.ComputeStep | memory_hell.c:119-126 | when body k reaches a higher column j, slot (k, j) is not yet posted; storing the force and posting under the code's condition keeps the invariant |
| ForceCache.RowDone | memory_hell.c:106-110 | after column N−1 the pass moves on to the next body with the invariant intact |
| MemoryHell.Simulation.constructor | memory_hell.c:49-76 | the arrays are fresh and hold the given masses, positions and velocities; the force cache and gates are fresh, and every pair gate starts at zero |
| MemoryHell.Simulation.Post | memory_hell.c:125 | sem_post adds one to the gate and changes no other gate |
| MemoryHell.Simulation.Wait | memory_hell.c:116 | sem_wait on a gate above zero takes one from it and changes no other gate |
| MemoryHell.Simulation.ReuseForce | memory_hell.c:114-118 | the reuse side waits if the code's condition asks it, and reads the negation of the force stored for (j, i); that force over m_i is the pull of j on i |
| MemoryHell.Simulation.ComputeForce | memory_hell.c:119-126 | the compute side clamps the distance, stores the shared force in slot (i, j) and no other slot, and posts under the code's condition; that force over m_i is the pull of j on i |
| MemoryHell.Simulation.AccumulatePair | memory_hell.c:111-128 | one pair visit adds the pull of j on i to the partial sum for i; it writes at most slot (i, j) of the cache |
| MemoryHell.Simulation.AccumulateBody | memory_hell.c:106-129 | body i's acceleration becomes the direct sum with the divisor max(d, ε)³; only row i of the cache is written |
| MemoryHell.Simulation.ComputeAccelerations | memory_hell.c:100-131 | the bodies of [first, last) get the direct sum, other accelerations keep their values, and only cache rows first to last−1 change |
| MemoryHell.Simulation.Step | memory_hell.c:171-176 | one step of every worker, in rank order and phase by phase, is the reference Euler step with max(d, ε)³; all gates end at zero |
| MemoryHell.Simulation.Run | memory_hell.c:171-182 | after `steps` steps, the positions and velocities are those of the reference run |
| MemoryHell.RunSystem | memory_hell.c:198-233 | building the system from the given bodies and running `steps` steps gives the reference run with max(d, ε)³ |
| NaiveParallel.Simulation.constructor | naive_parallel.c:47-69 | the arrays are fresh and hold the given masses, positions and velocities |
| NaiveParallel.Simulation.ComputeAccelerations | naive_parallel.c:71-90 | the bodies of [first, last) get the direct sum with max(d³, ε), and other accelerations keep their values |
| NaiveParallel.Simulation.Step | naive_parallel.c:128-133 | one step of every worker, in rank order and phase by phase, is the reference Euler step with max(d³, ε) |
| NaiveParallel.Simulation.Run | naive_parallel.c:128-139 | after `steps` steps, the positions and velocities are those of the reference run |
| NaiveParallel.RunSystem | naive_parallel.c:152-175 | building the system from the given bodies and running `steps` steps gives the reference run with max(d³, ε) |
| Collisions.Swap | code/orig_serial.c:73-75 | the exchange through a temporary swaps two entries, keeps the rest and is a permutation |
| Collisions.CollideRow | code/orig_serial.c:69-77 | the inner loop permutes the velocities |
| Collisions.CollideFrom | code/orig_serial.c:68-77 | the outer loop from a row on permutes the velocities |
| Collisions.Resolve | code/orig_serial.c:64-78 | the velocities after resolveCollisions are a permutation of those before |
| Collisions.IsolatedKeepsVelocity | code/orig_serial.c:71-76 | a body at a position no other body shares keeps its velocity |
| Collisions.NoCoincidenceNoChange | code/orig_serial.c:71 | if no two bodies share a position, the velocities do not change |
| Collisions.SinglePairSwapped | code/orig_serial.c:71-76 | if exactly one pair shares a position, those two velocities are exchanged and every other velocity is kept |
| Serial.SerialStep | code/orig_serial.c:114-120 | simulate moves the positions as the Euler step does, with the velocities from before the step, and leaves the new velocities as a permutation of the Euler step's |
| Serial.SerialStepWithoutCollision | code/orig_serial.c:71 | when no two bodies end the step at the same position, simulate is the plain Euler step |
| Serial.CollisionStaysCoincident | code/orig_serial.c:71-76 | when two bodies end a step at the same position, the state simulate leaves has a pair with a zero divisor, for a distance that is zero from a point to itself |
| Serial.NoCollisionBeforeLastStep | code/orig_serial.c:71-76 | in a run of two or more steps whose every step is defined, no two bodies coincide after the first step, so the collision pass cannot have swapped anything there |
| Serial.TwoBodiesMeet | code/orig_serial.c:106-112 | from (0, 0) and (1, 0) with velocities (0, 0) and (−20, 0), one position update puts both bodies at (0, 0) |
| Serial.CollisionCounterexample | code/orig_serial.c:71-76 | those two bodies start separated, coincide after one simulate, and the state after it has a zero divisor |
| Serial.Simulation.constructor | code/orig_serial.c:42-62 | the arrays are fresh and hold the given masses, positions and velocities |
| Serial.Simulation.ComputeAccelerations | code/orig_serial.c:80-96 | every body gets the direct sum with the divisor d³, provided no two bodies are at distance zero |
| Serial.Simulation.ComputeVelocities | code/orig_serial.c:98-104 | every velocity gets DT times its acceleration added |
| Serial.Simulation.ComputePositions | code/orig_serial.c:106-112 | every position gets DT times its velocity added |
| Serial.Simulation.CollideWithLater | code/orig_serial.c:69-77 | one pass of the inner loop for body i is the specification's row i |
| Serial.Simulation.ResolveCollisions | code/orig_serial.c:64-78 | the nested loops leave the velocities equal to the specification's permutation, and the positions are untouched |
| Serial.Simulation.Simulate | code/orig_serial.c:114-120 | accelerations, positions, velocities and collisions in that order give the serial step |
| Serial.Simulation.Run | code/orig_serial.c:139-149 | after `steps` calls of simulate, the state is that of the serial run, provided no pair is ever at distance zero |
| Serial.RunSystem | code/orig_serial.c:130-149 | building the system from the given bodies and running `steps` steps gives the serial run, provided no pair is ever at distance zero |

## Left out

- File input and output: initiateSystem's parsing, printBody, the trace
  headers and fopen/fclose. The constructors take the parsed values as
  arguments.
- The print baton (semsPrint), the coordinating thread's header loop,
  thread creation and join. The baton orders the output. Each worker also
  waits on semsPrint[myRank] once per step (memory_hell.c:179,
  naive_parallel.c:136), and that wait is the only thing that bounds how
  far the workers drift apart in steps. The model's fixed schedule
  replaces it.
- The naive program posts `semsPrint[threadCount]` before initialising the
  baton (naive_parallel.c:166-171). This lifecycle defect concerns output
  only.
- Concurrency. The semaphores are integer counts. Workers run in one fixed
  order: each phase for all ranks, in rank order. Other interleavings are
  not modelled. The real programs have no barrier between one rank's
  computePositions and another rank's reads of positions, which is a
  race.
- The force-cache overwrite race in memory_hell.c. Nothing stops a lower
  rank from starting step s+1 and rewriting forces[j·N+i] (line 124)
  before a higher rank has read it for step s (line 117). The gate only
  orders the write before the read, not the next write after it. Under
  the model's schedule every step's reads finish before the next step's
  writes.
- Floating point. Reals replace doubles. The distance is a parameter
  standing for sqrt, and pow(x, 3) is exact cubing. FLT_EPSILON is a
  positive parameter ε. The narrowing of the divisor to `float`, rounding,
  NaN, infinities and signed zero are not modelled. The latter matter for
  the `==` test in resolveCollisions.
- Integer width. Body indices, r·L and N·N are unbounded integers. Overflow
  of `int` for very large N is not modelled.
- malloc and free, clock() timing, strtol and argc handling.
- MemoryHell.Simulation.Valid: requires every mass to be non-zero and the
  distance to be symmetric. The code divides by masses[i] and relies on
  the symmetry of sqrt of the squared difference when it negates a stored
  force.
- Serial.Simulation.ComputeAccelerations: requires no two bodies at
  distance zero. The code then divides by zero and goes on with infinite
  or NaN values, which reals cannot represent.
- Serial.Simulation.Run: requires the same separation at every step,
  stated by `Serial.SeparatedThroughout`.

## Findings

| source | as written | input that shows it | evidently intended | confidence | as-written member | corrected member |
|---|---|---|---|---|---|---|
| code/orig_serial.c:71-76 | resolveCollisions swaps the velocities of two coinciding bodies but leaves them at the same position, so the next simulate divides by pow(0, 3) for that pair (line 92) | bodies of mass 1 at (0, 0) and (1, 0) with velocities (0, 0) and (−20, 0): after one step both are at (0, 0), and step 2 divides by zero | a run that continues past a coincidence with a finite divisor; the parallel programs floor the distance at ε for this (memory_hell.c:122) | not executed | Serial.CollisionCounterexample | Gravity.ClampedSeparated |
| memory_hell.c:95-96 | getRank returns body / localBodies and lowers it to T−1 only when it equals T exactly | N = 11, T = 4: localBodies = 2, and body 10, which the last rank (3) owns, gets rank 5 | the rank whose range holds the body, min(body / localBodies, T−1) | not executed | Partition.GetRankCounterexample | Partition.Owner |

Only the gate conditions use getRank, and those use the value as
written. The kernel is still correct because getRank is monotone and
matches the owner below the last rank. So every pair whose owners differ
is still gated (`Partition.CrossOwnerPairsGated`). Ownership of ranges
uses the corrected `Partition.Owner`, proved unique by
`Partition.OwnerUnique`. `Partition.GetRankExactOnLastRange` states exactly
when the two agree.

In the serial program a collision can only matter on a run's last step.
`Serial.NoCollisionBeforeLastStep` shows that any earlier coincidence
makes the following step undefined (`Serial.CollisionStaysCoincident`).
The corrected divisor is the parallel programs' floor, and with it no
pair has a zero divisor whatever the positions (`Gravity.ClampedSeparated`).
The serial model keeps the code's unfloored divisor, so its run requires
separation at every step.
