/** memory_hell.c: the threaded simulation that computes each pair's force
    once. Its global arrays become the fields of one object; the semaphore
    array semsCompute becomes an array of counts, with sem_post and sem_wait
    as methods. The workers' routines are run one after the other in rank
    order, each phase of a step for all ranks before the next phase. */
module MemoryHell {
  import opened Vectors
  import opened Gravity
  import opened Partition
  import opened ForceCache
  import opened Euler

  class Simulation {
    const n: nat
    const threads: int
    const g: real
    const eps: real
    const dist: (Vec, Vec) -> real
    const masses: array<real>
    const positions: array<Vec>
    const velocities: array<Vec>
    const accelerations: array<Vec>
    const forces: array<Vec>
    const gates: array<int>

    /** The arrays have the sizes initiateSystem gives them and do not
        overlap; the distance is symmetric, the floor positive, and no mass
        is zero (the kernel divides by m_i). */
    ghost predicate Valid()
      reads masses
    {
      threads >= 1 && eps > 0.0 && Symmetric(dist) &&
      masses.Length == n && positions.Length == n && velocities.Length == n && accelerations.Length == n &&
      forces.Length == n * n && gates.Length == n * n &&
      positions != velocities && positions != accelerations && velocities != accelerations &&
      forces != positions && forces != velocities && forces != accelerations &&
      forall i :: 0 <= i < n ==> masses[i] != 0.0
    }

    /** The distance is clamped to eps before it is cubed (line 122). */
    function Soft(): (s: Softening)
      ensures s.ClampDistance?
    {
      ClampDistance(eps)
    }

    /** The masses and positions the kernel reads. */
    function Snapshot(): Bodies
      reads masses, positions
    {
      Gravity.Snapshot(g, dist, masses, positions, Soft())
    }

    /** Every semaphore of semsCompute is at zero. */
    predicate GatesClear()
      reads gates
    {
      forall s :: 0 <= s < gates.Length ==> gates[s] == 0
    }

    /** initiateSystem without the parsing (the values are given), followed
        by the sem_init of every pair's semaphore to zero in main. */
    constructor (g: real, eps: real, dist: (Vec, Vec) -> real, threads: int,
                 ms: seq<real>, ps: seq<Vec>, vs: seq<Vec>)
      requires threads >= 1 && eps > 0.0 && Symmetric(dist)
      requires |ms| == |ps| == |vs| && forall i :: 0 <= i < |ms| ==> ms[i] != 0.0
      ensures Valid() && GatesClear()
      ensures this.n == |ps| && this.threads == threads && this.g == g && this.eps == eps && this.dist == dist
      ensures masses[..] == ms && positions[..] == ps && velocities[..] == vs
      ensures fresh(masses) && fresh(positions) && fresh(velocities) && fresh(accelerations)
      ensures fresh(forces) && fresh(gates)
    {
      var n := |ps|;
      this.n := n;
      this.threads := threads;
      this.g := g;
      this.eps := eps;
      this.dist := dist;
      masses := new real[n](i requires 0 <= i < n => ms[i]);
      positions := new Vec[n](i requires 0 <= i < n => ps[i]);
      velocities := new Vec[n](i requires 0 <= i < n => vs[i]);
      accelerations := new Vec[n](_ => Zero);
      forces := new Vec[n * n](_ => Zero);
      gates := new int[n * n](_ => 0);
    }

    /** sem_post on semsCompute[s]. */
    method Post(s: int)
      requires 0 <= s < gates.Length
      modifies gates
      ensures gates[..] == old(gates[..])[s := old(gates[s]) + 1]
    {
      gates[s] := gates[s] + 1;
    }

    /** sem_wait on semsCompute[s]. With the workers run one after the other
        nothing else could raise the count, so the wait is only allowed on a
        raised semaphore. */
    method Wait(s: int)
      requires 0 <= s < gates.Length && gates[s] > 0
      modifies gates
      ensures gates[..] == old(gates[..])[s := old(gates[s]) - 1]
    {
      gates[s] := gates[s] - 1;
    }

    /** The reusing side of computeAccelerations for the pair (i, j), j < i
        (lines 114-118): wait on the pair's semaphore when getRank(i) >
        getRank(j), then take minus the force body j's pass stored. The wait
        finds the semaphore raised and the slot holds this step's force. */
    method ReuseForce(i: int, j: int) returns (force: Vec)
      requires Valid() && 0 <= j < i < n
      requires CacheAt(Snapshot(), Soft(), threads, i, j, forces[..], gates[..])
      modifies gates
      ensures CacheAt(Snapshot(), Soft(), threads, i, j + 1, forces[..], gates[..])
      ensures force == Scale(-1.0, SharedForce(Snapshot(), Soft(), j, i))
      ensures Scale(1.0 / masses[i], force) == Snapshot().Pull(Soft(), i, j)
    {
      ghost var b := Snapshot();
      var s := Slot(n, j, i);
      ghost var before := gates[..];
      ReuseStep(b, Soft(), threads, i, j, forces[..], before,
        if Waits(n, threads, i, j) then before[s := before[s] - 1] else before);
      if GetRank(n, threads, i) > GetRank(n, threads, j) {
        Wait(s);
      }
      force := Scale(-1.0, forces[s]);
      ReuseSideContribution(b, Soft(), i, j);
    }

    /** The computing side of computeAccelerations for the pair (i, j),
        i < j (lines 119-126): the divisor is the distance raised to eps and
        cubed, the force is stored in slot i * N + j, and the pair's
        semaphore is posted when getRank(i) < getRank(j). */
    method ComputeForce(i: int, j: int) returns (force: Vec)
      requires Valid() && 0 <= i < j < n
      requires CacheAt(Snapshot(), Soft(), threads, i, j, forces[..], gates[..])
      modifies forces, gates
      ensures CacheAt(Snapshot(), Soft(), threads, i, j + 1, forces[..], gates[..])
      ensures force == SharedForce(Snapshot(), Soft(), i, j)
      ensures forces[..] == old(forces[..])[Slot(n, i, j) := force]
      ensures Scale(1.0 / masses[i], force) == Snapshot().Pull(Soft(), i, j)
    {
      ghost var b := Snapshot();
      var denom := dist(positions[i], positions[j]);
      if denom < eps {
        denom := eps;
      }
      var mi, mj, pi, pj := masses[i], masses[j], positions[i], positions[j];
      assert Cube(denom) == b.Separation(Soft(), i, j) != 0.0;
      force := Scale(g * mi * mj / Cube(denom), Sub(pj, pi));
      SharedForceIs(b, Soft(), i, j, g, mi, mj, pi, pj, Cube(denom), force);
      var s := Slot(n, i, j);
      ghost var before, beforeGates := forces[..], gates[..];
      forces[s] := force;
      if GetRank(n, threads, i) < GetRank(n, threads, j) {
        Post(s);
      }
      ComputeStep(b, Soft(), threads, i, j, before, beforeGates, forces[..], gates[..]);
      ComputeSideContribution(b, Soft(), i, j);
    }

    /** One iteration of the inner loop of computeAccelerations, for body i
        and column j (lines 113-128): the column j == i is skipped; otherwise
        the force of the pair is reused (j < i) or computed (j > i), and
        a_i grows by that force divided by m_i, which is the pull of j on i.
        Only cache row i may change in forces. */
    method AccumulatePair(i: int, j: int)
      requires Valid() && 0 <= i < n && 0 <= j < n
      requires CacheAt(Snapshot(), Soft(), threads, i, j, forces[..], gates[..])
      requires accelerations[i] == PartialAccel(Snapshot(), Soft(), i, j)
      modifies accelerations, forces, gates
      ensures CacheAt(Snapshot(), Soft(), threads, i, j + 1, forces[..], gates[..])
      ensures accelerations[..] == old(accelerations[..])[i := PartialAccel(Snapshot(), Soft(), i, j + 1)]
      ensures forall s :: 0 <= s < forces.Length && s != Slot(n, i, j) ==> forces[s] == old(forces[s])
    {
      ghost var b := Snapshot();
      if i == j {
        SelfStep(b, Soft(), threads, i, forces[..], gates[..]);
        return;
      }
      var force: Vec;
      if i > j {
        force := ReuseForce(i, j);
      } else {
        force := ComputeForce(i, j);
      }
      var term := Scale(1.0 / masses[i], force);
      AddPull(b, Soft(), i, j, accelerations[i], term);
      accelerations[i] := Add(accelerations[i], term);
    }

    /** One pass of the outer loop of computeAccelerations, for body i
        (lines 108-129): a_i is reset to zero and receives, for every j != i
        in ascending order, the pull of j on i. The result is the direct sum
        of the pulls on i. In accelerations and forces, only a_i and cache
        row i change. */
    method AccumulateBody(i: int)
      requires Valid() && 0 <= i < n
      requires CacheAt(Snapshot(), Soft(), threads, i, 0, forces[..], gates[..])
      modifies accelerations, forces, gates
      ensures CacheAt(Snapshot(), Soft(), threads, i + 1, 0, forces[..], gates[..])
      ensures accelerations[..] == old(accelerations[..])[i := Accel(Snapshot(), Soft(), i)]
      ensures forall s :: 0 <= s < forces.Length && !(i * n <= s < i * n + n) ==> forces[s] == old(forces[s])
    {
      ghost var b := Snapshot();
      ghost var row := i * n;
      accelerations[i] := Zero;
      var j := 0;
      while j < n
        invariant 0 <= j <= n
        invariant CacheAt(b, Soft(), threads, i, j, forces[..], gates[..])
        invariant accelerations[..] == old(accelerations[..])[i := PartialAccel(b, Soft(), i, j)]
        invariant forall s :: 0 <= s < forces.Length && !(row <= s < row + n) ==> forces[s] == old(forces[s])
      {
        AccumulatePair(i, j);
        j := j + 1;
      }
      RowDone(b, Soft(), threads, i, forces[..], gates[..]);
    }

    /** computeAccelerations(first, last): the bodies of [first, last) get
        their direct-sum accelerations and no other acceleration changes;
        the sweep of the force cache moves from body first to body last,
        and only the cache rows first .. last - 1 change. An empty range
        changes nothing. */
    method ComputeAccelerations(first: int, last: int)
      requires Valid() && ValidRange(n, first, last)
      requires first < last ==> CacheAt(Snapshot(), Soft(), threads, first, 0, forces[..], gates[..])
      modifies accelerations, forces, gates
      ensures first < last ==> CacheAt(Snapshot(), Soft(), threads, last, 0, forces[..], gates[..])
      ensures first >= last ==> forces[..] == old(forces[..]) && gates[..] == old(gates[..])
      ensures forall k :: 0 <= k < n ==>
        accelerations[k] == if first <= k < last then Accel(Snapshot(), Soft(), k) else old(accelerations[k])
      ensures forall s :: 0 <= s < forces.Length && !(first * n <= s < last * n) ==> forces[s] == old(forces[s])
    {
      ghost var b := Snapshot();
      var i := first;
      while i < last
        invariant first <= i && (first < last ==> i <= last) && (first >= last ==> i == first)
        invariant first < last ==> CacheAt(b, Soft(), threads, i, 0, forces[..], gates[..])
        invariant first >= last ==> forces[..] == old(forces[..]) && gates[..] == old(gates[..])
        invariant forall k :: 0 <= k < n ==>
          accelerations[k] == if first <= k < i then Accel(b, Soft(), k) else old(accelerations[k])
        invariant forall s :: 0 <= s < forces.Length && !(first * n <= s < i * n) ==> forces[s] == old(forces[s])
      {
        MulLeq(first, i, n);
        assert i * n + n == (i + 1) * n;
        AccumulateBody(i);
        i := i + 1;
      }
    }

    /** One time step of every worker's routine (lines 174-176), the
        workers taken in rank order and each phase finished by all of them
        before the next: accelerations from the positions at the start of
        the step, then positions with the velocities from before the step,
        then velocities with the new accelerations. Every wait finds its
        semaphore raised, and the step leaves all semaphores at zero. */
    method Step()
      requires Valid() && GatesClear()
      modifies positions, velocities, accelerations, forces, gates
      ensures Valid() && GatesClear()
      ensures (positions[..], velocities[..]) == StepSpec(old(Snapshot()), Soft(), old(velocities[..]))
    {
      ghost var b := Snapshot();
      CacheStart(b, Soft(), threads, forces[..], gates[..]);
      var r := 0;
      while r < threads
        invariant 0 <= r <= threads
        invariant positions[..] == b.positions && velocities[..] == old(velocities[..])
        invariant CacheAt(b, Soft(), threads, Done(n, threads, r), 0, forces[..], gates[..])
        invariant forall k :: 0 <= k < Done(n, threads, r) ==> accelerations[k] == Accel(b, Soft(), k)
      {
        var range := RankRange(n, threads, r);
        RangeChain(n, threads, r);
        ComputeAccelerations(range.0, range.1);
        r := r + 1;
      }
      RangeChain(n, threads, 0);
      CacheEnd(b, Soft(), threads, forces[..], gates[..]);
      assert accelerations[..] == Accelerations(b, Soft());
      AdvanceByRanks(positions, velocities, threads);
      AdvanceByRanks(velocities, accelerations, threads);
    }

    /** The worker routines' loop over timeSteps: after `steps` steps the
        positions and velocities are those of the specification's run. */
    method Run(steps: nat)
      requires Valid() && GatesClear()
      modifies positions, velocities, accelerations, forces, gates
      ensures Valid() && GatesClear()
      ensures (positions[..], velocities[..]) == Evolve(old(Snapshot()), Soft(), old(velocities[..]), steps)
    {
      var i := 0;
      while i < steps
        invariant 0 <= i <= steps && Valid() && GatesClear()
        invariant Evolve(old(Snapshot()), Soft(), old(velocities[..]), steps) ==
          Evolve(Snapshot(), Soft(), velocities[..], steps - i)
      {
        Step();
        i := i + 1;
      }
    }
  }

  /** main without the input, the output and the threads (lines 198-233):
      the system that initiateSystem reads, with every pair's semaphore
      initialised to zero, advanced by `steps` steps. */
  method RunSystem(g: real, eps: real, dist: (Vec, Vec) -> real, threads: int,
                   ms: seq<real>, ps: seq<Vec>, vs: seq<Vec>, steps: nat)
    returns (positions: seq<Vec>, velocities: seq<Vec>)
    requires threads >= 1 && eps > 0.0 && Symmetric(dist)
    requires |ms| == |ps| == |vs| && forall i :: 0 <= i < |ms| ==> ms[i] != 0.0
    ensures (positions, velocities) == Evolve(Bodies(g, dist, ms, ps), ClampDistance(eps), vs, steps)
  {
    var system := new Simulation(g, eps, dist, threads, ms, ps, vs);
    system.Run(steps);
    positions := system.positions[..];
    velocities := system.velocities[..];
  }
}
