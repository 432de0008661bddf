/** naive_parallel.c: the threaded simulation in which every worker computes
    the full direct sum for its own bodies. Its global arrays become the
    fields of one object. The workers' routines are run one after the other
    in rank order, each phase of a step for all ranks before the next. */
module NaiveParallel {
  import opened Vectors
  import opened Gravity
  import opened Partition
  import opened Euler
  import DirectSum

  class Simulation {
    const n: nat
    const threads: int
    const g: real
    const eps: real
    const dist: (Vec, Vec) -> real
    const masses: array<real>
    const positions: array<Vec>
    const velocities: array<Vec>
    const accelerations: array<Vec>

    /** The arrays have the sizes initiateSystem gives them and do not
        overlap; there is at least one worker and the floor is positive. */
    predicate Valid() {
      threads >= 1 && eps > 0.0 &&
      masses.Length == n && positions.Length == n && velocities.Length == n && accelerations.Length == n &&
      positions != velocities && positions != accelerations && velocities != accelerations
    }

    /** The cube of the distance is raised to eps (lines 84-85). */
    function Soft(): (s: Softening)
      ensures s.ClampCube?
    {
      ClampCube(eps)
    }

    /** The masses and positions the kernel reads. */
    function Snapshot(): Bodies
      reads masses, positions
    {
      Gravity.Snapshot(g, dist, masses, positions, Soft())
    }

    /** initiateSystem without the parsing: the values are given. */
    constructor (g: real, eps: real, dist: (Vec, Vec) -> real, threads: int,
                 ms: seq<real>, ps: seq<Vec>, vs: seq<Vec>)
      requires threads >= 1 && eps > 0.0 && |ms| == |ps| == |vs|
      ensures Valid()
      ensures this.n == |ps| && this.threads == threads && this.g == g && this.eps == eps && this.dist == dist
      ensures masses[..] == ms && positions[..] == ps && velocities[..] == vs
      ensures fresh(masses) && fresh(positions) && fresh(velocities) && fresh(accelerations)
    {
      var n := |ps|;
      this.n := n;
      this.threads := threads;
      this.g := g;
      this.eps := eps;
      this.dist := dist;
      masses := new real[n](i requires 0 <= i < n => ms[i]);
      positions := new Vec[n](i requires 0 <= i < n => ps[i]);
      velocities := new Vec[n](i requires 0 <= i < n => vs[i]);
      accelerations := new Vec[n](_ => Zero);
    }

    /** computeAccelerations(first, last) (lines 71-90): the bodies of
        [first, last) get the direct sum of the pulls of all other bodies,
        with the divisor max(d³, eps); no other acceleration changes. The
        result for a body does not depend on the range it was computed in. */
    method ComputeAccelerations(first: int, last: int)
      requires Valid() && ValidRange(n, first, last)
      modifies accelerations
      ensures forall k :: 0 <= k < n ==>
        accelerations[k] == if first <= k < last then Accel(Snapshot(), Soft(), k) else old(accelerations[k])
    {
      DirectSum.ComputeAccelerations(g, dist, Soft(), masses, positions, accelerations, first, last);
    }

    /** One time step of every worker's routine (lines 131-133), the workers
        taken in rank order and each phase finished by all of them before
        the next: accelerations from the positions at the start of the step,
        then positions with the velocities from before the step, then
        velocities with the new accelerations. */
    method Step()
      requires Valid()
      modifies positions, velocities, accelerations
      ensures (positions[..], velocities[..]) == StepSpec(old(Snapshot()), Soft(), old(velocities[..]))
    {
      ghost var b := Snapshot();
      var r := 0;
      while r < threads
        invariant 0 <= r <= threads
        invariant positions[..] == b.positions && velocities[..] == old(velocities[..])
        invariant forall k :: 0 <= k < Done(n, threads, r) ==> accelerations[k] == Accel(b, Soft(), k)
      {
        var range := RankRange(n, threads, r);
        RangeChain(n, threads, r);
        ComputeAccelerations(range.0, range.1);
        r := r + 1;
      }
      RangeChain(n, threads, 0);
      assert accelerations[..] == Accelerations(b, Soft());
      AdvanceByRanks(positions, velocities, threads);
      AdvanceByRanks(velocities, accelerations, threads);
    }

    /** The worker routines' loop over timeSteps: after `steps` steps the
        positions and velocities are those of the specification's run. */
    method Run(steps: nat)
      requires Valid()
      modifies positions, velocities, accelerations
      ensures (positions[..], velocities[..]) == Evolve(old(Snapshot()), Soft(), old(velocities[..]), steps)
    {
      var i := 0;
      while i < steps
        invariant 0 <= i <= steps
        invariant Evolve(old(Snapshot()), Soft(), old(velocities[..]), steps) ==
          Evolve(Snapshot(), Soft(), velocities[..], steps - i)
      {
        Step();
        i := i + 1;
      }
    }
  }

  /** main without the input, the output and the threads (lines 152-175):
      the system that initiateSystem reads, advanced by `steps` steps. */
  method RunSystem(g: real, eps: real, dist: (Vec, Vec) -> real, threads: int,
                   ms: seq<real>, ps: seq<Vec>, vs: seq<Vec>, steps: nat)
    returns (positions: seq<Vec>, velocities: seq<Vec>)
    requires threads >= 1 && eps > 0.0 && |ms| == |ps| == |vs|
    ensures (positions, velocities) == Evolve(Bodies(g, dist, ms, ps), ClampCube(eps), vs, steps)
  {
    var system := new Simulation(g, eps, dist, threads, ms, ps, vs);
    system.Run(steps);
    positions := system.positions[..];
    velocities := system.velocities[..];
  }
}
