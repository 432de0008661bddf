/** code/orig_serial.c: the single-threaded simulation. Its global arrays
    become the fields of one object. It has no floor on the divisor, so its
    accelerations are defined only while no two bodies are at distance
    zero; after every step it exchanges the velocities of bodies that
    landed on the same position. */
module Serial {
  import opened Vectors
  import opened Gravity
  import opened Euler
  import opened Collisions
  import DirectSum

  /** One call of simulate on the state (b, v): the Euler step with the
      unclamped divisor, then the collision pass on the new positions and
      velocities. The result is the pair (positions, velocities). */
  function SerialStep(b: Bodies, v: seq<Vec>): (state: (seq<Vec>, seq<Vec>))
    requires b.Valid() && b.Separated(Unclamped) && |v| == |b.positions|
    ensures |state.0| == |v| && |state.1| == |v|
    ensures state.0 == StepSpec(b, Unclamped, v).0
    ensures multiset(state.1) == multiset(StepSpec(b, Unclamped, v).1)
  {
    var next := StepSpec(b, Unclamped, v);
    (next.0, Resolve(next.0, next.1))
  }

  /** The state after each of the first `steps` calls of simulate keeps
      every pair of bodies at a non-zero distance. */
  ghost predicate SeparatedThroughout(b: Bodies, v: seq<Vec>, steps: nat)
    requires b.Valid() && |v| == |b.positions|
    decreases steps
  {
    steps == 0 ||
    (b.Separated(Unclamped) &&
      var next := SerialStep(b, v);
      SeparatedThroughout(b.(positions := next.0), next.1, steps - 1))
  }

  /** The state after `steps` calls of simulate. */
  ghost function SerialRun(b: Bodies, v: seq<Vec>, steps: nat): (state: (seq<Vec>, seq<Vec>))
    requires b.Valid() && |v| == |b.positions| && SeparatedThroughout(b, v, steps)
    ensures |state.0| == |v| && |state.1| == |v|
    decreases steps
  {
    if steps == 0 then (b.positions, v)
    else
      var next := SerialStep(b, v);
      SerialRun(b.(positions := next.0), next.1, steps - 1)
  }

  /** One call of simulate peels off the front of a run. */
  lemma RunUnfold(b: Bodies, v: seq<Vec>, steps: nat)
    requires b.Valid() && |v| == |b.positions| && steps > 0 && SeparatedThroughout(b, v, steps)
    ensures b.Separated(Unclamped)
    ensures var next := SerialStep(b, v);
      SeparatedThroughout(b.(positions := next.0), next.1, steps - 1) &&
      SerialRun(b, v, steps) == SerialRun(b.(positions := next.0), next.1, steps - 1)
  {
  }

  /** When no two bodies end the step at the same position, the collision
      pass changes nothing and simulate is the plain Euler step. */
  lemma SerialStepWithoutCollision(b: Bodies, v: seq<Vec>)
    requires b.Valid() && b.Separated(Unclamped) && |v| == |b.positions|
    requires var p := StepSpec(b, Unclamped, v).0;
      forall x, y :: 0 <= x < y < |p| ==> !Coincide(p, x, y)
    ensures SerialStep(b, v) == StepSpec(b, Unclamped, v)
  {
    var next := StepSpec(b, Unclamped, v);
    NoCoincidenceNoChange(next.0, next.1);
  }

  /** A distance that is zero between a position and itself, as the
      length of subtractVectors(p, p) is. */
  ghost predicate ZeroOnItself(dist: (Vec, Vec) -> real) {
    forall q :: dist(q, q) == 0.0
  }

  /** resolveCollisions exchanges the velocities of two bodies that
      coincide but leaves them at the same position, so the next call of
      simulate divides by pow(0, 3) for that pair: the state it leaves is
      not separated. */
  lemma CollisionStaysCoincident(b: Bodies, v: seq<Vec>, x: int, y: int)
    requires b.Valid() && b.Separated(Unclamped) && |v| == |b.positions| && ZeroOnItself(b.dist)
    requires 0 <= x < |v| && 0 <= y < |v| && Coincide(SerialStep(b, v).0, x, y)
    ensures !b.(positions := SerialStep(b, v).0).Separated(Unclamped)
  {
    var after := b.(positions := SerialStep(b, v).0);
    assert after.Separation(Unclamped, x, y) == Cube(0.0);
  }

  /** So a run whose every step is defined has no coinciding pair after any
      step but the last: the collision pass never gets to change a
      velocity before the run ends. */
  lemma {:induction false} NoCollisionBeforeLastStep(b: Bodies, v: seq<Vec>, steps: nat)
    requires b.Valid() && |v| == |b.positions| && ZeroOnItself(b.dist)
    requires steps >= 2 && SeparatedThroughout(b, v, steps)
    ensures b.Separated(Unclamped)
    ensures var p := SerialStep(b, v).0;
      forall x, y :: 0 <= x < y < |p| ==> !Coincide(p, x, y)
  {
    var p := SerialStep(b, v).0;
    forall x, y | 0 <= x < y < |p| ensures !Coincide(p, x, y) {
      if Coincide(p, x, y) {
        CollisionStaysCoincident(b, v, x, y);
        assert false;
      }
    }
  }

  /** One step of the two bodies below: the second one moves by DT * (-20, 0) = (-1, 0)
      onto the first, which stays at the origin. */
  lemma TwoBodiesMeet(s: seq<Vec>, v: seq<Vec>)
    requires |s| == |v| == 2 && s[0] == Zero && s[1] == Vec(1.0, 0.0)
    requires v[0] == Zero && v[1] == Vec(-20.0, 0.0)
    ensures Advance(s, v, 0, 2)[0] == Zero && Advance(s, v, 0, 2)[1] == Zero
  {
    var p := Advance(s, v, 0, 2);
    assert p[0] == Add(s[0], Scale(DT, v[0]));
    assert Scale(DT, Zero) == Zero;
    assert p[1] == Add(s[1], Scale(DT, v[1]));
    assert Scale(DT, v[1]) == Vec(-1.0, 0.0);
  }

  /** Two bodies at (0, 0) and (1, 0), the second moving at (-20, 0):
      after one call of simulate both are at (0, 0), and the step after
      that divides by zero. */
  lemma CollisionCounterexample(b: Bodies, v: seq<Vec>)
    requires b.masses == [1.0, 1.0] && b.positions == [Zero, Vec(1.0, 0.0)] && v == [Zero, Vec(-20.0, 0.0)]
    requires ZeroOnItself(b.dist) && b.dist(Zero, Vec(1.0, 0.0)) != 0.0 && b.dist(Vec(1.0, 0.0), Zero) != 0.0
    ensures b.Valid() && b.Separated(Unclamped)
    ensures SerialStep(b, v).0[0] == SerialStep(b, v).0[1] == Zero
    ensures !b.(positions := SerialStep(b, v).0).Separated(Unclamped)
  {
    forall i, j | 0 <= i < 2 && 0 <= j < 2 && i != j ensures b.Separation(Unclamped, i, j) != 0.0 {
      assert (i, j) == (0, 1) || (i, j) == (1, 0);
    }
    TwoBodiesMeet(b.positions, v);
    var p := SerialStep(b, v).0;
    assert p == Advance(b.positions, v, 0, 2);
    assert |p| == 2 && p[0] == Zero && p[1] == Zero;
    CollisionStaysCoincident(b, v, 0, 1);
  }

  class Simulation {
    const n: nat
    const g: real
    const dist: (Vec, Vec) -> real
    const masses: array<real>
    const positions: array<Vec>
    const velocities: array<Vec>
    const accelerations: array<Vec>

    /** The arrays have the sizes initiateSystem gives them and do not
        overlap. */
    predicate Valid() {
      masses.Length == n && positions.Length == n && velocities.Length == n && accelerations.Length == n &&
      positions != velocities && positions != accelerations && velocities != accelerations
    }

    /** The masses and positions the kernel reads. */
    function Snapshot(): (b: Bodies)
      reads masses, positions
      ensures b.Valid() <==> masses.Length == positions.Length
    {
      Bodies(g, dist, masses[..], positions[..])
    }

    /** initiateSystem without the parsing: the values are given. */
    constructor (g: real, dist: (Vec, Vec) -> real, ms: seq<real>, ps: seq<Vec>, vs: seq<Vec>)
      requires |ms| == |ps| == |vs|
      ensures Valid()
      ensures this.n == |ps| && this.g == g && this.dist == dist
      ensures masses[..] == ms && positions[..] == ps && velocities[..] == vs
      ensures fresh(masses) && fresh(positions) && fresh(velocities) && fresh(accelerations)
    {
      var n := |ps|;
      this.n := n;
      this.g := g;
      this.dist := dist;
      masses := new real[n](i requires 0 <= i < n => ms[i]);
      positions := new Vec[n](i requires 0 <= i < n => ps[i]);
      velocities := new Vec[n](i requires 0 <= i < n => vs[i]);
      accelerations := new Vec[n](_ => Zero);
    }

    /** computeAccelerations (lines 80-96): every body gets the direct sum
        of the pulls of all other bodies, with the divisor d³. It needs
        every pair of bodies at a non-zero distance. */
    method ComputeAccelerations()
      requires Valid() && Snapshot().Separated(Unclamped)
      modifies accelerations
      ensures accelerations[..] == Accelerations(Snapshot(), Unclamped)
    {
      DirectSum.ComputeAccelerations(g, dist, Unclamped, masses, positions, accelerations, 0, n);
      assert accelerations[..] == Accelerations(Snapshot(), Unclamped);
    }

    /** computeVelocities (lines 98-104): v_i += DT a_i for every body. */
    method ComputeVelocities()
      requires Valid()
      modifies velocities
      ensures velocities[..] == Advance(old(velocities[..]), accelerations[..], 0, n)
    {
      AdvanceRange(velocities, accelerations, 0, n);
    }

    /** computePositions (lines 106-112): p_i += DT v_i for every body. */
    method ComputePositions()
      requires Valid()
      modifies positions
      ensures positions[..] == Advance(old(positions[..]), velocities[..], 0, n)
    {
      AdvanceRange(positions, velocities, 0, n);
    }

    /** One pass of the inner loop of resolveCollisions (lines 69-77): body
        i is compared with every later body j, and their velocities are
        exchanged when the x and y coordinates are both equal. */
    method CollideWithLater(i: nat)
      requires Valid() && i < n
      modifies velocities
      ensures velocities[..] == CollideRow(positions[..], old(velocities[..]), i, i + 1)
    {
      ghost var p := positions[..];
      ghost var goal := CollideRow(p, velocities[..], i, i + 1);
      var j := i + 1;
      while j < n
        invariant i + 1 <= j <= n
        invariant CollideRow(p, velocities[..], i, j) == goal
      {
        ghost var v := velocities[..];
        if positions[i].x == positions[j].x && positions[i].y == positions[j].y {
          var temp := velocities[i];
          velocities[i] := velocities[j];
          velocities[j] := temp;
          assert velocities[..] == Swap(v, i, j);
        }
        j := j + 1;
      }
    }

    /** resolveCollisions (lines 64-78): for every pair i < j in row-major
        order, exchange the velocities of i and j when their positions are
        equal. Positions are not touched; the velocities end as a
        permutation of what they were. */
    method ResolveCollisions()
      requires Valid()
      modifies velocities
      ensures velocities[..] == Resolve(positions[..], old(velocities[..]))
    {
      ghost var p := positions[..];
      ghost var goal := Resolve(p, velocities[..]);
      var i := 0;
      while i + 1 < n
        invariant 0 <= i
        invariant CollideFrom(p, velocities[..], i) == goal
      {
        CollideWithLater(i);
        i := i + 1;
      }
    }

    /** simulate (lines 114-120): accelerations, then positions with the
        velocities from before the step, then velocities, then the
        collision pass on the new state. */
    method Simulate()
      requires Valid() && Snapshot().Separated(Unclamped)
      modifies positions, velocities, accelerations
      ensures (positions[..], velocities[..]) == SerialStep(old(Snapshot()), old(velocities[..]))
    {
      ComputeAccelerations();
      ComputePositions();
      ComputeVelocities();
      ResolveCollisions();
    }

    /** `left` more calls of simulate keep every pair of bodies apart. */
    ghost predicate CanRun(left: nat)
      reads masses, positions, velocities
    {
      Valid() && SeparatedThroughout(Snapshot(), velocities[..], left)
    }

    /** `left` more calls of simulate end in `goal`. */
    ghost predicate Reaches(goal: (seq<Vec>, seq<Vec>), left: nat)
      reads masses, positions, velocities
    {
      CanRun(left) && goal == SerialRun(Snapshot(), velocities[..], left)
    }

    /** One call of simulate inside a run of `left` remaining steps: the
        rest of the run from the new state ends where the rest of the run
        from the old one did. */
    method SimulateInRun(left: nat, ghost goal: (seq<Vec>, seq<Vec>))
      requires left > 0 && Reaches(goal, left)
      modifies positions, velocities, accelerations
      ensures Reaches(goal, left - 1)
    {
      ghost var b := Snapshot();
      ghost var v := velocities[..];
      RunUnfold(b, v, left);
      ghost var next := SerialStep(b, v);
      Simulate();
      assert Snapshot() == b.(positions := next.0);
    }

    /** The loop of main over timeSteps, without the printing: after
        `steps` calls of simulate the state is that of the specification's
        run. */
    method Run(steps: nat)
      requires Valid() && SeparatedThroughout(Snapshot(), velocities[..], steps)
      modifies positions, velocities, accelerations
      ensures (positions[..], velocities[..]) == SerialRun(old(Snapshot()), old(velocities[..]), steps)
    {
      ghost var goal := SerialRun(Snapshot(), velocities[..], steps);
      var left: nat := steps;
      while left > 0
        invariant Reaches(goal, left)
      {
        SimulateInRun(left, goal);
        left := left - 1;
      }
      assert goal == (positions[..], velocities[..]);
    }
  }

  /** main without the input and the output (lines 130-149): the system
      that initiateSystem reads, after `steps` calls of simulate. */
  method RunSystem(g: real, dist: (Vec, Vec) -> real, ms: seq<real>, ps: seq<Vec>, vs: seq<Vec>, steps: nat)
    returns (positions: seq<Vec>, velocities: seq<Vec>)
    requires |ms| == |ps| == |vs| && SeparatedThroughout(Bodies(g, dist, ms, ps), vs, steps)
    ensures (positions, velocities) == SerialRun(Bodies(g, dist, ms, ps), vs, steps)
  {
    var system := new Simulation(g, dist, ms, ps, vs);
    system.Run(steps);
    positions := system.positions[..];
    velocities := system.velocities[..];
  }
}
