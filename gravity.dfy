/** The physics that the three programs compute, written as specifications:
    the force law with each program's way of softening the distance, the
    acceleration of one body as a direct sum over all the others, the
    explicit Euler update of positions and velocities, and whole runs of
    steps. The imperative kernels in the other modules are proved against
    these functions. */
module Gravity {
  import opened Vectors

  /** The fixed time step DT of all three programs. */
  const DT: real := 0.05

  /** How the distance d between two bodies becomes the divisor of the force
      law. The floor eps stands for FLT_EPSILON. */
  datatype Softening =
    | ClampDistance(eps: real)  // memory_hell.c: max(d, eps), then cubed
    | ClampCube(eps: real)      // naive_parallel.c: d cubed, then max(., eps)
    | Unclamped                 // orig_serial.c: d cubed, no floor
  {
    /** A softening with a positive floor never divides by zero. */
    predicate Clamps() {
      !Unclamped? && eps > 0.0
    }
  }

  function Cube(x: real): real {
    x * x * x
  }

  /** The divisor the program uses for a pair at distance d. */
  function Denominator(mode: Softening, d: real): real {
    match mode
    case ClampDistance(eps) => Cube(if d < eps then eps else d)
    case ClampCube(eps) => if Cube(d) < eps then eps else Cube(d)
    case Unclamped => Cube(d)
  }

  lemma CubeMonotone(a: real, b: real)
    requires 0.0 < a <= b
    ensures 0.0 < Cube(a) <= Cube(b)
  {
    assert 0.0 < a * a <= b * b;
  }

  /** The softened divisors are bounded away from zero: max(d³, eps) is at
      least eps and at least d³, and max(d, eps)³ is at least eps³. */
  lemma DenominatorPositive(mode: Softening, d: real)
    requires mode.Clamps()
    ensures Denominator(mode, d) > 0.0
    ensures mode.ClampCube? ==> Denominator(mode, d) >= mode.eps && Denominator(mode, d) >= Cube(d)
    ensures mode.ClampDistance? ==> Denominator(mode, d) >= Cube(mode.eps)
  {
    if mode.ClampDistance? {
      CubeMonotone(mode.eps, if d < mode.eps then mode.eps else d);
    }
  }

  /** When the floor does not fire, every softening divides by d³. */
  lemma DenominatorWhenFar(mode: Softening, d: real)
    requires !mode.Unclamped? ==> d >= mode.eps && Cube(d) >= mode.eps
    ensures Denominator(mode, d) == Cube(d)
  {
  }

  /** One snapshot of the system: the gravitational constant, the distance
      between two positions (a parameter standing for mod(subtractVectors(..))),
      the masses and the positions. */
  datatype Bodies = Bodies(g: real, dist: (Vec, Vec) -> real, masses: seq<real>, positions: seq<Vec>)
  {
    predicate Valid() {
      |masses| == |positions|
    }

    /** The divisor used between bodies i and j. */
    function Separation(mode: Softening, i: int, j: int): real
      requires 0 <= i < |positions| && 0 <= j < |positions|
    {
      Denominator(mode, dist(positions[i], positions[j]))
    }

    /** No pair of distinct bodies makes the divisor zero. */
    predicate Separated(mode: Softening) {
      forall i, j :: 0 <= i < |positions| && 0 <= j < |positions| && i != j ==> Separation(mode, i, j) != 0.0
    }

    /** The acceleration that body j gives body i: G m_j (p_j - p_i) / divisor. */
    function Pull(mode: Softening, i: int, j: int): Vec
      requires Valid() && 0 <= i < |positions| && 0 <= j < |positions|
      requires Separation(mode, i, j) != 0.0
    {
      Scale(g * masses[j] / Separation(mode, i, j), Sub(positions[j], positions[i]))
    }
  }

  ghost predicate Symmetric(dist: (Vec, Vec) -> real) {
    forall a, b :: dist(a, b) == dist(b, a)
  }

  lemma ClampedSeparated(b: Bodies, mode: Softening)
    requires mode.Clamps()
    ensures b.Separated(mode)
  {
    forall i, j | 0 <= i < |b.positions| && 0 <= j < |b.positions| && i != j
      ensures b.Separation(mode, i, j) != 0.0
    {
      DenominatorPositive(mode, b.dist(b.positions[i], b.positions[j]));
    }
  }

  /** The snapshot a kernel reads from a program's arrays of masses and
      positions; under a positive floor no pair of it makes the divisor
      zero. */
  function Snapshot(g: real, dist: (Vec, Vec) -> real, masses: array<real>, positions: array<Vec>,
                    mode: Softening): (b: Bodies)
    reads masses, positions
    ensures b.Valid() <==> masses.Length == positions.Length
    ensures mode.Clamps() ==> b.Separated(mode)
  {
    var b := Bodies(g, dist, masses[..], positions[..]);
    if mode.Clamps() then ClampedSeparated(b, mode); b else b
  }

  /** The sum over j < k, j != i, of the pull of j on i, accumulated in
      ascending j as the kernels do. */
  function PartialAccel(b: Bodies, mode: Softening, i: int, k: int): Vec
    requires b.Valid() && b.Separated(mode)
    requires 0 <= i < |b.positions| && 0 <= k <= |b.positions|
    decreases k
  {
    if k == 0 then Zero
    else if k - 1 == i then PartialAccel(b, mode, i, k - 1)
    else Add(PartialAccel(b, mode, i, k - 1), b.Pull(mode, i, k - 1))
  }

  /** One more term of the sum: adding the pull of j to the partial sum
      over the bodies before j gives the partial sum through j. */
  lemma AddPull(b: Bodies, mode: Softening, i: int, j: int, acc: Vec, term: Vec)
    requires b.Valid() && b.Separated(mode)
    requires 0 <= i < |b.positions| && 0 <= j < |b.positions| && i != j
    requires acc == PartialAccel(b, mode, i, j) && term == b.Pull(mode, i, j)
    ensures Add(acc, term) == PartialAccel(b, mode, i, j + 1)
  {
  }

  /** The acceleration of body i: the direct sum over every other body. */
  function Accel(b: Bodies, mode: Softening, i: int): Vec
    requires b.Valid() && b.Separated(mode) && 0 <= i < |b.positions|
  {
    PartialAccel(b, mode, i, |b.positions|)
  }

  /** Separation does not look at the masses. */
  lemma SeparationIgnoresMasses(b: Bodies, mode: Softening, ms: seq<real>)
    requires b.Valid() && |ms| == |b.masses|
    ensures b.(masses := ms).Valid()
    ensures forall x, y :: 0 <= x < |b.positions| && 0 <= y < |b.positions| ==>
      b.(masses := ms).Separation(mode, x, y) == b.Separation(mode, x, y)
    ensures b.Separated(mode) ==> b.(masses := ms).Separated(mode)
  {
  }

  /** The pull of j on i uses the mass of j only. */
  lemma PullIgnoresOwnMass(b: Bodies, mode: Softening, i: int, j: int, m: real)
    requires b.Valid() && b.Separated(mode)
    requires 0 <= i < |b.positions| && 0 <= j < |b.positions| && i != j
    ensures b.(masses := b.masses[i := m]).Separated(mode)
    ensures b.(masses := b.masses[i := m]).Pull(mode, i, j) == b.Pull(mode, i, j)
  {
    SeparationIgnoresMasses(b, mode, b.masses[i := m]);
  }

  /** The acceleration of body i does not depend on its own mass: the sum
      never takes the term j = i, and every other term uses only m_j. */
  lemma {:induction false} PartialAccelIgnoresOwnMass(b: Bodies, mode: Softening, i: int, k: int, m: real)
    requires b.Valid() && b.Separated(mode)
    requires 0 <= i < |b.positions| && 0 <= k <= |b.positions|
    ensures b.(masses := b.masses[i := m]).Separated(mode)
    ensures PartialAccel(b.(masses := b.masses[i := m]), mode, i, k) == PartialAccel(b, mode, i, k)
  {
    SeparationIgnoresMasses(b, mode, b.masses[i := m]);
    if k > 0 {
      if k - 1 != i {
        PullIgnoresOwnMass(b, mode, i, k - 1, m);
      }
      PartialAccelIgnoresOwnMass(b, mode, i, k - 1, m);
    }
  }

  lemma AccelIgnoresOwnMass(b: Bodies, mode: Softening, i: int, m: real)
    requires b.Valid() && b.Separated(mode) && 0 <= i < |b.positions|
    ensures b.(masses := b.masses[i := m]).Separated(mode)
    ensures Accel(b.(masses := b.masses[i := m]), mode, i) == Accel(b, mode, i)
  {
    PartialAccelIgnoresOwnMass(b, mode, i, |b.positions|, m);
  }

  /** With a symmetric distance, the divisor of a pair does not depend on
      the order of the two bodies. */
  lemma SeparationSymmetric(b: Bodies, mode: Softening, i: int, j: int)
    requires Symmetric(b.dist)
    requires 0 <= i < |b.positions| && 0 <= j < |b.positions|
    ensures b.Separation(mode, j, i) == b.Separation(mode, i, j)
  {
    assert b.dist(b.positions[j], b.positions[i]) == b.dist(b.positions[i], b.positions[j]);
  }

  /** Newton's third law for the pulls: with a symmetric distance,
      m_i times the pull of j on i is minus m_j times the pull of i on j. */
  lemma ThirdLaw(b: Bodies, mode: Softening, i: int, j: int)
    requires b.Valid() && b.Separated(mode) && Symmetric(b.dist)
    requires 0 <= i < |b.positions| && 0 <= j < |b.positions| && i != j
    ensures Scale(b.masses[i], b.Pull(mode, i, j)) == Scale(-1.0, Scale(b.masses[j], b.Pull(mode, j, i)))
  {
    SeparationSymmetric(b, mode, i, j);
    var p, q := b.Pull(mode, i, j), b.Pull(mode, j, i);
    Opposite(p, q, b.g, b.Separation(mode, i, j), b.masses[i], b.masses[j],
      Sub(b.positions[j], b.positions[i]), Sub(b.positions[i], b.positions[j]));
  }

  /** The arithmetic core of ThirdLaw. */
  lemma Opposite(p: Vec, q: Vec, g: real, d: real, mi: real, mj: real, u: Vec, w: Vec)
    requires d != 0.0 && w.x == -u.x && w.y == -u.y
    requires p == Scale(g * mj / d, u) && q == Scale(g * mi / d, w)
    ensures Scale(mi, p) == Scale(-1.0, Scale(mj, q))
  {
    var k := g / d;
    assert g * mj / d == k * mj;
    assert g * mi / d == k * mi;
    assert mi * (k * mj * u.x) == -1.0 * (mj * (k * mi * w.x));
    assert mi * (k * mj * u.y) == -1.0 * (mj * (k * mi * w.y));
  }

  /** No floor fires between any two distinct bodies. */
  ghost predicate NoClampFires(b: Bodies, eps: real) {
    forall i, j :: 0 <= i < |b.positions| && 0 <= j < |b.positions| && i != j ==>
      b.dist(b.positions[i], b.positions[j]) >= eps && Cube(b.dist(b.positions[i], b.positions[j])) >= eps
  }

  lemma {:induction false} PartialAccelAgree(b: Bodies, eps: real, i: int, k: int)
    requires b.Valid() && eps > 0.0 && NoClampFires(b, eps)
    requires 0 <= i < |b.positions| && 0 <= k <= |b.positions|
    ensures b.Separated(ClampDistance(eps)) && b.Separated(ClampCube(eps)) && b.Separated(Unclamped)
    ensures PartialAccel(b, ClampDistance(eps), i, k) == PartialAccel(b, ClampCube(eps), i, k)
    ensures PartialAccel(b, Unclamped, i, k) == PartialAccel(b, ClampCube(eps), i, k)
  {
    ClampedSeparated(b, ClampDistance(eps));
    ClampedSeparated(b, ClampCube(eps));
    forall x, y | 0 <= x < |b.positions| && 0 <= y < |b.positions| && x != y
      ensures b.Separation(ClampDistance(eps), x, y) == b.Separation(Unclamped, x, y)
      ensures b.Separation(ClampCube(eps), x, y) == b.Separation(Unclamped, x, y)
      ensures b.Separation(Unclamped, x, y) != 0.0
    {
      var d := b.dist(b.positions[x], b.positions[y]);
      DenominatorWhenFar(ClampDistance(eps), d);
      DenominatorWhenFar(ClampCube(eps), d);
      DenominatorWhenFar(Unclamped, d);
    }
    if k > 0 {
      PartialAccelAgree(b, eps, i, k - 1);
    }
  }

  /** When no floor fires, the three programs' accelerations coincide: the
      force-sharing kernel, the naive kernel and the serial kernel compute
      the same direct sum. */
  lemma AccelAgree(b: Bodies, eps: real, i: int)
    requires b.Valid() && eps > 0.0 && NoClampFires(b, eps) && 0 <= i < |b.positions|
    ensures b.Separated(ClampDistance(eps)) && b.Separated(ClampCube(eps)) && b.Separated(Unclamped)
    ensures Accel(b, ClampDistance(eps), i) == Accel(b, ClampCube(eps), i) == Accel(b, Unclamped, i)
  {
    PartialAccelAgree(b, eps, i, |b.positions|);
  }

  /** The explicit Euler update of the entries in [first, last):
      s'[k] = s[k] + DT * rate[k]; every other entry is kept. */
  function Advance(s: seq<Vec>, rate: seq<Vec>, first: int, last: int): (r: seq<Vec>)
    requires |s| == |rate|
    ensures |r| == |s|
  {
    seq(|s|, k requires 0 <= k < |s| => if first <= k < last then Add(s[k], Scale(DT, rate[k])) else s[k])
  }

  /** Updating [a, b) and then [b, c) is updating [a, c): adjacent ranges
      compose into one. */
  lemma AdvanceSplit(s: seq<Vec>, rate: seq<Vec>, a: int, b: int, c: int)
    requires |s| == |rate| && a <= b <= c
    ensures Advance(Advance(s, rate, a, b), rate, b, c) == Advance(s, rate, a, c)
  {
  }

  /** An empty range leaves everything as it is. */
  lemma AdvanceEmpty(s: seq<Vec>, rate: seq<Vec>, first: int, last: int)
    requires |s| == |rate| && first >= last
    ensures Advance(s, rate, first, last) == s
  {
  }

  /** The accelerations of all bodies. */
  function Accelerations(b: Bodies, mode: Softening): (a: seq<Vec>)
    requires b.Valid() && b.Separated(mode)
    ensures |a| == |b.positions|
  {
    seq(|b.positions|, i requires 0 <= i < |b.positions| => Accel(b, mode, i))
  }

  /** One time step: positions advance with the velocities from before the
      step, then velocities advance with the new accelerations. The result is
      the pair (positions, velocities). */
  function StepSpec(b: Bodies, mode: Softening, v: seq<Vec>): (seq<Vec>, seq<Vec>)
    requires b.Valid() && b.Separated(mode) && |v| == |b.positions|
  {
    (Advance(b.positions, v, 0, |v|), Advance(v, Accelerations(b, mode), 0, |v|))
  }

  /** The state after a number of steps with a softening that clamps. */
  function Evolve(b: Bodies, mode: Softening, v: seq<Vec>, steps: nat): (state: (seq<Vec>, seq<Vec>))
    requires b.Valid() && mode.Clamps() && |v| == |b.positions|
    ensures |state.0| == |b.positions| && |state.1| == |b.positions|
    decreases steps
  {
    if steps == 0 then (b.positions, v)
    else
      ClampedSeparated(b, mode);
      var next := StepSpec(b, mode, v);
      Evolve(b.(positions := next.0), mode, next.1, steps - 1)
  }

  /** No floor fires at any of the first `steps` states of the run. */
  ghost predicate ClampFree(b: Bodies, eps: real, v: seq<Vec>, steps: nat)
    requires b.Valid() && eps > 0.0 && |v| == |b.positions|
    decreases steps
  {
    steps == 0 ||
    (NoClampFires(b, eps) &&
      (ClampedSeparated(b, ClampDistance(eps));
       var next := StepSpec(b, ClampDistance(eps), v);
       ClampFree(b.(positions := next.0), eps, next.1, steps - 1)))
  }

  /** As long as no floor fires, the force-sharing program and the naive
      program produce the same trajectory. */
  lemma {:induction false} EvolveAgree(b: Bodies, eps: real, v: seq<Vec>, steps: nat)
    requires b.Valid() && eps > 0.0 && |v| == |b.positions|
    requires ClampFree(b, eps, v, steps)
    ensures Evolve(b, ClampDistance(eps), v, steps) == Evolve(b, ClampCube(eps), v, steps)
    decreases steps
  {
    if steps > 0 {
      ClampedSeparated(b, ClampDistance(eps));
      ClampedSeparated(b, ClampCube(eps));
      forall i | 0 <= i < |b.positions|
        ensures Accel(b, ClampDistance(eps), i) == Accel(b, ClampCube(eps), i)
      {
        AccelAgree(b, eps, i);
      }
      assert Accelerations(b, ClampDistance(eps)) == Accelerations(b, ClampCube(eps));
      var next := StepSpec(b, ClampDistance(eps), v);
      EvolveAgree(b.(positions := next.0), eps, next.1, steps - 1);
    }
  }
}
