/** The plain acceleration kernel of the naive threaded program and of the
    serial program: for every body i of [first, last), reset a_i to zero and
    add the pull of every other body j, in ascending j. The two programs
    differ only in how they turn the distance into a divisor (Softening). */
module DirectSum {
  import opened Vectors
  import opened Gravity
  import opened Partition

  /** computeAccelerations(first, last): the entries of [first, last) become
      the direct-sum accelerations of the current positions and masses; no
      other entry changes, and masses and positions are only read. The
      precondition Separated(mode) holds for every clamping softening and is
      the serial program's demand that no two bodies coincide. */
  method ComputeAccelerations(g: real, dist: (Vec, Vec) -> real, mode: Softening,
                              masses: array<real>, positions: array<Vec>, accelerations: array<Vec>,
                              first: int, last: int)
    requires masses.Length == positions.Length == accelerations.Length
    requires positions != accelerations
    requires ValidRange(positions.Length, first, last)
    requires Bodies(g, dist, masses[..], positions[..]).Separated(mode)
    modifies accelerations
    ensures forall k :: 0 <= k < accelerations.Length ==>
      accelerations[k] == if first <= k < last then Accel(Bodies(g, dist, masses[..], positions[..]), mode, k)
                          else old(accelerations[k])
  {
    ghost var b := Bodies(g, dist, masses[..], positions[..]);
    var i := first;
    while i < last
      invariant first <= i && (first < last ==> i <= last) && (first >= last ==> i == first)
      invariant forall k :: 0 <= k < accelerations.Length ==>
        accelerations[k] == if first <= k < i then Accel(b, mode, k) else old(accelerations[k])
    {
      AccumulateBody(g, dist, mode, masses, positions, accelerations, i);
      i := i + 1;
    }
  }

  /** The body of the outer loop for one body i: a_i is reset to zero and
      receives the pull of every j != i, in ascending j. */
  method AccumulateBody(g: real, dist: (Vec, Vec) -> real, mode: Softening,
                        masses: array<real>, positions: array<Vec>, accelerations: array<Vec>, i: int)
    requires masses.Length == positions.Length == accelerations.Length
    requires positions != accelerations && 0 <= i < positions.Length
    requires Bodies(g, dist, masses[..], positions[..]).Separated(mode)
    modifies accelerations
    ensures accelerations[..] == old(accelerations[..])[i := Accel(Bodies(g, dist, masses[..], positions[..]), mode, i)]
  {
    ghost var b := Bodies(g, dist, masses[..], positions[..]);
    var n := positions.Length;
    accelerations[i] := Zero;
    var j := 0;
    while j < n
      invariant 0 <= j <= n
      invariant accelerations[..] == old(accelerations[..])[i := PartialAccel(b, mode, i, j)]
    {
      if i != j {
        var denom := Denominator(mode, dist(positions[i], positions[j]));
        assert denom == b.Separation(mode, i, j) != 0.0;
        var m, pi, pj := masses[j], positions[i], positions[j];
        var pull := Scale(g * m / denom, Sub(pj, pi));
        PullIs(b, mode, i, j, g, m, pi, pj, denom, pull);
        accelerations[i] := Add(accelerations[i], pull);
      }
      j := j + 1;
    }
  }

  /** The term the kernel adds for the pair (i, j) is the pull of j on i. */
  lemma PullIs(b: Bodies, mode: Softening, i: int, j: int, g: real, m: real, pi: Vec, pj: Vec, denom: real, pull: Vec)
    requires b.Valid() && 0 <= i < |b.positions| && 0 <= j < |b.positions|
    requires g == b.g && m == b.masses[j] && pi == b.positions[i] && pj == b.positions[j]
    requires denom == b.Separation(mode, i, j) && denom != 0.0
    requires pull == Scale(g * m / denom, Sub(pj, pi))
    ensures pull == b.Pull(mode, i, j)
  {
  }
}
