/** The N x N force cache of memory_hell.c and its per-pair semaphores, as
    values. Body j's pass stores the force of the pair (j, i), j < i, in slot
    j * N + i; body i's pass reads it back and negates it. When getRank(j) <
    getRank(i) the storing side posts the pair's semaphore and the reading
    side waits on it. CacheAt describes the cache and the semaphore counts
    at every point of a sweep that takes the bodies in ascending order, and
    the lemmas below carry it from one loop iteration to the next. */
module ForceCache {
  import opened Vectors
  import opened Gravity
  import opened Partition

  /** Index of the cache entry for the pair (row, col): row * N + col. It
      stays below N * N. */
  function Slot(n: int, row: int, col: int): (s: int)
    requires 0 <= row < n && 0 <= col < n
    ensures 0 <= s < n * n
  {
    MulLeq(row, n - 1, n);
    assert (n - 1) * n + n == n * n;
    row * n + col
  }

  /** Different pairs have different slots. */
  lemma SlotInjective(n: int, a: int, b: int, c: int, d: int)
    requires 0 <= a < n && 0 <= b < n && 0 <= c < n && 0 <= d < n
    requires Slot(n, a, b) == Slot(n, c, d)
    ensures a == c && b == d
  {
    DivIsUnique(Slot(n, a, b), n, a);
    DivIsUnique(Slot(n, c, d), n, c);
  }

  /** Every index below N * N is the slot of some pair. */
  lemma SlotCovers(n: nat, s: int)
    requires 0 <= s < n * n
    ensures 0 <= s / n < n && 0 <= s % n < n && Slot(n, s / n, s % n) == s
  {
    DivBounds(s, n);
    if s / n >= n {
      MulLeq(n, s / n, n);
      assert false;
    }
  }

  /** The force stored for the pair (i, j) by body i's pass (line 123):
      G m_i m_j (p_j - p_i) / divisor. */
  function SharedForce(b: Bodies, soft: Softening, i: int, j: int): Vec
    requires b.Valid() && b.Separated(soft)
    requires 0 <= i < |b.positions| && 0 <= j < |b.positions| && i != j
  {
    Scale(b.g * b.masses[i] * b.masses[j] / b.Separation(soft, i, j), Sub(b.positions[j], b.positions[i]))
  }

  /** The force the kernel computes from the values it has read is the
      stored force of the pair (i, j). */
  lemma SharedForceIs(b: Bodies, soft: Softening, i: int, j: int,
                      g: real, mi: real, mj: real, pi: Vec, pj: Vec, denom: real, force: Vec)
    requires b.Valid() && b.Separated(soft)
    requires 0 <= i < |b.positions| && 0 <= j < |b.positions| && i != j
    requires g == b.g && mi == b.masses[i] && mj == b.masses[j] && pi == b.positions[i] && pj == b.positions[j]
    requires denom == b.Separation(soft, i, j) && denom != 0.0
    requires force == Scale(g * mi * mj / denom, Sub(pj, pi))
    ensures force == SharedForce(b, soft, i, j)
  {
  }

  /** The arithmetic core of SharedForceAntisymmetric. */
  lemma Negated(p: Vec, q: Vec, g: real, mi: real, mj: real, d: real, u: Vec, w: Vec)
    requires d != 0.0 && w.x == -u.x && w.y == -u.y
    requires p == Scale(g * mi * mj / d, u) && q == Scale(g * mj * mi / d, w)
    ensures q == Scale(-1.0, p)
  {
    assert g * mj * mi == g * mi * mj;
  }

  /** The force of the pair (j, i) is minus the force of the pair (i, j):
      this is what lets body i reuse, negated, the force body j stored. */
  lemma SharedForceAntisymmetric(b: Bodies, soft: Softening, i: int, j: int)
    requires b.Valid() && b.Separated(soft) && Symmetric(b.dist)
    requires 0 <= i < |b.positions| && 0 <= j < |b.positions| && i != j
    ensures SharedForce(b, soft, j, i) == Scale(-1.0, SharedForce(b, soft, i, j))
  {
    SeparationSymmetric(b, soft, i, j);
    Negated(SharedForce(b, soft, i, j), SharedForce(b, soft, j, i), b.g, b.masses[i], b.masses[j],
      b.Separation(soft, i, j), Sub(b.positions[j], b.positions[i]), Sub(b.positions[i], b.positions[j]));
  }

  /** The arithmetic core of ComputeSideContribution. */
  lemma Unscaled(p: Vec, q: Vec, g: real, mi: real, mj: real, d: real, u: Vec)
    requires mi != 0.0 && d != 0.0
    requires p == Scale(g * mi * mj / d, u) && q == Scale(g * mj / d, u)
    ensures Scale(1.0 / mi, p) == q
  {
    var c := g * mj / d;
    assert g * mi * mj / d == mi * c;
    assert (1.0 / mi) * (mi * c) == c;
  }

  /** On the computing side (i < j) the kernel adds the stored force divided
      by m_i, which is exactly the pull of j on i. */
  lemma ComputeSideContribution(b: Bodies, soft: Softening, i: int, j: int)
    requires b.Valid() && b.Separated(soft)
    requires 0 <= i < |b.positions| && 0 <= j < |b.positions| && i != j && b.masses[i] != 0.0
    ensures Scale(1.0 / b.masses[i], SharedForce(b, soft, i, j)) == b.Pull(soft, i, j)
  {
    Unscaled(SharedForce(b, soft, i, j), b.Pull(soft, i, j), b.g, b.masses[i], b.masses[j],
      b.Separation(soft, i, j), Sub(b.positions[j], b.positions[i]));
  }

  /** On the reusing side (i > j) the kernel adds minus the force body j
      stored, divided by m_i; with a symmetric distance that is again exactly
      the pull of j on i. */
  lemma ReuseSideContribution(b: Bodies, soft: Softening, i: int, j: int)
    requires b.Valid() && b.Separated(soft) && Symmetric(b.dist)
    requires 0 <= i < |b.positions| && 0 <= j < |b.positions| && i != j && b.masses[i] != 0.0
    ensures Scale(1.0 / b.masses[i], Scale(-1.0, SharedForce(b, soft, j, i))) == b.Pull(soft, i, j)
  {
    SharedForceAntisymmetric(b, soft, i, j);
    var f := SharedForce(b, soft, i, j);
    assert Scale(-1.0, Scale(-1.0, f)) == f;
    ComputeSideContribution(b, soft, i, j);
  }

  /** At sweep position (k, col) the pair (j, i) has been stored when body
      j's pass is over, or is under way and past column i. */
  predicate Written(k: int, col: int, j: int, i: int) {
    j < k || (j == k && i < col)
  }

  /** ... and body i's pass has read it back likewise. */
  predicate Consumed(k: int, col: int, j: int, i: int) {
    i < k || (i == k && j < col)
  }

  /** The cache f and the semaphore counts at sweep position (k, col): every
      pair j < i already stored holds this step's force, and a pair's
      semaphore is 1 exactly when the pair was stored, is not yet read, and
      is one of the pairs whose storing side posts; every other count is 0. */
  ghost predicate CacheAt(b: Bodies, soft: Softening, t: int, k: int, col: int, f: seq<Vec>, gates: seq<int>)
    requires b.Valid() && soft.Clamps() && t >= 1
  {
    ClampedSeparated(b, soft);
    var n := |b.positions|;
    |f| == n * n && |gates| == n * n &&
    (forall j, i :: 0 <= j < i < n && Written(k, col, j, i) ==> f[Slot(n, j, i)] == SharedForce(b, soft, j, i)) &&
    (forall j, i :: 0 <= j < n && 0 <= i < n ==>
      gates[Slot(n, j, i)] == if Written(k, col, j, i) && !Consumed(k, col, j, i) && Posts(n, t, j, i) then 1 else 0)
  }

  /** With every semaphore at zero (as sem_init leaves them), the sweep can
      start at body 0. */
  lemma CacheStart(b: Bodies, soft: Softening, t: int, f: seq<Vec>, gates: seq<int>)
    requires b.Valid() && soft.Clamps() && t >= 1
    requires |f| == |b.positions| * |b.positions| && |gates| == |f|
    requires forall s :: 0 <= s < |gates| ==> gates[s] == 0
    ensures CacheAt(b, soft, t, 0, 0, f, gates)
  {
  }

  /** When the sweep is over, every post has been matched by a wait and all
      semaphores are back at zero. */
  lemma CacheEnd(b: Bodies, soft: Softening, t: int, f: seq<Vec>, gates: seq<int>)
    requires b.Valid() && soft.Clamps() && t >= 1
    requires CacheAt(b, soft, t, |b.positions|, 0, f, gates)
    ensures forall s :: 0 <= s < |gates| ==> gates[s] == 0
  {
    var n := |b.positions|;
    forall s | 0 <= s < |gates| ensures gates[s] == 0 {
      SlotCovers(n, s);
      assert gates[Slot(n, s / n, s % n)] == 0;
    }
  }

  /** The column j == i is skipped and changes nothing. */
  lemma SelfStep(b: Bodies, soft: Softening, t: int, k: int, f: seq<Vec>, gates: seq<int>)
    requires b.Valid() && soft.Clamps() && t >= 1 && 0 <= k < |b.positions|
    requires CacheAt(b, soft, t, k, k, f, gates)
    ensures CacheAt(b, soft, t, k, k + 1, f, gates)
  {
    var n := |b.positions|;
    forall j, i | 0 <= j < n && 0 <= i < n
      ensures gates[Slot(n, j, i)] ==
        if Written(k, k + 1, j, i) && !Consumed(k, k + 1, j, i) && Posts(n, t, j, i) then 1 else 0
    {
    }
  }

  /** Column col < k of body k's pass reads the pair (col, k): it was stored
      in body col's earlier pass, and its semaphore is raised exactly when
      the reading side waits (line 116), so the wait never blocks. After the
      wait the sweep moves on to column col + 1. */
  lemma ReuseStep(b: Bodies, soft: Softening, t: int, k: int, col: int, f: seq<Vec>, gates: seq<int>, gates': seq<int>)
    requires b.Valid() && soft.Clamps() && t >= 1 && 0 <= col < k < |b.positions|
    requires CacheAt(b, soft, t, k, col, f, gates)
    requires var s := Slot(|b.positions|, col, k);
      gates' == if Waits(|b.positions|, t, k, col) then gates[s := gates[s] - 1] else gates
    ensures b.Separated(soft)
    ensures f[Slot(|b.positions|, col, k)] == SharedForce(b, soft, col, k)
    ensures gates[Slot(|b.positions|, col, k)] == if Waits(|b.positions|, t, k, col) then 1 else 0
    ensures CacheAt(b, soft, t, k, col + 1, f, gates')
  {
    var n := |b.positions|;
    var s := Slot(n, col, k);
    ClampedSeparated(b, soft);
    PostsMatchWaits(n, t, col, k);
    assert f[s] == SharedForce(b, soft, col, k);
    forall j, i | 0 <= j < n && 0 <= i < n
      ensures gates'[Slot(n, j, i)] ==
        if Written(k, col + 1, j, i) && !Consumed(k, col + 1, j, i) && Posts(n, t, j, i) then 1 else 0
    {
      if Slot(n, j, i) == s {
        SlotInjective(n, j, i, col, k);
      }
    }
  }

  /** Column col > k of body k's pass computes the pair (k, col), stores it
      in a slot no earlier pass has touched this step, and posts its
      semaphore (line 125) under the condition that body col's pass will
      wait on it. */
  lemma ComputeStep(b: Bodies, soft: Softening, t: int, k: int, col: int,
                    f: seq<Vec>, gates: seq<int>, f': seq<Vec>, gates': seq<int>)
    requires b.Valid() && soft.Clamps() && b.Separated(soft) && t >= 1 && 0 <= k < col < |b.positions|
    requires CacheAt(b, soft, t, k, col, f, gates)
    requires var s := Slot(|b.positions|, k, col);
      f' == f[s := SharedForce(b, soft, k, col)] &&
      gates' == if Posts(|b.positions|, t, k, col) then gates[s := gates[s] + 1] else gates
    ensures gates[Slot(|b.positions|, k, col)] == 0
    ensures CacheAt(b, soft, t, k, col + 1, f', gates')
  {
    var n := |b.positions|;
    var s := Slot(n, k, col);
    assert gates[s] == 0;
    forall j, i | 0 <= j < i < n && Written(k, col + 1, j, i)
      ensures f'[Slot(n, j, i)] == SharedForce(b, soft, j, i)
    {
      if Slot(n, j, i) == s {
        SlotInjective(n, j, i, k, col);
      }
    }
    forall j, i | 0 <= j < n && 0 <= i < n
      ensures gates'[Slot(n, j, i)] ==
        if Written(k, col + 1, j, i) && !Consumed(k, col + 1, j, i) && Posts(n, t, j, i) then 1 else 0
    {
      if Slot(n, j, i) == s {
        SlotInjective(n, j, i, k, col);
      }
    }
  }

  /** The end of body k's pass is the start of body k + 1's. */
  lemma RowDone(b: Bodies, soft: Softening, t: int, k: int, f: seq<Vec>, gates: seq<int>)
    requires b.Valid() && soft.Clamps() && t >= 1 && 0 <= k < |b.positions|
    requires CacheAt(b, soft, t, k, |b.positions|, f, gates)
    ensures CacheAt(b, soft, t, k + 1, 0, f, gates)
  {
    var n := |b.positions|;
    ClampedSeparated(b, soft);
    forall j, i | 0 <= j < n && 0 <= i < n
      ensures gates[Slot(n, j, i)] ==
        if Written(k + 1, 0, j, i) && !Consumed(k + 1, 0, j, i) && Posts(n, t, j, i) then 1 else 0
    {
    }
  }
}
