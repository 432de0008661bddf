/** How the two threaded programs split the N bodies among T worker threads
    (memory_hell.c and naive_parallel.c share this arithmetic), the rank
    lookup getRank of memory_hell.c, and the conditions under which the
    force-sharing kernel posts and waits on a pair's semaphore.
    All quantities are C `int`s that stay non-negative; overflow of r * L is
    not modelled. */
module Partition {

  /** Helper facts about integer division by a positive divisor. */
  lemma DivBounds(b: int, l: int)
    requires b >= 0 && l >= 1
    ensures b / l >= 0 && (b / l) * l <= b < (b / l) * l + l
  {
  }

  lemma MulLeq(a: int, b: int, c: int)
    requires a <= b && c >= 0
    ensures a * c <= b * c
  {
  }

  lemma DivIsUnique(b: int, l: int, q: int)
    requires l >= 1 && q * l <= b < q * l + l
    ensures b / l == q
  {
    var p := b / l;
    DivBounds(if b >= 0 then b else 0, l);
    if b < 0 {
      assert p * l <= b < p * l + l;
    }
    if p < q {
      MulLeq(p + 1, q, l);
      assert false;
    } else if p > q {
      MulLeq(q + 1, p, l);
      assert false;
    }
  }

  lemma DivMonotone(a: int, b: int, l: int)
    requires 0 <= a <= b && l >= 1
    ensures a / l <= b / l
  {
    DivBounds(a, l);
    DivBounds(b, l);
    if a / l > b / l {
      MulLeq(b / l + 1, a / l, l);
      assert false;
    }
  }

  /** localBodies = N / T, raised to 1 when there are more threads than
      bodies. */
  function LocalBodies(n: nat, t: int): (l: int)
    requires t >= 1
    ensures l >= 1
    ensures t <= n ==> l * t <= n < l * t + t
    ensures t > n ==> l == 1
  {
    var q := n / t;
    DivBounds(n, t);
    if q < 1 then 1 else q
  }

  /** A half-open range [first, last) that a worker may be given: it starts
      at a valid index, and it ends inside the bodies unless it is empty. */
  predicate ValidRange(n: int, first: int, last: int) {
    0 <= first && (first < last ==> last <= n)
  }

  predicate Owns(range: (int, int), b: int) {
    range.0 <= b < range.1
  }

  /** The range [first, last) that worker r updates: r * L bodies in, L wide;
      a range that would run past N is made empty; the last worker takes
      everything up to N. */
  function RankRange(n: nat, t: int, r: int): (range: (int, int))
    requires t >= 1 && 0 <= r < t
    ensures ValidRange(n, range.0, range.1)
  {
    var l := LocalBodies(n, t);
    var first := r * l;
    var last := if first + l > n then first else first + l;
    MulLeq(0, r, l);
    (first, if r == t - 1 then n else last)
  }

  /** The worker that owns body b: b / L, except that every body at or past
      the last worker's start belongs to the last worker. This is what
      getRank evidently means to compute. */
  function Owner(n: nat, t: int, b: int): (r: int)
    requires t >= 1 && 0 <= b < n
    ensures 0 <= r < t && Owns(RankRange(n, t, r), b)
  {
    var l := LocalBodies(n, t);
    var q := b / l;
    DivBounds(b, l);
    if q < t - 1 then
      MulLeq(q + 1, t, l);
      q
    else
      MulLeq(t - 1, q, l);
      t - 1
  }

  /** Ranges are disjoint and lie inside the bodies: a body that rank r's
      range contains is a real body, and r is its owner. With Owner's own
      contract this says that the ranges partition [0, N). */
  lemma OwnerUnique(n: nat, t: int, r: int, b: int)
    requires t >= 1 && 0 <= r < t && Owns(RankRange(n, t, r), b)
    ensures 0 <= b < n && Owner(n, t, b) == r
  {
    var l := LocalBodies(n, t);
    MulLeq(0, r, l);
    if r < t - 1 {
      DivIsUnique(b, l, r);
    } else {
      DivBounds(b, l);
      DivIsUnique((t - 1) * l, l, t - 1);
      DivMonotone((t - 1) * l, b, l);
    }
  }

  /** Owner never decreases along the body indices. */
  lemma OwnerMonotone(n: nat, t: int, a: int, b: int)
    requires t >= 1 && 0 <= a <= b < n
    ensures Owner(n, t, a) <= Owner(n, t, b)
  {
    DivMonotone(a, b, LocalBodies(n, t));
  }

  /** The number of bodies covered by ranks 0 .. r-1. */
  function Done(n: nat, t: int, r: int): (d: int)
    requires t >= 1 && 0 <= r <= t
    ensures 0 <= d <= n
  {
    if r == t then n
    else
      var f := r * LocalBodies(n, t);
      MulLeq(0, r, LocalBodies(n, t));
      if f < n then f else n
  }

  /** Taken in ascending rank order, the ranges tile [0, N) with no gap and
      no overlap: a non-empty range of rank r starts where ranks 0 .. r-1
      stop and ends where rank r + 1 starts; an empty one covers nothing.
      Rank 0 starts at body 0 and the last rank ends at N. */
  lemma {:induction false} RangeChain(n: nat, t: int, r: int)
    requires t >= 1 && 0 <= r < t
    ensures Done(n, t, 0) == 0 && Done(n, t, t) == n
    ensures RankRange(n, t, r).0 < RankRange(n, t, r).1 ==>
      RankRange(n, t, r).0 == Done(n, t, r) && RankRange(n, t, r).1 == Done(n, t, r + 1)
    ensures RankRange(n, t, r).0 >= RankRange(n, t, r).1 ==> Done(n, t, r) == Done(n, t, r + 1)
  {
    var l := LocalBodies(n, t);
    if t <= n {
      MulLeq(r, t, l);
      MulLeq(r + 1, t, l);
      assert r * l + l == (r + 1) * l;
    } else {
      assert l == 1;
    }
  }

  /** getRank as written: b / localBodies, with a quotient equal to T moved
      back to T - 1. */
  function GetRank(n: nat, t: int, b: int): int
    requires t >= 1 && 0 <= b
  {
    var rank := b / LocalBodies(n, t);
    if rank == t then t - 1 else rank
  }

  /** getRank never decreases along the body indices. */
  lemma GetRankMonotone(n: nat, t: int, a: int, b: int)
    requires t >= 1 && 0 <= a <= b
    ensures GetRank(n, t, a) <= GetRank(n, t, b)
  {
    DivMonotone(a, b, LocalBodies(n, t));
  }

  /** getRank returns the owner for the bodies of every worker but the last,
      and at least the last rank for the last worker's bodies. */
  lemma GetRankVersusOwner(n: nat, t: int, b: int)
    requires t >= 1 && 0 <= b < n
    ensures Owner(n, t, b) < t - 1 ==> GetRank(n, t, b) == Owner(n, t, b)
    ensures Owner(n, t, b) == t - 1 ==> GetRank(n, t, b) >= t - 1
  {
  }

  /** getRank gives the last worker's bodies exactly rank T - 1 if and only
      if there are more threads than bodies, or the remainder N mod T is at
      most N / T. */
  lemma GetRankExactOnLastRange(n: nat, t: int)
    requires t >= 1
    ensures (forall b :: Owns(RankRange(n, t, t - 1), b) ==> GetRank(n, t, b) == t - 1)
        <==> (t > n || n % t <= n / t)
  {
    var l := LocalBodies(n, t);
    var range := RankRange(n, t, t - 1);
    if t > n {
      assert range.0 == t - 1 && range.1 == n;
    } else {
      assert l == n / t;
      assert n == t * l + n % t;
      if n % t <= l {
        forall b | Owns(range, b) ensures GetRank(n, t, b) == t - 1 {
          DivBounds(b, l);
          DivIsUnique((t - 1) * l, l, t - 1);
          DivMonotone((t - 1) * l, b, l);
          if b / l > t {
            MulLeq(t + 1, b / l, l);
            assert false;
          }
        }
      } else {
        var b := n - 1;
        MulLeq(t - 1, t, l);
        assert Owns(range, b);
        DivIsUnique((t + 1) * l, l, t + 1);
        DivMonotone((t + 1) * l, b, l);
        assert GetRank(n, t, b) != t - 1;
      }
    }
  }

  /** With 11 bodies and 4 threads, L = 2 and body 10 belongs to worker 3,
      but getRank(10) = 10 / 2 = 5. */
  lemma GetRankCounterexample()
    ensures Owns(RankRange(11, 4, 3), 10) && Owner(11, 4, 10) == 3
    ensures GetRank(11, 4, 10) == 5
  {
  }

  /** memory_hell.c:119-125: the computing side i < j posts the pair's
      semaphore when getRank(i) < getRank(j). */
  predicate Posts(n: nat, t: int, i: int, j: int)
    requires t >= 1 && 0 <= i && 0 <= j
  {
    i < j && GetRank(n, t, i) < GetRank(n, t, j)
  }

  /** memory_hell.c:114-116: the reusing side i > j waits on the pair's
      semaphore when getRank(i) > getRank(j). */
  predicate Waits(n: nat, t: int, i: int, j: int)
    requires t >= 1 && 0 <= i && 0 <= j
  {
    i > j && GetRank(n, t, i) > GetRank(n, t, j)
  }

  /** For a pair j < i the post at body j and the wait at body i fire under
      the same condition, so every wait has exactly one matching post. */
  lemma PostsMatchWaits(n: nat, t: int, j: int, i: int)
    requires t >= 1 && 0 <= j < i
    ensures Posts(n, t, j, i) <==> Waits(n, t, i, j)
  {
  }

  /** Every pair whose bodies have different owners goes through its
      semaphore, whatever getRank returns in the last worker's range. */
  lemma CrossOwnerPairsGated(n: nat, t: int, j: int, i: int)
    requires t >= 1 && 0 <= j < i < n && Owner(n, t, j) != Owner(n, t, i)
    ensures Posts(n, t, j, i) && Waits(n, t, i, j)
  {
    OwnerMonotone(n, t, j, i);
    GetRankVersusOwner(n, t, j);
    GetRankVersusOwner(n, t, i);
  }

  /** A worker only waits on pairs whose computing body belongs to itself
      or to a lower rank, so the waits cannot form a cycle. */
  lemma WaitsOnLowerRanks(n: nat, t: int, i: int, j: int)
    requires t >= 1 && 0 <= j && 0 <= i < n && Waits(n, t, i, j)
    ensures Owner(n, t, j) <= Owner(n, t, i)
  {
    OwnerMonotone(n, t, j, i);
  }
}
