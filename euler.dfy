/** The range-restricted Euler updates computePositions and computeVelocities,
    which the three programs write identically: entry k of the target array
    moves by DT times entry k of the rate array, for k in [first, last). The
    threaded programs run one such call per worker; the serial program runs
    one over all bodies. */
module Euler {
  import opened Vectors
  import opened Gravity
  import opened Partition

  /** computePositions(first, last) with (s, rate) = (positions, velocities),
      computeVelocities(first, last) with (s, rate) = (velocities,
      accelerations): only the entries in [first, last) change, each by
      DT times its rate; the rate array is only read. */
  method AdvanceRange(s: array<Vec>, rate: array<Vec>, first: int, last: int)
    requires s != rate && s.Length == rate.Length && ValidRange(s.Length, first, last)
    modifies s
    ensures s[..] == Advance(old(s[..]), rate[..], first, last)
  {
    var i := first;
    while i < last
      invariant first <= i && (first < last ==> i <= last) && (first >= last ==> i == first)
      invariant s[..] == Advance(old(s[..]), rate[..], first, i)
    {
      s[i] := Add(s[i], Scale(DT, rate[i]));
      i := i + 1;
    }
    if first >= last {
      AdvanceEmpty(old(s[..]), rate[..], first, first);
      AdvanceEmpty(old(s[..]), rate[..], first, last);
    }
  }

  /** Every worker runs the update on its own range, in rank order; the
      ranges tile [0, N), so together they update every body once. */
  method AdvanceByRanks(s: array<Vec>, rate: array<Vec>, threads: int)
    requires s != rate && s.Length == rate.Length && threads >= 1
    modifies s
    ensures s[..] == Advance(old(s[..]), rate[..], 0, s.Length)
  {
    var r := 0;
    while r < threads
      invariant 0 <= r <= threads
      invariant s[..] == Advance(old(s[..]), rate[..], 0, Done(s.Length, threads, r))
    {
      var range := RankRange(s.Length, threads, r);
      RangeChain(s.Length, threads, r);
      ghost var before := s[..];
      AdvanceRange(s, rate, range.0, range.1);
      if range.0 < range.1 {
        AdvanceSplit(old(s[..]), rate[..], 0, range.0, range.1);
      } else {
        AdvanceEmpty(before, rate[..], range.0, range.1);
      }
      r := r + 1;
    }
  }
}
