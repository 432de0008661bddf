/** resolveCollisions of the serial program, as a specification: for every
    pair i < j, in row-major order, the velocities of i and j are exchanged
    when the two bodies are at exactly the same position. The positions are
    only read. */
module Collisions {
  import opened Vectors

  /** v with entries i and j exchanged. */
  function Swap<T>(v: seq<T>, i: int, j: int): (r: seq<T>)
    requires 0 <= i < |v| && 0 <= j < |v|
    ensures |r| == |v| && multiset(r) == multiset(v)
    ensures r[i] == v[j] && r[j] == v[i]
    ensures forall k :: 0 <= k < |v| && k != i && k != j ==> r[k] == v[k]
  {
    v[i := v[j]][j := v[i]]
  }

  /** The inner loop for body i, from column j to the end. */
  function CollideRow(p: seq<Vec>, v: seq<Vec>, i: int, j: int): (r: seq<Vec>)
    requires |p| == |v| && 0 <= i < j <= |v|
    ensures |r| == |v| && multiset(r) == multiset(v)
    decreases |v| - j
  {
    if j == |v| then v
    else CollideRow(p, if p[i] == p[j] then Swap(v, i, j) else v, i, j + 1)
  }

  /** The outer loop, from row i to the end. */
  function CollideFrom(p: seq<Vec>, v: seq<Vec>, i: int): (r: seq<Vec>)
    requires |p| == |v| && 0 <= i
    ensures |r| == |v| && multiset(r) == multiset(v)
    decreases |v| - i
  {
    if i >= |v| - 1 then v
    else CollideFrom(p, CollideRow(p, v, i, i + 1), i + 1)
  }

  /** The velocities after resolveCollisions: a permutation of the velocities
      before it. */
  function Resolve(p: seq<Vec>, v: seq<Vec>): (r: seq<Vec>)
    requires |p| == |v|
    ensures |r| == |v| && multiset(r) == multiset(v)
  {
    CollideFrom(p, v, 0)
  }

  /** Bodies a and b are at the same position. */
  predicate Coincide(p: seq<Vec>, a: int, b: int)
    requires 0 <= a < |p| && 0 <= b < |p|
  {
    a != b && p[a] == p[b]
  }

  /** No body in columns j .. end of row i coincides with body i. */
  lemma {:induction false} RowUnchanged(p: seq<Vec>, v: seq<Vec>, i: int, j: int)
    requires |p| == |v| && 0 <= i < j <= |v|
    requires forall k :: j <= k < |v| ==> p[i] != p[k]
    ensures CollideRow(p, v, i, j) == v
    decreases |v| - j
  {
    if j < |v| {
      RowUnchanged(p, v, i, j + 1);
    }
  }

  /** A row never touches a body that coincides with nobody. */
  lemma {:induction false} RowKeeps(p: seq<Vec>, v: seq<Vec>, i: int, j: int, k: int)
    requires |p| == |v| && 0 <= i < j <= |v| && 0 <= k < |v|
    requires forall m :: 0 <= m < |p| && m != k ==> !Coincide(p, k, m)
    ensures CollideRow(p, v, i, j)[k] == v[k]
    decreases |v| - j
  {
    if j < |v| {
      var v' := if p[i] == p[j] then Swap(v, i, j) else v;
      assert v'[k] == v[k] by {
        if p[i] == p[j] {
          assert !Coincide(p, k, j) && !Coincide(p, k, i);
        }
      }
      RowKeeps(p, v', i, j + 1, k);
    }
  }

  lemma {:induction false} FromKeeps(p: seq<Vec>, v: seq<Vec>, i: int, k: int)
    requires |p| == |v| && 0 <= i && 0 <= k < |v|
    requires forall m :: 0 <= m < |p| && m != k ==> !Coincide(p, k, m)
    ensures CollideFrom(p, v, i)[k] == v[k]
    decreases |v| - i
  {
    if i < |v| - 1 {
      RowKeeps(p, v, i, i + 1, k);
      FromKeeps(p, CollideRow(p, v, i, i + 1), i + 1, k);
    }
  }

  /** A body whose position differs from every other body's keeps its
      velocity. */
  lemma IsolatedKeepsVelocity(p: seq<Vec>, v: seq<Vec>, k: int)
    requires |p| == |v| && 0 <= k < |v|
    requires forall m :: 0 <= m < |p| && m != k ==> !Coincide(p, k, m)
    ensures Resolve(p, v)[k] == v[k]
  {
    FromKeeps(p, v, 0, k);
  }

  /** No pair with first index at or after row i coincides. */
  lemma {:induction false} FromUnchanged(p: seq<Vec>, v: seq<Vec>, i: int)
    requires |p| == |v| && 0 <= i
    requires forall a, b :: i <= a < b < |p| ==> !Coincide(p, a, b)
    ensures CollideFrom(p, v, i) == v
    decreases |v| - i
  {
    if i < |v| - 1 {
      forall k | i + 1 <= k < |v| ensures p[i] != p[k] {
        assert !Coincide(p, i, k);
      }
      RowUnchanged(p, v, i, i + 1);
      FromUnchanged(p, v, i + 1);
    }
  }

  /** If no two bodies share a position, the velocities are unchanged. */
  lemma NoCoincidenceNoChange(p: seq<Vec>, v: seq<Vec>)
    requires |p| == |v|
    requires forall a, b :: 0 <= a < b < |p| ==> !Coincide(p, a, b)
    ensures Resolve(p, v) == v
  {
    FromUnchanged(p, v, 0);
  }

  /** In row a, the one coincidence at column b swaps a and b. */
  lemma {:induction false} RowSwapsOnce(p: seq<Vec>, v: seq<Vec>, a: int, b: int, j: int)
    requires |p| == |v| && 0 <= a < j <= b < |v| && p[a] == p[b]
    requires forall k :: j <= k < |v| && k != b ==> p[a] != p[k]
    ensures CollideRow(p, v, a, j) == Swap(v, a, b)
    decreases |v| - j
  {
    if j == b {
      RowUnchanged(p, Swap(v, a, b), a, j + 1);
    } else {
      RowSwapsOnce(p, v, a, b, j + 1);
    }
  }

  /** If exactly one pair (a, b) of bodies coincides, resolveCollisions
      exchanges their velocities and leaves every other one alone. */
  lemma SinglePairSwapped(p: seq<Vec>, v: seq<Vec>, a: int, b: int)
    requires |p| == |v| && 0 <= a < b < |v| && p[a] == p[b]
    requires forall x, y :: 0 <= x < y < |p| && (x, y) != (a, b) ==> !Coincide(p, x, y)
    ensures Resolve(p, v) == Swap(v, a, b)
  {
    RowsBeforeUnchanged(p, v, a, b, 0);
  }

  lemma {:induction false} RowsBeforeUnchanged(p: seq<Vec>, v: seq<Vec>, a: int, b: int, i: int)
    requires |p| == |v| && 0 <= i <= a < b < |v| && p[a] == p[b]
    requires forall x, y :: 0 <= x < y < |p| && (x, y) != (a, b) ==> !Coincide(p, x, y)
    ensures CollideFrom(p, v, i) == Swap(v, a, b)
    decreases a - i
  {
    if i < a {
      forall k | i + 1 <= k < |v| ensures p[i] != p[k] {
        assert !Coincide(p, i, k);
      }
      RowUnchanged(p, v, i, i + 1);
      RowsBeforeUnchanged(p, v, a, b, i + 1);
    } else {
      forall k | a + 1 <= k < |v| && k != b ensures p[a] != p[k] {
        assert !Coincide(p, a, k);
      }
      RowSwapsOnce(p, v, a, b, a + 1);
      FromUnchanged(p, Swap(v, a, b), a + 1);
    }
  }
}
