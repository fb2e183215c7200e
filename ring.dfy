/**
 * The ring wiring of the table: n philosophers sit around n forks, and
 * philosopher i eats with fork i on the left and fork (i + 1) mod n on the
 * right, so the last philosopher closes the ring with fork 0.
 */
module Ring {

  /** Index of the left fork of philosopher i. */
  function LeftIndex(i: nat, n: nat): (f: nat)
    requires i < n
    ensures f < n
  {
    i
  }

  /** Index of the right fork of philosopher i. */
  function RightIndex(i: nat, n: nat): (f: nat)
    requires i < n
    ensures f < n
    ensures i + 1 < n ==> f == i + 1
    ensures i + 1 == n ==> f == 0
  {
    (i + 1) % n
  }

  /** Index of the philosopher whose right fork is fork f: the one just before f in the ring. */
  function RightUser(f: nat, n: nat): (i: nat)
    requires f < n
    ensures i < n
  {
    if f == 0 then n - 1 else f - 1
  }

  /** In a ring of at least two, a philosopher's two forks are different forks. */
  lemma TwoDistinctForks(i: nat, n: nat)
    requires 2 <= n && i < n
    ensures LeftIndex(i, n) != RightIndex(i, n)
  {
  }

  /**
   * Neighbours share forks: the right fork of philosopher i is the left fork of
   * philosopher (i + 1) mod n.
   */
  lemma RightIsNextLeft(i: nat, n: nat)
    requires i < n
    ensures RightIndex(i, n) == LeftIndex(RightIndex(i, n), n)
    ensures RightIndex(i, n) == (i + 1) % n
  {
  }

  /**
   * Every fork is used by exactly two philosophers of a ring of at least two:
   * as the left fork of philosopher f and as the right fork of the philosopher
   * before it.
   */
  lemma {:induction false} ForkSharedByTwo(f: nat, n: nat)
    requires 2 <= n && f < n
    ensures RightUser(f, n) != f
    ensures forall i :: 0 <= i < n ==>
      (LeftIndex(i, n) == f <==> i == f) &&
      (RightIndex(i, n) == f <==> i == RightUser(f, n))
  {
  }
}
