/**
 * The fairness rule a worker applies at the top of each iteration. The worker
 * knows the meal count it last published (own), the meals it has eaten since
 * (count) and the smallest count published by any philosopher at the table
 * (least). It is ahead when own + count is at least 1.5 times least; it then publishes own + count, resets count and pauses before eating.
 */
module Throttle {

  /**
   * The throttle test in exact integer arithmetic. It agrees with the
   * comparison of own + count against 1.5 * least over the rationals.
   */
  predicate ShouldThrottle(own: nat, count: nat, least: nat)
    ensures ShouldThrottle(own, count, least) <==> (own + count) as real >= 1.5 * (least as real)
  {
    2 * (own + count) >= 3 * least
  }

  /**
   * A worker whose published count is at least the table minimum always throttles
   * while the minimum is still zero, as on every worker's first iteration.
   */
  lemma ThrottlesWhileMinimumIsZero(own: nat, count: nat)
    ensures ShouldThrottle(own, count, 0)
  {
  }

  /**
   * The slowest philosopher is not held back: when its own published count is
   * the minimum and the minimum is positive, it throttles exactly when it has
   * eaten at least half the minimum since publishing.
   */
  lemma SlowestThrottlesLate(least: nat, count: nat)
    requires least > 0
    ensures ShouldThrottle(least, count, least) <==> 2 * count >= least
    ensures !ShouldThrottle(least, 0, least)
  {
  }

  /** The test is monotonic: more meals never turn a throttle off. */
  lemma ThrottleMonotone(own: nat, count: nat, more: nat, least: nat)
    requires ShouldThrottle(own, count, least)
    ensures ShouldThrottle(own, count + more, least)
  {
  }
}
