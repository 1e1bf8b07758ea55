/**
 * The random choices of the game, made explicit.
 *
 * Every call of Math.random becomes a `real` draw in [0, 1) supplied by the
 * caller, and `Math.floor(Math.random() * k)` becomes `Pick(r, k)`.
 */
module Rolls {

  /** A value Math.random can return. */
  predicate IsRoll(r: real) {
    0.0 <= r < 1.0
  }

  /**
   * r * n, as n repeated additions of r: callers only ever unfold it a step
   * at a time, which keeps their arithmetic linear. TimesIsProduct shows it
   * is the product.
   */
  function Times(r: real, n: nat): (p: real)
    requires IsRoll(r)
    ensures 0.0 <= p <= n as real
    ensures n > 0 ==> p < n as real
  {
    if n == 0 then 0.0 else Times(r, n - 1) + r
  }

  lemma {:induction false} TimesIsProduct(r: real, n: nat)
    requires IsRoll(r)
    ensures Times(r, n) == r * (n as real)
  {
    if n > 0 {
      TimesIsProduct(r, n - 1);
      assert r * (n as real) == r * ((n - 1) as real) + r;
    }
  }

  /** `Math.floor(r * count)`: an index below `count`. */
  function Pick(r: real, count: nat): (k: nat)
    requires IsRoll(r) && count > 0
    ensures k < count
  {
    Times(r, count).Floor
  }

  /** Pick is the floor of the scaled draw. */
  lemma PickIsFloor(r: real, count: nat)
    requires IsRoll(r) && count > 0
    ensures Pick(r, count) as real <= r * (count as real) < Pick(r, count) as real + 1.0
  {
    TimesIsProduct(r, count);
  }
}
