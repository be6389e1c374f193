/** Random draws. Every call to Math.random() in the game is modelled as a
    value supplied by the caller: a real in the half-open interval [0, 1). */
module Draws {

  /** One value returned by Math.random(). */
  type Draw = d: real | 0.0 <= d < 1.0

  /** Math.floor(d * n): the slot among 0..n-1 that a draw lands in.
      With no slots (n == 0) the product is 0 and so is its floor. */
  function Scale(d: Draw, n: nat): (k: nat)
    ensures n > 0 ==> k < n
    ensures n == 0 ==> k == 0
    ensures k as real <= d * n as real < k as real + 1.0
  {
    ProductBelow(d, n);
    (d * n as real).Floor
  }

  /** A draw scaled by n stays in [0, n); strictly below n when n > 0. */
  lemma ProductBelow(d: Draw, n: nat)
    ensures 0.0 <= d * n as real <= n as real
    ensures n > 0 ==> d * n as real < n as real
  {
    var m := n as real;
    assert 0.0 <= d * m by {
      assert 0.0 <= d && 0.0 <= m;
    }
    if n > 0 {
      assert (1.0 - d) * m > 0.0 by {
        assert 1.0 - d > 0.0 && m > 0.0;
      }
    }
  }

  /** Every slot 0..n-1 is hit by some draw: the draw k / n lands in slot k. */
  lemma SlotReachable(k: nat, n: nat)
    requires k < n
    ensures 0.0 <= k as real / n as real < 1.0
    ensures Scale(k as real / n as real, n) == k
  {
    var d := k as real / n as real;
    assert d * n as real == k as real;
    assert d < 1.0 by {
      assert k as real < n as real;
    }
  }

  /** The draw that lands in slot k of n. */
  function DrawFor(k: nat, n: nat): (d: Draw)
    requires k < n
    ensures Scale(d, n) == k
  {
    SlotReachable(k, n);
    k as real / n as real
  }
}
