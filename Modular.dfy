/** Facts about Euclidean remainder used to reason about toroidal wrap-around.
    For a positive modulus, Dafny's `%` agrees with Python's `%` (both return a
    value in [0, n)), so these are the facts the grid's index wrapping relies on. */
module Modular {

  lemma {:induction false} MulAtLeast(d: int, n: int)
    requires d >= 1 && n > 0
    ensures d * n >= n
    decreases d
  {
    if d > 1 {
      MulAtLeast(d - 1, n);
      assert d * n == (d - 1) * n + n;
    }
  }

  /** A decomposition x == q * n + m with 0 <= m < n determines the remainder. */
  lemma ModOfDecomposition(x: int, n: int, q: int, m: int)
    requires n > 0 && 0 <= m < n && x == q * n + m
    ensures x % n == m
  {
    var q0, m0 := x / n, x % n;
    assert x == q0 * n + m0;
    if q0 < q {
      MulAtLeast(q - q0, n);
      assert false;
    } else if q < q0 {
      MulAtLeast(q0 - q, n);
      assert false;
    }
  }

  /** A value already in [0, n) is its own remainder. */
  lemma ModSmall(x: int, n: int)
    requires 0 <= x < n
    ensures x % n == x
  {
    ModOfDecomposition(x, n, 0, x);
  }

  /** Reduction into [0, n) of an index at most one lap away from it, by adding or
      subtracting n once: the index wrapping of a torus. It has no `%`, so reasoning
      about grid positions stays linear; WrapIsMod shows it is the remainder. */
  function Wrap(x: int, n: int): int
    requires n > 0 && -n <= x < 2 * n
  {
    if x < 0 then x + n else if x >= n then x - n else x
  }

  /** Wrap computes the remainder `x % n`, which for a positive modulus is also
      the value of Python's `x % n`. */
  lemma WrapIsMod(x: int, n: int)
    requires n > 0 && -n <= x < 2 * n
    ensures Wrap(x, n) == x % n
  {
    if x < 0 {
      ModOfDecomposition(x, n, -1, x + n);
    } else if x >= n {
      ModOfDecomposition(x, n, 1, x - n);
    } else {
      ModSmall(x, n);
    }
  }

  /** Moving by a small step and then by a translation wraps to the same place as
      the other way round. */
  lemma WrapCommutes(x: int, i: int, d: int, n: int)
    requires 0 <= x < n && -1 <= i <= 1 && 0 <= d < n
    ensures -n <= x + i < 2 * n && -n <= x + d < 2 * n
    ensures -n <= Wrap(x + i, n) + d < 2 * n && -n <= Wrap(x + d, n) + i < 2 * n
    ensures Wrap(Wrap(x + i, n) + d, n) == Wrap(Wrap(x + d, n) + i, n)
  {
  }
}
