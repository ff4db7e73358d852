/** Facts about products and quotients. */
module Arithmetic {

  /** One more than the largest unsigned long. */
  const ULONG_RANGE: nat := 0x1_0000_0000_0000_0000

  lemma Distribute(n: int, a: int, b: int)
    ensures n * (b - a) == n * b - n * a
  {
  }

  lemma NotNegative(n: nat, a: nat)
    ensures n * a >= 0
  {
  }

  lemma Multiples(n: nat, a: int, b: int)
    requires n > 0
    ensures n * (b - a) == n * b - n * a
    ensures a <= b ==> n * a <= n * b
    ensures a < b ==> n * a + n <= n * b
  {
    Distribute(n, a, b);
    if a <= b {
      NotNegative(n, b - a);
    }
    if a < b {
      NotNegative(n, b - a - 1);
      Distribute(n, 1, b - a);
    }
  }

  lemma DivUnique(x: int, n: nat, q: int, r: nat)
    requires n > 0 && x == n * q + r && r < n
    ensures x / n == q && x % n == r
  {
    Multiples(n, x / n, q);
    Multiples(n, q, x / n);
  }

  lemma DivGrows(n: nat, x: nat, y: nat)
    requires n > 0 && x <= y
    ensures x / n <= y / n
  {
    Multiples(n, y / n, x / n);
  }

  /** A quotient rounded up. */
  function Ceiling(x: nat, n: nat): nat
    requires n > 0
  {
    (x + n - 1) / n
  }

  /** A quotient rounded down. */
  function Floor(x: nat, n: nat): nat
    requires n > 0
  {
    x / n
  }

  /** Rounded up, a quotient is the least that is enough. */
  lemma RoundedUp(x: nat, n: nat)
    requires n > 0
    ensures n * (Ceiling(x, n) - 1) < x <= n * Ceiling(x, n)
  {
    Distribute(n, 1, Ceiling(x, n));
  }

  /** Rounded down, it is the most that there is room for. */
  lemma RoundedDown(x: nat, n: nat)
    requires n > 0
    ensures Floor(x, n) * n <= x < (Floor(x, n) + 1) * n
  {
    Distribute(n, -1, Floor(x, n));
  }
}
