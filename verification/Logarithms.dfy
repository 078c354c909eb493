/** Powers of two and the rounded-down binary logarithm. */
module Logarithms {
  function Pow2(k: nat): (p: nat)
    ensures p >= 1
  {
    if k == 0 then 1 else 2 * Pow2(k - 1)
  }

  function Log2(n: nat): nat {
    if n <= 1 then 0 else 1 + Log2(n / 2)
  }

  /** Log2(n) is the greatest k with 2^k <= n. */
  lemma {:induction false} Log2Greatest(n: nat, k: nat)
    requires n > 0
    ensures Pow2(k) <= n <==> k <= Log2(n)
  {
    if k > 0 && n > 1 {
      Log2Greatest(n / 2, k - 1);
    }
  }

  lemma {:induction false} Log2Monotone(m: nat, n: nat)
    requires m <= n
    ensures Log2(m) <= Log2(n)
  {
    if m > 1 {
      Log2Monotone(m / 2, n / 2);
    }
  }

  lemma Log2OfTwo()
    ensures Log2(2) == 1
  {
  }

  lemma LogsBelow(l: nat, r: nat)
    ensures Log2(l + 1) + Log2(r + 1) + Log2(l + r + 1) <= 3 * Log2(l + r + 1)
  {
    hide *;
    Log2Monotone(l + 1, l + r + 1);
    Log2Monotone(r + 1, l + r + 1);
  }
}
