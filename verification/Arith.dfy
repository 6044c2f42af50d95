// Division facts the solver does not find by itself.

module Arith {

  lemma MultipleBelow(x: int, n: int)
    requires n >= 1 && -n < x * n < n
    ensures x == 0
  {}

  /** Quotient and remainder are unique. */
  lemma DivModUnique(a: int, n: int, q: int, r: int)
    requires n >= 1 && a == q * n + r && 0 <= r < n
    ensures a / n == q && a % n == r
  {
    assert (a / n - q) * n == r - a % n;
    MultipleBelow(a / n - q, n);
  }

  lemma MulSucc(a: int, b: int)
    ensures a * (b + 1) == a * b + a
  {}

  lemma MulSum(a: int, b: int, c: int)
    ensures a * (b + c) == a * b + a * c
  {}

  lemma ModSucc(k: int, n: int)
    requires n >= 1
    ensures (k + 1) % n == if k % n == n - 1 then 0 else k % n + 1
  {
    if k % n == n - 1 {
      DivModUnique(k + 1, n, k / n + 1, 0);
    } else {
      DivModUnique(k + 1, n, k / n, k % n + 1);
    }
  }

  /** Advancing a remainder and advancing the number come to the same. */
  lemma ModNext(k: int, n: int)
    requires n >= 1
    ensures (k % n + 1) % n == (k + 1) % n
  {
    ModSucc(k, n);
    if k % n == n - 1 {
      DivModUnique(n, n, 1, 0);
    } else {
      DivModUnique(k % n + 1, n, 0, k % n + 1);
    }
  }

  lemma ModPeriod(k: int, n: int)
    requires n >= 1
    ensures (k + n) % n == k % n
  {
    assert (k / n + 1) * n == k / n * n + n;
    DivModUnique(k + n, n, k / n + 1, k % n);
  }

  lemma ModDistinct(a: int, b: int, n: int)
    requires n >= 1 && a < b < a + n
    ensures a % n != b % n
  {
    if a % n == b % n {
      assert (b / n - a / n) * n == b - a;
      MultipleBelow(b / n - a / n, n);
    }
  }

  /** Among any `n` consecutive numbers one has remainder `i`. */
  lemma ResidueWithin(b: nat, n: nat, i: nat) returns (k: nat)
    requires i < n
    ensures b <= k < b + n && k % n == i
  {
    var q, r := b / n, b % n;
    if i >= r {
      k := b + i - r;
      DivModUnique(k, n, q, i);
    } else {
      k := b + i - r + n;
      assert (q + 1) * n == q * n + n;
      DivModUnique(k, n, q + 1, i);
    }
  }
}
