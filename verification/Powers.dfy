// Powers of two, shifts, and the highest bit of a number.

module Powers {
  import opened Arith

  function Pow2(n: nat): (p: nat)
    ensures p > 0
  {
    if n == 0 then 1 else 2 * Pow2(n - 1)
  }

  lemma {:induction false} Pow2Sum(a: nat, b: nat)
    ensures Pow2(a + b) == Pow2(a) * Pow2(b)
    decreases a
  {
    if a > 0 {
      Pow2Sum(a - 1, b);
      assert Pow2(a + b) == 2 * (Pow2(a - 1) * Pow2(b)) == Pow2(a) * Pow2(b);
    }
  }

  lemma {:induction false} Pow2Grows(a: nat, b: nat)
    ensures a < b ==> Pow2(a) < Pow2(b)
    ensures a <= b ==> Pow2(a) <= Pow2(b)
    decreases b
  {
    if a < b {
      Pow2Grows(a, b - 1);
    }
  }

  /** The position of the highest bit. */
  function TopBit(m: nat): (k: nat)
    requires m > 0
    ensures Pow2(k) <= m < Pow2(k + 1)
  {
    if m == 1 then 0 else 1 + TopBit(m / 2)
  }

  lemma TopBitUnique(m: nat, k: nat)
    requires Pow2(k) <= m < Pow2(k + 1)
    ensures TopBit(m) == k
  {
    var t := TopBit(m);
    Pow2Grows(t + 1, k);
    Pow2Grows(k + 1, t);
  }

  lemma MulLess(a: int, b: int, p: int)
    requires p > 0
    ensures a < b ==> a * p < b * p
    ensures a <= b ==> a * p <= b * p
  {}

  lemma MulCancels(a: int, b: int, p: int)
    requires p > 0
    ensures a * p < b * p ==> a < b
    ensures a * p <= b * p ==> a <= b
  {
    MulLess(b, a, p);
  }

  lemma ProductAtLeastZero(a: nat, b: nat)
    ensures a * b >= 0
  {}

  lemma QuotientWithin(m: int, p: int, a: int, b: int)
    requires p > 0 && a * p <= m < b * p
    ensures a <= m / p < b
  {
    var l := m / p;
    assert (l + 1) * p == l * p + p;
    MulCancels(a, l + 1, p);
    MulCancels(l, b, p);
  }

  lemma QuotientOfSum(a: int, m: int, p: int)
    requires p > 0
    ensures (a * p + m) / p == a + m / p
  {
    assert (a + m / p) * p == a * p + m / p * p;
    DivModUnique(a * p + m, p, a + m / p, m % p);
  }

  /** Shifts of numbers without a sign. */
  function ShiftLeft(m: nat, n: nat): nat {
    ProductAtLeastZero(m, Pow2(n));
    m * Pow2(n)
  }

  function ShiftRight(m: nat, n: nat): nat {
    QuotientAtLeastZero(m, Pow2(n));
    m / Pow2(n)
  }

  lemma QuotientAtLeastZero(m: nat, p: nat)
    requires p > 0
    ensures m / p >= 0
  {}

  lemma ShiftLeftBounds(m: nat, n: nat, a: nat, b: nat)
    requires Pow2(a) <= m < Pow2(b)
    ensures Pow2(a + n) <= ShiftLeft(m, n) < Pow2(b + n)
  {
    Pow2Sum(a, n);
    Pow2Sum(b, n);
    MulLess(Pow2(a), m, Pow2(n));
    MulLess(m, Pow2(b), Pow2(n));
  }

  lemma ShiftRightBounds(m: nat, n: nat, a: nat, b: nat)
    requires Pow2(a + n) <= m < Pow2(b + n)
    ensures Pow2(a) <= ShiftRight(m, n) < Pow2(b)
  {
    Pow2Sum(a, n);
    Pow2Sum(b, n);
    QuotientWithin(m, Pow2(n), Pow2(a), Pow2(b));
  }
}
