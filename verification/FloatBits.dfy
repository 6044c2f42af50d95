// Conversion between integers and binary floating point by shifts and masks, for any width of the
// fraction field; binary32 has 23 bits of it.

module FloatBits {
  import opened Machines
  import opened Arith
  import opened Powers

  const BIAS := 127
  const EXPONENTS := 256

  /** The three fields of section 3.4 of IEEE 754-2008. */
  datatype Fields = Fields(sign: nat, exponent: nat, fraction: nat)

  predicate FieldsOk(f: Fields, w: nat) {
    f.sign <= 1 && f.exponent < EXPONENTS && f.fraction < Pow2(w)
  }

  /** The word: sign, then eight bits of exponent, then `w` bits of fraction. */
  function Pack(f: Fields, w: nat): nat {
    (f.sign * EXPONENTS + f.exponent) * Pow2(w) + f.fraction
  }

  /** The number the fields stand for: `Significand(f) * 2^Power(f)`, with the sign. */
  function Significand(f: Fields, w: nat): nat {
    if f.exponent == 0 then f.fraction else Pow2(w) + f.fraction
  }

  function Power(f: Fields, w: nat): int {
    (if f.exponent == 0 then 1 else f.exponent) - BIAS - w
  }

  function Scaled(m: nat, i: int): (v: real)
  {
    if i >= 0 then (m * Pow2(i)) as real else m as real / Pow2(-i) as real
  }

  /** Section 3.4 of IEEE 754-2008, for exponents below 255. */
  function Value(f: Fields, w: nat): real {
    var v := Scaled(Significand(f, w), Power(f, w));
    if f.sign == 1 then -v else v
  }

  /** Rounding toward zero. */
  function Trunc(v: real): int { if v >= 0.0 then v.Floor else -((-v).Floor) }

  function Abs(x: int): nat { if x < 0 then -x else x }

  // ----- The specifications -----

  /** The leading bits of `m` from bit `k` down, `w` of them after the first. */
  function Leading(m: nat, k: nat, w: nat): nat {
    if k > w then ShiftRight(m, k - w) else ShiftLeft(m, w - k)
  }

  /** What itof computes. */
  function FromInt(x: int, w: nat): Fields {
    if x == 0 then Fields(0, 0, 0)
    else
      var k := TopBit(Abs(x));
      Fields(if x < 0 then 1 else 0, k + BIAS, Leading(Abs(x), k, w) % Pow2(w))
  }

  /** What ftoi computes; None where it shifts by a negative count. */
  function ToInt(f: Fields, w: nat): Option<int> {
    if f.exponent < BIAS then Some(0)
    else if f.exponent > BIAS + w then None
    else
      var e := f.exponent - BIAS;
      var m := ShiftRight(f.fraction, w - e) + Pow2(e);
      Some(if f.sign == 1 then -m else m)
  }

  // ----- The encoding, in numbers -----

  /** `v` is the integer `n` divided by `p`. */
  predicate IsOver(v: real, n: int, p: nat) { v * p as real == n as real }

  function Times(m: nat, p: nat): nat {
    ProductAtLeastZero(m, p);
    m * p
  }

  /** The number without its sign, times 2^(w + 127): a whole number. */
  function Whole(f: Fields, w: nat): nat {
    if f.exponent == 0 then Times(f.fraction, 2) else Times(Pow2(w) + f.fraction, Pow2(f.exponent))
  }

  lemma WholeIs(f: Fields, w: nat)
    ensures Whole(f, w) == Times(Significand(f, w), Pow2(Power(f, w) + w + 127))
  {
    assert Power(f, w) + w + 127 == if f.exponent == 0 then 1 else f.exponent;
    assert Pow2(1) == 2;
  }

  /** Section 3.4 of IEEE 754-2008: the value is (1 + fraction / 2^w) * 2^(exponent - 127), or
      fraction / 2^w * 2^-126 where the exponent field is 0. */
  lemma ValueIs(f: Fields, w: nat)
    ensures IsOver(Value(f, w), if f.sign == 1 then 0 - Whole(f, w) else Whole(f, w), Pow2(w + 127))
  {
    var v, d := Scaled(Significand(f, w), Power(f, w)), w + 127;
    WholeIs(f, w);
    ScaledUp(Significand(f, w), Power(f, w), d);
    Negated(v, Whole(f, w), Pow2(d));
  }

  lemma Negated(v: real, n: int, p: nat)
    requires IsOver(v, n, p)
    ensures IsOver(-v, -n, p)
  {
    assert -v * p as real == -(v * p as real);
  }

  lemma ScaledUp(m: nat, i: int, d: nat)
    requires i + d >= 0
    ensures IsOver(Scaled(m, i), Times(m, Pow2(i + d)), Pow2(d))
  {
    if i >= 0 {
      assert Pow2(i + d) == Times(Pow2(i), Pow2(d)) by { Pow2Sum(i, d); }
      JoinFactors(m, Pow2(i), Pow2(d), Pow2(i + d), Scaled(m, i));
    } else {
      var j: nat, e: nat := -i, i + d;
      assert Pow2(d) == Times(Pow2(j), Pow2(e)) by { Pow2Sum(j, e); }
      CancelFactor(m, Pow2(j), Pow2(e), Pow2(d), Scaled(m, i));
    }
  }

  lemma JoinFactors(m: nat, p: nat, q: nat, pq: nat, v: real)
    requires pq == Times(p, q) && v == (m * p) as real
    ensures IsOver(v, Times(m, pq), q)
  {
    MulThree(m, p, q);
    RealProduct(m * p, q);
  }

  lemma CancelFactor(m: nat, p: nat, q: nat, pq: nat, v: real)
    requires p > 0 && pq == Times(p, q) && v == m as real / p as real
    ensures IsOver(v, Times(m, q), pq)
  {
    RealProduct(p, q);
    RealProduct(m, q);
    CancelReal(m as real, p as real, q as real);
  }

  lemma RealProduct(a: int, b: int)
    ensures (a * b) as real == a as real * b as real
  {}

  lemma CancelReal(m: real, p: real, q: real)
    requires p != 0.0
    ensures m / p * (p * q) == m * q
  {
    assert m / p * p == m;
    assert m / p * (p * q) == m / p * p * q;
  }

  /** The fields (0, 127, 0) are 1, whatever the width. */
  lemma OneIs(w: nat)
    ensures Value(Fields(0, 127, 0), w) == 1.0
  {
    assert Power(Fields(0, 127, 0), w) + w == 0 && Significand(Fields(0, 127, 0), w) == Pow2(w);
    OwnQuotient(Pow2(w));
  }

  lemma OwnQuotient(p: nat)
    requires p > 0
    ensures p as real / p as real == 1.0
  {}

  /** The word of a positive integer begins with 127 and the position of its highest bit, that of a
      negative one with 256 more; the word of zero is zero. */
  lemma WordIs(x: int, w: nat)
    requires Abs(x) < Pow2(w + 8) && w <= 120
    ensures var word := Pack(FromInt(x, w), w);
      && (x > 0 ==> word / Pow2(w) == 127 + TopBit(x))
      && (x < 0 ==> word / Pow2(w) == 383 + TopBit(-x))
      && (x == 0 ==> word == 0)
      && word % Pow2(w) == FromInt(x, w).fraction
  {
    FromIntFields(x, w);
    PackSplits(FromInt(x, w), w);
  }

  /** The words of 1, -1 and 2^24 + 1, whose last bit is lost. */
  lemma Words32(w: nat)
    requires w == 23
    ensures Pack(FromInt(1, w), w) == 0x3F80_0000 && Pack(FromInt(-1, w), w) == 0xBF80_0000
    ensures Pack(FromInt(16777217, w), w) == 0x4B80_0000
  {
    Sizes32();
    assert Pow2(0) == 1 && Pow2(1) == 2 && Pow2(24) == 2 * Pow2(23) && Pow2(25) == 2 * Pow2(24);
    TopBitUnique(1, 0);
    TopBitUnique(16777217, 24);
  }

  // ----- itof rounds toward zero -----

  /** The bit above the fraction is always set, so it can be left out. */
  lemma LeadingBounds(m: nat, k: nat, w: nat)
    requires Pow2(k) <= m < Pow2(k + 1)
    ensures Pow2(w) <= Leading(m, k, w) < Pow2(w + 1)
    ensures Pow2(w) + Leading(m, k, w) % Pow2(w) == Leading(m, k, w)
  {
    if k > w {
      ShiftRightBounds(m, k - w, w, w + 1);
    } else {
      ShiftLeftBounds(m, w - k, k, k + 1);
    }
    DivModUnique(Leading(m, k, w), Pow2(w), 1, Leading(m, k, w) - Pow2(w));
  }

  lemma FromIntFields(x: int, w: nat)
    requires Abs(x) < Pow2(w + 8) && w <= 120
    ensures FieldsOk(FromInt(x, w), w) && FromInt(x, w).exponent < EXPONENTS - 1
    ensures x != 0 ==> Significand(FromInt(x, w), w) == Leading(Abs(x), TopBit(Abs(x)), w)
    ensures x != 0 ==> Power(FromInt(x, w), w) == TopBit(Abs(x)) - w
  {
    if x != 0 {
      var k := TopBit(Abs(x));
      Pow2Grows(w + 8, k);
      LeadingBounds(Abs(x), k, w);
    }
  }

  lemma Undone(m: nat, p: nat)
    requires p > 0
    ensures (m * p) as real / p as real == m as real
  {
    assert (m * p) as real == m as real * p as real;
  }

  /** What itof loses: the bits more than `w` places below the highest one. */
  function Lost(x: int, w: nat): nat {
    if x == 0 || TopBit(Abs(x)) <= w then 0 else Abs(x) % Pow2(TopBit(Abs(x)) - w)
  }

  /** Scaled back, the leading bits are the number without the bits they leave out. */
  lemma ScaledLeading(m: nat, k: nat, w: nat)
    ensures Scaled(Leading(m, k, w), k - w) == (m - if k > w then m % Pow2(k - w) else 0) as real
  {
    if k < w {
      Undone(m, Pow2(w - k));
    }
  }

  lemma ValueOf(x: int, w: nat)
    requires Abs(x) < Pow2(w + 8) && w <= 120
    ensures Value(FromInt(x, w), w) == if x < 0 then -((Abs(x) - Lost(x, w)) as real) else (Abs(x) - Lost(x, w)) as real
  {
    FromIntFields(x, w);
    if x != 0 {
      ScaledLeading(Abs(x), TopBit(Abs(x)), w);
    } else {
      assert Scaled(0, Power(FromInt(x, w), w)) == 0.0;
    }
  }

  /** itof rounds toward zero with an error below 2^(k - w), `k` the position of the highest bit;
      it is exact if and only if it loses no bit that is set. */
  lemma ItofRoundsTowardZero(x: int, w: nat)
    requires Abs(x) < Pow2(w + 8) && w <= 120
    ensures var v := Value(FromInt(x, w), w);
      && (x >= 0 ==> 0.0 <= v <= x as real)
      && (x <= 0 ==> x as real <= v <= 0.0)
      && (v == x as real <==> Lost(x, w) == 0)
      && (x != 0 && TopBit(Abs(x)) >= w ==>
            -(Pow2(TopBit(Abs(x)) - w) as real) < x as real - v < Pow2(TopBit(Abs(x)) - w) as real)
  {
    ValueOf(x, w);
    if x != 0 && TopBit(Abs(x)) > w {
      ModBelow(Abs(x), Pow2(TopBit(Abs(x)) - w));
    }
  }

  lemma ModBelow(m: nat, p: nat)
    requires p > 0
    ensures m % p < p && m % p <= m
  {}

  /** Every integer of at most `w` + 1 bits is converted exactly. */
  lemma ItofExact(x: int, w: nat)
    requires Abs(x) < Pow2(w + 1) && w <= 120
    ensures Value(FromInt(x, w), w) == x as real
  {
    Pow2Grows(w + 1, w + 8);
    ValueOf(x, w);
    if x != 0 {
      Pow2Grows(w + 1, TopBit(Abs(x)));
    }
  }

  // ----- ftoi truncates -----

  lemma FloorOfRatio(a: nat, b: nat)
    requires b > 0
    ensures (a as real / b as real).Floor == a / b
  {
    var q, r := a / b, a % b;
    assert a as real == q as real * b as real + r as real;
    assert a as real / b as real == q as real + r as real / b as real;
    assert 0.0 <= r as real / b as real < 1.0;
  }

  lemma TooSmall(f: Fields, w: nat)
    requires FieldsOk(f, w) && f.exponent < BIAS
    ensures Power(f, w) < 0 && Significand(f, w) < Pow2(-Power(f, w))
  {
    Pow2Grows(w + 1, -Power(f, w));
  }

  lemma WholeAndRest(f: Fields, w: nat)
    requires FieldsOk(f, w) && BIAS <= f.exponent <= BIAS + w
    ensures var e := f.exponent - BIAS;
      ShiftRight(Significand(f, w), w - e) == ShiftRight(f.fraction, w - e) + Pow2(e)
  {
    var e := f.exponent - BIAS;
    Pow2Sum(e, w - e);
    QuotientOfSum(Pow2(e), f.fraction, Pow2(w - e));
  }

  lemma WholePart(f: Fields, w: nat)
    requires FieldsOk(f, w) && f.exponent <= BIAS + w
    ensures Scaled(Significand(f, w), Power(f, w)).Floor ==
      if f.exponent < BIAS then 0 else ShiftRight(f.fraction, w - (f.exponent - BIAS)) + Pow2(f.exponent - BIAS)
  {
    var m, i := Significand(f, w), Power(f, w);
    FloorOfRatio(m, Pow2(-i));
    if f.exponent < BIAS {
      TooSmall(f, w);
      DivModUnique(m, Pow2(-i), 0, m);
    } else {
      WholeAndRest(f, w);
    }
  }

  /** ftoi truncates every number below 2^(w + 1), zeros and subnormals included, and is undefined
      above. */
  lemma FtoiTruncates(f: Fields, w: nat)
    requires FieldsOk(f, w)
    ensures ToInt(f, w) == if f.exponent <= 127 + w then Some(Trunc(Value(f, w))) else None
  {
    if f.exponent <= BIAS + w {
      WholePart(f, w);
      TruncOf(f, w);
    }
  }

  /** The sign does not matter to truncation. */
  lemma TruncOf(f: Fields, w: nat)
    ensures Scaled(Significand(f, w), Power(f, w)) >= 0.0
    ensures var v := Scaled(Significand(f, w), Power(f, w)).Floor;
      Trunc(Value(f, w)) == if f.sign == 1 then -v else v
  {
    ScaledAtLeastZero(Significand(f, w), Power(f, w));
  }

  lemma ScaledAtLeastZero(m: nat, i: int)
    ensures Scaled(m, i) >= 0.0
  {
    if i >= 0 {
      ProductAtLeastZero(m, Pow2(i));
    }
  }

  // ----- The round trip -----

  lemma ExponentInRange(x: int, w: nat)
    requires Abs(x) < Pow2(w + 8) && w <= 120
    ensures FromInt(x, w).exponent <= BIAS + w <==> Abs(x) < Pow2(w + 1)
  {
    if x != 0 {
      var k := TopBit(Abs(x));
      Pow2Grows(w + 1, k);
      Pow2Grows(k + 1, w + 1);
    }
  }

  /** ftoi undoes itof exactly for the integers of at most `w` + 1 bits. */
  lemma RoundTrip(x: int, w: nat)
    requires Abs(x) < Pow2(w + 8) && w <= 120
    ensures ToInt(FromInt(x, w), w) == Some(x) <==> Abs(x) < Pow2(w + 1)
  {
    var f := FromInt(x, w);
    assert FieldsOk(f, w) by { FromIntFields(x, w); }
    FtoiTruncates(f, w);
    ExponentInRange(x, w);
    if Abs(x) < Pow2(w + 1) {
      ItofExact(x, w);
      TruncOfWhole(x);
    }
  }

  lemma TruncOfWhole(x: int)
    ensures Trunc(x as real) == x
  {}

  lemma Sizes32()
    ensures Pow2(24) == 16777216 && Pow2(31) == 0x8000_0000
  {
    assert Pow2(3) == 8 && Pow2(4) == 16;
    Pow2Sum(4, 4);
    Pow2Sum(8, 8);
    Pow2Sum(16, 8);
    Pow2Sum(24, 3);
    Pow2Sum(27, 4);
  }

  /** The same for int and binary32. */
  lemma RoundTrip32(x: int, w: nat)
    requires w == 23 && -0x8000_0000 < x < 0x8000_0000
    ensures ToInt(FromInt(x, w), w) == Some(x) <==> -16777216 < x < 16777216
  {
    Sizes32();
    RoundTrip(x, w);
  }

  // ----- The program -----

  lemma PackSplits(f: Fields, w: nat)
    requires FieldsOk(f, w)
    ensures Pack(f, w) / Pow2(w) == f.sign * EXPONENTS + f.exponent
    ensures Pack(f, w) / Pow2(w) % EXPONENTS == f.exponent
    ensures Pack(f, w) % Pow2(w) == f.fraction
  {
    var q := f.sign * EXPONENTS + f.exponent;
    DivModUnique(Pack(f, w), Pow2(w), q, f.fraction);
    DivModUnique(q, EXPONENTS, f.sign, f.exponent);
  }

  /** The top `e` bits of the fraction, by a shift and a mask of the whole word. */
  lemma TopOfFraction(f: Fields, w: nat, e: nat)
    requires FieldsOk(f, w) && e <= w
    ensures ShiftRight(Pack(f, w), w - e) % Pow2(e) == ShiftRight(f.fraction, w - e)
  {
    var p, q := Pow2(w - e), f.sign * EXPONENTS + f.exponent;
    Pow2Sum(e, w - e);
    assert q * Pow2(w) == q * Pow2(e) * p by { MulThree(q, Pow2(e), p); }
    QuotientOfSum(q * Pow2(e), f.fraction, p);
    QuotientWithin(f.fraction, p, 0, Pow2(e));
    DivModUnique(ShiftRight(Pack(f, w), w - e), Pow2(e), q, f.fraction / p);
  }

  lemma MulThree(a: int, b: int, c: int)
    ensures a * (b * c) == a * b * c
  {}

  /** The count of leading zeros gives the highest bit. */
  lemma CountGivesTop(m: nat, count: nat, bits: nat)
    requires count < bits && Pow2(bits - 1) <= m * Pow2(count) < Pow2(bits)
    ensures m > 0 && TopBit(m) == bits - 1 - count
  {
    var k, p := bits - 1 - count, Pow2(count);
    Pow2Sum(k, count);
    Pow2Sum(k + 1, count);
    MulCancels(Pow2(k), m, p);
    MulCancels(m, Pow2(k + 1), p);
    TopBitUnique(m, k);
  }

  /** Lines 17 to 26 of ftoi.cpp, over `bits`-wide integers: 31 less the number of
      leading zeros, -1 for zero. */
  method HighestBit(x: nat, bits: nat) returns (k: int)
    requires bits > 0 && x < Pow2(bits - 1)
    ensures k == if x == 0 then -1 else TopBit(x)
  {
    var count, tmp := 0, x;
    while tmp / Pow2(bits - 1) % 2 == 0 && count != bits
      invariant count <= bits && tmp == x * Pow2(count) && tmp < Pow2(bits)
      invariant x > 0 ==> count < bits
      decreases bits - count
    {
      assert tmp < Pow2(bits - 1) by {
        if tmp >= Pow2(bits - 1) {
          DivModUnique(tmp, Pow2(bits - 1), 1, tmp - Pow2(bits - 1));
        }
      }
      if x > 0 && count + 1 == bits {
        MulLess(1, x, Pow2(count));
        assert false;
      }
      Doubled(x, count, bits);
      tmp := tmp * 2 % Pow2(bits);
      count := count + 1;
    }
    if x == 0 {
      assert tmp / Pow2(bits - 1) % 2 == 0 by { DivModUnique(0, Pow2(bits - 1), 0, 0); }
    } else {
      assert tmp >= Pow2(bits - 1) by {
        if tmp < Pow2(bits - 1) {
          DivModUnique(tmp, Pow2(bits - 1), 0, tmp);
        }
      }
      CountGivesTop(x, count, bits);
    }
    k := bits - 1 - count;
  }

  lemma Doubled(x: nat, count: nat, bits: nat)
    requires bits > 0 && x * Pow2(count) < Pow2(bits - 1)
    ensures x * Pow2(count) * 2 % Pow2(bits) == x * Pow2(count + 1) < Pow2(bits)
  {
    assert x * Pow2(count) * 2 == x * Pow2(count + 1);
    DivModUnique(x * Pow2(count + 1), Pow2(bits), 0, x * Pow2(count + 1));
  }

  /** itof, lines 10 to 41; None for the least integer, whose negation is undefined. */
  method Itof(n: int, w: nat) returns (word: Option<nat>)
    requires 0 <= n + Pow2(w + 8) && n < Pow2(w + 8) && w <= 120
    ensures word == if n + Pow2(w + 8) == 0 then None else Some(Pack(FromInt(n, w), w))
    ensures word.Some? && n > 0 ==> word.value / Pow2(w) == 127 + TopBit(n)
    ensures word.Some? && n < 0 ==> word.value / Pow2(w) == 383 + TopBit(-n)
  {
    var sign, x := 0, n;
    if x < 0 {
      sign := 1;
      if x + Pow2(w + 8) == 0 {
        return None;
      }
      x := -x;
    }
    var count := HighestBit(x, w + 9);
    var e := count + BIAS;
    if count == -1 {
      e := 0;
    }
    if count > w {
      word := Some(Pack(Fields(sign, e, ShiftRight(x, count - w) % Pow2(w)), w));
    } else {
      word := Some(Pack(Fields(sign, e, ShiftLeft(x, w - count) % Pow2(w)), w));
      if x == 0 {
        DivModUnique(0, Pow2(w), 0, 0);
      }
    }
    WordIs(n, w);
  }

  /** ftoi, lines 43 to 68, on the fields of its argument; None for the undefined shift, which
      infinities and NaNs also meet. Comparing with zero and negating look at the sign field, which
      a negative zero also has set. */
  method Ftoi(f: Fields, w: nat) returns (r: Option<int>)
    requires FieldsOk(f, w) && w <= 120
    ensures r == if f.exponent <= 127 + w then Some(Trunc(Value(f, w))) else None
  {
    FtoiTruncates(f, w);
    var sign, x := 0, f;
    if f.sign == 1 && (f.exponent != 0 || f.fraction != 0) {
      sign := 1;
      x := f.(sign := 0);
    }
    var word := Pack(x, w);
    PackSplits(x, w);
    var e := word / Pow2(w) % EXPONENTS;
    if e == 0 {
      return Some(0);
    }
    e := e - BIAS;
    if e < 0 {
      return Some(0);
    }
    if w - e < 0 {
      return None;
    }
    TopOfFraction(x, w, e);
    var res := ShiftRight(word, w - e) % Pow2(e) + Pow2(e);
    r := Some(if sign == 1 then -res else res);
  }
}
