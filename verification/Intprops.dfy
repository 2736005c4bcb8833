/** Facts about integer types that macros state as constant expressions: how many digits a
    value can take, and whether an operation overflows. */
module Intprops {
  import opened Common

  // ------------------------------------------------------------------
  // Powers

  function Pow(b: nat, e: nat): (p: nat)
    ensures b > 0 ==> p > 0
  {
    if e == 0 then 1 else b * Pow(b, e - 1)
  }

  lemma {:induction false} PowAdd(b: nat, d: nat, e: nat)
    ensures Pow(b, d + e) == Pow(b, d) * Pow(b, e)
  {
    if d == 0 {
    } else {
      PowAdd(b, d - 1, e);
      MulAssoc(b, Pow(b, d - 1), Pow(b, e));
    }
  }

  lemma {:induction false} PowMul(b: nat, d: nat, e: nat)
    ensures Pow(b, d * e) == Pow(Pow(b, d), e)
  {
    if e == 0 {
      assert d * 0 == 0;
    } else {
      PowMul(b, d, e - 1);
      PowAdd(b, d, d * (e - 1));
      assert d * e == d + d * (e - 1);
    }
  }

  /** Larger bases have larger powers. */
  lemma {:induction false} PowMono(a: nat, b: nat, e: nat)
    requires a <= b
    ensures Pow(a, e) <= Pow(b, e)
    ensures a < b && e > 0 ==> Pow(a, e) < Pow(b, e)
  {
    if e == 0 {
    } else {
      PowMono(a, b, e - 1);
      MulMonoBoth(a, b, Pow(a, e - 1), Pow(b, e - 1));
    }
  }

  lemma MulMonoBoth(a: nat, b: nat, p: nat, q: nat)
    requires a <= b && p <= q
    ensures a * p <= b * q
    ensures a < b && q > 0 ==> a * p < b * q
  {
    MulMono(a, p, q);
    assert b * q == a * q + (b - a) * q;
    MulMono(q, 0, b - a);
    if a < b { MulMono(q, 1, b - a); }
  }

  lemma MulMono(c: nat, x: nat, y: nat)
    requires x <= y
    ensures c * x <= c * y
  {
  }

  lemma {:induction false} PowGrows(b: nat, d: nat, e: nat)
    requires b > 0 && d <= e
    ensures Pow(b, d) <= Pow(b, e)
  {
    PowAdd(b, d, e - d);
    MulMono(Pow(b, d), 1, Pow(b, e - d));
  }

  // ------------------------------------------------------------------
  // Digits

  /** How many decimal digits it takes to write n. */
  function Digits(n: nat): (d: nat)
    ensures d >= 1
  {
    if n < 10 then 1 else Digits(n / 10) + 1
  }

  lemma {:induction false} DigitsBelow(n: nat, d: nat)
    requires d > 0
    ensures Digits(n) <= d <==> n < Pow(10, d)
    decreases d
  {
    if d == 1 {
      assert Pow(10, 1) == 10 * Pow(10, 0);
    } else {
      DigitsBelow(n / 10, d - 1);
      var p := Pow(10, d - 1);
      if n < 10 { PowGrows(10, 1, d); assert Pow(10, 1) == 10 * Pow(10, 0); }
    }
  }

  /** INT_BITS_STRLEN_BOUND */
  function IntBitsStrlenBound(b: nat): nat {
    (b * 146 + 484) / 485
  }

  lemma MulAssoc(x: nat, y: nat, z: nat)
    ensures x * (y * z) == x * y * z
  {
  }

  lemma PowOne(b: nat)
    ensures Pow(b, 1) == b
  {
    assert Pow(b, 0) == 1;
  }

  /** Squaring an upper estimate, with or without one more factor of two, and rounding its
      mantissa up. */
  lemma UpperStep(e: nat, m: nat, k: nat, odd: bool, j: nat, unit: nat, m': nat)
    requires Pow(2, e) <= m * Pow(10, k) && Pow(10, j) == unit
    requires (if odd then 2 * (m * m) else m * m) <= m' * unit
    ensures Pow(2, if odd then 2 * e + 1 else 2 * e) <= m' * Pow(10, 2 * k + j)
  {
    hide Pow;
    var p, t := Pow(2, e), Pow(10, k);
    SquareScaled(m, t);
    MulMonoBoth(p, m * t, p, m * t);
    Doubled(e, odd);
    TenSplit(k, j);
    var f := if odd then 2 else 1;
    assert f * (p * p) <= f * (m * m * (t * t));
    ScaleBy(f, m * m, m' * unit, t * t);
    MulAssoc(m', unit, t * t);
  }

  /** The same from below, rounding the mantissa down. */
  lemma LowerStep(e: nat, m: nat, k: nat, odd: bool, j: nat, unit: nat, m': nat)
    requires m * Pow(10, k) <= Pow(2, e) && Pow(10, j) == unit
    requires m' * unit <= (if odd then 2 * (m * m) else m * m)
    ensures m' * Pow(10, 2 * k + j) <= Pow(2, if odd then 2 * e + 1 else 2 * e)
  {
    hide Pow;
    var p, t := Pow(2, e), Pow(10, k);
    SquareScaled(m, t);
    MulMonoBoth(m * t, p, m * t, p);
    Doubled(e, odd);
    TenSplit(k, j);
    var f := if odd then 2 else 1;
    assert f * (m * m * (t * t)) <= f * (p * p);
    ScaleBy(f, m * m, m' * unit, t * t);
    MulAssoc(m', unit, t * t);
  }

  lemma SquareScaled(m: nat, t: nat)
    ensures m * t * (m * t) == m * m * (t * t)
  {
    MulAssoc(m, t, m * t);
    MulAssoc(t, m, t);
    MulAssoc(m, t, t);
    MulAssoc(m, m, t * t);
  }

  lemma Doubled(e: nat, odd: bool)
    ensures Pow(2, if odd then 2 * e + 1 else 2 * e) == (if odd then 2 else 1) * (Pow(2, e) * Pow(2, e))
  {
    PowAdd(2, e, e);
  }

  lemma TenSplit(k: nat, j: nat)
    ensures Pow(10, 2 * k + j) == Pow(10, j) * (Pow(10, k) * Pow(10, k))
  {
    PowAdd(10, k, k);
    PowAdd(10, 2 * k, j);
  }

  lemma ScaleBy(f: nat, x: nat, y: nat, t: nat)
    ensures f * x <= y ==> f * (x * t) <= y * t
    ensures y <= f * x ==> y * t <= f * (x * t)
  {
    MulAssoc(f, x, t);
    if f * x <= y { MulMono(t, f * x, y); }
    if y <= f * x { MulMono(t, y, f * x); }
  }

  lemma TenPowers()
    ensures Pow(10, 9) == 1000000000 && Pow(10, 10) == 10000000000 && Pow(10, 11) == 100000000000
  {
    assert Pow(10, 3) == 1000;
    assert Pow(10, 6) == 1000000;
    assert Pow(10, 9) == 1000000000;
  }

  lemma TwoPowers()
    ensures Pow(2, 30) == 1073741824 && Pow(2, 33) == 8589934592
  {
    assert Pow(2, 5) == 32;
    assert Pow(2, 10) == 1024;
    PowAdd(2, 10, 10);
    PowAdd(2, 20, 10);
    PowAdd(2, 30, 3);
  }

  lemma TwoTo485()
    ensures Pow(2, 485) <= 9989595401 * Pow(10, 136)
  {
    TwoPowers();
    TenPowers();
    assert Pow(2, 30) <= 1073741824 * Pow(10, 0);
    hide Pow;
    UpperStep(30, 1073741824, 0, false, 9, 1000000000, 1152921505);
    UpperStep(60, 1152921505, 9, true, 9, 1000000000, 2658455994);
    UpperStep(121, 2658455994, 27, false, 9, 1000000000, 7067388273);
    UpperStep(242, 7067388273, 63, true, 10, 10000000000, 9989595401);
  }

  lemma TwoTo2136Upper()
    ensures Pow(2, 2136) <= 1000162910 * Pow(10, 634)
  {
    TwoPowers();
    TenPowers();
    assert Pow(2, 33) <= 8589934592 * Pow(10, 0);
    hide Pow;
    UpperStep(33, 8589934592, 0, false, 10, 10000000000, 7378697630);
    UpperStep(66, 7378697630, 10, true, 11, 100000000000, 1088903575);
    UpperStep(133, 1088903575, 31, true, 9, 1000000000, 2371421992);
    UpperStep(267, 2371421992, 71, false, 9, 1000000000, 5623642265);
    UpperStep(534, 5623642265, 151, false, 10, 10000000000, 3162535233);
    UpperStep(1068, 3162535233, 312, false, 10, 10000000000, 1000162910);
  }

  lemma TwoTo2136Lower()
    ensures 1000162887 * Pow(10, 634) <= Pow(2, 2136)
  {
    TwoPowers();
    TenPowers();
    assert 8589934592 * Pow(10, 0) <= Pow(2, 33);
    hide Pow;
    LowerStep(33, 8589934592, 0, false, 10, 10000000000, 7378697629);
    LowerStep(66, 7378697629, 10, true, 11, 100000000000, 1088903574);
    LowerStep(133, 1088903574, 31, true, 9, 1000000000, 2371421986);
    LowerStep(267, 2371421986, 71, false, 9, 1000000000, 5623642235);
    LowerStep(534, 5623642235, 151, false, 10, 10000000000, 3162535198);
    LowerStep(1068, 3162535198, 312, false, 10, 10000000000, 1000162887);
  }

  /** 2 ** 485 < 10 ** 146, that is, log10 (2) < 146 / 485. */
  lemma LogBelow()
    ensures Pow(2, 485) < Pow(10, 146)
  {
    hide Pow;
    TwoTo485();
    TenPowers();
    PowAdd(10, 10, 136);
  }

  /** Raising both sides of a comparison to a power, and back. */
  lemma PowCompare(a: nat, b: nat, e: nat)
    requires Pow(a, e) < Pow(b, e)
    ensures a < b
  {
    if b <= a { PowMono(b, a, e); }
  }

  /** If b bits need no more than d digits by the ratio n / m, then 2 ** b < 10 ** d. */
  lemma FewDigits(b: nat, d: nat, n: nat, m: nat)
    requires b > 0 && m > 0 && Pow(2, m) < Pow(10, n) && n * b <= m * d
    ensures Pow(2, b) < Pow(10, d)
  {
    hide Pow;
    PowMul(2, b, m);
    PowMul(2, m, b);
    assert b * m == m * b;
    PowMono(Pow(2, m), Pow(10, n), b);
    PowMul(10, n, b);
    PowGrows(10, n * b, m * d);
    PowMul(10, d, m);
    assert m * d == d * m;
    PowCompare(Pow(2, b), Pow(10, d), m);
  }

  /** The converse bound, from a ratio on the other side. */
  lemma ManyDigits(b: nat, d: nat, n: nat, m: nat)
    requires b > 0 && m > 0 && Pow(10, n) < Pow(2, m) && m * d <= n * b
    ensures Pow(10, d) < Pow(2, b)
  {
    hide Pow;
    PowMul(10, d, m);
    assert m * d == d * m;
    PowGrows(10, m * d, n * b);
    PowMul(10, n, b);
    PowMono(Pow(10, n), Pow(2, m), b);
    PowMul(2, m, b);
    PowMul(2, b, m);
    assert b * m == m * b;
    PowCompare(Pow(10, d), Pow(2, b), m);
  }

  /** Every value of b bits, and 2 ** b itself, fits in INT_BITS_STRLEN_BOUND (b) digits. */
  lemma StrlenBound(b: nat, n: nat)
    requires b >= 1 && n <= Pow(2, b)
    ensures Digits(n) <= IntBitsStrlenBound(b)
  {
    hide Pow, Digits;
    var d := IntBitsStrlenBound(b);
    LogBelow();
    FewDigits(b, d, 146, 485);
    DigitsBelow(n, d);
  }

  /** 10 ** 643 < 2 ** 2136, the next best fraction, from below. */
  lemma LogAbove()
    ensures Pow(10, 643) < Pow(2, 2136)
  {
    hide Pow;
    TwoTo2136Lower();
    TenPowers();
    PowAdd(10, 9, 634);
  }

  /** No fraction with a denominator below 2621 lies between 643 / 2136 and 146 / 485. */
  lemma NothingBetween(b: nat, d: nat)
    requires b < 2621 && 485 * d < 146 * b
    ensures 2136 * d <= 643 * b
  {
    assert b == 485 * (2136 * d - 643 * b) + 2136 * (146 * b - 485 * d);
  }

  /** Below 2621 bits the bound is tight: the largest value has that many digits. */
  lemma StrlenTight(b: nat)
    requires 1 <= b < 2621
    ensures Digits(Pow(2, b) - 1) == IntBitsStrlenBound(b)
  {
    hide Pow, Digits;
    var d := IntBitsStrlenBound(b);
    StrlenBound(b, Pow(2, b) - 1);
    if d > 1 {
      NothingBetween(b, d - 1);
      LogAbove();
      ManyDigits(b, d - 1, 643, 2136);
      DigitsBelow(Pow(2, b) - 1, d - 1);
    }
  }

  /** And 2621 is the first number of bits for which it is not. */
  lemma StrlenSlack()
    ensures Digits(Pow(2, 2621) - 1) < IntBitsStrlenBound(2621)
  {
    hide Pow, Digits;
    TwoTo485();
    TwoTo2136Upper();
    PowAdd(2, 485, 2136);
    var s, t := Pow(10, 136), Pow(10, 634);
    MulMonoBoth(Pow(2, 485), 9989595401 * s, Pow(2, 2136), 1000162910 * t);
    assert 9989595401 * s * (1000162910 * t) == 9989595401 * 1000162910 * (s * t);
    TenPowers();
    PowAdd(10, 9, 10);
    PowAdd(10, 136, 634);
    PowAdd(10, 19, 770);
    DigitsBelow(Pow(2, 2621) - 1, 789);
  }

  /** A value of a type of `bits` bits, with a sign if it is signed. */
  function Strlen(v: int): nat {
    if v < 0 then 1 + Digits(-v) else Digits(v)
  }

  /** INT_STRLEN_BOUND: every value of the type, signed or not, fits, minus sign included. */
  lemma TypeStrlenBound(bits: nat, signed: bool, v: int)
    requires bits >= 2
    requires if signed then -(Pow(2, bits - 1) as int) <= v < Pow(2, bits - 1) else 0 <= v < Pow(2, bits)
    ensures Strlen(v) <= if signed then IntBitsStrlenBound(bits - 1) + 1 else IntBitsStrlenBound(bits)
  {
    hide Pow, Digits;
    if signed { StrlenBound(bits - 1, if v < 0 then -v else v); } else { StrlenBound(bits, v); }
  }

  // ------------------------------------------------------------------
  // Range overflow

  /** a >> b, rounding down. */
  function ShiftRight(a: int, b: nat): int {
    a / Pow(2, b)
  }

  /** The minimum and maximum of an integer type: unsigned; or signed, two's complement or
      symmetric. */
  ghost predicate IsType(min: int, max: int) {
    max >= 1 && (min == 0 || min == -max || min == -max - 1)
  }

  ghost predicate InRange(x: int, min: int, max: int) {
    min <= x <= max
  }

  predicate AddRangeOverflow(a: int, b: int, min: int, max: int) {
    if b < 0 then a < min - b else max - b < a
  }

  predicate SubtractRangeOverflow(a: int, b: int, min: int, max: int) {
    if b < 0 then max + b < a else a < min + b
  }

  predicate NegateRangeOverflow(a: int, min: int, max: int) {
    if min < 0 then a < -max else 0 < a
  }

  predicate MultiplyRangeOverflow(a: int, b: int, min: int, max: int) {
    if b < 0 then
      if a < 0 then a < Quot(max, b)
      else if b == -1 then false
      else Quot(min, b) < a
    else if b == 0 then false
    else if a < 0 then a < Quot(min, b)
    else Quot(max, b) < a
  }

  predicate DivideRangeOverflow(a: int, b: int, min: int, max: int) {
    min < 0 && b == -1 && a < -max
  }

  predicate LeftShiftRangeOverflow(a: int, b: nat, min: int, max: int) {
    if a < 0 then a < ShiftRight(min, b) else ShiftRight(max, b) < a
  }

  /** The tests for sums, differences and negation are exact, and do not overflow
      themselves. */
  lemma AdditiveExact(a: int, b: int, min: int, max: int)
    requires IsType(min, max) && InRange(a, min, max) && InRange(b, min, max)
    ensures AddRangeOverflow(a, b, min, max) <==> !InRange(a + b, min, max)
    ensures SubtractRangeOverflow(a, b, min, max) <==> !InRange(a - b, min, max)
    ensures NegateRangeOverflow(a, min, max) <==> !InRange(-a, min, max)
    ensures if b < 0 then InRange(min - b, min, max) && InRange(max + b, min, max)
            else InRange(max - b, min, max) && InRange(min + b, min, max)
    ensures min < 0 ==> InRange(-max, min, max)
  {
  }

  lemma QuotCompare(p: nat, q: nat, x: int)
    requires q > 0
    ensures p / q < x <==> p < x * q
  {
    var d := p / q;
    assert p == q * d + p % q;
    if d < x { assert x * q >= (d + 1) * q by { MulLe(d + 1, x, q); } }
    else { assert x * q <= d * q by { MulLe(x, d, q); } }
  }

  lemma MulLe(x: int, y: int, q: nat)
    requires x <= y
    ensures x * q <= y * q
  {
  }

  /** The test for products is exact, and none of its divisions overflows. */
  lemma MultiplyExact(a: int, b: int, min: int, max: int)
    requires IsType(min, max) && InRange(a, min, max) && InRange(b, min, max)
    ensures MultiplyRangeOverflow(a, b, min, max) <==> !InRange(a * b, min, max)
    ensures b < 0 && a < 0 ==> InRange(Quot(max, b), min, max)
    ensures b < -1 && a >= 0 ==> InRange(Quot(min, b), min, max)
    ensures b > 0 ==> InRange(Quot(min, b), min, max) && InRange(Quot(max, b), min, max)
  {
    if b == 0 { assert a * b == 0; }
    else if b > 0 { MultiplyByPositive(a, b, min, max); }
    else if a < 0 { MultiplyNegatives(a, b, min, max); }
    else { MultiplyByNegative(a, b, min, max); }
  }

  lemma MultiplyByPositive(a: int, b: int, min: int, max: int)
    requires IsType(min, max) && b > 0
    ensures if a < 0 then a < Quot(min, b) <==> a * b < min else Quot(max, b) < a <==> max < a * b
    ensures a < 0 ==> a * b < 0
    ensures a >= 0 ==> a * b >= 0
    ensures min <= Quot(min, b) <= 0 <= Quot(max, b) <= max
  {
    QuotSmaller(max, b);
    QuotSmaller(-min, b);
    SignOf(a, b);
    if a < 0 {
      QuotCompare(-min, b, -a);
      assert -a * b == -(a * b);
    } else {
      QuotCompare(max, b, a);
    }
  }

  lemma MultiplyNegatives(a: int, b: int, min: int, max: int)
    requires IsType(min, max) && b < 0 && a < 0 && min <= b
    ensures a < Quot(max, b) <==> max < a * b
    ensures a * b > 0
    ensures min <= Quot(max, b) <= 0
  {
    QuotSmaller(max, -b);
    QuotCompare(max, -b, -a);
    assert -a * -b == a * b;
    SignOf(-a, -b);
    MulLe(1, -a, -b);
  }

  lemma MultiplyByNegative(a: int, b: int, min: int, max: int)
    requires IsType(min, max) && b < 0 && 0 <= a <= max && min <= b
    ensures b == -1 ==> min <= a * b
    ensures b < -1 ==> (Quot(min, b) < a <==> a * b < min)
    ensures a * b <= 0
    ensures b < -1 ==> 0 <= Quot(min, b) <= max
  {
    QuotCompare(-min, -b, a);
    assert a * -b == -(a * b);
    SignOf(a, -b);
    if b < -1 { QuotHalf(-min, -b); }
  }

  lemma SignOf(a: int, b: int)
    requires b > 0
    ensures a < 0 ==> a * b < 0
    ensures a >= 0 ==> a * b >= 0
  {
  }

  lemma QuotSmaller(p: nat, q: nat)
    requires q > 0
    ensures 0 <= p / q <= p
  {
    assert p == q * (p / q) + p % q;
    MulLe(1, q, p / q);
  }

  lemma QuotHalf(p: nat, q: nat)
    requires q >= 2
    ensures 0 <= p / q <= p / 2
  {
    assert p == q * (p / q) + p % q;
    MulLe(2, q, p / q);
  }

  /** Only the most negative value divided by -1 overflows. */
  lemma DivideExact(a: int, b: int, min: int, max: int)
    requires IsType(min, max) && InRange(a, min, max) && InRange(b, min, max) && b != 0
    ensures DivideRangeOverflow(a, b, min, max) <==> !InRange(Quot(a, b), min, max)
  {
    var q := if b > 0 then b else -b;
    var p := if a >= 0 then a else -a;
    QuotSmaller(p, q);
    if q >= 2 { QuotHalf(p, q); } else { assert p / q == p; }
  }

  /** The test for shifts, for the shift counts of C, is exact in every type but a symmetric
      one, where it misses the one power of two that is shifted just below the minimum. */
  lemma LeftShiftExact(a: int, b: nat, k: nat, min: int, max: int)
    requires IsType(min, max) && InRange(a, min, max)
    requires max == Pow(2, k) - 1 && b <= k
    ensures LeftShiftRangeOverflow(a, b, min, max) <==>
            !InRange(a * Pow(2, b), min, max) && !(min == -max && a == -(Pow(2, k - b) as int))
  {
    hide Pow;
    var p: int, q: int := Pow(2, k - b), Pow(2, b);
    PowAdd(2, k - b, b);
    assert k - b + b == k && p * q == max + 1;
    if a >= 0 {
      QuotCompare(max, q, a);
      SignOf(a, q);
    } else {
      PowOne(2);
      if b == 0 { PowZero(2); assert a * q == a && p * q == p; } else { PowGrows(2, 1, b); }
      NegativeShift(a, p, q, min);
    }
  }

  /** In every symmetric type, for every shift count above 0, there is an operand for which
      the test sees no overflow and the result is out of range. */
  lemma LeftShiftMisses(b: nat, k: nat)
    requires 1 <= b <= k
    ensures var a, max: int := -(Pow(2, k - b) as int), Pow(2, k) - 1;
            && IsType(-max, max) && InRange(a, -max, max)
            && !LeftShiftRangeOverflow(a, b, -max, max) && !InRange(a * Pow(2, b), -max, max)
  {
    hide Pow, LeftShiftRangeOverflow;
    var p: int, q: int := Pow(2, k - b), Pow(2, b);
    PowAdd(2, k - b, b);
    assert k - b + b == k;
    PowOne(2);
    PowGrows(2, 1, b);
    MulMono(p, 2, q);
    assert -p * q == -(p * q);
    LeftShiftExact(-p, b, k, -(p * q - 1), p * q - 1);
  }

  lemma PowZero(b: nat)
    ensures Pow(b, 0) == 1
  {
  }

  lemma NegativeShift(a: int, p: int, q: int, min: int)
    requires q >= 1 && min <= a < 0 && (min == -(p * q) || min == -(p * q) + 1)
    ensures a < min / q <==> a * q < min && !(min == -(p * q) + 1 && a == -p)
    ensures a * q < 0
  {
    SignOf(a, q);
    assert -p * q == -(p * q) && (a + 1) * q == a * q + q;
    if q == 1 {
      assert a * q == a;
    } else {
      FloorOf(min, p, q);
      if a < -p { MulLe(a + 1, -p, q); } else { MulLe(-p, a, q); }
    }
  }

  /** Rounding down a minimum that is -(p * q), or one more. */
  lemma FloorOf(min: int, p: int, q: int)
    requires q > 1 && (min == -(p * q) || min == -(p * q) + 1)
    ensures min / q == -p
  {
    assert min == q * (min / q) + min % q;
    var d := min / q;
    assert -p * q == -(p * q) && d * q == q * d;
    assert (d + 1) * q == d * q + q && (-p + 1) * q == -p * q + q;
    if d < -p { MulLe(d + 1, -p, q); }
    if d > -p { MulLe(-p + 1, d, q); }
  }
}
