/** Inverting a conversion of clock readings to calendar dates: Gregorian day arithmetic
    on machine integers, a binary search for the nearest convertible time, and the
    fixed-point iteration of __mktime_internal. */
module Mktime {
  import opened Common

  // ------------------------------------------------------------------
  // Machine integers

  const INT_MIN := -0x8000_0000
  const INT_MAX := 0x7fff_ffff
  const TIME_T_MIN := -0x8000_0000_0000_0000
  const TIME_T_MAX := 0x7fff_ffff_ffff_ffff

  type Int = x: int | INT_MIN <= x <= INT_MAX
  type TimeT = x: int | TIME_T_MIN <= x <= TIME_T_MAX

  /** Arithmetic that wraps around into the range of `size` integers from `lo` on. */
  function Wrap(x: int, lo: int, size: nat): (r: int)
    requires size > 0
    ensures lo <= r < lo + size
    decreases x < lo, if x < lo then lo - x else x - lo
  {
    if x < lo then Wrap(x + size, lo, size)
    else if x >= lo + size then Wrap(x - size, lo, size)
    else x
  }

  /** What wraps around differs by a multiple of the size of the range. */
  lemma {:induction false} WrapCongruent(x: int, lo: int, size: nat) returns (k: int)
    requires size > 0
    ensures Wrap(x, lo, size) == x + size * k
    decreases x < lo, if x < lo then lo - x else x - lo
  {
    if x < lo {
      var j := WrapCongruent(x + size, lo, size);
      k := j + 1;
    } else if x >= lo + size {
      var j := WrapCongruent(x - size, lo, size);
      k := j - 1;
    } else {
      k := 0;
    }
  }

  /** Conversion to int and to time_t, in two's complement. */
  function AsInt(x: int): Int { Wrap(x, INT_MIN, 0x1_0000_0000) }
  function AsTime(x: int): TimeT { Wrap(x, TIME_T_MIN, 0x1_0000_0000_0000_0000) }

  lemma Narrow(x: int)
    ensures INT_MIN <= x <= INT_MAX ==> AsInt(x) == x
    ensures TIME_T_MIN <= x <= TIME_T_MAX ==> AsTime(x) == x
  {
  }

  /** C's remainder. */
  function Rem(a: int, b: int): int
    requires b > 0
  {
    a - b * Quot(a, b)
  }

  function Not(c: bool): int { if c then 0 else 1 }
  function Bool(c: bool): int { if c then 1 else 0 }

  /** SHR (a, b) for p == 1 << b, by the portable branch of the macro. */
  function Shr(a: int, p: int): int
    requires p > 0
  {
    Quot(a, p) - Bool(Rem(a, p) < 0)
  }

  /** SHR rounds toward minus infinity. */
  lemma ShrFloor(a: int, p: int)
    requires p > 0
    ensures p * Shr(a, p) <= a < p * (Shr(a, p) + 1)
  {
    if a < 0 {
      var q := -a / p;
      assert -a == p * q + -a % p && 0 <= -a % p < p;
      assert Quot(a, p) == -q && Rem(a, p) == a + p * q;
      assert p * (-q) == -(p * q) && p * (-q - 1) == -(p * q) - p;
    } else {
      assert a == p * (a / p) + a % p;
    }
  }

  // ------------------------------------------------------------------
  // Years

  const TM_YEAR_BASE := 1900
  const EPOCH_YEAR := 1970

  /** leapyear: Quot and Rem stand for C's operators, and % 4 for "& 3". */
  predicate LeapYear(year: int) {
    && year % 4 == 0
    && (Rem(year, 100) != 0 || Quot(year, 100) % 4 == -(TM_YEAR_BASE / 100) % 4)
  }

  /** The Gregorian rule. */
  ghost predicate Gregorian(y: int) {
    y % 4 == 0 && (y % 100 != 0 || y % 400 == 0)
  }

  /** leapyear is the Gregorian rule for year + 1900, whatever the sign of year. */
  lemma LeapYearGregorian(year: int)
    ensures LeapYear(year) <==> Gregorian(year + TM_YEAR_BASE)
  {
    hide Quot, Rem;
    var q := Quot(year, 100);
    TruncatedBy100(year);
    if Rem(year, 100) == 0 { MultipleOf100(q); }
  }

  /** Truncation keeps the sign of the remainder, and so whether there is one. */
  lemma TruncatedBy100(year: int)
    ensures year == 100 * Quot(year, 100) + Rem(year, 100)
    ensures Rem(year, 100) == 0 <==> (year + TM_YEAR_BASE) % 100 == 0
    ensures year % 4 == (year + TM_YEAR_BASE) % 4
  {
    assert year < 0 ==> -year == 100 * (-year / 100) + -year % 100;
    assert year >= 0 ==> year == 100 * (year / 100) + year % 100;
  }

  lemma MultipleOf100(q: int)
    ensures (100 * q + 1900) % 400 == 0 <==> q % 4 == 1
  {
    assert 100 * q + 1900 == 400 * ((q + 19) / 4) + 100 * ((q + 19) % 4);
  }

  ghost function YearLength(year: int): int {
    if Gregorian(year + TM_YEAR_BASE) then 366 else 365
  }

  /** Days from 1 January 1900 to 1 January of year + 1900: the sum of the lengths of the
      years between. */
  ghost function DaysBefore(year: int): int
    decreases if year < 0 then -year else year
  {
    if year == 0 then 0
    else if year > 0 then DaysBefore(year - 1) + YearLength(year - 1)
    else DaysBefore(year + 1) - YearLength(year)
  }

  /** Leap days before a year as ydhms_diff counts them: the fourth years, less the
      centuries, plus the fourth centuries. */
  function FourthYears(year: int): int {
    Shr(year, 4) + Shr(TM_YEAR_BASE, 4) - Not(year % 4 != 0)
  }

  function Centuries(a4: int): int {
    Quot(a4, 25) - Bool(Rem(a4, 25) < 0)
  }

  function LeapDays(year: int): int {
    var a4 := FourthYears(year);
    var a100 := Centuries(a4);
    a4 - a100 + Shr(a100, 4)
  }

  /** The machine's count is that number. */
  lemma LeapDaysFloor(year: int)
    ensures FourthYears(year) == (year + 1899) / 4
    ensures Centuries(FourthYears(year)) == (year + 1899) / 100
    ensures LeapDays(year) == LeapsBefore(year)
  {
    var y := year + 1899;
    ShrFloor(year, 4);
    ShrFloor(1900, 4);
    assert y == 4 * (y / 4) + y % 4;
    var a4 := FourthYears(year);
    assert a4 == y / 4;
    ShrFloor(a4, 25);
    var a100 := Centuries(a4);
    assert y == 100 * (y / 100) + y % 100;
    assert a100 == y / 100;
    ShrFloor(a100, 4);
    assert y == 400 * (y / 400) + y % 400;
  }

  /** The leap days up to a year, with unbounded numbers. */
  ghost function LeapsBefore(year: int): int {
    (year + 1899) / 4 - (year + 1899) / 100 + (year + 1899) / 400
  }

  lemma LeapsNext(year: int)
    ensures LeapsBefore(year + 1) == LeapsBefore(year) + Bool(Gregorian(year + TM_YEAR_BASE))
  {
    var y := year + 1900;
    FloorNext(y, 4);
    FloorNext(y, 100);
    FloorNext(y, 400);
    Multiples(y);
  }

  lemma Multiples(y: int)
    ensures y % 400 == 0 ==> y % 100 == 0
    ensures y % 100 == 0 ==> y % 4 == 0
  {
  }

  lemma FloorNext(y: int, p: int)
    requires p == 4 || p == 100 || p == 400
    ensures y / p == (y - 1) / p + Bool(y % p == 0)
  {
  }

  /** Counting leap days by division agrees with adding up the years one by one. */
  lemma {:induction false} DaysBeforeFloor(year: int)
    ensures DaysBefore(year) == 365 * year + LeapsBefore(year) - 460
    decreases if year < 0 then -year else year
  {
    hide LeapsBefore, Gregorian;
    if year == 0 {
      LeapsAtZero();
    } else if year > 0 {
      DaysBeforeFloor(year - 1);
      LeapsNext(year - 1);
    } else {
      DaysBeforeFloor(year + 1);
      LeapsNext(year);
    }
  }

  lemma LeapsAtZero()
    ensures LeapsBefore(0) == 460
  {
  }

  // ------------------------------------------------------------------
  // Differences of dates

  /** The leap days between two dates, as ydhms_diff counts them; every value is wrapped to
      the width of the variable that holds it. */
  function InterveningLeapDays(year1: int, year0: int): Int {
    var a4, b4 := AsInt(FourthYears(year1)), AsInt(FourthYears(year0));
    var a100, b100 := AsInt(Centuries(a4)), AsInt(Centuries(b4));
    var a400, b400 := AsInt(Shr(a100, 4)), AsInt(Shr(b100, 4));
    AsInt((a4 - b4) - (a100 - b100) + (a400 - b400))
  }

  /** Seconds from the start of 1900, every day having 86400 of them. */
  ghost function Seconds(year: int, yday: int, hour: int, min: int, sec: int): int {
    60 * (60 * (24 * (DaysBefore(year) + yday) + hour) + min) + sec
  }

  lemma WideYears(year: int)
    requires 2 * INT_MIN <= year <= 2 * INT_MAX
    ensures -0x4100_0000 <= FourthYears(year) <= 0x4100_0000
    ensures INT_MIN <= year <= INT_MAX ==> -0x2080_0000 <= FourthYears(year) <= 0x2080_0000
    ensures -0x300_0000 <= Centuries(FourthYears(year)) <= 0x300_0000
    ensures -0x100_0000 <= Shr(Centuries(FourthYears(year)), 4) <= 0x100_0000
  {
    LeapDaysFloor(year);
    ShrFloor(Centuries(FourthYears(year)), 4);
  }

  lemma InterveningExact(year1: int, year0: Int)
    requires 2 * INT_MIN <= year1 <= 2 * INT_MAX
    ensures InterveningLeapDays(year1, year0) == LeapsBefore(year1) - LeapsBefore(year0)
    ensures -0x7fff_0000 <= InterveningLeapDays(year1, year0) <= 0x7fff_0000
  {
    hide FourthYears, Centuries, Shr, AsInt;
    WideYears(year1);
    WideYears(year0);
    var a4, b4 := FourthYears(year1), FourthYears(year0);
    Narrow(a4); Narrow(b4);
    Narrow(Centuries(a4)); Narrow(Centuries(b4));
    Narrow(Shr(Centuries(a4), 4)); Narrow(Shr(Centuries(b4), 4));
    LeapDaysFloor(year1);
    LeapDaysFloor(year0);
    Narrow(LeapDays(year1) - LeapDays(year0));
  }

  /** The seconds of ydhms_diff once the leap days are known, every value wrapped to the
      width of time_t. */
  function SecondsApart(years: int, yday1: int, hour1: Int, min1: Int, sec1: Int,
                        yday0: Int, hour0: Int, min0: Int, sec0: Int, leapDays: Int): TimeT
  {
    var days := AsTime(365 * AsTime(years) + yday1 - yday0 + leapDays);
    var hours := AsTime(24 * days + hour1 - hour0);
    var minutes := AsTime(60 * hours + min1 - min0);
    AsTime(60 * minutes + sec1 - sec0)
  }

  lemma SecondsApartExact(years: int, yday1: int, hour1: Int, min1: Int, sec1: Int,
                          yday0: Int, hour0: Int, min0: Int, sec0: Int, leapDays: Int)
    requires 4 * INT_MIN <= years <= 4 * INT_MAX && 2 * INT_MIN <= yday1 <= 2 * INT_MAX
    ensures SecondsApart(years, yday1, hour1, min1, sec1, yday0, hour0, min0, sec0, leapDays) ==
            60 * (60 * (24 * (365 * years + yday1 - yday0 + leapDays) + hour1 - hour0) + min1 - min0) + sec1 - sec0
  {
    hide AsTime;
    var days := 365 * years + yday1 - yday0 + leapDays;
    Narrow(years);
    Narrow(days);
    Narrow(24 * days + hour1 - hour0);
    Narrow(60 * (24 * days + hour1 - hour0) + min1 - min0);
    Narrow(60 * (60 * (24 * days + hour1 - hour0) + min1 - min0) + sec1 - sec0);
  }

  ghost predicate FitsInt(x: int) { INT_MIN <= x <= INT_MAX }
  ghost predicate FitsTime(x: int) { TIME_T_MIN <= x <= TIME_T_MAX }

  /** No int of ydhms_diff overflows, from left to right, whatever the two years. */
  lemma LeapDaysFit(year1: int, year0: Int)
    requires 2 * INT_MIN <= year1 <= 2 * INT_MAX
    ensures forall year | year == year1 || year == year0 ::
              && FitsInt(Shr(year, 4)) && FitsInt(Shr(year, 4) + Shr(TM_YEAR_BASE, 4)) && FitsInt(FourthYears(year))
              && FitsInt(Quot(FourthYears(year), 25)) && FitsInt(Rem(FourthYears(year), 25))
              && FitsInt(Centuries(FourthYears(year))) && FitsInt(Shr(Centuries(FourthYears(year)), 4))
    ensures var a4, b4 := FourthYears(year1), FourthYears(year0);
            var a100, b100 := Centuries(a4), Centuries(b4);
            var a400, b400 := Shr(a100, 4), Shr(b100, 4);
            && FitsInt(a4 - b4) && FitsInt(a100 - b100) && FitsInt(a400 - b400)
            && FitsInt((a4 - b4) - (a100 - b100)) && FitsInt((a4 - b4) - (a100 - b100) + (a400 - b400))
  {
    hide FourthYears, Centuries, Shr;
    WideYears(year1);
    WideYears(year0);
    YearFits(year1);
    YearFits(year0);
  }

  lemma YearFits(year: int)
    requires 2 * INT_MIN <= year <= 2 * INT_MAX
    ensures FitsInt(Shr(year, 4)) && FitsInt(Shr(year, 4) + Shr(TM_YEAR_BASE, 4))
    ensures FitsInt(Quot(FourthYears(year), 25)) && FitsInt(Rem(FourthYears(year), 25))
  {
    hide FourthYears, Shr;
    ShrFloor(year, 4);
    ShrFloor(TM_YEAR_BASE, 4);
    WideYears(year);
  }

  /** Nor does any time_t, for any int of leap days. */
  lemma SecondsApartFit(year1: int, yday1: int, hour1: Int, min1: Int, sec1: Int,
                        year0: Int, yday0: Int, hour0: Int, min0: Int, sec0: Int, leapDays: Int)
    requires 2 * INT_MIN <= year1 <= 2 * INT_MAX && 2 * INT_MIN <= yday1 <= 2 * INT_MAX
    ensures var years := year1 - year0;
            var days := 365 * years + yday1 - yday0 + leapDays;
            var hours := 24 * days + hour1 - hour0;
            var minutes := 60 * hours + min1 - min0;
            && FitsTime(year1) && FitsTime(years) && FitsTime(365 * years) && FitsTime(365 * years + yday1)
            && FitsTime(365 * years + yday1 - yday0) && FitsTime(days)
            && FitsTime(24 * days) && FitsTime(24 * days + hour1) && FitsTime(hours)
            && FitsTime(60 * hours) && FitsTime(60 * hours + min1) && FitsTime(minutes)
            && FitsTime(60 * minutes) && FitsTime(60 * minutes + sec1) && FitsTime(60 * minutes + sec1 - sec0)
  {
  }

  /** ydhms_diff: the number of seconds between two dates. */
  function YdhmsDiff(year1: int, yday1: int, hour1: Int, min1: Int, sec1: Int,
                     year0: Int, yday0: Int, hour0: Int, min0: Int, sec0: Int): (r: TimeT)
    requires 2 * INT_MIN <= year1 <= 2 * INT_MAX && 2 * INT_MIN <= yday1 <= 2 * INT_MAX
    ensures r == Seconds(year1, yday1, hour1, min1, sec1) - Seconds(year0, yday0, hour0, min0, sec0)
  {
    hide InterveningLeapDays, SecondsApart, LeapsBefore, DaysBefore, AsTime;
    Narrow(year1);
    InterveningExact(year1, year0);
    DaysBeforeFloor(year1);
    DaysBeforeFloor(year0);
    SecondsApartExact(AsTime(year1) - year0, yday1, hour1, min1, sec1, yday0, hour0, min0, sec0,
        InterveningLeapDays(year1, year0));
    SecondsApart(AsTime(year1) - year0, yday1, hour1, min1, sec1, yday0, hour0, min0, sec0,
        InterveningLeapDays(year1, year0))
  }

  // ------------------------------------------------------------------
  // Sums and averages that do not overflow

  /** time_t_avg */
  function TimeAvg(a: TimeT, b: TimeT): int {
    Shr(a, 2) + Shr(b, 2) + Bool(a % 2 == 1 && b % 2 == 1)
  }

  lemma TimeAvgFloor(a: TimeT, b: TimeT)
    ensures TimeAvg(a, b) == (a + b) / 2
    ensures (a <= TimeAvg(a, b) <= b || b <= TimeAvg(a, b) <= a)
  {
    ShrFloor(a, 2);
    ShrFloor(b, 2);
  }

  /** time_t_add_ok for a signed time_t; wrapv is the macro WRAPV. */
  predicate TimeAddOk(a: TimeT, b: TimeT, wrapv: bool) {
    if wrapv then (AsTime(a + b) < a) == (b < 0)
    else Quot(TIME_T_MIN, 2) <= TimeAvg(a, b) <= Quot(TIME_T_MAX, 2)
  }

  /** time_t_add_ok for an unsigned time_t. */
  predicate UnsignedAddOk(a: nat, b: nat) {
    var sum := (a + b) % 0x1_0000_0000_0000_0000;
    (sum < a) == (0x8000_0000_0000_0000 <= b)
  }

  /** time_t_int_add_ok */
  predicate TimeIntAddOk(a: TimeT, b: Int, wrapv: bool) {
    if wrapv then (AsTime(a + b) < a) == (b < 0)
    else Quot(TIME_T_MIN, 2) <= Shr(a, 2) + (Shr(b, 2) + Bool(a % 2 == 1 && b % 2 == 1)) <= Quot(TIME_T_MAX, 2)
  }

  /** Both tests, in both builds, say exactly whether the sum is representable. */
  lemma AddOkExact(a: TimeT, b: TimeT, wrapv: bool)
    ensures TimeAddOk(a, b, wrapv) <==> TIME_T_MIN <= a + b <= TIME_T_MAX
    ensures INT_MIN <= b <= INT_MAX ==> (TimeIntAddOk(a, b, wrapv) <==> TIME_T_MIN <= a + b <= TIME_T_MAX)
  {
    hide Wrap;
    TimeAvgFloor(a, b);
    Narrow(a + b);
    var k := WrapCongruent(a + b, TIME_T_MIN, 0x1_0000_0000_0000_0000);
  }

  /** With b read as a signed value, the unsigned test says whether the sum wraps around. */
  lemma UnsignedAddOkExact(a: nat, b: nat)
    requires a < 0x1_0000_0000_0000_0000 && b < 0x1_0000_0000_0000_0000
    ensures var addend := if b < 0x8000_0000_0000_0000 then b else b - 0x1_0000_0000_0000_0000;
            UnsignedAddOk(a, b) <==> 0 <= a + addend < 0x1_0000_0000_0000_0000
  {
  }

  // ------------------------------------------------------------------
  // Guessing

  datatype Tm = Tm(sec: Int, min: Int, hour: Int, mday: Int, mon: Int, year: Int, yday: Int, isdst: Int)

  ghost function TmSeconds(tm: Tm): int {
    Seconds(tm.year, tm.yday, tm.hour, tm.min, tm.sec)
  }

  const TIME_T_MIDPOINT := Shr(TIME_T_MIN + TIME_T_MAX, 2) + 1

  /** guess_time_tm: the exact time whenever that is representable; and it repeats t only
      when t already was the time asked for. */
  function GuessTime(year: int, yday: int, hour: Int, min: Int, sec: Int, t: TimeT, tp: Option<Tm>,
      wrapv: bool): (g: TimeT)
    requires 2 * INT_MIN <= year <= 2 * INT_MAX && 2 * INT_MIN <= yday <= 2 * INT_MAX
    ensures tp.None? ==> g != t
    ensures tp.Some? ==>
      var target := t + Seconds(year, yday, hour, min, sec) - TmSeconds(tp.value);
      (TIME_T_MIN <= target <= TIME_T_MAX ==> g == target) && (g == t <==> target == t)
  {
    var far := if t < TIME_T_MIDPOINT then if t <= TIME_T_MIN + 1 then t + 1 else TIME_T_MIN
               else if TIME_T_MAX - 1 <= t then t - 1 else TIME_T_MAX;
    match tp
    case None => far
    case Some(tm) =>
      var d := YdhmsDiff(year, yday, hour, min, sec, tm.year, tm.yday, tm.hour, tm.min, tm.sec);
      AddOkExact(t, d, wrapv);
      Narrow(t + d);
      if TimeAddOk(t, d, wrapv) then AsTime(t + d) else far
  }

  // ------------------------------------------------------------------
  // ranged_convert

  type Convert = TimeT -> Option<Tm>

  /** The times that can be converted are those from lo to hi. */
  ghost predicate ConvertsOn(convert: Convert, lo: int, hi: int) {
    forall t: TimeT :: convert(t).Some? <==> lo <= t <= hi
  }

  /** The nearest time in an interval. */
  function Clamp(t: int, lo: int, hi: int): int {
    if t < lo then lo else if t > hi then hi else t
  }

  /** ranged_convert: for times convertible on an interval that contains 0, it converts the
      nearest convertible time; it fails just when t lies off an end of the interval at 0,
      so never if 1 and -1 are convertible too. */
  method RangedConvert(convert: Convert, t: TimeT) returns (u: TimeT, r: Option<Tm>)
    ensures r == convert(u)
    ensures convert(t).Some? ==> u == t
    ensures forall lo, hi :: ConvertsOn(convert, lo, hi) && lo <= 0 <= hi ==>
      && (r.None? <==> (t > hi == 0) || (t < lo == 0))
      && (r.Some? ==> u == Clamp(t, lo, hi))
  {
    u := t;
    r := convert(u);
    if r.None? && u != 0 {
      var bad: TimeT := u;
      var ok: TimeT := 0;
      while bad != ok + if bad < 0 then -1 else 1
        invariant convert(bad).None? && (ok == 0 || convert(ok).Some?)
        invariant if t < 0 then t <= bad < ok <= 0 else 0 <= ok < bad <= t
        invariant r == convert(u) && u == if r.Some? then ok else bad
        invariant r.Some? ==> ok != 0
        decreases if bad < 0 then ok - bad else bad - ok
      {
        TimeAvgFloor(ok, bad);
        var mid := TimeAvg(ok, bad);
        u := mid;
        r := convert(u);
        if r.Some? { ok := mid; } else { bad := mid; }
      }
      forall lo, hi | ConvertsOn(convert, lo, hi) && lo <= 0 <= hi
        ensures if t < 0 then ok == lo && t < lo else ok == hi && t > hi
      {
        assert convert(bad).None? && convert(t).None?;
      }
      if r.None? && ok != 0 {
        u := ok;
        r := convert(u);
      }
    }
  }
}
