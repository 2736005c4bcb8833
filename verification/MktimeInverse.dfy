/** __mktime_internal: from the fields of a calendar date back to the time that a
    conversion maps to it. */
module MktimeInverse {

  import opened Common
  import opened Mktime

  // ------------------------------------------------------------------
  // Months

  /** __mon_yday */
  const MON_YDAY: seq<seq<int>> := [
    [0, 31, 59, 90, 120, 151, 181, 212, 243, 273, 304, 334, 365],
    [0, 31, 60, 91, 121, 152, 182, 213, 244, 274, 305, 335, 366]]

  ghost function MonthLength(year: int, mon: nat): int
    requires mon < 12
  {
    if mon == 1 then if Gregorian(year + TM_YEAR_BASE) then 29 else 28
    else if mon == 3 || mon == 5 || mon == 8 || mon == 10 then 30
    else 31
  }

  ghost function DaysBeforeMonth(year: int, mon: nat): int
    requires mon <= 12
  {
    if mon == 0 then 0 else DaysBeforeMonth(year, mon - 1) + MonthLength(year, mon - 1)
  }

  lemma {:induction false} MonthTable(year: int, mon: nat)
    requires mon <= 12
    ensures |MON_YDAY| == 2 && |MON_YDAY[Bool(LeapYear(year))]| == 13
    ensures MON_YDAY[Bool(LeapYear(year))][mon] == DaysBeforeMonth(year, mon)
    ensures 0 <= DaysBeforeMonth(year, mon) <= 366
  {
    LeapYearGregorian(year);
    if mon == 0 {
    } else {
      MonthTable(year, mon - 1);
    }
  }

  // ------------------------------------------------------------------
  // The time asked for

  /** What the fields mean when they are out of range: whole years of twelve months, and
      then days, hours, minutes and seconds that simply add up (section 7.23.2.3 of ISO
      C99). */
  ghost function Wanted(tm: Tm): int {
    var year, mon := tm.year + tm.mon / 12, tm.mon % 12;
    Seconds(year, DaysBeforeMonth(year, mon) + tm.mday - 1, tm.hour, tm.min, tm.sec)
  }

  function RequestYear(tm: Tm): int {
    tm.year + (Quot(tm.mon, 12) - Bool(Rem(tm.mon, 12) < 0))
  }

  lemma MonFloor(mon: Int)
    ensures Quot(mon, 12) - Bool(Rem(mon, 12) < 0) == mon / 12
    ensures Rem(mon, 12) + 12 * Bool(Rem(mon, 12) < 0) == mon % 12
  {
  }

  function RequestYday(tm: Tm): int {
    MonFloor(tm.mon);
    MonthTable(RequestYear(tm), tm.mon % 12);
    MON_YDAY[Bool(LeapYear(RequestYear(tm)))][Rem(tm.mon, 12) + 12 * Bool(Rem(tm.mon, 12) < 0)] - 1 + tm.mday
  }

  /** The year and day that are searched for are the ones that were meant. */
  lemma RequestMeaning(tm: Tm, sec: Int)
    ensures 2 * INT_MIN <= RequestYear(tm) <= 2 * INT_MAX && 2 * INT_MIN <= RequestYday(tm) <= 2 * INT_MAX
    ensures Seconds(RequestYear(tm), RequestYday(tm), tm.hour, tm.min, sec) == Wanted(tm.(sec := sec))
  {
    hide Seconds, MonthLength, LeapYear, Quot, Rem;
    MonFloor(tm.mon);
    MonthTable(RequestYear(tm), tm.mon % 12);
  }

  /** Out-of-range seconds are set aside during the search. */
  function SearchSec(sec: Int): Int {
    if sec < 0 then 0 else if 59 < sec then 59 else sec
  }

  ghost const EPOCH := Seconds(EPOCH_YEAR - TM_YEAR_BASE, 0, 0, 0, 0)

  lemma SecondsAdd(year: int, yday: int, hour: int, min: int, sec: int)
    ensures Seconds(year, yday, hour, min, sec) == Seconds(year, yday, hour, min, 0) + sec
  {
  }

  /** The first guess, from the offset of the previous call. */
  function FirstGuess(tm: Tm, offset: TimeT): (t0: TimeT)
    ensures t0 == Wanted(tm.(sec := SearchSec(tm.sec))) - EPOCH - AsInt(-(offset as int))
  {
    hide Seconds, RequestYear, RequestYday, Wanted, AsInt;
    RequestMeaning(tm, SearchSec(tm.sec));
    SecondsAdd(EPOCH_YEAR - TM_YEAR_BASE, 0, 0, 0, AsInt(-(offset as int)));
    YdhmsDiff(RequestYear(tm), RequestYday(tm), tm.hour, tm.min, SearchSec(tm.sec),
              EPOCH_YEAR - TM_YEAR_BASE, 0, 0, 0, AsInt(-(offset as int)))
  }

  // ------------------------------------------------------------------
  // Conversions at a fixed offset

  /** The fields of a date, all in their usual ranges and agreeing with each other. */
  ghost predicate CalendarDate(tm: Tm) {
    && 0 <= tm.sec < 60 && 0 <= tm.min < 60 && 0 <= tm.hour < 24 && 0 <= tm.mon < 12
    && 1 <= tm.mday <= MonthLength(tm.year, tm.mon)
    && tm.yday == DaysBeforeMonth(tm.year, tm.mon) + tm.mday - 1
  }

  ghost function YearStart(year: int): int {
    Seconds(year, 0, 0, 0, 0)
  }

  /** The first and the last time whose year fits in tm_year. */
  ghost function First(off: int): int { YearStart(INT_MIN) - EPOCH - off }
  ghost function Last(off: int): int { YearStart(INT_MAX + 1) - 1 - EPOCH - off }

  /** `convert` gives the calendar date `off` seconds east of UTC, without leap seconds, and
      fails only for years that tm_year cannot hold. */
  ghost predicate FixedOffset(convert: Convert, off: Int, dst: Int) {
    && ConvertsOn(convert, First(off), Last(off))
    && forall t: TimeT | First(off) <= t <= Last(off) :: IsDateOf(convert(t), EPOCH + t + off, dst)
  }

  ghost predicate IsDateOf(r: Option<Tm>, seconds: int, dst: Int) {
    r.Some? && CalendarDate(r.value) && TmSeconds(r.value) == seconds && r.value.isdst == dst
  }

  lemma {:induction false} YearStartLater(year: int, later: int)
    requires year <= later
    ensures YearStart(year) + 365 * 86400 * (later - year) <= YearStart(later)
    decreases later - year
  {
    if year == later {
    } else {
      YearStartLater(year, later - 1);
      DaysNext(later - 1);
    }
  }

  lemma DaysNext(year: int)
    ensures DaysBefore(year + 1) == DaysBefore(year) + YearLength(year)
  {
  }

  lemma {:induction false} MonthLater(year: int, mon: nat, later: nat)
    requires mon <= later <= 12
    ensures DaysBeforeMonth(year, mon) <= DaysBeforeMonth(year, later)
    ensures mon < later ==> DaysBeforeMonth(year, mon) + MonthLength(year, mon) <= DaysBeforeMonth(year, later)
    decreases later - mon
  {
    if mon == later {
    } else {
      MonthLater(year, mon, later - 1);
    }
  }

  lemma MonthsMakeYear(year: int)
    ensures DaysBeforeMonth(year, 12) == YearLength(year)
  {
    MonthTable(year, 12);
    LeapYearGregorian(year);
  }

  /** A date lies within its year. */
  lemma DateInYear(tm: Tm)
    requires CalendarDate(tm)
    ensures 0 <= tm.yday < YearLength(tm.year)
    ensures YearStart(tm.year) <= TmSeconds(tm) < YearStart(tm.year + 1)
  {
    MonthLater(tm.year, 0, tm.mon);
    MonthLater(tm.year, tm.mon, 12);
    MonthsMakeYear(tm.year);
    DaysNext(tm.year);
  }

  lemma SameYear(a: Tm, b: Tm)
    requires CalendarDate(a) && CalendarDate(b) && TmSeconds(a) == TmSeconds(b)
    ensures a.year == b.year
  {
    hide CalendarDate, DaysBefore, YearStart, TmSeconds;
    DateInYear(a);
    DateInYear(b);
    if a.year < b.year { YearStartLater(a.year + 1, b.year); }
    if b.year < a.year { YearStartLater(b.year + 1, a.year); }
  }

  lemma SameDay(a: Tm, b: Tm)
    requires CalendarDate(a) && CalendarDate(b) && TmSeconds(a) == TmSeconds(b)
    ensures a.year == b.year && a.yday == b.yday && a.hour == b.hour && a.min == b.min && a.sec == b.sec
  {
    hide CalendarDate, DaysBefore;
    SameYear(a, b);
    InRanges(a);
    InRanges(b);
    SameTime(DaysBefore(a.year) + a.yday, a.hour, a.min, a.sec, DaysBefore(b.year) + b.yday, b.hour, b.min, b.sec);
  }

  /** Days, hours, minutes and seconds in their ranges are determined by their sum. */
  lemma SameTime(d: int, h: int, m: int, s: int, d': int, h': int, m': int, s': int)
    requires 0 <= h < 24 && 0 <= m < 60 && 0 <= s < 60 && 0 <= h' < 24 && 0 <= m' < 60 && 0 <= s' < 60
    requires 60 * (60 * (24 * d + h) + m) + s == 60 * (60 * (24 * d' + h') + m') + s'
    ensures d == d' && h == h' && m == m' && s == s'
  {
    SixtySeconds(60 * (24 * d + h) + m, s, 60 * (24 * d' + h') + m', s');
    SixtySeconds(24 * d + h, m, 24 * d' + h', m');
    assert 24 * (d - d') == h' - h;
  }

  lemma InRanges(tm: Tm)
    requires CalendarDate(tm)
    ensures 0 <= tm.sec < 60 && 0 <= tm.min < 60 && 0 <= tm.hour < 24
  {
  }

  /** Two dates with the same number of seconds are the same date. */
  lemma DateUnique(a: Tm, b: Tm)
    requires CalendarDate(a) && CalendarDate(b) && TmSeconds(a) == TmSeconds(b) && a.isdst == b.isdst
    ensures a == b
  {
    hide TmSeconds, DaysBeforeMonth, MonthLength;
    SameDay(a, b);
    if a.mon < b.mon { MonthLater(a.year, a.mon, b.mon); }
    if b.mon < a.mon { MonthLater(a.year, b.mon, a.mon); }
  }

  /** A date in its usual ranges asks for itself. */
  lemma DateWantsItself(tm: Tm)
    requires CalendarDate(tm)
    ensures Wanted(tm) == TmSeconds(tm)
  {
    assert tm.mon / 12 == 0 && tm.mon % 12 == tm.mon;
  }

  /** The convertible times are far from overflowing, and contain -1, 0 and 1. */
  lemma ConvertibleTimes(off: Int)
    ensures TIME_T_MIN / 4 < First(off) < -1 && 1 < Last(off) < TIME_T_MAX / 4
  {
    DaysBeforeFloor(INT_MIN);
    DaysBeforeFloor(INT_MAX + 1);
    DaysBeforeFloor(EPOCH_YEAR - TM_YEAR_BASE);
  }

  /** The year of a day counted from the start of 1900, searched from `year` on. */
  ghost function YearOf(days: int, year: int): (y: int)
    ensures DaysBefore(y) <= days < DaysBefore(y + 1)
    decreases days < DaysBefore(year), if days < DaysBefore(year) then DaysBefore(year) - days
        else days - DaysBefore(year)
  {
    DaysNext(year);
    DaysNext(year - 1);
    if days < DaysBefore(year) then YearOf(days, year - 1)
    else if days >= DaysBefore(year + 1) then YearOf(days, year + 1)
    else year
  }

  ghost function MonthOf(year: int, yday: int, mon: nat): (m: nat)
    requires mon < 12 && DaysBeforeMonth(year, mon) <= yday < DaysBeforeMonth(year, 12)
    ensures m < 12 && DaysBeforeMonth(year, m) <= yday < DaysBeforeMonth(year, m) + MonthLength(year, m)
    decreases 12 - mon
  {
    if yday < DaysBeforeMonth(year, mon + 1) then mon else MonthOf(year, yday, mon + 1)
  }

  lemma DayWithin(seconds: int)
    ensures var year := YearOf(seconds / 86400, 0);
            && YearStart(year) <= seconds < YearStart(year + 1)
            && 0 <= seconds / 86400 - DaysBefore(year) < DaysBeforeMonth(year, 12)
  {
    var year := YearOf(seconds / 86400, 0);
    DaysNext(year);
    MonthsMakeYear(year);
  }

  /** Every time has a calendar date. */
  lemma DateExists(seconds: int, dst: Int)
    requires YearStart(INT_MIN) <= seconds < YearStart(INT_MAX + 1)
    ensures exists tm: Tm :: IsDateOf(Some(tm), seconds, dst)
  {
    hide DaysBefore, DaysBeforeMonth, MonthLength;
    var days := seconds / 86400;
    var rest := seconds % 86400;
    var year := YearOf(days, 0);
    DayWithin(seconds);
    if year < INT_MIN { YearStartLater(year + 1, INT_MIN); }
    if year > INT_MAX { YearStartLater(INT_MAX + 1, year); }
    var yday := days - DaysBefore(year);
    MonthTable(year, 0);
    MonthTable(year, 12);
    var mon := MonthOf(year, yday, 0);
    var tm := DateAt(year, yday, mon, rest, dst);
    assert IsDateOf(Some(tm), seconds, dst);
  }

  lemma DateAt(year: int, yday: int, mon: nat, rest: nat, dst: Int) returns (tm: Tm)
    requires INT_MIN <= year <= INT_MAX && rest < 86400 && mon < 12
    requires DaysBeforeMonth(year, mon) <= yday < DaysBeforeMonth(year, mon) + MonthLength(year, mon)
    ensures IsDateOf(Some(tm), YearStart(year) + 86400 * yday + rest, dst)
  {
    MonthTable(year, mon);
    tm := Tm(rest % 60, rest / 60 % 60, rest / 3600, yday - DaysBeforeMonth(year, mon) + 1, mon, year, yday, dst);
  }

  /** There is such a conversion for every offset. */
  lemma FixedOffsetExists(off: Int, dst: Int)
    ensures exists convert: Convert :: FixedOffset(convert, off, dst)
  {
    var convert: Convert := (t: TimeT) => FixedDate(t, off, dst);
    assert FixedOffset(convert, off, dst);
  }

  ghost function FixedDate(t: TimeT, off: Int, dst: Int): (r: Option<Tm>)
    ensures if First(off) <= t <= Last(off) then IsDateOf(r, EPOCH + t + off, dst) else r == None
  {
    if First(off) <= t <= Last(off) then
      DateExists(EPOCH + t + off, dst);
      var tm: Tm :| IsDateOf(Some(tm), EPOCH + t + off, dst);
      Some(tm)
    else None
  }

  // ------------------------------------------------------------------
  // The search

  /** The time that a conversion at a fixed offset maps to the date asked for. */
  ghost function Target(tm: Tm, off: Int): int {
    Wanted(tm) - EPOCH - off
  }

  ghost predicate Convertible(t: int, off: Int) {
    First(off) <= t <= Last(off)
  }

  lemma TargetRange(tm: Tm, off: Int)
    ensures TIME_T_MIN / 4 <= Target(tm, off) <= TIME_T_MAX / 4
  {
    RequestMeaning(tm, tm.sec);
    var year := RequestYear(tm);
    DaysBeforeFloor(year);
    DaysBeforeFloor(EPOCH_YEAR - TM_YEAR_BASE);
  }

  /** The guess of guess_time_tm for the date asked for: it repeats t only at that very
      date, and otherwise corrects t by the whole difference. */
  function Guess(req: Tm, t: TimeT, tp: Option<Tm>, wrapv: bool): (g: TimeT)
    ensures tp.None? ==> g != t
    ensures tp.Some? ==> (g == t <==> TmSeconds(tp.value) == Wanted(req))
    ensures tp.Some? ==>
      var target := t + Wanted(req) - TmSeconds(tp.value);
      TIME_T_MIN <= target <= TIME_T_MAX ==> g == target
  {
    hide Seconds, RequestYear, RequestYday, Wanted, TmSeconds;
    RequestMeaning(req, req.sec);
    GuessTime(RequestYear(req), RequestYday(req), req.hour, req.min, req.sec, t, tp, wrapv)
  }

  /** At a fixed offset every guess hits the target. */
  lemma GuessHits(req: Tm, t: TimeT, tp: Option<Tm>, off: Int, dst: Int, wrapv: bool)
    requires IsDateOf(tp, EPOCH + t + off, dst)
    ensures Guess(req, t, tp, wrapv) == Target(req, off)
  {
    hide TmSeconds, Wanted, Guess;
    TargetRange(req, off);
  }

  datatype Outcome = Matched | Oscillating | Exhausted

  /** The time of the n-th probe: each is the nearest convertible time to the guess that the
      one before it leads to. */
  ghost function Probed(req: Tm, convert: Convert, t0: TimeT, wrapv: bool, lo: int, hi: int, n: nat): TimeT
    requires lo < 0 < hi
  {
    if n == 0 then Clamp(t0, lo, hi)
    else
      var u := Probed(req, convert, t0, wrapv, lo, hi, n - 1);
      Clamp(Guess(req, u, convert(u), wrapv), lo, hi)
  }

  /** The date at t is the one asked for. */
  ghost predicate Found(req: Tm, convert: Convert, t: TimeT) {
    convert(t).Some? && TmSeconds(convert(t).value) == Wanted(req)
  }

  /** Three probes that go from t to `last` and back, with the tm_isdst that makes t the one
      of the two to stay with: unknown; or when none was asked for, that of `last` zero or
      its own not zero; or else the other one than was asked for. */
  ghost predicate Swings(req: Tm, convert: Convert, before: TimeT, last: TimeT, t: TimeT) {
    && before == t != last && convert(last).Some? && convert(t).Some?
    && var d, e := convert(t).value.isdst, convert(last).value.isdst;
    || d < 0
    || (req.isdst < 0 && (e == 0 || d != 0))
    || (req.isdst == 0 && d != 0)
    || (0 < req.isdst && d == 0)
  }

  /** The n-th probe neither finds the date nor swings back. */
  ghost predicate GoesOn(req: Tm, convert: Convert, t0: TimeT, wrapv: bool, lo: int, hi: int, n: nat)
    requires lo < 0 < hi
  {
    && !Found(req, convert, Probed(req, convert, t0, wrapv, lo, hi, n))
    && (2 <= n ==> !Swings(req, convert, Probed(req, convert, t0, wrapv, lo, hi, n - 2),
                           Probed(req, convert, t0, wrapv, lo, hi, n - 1), Probed(req, convert, t0, wrapv, lo, hi, n)))
  }

  lemma ProbedNext(req: Tm, convert: Convert, t0: TimeT, wrapv: bool, lo: int, hi: int, n: nat)
    requires lo < 0 < hi
    ensures var u := Probed(req, convert, t0, wrapv, lo, hi, n);
            Probed(req, convert, t0, wrapv, lo, hi, n + 1) == Clamp(Guess(req, u, convert(u), wrapv), lo, hi)
    ensures Probed(req, convert, t0, wrapv, lo, hi, 0) == Clamp(t0, lo, hi)
  {
  }

  /** What six probes come to: the search ends at the first one that finds the date, or at
      the first that swings back. */
  ghost predicate Ended(req: Tm, convert: Convert, t0: TimeT, wrapv: bool, lo: int, hi: int, outcome: Outcome,
                        t: TimeT, probes: nat)
    requires lo < 0 < hi
  {
    && 1 <= probes <= 6 && t == Probed(req, convert, t0, wrapv, lo, hi, probes - 1)
    && (forall k: nat :: k < probes - 1 ==> GoesOn(req, convert, t0, wrapv, lo, hi, k))
    && match outcome {
         case Matched => Found(req, convert, t)
         case Oscillating =>
           && !Found(req, convert, t) && 3 <= probes
           && Swings(req, convert, Probed(req, convert, t0, wrapv, lo, hi, probes - 3),
                     Probed(req, convert, t0, wrapv, lo, hi, probes - 2), t)
         case Exhausted => probes == 6 && GoesOn(req, convert, t0, wrapv, lo, hi, 5)
       }
  }

  /** The probing loop of __mktime_internal, from the first guess t0. */
  method Probe(req: Tm, convert: Convert, t0: TimeT, wrapv: bool, ghost lo: int, ghost hi: int)
    returns (outcome: Outcome, t: TimeT, tm: Tm, ghost probes: nat)
    requires ConvertsOn(convert, lo, hi) && lo < 0 < hi
    ensures convert(t) == Some(tm) && Ended(req, convert, t0, wrapv, lo, hi, outcome, t, probes)
  {
    hide Guess, TmSeconds, Wanted, Probed, Swings, Found, GoesOn, Behind, Clamp;
    t := t0;
    var t1, t2 := t, t;
    var dst2 := 0;
    var remaining := 6;
    probes := 0;
    ProbeStart(req, convert, t0, wrapv, lo, hi);
    while true
      invariant 0 < remaining <= 6 && probes == 6 - remaining
      invariant Clamp(t, lo, hi) == Probed(req, convert, t0, wrapv, lo, hi, probes)
      invariant Behind(req, convert, t0, wrapv, lo, hi, t1, t2, dst2, probes)
      invariant probes == 0 ==> t == t0
      invariant forall k: nat :: k < probes ==> GoesOn(req, convert, t0, wrapv, lo, hi, k)
      decreases remaining
    {
      var u, r := RangedConvert(convert, t);
      assert r.Some?;
      ProbeStep(req, convert, t0, wrapv, lo, hi, t1, t2, dst2, t, u, probes);
      t, tm := u, r.value;
      var gt := Guess(req, t, r, wrapv);
      probes := probes + 1;
      if t == gt { return Matched, t, tm, probes; }
      if t == t1 && t != t2
         && (tm.isdst < 0
             || if req.isdst < 0 then dst2 <= Bool(tm.isdst != 0) else (req.isdst != 0) != (tm.isdst != 0)) {
        return Oscillating, t, tm, probes;
      }
      remaining := remaining - 1;
      if remaining == 0 { return Exhausted, t, tm, probes; }
      t1, t2, t := t2, t, gt;
      dst2 := Bool(tm.isdst != 0);
    }
  }

  /** What the loop remembers after n probes: the two before, or the first guess. */
  ghost predicate Behind(req: Tm, convert: Convert, t0: TimeT, wrapv: bool, lo: int, hi: int, t1: TimeT, t2: TimeT,
                         dst2: int, n: nat)
    requires lo < 0 < hi
  {
    if n == 0 then t1 == t2 == t0
    else
      && t2 == Probed(req, convert, t0, wrapv, lo, hi, n - 1)
      && convert(t2).Some? && dst2 == Bool(convert(t2).value.isdst != 0)
      && if n == 1 then t1 == t0 && (convert(t1).Some? ==> t1 == t2)
         else t1 == Probed(req, convert, t0, wrapv, lo, hi, n - 2)
  }

  lemma ProbeStart(req: Tm, convert: Convert, t0: TimeT, wrapv: bool, lo: int, hi: int)
    requires lo < 0 < hi
    ensures Clamp(t0, lo, hi) == Probed(req, convert, t0, wrapv, lo, hi, 0)
    ensures Behind(req, convert, t0, wrapv, lo, hi, t0, t0, 0, 0)
  {
  }

  /** The n-th probe, at u. */
  lemma ProbeStep(req: Tm, convert: Convert, t0: TimeT, wrapv: bool, lo: int, hi: int, t1: TimeT, t2: TimeT,
                  dst2: int, t: TimeT, u: TimeT, n: nat)
    requires lo < 0 < hi && Behind(req, convert, t0, wrapv, lo, hi, t1, t2, dst2, n)
    requires u == Clamp(t, lo, hi) == Probed(req, convert, t0, wrapv, lo, hi, n) && convert(u).Some?
    requires (n == 0 ==> t == t0) && (convert(t).Some? ==> u == t)
    ensures var d := convert(u).value.isdst;
            var gt := Guess(req, u, convert(u), wrapv);
            var test := u == t1 && u != t2
                        && (d < 0 || if req.isdst < 0 then dst2 <= Bool(d != 0) else (req.isdst != 0) != (d != 0));
            && (gt == u <==> Found(req, convert, u))
            && (test ==> 2 <= n && Swings(req, convert, Probed(req, convert, t0, wrapv, lo, hi, n - 2),
                                          Probed(req, convert, t0, wrapv, lo, hi, n - 1), u))
            && (gt != u && !test ==> GoesOn(req, convert, t0, wrapv, lo, hi, n))
            && Clamp(gt, lo, hi) == Probed(req, convert, t0, wrapv, lo, hi, n + 1)
            && Behind(req, convert, t0, wrapv, lo, hi, t2, u, Bool(d != 0), n + 1)
  {
    hide Guess, TmSeconds, Wanted, Probed, Swings;
    ProbedNext(req, convert, t0, wrapv, lo, hi, n);
    if 2 <= n { SwingsIs(req, convert, t1, t2, u); }
  }

  /** The test of the code, on three probes. */
  lemma SwingsIs(req: Tm, convert: Convert, t1: TimeT, t2: TimeT, t: TimeT)
    ensures convert(t).Some? && convert(t2).Some? ==>
      var d, e := convert(t).value.isdst, convert(t2).value.isdst;
      Swings(req, convert, t1, t2, t) <==>
        && t == t1 && t != t2
        && (d < 0 || if req.isdst < 0 then Bool(e != 0) <= Bool(d != 0) else (req.isdst != 0) != (d != 0))
  {
  }

  /** At a fixed offset the second probe is at the target, or at the end of the range that
      is nearest to it, and so are all that follow. */
  lemma FixedProbes(req: Tm, convert: Convert, t0: TimeT, wrapv: bool, lo: int, hi: int, off: Int, dst: Int, n: nat)
    requires ConvertsOn(convert, lo, hi) && lo < 0 < hi && FixedOffset(convert, off, dst)
    ensures var w, t := Target(req, off), Probed(req, convert, t0, wrapv, lo, hi, n);
            && (Found(req, convert, t) <==> t == w) && (t == w ==> Convertible(w, off))
            && (Convertible(w, off) <==> Clamp(w, lo, hi) == w)
            && (1 <= n ==> t == Clamp(w, lo, hi))
            && (n == 0 && t0 == w && Convertible(w, off) ==> t == w)
  {
    hide Guess, Target, First, Last, IsDateOf, TmSeconds, Wanted, Probed;
    var t := Probed(req, convert, t0, wrapv, lo, hi, n);
    TargetRange(req, off);
    ProbedIn(req, convert, t0, wrapv, lo, hi, n);
    FixedDates(convert, off, dst, t);
    GuessHits(req, t, convert(t), off, dst, wrapv);
    ConvertibleOn(convert, off, dst, Target(req, off));
    if n > 0 {
      var u := Probed(req, convert, t0, wrapv, lo, hi, n - 1);
      ProbedNext(req, convert, t0, wrapv, lo, hi, n - 1);
      ProbedIn(req, convert, t0, wrapv, lo, hi, n - 1);
      FixedDates(convert, off, dst, u);
      GuessHits(req, u, convert(u), off, dst, wrapv);
    } else {
      ProbedNext(req, convert, t0, wrapv, lo, hi, 0);
    }
  }

  lemma ProbedIn(req: Tm, convert: Convert, t0: TimeT, wrapv: bool, lo: int, hi: int, n: nat)
    requires ConvertsOn(convert, lo, hi) && lo < 0 < hi
    ensures convert(Probed(req, convert, t0, wrapv, lo, hi, n)).Some?
  {
    hide Guess;
  }

  /** At a fixed offset the search finds the target within two probes if it is convertible,
      and at once if the first guess is the target; otherwise it gives up. */
  lemma FixedEnd(req: Tm, convert: Convert, t0: TimeT, wrapv: bool, lo: int, hi: int, off: Int, dst: Int,
                 outcome: Outcome, t: TimeT, probes: nat)
    requires ConvertsOn(convert, lo, hi) && lo < 0 < hi && FixedOffset(convert, off, dst)
    requires Ended(req, convert, t0, wrapv, lo, hi, outcome, t, probes)
    ensures outcome == (if Convertible(Target(req, off), off) then Matched else Exhausted)
    ensures outcome == Matched ==> t == Target(req, off) && probes <= 2
    ensures outcome == Matched && t0 == t ==> probes == 1
  {
    hide Target, Probed, Found;
    forall n: nat ensures
      var w, t := Target(req, off), Probed(req, convert, t0, wrapv, lo, hi, n);
      && (Found(req, convert, t) <==> t == w) && (t == w ==> Convertible(w, off))
      && (Convertible(w, off) <==> Clamp(w, lo, hi) == w)
      && (1 <= n ==> t == Clamp(w, lo, hi))
      && (n == 0 && t0 == w && Convertible(w, off) ==> t == w)
    {
      FixedProbes(req, convert, t0, wrapv, lo, hi, off, dst, n);
    }
    hide Convertible, Clamp;
    if 2 < probes { assert GoesOn(req, convert, t0, wrapv, lo, hi, 1); }
    if 1 < probes { assert GoesOn(req, convert, t0, wrapv, lo, hi, 0); }
  }

  lemma FixedDates(convert: Convert, off: Int, dst: Int, t: TimeT)
    requires FixedOffset(convert, off, dst) && convert(t).Some?
    ensures IsDateOf(convert(t), EPOCH + t + off, dst)
  {
  }

  /** isdst_differ: one is zero and the other positive. */
  predicate IsdstDiffer(a: Int, b: Int)
    ensures IsdstDiffer(a, b) <==> (a == 0 && 0 < b) || (0 < a && b == 0)
  {
    (a == 0) != (b == 0) && 0 <= a && 0 <= b
  }

  const STRIDE := 601200
  const DURATION_MAX := 536454000

  /** How many neighbours of a time are looked at: one stride before it, one after it, two
      strides before it, and so on. */
  const NEIGHBOURS := 2 * ((DURATION_MAX / 2 + STRIDE - 1) / STRIDE)

  function Neighbour(t: int, n: nat): int {
    if n % 2 == 0 then t - STRIDE * (n / 2 + 1) else t + STRIDE * (n / 2 + 1)
  }

  /** The neighbours are all the multiples of a stride of 601200 seconds that are less than
      half of 536454000 seconds and a stride away, before and after. */
  lemma NeighbourReach(t: int, j: nat)
    requires 1 <= j
    ensures 2 * j <= NEIGHBOURS <==> 601200 * j < 536454000 / 2 + 601200
    ensures Neighbour(t, 2 * j - 2) == t - 601200 * j && Neighbour(t, 2 * j - 1) == t + 601200 * j
  {
    assert NEIGHBOURS == 894;
  }

  /** The time s is representable, and the nearest convertible time to it has a tm_isdst that
      does not contradict the request. */
  ghost predicate Serves(req: Tm, convert: Convert, s: int, lo: int, hi: int)
    requires lo < 0 < hi
  {
    && TIME_T_MIN <= s <= TIME_T_MAX
    && convert(Clamp(s, lo, hi)).Some?
    && var d := convert(Clamp(s, lo, hi)).value.isdst;
    req.isdst < 0 || d < 0 || req.isdst == d == 0 || (0 < req.isdst && 0 < d)
  }

  lemma ServesNearest(req: Tm, convert: Convert, s: int, lo: int, hi: int)
    requires lo < 0 < hi
    ensures s < TIME_T_MIN || TIME_T_MAX < s ==> !Serves(req, convert, s, lo, hi)
    ensures TIME_T_MIN <= s <= TIME_T_MAX && convert(Clamp(s, lo, hi)).Some? ==>
      (Serves(req, convert, s, lo, hi) <==> !IsdstDiffer(req.isdst, convert(Clamp(s, lo, hi)).value.isdst))
  {
  }

  /** The neighbour at the given distance before or after t is the n-th. */
  lemma NeighbourAt(t: int, n: nat, delta: int, direction: int)
    requires delta == STRIDE * (n / 2 + 1)
    requires direction == if n % 2 == 0 then -1 else 1
    ensures Neighbour(t, n) == t + (if direction < 0 then -delta else delta)
    ensures if direction < 0 then (n + 1) % 2 == 1 && delta == STRIDE * ((n + 1) / 2 + 1)
            else (n + 1) % 2 == 0 && delta == STRIDE * ((n + 1) / 2)
  {
  }

  /** `base` is the nearest convertible time to s, corrected by what its date is off. */
  ghost predicate LedTo(req: Tm, convert: Convert, s: int, base: TimeT, lo: int, hi: int)
    requires lo < 0 < hi
  {
    && TIME_T_MIN <= Clamp(s, lo, hi) <= TIME_T_MAX && convert(Clamp(s, lo, hi)).Some?
    && var target := Clamp(s, lo, hi) + Wanted(req) - TmSeconds(convert(Clamp(s, lo, hi)).value);
    TIME_T_MIN <= target <= TIME_T_MAX ==> base == Clamp(target, lo, hi)
  }

  lemma LedIs(req: Tm, convert: Convert, u: TimeT, wrapv: bool, lo: int, hi: int, s: int)
    requires lo < 0 < hi && u == Clamp(s, lo, hi) && convert(u).Some?
    ensures LedTo(req, convert, s, Clamp(Guess(req, u, convert(u), wrapv), lo, hi), lo, hi)
  {
    hide Guess, TmSeconds, Wanted;
  }

  /** The base is what the first neighbour of t that serves leads to, after n that do not, or
      t itself if none does. */
  ghost predicate FirstServing(req: Tm, convert: Convert, t: TimeT, n: nat, base: TimeT, lo: int, hi: int)
    requires lo < 0 < hi
  {
    && n <= NEIGHBOURS
    && (forall i: nat :: i < n ==> !Serves(req, convert, Neighbour(t, i), lo, hi))
    && if n == NEIGHBOURS then base == t
       else Serves(req, convert, Neighbour(t, n), lo, hi) && LedTo(req, convert, Neighbour(t, n), base, lo, hi)
  }

  /** The search for a neighbouring time whose tm_isdst is the one requested: the guess from
      the first neighbour that serves, or the time given if none does. */
  method SearchDst(req: Tm, convert: Convert, t0: TimeT, tm0: Tm, wrapv: bool, ghost lo: int, ghost hi: int)
    returns (t: TimeT, tm: Tm, ghost n: nat)
    requires ConvertsOn(convert, lo, hi) && lo < 0 < hi && convert(t0) == Some(tm0)
    ensures convert(t) == Some(tm)
    ensures FirstServing(req, convert, t0, n, t, lo, hi)
  {
    hide Guess, TimeIntAddOk, TimeAddOk, Neighbour, IsdstDiffer, Serves, TmSeconds, Wanted, LedTo, Clamp;
    t, tm := t0, tm0;
    n := 0;
    var deltaBound := DURATION_MAX / 2 + STRIDE;
    var delta := STRIDE;
    while delta < deltaBound
      invariant delta == STRIDE * (n / 2 + 1) && n % 2 == 0 && n <= NEIGHBOURS
      invariant forall i: nat :: i < n ==> !Serves(req, convert, Neighbour(t0, i), lo, hi)
    {
      var direction := -1;
      while direction <= 1
        invariant direction == -1 || direction == 1 || direction == 3
        invariant if direction == 3 then delta == STRIDE * (n / 2) && n % 2 == 0
                  else delta == STRIDE * (n / 2 + 1) && n % 2 == (if direction == -1 then 0 else 1)
        invariant n <= NEIGHBOURS
        invariant forall i: nat :: i < n ==> !Serves(req, convert, Neighbour(t0, i), lo, hi)
        decreases 3 - direction
      {
        var step: Int := if direction < 0 then -delta else delta;
        NeighbourAt(t, n, delta, direction);
        ServesNearest(req, convert, t + step, lo, hi);
        AddOkExact(t, step, wrapv);
        if TimeIntAddOk(t, step, wrapv) {
          var ot, otm := RangedConvert(convert, t + step);
          assert otm.Some?;
          if !IsdstDiffer(req.isdst, otm.value.isdst) {
            var u, r := RangedConvert(convert, Guess(req, ot, otm, wrapv));
            assert r.Some?;
            LedIs(req, convert, ot, wrapv, lo, hi, t + step);
            return u, r.value, n;
          }
        }
        direction := direction + 2;
        n := n + 1;
      }
      delta := delta + STRIDE;
    }
  }

  /** The time and fields a caller reads after __mktime_internal; `ok` tells a failure from
      the time -1, which the original does not. */
  datatype Result = Result(t: TimeT, tm: Tm, offset: TimeT, ok: bool)

  /** The seconds to add to a time whose fields have `found` seconds when `sec` were asked
      for; a leap second found for a whole minute is passed over. */
  function SecondsBack(sec: Int, found: Int): int {
    if sec == found then 0 else sec - SearchSec(sec) + Bool(SearchSec(sec) == 0 && found == 60)
  }

  /** The seconds that were set aside are put back: u is the time asked for, if ok; and it is
      not, if that or the first sum overflows or cannot be converted. */
  ghost predicate PutBack(convert: Convert, t: TimeT, found: Int, sec: Int, ok: bool, u: TimeT) {
    var adjusted := t + SecondsBack(sec, found);
    && (ok <==> sec == found
                || (&& TIME_T_MIN <= t + sec <= TIME_T_MAX && TIME_T_MIN <= adjusted <= TIME_T_MAX
                    && convert(adjusted).Some?))
    && (ok ==> u == adjusted)
  }

  method AdjustSeconds(convert: Convert, t: TimeT, tm: Tm, sec: Int, wrapv: bool) returns (ok: bool, u: TimeT, utm: Tm)
    requires convert(t) == Some(tm)
    ensures if ok then convert(u) == Some(utm) else u == -1
    ensures PutBack(convert, t, tm.sec, sec, ok, u)
  {
    hide TimeIntAddOk, TimeAddOk;
    ok, u, utm := true, t, tm;
    if sec != tm.sec {
      var adjustment := Bool(SearchSec(sec) == 0 && tm.sec == 60) - SearchSec(sec);
      AddOkExact(t, sec, wrapv);
      if !TimeIntAddOk(t, sec, wrapv) { return false, -1, utm; }
      var t1: TimeT := t + sec;
      AddOkExact(t1, adjustment, wrapv);
      if !TimeIntAddOk(t1, adjustment, wrapv) { return false, -1, utm; }
      var t2: TimeT := t1 + adjustment;
      var r := convert(t2);
      if r.None? { return false, -1, utm; }
      u, utm := t2, r.value;
    }
  }

  lemma ConvertibleOn(convert: Convert, off: Int, dst: Int, t: TimeT)
    requires FixedOffset(convert, off, dst)
    ensures convert(t).Some? <==> Convertible(t, off)
  {
  }

  /** The seconds of a date found are the ones searched for. */
  lemma SecondsFit(tp: Tm, tm: Tm, t: int, off: Int, dst: Int)
    requires t == Target(tp.(sec := SearchSec(tp.sec)), off)
    requires IsDateOf(Some(tm), EPOCH + t + off, dst)
    ensures tm.sec == SearchSec(tp.sec) && tm.isdst == dst
    ensures Target(tp, off) == t + tp.sec - SearchSec(tp.sec)
  {
    hide DaysBefore, DaysBeforeMonth, EPOCH;
    var s := SearchSec(tp.sec);
    var year, mon := tp.year + tp.mon / 12, tp.mon % 12;
    SixtySeconds(60 * (24 * (DaysBefore(year) + (DaysBeforeMonth(year, mon) + tp.mday - 1)) + tp.hour) + tp.min, s,
                 60 * (24 * (DaysBefore(tm.year) + tm.yday) + tm.hour) + tm.min, tm.sec);
  }

  lemma SixtySeconds(a: int, s: int, b: int, r: int)
    requires 60 * a + s == 60 * b + r && 0 <= s < 60 && 0 <= r < 60
    ensures s == r && a == b
  {
    assert 60 * (a - b) == r - s;
  }

  /** The offset remembered is the offset of the conversion, even where it wraps around. */
  lemma OffsetLearned(g: TimeT, off: Int)
    ensures AsInt(-(AsTime(g + AsInt(-(g as int)) - off) as int)) == off
  {
    hide Wrap;
    var guessed := AsInt(-(g as int));
    var x := g + guessed - off;
    var stored: int := AsTime(x);
    var j := WrapCongruent(-(g as int), INT_MIN, 0x1_0000_0000);
    var k := WrapCongruent(x, TIME_T_MIN, 0x1_0000_0000_0000_0000);
    var l := WrapCongruent(-stored, INT_MIN, 0x1_0000_0000);
    assert AsInt(-stored) == off + 0x1_0000_0000 * (l - j - 0x1_0000_0000 * k);
  }

  /** What the search came to: the time that the probing loop ended with, and after how many
      probes; how many neighbours of it were passed over; and the time they led to. */
  datatype Search = Search(outcome: Outcome, t: TimeT, tm: Tm, probes: nat, passed: nat, base: TimeT, baseTm: Tm)

  /** Putting the seconds back makes up for what is missing to the date asked for; behind a
      leap second it goes one further. */
  lemma BackMeaning(tp: Tm, tm: Tm)
    requires TmSeconds(tm) == Wanted(tp.(sec := SearchSec(tp.sec))) && 0 <= tm.sec <= 60
    ensures SecondsBack(tp.sec, tm.sec) == Wanted(tp) - TmSeconds(tm) + if tm.sec == 60 then 1 else 0
    ensures tp.sec == tm.sec || SearchSec(tp.sec) == tm.sec % 60
  {
    hide DaysBefore, DaysBeforeMonth;
    var s := SearchSec(tp.sec);
    var year, mon := tp.year + tp.mon / 12, tp.mon % 12;
    SixtySeconds(60 * (24 * (DaysBefore(year) + (DaysBeforeMonth(year, mon) + tp.mday - 1)) + tp.hour) + tp.min, s,
                 60 * (24 * (DaysBefore(tm.year) + tm.yday) + tm.hour) + tm.min + tm.sec / 60, tm.sec % 60);
  }

  lemma FoundEnd(req: Tm, convert: Convert, t0: TimeT, wrapv: bool, lo: int, hi: int, outcome: Outcome, t: TimeT,
                 probes: nat)
    requires lo < 0 < hi && Ended(req, convert, t0, wrapv, lo, hi, outcome, t, probes)
    ensures outcome == Matched ==> Found(req, convert, t)
  {
  }

  /** What a search at a fixed offset finds, once the seconds are put back. */
  lemma FixedSearch(tp: Tm, convert: Convert, offset: TimeT, wrapv: bool, lo: int, hi: int, off: Int, dst: Int,
                    outcome: Outcome, t: TimeT, probes: nat)
    requires ConvertsOn(convert, lo, hi) && lo < 0 < hi && FixedOffset(convert, off, dst)
    requires Ended(tp.(sec := SearchSec(tp.sec)), convert, FirstGuess(tp, offset), wrapv, lo, hi, outcome, t, probes)
    ensures var searched := Target(tp.(sec := SearchSec(tp.sec)), off);
            && outcome == (if Convertible(searched, off) then Matched else Exhausted)
            && (outcome == Matched ==>
                  && t == searched && convert(t).Some?
                  && convert(t).value.sec == SearchSec(tp.sec) && convert(t).value.isdst == dst
                  && Target(tp, off) == t + tp.sec - SearchSec(tp.sec)
                  && AsInt(-(AsTime(offset + t - FirstGuess(tp, offset)) as int)) == off
                  && (AsInt(-(offset as int)) == off ==> probes == 1))
  {
    hide Target, First, Last, IsDateOf, TmSeconds, Wanted, AsInt, AsTime, FirstGuess, Ended, Convertible;
    var req := tp.(sec := SearchSec(tp.sec));
    var t0 := FirstGuess(tp, offset);
    FixedEnd(req, convert, t0, wrapv, lo, hi, off, dst, outcome, t, probes);
    if outcome == Matched {
      ConvertibleOn(convert, off, dst, t);
      FixedDates(convert, off, dst, t);
      SecondsFit(tp, convert(t).value, t, off, dst);
      OffsetLearned(offset, off);
      GuessMeaning(tp, offset, off);
    }
  }

  lemma BackInRange(convert: Convert, t: TimeT, found: Int, sec: Int, ok: bool, u: TimeT)
    requires PutBack(convert, t, found, sec, ok, u)
    ensures sec == found ==> ok
    ensures ok ==> u == t + SecondsBack(sec, found)
    ensures ok && 0 <= sec < 60 && found < 60 ==> u == t
  {
  }

  lemma FixedDst(convert: Convert, off: Int, dst: Int, t: TimeT)
    requires FixedOffset(convert, off, dst) && convert(t).Some?
    ensures convert(t).value.isdst == dst
  {
    FixedDates(convert, off, dst, t);
  }

  lemma FixedResult(tp: Tm, convert: Convert, offset: TimeT, wrapv: bool, lo: int, hi: int, off: Int, dst: Int,
                    search: Search, r: Result)
    requires ConvertsOn(convert, lo, hi) && lo < 0 < hi && FixedOffset(convert, off, dst)
    requires Ended(tp.(sec := SearchSec(tp.sec)), convert, FirstGuess(tp, offset), wrapv, lo, hi, search.outcome,
                   search.t, search.probes)
    requires search.base == search.t && convert(search.base) == Some(search.baseTm)
    requires if search.outcome == Exhausted then !r.ok
             else
               && PutBack(convert, search.base, search.baseTm.sec, tp.sec, r.ok, r.t)
               && r.offset == AsTime(offset + search.base - FirstGuess(tp, offset))
    ensures var sec := if tp.sec < 0 then 0 else if 59 < tp.sec then 59 else tp.sec;
            && (r.ok <==> Convertible(Target(tp.(sec := sec), off), off) && Convertible(Target(tp, off), off))
            && (r.ok ==> r.t == Target(tp, off))
            && (r.ok ==> AsInt(-(r.offset as int)) == off)
            && (r.ok && AsInt(-(offset as int)) == off ==> search.probes == 1)
  {
    hide Target, First, Last, AsInt, AsTime, FirstGuess, Ended, FixedOffset, Convertible, ConvertsOn;
    FixedSearch(tp, convert, offset, wrapv, lo, hi, off, dst, search.outcome, search.t, search.probes);
    TargetRange(tp, off);
    ConvertibleOn(convert, off, dst, Target(tp, off));
  }

  /** The first guess is at the target of the offset it is made with. */
  lemma GuessMeaning(tp: Tm, offset: TimeT, off: Int)
    ensures FirstGuess(tp, offset) == Target(tp.(sec := SearchSec(tp.sec)), off) + off - AsInt(-(offset as int))
  {
    hide FirstGuess, Wanted, AsInt;
  }

  /** __mktime_internal, for any conversion whose convertible times are an interval around
      0. What it returns is converted to the fields it stores. If the search finds the date
      and tm_isdst is no obstacle, what is returned is the time found with the seconds put
      back, so the very date asked for when its seconds were in range, unless a leap second
      was found instead. At a fixed offset it returns the exact inverse if and only if both
      the time asked for and the time with its seconds set aside are convertible, and the
      offset it leaves makes any later search match at its first probe. */
  method MktimeInternal(tp: Tm, convert: Convert, offset: TimeT, wrapv: bool,
                        ghost lo: int, ghost hi: int, ghost off: Int, ghost dst: Int)
    returns (r: Result, ghost search: Search)
    requires ConvertsOn(convert, lo, hi) && lo < 0 < hi
    ensures r.ok ==> convert(r.t) == Some(r.tm)
    ensures !r.ok ==> r.t == -1 && r.tm == tp
    ensures search.outcome == Exhausted ==> !r.ok && r.offset == offset
    ensures Ended(tp.(sec := SearchSec(tp.sec)), convert, FirstGuess(tp, offset), wrapv, lo, hi, search.outcome,
                  search.t, search.probes)
    ensures convert(search.t) == Some(search.tm) && convert(search.base) == Some(search.baseTm)
    ensures search.outcome == Matched ==> TmSeconds(search.tm) == Wanted(tp.(sec := SearchSec(tp.sec)))
    ensures search.outcome == Matched
            && (tp.isdst < 0 || search.tm.isdst < 0 || tp.isdst == search.tm.isdst == 0
                || (0 < tp.isdst && 0 < search.tm.isdst)) ==>
      && search.base == search.t
      && (r.ok && 0 <= search.tm.sec <= 60 ==>
            r.t == search.t + Wanted(tp) - TmSeconds(search.tm) + if search.tm.sec == 60 then 1 else 0)
      && (r.ok && 0 <= tp.sec < 60 && search.tm.sec < 60 ==> TmSeconds(r.tm) == Wanted(tp))
      && (tp.sec == search.tm.sec ==> r.ok)
    ensures search.outcome == Matched
            && ((tp.isdst == 0 && 0 < search.tm.isdst) || (0 < tp.isdst && search.tm.isdst == 0)) ==>
      FirstServing(tp.(sec := SearchSec(tp.sec)), convert, search.t, search.passed, search.base, lo, hi)
    ensures search.outcome == Oscillating ==> search.base == search.t
    ensures search.outcome != Exhausted ==>
      && PutBack(convert, search.base, search.baseTm.sec, tp.sec, r.ok, r.t)
      && r.offset == AsTime(offset + search.base - FirstGuess(tp, offset))
    ensures FixedOffset(convert, off, dst)
            && (tp.isdst < 0 || dst < 0 || tp.isdst == dst == 0 || (0 < tp.isdst && 0 < dst)) ==>
      var sec := if tp.sec < 0 then 0 else if 59 < tp.sec then 59 else tp.sec;
      && (r.ok <==> Convertible(Target(tp.(sec := sec), off), off) && Convertible(Target(tp, off), off))
      && (r.ok ==> r.t == Target(tp, off))
      && (r.ok ==> AsInt(-(r.offset as int)) == off)
      && (r.ok && AsInt(-(offset as int)) == off ==> search.probes == 1)
  {
    hide Target, First, Last, IsDateOf, TmSeconds, Wanted, AsInt, AsTime, FirstGuess, FirstServing, Ended, FixedOffset,
        IsdstDiffer, Convertible, ConvertsOn, PutBack;
    var req := tp.(sec := SearchSec(tp.sec));
    var t0 := FirstGuess(tp, offset);
    var outcome, t, tm, n := Probe(req, convert, t0, wrapv, lo, hi);
    search := Search(outcome, t, tm, n, 0, t, tm);
    FoundEnd(req, convert, t0, wrapv, lo, hi, outcome, t, n);
    if outcome == Exhausted {
      r := Result(-1, tp, offset, false);
      if FixedOffset(convert, off, dst) { FixedResult(tp, convert, offset, wrapv, lo, hi, off, dst, search, r); }
      return;
    }
    if FixedOffset(convert, off, dst) { FixedDst(convert, off, dst, t); }
    if outcome == Matched && 0 <= tm.sec <= 60 { BackMeaning(tp, tm); }
    if outcome == Matched && IsdstDiffer(tp.isdst, tm.isdst) {
      ghost var n;
      t, tm, n := SearchDst(req, convert, t, tm, wrapv, lo, hi);
      search := search.(passed := n, base := t, baseTm := tm);
    }
    var newOffset := AsTime(offset + t - t0);
    var ok, u, utm := AdjustSeconds(convert, t, tm, tp.sec, wrapv);
    r := Result(u, if ok then utm else tp, newOffset, ok);
    BackInRange(convert, t, tm.sec, tp.sec, ok, u);
    if FixedOffset(convert, off, dst) && search.base == search.t {
      FixedResult(tp, convert, offset, wrapv, lo, hi, off, dst, search, r);
    }
  }

  // ------------------------------------------------------------------
  // What this gives

  /** Converting and inverting: the fields of any converted time have that time as their
      target, and their seconds are not set aside. */
  lemma InvertsConversion(convert: Convert, off: Int, dst: Int, t: TimeT)
    requires FixedOffset(convert, off, dst) && convert(t).Some?
    ensures var tm := convert(t).value;
            tm.(sec := SearchSec(tm.sec)) == tm && Target(tm, off) == t && Convertible(t, off)
  {
    FixedDates(convert, off, dst, t);
    DateWantsItself(convert(t).value);
  }

  /** Inverting and converting: the date at the target is the one normal date that lies as
      many seconds into the calendar as the fields asked for. */
  lemma NormalizesFields(convert: Convert, off: Int, dst: Int, tp: Tm, date: Tm)
    requires FixedOffset(convert, off, dst) && Convertible(Target(tp, off), off) && date.isdst == dst
    ensures TIME_T_MIN <= Target(tp, off) <= TIME_T_MAX
    ensures convert(Target(tp, off)) == Some(date) <==> CalendarDate(date) && TmSeconds(date) == Wanted(tp)
  {
    hide CalendarDate, TmSeconds, First, Last, Wanted, EPOCH;
    TargetRange(tp, off);
    FixedDates(convert, off, dst, Target(tp, off));
    var found := convert(Target(tp, off)).value;
    assert TmSeconds(found) == Wanted(tp);
    if CalendarDate(date) && TmSeconds(date) == Wanted(tp) { DateUnique(found, date); }
  }

  /** With the offset remembered, the first guess of any later search is its target. */
  lemma NextGuessHits(tp: Tm, offset: TimeT, off: Int)
    requires AsInt(-(offset as int)) == off
    ensures FirstGuess(tp, offset) == Target(tp.(sec := SearchSec(tp.sec)), off)
  {
    hide FirstGuess, Wanted, AsInt;
  }

  /** The last hour of the last year that tm_year holds. */
  lemma LastDay(min: Int, sec: Int)
    ensures Wanted(Tm(sec, min, 23, 31, 11, INT_MAX, 0, 0)) == YearStart(INT_MAX + 1) - 3600 + 60 * min + sec
  {
    hide DaysBefore, DaysBeforeMonth;
    MonthsMakeYear(INT_MAX);
    DaysNext(INT_MAX);
    December(INT_MAX);
  }

  lemma December(year: int)
    ensures DaysBeforeMonth(year, 12) == DaysBeforeMonth(year, 11) + 31
  {
  }

  /** Seconds that carry a time back across the last convertible one: the time asked for
      exists, and yet the search with its seconds set aside leaves the range. */
  lemma SecondsCanMiss(off: Int)
    ensures var tp := Tm(-1, 60, 23, 31, 11, INT_MAX, 0, 0);
            Target(tp, off) == Last(off) && Convertible(Target(tp, off), off)
            && !Convertible(Target(tp.(sec := SearchSec(tp.sec)), off), off)
  {
    hide Wanted, YearStart, EPOCH;
    LastDay(60, -1);
    LastDay(60, 0);
    ConvertibleTimes(off);
  }
}
