/** Days since the epoch and calendar dates: the two conversions are inverse, and counting days
    walks the Gregorian calendar. */
module CivilDate {

  datatype Date = Date(year: int, month: int, day: int)

  /** Division that rounds toward zero, as Rust's `/` on signed integers. */
  function Trunc(a: int, b: int): (q: int)
    requires b > 0
  {
    if a >= 0 then a / b else -((-a) / b)
  }

  const EPOCH_SHIFT := 719468
  const ERA_DAYS := 146097

  // ---------------------------------------------------------------- the two conversions

  function YearOfEra(doe: int): int {
    (doe - doe / 1460 + doe / 36524 - doe / 146096) / 365
  }

  function EraOfDay(z: int): int { Trunc(if z >= 0 then z else z - 146096, ERA_DAYS) }

  function DayInMarchYear(doe: int, yoe: int): int { doe - (365 * yoe + yoe / 4 - yoe / 100) }

  /** The date of a day number, by way of 400-year eras and years that start in March. */
  function CivilFromDays(days: int): Date {
    var z := days + EPOCH_SHIFT;
    var era := EraOfDay(z);
    var doe := z - era * ERA_DAYS;
    var yoe := YearOfEra(doe);
    var y := yoe + era * 400;
    var doy := DayInMarchYear(doe, yoe);
    var mp := (5 * doy + 2) / 153;
    var d := doy - (153 * mp + 2) / 5 + 1;
    var m := if mp < 10 then mp + 3 else mp - 9;
    Date(if m <= 2 then y + 1 else y, m, d)
  }

  function EraOfYear(y: int): int { Trunc(if y >= 0 then y else y - 399, 400) }

  function DaysFromCivil(date: Date): int {
    var y := if date.month <= 2 then date.year - 1 else date.year;
    var era := EraOfYear(y);
    var yoe := y - era * 400;
    var mp := if date.month > 2 then date.month - 3 else date.month + 9;
    var doy := (153 * mp + 2) / 5 + date.day - 1;
    var doe := yoe * 365 + yoe / 4 - yoe / 100 + doy;
    era * ERA_DAYS + doe - EPOCH_SHIFT
  }

  // ---------------------------------------------------------------- the calendar

  predicate IsLeap(y: int) { y % 4 == 0 && (y % 100 != 0 || y % 400 == 0) }

  function DaysInMonth(y: int, m: int): int {
    if m == 2 then (if IsLeap(y) then 29 else 28)
    else if m == 4 || m == 6 || m == 9 || m == 11 then 30
    else 31
  }

  predicate Valid(d: Date) { 1 <= d.month <= 12 && 1 <= d.day <= DaysInMonth(d.year, d.month) }

  function NextDay(d: Date): Date {
    if d.day < DaysInMonth(d.year, d.month) then d.(day := d.day + 1)
    else if d.month < 12 then Date(d.year, d.month + 1, 1)
    else Date(d.year + 1, 1, 1)
  }

  // ---------------------------------------------------------------- eras and years

  lemma EraOfDayIs(z: int)
    ensures 0 <= z - EraOfDay(z) * ERA_DAYS < ERA_DAYS
  {
  }

  lemma EraOfYearIs(y: int)
    ensures 0 <= y - EraOfYear(y) * 400 < 400
  {
  }

  /** The day of the era on which its `y`-th March year starts. */
  function YearStart(y: int): int { 365 * y + y / 4 - y / 100 }

  /** The last day of the `y`-th March year; only the last one of the era is the 400th. */
  function YearEnd(y: int): int { if y == 399 then 146096 else YearStart(y + 1) - 1 }

  /** A March year written as centuries, leap cycles and years. */
  lemma YearParts(c: int, q: int, s: int)
    requires 0 <= c < 4 && 0 <= q < 25 && 0 <= s < 4
    ensures YearStart(100 * c + 4 * q + s) == 36524 * c + 1461 * q + 365 * s
  {
    var y := 100 * c + 4 * q + s;
    assert y / 4 == 25 * c + q;
    assert y / 100 == c;
  }

  lemma CenturyOfDay(doe: int, c: int, rest: int)
    requires 0 <= c < 4 && doe == 36524 * c + rest && 0 <= rest
    requires rest < 36524 || (c == 3 && rest == 36524)
    ensures doe / 36524 - doe / 146096 == c
  {
  }

  lemma CycleOfDay(doe: int, k: int, e: int)
    requires doe == 1460 * k + e && 0 <= e < 2920
    ensures doe / 1460 == k + (if e >= 1460 then 1 else 0)
  {
  }

  /** Every day of a March year is given back that year. */
  lemma YearOfEraIs(doe: int, y: int)
    requires 0 <= y < 400 && YearStart(y) <= doe <= YearEnd(y)
    ensures YearOfEra(doe) == y
  {
    hide YearStart, YearEnd, IsLeap, YearOfEra;
    var c, q, s := y / 100, y % 100 / 4, y % 4;
    assert y == 100 * c + 4 * q + s;
    YearParts(c, q, s);
    YearLength(y);
    YearFromParts(doe, c, q, s, doe - YearStart(y));
  }

  lemma YearFromParts(doe: int, c: int, q: int, s: int, r: int)
    requires 0 <= c < 4 && 0 <= q < 25 && 0 <= s < 4 && doe == 36524 * c + 1461 * q + 365 * s + r
    requires 0 <= r <= 364 || (r == 365 && s == 3 && (q < 24 || c == 3))
    ensures YearOfEra(doe) == 100 * c + 4 * q + s
  {
    CenturyOfDay(doe, c, 1461 * q + 365 * s + r);
    var e := 24 * c + q + 365 * s + r;
    CycleOfDay(doe, 25 * c + q, e);
    var days := 365 * (100 * c + 4 * q + s) + (if e >= 1460 then r - 1 else r);
    assert doe - doe / 1460 + doe / 36524 - doe / 146096 == days;
    assert days / 365 == 100 * c + 4 * q + s;
  }

  /** A March year has 366 days exactly when the calendar year it ends in is a leap year. */
  lemma YearLength(y: int)
    requires 0 <= y < 400
    ensures YearEnd(y) - YearStart(y) + 1 == if IsLeap(y + 1) then 366 else 365
    ensures IsLeap(y + 1) <==> y % 4 == 3 && (y % 100 != 99 || y == 399)
  {
    var c, q, s := y / 100, y % 100 / 4, y % 4;
    assert y == 100 * c + 4 * q + s;
    YearParts(c, q, s);
    if s < 3 {
      YearParts(c, q, s + 1);
    } else if q < 24 {
      YearParts(c, q + 1, 0);
    } else if c < 3 {
      YearParts(c + 1, 0, 0);
    }
  }

  /** Some March year of the era holds the day. */
  lemma {:induction false} FindYear(doe: int, from: int) returns (y: int)
    requires 0 <= from < 400 && YearStart(from) <= doe < ERA_DAYS
    ensures from <= y < 400 && YearStart(y) <= doe <= YearEnd(y)
    decreases 400 - from
  {
    if doe <= YearEnd(from) {
      y := from;
    } else {
      y := FindYear(doe, from + 1);
    }
  }

  // ---------------------------------------------------------------- months

  function MonthStart(mp: int): int { (153 * mp + 2) / 5 }

  function MarchMonth(doy: int): int { (5 * doy + 2) / 153 }

  lemma MarchMonthIs(doy: int, mp: int)
    requires 0 <= mp < 12 && MonthStart(mp) <= doy < MonthStart(mp + 1)
    ensures MarchMonth(doy) == mp
  {
  }

  lemma MarchMonthHolds(doy: int)
    requires 0 <= doy < 366
    ensures 0 <= MarchMonth(doy) < 12
    ensures MonthStart(MarchMonth(doy)) <= doy < MonthStart(MarchMonth(doy) + 1)
  {
  }

  function MarchYear(d: Date): int { if d.month <= 2 then d.year - 1 else d.year }

  function MarchMonthOf(m: int): int { if m > 2 then m - 3 else m + 9 }

  /** Calendar months have the length the March table gives them; February ends the year. */
  lemma MonthLengths(y: int, m: int)
    requires 1 <= m <= 12
    ensures m != 2 ==> DaysInMonth(y, m) == MonthStart(MarchMonthOf(m) + 1) - MonthStart(MarchMonthOf(m))
    ensures m == 2 ==> MonthStart(11) + DaysInMonth(y, m) == if IsLeap(y) then 366 else 365
    ensures 0 < DaysInMonth(y, m) <= MonthStart(MarchMonthOf(m) + 1) - MonthStart(MarchMonthOf(m))
  {
  }

  /** The day number of the first of March of `y`. */
  function Base(y: int): int { EraOfYear(y) * ERA_DAYS + YearStart(y - EraOfYear(y) * 400) - EPOCH_SHIFT }

  function DayOfMarchYear(d: Date): int { MonthStart(MarchMonthOf(d.month)) + d.day - 1 }

  lemma DaysAreBaseAndDay(d: Date)
    ensures DaysFromCivil(d) == Base(MarchYear(d)) + DayOfMarchYear(d)
  {
  }

  lemma DayFitsYear(d: Date)
    requires Valid(d)
    ensures 0 <= DayOfMarchYear(d) < if IsLeap(MarchYear(d) + 1) then 366 else 365
  {
    MonthLengths(d.year, d.month);
  }

  lemma LeapByEra(y: int, k: int)
    ensures IsLeap(y + 400 * k) <==> IsLeap(y)
  {
    ModFour(y + 400 * k, y / 4 + 100 * k, y % 4);
    ModHundred(y + 400 * k, y / 100 + 4 * k, y % 100);
    ModFourHundred(y + 400 * k, y / 400 + k, y % 400);
  }

  lemma ModFour(y: int, q: int, r: int)
    requires y == 4 * q + r && 0 <= r < 4
    ensures y % 4 == r
  {
  }

  lemma ModHundred(y: int, q: int, r: int)
    requires y == 100 * q + r && 0 <= r < 100
    ensures y % 100 == r
  {
  }

  lemma ModFourHundred(y: int, q: int, r: int)
    requires y == 400 * q + r && 0 <= r < 400
    ensures y % 400 == r
  {
  }

  lemma EraOf(y: int, era: int, yoe: int)
    requires y == era * 400 + yoe && 0 <= yoe < 400
    ensures EraOfYear(y) == era
  {
  }

  lemma EraOfDays(z: int, era: int, doe: int)
    requires z == era * ERA_DAYS + doe && 0 <= doe < ERA_DAYS
    ensures EraOfDay(z) == era
  {
  }

  /** March years follow one another. */
  lemma BaseStep(y: int)
    ensures Base(y + 1) == Base(y) + if IsLeap(y + 1) then 366 else 365
  {
    EraOfYearIs(y);
    var era := EraOfYear(y);
    var yoe := y - era * 400;
    YearLength(yoe);
    LeapByEra(yoe + 1, era);
    if yoe < 399 {
      EraOf(y + 1, era, yoe + 1);
    } else {
      EraOf(y + 1, era + 1, 0);
    }
  }

  // ---------------------------------------------------------------- round trips

  /** The date the algorithm gives for a day of a March year. */
  function FromMarch(y: int, doy: int): Date {
    var mp := MarchMonth(doy);
    var m := if mp < 10 then mp + 3 else mp - 9;
    Date(if m <= 2 then y + 1 else y, m, doy - MonthStart(mp) + 1)
  }

  lemma CivilIsFromMarch(z: int, y: int, doy: int)
    requires z == Base(y) + doy && 0 <= doy < if IsLeap(y + 1) then 366 else 365
    ensures CivilFromDays(z) == FromMarch(y, doy)
  {
    hide Trunc, IsLeap, YearOfEra;
    EraOfYearIs(y);
    var era := EraOfYear(y);
    var yoe := y - era * 400;
    YearLength(yoe);
    LeapByEra(yoe + 1, era);
    var doe := YearStart(yoe) + doy;
    YearSpan(yoe, doe);
    EraOfDays(z + EPOCH_SHIFT, era, doe);
    YearOfEraIs(doe, yoe);
  }

  lemma YearSpan(y: int, doe: int)
    requires 0 <= y < 400 && YearStart(y) <= doe <= YearEnd(y)
    ensures 0 <= doe < ERA_DAYS
  {
  }

  /** Every day number lies in a March year. */
  lemma SplitDay(z: int) returns (y: int, doy: int)
    ensures z == Base(y) + doy && 0 <= doy < if IsLeap(y + 1) then 366 else 365
  {
    hide Trunc, IsLeap;
    EraOfDayIs(z + EPOCH_SHIFT);
    var era := EraOfDay(z + EPOCH_SHIFT);
    var doe := z + EPOCH_SHIFT - era * ERA_DAYS;
    var yoe := FindYear(doe, 0);
    y, doy := yoe + era * 400, doe - YearStart(yoe);
    EraOf(y, era, yoe);
    YearLength(yoe);
    LeapByEra(yoe + 1, era);
  }

  lemma FromMarchIsDate(y: int, doy: int)
    requires 0 <= doy < if IsLeap(y + 1) then 366 else 365
    ensures var d := FromMarch(y, doy); Valid(d) && MarchYear(d) == y && DayOfMarchYear(d) == doy
  {
    MarchMonthHolds(doy);
    var d := FromMarch(y, doy);
    MonthLengths(d.year, d.month);
  }

  /** The two conversions are inverse: every day number, also before the epoch, is one valid date
      and no other, and every valid date is the date of its day number. */
  lemma ConversionsAgree(z: int, d: Date)
    ensures CivilFromDays(z) == d <==> Valid(d) && DaysFromCivil(d) == z
  {
    hide IsLeap, Trunc, YearOfEra, CivilFromDays, DaysFromCivil;
    if CivilFromDays(z) == d {
      var y, doy := SplitDay(z);
      CivilIsFromMarch(z, y, doy);
      FromMarchIsDate(y, doy);
      DaysAreBaseAndDay(d);
    } else if Valid(d) && DaysFromCivil(d) == z {
      DaysAreBaseAndDay(d);
      DayFitsYear(d);
      CivilIsFromMarch(z, MarchYear(d), DayOfMarchYear(d));
      MonthLengths(d.year, d.month);
      MarchMonthIs(DayOfMarchYear(d), MarchMonthOf(d.month));
    }
  }

  lemma NextDayIsNext(d: Date)
    requires Valid(d)
    ensures Valid(NextDay(d)) && DaysFromCivil(NextDay(d)) == DaysFromCivil(d) + 1
  {
    hide Base, IsLeap, DaysFromCivil, EraOfYear;
    DaysAreBaseAndDay(d);
    DaysAreBaseAndDay(NextDay(d));
    MonthLengths(d.year, d.month);
    if d.month == 2 { BaseStep(d.year - 1); }
  }

  /** Counting days walks the calendar: day 0 is 1 January 1970, and each next number is the
      next date under the leap-year rule. */
  lemma CountingDaysWalksCalendar(z: int)
    ensures CivilFromDays(0) == Date(1970, 1, 1)
    ensures CivilFromDays(z + 1) == NextDay(CivilFromDays(z))
  {
    hide CivilFromDays, DaysFromCivil, NextDay, IsLeap;
    var d := CivilFromDays(z);
    ConversionsAgree(z, d);
    NextDayIsNext(d);
    ConversionsAgree(z + 1, NextDay(d));
    EpochDate();
  }

  lemma EpochDate()
    ensures CivilFromDays(0) == Date(1970, 1, 1)
  {
    hide CivilFromDays;
    assert DaysFromCivil(Date(1970, 1, 1)) == 0;
    ConversionsAgree(0, Date(1970, 1, 1));
  }

  /** The intermediate values stay in the ranges the code comments on. */
  lemma RangesHold(z: int)
    ensures var doe := z - EraOfDay(z) * ERA_DAYS;
            var doy := DayInMarchYear(doe, YearOfEra(doe));
            0 <= doe <= 146096 && 0 <= YearOfEra(doe) <= 399 && 0 <= doy <= 365 && 0 <= MarchMonth(doy) <= 11
  {
    hide IsLeap, EraOfDay, YearOfEra, MarchMonth;
    EraOfDayIs(z);
    var doe := z - EraOfDay(z) * ERA_DAYS;
    var y := FindYear(doe, 0);
    YearOfEraIs(doe, y);
    YearLength(y);
    MarchMonthHolds(doe - YearStart(y));
  }

  // ---------------------------------------------------------------- timestamps

  datatype Stamp = Stamp(date: Date, hour: int, minute: int, second: int)

  predicate StampOk(s: Stamp) { Valid(s.date) && 0 <= s.hour < 24 && 0 <= s.minute < 60 && 0 <= s.second < 60 }

  /** Unix seconds of the six numbers of an ISO timestamp; times before the epoch become 0. */
  function UnixOf(s: Stamp): (t: nat) {
    var t := DaysFromCivil(s.date) * 86400 + s.hour * 3600 + s.minute * 60 + s.second;
    if t < 0 then 0 else t
  }

  /** The numbers an HTTP date prints. */
  function StampOf(unix: nat): Stamp {
    var sod := unix % 86400;
    Stamp(CivilFromDays(unix / 86400), sod / 3600, sod / 60 % 60, sod % 60)
  }

  /** Index of the weekday, 0 for Sunday. */
  function WeekdayOf(unix: nat): int { (unix / 86400 % 7 + 11) % 7 }

  lemma {:induction false} BaseGrows(y: int)
    requires y >= 1970
    ensures Base(y) >= Base(1970)
    decreases y
  {
    if y > 1970 {
      BaseGrows(y - 1);
      BaseStep(y - 1);
    }
  }

  /** Dates from 1970 on have a day number that is not negative. */
  lemma EpochIsFirst(d: Date)
    requires Valid(d) && d.year >= 1970
    ensures DaysFromCivil(d) >= 0
  {
    hide Base, IsLeap;
    DaysAreBaseAndDay(d);
    DayFitsYear(d);
    EpochBases();
    if MarchYear(d) >= 1970 { BaseGrows(MarchYear(d)); }
  }

  lemma {:induction false} BaseGrowsBefore(y: int)
    requires y <= 1969
    ensures Base(y) <= Base(1969)
    decreases 1969 - y
  {
    hide IsLeap;
    if y < 1969 {
      BaseGrowsBefore(y + 1);
      BaseStep(y);
    }
  }

  /** Dates before 1970 have a negative one. */
  lemma BeforeEpoch(d: Date)
    requires Valid(d) && d.year < 1970
    ensures DaysFromCivil(d) < 0
  {
    hide Base, IsLeap;
    DaysAreBaseAndDay(d);
    DayFitsYear(d);
    EpochBases();
    MonthLengths(d.year, d.month);
    if MarchYear(d) < 1969 {
      BaseGrowsBefore(MarchYear(d) + 1);
      BaseStep(MarchYear(d));
    }
  }

  lemma EpochBases()
    ensures Base(1970) == 59 && Base(1969) == -306
  {
  }

  lemma SecondsSplit(days: nat, h: int, m: int, s: int)
    requires 0 <= h < 24 && 0 <= m < 60 && 0 <= s < 60
    ensures var t := days * 86400 + h * 3600 + m * 60 + s;
            t / 86400 == days && t % 86400 == h * 3600 + m * 60 + s
            && t % 86400 / 3600 == h && t % 86400 / 60 % 60 == m && t % 86400 % 60 == s
  {
    var t := days * 86400 + h * 3600 + m * 60 + s;
    var sod := h * 3600 + m * 60 + s;
    assert 0 <= sod < 86400;
    assert t / 86400 == days && t % 86400 == sod;
    assert sod / 60 == h * 60 + m;
  }

  /** An HTTP date shows the date and time Graph sent, for every valid timestamp from 1970. */
  lemma HttpDateShowsTimestamp(s: Stamp)
    requires StampOk(s) && s.date.year >= 1970
    ensures StampOf(UnixOf(s)) == s
  {
    hide DaysFromCivil, CivilFromDays, IsLeap;
    EpochIsFirst(s.date);
    SecondsSplit(DaysFromCivil(s.date), s.hour, s.minute, s.second);
    ConversionsAgree(DaysFromCivil(s.date), s.date);
  }

  /** Every second count prints as a valid timestamp that stands for it. */
  lemma TimestampOfSeconds(unix: nat)
    ensures StampOk(StampOf(unix)) && UnixOf(StampOf(unix)) == unix
  {
    hide DaysFromCivil, CivilFromDays, IsLeap;
    ConversionsAgree(unix / 86400, CivilFromDays(unix / 86400));
    var sod := unix % 86400;
    assert sod == sod / 3600 * 3600 + sod / 60 % 60 * 60 + sod % 60;
    assert 0 <= sod / 3600 < 24;
  }

  /** The weekday starts on a Thursday, keeps through a day and moves on with the date. */
  lemma WeekdayAdvances(unix: nat)
    ensures WeekdayOf(0) == 4 && 0 <= WeekdayOf(unix) < 7
    ensures WeekdayOf(unix + 86400) == (WeekdayOf(unix) + 1) % 7
    ensures StampOf(unix + 86400) == StampOf(unix).(date := NextDay(StampOf(unix).date))
  {
    hide CivilFromDays, IsLeap, NextDay;
    CountingDaysWalksCalendar(unix / 86400);
    assert (unix + 86400) / 86400 == unix / 86400 + 1 && (unix + 86400) % 86400 == unix % 86400;
  }

  /** The weekday is that of the date it is printed with: it depends on the day alone, and counts on
      from Thursday, 1 January 1970. */
  lemma WeekdayIsOfDate(u: nat, v: nat)
    ensures WeekdayOf(u) == (DaysFromCivil(StampOf(u).date) + 4) % 7
    ensures u / 86400 == v / 86400 ==> WeekdayOf(u) == WeekdayOf(v) && StampOf(u).date == StampOf(v).date
  {
    hide CivilFromDays, DaysFromCivil, IsLeap;
    ConversionsAgree(u / 86400, StampOf(u).date);
  }

  /** Every valid timestamp before 1970, and besides it only the epoch itself, counts as second 0. */
  lemma EarlyTimestampsAreZero(s: Stamp)
    requires StampOk(s)
    ensures UnixOf(s) == 0 <==> s.date.year < 1970 || s == Stamp(Date(1970, 1, 1), 0, 0, 0)
  {
    hide DaysFromCivil, CivilFromDays, IsLeap;
    if s.date.year < 1970 {
      BeforeEpoch(s.date);
    } else {
      EpochIsFirst(s.date);
      HttpDateShowsTimestamp(s);
      EpochDate();
      TimestampOfSeconds(0);
      if s == Stamp(Date(1970, 1, 1), 0, 0, 0) { ConversionsAgree(0, s.date); }
    }
  }
}
