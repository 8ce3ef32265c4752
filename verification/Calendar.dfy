/**
 * Dates and seconds: `rtc_unix_time` counts days with a loop over the years,
 * `format_time` goes back with the era arithmetic, and a weekday formula stands
 * beside them.  All three agree with the calendar itself, and with the formula for
 * Seconds Since the Epoch in section 4.16 of the POSIX.1-2017 Base Definitions.
 */
module Calendar {
  import opened Words

  datatype Date = Date(year: int, month: int, day: int)

  /** Seconds into the day are kept as hour, minute and second. */
  datatype Time = Time(date: Date, hour: int, minute: int, second: int)

  const EPOCH := 1970
  const DAY_SECONDS := 86400

  predicate Leap(y: int) {
    y % 4 == 0 && (y % 100 != 0 || y % 400 == 0)
  }

  function DaysInMonth(y: int, m: int): int
    requires 1 <= m <= 12
  {
    if m == 2 && Leap(y) then 29 else [31, 28, 31, 30, 31, 30, 31, 31, 30, 31, 30, 31][m - 1]
  }

  predicate ValidDate(d: Date) {
    EPOCH <= d.year && 1 <= d.month <= 12 && 1 <= d.day <= DaysInMonth(d.year, d.month)
  }

  predicate ValidTime(t: Time) {
    ValidDate(t.date) && 0 <= t.hour < 24 && 0 <= t.minute < 60 && 0 <= t.second < 60
  }

  // ---------- Date to days and seconds ----------

  /** Days from 1970-01-01 to the first day of year y. */
  function DaysBeforeYear(y: int): nat
    requires EPOCH <= y
    decreases y - EPOCH
  {
    if y == EPOCH then 0 else DaysBeforeYear(y - 1) + if Leap(y - 1) then 366 else 365
  }

  function DaysBeforeMonth(m: int): int
    requires 1 <= m <= 12
  {
    [0, 31, 59, 90, 120, 151, 181, 212, 243, 273, 304, 334][m - 1]
  }

  function DayOfYear(d: Date): int
    requires 1 <= d.month <= 12
  {
    DaysBeforeMonth(d.month) + d.day - 1 + if Leap(d.year) && d.month > 2 then 1 else 0
  }

  function Days(d: Date): (n: nat)
    requires ValidDate(d)
  {
    DaysBeforeYear(d.year) + DayOfYear(d)
  }

  function UnixTime(t: Time): (n: nat)
    requires ValidTime(t)
  {
    Days(t.date) * DAY_SECONDS + t.hour * 3600 + t.minute * 60 + t.second
  }

  // ---------- Seconds to date ----------

  /** The era arithmetic of `format_time`: eras of 400 years that start in March. */
  function DateOfDays(days: nat): Date {
    var z := days + 719468;
    var era := z / 146097;
    var doe := z - era * 146097;
    var yoe := YearInEra(doe);
    FromMarch(yoe + era * 400, DayInYear(doe, yoe))
  }

  function YearInEra(doe: int): int {
    (doe - doe / 1460 + doe / 36524 - doe / 146096) / 365
  }

  function DayInYear(doe: int, yoe: int): int {
    doe - (365 * yoe + yoe / 4 - yoe / 100)
  }

  /** Months counted from March, with the days before each. */
  function MarchDays(mp: int): int {
    (153 * mp + 2) / 5
  }

  /** The date of day `doy` of a year that starts in March. */
  function FromMarch(y: int, doy: int): Date {
    var mp := (5 * doy + 2) / 153;
    var month := if mp < 10 then mp + 3 else mp - 9;
    Date(y + if month <= 2 then 1 else 0, month, doy - MarchDays(mp) + 1)
  }

  function TimeOfSeconds(t: nat): Time {
    var secs := t % DAY_SECONDS;
    Time(DateOfDays(t / DAY_SECONDS), secs / 3600, secs / 60 % 60, secs % 60)
  }

  // ---------- The calendar itself ----------

  /** The day after. */
  function NextDay(d: Date): Date
    requires 1 <= d.month <= 12
  {
    if d.day < DaysInMonth(d.year, d.month) then d.(day := d.day + 1)
    else if d.month < 12 then Date(d.year, d.month + 1, 1)
    else Date(d.year + 1, 1, 1)
  }

  /** Counting days follows the calendar: 1970-01-01 is day 0 and each day is one
      more than the day before. */
  lemma DaysFollowCalendar(d: Date)
    requires ValidDate(d)
    ensures Days(Date(1970, 1, 1)) == 0
    ensures ValidDate(NextDay(d)) && Days(NextDay(d)) == Days(d) + 1
  {
  }

  /** How many leap years come before year y, counted from year 1. */
  function LeapsBefore(y: int): int
    decreases y
  {
    if y <= 1 then 0 else LeapsBefore(y - 1) + if Leap(y - 1) then 1 else 0
  }

  lemma {:induction false} YearLoopClosed(y: int)
    requires EPOCH <= y
    ensures DaysBeforeYear(y) == 365 * (y - EPOCH) + LeapsBefore(y) - 477
    decreases y - EPOCH
  {
    if y > EPOCH {
      YearLoopClosed(y - 1);
    } else {
      LeapsClosed(EPOCH);
    }
  }

  lemma {:induction false} LeapsClosed(y: int)
    requires 1 <= y
    ensures LeapsBefore(y) == (y - 1) / 4 - (y - 1) / 100 + (y - 1) / 400
    decreases y
  {
    if y > 1 {
      LeapsClosed(y - 1);
      Step4(y - 1);
      Step100(y - 1);
      Step400(y - 1);
    }
  }

  lemma Step4(y: int)
    ensures y / 4 == (y - 1) / 4 + if y % 4 == 0 then 1 else 0
  {
  }

  lemma Step100(y: int)
    ensures y / 100 == (y - 1) / 100 + if y % 100 == 0 then 1 else 0
    ensures y % 100 == 0 ==> y % 4 == 0
  {
  }

  lemma Step400(y: int)
    ensures y / 400 == (y - 1) / 400 + if y % 400 == 0 then 1 else 0
    ensures y % 400 == 0 ==> y % 100 == 0
  {
  }

  /** The formula of the standard, with tm_year counted from 1900. */
  function PosixSeconds(t: Time): int
    requires ValidTime(t)
  {
    var y := t.date.year - 1900;
    t.second + t.minute * 60 + t.hour * 3600 + DayOfYear(t.date) * 86400 +
    (y - 70) * 31536000 + (y - 69) / 4 * 86400 - (y - 1) / 100 * 86400 + (y + 299) / 400 * 86400
  }

  lemma UnixTimeIsPosix(t: Time)
    requires ValidTime(t)
    ensures UnixTime(t) == PosixSeconds(t)
  {
    var y := t.date.year;
    YearLoopClosed(y);
    LeapsClosed(y);
    PosixLeaps(y);
  }

  lemma PosixLeaps(y: int)
    ensures (y - 1969) / 4 == (y - 1) / 4 - 492
    ensures (y - 1901) / 100 == (y - 1) / 100 - 19
    ensures (y - 1601) / 400 == (y - 1) / 400 - 4
  {
  }

  // ---------- The era arithmetic ----------

  /** A year of an era as centuries, groups of four years and single years, with a
      day of that year; a leap year's extra day is its last (29 February). */
  ghost predicate InEra(c: int, q: int, r: int, doy: int) {
    && 0 <= c <= 3 && 0 <= q <= 24 && 0 <= r <= 3 && 0 <= doy <= 365
    && (doy == 365 ==> r == 3 && (q != 24 || c == 3))
  }

  function DayOfEra(c: int, q: int, r: int, doy: int): int {
    36524 * c + 1461 * q + 365 * r + doy
  }

  /** The year of the era is computed exactly. */
  lemma YearOfEra(c: int, q: int, r: int, doy: int)
    requires InEra(c, q, r, doy)
    ensures var doe := DayOfEra(c, q, r, doy);
      && 0 <= doe < 146097
      && YearInEra(doe) == 100 * c + 4 * q + r
      && DayInYear(doe, YearInEra(doe)) == doy
  {
    var doe := DayOfEra(c, q, r, doy);
    var yoe := 100 * c + 4 * q + r;
    var extra := Group(c, q, r, doy);
    Century(c, q, r, doy);
    assert doe - doe / 1460 + doe / 36524 - doe / 146096 == 365 * yoe + (doy - extra);
    assert yoe / 4 == 25 * c + q && yoe / 100 == c;
  }

  lemma Group(c: int, q: int, r: int, doy: int) returns (extra: int)
    requires InEra(c, q, r, doy)
    ensures DayOfEra(c, q, r, doy) / 1460 == 25 * c + q + extra
    ensures 0 <= doy - extra < 365
  {
    var rest := 24 * c + q + 365 * r + doy;
    extra := if rest >= 1460 then 1 else 0;
    assert DayOfEra(c, q, r, doy) == 1460 * (25 * c + q) + rest;
  }

  lemma Century(c: int, q: int, r: int, doy: int)
    requires InEra(c, q, r, doy)
    ensures var doe := DayOfEra(c, q, r, doy);
      0 <= doe < 146097 && doe / 36524 - doe / 146096 == c
  {
  }

  /** Every day of an era is some day of some year. */
  lemma SplitEra(doe: int) returns (c: int, q: int, r: int, doy: int)
    requires 0 <= doe < 146097
    ensures InEra(c, q, r, doy) && DayOfEra(c, q, r, doy) == doe
  {
    c := if doe == 146096 then 3 else doe / 36524;
    var inCentury := doe - 36524 * c;
    q := inCentury / 1461;
    var inGroup := inCentury - 1461 * q;
    r := if inGroup == 1460 then 3 else inGroup / 365;
    doy := inGroup - 365 * r;
  }

  lemma MonthOfDay(doy: int)
    requires 0 <= doy <= 365
    ensures var mp := (5 * doy + 2) / 153;
      0 <= mp <= 11 && MarchDays(mp) <= doy && (mp < 11 ==> doy < MarchDays(mp + 1))
  {
  }

  lemma MonthUnique(doy: int, mp: int)
    requires 0 <= doy <= 365 && 0 <= mp <= 11 && MarchDays(mp) <= doy && (mp < 11 ==> doy < MarchDays(mp + 1))
    ensures (5 * doy + 2) / 153 == mp
  {
  }

  // ---------- Years that start in March ----------

  function MarchYear(d: Date): int {
    if d.month <= 2 then d.year - 1 else d.year
  }

  function MarchMonth(d: Date): int {
    if d.month <= 2 then d.month + 9 else d.month - 3
  }

  function MarchDayOfYear(d: Date): int {
    MarchDays(MarchMonth(d)) + d.day - 1
  }

  /** Days from the start of year 0, March-based, to the start of year y. */
  function MarchYearStart(y: int): int {
    365 * y + LeapsBefore(y + 1)
  }

  lemma DayOfYearShift(d: Date)
    requires ValidDate(d)
    ensures DayOfYear(d) == MarchDayOfYear(d) + if d.month <= 2 then -306 else if Leap(d.year) then 60 else 59
  {
    assert d.month in {1, 2, 3, 4, 5, 6, 7, 8, 9, 10, 11, 12};
  }

  /** The two ways of counting days differ by the 719468 days before 1970. */
  lemma MarchCount(d: Date)
    requires ValidDate(d)
    ensures Days(d) + 719468 == MarchYearStart(MarchYear(d)) + MarchDayOfYear(d)
  {
    YearLoopClosed(d.year);
    DayOfYearShift(d);
  }

  lemma YearSplit(era: int, c: int, q: int, r: int)
    requires 0 <= era && 0 <= c <= 3 && 0 <= q <= 24 && 0 <= r <= 3
    ensures MarchYearStart(400 * era + 100 * c + 4 * q + r) == 146097 * era + DayOfEra(c, q, r, 0)
  {
    var y := 400 * era + 100 * c + 4 * q + r;
    LeapsClosed(y + 1);
    assert y / 4 == 100 * era + 25 * c + q;
    assert y / 100 == 4 * era + c;
    assert y / 400 == era;
  }

  lemma DateOfSplit(days: nat, era: nat, c: int, q: int, r: int, doy: int)
    requires InEra(c, q, r, doy) && days + 719468 == 146097 * era + DayOfEra(c, q, r, doy)
    ensures DateOfDays(days) == FromMarch(400 * era + 100 * c + 4 * q + r, doy)
  {
    YearOfEra(c, q, r, doy);
    assert (days + 719468) / 146097 == era;
  }

  /** 29 February, the last day of a March-based year, only ends a leap year. */
  lemma LeapDay(d: Date, era: int, c: int, q: int, r: int)
    requires ValidDate(d) && MarchYear(d) == 400 * era + 100 * c + 4 * q + r
    requires 0 <= c <= 3 && 0 <= q <= 24 && 0 <= r <= 3
    ensures InEra(c, q, r, MarchDayOfYear(d))
  {
    assert d.month in {1, 2, 3, 4, 5, 6, 7, 8, 9, 10, 11, 12};
    if MarchDayOfYear(d) == 365 {
      LeapInEra(era, c, q, r);
    }
  }

  lemma LeapInEra(era: int, c: int, q: int, r: int)
    requires 0 <= c <= 3 && 0 <= q <= 24 && 0 <= r <= 3
    ensures Leap(400 * era + 100 * c + 4 * q + r + 1) <==> r == 3 && (q != 24 || c == 3)
  {
    var y := 400 * era + 100 * c + 4 * q + r + 1;
    assert y == 4 * (100 * era + 25 * c + q) + (r + 1);
    assert y == 100 * (4 * era + c) + (4 * q + r + 1);
    assert y == 400 * era + (100 * c + 4 * q + r + 1);
  }

  lemma FromMarchInverse(d: Date)
    requires ValidDate(d)
    ensures FromMarch(MarchYear(d), MarchDayOfYear(d)) == d
  {
    assert d.month in {1, 2, 3, 4, 5, 6, 7, 8, 9, 10, 11, 12};
    MonthUnique(MarchDayOfYear(d), MarchMonth(d));
  }

  /** ROUND TRIP, dates: the era arithmetic undoes the year loop. */
  lemma DateRoundTrip(d: Date)
    requires ValidDate(d)
    ensures DateOfDays(Days(d)) == d
  {
    var y := MarchYear(d);
    var era, yoe := y / 400, y % 400;
    var c, q, r := yoe / 100, yoe % 100 / 4, yoe % 4;
    assert yoe == 100 * c + 4 * q + r;
    MarchCount(d);
    YearSplit(era, c, q, r);
    LeapDay(d, era, c, q, r);
    DateOfSplit(Days(d), era, c, q, r, MarchDayOfYear(d));
    FromMarchInverse(d);
  }

  lemma NotBefore1970(y: int, doy: int)
    requires 0 <= y && 0 <= doy <= 365 && MarchYearStart(y) + doy >= 719468
    ensures y >= 1970 || (y == 1969 && doy >= 306)
  {
    LeapsClosed(y + 1);
  }

  lemma FromMarchValid(era: int, c: int, q: int, r: int, doy: int)
    requires InEra(c, q, r, doy)
    requires var y := 400 * era + 100 * c + 4 * q + r; y >= 1970 || (y == 1969 && doy >= 306)
    ensures var y := 400 * era + 100 * c + 4 * q + r;
      var d := FromMarch(y, doy);
      ValidDate(d) && MarchYear(d) == y && MarchDayOfYear(d) == doy
  {
    MonthOfDay(doy);
    LeapInEra(era, c, q, r);
    var mp := (5 * doy + 2) / 153;
    assert mp in {0, 1, 2, 3, 4, 5, 6, 7, 8, 9, 10, 11};
  }

  /** Every day number as era, year and day. */
  lemma SplitDays(days: nat) returns (era: nat, c: int, q: int, r: int, doy: int)
    ensures InEra(c, q, r, doy) && days + 719468 == 146097 * era + DayOfEra(c, q, r, doy)
  {
    var z := days + 719468;
    era := z / 146097;
    c, q, r, doy := SplitEra(z - 146097 * era);
  }

  /** ROUND TRIP, day numbers: every day number gives a real date, and that date
      counts back to it. */
  lemma DaysRoundTrip(days: nat)
    ensures ValidDate(DateOfDays(days)) && Days(DateOfDays(days)) == days
  {
    var era, c, q, r, doy := SplitDays(days);
    var y := 400 * era + 100 * c + 4 * q + r;
    DateOfSplit(days, era, c, q, r, doy);
    YearSplit(era, c, q, r);
    NotBefore1970(y, doy);
    FromMarchValid(era, c, q, r, doy);
    SameCount(days, DateOfDays(days), y, doy);
  }

  lemma SameCount(days: nat, d: Date, y: int, doy: int)
    requires ValidDate(d) && MarchYear(d) == y && MarchDayOfYear(d) == doy
    requires days + 719468 == MarchYearStart(y) + doy
    ensures Days(d) == days
  {
    MarchCount(d);
  }

  lemma ClockRoundTrip(days: nat, hour: int, minute: int, second: int)
    requires 0 <= hour < 24 && 0 <= minute < 60 && 0 <= second < 60
    ensures var n := days * DAY_SECONDS + hour * 3600 + minute * 60 + second;
      var secs := n % DAY_SECONDS;
      n / DAY_SECONDS == days && secs / 3600 == hour && secs / 60 % 60 == minute && secs % 60 == second
  {
    var secs := hour * 3600 + minute * 60 + second;
    var n := days * DAY_SECONDS + secs;
    assert n / DAY_SECONDS == days && n % DAY_SECONDS == secs;
    assert secs / 60 == hour * 60 + minute;
  }

  lemma ClockInverse(n: nat)
    ensures var secs := n % DAY_SECONDS;
      && 0 <= secs / 3600 < 24
      && n / DAY_SECONDS * DAY_SECONDS + secs / 3600 * 3600 + secs / 60 % 60 * 60 + secs % 60 == n
  {
    var secs := n % DAY_SECONDS;
    assert secs / 60 / 60 == secs / 3600;
  }

  /** ROUND TRIP, seconds: `format_time` and `rtc_unix_time` undo each other. */
  lemma TimeRoundTrip(t: Time)
    requires ValidTime(t)
    ensures TimeOfSeconds(UnixTime(t)) == t
  {
    ClockRoundTrip(Days(t.date), t.hour, t.minute, t.second);
    DateRoundTrip(t.date);
  }

  lemma SecondsRoundTrip(n: nat)
    ensures ValidTime(TimeOfSeconds(n)) && UnixTime(TimeOfSeconds(n)) == n
  {
    ClockInverse(n);
    DaysRoundTrip(n / DAY_SECONDS);
  }

  // ---------- The day of the week ----------

  const WEEKDAY_OFFSET := [0, 3, 2, 5, 0, 3, 5, 1, 4, 6, 2, 4]

  function Weekday(d: Date): int
    requires 1 <= d.month <= 12
  {
    var y := if d.month < 3 then d.year - 1 else d.year;
    (y + y / 4 - y / 100 + y / 400 + WEEKDAY_OFFSET[d.month - 1] + d.day) % 7
  }

  /** 1970-01-01 was a Thursday, and every day is the next day of the week. */
  lemma WeekdayAgrees(d: Date)
    requires ValidDate(d)
    ensures Weekday(d) == (Days(d) + 4) % 7
  {
    MarchCount(d);
    var y := MarchYear(d);
    LeapsClosed(y + 1);
    var weeks := MonthOffset(d);
    SameWeekday(y + LeapsBefore(y + 1) + WEEKDAY_OFFSET[d.month - 1] + d.day, 52 * y + weeks - 102781);
  }

  lemma MonthOffset(d: Date) returns (weeks: int)
    requires 1 <= d.month <= 12
    ensures MarchDayOfYear(d) + 3 == WEEKDAY_OFFSET[d.month - 1] + d.day + 7 * weeks
  {
    weeks := (MarchDays(MarchMonth(d)) + 2 - WEEKDAY_OFFSET[d.month - 1]) / 7;
    assert d.month in {1, 2, 3, 4, 5, 6, 7, 8, 9, 10, 11, 12};
  }

  lemma SameWeekday(n: int, weeks: int)
    ensures (n + 7 * weeks) % 7 == n % 7
  {
  }

  lemma SameDay(d: Date, e: Date)
    requires ValidDate(d) && ValidDate(e) && Days(d) == Days(e)
    ensures d == e
  {
    DateRoundTrip(d);
    DateRoundTrip(e);
  }

  lemma DayBefore(d: Date) returns (e: Date)
    requires ValidDate(d) && Days(d) > 0
    ensures ValidDate(e) && Days(e) == Days(d) - 1 && NextDay(e) == d
  {
    e := DateOfDays(Days(d) - 1);
    DaysRoundTrip(Days(d) - 1);
    DaysFollowCalendar(e);
    SameDay(NextDay(e), d);
  }

  /** Nothing else does: a count that starts at 0 and goes up by one a day is this one. */
  lemma {:induction false} OnlyDays(count: Date -> int, d: Date)
    requires ValidDate(d) && count(Date(1970, 1, 1)) == 0
    requires forall e :: ValidDate(e) ==> count(NextDay(e)) == count(e) + 1
    ensures count(d) == Days(d)
    decreases Days(d)
  {
    if Days(d) == 0 {
      DaysFollowCalendar(d);
      SameDay(d, Date(1970, 1, 1));
    } else {
      var e := DayBefore(d);
      OnlyDays(count, e);
    }
  }

  // ---------- In 32 bits ----------

  /** A date of any year. */
  predicate ValidFields(t: Time) {
    && 1 <= t.date.month <= 12 && 1 <= t.date.day <= DaysInMonth(t.date.year, t.date.month)
    && 0 <= t.hour < 24 && 0 <= t.minute < 60 && 0 <= t.second < 60
  }

  /** The days `rtc_unix_time` counts: before 1970, those of that year alone. */
  method CountDays(d: Date) returns (days: Word)
    requires 1 <= d.month <= 12 && 1 <= d.day <= DaysInMonth(d.year, d.month) && 0 <= d.year < 65536
    ensures days == if d.year >= EPOCH then Days(d) else DayOfYear(d)
  {
    days := 0;
    var y := EPOCH;
    while y < d.year
      invariant EPOCH <= y && (y <= d.year || y == EPOCH)
      invariant days == DaysBeforeYear(y) && days <= 366 * (y - EPOCH)
    {
      days := days + if y % 4 == 0 && (y % 100 != 0 || y % 400 == 0) then 366 else 365;
      y := y + 1;
    }
    days := days + DaysBeforeMonth(d.month) + d.day - 1;
    if Leap(d.year) && d.month > 2 {
      days := days + 1;
    }
  }

  /** `rtc_unix_time` as the machine computes it: the year is 16 bits, the result 32. */
  method UnixTimeOf(t: Time) returns (n: Word)
    requires ValidFields(t) && 0 <= t.date.year < 65536
    ensures t.date.year >= EPOCH ==> n == UnixTime(t) % WORD_SIZE && (n == UnixTime(t) <==> UnixTime(t) < WORD_SIZE)
    ensures t.date.year < EPOCH ==>
      n == DayOfYear(t.date) * DAY_SECONDS + t.hour * 3600 + t.minute * 60 + t.second
  {
    var days := CountDays(t.date);
    n := Wrap(days * DAY_SECONDS + t.hour * 3600 + t.minute * 60 + t.second);
  }

  /** No 32-bit wrap up to the end of the year 2105. */
  lemma FitsThrough2105(t: Time)
    requires ValidTime(t) && t.date.year <= 2105
    ensures UnixTime(t) < WORD_SIZE
  {
    YearLoopClosed(t.date.year);
    LeapsClosed(t.date.year);
    assert DayOfYear(t.date) < 366;
  }

  /** `format_time` as the machine computes it: no step leaves the 32-bit range. */
  method CivilDate(days: Word) returns (d: Date)
    requires days < 50000
    ensures d == DateOfDays(days)
  {
    var z: Word := days + 719468;
    var era: Word := z / 146097;
    var doe: Word := z - era * 146097;
    var yoe, doy := YearAndDay(doe);
    d := MonthAndDay(yoe + era * 400, doy);
  }

  method YearAndDay(doe: Word) returns (yoe: Word, doy: Word)
    requires doe < 146097
    ensures yoe == YearInEra(doe) && doy == DayInYear(doe, yoe) && yoe < 400 && doy <= 365
  {
    ghost var c, q, r, d := SplitEra(doe);
    YearOfEra(c, q, r, d);
    yoe := (doe - doe / 1460 + doe / 36524 - doe / 146096) / 365;
    doy := doe - (365 * yoe + yoe / 4 - yoe / 100);
  }

  method MonthAndDay(y: Word, doy: Word) returns (d: Date)
    requires doy <= 365 && y < 10000
    ensures d == FromMarch(y, doy)
  {
    var mp: Word := (5 * doy + 2) / 153;
    MonthOfDay(doy);
    var day: Word := doy - (153 * mp + 2) / 5 + 1;
    var month: Word := if mp < 10 then mp + 3 else mp - 9;
    var year: Word := y + if month <= 2 then 1 else 0;
    d := Date(year, month, day);
  }

  method CivilTime(t: Word) returns (c: Time)
    ensures c == TimeOfSeconds(t) && ValidTime(c) && UnixTime(c) == t
  {
    var days: Word, secs: Word := t / 86400, t % 86400;
    var date := CivilDate(days);
    c := Time(date, secs / 3600, secs / 60 % 60, secs % 60);
    SecondsRoundTrip(t);
  }

  // ---------- Reading the clock chip ----------

  /** What the clock chip holds, with the two flags of status B that say how to read it. */
  datatype Raw = Raw(second: Byte, minute: Byte, hour: Byte, day: Byte, month: Byte, year: Byte, binary: bool,
    hour24: bool)

  function FromBcd(v: Byte): Byte {
    v / 16 * 10 + v % 16
  }

  function Number(v: Byte, binary: bool): Byte {
    if binary then v else FromBcd(v)
  }

  datatype Reading = Refused | Accepted(time: Time, weekday: int)

  /** Only real dates of this century leave the driver. */
  predicate TimeOk(t: Time) {
    2000 <= t.date.year <= 2099 && ValidTime(t)
  }

  /** On a 12-hour clock bit 7 means PM, 12 AM is 0 and 1 PM is 13. */
  function DecodeHour(v: Byte, binary: bool, hour24: bool): int {
    var h := Number(v % 128, binary);
    if hour24 then h else (if h == 12 then 0 else h) + if v >= 128 then 12 else 0
  }

  function DecodeTime(raw: Raw): Time {
    Time(Date(2000 + Number(raw.year, raw.binary), Number(raw.month, raw.binary), Number(raw.day, raw.binary)),
         DecodeHour(raw.hour, raw.binary, raw.hour24), Number(raw.minute, raw.binary), Number(raw.second, raw.binary))
  }

  function Decode(raw: Raw): Reading {
    var t := DecodeTime(raw);
    if TimeOk(t) then Accepted(t, Weekday(t.date)) else Refused
  }

  function ToRegister(n: int, binary: bool): Byte
    requires 0 <= n < 100
  {
    if binary then n else n / 10 * 16 + n % 10
  }

  function EncodeHour(hour: int, binary: bool, hour24: bool): Byte
    requires 0 <= hour < 24
  {
    if hour24 then ToRegister(hour, binary)
    else ToRegister(if hour % 12 == 0 then 12 else hour % 12, binary) + if hour >= 12 then 128 else 0
  }

  /** How a chip in the given mode shows a time. */
  function Encode(t: Time, binary: bool, hour24: bool): Raw
    requires TimeOk(t)
  {
    Raw(ToRegister(t.second, binary), ToRegister(t.minute, binary), EncodeHour(t.hour, binary, hour24),
        ToRegister(t.date.day, binary), ToRegister(t.date.month, binary), ToRegister(t.date.year - 2000, binary),
        binary, hour24)
  }

  lemma RegisterRoundTrip(n: int, binary: bool)
    requires 0 <= n < 100
    ensures Number(ToRegister(n, binary), binary) == n
  {
  }

  lemma HourRegister(n: int, binary: bool)
    requires 0 <= n < 24
    ensures var v := ToRegister(n, binary);
      v < 128 && v % 128 == v && (v + 128) % 128 == v && Number(v, binary) == n
  {
  }

  lemma HourRoundTrip(hour: int, binary: bool, hour24: bool)
    requires 0 <= hour < 24
    ensures DecodeHour(EncodeHour(hour, binary, hour24), binary, hour24) == hour
  {
    if hour24 {
      HourRegister(hour, binary);
    } else {
      var h12 := if hour % 12 == 0 then 12 else hour % 12;
      assert h12 == if hour == 0 then 12 else if hour <= 12 then hour else hour - 12;
      HourRegister(h12, binary);
    }
  }

  /** Whatever mode the chip is in, its time is read back, with the right weekday. */
  lemma DecodeEncode(t: Time, binary: bool, hour24: bool)
    requires TimeOk(t)
    ensures Decode(Encode(t, binary, hour24)) == Accepted(t, (Days(t.date) + 4) % 7)
  {
    EncodedFields(t, binary, hour24);
    WeekdayAgrees(t.date);
  }

  /** A reading leaves the driver if and only if it is a real date and time of 2000 to 2099. */
  lemma AcceptedExactly(raw: Raw)
    ensures
      var t := DecodeTime(raw);
      var feb := if t.date.year % 4 == 0 then 29 else 28;
      Decode(raw).Accepted? <==>
        && 2000 <= t.date.year <= 2099 && 1 <= t.date.month <= 12
        && 1 <= t.date.day <= [31, feb, 31, 30, 31, 30, 31, 31, 30, 31, 30, 31][t.date.month - 1]
        && 0 <= t.hour <= 23 && 0 <= t.minute <= 59 && 0 <= t.second <= 59
    ensures Decode(raw).Accepted? ==> Decode(raw).time == DecodeTime(raw)
  {
    var t := DecodeTime(raw);
    if 2000 <= t.date.year <= 2099 {
      assert Leap(t.date.year) <==> t.date.year % 4 == 0;
    }
  }

  lemma EncodedFields(t: Time, binary: bool, hour24: bool)
    requires TimeOk(t)
    ensures DecodeTime(Encode(t, binary, hour24)) == t
  {
    RegisterRoundTrip(t.second, binary);
    RegisterRoundTrip(t.minute, binary);
    RegisterRoundTrip(t.date.day, binary);
    RegisterRoundTrip(t.date.month, binary);
    RegisterRoundTrip(t.date.year - 2000, binary);
    HourRoundTrip(t.hour, binary, hour24);
  }
}
