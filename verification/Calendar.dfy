/** Calendar arithmetic: a day-by-day calendar as the reference, and the closed formulas of
    components/clock/date_time.cpp proved against it. */
module Calendar {
  import opened Words

  const SECONDS_DAY := 86400
  const SEC_1970_TO_2000 := 946684800

  /** Days from 1970-01-01 to 2000-01-01, to 2100-02-28 and to 2100-12-31. */
  const DAY_2000 := 10957
  const LAST_GOOD_DAY := 47540
  const LAST_DAY_2100 := 47846

  datatype Date = Date(year: int, month: int, day: int)

  // ----- the day-by-day reference -----

  /** Leap years; the Julian rule makes every fourth year one (date_time.cpp:170-181 is Gregorian). */
  predicate LeapYear(year: int, gregorian: bool) {
    year % 4 == 0 && (!gregorian || year % 100 != 0 || year % 400 == 0)
  }

  function MonthLength(year: int, month: int, gregorian: bool): (n: int)
    requires 1 <= month <= 12
  {
    [31, 28, 31, 30, 31, 30, 31, 31, 30, 31, 30, 31][month - 1] +
    if month == 2 && LeapYear(year, gregorian) then 1 else 0
  }

  predicate ValidDate(d: Date, gregorian: bool) {
    1 <= d.month <= 12 && 1 <= d.day <= MonthLength(d.year, d.month, gregorian)
  }

  function NextDay(d: Date, gregorian: bool): Date
    requires ValidDate(d, gregorian)
  {
    if d.day < MonthLength(d.year, d.month, gregorian) then d.(day := d.day + 1)
    else if d.month < 12 then Date(d.year, d.month + 1, 1)
    else Date(d.year + 1, 1, 1)
  }

  /** The date n days after 1970-01-01. */
  function DateOf(n: nat, gregorian: bool): (d: Date)
    ensures ValidDate(d, gregorian)
  {
    if n == 0 then Date(1970, 1, 1) else NextDay(DateOf(n - 1, gregorian), gregorian)
  }

  // ----- the setter's formulas (date_time.cpp:84-91) -----

  function YearOf(days: nat): nat {
    (days * 4 + 2) / 1461
  }

  function YearStart(years: nat): nat {
    (years * 1461 + 1) / 4
  }

  /** Days into the year, with February stretched to 30 days. */
  function Stretched(day: int, leap: bool): int {
    var limit := if leap then 59 else 58;
    day + if day > limit then (if leap then 1 else 2) else 0
  }

  function MonthOf(stretched: int): int {
    (stretched * 12 + 6) / 367 + 1
  }

  function MonthStart(month: int): int {
    ((month - 1) * 367 + 5) / 12
  }

  function DateInYear(year: int, day: int): Date {
    var s := Stretched(day, year % 4 == 0);
    var month := MonthOf(s);
    Date(year, month, s + 1 - MonthStart(month))
  }

  function FromDays(days: nat): Date {
    var years := YearOf(days);
    DateInYear(years + 1970, days - YearStart(years))
  }

  // ----- the setter's formulas count days one by one, every fourth year being leap -----

  function YearLength(year: int): int {
    if year % 4 == 0 then 366 else 365
  }

  /** Where a year starts, by its place in a cycle of four. */
  lemma YearStartAt(q: nat, r: nat)
    requires r < 4
    ensures YearStart(4 * q + r) == 1461 * q + [0, 365, 730, 1096][r]
  {
  }

  lemma YearOfAt(q: nat, r: nat, day: nat)
    requires r < 4 && day < if r == 2 then 366 else 365
    ensures YearOf(1461 * q + [0, 365, 730, 1096][r] + day) == 4 * q + r
  {
  }

  lemma YearLengthAt(q: nat, r: nat)
    requires r < 4
    ensures YearLength(4 * q + r + 1970) == if r == 2 then 366 else 365
  {
    assert (4 * q + r + 1970) % 4 == (r + 2) % 4;
  }

  /** The place of a day in a cycle of four years. */
  lemma PlaceOf(n: nat) returns (q: nat, r: nat, day: nat)
    ensures r < 4 && day < (if r == 2 then 366 else 365) && n == 1461 * q + [0, 365, 730, 1096][r] + day
  {
    q := n / 1461;
    var rest := n - 1461 * q;
    r := if rest < 365 then 0 else if rest < 730 then 1 else if rest < 1096 then 2 else 3;
    day := rest - [0, 365, 730, 1096][r];
  }

  lemma YearStep(n: nat)
    ensures var y := YearOf(n);
            var day := n - YearStart(y);
            && 0 <= day < YearLength(y + 1970)
            && (day + 1 < YearLength(y + 1970) ==> YearOf(n + 1) == y)
            && (day + 1 == YearLength(y + 1970) ==> YearOf(n + 1) == y + 1 && YearStart(y + 1) == n + 1)
  {
    var q, r, day := PlaceOf(n);
    var q', r', day' := PlaceOf(n + 1);
    YearOfAt(q, r, day);
    YearOfAt(q', r', day');
    YearStartAt(q, r);
    YearStartAt(q', r');
    YearLengthAt(q, r);
    assert 4 * q' + r' == if day' == 0 then 4 * q + r + 1 else 4 * q + r;
  }

  /** Days of the year before the first of the month, every fourth year being leap. */
  function DaysBefore(year: int, month: int): int
    requires 1 <= month <= 12
  {
    [0, 31, 59, 90, 120, 151, 181, 212, 243, 273, 304, 334][month - 1] +
    if month > 2 && year % 4 == 0 then 1 else 0
  }

  lemma MonthBounds(s: int, month: int)
    requires 1 <= month <= 12
    ensures MonthStart(month) == [0, 31, 61, 92, 122, 153, 183, 214, 245, 275, 306, 336][month - 1]
    ensures var length := if month in {2, 4, 6, 9, 11} then 30 else 31;
            MonthStart(month) <= s < MonthStart(month) + length ==> MonthOf(s) == month
  {
  }

  lemma StretchedStart(year: int, month: int, day: int)
    requires 1 <= month <= 12 && 1 <= day <= MonthLength(year, month, false)
    ensures Stretched(DaysBefore(year, month) + day - 1, year % 4 == 0) == MonthStart(month) + day - 1
  {
    MonthBounds(0, month);
  }

  /** The formula splits a day of the year into month and day as the table of month lengths does. */
  lemma DateInMonth(year: int, month: int, day: int)
    requires 1 <= month <= 12 && 1 <= day <= MonthLength(year, month, false)
    ensures DateInYear(year, DaysBefore(year, month) + day - 1) == Date(year, month, day)
    ensures 0 <= DaysBefore(year, month) + day - 1 < YearLength(year)
  {
    StretchedStart(year, month, day);
    MonthBounds(MonthStart(month) + day - 1, month);
  }

  lemma SplitDay(year: int, n: int) returns (month: int, day: int)
    requires 0 <= n < YearLength(year)
    ensures 1 <= month <= 12 && 1 <= day <= MonthLength(year, month, false)
    ensures n == DaysBefore(year, month) + day - 1
  {
    month := 12;
    while n < DaysBefore(year, month)
      invariant 1 <= month <= 12
      invariant month < 12 ==> n < DaysBefore(year, month + 1)
    {
      month := month - 1;
    }
    day := n - DaysBefore(year, month) + 1;
  }

  lemma NextInYear(year: int, month: int, day: int)
    requires 1 <= month <= 12 && 1 <= day <= MonthLength(year, month, false)
    ensures var n := DaysBefore(year, month) + day - 1;
            NextDay(Date(year, month, day), false) ==
            if n + 1 < YearLength(year) then DateInYear(year, n + 1) else Date(year + 1, 1, 1)
  {
    if day < MonthLength(year, month, false) {
      DateInMonth(year, month, day + 1);
    } else if month < 12 {
      DateInMonth(year, month + 1, 1);
    }
  }

  lemma DayStep(year: int, n: int)
    requires 0 <= n < YearLength(year)
    ensures var d := DateInYear(year, n);
            && d.year == year && ValidDate(d, false)
            && NextDay(d, false) ==
               if n + 1 < YearLength(year) then DateInYear(year, n + 1) else Date(year + 1, 1, 1)
  {
    var month, day := SplitDay(year, n);
    DateInMonth(year, month, day);
    NextInYear(year, month, day);
  }

  /** g counts the days of a year, and leads from its last day to the first of the next. */
  ghost predicate CountsYear(g: (int, int) -> Date, year: int, day: int) {
    && ValidDate(g(year, day), false)
    && NextDay(g(year, day), false) == if day + 1 < YearLength(year) then g(year, day + 1) else g(year + 1, 0)
  }

  lemma YearByYear(g: (int, int) -> Date, n: nat)
    requires forall year, day :: 0 <= day < YearLength(year) ==> CountsYear(g, year, day)
    ensures var y, y' := YearOf(n), YearOf(n + 1);
            var d := g(y + 1970, n - YearStart(y));
            ValidDate(d, false) && NextDay(d, false) == g(y' + 1970, n + 1 - YearStart(y'))
  {
    YearStep(n);
    assert CountsYear(g, YearOf(n) + 1970, n - YearStart(YearOf(n)));
  }

  lemma FormulaCountsYear(year: int, day: int)
    requires 0 <= day < YearLength(year)
    ensures CountsYear(DateInYear, year, day)
  {
    DayStep(year, day);
    DateInMonth(year + 1, 1, 1);
  }

  lemma {:induction false} YearsCount(g: (int, int) -> Date, n: nat)
    requires forall year, day :: 0 <= day < YearLength(year) ==> CountsYear(g, year, day)
    requires g(1970, 0) == Date(1970, 1, 1)
    ensures g(YearOf(n) + 1970, n - YearStart(YearOf(n))) == DateOf(n, false)
  {
    if n == 0 {
      assert YearOf(0) == 0 && YearStart(0) == 0;
    } else {
      YearsCount(g, n - 1);
      YearByYear(g, n - 1);
    }
  }

  /** The formulas count day by day, every fourth year being leap. */
  lemma FormulaIsJulian(n: nat)
    ensures FromDays(n) == DateOf(n, false)
  {
    forall year, day | 0 <= day < YearLength(year) ensures CountsYear(DateInYear, year, day) {
      FormulaCountsYear(year, day);
    }
    DateInMonth(1970, 1, 1);
    YearsCount(DateInYear, n);
  }

  // ----- the Gregorian calendar -----

  lemma Decompose(n: nat) returns (month: int, day: int)
    ensures var year := YearOf(n) + 1970;
            && 1 <= month <= 12 && 1 <= day <= MonthLength(year, month, false)
            && FromDays(n) == Date(year, month, day)
            && n == YearStart(YearOf(n)) + DaysBefore(year, month) + day - 1
  {
    YearStep(n);
    month, day := SplitDay(YearOf(n) + 1970, n - YearStart(YearOf(n)));
    DateInMonth(YearOf(n) + 1970, month, day);
  }

  /** The two calendars go on from a date alike unless it is the end of February 2100. */
  lemma SameNextDay(d: Date)
    requires ValidDate(d, false) && 1970 <= d.year < 2200
    requires !(d.year == 2100 && d.month == 2 && d.day >= 28)
    ensures ValidDate(d, true) && NextDay(d, true) == NextDay(d, false)
  {
  }

  lemma WhereIs(n: nat)
    requires n < 49720
    ensures var d := DateOf(n, false);
            && 1970 <= d.year < 2200
            && (d.year == 2100 && d.month == 2 && d.day >= 28 <==> n == LAST_GOOD_DAY || n == LAST_GOOD_DAY + 1)
  {
    var month, day := Decompose(n);
    FormulaIsJulian(n);
    assert YearOf(n) <= 136;
    EndOfFebruary(n, YearOf(n), month, day);
  }

  lemma EndOfFebruary(n: nat, years: nat, month: int, day: int)
    requires 1 <= month <= 12 && 1 <= day <= MonthLength(years + 1970, month, false)
    requires n == YearStart(years) + DaysBefore(years + 1970, month) + day - 1 && years == YearOf(n)
    ensures years == 130 && month == 2 && day >= 28 <==> n == LAST_GOOD_DAY || n == LAST_GOOD_DAY + 1
  {
    if years == 130 {
      assert YearStart(130) == LAST_GOOD_DAY - 58;
    }
  }

  lemma GregorianStep(n: nat)
    requires n < 49720 && n != LAST_GOOD_DAY && n != LAST_GOOD_DAY + 1
    ensures var d := DateOf(n, false);
            ValidDate(d, true) && NextDay(d, true) == DateOf(n + 1, false)
  {
    WhereIs(n);
    SameNextDay(DateOf(n, false));
  }

  lemma {:induction false} GregorianUntil2100(n: nat)
    requires n <= LAST_GOOD_DAY
    ensures DateOf(n, true) == DateOf(n, false)
  {
    if n > 0 {
      GregorianUntil2100(n - 1);
      GregorianStep(n - 1);
    }
  }

  lemma YearAndDay(n: nat, years: nat, month: int, day: int)
    requires 1 <= month <= 12 && 1 <= day <= MonthLength(years + 1970, month, false)
    requires n == YearStart(years) + DaysBefore(years + 1970, month) + day - 1 && YearOf(n) == years
    ensures DateOf(n, false) == Date(years + 1970, month, day)
  {
    assert FromDays(n) == Date(years + 1970, month, day) by {
      DateInMonth(years + 1970, month, day);
    }
    FormulaIsJulian(n);
  }

  lemma LastGoodDate(n: nat)
    requires n == LAST_GOOD_DAY
    ensures DateOf(n, true) == Date(2100, 2, 28)
  {
    assert YearOf(n) == 130 && YearStart(130) == n - 58;
    YearAndDay(n, 130, 2, 28);
    GregorianUntil2100(n);
  }

  lemma SecondBadDate(n: nat)
    requires n == LAST_GOOD_DAY + 2
    ensures DateOf(n, false) == Date(2100, 3, 1)
  {
    assert YearOf(n) == 130 && YearStart(130) == n - 60;
    YearAndDay(n, 130, 3, 1);
  }

  lemma FirstDayBehind(n: nat)
    requires n == LAST_GOOD_DAY + 1
    ensures DateOf(n, true) == DateOf(n + 1, false)
  {
    LastGoodDate(n - 1);
    SecondBadDate(n + 1);
    LeapRuleParts(n);
  }

  lemma LeapRuleParts(n: nat)
    requires n > 0 && DateOf(n - 1, true) == Date(2100, 2, 28) && DateOf(n + 1, false) == Date(2100, 3, 1)
    ensures DateOf(n, true) == DateOf(n + 1, false)
  {
  }

  /** From 2100-03-01 to the end of the 32-bit range the Julian rule is one day behind. */
  lemma {:induction false} GregorianAfter2100(n: nat)
    requires LAST_GOOD_DAY < n < 49719
    ensures DateOf(n, true) == DateOf(n + 1, false)
  {
    if n == LAST_GOOD_DAY + 1 {
      FirstDayBehind(n);
    } else {
      GregorianAfter2100(n - 1);
      GregorianStep(n);
    }
  }

  /** The setter's date is the Gregorian one exactly up to 28 February 2100. */
  lemma FormulaIsGregorianIff(n: nat)
    requires n < 49719
    ensures FromDays(n) == DateOf(n, true) <==> n <= LAST_GOOD_DAY
  {
    FormulaIsJulian(n);
    if n <= LAST_GOOD_DAY {
      GregorianUntil2100(n);
    } else {
      GregorianAfter2100(n);
    }
  }

  // ----- the two unix_time functions as a whole -----

  datatype Fields = Fields(date: Date, hour: int, minute: int, second: int)

  predicate ValidTime(f: Fields) {
    0 <= f.hour < 24 && 0 <= f.minute < 60 && 0 <= f.second < 60
  }

  /** Seconds since 1970 in local time, as the 32-bit sum computes it. */
  function Local(ut: int, fuse: int): (t: nat)
    ensures t < WORD32
  {
    (ut + fuse * 3600) % WORD32
  }

  function FromUnix(ut: int, fuse: int): Fields {
    var days, secs := Local(ut, fuse) / SECONDS_DAY, Local(ut, fuse) % SECONDS_DAY;
    Fields(FromDays(days), secs / 60 / 60, secs / 60 % 60, secs % 60)
  }

  /** f is what a Gregorian clock shows t seconds after 1970-01-01 00:00:00 local time. */
  ghost predicate Shows(f: Fields, t: nat) {
    && ValidTime(f)
    && f.date == DateOf(t / SECONDS_DAY, true)
    && t % SECONDS_DAY == f.hour * 3600 + f.minute * 60 + f.second
  }

  lemma SetterShowsLocalTime(ut: int, fuse: int)
    ensures Shows(FromUnix(ut, fuse), Local(ut, fuse)) <==> Local(ut, fuse) < (LAST_GOOD_DAY + 1) * SECONDS_DAY
  {
    var t := Local(ut, fuse);
    FormulaIsGregorianIff(t / SECONDS_DAY);
    TimeOfDay(t % SECONDS_DAY);
  }

  lemma TimeOfDay(secs: nat)
    requires secs < SECONDS_DAY
    ensures secs / 60 / 60 < 24
    ensures secs == secs / 60 / 60 * 3600 + secs / 60 % 60 * 60 + secs % 60
  {
  }

  /** Division that truncates toward zero, as in C. */
  function DivC(a: int, b: int): int
    requires b > 0
  {
    if a >= 0 then a / b else -(-a / b)
  }

  function PlainDaysBefore(month: int): int
    requires 1 <= month <= 12
  {
    [0, 31, 59, 90, 120, 151, 181, 212, 243, 273, 304, 334][month - 1]
  }

  /** The day count since 2000-01-01, before it is stored in 16 bits (date_time.cpp:140-146). */
  function DayCount(d: Date): int
    requires 1 <= d.month <= 12
  {
    d.day + PlainDaysBefore(d.month) + (if d.month > 2 && LeapYear(d.year, true) then 1 else 0) +
    365 * (d.year - 2000) + DivC(d.year - 2000 + 3, 4) - 1
  }

  function ToUnix(f: Fields, fuse: int): int
    requires 1 <= f.date.month <= 12
  {
    var dc := DayCount(f.date) % WORD16;
    ((((dc * 24 + f.hour) * 60 + f.minute) * 60 + f.second) - fuse * 3600 + SEC_1970_TO_2000) % WORD32
  }

  /** What the getter counts for the n-th day as the setter dates it. */
  lemma CountsDays(n: nat)
    requires n < 49720
    ensures var d := FromDays(n);
            && 1 <= d.month <= 12 && (d.year >= 2000 <==> n >= DAY_2000)
            && (d.year >= 2000 ==> DayCount(d) == n - DAY_2000 - if d.year == 2100 && d.month > 2 then 1 else 0)
            && (d.year < 2000 ==> -11000 < DayCount(d) < 0)
  {
    var month, day := Decompose(n);
    YearStartFrom2000(YearOf(n));
  }

  lemma YearStartFrom2000(years: int)
    requires 0 <= years
    ensures years >= 30 ==> YearStart(years) == DAY_2000 + 365 * (years - 30) + (years - 30 + 3) / 4
    ensures years < 30 ==> YearStart(years) + YearLength(years + 1970) <= DAY_2000
  {
  }

  lemma ToUnixOfDay(f: Fields, fuse: int, n: int, t: int)
    requires 1 <= f.date.month <= 12
    requires t == n * SECONDS_DAY + f.hour * 3600 + f.minute * 60 + f.second
    requires -11000 < DayCount(f.date) < WORD16 && -20 <= n < 49720
    ensures DayCount(f.date) == n - DAY_2000 && DayCount(f.date) >= 0 ==>
              ToUnix(f, fuse) == (t - fuse * 3600) % WORD32
    ensures DayCount(f.date) != n - DAY_2000 && DayCount(f.date) >= -1 && n - DAY_2000 >= -1 ==>
              ToUnix(f, fuse) != (t - fuse * 3600) % WORD32
    ensures DayCount(f.date) < 0 ==> ToUnix(f, fuse) != (t - fuse * 3600) % WORD32
  {
    var dc := DayCount(f.date) % WORD16;
    var right := t - fuse * 3600;
    var got := right + (dc + DAY_2000 - n) * SECONDS_DAY;
    assert got == (((dc * 24 + f.hour) * 60 + f.minute) * 60 + f.second) - fuse * 3600 + SEC_1970_TO_2000;
    SameRemainder(right, dc + DAY_2000 - n);
  }

  /** Adding k whole days changes a 32-bit time unless k is 0 (or about 92 years too large to occur). */
  lemma SameRemainder(t: int, k: int)
    requires -0x8_0000 < k < 0x8_0000
    ensures (t + k * SECONDS_DAY) % WORD32 == t % WORD32 <==> k == 0
  {
  }

  lemma LocalInverse(t: nat, ut: int, fuse: int)
    requires t < WORD32
    ensures ut == (t - fuse * 3600) % WORD32 ==> Local(ut, fuse) == t
    ensures 0 <= ut < WORD32 && t == Local(ut, fuse) ==> ut == (t - fuse * 3600) % WORD32
  {
  }

  /** Getting back the time that was set: right for 2000 and later, except from March to December
      2100, where the getter's leap year rule no longer fits the setter's. */
  lemma SetThenGetIff(ut: nat, fuse: int)
    requires ut < WORD32
    ensures var f := FromUnix(ut, fuse);
            && 1 <= f.date.month <= 12
            && (f.date.year >= 2000 ==> 0 <= DayCount(f.date) < WORD16)
            && (ToUnix(f, fuse) == ut
                <==> f.date.year >= 2000 && !(f.date.year == 2100 && f.date.month > 2))
  {
    var t := Local(ut, fuse);
    var f := FromUnix(ut, fuse);
    CountsDays(t / SECONDS_DAY);
    TimeOfDay(t % SECONDS_DAY);
    ToUnixOfDay(f, fuse, t / SECONDS_DAY, t);
    LocalInverse(t, ut, fuse);
  }

  /** Days from 1970-01-01 to d, every fourth year being leap. */
  function DayNumber(d: Date): int
    requires 1 <= d.month <= 12 && d.year >= 1970
  {
    YearStart(d.year - 1970) + DaysBefore(d.year, d.month) + d.day - 1
  }

  lemma FromDayNumber(d: Date)
    requires ValidDate(d, true) && d.year >= 1970
    ensures DayNumber(d) >= 0 && FromDays(DayNumber(d)) == d
  {
    DateInMonth(d.year, d.month, d.day);
    YearOfDay(d.year - 1970, DaysBefore(d.year, d.month) + d.day - 1);
  }

  lemma YearOfDay(years: nat, day: nat)
    requires day < YearLength(years + 1970)
    ensures YearOf(YearStart(years) + day) == years
  {
  }

  function TimeOf(f: Fields): int {
    f.hour * 3600 + f.minute * 60 + f.second
  }

  lemma SplitTime(f: Fields, n: nat, t: nat)
    requires ValidTime(f) && t == n * SECONDS_DAY + TimeOf(f)
    ensures t / SECONDS_DAY == n && t % SECONDS_DAY == TimeOf(f)
    ensures TimeOf(f) / 60 / 60 == f.hour && TimeOf(f) / 60 % 60 == f.minute && TimeOf(f) % 60 == f.second
  {
  }

  /** The date and time f, on day n, at t seconds of local time. */
  ghost predicate IsAt(f: Fields, n: nat, t: nat) {
    && ValidDate(f.date, true) && ValidTime(f) && f.date.year >= 2000
    && n == DayNumber(f.date) && t == n * SECONDS_DAY + TimeOf(f) && t < WORD32
  }

  /** The count fits 16 bits and is one day behind from March to December 2100. */
  lemma CountOf(f: Fields, n: nat, t: nat)
    requires IsAt(f, n, t)
    ensures FromDays(n) == f.date && n < 49720 && 0 <= DayCount(f.date) < WORD16
    ensures DayCount(f.date) == n - DAY_2000 - if f.date.year == 2100 && f.date.month > 2 then 1 else 0
  {
    FromDayNumber(f.date);
    CountsDays(n);
  }

  lemma GetThenSet(f: Fields, fuse: int, n: nat, t: nat)
    requires IsAt(f, n, t) && !(f.date.year == 2100 && f.date.month > 2)
    ensures FromUnix(ToUnix(f, fuse), fuse) == f
  {
    CountOf(f, n, t);
    ToUnixOfDay(f, fuse, n, t);
    LocalInverse(t, ToUnix(f, fuse), fuse);
    SplitTime(f, n, t);
  }

  lemma DayBeforeDiffers(n: nat)
    requires n > 0
    ensures FromDays(n - 1) != FromDays(n)
  {
    FormulaIsJulian(n - 1);
    FormulaIsJulian(n);
  }

  lemma GetThenSetBehind(f: Fields, fuse: int, n: nat, t: nat)
    requires IsAt(f, n, t) && f.date.year == 2100 && f.date.month > 2
    ensures n > 0 && Local(ToUnix(f, fuse), fuse) == t - SECONDS_DAY
  {
    CountOf(f, n, t);
    ToUnixOfDay(f, fuse, n - 1, t - SECONDS_DAY);
    LocalInverse(t - SECONDS_DAY, ToUnix(f, fuse), fuse);
  }

  lemma GetThenSetFails(f: Fields, fuse: int, n: nat, t: nat)
    requires IsAt(f, n, t) && f.date.year == 2100 && f.date.month > 2
    ensures FromUnix(ToUnix(f, fuse), fuse).date != f.date
  {
    CountOf(f, n, t);
    GetThenSetBehind(f, fuse, n, t);
    SplitTime(f, n - 1, t - SECONDS_DAY);
    DayBeforeDiffers(n);
  }

  /** Setting what was got: every date and time from 2000 on that fits 32 bits comes back, except
      from March to December 2100. */
  lemma GetThenSetIff(f: Fields, fuse: int)
    requires ValidDate(f.date, true) && ValidTime(f) && f.date.year >= 2000
    requires DayNumber(f.date) * SECONDS_DAY + TimeOf(f) < WORD32
    ensures 0 <= DayCount(f.date) < WORD16
    ensures FromUnix(ToUnix(f, fuse), fuse) == f <==> !(f.date.year == 2100 && f.date.month > 2)
  {
    var n := DayNumber(f.date);
    var t := n * SECONDS_DAY + TimeOf(f);
    CountOf(f, n, t);
    if f.date.year == 2100 && f.date.month > 2 {
      GetThenSetFails(f, fuse, n, t);
    } else {
      GetThenSet(f, fuse, n, t);
    }
  }

  lemma GregorianCount(n: nat)
    requires n < 49719
    ensures var d := DateOf(n, true);
            d.year >= 2000 ==>
              && n >= DAY_2000 - 1 && -1 <= DayCount(d) < WORD16
              && (DayCount(d) == n - DAY_2000 <==> n <= LAST_DAY_2100)
  {
    if n <= LAST_GOOD_DAY {
      GregorianUntil2100(n);
      FormulaIsJulian(n);
      CountsDays(n);
    } else {
      GregorianAfter2100(n);
      FormulaIsJulian(n + 1);
      CountsDays(n + 1);
      EndOf2100(n + 1);
    }
  }

  /** The getter agrees with the day-by-day Gregorian calendar exactly up to the end of 2100. */
  lemma GetterIsGregorianIff(n: nat, f: Fields, fuse: int)
    requires f.date == DateOf(n, true) && f.date.year >= 2000 && ValidTime(f)
    requires n * SECONDS_DAY + TimeOf(f) < WORD32
    ensures ToUnix(f, fuse) == (n * SECONDS_DAY + TimeOf(f) - fuse * 3600) % WORD32 <==> n <= LAST_DAY_2100
  {
    GregorianCount(n);
    ToUnixOfDay(f, fuse, n, n * SECONDS_DAY + TimeOf(f));
  }

  lemma EndOf2100(n: nat)
    requires LAST_GOOD_DAY + 1 < n < 49720
    ensures var d := FromDays(n);
            d.year == 2100 && d.month > 2 <==> n <= LAST_DAY_2100 + 1
  {
    var month, day := Decompose(n);
  }
}
