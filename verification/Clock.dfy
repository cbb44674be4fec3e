/** The objects that keep a date: Date_Time (components/clock/date_time.cpp) in 24-hour mode and
    Clockin (components/clock/include/clockin.hpp) on top of the uptime counter. */
module Clock {
  import opened Calendar
  import opened Words

  function Constrain(n: int, low: int, high: int): (r: int)
    requires low <= high
    ensures low <= r <= high && (low <= n <= high ==> r == n)
    ensures (n < low ==> r == low) && (n > high ==> r == high)
  {
    if n < low then low else if n > high then high else n
  }

  datatype Period = AM | PM | Undefined

  class DateTime {
    const twelveHour: bool
    var period: Period
    var year: int
    var month: int
    var day: int
    var hour: int
    var minute: int
    var second: int
    var fuse: int
    var fuseSec: int

    ghost predicate Valid()
      reads this
    {
      fuseSec == fuse * 3600 && ValidTime(Shown()) && 1 <= month <= 12
    }

    function Shown(): Fields
      reads this
    {
      Fields(Date(year, month, day), hour, minute, second)
    }

    constructor (twelveHour: bool, fuse: int)
      ensures Valid() && this.fuse == fuse && this.twelveHour == twelveHour
      ensures Shown() == Fields(Date(0, 1, 1), 0, 0, 0) && period == if twelveHour then AM else Undefined
    {
      this.twelveHour, period := twelveHour, Undefined;
      this.fuse, fuseSec := fuse, fuse * 3600;
      month := 1;
      hour, minute, second := 0, 0, 0;
      new;
      SetDate(0, 0, 0);
      SetTime(0, 0, 0, Undefined);
    }

    predicate IsLeapYear()
      reads this
      ensures IsLeapYear() <==> LeapYear(year, true)
    {
      if year % 4 != 0 then false
      else if year % 100 != 0 then true
      else if year % 400 != 0 then false
      else true
    }

    method SetYear(yr: int)
      modifies `year
      ensures year == yr
    {
      year := yr;
    }

    method SetMonth(mo: int)
      modifies `month
      ensures month == Constrain(mo, 1, 12)
    {
      month := Constrain(mo, 1, 12);
    }

    method SetDay(da: int)
      requires 1 <= month <= 12
      modifies `day
      ensures day == Constrain(da, 1, MonthLength(year, month, true))
    {
      var maxDay := MONTH_LENGTH[month - 1];
      maxDay := if month == 2 && IsLeapYear() then maxDay + 1 else maxDay;
      day := Constrain(da, 1, maxDay);
    }

    /** Whatever is asked for, the date kept is one of the calendar, and a real date is kept as is. */
    method SetDate(yr: int, mo: int, da: int)
      modifies `year, `month, `day
      ensures year == yr && month == Constrain(mo, 1, 12)
      ensures day == Constrain(da, 1, MonthLength(yr, month, true))
      ensures ValidDate(Shown().date, true)
      ensures ValidDate(Date(yr, mo, da), true) ==> Shown().date == Date(yr, mo, da)
      ensures old(Valid()) ==> Valid()
    {
      SetYear(yr);
      SetMonth(mo);
      SetDay(da);
    }

    /** In 12-hour mode the period is kept, and 12 is added for PM to an hour that is then overwritten:
        the hour asked for is kept as it is, and read back right exactly when it is not PM. */
    method SetHour(hor: int, per: Period)
      modifies `hour, `period
      ensures hour == Constrain(hor, 0, 23)
      ensures period == if !twelveHour then old(period) else if per == Undefined then AM else per
      ensures 0 <= hor < 24 ==> (Hour() == hor <==> !(twelveHour && per == PM))
    {
      if twelveHour {
        period := if per == Undefined then AM else per;
        if period == PM {
          hour := (hour + 12) % WORD8;
        }
      }
      hour := Constrain(hor, 0, 23);
    }

    /** The hour as it is read, in 8 bits. */
    function Hour(): (h: int)
      reads this
      ensures 0 <= hour < 24 && !(twelveHour && period == PM) ==> h == hour
      ensures 0 <= hour < 24 && twelveHour && period == PM ==> h == if hour >= 12 then hour - 12 else hour + 244
    {
      if twelveHour && period == PM then (hour - 12) % WORD8 else hour
    }

    method SetTime(hor: int, min: int, sec: int, per: Period)
      modifies `hour, `minute, `second, `period
      ensures hour == Constrain(hor, 0, 23) && minute == Constrain(min, 0, 59) && second == Constrain(sec, 0, 59)
      ensures period == if !twelveHour then old(period) else if per == Undefined then AM else per
      ensures ValidTime(Shown())
      ensures var f := Fields(Shown().date, hor, min, sec); ValidTime(f) ==> Shown() == f
      ensures old(Valid()) ==> Valid()
    {
      SetHour(hor, per);
      minute := Constrain(min, 0, 59);
      second := Constrain(sec, 0, 59);
    }

    method SetUnixTime(ut0: nat)
      requires Valid() && ut0 < WORD32
      modifies this
      ensures Valid() && fuse == old(fuse) && period == old(period) && Shown() == FromUnix(ut0, fuse)
    {
      var ut := (ut0 + fuseSec) % WORD32;
      var days := ut / SECONDS_DAY;
      var secs := ut % SECONDS_DAY;
      TimeOfDay(secs);
      second := secs % 60;
      var mins := secs / 60;
      hour := mins / 60;
      minute := mins % 60;
      SetDays(days);
      CountsDays(days);
    }

    /** The date part of the setter (date_time.cpp:84-91). */
    method SetDays(n: nat)
      modifies `year, `month, `day
      ensures Shown().date == FromDays(n)
    {
      var days: int := n;
      var years := (days * 4 + 2) / 1461;
      year := years + 1970;
      var leap := if year % 4 == 0 then 1 else 0;
      days := days - (years * 1461 + 1) / 4;
      days := days + if days > 58 + leap then (if leap == 1 then 1 else 2) else 0;
      month := (days * 12 + 6) / 367 + 1;
      day := days + 1 - ((month - 1) * 367 + 5) / 12;
    }

    /** The 16-bit day count since 2000-01-01. */
    method CountDays() returns (dc: nat)
      requires Valid()
      ensures dc == DayCount(Shown().date) % WORD16
    {
      dc := day % WORD16;
      var i := 0;
      while i < month - 1
        invariant 0 <= i <= month - 1
        invariant dc == (day + PlainDaysBefore(i + 1)) % WORD16
      {
        WordSum(day + PlainDaysBefore(i + 1), MONTH_LENGTH[i]);
        dc := (dc + MONTH_LENGTH[i]) % WORD16;
        i := i + 1;
      }
      ghost var sum := day + PlainDaysBefore(month);
      if month > 2 && IsLeapYear() {
        WordSum(sum, 1);
        dc := (dc + 1) % WORD16;
        sum := sum + 1;
      }
      WordSum(sum, 365 * (year - 2000) + DivC(year - 2000 + 3, 4) - 1);
      dc := (dc + 365 * (year - 2000) + DivC(year - 2000 + 3, 4) - 1) % WORD16;
    }

    method GetUnixTime() returns (ut: int)
      requires Valid()
      ensures ut == ToUnix(Shown(), fuse)
    {
      var dc := CountDays();
      ut := ((((dc * 24 + hour) % WORD32 * 60 + minute) % WORD32 * 60 + second) % WORD32 - fuseSec
             + SEC_1970_TO_2000) % WORD32;
      SecondsFold(dc, hour, minute, second, fuseSec);
    }
  }

  lemma WordSum(a: int, b: int)
    ensures (a % WORD16 + b) % WORD16 == (a + b) % WORD16
  {
  }

  lemma SecondsFold(dc: nat, hour: nat, minute: nat, second: nat, fuseSec: int)
    requires dc < WORD16 && hour < 24 && minute < 60 && second < 60
    ensures ((((dc * 24 + hour) % WORD32 * 60 + minute) % WORD32 * 60 + second) % WORD32 - fuseSec
             + SEC_1970_TO_2000) % WORD32 ==
            ((((dc * 24 + hour) * 60 + minute) * 60 + second) - fuseSec + SEC_1970_TO_2000) % WORD32
  {
    var minutes := (dc * 24 + hour) * 60 + minute;
    assert dc * 24 + hour < WORD32 && minutes < WORD32;
    RemainderSum(minutes * 60 + second, SEC_1970_TO_2000 - fuseSec);
  }

  lemma RemainderSum(a: int, b: int)
    ensures (a % WORD32 + b) % WORD32 == (a + b) % WORD32
  {
  }

  const MONTH_LENGTH: seq<int> := [31, 28, 31, 30, 31, 30, 31, 31, 30, 31, 30, 31]

  // ----- Clockin -----

  class Clockin {
    const dt: DateTime
    var timeOffset: int
    var unixTime: nat

    ghost predicate Valid()
      reads this, dt
    {
      dt.Valid() && unixTime < WORD32
    }

    constructor (fuse: int)
      ensures Valid() && dt.fuse == fuse && fresh(dt)
    {
      dt := new DateTime(false, fuse);
      timeOffset, unixTime := 0, 0;
    }

    /** Shows the time that goes with the uptime counter. */
    method Fetch(uptime: nat)
      requires Valid() && uptime < WORD32
      modifies this, dt
      ensures Valid() && dt.fuse == old(dt.fuse) && timeOffset == old(timeOffset)
      ensures unixTime == (uptime + timeOffset) % WORD32
      ensures dt.Shown() == FromUnix(unixTime, dt.fuse)
    {
      unixTime := (uptime + timeOffset) % WORD32;
      dt.SetUnixTime(unixTime);
    }

    /** Makes the time shown the time of this moment. */
    method Update(uptime: nat)
      requires Valid() && uptime < WORD32
      modifies `timeOffset
      ensures Valid() && timeOffset == (ToUnix(dt.Shown(), dt.fuse) - uptime) % WORD32
    {
      var ut := dt.GetUnixTime();
      timeOffset := (ut - uptime) % WORD32;
    }
  }

  /** A clock set to a date from 2000-01-01 to 2100-02-28 and updated at uptime u shows, when it is
      fetched k seconds later, exactly the time k seconds after the one set, up to the end of the
      last day the formulas cover; the uptime counter may wrap around in between. */
  lemma ClockRuns(f: Fields, n: nat, fuse: int, u: nat, k: nat)
    requires f.date == DateOf(n, true) && ValidTime(f) && f.date.year >= 2000
    requires var t := n * SECONDS_DAY + TimeOf(f); t + k < (LAST_GOOD_DAY + 1) * SECONDS_DAY
    ensures var offset := (ToUnix(f, fuse) - u) % WORD32;
            var unix := ((u + k) % WORD32 + offset) % WORD32;
            Shows(FromUnix(unix, fuse), n * SECONDS_DAY + TimeOf(f) + k)
  {
    var t := n * SECONDS_DAY + TimeOf(f);
    GetterIsGregorianIff(n, f, fuse);
    var offset := (ToUnix(f, fuse) - u) % WORD32;
    var unix := ((u + k) % WORD32 + offset) % WORD32;
    OffsetCancels(t, fuse * 3600, u, k);
    assert Local(unix, fuse) == t + k;
    SetterShowsLocalTime(unix, fuse);
  }

  lemma OffsetCancels(t: nat, fuseSec: int, u: nat, k: nat)
    requires t + k < WORD32
    ensures var unix := ((u + k) % WORD32 + ((t - fuseSec) % WORD32 - u) % WORD32) % WORD32;
            (unix + fuseSec) % WORD32 == t + k
  {
  }
}
