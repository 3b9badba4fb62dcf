/**
 * utils/dateUtils.ts: the calendar facts about "today" that every view
 * uses. Today is injected as a day number instead of read from the clock.
 */
module DateUtils {
  import opened Calendar
  import opened DateText

  /**
   * Days back to the Monday of the week, from an ISO weekday:
   * Sunday (7) goes back 6 days, every other weekday w goes back w - 1.
   */
  function DaysFromMonday(weekday: int): (k: int)
    requires 1 <= weekday <= 7
    ensures 0 <= k <= 6
    ensures k == 6 <==> weekday == 7
    ensures weekday < 7 ==> weekday == k + 1
  {
    if weekday == 7 then 6 else weekday - 1
  }

  /**
   * The result of `getDateInfo`, with every date as a day number; the
   * `YYYY-MM-DD` strings of the source are `Format(FromDay(_))` of these.
   */
  datatype DateInfo = DateInfo(
    date: Day,
    weekday: int,
    weekStart: Day,
    weekEnd: Day,
    monthStart: Day,
    monthEnd: Day,
    yearStart: Day,
    yearEnd: Day)

  /** `getDateInfo` for the injected day `now`. */
  function GetDateInfo(now: Day): (t: DateInfo)
    ensures t.date == now && t.weekday == Weekday(now)
    ensures t.weekStart <= now <= t.weekEnd && t.weekEnd == t.weekStart + 6
    ensures Weekday(t.weekStart) == 1 && Weekday(t.weekEnd) == 7
    ensures t.monthStart <= now <= t.monthEnd
    ensures t.yearStart <= now <= t.yearEnd
  {
    var weekday := Weekday(now);
    var daysFromMonday := DaysFromMonday(weekday);
    assert daysFromMonday == now % 7;
    MondayOffset(WeekStart(now), 6, WeekStart(now) + 6);
    DateInfo(
      now,
      weekday,
      AddDays(now, -daysFromMonday),
      AddDays(now, 6 - daysFromMonday),
      MonthStart(now),
      MonthEnd(now),
      YearStart(now),
      YearEnd(now))
  }

  /** The week of `getDateInfo` is the ISO week of `now`: Monday to Sunday around it. */
  lemma DateInfoWeek(now: Day)
    ensures GetDateInfo(now).weekStart == WeekStart(now)
    ensures Weekday(now) == now - GetDateInfo(now).weekStart + 1
  {
  }

  /** The month and year bounds of `getDateInfo` are the civil first and last days of `now`'s month and year. */
  lemma DateInfoCalendar(now: Day)
    ensures FromDay(GetDateInfo(now).monthStart) == Date(FromDay(now).year, FromDay(now).month, 1)
    ensures FromDay(GetDateInfo(now).monthEnd) == Date(FromDay(now).year, FromDay(now).month, DaysInMonth(FromDay(now).year, FromDay(now).month))
    ensures FromDay(GetDateInfo(now).yearStart) == Date(FromDay(now).year, 1, 1)
    ensures FromDay(GetDateInfo(now).yearEnd) == Date(FromDay(now).year, 12, 31)
  {
    MonthStartIsFirst(now);
    MonthEndIsLast(now);
    YearStartIsFirst(now);
    YearEndIsLast(now);
  }

  /** `isDatePastOrToday`: `date <= today` on the texts, JavaScript's `<=` being `!(today < date)`. */
  function IsDatePastOrToday(date: string, today: Day): bool
    requires FromDay(today).year <= 9999
  {
    !StrLess(Format(FromDay(today)), date)
  }

  /** On `YYYY-MM-DD` texts the string test is the chronological test. */
  lemma IsDatePastOrTodayIsChronological(d: Date, today: Day)
    requires ValidDate(d) && d.year <= 9999 && FromDay(today).year <= 9999
    ensures IsDatePastOrToday(Format(d), today) <==> ToDay(d) <= today
  {
    FormatOrder(FromDay(today), d);
  }

  /** `getWeekDates`: the seven days of the current week, Monday first. */
  method GetWeekDates(today: Day) returns (dates: seq<Day>)
    ensures |dates| == 7
    ensures dates[0] == WeekStart(today) && dates[6] == GetDateInfo(today).weekEnd
    ensures forall i :: 0 <= i < 7 ==> dates[i] == dates[0] + i && Weekday(dates[i]) == i + 1
    ensures today in dates
  {
    var start := GetDateInfo(today).weekStart;
    DateInfoWeek(today);
    dates := [];
    for i := 0 to 7
      invariant |dates| == i
      invariant forall j :: 0 <= j < i ==> dates[j] == start + j
    {
      dates := dates + [AddDays(start, i)];
    }
    assert dates[today - start] == today;
  }

  /** `getWeekdayName`: the English abbreviation of the weekday. */
  function WeekdayName(d: Day): (name: string)
    ensures |name| == 3
    ensures name == "Mon" <==> Weekday(d) == 1
    ensures name == "Sun" <==> Weekday(d) == 7
  {
    ["Mon", "Tue", "Wed", "Thu", "Fri", "Sat", "Sun"][Weekday(d) - 1]
  }
}
