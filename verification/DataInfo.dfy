// When the free data refreshes, and the countdown to it (app/src/App/DataInfo.h), with the civil-day formula its
// cases are written in (app/tools/data-info-tests.cpp).
module DataInfo {

  // ---- civil days ----

  datatype Date = Date(year: int, month: int, day: int)

  predicate IsLeap(year: int) {
    year % 4 == 0 && (year % 100 != 0 || year % 400 == 0)
  }

  function MonthLength(year: int, month: int): int {
    if month == 2 then if IsLeap(year) then 29 else 28
    else if month == 4 || month == 6 || month == 9 || month == 11 then 30
    else 31
  }

  // The valid dates of the proleptic Gregorian calendar.
  predicate IsDate(t: Date) {
    1 <= t.month <= 12 && 1 <= t.day <= MonthLength(t.year, t.month)
  }

  function Next(t: Date): Date {
    if t.day < MonthLength(t.year, t.month) then t.(day := t.day + 1)
    else if t.month < 12 then Date(t.year, t.month + 1, 1)
    else Date(t.year + 1, 1, 1)
  }

  predicate Before(s: Date, t: Date) {
    s.year < t.year || (s.year == t.year && (s.month < t.month || (s.month == t.month && s.day < t.day)))
  }

  // Division that truncates toward zero.
  function Truncated(a: int, b: int): int
    requires b > 0
  {
    if a >= 0 then a / b else -((-a) / b)
  }

  // Days since 1970-01-01. The year begins in March, so a leap day ends it.
  function DaysFromCivil(y: int, m: int, d: int): int {
    var year := y - if m <= 2 then 1 else 0;
    var era := Truncated(if year >= 0 then year else year - 399, 400);
    var yoe := year - era * 400;
    var doy := Truncated(153 * (m + if m > 2 then -3 else 9) + 2, 5) + d - 1;
    var doe := yoe * 365 + Truncated(yoe, 4) - Truncated(yoe, 100) + doy;
    era * 146097 + doe - 719468
  }

  function Days(t: Date): int {
    DaysFromCivil(t.year, t.month, t.day)
  }

  // The days before a year that begins in March, by its era of 400 years and its place there.
  function YearStart(year: int): int {
    var era, yoe := year / 400, year % 400;
    era * 146097 + yoe * 365 + yoe / 4 - yoe / 100
  }

  // The days before a month of such a year; 0 is March.
  function MonthStart(month: int): int
    requires 0 <= month < 12
  {
    (153 * month + 2) / 5
  }

  lemma EraIsFloor(year: int)
    ensures Truncated(if year >= 0 then year else year - 399, 400) == year / 400
  {
  }

  lemma DaysInParts(t: Date)
    requires IsDate(t)
    ensures Days(t) == YearStart(t.year - if t.month <= 2 then 1 else 0)
                       + MonthStart(if t.month <= 2 then t.month + 9 else t.month - 3) + t.day - 1 - 719468
  {
    EraIsFloor(t.year - if t.month <= 2 then 1 else 0);
  }

  lemma RemainderBy4(q: int, z: int)
    ensures (4 * q + z) % 4 == z % 4
  {
  }

  lemma RemainderBy100(q: int, z: int)
    ensures (100 * q + z) % 100 == z % 100
  {
  }

  lemma RemainderBy400(q: int, z: int)
    ensures (400 * q + z) % 400 == z % 400
  {
  }

  lemma SameRemainders(era: int, z: int)
    ensures (400 * era + z) % 4 == z % 4 && (400 * era + z) % 100 == z % 100 && (400 * era + z) % 400 == z % 400
  {
    RemainderBy4(100 * era, z);
    RemainderBy100(4 * era, z);
    RemainderBy400(era, z);
  }

  lemma LeapsInEra(yoe: int)
    requires 0 <= yoe < 399
    ensures (yoe + 1) / 4 == yoe / 4 + if (yoe + 1) % 4 == 0 then 1 else 0
    ensures (yoe + 1) / 100 == yoe / 100 + if (yoe + 1) % 100 == 0 then 1 else 0
    ensures (yoe + 1) % 400 != 0 && ((yoe + 1) % 100 == 0 ==> (yoe + 1) % 4 == 0)
  {
  }

  lemma NextInEra(year: int)
    ensures if year % 400 == 399 then (year + 1) / 400 == year / 400 + 1 && (year + 1) % 400 == 0
            else (year + 1) / 400 == year / 400 && (year + 1) % 400 == year % 400 + 1
  {
  }

  lemma LeapByPlace(year: int)
    ensures IsLeap(year) <==> IsLeap(year % 400)
  {
    SameRemainders(year / 400, year % 400);
    assert year == 400 * (year / 400) + year % 400;
  }

  // A year that begins in March is as long as the February that ends it makes it.
  lemma YearLength(year: int)
    ensures YearStart(year + 1) == YearStart(year) + if IsLeap(year + 1) then 366 else 365
  {
    NextInEra(year);
    LeapByPlace(year + 1);
    if year % 400 < 399 {
      LeapsInEra(year % 400);
    }
  }

  lemma MonthLengths(year: int, month: int)
    requires 0 <= month < 11
    ensures MonthStart(0) == 0 && MonthStart(11) == 337
    ensures MonthStart(month + 1) == MonthStart(month) + MonthLength(year, if month < 10 then month + 3 else month - 9)
  {
  }

  // The day after a date is one more, in every year.
  lemma NextIsOneMore(t: Date)
    requires IsDate(t)
    ensures IsDate(Next(t)) && Days(Next(t)) == Days(t) + 1
  {
    hide YearStart, MonthStart, Days, IsLeap;
    DaysInParts(t);
    DaysInParts(Next(t));
    MonthLengths(t.year, 0);
    if t.day == MonthLength(t.year, t.month) {
      if t.month == 2 {
        YearLength(t.year - 1);
      } else {
        MonthLengths(t.year, if t.month < 2 then t.month + 9 else t.month - 3);
      }
    }
  }

  lemma EpochIsZero()
    ensures Days(Date(1970, 1, 1)) == 0
  {
  }

  // The first day of the month that is `i` months after January of year 0.
  function First(i: int): Date {
    Date(i / 12, i % 12 + 1, 1)
  }

  function Length(i: int): int {
    MonthLength(i / 12, i % 12 + 1)
  }

  lemma DaysFromFirst(t: Date, i: int)
    requires IsDate(t) && i == 12 * t.year + t.month - 1
    ensures t.year == i / 12 && t.month == i % 12 + 1 && Days(t) == Days(First(i)) + t.day - 1 && t.day <= Length(i)
  {
  }

  lemma NextIndex(i: int)
    ensures if i % 12 == 11 then (i + 1) / 12 == i / 12 + 1 && (i + 1) % 12 == 0
            else (i + 1) / 12 == i / 12 && (i + 1) % 12 == i % 12 + 1
  {
  }

  lemma NextMonth(i: int)
    ensures Days(First(i + 1)) == Days(First(i)) + Length(i)
  {
    var last := First(i).(day := Length(i));
    DaysFromFirst(last, i);
    NextIsOneMore(last);
    hide Days, IsLeap, MonthLength;
    NextIndex(i);
    assert Next(last) == First(i + 1);
  }

  lemma {:induction false} MonthsInOrder(i: int, j: int)
    requires i < j
    ensures Days(First(i)) + Length(i) <= Days(First(j))
    decreases j - i
  {
    hide Days, First, IsLeap;
    NextMonth(j - 1);
    if i < j - 1 {
      MonthsInOrder(i, j - 1);
    }
  }

  // Dates and their day numbers are in the same order, so no two dates share one.
  lemma OrderPreserved(s: Date, t: Date)
    requires IsDate(s) && IsDate(t)
    ensures Days(s) < Days(t) <==> Before(s, t)
    ensures Days(s) == Days(t) <==> s == t
  {
    var i, j := 12 * s.year + s.month - 1, 12 * t.year + t.month - 1;
    DaysFromFirst(s, i);
    DaysFromFirst(t, j);
    if i < j {
      MonthsInOrder(i, j);
    } else if j < i {
      MonthsInOrder(j, i);
    }
  }

  function Previous(t: Date): Date {
    if t.day > 1 then t.(day := t.day - 1)
    else if t.month > 1 then Date(t.year, t.month - 1, MonthLength(t.year, t.month - 1))
    else Date(t.year - 1, 12, 31)
  }

  // Every whole number is the day number of a date.
  lemma {:induction false} EveryDayHasADate(n: int) returns (t: Date)
    ensures IsDate(t) && Days(t) == n
    decreases if n < 0 then -n else n
  {
    if n == 0 {
      t := Date(1970, 1, 1);
    } else if n > 0 {
      var s := EveryDayHasADate(n - 1);
      NextIsOneMore(s);
      t := Next(s);
    } else {
      var s := EveryDayHasADate(n + 1);
      t := Previous(s);
      assert Next(t) == s;
      NextIsOneMore(t);
    }
  }

  // ---- the refresh ----

  const DAY_MILLIS := 86400000
  const MINUTE_MILLIS := 60000

  // The remainder of the division above.
  function TruncatedRemainder(a: int, b: int): int
    requires b > 0
  {
    a - Truncated(a, b) * b
  }

  function NextFreeRefreshMillis(now: int): int {
    var day := Truncated(now, DAY_MILLIS);
    (day - (if TruncatedRemainder(now, DAY_MILLIS) < 0 then 1 else 0) + 1) * DAY_MILLIS
  }

  datatype Countdown = Countdown(hours: int, minutes: int)

  function FreeRefreshCountdown(now: int): Countdown {
    var remaining := NextFreeRefreshMillis(now) - now;
    var totalMinutes := Truncated(remaining + MINUTE_MILLIS - 1, MINUTE_MILLIS);
    Countdown(Truncated(totalMinutes, 60), TruncatedRemainder(totalMinutes, 60))
  }

  function MillisUntilCountdownChanges(now: int): int {
    var remaining := NextFreeRefreshMillis(now) - now;
    TruncatedRemainder(remaining - 1, MINUTE_MILLIS) + 1
  }

  lemma RefreshByFloor(now: int)
    ensures NextFreeRefreshMillis(now) == (now / DAY_MILLIS + 1) * DAY_MILLIS
    ensures 0 < NextFreeRefreshMillis(now) - now <= DAY_MILLIS
  {
    var r := TruncatedRemainder(now, DAY_MILLIS);
    assert now == DAY_MILLIS * (now / DAY_MILLIS) + now % DAY_MILLIS;
    if now < 0 {
      assert -now == DAY_MILLIS * ((-now) / DAY_MILLIS) + (-now) % DAY_MILLIS;
    }
  }

  // The refresh is the first UTC midnight strictly after now, before the epoch and after it.
  lemma RefreshIsNextMidnight(now: int, day: int)
    ensures now < NextFreeRefreshMillis(now)
    ensures exists k :: NextFreeRefreshMillis(now) == k * DAY_MILLIS
    ensures now < day * DAY_MILLIS ==> NextFreeRefreshMillis(now) <= day * DAY_MILLIS
  {
    RefreshByFloor(now);
  }

  // Minutes left, rounded up.
  function MinutesLeft(now: int): int {
    (NextFreeRefreshMillis(now) - now + MINUTE_MILLIS - 1) / MINUTE_MILLIS
  }

  lemma CountdownInMinutes(now: int)
    ensures FreeRefreshCountdown(now) == Countdown(MinutesLeft(now) / 60, MinutesLeft(now) % 60)
    ensures 1 <= MinutesLeft(now) <= 1440
  {
    RefreshByFloor(now);
  }

  lemma SameDay(now: int, later: int)
    requires now <= later < NextFreeRefreshMillis(now)
    ensures NextFreeRefreshMillis(later) == NextFreeRefreshMillis(now)
  {
    RefreshByFloor(now);
    RefreshByFloor(later);
  }

  // Minutes left, rounded up, once some of the time has gone.
  lemma MinutesAfter(remaining: int, gone: int)
    requires remaining > 0
    ensures var whole := (remaining - 1) / MINUTE_MILLIS;
            var wake := remaining - whole * MINUTE_MILLIS;
            && 1 <= wake <= MINUTE_MILLIS
            && (0 <= gone < wake ==> (remaining - gone + MINUTE_MILLIS - 1) / MINUTE_MILLIS == whole + 1)
            && (gone == wake ==> (remaining - gone + MINUTE_MILLIS - 1) / MINUTE_MILLIS == whole)
  {
  }

  lemma SameCountdown(now: int, later: int)
    ensures FreeRefreshCountdown(now) == FreeRefreshCountdown(later) <==> MinutesLeft(now) == MinutesLeft(later)
  {
    hide FreeRefreshCountdown, MinutesLeft;
    CountdownInMinutes(now);
    CountdownInMinutes(later);
    var m, n := MinutesLeft(now), MinutesLeft(later);
    assert m == m / 60 * 60 + m % 60 && n == n / 60 * 60 + n % 60;
  }

  lemma WakeInMinutes(now: int)
    ensures var remaining, wake := NextFreeRefreshMillis(now) - now, MillisUntilCountdownChanges(now);
            remaining > 0 && wake == remaining - (remaining - 1) / MINUTE_MILLIS * MINUTE_MILLIS
  {
    RefreshByFloor(now);
    hide NextFreeRefreshMillis;
  }

  lemma FullDayAtMidnight(now: int)
    ensures MinutesLeft(NextFreeRefreshMillis(now)) == 1440
  {
    RefreshByFloor(now);
    var midnight := NextFreeRefreshMillis(now);
    RefreshByFloor(midnight);
    hide NextFreeRefreshMillis;
    assert midnight / DAY_MILLIS == now / DAY_MILLIS + 1;
  }

  // The wake is when the minutes left change: the countdown reads the same until then, and differently at it.
  lemma ConstantUntilTheWake(now: int, later: int)
    requires now <= later <= now + MillisUntilCountdownChanges(now)
    ensures FreeRefreshCountdown(later) == FreeRefreshCountdown(now) <==> later < now + MillisUntilCountdownChanges(now)
  {
    hide FreeRefreshCountdown, NextFreeRefreshMillis, MillisUntilCountdownChanges;
    WakeInMinutes(now);
    var remaining, wake := NextFreeRefreshMillis(now) - now, MillisUntilCountdownChanges(now);
    MinutesAfter(remaining, 0);
    MinutesAfter(remaining, later - now);
    SameCountdown(now, later);
    if later < NextFreeRefreshMillis(now) {
      SameDay(now, later);
    } else {
      FullDayAtMidnight(now);
    }
  }

  // A countdown never reads zero.
  lemma CountdownIsNeverZero(now: int)
    ensures FreeRefreshCountdown(now) != Countdown(0, 0) && 0 <= FreeRefreshCountdown(now).minutes < 60
  {
    CountdownInMinutes(now);
  }
}
