/** Giving a year to a timestamp that carries none (section 4.1.2 of RFC 3164), against the clock. */
module SyslogYear {
  import opened Prelude

  datatype Stamp = Stamp(month: nat, day: nat, hour: nat, minute: nat, second: nat)

  // A point of the calendar in UTC; the clock also has microseconds.
  datatype Moment = Moment(year: int, stamp: Stamp)

  datatype Clock = Clock(at: Moment, micros: nat)

  const SECONDS_A_DAY: int := 86400
  const MICROS: int := 1_000_000
  const DAY: int := 86_400_000_000

  predicate Leap(y: int) {
    y % 4 == 0 && (y % 100 != 0 || y % 400 == 0)
  }

  function MonthLength(y: int, m: nat): nat {
    if m == 2 then (if Leap(y) then 29 else 28)
    else if m == 4 || m == 6 || m == 9 || m == 11 then 30
    else 31
  }

  predicate ValidIn(y: int, s: Stamp) {
    && 1 <= y <= 9999 && 1 <= s.month <= 12 && 1 <= s.day <= MonthLength(y, s.month)
    && s.hour < 24 && s.minute < 60 && s.second < 60
  }

  predicate ValidClock(now: Clock) {
    ValidIn(now.at.year, now.at.stamp) && now.micros < MICROS
  }

  // Days from 1 January of year 1 to 1 January of year y.
  function DaysBeforeYear(y: int): int {
    (y - 1) * 365 + (y - 1) / 4 - (y - 1) / 100 + (y - 1) / 400
  }

  function DaysBeforeMonth(y: int, m: nat): nat {
    if m <= 1 then 0 else DaysBeforeMonth(y, m - 1) + MonthLength(y, m - 1)
  }

  function SecondOfDay(s: Stamp): nat {
    s.hour * 3600 + s.minute * 60 + s.second
  }

  function Seconds(y: int, s: Stamp): int {
    (DaysBeforeYear(y) + DaysBeforeMonth(y, s.month) + s.day - 1) * SECONDS_A_DAY + SecondOfDay(s)
  }

  // Microseconds since the start of year 1.
  function Instant(y: int, s: Stamp): int {
    Seconds(y, s) * MICROS
  }

  function Now(now: Clock): int {
    Instant(now.at.year, now.at.stamp) + now.micros
  }

  predicate Candidate(y: int, s: Stamp, now: Clock) {
    ValidIn(y, s) && Instant(y, s) <= Now(now) + DAY
  }

  // This year's date unless it is no date or more than a day ahead, then last year's.
  function Resolve(s: Stamp, now: Clock): Option<Moment> {
    if Candidate(now.at.year, s, now) then Some(Moment(now.at.year, s))
    else if Candidate(now.at.year - 1, s, now) then Some(Moment(now.at.year - 1, s))
    else None
  }

  lemma YearLength(y: int)
    ensures DaysBeforeYear(y + 1) == DaysBeforeYear(y) + if Leap(y) then 366 else 365
  {
    NextQuotient(y, 4);
    NextQuotient(y, 100);
    NextQuotient(y, 400);
  }

  lemma NextQuotient(y: int, d: int)
    requires d > 0
    ensures y / d == (y - 1) / d + (if y % d == 0 then 1 else 0)
  {
    var q := y / d;
    assert y == q * d + y % d;
    if y % d == 0 {
      assert y - 1 == (q - 1) * d + (d - 1);
      QuotientIs(y - 1, d, q - 1);
    } else {
      QuotientIs(y - 1, d, q);
    }
  }

  lemma QuotientIs(x: int, d: int, q: int)
    requires d > 0 && q * d <= x < q * d + d
    ensures x / d == q
  {
    var p := x / d;
    assert x == p * d + x % d;
    assert p < q ==> (p + 1) * d <= q * d;
    assert p > q ==> (q + 1) * d <= p * d;
  }

  lemma {:induction false} YearsAreOrdered(y: int, z: int)
    requires y < z
    ensures DaysBeforeYear(y) + 365 * (z - y) <= DaysBeforeYear(z)
    decreases z - y
  {
    YearLength(y);
    if y + 1 < z {
      YearsAreOrdered(y + 1, z);
    }
  }

  // Between two years the same month starts the same number of days in, but for one leap day.
  lemma MonthStarts(y: int, z: int, m: nat)
    requires 1 <= m <= 12
    ensures m <= 2 ==> DaysBeforeMonth(y, m) == DaysBeforeMonth(z, m)
    ensures m > 2 ==> DaysBeforeMonth(y, m) - (if Leap(y) then 1 else 0)
                      == DaysBeforeMonth(z, m) - (if Leap(z) then 1 else 0)
    ensures DaysBeforeMonth(y, m) + MonthLength(y, m) <= if Leap(y) then 366 else 365
  {
    MonthTable(y, m);
    MonthTable(z, m);
  }

  lemma MonthTable(y: int, m: nat)
    requires 1 <= m <= 12
    ensures DaysBeforeMonth(y, m) == [0, 31, 59, 90, 120, 151, 181, 212, 243, 273, 304, 334][m - 1]
                                     + if m > 2 && Leap(y) then 1 else 0
  {
    if m > 1 {
      MonthTable(y, m - 1);
    }
  }

  // A date lies inside its year.
  lemma InsideItsYear(y: int, s: Stamp)
    requires ValidIn(y, s)
    ensures DaysBeforeYear(y) * DAY <= Instant(y, s) < DaysBeforeYear(y + 1) * DAY
  {
    MonthStarts(y, y, s.month);
    YearLength(y);
    var d := DaysBeforeMonth(y, s.month) + s.day - 1;
    assert 0 <= d < DaysBeforeYear(y + 1) - DaysBeforeYear(y);
    assert SecondOfDay(s) < SECONDS_A_DAY;
  }

  lemma LaterYearIsLater(y: int, s: Stamp, z: int, t: Stamp)
    requires ValidIn(y, s) && ValidIn(z, t) && y < z
    ensures Instant(y, s) < Instant(z, t)
    ensures y + 1 < z ==> Instant(y, s) + 365 * DAY < Instant(z, t)
  {
    InsideItsYear(y, s);
    InsideItsYear(z, t);
    var (end, start) := (DaysBeforeYear(y + 1), DaysBeforeYear(z));
    assert end <= start && (y + 1 < z ==> end + 365 <= start) by {
      if y + 1 < z {
        YearsAreOrdered(y + 1, z);
      }
    }
    assert Instant(y, s) < end * DAY <= start * DAY <= Instant(z, t);
  }

  // The clock one second later, carried from the seconds up to the year.
  function NextSecond(t: Moment): Moment {
    var s := t.stamp;
    if s.second < 59 then Moment(t.year, s.(second := s.second + 1))
    else if s.minute < 59 then Moment(t.year, s.(second := 0, minute := s.minute + 1))
    else if s.hour < 23 then Moment(t.year, s.(second := 0, minute := 0, hour := s.hour + 1))
    else if s.day < MonthLength(t.year, s.month) then Moment(t.year, Stamp(s.month, s.day + 1, 0, 0, 0))
    else if s.month < 12 then Moment(t.year, Stamp(s.month + 1, 1, 0, 0, 0))
    else Moment(t.year + 1, Stamp(1, 1, 0, 0, 0))
  }

  function DayNumber(t: Moment): int {
    DaysBeforeYear(t.year) + DaysBeforeMonth(t.year, t.stamp.month) + t.stamp.day
  }

  // At midnight the day number goes up by one.
  lemma MidnightIsOneDay(t: Moment)
    requires ValidIn(t.year, t.stamp) && t.stamp.second == 59 && t.stamp.minute == 59 && t.stamp.hour == 23
    ensures DayNumber(NextSecond(t)) == DayNumber(t) + 1 && SecondOfDay(NextSecond(t).stamp) == 0
  {
    if t.stamp.day == MonthLength(t.year, t.stamp.month) && t.stamp.month == 12 {
      YearLength(t.year);
      MonthTable(t.year, 12);
    }
  }

  lemma OneSecondMore(t: Moment, next: Moment)
    requires DayNumber(next) * 86400 + SecondOfDay(next.stamp) == DayNumber(t) * 86400 + SecondOfDay(t.stamp) + 1
    ensures Instant(next.year, next.stamp) == Instant(t.year, t.stamp) + 1_000_000
  {
    assert Seconds(next.year, next.stamp) == Seconds(t.year, t.stamp) + 1;
  }

  lemma NextIsValid(t: Moment)
    requires ValidIn(t.year, t.stamp) && t.year < 9999
    ensures ValidIn(NextSecond(t).year, NextSecond(t).stamp)
  {
  }

  lemma WithinTheDay(t: Moment)
    requires ValidIn(t.year, t.stamp) && (t.stamp.second < 59 || t.stamp.minute < 59 || t.stamp.hour < 23)
    ensures DayNumber(NextSecond(t)) == DayNumber(t)
    ensures SecondOfDay(NextSecond(t).stamp) == SecondOfDay(t.stamp) + 1
  {
  }

  lemma NextDayAndSecond(t: Moment, next: Moment)
    requires ValidIn(t.year, t.stamp) && next == NextSecond(t)
    ensures DayNumber(next) * 86400 + SecondOfDay(next.stamp) == DayNumber(t) * 86400 + SecondOfDay(t.stamp) + 1
  {
    if t.stamp.second == 59 && t.stamp.minute == 59 && t.stamp.hour == 23 {
      MidnightIsOneDay(t);
    } else {
      WithinTheDay(t);
    }
  }

  // Instants count the seconds of the calendar: every next second adds one.
  lemma InstantsFollowTheCalendar(t: Moment, next: Moment)
    requires ValidIn(t.year, t.stamp) && t.year < 9999 && next == NextSecond(t)
    ensures ValidIn(next.year, next.stamp) && Instant(next.year, next.stamp) == Instant(t.year, t.stamp) + 1_000_000
  {
    NextIsValid(t);
    NextDayAndSecond(t, next);
    OneSecondMore(t, next);
  }

  // Whether the year from this moment to its anniversary holds a leap day.
  predicate LeapDayInside(t: Moment) {
    if t.stamp.month <= 2 then Leap(t.year) else Leap(t.year + 1)
  }

  lemma ComesBackAfterAYear(t: Moment)
    requires ValidIn(t.year, t.stamp) && ValidIn(t.year + 1, t.stamp)
    ensures Instant(t.year + 1, t.stamp) - Instant(t.year, t.stamp) == (if LeapDayInside(t) then 366 else 365) * DAY
  {
    MonthStarts(t.year, t.year + 1, t.stamp.month);
    YearLength(t.year);
  }

  // Whenever the true time is under 364 days old, or up to a day ahead, the resolved time is the true
  // one exactly when it does not lie in the clock's next year.
  lemma YearIsRecovered(t: Moment, now: Clock)
    requires ValidClock(now) && ValidIn(t.year, t.stamp)
    requires Now(now) - 364 * DAY < Instant(t.year, t.stamp) <= Now(now) + DAY
    ensures Resolve(t.stamp, now) == Some(t) <==> t.year <= now.at.year
  {
    var n := now.at;
    if t.year < n.year {
      LaterYearIsLater(t.year, t.stamp, n.year, n.stamp);
      assert t.year == n.year - 1;
      if ValidIn(n.year, t.stamp) {
        ComesBackAfterAYear(t);
      }
    }
  }

  // The promise: a line at most 364 days old, and not from the future, gets its own year back.
  lemma RecentLinesKeepTheirYear(t: Moment, now: Clock)
    requires ValidClock(now) && ValidIn(t.year, t.stamp)
    requires 0 <= Now(now) - Instant(t.year, t.stamp) < 364 * DAY
    ensures Resolve(t.stamp, now) == Some(t)
  {
    if t.year > now.at.year {
      LaterYearIsLater(now.at.year, now.at.stamp, t.year, t.stamp);
      WholeSeconds(now.at.year, now.at.stamp, t.year, t.stamp);
    }
    YearIsRecovered(t, now);
  }

  lemma LaterSecond(a: int, b: int)
    requires a * MICROS < b * MICROS
    ensures a * MICROS + MICROS <= b * MICROS
  {
    assert a + 1 <= b;
  }

  lemma WholeSeconds(y: int, s: Stamp, z: int, t: Stamp)
    requires Instant(y, s) < Instant(z, t)
    ensures Instant(y, s) + MICROS <= Instant(z, t)
  {
    LaterSecond(Seconds(y, s), Seconds(z, t));
  }

  // What is returned is the latest date with this stamp, of this year or before, that is not more than
  // a day ahead; nothing is returned only when neither this year nor the last one has such a date.
  lemma LatestOccurrence(s: Stamp, now: Clock, y: int)
    requires Candidate(y, s, now) && y <= now.at.year
    ensures match Resolve(s, now)
            case Some(r) => y <= r.year && r.stamp == s && Candidate(r.year, s, now)
            case None => y < now.at.year - 1
  {
  }

  // 364 days is the limit: a line read a day before its anniversary is put on the anniversary, and over
  // an ordinary year it is exactly 364 days old then.
  lemma LimitIsReached(t: Moment, now: Clock)
    requires ValidIn(t.year, t.stamp) && ValidIn(t.year + 1, t.stamp) && t.stamp.day >= 2
    requires now == Clock(Moment(t.year + 1, t.stamp.(day := t.stamp.day - 1)), 0)
    ensures ValidClock(now) && Resolve(t.stamp, now) == Some(Moment(t.year + 1, t.stamp))
    ensures Now(now) - Instant(t.year, t.stamp) == (if LeapDayInside(t) then 365 else 364) * DAY
  {
    ComesBackAfterAYear(t);
    NextDay(t.year + 1, now.at.stamp);
    assert now.at.stamp.(day := now.at.stamp.day + 1) == t.stamp;
  }

  lemma NextDay(y: int, s: Stamp)
    ensures Instant(y, s.(day := s.day + 1)) == Instant(y, s) + DAY
  {
  }

  // 29 February, read in the following, ordinary year.
  lemma LeapDayReadNextYear(now: Clock, y: int, h: nat, m: nat, s: nat)
    requires ValidClock(now) && Leap(y) && 1 <= y && now.at.year == y + 1 && h < 24 && m < 60 && s < 60
    ensures Resolve(Stamp(2, 29, h, m, s), now) == Some(Moment(y, Stamp(2, 29, h, m, s)))
  {
    assert !Leap(y + 1);
    LaterYearIsLater(y, Stamp(2, 29, h, m, s), now.at.year, now.at.stamp);
  }

  // A sender whose clock runs ahead over New Year is put a year back.
  lemma AheadOverNewYearIsAYearOff(t: Moment, now: Clock)
    requires ValidClock(now) && ValidIn(t.year, t.stamp) && ValidIn(now.at.year, t.stamp)
    requires Now(now) < Instant(t.year, t.stamp) <= Now(now) + DAY && t.year == now.at.year + 1
    ensures Resolve(t.stamp, now) == Some(Moment(t.year - 1, t.stamp))
  {
    LaterYearIsLater(now.at.year, t.stamp, t.year, t.stamp);
  }
}
