/** Epoch and date conversion (bdk/rtc/max77620-rtc.c) against a calendar that counts day by day. */
module RtcCalendar {

  import opened Bits

  datatype Date = Date(year: nat, month: nat, day: nat)
  datatype DateTime = DateTime(date: Date, hour: nat, min: nat, sec: nat)

  const SECONDS_PER_DAY := 86400
  const LAST_DAY := 49710 // the day of the last 32-bit epoch

  // ----- The Gregorian calendar -----

  predicate IsLeap(y: nat) { y % 4 == 0 && (y % 100 != 0 || y % 400 == 0) }

  function MonthDays(y: nat, m: nat): nat
  {
    if m == 2 then (if IsLeap(y) then 29 else 28)
    else if m == 4 || m == 6 || m == 9 || m == 11 then 30
    else 31
  }

  predicate RealDate(d: Date)
  {
    1970 <= d.year && 1 <= d.month <= 12 && 1 <= d.day <= MonthDays(d.year, d.month)
  }

  predicate RealDateTime(t: DateTime)
  {
    RealDate(t.date) && t.hour < 24 && t.min < 60 && t.sec < 60
  }

  function NextDay(d: Date): Date
  {
    if d.day < MonthDays(d.year, d.month) then d.(day := d.day + 1)
    else if d.month < 12 then Date(d.year, d.month + 1, 1)
    else Date(d.year + 1, 1, 1)
  }

  /** The date n days after 1 January 1970, one day at a time. */
  function DateOfDay(n: nat): Date
  {
    if n == 0 then Date(1970, 1, 1) else NextDay(DateOfDay(n - 1))
  }

  predicate Before(a: Date, b: Date)
  {
    a.year < b.year || (a.year == b.year && (a.month < b.month || (a.month == b.month && a.day < b.day)))
  }

  // ----- The closed forms -----

  /** January and February count as months 13 and 14 of the year before. */
  function ShiftedYear(d: Date): int { if d.month < 3 then d.year - 1 else d.year }

  function ShiftedMonth(d: Date): nat { if d.month < 3 then d.month + 12 else d.month }

  function MonthOffset(m: nat): nat { 30 * m + 3 * (m + 1) / 5 }

  function YearOffset(y: int): int { 365 * y + y / 4 - y / 100 + y / 400 }

  /** The day number of `max77620_rtc_date_to_epoch`, lines 154-157 */
  function DayNumber(d: Date): int
  {
    YearOffset(ShiftedYear(d)) + MonthOffset(ShiftedMonth(d)) + d.day - 719561
  }

  function SecondNumber(t: DateTime): int
  {
    DayNumber(t.date) * SECONDS_PER_DAY + 3600 * t.hour + 60 * t.min + t.sec
  }

  /** `max77620_rtc_date_to_epoch`. Years are 16 bits wide. The seconds wrap around at 32 bits. */
  method DateToEpoch(t: DateTime) returns (epoch: uint32)
    requires RealDateTime(t) && t.date.year < 0x1_0000
    ensures epoch as int == SecondNumber(t) % 0x1_0000_0000
  {
    var day := DayOfDate(t.date);
    WrappedSum(DayNumber(t.date) * SECONDS_PER_DAY, 3600 * t.hour + 60 * t.min + t.sec);
    epoch := (day as int * SECONDS_PER_DAY % 0x1_0000_0000) as uint32;
    epoch := ((epoch as int + (3600 * t.hour + 60 * t.min + t.sec)) % 0x1_0000_0000) as uint32;
  }

  /** Lines 143-157, in which nothing wraps around */
  method DayOfDate(d: Date) returns (epoch: uint32)
    requires RealDate(d) && d.year < 0x1_0000
    ensures epoch as int == DayNumber(d)
  {
    var year, month := d.year as uint32, d.month as uint32;
    if month < 3 {
      month := month + 12;
      year := year - 1;
    }
    assert year as int == ShiftedYear(d) && month as int == ShiftedMonth(d);
    epoch := 365 * year + year / 4 - year / 100 + year / 400;
    assert epoch as int == YearOffset(ShiftedYear(d));
    epoch := epoch + (30 * month + 3 * (month + 1) / 5 + d.day as uint32);
    NotBeforeEpoch(d);
    epoch := epoch - 719561;
  }

  lemma NotBeforeEpoch(d: Date)
    requires RealDate(d)
    ensures DayNumber(d) >= 0
  {
  }

  lemma WrappedSum(a: int, b: int)
    ensures (a % 0x1_0000_0000 + b) % 0x1_0000_0000 == (a + b) % 0x1_0000_0000
  {
    var q := a / 0x1_0000_0000;
    assert a == q * 0x1_0000_0000 + a % 0x1_0000_0000;
  }

  /** Lines 109-127 on a day number */
  function DateFromDay(n: nat): (d: Date)
    requires n <= LAST_DAY
  {
    FromDayBounds(n);
    var tmp := Uniform(n);
    var year := (20 * tmp - 2442) / 7305;
    DateFromParts(year, tmp - 365 * year - year / 4)
  }

  /** Lines 109-110: the day count in which every fourth year has a leap day */
  function Uniform(n: nat): nat
  {
    var c := (4 * n + 102032) / 146097 + 15;
    n + 2442113 + c - c / 4
  }

  /** Lines 114-127 */
  function DateFromParts(year: nat, edays: nat): Date
    requires 6684 <= year && 123 <= edays <= 488
  {
    var month := edays * 1000 / 30601;
    MonthFits(edays);
    var day := edays - month * 30 - month * 601 / 1000;
    if month < 14 then Date(year - 4716, month - 1, day) else Date(year - 4715, month - 13, day)
  }

  lemma MonthFits(edays: nat)
    requires 123 <= edays <= 488
    ensures var month := edays * 1000 / 30601; 1 <= month && month * 30 + month * 601 / 1000 <= edays
  {
  }

  lemma FromDayBounds(n: nat)
    requires n <= LAST_DAY
    ensures var tmp := Uniform(n);
            var year := (20 * tmp - 2442) / 7305;
            6684 <= year && 123 <= tmp - 365 * year - year / 4 <= 488
  {
  }

  // ----- Each closed form against the calendar -----

  lemma YearStep(y: nat)
    requires y > 0
    ensures YearOffset(y) == YearOffset(y - 1) + 365 + if IsLeap(y) then 1 else 0
  {
    Every4(y);
    Every100(y);
    Every400(y);
  }

  lemma Every4(y: nat)
    requires y > 0
    ensures y / 4 - (y - 1) / 4 == if y % 4 == 0 then 1 else 0
  {
  }

  lemma Every100(y: nat)
    requires y > 0
    ensures y / 100 - (y - 1) / 100 == if y % 100 == 0 then 1 else 0
    ensures y % 100 == 0 ==> y % 4 == 0
  {
    var q, r := (y - 1) / 100, (y - 1) % 100;
    if r == 99 {
      assert y == 100 * (q + 1) == 4 * (25 * (q + 1));
    } else {
      assert y == 100 * q + (r + 1);
    }
  }

  lemma Every400(y: nat)
    requires y > 0
    ensures y / 400 - (y - 1) / 400 == if y % 400 == 0 then 1 else 0
    ensures y % 400 == 0 ==> y % 100 == 0
  {
    var q, r := (y - 1) / 400, (y - 1) % 400;
    if r == 399 {
      assert y == 400 * (q + 1) == 100 * (4 * (q + 1));
    } else {
      assert y == 400 * q + (r + 1);
    }
  }

  lemma MonthStep(y: nat, m: nat)
    requires 3 <= m < 14
    ensures MonthOffset(m + 1) == MonthOffset(m) + MonthDays(y, if m > 12 then m - 12 else m)
  {
  }

  /** The next day has the next number. */
  lemma NextDayNumber(d: Date)
    requires RealDate(d)
    ensures RealDate(NextDay(d)) && DayNumber(NextDay(d)) == DayNumber(d) + 1
  {
    hide YearOffset;
    if d.day == MonthDays(d.year, d.month) {
      if d.month == 2 {
        YearStep(d.year);
      } else {
        MonthStep(d.year, ShiftedMonth(d));
      }
    }
  }

  lemma {:induction false} DateOfDayNumber(n: nat)
    ensures RealDate(DateOfDay(n)) && DayNumber(DateOfDay(n)) == n
  {
    if n > 0 {
      DateOfDayNumber(n - 1);
      NextDayNumber(DateOfDay(n - 1));
    }
  }

  /** The shifted month and day decode from the days behind the month offset, lines 113-115. */
  lemma MonthFromDays(m: nat, day: nat)
    requires 3 <= m <= 14 && 1 <= day <= (if m == 14 then 29 else if m == 13 then 31 else MonthDays(1970, m))
    ensures var edays := MonthOffset(m) + day + 30;
            edays * 1000 / 30601 == m + 1 && edays - (m + 1) * 30 - (m + 1) * 601 / 1000 == day
  {
  }

  /** The shifted year decodes from the days in which every fourth year has a leap day, line 112. */
  lemma YearFromDays(y: nat, f: nat)
    requires 93 <= f <= (if y % 4 == 3 then 458 else 457)
    ensures (20 * (365 * y + y / 4 + f + 1722549) - 2442) / 7305 == y + 4716
  {
    var q, s := y / 4, y % 4;
    assert y == 4 * q + s;
    assert 20 * (365 * y + y / 4 + f + 1722549) - 2442 == 7305 * (y + 4716) + (20 * f - 5 * s - 1842);
    assert 0 <= 20 * f - 5 * s - 1842 < 7305;
  }

  /** The century decodes from the day number, line 109. */
  lemma CenturyFromDay(y: nat, f: nat)
    requires 1969 <= y < 2200 && 93 <= f <= 458 && YearOffset(y) + f >= 719561
    requires f == 458 ==> IsLeap(y + 1)
    ensures (4 * (YearOffset(y) + f - 719561) + 102032) / 146097 + 15 == y / 100 - 4
  {
    var c, r := y / 100, y % 100;
    assert y == 100 * c + r && y / 400 == c / 4 && y / 4 == 25 * c + r / 4;
  }

  /** The conversion of a day number finds the date. */
  lemma DateFromDayNumber(d: Date)
    requires RealDate(d) && DayNumber(d) <= LAST_DAY
    ensures 0 <= DayNumber(d) && DateFromDay(DayNumber(d)) == d
  {
    NotBeforeEpoch(d);
    ShiftedBounds(d);
    ParsedShifted(ShiftedYear(d), ShiftedMonth(d), d.day, DayNumber(d));
  }

  lemma ParsedShifted(y: nat, m: nat, day: nat, n: nat)
    requires 1969 <= y < 2200 && 3 <= m <= 14
    requires 1 <= day <= (if m == 14 then 29 else if m == 13 then 31 else MonthDays(1970, m))
    requires var f := MonthOffset(m) + day;
             93 <= f <= 458 && (f == 458 ==> IsLeap(y + 1) && y % 4 == 3) && n == YearOffset(y) + f - 719561
    requires n <= LAST_DAY
    ensures DateFromDay(n) == if m < 13 then Date(y, m, day) else Date(y + 1, m - 12, day)
  {
    hide YearOffset, IsLeap, MonthOffset, MonthDays, DateFromDay;
    var f := MonthOffset(m) + day;
    CenturyFromDay(y, f);
    OffsetParts(y);
    MonthFromDays(m, day);
    YearFromDays(y, f);
    var tmp := Uniform(n);
    assert tmp == 365 * y + y / 4 + f + 1722549;
    FromTmp(y, f, tmp);
    Decoded(n, f + 30, y, m, day);
  }

  /** The parts that the conversion computes make up the date. */
  lemma Decoded(n: nat, edays: nat, y: nat, m: nat, day: nat)
    requires n <= LAST_DAY && 3 <= m <= 14
    requires var tmp := Uniform(n);
             (20 * tmp - 2442) / 7305 == y + 4716 && tmp - 365 * (y + 4716) - (y + 4716) / 4 == edays
    requires edays * 1000 / 30601 == m + 1 && edays - (m + 1) * 30 - (m + 1) * 601 / 1000 == day
    ensures DateFromDay(n) == if m < 13 then Date(y, m, day) else Date(y + 1, m - 12, day)
  {
    hide Uniform;
    FromDayBounds(n);
    assert DateFromDay(n) == DateFromParts(y + 4716, edays);
  }

  lemma FromTmp(y: nat, f: nat, tmp: nat)
    requires tmp == 365 * y + y / 4 + f + 1722549 && (y + 4716) / 4 == y / 4 + 1179
    ensures tmp - 365 * (y + 4716) - (y + 4716) / 4 == f + 30
  {
  }

  lemma OffsetParts(y: nat)
    requires 1969 <= y < 2200
    ensures YearOffset(y) + (y / 100 - 4) - (y / 100 - 4) / 4 == 365 * y + y / 4 - 3
    ensures (y + 4716) / 4 == y / 4 + 1179
  {
    assert y / 400 == y / 100 / 4;
  }

  lemma ShiftedBounds(d: Date)
    requires RealDate(d) && DayNumber(d) <= LAST_DAY
    ensures 1969 <= ShiftedYear(d) < 2200 && 3 <= ShiftedMonth(d) <= 14
    ensures var m := ShiftedMonth(d);
            d.day <= if m == 14 then 29 else if m == 13 then 31 else MonthDays(1970, m)
    ensures 93 <= MonthOffset(ShiftedMonth(d)) + d.day <= 458
    ensures MonthOffset(ShiftedMonth(d)) + d.day == 458 ==> IsLeap(ShiftedYear(d) + 1)
    ensures MonthOffset(ShiftedMonth(d)) + d.day == 458 ==> ShiftedYear(d) % 4 == 3
  {
  }

  // ----- The conversion of an epoch -----

  function DateTimeOf(epoch: nat): DateTime
    requires epoch / SECONDS_PER_DAY <= LAST_DAY
  {
    DateTime(DateFromDay(epoch / SECONDS_PER_DAY), epoch / 3600 % 24, epoch / 60 % 60, epoch % 60)
  }

  /** `max77620_rtc_epoch_to_date` without the weekday; no 32-bit operation wraps around. */
  method EpochToDate(epoch0: uint32) returns (t: DateTime)
    ensures t == DateTimeOf(epoch0 as nat)
  {
    hide DateFromDay;
    ClockSteps(epoch0 as nat);
    var epoch := epoch0;
    var sec := epoch % 60;
    epoch := epoch / 60;
    var min := epoch % 60;
    epoch := epoch / 60;
    var hour := epoch % 24;
    epoch := epoch / 24;
    var date := DateOfDays(epoch);
    t := DateTime(date, hour as nat, min as nat, sec as nat);
  }

  lemma ClockSteps(e: nat)
    ensures e / 60 / 60 == e / 3600 && e / 3600 / 24 == e / SECONDS_PER_DAY
  {
  }

  /** Lines 109-132; line 109 computes in 64 bits. */
  method DateOfDays(epoch: uint32) returns (d: Date)
    requires epoch as int <= LAST_DAY
    ensures d == DateFromDay(epoch as nat)
  {
    hide DateFromParts;
    FromDayBounds(epoch as nat);
    var tmp := ((4 * epoch as int + 102032) / 146097 + 15) as uint32;
    tmp := (epoch as int + 2442113 + tmp as int - (tmp / 4) as int) as uint32;
    var year := (20 * tmp - 2442) / 7305;
    d := DateOfParts(year, tmp - 365 * year - year / 4);
  }

  /** Lines 114-132 */
  method DateOfParts(year0: uint32, edays: uint32) returns (d: Date)
    requires 6684 <= year0 && 123 <= edays <= 488
    ensures d == DateFromParts(year0 as nat, edays as nat)
  {
    MonthFits(edays as nat);
    var year, month := year0, edays * 1000 / 30601;
    var day := edays - month * 30 - month * 601 / 1000;
    if month < 14 {
      year, month := year - 4716, month - 1;
    } else {
      year, month := year - 4715, month - 13;
    }
    d := Date(year as nat, month as nat, day as nat);
  }

  /** Every 32-bit epoch converts to the real date that counting day by day reaches, and a real time. */
  lemma EpochIsNaiveDate(epoch: nat)
    requires epoch < 0x1_0000_0000
    ensures DateTimeOf(epoch).date == DateOfDay(epoch / SECONDS_PER_DAY)
    ensures RealDateTime(DateTimeOf(epoch)) && SecondNumber(DateTimeOf(epoch)) == epoch
  {
    hide DateFromDay, DateOfDay, DayNumber, RealDate;
    var n := epoch / SECONDS_PER_DAY;
    DateOfDayNumber(n);
    DateFromDayNumber(DateOfDay(n));
    TimeOfDay(epoch);
  }

  lemma TimeOfDay(epoch: nat)
    ensures epoch == epoch / SECONDS_PER_DAY * SECONDS_PER_DAY +
                     3600 * (epoch / 3600 % 24) + 60 * (epoch / 60 % 60) + epoch % 60
  {
    assert epoch / 3600 == epoch / 60 / 60 && epoch / SECONDS_PER_DAY == epoch / 3600 / 24;
  }

  // ----- Order -----

  lemma {:induction false} YearsApart(y: nat, z: nat)
    requires y <= z
    ensures YearOffset(z) >= YearOffset(y) + 365 * (z - y)
    decreases z
  {
    hide YearOffset;
    if y < z {
      YearsApart(y, z - 1);
      YearStep(z);
    }
  }

  /** Later dates have larger day numbers. */
  lemma DayNumberIncreases(a: Date, b: Date)
    requires RealDate(a) && RealDate(b) && Before(a, b)
    ensures DayNumber(a) < DayNumber(b)
  {
    hide YearOffset, IsLeap;
    var (ya, yb) := (ShiftedYear(a), ShiftedYear(b));
    if ya < yb {
      YearsApart(ya + 1, yb);
      YearStep(ya + 1);
      WithinYear(a);
    } else {
      MonthsApart(a, b);
    }
  }

  /** No date of a shifted year reaches the first of March that ends it. */
  lemma WithinYear(d: Date)
    requires RealDate(d)
    ensures MonthOffset(ShiftedMonth(d)) + d.day < 92 + 1 + 365 + if IsLeap(ShiftedYear(d) + 1) then 1 else 0
    ensures MonthOffset(ShiftedMonth(d)) + d.day >= 93
  {
  }

  lemma MonthsApart(a: Date, b: Date)
    requires RealDate(a) && RealDate(b) && Before(a, b) && ShiftedYear(a) == ShiftedYear(b)
    ensures MonthOffset(ShiftedMonth(a)) + a.day < MonthOffset(ShiftedMonth(b)) + b.day
  {
  }

  /** Every real date is reached by counting its number of days. */
  lemma RealDateIsReached(d: Date)
    requires RealDate(d)
    ensures DayNumber(d) >= 0 && DateOfDay(DayNumber(d)) == d
  {
    hide DayNumber, DateOfDay, RealDate;
    NotBeforeEpoch(d);
    var e := DateOfDay(DayNumber(d));
    DateOfDayNumber(DayNumber(d));
    if Before(e, d) { DayNumberIncreases(e, d); }
    if Before(d, e) { DayNumberIncreases(d, e); }
  }

  predicate TimeBefore(a: DateTime, b: DateTime)
  {
    Before(a.date, b.date) ||
    (a.date == b.date && 3600 * a.hour + 60 * a.min + a.sec < 3600 * b.hour + 60 * b.min + b.sec)
  }

  /** Later times have larger second counts, and larger 32-bit epochs as long as the counts wrap around
      equally often, which is never for times in the 32-bit range. */
  lemma SecondNumberIncreases(a: DateTime, b: DateTime)
    requires RealDateTime(a) && RealDateTime(b) && TimeBefore(a, b)
    ensures SecondNumber(a) < SecondNumber(b)
    ensures SecondNumber(a) / 0x1_0000_0000 == SecondNumber(b) / 0x1_0000_0000 ==>
              SecondNumber(a) % 0x1_0000_0000 < SecondNumber(b) % 0x1_0000_0000
    ensures SecondNumber(b) < 0x1_0000_0000 ==> 0 <= SecondNumber(a) / 0x1_0000_0000 == SecondNumber(b) / 0x1_0000_0000
  {
    hide DayNumber, RealDate, Before;
    NotBeforeEpoch(a.date);
    if Before(a.date, b.date) { DayNumberIncreases(a.date, b.date); }
  }

  // ----- Round trips -----

  /** A real time in the 32-bit range converts to an epoch and back to itself. */
  lemma DateRoundTrip(t: DateTime)
    requires RealDateTime(t) && SecondNumber(t) < 0x1_0000_0000
    ensures 0 <= SecondNumber(t) && DateTimeOf(SecondNumber(t)) == t
  {
    hide DayNumber, RealDate, DateFromDay;
    NotBeforeEpoch(t.date);
    SplitSeconds(DayNumber(t.date), t.hour, t.min, t.sec);
    DateFromDayNumber(t.date);
  }

  lemma SplitSeconds(n: nat, h: nat, m: nat, s: nat)
    requires h < 24 && m < 60 && s < 60
    ensures var e := n * SECONDS_PER_DAY + 3600 * h + 60 * m + s;
            e / SECONDS_PER_DAY == n && e / 3600 % 24 == h && e / 60 % 60 == m && e % 60 == s
  {
    var e := n * SECONDS_PER_DAY + 3600 * h + 60 * m + s;
    assert e / 60 == n * 1440 + 60 * h + m;
    assert e / 3600 == n * 24 + h;
  }

  /** Converting an epoch to a date and back returns the epoch. */
  method EpochRoundTrip(epoch: uint32) returns (back: uint32)
    ensures back == epoch
  {
    hide DateTimeOf, SecondNumber, RealDateTime, DateOfDay;
    EpochIsNaiveDate(epoch as nat);
    var t := EpochToDate(epoch);
    YearInRange(t);
    back := DateToEpoch(t);
  }

  lemma YearInRange(t: DateTime)
    requires RealDateTime(t) && SecondNumber(t) < 0x1_0000_0000
    ensures t.date.year < 0x1_0000
  {
    ShiftedBounds(t.date);
  }
}
