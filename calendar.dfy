/** Naive local dates and times, as Python's `datetime.date`, `datetime.time`
    and `datetime.datetime` hold them and as the front end's text formats
    (`yyyy-MM-dd`, `HH:mm`, `yyyy-MM-dd'T'HH:mm:ss`) write them.  No time zone
    is attached anywhere. */
module Calendar {
  import opened Common

  /** Python's `datetime.MAXYEAR`; `datetime.MINYEAR` is 1. */
  const MaxYear := 9999

  predicate IsLeap(y: int) { y % 4 == 0 && (y % 100 != 0 || y % 400 == 0) }

  function DaysInMonth(y: int, m: int): (n: int)
    requires 1 <= m <= 12
    ensures 28 <= n <= 31
    ensures n == 31 <==> m in {1, 3, 5, 7, 8, 10, 12}
  {
    if m == 2 then (if IsLeap(y) then 29 else 28)
    else if m == 4 || m == 6 || m == 9 || m == 11 then 30
    else 31
  }

  function DaysInYear(y: int): int { if IsLeap(y) then 366 else 365 }

  datatype Date = Date(year: int, month: int, day: int) {
    /** The proleptic Gregorian date exists. */
    predicate Valid() { 1 <= year && 1 <= month <= 12 && 1 <= day <= DaysInMonth(year, month) }
  }

  /** Python's `date(y, m, d)`: `None` where it raises `ValueError`. */
  function MakeDate(y: int, m: int, d: int): (r: Option<Date>)
    ensures r.Some? <==> (1 <= y <= MaxYear && 1 <= m <= 12 && 1 <= d <= DaysInMonth(y, m))
    ensures r.Some? ==> r.value.Valid() && r.value == Date(y, m, d)
  {
    if 1 <= y <= MaxYear && 1 <= m <= 12 && 1 <= d <= DaysInMonth(y, m) then Some(Date(y, m, d)) else None
  }

  /** `a < b` for Python dates: year, then month, then day. */
  predicate DateBefore(a: Date, b: Date) {
    a.year < b.year ||
    (a.year == b.year && (a.month < b.month || (a.month == b.month && a.day < b.day)))
  }

  // ---------------------------------------------------------------------------
  // Day arithmetic

  function NextDay(d: Date): (r: Date)
    requires d.Valid()
    ensures r.Valid() && DateBefore(d, r)
  {
    if d.day < DaysInMonth(d.year, d.month) then Date(d.year, d.month, d.day + 1)
    else if d.month < 12 then Date(d.year, d.month + 1, 1)
    else Date(d.year + 1, 1, 1)
  }

  /** `d + timedelta(days=n)` for `n >= 0`. */
  function AddDays(d: Date, n: nat): (r: Date)
    requires d.Valid()
    ensures r.Valid()
    ensures n > 0 ==> DateBefore(d, r)
    decreases n
  {
    if n == 0 then d
    else
      var r := AddDays(NextDay(d), n - 1);
      DateBeforeTransitive(d, NextDay(d), r);
      r
  }

  lemma DateBeforeTransitive(a: Date, b: Date, c: Date)
    requires DateBefore(a, b) && (b == c || DateBefore(b, c))
    ensures DateBefore(a, c)
  {
  }

  // ---------------------------------------------------------------------------
  // Day count (Python's `date.toordinal()`) and weekday

  /** Days in the years before `y`, counted from 1 January of year 1. */
  function DaysBeforeYear(y: int): int
    requires y >= 1
  {
    var p := y - 1;
    p * 365 + p / 4 - p / 100 + p / 400
  }

  const DaysBeforeMonthTable: seq<int> := [0, 31, 59, 90, 120, 151, 181, 212, 243, 273, 304, 334]

  function DaysBeforeMonth(y: int, m: int): int
    requires 1 <= m <= 12
  {
    DaysBeforeMonthTable[m - 1] + (if m > 2 && IsLeap(y) then 1 else 0)
  }

  /** `date.toordinal()`: 1 January of year 1 is day 1. */
  function Ordinal(d: Date): int
    requires d.Valid()
  {
    DaysBeforeYear(d.year) + DaysBeforeMonth(d.year, d.month) + d.day
  }

  /** `date.weekday()`: 0 is Monday, 6 is Sunday. */
  function Weekday(d: Date): (w: int)
    requires d.Valid()
    ensures 0 <= w < 7
  {
    (Ordinal(d) + 6) % 7
  }

  lemma DaysBeforeNextMonth(y: int, m: int)
    requires 1 <= m < 12
    ensures DaysBeforeMonth(y, m + 1) == DaysBeforeMonth(y, m) + DaysInMonth(y, m)
  {
  }

  lemma DaysBeforeDecember(y: int)
    ensures DaysBeforeMonth(y, 12) + DaysInMonth(y, 12) == DaysInYear(y)
  {
  }

  lemma DaysBeforeNextYear(y: int)
    requires y >= 1
    ensures DaysBeforeYear(y + 1) == DaysBeforeYear(y) + DaysInYear(y)
  {
    var p := y - 1;
    DivStep(p, 4);
    DivStep(p, 100);
    DivStep(p, 400);
    DivisorsOf400(y);
  }

  /** Counting multiples of `k`: one more is passed exactly at a multiple. */
  lemma DivStep(p: nat, k: int)
    requires k == 4 || k == 100 || k == 400
    ensures (p + 1) / k == p / k + (if (p + 1) % k == 0 then 1 else 0)
  {
    var q, r := p / k, p % k;
    assert p == k * q + r && 0 <= r < k;
    if r == k - 1 {
      assert p + 1 == k * (q + 1);
    } else {
      assert p + 1 == k * q + (r + 1);
    }
  }

  lemma DivisorsOf400(y: int)
    ensures y % 400 == 0 ==> y % 100 == 0 && y % 4 == 0
    ensures y % 100 == 0 ==> y % 4 == 0
  {
    if y % 400 == 0 { assert y == 400 * (y / 400); assert y == 100 * (4 * (y / 400)); assert y == 4 * (100 * (y / 400)); }
    if y % 100 == 0 { assert y == 100 * (y / 100); assert y == 4 * (25 * (y / 100)); }
  }

  lemma NextDayOrdinal(d: Date)
    requires d.Valid()
    ensures Ordinal(NextDay(d)) == Ordinal(d) + 1
  {
    if d.day == DaysInMonth(d.year, d.month) {
      if d.month < 12 {
        DaysBeforeNextMonth(d.year, d.month);
      } else {
        DaysBeforeNextYear(d.year);
        DaysBeforeDecember(d.year);
      }
    }
  }

  /** Adding `n` days moves the day count forward by exactly `n`. */
  lemma {:induction false} AddDaysOrdinal(d: Date, n: nat)
    requires d.Valid()
    ensures Ordinal(AddDays(d, n)) == Ordinal(d) + n
    decreases n
  {
    if n > 0 {
      NextDayOrdinal(d);
      AddDaysOrdinal(NextDay(d), n - 1);
    }
  }

  /** Adding `n` days moves the weekday forward by `n` modulo 7. */
  lemma AddDaysWeekday(d: Date, n: nat)
    requires d.Valid()
    ensures Weekday(AddDays(d, n)) == (Weekday(d) + n) % 7
  {
    AddDaysOrdinal(d, n);
    WeekdayShift(Ordinal(d), Ordinal(AddDays(d, n)), n);
  }

  lemma WeekdayShift(o: int, o2: int, n: nat)
    requires o2 == o + n
    ensures (o2 + 6) % 7 == ((o + 6) % 7 + n) % 7
  {
    ModAddShift(o + 6, n);
  }

  lemma ModAddShift(a: int, n: int)
    ensures (a + n) % 7 == (a % 7 + n) % 7
  {
    var q := a / 7;
    assert a == 7 * q + a % 7;
    assert a + n == 7 * q + (a % 7 + n);
  }

  lemma DaysBeforeYearMonotone(a: int, b: int)
    requires 1 <= a <= b
    ensures DaysBeforeYear(a) + (b - a) * 365 <= DaysBeforeYear(b)
    decreases b - a
  {
    if a < b {
      DaysBeforeNextYear(a);
      DaysBeforeYearMonotone(a + 1, b);
    }
  }

  lemma DaysBeforeMonthMonotone(y: int, a: int, b: int)
    requires 1 <= a < b <= 12
    ensures DaysBeforeMonth(y, a) + DaysInMonth(y, a) <= DaysBeforeMonth(y, b)
    decreases b - a
  {
    DaysBeforeNextMonth(y, a);
    if a + 1 < b { DaysBeforeMonthMonotone(y, a + 1, b); }
  }

  lemma DayWithinYear(d: Date)
    requires d.Valid()
    ensures DaysBeforeMonth(d.year, d.month) + d.day <= DaysInYear(d.year)
  {
    if d.month < 12 {
      DaysBeforeMonthMonotone(d.year, d.month, 12);
    }
    DaysBeforeDecember(d.year);
  }

  /** A date of an earlier year has a smaller day count. */
  lemma EarlierYearOrdinal(a: Date, b: Date)
    requires a.Valid() && b.Valid() && a.year < b.year
    ensures Ordinal(a) < Ordinal(b)
  {
    DayWithinYear(a);
    DaysBeforeNextYear(a.year);
    DaysBeforeYearMonotone(a.year + 1, b.year);
  }

  /** A date of an earlier month of the same year has a smaller day count. */
  lemma EarlierMonthOrdinal(a: Date, b: Date)
    requires a.Valid() && b.Valid() && a.year == b.year && a.month < b.month
    ensures Ordinal(a) < Ordinal(b)
  {
    DaysBeforeMonthMonotone(a.year, a.month, b.month);
  }

  /** The order of dates is the order of their day counts. */
  lemma DateBeforeOrdinal(a: Date, b: Date)
    requires a.Valid() && b.Valid()
    ensures DateBefore(a, b) <==> Ordinal(a) < Ordinal(b)
  {
    if a.year < b.year {
      EarlierYearOrdinal(a, b);
    } else if b.year < a.year {
      EarlierYearOrdinal(b, a);
    } else if a.month < b.month {
      EarlierMonthOrdinal(a, b);
    } else if b.month < a.month {
      EarlierMonthOrdinal(b, a);
    }
  }

  // ---------------------------------------------------------------------------
  // Times of day and date-times

  /** Python's `datetime.time(h, m)`. */
  datatype TimeOfDay = TimeOfDay(hour: int, minute: int) {
    predicate Valid() { 0 <= hour < 24 && 0 <= minute < 60 }
  }

  /** Python's naive `datetime` (microseconds included) and Luxon's local
      `DateTime` with milliseconds written as microseconds. */
  datatype DateTime = DateTime(date: Date, hour: int, minute: int, second: int, micro: int) {
    predicate Valid() {
      date.Valid() && 0 <= hour < 24 && 0 <= minute < 60 && 0 <= second < 60 && 0 <= micro < 1000000
    }
  }

  /** `datetime.combine(d, t)`. */
  function Combine(d: Date, t: TimeOfDay): (r: DateTime)
    requires d.Valid() && t.Valid()
    ensures r.Valid() && r.date == d && r.hour == t.hour && r.minute == t.minute
    ensures r.second == 0 && r.micro == 0
  {
    DateTime(d, t.hour, t.minute, 0, 0)
  }

  /** `a < b` for naive datetimes: the date, then each field of the time. */
  predicate Before(a: DateTime, b: DateTime) {
    DateBefore(a.date, b.date) ||
    (a.date == b.date &&
      (a.hour < b.hour || (a.hour == b.hour &&
        (a.minute < b.minute || (a.minute == b.minute &&
          (a.second < b.second || (a.second == b.second && a.micro < b.micro)))))))
  }

  /** `dt + timedelta(days=n)`. */
  function PlusDays(dt: DateTime, n: nat): (r: DateTime)
    requires dt.Valid()
    ensures r.Valid() && r.date == AddDays(dt.date, n)
    ensures (r.hour, r.minute, r.second, r.micro) == (dt.hour, dt.minute, dt.second, dt.micro)
    ensures n > 0 ==> Before(dt, r)
  {
    dt.(date := AddDays(dt.date, n))
  }

  /** `dt + timedelta(hours=1)`, which may roll into the next day. */
  function PlusHour(dt: DateTime): (r: DateTime)
    requires dt.Valid()
    ensures r.Valid() && Before(dt, r)
  {
    if dt.hour < 23 then dt.(hour := dt.hour + 1)
    else dt.(date := NextDay(dt.date), hour := 0)
  }

  /** Microseconds since the start of day 0 of the day count: the "instant"
      that Luxon's `toMillis()` and database ordering compare. */
  function Instant(dt: DateTime): int
    requires dt.Valid()
  {
    (((Ordinal(dt.date) * 24 + dt.hour) * 60 + dt.minute) * 60 + dt.second) * 1000000 + dt.micro
  }

  const MicrosPerHour := 3600000000

  lemma PlusHourInstant(dt: DateTime)
    requires dt.Valid()
    ensures Instant(PlusHour(dt)) == Instant(dt) + MicrosPerHour
  {
    if dt.hour == 23 { NextDayOrdinal(dt.date); }
  }

  lemma PlusDaysInstant(dt: DateTime, n: nat)
    requires dt.Valid()
    ensures Instant(PlusDays(dt, n)) == Instant(dt) + n * 24 * MicrosPerHour
  {
    AddDaysOrdinal(dt.date, n);
  }

  /** Comparing date-times field by field is comparing their instants. */
  lemma BeforeInstant(a: DateTime, b: DateTime)
    requires a.Valid() && b.Valid()
    ensures Before(a, b) <==> Instant(a) < Instant(b)
    ensures a == b <==> Instant(a) == Instant(b)
  {
    DateBeforeOrdinal(a.date, b.date);
    DateBeforeOrdinal(b.date, a.date);
    var oa, ob := Ordinal(a.date), Ordinal(b.date);
    var ta := ((a.hour * 60 + a.minute) * 60 + a.second) * 1000000 + a.micro;
    var tb := ((b.hour * 60 + b.minute) * 60 + b.second) * 1000000 + b.micro;
    assert Instant(a) == oa * 86400000000 + ta;
    assert Instant(b) == ob * 86400000000 + tb;
    assert 0 <= ta < 86400000000 && 0 <= tb < 86400000000;
    if a.date == b.date {
      TimeFieldsOrder(a, b);
    } else {
      assert oa != ob;
    }
  }

  lemma TimeFieldsOrder(a: DateTime, b: DateTime)
    requires a.Valid() && b.Valid()
    ensures (a.hour < b.hour || (a.hour == b.hour &&
              (a.minute < b.minute || (a.minute == b.minute &&
                (a.second < b.second || (a.second == b.second && a.micro < b.micro))))))
            <==> ((a.hour * 60 + a.minute) * 60 + a.second) * 1000000 + a.micro
                 < ((b.hour * 60 + b.minute) * 60 + b.second) * 1000000 + b.micro
    ensures (a.hour, a.minute, a.second, a.micro) == (b.hour, b.minute, b.second, b.micro)
            <==> ((a.hour * 60 + a.minute) * 60 + a.second) * 1000000 + a.micro
                 == ((b.hour * 60 + b.minute) * 60 + b.second) * 1000000 + b.micro
  {
  }

  lemma BeforeIrreflexive(a: DateTime)
    ensures !Before(a, a)
  {
  }

  lemma NotBeforeIsAtOrAfter(a: DateTime, b: DateTime)
    requires !Before(a, b)
    ensures a == b || Before(b, a)
  {
  }

  // ---------------------------------------------------------------------------
  // Text formats

  /** `yyyy-MM-dd`. */
  function FormatDate(d: Date): (s: string)
    requires d.Valid()
  {
    Pad(d.year, 4) + "-" + Pad(d.month, 2) + "-" + Pad(d.day, 2)
  }

  /** `HH:mm`. */
  function FormatHM(hour: nat, minute: nat): string
  {
    Pad(hour, 2) + ":" + Pad(minute, 2)
  }

  /** `yyyy-MM-dd'T'HH:mm:ss`, which is also Python's `isoformat()` of a
      datetime whose microseconds are zero. */
  function FormatIsoSeconds(dt: DateTime): string
    requires dt.Valid()
  {
    FormatDate(dt.date) + "T" + FormatHM(dt.hour, dt.minute) + ":" + Pad(dt.second, 2)
  }

  /** Python's `datetime.isoformat()`: microseconds are written only when
      they are not zero. */
  function PythonIsoFormat(dt: DateTime): string
    requires dt.Valid()
  {
    FormatIsoSeconds(dt) + (if dt.micro == 0 then "" else "." + Pad(dt.micro, 6))
  }

  /** The value of the digits `s[i..j]`, if they are all digits. */
  function DigitField(s: string, i: nat, j: nat): (r: Option<nat>)
    requires i <= j <= |s|
    ensures r.Some? <==> AllDigits(s[i..j])
  {
    if AllDigits(s[i..j]) then Some(DigitsValue(s[i..j])) else None
  }

  /** Luxon's `DateTime.fromFormat(s, 'yyyy-MM-dd')`: exactly four, two and
      two digits with dashes between; a date that does not exist is invalid. */
  function ParseDate(s: string): (r: Option<Date>)
    ensures r.Some? ==> r.value.Valid() && r.value.year <= MaxYear
  {
    if |s| != 10 || s[4] != '-' || s[7] != '-' then None
    else
      match (DigitField(s, 0, 4), DigitField(s, 5, 7), DigitField(s, 8, 10))
      case (Some(y), Some(m), Some(d)) =>
        DigitsValueBound(s[0..4]);
        assert Pow10(4) == 10000;
        if Date(y, m, d).Valid() then Some(Date(y, m, d)) else None
      case _ => None
  }

  /** Luxon's `DateTime.fromFormat(s, 'yyyy-MM-dd HH:mm')` in the local zone.
      Luxon accepts the hour 24 with minute 0 as midnight ending the day. */
  function ParseDateHM(s: string): (r: Option<DateTime>)
    ensures r.Some? ==> r.value.Valid() && r.value.second == 0 && r.value.micro == 0
  {
    if |s| != 16 || s[10] != ' ' || s[13] != ':' then None
    else
      match (ParseDate(s[..10]), DigitField(s, 11, 13), DigitField(s, 14, 16))
      case (Some(d), Some(h), Some(m)) =>
        if h < 24 && m < 60 then Some(DateTime(d, h, m, 0, 0))
        else if h == 24 && m == 0 then Some(DateTime(NextDay(d), 0, 0, 0, 0))
        else None
      case _ => None
  }

  lemma PadFields(n: nat, width: nat)
    requires width >= 1 && n < Pow10(width)
    ensures |Pad(n, width)| == width && AllDigits(Pad(n, width)) && DigitsValue(Pad(n, width)) == n
  {
    PadRoundTrip(n, width);
  }

  /** The fields of `a-b-c` with widths four, two and two. */
  lemma DateFields(s: string, a: string, b: string, c: string)
    requires s == a + "-" + b + "-" + c && |a| == 4 && |b| == 2 && |c| == 2
    ensures |s| == 10 && s[4] == '-' && s[7] == '-' && s[0..4] == a && s[5..7] == b && s[8..10] == c
  {
  }

  /** The fields of `a b:c` with widths ten, two and two. */
  lemma DateHMFields(s: string, a: string, b: string, c: string)
    requires s == a + " " + b + ":" + c && |a| == 10 && |b| == 2 && |c| == 2
    ensures |s| == 16 && s[10] == ' ' && s[13] == ':' && s[..10] == a && s[11..13] == b && s[14..16] == c
  {
  }

  /** A written date reads back as the same date. */
  lemma ParseFormatDate(d: Date)
    requires d.Valid() && d.year <= MaxYear
    ensures |FormatDate(d)| == 10
    ensures ParseDate(FormatDate(d)) == Some(d)
  {
    assert Pow10(4) == 10000 && Pow10(2) == 100;
    PadFields(d.year, 4);
    PadFields(d.month, 2);
    PadFields(d.day, 2);
    var s := FormatDate(d);
    DateFields(s, Pad(d.year, 4), Pad(d.month, 2), Pad(d.day, 2));
    assert DigitField(s, 0, 4) == Some(d.year);
    assert DigitField(s, 5, 7) == Some(d.month);
    assert DigitField(s, 8, 10) == Some(d.day);
  }

  /** A written date and minute read back as the same date-time. */
  lemma ParseFormatDateHM(d: Date, hour: nat, minute: nat)
    requires d.Valid() && d.year <= MaxYear && hour < 24 && minute < 60
    ensures ParseDateHM(FormatDate(d) + " " + FormatHM(hour, minute)) == Some(DateTime(d, hour, minute, 0, 0))
  {
    ParseFormatDate(d);
    assert Pow10(2) == 100;
    PadFields(hour, 2);
    PadFields(minute, 2);
    var s := FormatDate(d) + " " + FormatHM(hour, minute);
    DateHMFields(s, FormatDate(d), Pad(hour, 2), Pad(minute, 2));
    assert DigitField(s, 11, 13) == Some(hour);
    assert DigitField(s, 14, 16) == Some(minute);
  }

  /** Different valid dates are written differently. */
  lemma FormatDateInjective(a: Date, b: Date)
    requires a.Valid() && b.Valid() && a.year <= MaxYear && b.year <= MaxYear
    ensures FormatDate(a) == FormatDate(b) <==> a == b
  {
    ParseFormatDate(a);
    ParseFormatDate(b);
  }
}
