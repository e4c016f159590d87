/** Calendar arithmetic behind the timestamps: the proleptic Gregorian
    calendar of Python's datetime, instants as whole seconds since
    0001-01-01T00:00:00, the strftime/strptime layouts the scripts use,
    and the range of instants a pandas Timestamp can hold. */
module Calendar {
  import opened Strings

  datatype DateTime = DateTime(year: nat, month: nat, day: nat, hour: nat, minute: nat, second: nat)

  predicate IsLeap(y: int)
  {
    y % 4 == 0 && (y % 100 != 0 || y % 400 == 0)
  }

  function DaysInYear(y: int): int
  {
    if IsLeap(y) then 366 else 365
  }

  function DaysInMonth(y: int, m: int): int
    requires 1 <= m <= 12
  {
    if m == 2 then (if IsLeap(y) then 29 else 28)
    else if m == 4 || m == 6 || m == 9 || m == 11 then 30
    else 31
  }

  /** Days of year y that precede the first of month m. */
  function DaysBeforeMonth(y: int, m: int): int
    requires 1 <= m <= 12
  {
    [0, 31, 59, 90, 120, 151, 181, 212, 243, 273, 304, 334][m - 1]
      + (if m > 2 && IsLeap(y) then 1 else 0)
  }

  /** Days from 0001-01-01 to the first of January of year y. */
  function DaysBeforeYear(y: int): int
    requires y >= 1
  {
    var x := y - 1;
    x * 365 + x / 4 - x / 100 + x / 400
  }

  predicate Valid(dt: DateTime)
  {
    && 1 <= dt.year <= 9999
    && 1 <= dt.month <= 12
    && 1 <= dt.day <= DaysInMonth(dt.year, dt.month)
    && 0 <= dt.hour < 24
    && 0 <= dt.minute < 60
    && 0 <= dt.second < 60
  }

  /** Days from 0001-01-01 to the date of dt (Python's toordinal() - 1). */
  function DayNumber(dt: DateTime): int
    requires Valid(dt)
  {
    DaysBeforeYear(dt.year) + DaysBeforeMonth(dt.year, dt.month) + dt.day - 1
  }

  function SecondOfDay(dt: DateTime): int
  {
    dt.hour * 3600 + dt.minute * 60 + dt.second
  }

  /** The instant dt names, in seconds since 0001-01-01T00:00:00. */
  function ToSeconds(dt: DateTime): int
    requires Valid(dt)
  {
    DayNumber(dt) * 86400 + SecondOfDay(dt)
  }

  /** Days from 0001-01-01 to 10000-01-01: one past the last representable day. */
  const MaxDays: int := 3652059

  lemma YearStep(y: int)
    requires y >= 1
    ensures DaysBeforeYear(y + 1) == DaysBeforeYear(y) + DaysInYear(y)
  {
    DivStep(y, 4);
    DivStep(y, 100);
    DivStep(y, 400);
  }

  /** y / k steps up by one exactly when y is a multiple of k. */
  lemma DivStep(y: int, k: int)
    requires y >= 1 && k >= 1
    ensures y / k - (y - 1) / k == if y % k == 0 then 1 else 0
  {
    var q, r := (y - 1) / k, (y - 1) % k;
    assert y - 1 == k * q + r && 0 <= r < k;
    if r == k - 1 {
      assert y == k * (q + 1) + 0;
      DivUnique(y, k, q + 1, 0);
    } else {
      assert y == k * q + (r + 1);
      DivUnique(y, k, q, r + 1);
    }
  }

  lemma DivUnique(y: int, k: int, q: int, r: int)
    requires k >= 1 && 0 <= r < k && y == k * q + r
    ensures y / k == q && y % k == r
  {
    var q', r' := y / k, y % k;
    assert k * (q' - q) == r - r';
    MulBounded(k, q' - q);
  }

  /** The only multiple of k strictly between -k and k is 0. */
  lemma MulBounded(k: int, d: int)
    requires k >= 1 && -k < k * d < k
    ensures d == 0
  {
  }

  lemma {:induction false} YearsOrdered(a: int, b: int)
    requires 1 <= a < b
    ensures DaysBeforeYear(a) + DaysInYear(a) <= DaysBeforeYear(b)
    decreases b - a
  {
    YearStep(a);
    if a + 1 < b {
      YearsOrdered(a + 1, b);
    }
  }

  lemma MonthStep(y: int, m: int)
    requires 1 <= m < 12
    ensures DaysBeforeMonth(y, m + 1) == DaysBeforeMonth(y, m) + DaysInMonth(y, m)
  {
  }

  lemma {:induction false} MonthsOrdered(y: int, a: int, b: int)
    requires 1 <= a < b <= 12
    ensures DaysBeforeMonth(y, a) + DaysInMonth(y, a) <= DaysBeforeMonth(y, b)
    decreases b - a
  {
    MonthStep(y, a);
    if a + 1 < b {
      MonthsOrdered(y, a + 1, b);
    }
  }

  /** The year holding day number `days` counted from the start of year y,
      and that day's position within its year. */
  function YearOf(days: int, y: int): (int, int)
    requires days >= 0
    decreases days
  {
    if days < DaysInYear(y) then (y, days) else YearOf(days - DaysInYear(y), y + 1)
  }

  /** The year found is y or later, the position lies inside it, and the two
      together count the same days as (y, days). */
  lemma {:induction false} YearOfFacts(days: int, y: int)
    requires y >= 1 && days >= 0
    ensures var r := YearOf(days, y); r.0 >= y && 0 <= r.1 < DaysInYear(r.0)
    ensures var r := YearOf(days, y); DaysBeforeYear(r.0) + r.1 == DaysBeforeYear(y) + days
    decreases days
  {
    YearStep(y);
    if days >= DaysInYear(y) {
      YearOfFacts(days - DaysInYear(y), y + 1);
    }
  }

  /** The month, from m on, that holds day `doy` of year y. */
  function MonthOf(y: int, doy: int, m: int): int
    requires 1 <= m <= 12
    decreases 12 - m
  {
    if m == 12 || doy < DaysBeforeMonth(y, m + 1) then m else MonthOf(y, doy, m + 1)
  }

  /** For a day inside year y, the month found holds that day. */
  lemma {:induction false} MonthOfFacts(y: int, doy: int, m: int)
    requires 1 <= m <= 12 && DaysBeforeMonth(y, m) <= doy < DaysInYear(y)
    ensures var r := MonthOf(y, doy, m);
      m <= r <= 12 && DaysBeforeMonth(y, r) <= doy < DaysBeforeMonth(y, r) + DaysInMonth(y, r)
    decreases 12 - m
  {
    if m < 12 {
      MonthStep(y, m);
      if doy >= DaysBeforeMonth(y, m + 1) {
        MonthOfFacts(y, doy, m + 1);
      }
    }
  }

  /** The calendar fields of an instant (Python's datetime.min + timedelta(seconds=t)). */
  function FromSeconds(t: int): DateTime
    requires 0 <= t < MaxDays * 86400
  {
    var days := t / 86400;
    var rem := t % 86400;
    var yd := YearOf(days, 1);
    YearOfFacts(days, 1);
    var m := MonthOf(yd.0, yd.1, 1);
    MonthOfFacts(yd.0, yd.1, 1);
    DateTime(yd.0, m, yd.1 - DaysBeforeMonth(yd.0, m) + 1, rem / 3600, rem % 3600 / 60, rem % 60)
  }

  /** The calendar reading of an instant is a valid date-time that names
      that instant again. */
  lemma FromSecondsFacts(t: int)
    requires 0 <= t < MaxDays * 86400
    ensures Valid(FromSeconds(t)) && ToSeconds(FromSeconds(t)) == t
  {
    var days := t / 86400;
    var yd := YearOf(days, 1);
    YearOfFacts(days, 1);
    YearBound(yd.0);
    MonthOfFacts(yd.0, yd.1, 1);
  }

  lemma YearBound(y: int)
    requires y >= 1
    ensures y >= 10000 ==> DaysBeforeYear(y) >= MaxDays
  {
    if y > 10000 {
      YearsOrdered(10000, y);
    }
  }

  /** Every valid date-time is the calendar reading of exactly its own instant. */
  lemma FromToSeconds(dt: DateTime)
    requires Valid(dt)
    ensures 0 <= ToSeconds(dt) < MaxDays * 86400
    ensures FromSeconds(ToSeconds(dt)) == dt
  {
    var t := ToSeconds(dt);
    var dn := DayNumber(dt);
    var doy := DaysBeforeMonth(dt.year, dt.month) + dt.day - 1;
    assert 0 <= doy < DaysInYear(dt.year) by {
      if dt.month < 12 { MonthsOrdered(dt.year, dt.month, 12); }
    }
    YearsOrdered(dt.year, 10000);
    assert 0 <= dn < MaxDays;
    ClockFields(dt);
    var yd := YearOf(dn, 1);
    YearOfFacts(dn, 1);
    SameYear(yd.0, yd.1, dt.year, doy);
    var m := MonthOf(dt.year, doy, 1);
    MonthOfFacts(dt.year, doy, 1);
    SameMonth(dt.year, doy, m, dt.month);
  }

  /** The divisions FromSeconds performs recover the day number and the clock fields. */
  lemma ClockFields(dt: DateTime)
    requires Valid(dt)
    ensures var t, rem := ToSeconds(dt), SecondOfDay(dt);
      && t / 86400 == DayNumber(dt) && t % 86400 == rem
      && rem / 3600 == dt.hour && rem % 3600 / 60 == dt.minute && rem % 60 == dt.second
  {
    var rem := SecondOfDay(dt);
    DivUnique(ToSeconds(dt), 86400, DayNumber(dt), rem);
    DivUnique(rem, 3600, dt.hour, dt.minute * 60 + dt.second);
    DivUnique(dt.minute * 60 + dt.second, 60, dt.minute, dt.second);
    DivUnique(rem, 60, dt.hour * 60 + dt.minute, dt.second);
  }

  lemma SameYear(y1: int, d1: int, y2: int, d2: int)
    requires y1 >= 1 && y2 >= 1
    requires 0 <= d1 < DaysInYear(y1) && 0 <= d2 < DaysInYear(y2)
    requires DaysBeforeYear(y1) + d1 == DaysBeforeYear(y2) + d2
    ensures y1 == y2 && d1 == d2
  {
    if y1 < y2 {
      YearsOrdered(y1, y2);
    } else if y2 < y1 {
      YearsOrdered(y2, y1);
    }
  }

  lemma SameMonth(y: int, doy: int, m1: int, m2: int)
    requires 1 <= m1 <= 12 && 1 <= m2 <= 12
    requires DaysBeforeMonth(y, m1) <= doy < DaysBeforeMonth(y, m1) + DaysInMonth(y, m1)
    requires DaysBeforeMonth(y, m2) <= doy < DaysBeforeMonth(y, m2) + DaysInMonth(y, m2)
    ensures m1 == m2
  {
    if m1 < m2 {
      MonthsOrdered(y, m1, m2);
    } else if m2 < m1 {
      MonthsOrdered(y, m2, m1);
    }
  }

  // ---------------------------------------------------------------------
  // Representable instants
  // ---------------------------------------------------------------------

  /** The earliest whole second a nanosecond-resolution pandas Timestamp
      (what pandas.to_datetime returns before pandas 3.0) can hold
      (Timestamp.min is 1677-09-21 00:12:43.145224193). */
  const MinInstant: int := 52912224764

  /** The latest whole second a nanosecond-resolution pandas Timestamp can
      hold (Timestamp.max is 2262-04-11 23:47:16.854775807). */
  const MaxInstant: int := 71358968836

  /** Whether start + timedelta(seconds=...) can yield this instant without an
      out-of-bounds error. */
  predicate InRange(t: int)
  {
    MinInstant <= t <= MaxInstant
  }

  /** The two bounds are the instants of those date-times. */
  lemma InstantBounds()
    ensures Valid(DateTime(1677, 9, 21, 0, 12, 44)) && MinInstant == ToSeconds(DateTime(1677, 9, 21, 0, 12, 44))
    ensures Valid(DateTime(2262, 4, 11, 23, 47, 16)) && MaxInstant == ToSeconds(DateTime(2262, 4, 11, 23, 47, 16))
  {
  }

  lemma InRangeIsRepresentable(t: int)
    requires InRange(t)
    ensures 0 <= t < MaxDays * 86400
  {
  }

  // ---------------------------------------------------------------------
  // strftime / strptime layouts
  // ---------------------------------------------------------------------

  /** strftime("%Y-%m-%dT%H:%M:%S"). */
  function IsoFormat(dt: DateTime): string
  {
    Pad(dt.year, 4) + "-" + Pad(dt.month, 2) + "-" + Pad(dt.day, 2) + "T"
      + Pad(dt.hour, 2) + ":" + Pad(dt.minute, 2) + ":" + Pad(dt.second, 2)
  }

  /** strftime("%Y%m%d%H%M.t+000"): the date-time stamp of the output file names. */
  function CompactFormat(dt: DateTime): string
  {
    Pad(dt.year, 4) + Pad(dt.month, 2) + Pad(dt.day, 2) + Pad(dt.hour, 2) + Pad(dt.minute, 2) + ".t+000"
  }

  /** "%4.4d%2.2d" % (year, month): the token that names a monthly archive file. */
  function MonthToken(dt: DateTime): string
  {
    Pad(dt.year, 4) + Pad(dt.month, 2)
  }

  predicate IsoShaped(s: string)
  {
    && |s| == 19
    && s[4] == '-' && s[7] == '-' && s[10] == 'T' && s[13] == ':' && s[16] == ':'
    && AllDigits(s[0..4]) && AllDigits(s[5..7]) && AllDigits(s[8..10])
    && AllDigits(s[11..13]) && AllDigits(s[14..16]) && AllDigits(s[17..19])
  }

  /** datetime.strptime(s, "%Y-%m-%dT%H:%M:%S") on the zero-padded layout;
      None stands for the ValueError it raises. */
  function ParseIso(s: string): Option<DateTime>
  {
    if !IsoShaped(s) then None
    else
      var dt := DateTime(DecimalValue(s[0..4]), DecimalValue(s[5..7]), DecimalValue(s[8..10]),
                         DecimalValue(s[11..13]), DecimalValue(s[14..16]), DecimalValue(s[17..19]));
      if Valid(dt) then Some(dt) else None
  }

  lemma PadFields(dt: DateTime)
    requires Valid(dt)
    ensures |Pad(dt.year, 4)| == 4 && AllDigits(Pad(dt.year, 4)) && DecimalValue(Pad(dt.year, 4)) == dt.year
    ensures |Pad(dt.month, 2)| == 2 && AllDigits(Pad(dt.month, 2)) && DecimalValue(Pad(dt.month, 2)) == dt.month
    ensures |Pad(dt.day, 2)| == 2 && AllDigits(Pad(dt.day, 2)) && DecimalValue(Pad(dt.day, 2)) == dt.day
    ensures |Pad(dt.hour, 2)| == 2 && AllDigits(Pad(dt.hour, 2)) && DecimalValue(Pad(dt.hour, 2)) == dt.hour
    ensures |Pad(dt.minute, 2)| == 2 && AllDigits(Pad(dt.minute, 2)) && DecimalValue(Pad(dt.minute, 2)) == dt.minute
    ensures |Pad(dt.second, 2)| == 2 && AllDigits(Pad(dt.second, 2)) && DecimalValue(Pad(dt.second, 2)) == dt.second
  {
    assert Pow10(2) == 100 && Pow10(4) == 10000;
    PadFixed(dt.year, 4);
    PadFixed(dt.month, 2);
    PadFixed(dt.day, 2);
    PadFixed(dt.hour, 2);
    PadFixed(dt.minute, 2);
    PadFixed(dt.second, 2);
  }

  /** The ISO rendering of a valid date-time is 19 characters with the
      separators in place and each field at its fixed position. */
  lemma IsoLayout(dt: DateTime)
    requires Valid(dt)
    ensures var s := IsoFormat(dt);
      && |s| == 19
      && s[0..4] == Pad(dt.year, 4) && s[4] == '-' && s[5..7] == Pad(dt.month, 2) && s[7] == '-'
      && s[8..10] == Pad(dt.day, 2) && s[10] == 'T' && s[11..13] == Pad(dt.hour, 2) && s[13] == ':'
      && s[14..16] == Pad(dt.minute, 2) && s[16] == ':' && s[17..19] == Pad(dt.second, 2)
  {
    PadFields(dt);
    IsoShape(Pad(dt.year, 4), Pad(dt.month, 2), Pad(dt.day, 2), Pad(dt.hour, 2), Pad(dt.minute, 2), Pad(dt.second, 2));
  }

  lemma IsoShape(y: string, mo: string, d: string, h: string, mi: string, se: string)
    requires |y| == 4 && |mo| == 2 && |d| == 2 && |h| == 2 && |mi| == 2 && |se| == 2
    ensures var s := y + "-" + mo + "-" + d + "T" + h + ":" + mi + ":" + se;
      && |s| == 19
      && s[0..4] == y && s[4] == '-' && s[5..7] == mo && s[7] == '-'
      && s[8..10] == d && s[10] == 'T' && s[11..13] == h && s[13] == ':'
      && s[14..16] == mi && s[16] == ':' && s[17..19] == se
  {
  }

  /** strptime reads back exactly what strftime wrote. */
  lemma IsoRoundTrip(dt: DateTime)
    requires Valid(dt)
    ensures ParseIso(IsoFormat(dt)) == Some(dt)
  {
    PadFields(dt);
    IsoLayout(dt);
  }

  /** Whatever strptime accepts is the strftime rendering of what it returns. */
  lemma IsoParsedFormats(s: string)
    requires ParseIso(s).Some?
    ensures IsoFormat(ParseIso(s).value) == s
  {
    var dt := ParseIso(s).value;
    PadCanonical(s[0..4]);
    PadCanonical(s[5..7]);
    PadCanonical(s[8..10]);
    PadCanonical(s[11..13]);
    PadCanonical(s[14..16]);
    PadCanonical(s[17..19]);
    IsoLayout(dt);
    var t := IsoFormat(dt);
    assert forall i | 0 <= i < 19 :: t[i] == s[i] by {
      forall i | 0 <= i < 19 ensures t[i] == s[i] {
        if i < 4 { assert t[i] == t[0..4][i]; assert s[i] == s[0..4][i]; }
        else if 5 <= i < 7 { assert t[i] == t[5..7][i - 5]; assert s[i] == s[5..7][i - 5]; }
        else if 8 <= i < 10 { assert t[i] == t[8..10][i - 8]; assert s[i] == s[8..10][i - 8]; }
        else if 11 <= i < 13 { assert t[i] == t[11..13][i - 11]; assert s[i] == s[11..13][i - 11]; }
        else if 14 <= i < 16 { assert t[i] == t[14..16][i - 14]; assert s[i] == s[14..16][i - 14]; }
        else if 17 <= i < 19 { assert t[i] == t[17..19][i - 17]; assert s[i] == s[17..19][i - 17]; }
      }
    }
  }

  /** The compact stamp is 18 characters: the twelve digits of year to minute,
      then ".t+000"; its first six characters are the month token. */
  lemma CompactLayout(dt: DateTime)
    requires Valid(dt)
    ensures var c := CompactFormat(dt);
      && |c| == 18
      && c[0..4] == Pad(dt.year, 4) && c[4..6] == Pad(dt.month, 2) && c[6..8] == Pad(dt.day, 2)
      && c[8..10] == Pad(dt.hour, 2) && c[10..12] == Pad(dt.minute, 2) && c[12..] == ".t+000"
      && AllDigits(c[..12])
      && c[..6] == MonthToken(dt) && |MonthToken(dt)| == 6
  {
    PadFields(dt);
    CompactShape(Pad(dt.year, 4), Pad(dt.month, 2), Pad(dt.day, 2), Pad(dt.hour, 2), Pad(dt.minute, 2));
  }

  lemma CompactShape(y: string, mo: string, d: string, h: string, mi: string)
    requires |y| == 4 && |mo| == 2 && |d| == 2 && |h| == 2 && |mi| == 2
    requires AllDigits(y) && AllDigits(mo) && AllDigits(d) && AllDigits(h) && AllDigits(mi)
    ensures var c := y + mo + d + h + mi + ".t+000";
      && |c| == 18
      && c[0..4] == y && c[4..6] == mo && c[6..8] == d && c[8..10] == h && c[10..12] == mi
      && c[12..] == ".t+000" && c[..6] == y + mo && AllDigits(c[..12])
  {
    var c := y + mo + d + h + mi + ".t+000";
    assert c[..12] == y + mo + d + h + mi;
  }

  // ---------------------------------------------------------------------
  // What the renderings reveal about instants
  // ---------------------------------------------------------------------

  /** Two instants render to the same ISO string exactly when they are the same instant. */
  lemma IsoInjective(t1: int, t2: int)
    requires 0 <= t1 < MaxDays * 86400 && 0 <= t2 < MaxDays * 86400
    ensures IsoFormat(FromSeconds(t1)) == IsoFormat(FromSeconds(t2)) <==> t1 == t2
  {
    if IsoFormat(FromSeconds(t1)) == IsoFormat(FromSeconds(t2)) {
      FromSecondsFacts(t1);
      FromSecondsFacts(t2);
      IsoRoundTrip(FromSeconds(t1));
      IsoRoundTrip(FromSeconds(t2));
    }
  }

  /** Two instants share a compact stamp exactly when they fall in the same minute. */
  lemma CompactSameMinute(t1: int, t2: int)
    requires 0 <= t1 < MaxDays * 86400 && 0 <= t2 < MaxDays * 86400
    ensures CompactFormat(FromSeconds(t1)) == CompactFormat(FromSeconds(t2)) <==> t1 / 60 == t2 / 60
  {
    FromSecondsFacts(t1);
    FromSecondsFacts(t2);
    if CompactFormat(FromSeconds(t1)) == CompactFormat(FromSeconds(t2)) {
      SameStampSameMinute(FromSeconds(t1), FromSeconds(t2));
    }
    if t1 / 60 == t2 / 60 {
      SameMinuteSameFields(t1, t2);
    }
  }

  lemma SameStampSameMinute(a: DateTime, b: DateTime)
    requires Valid(a) && Valid(b) && CompactFormat(a) == CompactFormat(b)
    ensures ToSeconds(a) / 60 == ToSeconds(b) / 60
  {
    MinuteOf(a);
    MinuteOf(b);
    CompactLayout(a);
    CompactLayout(b);
    PadFields(a);
    PadFields(b);
  }

  lemma SameMinuteSameFields(t1: int, t2: int)
    requires 0 <= t1 < MaxDays * 86400 && 0 <= t2 < MaxDays * 86400 && t1 / 60 == t2 / 60
    ensures var a, b := FromSeconds(t1), FromSeconds(t2);
      a.year == b.year && a.month == b.month && a.day == b.day && a.hour == b.hour && a.minute == b.minute
  {
    var a, b := FromSeconds(t1), FromSeconds(t2);
    FromSecondsFacts(t1);
    FromSecondsFacts(t2);
    MinuteOf(a);
    MinuteOf(b);
    var ma, mb := a.hour * 60 + a.minute, b.hour * 60 + b.minute;
    DivUnique(t1 / 60, 1440, DayNumber(a), ma);
    DivUnique(t2 / 60, 1440, DayNumber(b), mb);
    DivUnique(ma, 60, a.hour, a.minute);
    DivUnique(mb, 60, b.hour, b.minute);
    var a0, b0 := DateTime(a.year, a.month, a.day, 0, 0, 0), DateTime(b.year, b.month, b.day, 0, 0, 0);
    FromToSeconds(a0);
    FromToSeconds(b0);
    assert ToSeconds(a0) == ToSeconds(b0);
  }

  lemma MinuteOf(dt: DateTime)
    requires Valid(dt)
    ensures ToSeconds(dt) / 60 == DayNumber(dt) * 1440 + dt.hour * 60 + dt.minute
  {
    DivUnique(ToSeconds(dt), 60, DayNumber(dt) * 1440 + dt.hour * 60 + dt.minute, dt.second);
  }

  /** Python's `<` on strings: lexicographic order by code point. */
  predicate LexLess(a: string, b: string)
  {
    || (|a| < |b| && a == b[..|a|])
    || exists k :: 0 <= k < |a| && k < |b| && a[..k] == b[..k] && a[k] < b[k]
  }

  /** For digit strings of one width, numeric order is string order. */
  lemma {:induction false} DigitsOrder(s: string, t: string) returns (k: nat)
    requires |s| == |t| && AllDigits(s) && AllDigits(t)
    requires DecimalValue(s) < DecimalValue(t)
    ensures k < |s| && s[..k] == t[..k] && s[k] < t[k]
  {
    var n := |s|;
    var s', t' := s[..n - 1], t[..n - 1];
    var vs, vt := DecimalValue(s'), DecimalValue(t');
    assert DecimalValue(s) == vs * 10 + DigitValue(s[n - 1]);
    assert DecimalValue(t) == vt * 10 + DigitValue(t[n - 1]);
    if vs < vt {
      k := DigitsOrder(s', t');
      assert s[..k] == s'[..k] && t[..k] == t'[..k];
    } else {
      assert vs == vt;
      if n > 1 {
        PadCanonical(s');
        PadCanonical(t');
      }
      assert s' == t';
      k := n - 1;
      assert DigitValue(s[k]) < DigitValue(t[k]);
    }
  }

  /** Lays one field's order over whole strings that agree before the field. */
  lemma FieldOrder(s: string, t: string, off: int, w: int)
    requires |s| == |t| && 0 <= off && 1 <= w && off + w <= |s|
    requires s[..off] == t[..off]
    requires AllDigits(s[off..off + w]) && AllDigits(t[off..off + w])
    requires DecimalValue(s[off..off + w]) < DecimalValue(t[off..off + w])
    ensures LexLess(s, t)
  {
    var k := DigitsOrder(s[off..off + w], t[off..off + w]);
    assert s[off..off + w][..k] == s[off..off + k] && t[off..off + w][..k] == t[off..off + k];
    assert s[..off + k] == s[..off] + s[off..off + k];
    assert t[..off + k] == t[..off] + t[off..off + k];
    assert s[off + k] == s[off..off + w][k] && t[off + k] == t[off..off + w][k];
  }

  lemma SecondsOrder(a: DateTime, b: DateTime)
    requires Valid(a) && Valid(b)
    ensures a.year < b.year ==> ToSeconds(a) < ToSeconds(b)
    ensures a.year == b.year && a.month < b.month ==> ToSeconds(a) < ToSeconds(b)
    ensures a.year == b.year && a.month == b.month
      ==> ToSeconds(a) - ToSeconds(b) == (a.day - b.day) * 86400 + SecondOfDay(a) - SecondOfDay(b)
  {
    if a.month < 12 {
      MonthsOrdered(a.year, a.month, 12);
    }
    if a.year < b.year {
      YearsOrdered(a.year, b.year);
    }
    if a.year == b.year && a.month < b.month {
      MonthsOrdered(a.year, a.month, b.month);
    }
  }

  /** An earlier instant has an earlier calendar reading, field by field. */
  lemma TupleOrder(a: DateTime, b: DateTime)
    requires Valid(a) && Valid(b) && ToSeconds(a) < ToSeconds(b)
    ensures || a.year < b.year
            || (a.year == b.year && a.month < b.month)
            || (a.year == b.year && a.month == b.month && a.day < b.day)
            || (a.year == b.year && a.month == b.month && a.day == b.day && a.hour < b.hour)
            || (a.year == b.year && a.month == b.month && a.day == b.day && a.hour == b.hour
                && a.minute < b.minute)
            || (a.year == b.year && a.month == b.month && a.day == b.day && a.hour == b.hour
                && a.minute == b.minute && a.second < b.second)
  {
    SecondsOrder(a, b);
    SecondsOrder(b, a);
  }

  lemma IsoPrefixes(a: DateTime, b: DateTime)
    requires Valid(a) && Valid(b)
    ensures var s, t := IsoFormat(a), IsoFormat(b);
      && (a.year == b.year ==> s[..5] == t[..5])
      && (a.year == b.year && a.month == b.month ==> s[..8] == t[..8])
      && (a.year == b.year && a.month == b.month && a.day == b.day ==> s[..11] == t[..11])
      && (a.year == b.year && a.month == b.month && a.day == b.day && a.hour == b.hour ==> s[..14] == t[..14])
      && (a.year == b.year && a.month == b.month && a.day == b.day && a.hour == b.hour && a.minute == b.minute
          ==> s[..17] == t[..17])
  {
    var s, t := IsoFormat(a), IsoFormat(b);
    IsoLayout(a);
    IsoLayout(b);
    assert s[..5] == s[0..4] + [s[4]] && t[..5] == t[0..4] + [t[4]];
    assert s[..8] == s[..5] + s[5..7] + [s[7]] && t[..8] == t[..5] + t[5..7] + [t[7]];
    assert s[..11] == s[..8] + s[8..10] + [s[10]] && t[..11] == t[..8] + t[8..10] + [t[10]];
    assert s[..14] == s[..11] + s[11..13] + [s[13]] && t[..14] == t[..11] + t[11..13] + [t[13]];
    assert s[..17] == s[..14] + s[14..16] + [s[16]] && t[..17] == t[..14] + t[14..16] + [t[16]];
  }

  /** ISO strings sort in the order of the instants they name. */
  lemma IsoOrder(a: DateTime, b: DateTime)
    requires Valid(a) && Valid(b) && ToSeconds(a) < ToSeconds(b)
    ensures LexLess(IsoFormat(a), IsoFormat(b))
  {
    TupleOrder(a, b);
    if a.year != b.year {
      IsoLayout(a);
      IsoLayout(b);
      PadValue(a.year, 4);
      PadValue(b.year, 4);
      assert IsoFormat(a)[..0] == IsoFormat(b)[..0];
      FieldOrder(IsoFormat(a), IsoFormat(b), 0, 4);
    } else if a.month != b.month {
      IsoOrderMonth(a, b);
    } else if a.day != b.day {
      IsoOrderDay(a, b);
    } else if a.hour != b.hour {
      IsoOrderHour(a, b);
    } else if a.minute != b.minute {
      IsoOrderMinute(a, b);
    } else {
      IsoOrderSecond(a, b);
    }
  }

  lemma IsoOrderMonth(a: DateTime, b: DateTime)
    requires Valid(a) && Valid(b) && a.year == b.year && a.month < b.month
    ensures LexLess(IsoFormat(a), IsoFormat(b))
  {
    IsoLayout(a);
    IsoLayout(b);
    PadValue(a.month, 2);
    PadValue(b.month, 2);
    IsoPrefixes(a, b);
    FieldOrder(IsoFormat(a), IsoFormat(b), 5, 2);
  }

  lemma IsoOrderDay(a: DateTime, b: DateTime)
    requires Valid(a) && Valid(b) && a.year == b.year && a.month == b.month && a.day < b.day
    ensures LexLess(IsoFormat(a), IsoFormat(b))
  {
    IsoLayout(a);
    IsoLayout(b);
    PadValue(a.day, 2);
    PadValue(b.day, 2);
    IsoPrefixes(a, b);
    FieldOrder(IsoFormat(a), IsoFormat(b), 8, 2);
  }

  lemma IsoOrderHour(a: DateTime, b: DateTime)
    requires Valid(a) && Valid(b) && a.year == b.year && a.month == b.month && a.day == b.day
    requires a.hour < b.hour
    ensures LexLess(IsoFormat(a), IsoFormat(b))
  {
    IsoLayout(a);
    IsoLayout(b);
    PadValue(a.hour, 2);
    PadValue(b.hour, 2);
    IsoPrefixes(a, b);
    FieldOrder(IsoFormat(a), IsoFormat(b), 11, 2);
  }

  lemma IsoOrderMinute(a: DateTime, b: DateTime)
    requires Valid(a) && Valid(b) && a.year == b.year && a.month == b.month && a.day == b.day
    requires a.hour == b.hour && a.minute < b.minute
    ensures LexLess(IsoFormat(a), IsoFormat(b))
  {
    IsoLayout(a);
    IsoLayout(b);
    PadValue(a.minute, 2);
    PadValue(b.minute, 2);
    IsoPrefixes(a, b);
    FieldOrder(IsoFormat(a), IsoFormat(b), 14, 2);
  }

  lemma IsoOrderSecond(a: DateTime, b: DateTime)
    requires Valid(a) && Valid(b) && a.year == b.year && a.month == b.month && a.day == b.day
    requires a.hour == b.hour && a.minute == b.minute && a.second < b.second
    ensures LexLess(IsoFormat(a), IsoFormat(b))
  {
    IsoLayout(a);
    IsoLayout(b);
    PadValue(a.second, 2);
    PadValue(b.second, 2);
    IsoPrefixes(a, b);
    FieldOrder(IsoFormat(a), IsoFormat(b), 17, 2);
  }
}
