/** Archive timestamps (`%Y%m%d%H%M%S`, UTC) and the configured time window
    (`set_time_range` / `parse_time`). Instants are whole seconds since
    1970-01-01T00:00:00Z. */
module Timestamps {
  import opened Wrappers
  import opened Text

  /** An aware UTC `datetime`, field by field. */
  datatype DateTime = DateTime(year: int, month: int, day: int, hour: int, minute: int, second: int)

  /** A datetime Python can actually hold. */
  type UtcDateTime = dt: DateTime | ValidDateTime(dt) witness DateTime(1970, 1, 1, 0, 0, 0)

  predicate IsLeapYear(y: int) {
    y % 4 == 0 && (y % 100 != 0 || y % 400 == 0)
  }

  function DaysInMonth(y: int, m: int): int
    requires 1 <= m <= 12
  {
    if m == 2 then (if IsLeapYear(y) then 29 else 28)
    else if m == 4 || m == 6 || m == 9 || m == 11 then 30
    else 31
  }

  /** The values Python's `datetime` constructor accepts. */
  predicate ValidDateTime(dt: DateTime) {
    && 1 <= dt.year <= 9999
    && 1 <= dt.month <= 12
    && 1 <= dt.day <= DaysInMonth(dt.year, dt.month)
    && 0 <= dt.hour <= 23
    && 0 <= dt.minute <= 59
    && 0 <= dt.second <= 59
  }

  /** Days from 0001-01-01 to the first of January of year `y`. */
  function DaysBeforeYear(y: int): int
    requires y >= 1
  {
    if y == 1 then 0 else DaysBeforeYear(y - 1) + (if IsLeapYear(y - 1) then 366 else 365)
  }

  /** Days from the first of January to the first of month `m` of year `y`. */
  function DaysBeforeMonth(y: int, m: int): (d: nat)
    requires 1 <= m <= 12
  {
    if m == 1 then 0 else DaysBeforeMonth(y, m - 1) + DaysInMonth(y, m - 1)
  }

  /** Days from 0001-01-01 to 1970-01-01. */
  const UnixEpochDays := 719162

  /** `dt.timestamp()` for an aware UTC datetime, in whole seconds. */
  function Epoch(dt: DateTime): int
    requires ValidDateTime(dt)
  {
    var days := DaysBeforeYear(dt.year) + DaysBeforeMonth(dt.year, dt.month) + dt.day - 1 - UnixEpochDays;
    days * 86400 + dt.hour * 3600 + dt.minute * 60 + dt.second
  }

  /** The value of the digits `s[i..j]`. */
  function Field(s: string, i: nat, j: nat): nat
    requires i <= j <= |s| && IsDigits(s)
  {
    DigitsValue(s[i..j])
  }

  /** `datetime.strptime(s, '%Y%m%d%H%M%S')` on a string of fourteen ASCII
      digits: four digits of year and two of each other field, all of which
      must make a valid date and time. */
  function ParseTimestamp(s: string): (r: Option<DateTime>)
    ensures r.Some? ==> ValidDateTime(r.value) && |s| == 14 && IsDigits(s)
  {
    if |s| != 14 || !IsDigits(s) then None
    else
      var dt := DateTime(Field(s, 0, 4), Field(s, 4, 6), Field(s, 6, 8),
                         Field(s, 8, 10), Field(s, 10, 12), Field(s, 12, 14));
      if ValidDateTime(dt) then Some(dt) else None
  }

  function Zeros(n: nat): (z: string)
    ensures |z| == n && forall i :: 0 <= i < n ==> z[i] == '0'
  {
    if n == 0 then "" else Zeros(n - 1) + "0"
  }

  /** `format(n, '02d')`-style left padding with zeros up to `width`. */
  function LeftPad(s: string, width: nat): string
  {
    if |s| >= width then s else Zeros(width - |s|) + s
  }

  /** `time.strftime('%Y%m%d%H%M%S')`; the year is not padded (glibc). */
  function FormatTimestamp(dt: DateTime): string
    requires ValidDateTime(dt)
  {
    NatToString(dt.year) + LeftPad(NatToString(dt.month), 2) + LeftPad(NatToString(dt.day), 2)
    + LeftPad(NatToString(dt.hour), 2) + LeftPad(NatToString(dt.minute), 2)
    + LeftPad(NatToString(dt.second), 2)
  }

  /** `str(time)[::-1].zfill(14)[::-1]`: zeros appended up to 14 characters. */
  function RightPadZeros(s: string): (r: string)
    ensures |s| <= 14 ==> |r| == 14
    ensures |s| >= 14 ==> r == s
    ensures |r| >= |s| && r[..|s|] == s
    ensures forall i :: |s| <= i < |r| ==> r[i] == '0'
  {
    if |s| >= 14 then s else s + Zeros(14 - |s|)
  }

  /** One scalar of the WAYBACK_MACHINE_TIME_RANGE setting. */
  datatype TimeValue = IntValue(n: int) | StrValue(s: string)

  /** The setting: one scalar, or a list/tuple of them. */
  datatype TimeSetting = Scalar(value: TimeValue) | Listed(values: seq<TimeValue>)

  datatype TimeRange = TimeRange(start: int, end: int)

  datatype ConfigError =
    | NotConfigured   // the setting is missing or falsy
    | InvalidFormat   // some value failed parse_time
    | MissingBound    // fewer than two parsed values

  const EpochLow: int := 100000000        // 10**8
  const EpochHigh: int := 10000000000000  // 10**13

  /** `parse_time` on an integer: values strictly between 10**8 and 10**13
      are epoch seconds; anything else is padded to fourteen digits and read
      as a timestamp. None stands for the caught ValueError. */
  function ParseTimeInt(n: int): (r: Option<int>)
    ensures EpochLow < n < EpochHigh ==> r == Some(n)
    ensures n < 0 ==> r.None?
    ensures r.Some? && !(EpochLow < n < EpochHigh) ==> exists dt :: ValidDateTime(dt) && r.value == Epoch(dt)
  {
    if EpochLow < n < EpochHigh then Some(n)
    else if n < 0 then None
    else
      match ParseTimestamp(RightPadZeros(NatToString(n)))
      case None => None
      case Some(dt) => Some(Epoch(dt))
  }

  /** `parse_time`: a string goes through `int(...)` first. */
  function ParseTime(v: TimeValue): (r: Option<int>)
    ensures v.StrValue? && r.Some? ==> IsDigits(v.s)
  {
    match v
    case IntValue(n) => ParseTimeInt(n)
    case StrValue(s) => if IsDigits(s) then ParseTimeInt(DigitsValue(s)) else None
  }

  /** A setting written as the decimal digits of a number is read as that
      number: `int(str(time))` makes the two spellings agree. */
  lemma StringMatchesInteger(n: nat)
    ensures ParseTime(StrValue(NatToString(n))) == ParseTime(IntValue(n))
  {
    NatToStringValue(n);
  }

  function ParseAll(vs: seq<TimeValue>): (r: seq<Option<int>>)
    ensures |r| == |vs|
    ensures forall i :: 0 <= i < |vs| ==> r[i] == ParseTime(vs[i])
  {
    if |vs| == 0 then [] else [ParseTime(vs[0])] + ParseAll(vs[1..])
  }

  /** `set_time_range`: a scalar stands for the one-instant window (t, t);
      any unparsable value is a configuration error. */
  function ParseTimeRange(setting: TimeSetting): Result<TimeRange, ConfigError>
  {
    var values := match setting
      case Scalar(v) => [v, v]
      case Listed(vs) => vs;
    var parsed := ParseAll(values);
    if None in parsed then Failure(InvalidFormat)
    else if |parsed| < 2 then Failure(MissingBound)
    else Success(TimeRange(parsed[0].value, parsed[1].value))
  }

  /** Python truthiness of the raw setting, checked in `__init__`. */
  predicate IsFalsy(setting: TimeSetting) {
    setting == Scalar(IntValue(0)) || setting == Scalar(StrValue("")) || setting == Listed([])
  }

  /** The middleware's `__init__`: an absent or falsy setting is not configured. */
  function InitTimeRange(setting: Option<TimeSetting>): Result<TimeRange, ConfigError>
  {
    match setting
    case None => Failure(NotConfigured)
    case Some(st) => if IsFalsy(st) then Failure(NotConfigured) else ParseTimeRange(st)
  }

  // ---------------------------------------------------------------------
  // Decimal digits: bounds, uniqueness and canonical form

  lemma {:induction false} DigitsBounds(s: string)
    requires IsDigits(s)
    ensures DigitsValue(s) < Pow10(|s|)
    ensures s[0] != '0' ==> Pow10(|s| - 1) <= DigitsValue(s)
  {
    if |s| > 1 {
      var p := s[..|s| - 1];
      assert IsDigits(p) && p[0] == s[0];
      DigitsBounds(p);
    }
  }

  /** Two digit strings of one length with one value are the same string. */
  lemma {:induction false} DigitsInjective(a: string, b: string)
    requires |a| == |b|
    requires forall i :: 0 <= i < |a| ==> IsDigit(a[i])
    requires forall i :: 0 <= i < |b| ==> IsDigit(b[i])
    requires DigitsValue(a) == DigitsValue(b)
    ensures a == b
  {
    if |a| > 0 {
      var n := |a| - 1;
      var da, db := DigitValue(a[n]), DigitValue(b[n]);
      assert 10 * DigitsValue(a[..n]) + da == 10 * DigitsValue(b[..n]) + db;
      assert da == db && DigitsValue(a[..n]) == DigitsValue(b[..n]);
      DigitsInjective(a[..n], b[..n]);
      assert a[n] == b[n];
      assert a == a[..n] + [a[n]] && b == b[..n] + [b[n]];
    }
  }

  lemma {:induction false} NatToStringLength(n: nat, k: nat)
    requires k >= 1 && Pow10(k - 1) <= n < Pow10(k)
    ensures |NatToString(n)| == k
  {
    if k > 1 {
      NatToStringLength(n / 10, k - 1);
    } else {
      assert n < 10;
    }
  }

  /** `str(int(s)) == s` when `s` has no leading zero. */
  lemma CanonicalDigits(s: string)
    requires IsDigits(s) && s[0] != '0'
    ensures NatToString(DigitsValue(s)) == s
  {
    DigitsBounds(s);
    NatToStringLength(DigitsValue(s), |s|);
    NatToStringValue(DigitsValue(s));
    DigitsInjective(NatToString(DigitsValue(s)), s);
  }

  lemma {:induction false} ZerosValue(k: nat, s: string)
    requires forall i :: 0 <= i < |s| ==> IsDigit(s[i])
    ensures DigitsValue(Zeros(k) + s) == DigitsValue(s)
    decreases |s|
  {
    if |s| == 0 {
      ZerosOnlyValue(k);
      assert Zeros(k) + s == Zeros(k);
    } else {
      var n := |s| - 1;
      assert (Zeros(k) + s)[..k + n] == Zeros(k) + s[..n];
      ZerosValue(k, s[..n]);
    }
  }

  lemma {:induction false} ZerosOnlyValue(k: nat)
    ensures DigitsValue(Zeros(k)) == 0
  {
    if k > 0 {
      assert Zeros(k)[..k - 1] == Zeros(k - 1);
      ZerosOnlyValue(k - 1);
    }
  }

  /** A two-digit field prints as itself: `format(int(p), '02d') == p`. */
  lemma TwoDigitField(p: string)
    requires |p| == 2 && IsDigits(p)
    ensures LeftPad(NatToString(DigitsValue(p)), 2) == p
  {
    var v := DigitsValue(p);
    DigitsBounds(p);
    NatToStringShort(v, 2);
    NatToStringValue(v);
    var q := LeftPad(NatToString(v), 2);
    ZerosValue(2 - |NatToString(v)|, NatToString(v));
    assert |q| == 2 && DigitsValue(q) == v;
    DigitsInjective(q, p);
  }

  /** A field below 100 prints as two digits of the same value. */
  lemma TwoDigitPrint(x: nat)
    requires x < 100
    ensures |LeftPad(NatToString(x), 2)| == 2
    ensures IsDigits(LeftPad(NatToString(x), 2))
    ensures DigitsValue(LeftPad(NatToString(x), 2)) == x
  {
    NatToStringShort(x, 2);
    NatToStringValue(x);
    ZerosValue(2 - |NatToString(x)|, NatToString(x));
  }

  // ---------------------------------------------------------------------
  // Round trips between strptime and strftime

  /** Reading back a formatted datetime gives the datetime (four-digit years). */
  lemma FormatThenParse(dt: DateTime)
    requires ValidDateTime(dt) && dt.year >= 1000
    ensures ParseTimestamp(FormatTimestamp(dt)) == Some(dt)
  {
    var y := NatToString(dt.year);
    NatToStringLength(dt.year, 4);
    NatToStringValue(dt.year);
    TwoDigitPrint(dt.month);
    TwoDigitPrint(dt.day);
    TwoDigitPrint(dt.hour);
    TwoDigitPrint(dt.minute);
    TwoDigitPrint(dt.second);
    var mo, d, h, mi, se := LeftPad(NatToString(dt.month), 2), LeftPad(NatToString(dt.day), 2),
      LeftPad(NatToString(dt.hour), 2), LeftPad(NatToString(dt.minute), 2), LeftPad(NatToString(dt.second), 2);
    var s := FormatTimestamp(dt);
    assert s == y + mo + d + h + mi + se;
    assert |s| == 14;
    assert s[0..4] == y && s[4..6] == mo && s[6..8] == d;
    assert s[8..10] == h && s[10..12] == mi && s[12..14] == se;
    assert IsDigits(s) by {
      forall i | 0 <= i < 14 ensures IsDigit(s[i]) {
        if i < 4 { assert s[i] == y[i]; }
        else if i < 6 { assert s[i] == mo[i - 4]; }
        else if i < 8 { assert s[i] == d[i - 6]; }
        else if i < 10 { assert s[i] == h[i - 8]; }
        else if i < 12 { assert s[i] == mi[i - 10]; }
        else { assert s[i] == se[i - 12]; }
      }
    }
  }

  /** Formatting a parsed timestamp gives the text back, so the file name a
      snapshot is saved under is its archive timestamp. */
  lemma ParseThenFormat(s: string)
    requires ParseTimestamp(s).Some? && s[0] != '0'
    ensures FormatTimestamp(ParseTimestamp(s).value) == s
  {
    var dt := ParseTimestamp(s).value;
    SliceIsDigits(s, 0, 4);
    assert s[0..4][0] == s[0];
    CanonicalDigits(s[0..4]);
    FieldPrints(s, 4);
    FieldPrints(s, 6);
    FieldPrints(s, 8);
    FieldPrints(s, 10);
    FieldPrints(s, 12);
    Rejoin(s);
  }

  lemma FieldPrints(s: string, i: nat)
    requires |s| == 14 && IsDigits(s) && i + 2 <= 14
    ensures LeftPad(NatToString(Field(s, i, i + 2)), 2) == s[i..i + 2]
  {
    SliceIsDigits(s, i, i + 2);
    TwoDigitField(s[i..i + 2]);
  }

  lemma Rejoin(s: string)
    requires |s| == 14
    ensures s == s[0..4] + s[4..6] + s[6..8] + s[8..10] + s[10..12] + s[12..14]
  {
  }

  lemma SliceIsDigits(s: string, i: nat, j: nat)
    requires IsDigits(s) && i < j <= |s|
    ensures IsDigits(s[i..j])
  {
    assert forall k :: 0 <= k < j - i ==> s[i..j][k] == s[i + k];
  }

  // ---------------------------------------------------------------------
  // The calendar behind `timestamp()`

  /** Leap years follow the Gregorian rule, so the days before a year have
      the closed form CPython's `datetime` module uses. */
  lemma {:induction false} DaysBeforeYearClosedForm(y: int)
    requires y >= 1
    ensures DaysBeforeYear(y) == 365 * (y - 1) + (y - 1) / 4 - (y - 1) / 100 + (y - 1) / 400
  {
    if y > 1 {
      var p := y - 1;
      DaysBeforeYearClosedForm(p);
      assert p / 4 - (p - 1) / 4 == if p % 4 == 0 then 1 else 0;
      assert p / 100 - (p - 1) / 100 == if p % 100 == 0 then 1 else 0;
      assert p / 400 - (p - 1) / 400 == if p % 400 == 0 then 1 else 0;
    }
  }

  /** The epoch is where it should be: 1970-01-01T00:00:00Z is instant 0. */
  lemma EpochOrigin()
    ensures Epoch(DateTime(1970, 1, 1, 0, 0, 0)) == 0
  {
    DaysBeforeYearClosedForm(1970);
  }

  /** Chronological order of two datetimes, field by field. */
  predicate Precedes(a: DateTime, b: DateTime) {
    || a.year < b.year
    || (a.year == b.year && a.month < b.month)
    || (a.year == b.year && a.month == b.month && a.day < b.day)
    || (a.year == b.year && a.month == b.month && a.day == b.day && a.hour < b.hour)
    || (a.year == b.year && a.month == b.month && a.day == b.day && a.hour == b.hour && a.minute < b.minute)
    || (a.year == b.year && a.month == b.month && a.day == b.day && a.hour == b.hour && a.minute == b.minute
        && a.second < b.second)
  }

  function YearLength(y: int): int {
    if IsLeapYear(y) then 366 else 365
  }

  lemma {:induction false} DaysBeforeYearGrows(y: int, z: int)
    requires 1 <= y < z
    ensures DaysBeforeYear(y) + YearLength(y) <= DaysBeforeYear(z)
  {
    if z > y + 1 {
      DaysBeforeYearGrows(y, z - 1);
    }
  }

  lemma {:induction false} DaysBeforeMonthGrows(y: int, m: int, n: int)
    requires 1 <= m < n <= 12
    ensures DaysBeforeMonth(y, m) + DaysInMonth(y, m) <= DaysBeforeMonth(y, n)
  {
    if n > m + 1 {
      DaysBeforeMonthGrows(y, m, n - 1);
    }
  }

  /** December ends the year. */
  lemma DecemberEnds(y: int)
    ensures DaysBeforeMonth(y, 12) + DaysInMonth(y, 12) == YearLength(y)
  {
    assert DaysBeforeMonth(y, 2) == 31;
    assert DaysBeforeMonth(y, 3) == 31 + DaysInMonth(y, 2);
    assert DaysBeforeMonth(y, 5) == 90 - 28 + DaysInMonth(y, 2) + 30;
    assert DaysBeforeMonth(y, 7) == DaysBeforeMonth(y, 5) + 61;
    assert DaysBeforeMonth(y, 9) == DaysBeforeMonth(y, 7) + 62;
    assert DaysBeforeMonth(y, 11) == DaysBeforeMonth(y, 9) + 61;
  }

  /** Days since 0001-01-01 of the date part. */
  function DayNumber(dt: DateTime): int
    requires ValidDateTime(dt)
  {
    DaysBeforeYear(dt.year) + DaysBeforeMonth(dt.year, dt.month) + dt.day - 1
  }

  lemma DayNumberOrder(a: DateTime, b: DateTime)
    requires ValidDateTime(a) && ValidDateTime(b)
    requires a.year < b.year || (a.year == b.year && a.month < b.month)
             || (a.year == b.year && a.month == b.month && a.day < b.day)
    ensures DayNumber(a) < DayNumber(b)
  {
    if a.year < b.year {
      if a.month < 12 {
        DaysBeforeMonthGrows(a.year, a.month, 12);
      }
      DecemberEnds(a.year);
      assert DaysBeforeMonth(a.year, a.month) + a.day - 1 < YearLength(a.year);
      DaysBeforeYearGrows(a.year, b.year);
      assert DayNumber(b) >= DaysBeforeYear(b.year);
    } else if a.month < b.month {
      DaysBeforeMonthGrows(a.year, a.month, b.month);
    }
  }

  /** `timestamp()` is strictly increasing in time: comparing instants, as
      `filter_snapshots` does, is comparing datetimes. */
  lemma EpochChronological(a: DateTime, b: DateTime)
    requires ValidDateTime(a) && ValidDateTime(b)
    ensures Precedes(a, b) <==> Epoch(a) < Epoch(b)
    ensures Epoch(a) == Epoch(b) <==> a == b
  {
    if a.year < b.year || (a.year == b.year && a.month < b.month)
       || (a.year == b.year && a.month == b.month && a.day < b.day) {
      DayNumberOrder(a, b);
    } else if b.year < a.year || (a.year == b.year && b.month < a.month)
       || (a.year == b.year && a.month == b.month && b.day < a.day) {
      DayNumberOrder(b, a);
    }
  }

  // ---------------------------------------------------------------------
  // parse_time

  /** Up to six digits never parse: once padded, the day field (and for four
      digits or fewer also the month) is `00`. A year alone, `2020`, is rejected. */
  lemma ShortValuesRejected(n: int)
    requires 0 <= n < 1000000
    ensures ParseTimeInt(n) == None
  {
    NatToStringShort(n, 6);
    var padded := RightPadZeros(NatToString(n));
    assert padded[6..8] == "00";
    assert DigitsValue(padded[6..8]) == 0 by { assert "00"[..1] == "0"; }
  }

  lemma YearOnlyRejected()
    ensures ParseTime(StrValue("2020")) == None
  {
    DigitsBounds("2020");
    assert Pow10(4) == 10000 by { Pow10Values(); }
    ShortValuesRejected(DigitsValue("2020"));
  }

  /** A date `YYYYMMDD` (no leading zero) is midnight UTC of that day. */
  lemma DateParses(s: string)
    requires |s| == 8 && IsDigits(s) && s[0] != '0'
    requires ParseTimestamp(s + "000000").Some?
    ensures ParseTime(StrValue(s)) == Some(Epoch(ParseTimestamp(s + "000000").value))
  {
    DigitsBounds(s);
    CanonicalDigits(s);
    assert Zeros(6) == "000000";
  }

  /** A full fourteen-digit timestamp (no leading zero) is read as such. */
  lemma FullTimestampParses(s: string)
    requires |s| == 14 && IsDigits(s) && s[0] != '0'
    ensures ParseTime(StrValue(s)) == match ParseTimestamp(s) case None => None case Some(dt) => Some(Epoch(dt))
  {
    DigitsBounds(s);
    CanonicalDigits(s);
  }

  /** Any digit string of ten to thirteen digits without a leading zero is
      taken as epoch seconds, including a truncated `YYYYMMDDHH` or
      `YYYYMMDDHHMM`. */
  lemma MidLengthIsEpoch(s: string)
    requires 10 <= |s| <= 13 && IsDigits(s) && s[0] != '0'
    ensures ParseTime(StrValue(s)) == Some(DigitsValue(s))
  {
    DigitsBounds(s);
    PowMonotone(9, |s| - 1);
    PowMonotone(|s|, 13);
    Pow10Values();
  }

  lemma Pow10Values()
    ensures Pow10(4) == 10000 && Pow10(8) == EpochLow && Pow10(9) == 10 * EpochLow
    ensures Pow10(13) == EpochHigh
  {
    assert Pow10(1) == 10;
    assert Pow10(2) == 100;
    assert Pow10(3) == 1000;
    assert Pow10(4) == 10000;
    assert Pow10(5) == 100000;
    assert Pow10(6) == 1000000;
    assert Pow10(7) == 10000000;
    assert Pow10(8) == 100000000;
    assert Pow10(9) == 1000000000;
    assert Pow10(10) == 10000000000;
    assert Pow10(11) == 100000000000;
    assert Pow10(12) == 1000000000000;
  }

  lemma {:induction false} PowMonotone(a: nat, b: nat)
    requires a <= b
    ensures Pow10(a) <= Pow10(b)
  {
    if a < b { PowMonotone(a, b - 1); }
  }

  /** A scalar setting is the one-instant window. */
  lemma ScalarIsPointWindow(v: TimeValue)
    ensures ParseTimeRange(Scalar(v)) ==
      match ParseTime(v) case None => Failure(InvalidFormat) case Some(t) => Success(TimeRange(t, t))
  {
    var parsed := ParseAll([v, v]);
    assert parsed == [ParseTime(v), ParseTime(v)];
  }

  /** The setting is accepted exactly when every listed value parses and
      there are at least two; the window is the first two. */
  lemma ListedWindow(vs: seq<TimeValue>)
    ensures ParseTimeRange(Listed(vs)).Success? <==>
      (|vs| >= 2 && forall i :: 0 <= i < |vs| ==> ParseTime(vs[i]).Some?)
    ensures ParseTimeRange(Listed(vs)).Success? ==>
      ParseTimeRange(Listed(vs)).value == TimeRange(ParseTime(vs[0]).value, ParseTime(vs[1]).value)
  {
    var parsed := ParseAll(vs);
    if None in parsed {
      var i :| 0 <= i < |parsed| && parsed[i] == None;
      assert ParseTime(vs[i]) == None;
    }
  }
}
