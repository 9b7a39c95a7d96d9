/**
 * The part of Python's datetime that build_demographic_table uses:
 * datetime.strptime(s, '%Y-%m-%d %H:%M:%S'), the year of the result, and the whole
 * days of the difference of two timestamps (timedelta.days, which rounds down).
 * Dates are proleptic Gregorian, years 1 to 9999, as in datetime.
 */
module Calendar {
  import opened Results
  import opened Text

  datatype Timestamp = Timestamp(year: int, month: int, day: int, hour: int, minute: int, second: int)

  predicate IsLeap(y: int) {
    y % 4 == 0 && (y % 100 != 0 || y % 400 == 0)
  }

  function DaysInMonth(y: int, m: int): int
    requires 1 <= m <= 12
  {
    if m == 2 then (if IsLeap(y) then 29 else 28)
    else if m == 4 || m == 6 || m == 9 || m == 11 then 30
    else 31
  }

  /** The values datetime accepts. */
  predicate Valid(t: Timestamp) {
    && 1 <= t.year <= 9999 && 1 <= t.month <= 12 && 1 <= t.day <= DaysInMonth(t.year, t.month)
    && 0 <= t.hour < 24 && 0 <= t.minute < 60 && 0 <= t.second < 60
  }

  // ---------------------------------------------------------------- strptime

  /** The fixed positions of '%Y-%m-%d %H:%M:%S' with every field written in full. */
  predicate Shaped(s: string) {
    && |s| == 19
    && AllDigits(s[0..4]) && s[4] == '-' && AllDigits(s[5..7]) && s[7] == '-' && AllDigits(s[8..10])
    && s[10] == ' ' && AllDigits(s[11..13]) && s[13] == ':' && AllDigits(s[14..16]) && s[16] == ':'
    && AllDigits(s[17..19])
  }

  /** datetime.strptime(s, '%Y-%m-%d %H:%M:%S'); None stands for ValueError. */
  function ParseTimestamp(s: string): (r: Option<Timestamp>)
    ensures r.Some? ==> Valid(r.value)
  {
    if !Shaped(s) then None
    else
      var t := Timestamp(DigitsValue(s[0..4]), DigitsValue(s[5..7]), DigitsValue(s[8..10]),
                         DigitsValue(s[11..13]), DigitsValue(s[14..16]), DigitsValue(s[17..19]));
      if Valid(t) then Some(t) else None
  }

  /** n written with exactly w digits, zero-padded on the left. */
  function Pad(n: nat, w: nat): (r: string)
    ensures |r| == w && AllDigits(r)
    decreases w
  {
    if w == 0 then "" else Pad(n / 10, w - 1) + [DigitChar(n % 10)]
  }

  function Pow10(w: nat): nat
    decreases w
  {
    if w == 0 then 1 else 10 * Pow10(w - 1)
  }

  lemma {:induction false} PadValue(n: nat, w: nat)
    requires n < Pow10(w)
    ensures DigitsValue(Pad(n, w)) == n
    decreases w
  {
    if w > 0 {
      PadValue(n / 10, w - 1);
      var p := Pad(n, w);
      assert p[..|p| - 1] == Pad(n / 10, w - 1);
    }
  }

  lemma {:induction false} PadDigits(x: string)
    requires AllDigits(x)
    ensures Pad(DigitsValue(x), |x|) == x
    decreases |x|
  {
    if x != [] {
      var init := x[..|x| - 1];
      PadDigits(init);
      var n := DigitsValue(x);
      var d := x[|x| - 1] as int - '0' as int;
      assert n == DigitsValue(init) * 10 + d && 0 <= d < 10;
      assert n / 10 == DigitsValue(init) && n % 10 == d;
      assert x == init + [x[|x| - 1]];
    }
  }

  /** The canonical text of a timestamp: the form strptime reads back. */
  function FormatTimestamp(t: Timestamp): (r: string)
    requires Valid(t)
    ensures |r| == 19
  {
    Pad(t.year, 4) + "-" + Pad(t.month, 2) + "-" + Pad(t.day, 2) + " "
      + Pad(t.hour, 2) + ":" + Pad(t.minute, 2) + ":" + Pad(t.second, 2)
  }

  /** Where each field sits in the text of a timestamp. */
  lemma FormatFields(t: Timestamp)
    requires Valid(t)
    ensures var s := FormatTimestamp(t);
      && s[0..4] == Pad(t.year, 4) && s[5..7] == Pad(t.month, 2) && s[8..10] == Pad(t.day, 2)
      && s[11..13] == Pad(t.hour, 2) && s[14..16] == Pad(t.minute, 2) && s[17..19] == Pad(t.second, 2)
      && s[4] == '-' && s[7] == '-' && s[10] == ' ' && s[13] == ':' && s[16] == ':'
  {
  }

  /** Reading back the text of a timestamp gives the timestamp. */
  lemma ParseFormat(t: Timestamp)
    requires Valid(t)
    ensures ParseTimestamp(FormatTimestamp(t)) == Some(t)
  {
    var s := FormatTimestamp(t);
    FormatFields(t);
    assert Shaped(s);
    assert Pow10(2) == 100 && Pow10(4) == 10000;
    PadValue(t.year, 4);
    PadValue(t.month, 2);
    PadValue(t.day, 2);
    PadValue(t.hour, 2);
    PadValue(t.minute, 2);
    PadValue(t.second, 2);
  }

  /** Only the canonical text of a timestamp parses to it: the accepted form has no other spelling. */
  lemma FormatParse(s: string)
    requires ParseTimestamp(s).Some?
    ensures FormatTimestamp(ParseTimestamp(s).value) == s
  {
    PadDigits(s[0..4]);
    PadDigits(s[5..7]);
    PadDigits(s[8..10]);
    PadDigits(s[11..13]);
    PadDigits(s[14..16]);
    PadDigits(s[17..19]);
    var r := FormatTimestamp(ParseTimestamp(s).value);
    FormatFields(ParseTimestamp(s).value);
    assert r[0..4] == s[0..4] && r[5..7] == s[5..7] && r[8..10] == s[8..10];
    assert r[11..13] == s[11..13] && r[14..16] == s[14..16] && r[17..19] == s[17..19];
    forall i | 0 <= i < 19
      ensures r[i] == s[i]
    {
      if i < 4 { assert r[i] == r[0..4][i]; assert s[i] == s[0..4][i]; }
      else if 5 <= i < 7 { assert r[i] == r[5..7][i - 5]; assert s[i] == s[5..7][i - 5]; }
      else if 8 <= i < 10 { assert r[i] == r[8..10][i - 8]; assert s[i] == s[8..10][i - 8]; }
      else if 11 <= i < 13 { assert r[i] == r[11..13][i - 11]; assert s[i] == s[11..13][i - 11]; }
      else if 14 <= i < 16 { assert r[i] == r[14..16][i - 14]; assert s[i] == s[14..16][i - 14]; }
      else if 17 <= i { assert r[i] == r[17..19][i - 17]; assert s[i] == s[17..19][i - 17]; }
    }
  }

  // ---------------------------------------------------------------- day numbers

  function YearLength(y: int): int {
    if IsLeap(y) then 366 else 365
  }

  /** Days in the years before year y, counted from 1 January of year 1. */
  function DaysBeforeYear(y: int): nat
    requires y >= 1
    decreases y
  {
    if y == 1 then 0 else DaysBeforeYear(y - 1) + YearLength(y - 1)
  }

  /** Days in the months of year y before month m. */
  function DaysBeforeMonth(y: int, m: int): nat
    requires 1 <= m <= 13
    decreases m
  {
    if m == 1 then 0 else DaysBeforeMonth(y, m - 1) + DaysInMonth(y, m - 1)
  }

  /** The day number of the date, 1 for 1 January of year 1: date.toordinal(). */
  function Ordinal(t: Timestamp): int
    requires Valid(t)
  {
    DaysBeforeYear(t.year) + DaysBeforeMonth(t.year, t.month) + t.day
  }

  /** Seconds since midnight before 1 January of year 1. */
  function Seconds(t: Timestamp): int
    requires Valid(t)
  {
    Ordinal(t) * 86400 + t.hour * 3600 + t.minute * 60 + t.second
  }

  /** (b - a).days: the whole days from a to b, rounded down (negative when b is earlier). */
  function DaysBetween(a: Timestamp, b: Timestamp): (d: int)
    requires Valid(a) && Valid(b)
    ensures d * 86400 <= Seconds(b) - Seconds(a) < (d + 1) * 86400
  {
    (Seconds(b) - Seconds(a)) / 86400
  }

  /** Earlier in the calendar: the fields compared in order. */
  predicate Before(a: Timestamp, b: Timestamp) {
    if a.year != b.year then a.year < b.year
    else if a.month != b.month then a.month < b.month
    else if a.day != b.day then a.day < b.day
    else if a.hour != b.hour then a.hour < b.hour
    else if a.minute != b.minute then a.minute < b.minute
    else a.second < b.second
  }

  lemma {:induction false} DaysBeforeMonthGrows(y: int, m: int, n: int)
    requires 1 <= m < n <= 13
    ensures DaysBeforeMonth(y, m) + DaysInMonth(y, m) <= DaysBeforeMonth(y, n)
    decreases n - m
  {
    if m + 1 < n {
      DaysBeforeMonthGrows(y, m + 1, n);
    }
  }

  lemma {:induction false} DaysBeforeYearGrows(y: int, z: int)
    requires 1 <= y < z
    ensures DaysBeforeYear(y) + YearLength(y) <= DaysBeforeYear(z)
    decreases z - y
  {
    if y + 1 < z {
      DaysBeforeYearGrows(y + 1, z);
    }
  }

  lemma {:induction false} YearFits(y: int)
    ensures DaysBeforeMonth(y, 13) == YearLength(y)
  {
    assert DaysBeforeMonth(y, 2) == 31;
    assert DaysBeforeMonth(y, 3) == 31 + DaysInMonth(y, 2);
    assert DaysBeforeMonth(y, 13) == DaysBeforeMonth(y, 3) + 306;
  }

  /** A date earlier in the calendar has a smaller day number. */
  lemma OrdinalOrder(a: Timestamp, b: Timestamp)
    requires Valid(a) && Valid(b)
    requires a.year < b.year || (a.year == b.year && (a.month < b.month || (a.month == b.month && a.day < b.day)))
    ensures Ordinal(a) < Ordinal(b)
  {
    if a.year < b.year {
      YearFits(a.year);
      DaysBeforeMonthGrows(a.year, a.month, 13);
      DaysBeforeYearGrows(a.year, b.year);
    } else if a.month < b.month {
      DaysBeforeMonthGrows(a.year, a.month, b.month);
    }
  }

  /** The calendar order and the order of the second counts agree. */
  lemma SecondsOrder(a: Timestamp, b: Timestamp)
    requires Valid(a) && Valid(b)
    ensures Before(a, b) <==> Seconds(a) < Seconds(b)
    ensures a == b <==> Seconds(a) == Seconds(b)
  {
    if a.year != b.year || a.month != b.month || a.day != b.day {
      if Before(a, b) {
        OrdinalOrder(a, b);
      } else {
        OrdinalOrder(b, a);
      }
    }
  }

  /** The stay is negative exactly when the discharge precedes the admission. */
  lemma DaysBetweenSign(a: Timestamp, b: Timestamp)
    requires Valid(a) && Valid(b)
    ensures DaysBetween(a, b) < 0 <==> Before(b, a)
    ensures a == b ==> DaysBetween(a, b) == 0
  {
    SecondsOrder(b, a);
  }
}
