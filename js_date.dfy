/**
 * The part of JavaScript's `Date` the worker uses: a time value that is
 * either invalid (what `new Date("garbage")` yields) or a UTC instant,
 * and `toISOString`, which throws a RangeError on an invalid date.
 * The instant is kept broken down into its UTC calendar fields; how a
 * millisecond count becomes those fields is not modelled.
 */
module JsDate {
  import opened Wrappers

  /** Years a JavaScript time value can reach (8.64e15 ms either side of 1970). */
  const MinYear: int := -271821
  const MaxYear: int := 275760

  predicate IsLeapYear(y: int)
  {
    y % 4 == 0 && (y % 100 != 0 || y % 400 == 0)
  }

  function DaysInMonth(y: int, m: int): int
    requires 1 <= m <= 12
  {
    if m == 2 then (if IsLeapYear(y) then 29 else 28)
    else if m == 4 || m == 6 || m == 9 || m == 11 then 30
    else 31
  }

  datatype DateValue =
    | InvalidDate
    | Utc(year: int, month: int, day: int, hour: int, minute: int, second: int, millisecond: int)
  {
    /** The fields describe a real proleptic-Gregorian UTC instant in range. */
    predicate WellFormed()
    {
      InvalidDate? ||
      (MinYear <= year <= MaxYear && 1 <= month <= 12 && 1 <= day <= DaysInMonth(year, month) &&
       0 <= hour < 24 && 0 <= minute < 60 && 0 <= second < 60 && 0 <= millisecond < 1000)
    }
  }

  /** A JavaScript `Date` object's state. */
  type Date = d: DateValue | d.WellFormed() witness InvalidDate

  function Pow10(n: nat): (r: nat)
    ensures r >= 1
  {
    if n == 0 then 1 else 10 * Pow10(n - 1)
  }

  predicate IsDigit(c: char)
  {
    '0' <= c <= '9'
  }

  predicate AllDigits(s: string)
  {
    forall i :: 0 <= i < |s| ==> IsDigit(s[i])
  }

  /** The last `width` decimal digits of `n`, zero-padded on the left. */
  function Decimal(n: nat, width: nat): (r: string)
    ensures |r| == width && AllDigits(r)
  {
    if width == 0 then "" else Decimal(n / 10, width - 1) + [(48 + n % 10) as char]
  }

  /** The number a string of decimal digits denotes. */
  function ParseDecimal(s: string): nat
    requires AllDigits(s)
  {
    if s == [] then 0 else 10 * ParseDecimal(s[..|s| - 1]) + (s[|s| - 1] as int - 48)
  }

  /** Reading the padded digits back gives the number, when it fits in the width. */
  lemma {:induction false} DecimalRoundTrip(n: nat, width: nat)
    requires n < Pow10(width)
    ensures ParseDecimal(Decimal(n, width)) == n
  {
    if width > 0 {
      DecimalRoundTrip(n / 10, width - 1);
      var s := Decimal(n, width);
      assert s[..|s| - 1] == Decimal(n / 10, width - 1);
    }
  }

  /** The year as `toISOString` writes it: four digits in 0..9999, otherwise a sign and six digits. */
  function YearString(y: int): (r: string)
    ensures |r| == (if 0 <= y <= 9999 then 4 else 7)
    ensures 0 <= y <= 9999 ==> AllDigits(r)
    ensures !(0 <= y <= 9999) ==> r[0] == (if y < 0 then '-' else '+') && AllDigits(r[1..])
  {
    if 0 <= y <= 9999 then Decimal(y, 4)
    else if y < 0 then "-" + Decimal(-y, 6)
    else "+" + Decimal(y, 6)
  }

  /** The `YYYY-MM-DD` part of the ISO form of a valid date. */
  function DayString(d: Date): (r: string)
    requires d.Utc?
    ensures |r| == |YearString(d.year)| + 6
    ensures r[|r| - 6] == '-' && r[|r| - 3] == '-'
    ensures AllDigits(r[|r| - 5..|r| - 3]) && AllDigits(r[|r| - 2..])
  {
    YearString(d.year) + "-" + Decimal(d.month, 2) + "-" + Decimal(d.day, 2)
  }

  /** The `HH:mm:ss.sssZ` part of the ISO form of a valid date. */
  function TimeString(d: Date): (r: string)
    requires d.Utc?
    ensures |r| == 13
    ensures r[2] == ':' && r[5] == ':' && r[8] == '.' && r[12] == 'Z'
    ensures AllDigits(r[..2]) && AllDigits(r[3..5]) && AllDigits(r[6..8]) && AllDigits(r[9..12])
  {
    Decimal(d.hour, 2) + ":" + Decimal(d.minute, 2) + ":" + Decimal(d.second, 2) + "." +
    Decimal(d.millisecond, 3) + "Z"
  }

  /** `date.toISOString()`: `None` stands for the RangeError thrown on an invalid date. */
  function ToISOString(d: Date): (r: Option<string>)
    ensures r.None? <==> d.InvalidDate?
    ensures r.Some? ==> |r.value| == (if 0 <= d.year <= 9999 then 24 else 27)
    ensures r.Some? ==> 'T' in r.value && r.value[|r.value| - 1] == 'Z'
  {
    if d.InvalidDate? then None
    else
      var iso := DayString(d) + "T" + TimeString(d);
      assert iso[|DayString(d)|] == 'T';
      Some(iso)
  }

  /** Characters that can appear in a `YYYY-MM-DD` string. */
  predicate IsDayChar(c: char)
  {
    IsDigit(c) || c == '-' || c == '+'
  }

  lemma DayStringChars(d: Date)
    requires d.Utc?
    ensures forall i :: 0 <= i < |DayString(d)| ==> IsDayChar(DayString(d)[i])
  {
  }

  /**
   * Reads the calendar day at the front of `s`, in either of the forms
   * `toISOString` writes; whatever follows the day is ignored.
   */
  function ParseDayPrefix(s: string): Option<(int, int, int)>
  {
    if |s| >= 13 && (s[0] == '+' || s[0] == '-') && AllDigits(s[1..7]) && s[7] == '-' &&
       AllDigits(s[8..10]) && s[10] == '-' && AllDigits(s[11..13]) then
      var magnitude: int := ParseDecimal(s[1..7]);
      Some(((if s[0] == '-' then -magnitude else magnitude), ParseDecimal(s[8..10]), ParseDecimal(s[11..13])))
    else if |s| >= 10 && AllDigits(s[..4]) && s[4] == '-' && AllDigits(s[5..7]) && s[7] == '-' &&
       AllDigits(s[8..10]) then
      Some((ParseDecimal(s[..4]), ParseDecimal(s[5..7]), ParseDecimal(s[8..10])))
    else None
  }

  /** The day a valid date's ISO form starts with reads back as that date's year, month and day. */
  lemma DayStringRoundTrip(d: Date, rest: string)
    requires d.Utc?
    ensures ParseDayPrefix(DayString(d) + rest) == Some((d.year, d.month, d.day))
  {
    var s := DayString(d) + rest;
    var y, m, dd := YearString(d.year), Decimal(d.month, 2), Decimal(d.day, 2);
    DecimalRoundTrip(d.month, 2);
    DecimalRoundTrip(d.day, 2);
    assert Pow10(4) == 10000 && Pow10(6) == 1000000;
    if 0 <= d.year <= 9999 {
      DecimalRoundTrip(d.year, 4);
      assert s[..4] == y && s[5..7] == m && s[8..10] == dd;
      assert s[4] == '-' && s[7] == '-';
    } else {
      var mag := if d.year < 0 then -d.year else d.year;
      DecimalRoundTrip(mag, 6);
      assert s[1..7] == Decimal(mag, 6) && s[8..10] == m && s[11..13] == dd;
      assert s[7] == '-' && s[10] == '-';
    }
  }

  /** Reads a time in the form `HH:mm:ss.sssZ` that `toISOString` ends with. */
  function ParseTime(s: string): Option<(int, int, int, int)>
  {
    if |s| == 13 && AllDigits(s[..2]) && s[2] == ':' && AllDigits(s[3..5]) && s[5] == ':' &&
       AllDigits(s[6..8]) && s[8] == '.' && AllDigits(s[9..12]) && s[12] == 'Z' then
      Some((ParseDecimal(s[..2]), ParseDecimal(s[3..5]), ParseDecimal(s[6..8]), ParseDecimal(s[9..12])))
    else None
  }

  /** The time part of a valid date's ISO form reads back as its hour, minute, second and millisecond. */
  lemma TimeStringRoundTrip(d: Date)
    requires d.Utc?
    ensures ParseTime(TimeString(d)) == Some((d.hour, d.minute, d.second, d.millisecond))
  {
    var t := TimeString(d);
    DecimalRoundTrip(d.hour, 2);
    DecimalRoundTrip(d.minute, 2);
    DecimalRoundTrip(d.second, 2);
    assert Pow10(3) == 1000;
    DecimalRoundTrip(d.millisecond, 3);
    assert t[..2] == Decimal(d.hour, 2) && t[3..5] == Decimal(d.minute, 2);
    assert t[6..8] == Decimal(d.second, 2) && t[9..12] == Decimal(d.millisecond, 3);
  }

  /**
   * The ISO form of a valid date reads back completely: the day at its
   * front, a `T`, and the time in its last 13 characters.
   */
  lemma ISOStringRoundTrip(d: Date)
    requires d.Utc?
    ensures var iso := ToISOString(d).value;
      && ParseDayPrefix(iso) == Some((d.year, d.month, d.day))
      && iso[|iso| - 14] == 'T'
      && ParseTime(iso[|iso| - 13..]) == Some((d.hour, d.minute, d.second, d.millisecond))
  {
    var day, time := DayString(d), TimeString(d);
    var iso := ToISOString(d).value;
    assert iso == day + ("T" + time);
    assert ParseDayPrefix(iso) == Some((d.year, d.month, d.day)) by {
      DayStringRoundTrip(d, "T" + time);
    }
    assert iso[|iso| - 14] == 'T' && iso[|iso| - 13..] == time by {
      JoinedAtT(day, time);
    }
    TimeStringRoundTrip(d);
  }

  lemma JoinedAtT(day: string, time: string)
    requires |time| == 13
    ensures var iso := day + ("T" + time);
      iso[|iso| - 14] == 'T' && iso[|iso| - 13..] == time
  {
    var iso := day + ("T" + time);
    assert iso[|day|] == 'T';
    assert iso[|day| + 1..] == time;
  }
}
