/**
 * The slice of java.time the ledger uses: LocalDate.parse for the ISO 8601
 * extended calendar-date form YYYY-MM-DD (ISO 8601:2004, section 4.1.2.2) in
 * the proleptic Gregorian calendar, the year-month of a date and the month
 * before it (YearMonth.minusMonths(1)), and the extended time-of-day form
 * hh:mm:ss (ISO 8601:2004, section 4.2.2.2) that the entry prompt asks for.
 * Instants are counted in seconds from 0000-01-01T00:00:00 to give the
 * chronological order an independent definition.
 */
module Calendar {
  import opened Wrappers
  import opened JavaStrings
  import opened Decimal

  datatype Date = Date(year: int, month: int, day: int)

  datatype TimeOfDay = TimeOfDay(hour: int, minute: int, second: int)

  datatype YearMonth = YearMonth(year: int, month: int)

  /** The Gregorian leap-year rule. */
  predicate IsLeapYear(y: int)
  {
    y % 4 == 0 && (y % 100 != 0 || y % 400 == 0)
  }

  function DaysInMonth(y: int, m: int): int
    requires 1 <= m <= 12
  {
    if m == 2 then (if IsLeapYear(y) then 29 else 28)
    else if m == 4 || m == 6 || m == 9 || m == 11 then 30
    else 31
  }

  predicate ValidDate(d: Date)
  {
    1 <= d.month <= 12 && 1 <= d.day <= DaysInMonth(d.year, d.month)
  }

  predicate ValidTime(t: TimeOfDay)
  {
    0 <= t.hour < 24 && 0 <= t.minute < 60 && 0 <= t.second < 60
  }

  // ---------------------------------------------------------------------
  // Text forms
  // ---------------------------------------------------------------------

  /**
   * LocalDate.parse(s): exactly YYYY-MM-DD with a four-digit year, and the
   * day must exist in that month of that year.
   */
  function ParseIsoDate(s: String): (r: Option<Date>)
    ensures r.Some? ==> ValidDate(r.value) && 0 <= r.value.year < 10000
  {
    if |s| == 10 && s[4] == '-' && s[7] == '-'
       && AllDigits(s[..4]) && AllDigits(s[5..7]) && AllDigits(s[8..])
    then
      var d := Date(Value(s[..4]), Value(s[5..7]), Value(s[8..]));
      ValueBound(s[..4]);
      if ValidDate(d) then Some(d) else None
    else None
  }

  /** LocalDate.toString for a four-digit year: zero-padded YYYY-MM-DD. */
  function FormatIsoDate(d: Date): String
    requires ValidDate(d) && 0 <= d.year < 10000
  {
    Padded(d.year, 4) + "-" + Padded(d.month, 2) + "-" + Padded(d.day, 2)
  }

  /** hh:mm:ss with hours below 24 and minutes and seconds below 60. */
  function ParseIsoTime(s: String): (r: Option<TimeOfDay>)
    ensures r.Some? ==> ValidTime(r.value)
  {
    if |s| == 8 && s[2] == ':' && s[5] == ':'
       && AllDigits(s[..2]) && AllDigits(s[3..5]) && AllDigits(s[6..])
    then
      var t := TimeOfDay(Value(s[..2]), Value(s[3..5]), Value(s[6..]));
      if ValidTime(t) then Some(t) else None
    else None
  }

  function FormatIsoTime(t: TimeOfDay): String
    requires ValidTime(t)
  {
    Padded(t.hour, 2) + ":" + Padded(t.minute, 2) + ":" + Padded(t.second, 2)
  }

  /** Every valid date with a four-digit year is read back from its text. */
  lemma DateRoundTrip(d: Date)
    requires ValidDate(d) && 0 <= d.year < 10000
    ensures ParseIsoDate(FormatIsoDate(d)) == Some(d)
  {
    var s := FormatIsoDate(d);
    assert s[..4] == Padded(d.year, 4);
    assert s[5..7] == Padded(d.month, 2);
    assert s[8..] == Padded(d.day, 2);
    ValueOfPadded(d.year, 4);
    ValueOfPadded(d.month, 2);
    ValueOfPadded(d.day, 2);
  }

  /** The text form is canonical: a date text is the formatting of what it parses to. */
  lemma DateCanonical(s: String)
    requires ParseIsoDate(s).Some?
    ensures FormatIsoDate(ParseIsoDate(s).value) == s
  {
    PaddedOfValue(s[..4]);
    PaddedOfValue(s[5..7]);
    PaddedOfValue(s[8..]);
    assert s == s[..4] + "-" + s[5..7] + "-" + s[8..];
  }

  lemma TimeRoundTrip(t: TimeOfDay)
    requires ValidTime(t)
    ensures ParseIsoTime(FormatIsoTime(t)) == Some(t)
  {
    var s := FormatIsoTime(t);
    assert s[..2] == Padded(t.hour, 2);
    assert s[3..5] == Padded(t.minute, 2);
    assert s[6..] == Padded(t.second, 2);
    ValueOfPadded(t.hour, 2);
    ValueOfPadded(t.minute, 2);
    ValueOfPadded(t.second, 2);
  }

  lemma TimeCanonical(s: String)
    requires ParseIsoTime(s).Some?
    ensures FormatIsoTime(ParseIsoTime(s).value) == s
  {
    PaddedOfValue(s[..2]);
    PaddedOfValue(s[3..5]);
    PaddedOfValue(s[6..]);
    assert s == s[..2] + ":" + s[3..5] + ":" + s[6..];
  }

  // ---------------------------------------------------------------------
  // Year-months
  // ---------------------------------------------------------------------

  function YearMonthOf(d: Date): YearMonth
  {
    YearMonth(d.year, d.month)
  }

  /** Months counted from January of year 0. */
  function MonthIndex(ym: YearMonth): int
  {
    ym.year * 12 + ym.month - 1
  }

  /**
   * YearMonth.minusMonths(1): the month one before `ym` in the running count
   * of months; January goes back to December of the previous year.
   */
  function PreviousMonth(ym: YearMonth): (r: YearMonth)
    requires 1 <= ym.month <= 12
    ensures 1 <= r.month <= 12 && MonthIndex(r) == MonthIndex(ym) - 1
    ensures ym.month == 1 ==> r == YearMonth(ym.year - 1, 12)
  {
    if ym.month == 1 then YearMonth(ym.year - 1, 12) else YearMonth(ym.year, ym.month - 1)
  }

  function NextMonth(ym: YearMonth): (r: YearMonth)
    requires 1 <= ym.month <= 12
    ensures 1 <= r.month <= 12 && MonthIndex(r) == MonthIndex(ym) + 1
  {
    if ym.month == 12 then YearMonth(ym.year + 1, 1) else YearMonth(ym.year, ym.month + 1)
  }

  /** A year-month with a month in 1..12 is fixed by its month index. */
  lemma MonthIndexInjective(a: YearMonth, b: YearMonth)
    requires 1 <= a.month <= 12 && 1 <= b.month <= 12
    requires MonthIndex(a) == MonthIndex(b)
    ensures a == b
  {
    assert (a.year - b.year) * 12 == b.month - a.month;
  }

  /** Stepping back a month and forward again returns to the start. */
  lemma NextOfPrevious(ym: YearMonth)
    requires 1 <= ym.month <= 12
    ensures NextMonth(PreviousMonth(ym)) == ym
  {
    MonthIndexInjective(NextMonth(PreviousMonth(ym)), ym);
  }

  /** The last day of the month `ym`. */
  function LastDay(ym: YearMonth): (d: Date)
    requires 1 <= ym.month <= 12
    ensures ValidDate(d) && YearMonthOf(d) == ym
  {
    Date(ym.year, ym.month, DaysInMonth(ym.year, ym.month))
  }

  // ---------------------------------------------------------------------
  // Chronological order
  // ---------------------------------------------------------------------

  function YearLength(y: int): int
  {
    if IsLeapYear(y) then 366 else 365
  }

  /** Days from 0000-01-01 to the first of January of `y`. */
  function DaysBeforeYear(y: nat): nat
  {
    if y == 0 then 0 else DaysBeforeYear(y - 1) + YearLength(y - 1)
  }

  /** Days from the first of January of `y` to the first of month `m` (13: the next year). */
  function DaysBeforeMonth(y: int, m: int): nat
    requires 1 <= m <= 13
  {
    if m == 1 then 0 else DaysBeforeMonth(y, m - 1) + DaysInMonth(y, m - 1)
  }

  /** Days from 0000-01-01 to `d`. */
  function DayNumber(d: Date): nat
    requires ValidDate(d) && d.year >= 0
  {
    DaysBeforeYear(d.year) + DaysBeforeMonth(d.year, d.month) + d.day - 1
  }

  function SecondOfDay(t: TimeOfDay): int
  {
    t.hour * 3600 + t.minute * 60 + t.second
  }

  /** Seconds from 0000-01-01T00:00:00 to time `t` on date `d`. */
  function Instant(d: Date, t: TimeOfDay): int
    requires ValidDate(d) && d.year >= 0
  {
    DayNumber(d) * 86400 + SecondOfDay(t)
  }

  lemma YearOfMonths(y: int)
    ensures DaysBeforeMonth(y, 13) == YearLength(y)
  {
    assert DaysBeforeMonth(y, 2) == 31;
    assert DaysBeforeMonth(y, 3) == 31 + DaysInMonth(y, 2);
    assert DaysBeforeMonth(y, 4) == 62 + DaysInMonth(y, 2);
    assert DaysBeforeMonth(y, 5) == 92 + DaysInMonth(y, 2);
    assert DaysBeforeMonth(y, 6) == 123 + DaysInMonth(y, 2);
    assert DaysBeforeMonth(y, 7) == 153 + DaysInMonth(y, 2);
    assert DaysBeforeMonth(y, 8) == 184 + DaysInMonth(y, 2);
    assert DaysBeforeMonth(y, 9) == 215 + DaysInMonth(y, 2);
    assert DaysBeforeMonth(y, 10) == 245 + DaysInMonth(y, 2);
    assert DaysBeforeMonth(y, 11) == 276 + DaysInMonth(y, 2);
    assert DaysBeforeMonth(y, 12) == 306 + DaysInMonth(y, 2);
  }

  /** The days of month `m` come before those of any later month `n`. */
  lemma {:induction false} MonthsAccumulate(y: int, m: int, n: int)
    requires 1 <= m < n <= 13
    ensures DaysBeforeMonth(y, m) + DaysInMonth(y, m) <= DaysBeforeMonth(y, n)
  {
    if n > m + 1 {
      MonthsAccumulate(y, m, n - 1);
    }
  }

  /** The days of year `y` come before those of any later year `z`. */
  lemma {:induction false} YearsAccumulate(y: nat, z: nat)
    requires y < z
    ensures DaysBeforeYear(y) + YearLength(y) <= DaysBeforeYear(z)
  {
    if z > y + 1 {
      YearsAccumulate(y, z - 1);
    }
  }

  /** A date's day number stays within its year. */
  lemma DayWithinYear(d: Date)
    requires ValidDate(d) && d.year >= 0
    ensures DayNumber(d) < DaysBeforeYear(d.year) + YearLength(d.year)
  {
    YearOfMonths(d.year);
    if d.month < 12 {
      MonthsAccumulate(d.year, d.month, 13);
    }
  }

  /** The sign of the first difference between two equally long tuples. */
  function LexSign(a: seq<int>, b: seq<int>): int
    requires |a| == |b|
  {
    if a == [] then 0
    else if a[0] != b[0] then Sign(a[0] - b[0])
    else LexSign(a[1..], b[1..])
  }

  lemma LexSignOfTriples(a: int, b: int, c: int, x: int, y: int, z: int)
    ensures LexSign([a, b, c], [x, y, z])
         == if a != x then Sign(a - x) else if b != y then Sign(b - y) else Sign(c - z)
  {
    assert [c][1..] == [] && [z][1..] == [];
    assert LexSign([c], [z]) == if c != z then Sign(c - z) else LexSign([], []);
    assert [b, c][1..] == [c] && [y, z][1..] == [z];
    assert LexSign([b, c], [y, z]) == if b != y then Sign(b - y) else LexSign([c], [z]);
    assert [a, b, c][1..] == [b, c] && [x, y, z][1..] == [y, z];
    assert LexSign([a, b, c], [x, y, z]) == if a != x then Sign(a - x) else LexSign([b, c], [y, z]);
  }

  /** Later dates, in (year, month, day) order, have larger day numbers. */
  lemma DayNumberOrder(d1: Date, d2: Date)
    requires ValidDate(d1) && d1.year >= 0 && ValidDate(d2) && d2.year >= 0
    ensures Sign(DayNumber(d1) - DayNumber(d2))
         == LexSign([d1.year, d1.month, d1.day], [d2.year, d2.month, d2.day])
  {
    LexSignOfTriples(d1.year, d1.month, d1.day, d2.year, d2.month, d2.day);
    if d1.year < d2.year {
      DayWithinYear(d1);
      YearsAccumulate(d1.year, d2.year);
    } else if d2.year < d1.year {
      DayWithinYear(d2);
      YearsAccumulate(d2.year, d1.year);
    } else if d1.month < d2.month {
      MonthsAccumulate(d1.year, d1.month, d2.month);
    } else if d2.month < d1.month {
      MonthsAccumulate(d2.year, d2.month, d1.month);
    }
  }

  lemma SecondOfDayBound(t: TimeOfDay)
    requires ValidTime(t)
    ensures 0 <= t.minute * 60 + t.second < 3600
    ensures 0 <= SecondOfDay(t) < 86400
  {
    LeadingDigitDecides(t.minute, 60, 60, t.second, 0);
    LeadingDigitDecides(t.hour, 24, 3600, t.minute * 60 + t.second, 0);
  }

  /** Later times of day, in (hour, minute, second) order, have larger second counts. */
  lemma SecondOfDayOrder(t1: TimeOfDay, t2: TimeOfDay)
    requires ValidTime(t1) && ValidTime(t2)
    ensures Sign(SecondOfDay(t1) - SecondOfDay(t2))
         == LexSign([t1.hour, t1.minute, t1.second], [t2.hour, t2.minute, t2.second])
  {
    LexSignOfTriples(t1.hour, t1.minute, t1.second, t2.hour, t2.minute, t2.second);
    SecondOfDayBound(t1);
    SecondOfDayBound(t2);
    var r1, r2 := t1.minute * 60 + t1.second, t2.minute * 60 + t2.second;
    if t1.hour < t2.hour {
      LeadingDigitDecides(t1.hour, t2.hour, 3600, r1, r2);
    } else if t2.hour < t1.hour {
      LeadingDigitDecides(t2.hour, t1.hour, 3600, r2, r1);
    } else if t1.minute < t2.minute {
      LeadingDigitDecides(t1.minute, t2.minute, 60, t1.second, t2.second);
    } else if t2.minute < t1.minute {
      LeadingDigitDecides(t2.minute, t1.minute, 60, t2.second, t1.second);
    }
  }

  lemma {:induction false} LexSignConcat(a: seq<int>, b: seq<int>, c: seq<int>, d: seq<int>)
    requires |a| == |c| && |b| == |d|
    ensures LexSign(a + b, c + d) == if LexSign(a, c) != 0 then LexSign(a, c) else LexSign(b, d)
  {
    if a == [] {
      assert a + b == b && c + d == d;
    } else {
      assert (a + b)[1..] == a[1..] + b && (c + d)[1..] == c[1..] + d;
      LexSignConcat(a[1..], b, c[1..], d);
    }
  }

  /** The tuple order on (date, time) is the order of instants. */
  lemma InstantOrder(d1: Date, t1: TimeOfDay, d2: Date, t2: TimeOfDay)
    requires ValidDate(d1) && d1.year >= 0 && ValidTime(t1)
    requires ValidDate(d2) && d2.year >= 0 && ValidTime(t2)
    ensures Sign(Instant(d1, t1) - Instant(d2, t2))
         == LexSign([d1.year, d1.month, d1.day, t1.hour, t1.minute, t1.second],
                    [d2.year, d2.month, d2.day, t2.hour, t2.minute, t2.second])
  {
    DayNumberOrder(d1, d2);
    SecondOfDayOrder(t1, t2);
    SecondOfDayBound(t1);
    SecondOfDayBound(t2);
    LexSignConcat([d1.year, d1.month, d1.day], [t1.hour, t1.minute, t1.second],
                  [d2.year, d2.month, d2.day], [t2.hour, t2.minute, t2.second]);
    assert [d1.year, d1.month, d1.day] + [t1.hour, t1.minute, t1.second]
        == [d1.year, d1.month, d1.day, t1.hour, t1.minute, t1.second];
    assert [d2.year, d2.month, d2.day] + [t2.hour, t2.minute, t2.second]
        == [d2.year, d2.month, d2.day, t2.hour, t2.minute, t2.second];
    var n1, n2 := DayNumber(d1), DayNumber(d2);
    var s1, s2 := SecondOfDay(t1), SecondOfDay(t2);
    if n1 < n2 {
      LeadingDigitDecides(n1, n2, 86400, s1, s2);
    } else if n2 < n1 {
      LeadingDigitDecides(n2, n1, 86400, s2, s1);
    }
  }

  // ---------------------------------------------------------------------
  // Text order of timestamps
  // ---------------------------------------------------------------------

  /** Two padded numbers followed by the same separator compare by value first. */
  lemma PeelBlock(m: nat, sep: String, r: String, n: nat, q: String, width: nat)
    requires m < Pow10(width) && n < Pow10(width)
    ensures Sign(CompareTo(Padded(m, width) + sep + r, Padded(n, width) + sep + q))
         == if m == n then Sign(CompareTo(r, q)) else Sign(m - n)
  {
    assert Padded(m, width) + sep + r == Padded(m, width) + (sep + r);
    assert Padded(n, width) + sep + q == Padded(n, width) + (sep + q);
    ComparePaddedBlocks(m, sep + r, n, sep + q, width);
    CompareToBlocks(sep, r, sep, q);
  }

  /**
   * Three zero-padded blocks with separators between them, followed by a
   * rest, compare block by block and then by the rests.
   */
  lemma ThreeBlockOrder(x1: nat, y1: nat, z1: nat, r1: String, x2: nat, y2: nat, z2: nat, r2: String,
                        wx: nat, wy: nat, wz: nat, s: String, t: String)
    requires x1 < Pow10(wx) && x2 < Pow10(wx)
    requires y1 < Pow10(wy) && y2 < Pow10(wy)
    requires z1 < Pow10(wz) && z2 < Pow10(wz)
    ensures Sign(CompareTo(Padded(x1, wx) + s + Padded(y1, wy) + t + Padded(z1, wz) + r1,
                           Padded(x2, wx) + s + Padded(y2, wy) + t + Padded(z2, wz) + r2))
         == if x1 != x2 then Sign(x1 - x2)
            else if y1 != y2 then Sign(y1 - y2)
            else if z1 != z2 then Sign(z1 - z2)
            else Sign(CompareTo(r1, r2))
  {
    var v1, v2 := Padded(z1, wz) + r1, Padded(z2, wz) + r2;
    ComparePaddedBlocks(z1, r1, z2, r2, wz);
    var u1, u2 := Padded(y1, wy) + t + v1, Padded(y2, wy) + t + v2;
    PeelBlock(y1, t, v1, y2, v2, wy);
    PeelBlock(x1, s, u1, x2, u2, wx);
    RegroupStamp(Padded(x1, wx), s, Padded(y1, wy), t, Padded(z1, wz), r1);
    RegroupStamp(Padded(x2, wx), s, Padded(y2, wy), t, Padded(z2, wz), r2);
  }

  lemma RegroupStamp(a: String, b: String, c: String, d: String, e: String, f: String)
    ensures a + b + c + d + e + f == a + b + (c + d + (e + f))
  {
  }

  /** Time texts compare by hour, then minute, then second. */
  lemma TimeTextOrder(b1: TimeOfDay, b2: TimeOfDay)
    requires ValidTime(b1) && ValidTime(b2)
    ensures Sign(CompareTo(FormatIsoTime(b1), FormatIsoTime(b2)))
         == LexSign([b1.hour, b1.minute, b1.second], [b2.hour, b2.minute, b2.second])
  {
    assert Pow10(2) == 100;
    ThreeBlockOrder(b1.hour, b1.minute, b1.second, "", b2.hour, b2.minute, b2.second, "", 2, 2, 2, ":", ":");
    assert FormatIsoTime(b1) + "" == FormatIsoTime(b1) && FormatIsoTime(b2) + "" == FormatIsoTime(b2);
    CompareToZero("", "");
    LexSignOfTriples(b1.hour, b1.minute, b1.second, b2.hour, b2.minute, b2.second);
  }

  /** A date text followed by anything compares by the dates first. */
  lemma DateTextOrder(a1: Date, r1: String, a2: Date, r2: String)
    requires ValidDate(a1) && 0 <= a1.year < 10000
    requires ValidDate(a2) && 0 <= a2.year < 10000
    ensures Sign(CompareTo(FormatIsoDate(a1) + r1, FormatIsoDate(a2) + r2))
         == var d := LexSign([a1.year, a1.month, a1.day], [a2.year, a2.month, a2.day]);
            if d != 0 then d else Sign(CompareTo(r1, r2))
  {
    assert Pow10(2) == 100 && Pow10(4) == 10000;
    ThreeBlockOrder(a1.year, a1.month, a1.day, r1, a2.year, a2.month, a2.day, r2, 4, 2, 2, "-", "-");
    LexSignOfTriples(a1.year, a1.month, a1.day, a2.year, a2.month, a2.day);
  }

  /**
   * The text "YYYY-MM-DDhh:mm:ss" of a date followed by a time compares, as
   * String.compareTo does, field by field from the year down to the second.
   */
  lemma StampTextOrder(a1: Date, b1: TimeOfDay, a2: Date, b2: TimeOfDay)
    requires ValidDate(a1) && 0 <= a1.year < 10000 && ValidTime(b1)
    requires ValidDate(a2) && 0 <= a2.year < 10000 && ValidTime(b2)
    ensures Sign(CompareTo(FormatIsoDate(a1) + FormatIsoTime(b1), FormatIsoDate(a2) + FormatIsoTime(b2)))
         == LexSign([a1.year, a1.month, a1.day, b1.hour, b1.minute, b1.second],
                    [a2.year, a2.month, a2.day, b2.hour, b2.minute, b2.second])
  {
    DateTextOrder(a1, FormatIsoTime(b1), a2, FormatIsoTime(b2));
    TimeTextOrder(b1, b2);
    LexSignConcat([a1.year, a1.month, a1.day], [b1.hour, b1.minute, b1.second],
                  [a2.year, a2.month, a2.day], [b2.hour, b2.minute, b2.second]);
    assert [a1.year, a1.month, a1.day] + [b1.hour, b1.minute, b1.second]
        == [a1.year, a1.month, a1.day, b1.hour, b1.minute, b1.second];
    assert [a2.year, a2.month, a2.day] + [b2.hour, b2.minute, b2.second]
        == [a2.year, a2.month, a2.day, b2.hour, b2.minute, b2.second];
  }

  /** A date text and a time text that both parse. */
  predicate IsStamp(date: String, time: String)
  {
    ParseIsoDate(date).Some? && ParseIsoTime(time).Some?
  }

  /** The instant a date text and a time text name. */
  function StampInstant(date: String, time: String): int
    requires IsStamp(date, time)
  {
    Instant(ParseIsoDate(date).value, ParseIsoTime(time).value)
  }

  /**
   * For well-formed ISO dates and times, comparing the concatenated texts
   * with String.compareTo orders them exactly as their instants are ordered.
   */
  lemma TextOrderIsChronological(d1: String, t1: String, d2: String, t2: String)
    requires IsStamp(d1, t1) && IsStamp(d2, t2)
    ensures Sign(CompareTo(d1 + t1, d2 + t2)) == Sign(StampInstant(d1, t1) - StampInstant(d2, t2))
  {
    var a1, b1 := ParseIsoDate(d1).value, ParseIsoTime(t1).value;
    var a2, b2 := ParseIsoDate(d2).value, ParseIsoTime(t2).value;
    DateCanonical(d1);
    DateCanonical(d2);
    TimeCanonical(t1);
    TimeCanonical(t2);
    StampTextOrder(a1, b1, a2, b2);
    InstantOrder(a1, b1, a2, b2);
  }
}
