/** Calendar dates written `YYYY-MM-DD`: what `time.Parse("2006-01-02", …)`
    in Go reads and the strict reading of `new Date("YYYY-MM-DD")` in
    JavaScript, and what `toISOString().split('T')[0]` and
    `Format("2006-01-02")` write. Dates are proleptic Gregorian with
    four-digit years. */
module Calendar {

  import opened Wrappers
  import opened Strings

  datatype CivilDate = CivilDate(year: int, month: int, day: int)

  predicate IsLeapYear(y: int)
  {
    y % 4 == 0 && (y % 100 != 0 || y % 400 == 0)
  }

  function DaysInMonth(y: int, m: int): int
    requires 1 <= m <= 12
  {
    if m == 2 then (if IsLeapYear(y) then 29 else 28)
    else if m == 4 || m == 6 || m == 9 || m == 11 then 30
    else 31
  }

  /** A real calendar day with a four-digit year. */
  predicate ValidDate(d: CivilDate)
  {
    0 <= d.year <= 9999 && 1 <= d.month <= 12 && 1 <= d.day <= DaysInMonth(d.year, d.month)
  }

  function YearLength(y: int): int
  {
    if IsLeapYear(y) then 366 else 365
  }

  /** Days from 0000-01-01 to the first day of year `y`. */
  function DaysBeforeYear(y: nat): nat
  {
    if y == 0 then 0 else DaysBeforeYear(y - 1) + YearLength(y - 1)
  }

  const CumulativeDays: seq<int> := [0, 31, 59, 90, 120, 151, 181, 212, 243, 273, 304, 334, 365]

  /** Days from the first of January to the first day of month `m` (13
      standing for the next January). */
  function DaysBeforeMonth(y: int, m: int): int
    requires 1 <= m <= 13
  {
    CumulativeDays[m - 1] + (if m > 2 && IsLeapYear(y) then 1 else 0)
  }

  /** Days from 0000-01-01 to `d`. */
  function DayNumber(d: CivilDate): int
    requires ValidDate(d)
  {
    DaysBeforeYear(d.year) + DaysBeforeMonth(d.year, d.month) + d.day - 1
  }

  /** Calendar order: by year, then month, then day. */
  predicate Before(a: CivilDate, b: CivilDate)
  {
    a.year < b.year || (a.year == b.year && (a.month < b.month || (a.month == b.month && a.day < b.day)))
  }

  lemma MonthsTile(y: int, m: int)
    requires 1 <= m <= 12
    ensures DaysBeforeMonth(y, m) + DaysInMonth(y, m) == DaysBeforeMonth(y, m + 1)
    ensures DaysBeforeMonth(y, 13) == YearLength(y)
  {
  }

  lemma {:induction false} DaysBeforeMonthGrows(y: int, m1: int, m2: int)
    requires 1 <= m1 < m2 <= 13
    ensures DaysBeforeMonth(y, m1) + DaysInMonth(y, m1) <= DaysBeforeMonth(y, m2)
    decreases m2
  {
    MonthsTile(y, m1);
    if m2 > m1 + 1 {
      DaysBeforeMonthGrows(y, m1, m2 - 1);
      MonthsTile(y, m2 - 1);
    }
  }

  lemma {:induction false} DaysBeforeYearGrows(y1: nat, y2: nat)
    requires y1 < y2
    ensures DaysBeforeYear(y1) + YearLength(y1) <= DaysBeforeYear(y2)
    decreases y2
  {
    if y2 > y1 + 1 {
      DaysBeforeYearGrows(y1, y2 - 1);
    }
  }

  /** A date's day within its year lies inside that year. */
  lemma DayOfYearBounds(d: CivilDate)
    requires ValidDate(d)
    ensures 0 <= DaysBeforeMonth(d.year, d.month) + d.day - 1 < YearLength(d.year)
  {
    MonthsTile(d.year, d.month);
    if d.month < 12 {
      DaysBeforeMonthGrows(d.year, d.month + 1, 13);
    }
  }

  /** Day numbers count days in calendar order. */
  lemma {:induction false} DayNumberOrder(a: CivilDate, b: CivilDate)
    requires ValidDate(a) && ValidDate(b)
    ensures Before(a, b) <==> DayNumber(a) < DayNumber(b)
    ensures DayNumber(a) == DayNumber(b) <==> a == b
  {
    DayOfYearBounds(a);
    DayOfYearBounds(b);
    if a.year < b.year {
      DaysBeforeYearGrows(a.year, b.year);
    } else if b.year < a.year {
      DaysBeforeYearGrows(b.year, a.year);
    } else if a.month < b.month {
      DaysBeforeMonthGrows(a.year, a.month, b.month);
    } else if b.month < a.month {
      DaysBeforeMonthGrows(a.year, b.month, a.month);
    }
  }

  /** The `YYYY-MM-DD` text of a date. */
  function Format(d: CivilDate): string
    requires ValidDate(d)
  {
    Pad(d.year, 4) + "-" + Pad(d.month, 2) + "-" + Pad(d.day, 2)
  }

  /** Strict `YYYY-MM-DD`: ten characters, a real calendar day. */
  function Parse(s: string): (r: Option<CivilDate>)
    ensures r.Some? ==> ValidDate(r.value)
  {
    if |s| == 10 && s[4] == '-' && s[7] == '-'
       && AllDigits(s[..4]) && AllDigits(s[5..7]) && AllDigits(s[8..]) then
      var d := CivilDate(DigitsValue(s[..4]), DigitsValue(s[5..7]), DigitsValue(s[8..]));
      if ValidDate(d) then Some(d) else None
    else None
  }

  lemma ParseFormat(d: CivilDate)
    requires ValidDate(d)
    ensures Parse(Format(d)) == Some(d)
  {
    var s := Format(d);
    assert s[..4] == Pad(d.year, 4);
    assert s[5..7] == Pad(d.month, 2);
    assert s[8..] == Pad(d.day, 2);
    assert Pow10(2) == 100 && Pow10(4) == 10000;
    PadValue(d.year, 4);
    PadValue(d.month, 2);
    PadValue(d.day, 2);
  }

  lemma FormatParse(s: string)
    requires Parse(s).Some?
    ensures Format(Parse(s).value) == s
  {
    ValuePad(s[..4]);
    ValuePad(s[5..7]);
    ValuePad(s[8..]);
    assert s == s[..4] + "-" + s[5..7] + "-" + s[8..];
  }

  /** Equal text after an equal separator: strip the separator. */
  lemma SkipSeparator(s: string, t: string)
    requires |s| > 0 && |t| > 0 && s[0] == t[0]
    ensures Less(s, t) <==> Less(s[1..], t[1..])
  {
  }

  /** Text order on two `YYYY-MM-DD` shapes compares year, then month, then
      day digits. */
  lemma IsoTextOrderByFields(s: string, t: string)
    requires |s| == 10 && |t| == 10 && s[4] == t[4] && s[7] == t[7]
    ensures Less(s, t) <==>
      Less(s[..4], t[..4]) || (s[..4] == t[..4] &&
        (Less(s[5..7], t[5..7]) || (s[5..7] == t[5..7] && Less(s[8..], t[8..]))))
  {
    assert s == s[..4] + s[4..];
    assert t == t[..4] + t[4..];
    LessConcat(s[..4], s[4..], t[..4], t[4..]);
    SkipSeparator(s[4..], t[4..]);
    assert s[4..][1..] == s[5..];
    assert t[4..][1..] == t[5..];
    assert s[5..] == s[5..7] + s[7..];
    assert t[5..] == t[5..7] + t[7..];
    LessConcat(s[5..7], s[7..], t[5..7], t[7..]);
    SkipSeparator(s[7..], t[7..]);
    assert s[7..][1..] == s[8..];
    assert t[7..][1..] == t[8..];
  }

  /** Digit fields of one width compare, and are equal, as their values. */
  lemma FieldOrder(x: string, y: string)
    requires AllDigits(x) && AllDigits(y) && |x| == |y|
    ensures Less(x, y) <==> DigitsValue(x) < DigitsValue(y)
    ensures x == y <==> DigitsValue(x) == DigitsValue(y)
  {
    DigitsOrder(x, y);
    ValuePad(x);
    ValuePad(y);
  }

  /** `YYYY-MM-DD` texts compare as text exactly as their dates compare in
      time, so SQL `MAX(date)` over such texts is the latest date. */
  lemma IsoTextOrderIsChronological(s: string, t: string)
    requires Parse(s).Some? && Parse(t).Some?
    ensures Less(s, t) <==> DayNumber(Parse(s).value) < DayNumber(Parse(t).value)
  {
    var a, b := Parse(s).value, Parse(t).value;
    assert a.year == DigitsValue(s[..4]) && b.year == DigitsValue(t[..4]);
    assert a.month == DigitsValue(s[5..7]) && b.month == DigitsValue(t[5..7]);
    assert a.day == DigitsValue(s[8..]) && b.day == DigitsValue(t[8..]);
    IsoTextOrderByFields(s, t);
    FieldOrder(s[..4], t[..4]);
    FieldOrder(s[5..7], t[5..7]);
    FieldOrder(s[8..], t[8..]);
    assert Less(s, t) <==> Before(a, b);
    DayNumberOrder(a, b);
  }
}
