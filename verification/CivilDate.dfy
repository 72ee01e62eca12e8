/**
 * `seconds_to_ymd` of common-core/src/format.rs: a closed-form conversion of a day count to a
 * Gregorian date, compared with a calendar that simply adds up years and months.
 */
module CivilDate {
  const MAX_TIMESTAMP_SECS: nat := 253_402_300_799
  const SECS_PER_DAY: nat := 86_400
  const MONTH_NAMES: seq<string> :=
    ["Jan", "Feb", "Mar", "Apr", "May", "Jun", "Jul", "Aug", "Sep", "Oct", "Nov", "Dec"]

  datatype Date = Date(year: nat, month: nat, day: nat)

  // ---------------------------------------------------------------------------------------------
  // The program
  // ---------------------------------------------------------------------------------------------

  /** Year of the 400-year era, from the day of the era. */
  function YearOfEra(doe: nat): nat {
    (doe - doe / 1460 + doe / 36524 - doe / 146096) / 365
  }

  function DayOfYear(doe: nat): int {
    var yoe := YearOfEra(doe);
    doe - (365 * yoe + yoe / 4 - yoe / 100)
  }

  /** Month and day from the day of a year that starts in March. */
  function MonthAndDay(doy: int): (int, int) {
    var mp := (5 * doy + 2) / 153;
    (if mp < 10 then mp + 3 else mp - 9, doy - (153 * mp + 2) / 5 + 1)
  }

  /** The date of a day count from 1970-01-01. */
  function CivilFromDays(days: nat): (int, int, int) {
    var z := days + 719_468;
    var era := z / 146_097;
    var doe := z - era * 146_097;
    var y := YearOfEra(doe) + era * 400;
    var (m, d) := MonthAndDay(DayOfYear(doe));
    (if m <= 2 then y + 1 else y, m, d)
  }

  function SecondsToYmd(seconds: nat): (int, string, int) {
    if seconds >= MAX_TIMESTAMP_SECS then (9999, "Dec", 31)
    else
      CivilFromDaysIsExact(seconds / SECS_PER_DAY);   // so the month is a valid index
      var (year, m, d) := CivilFromDays(seconds / SECS_PER_DAY);
      if year > 9999 then (9999, "Dec", 31) else (year, MONTH_NAMES[m - 1], d)
  }

  // ---------------------------------------------------------------------------------------------
  // The calendar
  // ---------------------------------------------------------------------------------------------

  predicate Leap(y: nat) {
    y % 4 == 0 && (y % 100 != 0 || y % 400 == 0)
  }

  function DaysInMonth(y: nat, m: nat): nat {
    if m == 2 then (if Leap(y) then 29 else 28)
    else if m in {4, 6, 9, 11} then 30
    else 31
  }

  function DaysInYear(y: nat): nat {
    if Leap(y) then 366 else 365
  }

  function DaysBeforeYear(y: nat): nat {
    if y == 0 then 0 else DaysBeforeYear(y - 1) + DaysInYear(y - 1)
  }

  function DaysBeforeMonth(y: nat, m: nat): nat {
    if m <= 1 then 0 else DaysBeforeMonth(y, m - 1) + DaysInMonth(y, m - 1)
  }

  predicate ValidDate(t: Date) {
    1 <= t.month <= 12 && 1 <= t.day <= DaysInMonth(t.year, t.month)
  }

  /** Days from 0000-01-01, counted year by year and month by month. */
  function DayNumber(t: Date): int {
    DaysBeforeYear(t.year) + DaysBeforeMonth(t.year, t.month) + t.day - 1
  }

  function NextDate(t: Date): Date {
    if t.day < DaysInMonth(t.year, t.month) then t.(day := t.day + 1)
    else if t.month < 12 then Date(t.year, t.month + 1, 1)
    else Date(t.year + 1, 1, 1)
  }

  const EPOCH: Date := Date(1970, 1, 1)

  // ---------------------------------------------------------------------------------------------
  // Facts about the calendar
  // ---------------------------------------------------------------------------------------------

  lemma {:induction false} YearsClosedForm(y: nat)
    ensures DaysBeforeYear(y + 1) == 365 * (y + 1) + y / 4 - y / 100 + y / 400 + 1
  {
    if y > 0 {
      YearsClosedForm(y - 1);
      LeapStep(y);
    } else {
      assert DaysBeforeYear(1) == DaysBeforeYear(0) + DaysInYear(0);
    }
  }

  lemma LeapStep(y: nat)
    requires y > 0
    ensures y / 4 - y / 100 + y / 400 == (y - 1) / 4 - (y - 1) / 100 + (y - 1) / 400 + (if Leap(y) then 1 else 0)
  {
    QuotientStep(y, 4);
    QuotientStep(y, 100);
    QuotientStep(y, 400);
    assert y % 400 == 0 ==> y % 100 == 0;
    assert y % 100 == 0 ==> y % 4 == 0;
  }

  lemma QuotientStep(y: nat, n: nat)
    requires y > 0 && n in {4, 100, 400}
    ensures y / n == (y - 1) / n + (if y % n == 0 then 1 else 0)
  {
    if n == 4 {
    } else if n == 100 {
    } else {
      assert n == 400;
    }
  }

  lemma MonthTable(y: nat)
    ensures var l := if Leap(y) then 1 else 0;
      && DaysBeforeMonth(y, 1) == 0 && DaysBeforeMonth(y, 2) == 31
      && DaysBeforeMonth(y, 3) == 59 + l && DaysBeforeMonth(y, 4) == 90 + l
      && DaysBeforeMonth(y, 5) == 120 + l && DaysBeforeMonth(y, 6) == 151 + l
      && DaysBeforeMonth(y, 7) == 181 + l && DaysBeforeMonth(y, 8) == 212 + l
      && DaysBeforeMonth(y, 9) == 243 + l && DaysBeforeMonth(y, 10) == 273 + l
      && DaysBeforeMonth(y, 11) == 304 + l && DaysBeforeMonth(y, 12) == 334 + l
  {
    assert DaysBeforeMonth(y, 3) == DaysBeforeMonth(y, 2) + DaysInMonth(y, 2);
    assert DaysBeforeMonth(y, 6) == DaysBeforeMonth(y, 5) + 31;
    assert DaysBeforeMonth(y, 9) == DaysBeforeMonth(y, 8) + 31;
  }

  /** The next date of the calendar has the next day number. */
  lemma NextDateIsNextDay(t: Date)
    requires ValidDate(t)
    ensures ValidDate(NextDate(t)) && DayNumber(NextDate(t)) == DayNumber(t) + 1
  {
    hide DaysBeforeMonth, DaysBeforeYear, DaysInMonth, DaysInYear, Leap;
    if t.day == DaysInMonth(t.year, t.month) {
      if t.month < 12 {
        NextMonth(t.year, t.month);
      } else {
        FirstOfJanuary(t.year);
      }
    }
  }

  lemma NextMonth(y: nat, m: nat)
    requires 1 <= m < 12
    ensures DaysBeforeMonth(y, m + 1) == DaysBeforeMonth(y, m) + DaysInMonth(y, m) && DaysInMonth(y, m + 1) > 0
  {
  }

  lemma FirstOfJanuary(y: nat)
    ensures DaysBeforeYear(y + 1) + DaysBeforeMonth(y + 1, 1)
         == DaysBeforeYear(y) + DaysBeforeMonth(y, 12) + DaysInMonth(y, 12)
    ensures DaysInMonth(y + 1, 1) > 0
  {
    hide DaysBeforeMonth, Leap;
    MonthTable(y);
    MonthTable(y + 1);
  }

  lemma {:induction false} YearsApart(a: nat, b: nat)
    requires a < b
    ensures DaysBeforeYear(a) + DaysInYear(a) <= DaysBeforeYear(b)
    decreases b
  {
    if a < b - 1 {
      YearsApart(a, b - 1);
    }
  }

  lemma WithinYear(t: Date)
    requires ValidDate(t)
    ensures DaysBeforeYear(t.year) <= DayNumber(t) < DaysBeforeYear(t.year) + DaysInYear(t.year)
  {
    MonthTable(t.year);
  }

  /** No two dates share a day number. */
  lemma DayNumberIsInjective(s: Date, t: Date)
    requires ValidDate(s) && ValidDate(t) && DayNumber(s) == DayNumber(t)
    ensures s == t
  {
    hide DaysBeforeYear, DaysBeforeMonth;
    WithinYear(s);
    WithinYear(t);
    if s.year < t.year {
      YearsApart(s.year, t.year);
    } else if t.year < s.year {
      YearsApart(t.year, s.year);
    } else {
      MonthTable(s.year);
    }
  }

  // ---------------------------------------------------------------------------------------------
  // The closed form is exact
  // ---------------------------------------------------------------------------------------------

  /** The era taken apart by hand: centuries, groups of four years, years, and the day. */
  lemma SplitEra(doe: nat) returns (c: nat, g: nat, s: nat, doy: nat)
    requires doe < 146_097
    ensures c <= 3 && g <= 24 && s <= 3 && doy <= 365
    ensures doe == 36524 * c + 1461 * g + 365 * s + doy
    ensures doy == 365 ==> s == 3 && (g < 24 || c == 3)
  {
    c := if doe / 36524 > 3 then 3 else doe / 36524;
    var r := doe - 36524 * c;
    g := r / 1461;
    var q := r - 1461 * g;
    s := if q / 365 > 3 then 3 else q / 365;
    doy := q - 365 * s;
  }

  lemma YearOfEraIsExact(c: nat, g: nat, s: nat, doy: nat)
    requires c <= 3 && g <= 24 && s <= 3 && doy <= 365
    requires doy == 365 ==> s == 3 && (g < 24 || c == 3)
    ensures var doe := 36524 * c + 1461 * g + 365 * s + doy;
      YearOfEra(doe) == 100 * c + 4 * g + s && DayOfYear(doe) == doy
  {
    var doe := 36524 * c + 1461 * g + 365 * s + doy;
    var y := 100 * c + 4 * g + s;
    QuotientsOfEra(c, g, s, doy);
    var f := if 24 * c + g + 365 * s + doy >= 1460 then 1 else 0;
    assert doe - doe / 1460 + doe / 36524 - doe / 146096 == 365 * y + (doy - f);
    assert 0 <= doy - f <= 364;
    assert y / 4 == 25 * c + g && y / 100 == c;
  }

  lemma QuotientsOfEra(c: nat, g: nat, s: nat, doy: nat)
    requires c <= 3 && g <= 24 && s <= 3 && doy <= 365
    requires doy == 365 ==> s == 3 && (g < 24 || c == 3)
    ensures var doe := 36524 * c + 1461 * g + 365 * s + doy;
      && doe / 1460 == 25 * c + g + (if 24 * c + g + 365 * s + doy >= 1460 then 1 else 0)
      && doe / 36524 - doe / 146096 == c
  {
    var doe := 36524 * c + 1461 * g + 365 * s + doy;
    assert doe == 1460 * (25 * c + g) + (24 * c + g + 365 * s + doy);
    var inner := 1461 * g + 365 * s + doy;
    assert doe == 36524 * c + inner && inner <= 36524;
  }

  /** The month formula finds the slot of the day; slots start at `(153 * mp + 2) / 5`. */
  lemma MonthSlot(doy: nat)
    requires doy <= 365
    ensures var mp := (5 * doy + 2) / 153;
      0 <= mp <= 11 && (153 * mp + 2) / 5 <= doy < (153 * (mp + 1) + 2) / 5
  {
  }

  /** The March-based month formula against the calendar's own months. */
  lemma MonthAndDayIsExact(doy: nat, y: nat)
    requires doy <= 365 && (doy == 365 ==> Leap(y + 1))
    ensures var (m, d) := MonthAndDay(doy);
      && 1 <= m <= 12 && 1 <= d
      && ValidDate(Date(if m <= 2 then y + 1 else y, m, d))
      && DayNumber(Date(if m <= 2 then y + 1 else y, m, d)) == DayNumber(Date(y, 3, 1)) + doy
  {
    hide DaysBeforeMonth, DaysBeforeYear, Leap;
    MonthTable(y);
    MonthTable(y + 1);
    NextYear(y);
    MonthSlot(doy);
    var mp := (5 * doy + 2) / 153;
    if mp <= 5 {
      assert mp == 0 || mp == 1 || mp == 2 || mp == 3 || mp == 4 || mp == 5;
    } else {
      assert mp == 6 || mp == 7 || mp == 8 || mp == 9 || mp == 10 || mp == 11;
    }
  }

  lemma NextYear(y: nat)
    ensures DaysBeforeYear(y + 1) == DaysBeforeYear(y) + 365 + (if Leap(y) then 1 else 0)
  {
  }

  /** Days from 0000-03-01 to the first of March of a year. */
  lemma MarchFirst(y: nat)
    ensures DayNumber(Date(y, 3, 1)) == 365 * y + y / 4 - y / 100 + y / 400 + 60
  {
    hide DaysBeforeMonth, DaysBeforeYear, Leap;
    MonthTable(y);
    YearsClosedForm(y);
    NextYear(y);
  }

  /** Eras repeat: shifting by 400 years does not change leap years. */
  lemma {:induction false} LeapInEra(era: nat, yoe: nat)
    ensures Leap(era * 400 + yoe) <==> Leap(yoe)
  {
    if era > 0 {
      LeapInEra(era - 1, yoe);
      LeapNextEra((era - 1) * 400 + yoe);
    }
  }

  lemma LeapNextEra(y: nat)
    ensures Leap(y + 400) <==> Leap(y)
  {
    SameRemainders(y);
  }

  lemma SameRemainders(y: nat)
    ensures (y + 400) % 4 == y % 4 && (y + 400) % 100 == y % 100 && (y + 400) % 400 == y % 400
  {
    Same4(y);
    Same100(y);
    Same400(y);
  }

  lemma Same4(y: nat)
    ensures (y + 400) % 4 == y % 4
  {
  }

  lemma Same100(y: nat)
    ensures (y + 400) % 100 == y % 100
  {
    assert (y + 400) / 100 == y / 100 + 4;
  }

  lemma Same400(y: nat)
    ensures (y + 400) % 400 == y % 400
  {
    assert (y + 400) / 400 == y / 400 + 1;
  }

  lemma LeapAtEndOfYear(c: nat, g: nat)
    requires c <= 3 && (g < 24 || (g == 24 && c == 3))
    ensures Leap(100 * c + 4 * g + 4)
  {
  }

  /** The day count of an era and the year count of the calendar, added up. */
  lemma EraTotal(era: nat, c: nat, g: nat, s: nat)
    requires c <= 3 && g <= 24 && s <= 3
    ensures var y := 100 * c + 4 * g + s + era * 400;
      365 * y + y / 4 - y / 100 + y / 400 == 146_097 * era + 36524 * c + 1461 * g + 365 * s
  {
    var y := 100 * c + 4 * g + s + era * 400;
    assert y / 4 == 25 * c + g + 100 * era;
    assert y / 100 == c + 4 * era;
    assert y / 400 == era;
  }

  /** The date computed for a day count is the calendar's date of that day. */
  lemma CivilFromDaysIsExact(days: nat)
    ensures var (y, m, d) := CivilFromDays(days);
      && y >= 0 && 1 <= m <= 12 && d >= 1
      && ValidDate(Date(y, m, d))
      && DayNumber(Date(y, m, d)) == DayNumber(EPOCH) + days
  {
    hide YearOfEra, DayOfYear, DayNumber, Leap, MonthAndDay;
    var z := days + 719_468;
    var era, doe := z / 146_097, z % 146_097;
    assert z - era * 146_097 == doe;
    var c, g, s, doy := SplitEra(doe);
    YearOfEraIsExact(c, g, s, doy);
    if doy == 365 {
      LeapAtEndOfYear(c, g);
      LeapInEra(era, 100 * c + 4 * g + 4);
    }
    CivilOfParts(era, c, g, s, doy);
  }

  lemma CivilOfParts(era: nat, c: nat, g: nat, s: nat, doy: nat)
    requires c <= 3 && g <= 24 && s <= 3 && doy <= 365
    requires var y := 100 * c + 4 * g + s + era * 400; doy == 365 ==> Leap(y + 1)
    ensures var (m, d) := MonthAndDay(doy);
      var y := 100 * c + 4 * g + s + era * 400;
      var year := if m <= 2 then y + 1 else y;
      && 1 <= m <= 12 && d >= 1 && ValidDate(Date(year, m, d))
      && DayNumber(Date(year, m, d)) == 146_097 * era + 36524 * c + 1461 * g + 365 * s + doy + 60
    ensures DayNumber(EPOCH) == 719_528
  {
    hide DayNumber, Leap, MonthAndDay;
    var y := 100 * c + 4 * g + s + era * 400;
    MonthAndDayIsExact(doy, y);
    MarchFirst(y);
    EraTotal(era, c, g, s);
    EpochNumber();
  }

  lemma EpochNumber()
    ensures DayNumber(EPOCH) == 719_528
  {
    hide DaysBeforeYear, DaysBeforeMonth;
    YearsClosedForm(1969);
    MonthTable(1970);
  }

  /** The cap is the last second of 9999-12-31. */
  lemma CapIsEndOf9999()
    ensures DayNumber(Date(9999, 12, 31)) == DayNumber(EPOCH) + MAX_TIMESTAMP_SECS / SECS_PER_DAY
    ensures (MAX_TIMESTAMP_SECS + 1) % SECS_PER_DAY == 0 && SECS_PER_DAY == 24 * 60 * 60
  {
    hide DaysBeforeYear, DaysBeforeMonth;
    YearsClosedForm(9998);
    MonthTable(9999);
    EpochNumber();
  }

  /**
   * For every second count up to the cap the result is the one valid Gregorian date of that day;
   * past the cap it stays at the last day of 9999.
   */
  lemma SecondsToYmdIsExact(seconds: nat, t: Date)
    requires ValidDate(t)
    requires DayNumber(t) == DayNumber(Date(1970, 1, 1))
                             + (if seconds <= 253_402_300_799 then seconds else 253_402_300_799) / 86_400
    ensures
      var names := ["Jan", "Feb", "Mar", "Apr", "May", "Jun", "Jul", "Aug", "Sep", "Oct", "Nov", "Dec"];
      SecondsToYmd(seconds) == (t.year, names[t.month - 1], t.day) && t.year <= 9999
  {
    hide DayNumber, CivilFromDays;
    CapIsEndOf9999();
    var last := Date(9999, 12, 31);
    assert ValidDate(last);
    if seconds >= MAX_TIMESTAMP_SECS {
      DayNumberIsInjective(t, last);
    } else {
      var (y, m, d) := CivilFromDays(seconds / SECS_PER_DAY);
      CivilFromDaysIsExact(seconds / SECS_PER_DAY);
      DayNumberIsInjective(t, Date(y, m, d));
      if y > 9999 {
        WithinYear(last);
        WithinYear(t);
        YearsApart(9999, y);
      }
    }
  }

  /** Consecutive days have consecutive dates. */
  lemma ConsecutiveDays(days: nat)
    ensures var (y, m, d) := CivilFromDays(days);
      && y >= 0 && m >= 0 && d >= 0
      && var next := NextDate(Date(y, m, d)); CivilFromDays(days + 1) == (next.year, next.month, next.day)
  {
    CivilFromDaysIsExact(days);
    CivilFromDaysIsExact(days + 1);
    var (y, m, d) := CivilFromDays(days);
    var (y', m', d') := CivilFromDays(days + 1);
    NextDateIsNextDay(Date(y, m, d));
    DayNumberIsInjective(NextDate(Date(y, m, d)), Date(y', m', d'));
  }
}
