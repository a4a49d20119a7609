/** ECMAScript time values (milliseconds since 1970-01-01T00:00:00Z) and the calendar
    arithmetic the application does with `Date`: the `YYYY-MM-DD` prefix of
    `toISOString()`, `setMonth(getMonth() + 1)` and `setDate(getDate() + 7)`.
    Everything is in UTC (the time zone `toISOString` uses). */
module IsoDate {

  /** Milliseconds in one day. */
  const MsPerDay: int := 86400000

  /** A `Date` holds a time value of magnitude at most 8.64e15 ms (section 21.4.1.1 of
      ECMA-262); outside that range it is an invalid date and `toISOString` throws. */
  const MaxTimeValue: int := 8640000000000000

  predicate IsTimeValue(t: int) {
    -MaxTimeValue <= t <= MaxTimeValue
  }

  /** A valid `Date`, as its time value. */
  type Instant = t: int | IsTimeValue(t)

  /** Days in one 400-year cycle of the proleptic Gregorian calendar. */
  const DaysPerEra: int := 146097

  /** Days from 0000-01-01 to 1970-01-01. */
  const DaysFromYearZero: int := 719528

  /** The day a time value falls on, counted from 1970-01-01 (floor division). */
  function DayNumber(t: int): int {
    t / MsPerDay
  }

  /** Milliseconds since midnight of that day. */
  function TimeWithinDay(t: int): int {
    t % MsPerDay
  }

  predicate IsLeapYear(y: int) {
    y % 4 == 0 && (y % 100 != 0 || y % 400 == 0)
  }

  function DaysInYear(y: int): int {
    if IsLeapYear(y) then 366 else 365
  }

  function DaysInMonth(y: int, m: int): int
    requires 1 <= m <= 12
  {
    if m == 2 then (if IsLeapYear(y) then 29 else 28)
    else if m == 4 || m == 6 || m == 9 || m == 11 then 30
    else 31
  }

  /** Days of year `y` before the first of month `m`; month 13 stands for the next year. */
  function DaysBeforeMonth(y: int, m: int): int
    requires 1 <= m <= 13
  {
    [0, 31, 59, 90, 120, 151, 181, 212, 243, 273, 304, 334, 365][m - 1]
      + (if m > 2 && IsLeapYear(y) then 1 else 0)
  }

  /** Days of a 400-year cycle before its `k`-th year: 365 per year plus one per leap year. */
  function DaysBeforeYearOfEra(k: int): int
    requires 0 <= k
  {
    365 * k + (k + 3) / 4 - (k + 99) / 100 + (k + 399) / 400
  }

  /** A calendar date; `day` may exceed the month's length when it is a `MakeDay` argument. */
  datatype CivilDate = CivilDate(year: int, month: int, day: int)

  predicate IsCalendarDate(c: CivilDate) {
    1 <= c.month <= 12 && 1 <= c.day <= DaysInMonth(c.year, c.month)
  }

  /** The day number of a date, counted from 1970-01-01 (ECMA-262 `MakeDay`). */
  function DaysFromCivil(c: CivilDate): int
    requires 1 <= c.month <= 12
  {
    (c.year / 400) * DaysPerEra + DaysBeforeYearOfEra(c.year % 400)
      + DaysBeforeMonth(c.year, c.month) + c.day - 1 - DaysFromYearZero
  }

  /** The leap-year rule repeats every 400 years. */
  lemma LeapYearPeriodic(era: int, k: int)
    ensures IsLeapYear(era * 400 + k) == IsLeapYear(k)
  {
    ShiftKeepsRemainder4(era * 100, k);
    ShiftKeepsRemainder100(era * 4, k);
    ShiftKeepsRemainder400(era, k);
    assert era * 400 + k == 4 * (era * 100) + k == 100 * (era * 4) + k;
  }

  lemma ShiftKeepsRemainder4(q: int, k: int)
    ensures (4 * q + k) % 4 == k % 4
  {
    var a, r := k / 4, k % 4;
    assert 4 * q + k == 4 * (q + a) + r;
  }

  lemma ShiftKeepsRemainder100(q: int, k: int)
    ensures (100 * q + k) % 100 == k % 100
  {
    var a, r := k / 100, k % 100;
    assert 100 * q + k == 100 * (q + a) + r;
  }

  lemma ShiftKeepsRemainder400(q: int, k: int)
    ensures (400 * q + k) % 400 == k % 400
  {
    var a, r := k / 400, k % 400;
    assert 400 * q + k == 400 * (q + a) + r;
  }

  /** Every multiple of 400 is one of 100, and every multiple of 100 one of 4. */
  lemma DivisibilityChain(k: int)
    ensures k % 400 == 0 ==> k % 100 == 0
    ensures k % 100 == 0 ==> k % 4 == 0
  {
    if k % 400 == 0 {
      ShiftKeepsRemainder100(4 * (k / 400), 0);
      assert k == 100 * (4 * (k / 400)) + 0;
    }
    if k % 100 == 0 {
      ShiftKeepsRemainder4(25 * (k / 100), 0);
      assert k == 4 * (25 * (k / 100)) + 0;
    }
  }

  /** Moving `x` up by one adds one to the count `(x + 3) / 4` of multiples of 4 below
      it exactly when 4 divides `x`; likewise for 100 and 400. */
  lemma CeilingStep4(x: int)
    ensures (x + 4) / 4 == (x + 3) / 4 + (if x % 4 == 0 then 1 else 0)
  {
    var q, r := x / 4, x % 4;
    assert x == 4 * q + r;
    assert (x + 4) / 4 == q + 1;
    assert (x + 3) / 4 == if r == 0 then q else q + 1;
  }

  lemma CeilingStep100(x: int)
    ensures (x + 100) / 100 == (x + 99) / 100 + (if x % 100 == 0 then 1 else 0)
  {
    var q, r := x / 100, x % 100;
    assert x == 100 * q + r;
    assert (x + 100) / 100 == q + 1;
    assert (x + 99) / 100 == if r == 0 then q else q + 1;
  }

  lemma CeilingStep400(x: int)
    ensures (x + 400) / 400 == (x + 399) / 400 + (if x % 400 == 0 then 1 else 0)
  {
    var q, r := x / 400, x % 400;
    assert x == 400 * q + r;
    assert (x + 400) / 400 == q + 1;
    assert (x + 399) / 400 == if r == 0 then q else q + 1;
  }

  lemma DaysBeforeYearOfEraStep(k: int)
    requires 0 <= k
    ensures DaysBeforeYearOfEra(k + 1) == DaysBeforeYearOfEra(k) + DaysInYear(k)
  {
    CeilingStep4(k);
    CeilingStep100(k);
    CeilingStep400(k);
    DivisibilityChain(k);
  }

  lemma DaysBeforeMonthStep(y: int, m: int)
    requires 1 <= m <= 12
    ensures DaysBeforeMonth(y, m + 1) == DaysBeforeMonth(y, m) + DaysInMonth(y, m)
  {
  }

  /** Finds the year of a 400-year cycle holding day `rem` counted from the start of year `k`. */
  function YearOfEra(rem: int, k: int): (r: (int, int))
    requires 0 <= k <= 399 && 0 <= rem
    requires DaysBeforeYearOfEra(k) + rem < DaysPerEra
    ensures k <= r.0 <= 399 && 0 <= r.1 < DaysInYear(r.0)
    ensures DaysBeforeYearOfEra(r.0) + r.1 == DaysBeforeYearOfEra(k) + rem
    decreases rem
  {
    DaysBeforeYearOfEraStep(k);
    if rem < DaysInYear(k) then (k, rem)
    else YearOfEra(rem - DaysInYear(k), k + 1)
  }

  /** Finds the month of year `y` holding day `rem` counted from the first of month `m`. */
  function MonthOfYear(y: int, rem: int, m: int): (r: (int, int))
    requires 1 <= m <= 12 && 0 <= rem
    requires DaysBeforeMonth(y, m) + rem < DaysInYear(y)
    ensures m <= r.0 <= 12 && 0 <= r.1 < DaysInMonth(y, r.0)
    ensures DaysBeforeMonth(y, r.0) + r.1 == DaysBeforeMonth(y, m) + rem
    decreases rem
  {
    DaysBeforeMonthStep(y, m);
    if rem < DaysInMonth(y, m) then (m, rem)
    else MonthOfYear(y, rem - DaysInMonth(y, m), m + 1)
  }

  /** The calendar date of day number `d`; `DaysFromCivil` is its inverse. */
  function CivilFromDays(d: int): (c: CivilDate)
    ensures IsCalendarDate(c)
    ensures DaysFromCivil(c) == d
  {
    var z := d + DaysFromYearZero;
    var era := z / DaysPerEra;
    var (k, dayOfYear) := YearOfEra(z % DaysPerEra, 0);
    var y := era * 400 + k;
    LeapYearPeriodic(era, k);
    var (m, dayOfMonth) := MonthOfYear(y, dayOfYear, 1);
    YearInEra(era, k);
    CivilDate(y, m, dayOfMonth + 1)
  }

  /** Year `k` of cycle `era` has cycle `era` and position `k`. */
  lemma YearInEra(era: int, k: int)
    requires 0 <= k < 400
    ensures (era * 400 + k) / 400 == era && (era * 400 + k) % 400 == k
  {
  }

  /** Two days with the same calendar date are the same day. */
  lemma CivilFromDaysInjective(d1: int, d2: int)
    requires CivilFromDays(d1) == CivilFromDays(d2)
    ensures d1 == d2
  {
    assert d1 == DaysFromCivil(CivilFromDays(d1));
  }

  /** A calendar date is the date of its own day number. */
  lemma CivilFromDaysFromCivil(c: CivilDate)
    requires IsCalendarDate(c)
    ensures CivilFromDays(DaysFromCivil(c)) == c
  {
    CalendarDateUnique(c, CivilFromDays(DaysFromCivil(c)));
  }

  /** Two calendar dates with the same day number are the same date. */
  lemma CalendarDateUnique(c: CivilDate, c': CivilDate)
    requires IsCalendarDate(c) && IsCalendarDate(c')
    requires DaysFromCivil(c) == DaysFromCivil(c')
    ensures c == c'
  {
    var k, k' := c.year % 400, c'.year % 400;
    var pos := PositionInEra(c);
    var pos' := PositionInEra(c');
    EraUnique(c.year / 400, pos, c'.year / 400, pos');
    YearWithinEraUnique(k, DaysBeforeMonth(c.year, c.month) + c.day - 1,
                        k', DaysBeforeMonth(c'.year, c'.month) + c'.day - 1);
    assert c.year == 400 * (c.year / 400) + k && c'.year == 400 * (c'.year / 400) + k';
    MonthWithinYearUnique(c.year, c.month, c.day - 1, c'.month, c'.day - 1);
  }

  /** Days from the start of the date's 400-year cycle to the date. */
  function PositionInEra(c: CivilDate): (pos: int)
    requires IsCalendarDate(c)
    ensures 0 <= pos < DaysPerEra
    ensures DaysFromCivil(c) == (c.year / 400) * DaysPerEra + pos - DaysFromYearZero
    ensures 0 <= DaysBeforeMonth(c.year, c.month) + c.day - 1 < DaysInYear(c.year % 400)
  {
    var k := c.year % 400;
    LeapYearPeriodic(c.year / 400, k);
    assert c.year == c.year / 400 * 400 + k;
    DaysBeforeYearMonotone(k, 400);
    DaysBeforeMonthMonotone(c.year, c.month, 13);
    DaysBeforeYearOfEra(k) + DaysBeforeMonth(c.year, c.month) + c.day - 1
  }

  lemma EraUnique(era: int, pos: int, era': int, pos': int)
    requires 0 <= pos < DaysPerEra && 0 <= pos' < DaysPerEra
    requires era * DaysPerEra + pos == era' * DaysPerEra + pos'
    ensures era == era' && pos == pos'
  {
  }

  lemma {:induction false} DaysBeforeYearMonotone(k: int, k': int)
    requires 0 <= k <= k'
    ensures DaysBeforeYearOfEra(k) + DaysInYear(k) <= DaysBeforeYearOfEra(k') || k == k'
    ensures DaysBeforeYearOfEra(k) <= DaysBeforeYearOfEra(k')
    decreases k' - k
  {
    if k < k' {
      DaysBeforeYearOfEraStep(k);
      DaysBeforeYearMonotone(k + 1, k');
    }
  }

  lemma {:induction false} DaysBeforeMonthMonotone(y: int, m: int, m': int)
    requires 1 <= m <= m' <= 13
    ensures m < 13 ==> DaysBeforeMonth(y, m) + DaysInMonth(y, m) <= DaysBeforeMonth(y, m') || m == m'
    ensures DaysBeforeMonth(y, m) <= DaysBeforeMonth(y, m')
    decreases m' - m
  {
    if m < m' {
      DaysBeforeMonthStep(y, m);
      DaysBeforeMonthMonotone(y, m + 1, m');
    }
  }

  lemma YearWithinEraUnique(k: int, r: int, k': int, r': int)
    requires 0 <= k <= 399 && 0 <= r < DaysInYear(k)
    requires 0 <= k' <= 399 && 0 <= r' < DaysInYear(k')
    requires DaysBeforeYearOfEra(k) + r == DaysBeforeYearOfEra(k') + r'
    ensures k == k' && r == r'
  {
    if k < k' {
      DaysBeforeYearMonotone(k, k');
    } else if k' < k {
      DaysBeforeYearMonotone(k', k);
    }
  }

  lemma MonthWithinYearUnique(y: int, m: int, r: int, m': int, r': int)
    requires 1 <= m <= 12 && 0 <= r < DaysInMonth(y, m)
    requires 1 <= m' <= 12 && 0 <= r' < DaysInMonth(y, m')
    requires DaysBeforeMonth(y, m) + r == DaysBeforeMonth(y, m') + r'
    ensures m == m' && r == r'
  {
    if m < m' {
      DaysBeforeMonthMonotone(y, m, m');
    } else if m' < m {
      DaysBeforeMonthMonotone(y, m', m);
    }
  }

  /** A day number of a valid time value lies within a hundred million days of the epoch,
      so its year has at most six digits. */
  lemma YearOfValidDay(d: int)
    requires -100000000 <= d <= 100000000
    ensures -999999 <= CivilFromDays(d).year <= 999999
  {
    var c := CivilFromDays(d);
    DaysBeforeYearMonotone(c.year % 400, 400);
    DaysBeforeMonthMonotone(c.year, c.month, 13);
  }

  // ---- Text of `toISOString()` ----

  function Pow10(w: nat): nat {
    if w == 0 then 1 else 10 * Pow10(w - 1)
  }

  function DigitChar(n: int): char
    requires 0 <= n <= 9
  {
    ('0' as int + n) as char
  }

  /** The last `width` decimal digits of `n`, zero-padded. */
  function Digits(n: nat, width: nat): (s: string)
    ensures |s| == width
    ensures forall i :: 0 <= i < width ==> '0' <= s[i] <= '9'
  {
    if width == 0 then [] else Digits(n / 10, width - 1) + [DigitChar(n % 10)]
  }

  /** Zero-padded digits determine a number that fits in their width. */
  lemma {:induction false} DigitsInjective(a: nat, b: nat, w: nat)
    requires a < Pow10(w) && b < Pow10(w)
    requires Digits(a, w) == Digits(b, w)
    ensures a == b
  {
    if w > 0 {
      var da, db := Digits(a, w), Digits(b, w);
      assert da[..w - 1] == Digits(a / 10, w - 1) && da[w - 1] == DigitChar(a % 10);
      assert db[..w - 1] == Digits(b / 10, w - 1) && db[w - 1] == DigitChar(b % 10);
      DigitsInjective(a / 10, b / 10, w - 1);
    }
  }

  /** The year field: four digits for years 0 to 9999, otherwise a sign and six digits. */
  function FormatYear(y: int): (s: string)
    ensures |s| == (if 0 <= y <= 9999 then 4 else 7)
    ensures 'T' !in s
  {
    if 0 <= y <= 9999 then Digits(y, 4)
    else [if y < 0 then '-' else '+'] + Digits(if y < 0 then -y else y, 6)
  }

  function FormatDate(c: CivilDate): (s: string)
    requires IsCalendarDate(c)
    ensures 'T' !in s
  {
    FormatYear(c.year) + "-" + Digits(c.month, 2) + "-" + Digits(c.day, 2)
  }

  /** `toISOString()`: `YYYY-MM-DDTHH:mm:ss.sssZ` in UTC. */
  function ToIsoString(t: Instant): string {
    FormatDate(CivilFromDays(DayNumber(t))) + "T" + FormatTime(TimeWithinDay(t))
  }

  /** `HH:mm:ss.sssZ` for `ms` milliseconds since midnight. */
  function FormatTime(ms: nat): string {
    Digits(ms / 3600000, 2) + ":" + Digits(ms / 60000 % 60, 2) + ":"
      + Digits(ms / 1000 % 60, 2) + "." + Digits(ms % 1000, 3) + "Z"
  }

  /** `s.split(sep)[0]`: the text before the first `sep`, or all of `s`. */
  function BeforeFirst(s: string, sep: char): (r: string)
    ensures r <= s && sep !in r
    ensures |r| < |s| ==> s[|r|] == sep
  {
    if s == [] then []
    else if s[0] == sep then []
    else [s[0]] + BeforeFirst(s[1..], sep)
  }

  /** The date key of the usage ledger: `serverTime.toISOString().split('T')[0]`. */
  function DateKey(t: Instant): string {
    BeforeFirst(ToIsoString(t), 'T')
  }

  lemma {:induction false} BeforeFirstOfJoin(a: string, b: string, sep: char)
    requires sep !in a
    ensures BeforeFirst(a + [sep] + b, sep) == a
  {
    if a != [] {
      assert (a + [sep] + b)[1..] == a[1..] + [sep] + b;
      BeforeFirstOfJoin(a[1..], b, sep);
    }
  }

  /** The date key is the calendar date of the instant's UTC day. */
  lemma DateKeyIsCalendarDate(t: Instant)
    ensures DateKey(t) == FormatDate(CivilFromDays(DayNumber(t)))
  {
    BeforeFirstOfJoin(FormatDate(CivilFromDays(DayNumber(t))), FormatTime(TimeWithinDay(t)), 'T');
  }

  /** Two calendar dates with years of at most six digits print differently. */
  lemma FormatDateInjective(c1: CivilDate, c2: CivilDate)
    requires IsCalendarDate(c1) && IsCalendarDate(c2)
    requires -999999 <= c1.year <= 999999 && -999999 <= c2.year <= 999999
    requires FormatDate(c1) == FormatDate(c2)
    ensures c1 == c2
  {
    FormatDateFields(c1);
    FormatDateFields(c2);
    var n := |FormatYear(c1.year)|;
    assert FormatYear(c1.year) == FormatDate(c1)[..n] == FormatYear(c2.year);
    FormatYearInjective(c1.year, c2.year);
    assert Pow10(2) == 100;
    DigitsInjective(c1.month, c2.month, 2);
    DigitsInjective(c1.day, c2.day, 2);
  }

  /** Where the year, month and day fields sit in `FormatDate`. */
  lemma FormatDateFields(c: CivilDate)
    requires IsCalendarDate(c)
    ensures var s, n := FormatDate(c), |FormatYear(c.year)|;
            && |s| == n + 6
            && s[..n] == FormatYear(c.year)
            && s[n + 1..n + 3] == Digits(c.month, 2)
            && s[n + 4..] == Digits(c.day, 2)
  {
  }

  /** Years of at most six digits print differently. */
  lemma FormatYearInjective(y1: int, y2: int)
    requires -999999 <= y1 <= 999999 && -999999 <= y2 <= 999999
    requires FormatYear(y1) == FormatYear(y2)
    ensures y1 == y2
  {
    if 0 <= y1 <= 9999 {
      assert Pow10(4) == 10000;
      DigitsInjective(y1, y2, 4);
    } else {
      var a1, a2 := if y1 < 0 then -y1 else y1, if y2 < 0 then -y2 else y2;
      assert FormatYear(y1)[1..] == Digits(a1, 6);
      assert FormatYear(y2)[1..] == Digits(a2, 6);
      assert Pow10(6) == 1000000;
      DigitsInjective(a1, a2, 6);
    }
  }

  lemma DayNumberRange(t: Instant)
    ensures -100000000 <= DayNumber(t) <= 100000000
  {
    var d := DayNumber(t);
    assert IsTimeValue(t);
    assert -8640000000000000 <= t <= 8640000000000000;
    assert 86400000 * d <= t < 86400000 * d + 86400000;
  }

  /** Two instants share a date key exactly when they fall on the same UTC day: a new day
      always starts a fresh key. */
  lemma DateKeySameDayIff(t1: Instant, t2: Instant)
    ensures DateKey(t1) == DateKey(t2) <==> DayNumber(t1) == DayNumber(t2)
  {
    var d1, d2 := DayNumber(t1), DayNumber(t2);
    DateKeyIsCalendarDate(t1);
    DateKeyIsCalendarDate(t2);
    if DateKey(t1) == DateKey(t2) {
      DayNumberRange(t1);
      DayNumberRange(t2);
      YearOfValidDay(d1);
      YearOfValidDay(d2);
      FormatDateInjective(CivilFromDays(d1), CivilFromDays(d2));
      CivilFromDaysInjective(d1, d2);
    }
  }

  // ---- Date arithmetic of `Date.prototype.setMonth` and `setDate` ----

  /** ECMA-262 `MakeDate(MakeDay(y, m, day), timeWithinDay)`. */
  function MakeDate(c: CivilDate, timeWithinDay: int): int
    requires 1 <= c.month <= 12
  {
    DaysFromCivil(c) * MsPerDay + timeWithinDay
  }

  lemma NextMonthStart(c: CivilDate)
    requires IsCalendarDate(c)
    ensures var next := if c.month == 12 then CivilDate(c.year + 1, 1, 1)
                        else CivilDate(c.year, c.month + 1, 1);
            DaysFromCivil(next) == DaysFromCivil(CivilDate(c.year, c.month, 1)) + DaysInMonth(c.year, c.month)
  {
    if c.month == 12 {
      NewYearStart(c.year);
    } else {
      DaysBeforeMonthStep(c.year, c.month);
    }
  }

  /** January 1st of the next year comes one year-length after January 1st of `y`, and
      December has 31 days. */
  lemma NewYearStart(y: int)
    ensures DaysFromCivil(CivilDate(y + 1, 1, 1)) == DaysFromCivil(CivilDate(y, 12, 1)) + 31
  {
    var q, k := y / 400, y % 400;
    LeapYearPeriodic(q, k);
    assert y == q * 400 + k;
    assert DaysBeforeMonth(y, 12) + 31 == DaysInYear(y);
    DaysBeforeYearOfEraStep(k);
    NextYearInEra(y);
    if k == 399 {
      assert DaysBeforeYearOfEra(400) == DaysPerEra;
    }
  }

  /** The year after `y` is the next year of the same cycle, or the first of the next. */
  lemma NextYearInEra(y: int)
    ensures y % 400 < 399 ==> (y + 1) / 400 == y / 400 && (y + 1) % 400 == y % 400 + 1
    ensures y % 400 == 399 ==> (y + 1) / 400 == y / 400 + 1 && (y + 1) % 400 == 0
  {
    var q, r := y / 400, y % 400;
    assert y == 400 * q + r;
    if r < 399 {
      assert y + 1 == 400 * q + (r + 1);
    } else {
      assert y + 1 == 400 * (q + 1);
    }
  }

  lemma NextMonthSameDay(c: CivilDate, next: CivilDate)
    requires IsCalendarDate(c)
    requires next == if c.month == 12 then CivilDate(c.year + 1, 1, c.day)
                     else CivilDate(c.year, c.month + 1, c.day)
    ensures DaysFromCivil(next) == DaysFromCivil(c) + DaysInMonth(c.year, c.month)
    ensures 28 <= DaysInMonth(c.year, c.month) <= 31
  {
    NextMonthStart(c);
  }

  /** `d.setMonth(d.getMonth() + 1)` in UTC: the same day of month and time of day in the
      next month, a day past that month's end running on into the month after (so a
      date on the 31st moves by the length of its own month all the same). */
  function AddOneMonth(t: int): (r: int)
    ensures r == t + DaysInMonth(CivilFromDays(DayNumber(t)).year, CivilFromDays(DayNumber(t)).month) * MsPerDay
    ensures t + 28 * MsPerDay <= r <= t + 31 * MsPerDay
  {
    var c := CivilFromDays(DayNumber(t));
    var next := if c.month == 12 then CivilDate(c.year + 1, 1, c.day)
                else CivilDate(c.year, c.month + 1, c.day);
    NextMonthSameDay(c, next);
    assert t == DayNumber(t) * MsPerDay + TimeWithinDay(t);
    MakeDate(next, TimeWithinDay(t))
  }

  /** `d.setDate(d.getDate() + n)` in UTC: `n` whole days later. */
  function AddDays(t: int, n: nat): (r: int)
    ensures r == t + n * MsPerDay
  {
    var c := CivilFromDays(DayNumber(t));
    MakeDate(CivilDate(c.year, c.month, c.day + n), TimeWithinDay(t))
  }
}
