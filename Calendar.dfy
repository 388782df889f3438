/** The proleptic Gregorian calendar, as far as the alarm clock needs it: which
    dates exist, the day after a date, a day count that orders dates, and the
    `YYYY-MM-DD` text form the date-time library prints. */
module Calendar {
  import opened Text

  datatype Date = Date(year: int, month: int, day: int)

  predicate IsLeapYear(y: int)
  {
    y % 4 == 0 && (y % 100 != 0 || y % 400 == 0)
  }

  function DaysInMonth(y: int, m: int): int
  {
    if m == 2 then (if IsLeapYear(y) then 29 else 28)
    else if m == 4 || m == 6 || m == 9 || m == 11 then 30
    else 31
  }

  /** A date that exists: what the library's overflow check accepts. */
  predicate ValidDate(d: Date)
  {
    1 <= d.month <= 12 && 1 <= d.day <= DaysInMonth(d.year, d.month)
  }

  /** Days from 1 March to the first day of the month `mp` months later. */
  function DaysBeforeMonth(mp: int): int
  {
    match mp
    case 0 => 0 case 1 => 31 case 2 => 61 case 3 => 92 case 4 => 122 case 5 => 153
    case 6 => 184 case 7 => 214 case 8 => 245 case 9 => 275 case 10 => 306 case _ => 337
  }

  /** Days from 1 March of year 0 to 1 March of year `y`: whole 400-year
      cycles of 146097 days, then the years into the current cycle. */
  function DaysBeforeYear(y: int): int
  {
    var era := y / 400;
    era * 146097 + CycleDays(y - era * 400)
  }

  /** Days in the first `k` counted years of a 400-year cycle. */
  function CycleDays(k: int): int
  {
    k * 365 + k / 4 - k / 100
  }

  /** Days since 1970-01-01 (negative before it), counting years from 1 March so
      that the leap day falls at the end of a counted year. */
  function DayNumber(d: Date): int
  {
    var y := if d.month <= 2 then d.year - 1 else d.year;
    var mp := if d.month > 2 then d.month - 3 else d.month + 9;
    DaysBeforeYear(y) + DaysBeforeMonth(mp) + d.day - 1 - 719468
  }

  /** The day after `d`. */
  function NextDay(d: Date): (r: Date)
    requires ValidDate(d)
    ensures ValidDate(r)
    ensures DayNumber(r) == DayNumber(d) + 1
    ensures d.year <= r.year <= d.year + 1
  {
    if d.day < DaysInMonth(d.year, d.month) then Date(d.year, d.month, d.day + 1)
    else if d.month == 2 then FebruaryToMarch(d.year); Date(d.year, 3, 1)
    else if d.month < 12 then Date(d.year, d.month + 1, 1)
    else Date(d.year + 1, 1, 1)
  }

  /** A counted year (from 1 March of `y - 1`) is 366 days long exactly when `y` is a leap year. */
  lemma YearLength(y: int)
    ensures DaysBeforeYear(y) == DaysBeforeYear(y - 1) + (if IsLeapYear(y) then 366 else 365)
  {
    var era := (y - 1) / 400;
    var k := (y - 1) - era * 400;
    assert 0 <= k < 400;
    assert y == era * 400 + k + 1;
    if k == 399 {
      assert y / 400 == era + 1 && y - (era + 1) * 400 == 0;
      LeapByCycle(era + 1, 0);
    } else {
      assert y / 400 == era && y - era * 400 == k + 1;
      LeapByCycle(era, k + 1);
      assert (k + 1) / 4 == k / 4 + (if (k + 1) % 4 == 0 then 1 else 0);
      assert (k + 1) / 100 == k / 100 + (if (k + 1) % 100 == 0 then 1 else 0);
    }
  }

  /** Whether a year is a leap year depends only on its place in the 400-year cycle. */
  lemma LeapByCycle(era: int, j: int)
    requires 0 <= j < 400
    ensures IsLeapYear(era * 400 + j) <==> j % 4 == 0 && (j % 100 != 0 || j == 0)
  {
    ShiftModFour(era * 100, j);
    ShiftModHundred(era * 4, j);
    ShiftModFourHundred(era, j);
  }

  /** The last day of February and 1 March are consecutive in the day count. */
  lemma FebruaryToMarch(y: int)
    ensures DayNumber(Date(y, 3, 1)) == DayNumber(Date(y, 2, DaysInMonth(y, 2))) + 1
  {
    YearLength(y);
  }

  /** `moment().add(k, 'days')` read as a calendar date. */
  function AddDays(d: Date, k: nat): (r: Date)
    requires ValidDate(d)
    ensures ValidDate(r) && DayNumber(r) == DayNumber(d) + k
    ensures d.year <= r.year <= d.year + k
  {
    if k == 0 then d else NextDay(AddDays(d, k - 1))
  }

  /** The library's `YYYY` token: the year zero-filled to four digits, a minus
      sign in front of a negative one. */
  function FormatYear(y: int): string
  {
    if y < 0 then "-" + ZeroFill(-y, 4) else ZeroFill(y, 4)
  }

  /** `format('YYYY-MM-DD')`. */
  function FormatDate(d: Date): string
    requires ValidDate(d)
  {
    FormatYear(d.year) + "-" + ZeroFill(d.month, 2) + "-" + ZeroFill(d.day, 2)
  }

  /** For a year written with four digits, the date text has the fixed layout
      `YYYY-MM-DD` and its digit groups read back as the year, month and day. */
  lemma FormatDateLayout(d: Date)
    requires ValidDate(d) && 0 <= d.year <= 9999
    ensures var s := FormatDate(d);
      && |s| == 10 && s[4] == '-' && s[7] == '-'
      && AllDigits(s[0..4]) && AllDigits(s[5..7]) && AllDigits(s[8..10])
      && Value(s[0..4]) == d.year && Value(s[5..7]) == d.month && Value(s[8..10]) == d.day
  {
    var y, m, dd := ZeroFill(d.year, 4), ZeroFill(d.month, 2), ZeroFill(d.day, 2);
    var s := FormatDate(d);
    assert s == y + "-" + m + "-" + dd;
    assert s[0..4] == y && s[5..7] == m && s[8..10] == dd;
  }

  // ------------------------------------------------------- solver steps
  // The lemmas below state no property of the program. Each spells out one
  // arithmetic or sequence fact that the solver would otherwise rediscover at
  // a high cost, so that the proofs above stay within their resource budget.

  lemma ShiftModFour(q: int, j: int)
    ensures (q * 4 + j) % 4 == j % 4
  {
  }

  lemma ShiftModHundred(q: int, j: int)
    ensures (q * 100 + j) % 100 == j % 100
  {
  }

  lemma ShiftModFourHundred(q: int, j: int)
    ensures (q * 400 + j) % 400 == j % 400
  {
  }
}
