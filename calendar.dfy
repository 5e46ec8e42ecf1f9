/**
 * Proleptic Gregorian calendar arithmetic, as JavaScript's `Date` does it:
 * month lengths with leap years, and `getDay()` weekday numbering
 * (0 = Sunday, 1 = Monday, ..., 6 = Saturday).
 */
module Calendar {

  /** A calendar day; `month` runs 1..12 (JavaScript's month index plus one). */
  datatype Date = Date(year: int, month: int, day: int)

  const Sunday := 0
  const Monday := 1

  predicate IsLeapYear(y: int)
  {
    y % 4 == 0 && (y % 100 != 0 || y % 400 == 0)
  }

  /** The day number of the last day of the month: what `new Date(y, m + 1, 0)` lands on. */
  function DaysInMonth(y: int, m: int): (n: int)
    requires 1 <= m <= 12
    ensures 28 <= n <= 31
  {
    if m == 2 then (if IsLeapYear(y) then 29 else 28)
    else if m == 4 || m == 6 || m == 9 || m == 11 then 30
    else 31
  }

  predicate IsValid(d: Date)
  {
    1 <= d.month <= 12 && 1 <= d.day <= DaysInMonth(d.year, d.month)
  }

  /** Days contributed by the years before `yy`, modulo 7 (Gregorian leap rule). */
  function YearShift(yy: int): int
  {
    yy + yy / 4 - yy / 100 + yy / 400
  }

  /** `getDay()` of day `d` of month `m` of year `y`. */
  function Weekday(y: int, m: int, d: int): (w: int)
    requires 1 <= m <= 12
    ensures 0 <= w < 7
  {
    var offsets := [0, 3, 2, 5, 0, 3, 5, 1, 4, 6, 2, 4];
    var yy := if m < 3 then y - 1 else y;
    (YearShift(yy) + offsets[m - 1] + d) % 7
  }

  function WeekdayOf(d: Date): (w: int)
    requires 1 <= d.month <= 12
    ensures 0 <= w < 7
  {
    Weekday(d.year, d.month, d.day)
  }

  /** The following calendar day. */
  function NextDay(d: Date): (n: Date)
    requires IsValid(d)
    ensures IsValid(n)
  {
    if d.day < DaysInMonth(d.year, d.month) then Date(d.year, d.month, d.day + 1)
    else if d.month < 12 then Date(d.year, d.month + 1, 1)
    else Date(d.year + 1, 1, 1)
  }

  /** Within a month, moving `k` days ahead moves the weekday `k` places ahead. */
  lemma WeekdayShift(y: int, m: int, d: int, k: nat)
    requires 1 <= m <= 12
    ensures Weekday(y, m, d + k) == (Weekday(y, m, d) + k) % 7
  {
    var offsets := [0, 3, 2, 5, 0, 3, 5, 1, 4, 6, 2, 4];
    var yy := if m < 3 then y - 1 else y;
    ModAdd(YearShift(yy) + offsets[m - 1] + d, k);
  }

  lemma ModAdd(a: int, k: int)
    ensures (a + k) % 7 == (a % 7 + k) % 7
  {
  }

  /** `a / k` steps by one exactly when `a` is a multiple of `k`. */
  lemma DivStep(a: int, k: int)
    requires k > 0
    ensures a / k - (a - 1) / k == if a % k == 0 then 1 else 0
  {
    var q, r := a / k, a % k;
    assert a == k * q + r;
    if r == 0 {
      assert a - 1 == k * (q - 1) + (k - 1);
      DivUnique(a - 1, k, q - 1, k - 1);
    } else {
      assert a - 1 == k * q + (r - 1);
      DivUnique(a - 1, k, q, r - 1);
    }
  }

  lemma DivUnique(a: int, k: int, q: int, r: int)
    requires k > 0 && 0 <= r < k && a == k * q + r
    ensures a / k == q
  {
    var q', r' := a / k, a % k;
    assert k * (q - q') == r' - r;
    MulBounds(k, q - q');
  }

  lemma MulBounds(k: int, c: int)
    requires k > 0
    ensures c >= 1 ==> k * c >= k
    ensures c <= -1 ==> k * c <= -k
  {
  }

  /** A year contributes one day of weekday shift, two in a leap year. */
  lemma YearShiftStep(y: int)
    ensures YearShift(y) - YearShift(y - 1) == if IsLeapYear(y) then 2 else 1
  {
    DivStep(y, 4);
    DivStep(y, 100);
    DivStep(y, 400);
    LeapDivisors(y);
  }

  /** A multiple of 400 is one of 100, and a multiple of 100 is one of 4. */
  lemma LeapDivisors(y: int)
    ensures y % 400 == 0 ==> y % 100 == 0
    ensures y % 100 == 0 ==> y % 4 == 0
  {
    if y % 400 == 0 {
      MultipleMod(y, 100, 4 * (y / 400));
    }
    if y % 100 == 0 {
      MultipleMod(y, 4, 25 * (y / 100));
    }
  }

  lemma MultipleMod(a: int, k: int, q: int)
    requires k > 0 && a == k * q
    ensures a % k == 0
  {
    DivUnique(a, k, q, 0);
  }

  /** From the last day of a month other than February or December to the first of the next. */
  lemma MonthBoundary(y: int, m: int)
    requires 1 <= m < 12 && m != 2
    ensures Weekday(y, m + 1, 1) == (Weekday(y, m, DaysInMonth(y, m)) + 1) % 7
  {
    var offsets := [0, 3, 2, 5, 0, 3, 5, 1, 4, 6, 2, 4];
    var s := YearShift(if m < 3 then y - 1 else y);
    var n := DaysInMonth(y, m);
    assert (offsets[m] - offsets[m - 1] - n - 1 + 1) % 7 == 0;
    ModStep(s + offsets[m - 1] + n, s + offsets[m] + 1);
  }

  lemma ModStep(a: int, b: int)
    requires (b - a - 1) % 7 == 0
    ensures b % 7 == (a % 7 + 1) % 7
  {
  }

  /** From the last day of February to the first of March, where the year term changes. */
  lemma FebruaryBoundary(y: int)
    ensures Weekday(y, 3, 1) == (Weekday(y, 2, DaysInMonth(y, 2)) + 1) % 7
  {
    YearShiftStep(y);
    var s := YearShift(y - 1);
    var n := DaysInMonth(y, 2);
    assert YearShift(y) == s + n - 27;
    ModStep(s + 3 + n, YearShift(y) + 2 + 1);
  }

  /** From the last day of December to the first of January of the next year. */
  lemma YearBoundary(y: int)
    ensures Weekday(y + 1, 1, 1) == (Weekday(y, 12, 31) + 1) % 7
  {
    var s := YearShift(y);
    assert Weekday(y + 1, 1, 1) == (s + 1) % 7;
    assert Weekday(y, 12, 31) == (s + 35) % 7;
    ModStep(s + 35, s + 1);
  }

  /**
   * Consecutive calendar days have consecutive weekdays, across month
   * and year boundaries too: the weekday numbering is the one of a
   * continuous seven-day cycle.
   */
  lemma {:induction false} WeekdayOfNextDay(d: Date)
    requires IsValid(d)
    ensures WeekdayOf(NextDay(d)) == (WeekdayOf(d) + 1) % 7
  {
    var y, m := d.year, d.month;
    if d.day < DaysInMonth(y, m) {
      WeekdayShift(y, m, d.day, 1);
    } else if m == 2 {
      FebruaryBoundary(y);
    } else if m < 12 {
      MonthBoundary(y, m);
    } else {
      YearBoundary(y);
    }
  }

  /**
   * 1 January 1970, day 0 of JavaScript's time value, was a Thursday; with
   * `WeekdayOfNextDay` this pins `WeekdayOf` down on every valid date.
   */
  lemma EpochIsThursday()
    ensures WeekdayOf(Date(1970, 1, 1)) == 4
  {
  }
}
