/**
  The proleptic Gregorian calendar that Go's time package applies when the
  Timestamp encoder formats an instant in UTC (well_known_types.go:259-260):
  a count of days since 0001-01-01 becomes a year, a month and a day.

  `DaysBeforeYear` counts year by year and is the reference; `DateOfOrdinal`
  computes a date the way calendar libraries do, through 400-, 100-, 4- and
  1-year cycles, and is proved to be the inverse of `OrdinalDay`.
*/
module Civil {

  predicate IsLeapYear(y: int)
  {
    y % 4 == 0 && (y % 100 != 0 || y % 400 == 0)
  }

  function DaysInYear(y: int): nat
  {
    if IsLeapYear(y) then 366 else 365
  }

  function DaysInMonth(y: int, m: int): nat
    requires 1 <= m <= 12
  {
    if m == 2 then (if IsLeapYear(y) then 29 else 28)
    else if m == 4 || m == 6 || m == 9 || m == 11 then 30
    else 31
  }

  /** Days of a common year before the first of each month, and (last) in the whole year. */
  const CommonDaysBefore: seq<nat> := [0, 31, 59, 90, 120, 151, 181, 212, 243, 273, 304, 334, 365]

  /** Days of year `y` before the first of month `m`; month 13 stands for the
      end of the year. */
  function DaysBeforeMonth(y: int, m: int): nat
    requires 1 <= m <= 13
  {
    CommonDaysBefore[m - 1] + (if m > 2 && IsLeapYear(y) then 1 else 0)
  }

  /** Days from 0001-01-01 to the first day of year `y`, counted year by year. */
  function DaysBeforeYear(y: int): nat
    requires y >= 1
  {
    if y == 1 then 0 else DaysBeforeYear(y - 1) + DaysInYear(y - 1)
  }

  datatype Date = Date(year: int, month: int, day: int)

  predicate IsValidDate(d: Date)
  {
    1 <= d.year && 1 <= d.month <= 12 && 1 <= d.day <= DaysInMonth(d.year, d.month)
  }

  /** Days from 0001-01-01 to `d` (0001-01-01 itself is day 0). */
  function OrdinalDay(d: Date): nat
    requires IsValidDate(d)
  {
    DaysBeforeYear(d.year) + DaysBeforeMonth(d.year, d.month) + d.day - 1
  }

  // ---------------------------------------------------------------------------
  // Counting days

  /** The month table agrees with the month lengths: each month starts where
      the previous one ends, and the months fill the year. */
  lemma MonthTable(y: int, m: int)
    requires 1 <= m <= 13
    ensures m < 13 ==> DaysBeforeMonth(y, m) + DaysInMonth(y, m) == DaysBeforeMonth(y, m + 1)
    ensures m == 13 ==> DaysBeforeMonth(y, m) == DaysInYear(y)
  {
  }

  lemma FloorStep(k: int, c: int)
    requires k >= 1 && (c == 4 || c == 100 || c == 400)
    ensures k / c == (k - 1) / c + (if k % c == 0 then 1 else 0)
  {
    if c == 4 {
      assert k / 4 == (k - 1) / 4 + (if k % 4 == 0 then 1 else 0);
    } else if c == 100 {
      assert k / 100 == (k - 1) / 100 + (if k % 100 == 0 then 1 else 0);
    } else {
      assert k / 400 == (k - 1) / 400 + (if k % 400 == 0 then 1 else 0);
    }
  }

  /** Year `k` adds a day to the count of multiples of 4, less those of 100,
      plus those of 400, exactly when it is a leap year. */
  lemma LeapStep(k: int)
    requires k >= 1
    ensures (k / 4 - (k - 1) / 4) - (k / 100 - (k - 1) / 100) + (k / 400 - (k - 1) / 400)
         == (if IsLeapYear(k) then 1 else 0)
  {
    FloorStep(k, 4);
    FloorStep(k, 100);
    FloorStep(k, 400);
    if k % 100 == 0 {
      MultipleOf(k, 100, 4);
    }
    if k % 400 == 0 {
      MultipleOf(k, 400, 100);
    }
  }

  lemma MultipleOf(k: int, c: int, d: int)
    requires (c == 100 && d == 4) || (c == 400 && d == 100)
    requires k % c == 0
    ensures k % d == 0
  {
    var q := k / c;
    assert k == c * q;
    if c == 100 {
      assert k == 4 * (25 * q);
    } else {
      assert k == 100 * (4 * q);
    }
  }

  /** Leap years are the multiples of 4 that are not multiples of 100,
      and the multiples of 400. */
  lemma {:induction false} DaysBeforeYearClosedForm(y: int)
    requires y >= 1
    ensures DaysBeforeYear(y) == 365 * (y - 1) + (y - 1) / 4 - (y - 1) / 100 + (y - 1) / 400
  {
    if y > 1 {
      DaysBeforeYearClosedForm(y - 1);
      LeapStep(y - 1);
    }
  }

  lemma {:induction false} DaysBeforeYearMonotone(a: int, b: int)
    requires 1 <= a <= b
    ensures DaysBeforeYear(a) + 365 * (b - a) <= DaysBeforeYear(b)
    decreases b - a
  {
    if a < b {
      DaysBeforeYearMonotone(a, b - 1);
    }
  }

  /** The day count of the first day of year 400a + 100b + 4c + d + 1, inside
      a 400-year cycle. */
  lemma {:induction false} CycleStart(a: nat, b: nat, c: nat, d: nat)
    requires b <= 3 && c <= 24 && d <= 3
    ensures DaysBeforeYear(400 * a + 100 * b + 4 * c + d + 1)
         == 146097 * a + 36524 * b + 1461 * c + 365 * d
  {
    var k := 400 * a + 100 * b + 4 * c + d;
    DaysBeforeYearClosedForm(k + 1);
    assert k / 4 == 100 * a + 25 * b + c;
    assert k / 100 == 4 * a + b;
    assert k / 400 == a;
  }

  /** Year, and day within the year, of day `z` since 0001-01-01. */
  function YearOfOrdinal(z: nat): (yd: (int, nat))
    ensures yd.0 >= 1 && yd.1 < DaysInYear(yd.0)
    ensures DaysBeforeYear(yd.0) + yd.1 == z
  {
    var n400, r400 := z / 146097, z % 146097;
    var n100 := if r400 / 36524 < 3 then r400 / 36524 else 3;
    var r100 := r400 - 36524 * n100;
    var n4, r4 := r100 / 1461, r100 % 1461;
    var n1 := if r4 / 365 < 3 then r4 / 365 else 3;
    var doy := r4 - 365 * n1;
    CycleYear(z, n400, r400, n100, r100, n4, r4, n1, doy);
    (400 * n400 + 100 * n100 + 4 * n4 + n1 + 1, doy)
  }

  /** The year and day of year that the 400-, 100-, 4- and 1-year cycles
      single out are right. */
  lemma {:induction false} CycleYear(z: nat, n400: nat, r400: int, n100: int, r100: int, n4: int, r4: int, n1: int, doy: int)
    requires z == 146097 * n400 + r400 && 0 <= r400 < 146097
    requires r400 == 36524 * n100 + r100 && 0 <= n100 <= 3 && 0 <= r100 && (n100 < 3 ==> r100 < 36524)
    requires r100 == 1461 * n4 + r4 && 0 <= n4 && 0 <= r4 < 1461
    requires r4 == 365 * n1 + doy && 0 <= n1 <= 3 && 0 <= doy && (n1 < 3 ==> doy < 365)
    ensures var y := 400 * n400 + 100 * n100 + 4 * n4 + n1 + 1;
      doy < DaysInYear(y) && DaysBeforeYear(y) + doy == z
  {
    assert r100 <= 36524;
    assert n4 <= 24;
    CycleStart(n400, n100, n4, n1);
    if doy >= 365 {
      assert n1 == 3 && r4 == 1460;
      assert n4 == 24 ==> n100 == 3;
      LeapInCycle(n400, n100, n4);
    }
  }

  /** The last year of a 4-year cycle is a leap year unless it ends a
      century that does not end the 400-year cycle. */
  lemma {:induction false} LeapInCycle(a: nat, b: int, c: int)
    requires 0 <= b <= 3 && 0 <= c <= 24
    ensures IsLeapYear(400 * a + 100 * b + 4 * c + 4) <==> c < 24 || b == 3
  {
    var y := 400 * a + 100 * b + 4 * c + 4;
    Remainder(y, 4, 100 * a + 25 * b + c + 1, 0);
    if c < 24 {
      Remainder(y, 100, 4 * a + b, 4 * c + 4);
    } else {
      Remainder(y, 100, 4 * a + b + 1, 0);
      if b < 3 {
        Remainder(y, 400, a, 100 * b + 100);
      } else {
        Remainder(y, 400, a + 1, 0);
      }
    }
  }

  lemma Remainder(x: int, d: int, q: int, r: int)
    requires (d == 4 || d == 100 || d == 400) && x == d * q + r && 0 <= r < d
    ensures x % d == r
  {
    var q', r' := x / d, x % d;
    assert x == d * q' + r' && 0 <= r' < d;
    if d == 4 {
      assert 4 * (q - q') == r' - r;
    } else if d == 100 {
      assert 100 * (q - q') == r' - r;
    } else {
      assert 400 * (q - q') == r' - r;
    }
  }

  /** The month of year `y` holding day `doy` of that year, searched from `m`. */
  function MonthOf(y: int, doy: nat, m: int): (r: int)
    requires 1 <= m <= 12 && DaysBeforeMonth(y, m) <= doy < DaysInYear(y)
    ensures m <= r <= 12 && DaysBeforeMonth(y, r) <= doy < DaysBeforeMonth(y, r + 1)
    decreases 12 - m
  {
    if m == 12 || doy < DaysBeforeMonth(y, m + 1) then m else MonthOf(y, doy, m + 1)
  }

  /** The civil date of day `z` since 0001-01-01. */
  function DateOfOrdinal(z: nat): (d: Date)
    ensures IsValidDate(d) && OrdinalDay(d) == z
  {
    var (y, doy) := YearOfOrdinal(z);
    var m := MonthOf(y, doy, 1);
    Date(y, m, doy - DaysBeforeMonth(y, m) + 1)
  }

  // ---------------------------------------------------------------------------
  // Dates are determined by their day counts

  /** A date's day count lies inside its own year. */
  lemma {:induction false} OrdinalWithinYear(d: Date)
    requires IsValidDate(d)
    ensures DaysBeforeYear(d.year) <= OrdinalDay(d) < DaysBeforeYear(d.year + 1)
  {
    MonthsIncrease(d.year, d.month + 1, 13);
  }

  lemma {:induction false} MonthsIncrease(y: int, m: int, n: int)
    requires 1 <= m <= n <= 13
    ensures DaysBeforeMonth(y, m) <= DaysBeforeMonth(y, n)
    decreases n - m
  {
    if m < n {
      MonthTable(y, m);
      MonthsIncrease(y, m + 1, n);
    }
  }

  /** Different valid dates have different day counts. */
  lemma {:induction false} OrdinalInjective(d1: Date, d2: Date)
    requires IsValidDate(d1) && IsValidDate(d2) && OrdinalDay(d1) == OrdinalDay(d2)
    ensures d1 == d2
  {
    OrdinalWithinYear(d1);
    OrdinalWithinYear(d2);
    if d1.year < d2.year {
      DaysBeforeYearMonotone(d1.year + 1, d2.year);
    } else if d2.year < d1.year {
      DaysBeforeYearMonotone(d2.year + 1, d1.year);
    }
    assert d1.year == d2.year;
    if d1.month < d2.month {
      MonthsIncrease(d1.year, d1.month + 1, d2.month);
    } else if d2.month < d1.month {
      MonthsIncrease(d1.year, d2.month + 1, d1.month);
    }
  }

  /** `DateOfOrdinal` inverts `OrdinalDay`: every valid date is printed as itself. */
  lemma DateOfOrdinalInverse(d: Date)
    requires IsValidDate(d)
    ensures DateOfOrdinal(OrdinalDay(d)) == d
  {
    OrdinalInjective(DateOfOrdinal(OrdinalDay(d)), d);
  }

  /** Day 0 of the Unix clock, 1970-01-01, is day 719162 since 0001-01-01. */
  lemma UnixEpochOrdinal()
    ensures OrdinalDay(Date(1970, 1, 1)) == 719162
    ensures DaysBeforeYear(10000) == 3652059
  {
    DaysBeforeYearClosedForm(1970);
    DaysBeforeYearClosedForm(10000);
  }

  /** Day counts below that of 10000-01-01 fall in four-digit years. */
  lemma {:induction false} FourDigitYears(z: nat)
    requires z < 3652059
    ensures DateOfOrdinal(z).year <= 9999
  {
    var d := DateOfOrdinal(z);
    UnixEpochOrdinal();
    OrdinalWithinYear(d);
    if d.year > 9999 {
      DaysBeforeYearMonotone(10000, d.year);
    }
  }
}
