/** The proleptic Gregorian calendar of `java.time`, as far as
    `instant.atOffset(ZoneOffset.UTC).toLocalDate().toString()` needs it: the day an
    instant falls on, and the ISO text of that day. */
module Calendar {
  import opened JavaText
  import opened Records

  const SECONDS_PER_DAY: int := 86400
  /** The days of a 400-year cycle. */
  const DAYS_PER_CYCLE: int := 146097

  predicate IsLeap(y: int) {
    y % 4 == 0 && (y % 100 != 0 || y % 400 == 0)
  }

  function DaysInYear(y: int): int {
    if IsLeap(y) then 366 else 365
  }

  /** The number of leap years up to `n`, counted from a fixed origin. */
  function LeapCount(n: int): int {
    n / 4 - n / 100 + n / 400
  }

  /** The days from 1970-01-01 to the first day of year `y` (negative before 1970). */
  function DaysBeforeYear(y: int): int {
    365 * (y - 1970) + LeapCount(y - 1) - LeapCount(1969)
  }

  /** Going one step down in a floor division by `k` loses one exactly at multiples. */
  lemma DivStep(n: int, k: int)
    requires k > 0
    ensures n / k - (n - 1) / k == if n % k == 0 then 1 else 0
  {
    var q := (n - 1) / k;
    var r := (n - 1) % k;
    assert n - 1 == q * k + r && 0 <= r < k;
    if r + 1 < k {
      DivUnique(n, k, q, r + 1);
    } else {
      DivUnique(n, k, q + 1, 0);
    }
  }

  /** Quotient and remainder are unique. */
  lemma DivUnique(n: int, k: int, q: int, r: int)
    requires k > 0 && n == q * k + r && 0 <= r < k
    ensures n / k == q && n % k == r
  {
    var q' := n / k;
    var r' := n % k;
    assert n == q' * k + r' && 0 <= r' < k;
    if q' > q {
      assert (q' - q) * k == q' * k - q * k;
      MulAtLeast(q' - q, k);
    } else if q' < q {
      assert (q - q') * k == q * k - q' * k;
      MulAtLeast(q - q', k);
    }
  }

  lemma {:induction false} MulAtLeast(a: int, k: int)
    requires a >= 1 && k > 0
    ensures a * k >= k
    decreases a
  {
    if a > 1 {
      MulAtLeast(a - 1, k);
      assert a * k == (a - 1) * k + k;
    }
  }

  /** A multiple of 400 is a multiple of 100, and a multiple of 100 a multiple of 4. */
  lemma MultipleOf(y: int)
    ensures y % 400 == 0 ==> y % 100 == 0
    ensures y % 100 == 0 ==> y % 4 == 0
  {
    if y % 400 == 0 {
      DivUnique(y, 100, 4 * (y / 400), 0);
    }
    if y % 100 == 0 {
      DivUnique(y, 4, 25 * (y / 100), 0);
    }
  }

  lemma LeapCountStep(y: int)
    ensures LeapCount(y) - LeapCount(y - 1) == if IsLeap(y) then 1 else 0
  {
    DivStep(y, 4);
    DivStep(y, 100);
    DivStep(y, 400);
    MultipleOf(y);
  }

  /** Consecutive years are one year's length apart. */
  lemma YearStep(y: int)
    ensures DaysBeforeYear(y + 1) == DaysBeforeYear(y) + DaysInYear(y)
  {
    LeapCountStep(y);
  }

  /** Four hundred years always hold 146097 days. */
  lemma CycleStep(y: int)
    ensures DaysBeforeYear(y + 400) == DaysBeforeYear(y) + DAYS_PER_CYCLE
  {
    var n := y - 1;
    DivUnique(n + 400, 4, n / 4 + 100, n % 4);
    DivUnique(n + 400, 100, n / 100 + 4, n % 100);
    DivUnique(n + 400, 400, n / 400 + 1, n % 400);
  }

  lemma {:induction false} CycleStart(k: int)
    ensures DaysBeforeYear(1970 + 400 * k) == DAYS_PER_CYCLE * k
    decreases if k < 0 then -k else k
  {
    if k > 0 {
      CycleStart(k - 1);
      CycleStep(1970 + 400 * (k - 1));
    } else if k < 0 {
      CycleStart(k + 1);
      CycleStep(1970 + 400 * k);
    }
  }

  /** Later years start later: a year starts no earlier than the end of any year before. */
  lemma {:induction false} YearsOrdered(a: int, b: int)
    requires a < b
    ensures DaysBeforeYear(a + 1) <= DaysBeforeYear(b)
    decreases b - a
  {
    if a + 1 < b {
      YearsOrdered(a, b - 1);
      YearStep(b - 1);
    }
  }

  /** The year holding day `z`, searched upwards from a year that starts no later. */
  function YearFrom(y: int, z: int): (r: int)
    requires DaysBeforeYear(y) <= z
    ensures y <= r && DaysBeforeYear(r) <= z < DaysBeforeYear(r + 1)
    decreases z - DaysBeforeYear(y)
  {
    YearStep(y);
    if z < DaysBeforeYear(y + 1) then y else YearFrom(y + 1, z)
  }

  /** The year holding day `z`. */
  function YearOf(z: int): (r: int)
    ensures DaysBeforeYear(r) <= z < DaysBeforeYear(r + 1)
  {
    var k := z / DAYS_PER_CYCLE;
    CycleStart(k);
    YearFrom(1970 + 400 * k, z)
  }

  /** `Month.length`: the days of month `m` in year `y`. */
  function DaysInMonth(y: int, m: int): int
    requires 1 <= m <= 12
  {
    if m == 2 then (if IsLeap(y) then 29 else 28)
    else if m == 4 || m == 6 || m == 9 || m == 11 then 30
    else 31
  }

  const CUMULATIVE: seq<int> := [0, 31, 59, 90, 120, 151, 181, 212, 243, 273, 304, 334, 365]

  /** The days of year `y` before the first of month `m`; month 13 stands for the next
      year. */
  function DaysBeforeMonth(y: int, m: int): int
    requires 1 <= m <= 13
  {
    CUMULATIVE[m - 1] + (if m > 2 && IsLeap(y) then 1 else 0)
  }

  lemma MonthStep(y: int, m: int)
    requires 1 <= m <= 12
    ensures DaysBeforeMonth(y, m + 1) == DaysBeforeMonth(y, m) + DaysInMonth(y, m)
    ensures DaysBeforeMonth(y, 1) == 0 && DaysBeforeMonth(y, 13) == DaysInYear(y)
  {
  }

  lemma MonthsOrdered(y: int, a: int, b: int)
    requires 1 <= a < b <= 13
    ensures DaysBeforeMonth(y, a + 1) <= DaysBeforeMonth(y, b)
  {
  }

  /** The month holding day `r` of year `y`. */
  function MonthFrom(y: int, m: int, r: int): (res: int)
    requires 1 <= m <= 12 && DaysBeforeMonth(y, m) <= r < DaysInYear(y)
    ensures m <= res <= 12 && DaysBeforeMonth(y, res) <= r < DaysBeforeMonth(y, res + 1)
    decreases 12 - m
  {
    MonthStep(y, m);
    if r < DaysBeforeMonth(y, m + 1) then m else MonthFrom(y, m + 1, r)
  }

  /** `LocalDate`: a year, a month and a day of the month. */
  datatype Date = Date(year: int, month: int, day: int)

  predicate ValidDate(d: Date) {
    1 <= d.month <= 12 && 1 <= d.day <= DaysInMonth(d.year, d.month)
  }

  /** `LocalDate.toEpochDay`: the days since 1970-01-01. */
  function EpochDay(d: Date): int
    requires 1 <= d.month <= 12
  {
    DaysBeforeYear(d.year) + DaysBeforeMonth(d.year, d.month) + d.day - 1
  }

  /** `LocalDate.ofEpochDay`: the date that is `z` days after 1970-01-01. */
  function DateOfEpochDay(z: int): (d: Date)
    ensures ValidDate(d) && EpochDay(d) == z
  {
    var y := YearOf(z);
    YearStep(y);
    MonthStep(y, 1);
    var r := z - DaysBeforeYear(y);
    var m := MonthFrom(y, 1, r);
    MonthStep(y, m);
    Date(y, m, r - DaysBeforeMonth(y, m) + 1)
  }

  /** A valid date lies within its year. */
  lemma WithinYear(d: Date)
    requires ValidDate(d)
    ensures DaysBeforeYear(d.year) <= EpochDay(d) < DaysBeforeYear(d.year + 1)
  {
    MonthStep(d.year, d.month);
    if d.month < 12 {
      MonthsOrdered(d.year, d.month, 13);
    }
    YearStep(d.year);
  }

  /** Different valid dates are different days. */
  lemma EpochDayInjective(a: Date, b: Date)
    requires ValidDate(a) && ValidDate(b) && EpochDay(a) == EpochDay(b)
    ensures a == b
  {
    WithinYear(a);
    WithinYear(b);
    if a.year < b.year {
      YearsOrdered(a.year, b.year);
    } else if b.year < a.year {
      YearsOrdered(b.year, a.year);
    }
    assert a.year == b.year;
    MonthStep(a.year, a.month);
    MonthStep(a.year, b.month);
    if a.month < b.month {
      MonthsOrdered(a.year, a.month, b.month);
    } else if b.month < a.month {
      MonthsOrdered(a.year, b.month, a.month);
    }
  }

  /** Round trip: every valid date is the date of its own epoch day. */
  lemma DateOfEpochDayOf(d: Date)
    requires ValidDate(d)
    ensures DateOfEpochDay(EpochDay(d)) == d
  {
    EpochDayInjective(DateOfEpochDay(EpochDay(d)), d);
  }

  /** The UTC date of an instant: the day holding its second, by floor division. */
  function UtcDate(i: Instant): (d: Date)
    ensures ValidDate(d)
    ensures EpochDay(d) * SECONDS_PER_DAY <= i.epochSecond < EpochDay(d) * SECONDS_PER_DAY + SECONDS_PER_DAY
  {
    DateOfEpochDay(i.epochSecond / SECONDS_PER_DAY)
  }

  /** The epoch falls on 1970-01-01. */
  lemma EpochDate()
    ensures UtcDate(EPOCH) == Date(1970, 1, 1)
  {
    var d := Date(1970, 1, 1);
    assert EPOCH.epochSecond / SECONDS_PER_DAY == 0;
    assert DaysBeforeYear(1970) == 0;
    assert EpochDay(d) == 0;
    DateOfEpochDayOf(d);
  }

  /** `LocalDate.toString` of the year: four digits at least, a sign below year 0 and a
      `+` above 9999. */
  function YearText(y: int): string {
    if y > 9999 then "+" + Decimal(y)
    else if y >= 0 then ZeroPad(y, 4)
    else "-" + ZeroPad(-y, 4)
  }

  /** `LocalDate.toString`: `yyyy-MM-dd`. */
  function DateText(d: Date): string
    requires ValidDate(d)
  {
    YearText(d.year) + "-" + ZeroPad(d.month, 2) + "-" + ZeroPad(d.day, 2)
  }

  function Pow10(w: nat): nat {
    if w == 0 then 1 else 10 * Pow10(w - 1)
  }

  lemma {:induction false} DecimalLength(n: nat, w: nat)
    requires w >= 1 && n < Pow10(w)
    ensures |Decimal(n)| <= w
  {
    if n >= 10 {
      DecimalLength(n / 10, w - 1);
    }
  }

  lemma ZeroPadLength(n: nat, w: nat)
    requires w >= 1 && n < Pow10(w)
    ensures |ZeroPad(n, w)| == w
  {
    DecimalLength(n, w);
  }

  /** Reading the text of a date from years 0 to 9999 back: four digits of year, two of
      month and two of day, separated by `-`. */
  lemma DateTextFields(d: Date)
    requires ValidDate(d) && 0 <= d.year <= 9999
    ensures var t := DateText(d);
      |t| == 10 && t[4] == '-' && t[7] == '-'
      && AllDigits(t[..4]) && AllDigits(t[5..7]) && AllDigits(t[8..])
      && DigitsValue(t[..4]) == d.year && DigitsValue(t[5..7]) == d.month
      && DigitsValue(t[8..]) == d.day
  {
    assert Pow10(4) == 10000 && Pow10(2) == 100;
    ZeroPadLength(d.year, 4);
    ZeroPadLength(d.month, 2);
    ZeroPadLength(d.day, 2);
    var t := DateText(d);
    assert t[..4] == ZeroPad(d.year, 4);
    assert t[5..7] == ZeroPad(d.month, 2);
    assert t[8..] == ZeroPad(d.day, 2);
    ZeroPadValue(d.year, 4);
    ZeroPadValue(d.month, 2);
    ZeroPadValue(d.day, 2);
  }
}
