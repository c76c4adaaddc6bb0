/** Dates of the queries: day numbers to proleptic Gregorian dates. */
module Calendar {
  import opened KnowsGraph

  const DAY_MS: int := 86_400_000

  /** Rust's `/`, which rounds toward zero. */
  function TruncDiv(a: int, b: int): int
    requires b > 0
  {
    if a >= 0 then a / b else -(-a / b)
  }

  datatype Date = Date(year: int, month: int, day: int)

  /** `civil_from_days`. */
  function CivilFromDays(daysSinceEpoch: int): Date {
    var z := daysSinceEpoch + 719_468;
    var era := TruncDiv(if z >= 0 then z else z - 146_096, 146_097);
    var doe := z - era * 146_097;
    var yoe := YearOfEra(doe);
    var y := yoe + era * 400;
    var doy := doe - (365 * yoe + TruncDiv(yoe, 4) - TruncDiv(yoe, 100));
    MarchDate(y, doy)
  }

  function YearOfEra(doe: int): int {
    TruncDiv(doe - TruncDiv(doe, 1_460) + TruncDiv(doe, 36_524) - TruncDiv(doe, 146_096), 365)
  }

  /** The date on day `doy` of a year that begins in March. */
  function MarchDate(y: int, doy: int): Date {
    var mp := TruncDiv(5 * doy + 2, 153);
    var day := doy - TruncDiv(153 * mp + 2, 5) + 1;
    var month := mp + if mp < 10 then 3 else -9;
    Date(y + if month <= 2 then 1 else 0, month, day)
  }

  /** `civil_from_unix_ms`, with the quotient of `div_euclid`. */
  function CivilFromUnixMs(tsMs: i64): Date {
    CivilFromDays(tsMs / DAY_MS)
  }

  // ------------------------------------------------------------ the calendar itself

  predicate IsLeap(y: int) {
    y % 4 == 0 && (y % 100 != 0 || y % 400 == 0)
  }

  function DaysInYear(y: int): int {
    if IsLeap(y) then 366 else 365
  }

  function DaysInMonth(y: int, m: int): int {
    if m == 2 then if IsLeap(y) then 29 else 28
    else if m == 4 || m == 6 || m == 9 || m == 11 then 30
    else 31
  }

  predicate ValidDate(d: Date) {
    1 <= d.month <= 12 && 1 <= d.day <= DaysInMonth(d.year, d.month)
  }

  /** Days from the start of 1970 to the start of year `y`, counted year by year. */
  function DaysBeforeYear(y: int): int
    decreases if y >= 1970 then y - 1970 else 1970 - y
  {
    if y == 1970 then 0
    else if y > 1970 then DaysBeforeYear(y - 1) + DaysInYear(y - 1)
    else DaysBeforeYear(y + 1) - DaysInYear(y)
  }

  /** Days of the year before month `m`, counted month by month. */
  function DaysBeforeMonth(y: int, m: nat): int {
    if m <= 1 then 0 else DaysBeforeMonth(y, m - 1) + DaysInMonth(y, m - 1)
  }

  /** The day number of a date, counted from the first of January 1970. */
  function DayNumber(d: Date): int
    requires ValidDate(d)
  {
    DaysBeforeYear(d.year) + DaysBeforeMonth(d.year, d.month) + d.day - 1
  }

  predicate DateLt(a: Date, b: Date) {
    a.year < b.year || (a.year == b.year && (a.month < b.month || (a.month == b.month && a.day < b.day)))
  }

  // ----------------------------------------------------------------- closed forms

  /** Days before year `y` on the scale where the closed form holds. */
  function YearStart(y: int): int {
    365 * y + (y - 1) / 4 - (y - 1) / 100 + (y - 1) / 400
  }

  lemma {:induction false} YearStartStep(y: int)
    ensures YearStart(y + 1) == YearStart(y) + DaysInYear(y)
  {
    hide YearStart;
    DivStep(y, 4);
    DivStep(y, 100);
    DivStep(y, 400);
    Nested(y);
    LeapCount(y / 4 - (y - 1) / 4, y / 100 - (y - 1) / 100, y / 400 - (y - 1) / 400, y % 4, y % 100, y % 400);
    StartDiffers(y);
  }

  /** Of every year divisible by 4, one is not leap by century and one is leap by quadricentury. */
  lemma {:induction false} LeapCount(by4: int, by100: int, by400: int, r4: int, r100: int, r400: int)
    requires by4 == (if r4 == 0 then 1 else 0) && by100 == (if r100 == 0 then 1 else 0) && by400 == (if r400 == 0 then 1 else 0)
    requires (r100 == 0 ==> r4 == 0) && (r400 == 0 ==> r100 == 0)
    ensures by4 - by100 + by400 == if r4 == 0 && (r100 != 0 || r400 == 0) then 1 else 0
  {
  }

  lemma {:induction false} StartDiffers(y: int)
    ensures YearStart(y + 1) - YearStart(y) == 365 + (y / 4 - (y - 1) / 4) - (y / 100 - (y - 1) / 100) + (y / 400 - (y - 1) / 400)
  {
    assert y + 1 - 1 == y;
  }

  lemma {:induction false} Nested(y: int)
    ensures y % 100 == 0 ==> y % 4 == 0
    ensures y % 400 == 0 ==> y % 100 == 0
  {
    if y % 100 == 0 {
      Multiple(25 * (y / 100), 4);
    }
    if y % 400 == 0 {
      Multiple(4 * (y / 400), 100);
    }
  }

  lemma {:induction false} Multiple(q: int, n: int)
    requires n == 4 || n == 100
    ensures (n * q) % n == 0
  {
  }

  lemma {:induction false} DivStep(y: int, n: int)
    requires n == 4 || n == 100 || n == 400
    ensures y / n == (y - 1) / n + if y % n == 0 then 1 else 0
  {
  }

  lemma {:induction false} DaysBeforeYearClosed(y: int)
    ensures DaysBeforeYear(y) == YearStart(y) - YearStart(1970)
    decreases if y >= 1970 then y - 1970 else 1970 - y
  {
    hide YearStart;
    if y > 1970 {
      DaysBeforeYearClosed(y - 1);
      YearStartStep(y - 1);
    } else if y < 1970 {
      DaysBeforeYearClosed(y + 1);
      YearStartStep(y);
    }
  }

  /** Days before March 1: 59, or 60 in a leap year; later months follow the 30.6-day pattern. */
  lemma {:induction false} MonthStarts(y: int)
    ensures DaysBeforeMonth(y, 1) == 0 && DaysBeforeMonth(y, 2) == 31
    ensures var f := if IsLeap(y) then 60 else 59;
            && DaysBeforeMonth(y, 3) == f && DaysBeforeMonth(y, 4) == f + 31 && DaysBeforeMonth(y, 5) == f + 61
            && DaysBeforeMonth(y, 6) == f + 92 && DaysBeforeMonth(y, 7) == f + 122 && DaysBeforeMonth(y, 8) == f + 153
            && DaysBeforeMonth(y, 9) == f + 184 && DaysBeforeMonth(y, 10) == f + 214 && DaysBeforeMonth(y, 11) == f + 245
            && DaysBeforeMonth(y, 12) == f + 275
  {
    hide IsLeap;
    assert DaysBeforeMonth(y, 2) == DaysBeforeMonth(y, 1) + 31;
    assert DaysBeforeMonth(y, 3) == DaysBeforeMonth(y, 2) + DaysInMonth(y, 2);
    assert DaysBeforeMonth(y, 4) == DaysBeforeMonth(y, 3) + 31;
    assert DaysBeforeMonth(y, 5) == DaysBeforeMonth(y, 4) + 30;
    assert DaysBeforeMonth(y, 6) == DaysBeforeMonth(y, 5) + 31;
    assert DaysBeforeMonth(y, 7) == DaysBeforeMonth(y, 6) + 30;
    assert DaysBeforeMonth(y, 8) == DaysBeforeMonth(y, 7) + 31;
    assert DaysBeforeMonth(y, 9) == DaysBeforeMonth(y, 8) + 31;
    assert DaysBeforeMonth(y, 10) == DaysBeforeMonth(y, 9) + 30;
    assert DaysBeforeMonth(y, 11) == DaysBeforeMonth(y, 10) + 31;
    assert DaysBeforeMonth(y, 12) == DaysBeforeMonth(y, 11) + 30;
  }

  // --------------------------------------------------------------- years of an era

  /** A place in the 400-year cycle: century, four-year group, year, day; a 366th day only ends a leap year. */
  datatype Place = Place(c: int, q: int, k: int, doy: int)

  predicate ValidPlace(p: Place) {
    && 0 <= p.c <= 3 && 0 <= p.q <= 24 && 0 <= p.k <= 3 && 0 <= p.doy <= 365
    && (p.doy == 365 ==> p.k == 3 && (p.q < 24 || p.c == 3))
  }

  function PlaceYear(p: Place): int { 100 * p.c + 4 * p.q + p.k }

  function PlaceDay(p: Place): int { 36_524 * p.c + 1_461 * p.q + 365 * p.k + p.doy }

  /** Every day of an era has a place. */
  lemma {:induction false} PlaceOf(doe: int) returns (p: Place)
    requires 0 <= doe < 146_097
    ensures ValidPlace(p) && PlaceDay(p) == doe
  {
    var c := if doe == 146_096 then 3 else doe / 36_524;
    var r := doe - 36_524 * c;
    var q := r / 1_461;
    var s := r - 1_461 * q;
    var k := if s == 1_460 then 3 else s / 365;
    p := Place(c, q, k, s - 365 * k);
  }

  /** The century correction cancels except for whole centuries. */
  lemma {:induction false} CenturyQuotients(p: Place)
    requires ValidPlace(p)
    ensures PlaceDay(p) / 36_524 - PlaceDay(p) / 146_096 == p.c
  {
    var rest := 1_461 * p.q + 365 * p.k + p.doy;
    assert 0 <= rest <= 36_524;
    assert rest == 36_524 ==> p.c == 3;
  }

  lemma {:induction false} FourYearQuotient(p: Place)
    requires ValidPlace(p)
    ensures var t := 24 * p.c + p.q + 365 * p.k + p.doy;
            PlaceDay(p) / 1_460 == 25 * p.c + p.q + if t >= 1_460 then 1 else 0
  {
    var t := 24 * p.c + p.q + 365 * p.k + p.doy;
    assert PlaceDay(p) == 1_460 * (25 * p.c + p.q) + t;
    assert 0 <= t < 2_920;
  }

  lemma {:induction false} YearOfEraIsPlaceYear(p: Place)
    requires ValidPlace(p)
    ensures YearOfEra(PlaceDay(p)) == PlaceYear(p)
    ensures PlaceDay(p) == 365 * PlaceYear(p) + PlaceYear(p) / 4 - PlaceYear(p) / 100 + p.doy
    ensures 0 <= PlaceYear(p) < 400
  {
    var doe, y := PlaceDay(p), PlaceYear(p);
    CenturyQuotients(p);
    FourYearQuotient(p);
    assert y / 4 == 25 * p.c + p.q && y / 100 == p.c;
    var f := doe - doe / 1_460 + doe / 36_524 - doe / 146_096;
    assert 365 * y <= f < 365 * y + 365;
    assert f / 365 == y;
  }

  // ------------------------------------------------------------------ months from March

  function MonthStart(mp: int): int { (153 * mp + 2) / 5 }

  lemma {:induction false} MonthStartTable()
    ensures MonthStart(0) == 0 && MonthStart(1) == 31 && MonthStart(2) == 61 && MonthStart(3) == 92
    ensures MonthStart(4) == 122 && MonthStart(5) == 153 && MonthStart(6) == 184 && MonthStart(7) == 214
    ensures MonthStart(8) == 245 && MonthStart(9) == 275 && MonthStart(10) == 306 && MonthStart(11) == 337
  {
  }

  /** The month found contains the day. */
  lemma {:induction false} MarchMonth(doy: int) returns (mp: int)
    requires 0 <= doy <= 365
    ensures mp == TruncDiv(5 * doy + 2, 153) && 0 <= mp <= 11
    ensures MonthStart(mp) <= doy && (mp < 11 ==> doy < MonthStart(mp + 1))
    ensures TruncDiv(153 * mp + 2, 5) == MonthStart(mp)
  {
    mp := (5 * doy + 2) / 153;
  }

  /** The month and day found in a March year, against the month starts of the calendar. */
  lemma {:induction false} MarchDateIsDate(y: int, doy: int)
    requires 0 <= doy <= 365 && (doy == 365 ==> IsLeap(y + 1))
    ensures ValidDate(MarchDate(y, doy))
    ensures DayNumber(MarchDate(y, doy)) == YearStart(y + 1) - YearStart(1970) - 306 + doy
  {
    hide IsLeap, TruncDiv, MonthStart, YearStart, DaysBeforeMonth, DaysBeforeYear;
    var mp := MarchMonth(doy);
    var d := MarchDate(y, doy);
    assert d == Date(if mp < 10 then y else y + 1, if mp < 10 then mp + 3 else mp - 9, doy - MonthStart(mp) + 1);
    MonthStartTable();
    YearStartStep(y);
    DaysBeforeYearClosed(d.year);
    MonthStarts(d.year);
  }

  lemma {:induction false} EraIsFloor(z: int)
    ensures TruncDiv(if z >= 0 then z else z - 146_096, 146_097) == z / 146_097
  {
  }

  /** Year `yoe` of era `era`, on the closed form. */
  lemma {:induction false} EraStart(yoe: int, era: int)
    requires 0 <= yoe < 400
    ensures YearStart(yoe + era * 400 + 1) == 365 + 365 * yoe + yoe / 4 - yoe / 100 + 146_097 * era
  {
    var y := yoe + era * 400;
    assert y / 4 == yoe / 4 + 100 * era && y / 100 == yoe / 100 + 4 * era && y / 400 == era;
  }

  lemma {:induction false} LastDayIsLeap(p: Place, era: int)
    requires ValidPlace(p) && p.doy == 365
    ensures IsLeap(PlaceYear(p) + era * 400 + 1)
  {
    var y := PlaceYear(p) + era * 400 + 1;
    assert y == 4 * (25 * p.c + p.q + 1 + 100 * era);
    if p.q == 24 {
      assert y == 400 * (era + 1);
    } else {
      assert y == 100 * (p.c + 4 * era) + 4 * (p.q + 1);
      assert 0 < 4 * (p.q + 1) < 100;
    }
  }

  lemma {:induction false} CivilOfPlace(days: int, era: int, p: Place)
    requires ValidPlace(p) && days + 719_468 == era * 146_097 + PlaceDay(p) && era == (days + 719_468) / 146_097
    ensures CivilFromDays(days) == MarchDate(PlaceYear(p) + era * 400, p.doy)
  {
    hide MarchDate, YearOfEra, PlaceDay, PlaceYear;
    EraIsFloor(days + 719_468);
    YearOfEraIsPlaceYear(p);
  }

  /** Every day number, negative ones included, becomes the valid date with that day number. */
  lemma {:induction false} CivilIsDate(days: int)
    ensures ValidDate(CivilFromDays(days)) && DayNumber(CivilFromDays(days)) == days
  {
    hide ValidDate, DayNumber, MarchDate, CivilFromDays, YearOfEra, IsLeap, YearStart, PlaceDay, PlaceYear;
    var z := days + 719_468;
    var era := z / 146_097;
    var p := PlaceOf(z - era * 146_097);
    CivilOfPlace(days, era, p);
    YearOfEraIsPlaceYear(p);
    EraStart(PlaceYear(p), era);
    if p.doy == 365 {
      LastDayIsLeap(p, era);
    }
    MarchDateIsDate(PlaceYear(p) + era * 400, p.doy);
    EpochStart();
  }

  lemma {:induction false} EpochStart()
    ensures YearStart(1970) == 719_527
  {
  }

  // --------------------------------------------------------------------- inverse

  lemma {:induction false} DayOfYearBounds(d: Date)
    requires ValidDate(d)
    ensures 0 <= DaysBeforeMonth(d.year, d.month) + d.day - 1 < DaysInYear(d.year)
  {
    MonthStarts(d.year);
    hide IsLeap, DaysBeforeMonth;
  }

  lemma {:induction false} YearsAscend(a: int, b: int)
    requires a < b
    ensures DaysBeforeYear(a) + DaysInYear(a) <= DaysBeforeYear(b)
    decreases b - a
  {
    hide DaysInYear, YearStart;
    DaysBeforeYearClosed(a);
    DaysBeforeYearClosed(b);
    YearStartStep(a);
    if a + 1 < b {
      YearsAscend(a + 1, b);
      DaysBeforeYearClosed(a + 1);
      YearIsLong(a + 1);
    }
  }

  lemma {:induction false} YearIsLong(y: int)
    ensures DaysInYear(y) > 0
  {
  }

  lemma {:induction false} MonthsAscend(y: int, a: nat, b: nat)
    requires 1 <= a < b
    ensures DaysBeforeMonth(y, a) + DaysInMonth(y, a) <= DaysBeforeMonth(y, b)
    decreases b
  {
    hide IsLeap;
    if a + 1 < b {
      MonthsAscend(y, a, b - 1);
    }
  }

  /** Later dates have larger day numbers. */
  lemma {:induction false} DayNumberAscends(a: Date, b: Date)
    requires ValidDate(a) && ValidDate(b) && DateLt(a, b)
    ensures DayNumber(a) < DayNumber(b)
  {
    hide DaysInYear, DaysInMonth, DaysBeforeMonth;
    if a.year < b.year {
      YearsAscend(a.year, b.year);
      DayOfYearBounds(a);
      DayOfYearBounds(b);
    } else if a.month < b.month {
      MonthsAscend(a.year, a.month, b.month);
    }
  }

  /** The conversion inverts the day count: no other valid date has the same day number. */
  lemma {:induction false} CivilInvertsDayNumber(d: Date)
    requires ValidDate(d)
    ensures CivilFromDays(DayNumber(d)) == d
  {
    hide ValidDate, DayNumber, CivilFromDays;
    var e := CivilFromDays(DayNumber(d));
    CivilIsDate(DayNumber(d));
    OnlyOne(d, e);
  }

  lemma {:induction false} OnlyOne(a: Date, b: Date)
    requires ValidDate(a) && ValidDate(b) && DayNumber(a) == DayNumber(b)
    ensures a == b
  {
    hide ValidDate, DayNumber;
    if DateLt(a, b) {
      DayNumberAscends(a, b);
    } else if DateLt(b, a) {
      DayNumberAscends(b, a);
    }
  }

  /** Dates strictly increase with the day. */
  lemma {:induction false} CivilAscends(a: int, b: int)
    requires a < b
    ensures DateLt(CivilFromDays(a), CivilFromDays(b))
  {
    hide ValidDate, DayNumber, CivilFromDays;
    var x, y := CivilFromDays(a), CivilFromDays(b);
    CivilIsDate(a);
    CivilIsDate(b);
    if DateLt(y, x) {
      DayNumberAscends(y, x);
    }
  }

  lemma {:induction false} YearBounds(y: int)
    ensures y >= 1970 ==> DaysBeforeYear(y) >= 365 * (y - 1970)
    ensures y < 1970 ==> DaysBeforeYear(y) <= 365 * (y - 1970)
    decreases if y >= 1970 then y - 1970 else 1970 - y
  {
    hide IsLeap;
    if y > 1970 {
      YearBounds(y - 1);
    } else if y < 1969 {
      YearBounds(y + 1);
    }
  }

  /** Every i64 timestamp falls on the day of its date, and the year fits the i32 it is cast to. */
  lemma {:induction false} UnixDate(tsMs: i64)
    ensures var d := CivilFromUnixMs(tsMs);
            && ValidDate(d) && DayNumber(d) * 86_400_000 <= tsMs < (DayNumber(d) + 1) * 86_400_000
            && -0x8000_0000 <= d.year < 0x8000_0000
  {
    var d := CivilFromUnixMs(tsMs);
    CivilIsDate(tsMs / DAY_MS);
    YearBounds(d.year);
    DayOfYearBounds(d);
    hide DaysBeforeYear, DaysBeforeMonth, CivilFromDays, ValidDate, IsLeap;
  }
}
