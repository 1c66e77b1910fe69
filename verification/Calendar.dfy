/**
 Day numbers and civil dates: the two arithmetic conversions, against plain
 next-day stepping under the repository's own month lengths and leap years.
 */
module Calendar {

  datatype Date = Date(year: int, month: int, day: int)

  predicate IsLeapYear(year: int) {
    year % 4 == 0 && (year % 100 != 0 || year % 400 == 0)
  }

  function DaysInMonth(year: int, month: int): int {
    if month in {1, 3, 5, 7, 8, 10, 12} then 31
    else if month in {4, 6, 9, 11} then 30
    else if month == 2 then if IsLeapYear(year) then 29 else 28
    else 0
  }

  predicate IsDate(c: Date) {
    1 <= c.month <= 12 && 1 <= c.day <= DaysInMonth(c.year, c.month)
  }

  function NextDay(c: Date): Date {
    if c.day < DaysInMonth(c.year, c.month) then c.(day := c.day + 1)
    else if c.month < 12 then Date(c.year, c.month + 1, 1)
    else Date(c.year + 1, 1, 1)
  }

  const EPOCH := Date(1970, 1, 1)

  /** The date `n` days after the epoch, one day at a time. */
  function Stepped(n: nat): Date {
    if n == 0 then EPOCH else NextDay(Stepped(n - 1))
  }

  // ---- the two conversions ----------------------------------------------------------

  /** Division that truncates toward zero. */
  function TruncatingDiv(a: int, b: int): int
    requires b > 0
  {
    if a >= 0 then a / b else -(-a / b)
  }

  /** Two's-complement truncation to 32 bits. */
  function AsI32(x: int): int {
    (x + 0x8000_0000) % 0x1_0000_0000 - 0x8000_0000
  }

  /** Which 400-year era a day, counted from 0000-03-01, falls in. */
  function EraIndex(z: int): int {
    TruncatingDiv(if z >= 0 then z else z - 146_096, 146_097)
  }

  function YearOfEra(doe: int): int {
    (doe - doe / 1460 + doe / 36_524 - doe / 146_096) / 365
  }

  /** Day `doy` of the year that begins on 1 March of year `y`. */
  function DateFromMarch(y: int, doy: int): Date {
    var mp := (5 * doy + 2) / 153;
    var d := doy - (153 * mp + 2) / 5 + 1;
    var m := if mp < 10 then mp + 3 else mp - 9;
    Date(if m <= 2 then y + 1 else y, m, d)
  }

  /** The civil date of a day number, before the year is cut down to 32 bits. */
  function CivilFromDaysWide(days: int): Date {
    var z := days + 719_468;
    var era := EraIndex(z);
    var doe := z - era * 146_097;
    var yoe := YearOfEra(doe);
    DateFromMarch(yoe + era * 400, doe - (365 * yoe + yoe / 4 - yoe / 100))
  }

  function CivilFromDays(days: int): Date {
    var c := CivilFromDaysWide(days);
    c.(year := AsI32(c.year))
  }

  function DayOfEra(yoe: int, doy: int): int {
    yoe * 365 + yoe / 4 - yoe / 100 + doy
  }

  /** The year, counted from March, and the day of it. */
  function MarchYear(c: Date): int {
    if c.month <= 2 then c.year - 1 else c.year
  }

  function MarchDay(c: Date): int {
    (153 * ((c.month + 9) % 12) + 2) / 5 + c.day - 1
  }

  /** The day number of a civil date. */
  function DaysFromCivil(c: Date): int {
    var y := MarchYear(c);
    (y / 400) * 146_097 + DayOfEra(y % 400, MarchDay(c)) - 719_468
  }

  // ---- the inverse inside one 400-year era ---------------------------------------------

  /** A year of the era counted from March, and a day of it. */
  predicate DayOfYear(yoe: int, doy: int) {
    && 0 <= yoe < 400 && 0 <= doy <= 365
    && (doy == 365 ==> IsLeapYear(yoe + 1))
  }

  /** With yoe = 100 a + 4 b + c, each corrective quotient is what it should be. */
  lemma Quotients(a: int, b: int, c: int, doy: int)
    requires 0 <= a < 4 && 0 <= b < 25 && 0 <= c < 4 && 0 <= doy <= 365
    requires doy == 365 ==> c == 3 && (b == 24 ==> a == 3)
    ensures
      var doe := 36_524 * a + 1461 * b + 365 * c + doy;
      var e := (24 * a + b + 365 * c + doy) / 1460;
      && doe / 1460 == 25 * a + b + e
      && doe / 36_524 - doe / 146_096 == a
      && 0 <= doy - e < 365
  {
    var doe := 36_524 * a + 1461 * b + 365 * c + doy;
    assert doe == 1460 * (25 * a + b) + (24 * a + b + 365 * c + doy);
  }

  lemma YearFromQuotients(a: int, b: int, c: int, doy: int)
    requires 0 <= a < 4 && 0 <= b < 25 && 0 <= c < 4 && 0 <= doy <= 365
    requires doy == 365 ==> c == 3 && (b == 24 ==> a == 3)
    ensures YearOfEra(36_524 * a + 1461 * b + 365 * c + doy) == 100 * a + 4 * b + c
  {
    Quotients(a, b, c, doy);
    var doe := 36_524 * a + 1461 * b + 365 * c + doy;
    var rest := doy - (24 * a + b + 365 * c + doy) / 1460;
    assert doe - doe / 1460 + doe / 36_524 - doe / 146_096 == 365 * (100 * a + 4 * b + c) + rest;
  }

  lemma YearOfEraInverts(yoe: int, doy: int)
    requires DayOfYear(yoe, doy)
    ensures 0 <= DayOfEra(yoe, doy) < 146_097 && YearOfEra(DayOfEra(yoe, doy)) == yoe
  {
    var a, b, c := yoe / 100, yoe % 100 / 4, yoe % 4;
    assert yoe == 100 * a + 4 * b + c;
    assert yoe / 4 == 25 * a + b;
    if doy == 365 {
      assert (yoe + 1) % 4 == 0 && c == 3;
      if b == 24 {
        assert yoe + 1 == 100 * (a + 1);
        assert (yoe + 1) % 100 == 0 && (yoe + 1) % 400 == 0;
      }
    }
    hide YearOfEra;
    assert DayOfEra(yoe, doy) == 36_524 * a + 1461 * b + 365 * c + doy;
    YearFromQuotients(a, b, c, doy);
  }

  /** The month and day of the month, counted from March and back. */
  lemma MarchInverts(c: Date)
    requires IsDate(c)
    ensures DateFromMarch(MarchYear(c), MarchDay(c)) == c
    ensures DayOfYear(MarchYear(c) % 400, MarchDay(c))
  {
    var mp := (c.month + 9) % 12;
    assert 0 <= MarchDay(c) <= 365 && (5 * MarchDay(c) + 2) / 153 == mp;
    if MarchDay(c) == 365 {
      assert mp == 11 && c.day == 29;
      LeapInEra(MarchYear(c));
    }
  }

  lemma LeapInEra(y: int)
    ensures IsLeapYear(y + 1) <==> IsLeapYear(y % 400 + 1)
  {
    ModEra(y + 1, y / 400, y % 400 + 1);
  }

  lemma ModEra(y: int, era: int, r: int)
    requires y == 400 * era + r
    ensures y % 4 == r % 4 && y % 100 == r % 100 && y % 400 == r % 400
  {
    Mod4(y, 100 * era, r);
    Mod100(y, 4 * era, r);
    Mod400(y, era, r);
  }

  lemma Mod4(y: int, q: int, r: int)
    requires y == 4 * q + r
    ensures y % 4 == r % 4
  {
  }

  lemma Mod100(y: int, q: int, r: int)
    requires y == 100 * q + r
    ensures y % 100 == r % 100
  {
  }

  lemma Mod400(y: int, q: int, r: int)
    requires y == 400 * q + r
    ensures y % 400 == r % 400
  {
  }

  /** The truncating division finds the era of a negative day number as well. */
  lemma EraOf(era: int, doe: int)
    requires 0 <= doe < 146_097
    ensures EraIndex(era * 146_097 + doe) == era
  {
    var z := era * 146_097 + doe;
    if z >= 0 {
      assert z / 146_097 == era;
    } else {
      assert era < 0;
      var n := -(z - 146_096);
      assert n == (-era) * 146_097 + (146_096 - doe);
      assert n / 146_097 == -era;
    }
  }

  /** Turning a date into its day number and back gives the date. */
  lemma CivilOfDays(c: Date)
    requires IsDate(c)
    ensures CivilFromDaysWide(DaysFromCivil(c)) == c
  {
    hide *;
    MarchInverts(c);
    var y, doy := MarchYear(c), MarchDay(c);
    YearOfEraInverts(y % 400, doy);
    EraOf(y / 400, DayOfEra(y % 400, doy));
    Assemble(y / 400, y % 400, doy);
    DaysByParts(c);
  }

  lemma DaysByParts(c: Date)
    ensures DaysFromCivil(c) == (MarchYear(c) / 400) * 146_097 + DayOfEra(MarchYear(c) % 400, MarchDay(c)) - 719_468
  {
  }

  lemma Assemble(era: int, yoe: int, doy: int)
    requires EraIndex(era * 146_097 + DayOfEra(yoe, doy)) == era && YearOfEra(DayOfEra(yoe, doy)) == yoe
    ensures CivilFromDaysWide(era * 146_097 + DayOfEra(yoe, doy) - 719_468) == DateFromMarch(era * 400 + yoe, doy)
  {
    hide EraIndex, YearOfEra, DateFromMarch;
  }

  // ---- stepping ---------------------------------------------------------------------------

  /** One March year after another, the era's days run on without a gap. */
  lemma YearRunsOn(y: int)
    ensures
      var days := if IsLeapYear(y + 1) then 366 else 365;
      ((y + 1) / 400) * 146_097 + DayOfEra((y + 1) % 400, 0) == (y / 400) * 146_097 + DayOfEra(y % 400, 0) + days
  {
    hide IsLeapYear, DayOfEra;
    LeapInEra(y);
    NextYear(y);
    if y % 400 == 399 {
      EraEndsLeap();
    } else {
      WithinEra(y % 400);
    }
  }

  lemma NextYear(y: int)
    ensures y % 400 == 399 ==> (y + 1) / 400 == y / 400 + 1 && (y + 1) % 400 == 0
    ensures y % 400 != 399 ==> (y + 1) / 400 == y / 400 && (y + 1) % 400 == y % 400 + 1
  {
  }

  lemma EraEndsLeap()
    ensures IsLeapYear(400) && DayOfEra(399, 0) + 366 == 146_097 && DayOfEra(0, 0) == 0
  {
  }

  lemma WithinEra(yoe: int)
    requires 0 <= yoe < 399
    ensures DayOfEra(yoe + 1, 0) == DayOfEra(yoe, 0) + if IsLeapYear(yoe + 1) then 366 else 365
  {
    assert (yoe + 1) / 4 == yoe / 4 + if (yoe + 1) % 4 == 0 then 1 else 0;
    assert (yoe + 1) / 100 == yoe / 100 + if (yoe + 1) % 100 == 0 then 1 else 0;
  }

  lemma SameMarchYear(c: Date, n: Date)
    requires MarchYear(n) == MarchYear(c) && MarchDay(n) == MarchDay(c) + 1
    ensures DaysFromCivil(n) == DaysFromCivil(c) + 1
  {
    hide MarchYear, MarchDay;
    var y := MarchYear(c);
    assert DayOfEra(y % 400, MarchDay(n)) == DayOfEra(y % 400, MarchDay(c)) + 1;
  }

  lemma NewMarchYear(c: Date)
    requires c.month == 2 && c.day == DaysInMonth(c.year, 2)
    ensures DaysFromCivil(NextDay(c)) == DaysFromCivil(c) + 1
  {
    YearRunsOn(c.year - 1);
    var last := MarchDay(c);
    assert last == (if IsLeapYear(c.year) then 365 else 364);
    assert MarchDay(NextDay(c)) == 0;
    hide MarchDay;
  }

  /** The next day has the next day number. */
  lemma NextDayNumber(c: Date)
    requires IsDate(c)
    ensures IsDate(NextDay(c)) && DaysFromCivil(NextDay(c)) == DaysFromCivil(c) + 1
  {
    if c.day < DaysInMonth(c.year, c.month) {
      SameMarchYear(c, c.(day := c.day + 1));
    } else if c.month == 2 {
      YearRunsOn(c.year - 1);
      NewMarchYear(c);
    } else {
      SameMarchYear(c, NextDay(c));
    }
  }

  /** Four hundred years are a whole number of days. */
  lemma EraShift(c: Date)
    ensures DaysFromCivil(c.(year := c.year - 400)) == DaysFromCivil(c) - 146_097
    ensures IsDate(c) ==> IsDate(c.(year := c.year - 400))
  {
    assert (MarchYear(c) - 400) / 400 == MarchYear(c) / 400 - 1;
    assert (MarchYear(c) - 400) % 400 == MarchYear(c) % 400;
    assert (c.year - 400) % 400 == c.year % 400 && (c.year - 400) % 100 == c.year % 100 && (c.year - 400) % 4 == c.year % 4;
  }

  lemma EpochIsZero()
    ensures IsDate(EPOCH) && DaysFromCivil(EPOCH) == 0
  {
  }

  /** Every day number, before the epoch too, is that of some date. */
  lemma {:induction false} DateOf(n: int) returns (c: Date)
    ensures IsDate(c) && DaysFromCivil(c) == n
    decreases if n >= 0 then n else 146_097 - n
  {
    hide DaysFromCivil, IsDate, NextDay;
    EpochIsZero();
    if n == 0 {
      c := EPOCH;
    } else if n > 0 {
      c := DateOf(n - 1);
      NextDayNumber(c);
      c := NextDay(c);
    } else if n <= -146_097 {
      c := DateOf(n + 146_097);
      EraShift(c);
      c := c.(year := c.year - 400);
    } else {
      c := DateAfterEpoch(n + 146_097);
      EraShift(c);
      c := c.(year := c.year - 400);
    }
  }

  lemma {:induction false} DateAfterEpoch(n: nat) returns (c: Date)
    ensures IsDate(c) && DaysFromCivil(c) == n
  {
    hide DaysFromCivil, IsDate, NextDay;
    EpochIsZero();
    if n == 0 {
      c := EPOCH;
    } else {
      c := DateAfterEpoch(n - 1);
      NextDayNumber(c);
      c := NextDay(c);
    }
  }

  /** Turning a day number into a date and back gives the day number. */
  lemma DaysOfCivil(n: int)
    ensures IsDate(CivilFromDaysWide(n)) && DaysFromCivil(CivilFromDaysWide(n)) == n
  {
    hide CivilFromDaysWide, DaysFromCivil, IsDate;
    var c := DateOf(n);
    CivilOfDays(c);
  }

  /** The conversion of the next day number is the next day, for every day number. */
  lemma CivilSteps(n: int)
    ensures CivilFromDaysWide(n + 1) == NextDay(CivilFromDaysWide(n))
  {
    hide CivilFromDaysWide, DaysFromCivil;
    DaysOfCivil(n);
    NextDayNumber(CivilFromDaysWide(n));
    CivilOfDays(NextDay(CivilFromDaysWide(n)));
  }

  /** The conversion agrees with stepping day by day from the epoch. */
  lemma {:induction false} CivilIsStepped(n: nat)
    ensures CivilFromDaysWide(n) == Stepped(n)
  {
    hide CivilFromDaysWide, DaysFromCivil, IsDate, NextDay;
    if n > 0 {
      CivilIsStepped(n - 1);
      CivilSteps(n - 1);
    } else {
      EpochIsZero();
      CivilOfDays(EPOCH);
    }
  }

  // ---- order --------------------------------------------------------------------------------

  predicate Earlier(a: Date, b: Date) {
    a.year < b.year || (a.year == b.year && (a.month < b.month || (a.month == b.month && a.day < b.day)))
  }

  /** Later day numbers are later dates. */
  lemma {:induction false} CivilMonotone(m: int, n: int)
    requires m < n
    ensures Earlier(CivilFromDaysWide(m), CivilFromDaysWide(n))
    decreases n - m
  {
    hide CivilFromDaysWide, DaysFromCivil;
    CivilSteps(n - 1);
    DaysOfCivil(n - 1);
    if m < n - 1 {
      CivilMonotone(m, n - 1);
    }
  }

  /** The cut to 32 bits changes the date exactly when the year does not fit. */
  lemma CutExact(n: int)
    ensures CivilFromDays(n) == CivilFromDaysWide(n) <==> -0x8000_0000 <= CivilFromDaysWide(n).year < 0x8000_0000
  {
    hide CivilFromDaysWide;
  }

  /** Days before 1 March of year `y`. */
  function YearStart(y: int): int {
    (y / 400) * 146_097 + DayOfEra(y % 400, 0)
  }

  lemma {:induction false} YearStartGrows(x: int, y: int)
    requires x < y
    ensures YearStart(x) < YearStart(y)
    decreases y - x
  {
    hide DayOfEra, IsLeapYear;
    YearRunsOn(y - 1);
    if x < y - 1 {
      YearStartGrows(x, y - 1);
    }
  }

  /** The same month and day of a later year has a greater day number, leap day or not. */
  lemma LaterYearLaterNumber(c: Date, year: int)
    requires c.year < year
    ensures DaysFromCivil(c) < DaysFromCivil(c.(year := year))
  {
    var later := c.(year := year);
    DaysByParts(c); DaysByParts(later);
    YearStartGrows(MarchYear(c), MarchYear(later));
    assert MarchDay(c) == MarchDay(later);
    hide MarchDay, MarchYear, DaysFromCivil;
  }

  /** A date is before a given one exactly when its day number is below that one's. */
  lemma EarlierNumber(n: int, c: Date)
    requires IsDate(c)
    ensures Earlier(CivilFromDaysWide(n), c) <==> n < DaysFromCivil(c)
  {
    hide CivilFromDaysWide, DaysFromCivil, IsDate;
    CivilOfDays(c);
    if n < DaysFromCivil(c) {
      CivilMonotone(n, DaysFromCivil(c));
    } else if DaysFromCivil(c) < n {
      CivilMonotone(DaysFromCivil(c), n);
    }
  }
}
