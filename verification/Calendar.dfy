/** Days since 1970-01-01 and proleptic Gregorian dates, in both directions. */
module Calendar {
  import opened Machine

  const MICROS_PER_DAY := 86_400_000_000

  datatype CivilDate = CivilDate(year: int, month: int, day: int)

  /** The date that lies so many days after 1 January 1970. */
  function CivilFromDays(days: int): CivilDate {
    var shifted := days + 719_468;
    var era := Quot(if shifted >= 0 then shifted else shifted - 146_096, 146_097);
    DateOfEra(era, shifted - era * 146_097)
  }

  function DateOfEra(era: int, dayOfEra: int): CivilDate {
    var yearOfEra := YearOfEra(dayOfEra);
    DateOfYear(yearOfEra + era * 400, dayOfEra - (365 * yearOfEra + yearOfEra / 4 - yearOfEra / 100))
  }

  /** In years and days counted from the first of March. */
  function DateOfYear(year: int, dayOfYear: int): CivilDate {
    var monthPrime := (5 * dayOfYear + 2) / 153;
    var day := dayOfYear - (153 * monthPrime + 2) / 5 + 1;
    var month := if monthPrime < 10 then monthPrime + 3 else monthPrime - 9;
    CivilDate(if month <= 2 then year + 1 else year, month, day)
  }

  function YearOfEra(dayOfEra: int): int {
    (dayOfEra - dayOfEra / 1460 + dayOfEra / 36_524 - dayOfEra / 146_096) / 365
  }

  /** How many days after 1 January 1970 a date lies. */
  function DaysFromCivil(date: CivilDate): int {
    var year := if date.month <= 2 then date.year - 1 else date.year;
    var era := Quot(if year >= 0 then year else year - 399, 400);
    var yearOfEra := year - era * 400;
    var monthPrime := if date.month > 2 then date.month - 3 else date.month + 9;
    var dayOfYear := (153 * monthPrime + 2) / 5 + date.day - 1;
    var dayOfEra := yearOfEra * 365 + yearOfEra / 4 - yearOfEra / 100 + dayOfYear;
    era * 146_097 + dayOfEra - 719_468
  }

  // ---------------------------------------------------------------- the calendar, as it is written down

  predicate IsLeap(year: int) {
    year % 4 == 0 && (year % 100 != 0 || year % 400 == 0)
  }

  function DaysInMonth(year: int, month: int): int {
    if month == 2 then (if IsLeap(year) then 29 else 28)
    else if month == 4 || month == 6 || month == 9 || month == 11 then 30
    else 31
  }

  predicate ValidDate(date: CivilDate) {
    1 <= date.month <= 12 && 1 <= date.day <= DaysInMonth(date.year, date.month)
  }

  function NextDay(date: CivilDate): CivilDate {
    if date.day < DaysInMonth(date.year, date.month) then date.(day := date.day + 1)
    else if date.month < 12 then CivilDate(date.year, date.month + 1, 1)
    else CivilDate(date.year + 1, 1, 1)
  }

  // ---------------------------------------------------------------- years that start in March

  /** Days before the March that opens `year`, counted from March of year 0. */
  function YearStart(year: int): int {
    365 * year + year / 4 - year / 100 + year / 400
  }

  /** The length of the year that opens in March of `year`: its February belongs to the next year. */
  function YearLength(year: int): int {
    if IsLeap(year + 1) then 366 else 365
  }

  function MonthStart(monthPrime: int): int {
    (153 * monthPrime + 2) / 5
  }

  /** A year of an era as century, four-year cycle and year of the cycle. */
  lemma CyclesOfYear(c: int, q: int, k: int)
    requires 0 <= c < 4 && 0 <= q < 25 && 0 <= k < 4
    ensures var y := 100 * c + 4 * q + k; y / 4 == 25 * c + q && y / 100 == c && y / 400 == 0
    ensures var y := 100 * c + 4 * q + k; IsLeap(y + 1) <==> k == 3 && (q < 24 || c == 3)
  {
    var y := 100 * c + 4 * q + k;
    DivIs(y, 4, 25 * c + q);
    DivIs(y, 100, c);
    if k == 3 {
      assert y + 1 == 100 * c + 4 * (q + 1);
    }
  }

  /** On every day but the last of an era, with the quotients known. */
  lemma ClosedForm(dayOfEra: int, quads: int, c: int, y: int, within: int)
    requires dayOfEra / 1460 == quads && dayOfEra / 36_524 == c && dayOfEra / 146_096 == 0
    requires dayOfEra - quads + c == 365 * y + within && 0 <= within < 365
    ensures YearOfEra(dayOfEra) == y
  {
    DivIs(365 * y + within, 365, y);
  }

  lemma QuadsOfDay(c: int, q: int, k: int, within: int)
    requires 0 <= c < 4 && 0 <= q < 25 && 0 <= k < 4 && 0 <= within <= 365
    ensures (36_524 * c + 1461 * q + 365 * k + within) / 1460
            == 25 * c + q + if 24 * c + q + 365 * k + within >= 1460 then 1 else 0
  {
    var rest := 24 * c + q + 365 * k + within;
    assert 36_524 * c + 1461 * q + 365 * k + within == (25 * c + q) * 1460 + rest;
    DivIs((25 * c + q) * 1460 + rest, 1460, 25 * c + q + if rest >= 1460 then 1 else 0);
  }

  lemma CenturyOfDay(c: int, q: int, k: int, within: int)
    requires 0 <= c < 4 && 0 <= q < 25 && 0 <= k < 4 && 0 <= within <= 365
    requires within == 365 ==> k == 3 && (q < 24 || c == 3)
    ensures var day := 36_524 * c + 1461 * q + 365 * k + within;
            0 <= day <= 146_096 && (day < 146_096 ==> day / 36_524 == c && day / 146_096 == 0)
  {
    var day := 36_524 * c + 1461 * q + 365 * k + within;
    if day < 146_096 {
      DivIs(day, 36_524, c);
      DivIs(day, 146_096, 0);
    }
  }

  /** The closed form of the year of an era is right on every day of every year. */
  lemma YearOfEraIs(c: int, q: int, k: int, dayOfYear: int)
    requires 0 <= c < 4 && 0 <= q < 25 && 0 <= k < 4
    requires var y := 100 * c + 4 * q + k; 0 <= dayOfYear < YearLength(y)
    ensures YearOfEra(36_524 * c + 1461 * q + 365 * k + dayOfYear) == 100 * c + 4 * q + k
  {
    CyclesOfYear(c, q, k);
    var y := 100 * c + 4 * q + k;
    assert YearLength(y) == if k == 3 && (q < 24 || c == 3) then 366 else 365;
    hide YearLength, IsLeap;
    QuadsOfDay(c, q, k, dayOfYear);
    CenturyOfDay(c, q, k, dayOfYear);
    var dayOfEra := 36_524 * c + 1461 * q + 365 * k + dayOfYear;
    if dayOfEra == 146_096 {
      assert YearOfEra(146_096) == 399;
    } else {
      hide YearOfEra;
      var extra := if 24 * c + q + 365 * k + dayOfYear >= 1460 then 1 else 0;
      ClosedForm(dayOfEra, 25 * c + q + extra, c, y, dayOfYear - extra);
    }
  }

  /** Every day of an era lies in one of its years. */
  lemma YearOfDay(dayOfEra: int) returns (c: int, q: int, k: int, dayOfYear: int)
    requires 0 <= dayOfEra < 146_097
    ensures 0 <= c < 4 && 0 <= q < 25 && 0 <= k < 4
    ensures dayOfEra == 36_524 * c + 1461 * q + 365 * k + dayOfYear
    ensures 0 <= dayOfYear < YearLength(100 * c + 4 * q + k)
  {
    c := if dayOfEra == 146_096 then 3 else dayOfEra / 36_524;
    var inCentury := dayOfEra - 36_524 * c;
    q := inCentury / 1461;
    var inCycle := inCentury - 1461 * q;
    k := if inCycle == 1460 then 3 else inCycle / 365;
    dayOfYear := inCycle - 365 * k;
    CyclesOfYear(c, q, k);
  }

  lemma CyclesOf(y: int) returns (c: int, q: int, k: int)
    requires 0 <= y < 400
    ensures 0 <= c < 4 && 0 <= q < 25 && 0 <= k < 4 && y == 100 * c + 4 * q + k
  {
    c := y / 100;
    q := (y - 100 * c) / 4;
    k := y - 100 * c - 4 * q;
  }

  // ---------------------------------------------------------------- months

  /** The March-based number of a month. */
  function MonthPrime(month: int): int {
    if month > 2 then month - 3 else month + 9
  }

  function MarchYear(date: CivilDate): int {
    if date.month <= 2 then date.year - 1 else date.year
  }

  function DayOfYear(date: CivilDate): int {
    MonthStart(MonthPrime(date.month)) + date.day - 1
  }

  lemma MonthStarts()
    ensures MonthStart(0) == 0 && MonthStart(1) == 31 && MonthStart(2) == 61 && MonthStart(3) == 92
    ensures MonthStart(4) == 122 && MonthStart(5) == 153 && MonthStart(6) == 184 && MonthStart(7) == 214
    ensures MonthStart(8) == 245 && MonthStart(9) == 275 && MonthStart(10) == 306 && MonthStart(11) == 337
  {
  }

  /** A valid date lies in its March-based year, and its month is recovered from the day of that year. */
  lemma MonthIsRecovered(date: CivilDate)
    requires ValidDate(date)
    ensures 0 <= DayOfYear(date) < YearLength(MarchYear(date))
    ensures (5 * DayOfYear(date) + 2) / 153 == MonthPrime(date.month)
  {
    MonthStarts();
    DivIs(5 * DayOfYear(date) + 2, 153, MonthPrime(date.month));
  }

  /** Every day of a March-based year is a day of one of its months. */
  lemma MonthOfDay(year: int, dayOfYear: int) returns (date: CivilDate)
    requires 0 <= dayOfYear < YearLength(year)
    ensures ValidDate(date) && MarchYear(date) == year && DayOfYear(date) == dayOfYear
  {
    MonthStarts();
    var m := if dayOfYear < 31 then 0 else if dayOfYear < 61 then 1 else if dayOfYear < 92 then 2
             else if dayOfYear < 122 then 3 else if dayOfYear < 153 then 4 else if dayOfYear < 184 then 5
             else if dayOfYear < 214 then 6 else if dayOfYear < 245 then 7 else if dayOfYear < 275 then 8
             else if dayOfYear < 306 then 9 else if dayOfYear < 337 then 10 else 11;
    var month := if m < 10 then m + 3 else m - 9;
    date := CivilDate(if month <= 2 then year + 1 else year, month, dayOfYear - MonthStart(m) + 1);
  }

  // ---------------------------------------------------------------- eras

  /** The adjusted truncating division of the source is the floor. */
  lemma QuotIsFloor(a: int, b: int)
    requires b > 0
    ensures Quot(if a >= 0 then a else a - (b - 1), b) == a / b
  {
    if a < 0 {
      var q := a / b;
      assert q * b <= a < q * b + b;
      assert (-q) * b == -(q * b);
      DivIs(-(a - (b - 1)), b, -q);
    }
  }

  /** 400 years are 146,097 days. */
  lemma YearStartByEra(era: int, y: int)
    requires 0 <= y < 400
    ensures YearStart(400 * era + y) == 146_097 * era + 365 * y + y / 4 - y / 100
  {
    ShiftByMultiple(y, 400, era);
    ShiftByMultiple(y, 100, 4 * era);
    ShiftByMultiple(y, 4, 100 * era);
  }

  lemma DaysFromCivilIs(date: CivilDate)
    ensures DaysFromCivil(date) == YearStart(MarchYear(date)) + DayOfYear(date) - 719_468
  {
    var year := MarchYear(date);
    QuotIsFloor(year, 400);
    YearStartByEra(year / 400, year % 400);
  }

  /** Leap years repeat every 400 years. */
  lemma YearLengthByEra(era: int, y: int)
    ensures YearLength(400 * era + y) == YearLength(y)
  {
    ShiftByMultiple(y + 1, 400, era);
    ShiftByMultiple(y + 1, 100, 4 * era);
    ShiftByMultiple(y + 1, 4, 100 * era);
  }

  // ---------------------------------------------------------------- main results

  /** A date is found from its March-based year and day. */
  lemma DateOfYearIs(date: CivilDate)
    requires ValidDate(date)
    ensures DateOfYear(MarchYear(date), DayOfYear(date)) == date
  {
    hide IsLeap;
    MonthIsRecovered(date);
    var monthPrime := MonthPrime(date.month);
    assert (153 * monthPrime + 2) / 5 == MonthStart(monthPrime);
  }

  /** The date of a day of an era given by cycles and day of the year. */
  lemma DateOfEraIs(era: int, c: int, q: int, k: int, date: CivilDate)
    requires 0 <= c < 4 && 0 <= q < 25 && 0 <= k < 4
    requires ValidDate(date) && MarchYear(date) == 400 * era + 100 * c + 4 * q + k
    ensures DateOfEra(era, 36_524 * c + 1461 * q + 365 * k + DayOfYear(date)) == date
    ensures 0 <= 36_524 * c + 1461 * q + 365 * k + DayOfYear(date) < 146_097
  {
    hide ValidDate, YearLength, YearOfEra, IsLeap, DaysInMonth, MarchYear, DayOfYear, DateOfYear;
    MonthIsRecovered(date);
    YearLengthByEra(era, 100 * c + 4 * q + k);
    CyclesOfYear(c, q, k);
    YearOfEraIs(c, q, k, DayOfYear(date));
    DayOfEraIsBounded(c, q, k, DayOfYear(date));
    DateOfYearIs(date);
  }

  lemma EraIs(shifted: int, era: int, dayOfEra: int)
    requires shifted == era * 146_097 + dayOfEra && 0 <= dayOfEra < 146_097
    ensures Quot(if shifted >= 0 then shifted else shifted - 146_096, 146_097) == era
  {
    hide Quot;
    QuotIsFloor(shifted, 146_097);
    DivIs(shifted, 146_097, era);
  }

  /** The civil date of a day given by era, cycles and day of the year. */
  lemma CivilOfParts(days: int, era: int, c: int, q: int, k: int, date: CivilDate)
    requires 0 <= c < 4 && 0 <= q < 25 && 0 <= k < 4
    requires ValidDate(date) && MarchYear(date) == 400 * era + 100 * c + 4 * q + k
    requires days + 719_468 == 146_097 * era + 36_524 * c + 1461 * q + 365 * k + DayOfYear(date)
    ensures CivilFromDays(days) == date
  {
    hide ValidDate, Quot, MarchYear, DayOfYear, DateOfEra;
    var dayOfEra := 36_524 * c + 1461 * q + 365 * k + DayOfYear(date);
    DateOfEraIs(era, c, q, k, date);
    EraIs(days + 719_468, era, dayOfEra);
    assert days + 719_468 - era * 146_097 == dayOfEra;
  }

  lemma DayOfEraIsBounded(c: int, q: int, k: int, dayOfYear: int)
    requires 0 <= c < 4 && 0 <= q < 25 && 0 <= k < 4
    requires 0 <= dayOfYear < YearLength(100 * c + 4 * q + k)
    ensures 0 <= 36_524 * c + 1461 * q + 365 * k + dayOfYear < 146_097
  {
    CyclesOfYear(c, q, k);
  }

  /** From a valid date to a count of days and back. */
  lemma DateRoundTrip(date: CivilDate)
    requires ValidDate(date)
    ensures CivilFromDays(DaysFromCivil(date)) == date
  {
    hide CivilFromDays, DaysFromCivil, ValidDate, YearStart, IsLeap;
    var year := MarchYear(date);
    var era, y := year / 400, year % 400;
    DaysFromCivilIs(date);
    YearStartByEra(era, y);
    var c, q, k := CyclesOf(y);
    CyclesOfYear(c, q, k);
    CivilOfParts(DaysFromCivil(date), era, c, q, k, date);
  }

  /** Every count of days is the count of some valid date. */
  lemma DateOf(days: int) returns (date: CivilDate)
    ensures ValidDate(date) && DaysFromCivil(date) == days
  {
    var era, dayOfEra := (days + 719_468) / 146_097, (days + 719_468) % 146_097;
    var c, q, k, dayOfYear := YearOfDay(dayOfEra);
    var y := 100 * c + 4 * q + k;
    CyclesOfYear(c, q, k);
    YearLengthByEra(era, y);
    date := MonthOfDay(400 * era + y, dayOfYear);
    DaysFromCivilIs(date);
    YearStartByEra(era, y);
  }

  /** From any count of days to a date, which is valid, and back. */
  lemma DaysRoundTrip(days: int)
    ensures ValidDate(CivilFromDays(days)) && DaysFromCivil(CivilFromDays(days)) == days
  {
    var date := DateOf(days);
    DateRoundTrip(date);
  }

  /** A day that no month has longer than 31 days can hold comes back exactly when its own month has it. */
  lemma LooseDateRoundTrip(date: CivilDate)
    requires 1 <= date.month <= 12 && 1 <= date.day <= 31
    ensures CivilFromDays(DaysFromCivil(date)) == date <==> date.day <= DaysInMonth(date.year, date.month)
  {
    DaysRoundTrip(DaysFromCivil(date));
    if date.day <= DaysInMonth(date.year, date.month) {
      DateRoundTrip(date);
    }
  }

  lemma YearStartGrows(year: int)
    ensures YearStart(year + 1) == YearStart(year) + YearLength(year)
  {
    var n := year + 1;
    assert n / 4 - year / 4 == if n % 4 == 0 then 1 else 0;
    assert n / 100 - year / 100 == if n % 100 == 0 then 1 else 0;
    assert n / 400 - year / 400 == if n % 400 == 0 then 1 else 0;
    assert n % 400 == 0 ==> n % 100 == 0;
    assert n % 100 == 0 ==> n % 4 == 0;
  }

  lemma NextMonthIsOneMore(date: CivilDate)
    requires ValidDate(date) && date.day == DaysInMonth(date.year, date.month)
    ensures var next := NextDay(date);
            if date.month == 2 then
              MarchYear(next) == MarchYear(date) + 1 && DayOfYear(next) == 0
              && DayOfYear(date) + 1 == YearLength(MarchYear(date))
            else
              MarchYear(next) == MarchYear(date) && DayOfYear(next) == DayOfYear(date) + 1
  {
    MonthStarts();
  }

  lemma NextDayIsOneMore(date: CivilDate)
    requires ValidDate(date)
    ensures ValidDate(NextDay(date)) && DaysFromCivil(NextDay(date)) == DaysFromCivil(date) + 1
  {
    hide DaysFromCivil, YearStart, YearLength, IsLeap, MonthStart;
    DaysFromCivilIs(date);
    DaysFromCivilIs(NextDay(date));
    if date.day == DaysInMonth(date.year, date.month) {
      NextMonthIsOneMore(date);
      YearStartGrows(MarchYear(date));
    }
  }

  /** Consecutive counts are consecutive days, and count 0 is 1 January 1970. */
  lemma DaysFollowTheCalendar(days: int)
    ensures CivilFromDays(days + 1) == NextDay(CivilFromDays(days))
    ensures CivilFromDays(0) == CivilDate(1970, 1, 1)
  {
    hide CivilFromDays, DaysFromCivil, ValidDate, NextDay;
    DaysRoundTrip(days);
    NextDayIsOneMore(CivilFromDays(days));
    DateRoundTrip(NextDay(CivilFromDays(days)));
    EpochDate();
  }

  lemma EpochDate()
    ensures CivilFromDays(0) == CivilDate(1970, 1, 1)
  {
  }
}
