/**
  The proleptic Gregorian calendar of the Linux clock: day numbers, civil dates
  and the kernel's broken-down time.

  The reference is the calendar itself: month lengths, leap years and what the
  next day is. The source's conversion from days to dates is wrong in January and
  February; what it returns there, and what that does to reading and setting the
  hardware clock, is stated exactly.
 */
module Calendar {
  import opened Arithmetic
  import opened Wrappers

  /** Division and remainder as C++ has them, truncating toward zero. */
  function TruncDiv(a: int, b: int): int
    requires b > 0
  {
    if a >= 0 then a / b else -((-a) / b)
  }

  function TruncMod(a: int, b: int): int
    requires b > 0
  {
    a - b * TruncDiv(a, b)
  }

  // ---------- the calendar ----------

  datatype Date = Date(year: int, month: nat, day: nat)

  predicate IsLeap(year: int) { (year % 4 == 0 && year % 100 != 0) || year % 400 == 0 }

  function DaysInMonth(year: int, month: nat): nat {
    if month == 2 then (if IsLeap(year) then 29 else 28)
    else if month in {4, 6, 9, 11} then 30 else 31
  }

  predicate ValidDate(d: Date) { 1 <= d.month <= 12 && 1 <= d.day <= DaysInMonth(d.year, d.month) }

  function NextDay(d: Date): Date {
    if d.day < DaysInMonth(d.year, d.month) then d.(day := d.day + 1)
    else if d.month < 12 then Date(d.year, d.month + 1, 1)
    else Date(d.year + 1, 1, 1)
  }

  predicate Before(a: Date, b: Date) {
    a.year < b.year || (a.year == b.year && (a.month < b.month || (a.month == b.month && a.day < b.day)))
  }

  // ---------- the source's conversions ----------

  function Floor(a: int, b: int): int
    requires b > 0
  {
    TruncDiv(if a >= 0 then a else a - (b - 1), b)
  }

  function DayOfEra(yearOfEra: nat, dayOfYear: nat): nat {
    yearOfEra * 365 + yearOfEra / 4 - yearOfEra / 100 + dayOfYear
  }

  function DaysFromCivil(d: Date): int
    requires d.day >= 1
  {
    var year := d.year - (if d.month <= 2 then 1 else 0);
    var era := Floor(year, 400);
    FloorFacts(year, 400);
    var adjustedMonth := if d.month > 2 then d.month - 3 else d.month + 9;
    var dayOfYear := (153 * adjustedMonth + 2) / 5 + d.day - 1;
    era * 146097 + DayOfEra(year - era * 400, dayOfYear) - 719468
  }

  function YearOfEra(dayOfEra: nat): int {
    (dayOfEra - dayOfEra / 1460 + dayOfEra / 36524 - dayOfEra / 146096) / 365
  }

  function CivilFromDays(days: int): Date {
    var shifted := days + 719468;
    var era := Floor(shifted, 146097);
    FloorFacts(shifted, 146097);
    var dayOfEra: nat := shifted - era * 146097;
    var yearOfEra := YearOfEra(dayOfEra);
    Decompose(dayOfEra);
    var year := era * 400 + yearOfEra;
    var dayOfYear := dayOfEra - (365 * yearOfEra + yearOfEra / 4 - yearOfEra / 100);
    var month := (5 * dayOfYear + 2) / 153;
    var day := dayOfYear - (153 * month + 2) / 5 + 1;
    MonthOf(dayOfYear);
    var actualMonth := month + (if month < 10 then 3 else 9);
    Date(year + (if actualMonth <= 2 then 1 else 0), actualMonth, day)
  }

  // ---------- arithmetic of one era ----------

  lemma FloorFacts(a: int, b: int)
    requires b > 0
    ensures Floor(a, b) == a / b
    ensures 0 <= a - Floor(a, b) * b < b
  {
    if a < 0 {
      var n := -(a - (b - 1));
      assert n == b * (n / b) + n % b;
      QuotientIsUnique(a, b, -(n / b), b - 1 - n % b) by {
        assert b * -(n / b) == -(b * (n / b));
      }
    }
  }

  /** The last day of February exists only in the years whose following calendar year is leap. */
  predicate DayExists(yearOfEra: nat, dayOfYear: nat) {
    && yearOfEra < 400 && dayOfYear <= 365
    && (dayOfYear == 365 ==> IsLeap(yearOfEra + 1))
  }

  /** Centuries, four-year cycles and years of an era, counted from March. */
  lemma Parts(c: nat, q: nat, r: nat)
    requires c < 4 && q < 25 && r < 4
    ensures var yearOfEra := 100 * c + 4 * q + r;
            && yearOfEra / 4 == 25 * c + q && yearOfEra / 100 == c
            && (IsLeap(yearOfEra + 1) <==> r == 3 && (q != 24 || c == 3))
  {
    var yearOfEra := 100 * c + 4 * q + r;
    QuotientIsUnique(yearOfEra, 4, 25 * c + q, r);
    QuotientIsUnique(yearOfEra, 100, c, 4 * q + r);
  }

  lemma DayOfEraFrom(c: nat, q: nat, r: nat, dayOfYear: nat)
    requires c < 4 && q < 25 && r < 4
    ensures DayOfEra(100 * c + 4 * q + r, dayOfYear) == 36524 * c + 1461 * q + 365 * r + dayOfYear
  {
    hide IsLeap;
    Parts(c, q, r);
  }

  lemma YearOfEraFrom(c: nat, q: nat, r: nat, dayOfYear: nat)
    requires c < 4 && q < 25 && r < 4 && dayOfYear <= 365
    requires dayOfYear == 365 ==> r == 3 && (q != 24 || c == 3)
    ensures YearOfEra(36524 * c + 1461 * q + 365 * r + dayOfYear) == 100 * c + 4 * q + r
  {
    var yearOfEra := 100 * c + 4 * q + r;
    var dayOfEra := 36524 * c + 1461 * q + 365 * r + dayOfYear;
    var inCycle := 24 * c + q + 365 * r + dayOfYear;
    var k := if inCycle < 1460 then 0 else 1;
    QuotientIsUnique(dayOfEra, 1460, 25 * c + q + k, inCycle - 1460 * k);
    if dayOfEra != 146096 {
      QuotientIsUnique(dayOfEra, 36524, c, dayOfEra - 36524 * c);
      QuotientIsUnique(dayOfEra, 146096, 0, dayOfEra);
      QuotientIsUnique(365 * yearOfEra + dayOfYear - k, 365, yearOfEra, dayOfYear - k);
    }
  }

  lemma YearParts(yearOfEra: nat) returns (c: nat, q: nat, r: nat)
    requires yearOfEra < 400
    ensures c < 4 && q < 25 && r < 4 && yearOfEra == 100 * c + 4 * q + r
  {
    c, q, r := yearOfEra / 100, yearOfEra % 100 / 4, yearOfEra % 4;
  }

  lemma YearOfEraBack(yearOfEra: nat, dayOfYear: nat)
    requires DayExists(yearOfEra, dayOfYear)
    ensures YearOfEra(DayOfEra(yearOfEra, dayOfYear)) == yearOfEra && DayOfEra(yearOfEra, dayOfYear) < 146097
  {
    hide YearOfEra, DayOfEra, IsLeap;
    var c, q, r := YearParts(yearOfEra);
    Parts(c, q, r);
    DayOfEraFrom(c, q, r, dayOfYear);
    YearOfEraFrom(c, q, r, dayOfYear);
  }

  lemma DayParts(dayOfEra: nat) returns (c: nat, q: nat, r: nat, dayOfYear: nat)
    requires dayOfEra < 146097
    ensures c < 4 && q < 25 && r < 4 && dayOfYear <= 365
    ensures dayOfEra == 36524 * c + 1461 * q + 365 * r + dayOfYear
    ensures dayOfYear == 365 ==> r == 3 && (q != 24 || c == 3)
  {
    c := if dayOfEra < 146096 then dayOfEra / 36524 else 3;
    var inCentury := dayOfEra - 36524 * c;
    assert c < 4 && inCentury <= 36524 && (inCentury == 36524 ==> c == 3);
    q := if inCentury < 36524 then inCentury / 1461 else 24;
    var inCycle := inCentury - 1461 * q;
    assert q < 25 && inCycle <= 1460 && (inCycle == 1460 ==> q != 24 || c == 3);
    r := if inCycle < 1460 then inCycle / 365 else 3;
    dayOfYear := inCycle - 365 * r;
  }

  /** Every day of an era is an existing day of one of its years. */
  lemma Decompose(dayOfEra: nat)
    requires dayOfEra < 146097
    ensures var yearOfEra := YearOfEra(dayOfEra);
            && 0 <= yearOfEra < 400
            && 365 * yearOfEra + yearOfEra / 4 - yearOfEra / 100 <= dayOfEra
            && DayExists(yearOfEra, dayOfEra - (365 * yearOfEra + yearOfEra / 4 - yearOfEra / 100))
  {
    hide YearOfEra, IsLeap;
    var c, q, r, dayOfYear := DayParts(dayOfEra);
    Parts(c, q, r);
    YearOfEraFrom(c, q, r, dayOfYear);
  }

  /** Months counted from March, and back. */
  lemma MonthOf(dayOfYear: nat)
    requires dayOfYear <= 365
    ensures var month := (5 * dayOfYear + 2) / 153;
            month <= 11 && dayOfYear - (153 * month + 2) / 5 + 1 >= 1
  {
  }

  // ---------- day numbers count days ----------

  function MarchYear(d: Date): int { d.year - (if d.month <= 2 then 1 else 0) }

  function MarchMonth(d: Date): nat { if d.month > 2 then d.month - 3 else d.month + 9 }

  function DayOfYear(d: Date): nat
    requires d.day >= 1
  {
    (153 * MarchMonth(d) + 2) / 5 + d.day - 1
  }

  lemma LeapRepeats(year: int)
    ensures IsLeap(year % 400 + 1) == IsLeap(year + 1)
  {
    var k, r := year / 400, year % 400;
    assert year == 400 * k + r;
    QuotientIsUnique(year + 1, 4, 100 * k + (r + 1) / 4, (r + 1) % 4);
    QuotientIsUnique(year + 1, 100, 4 * k + (r + 1) / 100, (r + 1) % 100);
    QuotientIsUnique(year + 1, 400, k + (r + 1) / 400, (r + 1) % 400);
  }

  /** A valid date is an existing day of its March-based year, and its month and day can be read off. */
  lemma ValidDayOfYear(d: Date)
    requires ValidDate(d)
    ensures DayOfYear(d) <= 365
    ensures DayOfYear(d) == 365 ==> d.month == 2 && IsLeap(MarchYear(d) + 1)
    ensures var month := (5 * DayOfYear(d) + 2) / 153;
            month == MarchMonth(d) && DayOfYear(d) - (153 * month + 2) / 5 + 1 == d.day
  {
    hide IsLeap;
    var m := MarchMonth(d);
    if m == 0 {} else if m == 1 {} else if m == 2 {} else if m == 3 {} else if m == 4 {} else if m == 5 {}
    else if m == 6 {} else if m == 7 {} else if m == 8 {} else if m == 9 {} else if m == 10 {} else {}
  }

  lemma DaysSplit(d: Date)
    requires d.day >= 1
    ensures DaysFromCivil(d)
         == MarchYear(d) / 400 * 146097 + DayOfEra(MarchYear(d) % 400, DayOfYear(d)) - 719468
  {
    hide DayOfEra;
    FloorFacts(MarchYear(d), 400);
  }

  /** The date the calendar gives a day number. */
  function DateOf(days: int): Date {
    var d := CivilFromDays(days);
    if d.month > 12 then Date(d.year + 1, d.month - 18, d.day) else d
  }

  /** Undoing `DaysFromCivil`, for every valid date. */
  lemma DaysThenDate(d: Date)
    requires ValidDate(d)
    ensures DateOf(DaysFromCivil(d)) == d
  {
    hide IsLeap, DayOfEra, YearOfEra, ValidDate, DaysFromCivil, CivilFromDays;
    ValidDayOfYear(d);
    DaysSplit(d);
    LeapRepeats(MarchYear(d));
    ValidBounds(d);
    YearOfEraBack(MarchYear(d) % 400, DayOfYear(d));
    CivilAt(MarchYear(d) / 400, MarchYear(d) % 400, DayOfYear(d));
  }

  /** The conversion of a day given by its era, year and day of the year. */
  lemma CivilAt(era: int, yearOfEra: nat, dayOfYear: nat)
    requires DayOfEra(yearOfEra, dayOfYear) < 146097 && YearOfEra(DayOfEra(yearOfEra, dayOfYear)) == yearOfEra
    ensures var month := (5 * dayOfYear + 2) / 153;
            var actualMonth := month + (if month < 10 then 3 else 9);
            CivilFromDays(era * 146097 + DayOfEra(yearOfEra, dayOfYear) - 719468)
            == Date(era * 400 + yearOfEra + (if actualMonth <= 2 then 1 else 0), actualMonth,
                    dayOfYear - (153 * month + 2) / 5 + 1)
  {
    hide DayOfEra, YearOfEra, Floor;
    var dayOfEra := DayOfEra(yearOfEra, dayOfYear);
    var shifted := era * 146097 + dayOfEra;
    QuotientIsUnique(shifted, 146097, era, dayOfEra);
    FloorFacts(shifted, 146097);
    DayOfEraDay(yearOfEra, dayOfYear);
  }

  lemma ValidBounds(d: Date)
    requires ValidDate(d)
    ensures 1 <= d.month <= 12 && d.day >= 1
  {
  }

  lemma DayOfEraDay(yearOfEra: nat, dayOfYear: nat)
    ensures DayOfEra(yearOfEra, dayOfYear) - (365 * yearOfEra + yearOfEra / 4 - yearOfEra / 100) == dayOfYear
  {
  }

  /** Undoing `DateOf`, for every day number: each has a valid date. */
  lemma DateThenDays(days: int)
    ensures ValidDate(DateOf(days)) && DaysFromCivil(DateOf(days)) == days
  {
    hide IsLeap, YearOfEra, DaysFromCivil;
    var shifted := days + 719468;
    FloorFacts(shifted, 146097);
    var era := shifted / 146097;
    var dayOfEra: nat := shifted - era * 146097;
    Decompose(dayOfEra);
    var yearOfEra := YearOfEra(dayOfEra);
    var dayOfYear := dayOfEra - (365 * yearOfEra + yearOfEra / 4 - yearOfEra / 100);
    var d := DateOf(days);
    var year := era * 400 + yearOfEra;
    QuotientIsUnique(year, 400, era, yearOfEra);
    LeapRepeats(year);
    ExistingDay(dayOfYear, year, d);
    DaysSplit(d);
  }

  lemma ExistingDay(dayOfYear: nat, year: int, d: Date)
    requires dayOfYear <= 365 && (dayOfYear == 365 ==> IsLeap(year + 1))
    requires var month := (5 * dayOfYear + 2) / 153;
             && d.year == (if month < 10 then year else year + 1)
             && d.month == (if month < 10 then month + 3 else month - 9)
             && d.day == dayOfYear - (153 * month + 2) / 5 + 1
    ensures ValidDate(d) && MarchYear(d) == year && DayOfYear(d) == dayOfYear
  {
    hide IsLeap;
    var m := (5 * dayOfYear + 2) / 153;
    if m == 0 {} else if m == 1 {} else if m == 2 {} else if m == 3 {} else if m == 4 {} else if m == 5 {}
    else if m == 6 {} else if m == 7 {} else if m == 8 {} else if m == 9 {} else if m == 10 {} else {}
  }

  /** The day number of the next day is the next number: `DaysFromCivil` counts days. */
  lemma NextDayIsNext(d: Date)
    requires ValidDate(d)
    ensures ValidDate(NextDay(d)) && DaysFromCivil(NextDay(d)) == DaysFromCivil(d) + 1
  {
    hide DaysFromCivil, DayOfEra, IsLeap;
    var e := NextDay(d);
    NextIsValid(d);
    DaysSplit(d);
    DaysSplit(e);
    if d.month == 2 && e.month == 3 {
      YearTurns(d.year - 1);
    } else {
      DayFollows(MarchYear(d) % 400, DayOfYear(d));
    }
  }

  lemma NextIsValid(d: Date)
    requires ValidDate(d)
    ensures var e := NextDay(d);
            && ValidDate(e)
            && if d.month == 2 && e.month == 3
               then MarchYear(d) == d.year - 1 && MarchYear(e) == d.year && DayOfYear(e) == 0
                    && DayOfYear(d) == if IsLeap(d.year) then 365 else 364
               else MarchYear(e) == MarchYear(d) && DayOfYear(e) == DayOfYear(d) + 1
  {
    hide IsLeap;
    var m := d.month;
    if m == 1 {} else if m == 2 {} else if m == 3 {} else if m == 4 {} else if m == 5 {} else if m == 6 {}
    else if m == 7 {} else if m == 8 {} else if m == 9 {} else if m == 10 {} else if m == 11 {} else {}
  }

  lemma DayFollows(yearOfEra: nat, dayOfYear: nat)
    ensures DayOfEra(yearOfEra, dayOfYear + 1) == DayOfEra(yearOfEra, dayOfYear) + 1
  {
  }

  /** Inside an era, the next March-based year begins behind the last day of this one. */
  lemma YearFollows(yearOfEra: nat)
    requires yearOfEra < 399
    ensures DayOfEra(yearOfEra + 1, 0) == DayOfEra(yearOfEra, if IsLeap(yearOfEra + 1) then 365 else 364) + 1
  {
    hide IsLeap, DayOfEra;
    var c, q, r := YearParts(yearOfEra);
    Parts(c, q, r);
    DayOfEraFrom(c, q, r, if IsLeap(yearOfEra + 1) then 365 else 364);
    if r < 3 {
      DayOfEraFrom(c, q, r + 1, 0);
    } else if q < 24 {
      DayOfEraFrom(c, q + 1, 0, 0);
    } else {
      DayOfEraFrom(c + 1, 0, 0, 0);
    }
  }

  /** The March-based year after `year` begins behind its last day. */
  lemma YearTurns(year: int)
    ensures (year + 1) / 400 * 146097 + DayOfEra((year + 1) % 400, 0)
         == year / 400 * 146097 + DayOfEra(year % 400, if IsLeap(year + 1) then 365 else 364) + 1
  {
    hide IsLeap, DayOfEra;
    var era, yearOfEra := year / 400, year % 400;
    assert year == 400 * era + yearOfEra;
    LeapRepeats(year);
    if yearOfEra == 399 {
      QuotientIsUnique(year + 1, 400, era + 1, 0);
      LastYear();
    } else {
      QuotientIsUnique(year + 1, 400, era, yearOfEra + 1);
      YearFollows(yearOfEra);
    }
  }

  lemma LastYear()
    ensures IsLeap(400) && DayOfEra(399, 365) == 146096 && DayOfEra(0, 0) == 0
  {
  }

  lemma BeforeNext(d: Date)
    requires ValidDate(d)
    ensures Before(d, NextDay(d))
  {
  }

  lemma {:induction false} LaterDayLaterDate(n: int, m: int)
    requires n < m
    ensures Before(DateOf(n), DateOf(m))
    decreases m - n
  {
    hide DateOf, DaysFromCivil, NextDay, ValidDate;
    DateThenDays(m - 1);
    var d := DateOf(m - 1);
    NextDayIsNext(d);
    DaysThenDate(NextDay(d));
    BeforeNext(d);
    if n < m - 1 {
      LaterDayLaterDate(n, m - 1);
    }
  }

  /** `DaysFromCivil` is strictly increasing in date order, and so one-to-one. */
  lemma OrderIsKept(a: Date, b: Date)
    requires ValidDate(a) && ValidDate(b)
    ensures Before(a, b) <==> DaysFromCivil(a) < DaysFromCivil(b)
  {
    hide DateOf, DaysFromCivil, IsLeap;
    DaysThenDate(a);
    DaysThenDate(b);
    var n, m := DaysFromCivil(a), DaysFromCivil(b);
    if n < m {
      LaterDayLaterDate(n, m);
    } else if m < n {
      LaterDayLaterDate(m, n);
    }
  }

  lemma EpochIsDayZero()
    ensures DaysFromCivil(Date(1970, 1, 1)) == 0
  {
  }

  // ---------- what the source's day-to-date conversion returns ----------

  /**
    For every day number: the right date from March to December; in January and
    February the year before and a month eighteen too high.
   */
  lemma CivilFromDaysExactly(days: int)
    ensures var d := DateOf(days);
            CivilFromDays(days) == if d.month >= 3 then d else Date(d.year - 1, d.month + 18, d.day)
  {
    hide CivilFromDays, DaysFromCivil;
    DateThenDays(days);
    CivilMonths(days);
  }

  lemma CivilMonths(days: int)
    ensures var m := CivilFromDays(days).month; 3 <= m <= 12 || 19 <= m <= 20
    ensures CivilFromDays(days).day >= 1
  {
    hide YearOfEra, IsLeap;
    var shifted := days + 719468;
    FloorFacts(shifted, 146097);
    Decompose(shifted - Floor(shifted, 146097) * 146097);
  }

  /** Converting a valid date to days and back gives it back if and only if its month is March or later. */
  lemma DateRoundTripIff(d: Date)
    requires ValidDate(d)
    ensures CivilFromDays(DaysFromCivil(d)) == d <==> d.month >= 3
  {
    hide CivilFromDays, DaysFromCivil, DateOf;
    DaysThenDate(d);
    CivilFromDaysExactly(DaysFromCivil(d));
  }

  /** The other way round: from days to a date and back, again exactly from March on. */
  lemma DaysRoundTripIff(days: int)
    ensures CivilFromDays(days).day >= 1
    ensures DaysFromCivil(CivilFromDays(days)) == days <==> DateOf(days).month >= 3
  {
    hide CivilFromDays, DaysFromCivil, DateOf, DayOfEra, IsLeap;
    CivilFromDaysExactly(days);
    DateThenDays(days);
    CivilMonths(days);
    var d := DateOf(days);
    if d.month <= 2 {
      var wrong := Date(d.year - 1, d.month + 18, d.day);
      DaysSplit(d);
      DaysSplit(wrong);
      DayOfEraShift(MarchYear(d) % 400, DayOfYear(d), DayOfYear(wrong));
    }
  }

  lemma DayOfEraShift(yearOfEra: nat, a: nat, b: nat)
    ensures DayOfEra(yearOfEra, a) - a == DayOfEra(yearOfEra, b) - b
  {
  }

  /** The first day of the epoch is the smallest example. */
  lemma EpochComesOutWrong()
    ensures DateOf(0) == Date(1970, 1, 1) && CivilFromDays(0) == Date(1969, 19, 1)
  {
    DaysThenDate(Date(1970, 1, 1));
    EpochIsDayZero();
    CivilFromDaysExactly(0);
  }

  // ---------- the kernel's broken-down time ----------

  const INT_MIN: int := -0x8000_0000
  const INT_MAX: int := 0x7FFF_FFFF
  const I64_MIN: int := -0x8000_0000_0000_0000
  const I64_MAX: int := 0x7FFF_FFFF_FFFF_FFFF
  const DAY: nat := 86400

  datatype RtcTime = RtcTime(sec: int, min: int, hour: int, mday: int, mon: int, year: int)

  function FloorDays(seconds: int): int {
    TruncDiv(seconds, DAY) - (if TruncMod(seconds, DAY) < 0 then 1 else 0)
  }

  lemma FloorDaysIsFloor(seconds: int)
    ensures FloorDays(seconds) == seconds / DAY
  {
  }

  function ToRtcTime(seconds: int, nanoseconds: nat): Option<RtcTime> {
    if nanoseconds >= 1_000_000_000 then None
    else
      var days := FloorDays(seconds);
      var today := seconds - days * DAY;
      var date := CivilFromDays(days);
      if date.year < INT_MIN + 1900 || date.year > INT_MAX + 1900 then None
      else
        Some(RtcTime(TruncMod(today, 60), TruncDiv(TruncMod(today, 3600), 60), TruncDiv(today, 3600),
                     date.day, date.month - 1, date.year - 1900))
  }

  function FromRtcTime(t: RtcTime): Option<int> {
    if t.sec < 0 || t.sec > 59 || t.min < 0 || t.min > 59 || t.hour < 0 || t.hour > 23
       || t.mon < 0 || t.mon > 11 || t.mday < 1 || t.mday > 31
    then None
    else
      var date := Date(t.year + 1900, t.mon + 1, t.mday);
      var days := DaysFromCivil(date);
      if CivilFromDays(days) == date then Some(days * DAY + t.hour * 3600 + t.min * 60 + t.sec) else None
  }

  /** A broken-down time that names an instant: an existing date and a time of day. */
  predicate Exists(t: RtcTime) {
    && 0 <= t.sec <= 59 && 0 <= t.min <= 59 && 0 <= t.hour <= 23
    && t.mon >= 0 && t.mday >= 1 && ValidDate(Date(t.year + 1900, t.mon + 1, t.mday))
  }

  lemma DateOfInvalid(d: Date)
    requires 1 <= d.month <= 12 && 1 <= d.day <= 31
    ensures CivilFromDays(DaysFromCivil(d)) == d ==> ValidDate(d)
  {
    hide CivilFromDays, DaysFromCivil, IsLeap;
    DateThenDays(DaysFromCivil(d));
    CivilFromDaysExactly(DaysFromCivil(d));
  }

  /**
    Reading the hardware clock: a time is accepted if and only if it exists and lies
    in March or later, and its seconds are then those of the calendar.
   */
  lemma FromRtcTimeAcceptsIff(t: RtcTime)
    ensures FromRtcTime(t).Some? <==> Exists(t) && t.mon >= 2
    ensures FromRtcTime(t).Some? ==>
              FromRtcTime(t).value
              == DaysFromCivil(Date(t.year + 1900, t.mon + 1, t.mday)) * DAY + t.hour * 3600 + t.min * 60 + t.sec
  {
    hide CivilFromDays, DaysFromCivil, IsLeap;
    if 0 <= t.mon <= 11 && 1 <= t.mday <= 31 {
      var date := Date(t.year + 1900, t.mon + 1, t.mday);
      DateOfInvalid(date);
      if ValidDate(date) {
        DateRoundTripIff(date);
      }
    }
  }

  lemma TimeOfDay(today: nat)
    requires today < DAY
    ensures var h, m, s := TruncDiv(today, 3600), TruncDiv(TruncMod(today, 3600), 60), TruncMod(today, 60);
            0 <= h <= 23 && 0 <= m <= 59 && 0 <= s <= 59 && h * 3600 + m * 60 + s == today
  {
    var h := today / 3600;
    var rest := today - 3600 * h;
    var m := rest / 60;
    QuotientIsUnique(today, 60, 60 * h + m, rest - 60 * m);
  }

  lemma TodayIsInDay(seconds: int)
    ensures 0 <= seconds - seconds / DAY * DAY < DAY
  {
  }

  /**
    Setting the clock and reading it back: whenever the year fits, an instant comes
    back unchanged if and only if its date is in March or later. In January and
    February what was set is refused.
   */
  lemma ClockRoundTripIff(seconds: int, nanoseconds: nat)
    requires ToRtcTime(seconds, nanoseconds).Some?
    ensures var back := FromRtcTime(ToRtcTime(seconds, nanoseconds).value);
            && (back == Some(seconds) <==> DateOf(seconds / DAY).month >= 3)
            && (back.None? <==> DateOf(seconds / DAY).month <= 2)
  {
    hide CivilFromDays, DaysFromCivil, IsLeap, DateOf, FromRtcTime, TruncDiv, TruncMod, FloorDays;
    FloorDaysIsFloor(seconds);
    var days := seconds / DAY;
    TodayIsInDay(seconds);
    TimeOfDay(seconds - days * DAY);
    CivilFromDaysExactly(days);
    DateThenDays(days);
    FromRtcTimeAcceptsIff(ToRtcTime(seconds, nanoseconds).value);
  }

  /** The times this covers: everything whose nanoseconds and year fit. */
  lemma ToRtcTimeAcceptsIff(seconds: int, nanoseconds: nat)
    ensures var d := DateOf(seconds / DAY);
            ToRtcTime(seconds, nanoseconds).Some?
            <==> nanoseconds < 1_000_000_000
                 && INT_MIN + 1900 <= (if d.month >= 3 then d.year else d.year - 1) <= INT_MAX + 1900
  {
    hide CivilFromDays, DateOf;
    FloorDaysIsFloor(seconds);
    CivilFromDaysExactly(seconds / DAY);
  }

  /** What the kernel is handed: the true time of day, and the date the conversion makes of the day. */
  lemma BrokenDown(seconds: int, nanoseconds: nat)
    requires ToRtcTime(seconds, nanoseconds).Some?
    ensures var t, d := ToRtcTime(seconds, nanoseconds).value, DateOf(seconds / DAY);
            && 0 <= t.hour <= 23 && 0 <= t.min <= 59 && 0 <= t.sec <= 59
            && t.hour * 3600 + t.min * 60 + t.sec == seconds % DAY && t.mday == d.day
            && (if d.month >= 3 then t.mon + 1 == d.month && t.year + 1900 == d.year
                else t.mon + 1 == d.month + 18 && t.year + 1900 == d.year - 1)
  {
    hide CivilFromDays, DateOf, TruncDiv, TruncMod, FloorDays;
    FloorDaysIsFloor(seconds);
    TodayIsInDay(seconds);
    TimeOfDay(seconds - seconds / DAY * DAY);
    CivilFromDaysExactly(seconds / DAY);
  }

  // ---------- the STM32 clocks invert the day number by searching ----------

  lemma SameMonth(d: Date, day: nat)
    requires d.day >= 1 && day >= 1
    ensures DaysFromCivil(d.(day := day)) == DaysFromCivil(d) + day - d.day
  {
    hide DaysFromCivil, DayOfEra;
    var e := d.(day := day);
    DaysSplit(d);
    DaysSplit(e);
    DayOfEraShift(MarchYear(d) % 400, DayOfYear(d), DayOfYear(e));
  }

  /** A day number falls into a month's stretch of numbers if and only if its date is in that month. */
  lemma InMonthIff(days: int, year: int, month: nat)
    requires 1 <= month <= 12
    ensures var first := DaysFromCivil(Date(year, month, 1));
            && (first <= days < first + DaysInMonth(year, month)
                <==> DateOf(days).year == year && DateOf(days).month == month)
            && (first <= days < first + DaysInMonth(year, month) ==> DateOf(days).day == days - first + 1)
  {
    hide DateOf, DaysFromCivil, IsLeap;
    var first := Date(year, month, 1);
    var d := DateOf(days);
    DateThenDays(days);
    SameMonth(d, 1);
    if DaysFromCivil(first) <= days < DaysFromCivil(first) + DaysInMonth(year, month) {
      var day := days - DaysFromCivil(first) + 1;
      SameMonth(first, day);
      DaysThenDate(first.(day := day));
    }
  }

  datatype SplitTime = SplitTime(date: Date, hour: int, minute: int, second: int)

  /**
    `split`: exactly the instants of the years 2000 to 2099 are accepted, and the
    search returns their true date and time of day, January and February included.
   */
  method Split(seconds: int, nanoseconds: nat) returns (r: Option<SplitTime>)
    ensures r.Some? <==> nanoseconds < 1_000_000_000 && 2000 <= DateOf(seconds / DAY).year <= 2099
    ensures r.Some? ==>
              var t := r.value;
              && t.date == DateOf(seconds / DAY) && ValidDate(t.date)
              && 0 <= t.hour <= 23 && 0 <= t.minute <= 59 && 0 <= t.second <= 59
              && DaysFromCivil(t.date) * DAY + t.hour * 3600 + t.minute * 60 + t.second == seconds
  {
    hide DateOf, DaysFromCivil, DaysInMonth, TruncDiv, TruncMod;
    if nanoseconds >= 1_000_000_000 {
      return None;
    }
    var days := TruncDiv(seconds, DAY);
    var remainder := TruncMod(seconds, DAY);
    if remainder < 0 {
      days := days - 1;
      remainder := remainder + DAY;
    }
    FloorDaysIsFloor(seconds);
    RemainderOfDay(seconds);
    TimeOfDay(remainder);
    DateThenDays(days);
    for year := 2000 to 2100
      invariant DateOf(days).year < 2000 || DateOf(days).year >= year
    {
      for month := 1 to 13
        invariant DateOf(days).year == year ==> DateOf(days).month >= month
      {
        var first := DaysFromCivil(Date(year, month, 1));
        var length := DaysInMonth(year, month);
        InMonthIff(days, year, month);
        if first <= days < first + length {
          return Some(SplitTime(Date(year, month, days - first + 1), TruncDiv(remainder, 3600),
                                TruncDiv(TruncMod(remainder, 3600), 60), TruncMod(remainder, 60)));
        }
      }
      ValidBounds(DateOf(days));
    }
    return None;
  }

  lemma RemainderOfDay(seconds: int)
    ensures var r := TruncMod(seconds, DAY);
            var days := TruncDiv(seconds, DAY) - (if r < 0 then 1 else 0);
            days == seconds / DAY && 0 <= (if r < 0 then r + DAY else r) < DAY
            && days * DAY + (if r < 0 then r + DAY else r) == seconds
  {
  }

  /** No intermediate value of the Linux conversions leaves 64 bits for any 64-bit number of seconds. */
  lemma FitsInt64(seconds: int)
    requires I64_MIN <= seconds <= I64_MAX
    ensures I64_MIN <= FloorDays(seconds) + 719468 - 146096 && FloorDays(seconds) + 719468 <= I64_MAX
    ensures var d := CivilFromDays(FloorDays(seconds));
            I64_MIN <= d.year - 400 && d.year + 400 <= I64_MAX
  {
    hide YearOfEra, IsLeap;
    FloorDaysIsFloor(seconds);
    var shifted := FloorDays(seconds) + 719468;
    FloorFacts(shifted, 146097);
    Decompose(shifted - Floor(shifted, 146097) * 146097);
  }

  /** Nor does any for a broken-down time: the days, their product with a day's seconds, and the sum all fit. */
  lemma BrokenDownFitsInt64(t: RtcTime)
    requires INT_MIN <= t.year <= INT_MAX && 0 <= t.mon <= 11 && 1 <= t.mday <= 31
    requires 0 <= t.hour <= 23 && 0 <= t.min <= 59 && 0 <= t.sec <= 59
    ensures var year, days := t.year + 1900, DaysFromCivil(Date(t.year + 1900, t.mon + 1, t.mday));
            && I64_MIN <= year - 400 && year <= I64_MAX
            && I64_MIN <= days * DAY && days * DAY + t.hour * 3600 + t.min * 60 + t.sec <= I64_MAX
            && I64_MIN <= days + 719468 - 146096 && days + 719468 <= I64_MAX
  {
    var d := Date(t.year + 1900, t.mon + 1, t.mday);
    var year := d.year - (if d.month <= 2 then 1 else 0);
    var era := Floor(year, 400);
    FloorFacts(year, 400);
    assert -5_368_710 <= era <= 5_368_714;
    var adjustedMonth := if d.month > 2 then d.month - 3 else d.month + 9;
    assert 0 <= (153 * adjustedMonth + 2) / 5 + d.day - 1 <= 367;
    assert 0 <= DayOfEra(year - era * 400, (153 * adjustedMonth + 2) / 5 + d.day - 1) <= 146_463;
  }
}
