/** The civil-day algorithm: proleptic Gregorian dates as day numbers since 1970-01-01. */
module Calendar {

  datatype Civil = Civil(year: int, month: int, day: int)

  predicate IsLeapYear(year: int) {
    (year % 4 == 0 && year % 100 != 0) || year % 400 == 0
  }

  function DaysInMonth(year: int, month: int): int {
    if month in {1, 3, 5, 7, 8, 10, 12} then 31
    else if month in {4, 6, 9, 11} then 30
    else if month == 2 then (if IsLeapYear(year) then 29 else 28)
    else 0
  }

  predicate ValidCivil(c: Civil) {
    1 <= c.month <= 12 && 1 <= c.day <= DaysInMonth(c.year, c.month)
  }

  /** Machine division: truncates toward zero, where Dafny's own `/` rounds down. */
  function TruncDiv(a: int, b: int): int
    requires b > 0
  {
    if a >= 0 then a / b else -((-a) / b)
  }

  /** Only the era division sees a negative operand; every later one is on naturals. */
  function DaysFromCivil(c: Civil): int {
    var y := if c.month <= 2 then c.year - 1 else c.year;
    var era := TruncDiv(if y >= 0 then y else y - 399, 400);
    var yoe := y - era * 400;
    var mp := (c.month + 9) % 12;
    var doy := (153 * mp + 2) / 5 + c.day - 1;
    var doe := yoe * 365 + yoe / 4 - yoe / 100 + doy;
    era * 146097 + doe - 719468
  }

  function CivilFromDays(days: int): Civil {
    var z := days + 719468;
    var era := TruncDiv(if z >= 0 then z else z - 146096, 146097);
    CivilInEra(era, z - era * 146097)
  }

  function CivilInEra(era: int, doe: int): Civil {
    var yoe := (doe - doe / 1460 + doe / 36524 - doe / 146096) / 365;
    var year := yoe + era * 400;
    var doy := doe - (365 * yoe + yoe / 4 - yoe / 100);
    var mp := (5 * doy + 2) / 153;
    var day := doy - (153 * mp + 2) / 5 + 1;
    var month := if mp < 10 then mp + 3 else mp - 9;
    Civil(if month <= 2 then year + 1 else year, month, day)
  }

  // ---- The March-based year both directions share ----

  /** The year that starts on 1 March and contains the date. */
  function MarchYear(c: Civil): int {
    if c.month <= 2 then c.year - 1 else c.year
  }

  /** Days from the epoch of the algorithm to 1 March of year `y`. */
  function MarchStart(y: int): int {
    365 * y + y / 4 - y / 100 + y / 400
  }

  function MonthIndex(month: int): int {
    if month <= 2 then month + 9 else month - 3
  }

  function MonthStart(mp: int): int {
    (153 * mp + 2) / 5
  }

  function DayOfMarchYear(c: Civil): int {
    MonthStart(MonthIndex(c.month)) + c.day - 1
  }

  lemma MarchStartSplit(era: int, yoe: int)
    requires 0 <= yoe < 400
    ensures MarchStart(400 * era + yoe) == era * 146097 + yoe * 365 + yoe / 4 - yoe / 100
  {
    var y := 400 * era + yoe;
    assert y / 4 == 100 * era + yoe / 4;
    assert y / 100 == 4 * era + yoe / 100;
    assert y / 400 == era;
  }

  lemma DaysFromCivilSplit(c: Civil)
    requires 1 <= c.month <= 12
    ensures DaysFromCivil(c) == MarchStart(MarchYear(c)) + DayOfMarchYear(c) - 719468
  {
    var y := MarchYear(c);
    var era := TruncDiv(if y >= 0 then y else y - 399, 400);
    assert era == y / 400;
    assert (c.month + 9) % 12 == MonthIndex(c.month);
    MarchStartSplit(era, y - era * 400);
  }

  lemma DayOfMarchYearBounds(c: Civil)
    requires ValidCivil(c)
    ensures 0 <= DayOfMarchYear(c) <= 365
    ensures DayOfMarchYear(c) < MarchStart(MarchYear(c) + 1) - MarchStart(MarchYear(c))
  {
    MarchYearLength(MarchYear(c));
    MonthStarts();
  }

  lemma MonthStarts()
    ensures MonthStart(0) == 0 && MonthStart(1) == 31 && MonthStart(2) == 61 && MonthStart(3) == 92
    ensures MonthStart(4) == 122 && MonthStart(5) == 153 && MonthStart(6) == 184 && MonthStart(7) == 214
    ensures MonthStart(8) == 245 && MonthStart(9) == 275 && MonthStart(10) == 306 && MonthStart(11) == 337
  {
  }

  lemma MarchYearLength(y: int)
    ensures MarchStart(y + 1) - MarchStart(y) == if IsLeapYear(y + 1) then 366 else 365
  {
    FourthYear(y);
    HundredthYear(y);
    FourHundredthYear(y);
    DivisibleDown(y + 1);
  }

  lemma FourthYear(y: int)
    ensures (y + 1) / 4 - y / 4 == if (y + 1) % 4 == 0 then 1 else 0
  {
  }

  lemma HundredthYear(y: int)
    ensures (y + 1) / 100 - y / 100 == if (y + 1) % 100 == 0 then 1 else 0
  {
  }

  lemma FourHundredthYear(y: int)
    ensures (y + 1) / 400 - y / 400 == if (y + 1) % 400 == 0 then 1 else 0
  {
  }

  lemma DivisibleDown(y: int)
    ensures y % 400 == 0 ==> y % 100 == 0
    ensures y % 100 == 0 ==> y % 4 == 0
  {
  }

  lemma MarchStartMonotone(a: int, b: int)
    requires a <= b
    ensures MarchStart(a) + 365 * (b - a) <= MarchStart(b)
    decreases b - a
  {
    if a < b {
      MarchYearLength(a);
      MarchStartMonotone(a + 1, b);
    }
  }

  // ---- Recovering the year of the era and the month from a day count ----

  /** The year-of-era quotient is exact on every day of the 400-year era. */
  lemma YearOfEraExact(c: int, q: int, r: int, doy: int)
    requires 0 <= c < 4 && 0 <= q < 25 && 0 <= r < 4 && 0 <= doy <= 365
    requires doy == 365 ==> r == 3 && (q != 24 || c == 3)
    ensures var doe := 36524 * c + 1461 * q + 365 * r + doy;
            0 <= doe <= 146096 &&
            (doe - doe / 1460 + doe / 36524 - doe / 146096) / 365 == 100 * c + 4 * q + r
  {
    var doe := 36524 * c + 1461 * q + 365 * r + doy;
    assert doe / 36524 - doe / 146096 == c;
    var t := 24 * c + q + 365 * r + doy;
    assert doe == 1460 * (25 * c + q) + t;
    assert doe / 1460 == 25 * c + q + t / 1460;
    assert 0 <= t / 1460 <= 1;
    assert doe - doe / 1460 + doe / 36524 - doe / 146096 == 365 * (100 * c + 4 * q + r) + (doy - t / 1460);
  }

  /** Locates a day of the era by century, four-year cycle, year and day of year. */
  lemma EraSplit(doe: int) returns (c: int, q: int, r: int, doy: int)
    requires 0 <= doe <= 146096
    ensures 0 <= c < 4 && 0 <= q < 25 && 0 <= r < 4 && 0 <= doy <= 365
    ensures doy == 365 ==> r == 3 && (q != 24 || c == 3)
    ensures doe == 36524 * c + 1461 * q + 365 * r + doy
  {
    c := if doe == 146096 then 3 else doe / 36524;
    var inCentury := doe - 36524 * c;
    q := inCentury / 1461;
    var inCycle := inCentury - 1461 * q;
    r := if inCycle == 1460 then 3 else inCycle / 365;
    doy := inCycle - 365 * r;
  }

  /** Residues of a number written as a multiple plus a small carry. */
  lemma Residue4(k: int, r: int)
    requires 0 <= r <= 4
    ensures (4 * k + r) % 4 == r % 4
  {
    if r == 4 { assert 4 * k + r == 4 * (k + 1); }
  }

  lemma Residue100(k: int, r: int)
    requires 0 <= r <= 100
    ensures (100 * k + r) % 100 == r % 100
  {
    if r == 100 { assert 100 * k + r == 100 * (k + 1); }
  }

  lemma Residue400(k: int, r: int)
    requires 0 <= r <= 400
    ensures (400 * k + r) % 400 == r % 400
  {
    if r == 400 { assert 400 * k + r == 400 * (k + 1); }
  }

  /** The years of an era with a 29 February are those whose cycle position says so. */
  lemma LeapInEra(era: int, c: int, q: int, r: int)
    requires 0 <= c < 4 && 0 <= q < 25 && 0 <= r < 4
    ensures IsLeapYear(400 * era + 100 * c + 4 * q + r + 1) <==> r == 3 && (q != 24 || c == 3)
  {
    Residue4(100 * era + 25 * c + q, r + 1);
    Residue100(4 * era + c, 4 * q + r + 1);
    Residue400(era, 100 * c + 4 * q + r + 1);
    var n := 400 * era + 100 * c + 4 * q + r + 1;
    assert n % 4 == (r + 1) % 4;
    assert n % 100 == (4 * q + r + 1) % 100;
    assert n % 400 == (100 * c + 4 * q + r + 1) % 400;
  }

  lemma MarchYearOfEra(era: int, c: int, q: int, r: int)
    requires 0 <= c < 4 && 0 <= q < 25 && 0 <= r < 4
    ensures var y := 400 * era + 100 * c + 4 * q + r;
            MarchStart(y) == era * 146097 + 36524 * c + 1461 * q + 365 * r &&
            MarchStart(y + 1) - MarchStart(y) == if r == 3 && (q != 24 || c == 3) then 366 else 365
  {
    var yoe := 100 * c + 4 * q + r;
    YoeQuotients(c, q, r);
    MarchStartSplit(era, yoe);
    LeapInEra(era, c, q, r);
    MarchYearLength(400 * era + yoe);
  }

  /** The code's own year and day of year agree with that decomposition. */
  lemma DaySplit(days: int) returns (y: int, doy: int)
    ensures days + 719468 == MarchStart(y) + doy
    ensures 0 <= doy < MarchStart(y + 1) - MarchStart(y)
    ensures CivilFromDays(days) == FromMarch(y, doy)
  {
    hide MarchStart, CivilFromDays, CivilInEra, FromMarch;
    var era := (days + 719468) / 146097;
    var doe := days + 719468 - 146097 * era;
    var c, q, r, d := EraSplit(doe);
    var yoe := 100 * c + 4 * q + r;
    y, doy := 400 * era + yoe, d;
    MarchYearOfEra(era, c, q, r);
    assert CivilFromDays(days) == FromMarch(y, doy) by {
      YearOfEraExact(c, q, r, doy);
      DayOfEraYear(c, q, r, doy);
      CivilFromEra(era, doe, yoe, doy);
      CivilByEra(days);
    }
  }

  lemma DayOfEraYear(c: int, q: int, r: int, doy: int)
    requires 0 <= c < 4 && 0 <= q < 25 && 0 <= r < 4
    ensures var yoe := 100 * c + 4 * q + r;
            doy == 36524 * c + 1461 * q + 365 * r + doy - (yoe * 365 + yoe / 4 - yoe / 100)
  {
    YoeQuotients(c, q, r);
  }

  lemma YoeQuotients(c: int, q: int, r: int)
    requires 0 <= c < 4 && 0 <= q < 25 && 0 <= r < 4
    ensures (100 * c + 4 * q + r) / 4 == 25 * c + q && (100 * c + 4 * q + r) / 100 == c
  {
  }

  function FromMarch(y: int, doy: int): Civil {
    var mp := (5 * doy + 2) / 153;
    var month := if mp < 10 then mp + 3 else mp - 9;
    Civil(if month <= 2 then y + 1 else y, month, doy - MonthStart(mp) + 1)
  }

  lemma EraByTruncation(z: int)
    ensures TruncDiv(if z >= 0 then z else z - 146096, 146097) == z / 146097
  {
    if z < 0 {
      var era := z / 146097;
      assert 146097 * (-era) <= 146096 - z < 146097 * (-era) + 146097;
    }
  }

  lemma CivilByEra(days: int)
    ensures var era := (days + 719468) / 146097;
            CivilFromDays(days) == CivilInEra(era, days + 719468 - 146097 * era)
  {
    hide CivilInEra;
    EraByTruncation(days + 719468);
  }

  lemma CivilFromEra(era: int, doe: int, yoe: int, doy: int)
    requires yoe == (doe - doe / 1460 + doe / 36524 - doe / 146096) / 365
    requires doy == doe - (yoe * 365 + yoe / 4 - yoe / 100)
    ensures CivilInEra(era, doe) == FromMarch(400 * era + yoe, doy)
  {
  }

  lemma FromMarchValid(y: int, doy: int)
    requires 0 <= doy < MarchStart(y + 1) - MarchStart(y)
    ensures var c := FromMarch(y, doy);
            ValidCivil(c) && MarchYear(c) == y && DayOfMarchYear(c) == doy
  {
    MarchYearLength(y);
    MonthStarts();
    var mp := (5 * doy + 2) / 153;
    assert 0 <= mp <= 11;
    assert MonthIndex(FromMarch(y, doy).month) == mp;
  }

  // ---- The theorems ----

  /** A day number names exactly one valid calendar date, and converting back returns it. */
  lemma CivilRoundTrip(days: int)
    ensures ValidCivil(CivilFromDays(days))
    ensures DaysFromCivil(CivilFromDays(days)) == days
  {
    hide CivilFromDays, DaysFromCivil, MarchStart;
    var y, doy := DaySplit(days);
    FromMarchValid(y, doy);
    DaysFromCivilSplit(FromMarch(y, doy));
  }

  /** Every valid date, in any era, survives the trip through its day number. */
  lemma DaysRoundTrip(c: Civil)
    requires ValidCivil(c)
    ensures CivilFromDays(DaysFromCivil(c)) == c
  {
    CivilRoundTrip(DaysFromCivil(c));
    DateOrderIsDayOrder(c, CivilFromDays(DaysFromCivil(c)));
    DateOrderIsDayOrder(CivilFromDays(DaysFromCivil(c)), c);
  }

  predicate Before(a: Civil, b: Civil) {
    a.year < b.year
    || (a.year == b.year && (a.month < b.month || (a.month == b.month && a.day < b.day)))
  }

  lemma EarlierDateSmallerNumber(a: Civil, b: Civil)
    requires ValidCivil(a) && ValidCivil(b) && Before(a, b)
    ensures DaysFromCivil(a) < DaysFromCivil(b)
  {
    hide DaysFromCivil, MarchStart;
    DaysFromCivilSplit(a);
    DaysFromCivilSplit(b);
    DayOfMarchYearBounds(a);
    DayOfMarchYearBounds(b);
    if MarchYear(a) < MarchYear(b) {
      MarchStartMonotone(MarchYear(a) + 1, MarchYear(b));
    } else {
      MonthStarts();
    }
  }

  /** Calendar order is day-number order. */
  lemma DateOrderIsDayOrder(a: Civil, b: Civil)
    requires ValidCivil(a) && ValidCivil(b)
    ensures Before(a, b) <==> DaysFromCivil(a) < DaysFromCivil(b)
  {
    if Before(a, b) {
      EarlierDateSmallerNumber(a, b);
    } else if Before(b, a) {
      EarlierDateSmallerNumber(b, a);
    } else {
      assert a == b;
    }
  }

  /** The next page of a wall calendar, independent of the day-number arithmetic. */
  function NextDate(c: Civil): Civil {
    if c.day < DaysInMonth(c.year, c.month) then c.(day := c.day + 1)
    else if c.month < 12 then Civil(c.year, c.month + 1, 1)
    else Civil(c.year + 1, 1, 1)
  }

  lemma NextMarchDay(c: Civil)
    requires ValidCivil(c)
    ensures ValidCivil(NextDate(c))
    ensures MarchStart(MarchYear(NextDate(c))) + DayOfMarchYear(NextDate(c))
         == MarchStart(MarchYear(c)) + DayOfMarchYear(c) + 1
  {
    MonthStarts();
    MarchYearLength(MarchYear(c));
  }

  /** Turning the calendar page adds exactly one day, so no day is skipped or counted twice. */
  lemma NextDateIsNextDay(c: Civil)
    requires ValidCivil(c)
    ensures ValidCivil(NextDate(c))
    ensures DaysFromCivil(NextDate(c)) == DaysFromCivil(c) + 1
  {
    NextMarchDay(c);
    DaysFromCivilSplit(c);
    DaysFromCivilSplit(NextDate(c));
  }
}
