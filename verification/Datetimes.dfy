/** Offset-bearing datetimes as instants: UTC normalisation, clock rendering, sortable filenames. */
module Datetimes {
  import opened Wrappers
  import opened Ordering
  import opened Decimal
  import opened Calendar

  datatype DatetimeError = Malformed | OffsetRequired | NegativeZeroOffset | OutOfRange

  datatype Date = Date(year: nat, month: nat, day: nat)

  datatype Datetime = Datetime(
    date: Date, hour: nat, minute: nat, second: nat, nanos: nat, offsetMinutes: int)

  const MAX_YEAR := 65535   // years are kept in 16 bits
  const MAX_OFFSET := 1439
  const I64_MAX := 0x7fff_ffff_ffff_ffff
  const DAY_SECONDS := 86400

  predicate ValidDate(d: Date) {
    d.year <= MAX_YEAR && ValidCivil(Civil(d.year, d.month, d.day))
  }

  predicate Valid(t: Datetime) {
    && ValidDate(t.date)
    && t.hour <= 23 && t.minute <= 59 && t.second <= 59
    && t.nanos < 1_000_000_000
    && -MAX_OFFSET <= t.offsetMinutes <= MAX_OFFSET
  }

  function DayNumber(d: Date): int {
    DaysFromCivil(Civil(d.year, d.month, d.day))
  }

  /** The instant in whole Unix-epoch seconds; the nanoseconds are carried separately. */
  function InstantSeconds(t: Datetime): int {
    DayNumber(t.date) * DAY_SECONDS + t.hour * 3600 + t.minute * 60 + t.second - t.offsetMinutes * 60
  }

  predicate SameInstant(a: Datetime, b: Datetime) {
    InstantSeconds(a) == InstantSeconds(b) && a.nanos == b.nanos
  }

  function UnixMillis(t: Datetime): int {
    InstantSeconds(t) * 1000 + t.nanos / 1_000_000
  }

  /** The wall-clock reading of a local second count, or a refusal when the year leaves 16 bits. */
  function AtLocalSeconds(seconds: int, nanos: nat, offsetMinutes: int): Result<Datetime, DatetimeError> {
    var ofDay := seconds % DAY_SECONDS;
    var c := CivilFromDays(seconds / DAY_SECONDS);
    if !(0 <= c.year <= MAX_YEAR) || c.month < 0 || c.day < 0 then Err(OutOfRange)
    else Ok(Datetime(Date(c.year, c.month, c.day), ofDay / 3600, ofDay % 3600 / 60, ofDay % 60, nanos, offsetMinutes))
  }

  function ToUtc(t: Datetime): Result<Datetime, DatetimeError> {
    AtLocalSeconds(InstantSeconds(t), t.nanos, 0)
  }

  function FromUnixMillis(unixMillis: int, offsetMinutes: int): Result<Datetime, DatetimeError> {
    if !(-MAX_OFFSET <= offsetMinutes <= MAX_OFFSET) then Err(OutOfRange)
    else
      var local := unixMillis + offsetMinutes * 60_000;
      if !(-I64_MAX - 1 <= local <= I64_MAX) then Err(OutOfRange)
      else AtLocalSeconds(local / 1000, local % 1000 * 1_000_000, offsetMinutes)
  }

  // ---- Which local seconds have a representable year ----

  function FirstDay(): int { DaysFromCivil(Civil(0, 1, 1)) }

  function LastDay(): int { DaysFromCivil(Civil(MAX_YEAR, 12, 31)) }

  lemma RepresentableDays(days: int)
    ensures 0 <= CivilFromDays(days).year <= MAX_YEAR <==> FirstDay() <= days <= LastDay()
  {
    hide DaysFromCivil, CivilFromDays;
    CivilRoundTrip(days);
    var c := CivilFromDays(days);
    DateOrderIsDayOrder(c, Civil(0, 1, 1));
    DateOrderIsDayOrder(Civil(MAX_YEAR, 12, 31), c);
  }

  lemma RepresentableRange()
    ensures FirstDay() == -719528 && LastDay() == 23217003
  {
  }

  /** The wall-clock reading is valid, keeps its offset and nanoseconds, and names the given second. */
  lemma AtLocalSecondsExact(seconds: int, nanos: nat, offsetMinutes: int)
    requires nanos < 1_000_000_000 && -MAX_OFFSET <= offsetMinutes <= MAX_OFFSET
    ensures var r := AtLocalSeconds(seconds, nanos, offsetMinutes);
            (r.Ok? <==> FirstDay() <= seconds / DAY_SECONDS <= LastDay()) &&
            (r.Err? ==> r.error == OutOfRange) &&
            (r.Ok? ==> Valid(r.value) && r.value.nanos == nanos && r.value.offsetMinutes == offsetMinutes
                       && InstantSeconds(r.value) == seconds - offsetMinutes * 60)
  {
    hide DaysFromCivil, CivilFromDays;
    var days := seconds / DAY_SECONDS;
    CivilRoundTrip(days);
    RepresentableDays(days);
    ClockReading(seconds % DAY_SECONDS);
  }

  lemma ClockReading(ofDay: int)
    requires 0 <= ofDay < DAY_SECONDS
    ensures ofDay / 3600 <= 23 && ofDay % 3600 / 60 <= 59
    ensures ofDay / 3600 * 3600 + ofDay % 3600 / 60 * 60 + ofDay % 60 == ofDay
  {
    assert ofDay % 60 == ofDay % 3600 % 60;
  }

  // ---- Clock rendering ----

  /** A rendered clock reading is valid, keeps its offset and denotes exactly the clock's millisecond. */
  lemma FromUnixMillisExact(unixMillis: int, offsetMinutes: int)
    ensures var r := FromUnixMillis(unixMillis, offsetMinutes);
            var days := (unixMillis + offsetMinutes * 60_000) / 1000 / DAY_SECONDS;
            (r.Ok? <==> -MAX_OFFSET <= offsetMinutes <= MAX_OFFSET && FirstDay() <= days <= LastDay()) &&
            (r.Err? ==> r.error == OutOfRange) &&
            (r.Ok? ==> Valid(r.value) && r.value.offsetMinutes == offsetMinutes && UnixMillis(r.value) == unixMillis)
  {
    hide DaysFromCivil, CivilFromDays, AtLocalSeconds;
    var local := unixMillis + offsetMinutes * 60_000;
    RepresentableRange();
    if -MAX_OFFSET <= offsetMinutes <= MAX_OFFSET {
      AtLocalSecondsExact(local / 1000, local % 1000 * 1_000_000, offsetMinutes);
      assert local % 1000 * 1_000_000 / 1_000_000 == local % 1000;
      assert local / 1000 * 1000 + local % 1000 == local;
    }
  }

  // ---- UTC is a canonical representative of each instant ----

  /** `ToUtc` succeeds exactly on 16-bit UTC years, and then denotes the same instant at offset zero. */
  lemma ToUtcExact(t: Datetime)
    requires Valid(t)
    ensures ToUtc(t).Ok? <==> FirstDay() <= InstantSeconds(t) / DAY_SECONDS <= LastDay()
    ensures ToUtc(t).Err? ==> ToUtc(t).error == OutOfRange
    ensures ToUtc(t).Ok? ==> Valid(ToUtc(t).value) && ToUtc(t).value.offsetMinutes == 0
                             && SameInstant(ToUtc(t).value, t)
  {
    AtLocalSecondsExact(InstantSeconds(t), t.nanos, 0);
  }

  /** At a fixed offset an instant has one spelling. */
  lemma OneSpellingPerOffset(a: Datetime, b: Datetime)
    requires Valid(a) && Valid(b) && a.offsetMinutes == b.offsetMinutes && SameInstant(a, b)
    ensures a == b
  {
    hide DaysFromCivil, CivilFromDays, InstantSeconds;
    DaysRoundTrip(Civil(a.date.year, a.date.month, a.date.day));
    DaysRoundTrip(Civil(b.date.year, b.date.month, b.date.day));
    SecondsOfDay(a);
    SecondsOfDay(b);
    DivideDay(DayNumber(a.date), ClockSeconds(a));
    DivideDay(DayNumber(b.date), ClockSeconds(b));
  }

  lemma DivideDay(day: int, ofDay: int)
    requires 0 <= ofDay < DAY_SECONDS
    ensures (day * DAY_SECONDS + ofDay) / DAY_SECONDS == day
  {
  }

  /** Two datetimes normalise alike exactly when they denote one instant, whatever their offsets. */
  lemma UtcIsCanonical(a: Datetime, b: Datetime)
    requires Valid(a) && Valid(b)
    ensures SameInstant(a, b) ==> ToUtc(a) == ToUtc(b)
    ensures ToUtc(a).Ok? && ToUtc(a) == ToUtc(b) ==> SameInstant(a, b)
    ensures ToUtc(a).Ok? ==> ToUtc(ToUtc(a).value) == ToUtc(a)
  {
    ToUtcExact(a);
    ToUtcExact(b);
  }

  function ClockSeconds(t: Datetime): int { t.hour * 3600 + t.minute * 60 + t.second }

  lemma SecondsOfDay(t: Datetime)
    requires Valid(t)
    ensures 0 <= ClockSeconds(t) < DAY_SECONDS
    ensures InstantSeconds(t) + t.offsetMinutes * 60 == DayNumber(t.date) * DAY_SECONDS + ClockSeconds(t)
  {
  }

  // ---- The sortable filename ----

  function ClockText(u: Datetime): string {
    Padded(u.hour, 2) + (Padded(u.minute, 2) + (Padded(u.second, 2) + "Z"))
  }

  function FilenameText(u: Datetime): string {
    Padded(u.date.year, 4) + (Padded(u.date.month, 2) + (Padded(u.date.day, 2) + ("T" + ClockText(u))))
  }

  function FilenameUtc(t: Datetime): Result<string, DatetimeError> {
    match ToUtc(t)
    case Err(e) => Err(e)
    case Ok(u) => Ok(FilenameText(u))
  }

  /** One more zero-padded component in front of two texts. */
  lemma ComponentOrder(m: nat, x: string, n: nat, y: string, width: nat)
    requires 1 <= width && m < Pow10(width) && n < Pow10(width)
    ensures Less(Padded(m, width) + x, Padded(n, width) + y) <==> m < n || (m == n && Less(x, y))
  {
    PaddedWidth(m, width);
    PaddedWidth(n, width);
    PaddedReads(m, width);
    PaddedReads(n, width);
    PaddedOrder(m, n, width);
    LessConcat(Padded(m, width), x, Padded(n, width), y);
  }

  lemma Widths()
    ensures Pow10(2) == 100 && Pow10(4) == 10000 && Pow10(9) == 1_000_000_000
  {
    assert Pow10(1) == 10 && Pow10(2) == 100 && Pow10(3) == 1000 && Pow10(4) == 10000;
    assert Pow10(6) == 1_000_000 && Pow10(8) == 100_000_000;
  }

  lemma ClockTextOrder(u: Datetime, v: Datetime)
    requires Valid(u) && Valid(v)
    ensures Less(ClockText(u), ClockText(v)) <==> ClockSeconds(u) < ClockSeconds(v)
  {
    hide Padded;
    Widths();
    LessIsStrict("Z");
    ComponentOrder(u.second, "Z", v.second, "Z", 2);
    ComponentOrder(u.minute, Padded(u.second, 2) + "Z", v.minute, Padded(v.second, 2) + "Z", 2);
    ComponentOrder(u.hour, Padded(u.minute, 2) + (Padded(u.second, 2) + "Z"),
                   v.hour, Padded(v.minute, 2) + (Padded(v.second, 2) + "Z"), 2);
  }

  lemma FilenameTextOrder(u: Datetime, v: Datetime)
    requires Valid(u) && Valid(v) && u.date.year <= 9999 && v.date.year <= 9999
    ensures Less(FilenameText(u), FilenameText(v))
       <==> DayNumber(u.date) * DAY_SECONDS + ClockSeconds(u) < DayNumber(v.date) * DAY_SECONDS + ClockSeconds(v)
  {
    hide Padded, DaysFromCivil, ClockText;
    Widths();
    ClockTextOrder(u, v);
    LessConcat("T", ClockText(u), "T", ClockText(v));
    LessIsStrict("T");
    var uDay := Padded(u.date.day, 2) + ("T" + ClockText(u));
    var vDay := Padded(v.date.day, 2) + ("T" + ClockText(v));
    ComponentOrder(u.date.day, "T" + ClockText(u), v.date.day, "T" + ClockText(v), 2);
    ComponentOrder(u.date.month, uDay, v.date.month, vDay, 2);
    ComponentOrder(u.date.year, Padded(u.date.month, 2) + uDay, v.date.year, Padded(v.date.month, 2) + vDay, 4);
    DateOrderIsDayOrder(Civil(u.date.year, u.date.month, u.date.day), Civil(v.date.year, v.date.month, v.date.day));
    DateOrderIsDayOrder(Civil(v.date.year, v.date.month, v.date.day), Civil(u.date.year, u.date.month, u.date.day));
    SecondsOfDay(u);
    SecondsOfDay(v);
  }

  /** A directory listing is a timeline: filename order is instant order, across all offsets. */
  lemma FilenameOrderIsTimeline(a: Datetime, b: Datetime)
    requires Valid(a) && Valid(b)
    requires ToUtc(a).Ok? && ToUtc(a).value.date.year <= 9999
    requires ToUtc(b).Ok? && ToUtc(b).value.date.year <= 9999
    ensures FilenameUtc(a).Ok? && FilenameUtc(b).Ok?
    ensures Less(FilenameUtc(a).value, FilenameUtc(b).value) <==> InstantSeconds(a) < InstantSeconds(b)
    ensures FilenameUtc(a) == FilenameUtc(b) <==> InstantSeconds(a) == InstantSeconds(b)
  {
    hide FilenameText, AtLocalSeconds, DaysFromCivil;
    ToUtcExact(a);
    ToUtcExact(b);
    var u, v := ToUtc(a).value, ToUtc(b).value;
    FilenameTextOrder(u, v);
    FilenameTextOrder(v, u);
    SecondsOfDay(u);
    SecondsOfDay(v);
    LessTotal(FilenameText(u), FilenameText(v));
    LessIsStrict(FilenameText(u));
    if InstantSeconds(a) == InstantSeconds(b) {
      OneSpellingPerOffset(u.(nanos := 0), v.(nanos := 0));
      FilenameIgnoresNanos(u);
      FilenameIgnoresNanos(v);
    }
  }

  lemma FilenameIgnoresNanos(u: Datetime)
    ensures FilenameText(u) == FilenameText(u.(nanos := 0))
  {
  }

  const YEAR_10000_MILLIS := 253_402_300_800_000

  /** The grammar stops at year 9999, but a clock does not: its millisecond builds the first day of year 10000. */
  lemma ClockReachesYear10000()
    ensures FromUnixMillis(YEAR_10000_MILLIS, 0) == Ok(Datetime(Date(10000, 1, 1), 0, 0, 0, 0, 0))
  {
    var late := Datetime(Date(10000, 1, 1), 0, 0, 0, 0, 0);
    Year10000Instant();
    hide InstantSeconds, AtLocalSeconds, DaysFromCivil, CivilFromDays;
    RepresentableRange();
    FromUnixMillisExact(YEAR_10000_MILLIS, 0);
    AtLocalSecondsExact(YEAR_10000_MILLIS / 1000, 0, 0);
    OneSpellingPerOffset(FromUnixMillis(YEAR_10000_MILLIS, 0).value, late);
  }

  lemma Year10000Instant()
    ensures InstantSeconds(Datetime(Date(10000, 1, 1), 0, 0, 0, 0, 0)) * 1000 == YEAR_10000_MILLIS
  {
  }

  /** Past year 9999 the padding no longer aligns, and the listing stops being a timeline. */
  lemma FilenameOrderFailsInYear10000()
    ensures var early := Datetime(Date(9999, 1, 1), 0, 0, 0, 0, 0);
            var late := Datetime(Date(10000, 1, 1), 0, 0, 0, 0, 0);
            InstantSeconds(early) < InstantSeconds(late) &&
            Less(FilenameText(late), FilenameText(early)) &&
            FromUnixMillis(YEAR_10000_MILLIS, 0) == Ok(late)
  {
    ClockReachesYear10000();
    FifthDigitSortsFirst();
    EarlierDateSmallerNumber(Civil(9999, 1, 1), Civil(10000, 1, 1));
    hide FilenameText, DaysFromCivil, FromUnixMillis;
  }

  lemma FifthDigitSortsFirst()
    ensures Less(FilenameText(Datetime(Date(10000, 1, 1), 0, 0, 0, 0, 0)),
                 FilenameText(Datetime(Date(9999, 1, 1), 0, 0, 0, 0, 0)))
  {
    var early := Datetime(Date(9999, 1, 1), 0, 0, 0, 0, 0);
    var late := Datetime(Date(10000, 1, 1), 0, 0, 0, 0, 0);
    assert Padded(1, 0) == "1" && Padded(10, 1) == "10" && Padded(100, 2) == "100";
    assert Padded(9, 1) == "9" && Padded(99, 2) == "99" && Padded(999, 3) == "999";
    assert FilenameText(late)[0] == '1' && FilenameText(early)[0] == '9';
  }

  /** Both datetimes have a filename, and their filenames sort as their whole-second instants do. */
  predicate SortsAsTimeline(a: Datetime, b: Datetime) {
    && FilenameUtc(a).Ok? && FilenameUtc(b).Ok?
    && (Less(FilenameUtc(a).value, FilenameUtc(b).value) <==> InstantSeconds(a) < InstantSeconds(b))
  }

  predicate WithinYear(t: Datetime, lastYear: nat) {
    Valid(t) && ToUtc(t).Ok? && ToUtc(t).value.date.year <= lastYear
  }

  /** A notebook's listing is a timeline for every notebook up to some year exactly when that year is at most 9999. */
  lemma ListingIsTimelineExactlyTo9999(lastYear: nat)
    ensures (forall a, b :: WithinYear(a, lastYear) && WithinYear(b, lastYear) ==> SortsAsTimeline(a, b))
            <==> lastYear <= 9999
  {
    hide WithinYear, SortsAsTimeline;
    if lastYear <= 9999 {
      forall a, b | WithinYear(a, lastYear) && WithinYear(b, lastYear) ensures SortsAsTimeline(a, b) {
        TimelinePair(a, b, lastYear);
      }
    } else {
      var late, early := TimelineBreaks(lastYear);
      assert WithinYear(late, lastYear) && WithinYear(early, lastYear) && !SortsAsTimeline(late, early);
    }
  }

  lemma TimelinePair(a: Datetime, b: Datetime, lastYear: nat)
    requires lastYear <= 9999 && WithinYear(a, lastYear) && WithinYear(b, lastYear)
    ensures SortsAsTimeline(a, b)
  {
    hide ToUtc, InstantSeconds, Less;
    FilenameOrderIsTimeline(a, b);
  }

  lemma TimelineBreaks(lastYear: nat) returns (late: Datetime, early: Datetime)
    requires lastYear > 9999
    ensures WithinYear(late, lastYear) && WithinYear(early, lastYear) && !SortsAsTimeline(late, early)
  {
    early, late := Datetime(Date(9999, 1, 1), 0, 0, 0, 0, 0), Datetime(Date(10000, 1, 1), 0, 0, 0, 0, 0);
    FilenameOrderFailsInYear10000();
    hide InstantSeconds, FilenameText, Less;
    AlreadyUtc(early);
    AlreadyUtc(late);
  }

  /** A datetime spelled at offset zero is its own UTC form. */
  lemma AlreadyUtc(t: Datetime)
    requires Valid(t) && t.offsetMinutes == 0
    ensures ToUtc(t) == Ok(t)
  {
    hide ToUtc, InstantSeconds, DaysFromCivil, CivilFromDays;
    ToUtcExact(t);
    InRange(t);
    OneSpellingPerOffset(ToUtc(t).value, t);
  }

  lemma InRange(t: Datetime)
    requires Valid(t) && t.offsetMinutes == 0
    ensures FirstDay() <= InstantSeconds(t) / DAY_SECONDS <= LastDay()
  {
    hide DaysFromCivil, CivilFromDays;
    SecondsOfDay(t);
    DivideDay(DayNumber(t.date), ClockSeconds(t));
    var c := Civil(t.date.year, t.date.month, t.date.day);
    DaysRoundTrip(c);
    RepresentableDays(DayNumber(t.date));
  }
}
