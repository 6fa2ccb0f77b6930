/** The spellings of dates, datetimes and filenames, character by character, and what is wrong with other texts. */
module Spellings {
  import opened Wrappers
  import opened Decimal
  import opened Calendar
  import opened Datetimes
  import opened DatetimeText

  // ---- Digits ----

  function Digit(n: nat): char
    requires n < 10
  {
    "0123456789"[n]
  }

  function Two(n: nat): string
    requires n < 100
  {
    [Digit(n / 10), Digit(n % 10)]
  }

  function Four(n: nat): string
    requires n < 10000
  {
    [Digit(n / 1000), Digit(n / 100 % 10), Digit(n / 10 % 10), Digit(n % 10)]
  }

  lemma DigitExactly(n: nat)
    requires n < 10
    ensures DigitChar(n) == Digit(n)
  {
  }

  lemma OneDigit(n: nat)
    requires n < 10
    ensures Padded(n, 1) == [Digit(n)]
  {
    DigitExactly(n);
  }

  lemma PaddedMore(n: nat, width: nat)
    requires width >= 2
    ensures Padded(n, width) == Padded(n / 10, width - 1) + [Digit(n % 10)]
  {
    DigitExactly(n % 10);
    hide Digit, DigitChar;
  }

  lemma TwoExactly(n: nat)
    requires n < 100
    ensures Padded(n, 2) == Two(n)
  {
    hide Padded, Digit;
    PaddedMore(n, 2);
    OneDigit(n / 10);
  }

  lemma FourExactly(n: nat)
    requires n < 10000
    ensures Padded(n, 4) == Four(n)
  {
    hide Padded, Digit;
    PaddedMore(n, 4);
    PaddedMore(n / 10, 3);
    PaddedMore(n / 100, 2);
    OneDigit(n / 1000);
    assert n / 10 / 10 == n / 100 && n / 100 / 10 == n / 1000;
  }

  // ---- Datetimes ----

  function DateChars(d: Date): string
    requires d.year < 10000 && d.month < 100 && d.day < 100
  {
    Four(d.year) + "-" + Two(d.month) + "-" + Two(d.day)
  }

  function HeadChars(t: Datetime): string
    requires t.date.year < 10000 && t.date.month < 100 && t.date.day < 100
    requires t.hour < 100 && t.minute < 100 && t.second < 100
  {
    DateChars(t.date) + "T" + Two(t.hour) + ":" + Two(t.minute) + ":" + Two(t.second)
  }

  function OffsetChars(m: int): string
    requires -6000 < m < 6000
  {
    if m < 0 then "-" + Two(-m / 60) + ":" + Two(-m % 60) else "+" + Two(m / 60) + ":" + Two(m % 60)
  }

  /** No fraction for zero nanoseconds, or a point and one to nine digits that spell them. */
  predicate SpellsNanos(f: string, nanos: nat) {
    || (f == "" && nanos == 0)
    || (2 <= |f| <= 10 && f[0] == '.' && AllDigits(f[1..]) && nanos == Value(f[1..]) * Pow10(10 - |f|))
  }

  lemma SpellableDate(d: Date)
    requires ValidDate(d)
    ensures d.month < 100 && d.day < 100
  {
  }

  lemma HeadExactly(t: Datetime)
    requires Valid(t) && t.date.year <= 9999
    ensures t.date.month < 100 && t.date.day < 100
    ensures RenderDate(t.date) == DateChars(t.date) && HeadText(t) == HeadChars(t)
  {
    SpellableDate(t.date);
    hide Padded, Two, Four;
    FourExactly(t.date.year);
    TwoExactly(t.date.month);
    TwoExactly(t.date.day);
    TwoExactly(t.hour);
    TwoExactly(t.minute);
    TwoExactly(t.second);
  }

  lemma OffsetExactly(m: int)
    requires -MAX_OFFSET <= m <= MAX_OFFSET
    ensures OffsetText(m) == OffsetChars(m)
  {
    hide Padded, Two;
    TwoExactly(Magnitude(m) / 60);
    TwoExactly(Magnitude(m) % 60);
  }

  lemma FractionExactly(nanos: nat)
    requires nanos < 1_000_000_000
    ensures SpellsNanos(FractionText(nanos), nanos)
    ensures var f := FractionText(nanos); f != "" ==> f[|f| - 1] != '0'
  {
    hide Padded, Value, Pow10;
    if nanos != 0 {
      Widths();
      ReadBack(nanos, 9);
      TrimmedFraction(Padded(nanos, 9));
      NoZeroLeft(Padded(nanos, 9));
      hide TrimZeros;
      var f := FractionText(nanos);
      assert f[1..] == TrimZeros(Padded(nanos, 9));
    }
  }

  lemma {:induction false} NoZeroLeft(s: string)
    ensures var f := TrimZeros(s); f != [] ==> f[|f| - 1] != '0'
  {
    if s != [] && s[|s| - 1] == '0' { NoZeroLeft(s[..|s| - 1]); }
  }

  /** A datetime is written as date, `T`, time, the shortest fraction that spells its nanoseconds, and offset. */
  lemma RenderExactly(t: Datetime)
    requires Valid(t) && t.date.year <= 9999
    ensures t.date.month < 100 && t.date.day < 100
    ensures exists f :: SpellsNanos(f, t.nanos) && (f != "" ==> f[|f| - 1] != '0')
                        && Render(t) == HeadChars(t) + f + OffsetChars(t.offsetMinutes)
  {
    HeadExactly(t);
    OffsetExactly(t.offsetMinutes);
    FractionExactly(t.nanos);
    hide HeadText, HeadChars, OffsetText, OffsetChars, SpellsNanos, FractionText;
    var f := FractionText(t.nanos);
    assert Render(t) == HeadChars(t) + f + OffsetChars(t.offsetMinutes);
  }

  lemma ParsesFraction(head: string, f: string, nanos: nat, tail: string)
    requires |head| == 19 && SpellsNanos(f, nanos) && tail != "" && !IsDigit(tail[0]) && tail[0] != '.'
    ensures ParseFraction(head + f + tail) == Ok((19 + |f|, nanos))
  {
    hide Value, Pow10;
    var text := head + f + tail;
    if f == "" {
      assert text == head + tail && text[19] == tail[0];
    } else {
      assert f == "." + f[1..];
      FractionDigits(head, f[1..], tail);
    }
  }

  lemma FractionRead(text: string, k: nat, nanos: nat)
    requires 19 <= |text| && ParseFraction(text) == Ok((k, nanos))
    ensures 19 <= k <= |text| && SpellsNanos(text[19..k], nanos)
  {
    hide Value, Pow10, DigitRun;
    if 19 < |text| && text[19] == '.' {
      DigitRunDigits(text, 20);
      assert text[19..k][1..] == text[20..k];
      assert text[19..k][0] == text[19];
    }
  }

  /** The ranges the grammar allows, and the days of a month besides. */
  predicate InRange(t: Datetime) {
    && t.date.year <= 9999 && 1 <= t.date.month <= 12 && 1 <= t.date.day <= 31
    && t.hour <= 23 && t.minute <= 59 && t.second <= 59 && t.nanos <= 999_999_999
    && -1439 <= t.offsetMinutes <= 1439
  }

  /**
   * A text denotes a datetime exactly when it is that datetime's date and time, a fraction of one to
   * nine digits that spells its nanoseconds or none if they are zero, and its offset.
   */
  lemma ParseExactly(text: string, t: Datetime)
    ensures Parse(text) == Ok(t)
            <==> Valid(t) && InRange(t)
                 && exists f :: SpellsNanos(f, t.nanos)
                                && text == HeadChars(t) + f + OffsetChars(t.offsetMinutes)
  {
    hide Parse, HeadText, OffsetText, SpellsNanos, ParseFraction, HeadChars, OffsetChars;
    if Parse(text) == Ok(t) {
      ParsedTextIsCanonicalButForFraction(text);
      HeadExactly(t);
      OffsetExactly(t.offsetMinutes);
      var k :| 19 <= k <= |text| && text == HeadText(t) + text[19..k] + OffsetText(t.offsetMinutes)
               && ParseFraction(text) == Ok((k, t.nanos));
      FractionRead(text, k, t.nanos);
    }
    if Valid(t) && InRange(t) {
      if f :| SpellsNanos(f, t.nanos) && text == HeadChars(t) + f + OffsetChars(t.offsetMinutes) {
        HeadExactly(t);
        OffsetExactly(t.offsetMinutes);
        ParsesSpelling(t, f);
      }
    }
  }

  lemma ParsesSpelling(t: Datetime, f: string)
    requires Valid(t) && t.date.year <= 9999 && SpellsNanos(f, t.nanos)
    ensures Parse(HeadText(t) + f + OffsetText(t.offsetMinutes)) == Ok(t)
  {
    hide HeadText, OffsetText, ParseDate, ParseOffset, ParseFraction, ParseFixed, SpellsNanos;
    var h, tail := HeadText(t), OffsetText(t.offsetMinutes);
    var text := h + f + tail;
    HeadParts(t);
    OffsetRoundTrip(t.offsetMinutes);
    ParsesFraction(h, f, t.nanos, tail);
    assert text[..19] == h;
    assert text[..10] == h[..10] && text[11..13] == h[11..13];
    assert text[14..16] == h[14..16] && text[17..19] == h[17..19];
    assert text[19 + |f|..] == tail;
  }

  /** After a rendered head, a point with no digit or more than nine digits behind it is malformed. */
  lemma BadFractionRefused(t: Datetime, digits: string, tail: string)
    requires Valid(t) && t.date.year <= 9999
    requires AllDigits(digits) && (digits == "" || |digits| > 9) && (tail == "" || !IsDigit(tail[0]))
    ensures Parse(HeadText(t) + ("." + digits) + tail) == Err(Malformed)
  {
    hide HeadText, ParseDate, ParseOffset, ParseFixed, Value, Pow10;
    var h := HeadText(t);
    var text := h + ("." + digits) + tail;
    HeadParts(t);
    assert text[..19] == h;
    assert text[..10] == h[..10] && text[11..13] == h[11..13];
    assert text[14..16] == h[14..16] && text[17..19] == h[17..19];
    assert forall i :: 20 <= i < 20 + |digits| ==> text[i] == digits[i - 20];
    DigitRunExact(text, 20, 20 + |digits|);
  }

  /** The instant of a wall-clock reading: days since 1970, the time of day, less the offset. */
  lemma InstantExactly(t: Datetime)
    ensures InstantSeconds(t)
         == 86400 * (DayNumber(t.date) - DayNumber(Date(1970, 1, 1)))
            + 3600 * t.hour + 60 * t.minute + t.second - 60 * t.offsetMinutes
  {
    assert DayNumber(Date(1970, 1, 1)) == 0;
    hide DayNumber;
  }

  // ---- What is wrong with a text that denotes no datetime ----

  predicate DigitsAt(text: string, from: nat, count: nat) {
    from + count <= |text| && forall k :: from <= k < from + count ==> '0' <= text[k] <= '9'
  }

  function NumberAt(text: string, from: nat): nat
    requires DigitsAt(text, from, 2)
  {
    10 * (text[from] as int - '0' as int) + (text[from + 1] as int - '0' as int)
  }

  lemma TwoRead(text: string, from: nat)
    requires from + 2 <= |text|
    ensures ParseFixed(text[from..from + 2], 2)
         == if DigitsAt(text, from, 2) then Some(NumberAt(text, from)) else None
  {
    var part := text[from..from + 2];
    assert part[0] == text[from] && part[1] == text[from + 1];
    if AllDigits(part) {
      assert part == [] + [DigitChar(DigitValue(part[0]))] + [DigitChar(DigitValue(part[1]))];
      NoDigits();
      LastDigitReads([], DigitValue(part[0]));
      LastDigitReads([] + [DigitChar(DigitValue(part[0]))], DigitValue(part[1]));
    }
  }

  lemma FourRead(text: string, from: nat)
    requires from + 4 <= |text|
    ensures ParseFixed(text[from..from + 4], 4)
         == if DigitsAt(text, from, 4) then Some(100 * NumberAt(text, from) + NumberAt(text, from + 2)) else None
  {
    var part := text[from..from + 4];
    assert forall k :: 0 <= k < 4 ==> part[k] == text[from + k];
    if AllDigits(part) {
      assert part[..2] == text[from..from + 2] && part[..3][..2] == part[..2];
      TwoRead(text, from);
      assert part == part[..3] + [DigitChar(DigitValue(part[3]))];
      assert part[..3] == part[..2] + [DigitChar(DigitValue(part[2]))];
      LastDigitReads(part[..2], DigitValue(part[2]));
      LastDigitReads(part[..3], DigitValue(part[3]));
    }
  }

  /** What is wrong with a date, if anything: its shape, or a shape that names no day. */
  function DateTrouble(text: string): Option<DatetimeError> {
    if |text| != 10 || !DigitsAt(text, 0, 4) || text[4] != '-' || !DigitsAt(text, 5, 2) || text[7] != '-'
       || !DigitsAt(text, 8, 2)
    then Some(Malformed)
    else
      var year, month, day := 100 * NumberAt(text, 0) + NumberAt(text, 2), NumberAt(text, 5), NumberAt(text, 8);
      if !(1 <= month <= 12 && 1 <= day <= DaysInMonth(year, month)) then Some(OutOfRange) else None
  }

  lemma DateTroubleExactly(text: string)
    ensures match DateTrouble(text)
            case Some(error) => ParseDate(text) == Err(error)
            case None => ParseDate(text).Ok?
  {
    if |text| == 10 {
      FourRead(text, 0);
      TwoRead(text, 5);
      TwoRead(text, 8);
      assert text[0..4] == text[..4];
    }
    hide ParseFixed, DaysInMonth;
  }

  /** What is wrong with an offset: it is missing, misshapen, past the day, or a negative zero. */
  function OffsetTrouble(text: string): Option<DatetimeError> {
    if text == "" || (text[0] != '+' && text[0] != '-') then Some(OffsetRequired)
    else if |text| != 6 || !DigitsAt(text, 1, 2) || text[3] != ':' || !DigitsAt(text, 4, 2) then Some(Malformed)
    else if NumberAt(text, 1) > 23 || NumberAt(text, 4) > 59 then Some(OutOfRange)
    else if text == "-00:00" then Some(NegativeZeroOffset)
    else None
  }

  lemma OffsetTroubleExactly(text: string)
    ensures match OffsetTrouble(text)
            case Some(error) => ParseOffset(text) == Err(error)
            case None => ParseOffset(text).Ok?
  {
    if |text| == 6 {
      TwoRead(text, 1);
      TwoRead(text, 4);
      ZeroOffset(text);
    }
    hide ParseFixed;
  }

  lemma ZeroOffset(text: string)
    requires |text| == 6
    ensures text == "-00:00" <==> text[0] == '-' && text[3] == ':' && DigitsAt(text, 1, 2) && DigitsAt(text, 4, 2)
                                  && NumberAt(text, 1) == 0 && NumberAt(text, 4) == 0
  {
    var zero := "-00:00";
    assert zero[0] == '-' && zero[1] == '0' && zero[2] == '0' && zero[3] == ':' && zero[4] == '0' && zero[5] == '0';
  }

  /** What is wrong with the time of day, if anything. */
  function TimeTrouble(text: string): Option<DatetimeError>
    requires |text| >= 19
  {
    if text[10] != 'T' || !DigitsAt(text, 11, 2) || text[13] != ':' || !DigitsAt(text, 14, 2) || text[16] != ':'
       || !DigitsAt(text, 17, 2)
    then Some(Malformed)
    else if NumberAt(text, 11) > 23 || NumberAt(text, 14) > 59 || NumberAt(text, 17) > 59 then Some(OutOfRange)
    else None
  }

  /** What is wrong with a text, taken from left to right: its date, its time, its fraction, its offset. */
  function Trouble(text: string): Option<DatetimeError> {
    if |text| < 19 then Some(Malformed)
    else if DateTrouble(text[..10]).Some? then
      Some(if forall k :: 10 <= k < 19 ==> text[k] as int < 128 then DateTrouble(text[..10]).value else Malformed)
    else if TimeTrouble(text).Some? then
      Some(if forall k :: 10 <= k < 19 ==> text[k] as int < 128 then TimeTrouble(text).value else Malformed)
    else if |text| > 19 && text[19] == '.' then
      var digits := DigitRun(text, 20);
      if digits < 1 || digits > 9 then Some(Malformed) else OffsetTrouble(text[20 + digits..])
    else OffsetTrouble(text[19..])
  }

  lemma TimeRead(text: string)
    requires |text| >= 19
    ensures ParseFixed(text[11..13], 2) == if DigitsAt(text, 11, 2) then Some(NumberAt(text, 11)) else None
    ensures ParseFixed(text[14..16], 2) == if DigitsAt(text, 14, 2) then Some(NumberAt(text, 14)) else None
    ensures ParseFixed(text[17..19], 2) == if DigitsAt(text, 17, 2) then Some(NumberAt(text, 17)) else None
  {
    TwoRead(text, 11);
    TwoRead(text, 14);
    TwoRead(text, 17);
  }

  lemma AsciiTime(text: string)
    requires |text| >= 19 && TimeTrouble(text).None?
    ensures forall k :: 10 <= k < 19 ==> text[k] as int < 128
  {
  }

  /** A text that denotes no datetime is refused with the first thing wrong with it. */
  lemma TroubleExactly(text: string)
    ensures match Trouble(text)
            case Some(error) => Parse(text) == Err(error)
            case None => Parse(text).Ok?
  {
    hide ParseFixed, ParseDate, DateTrouble, ParseOffset, OffsetTrouble, IsAscii, DigitsAt, NumberAt;
    if |text| >= 19 {
      AsciiHead(text);
      DateTroubleExactly(text[..10]);
      TimeRead(text);
      if TimeTrouble(text).None? { AsciiTime(text); }
      var fraction := ParseFraction(text);
      if fraction.Ok? { OffsetTroubleExactly(text[fraction.value.0..]); }
    }
  }

  /** A date with nothing wrong is ASCII, and a misshapen one is malformed whatever its characters. */
  lemma AsciiHead(text: string)
    requires |text| >= 19
    ensures !IsAscii(text[..19]) ==>
              DateTrouble(text[..10]) == Some(Malformed) || exists k :: 10 <= k < 19 && text[k] as int >= 128
    ensures IsAscii(text[..19]) ==> forall k :: 10 <= k < 19 ==> text[k] as int < 128
  {
    var head := text[..19];
    assert forall k :: 0 <= k < 19 ==> head[k] == text[k];
    assert forall k :: 0 <= k < 10 ==> text[..10][k] == text[k];
    hide DaysInMonth;
  }

  // ---- Filenames ----

  function StampChars(u: Datetime): string
    requires u.date.year < 10000 && u.date.month < 100 && u.date.day < 100
    requires u.hour < 100 && u.minute < 100 && u.second < 100
  {
    Four(u.date.year) + Two(u.date.month) + Two(u.date.day)
    + "T" + Two(u.hour) + Two(u.minute) + Two(u.second) + "Z"
  }

  /** A filename is the UTC date and time to the second, without separators. */
  lemma FilenameExactly(t: Datetime)
    requires Valid(t) && ToUtc(t).Ok? && ToUtc(t).value.date.year <= 9999
    ensures var u := ToUtc(t).value;
            Valid(u) && u.date.month < 100 && u.date.day < 100 && FilenameUtc(t) == Ok(StampChars(u))
  {
    ToUtcExact(t);
    var u := ToUtc(t).value;
    SpellableDate(u.date);
    hide ToUtc, Padded, Two, Four;
    FourExactly(u.date.year);
    TwoExactly(u.date.month);
    TwoExactly(u.date.day);
    TwoExactly(u.hour);
    TwoExactly(u.minute);
    TwoExactly(u.second);
    StampJoins(Four(u.date.year), Two(u.date.month), Two(u.date.day), Two(u.hour), Two(u.minute), Two(u.second));
  }

  lemma StampJoins(y: string, m: string, d: string, h: string, n: string, s: string)
    ensures y + (m + (d + ("T" + (h + (n + (s + "Z")))))) == y + m + d + "T" + h + n + s + "Z"
  {
  }
}
