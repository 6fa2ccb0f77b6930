/** Parsing and canonical rendering of dates and offset datetimes (a strict form of section 5.6 of RFC 3339). */
module DatetimeText {
  import opened Wrappers
  import opened Decimal
  import opened Calendar
  import opened Datetimes

  predicate IsAscii(s: string) { forall i :: 0 <= i < |s| ==> s[i] < 128 as char }

  // ---- Dates ----

  function ParseDate(text: string): Result<Date, DatetimeError> {
    if |text| != 10 || !IsAscii(text) || text[4] != '-' || text[7] != '-' then Err(Malformed)
    else
      var year := ParseFixed(text[..4], 4);
      var month := ParseFixed(text[5..7], 2);
      var day := ParseFixed(text[8..10], 2);
      if year.None? || month.None? || day.None? then Err(Malformed)
      else if !(1 <= month.value <= 12) || day.value == 0
              || day.value > DaysInMonth(year.value, month.value) then Err(OutOfRange)
      else Ok(Date(year.value, month.value, day.value))
  }

  function RenderDate(d: Date): string {
    Padded(d.year, 4) + "-" + Padded(d.month, 2) + "-" + Padded(d.day, 2)
  }

  lemma DateRoundTrip(d: Date)
    requires ValidDate(d) && d.year <= 9999
    ensures |RenderDate(d)| == 10 && IsAscii(RenderDate(d)) && ParseDate(RenderDate(d)) == Ok(d)
  {
    hide Padded;
    Widths();
    ReadBack(d.year, 4);
    ReadBack(d.month, 2);
    ReadBack(d.day, 2);
    var text := RenderDate(d);
    assert text[..4] == Padded(d.year, 4);
    assert text[5..7] == Padded(d.month, 2);
    assert text[8..10] == Padded(d.day, 2);
  }

  /** A parsed date is valid, and its text was exactly its rendering: dates have one spelling. */
  lemma DateHasOneSpelling(text: string)
    requires ParseDate(text).Ok?
    ensures ValidDate(ParseDate(text).value) && ParseDate(text).value.year <= 9999
    ensures RenderDate(ParseDate(text).value) == text
  {
    hide Padded, Value;
    Widths();
    Respell(text[..4]);
    Respell(text[5..7]);
    Respell(text[8..10]);
    assert text == text[..4] + "-" + text[5..7] + "-" + text[8..10];
  }

  lemma ReadBack(n: nat, width: nat)
    requires 1 <= width && n < Pow10(width)
    ensures |Padded(n, width)| == width && AllDigits(Padded(n, width)) && Value(Padded(n, width)) == n
  {
    PaddedWidth(n, width);
    PaddedReads(n, width);
  }

  lemma Respell(s: string)
    requires s != []
    ensures AllDigits(s) ==> Padded(Value(s), |s|) == s && Value(s) < Pow10(|s|)
  {
    if AllDigits(s) {
      PaddedOfValue(s);
      ValueBound(s);
    }
  }

  // ---- The time of day, the fraction and the offset ----

  /** How many ASCII digits start at `from`. */
  function DigitRun(text: string, from: nat): nat
    requires from <= |text|
    ensures from + DigitRun(text, from) <= |text|
    decreases |text| - from
  {
    if from < |text| && IsDigit(text[from]) then 1 + DigitRun(text, from + 1) else 0
  }

  lemma {:induction false} DigitRunExact(text: string, from: nat, end: nat)
    requires from <= end <= |text|
    requires forall i :: from <= i < end ==> IsDigit(text[i])
    requires end == |text| || !IsDigit(text[end])
    ensures DigitRun(text, from) == end - from
    decreases end - from
  {
    if from < end { DigitRunExact(text, from + 1, end); }
  }

  lemma {:induction false} DigitRunDigits(text: string, from: nat)
    requires from <= |text|
    ensures AllDigits(text[from..from + DigitRun(text, from)])
    decreases |text| - from
  {
    if from < |text| && IsDigit(text[from]) {
      DigitRunDigits(text, from + 1);
      var n := DigitRun(text, from + 1);
      assert text[from..from + 1 + n] == [text[from]] + text[from + 1..from + 1 + n];
    }
  }

  /** Where the fraction ends and how many nanoseconds it spells. */
  function ParseFraction(text: string): (r: Result<(nat, nat), DatetimeError>)
    requires 19 <= |text|
    ensures r.Ok? ==> 19 <= r.value.0 <= |text|
  {
    if 19 < |text| && text[19] == '.' then
      var digits := DigitRun(text, 20);
      if digits == 0 || digits > 9 then Err(Malformed)
      else
        DigitRunDigits(text, 20);
        Ok((20 + digits, Value(text[20..20 + digits]) * Pow10(9 - digits)))
    else Ok((19, 0))
  }

  function ParseOffset(offset: string): Result<int, DatetimeError> {
    if offset == "" || offset == "Z" || offset == "z" then Err(OffsetRequired)
    else if offset[0] != '+' && offset[0] != '-' then Err(OffsetRequired)
    else if |offset| != 6 || !IsAscii(offset) || offset[3] != ':' then Err(Malformed)
    else
      var hour := ParseFixed(offset[1..3], 2);
      var minute := ParseFixed(offset[4..6], 2);
      if hour.None? || minute.None? then Err(Malformed)
      else if hour.value > 23 || minute.value > 59 then Err(OutOfRange)
      else
        var magnitude := hour.value * 60 + minute.value;
        if offset[0] == '-' && magnitude == 0 then Err(NegativeZeroOffset)
        else Ok(if offset[0] == '-' then -magnitude else magnitude)
  }

  /** What a datetime text denotes; the first defect met decides the error. */
  function Parse(text: string): Result<Datetime, DatetimeError> {
    if |text| < 19 || !IsAscii(text[..19]) then Err(Malformed)
    else
      var date := ParseDate(text[..10]);
      if date.Err? then Err(date.error)
      else if text[10] != 'T' || text[13] != ':' || text[16] != ':' then Err(Malformed)
      else
        var hour := ParseFixed(text[11..13], 2);
        var minute := ParseFixed(text[14..16], 2);
        var second := ParseFixed(text[17..19], 2);
        if hour.None? || minute.None? || second.None? then Err(Malformed)
        else if hour.value > 23 || minute.value > 59 || second.value > 59 then Err(OutOfRange)
        else
          var fraction := ParseFraction(text);
          if fraction.Err? then Err(fraction.error)
          else
            var offset := ParseOffset(text[fraction.value.0..]);
            if offset.Err? then Err(offset.error)
            else Ok(Datetime(date.value, hour.value, minute.value, second.value, fraction.value.1, offset.value))
  }

  /** The optional fraction after the seconds: one to nine digits, scaled to nanoseconds. */
  method ReadFraction(text: string) returns (r: Result<(nat, nat), DatetimeError>)
    requires 19 <= |text|
    ensures r == ParseFraction(text)
  {
    hide Value, Pow10;
    var position, nanos := 19, 0;
    if position < |text| && text[position] == '.' {
      position := position + 1;
      var start := position;
      while position < |text| && IsDigit(text[position])
        invariant start <= position <= |text|
        invariant AllDigits(text[start..position])
        invariant DigitRun(text, start) == position - start + DigitRun(text, position)
      {
        assert text[start..position + 1] == text[start..position] + [text[position]];
        position := position + 1;
      }
      var digits := position - start;
      if digits == 0 || digits > 9 { return Err(Malformed); }
      nanos := Value(text[start..position]) * Pow10(9 - digits);
    }
    r := Ok((position, nanos));
  }

  /** The parser itself: advances a position over the fraction digits. */
  method ParseDatetime(text: string) returns (r: Result<Datetime, DatetimeError>)
    ensures r == Parse(text)
  {
    hide ParseFixed, ParseOffset, ParseFraction, IsAscii;
    if |text| < 19 || !IsAscii(text[..19]) { return Err(Malformed); }
    var date := ParseDate(text[..10]);
    if date.Err? { return Err(date.error); }
    if text[10] != 'T' || text[13] != ':' || text[16] != ':' { return Err(Malformed); }
    var hour := ParseFixed(text[11..13], 2);
    var minute := ParseFixed(text[14..16], 2);
    var second := ParseFixed(text[17..19], 2);
    if hour.None? || minute.None? || second.None? { return Err(Malformed); }
    if hour.value > 23 || minute.value > 59 || second.value > 59 { return Err(OutOfRange); }

    var fraction := ReadFraction(text);
    if fraction.Err? { return Err(fraction.error); }
    var (position, nanos) := fraction.value;

    var offset := ParseOffset(text[position..]);
    if offset.Err? { return Err(offset.error); }
    r := Ok(Datetime(date.value, hour.value, minute.value, second.value, nanos, offset.value));
  }

  // ---- Rendering ----

  function TrimZeros(s: string): string {
    if s != [] && s[|s| - 1] == '0' then TrimZeros(s[..|s| - 1]) else s
  }

  function FractionText(nanos: nat): string {
    if nanos == 0 then "" else "." + TrimZeros(Padded(nanos, 9))
  }

  function Magnitude(offsetMinutes: int): nat {
    if offsetMinutes < 0 then -offsetMinutes else offsetMinutes
  }

  function OffsetText(offsetMinutes: int): string {
    (if offsetMinutes < 0 then "-" else "+")
    + Padded(Magnitude(offsetMinutes) / 60, 2) + ":" + Padded(Magnitude(offsetMinutes) % 60, 2)
  }

  function HeadText(t: Datetime): string {
    RenderDate(t.date) + "T" + Padded(t.hour, 2) + ":" + Padded(t.minute, 2) + ":" + Padded(t.second, 2)
  }

  function Render(t: Datetime): string {
    HeadText(t) + FractionText(t.nanos) + OffsetText(t.offsetMinutes)
  }

  /** The display itself: pops trailing zeros off a nine-digit fraction. */
  method Display(t: Datetime) returns (out: string)
    ensures out == Render(t)
  {
    out := HeadText(t);
    if t.nanos != 0 {
      var fraction := Padded(t.nanos, 9);
      while fraction != [] && fraction[|fraction| - 1] == '0'
        invariant TrimZeros(fraction) == TrimZeros(Padded(t.nanos, 9))
      {
        fraction := fraction[..|fraction| - 1];
      }
      out := out + ("." + fraction);
    }
    out := out + OffsetText(t.offsetMinutes);
  }

  // ---- Round trips ----

  lemma {:induction false} TrimmedFraction(s: string)
    requires AllDigits(s) && Value(s) != 0
    ensures var f := TrimZeros(s);
            0 < |f| <= |s| && AllDigits(f) && Value(f) * Pow10(|s| - |f|) == Value(s)
  {
    if s[|s| - 1] == '0' {
      TrimmedFraction(s[..|s| - 1]);
      var f := TrimZeros(s);
      TenTimes(Value(f), |s| - |f|);
    }
  }

  lemma TenTimes(value: nat, k: nat)
    requires k > 0
    ensures value * Pow10(k) == 10 * (value * Pow10(k - 1))
  {
    assert Pow10(k) == 10 * Pow10(k - 1);
  }

  lemma OffsetRoundTrip(offsetMinutes: int)
    requires -MAX_OFFSET <= offsetMinutes <= MAX_OFFSET
    ensures ParseOffset(OffsetText(offsetMinutes)) == Ok(offsetMinutes)
    ensures |OffsetText(offsetMinutes)| == 6 && OffsetText(offsetMinutes)[0] in {'+', '-'}
  {
    hide Padded;
    Widths();
    var m := Magnitude(offsetMinutes);
    ReadBack(m / 60, 2);
    ReadBack(m % 60, 2);
    var text := OffsetText(offsetMinutes);
    assert text[1..3] == Padded(m / 60, 2);
    assert text[4..6] == Padded(m % 60, 2);
  }

  lemma HeadParts(t: Datetime)
    requires Valid(t) && t.date.year <= 9999
    ensures var h := HeadText(t);
            |h| == 19 && IsAscii(h) && ParseDate(h[..10]) == Ok(t.date)
            && h[10] == 'T' && h[13] == ':' && h[16] == ':'
            && ParseFixed(h[11..13], 2) == Some(t.hour) && ParseFixed(h[14..16], 2) == Some(t.minute)
            && ParseFixed(h[17..19], 2) == Some(t.second)
  {
    hide Padded, ParseDate, RenderDate;
    Widths();
    DateRoundTrip(t.date);
    ReadBack(t.hour, 2);
    ReadBack(t.minute, 2);
    ReadBack(t.second, 2);
    var h := HeadText(t);
    assert h[..10] == RenderDate(t.date);
    assert h[11..13] == Padded(t.hour, 2);
    assert h[14..16] == Padded(t.minute, 2);
    assert h[17..19] == Padded(t.second, 2);
  }

  lemma FractionPart(head: string, nanos: nat, tail: string)
    requires |head| == 19 && nanos < 1_000_000_000
    requires tail == [] || (!IsDigit(tail[0]) && tail[0] != '.')
    ensures var text := head + FractionText(nanos) + tail;
            ParseFraction(text) == Ok((19 + |FractionText(nanos)|, nanos))
  {
    hide Padded, Value, TrimZeros, Pow10;
    if nanos == 0 {
      assert head + FractionText(nanos) + tail == head + tail;
    } else {
      Widths();
      ReadBack(nanos, 9);
      TrimmedFraction(Padded(nanos, 9));
      FractionDigits(head, TrimZeros(Padded(nanos, 9)), tail);
    }
  }

  lemma FractionDigits(head: string, f: string, tail: string)
    requires |head| == 19 && AllDigits(f) && 0 < |f| <= 9
    requires tail == [] || !IsDigit(tail[0])
    ensures ParseFraction(head + ("." + f) + tail) == Ok((20 + |f|, Value(f) * Pow10(9 - |f|)))
  {
    hide Value, Pow10;
    var text := head + ("." + f) + tail;
    assert text[20..20 + |f|] == f;
    forall i | 20 <= i < 20 + |f| ensures IsDigit(text[i]) {
      assert text[i] == f[i - 20];
    }
    DigitRunExact(text, 20, 20 + |f|);
  }

  /** After a rendered head and fraction, the parse is decided by the offset text alone. */
  lemma OffsetDecides(t: Datetime, tail: string)
    requires Valid(t) && t.date.year <= 9999
    requires tail == [] || (!IsDigit(tail[0]) && tail[0] != '.')
    ensures Parse(HeadText(t) + FractionText(t.nanos) + tail)
         == match ParseOffset(tail) case Err(e) => Err(e) case Ok(m) => Ok(t.(offsetMinutes := m))
  {
    hide HeadText, FractionText, ParseDate, ParseOffset, ParseFraction, ParseFixed;
    var h := HeadText(t);
    var text := h + FractionText(t.nanos) + tail;
    HeadParts(t);
    FractionPart(h, t.nanos, tail);
    assert text[..19] == h;
    assert text[..10] == h[..10] && text[11..13] == h[11..13];
    assert text[14..16] == h[14..16] && text[17..19] == h[17..19];
    assert text[19 + |FractionText(t.nanos)|..] == tail;
  }

  /** Reading a rendered datetime returns it, offset spelling and nanoseconds included. */
  lemma ParseRender(t: Datetime)
    requires Valid(t) && t.date.year <= 9999
    ensures Parse(Render(t)) == Ok(t)
  {
    OffsetRoundTrip(t.offsetMinutes);
    OffsetDecides(t, OffsetText(t.offsetMinutes));
  }

  /** Four year digits are all the grammar reads: the round trip holds for exactly the years that fit them. */
  lemma ParseRenderExactly(t: Datetime)
    requires Valid(t)
    ensures Parse(Render(t)) == Ok(t) <==> t.date.year <= 9999
  {
    hide Parse, Render;
    if t.date.year <= 9999 {
      ParseRender(t);
    } else if Parse(Render(t)).Ok? {
      ParsedTextIsCanonicalButForFraction(Render(t));
    }
  }

  /** The spellings the grammar refuses where RFC 3339 would allow them. */
  lemma StricterThanRfc3339(t: Datetime)
    requires Valid(t) && t.date.year <= 9999
    ensures Parse(HeadText(t) + FractionText(t.nanos) + "") == Err(OffsetRequired)
    ensures Parse(HeadText(t) + FractionText(t.nanos) + "Z") == Err(OffsetRequired)
    ensures Parse(HeadText(t) + FractionText(t.nanos) + "-00:00") == Err(NegativeZeroOffset)
  {
    hide HeadText, FractionText, Parse;
    OffsetDecides(t, "");
    OffsetDecides(t, "Z");
    NegativeZeroRefused();
    OffsetDecides(t, "-00:00");
  }

  lemma NegativeZeroRefused()
    ensures ParseOffset("-00:00") == Err(NegativeZeroOffset)
  {
    var zero := "-00:00";
    assert zero[1..3] == "00" && zero[4..6] == "00";
    assert Value("0") == 0 && "00"[..1] == "0";
  }

  lemma {:induction false} ScaledBound(v: nat, a: nat, b: nat)
    requires v < Pow10(a)
    ensures v * Pow10(b) < Pow10(a + b)
    decreases b
  {
    if b > 0 {
      ScaledBound(v, a, b - 1);
      assert v * Pow10(b) == 10 * (v * Pow10(b - 1));
    }
  }

  lemma FractionBound(text: string)
    requires 19 <= |text| && ParseFraction(text).Ok?
    ensures var (position, nanos) := ParseFraction(text).value;
            19 <= position <= |text| && nanos < 1_000_000_000
  {
    if 19 < |text| && text[19] == '.' {
      hide Value, Pow10;
      var digits := DigitRun(text, 20);
      DigitRunDigits(text, 20);
      ValueBound(text[20..20 + digits]);
      ScaledBound(Value(text[20..20 + digits]), digits, 9 - digits);
      Widths();
    }
  }

  lemma OffsetSpelling(offset: string)
    requires ParseOffset(offset).Ok?
    ensures -MAX_OFFSET <= ParseOffset(offset).value <= MAX_OFFSET
    ensures OffsetText(ParseOffset(offset).value) == offset
  {
    hide Padded, Value;
    Widths();
    Respell(offset[1..3]);
    Respell(offset[4..6]);
    var h, m := Value(offset[1..3]), Value(offset[4..6]);
    assert (h * 60 + m) / 60 == h && (h * 60 + m) % 60 == m;
    assert offset == [offset[0]] + offset[1..3] + ":" + offset[4..6];
  }

  lemma HeadSpelling(text: string)
    requires Parse(text).Ok?
    ensures HeadText(Parse(text).value) == text[..19]
  {
    hide Padded, Value, ParseDate, RenderDate, ParseOffset, ParseFraction;
    DateHasOneSpelling(text[..10]);
    Respell(text[11..13]);
    Respell(text[14..16]);
    Respell(text[17..19]);
    assert text[..19] == text[..10] + "T" + text[11..13] + ":" + text[14..16] + ":" + text[17..19];
  }

  /** Only the fraction may be spelled more than one way: everything around it is already canonical. */
  lemma ParsedTextIsCanonicalButForFraction(text: string)
    requires Parse(text).Ok?
    ensures var t := Parse(text).value;
            Valid(t) && t.date.year <= 9999
            && exists k :: 19 <= k <= |text| && text == HeadText(t) + text[19..k] + OffsetText(t.offsetMinutes)
                           && ParseFraction(text) == Ok((k, t.nanos))
  {
    hide HeadText, OffsetText, ParseFraction, ParseOffset, ParseDate;
    var t := Parse(text).value;
    HeadSpelling(text);
    FractionBound(text);
    var k := ParseFraction(text).value.0;
    OffsetSpelling(text[k..]);
    DateHasOneSpelling(text[..10]);
    assert text == text[..19] + text[19..k] + text[k..];
  }

  /** Parsing then rendering is an idempotent canonicalizer that keeps the value. */
  lemma CanonicalizerIsIdempotent(text: string)
    requires Parse(text).Ok?
    ensures var canonical := Render(Parse(text).value);
            Parse(canonical) == Parse(text) && Render(Parse(canonical).value) == canonical
  {
    ParsedTextIsCanonicalButForFraction(text);
    ParseRender(Parse(text).value);
  }
}
