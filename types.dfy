/**
 * The scalar codecs behind every date, datetime and decimal field of the
 * models: the before-validators that turn a raw wire value into a native
 * value and the serializers that turn it back into text. A value a decoder
 * cannot read becomes absent (dates, datetimes) or zero (decimals); the one
 * raise the model keeps is the decimal decoder's on a bool, written out in
 * `DecodeDecimalAsWritten`.
 */
module Types {
  import opened Wrappers
  import opened Text
  import opened Calendar

  /** The zero dates the vendor sends for "no date": the VB epoch and Go's zero time. */
  const VbZeroDate: CalendarDate := Date(1899, 12, 30)
  const GoZeroDate: CalendarDate := Date(1, 1, 1)

  predicate IsZeroDate(d: Date)
  {
    d == VbZeroDate || d == GoZeroDate
  }

  /** Python's `Decimal` as its coefficient and base-10 exponent: the value is coefficient * 10^exponent. */
  datatype Decimal = Decimal(coefficient: int, exponent: int)

  /** `Decimal(0)`. */
  const Zero := Decimal(0, 0)

  /** A raw field value as the validator receives it (Python `Any`). */
  datatype Wire =
    | WNone
    | WBool(b: bool)
    | WInt(i: int)
    | WText(s: string)
    | WDecimal(dec: Decimal)
    | WDate(date: CalendarDate)
    | WDateTime(dateTime: CalendarDateTime)
    | WOther

  // ===== dates =====

  /** `date.isoformat()`: YYYY-MM-DD. */
  function IsoDate(d: CalendarDate): (s: string)
    ensures |s| == 10
  {
    PadDigits(d.year, 4) + "-" + PadDigits(d.month, 2) + "-" + PadDigits(d.day, 2)
  }

  /** `date.fromisoformat(s)` restricted to the YYYY-MM-DD form; `None` where it raises `ValueError`. */
  function ParseIsoDate(s: string): (r: Option<CalendarDate>)
    ensures r.Some? ==> |s| == 10 && s == IsoDate(r.value)
  {
    if |s| == 10 && s[4] == '-' && s[7] == '-' && AllDigits(s[..4]) && AllDigits(s[5..7]) && AllDigits(s[8..])
    then
      IsoTextOf(s);
      MakeDate(DigitsValue(s[..4]), DigitsValue(s[5..7]), DigitsValue(s[8..]))
    else None
  }

  /** A YYYY-MM-DD text is the ISO text of the date its digits denote, when that date exists. */
  lemma IsoTextOf(s: string)
    requires |s| == 10 && s[4] == '-' && s[7] == '-' && AllDigits(s[..4]) && AllDigits(s[5..7]) && AllDigits(s[8..])
    ensures var d := Date(DigitsValue(s[..4]), DigitsValue(s[5..7]), DigitsValue(s[8..]));
            ValidDate(d) ==> IsoDate(d) == s
  {
    var year, month, day := s[..4], s[5..7], s[8..];
    DigitsPad(year);
    DigitsPad(month);
    DigitsPad(day);
    assert s == year + "-" + month + "-" + day;
  }

  /** Every date written by `IsoDate` reads back as itself. */
  lemma IsoDateParses(d: CalendarDate)
    ensures ParseIsoDate(IsoDate(d)) == Some(d)
  {
    var s := IsoDate(d);
    assert s[..4] == PadDigits(d.year, 4);
    assert s[5..7] == PadDigits(d.month, 2);
    assert s[8..] == PadDigits(d.day, 2);
    PadDigitsValue(d.year, 4);
    PadDigitsValue(d.month, 2);
    PadDigitsValue(d.day, 2);
  }

  /** `date(int(parts[2]), int(parts[1]), int(parts[0]))`: day, month, year; `None` where it raises. */
  function EuropeanDate(parts: seq<string>): (r: Option<CalendarDate>)
    requires |parts| == 3
    ensures r.Some? ==> ParseNat(parts[0]) == Some(r.value.day) && ParseNat(parts[1]) == Some(r.value.month)
                        && ParseNat(parts[2]) == Some(r.value.year)
  {
    var day, month, year := ParseNat(parts[0]), ParseNat(parts[1]), ParseNat(parts[2]);
    if day.Some? && month.Some? && year.Some? then MakeDate(year.value, month.value, day.value) else None
  }

  /** The DD.MM.YYYY branch of date decoding: exactly three dot-separated parts. */
  function ParseEuropeanDate(s: string): (r: Option<CalendarDate>)
    ensures r.Some? ==> var parts := Split(s, ".");
      |parts| == 3 && ParseNat(parts[0]) == Some(r.value.day) && ParseNat(parts[1]) == Some(r.value.month)
      && ParseNat(parts[2]) == Some(r.value.year)
  {
    var parts := Split(s, ".");
    if |parts| == 3 then EuropeanDate(parts) else None
  }

  /** String branch of `_parse_rr_date` for a non-empty string. */
  function DecodeDateText(s: string): (r: Option<CalendarDate>)
    ensures r.Some? ==> ParseIsoDate(s) == r || ('.' in s && ParseEuropeanDate(s) == r)
    ensures r.Some? && IsZeroDate(r.value) ==> ParseIsoDate(s).None? && '.' in s
  {
    match ParseIsoDate(s)
    case Some(d) => if IsZeroDate(d) then None else Some(d)
    case None => if '.' in s then ParseEuropeanDate(s) else None
  }

  /** `_parse_rr_date`. */
  function DecodeDate(v: Wire): (r: Option<CalendarDate>)
    ensures v.WNone? || v == WText("") ==> r.None?
    ensures v.WDate? ==> (r.None? <==> IsZeroDate(v.date)) && (r.Some? ==> r.value == v.date)
    ensures v.WBool? || v.WInt? || v.WDecimal? || v.WOther? ==> r.None?
    ensures r.Some? && v.WText? && '.' !in v.s ==> !IsZeroDate(r.value)
  {
    match v
    case WNone => None
    case WText(s) => if s == "" then None else DecodeDateText(s)
    case WDate(d) => if IsZeroDate(d) then None else Some(d)
    case WDateTime(t) => Some(t.date)
    case _ => None
  }

  /** `_serialize_rr_date`. */
  function EncodeDate(d: Option<CalendarDate>): (s: string)
    ensures s == "" <==> d.None?
    ensures d.Some? ==> ParseIsoDate(s) == d
  {
    match d
    case None => ""
    case Some(x) => IsoDateParses(x); IsoDate(x)
  }

  /** Decoding the encoding of any date other than the two zero dates gives the date back. */
  lemma DateRoundTrip(d: CalendarDate)
    requires !IsZeroDate(d)
    ensures DecodeDate(WText(EncodeDate(Some(d)))) == Some(d)
  {
    IsoDateParses(d);
  }

  /** A zero date is written out like any other date, and decoding that text gives "no date". */
  lemma ZeroDateRoundTrip(d: CalendarDate)
    requires IsZeroDate(d)
    ensures EncodeDate(Some(d)) != "" && DecodeDate(WText(EncodeDate(Some(d)))) == None
  {
    IsoDateParses(d);
  }

  /** DD.MM.YYYY with two-digit day and month and four-digit year. */
  function EuropeanText(d: CalendarDate): (s: string)
    ensures |s| == 10
  {
    PadDigits(d.day, 2) + "." + PadDigits(d.month, 2) + "." + PadDigits(d.year, 4)
  }

  /** Only digits and '.' appear in a European date. */
  lemma EuropeanTextLacks(d: CalendarDate, c: char)
    requires !IsDigit(c) && c != '.'
    ensures c !in EuropeanText(d)
  {
    NoOtherCharInDigits(PadDigits(d.day, 2), c);
    NoOtherCharInDigits(PadDigits(d.month, 2), c);
    NoOtherCharInDigits(PadDigits(d.year, 4), c);
  }

  /** A European date is no ISO date: index 4 holds a digit of the month, not '-'. */
  lemma EuropeanTextNotIso(d: CalendarDate)
    ensures ParseIsoDate(EuropeanText(d)).None?
  {
    var s := EuropeanText(d);
    assert s[4] == PadDigits(d.month, 2)[1];
  }

  /** The DD.MM.YYYY reader gives back the date a European text was written from. */
  lemma EuropeanTextParses(d: CalendarDate)
    ensures ParseEuropeanDate(EuropeanText(d)) == Some(d)
  {
    var dd, mm, yy := PadDigits(d.day, 2), PadDigits(d.month, 2), PadDigits(d.year, 4);
    assert Join([yy], ".") == yy;
    assert Join([mm, yy], ".") == mm + "." + yy;
    assert Join([dd, mm, yy], ".") == EuropeanText(d);
    NoOtherCharInDigits(dd, '.');
    NoOtherCharInDigits(mm, '.');
    NoOtherCharInDigits(yy, '.');
    SplitJoin([dd, mm, yy], ".");
    PadDigitsValue(d.day, 2);
    PadDigitsValue(d.month, 2);
    PadDigitsValue(d.year, 4);
  }

  /**
   * The European form decodes to the same date as the ISO form, and that
   * branch has no zero-date check: "30.12.1899" decodes to 1899-12-30.
   */
  lemma EuropeanDateDecodes(d: CalendarDate)
    ensures DecodeDate(WText(EuropeanText(d))) == Some(d)
  {
    EuropeanTextNotIso(d);
    assert EuropeanText(d)[2] == '.';
    EuropeanTextParses(d);
  }

  // ===== datetimes =====

  /** HH:MM:SS. */
  function Clock(t: CalendarDateTime): (s: string)
    ensures |s| == 8
  {
    PadDigits(t.hour, 2) + ":" + PadDigits(t.minute, 2) + ":" + PadDigits(t.second, 2)
  }

  /** The digits of HH:MM:SS, not yet range-checked. */
  function ParseClock(s: string): (r: Option<(nat, nat, nat)>)
    ensures r.Some? ==> s == PadDigits(r.value.0, 2) + ":" + PadDigits(r.value.1, 2) + ":" + PadDigits(r.value.2, 2)
  {
    if |s| == 8 && s[2] == ':' && s[5] == ':' && AllDigits(s[..2]) && AllDigits(s[3..5]) && AllDigits(s[6..])
    then
      ClockTextOf(s);
      Some((DigitsValue(s[..2]), DigitsValue(s[3..5]), DigitsValue(s[6..])))
    else None
  }

  /** An HH:MM:SS text is the clock text of the numbers its digits denote. */
  lemma ClockTextOf(s: string)
    requires |s| == 8 && s[2] == ':' && s[5] == ':' && AllDigits(s[..2]) && AllDigits(s[3..5]) && AllDigits(s[6..])
    ensures s == PadDigits(DigitsValue(s[..2]), 2) + ":" + PadDigits(DigitsValue(s[3..5]), 2) + ":" + PadDigits(DigitsValue(s[6..]), 2)
  {
    var hh, mm, ss := s[..2], s[3..5], s[6..];
    DigitsPad(hh);
    DigitsPad(mm);
    DigitsPad(ss);
    assert s == hh + ":" + mm + ":" + ss;
  }

  lemma ClockParses(t: CalendarDateTime)
    ensures ParseClock(Clock(t)) == Some((t.hour, t.minute, t.second))
  {
    var s := Clock(t);
    assert s[..2] == PadDigits(t.hour, 2);
    assert s[3..5] == PadDigits(t.minute, 2);
    assert s[6..] == PadDigits(t.second, 2);
    PadDigitsValue(t.hour, 2);
    PadDigitsValue(t.minute, 2);
    PadDigitsValue(t.second, 2);
  }

  /** The `+HH:MM` / `-HH:MM` suffix of `isoformat()` for an offset in minutes. */
  function OffsetText(minutes: int): (s: string)
    requires -MinutesPerDay < minutes < MinutesPerDay
    ensures |s| == 6
  {
    var magnitude := if minutes < 0 then -minutes else minutes;
    (if minutes < 0 then "-" else "+") + PadDigits(magnitude / 60, 2) + ":" + PadDigits(magnitude % 60, 2)
  }

  /**
   * A `±HH:MM` suffix as minutes; `None` for any other text or an offset of a
   * day or more. Neither field is range-checked on its own, as `fromisoformat`
   * does not check them: "+05:75" is +06:15.
   */
  function ParseOffset(s: string): (r: Option<int>)
    ensures r.Some? ==> -MinutesPerDay < r.value < MinutesPerDay
    ensures r.Some? ==> |s| == 6 && s[3] == ':' && (r.value < 0 ==> s[0] == '-') && (r.value > 0 ==> s[0] == '+')
    ensures r.Some? ==> AllDigits(s[1..3]) && AllDigits(s[4..])
                        && (if r.value < 0 then -r.value else r.value) == DigitsValue(s[1..3]) * 60 + DigitsValue(s[4..])
  {
    if |s| == 6 && (s[0] == '+' || s[0] == '-') && s[3] == ':' && AllDigits(s[1..3]) && AllDigits(s[4..]) then
      var magnitude := DigitsValue(s[1..3]) * 60 + DigitsValue(s[4..]);
      if magnitude < MinutesPerDay then
        Some(if s[0] == '-' then -magnitude else magnitude)
      else None
    else None
  }

  /** The minutes field is not range-checked on its own: "+05:75" reads as +06:15. */
  lemma UncheckedOffsetMinutes()
    ensures ParseOffset("+05:75") == Some(375)
  {
    var s := "+05:75";
    assert s[1..3] == "05" && s[4..] == "75";
    assert DigitsValue("05") == 5 && DigitsValue("75") == 75;
  }

  lemma OffsetParses(minutes: int)
    requires -MinutesPerDay < minutes < MinutesPerDay
    ensures ParseOffset(OffsetText(minutes)) == Some(minutes)
  {
    var magnitude: nat := if minutes < 0 then -minutes else minutes;
    var (h, m) := DivMod(magnitude, 60);
    OffsetTextParts(minutes);
    var s := OffsetText(minutes);
    PadDigitsValue(h, 2);
    PadDigitsValue(m, 2);
    assert DigitsValue(s[1..3]) * 60 + DigitsValue(s[4..]) == magnitude;
  }

  /** The sign, the hours and the minutes of an offset suffix. */
  lemma OffsetTextParts(minutes: int)
    requires -MinutesPerDay < minutes < MinutesPerDay
    ensures var s, magnitude := OffsetText(minutes), if minutes < 0 then -minutes else minutes;
            && (s[0] == '-' <==> minutes < 0) && (s[0] == '+' || s[0] == '-') && s[3] == ':'
            && s[1..3] == PadDigits(magnitude / 60, 2) && s[4..] == PadDigits(magnitude % 60, 2)
            && magnitude / 60 < 100 && magnitude % 60 < 100
  {
  }

  /** A datetime from YYYY-MM-DD and HH:MM:SS texts and an offset; `None` where a part does not parse or `datetime()` raises. */
  function Assemble(dateText: string, clockText: string, offset: Option<int>): (r: Option<CalendarDateTime>)
    ensures r.Some? ==> dateText == IsoDate(r.value.date) && r.value.offset == offset
  {
    var date := ParseIsoDate(dateText);
    var clock := ParseClock(clockText);
    if date.Some? && clock.Some?
    then MakeDateTime(date.value, clock.value.0, clock.value.1, clock.value.2, offset)
    else None
  }

  /**
   * `datetime.fromisoformat(s)` restricted to YYYY-MM-DDTHH:MM:SS with an
   * optional `±HH:MM` offset; a value without offset is naive.
   */
  function ParseIsoDateTime(s: string): (r: Option<CalendarDateTime>)
    ensures r.Some? ==> (|s| == 19 || |s| == 25) && s[10] == 'T' && s[..10] == IsoDate(r.value.date)
    ensures r.Some? ==> (r.value.offset.None? <==> |s| == 19)
  {
    if |s| == 19 && s[10] == 'T' then Assemble(s[..10], s[11..], None)
    else if |s| == 25 && s[10] == 'T' then
      var offset := ParseOffset(s[19..]);
      if offset.Some? then Assemble(s[..10], s[11..19], offset) else None
    else None
  }

  /** `datetime.strptime(s, "%Y-%m-%d %H:%M:%S").replace(tzinfo=timezone.utc)` for the fixed-width form. */
  function ParseSpacedDateTime(s: string): (r: Option<CalendarDateTime>)
    ensures r.Some? ==> |s| == 19 && s[10] == ' ' && s[..10] == IsoDate(r.value.date) && r.value.offset == Some(0)
  {
    if |s| == 19 && s[10] == ' ' then Assemble(s[..10], s[11..], Some(0)) else None
  }

  /** Midnight UTC on a date. */
  function MidnightUtc(d: CalendarDate): CalendarDateTime
  {
    DateTime(d, 0, 0, 0, Some(0))
  }

  /**
   * DD.MM.YYYY[ HH[:MM[:SS]]] in UTC: the text is split on spaces, the first
   * part on dots (exactly three parts), the second part, if any, on colons;
   * extra parts are ignored and missing minutes and seconds are 0.
   */
  function ParseEuropeanDateTime(s: string): (r: Option<CalendarDateTime>)
    ensures r.Some? ==> r.value.offset == Some(0) && ParseEuropeanDate(Split(s, " ")[0]) == Some(r.value.date)
    ensures r.Some? && ' ' !in s ==> r.value == MidnightUtc(r.value.date)
  {
    var parts := Split(s, " ");
    assert ' ' !in s ==> |parts| == 1 by {
      if ' ' !in s { SplitWhole(s, " "); }
    }
    match ParseEuropeanDate(parts[0])
    case None => None
    case Some(d) => if |parts| > 1 then EuropeanTime(d, parts[1]) else Some(MidnightUtc(d))
  }

  /** The time after a European date: HH[:MM[:SS]] split on colons, extra parts ignored, in UTC. */
  function EuropeanTime(d: CalendarDate, time: string): (r: Option<CalendarDateTime>)
    ensures r.Some? ==> r.value.date == d && r.value.offset == Some(0)
    ensures r.Some? && ':' !in time ==> r.value.minute == 0 && r.value.second == 0
  {
    var timeParts := Split(time, ":");
    assert ':' !in time ==> |timeParts| == 1 by {
      if ':' !in time { SplitWhole(time, ":"); }
    }
    var hour := ParseNat(timeParts[0]);
    var minute := if |timeParts| > 1 then ParseNat(timeParts[1]) else Some(0);
    var second := if |timeParts| > 2 then ParseNat(timeParts[2]) else Some(0);
    if hour.Some? && minute.Some? && second.Some?
    then MakeDateTime(d, hour.value, minute.value, second.value, Some(0))
    else None
  }

  /** String branch of `_parse_rr_datetime` for a non-empty string: the first branch that succeeds wins. */
  function DecodeDateTimeText(s: string): (r: Option<CalendarDateTime>)
    ensures r.Some? && 'T' !in s ==> r.value.offset == Some(0)
  {
    var rfc := if 'T' in s then ParseIsoDateTime(ReplaceAll(s, 'Z', "+00:00")) else None;
    if rfc.Some? then rfc
    else
      var spaced := if ' ' in s && |s| == 19 then ParseSpacedDateTime(s) else None;
      if spaced.Some? then spaced
      else
        var dateOnly := if |s| == 10 then ParseIsoDate(s) else None;
        if dateOnly.Some? then Some(MidnightUtc(dateOnly.value))
        else if '.' in s then ParseEuropeanDateTime(s)
        else None
  }

  /** `_parse_rr_datetime`: a native datetime passes through with no zero-date check. */
  function DecodeDateTime(v: Wire): (r: Option<CalendarDateTime>)
    ensures v.WNone? || v == WText("") ==> r.None?
    ensures v.WDateTime? ==> r == Some(v.dateTime)
    ensures v.WBool? || v.WInt? || v.WDecimal? || v.WDate? || v.WOther? ==> r.None?
  {
    match v
    case WNone => None
    case WText(s) => if s == "" then None else DecodeDateTimeText(s)
    case WDateTime(t) => Some(t)
    case _ => None
  }

  /** 1899-12-30 00:00:00 with any offset or none. */
  predicate IsZeroDateTime(t: DateTime)
  {
    t.date == VbZeroDate && t.hour == 0 && t.minute == 0 && t.second == 0
  }

  predicate IsMidnight(t: DateTime)
  {
    t.hour == 0 && t.minute == 0 && t.second == 0
  }

  /** `_serialize_rr_datetime`. */
  function EncodeDateTime(t: Option<CalendarDateTime>): (s: string)
    ensures s == "" <==> t.None? || IsZeroDateTime(t.value)
    ensures t.Some? && !IsZeroDateTime(t.value) ==>
      |s| == (if IsAware(t.value) then 25 else if IsMidnight(t.value) then 10 else 19)
    ensures t.Some? && !IsZeroDateTime(t.value) && IsAware(t.value) ==>
      s[10] == 'T' && ParseIsoDateTime(s) == t
    ensures t.Some? && !IsZeroDateTime(t.value) && !IsAware(t.value) && IsMidnight(t.value) ==>
      ParseIsoDate(s) == Some(t.value.date)
    ensures t.Some? && !IsZeroDateTime(t.value) && !IsAware(t.value) && !IsMidnight(t.value) ==>
      ParseSpacedDateTime(s) == Some(t.value.(offset := Some(0)))
  {
    match t
    case None => ""
    case Some(x) =>
      if IsZeroDateTime(x) then ""
      else if IsAware(x) then
        AwareIsoParses(x);
        IsoDate(x.date) + "T" + Clock(x) + OffsetText(x.offset.value)
      else if IsMidnight(x) then
        IsoDateParses(x.date);
        IsoDate(x.date)
      else
        SpacedParses(x);
        IsoDate(x.date) + " " + Clock(x)
  }

  /** Only digits and '-' appear in an ISO date. */
  lemma IsoDateLacks(d: CalendarDate, c: char)
    requires !IsDigit(c) && c != '-'
    ensures c !in IsoDate(d)
  {
    NoOtherCharInDigits(PadDigits(d.year, 4), c);
    NoOtherCharInDigits(PadDigits(d.month, 2), c);
    NoOtherCharInDigits(PadDigits(d.day, 2), c);
  }

  /** Only digits and ':' appear in HH:MM:SS. */
  lemma ClockLacks(t: CalendarDateTime, c: char)
    requires !IsDigit(c) && c != ':'
    ensures c !in Clock(t)
  {
    NoOtherCharInDigits(PadDigits(t.hour, 2), c);
    NoOtherCharInDigits(PadDigits(t.minute, 2), c);
    NoOtherCharInDigits(PadDigits(t.second, 2), c);
  }

  /** Only digits, a sign and ':' appear in an offset suffix. */
  lemma OffsetLacks(minutes: int, c: char)
    requires -MinutesPerDay < minutes < MinutesPerDay
    requires !IsDigit(c) && c != ':' && c != '+' && c != '-'
    ensures c !in OffsetText(minutes)
  {
    var magnitude := if minutes < 0 then -minutes else minutes;
    NoOtherCharInDigits(PadDigits(magnitude / 60, 2), c);
    NoOtherCharInDigits(PadDigits(magnitude % 60, 2), c);
  }

  /**
   * A naive datetime other than the zero datetime comes back from its own
   * encoding with the same date and time of day, now marked UTC.
   */
  lemma NaiveDateTimeRoundTrip(t: CalendarDateTime)
    requires !IsAware(t) && !IsZeroDateTime(t)
    ensures DecodeDateTime(WText(EncodeDateTime(Some(t)))) == Some(t.(offset := Some(0)))
  {
    if IsMidnight(t) {
      assert EncodeDateTime(Some(t)) == IsoDate(t.date);
      MidnightDecodes(t.date);
      assert MidnightUtc(t.date) == t.(offset := Some(0));
    } else {
      assert EncodeDateTime(Some(t)) == IsoDate(t.date) + " " + Clock(t);
      SpacedDecodes(t);
    }
  }

  /** The date-only form decodes to midnight UTC. */
  lemma MidnightDecodes(d: CalendarDate)
    ensures DecodeDateTime(WText(IsoDate(d))) == Some(MidnightUtc(d))
  {
    IsoDateParses(d);
    IsoDateLacks(d, 'T');
    IsoDateLacks(d, ' ');
  }

  /** The spaced form decodes to the same wall-clock time in UTC. */
  lemma SpacedDecodes(t: CalendarDateTime)
    ensures DecodeDateTime(WText(IsoDate(t.date) + " " + Clock(t))) == Some(t.(offset := Some(0)))
  {
    var s := IsoDate(t.date) + " " + Clock(t);
    IsoDateLacks(t.date, 'T');
    ClockLacks(t, 'T');
    SpacedParses(t);
    SpacedBranch(s);
  }

  /** A text without 'T' that `strptime` reads decodes to what it reads. */
  lemma SpacedBranch(s: string)
    requires 'T' !in s && ParseSpacedDateTime(s).Some?
    ensures DecodeDateTime(WText(s)) == ParseSpacedDateTime(s)
  {
    assert s[10] == ' ';
  }

  /** `strptime` reads the spaced form as the same wall-clock time, marked UTC. */
  lemma SpacedParses(t: CalendarDateTime)
    ensures ParseSpacedDateTime(IsoDate(t.date) + " " + Clock(t)) == Some(t.(offset := Some(0)))
  {
    var date, clock := IsoDate(t.date), Clock(t);
    var s := date + " " + clock;
    assert s[10] == ' ' && s[..10] == date && s[11..] == clock;
    AssembleReads(t, Some(0));
  }

  /** The date and clock texts of a datetime assemble back into it, with any valid offset. */
  lemma AssembleReads(t: CalendarDateTime, offset: Option<int>)
    requires offset.Some? ==> -MinutesPerDay < offset.value < MinutesPerDay
    ensures Assemble(IsoDate(t.date), Clock(t), offset) == Some(t.(offset := offset))
  {
    IsoDateParses(t.date);
    ClockParses(t);
  }

  /** An aware datetime other than the zero datetime comes back from its own encoding unchanged, offset included. */
  lemma AwareDateTimeRoundTrip(t: CalendarDateTime)
    requires IsAware(t) && !IsZeroDateTime(t)
    ensures DecodeDateTime(WText(EncodeDateTime(Some(t)))) == Some(t)
  {
    var s := IsoDate(t.date) + "T" + Clock(t) + OffsetText(t.offset.value);
    assert EncodeDateTime(Some(t)) == s;
    IsoDateLacks(t.date, 'Z');
    ClockLacks(t, 'Z');
    OffsetLacks(t.offset.value, 'Z');
    AwareIsoParses(t);
    ZuluFreeDecodes(s);
  }

  lemma AwareIsoParses(t: CalendarDateTime)
    requires IsAware(t)
    ensures ParseIsoDateTime(IsoDate(t.date) + "T" + Clock(t) + OffsetText(t.offset.value)) == Some(t)
  {
    var date, clock, offset := IsoDate(t.date), Clock(t), OffsetText(t.offset.value);
    var s := date + "T" + clock + offset;
    assert |s| == 25 && s[10] == 'T';
    assert s[..10] == date && s[11..19] == clock && s[19..] == offset;
    OffsetParses(t.offset.value);
    AssembleReads(t, t.offset);
  }

  /** A text with a 'T' at index 10 and no 'Z' that `fromisoformat` reads decodes to what it reads. */
  lemma ZuluFreeDecodes(s: string)
    requires |s| > 10 && s[10] == 'T' && 'Z' !in s
    requires ParseIsoDateTime(s).Some?
    ensures DecodeDateTime(WText(s)) == ParseIsoDateTime(s)
  {
    ReplaceAbsent(s, 'Z', "+00:00");
    RfcBranch(s);
  }

  lemma NaiveIsoParses(t: CalendarDateTime)
    requires !IsAware(t)
    ensures ParseIsoDateTime(IsoDate(t.date) + "T" + Clock(t)) == Some(t)
  {
    var date, clock := IsoDate(t.date), Clock(t);
    var s := date + "T" + clock;
    assert |s| == 19 && s[10] == 'T' && s[..10] == date && s[11..] == clock;
    AssembleReads(t, None);
  }

  /**
   * The T form without an offset decodes to a naive value: nothing marks it
   * UTC, unlike the spaced, date-only and European forms.
   */
  lemma NaiveIsoDecodes(t: CalendarDateTime)
    requires !IsAware(t)
    ensures DecodeDateTime(WText(IsoDate(t.date) + "T" + Clock(t))) == Some(t)
  {
    IsoDateLacks(t.date, 'Z');
    ClockLacks(t, 'Z');
    NaiveIsoParses(t);
    ZuluFreeDecodes(IsoDate(t.date) + "T" + Clock(t));
  }

  /** The offset suffix of UTC. */
  lemma OffsetTextUtc()
    ensures OffsetText(0) == "+00:00"
  {
    assert 0 / 60 == 0 && 0 % 60 == 0;
    assert PadDigits(0, 1) == [DigitChar(0)];
    assert DigitChar(0) == '0';
    assert PadDigits(0, 2) == PadDigits(0, 1) + [DigitChar(0)];
  }

  /** A text with a 'T' that `fromisoformat` reads once "Z" is replaced by "+00:00" decodes to what it reads. */
  lemma RfcBranch(s: string)
    requires 'T' in s && ParseIsoDateTime(ReplaceAll(s, 'Z', "+00:00")).Some?
    ensures DecodeDateTime(WText(s)) == ParseIsoDateTime(ReplaceAll(s, 'Z', "+00:00"))
  {
  }

  /** Replacing "Z" in a text that ends in its only "Z" gives the text with the UTC offset suffix. */
  lemma ZuluReplaced(p: string)
    requires 'Z' !in p
    ensures ReplaceAll(p + "Z", 'Z', "+00:00") == p + OffsetText(0)
  {
    ReplaceConcat(p, "Z", 'Z', "+00:00");
    ReplaceAbsent(p, 'Z', "+00:00");
    assert ReplaceAll("Z", 'Z', "+00:00") == "+00:00";
    OffsetTextUtc();
  }

  /** A trailing "Z" is read as +00:00: the T form ending in "Z" decodes to the UTC datetime it denotes. */
  lemma ZuluDecodes(t: CalendarDateTime)
    requires t.offset == Some(0)
    ensures DecodeDateTime(WText(IsoDate(t.date) + "T" + Clock(t) + "Z")) == Some(t)
  {
    var p := IsoDate(t.date) + "T" + Clock(t);
    IsoDateLacks(t.date, 'Z');
    ClockLacks(t, 'Z');
    ZuluReplaced(p);
    AwareIsoParses(t);
    assert (p + "Z")[10] == 'T';
    RfcBranch(p + "Z");
  }

  /**
   * A European date, a space and a time without spaces reaches the European
   * branch: the text has no 'T', and its first ten characters are no ISO date.
   */
  lemma EuropeanBranchDecodes(d: CalendarDate, time: string)
    requires ' ' !in time && 'T' !in time
    ensures DecodeDateTime(WText(EuropeanText(d) + " " + time)) == ParseEuropeanDateTime(EuropeanText(d) + " " + time)
  {
    var e := EuropeanText(d);
    var s := e + " " + time;
    EuropeanTextLacks(d, 'T');
    EuropeanTextNotIso(d);
    assert s[..10] == e && s[10] == ' ' && s[2] == '.';
  }

  /** A European date, a space and a time without spaces is read as that date with that time. */
  lemma EuropeanTimeSplit(d: CalendarDate, time: string)
    requires ' ' !in time
    ensures ParseEuropeanDateTime(EuropeanText(d) + " " + time) == EuropeanTime(d, time)
  {
    EuropeanTextLacks(d, ' ');
    SplitPair(EuropeanText(d), time, ' ');
    EuropeanTextParses(d);
  }

  /** "HH:MM:SS" after a European date reads as that time in UTC. */
  lemma EuropeanClockReads(t: CalendarDateTime)
    requires t.offset == Some(0)
    ensures EuropeanTime(t.date, Clock(t)) == Some(t)
  {
    var hh, mm, ss := PadDigits(t.hour, 2), PadDigits(t.minute, 2), PadDigits(t.second, 2);
    NoOtherCharInDigits(hh, ':');
    NoOtherCharInDigits(mm, ':');
    NoOtherCharInDigits(ss, ':');
    SplitTriple(hh, mm, ss, ':');
    PadParses(t.hour, 2);
    PadParses(t.minute, 2);
    PadParses(t.second, 2);
  }

  /** "HH:MM" after a European date reads as that time in UTC with the seconds 0. */
  lemma EuropeanHourMinuteReads(t: CalendarDateTime)
    requires t.offset == Some(0)
    ensures EuropeanTime(t.date, PadDigits(t.hour, 2) + ":" + PadDigits(t.minute, 2)) == Some(t.(second := 0))
  {
    var hh, mm := PadDigits(t.hour, 2), PadDigits(t.minute, 2);
    NoOtherCharInDigits(hh, ':');
    NoOtherCharInDigits(mm, ':');
    SplitPair(hh, mm, ':');
    PadParses(t.hour, 2);
    PadParses(t.minute, 2);
  }

  /** "HH" after a European date reads as that hour in UTC with the minutes and seconds 0. */
  lemma EuropeanHourReads(t: CalendarDateTime)
    requires t.offset == Some(0)
    ensures EuropeanTime(t.date, PadDigits(t.hour, 2)) == Some(t.(minute := 0, second := 0))
  {
    var hh := PadDigits(t.hour, 2);
    NoOtherCharInDigits(hh, ':');
    SplitWhole(hh, ":");
    PadParses(t.hour, 2);
  }

  /** A European datetime with hours, minutes and seconds decodes to that time in UTC. */
  lemma EuropeanDateTimeDecodes(t: CalendarDateTime)
    requires t.offset == Some(0)
    ensures DecodeDateTime(WText(EuropeanText(t.date) + " " + Clock(t))) == Some(t)
  {
    ClockLacks(t, ' ');
    ClockLacks(t, 'T');
    EuropeanBranchDecodes(t.date, Clock(t));
    EuropeanTimeSplit(t.date, Clock(t));
    EuropeanClockReads(t);
  }

  /** A European datetime with hours and minutes only decodes with the seconds 0. */
  lemma EuropeanHourMinuteDecodes(t: CalendarDateTime)
    requires t.offset == Some(0)
    ensures DecodeDateTime(WText(EuropeanText(t.date) + " " + PadDigits(t.hour, 2) + ":" + PadDigits(t.minute, 2)))
         == Some(t.(second := 0))
  {
    var hh, mm := PadDigits(t.hour, 2), PadDigits(t.minute, 2);
    var time := hh + ":" + mm;
    NoOtherCharInDigits(hh, ' ');
    NoOtherCharInDigits(mm, ' ');
    NoOtherCharInDigits(hh, 'T');
    NoOtherCharInDigits(mm, 'T');
    assert EuropeanText(t.date) + " " + hh + ":" + mm == EuropeanText(t.date) + " " + time;
    EuropeanBranchDecodes(t.date, time);
    EuropeanTimeSplit(t.date, time);
    EuropeanHourMinuteReads(t);
  }

  /** A European datetime with the hour only decodes with the minutes and seconds 0. */
  lemma EuropeanHourDecodes(t: CalendarDateTime)
    requires t.offset == Some(0)
    ensures DecodeDateTime(WText(EuropeanText(t.date) + " " + PadDigits(t.hour, 2))) == Some(t.(minute := 0, second := 0))
  {
    var hh := PadDigits(t.hour, 2);
    NoOtherCharInDigits(hh, ' ');
    NoOtherCharInDigits(hh, 'T');
    EuropeanBranchDecodes(t.date, hh);
    EuropeanTimeSplit(t.date, hh);
    EuropeanHourReads(t);
  }

  /** A European date alone decodes, as a datetime, to midnight UTC of that date. */
  lemma EuropeanMidnightDecodes(d: CalendarDate)
    ensures DecodeDateTime(WText(EuropeanText(d))) == Some(MidnightUtc(d))
  {
    var e := EuropeanText(d);
    EuropeanTextLacks(d, 'T');
    EuropeanTextLacks(d, ' ');
    EuropeanTextNotIso(d);
    assert e[2] == '.';
    SplitWhole(e, " ");
    EuropeanTextParses(d);
  }

  // ===== decimals =====

  /** Digits with at most one '.' and at least one digit, as the magnitude of its digits and the count of fraction digits. */
  function ParseUnsigned(body: string): Option<(nat, nat)>
  {
    var pieces := Split(body, ".");
    var whole := pieces[0];
    var fraction := if |pieces| == 2 then pieces[1] else "";
    if |pieces| <= 2 && |whole| + |fraction| > 0 && AllDigits(whole) && AllDigits(fraction)
    then Some((DigitsValue(whole) * Pow10(|fraction|) + DigitsValue(fraction), |fraction|))
    else None
  }

  /**
   * `Decimal(s)` restricted to plain literals: an optional sign, digits, and
   * at most one '.', with at least one digit; `None` where `Decimal()` signals
   * `InvalidOperation`.
   */
  function ParseDecimalLiteral(s: string): (r: Option<Decimal>)
    ensures r.Some? ==> r.value.exponent <= 0
  {
    var negative := |s| > 0 && s[0] == '-';
    var body := if |s| > 0 && (s[0] == '-' || s[0] == '+') then s[1..] else s;
    match ParseUnsigned(body)
    case Some((magnitude, places)) => Some(Decimal(if negative then -(magnitude as int) else magnitude, -(places as int)))
    case None => None
  }

  /** Quotient and remainder of a natural number by a positive one. */
  function DivMod(n: nat, p: nat): (r: (nat, nat))
    requires p >= 1
    ensures r.0 * p + r.1 == n && r.1 < p
  {
    (n / p, n % p)
  }

  /** The unsigned literal with `places` fraction digits for whole part `q` and fraction digits `r`. */
  function UnsignedLiteral(q: nat, r: nat, places: nat): (s: string)
    ensures |s| > 0 && IsDigit(s[0])
  {
    NatToString(q) + (if places == 0 then "" else "." + PadDigits(r, places))
  }

  lemma UnsignedLiteralParses(q: nat, r: nat, places: nat)
    requires r < Pow10(places)
    ensures ParseUnsigned(UnsignedLiteral(q, r, places)) == Some((q * Pow10(places) + r, places))
  {
    if places == 0 {
      assert UnsignedLiteral(q, r, places) == NatToString(q);
      assert r == 0 && Pow10(places) == 1;
      WholeLiteralParses(q);
    } else {
      assert UnsignedLiteral(q, r, places) == NatToString(q) + "." + PadDigits(r, places);
      FractionLiteralParses(q, r, places);
    }
  }

  lemma WholeLiteralParses(q: nat)
    ensures ParseUnsigned(NatToString(q)) == Some((q, 0))
  {
    var whole := NatToString(q);
    NoOtherCharInDigits(whole, '.');
    NatToStringValue(q);
    SplitWhole(whole, ".");
  }

  lemma FractionLiteralParses(q: nat, r: nat, places: nat)
    requires 0 < places && r < Pow10(places)
    ensures ParseUnsigned(NatToString(q) + "." + PadDigits(r, places)) == Some((q * Pow10(places) + r, places))
  {
    var whole := NatToString(q);
    var fraction := PadDigits(r, places);
    NoOtherCharInDigits(whole, '.');
    NoOtherCharInDigits(fraction, '.');
    SplitPair(whole, fraction, '.');
    NatToStringValue(q);
    PadDigitsValue(r, places);
    assert |fraction| == places;
  }

  /** A decimal with exponent at most 0 written as a plain literal, all its fraction digits kept ("123.4500"). */
  function DecimalLiteral(d: Decimal): string
    requires d.exponent <= 0
  {
    var magnitude: nat := if d.coefficient < 0 then -d.coefficient else d.coefficient;
    var places: nat := -d.exponent;
    var (whole, fraction) := DivMod(magnitude, Pow10(places));
    (if d.coefficient < 0 then "-" else "") + UnsignedLiteral(whole, fraction, places)
  }

  /** Every decimal with exponent at most 0 reads back from its plain literal. */
  lemma DecimalLiteralParses(d: Decimal)
    requires d.exponent <= 0
    ensures ParseDecimalLiteral(DecimalLiteral(d)) == Some(d)
  {
    var magnitude: nat := if d.coefficient < 0 then -d.coefficient else d.coefficient;
    var places: nat := -d.exponent;
    var (q, r) := DivMod(magnitude, Pow10(places));
    var body := UnsignedLiteral(q, r, places);
    var s := DecimalLiteral(d);
    assert s == (if d.coefficient < 0 then "-" else "") + body;
    assert (if |s| > 0 && (s[0] == '-' || s[0] == '+') then s[1..] else s) == body;
    UnsignedLiteralParses(q, r, places);
  }

  /**
   * `_parse_rr_decimal` as written; `None` where the call raises. A bool is an
   * `int` to `isinstance`, so it reaches `Decimal(str(value))`, that is
   * `Decimal("True")` or `Decimal("False")`, which raises `InvalidOperation`.
   */
  function DecodeDecimalAsWritten(v: Wire): (r: Option<Decimal>)
    ensures v.WNone? || v == WText("") || v.WDate? || v.WDateTime? || v.WOther? ==> r == Some(Zero)
    ensures v.WDecimal? ==> r == Some(v.dec)
    ensures v.WText? ==> r.Some?
  {
    match v
    case WNone => Some(Zero)
    case WDecimal(d) => Some(d)
    case WBool(b) => ParseDecimalLiteral(if b then "True" else "False")
    case WInt(i) => ParseDecimalLiteral(IntToString(i))
    case WText(s) =>
      if s == "" then Some(Zero)
      else Some(ParseDecimalLiteral(ReplaceAll(s, ',', ".")).GetOr(Zero))
    case _ => Some(Zero)
  }

  lemma IntLiteralParses(i: int)
    ensures ParseDecimalLiteral(IntToString(i)) == Some(Decimal(i, 0))
  {
    var n: nat := if i < 0 then -i else i;
    var digits := NatToString(n);
    WholeLiteralParses(n);
    assert IsDigit(digits[0]);
    var s := IntToString(i);
    assert (if |s| > 0 && (s[0] == '-' || s[0] == '+') then s[1..] else s) == digits;
  }

  /** Exactly the bool inputs make the decoder as written raise. */
  lemma OnlyBoolRaises(v: Wire)
    ensures DecodeDecimalAsWritten(v).None? <==> v.WBool?
  {
    match v
    case WBool(b) =>
      var s := if b then "True" else "False";
      SplitWhole(s, ".");
      assert !IsDigit(s[0]);
    case WInt(i) => IntLiteralParses(i);
    case _ =>
  }

  /**
   * `_parse_rr_decimal` with its evident intent kept: a value it cannot read,
   * a bool included, decodes to zero instead of raising.
   */
  function DecodeDecimal(v: Wire): (r: Decimal)
    ensures v.WNone? || v == WText("") || v.WBool? || v.WDate? || v.WDateTime? || v.WOther? ==> r == Zero
    ensures v.WDecimal? ==> r == v.dec
    ensures !v.WBool? ==> DecodeDecimalAsWritten(v) == Some(r)
  {
    OnlyBoolRaises(v);
    DecodeDecimalAsWritten(v).GetOr(Zero)
  }

  /** An integer converts exactly. */
  lemma DecimalFromInt(i: int)
    ensures DecodeDecimal(WInt(i)) == Decimal(i, 0)
  {
    IntLiteralParses(i);
  }

  /** A string that is not a literal even after the comma rewrite decodes to zero. */
  lemma UnreadableTextIsZero(s: string)
    requires ParseDecimalLiteral(ReplaceAll(s, ',', ".")).None?
    ensures DecodeDecimal(WText(s)) == Zero
  {
  }

  /** Commas count as decimal points: a string and its comma-to-point rewrite decode alike. */
  lemma DecimalComma(s: string)
    ensures DecodeDecimal(WText(s)) == DecodeDecimal(WText(ReplaceAll(s, ',', ".")))
  {
    var t := ReplaceAll(s, ',', ".");
    ReplaceLength(s, ',', '.');
    ReplaceRemoves(s, ',', ".");
    ReplaceAbsent(t, ',', ".");
  }

  /** No comma appears in a plain literal. */
  lemma DecimalLiteralLacksComma(d: Decimal)
    requires d.exponent <= 0
    ensures ',' !in DecimalLiteral(d)
  {
    var magnitude: nat := if d.coefficient < 0 then -d.coefficient else d.coefficient;
    var places: nat := -d.exponent;
    var (q, r) := DivMod(magnitude, Pow10(places));
    NoOtherCharInDigits(NatToString(q), ',');
    if places > 0 { NoOtherCharInDigits(PadDigits(r, places), ','); }
  }

  /** A non-empty text without a comma decodes to what `Decimal()` reads from it, or zero. */
  lemma CommaFreeDecodes(s: string)
    requires s != "" && ',' !in s
    ensures DecodeDecimal(WText(s)) == ParseDecimalLiteral(s).GetOr(Zero)
  {
    ReplaceAbsent(s, ',', ".");
  }

  /** A plain literal decodes to the decimal it was written from. */
  lemma DecimalRoundTrip(d: Decimal)
    requires d.exponent <= 0
    ensures DecodeDecimal(WText(DecimalLiteral(d))) == d
  {
    DecimalLiteralParses(d);
    DecimalLiteralLacksComma(d);
    CommaFreeDecodes(DecimalLiteral(d));
  }

  /** The same literal with a comma for the decimal point ("123,45") decodes to the same decimal. */
  lemma CommaDecimalRoundTrip(d: Decimal)
    requires d.exponent <= 0
    ensures DecodeDecimal(WText(ReplaceAll(DecimalLiteral(d), '.', ","))) == d
  {
    var s := DecimalLiteral(d);
    DecimalRoundTrip(d);
    DecimalLiteralLacksComma(d);
    ReplaceBack(s, '.', ',');
    DecimalComma(ReplaceAll(s, '.', ","));
  }
}
