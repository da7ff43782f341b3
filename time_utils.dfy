/**
 * Validation, conversion and formatting of the durations and clock times the user types
 * (utils/time_utils.py). Everything here is a pure function of its arguments; the one
 * clock reading, `now`, is a parameter.
 */
module TimeUtils {
  import opened Wrappers
  import opened Text
  import opened Calendar

  const DaySeconds: int := 86400

  /** The `value` handed to validate_time_input: text from an input field, or an int. */
  datatype TimeValue = TextValue(text: string) | IntValue(number: int)

  /** The `(is_valid, error_message)` pair the validators return. */
  datatype Check = Check(valid: bool, message: string)

  const EmptyValueMessage: string := "El valor no puede estar vacío"
  const NotIntegerMessage: string := "El valor debe ser un número entero positivo"
  const NegativeMessage: string := "El valor debe ser positivo"
  const MaxSecondsMessage: string := "El valor máximo es 86400 segundos (24 horas)"
  const MaxMinutesMessage: string := "El valor máximo es 1440 minutos (24 horas)"
  const MaxHoursMessage: string := "El valor máximo es 24 horas"
  const EmptyClockMessage: string := "La hora no puede estar vacía"
  const BadClockMessage: string := "Formato inválido. Use HH:MM (24h)"

  /** What the handler answers when `int()` raises on digit text over the digit limit. */
  function DigitLimitMessage(digits: nat): string
  {
    "Error de validación: " + IntLimitError(digits)
  }

  /** The exceptions time_string_to_datetime lets escape. */
  datatype PyError = ValueError | OverflowError

  // ---------------------------------------------------------------------------
  // validate_time_input

  /**
   * Text must be non-blank and all digits (checked on the unstripped text), and `int()`
   * must read it, which it refuses past `MaxStrDigits` digits; then the number must be
   * non-negative and within 24 hours in the given unit; an unknown unit has no ceiling.
   */
  function ValidateTimeInput(value: TimeValue, unit: string): (r: Check)
    ensures r.valid <==> r.message == ""
  {
    match value
    case IntValue(n) => ValidateNumber(n, unit)
    case TextValue(text) =>
      if IsBlank(text) then Check(false, EmptyValueMessage)
      else if !IsDigits(text) then Check(false, NotIntegerMessage)
      else if |text| > MaxStrDigits then Check(false, DigitLimitMessage(|text|))
      else ValidateNumber(ParseNat(text), unit)
  }

  /** The range checks, once the value is a number. */
  function ValidateNumber(n: int, unit: string): (r: Check)
    ensures r.valid <==> r.message == ""
  {
    if n < 0 then Check(false, NegativeMessage)
    else if unit == "seconds" then
      (if n > 86400 then Check(false, MaxSecondsMessage) else Check(true, ""))
    else if unit == "minutes" then
      (if n > 1440 then Check(false, MaxMinutesMessage) else Check(true, ""))
    else if unit == "hours" then
      (if n > 24 then Check(false, MaxHoursMessage) else Check(true, ""))
    else Check(true, "")
  }

  /**
   * A number is accepted exactly when it is non-negative and, in a unit that
   * convert_to_seconds knows, converts to at most 24 hours: each ceiling is one day.
   */
  lemma ValidateNumberMeaning(n: int, unit: string)
    ensures ValidateTimeInput(IntValue(n), unit).valid
        <==> n >= 0 && (ConvertToSeconds(n, unit).Ok? ==> ConvertToSeconds(n, unit).value <= DaySeconds)
  {
  }

  /** Blank text is refused as empty, whatever the unit. */
  lemma RejectsBlank(s: string, unit: string)
    requires IsBlank(s)
    ensures ValidateTimeInput(TextValue(s), unit) == Check(false, EmptyValueMessage)
  {
  }

  /**
   * Non-blank text with any non-digit is refused as not an integer; `isdigit` looks at the
   * unstripped text, so a leading space or a minus sign is refused this way.
   */
  lemma RejectsNonDigits(s: string, unit: string)
    requires !IsBlank(s) && exists i :: 0 <= i < |s| && !IsDigit(s[i])
    ensures ValidateTimeInput(TextValue(s), unit) == Check(false, NotIntegerMessage)
  {
  }

  /**
   * A digit string is judged as the number `int()` reads from it; when `int()` raises
   * because the text is over the digit limit, the handler's message is the answer.
   */
  lemma ValidateDigits(s: string, unit: string)
    requires IsDigits(s)
    ensures PyInt(s).None? <==> |s| > MaxStrDigits
    ensures PyInt(s).Some? ==> ValidateTimeInput(TextValue(s), unit) == ValidateTimeInput(IntValue(PyInt(s).value), unit)
    ensures PyInt(s).None? ==> ValidateTimeInput(TextValue(s), unit) == Check(false, DigitLimitMessage(|s|))
  {
    DigitsReadByInt(s);
    assert !IsSpace(s[0]) && !IsBlank(s);
    if |s| <= MaxStrDigits {
      ReadDigitsVerdict(s, unit);
    } else {
      assert ValidateTimeInput(TextValue(s), unit) == Check(false, DigitLimitMessage(|s|));
    }
  }

  lemma ReadDigitsVerdict(s: string, unit: string)
    requires IsDigits(s) && !IsBlank(s) && |s| <= MaxStrDigits
    ensures ValidateTimeInput(TextValue(s), unit) == ValidateTimeInput(IntValue(ParseNat(s)), unit)
  {
  }

  /**
   * Typing a number gives the same verdict as passing it as an int, as long as its digits
   * are within the limit; a longer one is refused by `int()`, where the int would only
   * meet the ceiling.
   */
  lemma ValidateTextOfNumber(n: nat, unit: string)
    ensures ValidateTimeInput(TextValue(NatToString(n)), unit)
      == if WithinDigitLimit(n) then ValidateTimeInput(IntValue(n), unit)
         else Check(false, DigitLimitMessage(|NatToString(n)|))
  {
    ValidateDigits(NatToString(n), unit);
    ParseNatToString(n);
  }

  /** The ceilings are inclusive; negatives fail; an unknown unit has no ceiling. */
  lemma CeilingsInclusive()
    ensures ValidateTimeInput(IntValue(86400), "seconds").valid && !ValidateTimeInput(IntValue(86401), "seconds").valid
    ensures ValidateTimeInput(IntValue(1440), "minutes").valid && !ValidateTimeInput(IntValue(1441), "minutes").valid
    ensures ValidateTimeInput(IntValue(24), "hours").valid && !ValidateTimeInput(IntValue(25), "hours").valid
    ensures ValidateTimeInput(IntValue(-1), "seconds") == Check(false, NegativeMessage)
    ensures ValidateTimeInput(IntValue(1000000), "days").valid
    ensures ValidateTimeInput(TextValue("30"), "minutes").valid
    ensures ValidateTimeInput(TextValue("1500"), "minutes") == Check(false, MaxMinutesMessage)
  {
    assert NatToString(3) == "3" && NatToString(30) == "30";
    ValidateTextOfNumber(30, "minutes");
    assert NatToString(1) == "1" && NatToString(15) == "15" && NatToString(150) == "150";
    assert NatToString(1500) == "1500";
    ValidateTextOfNumber(1500, "minutes");
  }

  // ---------------------------------------------------------------------------
  // validate_time_format

  /** `[0-1]?[0-9]|2[0-3]`: one digit, a two-digit hour 00-19, or 20-23. */
  predicate HourText(h: string)
  {
    || (|h| == 1 && IsDigit(h[0]))
    || (|h| == 2 && '0' <= h[0] <= '1' && IsDigit(h[1]))
    || (|h| == 2 && h[0] == '2' && '0' <= h[1] <= '3')
  }

  /** `[0-5][0-9]`. */
  predicate MinuteText(m: string) { |m| == 2 && '0' <= m[0] <= '5' && IsDigit(m[1]) }

  /** The whole text is `hour:minute` in the pattern's sense. */
  predicate ClockText(t: string)
  {
    (|t| == 4 || |t| == 5) && t[|t| - 3] == ':' && HourText(t[..|t| - 3]) && MinuteText(t[|t| - 2..])
  }

  /** `re.match` with the `^...$` pattern: `$` also matches before one final newline. */
  predicate MatchesClockPattern(s: string)
  {
    ClockText(s) || (|s| > 0 && s[|s| - 1] == '\n' && ClockText(s[..|s| - 1]))
  }

  function ValidateTimeFormat(s: string): (r: Check)
    ensures r.valid <==> r.message == ""
    ensures r.valid <==> MatchesClockPattern(s)
  {
    if s == [] then Check(false, EmptyClockMessage)
    else if !MatchesClockPattern(s) then Check(false, BadClockMessage)
    else Check(true, "")
  }

  /**
   * The pattern accepts exactly an hour of one or two digits worth 0 to 23, a colon, and
   * a minute of two digits worth 0 to 59.
   */
  lemma ClockTextMeaning(t: string)
    ensures ClockText(t) <==>
      && (|t| == 4 || |t| == 5) && t[|t| - 3] == ':'
      && IsDigits(t[..|t| - 3]) && |t[|t| - 2..]| == 2 && AllDigits(t[|t| - 2..])
      && ParseNat(t[..|t| - 3]) < 24 && ParseNat(t[|t| - 2..]) < 60
  {
    if (|t| == 4 || |t| == 5) && t[|t| - 3] == ':' {
      var h, m := t[..|t| - 3], t[|t| - 2..];
      if AllDigits(m) {
        ParseNatTwo(m);
      }
      if AllDigits(h) && |h| == 2 {
        ParseNatTwo(h);
      }
      if AllDigits(h) && |h| == 1 {
        assert h[..0] == [];
      }
    }
  }

  /** The examples: `9:05` and `23:59` pass; `9:5`, `24:00` and the empty text do not. */
  lemma ClockFormatExamples()
    ensures ValidateTimeFormat("9:05").valid && ValidateTimeFormat("23:59").valid
    ensures ValidateTimeFormat("9:5") == Check(false, BadClockMessage)
    ensures ValidateTimeFormat("24:00") == Check(false, BadClockMessage)
    ensures ValidateTimeFormat("") == Check(false, EmptyClockMessage)
    ensures ValidateTimeFormat("9:05\n").valid
  {
    assert "9:05\n"[..4] == "9:05";
  }

  // ---------------------------------------------------------------------------
  // convert_to_seconds, get_time_units

  /** `['seconds', 'minutes', 'hours']`. */
  function TimeUnits(): (r: seq<string>)
    ensures |r| == 3
  {
    ["seconds", "minutes", "hours"]
  }

  /** `Err` is the ValueError for an unknown unit. */
  function ConvertToSeconds(value: int, unit: string): (r: Result<int, string>)
    ensures r.Ok? <==> unit in TimeUnits()
    ensures r.Err? ==> r.error == "Unidad de tiempo no reconocida: " + unit
  {
    if unit == "seconds" then Ok(value)
    else if unit == "minutes" then Ok(value * 60)
    else if unit == "hours" then Ok(value * 3600)
    else Err("Unidad de tiempo no reconocida: " + unit)
  }

  /** Whatever validation accepts in a known unit converts to at most one day, never less than zero. */
  lemma AcceptedConvertsWithinDay(value: TimeValue, unit: string)
    requires ValidateTimeInput(value, unit).valid && unit in TimeUnits()
    ensures value.TextValue? ==> IsDigits(value.text)
    ensures var n := if value.TextValue? then ParseNat(value.text) else value.number;
      0 <= ConvertToSeconds(n, unit).value <= DaySeconds
  {
    if value.TextValue? {
      ValidateDigits(value.text, unit);
      ValidateNumberMeaning(ParseNat(value.text), unit);
    } else {
      ValidateNumberMeaning(value.number, unit);
    }
  }

  // ---------------------------------------------------------------------------
  // format_time_remaining

  /** `f"{n:02d}"`: at least two characters, zero-padded, the sign ahead of the digits. */
  function Pad2(n: int): (r: string)
    ensures |r| >= 2
    ensures n >= 0 ==> AllDigits(r) && ParseNat(r) == n
    ensures 0 <= n < 100 ==> |r| == 2
  {
    if n < 0 then "-" + NatToString(-n)
    else
      ParseNatToString(n);
      if n < 10 then
        ParseNatLeadingZero(NatToString(n));
        "0" + NatToString(n)
      else NatToString(n)
  }

  const NoTimeText: string := "--:--:--"

  /** `HH:MM:SS` from `divmod`; `None` gives the `--:--:--` placeholder. */
  function FormatTimeRemaining(seconds: Option<int>): (r: string)
    ensures seconds.None? <==> r == NoTimeText
  {
    match seconds
    case None => NoTimeText
    case Some(n) =>
      var hours, rest := n / 3600, n % 3600;
      var minutes, secs := rest / 60, rest % 60;
      var last := Pad2(secs);
      var r := Pad2(hours) + ":" + Pad2(minutes) + ":" + last;
      assert r[|r| - 1] == last[|last| - 1] && IsDigit(last[|last| - 1]);
      r
  }

  /** Reads an `H…H:MM:SS` countdown back into seconds. */
  function ParseCountdown(t: string): Option<int>
  {
    if |t| >= 8 && t[|t| - 6] == ':' && t[|t| - 3] == ':'
       && AllDigits(t[..|t| - 6]) && AllDigits(t[|t| - 5..|t| - 3]) && AllDigits(t[|t| - 2..])
    then Some(ParseNat(t[..|t| - 6]) * 3600 + ParseNat(t[|t| - 5..|t| - 3]) * 60 + ParseNat(t[|t| - 2..]))
    else None
  }

  /** A countdown made of an hours field and two two-digit fields reads back as their weighted sum. */
  lemma {:induction false} ParseCountdownFields(h: string, m: string, s: string)
    requires |h| >= 2 && AllDigits(h) && |m| == 2 && AllDigits(m) && |s| == 2 && AllDigits(s)
    ensures ParseCountdown(h + ":" + m + ":" + s) == Some(ParseNat(h) * 3600 + ParseNat(m) * 60 + ParseNat(s))
  {
    var t := h + ":" + m + ":" + s;
    assert |t| == |h| + 6;
    var a, b, c := t[..|t| - 6], t[|t| - 5..|t| - 3], t[|t| - 2..];
    assert a == h && b == m && c == s;
    assert t[|t| - 6] == ':' && t[|t| - 3] == ':';
    assert AllDigits(a) && AllDigits(b) && AllDigits(c);
    assert ParseCountdown(t) == Some(ParseNat(a) * 3600 + ParseNat(b) * 60 + ParseNat(c));
    assert ParseNat(a) == ParseNat(h);
    assert ParseNat(b) == ParseNat(m);
    assert ParseNat(c) == ParseNat(s);
  }

  /**
   * The three fields of a countdown give back the number of seconds it was made from:
   * hours * 3600 + minutes * 60 + seconds == n, minutes and seconds being two digits each.
   */
  lemma FormatRoundTrip(n: nat)
    ensures ParseCountdown(FormatTimeRemaining(Some(n))) == Some(n)
    ensures var r := FormatTimeRemaining(Some(n));
      && |r| >= 8 && AllDigits(r[|r| - 5..|r| - 3]) && AllDigits(r[|r| - 2..])
      && ParseNat(r[|r| - 5..|r| - 3]) < 60 && ParseNat(r[|r| - 2..]) < 60
    ensures n < 360000 ==> |FormatTimeRemaining(Some(n))| == 8
  {
    var hours, rest := n / 3600, n % 3600;
    var minutes, secs := rest / 60, rest % 60;
    assert n == hours * 3600 + minutes * 60 + secs;
    var hh, mm, ss := Pad2(hours), Pad2(minutes), Pad2(secs);
    ParseCountdownFields(hh, mm, ss);
    var r := FormatTimeRemaining(Some(n));
    assert r == hh + ":" + mm + ":" + ss;
    assert r[|r| - 5..|r| - 3] == mm && r[|r| - 2..] == ss;
  }

  /** The placeholder does not read as a countdown. */
  lemma PlaceholderIsNotCountdown()
    ensures ParseCountdown(FormatTimeRemaining(None)) == None
  {
    assert !IsDigit(NoTimeText[0]);
  }

  // ---------------------------------------------------------------------------
  // time_string_to_datetime

  /** `hour, minute = map(int, text.split(':'))`; `None` is the ValueError. */
  function ParseHourMinute(timeStr: string): (r: Option<(int, int)>)
    ensures r.Some? ==> ':' in timeStr
  {
    var parts := Split(timeStr, ':');
    if |parts| != 2 then None
    else
      var hour, minute := PyInt(parts[0]), PyInt(parts[1]);
      if hour.None? || minute.None? then None else Some((hour.value, minute.value))
  }

  /**
   * Today's date at `hour:minute:00.000000`, moved to tomorrow when that is already
   * earlier than `now`. `Err(ValueError)` when the text is not two integers separated by
   * one colon, or they are C ints but no valid hour and minute; `Err(OverflowError)` when
   * either is outside the C int range, or when tomorrow is past 9999-12-31.
   */
  function TimeStringToDatetime(timeStr: string, now: DateTime): (r: Result<DateTime, PyError>)
    requires ValidDateTime(now)
    ensures r.Ok? ==> ValidDateTime(r.value) && r.value.second == 0 && r.value.micro == 0
  {
    var clock := ParseHourMinute(timeStr);
    if clock.None? then Err(ValueError) else AtClockTime(clock.value.0, clock.value.1, now)
  }

  /** The range of a C `int`, which `replace()` converts its arguments to before checking them. */
  predicate IsCInt(v: int) { -0x8000_0000 <= v < 0x8000_0000 }

  /**
   * `now.replace(hour=hour, minute=minute, second=0, microsecond=0)`, plus a day if that is
   * earlier than `now`. The argument conversion comes first, so an argument outside the C
   * int range raises OverflowError even when the other one is an invalid hour or minute.
   */
  function AtClockTime(hour: int, minute: int, now: DateTime): (r: Result<DateTime, PyError>)
    requires ValidDateTime(now)
    ensures r.Ok? ==> ValidDateTime(r.value) && r.value.second == 0 && r.value.micro == 0
  {
    if !(IsCInt(hour) && IsCInt(minute)) then Err(OverflowError)
    else if !(0 <= hour < 24 && 0 <= minute < 60) then Err(ValueError)
    else
      var target := DateTime(now.date, hour, minute, 0, 0);
      if Before(target, now) then
        match NextDay(now.date)
        case None => Err(OverflowError)
        case Some(tomorrow) => Ok(target.(date := tomorrow))
      else Ok(target)
  }

  /**
   * The two exceptions: ValueError exactly for C ints that are no valid hour and minute;
   * OverflowError exactly for an argument outside the C int range, or for a valid time
   * already past on 9999-12-31.
   */
  lemma ClockErrors(hour: int, minute: int, now: DateTime)
    requires ValidDateTime(now)
    ensures AtClockTime(hour, minute, now) == Err(ValueError)
      <==> IsCInt(hour) && IsCInt(minute) && !(0 <= hour < 24 && 0 <= minute < 60)
    ensures AtClockTime(hour, minute, now) == Err(OverflowError)
      <==> || !(IsCInt(hour) && IsCInt(minute))
           || (&& 0 <= hour < 24 && 0 <= minute < 60
               && Before(DateTime(now.date, hour, minute, 0, 0), now) && NextDay(now.date).None?)
  {
  }

  /** A field of more digits than `int()` reads is refused with ValueError, however the rest looks. */
  lemma OverlongFieldRefused(h: string, m: string, now: DateTime)
    requires ValidDateTime(now) && IsDigits(h) && IsDigits(m) && |h| > MaxStrDigits
    ensures TimeStringToDatetime(h + [':'] + m, now) == Err(ValueError)
  {
    var t := h + [':'] + m;
    assert ParseHourMinute(t) == None by {
      assert Split(t, ':') == [h, m] by {
        SplitTwo(h, ':', m);
      }
      DigitsReadByInt(h);
    }
  }

  /**
   * The result is the next occurrence of that clock time: never earlier than `now`, less
   * than a day later, and on tomorrow's date exactly when today's occurrence is earlier
   * than `now`.
   */
  lemma NextOccurrence(hour: int, minute: int, now: DateTime)
    requires ValidDateTime(now)
    ensures var r := AtClockTime(hour, minute, now);
      r.Ok? ==>
        && r.value.hour == hour && r.value.minute == minute
        && Instant(now) <= Instant(r.value) < Instant(now) + DayMicros
        && (r.value.date == now.date <==> !Before(DateTime(now.date, hour, minute, 0, 0), now))
  {
    var r := AtClockTime(hour, minute, now);
    if r.Ok? {
      var t := r.value;
      var today := DateTime(now.date, hour, minute, 0, 0);
      var o := Ordinal(now.date);
      InstantOrder(today, now);
      TimeOfDayBound(today);
      TimeOfDayBound(now);
      assert Instant(now) == o * DayMicros + TimeOfDay(now);
      assert Instant(today) == o * DayMicros + TimeOfDay(today);
      if Before(today, now) {
        assert t == today.(date := t.date) && Ordinal(t.date) == o + 1;
        assert Instant(t) == (o + 1) * DayMicros + TimeOfDay(today);
      } else {
        assert t == today;
      }
    }
  }

  /** Accepted text is an hour in digits, a colon, two minute digits and at most a trailing newline. */
  lemma {:induction false} ClockPieces(timeStr: string) returns (h: string, m: string, tail: string)
    requires ValidateTimeFormat(timeStr).valid
    ensures timeStr == h + [':'] + (m + tail)
    ensures IsDigits(h) && IsDigits(m) && (tail == "" || tail == "\n") && ':' !in h && ':' !in m + tail
    ensures ParseNat(h) < 24 && ParseNat(m) < 60
  {
    var t := if ClockText(timeStr) then timeStr else timeStr[..|timeStr| - 1];
    tail := if ClockText(timeStr) then "" else "\n";
    assert timeStr == t + tail;
    ClockTextMeaning(t);
    h, m := t[..|t| - 3], t[|t| - 2..];
    assert t == h + [':'] + m;
    assert ':' !in h && ':' !in m + tail;
  }

  /**
   * Text that validate_time_format accepts is read as the hour and the minute its digits
   * spell, both in range.
   */
  lemma {:induction false} ValidatedTextParses(timeStr: string) returns (h: string, m: string)
    requires ValidateTimeFormat(timeStr).valid
    ensures IsDigits(h) && IsDigits(m) && h + [':'] + m <= timeStr && |timeStr| <= |h| + |m| + 2
    ensures ParseHourMinute(timeStr) == Some((ParseNat(h), ParseNat(m)))
    ensures ParseNat(h) < 24 && ParseNat(m) < 60
  {
    var tail;
    h, m, tail := ClockPieces(timeStr);
    assert h + [':'] + m <= timeStr by {
      assert timeStr == (h + [':'] + m) + tail;
    }
    assert |timeStr| <= 6;
    ReadPieces(timeStr, h, m, tail);
  }

  lemma {:induction false} ReadPieces(timeStr: string, h: string, m: string, tail: string)
    requires timeStr == h + [':'] + (m + tail)
    requires IsDigits(h) && IsDigits(m) && (tail == "" || tail == "\n") && ':' !in h && ':' !in m + tail
    requires |h| <= MaxStrDigits && |m| <= MaxStrDigits
    ensures ParseHourMinute(timeStr) == Some((ParseNat(h), ParseNat(m)))
  {
    var hv, mv := ParseNat(h), ParseNat(m);
    assert Split(timeStr, ':') == [h, m + tail] by {
      SplitTwo(h, ':', m + tail);
    }
    assert PyInt(h) == Some(hv) by {
      PyIntOfDigits(h, "");
      assert h + "" == h;
    }
    assert PyInt(m + tail) == Some(mv) by {
      assert IsIntBlank(tail);
      PyIntOfDigits(m, tail);
    }
  }

  /** Text that validate_time_format accepts is always converted, unless tomorrow overflows. */
  lemma ValidatedTextConverts(timeStr: string, now: DateTime)
    requires ValidDateTime(now) && now.date != Date(MaxYear, 12, 31)
    requires ValidateTimeFormat(timeStr).valid
    ensures TimeStringToDatetime(timeStr, now).Ok?
  {
    var h, m := ValidatedTextParses(timeStr);
    var hour, minute := ParseNat(h), ParseNat(m);
    assert TimeStringToDatetime(timeStr, now) == AtClockTime(hour, minute, now);
    assert IsCInt(hour) && IsCInt(minute) && NextDay(now.date).Some?;
  }

  /**
   * For validated text, time_string_to_datetime gives the next occurrence of the clock time
   * the text spells: that hour and minute, not before `now` and less than a day later.
   */
  lemma ValidatedTextTime(timeStr: string, now: DateTime)
    requires ValidDateTime(now) && ValidateTimeFormat(timeStr).valid
    ensures ParseHourMinute(timeStr).Some?
    ensures var clock := ParseHourMinute(timeStr).value;
      TimeStringToDatetime(timeStr, now) == AtClockTime(clock.0, clock.1, now)
    ensures var clock := ParseHourMinute(timeStr).value;
      var r := TimeStringToDatetime(timeStr, now);
      r.Ok? ==>
        && r.value.hour == clock.0 && r.value.minute == clock.1
        && Instant(now) <= Instant(r.value) < Instant(now) + DayMicros
  {
    var _, _ := ValidatedTextParses(timeStr);
    var clock := ParseHourMinute(timeStr).value;
    NextOccurrence(clock.0, clock.1, now);
  }

  // ---------------------------------------------------------------------------
  // get_time_unit_label

  /** The label of a unit: an unknown language reads the English table; an unknown unit is its own label. */
  function GetTimeUnitLabel(unit: string, language: string): (r: string)
    ensures unit !in TimeUnits() ==> r == unit
    ensures unit in TimeUnits() ==> r != unit
  {
    var labels := map[
      "es" := map["seconds" := "Segundos", "minutes" := "Minutos", "hours" := "Horas"],
      "en" := map["seconds" := "Seconds", "minutes" := "Minutes", "hours" := "Hours"]];
    var table := if language in labels then labels[language] else labels["en"];
    if unit in table then table[unit] else unit
  }

  /** Every language other than Spanish and English falls back to the English labels. */
  lemma UnitLabelFallback(unit: string, language: string)
    requires language != "es"
    ensures GetTimeUnitLabel(unit, language) == GetTimeUnitLabel(unit, "en")
  {
  }
}
