/**
 * The interval calculator and the week resolver of the backend
 * (backend/src/shared/functions/shiftTime.ts): time strings `HH:MM[:SS]` become
 * minutes since midnight, a (date, start, end) triple becomes an absolute interval
 * in minutes, and a date becomes its Monday-to-Sunday week.
 */
module ShiftTime {
  import opened Wrappers
  import opened Calendar
  import opened Schema

  const MinutesInDay: int := 24 * 60

  /** An absolute interval: `startAt` and `endAt` are minutes since midnight of day 0. */
  datatype ShiftInterval = ShiftInterval(startAt: int, endAt: int, durationMinutes: int, dayOffset: int)

  datatype WeekBounds = WeekBounds(weekStartDate: Day, weekEndDate: Day)

  // ---------------------------------------------------------------------------
  // The JavaScript string operations the code relies on

  /** The position of the first colon in `s`, or `|s|` when there is none. */
  function ColonIndex(s: string): (k: nat)
    ensures k <= |s|
  {
    if s == [] || s[0] == ':' then 0 else 1 + ColonIndex(s[1..])
  }

  /** `s.includes(":")` (see IncludesColon). */
  predicate HasColon(s: string) {
    ColonIndex(s) < |s|
  }

  /** The first element of `s.split(":")`: the text before the first colon, or all of `s`. */
  function HourField(s: string): string {
    s[..ColonIndex(s)]
  }

  /** Everything after the first colon. */
  function AfterColon(s: string): string
    requires HasColon(s)
  {
    s[ColonIndex(s) + 1..]
  }

  /** The second element of `s.split(":")`; undefined (None) when `s` has no colon. */
  function MinuteField(s: string): Option<string> {
    if HasColon(s) then Some(HourField(AfterColon(s))) else None
  }

  /** `s.slice(0, n)`. */
  function Take(s: string, n: nat): (r: string)
    ensures |r| <= n && r <= s
    ensures |s| <= n ==> r == s
    ensures |s| > n ==> |r| == n
  {
    if |s| <= n then s else s[..n]
  }

  function Zeros(n: nat): (z: string)
    ensures |z| == n && ':' !in z
    ensures forall i | 0 <= i < n :: z[i] == '0'
  {
    if n == 0 then [] else ['0'] + Zeros(n - 1)
  }

  /** `s.padStart(width, "0")`. */
  function PadStart(s: string, width: nat): (r: string)
    ensures |s| >= width ==> r == s
    ensures |r| >= width && r[|r| - |s|..] == s
    ensures |s| < width ==> |r| == width && forall i | 0 <= i < width - |s| :: r[i] == '0'
    ensures ':' !in s ==> ':' !in r
  {
    if |s| >= width then s else Zeros(width - |s|) + s
  }

  // ---------------------------------------------------------------------------
  // Facts about split(":")

  /** `includes(":")` and the first colon agree. */
  lemma {:induction false} IncludesColon(s: string)
    ensures HasColon(s) <==> ':' in s
    ensures HasColon(s) ==> s[ColonIndex(s)] == ':'
  {
    if s != [] && s[0] != ':' {
      IncludesColon(s[1..]);
      assert s == [s[0]] + s[1..];
    }
  }

  /** Splitting `h:rest` where `h` has no colon finds the colon right after `h`. */
  lemma {:induction false} ColonIndexJoin(h: string, rest: string)
    requires ':' !in h
    ensures ColonIndex(h + ":" + rest) == |h|
  {
    if h != [] {
      assert (h + ":" + rest)[0] == h[0];
      assert (h + ":" + rest)[1..] == h[1..] + ":" + rest;
      ColonIndexJoin(h[1..], rest);
    } else {
      assert (h + ":" + rest)[0] == ':';
    }
  }

  /** A string without a colon is its own first field. */
  lemma {:induction false} ColonIndexNoColon(s: string)
    requires ':' !in s
    ensures ColonIndex(s) == |s|
  {
    if s != [] {
      ColonIndexNoColon(s[1..]);
    }
  }

  /** The first field has no colon in it. */
  lemma {:induction false} FieldHasNoColon(s: string)
    ensures ':' !in HourField(s)
  {
    if s != [] && s[0] != ':' {
      FieldHasNoColon(s[1..]);
      assert HourField(s) == [s[0]] + HourField(s[1..]);
    }
  }

  /** When `a` has a colon, appending to it does not move the first colon. */
  lemma {:induction false} ColonIndexAppend(a: string, b: string)
    requires HasColon(a)
    ensures ColonIndex(a + b) == ColonIndex(a)
  {
    if a[0] != ':' {
      assert (a + b)[1..] == a[1..] + b;
      ColonIndexAppend(a[1..], b);
    }
  }

  /** The first colon of a prefix is the first colon of the whole, if the prefix reaches it. */
  lemma {:induction false} ColonIndexPrefix(s: string, n: nat)
    requires n <= |s|
    ensures ColonIndex(s[..n]) == if ColonIndex(s) < n then ColonIndex(s) else n
  {
    if n > 0 && s[0] != ':' {
      assert s[..n][1..] == s[1..][..n - 1];
      ColonIndexPrefix(s[1..], n - 1);
    }
  }

  /** Splitting `h:rest` at its first colon gives back `h` and `rest`. */
  lemma SplitAtFirstColon(h: string, rest: string)
    requires ':' !in h
    ensures HasColon(h + ":" + rest)
    ensures HourField(h + ":" + rest) == h
    ensures AfterColon(h + ":" + rest) == rest
  {
    ColonIndexJoin(h, rest);
    assert (h + ":" + rest)[..|h|] == h;
    assert (h + ":" + rest)[|h| + 1..] == rest;
  }

  /** A string with a colon is its first field, the colon, and the rest. */
  lemma ColonSplits(s: string)
    requires HasColon(s)
    ensures s == HourField(s) + ":" + AfterColon(s)
  {
    IncludesColon(s);
    var n := ColonIndex(s);
    assert s == s[..n] + [s[n]] + s[n + 1..];
  }

  /** The minute field of `h:m`, where neither part has a colon, is `m`. */
  lemma FieldsOfJoin(h: string, m: string)
    requires ':' !in h && ':' !in m
    ensures HasColon(h + ":" + m)
    ensures HourField(h + ":" + m) == h
    ensures MinuteField(h + ":" + m) == Some(m)
  {
    SplitAtFirstColon(h, m);
    ColonIndexNoColon(m);
    assert m[..|m|] == m;
  }

  /** Neither padded field `normalizeTimeString` builds contains a colon. */
  lemma NormalizedFieldsNoColon(time: string)
    requires HasColon(time)
    ensures ':' !in PadStart(HourField(time), 2)
    ensures ':' !in PadStart(Take(MinuteField(time).value, 2), 2)
  {
    var minuteField := MinuteField(time).value;
    FieldHasNoColon(time);
    FieldHasNoColon(AfterColon(time));
    assert Take(minuteField, 2) == minuteField[..|Take(minuteField, 2)|];
  }

  /** `h:m`, where neither part has a colon, has exactly the fields `h` and `m` and one colon. */
  lemma JoinShape(h: string, m: string)
    requires ':' !in h && ':' !in m
    ensures HasColon(h + ":" + m)
    ensures HourField(h + ":" + m) == h
    ensures MinuteField(h + ":" + m) == Some(m)
    ensures !HasColon(AfterColon(h + ":" + m))
  {
    FieldsOfJoin(h, m);
    SplitAtFirstColon(h, m);
    IncludesColon(m);
  }

  predicate IsDigit(c: char) {
    '0' <= c <= '9'
  }

  /** Every character of `s` is a decimal digit. */
  predicate AllDigits(s: string) {
    s == [] || (AllDigits(s[..|s| - 1]) && IsDigit(s[|s| - 1]))
  }

  /** The value of a string of decimal digits, most significant first. */
  function DigitsValue(s: string): nat
    requires AllDigits(s)
  {
    if s == [] then 0 else DigitsValue(s[..|s| - 1]) * 10 + (s[|s| - 1] as int - '0' as int)
  }

  /** The white space and line terminators `Number()` strips from both ends of its argument. */
  predicate IsJsWhitespace(c: char) {
    || c == ' ' || c == '\t' || c == '\n' || c == '\r' || c == '\U{000B}' || c == '\U{000C}'
    || c == '\U{00A0}' || c == '\U{FEFF}' || c == '\U{1680}' || ('\U{2000}' <= c <= '\U{200A}')
    || c == '\U{2028}' || c == '\U{2029}' || c == '\U{202F}' || c == '\U{205F}' || c == '\U{3000}'
  }

  /** `s` without its leading white space. */
  function TrimStart(s: string): (r: string)
    ensures |r| <= |s| && r == s[|s| - |r|..]
    ensures r == [] || !IsJsWhitespace(r[0])
    ensures forall i | 0 <= i < |s| - |r| :: IsJsWhitespace(s[i])
  {
    if s != [] && IsJsWhitespace(s[0]) then TrimStart(s[1..]) else s
  }

  /** `s` without its trailing white space. */
  function TrimEnd(s: string): (r: string)
    ensures r <= s
    ensures r == [] || !IsJsWhitespace(r[|r| - 1])
    ensures forall i | |r| <= i < |s| :: IsJsWhitespace(s[i])
  {
    if s != [] && IsJsWhitespace(s[|s| - 1]) then TrimEnd(s[..|s| - 1]) else s
  }

  /** `s.trim()`, as `Number()` applies it. */
  function Trim(s: string): string {
    TrimEnd(TrimStart(s))
  }

  /** A sign followed by at least one decimal digit. */
  predicate SignedDigits(t: string) {
    |t| >= 2 && (t[0] == '-' || t[0] == '+') && AllDigits(t[1..])
  }

  /**
   * The value `Number()` gives a string it has already trimmed: the empty string
   * is 0, and an optional sign followed by decimal digits is their value.
   * Anything else is NaN (None).
   */
  function NumberValue(t: string): (r: Option<int>)
    ensures r.Some? <==> AllDigits(t) || SignedDigits(t)
    ensures t == [] ==> r == Some(0)
    ensures AllDigits(t) ==> r == Some(DigitsValue(t))
    ensures !AllDigits(t) && SignedDigits(t) && t[0] == '-' ==> r == Some(-(DigitsValue(t[1..]) as int))
    ensures !AllDigits(t) && SignedDigits(t) && t[0] == '+' ==> r == Some(DigitsValue(t[1..]))
  {
    if AllDigits(t) then Some(DigitsValue(t))
    else if SignedDigits(t) then
      Some(if t[0] == '-' then -(DigitsValue(t[1..]) as int) else DigitsValue(t[1..]))
    else None
  }

  /**
   * `Number(s)`: white space is trimmed from both ends, then the rest is read.
   * A field of plain digits needs no trimming and is read as its digits.
   */
  function ParseNumber(s: string): (r: Option<int>)
    ensures r.Some? <==> AllDigits(Trim(s)) || SignedDigits(Trim(s))
    ensures AllDigits(s) ==> r == Some(DigitsValue(s))
  {
    DigitsUntrimmed(s);
    NumberValue(Trim(s))
  }

  // ---------------------------------------------------------------------------
  // normalizeTimeString and timeToMinutes

  /**
   * `normalizeTimeString`: a time without a colon is an invalid format; otherwise the
   * hour field and the first two characters of the minute field, each left-padded to
   * two digits, joined by a colon. Seconds and any further fields are dropped.
   */
  function NormalizeTimeString(time: string): (r: Result<string, Failure>)
    ensures r.Err? <==> !HasColon(time)
    ensures r.Err? ==> r.error == InvalidTimeFormat
    ensures r.Ok? ==> HourField(r.value) == PadStart(HourField(time), 2)
    ensures r.Ok? ==> MinuteField(r.value) == Some(PadStart(Take(MinuteField(time).value, 2), 2))
    ensures r.Ok? ==> |MinuteField(r.value).value| == 2 && |HourField(r.value)| >= 2
    ensures r.Ok? ==> HasColon(r.value) && !HasColon(AfterColon(r.value))
  {
    if !HasColon(time) then Err(InvalidTimeFormat)
    else
      var minuteField := MinuteField(time).value;
      var hours := PadStart(HourField(time), 2);
      var minutes := PadStart(Take(minuteField, 2), 2);
      NormalizedFieldsNoColon(time);
      JoinShape(hours, minutes);
      Ok(hours + ":" + minutes)
  }

  /**
   * `timeToMinutes`: hours * 60 + minutes of the first two fields of the string;
   * a field that is not a number (or a missing minute field) is an invalid time value.
   */
  function TimeToMinutes(time: string): (r: Result<int, Failure>)
    ensures r.Err? ==> r.error == InvalidTimeValue
    ensures r.Ok? <==>
      ParseNumber(HourField(time)).Some? && MinuteField(time).Some? && ParseNumber(MinuteField(time).value).Some?
    ensures r.Ok? ==>
      r.value == ParseNumber(HourField(time)).value * 60 + ParseNumber(MinuteField(time).value).value
  {
    var hours := ParseNumber(HourField(time));
    var minutes := if MinuteField(time).Some? then ParseNumber(MinuteField(time).value) else None;
    if hours.None? || minutes.None? then Err(InvalidTimeValue)
    else Ok(hours.value * 60 + minutes.value)
  }

  /** The minutes since midnight a time string stands for: normalisation, then conversion. */
  function TimeMinutes(time: string): Result<int, Failure> {
    var normalized :- NormalizeTimeString(time);
    TimeToMinutes(normalized)
  }

  /**
   * The minutes of both times, failing in the order `calculateShiftInterval` checks:
   * both formats first, then both values.
   */
  function TimesToMinutes(startTime: string, endTime: string): (r: Result<(int, int), Failure>)
    ensures r.Ok? <==> TimeMinutes(startTime).Ok? && TimeMinutes(endTime).Ok?
    ensures r.Err? ==> r.error == InvalidTimeFormat || r.error == InvalidTimeValue
    ensures r.Err? ==> (r.error == InvalidTimeFormat <==> !HasColon(startTime) || !HasColon(endTime))
    ensures r.Ok? ==> r.value == (TimeMinutes(startTime).value, TimeMinutes(endTime).value)
  {
    var normalizedStart :- NormalizeTimeString(startTime);
    var normalizedEnd :- NormalizeTimeString(endTime);
    var startMinutes :- TimeToMinutes(normalizedStart);
    var endMinutes :- TimeToMinutes(normalizedEnd);
    Ok((startMinutes, endMinutes))
  }

  /** The crossing rule: an end at or before the start is on the next day. */
  function Duration(startMinutes: int, endMinutes: int): int {
    if endMinutes > startMinutes then endMinutes - startMinutes
    else endMinutes - startMinutes + MinutesInDay
  }

  // ---------------------------------------------------------------------------
  // calculateShiftInterval and getWeekBounds

  /**
   * The arithmetic half of `calculateShiftInterval`, from the two times in minutes:
   * the crossing rule, the duration guards (not positive, then too long) and only
   * then the date, and the interval from midnight of the date plus the start.
   */
  function IntervalFromMinutes(date: DateInput, startMinutes: int, endMinutes: int)
    : (r: Result<ShiftInterval, Failure>)
    ensures r.Ok? <==> 0 < Duration(startMinutes, endMinutes) < MinutesInDay && date.Parsed?
    ensures Duration(startMinutes, endMinutes) <= 0 ==> r == Err(DurationNotPositive)
    ensures Duration(startMinutes, endMinutes) >= MinutesInDay ==> r == Err(DurationTooLong)
    ensures 0 < Duration(startMinutes, endMinutes) < MinutesInDay && date.Unparseable? ==> r == Err(InvalidDateValue)
    ensures r.Ok? ==>
      && (endMinutes > startMinutes ==> r.value.dayOffset == 0 && r.value.durationMinutes == endMinutes - startMinutes)
      && (endMinutes <= startMinutes ==>
            r.value.dayOffset == 1 && r.value.durationMinutes == endMinutes - startMinutes + MinutesInDay)
      && r.value.startAt == date.day * 1440 + startMinutes
      && r.value.endAt == r.value.startAt + r.value.durationMinutes
      && 0 < r.value.durationMinutes < MinutesInDay
  {
    var dayOffset := if endMinutes <= startMinutes then 1 else 0;
    var duration := endMinutes - startMinutes + dayOffset * 1440;
    if duration <= 0 then Err(DurationNotPositive)
    else if duration >= MinutesInDay then Err(DurationTooLong)
    else if date.Unparseable? then Err(InvalidDateValue)
    else
      var startAt := date.day * 1440 + startMinutes;
      Ok(ShiftInterval(startAt, startAt + duration, duration, dayOffset))
  }

  /** The errors `calculateShiftInterval` throws: all of them are 400 Bad Request. */
  predicate IntervalError(f: Failure) {
    f == InvalidTimeFormat || f == InvalidTimeValue || f == DurationNotPositive || f == DurationTooLong
    || f == InvalidDateValue
  }

  /**
   * `calculateShiftInterval`: both times are normalised and converted to minutes
   * (format errors before value errors), then the interval is computed from them.
   */
  function CalculateShiftInterval(date: DateInput, startTime: string, endTime: string)
    : (r: Result<ShiftInterval, Failure>)
    ensures r.Ok? ==> 0 < r.value.durationMinutes < MinutesInDay
    ensures r.Ok? ==> r.value.endAt - r.value.startAt == r.value.durationMinutes
    ensures r.Ok? ==> date.Parsed? && TimesToMinutes(startTime, endTime).Ok?
    ensures r.Ok? ==> r.value.startAt == date.day * 1440 + TimesToMinutes(startTime, endTime).value.0
    ensures r.Err? ==> IntervalError(r.error)
  {
    var minutes :- TimesToMinutes(startTime, endTime);
    IntervalFromMinutes(date, minutes.0, minutes.1)
  }

  /** `getWeekBounds`: the Monday on or before the date and the Sunday after it. */
  function GetWeekBounds(date: DateInput): (r: Result<WeekBounds, Failure>)
    ensures r.Err? <==> date.Unparseable?
    ensures r.Err? ==> r.error == InvalidDateValue
    ensures r.Ok? ==> IsMonday(r.value.weekStartDate)
    ensures r.Ok? ==> r.value.weekStartDate <= date.day <= r.value.weekStartDate + 6
    ensures r.Ok? ==> r.value.weekEndDate == r.value.weekStartDate + 6
    ensures r.Ok? ==> r.value.weekStartDate == StartOfWeek(date.day)
  {
    if date.Unparseable? then Err(InvalidDateValue)
    else
      var start := StartOfWeek(date.day);
      Ok(WeekBounds(start, start + 6))
  }

  // ---------------------------------------------------------------------------
  // Times already in HH:MM form

  /** `HH:MM` with numeric, colon-free fields is read as hours and minutes. */
  lemma FieldsTimeMinutes(hh: string, mm: string)
    requires |hh| >= 2 && ':' !in hh && ParseNumber(hh).Some?
    requires |mm| == 2 && ':' !in mm && ParseNumber(mm).Some?
    ensures TimeMinutes(hh + ":" + mm).Ok?
    ensures TimeMinutes(hh + ":" + mm).value == ParseNumber(hh).value * 60 + ParseNumber(mm).value
  {
    NormalizeDigitTime(hh, mm);
    FieldsTimeToMinutes(hh, mm);
    NormalizedTimeMinutes(hh + ":" + mm);
  }

  /** The minutes of a time already in normal form are read from it directly. */
  lemma NormalizedTimeMinutes(t: string)
    requires NormalizeTimeString(t) == Ok(t)
    ensures TimeMinutes(t) == TimeToMinutes(t)
  {
  }

  /** A non-empty string of digits starts with a digit. */
  lemma {:induction false} DigitsStartWithDigit(s: string)
    requires AllDigits(s) && s != []
    ensures IsDigit(s[0])
  {
    if |s| > 1 {
      DigitsStartWithDigit(s[..|s| - 1]);
    }
  }

  /** No decimal digit is white space. */
  lemma DigitNotWhitespace(c: char)
    requires IsDigit(c)
    ensures !IsJsWhitespace(c)
  {
  }

  /** A digit is not white space, so trimming leaves a string of digits whole. */
  lemma DigitsUntrimmed(s: string)
    ensures AllDigits(s) ==> Trim(s) == s
  {
    if AllDigits(s) && s != [] {
      DigitsStartWithDigit(s);
      DigitNotWhitespace(s[0]);
      DigitNotWhitespace(s[|s| - 1]);
      assert TrimStart(s) == s;
    }
  }

  /** Two colon-free fields joined by a colon are read as hours and minutes. */
  lemma FieldsTimeToMinutes(hh: string, mm: string)
    requires ':' !in hh && ':' !in mm
    requires ParseNumber(hh).Some? && ParseNumber(mm).Some?
    ensures TimeToMinutes(hh + ":" + mm).Ok?
    ensures TimeToMinutes(hh + ":" + mm).value == ParseNumber(hh).value * 60 + ParseNumber(mm).value
  {
    FieldsOfJoin(hh, mm);
  }

  lemma {:induction false} DigitsHaveNoColon(s: string)
    requires AllDigits(s)
    ensures ':' !in s
  {
    if s != [] {
      DigitsHaveNoColon(s[..|s| - 1]);
      assert s == s[..|s| - 1] + [s[|s| - 1]];
    }
  }

  /** A time already in `HH:MM` form (no colon in either part) is left as it is. */
  lemma NormalizeDigitTime(hh: string, mm: string)
    requires |hh| >= 2 && ':' !in hh
    requires |mm| == 2 && ':' !in mm
    ensures NormalizeTimeString(hh + ":" + mm) == Ok(hh + ":" + mm)
  {
    FieldsOfJoin(hh, mm);
  }
}
