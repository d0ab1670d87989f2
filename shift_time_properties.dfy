/**
 * What `calculateShiftInterval` and `getWeekBounds` promise: seconds are ignored,
 * format errors come before value errors and those before date errors, the
 * crossing rule, and worked examples.
 */
module ShiftTimeProperties {
  import opened Wrappers
  import opened Calendar
  import opened Schema
  import opened ShiftTime

  /** When `a` has a colon, appending to it does not change its hour field. */
  lemma HourFieldAppend(a: string, b: string)
    requires HasColon(a)
    ensures HourField(a + b) == HourField(a)
  {
    ColonIndexAppend(a, b);
    assert (a + b)[..ColonIndex(a)] == a[..ColonIndex(a)];
  }

  /** Anything after a second colon (the seconds) does not change the normalised time. */
  lemma NormalizeIgnoresSeconds(time: string, seconds: string)
    requires HasColon(time)
    ensures NormalizeTimeString(time + ":" + seconds) == NormalizeTimeString(time)
  {
    var h, rest := HourField(time), AfterColon(time);
    ColonSplits(time);
    FieldHasNoColon(time);
    assert time + ":" + seconds == h + ":" + (rest + ":" + seconds);
    SplitAtFirstColon(h, rest + ":" + seconds);
    if HasColon(rest) {
      HourFieldAppend(rest, ":" + seconds);
      assert rest + ":" + seconds == rest + (":" + seconds);
    } else {
      IncludesColon(rest);
      ColonIndexNoColon(rest);
      assert rest[..|rest|] == rest;
      SplitAtFirstColon(rest, seconds);
    }
  }

  /** Normalising a normalised time changes nothing. */
  lemma NormalizeIdempotent(time: string)
    requires NormalizeTimeString(time).Ok?
    ensures NormalizeTimeString(NormalizeTimeString(time).value) == NormalizeTimeString(time)
  {
    var n := NormalizeTimeString(time).value;
    var h, m := HourField(n), MinuteField(n).value;
    assert n == h + ":" + m by {
      ColonSplits(n);
      FieldHasNoColon(n);
      IncludesColon(AfterColon(n));
      ColonIndexNoColon(AfterColon(n));
    }
    assert PadStart(h, 2) == h && PadStart(Take(m, 2), 2) == m;
  }

  /** `HH:MM[:SS]` has the same minutes since midnight as `HH:MM`. */
  lemma SecondsAreTruncated(time: string, seconds: string)
    requires HasColon(time)
    ensures TimeMinutes(time + ":" + seconds) == TimeMinutes(time)
  {
    NormalizeIgnoresSeconds(time, seconds);
  }

  /** Both formats are checked before either value: a time with no colon is an invalid format. */
  lemma NoColonIsInvalidFormat(date: DateInput, startTime: string, endTime: string)
    requires !HasColon(startTime) || !HasColon(endTime)
    ensures CalculateShiftInterval(date, startTime, endTime) == Err(InvalidTimeFormat)
  {
  }

  /** `calculateShiftInterval` is the time conversion followed by the interval arithmetic. */
  lemma CalculateInTwoSteps(date: DateInput, startTime: string, endTime: string)
    ensures TimesToMinutes(startTime, endTime).Err? ==>
      CalculateShiftInterval(date, startTime, endTime) == Err(TimesToMinutes(startTime, endTime).error)
    ensures TimesToMinutes(startTime, endTime).Ok? ==>
      var minutes := TimesToMinutes(startTime, endTime).value;
      CalculateShiftInterval(date, startTime, endTime) == IntervalFromMinutes(date, minutes.0, minutes.1)
  {
  }

  /** The date is checked after the duration guards. */
  lemma DateCheckedLast(day: Day, startMinutes: int, endMinutes: int)
    ensures IntervalFromMinutes(Parsed(day), startMinutes, endMinutes).Err? ==>
      IntervalFromMinutes(Unparseable, startMinutes, endMinutes) == IntervalFromMinutes(Parsed(day), startMinutes, endMinutes)
    ensures IntervalFromMinutes(Parsed(day), startMinutes, endMinutes).Ok? ==>
      IntervalFromMinutes(Unparseable, startMinutes, endMinutes) == Err(InvalidDateValue)
  {
  }

  /** A bad time (format, value or duration) is reported whatever the date; a bad date only after. */
  lemma TimeErrorsPrecedeDateErrors(day: Day, startTime: string, endTime: string)
    ensures CalculateShiftInterval(Parsed(day), startTime, endTime).Err? ==>
      CalculateShiftInterval(Unparseable, startTime, endTime) == CalculateShiftInterval(Parsed(day), startTime, endTime)
    ensures CalculateShiftInterval(Parsed(day), startTime, endTime).Ok? ==>
      CalculateShiftInterval(Unparseable, startTime, endTime) == Err(InvalidDateValue)
  {
    CalculateInTwoSteps(Parsed(day), startTime, endTime);
    CalculateInTwoSteps(Unparseable, startTime, endTime);
    if TimesToMinutes(startTime, endTime).Ok? {
      var minutes := TimesToMinutes(startTime, endTime).value;
      DateCheckedLast(day, minutes.0, minutes.1);
    }
  }

  /** Equal start and end times make a 24-hour shift, which is rejected as too long. */
  lemma EqualTimesAreTooLong(date: DateInput, time: string)
    requires TimeMinutes(time).Ok?
    ensures CalculateShiftInterval(date, time, time) == Err(DurationTooLong)
  {
  }

  /** With both times inside the day, the duration is never non-positive. */
  lemma ClockTimesNeverNonPositive(date: DateInput, startTime: string, endTime: string)
    requires TimeMinutes(startTime).Ok? && 0 <= TimeMinutes(startTime).value < MinutesInDay
    requires TimeMinutes(endTime).Ok? && 0 <= TimeMinutes(endTime).value < MinutesInDay
    ensures CalculateShiftInterval(date, startTime, endTime) != Err(DurationNotPositive)
  {
  }

  /**
   * A time of digits `HH:MM` (two or more hour digits, two minute digits) is
   * hours * 60 + minutes; below 24 hours and 60 minutes it lies inside the day.
   */
  lemma DigitTimeMinutes(hh: string, mm: string)
    requires |hh| >= 2 && AllDigits(hh)
    requires |mm| == 2 && AllDigits(mm)
    ensures TimeMinutes(hh + ":" + mm).Ok?
    ensures TimeMinutes(hh + ":" + mm).value == DigitsValue(hh) * 60 + DigitsValue(mm)
    ensures DigitsValue(hh) < 24 && DigitsValue(mm) < 60 ==> 0 <= TimeMinutes(hh + ":" + mm).value < MinutesInDay
  {
    DigitsHaveNoColon(hh);
    DigitsHaveNoColon(mm);
    FieldsTimeMinutes(hh, mm);
  }

  /** A run of zeros also ends in a zero. */
  lemma {:induction false} ZerosSnoc(k: nat)
    requires k > 0
    ensures Zeros(k) == Zeros(k - 1) + ['0']
  {
    if k > 1 {
      ZerosSnoc(k - 1);
      assert Zeros(k) == ['0'] + (Zeros(k - 2) + ['0']);
    }
  }

  /** A run of zeros is a string of digits worth nothing. */
  lemma {:induction false} ZerosAreZero(k: nat)
    ensures AllDigits(Zeros(k)) && DigitsValue(Zeros(k)) == 0
  {
    if k > 0 {
      ZerosSnoc(k);
      assert Zeros(k)[..k - 1] == Zeros(k - 1);
      ZerosAreZero(k - 1);
    }
  }

  /** Leading zeros change neither that a string is all digits nor its value. */
  lemma {:induction false} LeadingZerosIgnored(k: nat, s: string)
    requires AllDigits(s)
    ensures AllDigits(Zeros(k) + s) && DigitsValue(Zeros(k) + s) == DigitsValue(s)
  {
    if s == [] {
      assert Zeros(k) + s == Zeros(k);
      ZerosAreZero(k);
    } else {
      var t := Zeros(k) + s;
      assert t[..|t| - 1] == Zeros(k) + s[..|s| - 1];
      assert t[|t| - 1] == s[|s| - 1];
      LeadingZerosIgnored(k, s[..|s| - 1]);
    }
  }

  /** Padding a string of digits with zeros keeps its value. */
  lemma PaddedDigits(s: string, width: nat)
    requires AllDigits(s)
    ensures AllDigits(PadStart(s, width)) && DigitsValue(PadStart(s, width)) == DigitsValue(s)
  {
    if |s| < width {
      LeadingZerosIgnored(width - |s|, s);
    }
  }

  /** A prefix of a string of digits is a string of digits. */
  lemma {:induction false} DigitsPrefix(s: string, n: nat)
    requires AllDigits(s) && n <= |s|
    ensures AllDigits(s[..n])
  {
    if n < |s| {
      assert s[..n] == s[..|s| - 1][..n];
      DigitsPrefix(s[..|s| - 1], n);
    } else {
      assert s[..n] == s;
    }
  }

  /**
   * A digit time with hour and minute fields of any length, such as "9:00" or
   * "9:5", is read after padding both fields to two digits and cutting the
   * minute field to its first two: hours * 60 plus the first two minute digits.
   */
  lemma PaddedDigitTimeMinutes(h: string, m: string)
    requires h != [] && AllDigits(h)
    requires m != [] && AllDigits(m)
    ensures AllDigits(Take(m, 2))
    ensures TimeMinutes(h + ":" + m).Ok?
    ensures TimeMinutes(h + ":" + m).value == DigitsValue(h) * 60 + DigitsValue(Take(m, 2))
  {
    DigitsHaveNoColon(h);
    DigitsHaveNoColon(m);
    FieldsOfJoin(h, m);
    PaddedFieldsMinutes(h + ":" + m, h, m);
  }

  /** A time whose hour and minute fields are digits is read from the padded fields. */
  lemma PaddedFieldsMinutes(t: string, h: string, m: string)
    requires HasColon(t) && HourField(t) == h && MinuteField(t) == Some(m)
    requires h != [] && AllDigits(h)
    requires m != [] && AllDigits(m)
    ensures AllDigits(Take(m, 2))
    ensures TimeMinutes(t).Ok?
    ensures TimeMinutes(t).value == DigitsValue(h) * 60 + DigitsValue(Take(m, 2))
  {
    var m2 := Take(m, 2);
    assert m2 == m[..|m2|];
    DigitsPrefix(m, |m2|);
    PaddedDigits(h, 2);
    PaddedDigits(m2, 2);
    NormalizedFieldsMinutes(t);
  }

  /** The minutes of a time are read from the two fields of its normal form. */
  lemma NormalizedFieldsMinutes(t: string)
    requires NormalizeTimeString(t).Ok?
    ensures var n := NormalizeTimeString(t).value;
      && MinuteField(n).Some?
      && (ParseNumber(HourField(n)).Some? && ParseNumber(MinuteField(n).value).Some? ==>
            TimeMinutes(t).Ok?
            && TimeMinutes(t).value == ParseNumber(HourField(n)).value * 60 + ParseNumber(MinuteField(n).value).value)
  {
  }

  /**
   * The overnight example: 23:00 (1380 minutes, see DigitTimeMinutes) to 02:00
   * (120 minutes) crosses midnight and lasts three hours.
   */
  lemma OvernightExample()
    ensures IntervalFromMinutes(Parsed(0), 23 * 60, 2 * 60) == Ok(ShiftInterval(1380, 1560, 180, 1))
  {
  }

  /** Once both times have their minutes, the calculator works on those minutes alone. */
  lemma CalculateFromTimeMinutes(date: DateInput, startTime: string, endTime: string, a: int, b: int)
    requires TimeMinutes(startTime).Ok? && TimeMinutes(startTime).value == a
    requires TimeMinutes(endTime).Ok? && TimeMinutes(endTime).value == b
    ensures CalculateShiftInterval(date, startTime, endTime) == IntervalFromMinutes(date, a, b)
  {
    assert TimesToMinutes(startTime, endTime).value == (a, b);
    CalculateInTwoSteps(date, startTime, endTime);
  }

  /**
   * The overnight example on the time strings themselves: "23:00" to "02:00" on
   * day 0 starts at minute 1380, ends at 1560 on the next day, and lasts 180 minutes.
   */
  /** A time written as two digits of hours and ":00" is that many whole hours. */
  lemma WholeHourMinutes(time: string, hh: string, hours: nat)
    requires |hh| == 2 && AllDigits(hh) && DigitsValue(hh) == hours
    requires time == hh + ":" + "00"
    ensures TimeMinutes(time).Ok? && TimeMinutes(time).value == hours * 60
  {
    assert DigitsValue("00") == 0;
    DigitTimeMinutes(hh, "00");
  }

  lemma ElevenPmMinutes(time: string)
    requires time == "23:00"
    ensures TimeMinutes(time).Ok? && TimeMinutes(time).value == 1380
  {
    var hh := "23";
    assert DigitsValue(hh) == 23 && AllDigits(hh);
    assert time == hh + ":" + "00";
    WholeHourMinutes(time, hh, 23);
  }

  lemma TwoAmMinutes(time: string)
    requires time == "02:00"
    ensures TimeMinutes(time).Ok? && TimeMinutes(time).value == 120
  {
    var hh := "02";
    assert DigitsValue(hh) == 2 && AllDigits(hh);
    assert time == hh + ":" + "00";
    WholeHourMinutes(time, hh, 2);
  }

  lemma OvernightTimesExample(startTime: string, endTime: string)
    requires startTime == "23:00" && endTime == "02:00"
    ensures CalculateShiftInterval(Parsed(0), startTime, endTime).Ok?
    ensures CalculateShiftInterval(Parsed(0), startTime, endTime).value == ShiftInterval(1380, 1560, 180, 1)
  {
    ElevenPmMinutes(startTime);
    TwoAmMinutes(endTime);
    CalculateFromTimeMinutes(Parsed(0), startTime, endTime, 1380, 120);
    OvernightExample();
  }

  /**
   * The request pattern does not bound the hour, so a digit time such as 99:00 is
   * read as 5940 minutes; from there to 01:00 the duration is negative.
   */
  lemma OutOfRangeHourExample()
    ensures IntervalFromMinutes(Parsed(0), 99 * 60, 1 * 60) == Err(DurationNotPositive)
  {
  }

  /** Leading white space is dropped up to the first other character. */
  lemma {:induction false} TrimStartSkipsWhitespace(ws: string, s: string)
    requires forall i | 0 <= i < |ws| :: IsJsWhitespace(ws[i])
    requires s != [] && !IsJsWhitespace(s[0])
    ensures TrimStart(ws + s) == s
  {
    if ws == [] {
      assert ws + s == s;
    } else {
      assert (ws + s)[1..] == ws[1..] + s;
      TrimStartSkipsWhitespace(ws[1..], s);
    }
  }

  /** `Number()` reads digits after white space as the digits alone. */
  lemma WhitespaceBeforeDigitsIgnored(ws: string, h: string)
    requires forall i | 0 <= i < |ws| :: IsJsWhitespace(ws[i])
    requires h != [] && AllDigits(h)
    ensures ParseNumber(ws + h) == Some(DigitsValue(h))
    ensures ':' !in ws + h
  {
    DigitsStartWithDigit(h);
    DigitsUntrimmed(h);
    TrimStartSkipsWhitespace(ws, h);
    DigitsHaveNoColon(h);
  }

  /**
   * `Number()` ignores white space around a field, and the request pattern is
   * not anchored, so a time with white space before its hour digits, such as
   * " 9:00", passes validation and is read as if the white space were absent.
   */
  lemma WhitespaceBeforeHourIgnored(ws: string, h: string, mm: string)
    requires ws != [] && forall i | 0 <= i < |ws| :: IsJsWhitespace(ws[i])
    requires h != [] && AllDigits(h)
    requires |mm| == 2 && AllDigits(mm)
    ensures TimeMinutes(ws + h + ":" + mm).Ok?
    ensures TimeMinutes(ws + h + ":" + mm).value == DigitsValue(h) * 60 + DigitsValue(mm)
  {
    var hh := ws + h;
    WhitespaceBeforeDigitsIgnored(ws, h);
    DigitsHaveNoColon(mm);
    FieldsTimeMinutes(hh, mm);
  }

  /** Resolving the week of a week's own Monday gives the same week. */
  lemma WeekBoundsIdempotent(date: DateInput)
    requires date.Parsed?
    ensures GetWeekBounds(Parsed(GetWeekBounds(date).value.weekStartDate)) == GetWeekBounds(date)
  {
    StartOfWeekIdempotent(date.day);
  }
}
