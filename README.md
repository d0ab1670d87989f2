# Shift scheduling engine: a verified model

This project models the core of a staff shift scheduler in Dafny. Staff
shifts (a name, a date, a start and an end time) belong to Monday-to-Sunday
weeks. A week can be published once. After that its shifts are locked: they
cannot be created, edited, moved into or deleted.

The model covers four parts of the system:

- **The interval calculator and week resolver** (`shiftTime.ts`). A time
  string `HH:MM[:SS]` is normalised and read as minutes since midnight. A
  (date, start, end) triple becomes an absolute interval: an end at or before
  the start falls on the next day, and the duration must be strictly between 0
  and 24 hours. Any date resolves to its Monday-to-Sunday week.
  Modules: `Calendar`, `ShiftTime`, `ShiftTimeProperties`.
- **The shift use cases** (`shiftUsecase.ts`). This part covers the response
  mapper and the lazy creation of week rows. It also covers the clash search:
  the first other shift, dated within a day of the candidate, whose interval
  strictly overlaps it. Then come the listing sorted by (date, start time), and
  create, update and delete with their guards in the order the code checks
  them. Modules: `ShiftUsecase`, `ShiftUsecaseProperties`.
- **Week publication** (`weekUsecase.ts`). A week is read by any of its dates,
  and a week that was never touched is shown without creating a row.
  Publishing marks the week and cascades the flag and the one publication time
  to its shifts. Modules: `WeekUsecase`, `WeekUsecaseProperties`.
- **The frontend schedule reducer** (`scheduleSlice.ts`). It tracks the
  selected week, the listed shifts and the UI flags. Modules: `ScheduleSlice`,
  `ScheduleSliceProperties`.

## How the store is modelled

The Week and Shift repositories become one in-memory store (`Repository`):

- the week rows keyed by id;
- the unique index on `startDate`;
- the shift rows in storage order;
- two id counters.

`Tables` is the store as a value. `Store` is a class with the same fields,
which the use-case methods update in place. Each repository call that writes
has two forms: a pure function on `Tables`, and a `Store` method whose
postcondition says the method performs that function. The reads
(`FindWeekByStart`, `FindShiftById`, `ShiftsDatedIn`) change nothing. They are
pure functions only, and the use-case methods apply them to `store.State()`.

Each writing use case also has two forms:

- a pure function `…Step(t, …)` that returns the new tables and the response;
- a method (`Create`, `UpdateById`, `DeleteById` and `GetOrCreateWeek` in
  module ShiftUsecaseStore, `PublishWeek` in module WeekUsecaseStore) that makes
  the same repository calls, in the code's order, on a `Store`. Its
  postcondition is `Step(store.State(), r) == …Step(old(store.State()), …)`.

The store invariant `Repository.Consistent` holds of every reachable store.
It says:

- week rows are well-formed Monday-to-Sunday weeks;
- at most one row exists per `startDate`;
- shift ids are distinct;
- every shift points at the week row of its date and carries that week's
  publication state.

Each use case is proved to keep it: the lemmas `…KeepsConsistent` state it of
the `…Step` functions. `Store.Valid()` is the invariant of the store's current
state. Every use-case method requires it and ensures it again, and the
constructor establishes it for the empty store.

The model uses these representations:

- Dates are day numbers. Day 0 is Monday 2024-01-01, and the weekday of a day
  is its remainder modulo 7.
- A date string arrives as `Parsed(day)` or `Unparseable`.
- Times stay strings, since the code splits, pads and slices them.
- Intervals are integer minutes from midnight of day 0.
- The publication time (`new Date()` in `publishWeek`) is a parameter `now`.
- Every error the core throws is a constructor of `Schema.Failure`, and `Status()` gives its HTTP status.

## Model

Definitions without a contract of their own have no row: the overlap test
`ShiftUsecase.Overlaps` (backend/src/usecases/shiftUsecase.ts:89-92), the
interval of a stored row `ShiftUsecase.StoredInterval`, and the new row
`ShiftUsecase.NewShift` (backend/src/usecases/shiftUsecase.ts:156-162). Their
properties are stated by `OverlapFacts`, `OvernightClashExample`,
`FirstClashIsFirst` and `CreateStoresShift` below.

| member | source | states |
|---|---|---|
| Calendar.StartOfWeek | backend/src/shared/functions/shiftTime.ts:79 | the week start of a date is a Monday at most six days before it |
| Calendar.StartOfWeekUnique | backend/src/shared/functions/shiftTime.ts:79 | the Monday at most six days before a date is the only one: any such Monday is its week start |
| Calendar.StartOfWeekIdempotent | backend/src/shared/functions/shiftTime.ts:79 | the week start of a Monday is that Monday |
| Calendar.SameWeek | backend/src/shared/functions/shiftTime.ts:79-80 | every day from a Monday to the Sunday after it has that Monday as its week start |
| Schema.Failure.Status | backend/src/usecases/shiftUsecase.ts:123-154 | a clash is 409, an unknown shift 404, and every other error the core throws is 400 |
| ShiftTime.Take | backend/src/shared/functions/shiftTime.ts:19 | `slice(0, n)` is a prefix of the string: the whole string when it is no longer than n, and exactly n characters otherwise |
| ShiftTime.PadStart | backend/src/shared/functions/shiftTime.ts:21 | `padStart(w, "0")` leaves a string of width at least w as it is; a shorter one reaches exactly width w, with `'0'` in every added position and the string itself at the end; no colon is added |
| ShiftTime.IncludesColon | backend/src/shared/functions/shiftTime.ts:14 | `includes(":")` holds exactly when the first-colon search stops inside the string, and it stops on a colon |
| ShiftTime.SplitAtFirstColon | backend/src/shared/functions/shiftTime.ts:18 | `split(":")` of `h + ":" + rest`, where h has no colon, gives h as its first field and rest after the colon |
| ShiftTime.ColonSplits | backend/src/shared/functions/shiftTime.ts:18 | a string with a colon is its first field, the colon, and the rest |
| ShiftTime.NormalizeTimeString | backend/src/shared/functions/shiftTime.ts:13-22 | fails with "Invalid time format" exactly when there is no colon; otherwise the hour field is padded to two digits and the minute field is its first two characters padded to two, joined by one colon, so the result has one colon and nothing after the minute field |
| ShiftTime.TimeToMinutes | backend/src/shared/functions/shiftTime.ts:24-34 | succeeds exactly when both fields are numbers, with hours * 60 + minutes; otherwise "Invalid time value" |
| ShiftTime.TimesToMinutes | backend/src/shared/functions/shiftTime.ts:41-45 | both times convert or the result is an error; the error is "Invalid time format" exactly when one of them has no colon, and otherwise "Invalid time value" |
| ShiftTime.IntervalFromMinutes | backend/src/shared/functions/shiftTime.ts:47-71 | succeeds exactly when 0 < duration < 1440 and the date parses; a duration of at most 0, then one of at least 1440, then a bad date is the error; end > start gives offset 0 and end - start, otherwise offset 1 and end - start + 1440; startAt is midnight of the date plus the start; endAt - startAt is the duration |
| ShiftTime.CalculateShiftInterval | backend/src/shared/functions/shiftTime.ts:36-72 | every interval returned lasts more than 0 and less than 1440 minutes, starts at midnight of its date plus the start minutes, and ends a duration later; every error is one of the five 400 errors of the calculator |
| ShiftTime.GetWeekBounds | backend/src/shared/functions/shiftTime.ts:74-86 | fails with "Invalid date value" exactly on an unparseable date; otherwise the start is the date's week start, a Monday at most six days before it, and the end is six days after the start |
| ShiftTime.TrimStart | backend/src/shared/functions/shiftTime.ts:26-27 | drops exactly the leading white space `Number()` ignores: what is dropped is white space, and what is kept starts with something else |
| ShiftTime.TrimEnd | backend/src/shared/functions/shiftTime.ts:26-27 | keeps a prefix and drops exactly the trailing white space `Number()` ignores |
| ShiftTime.NumberValue | backend/src/shared/functions/shiftTime.ts:26-29 | a trimmed field has a value exactly when it is empty (0), decimal digits, or a sign followed by digits; the value is the digits', negated after a minus |
| ShiftTime.ParseNumber | backend/src/shared/functions/shiftTime.ts:26-29 | `Number()` of a field is not NaN exactly when the field, trimmed, is digits or signed digits; a field of plain digits reads as its decimal value |
| ShiftTime.FieldsTimeMinutes | backend/src/shared/functions/shiftTime.ts:24-34 | a time `HH:MM` with numeric, colon-free fields reads as HH * 60 + MM |
| ShiftTime.FieldsTimeToMinutes | backend/src/shared/functions/shiftTime.ts:25-33 | two numeric, colon-free fields joined by a colon read as hours * 60 + minutes |
| ShiftTime.NormalizeDigitTime | backend/src/shared/functions/shiftTime.ts:13-22 | a time already in `HH:MM` form is normalised to itself |
| ShiftTimeProperties.NormalizeIgnoresSeconds | backend/src/shared/functions/shiftTime.ts:18-21 | appending `:SS` to a time leaves its normal form unchanged |
| ShiftTimeProperties.NormalizeIdempotent | backend/src/shared/functions/shiftTime.ts:13-22 | normalising a normalised time gives it back |
| ShiftTimeProperties.SecondsAreTruncated | backend/src/shared/functions/shiftTime.ts:18-34 | `HH:MM:SS` has the same minutes since midnight as `HH:MM` |
| ShiftTimeProperties.NoColonIsInvalidFormat | backend/src/shared/functions/shiftTime.ts:13-16 | when either time has no colon, the calculator fails with "Invalid time format", whatever the date |
| ShiftTimeProperties.CalculateInTwoSteps | backend/src/shared/functions/shiftTime.ts:41-48 | the calculator is the time conversion followed by the interval arithmetic, with the conversion's errors first |
| ShiftTimeProperties.DateCheckedLast | backend/src/shared/functions/shiftTime.ts:50-61 | a duration error is the same with a bad date; with a good duration, a bad date gives "Invalid date value" |
| ShiftTimeProperties.TimeErrorsPrecedeDateErrors | backend/src/shared/functions/shiftTime.ts:41-61 | any time error (format, value, duration) is reported whatever the date; a bad date is reported only when the times are good |
| ShiftTimeProperties.EqualTimesAreTooLong | backend/src/shared/functions/shiftTime.ts:47-56 | equal start and end times make a 1440-minute shift, rejected as too long |
| ShiftTimeProperties.ClockTimesNeverNonPositive | backend/src/shared/functions/shiftTime.ts:47-52 | with both times inside the day the "not positive" guard never fires |
| ShiftTimeProperties.LeadingZerosIgnored | backend/src/shared/functions/shiftTime.ts:21 | zeros put in front of a string of digits keep it all digits and keep its value |
| ShiftTimeProperties.PaddedDigits | backend/src/shared/functions/shiftTime.ts:21 | padding a digit field to two characters keeps its value, so "9" and "09" read the same |
| ShiftTimeProperties.PaddedDigitTimeMinutes | backend/src/shared/functions/shiftTime.ts:18-34 | a time of digit fields of any length, such as "9:00" or "9:5", is hours * 60 plus the value of the first two minute digits: "9:00" is 540 and "9:5" is 545 |
| ShiftTimeProperties.DigitTimeMinutes | backend/src/shared/functions/shiftTime.ts:24-34 | a digit time `HH:MM` is HH * 60 + MM minutes, and lies inside the day when HH < 24 and MM < 60 |
| ShiftTimeProperties.WhitespaceBeforeHourIgnored | backend/src/shared/functions/shiftTime.ts:24-34 | white space before the hour digits (" 9:00") is ignored: the time reads as HH * 60 + MM, as without it |
| ShiftTimeProperties.OvernightExample | backend/src/shared/functions/shiftTime.ts:47-48 | 23:00 to 02:00 crosses midnight (offset 1) and lasts 180 minutes |
| ShiftTimeProperties.CalculateFromTimeMinutes | backend/src/shared/functions/shiftTime.ts:41-48 | once both time strings have their minutes, the calculated interval depends on those minutes alone |
| ShiftTimeProperties.WholeHourMinutes | backend/src/shared/functions/shiftTime.ts:24-34 | a time of two hour digits and ":00" is that many whole hours in minutes |
| ShiftTimeProperties.OvernightTimesExample | backend/src/shared/functions/shiftTime.ts:41-48 | the strings "23:00" and "02:00" give an interval from minute 1380 to 1560: it crosses midnight (offset 1) and lasts 180 minutes |
| ShiftTimeProperties.OutOfRangeHourExample | backend/src/shared/functions/shiftTime.ts:50-52 | an hour beyond 23 (99:00 to 01:00) reaches the "not positive" guard |
| ShiftTimeProperties.WeekBoundsIdempotent | backend/src/shared/functions/shiftTime.ts:74-86 | resolving the week of a week's own start gives the same bounds |
| Repository.FindWeekByStart | backend/src/usecases/shiftUsecase.ts:42 | finds a row with that start date; under the invariant it finds one exactly when the index has the date, and it is the stored row |
| Repository.FindShiftById | backend/src/usecases/shiftUsecase.ts:124 | finds a stored row with that id exactly when one exists |
| Repository.ShiftsDatedIn | backend/src/usecases/weekUsecase.ts:58-62 | the rows dated in the range, exactly: every one it returns is stored and in range, and every stored row in range is returned |
| Repository.InsertWeek | backend/src/usecases/shiftUsecase.ts:45-50 | a new unpublished row with a fresh id, indexed by its start date; shifts unchanged |
| Repository.MarkWeekPublished | backend/src/usecases/weekUsecase.ts:70-73 | only that row changes, to published at the given time |
| Repository.InsertShift | backend/src/usecases/shiftUsecase.ts:164 | the row gets a fresh id and is appended; nothing else changes |
| Repository.ReplaceShift | backend/src/usecases/shiftUsecase.ts:214-220 | only the row with that id is replaced, in place |
| Repository.RemoveShift | backend/src/usecases/shiftUsecase.ts:244 | only the row with that id leaves; the others keep their order |
| Repository.PublishShiftsOfWeek | backend/src/usecases/weekUsecase.ts:75-81 | every row with that week id, and no other, becomes published at the given time |
| Repository.Store.constructor | backend/src/database/default/entity/week.ts:10 | the empty store, which satisfies the invariant |
| Repository.Store.CreateWeek | backend/src/usecases/shiftUsecase.ts:45-50 | performs InsertWeek on the store |
| Repository.Store.UpdateWeekPublished | backend/src/usecases/weekUsecase.ts:70-73 | performs MarkWeekPublished on the store |
| Repository.Store.CreateShift | backend/src/usecases/shiftUsecase.ts:164 | performs InsertShift on the store |
| Repository.Store.UpdateShiftById | backend/src/usecases/shiftUsecase.ts:214-220 | performs ReplaceShift on the store |
| Repository.Store.DeleteShiftById | backend/src/usecases/shiftUsecase.ts:244 | performs RemoveShift on the store |
| Repository.Store.PublishShiftsWhereWeek | backend/src/usecases/weekUsecase.ts:75-81 | performs PublishShiftsOfWeek on the store |
| ShiftUsecase.SanitizeTime | backend/src/usecases/shiftUsecase.ts:18-19 | a prefix of the time: a time of at most five characters is kept whole, and a longer one is cut to exactly five |
| ShiftUsecase.WeekSummary | backend/src/usecases/shiftUsecase.ts:29-37 | the nested week object copies the week's id, dates and publication state |
| ShiftUsecase.MapShiftResponse | backend/src/usecases/shiftUsecase.ts:21-38 | the shift's fields with sanitised times; published exactly when its week is; publishedAt from the week, null and `week: null` without one |
| ShiftUsecase.GetOrCreateWeekStep | backend/src/usecases/shiftUsecase.ts:40-54 | the week returned starts on the date's Monday, and no shift row changes |
| ShiftUsecaseStore.GetOrCreateWeek | backend/src/usecases/shiftUsecase.ts:40-54 | performs GetOrCreateWeekStep on the store and keeps the store invariant |
| ShiftUsecase.ClashPool | backend/src/usecases/shiftUsecase.ts:66-81 | exactly the stored shifts dated from the day before to the day after, other than the excluded id |
| ShiftUsecase.FirstClash | backend/src/usecases/shiftUsecase.ts:79-93 | a shift it returns is in the pool and overlaps; no result means every pool shift is valid and clear; an error is the 400 error of a stored shift's own interval |
| ShiftUsecase.FindClashingShift | backend/src/usecases/shiftUsecase.ts:56-95 | a result is a stored shift, not the excluded one, dated within a day, whose interval strictly overlaps the candidate's; no result means every such shift is clear; errors are the calculator's |
| ShiftUsecase.InsertShiftSorted | backend/src/usecases/shiftUsecase.ts:100-103 | inserting adds exactly the one row |
| ShiftUsecase.SortShifts | backend/src/usecases/shiftUsecase.ts:100-103 | sorting is a permutation of the rows |
| ShiftUsecase.FindRows | backend/src/usecases/shiftUsecase.ts:106-118 | without a week date every stored row, as a permutation; with one, an error exactly when it does not parse |
| ShiftUsecase.Find | backend/src/usecases/shiftUsecase.ts:97-121 | succeeds exactly when the rows are read, and maps each row, in order, to its response |
| ShiftUsecase.FindById | backend/src/usecases/shiftUsecase.ts:123-131 | "Shift not found" exactly when no stored shift has the id; otherwise the response of that shift |
| ShiftUsecase.Merge | backend/src/usecases/shiftUsecase.ts:187-192 | each field comes from the payload when present, otherwise from the stored shift |
| ShiftUsecaseStore.Create | backend/src/usecases/shiftUsecase.ts:133-174 | performs CreateStep on the store and keeps the store invariant, whatever the outcome |
| ShiftUsecaseStore.UpdateById | backend/src/usecases/shiftUsecase.ts:176-227 | performs UpdateStep on the store and keeps the store invariant, whatever the outcome |
| ShiftUsecaseStore.DeleteById | backend/src/usecases/shiftUsecase.ts:229-245 | performs DeleteStep on the store and keeps the store invariant, whatever the outcome |
| ShiftUsecaseProperties.GetOrCreateWeekFacts | backend/src/usecases/shiftUsecase.ts:40-54 | the invariant is kept; the week returned is the indexed row of the date's Monday; an existing row is returned with nothing written; otherwise exactly one unpublished Monday-to-Sunday row is added; no existing row changes |
| ShiftUsecaseProperties.InsertWeekKeepsConsistent | backend/src/usecases/shiftUsecase.ts:44-51 | adding the row of a Monday that has none keeps the invariant, so there is still one row per start date |
| ShiftUsecaseProperties.InsertShiftKeepsConsistent | backend/src/usecases/shiftUsecase.ts:156-164 | storing a shift that belongs to its date's week keeps the invariant |
| ShiftUsecaseProperties.CreateKeepsConsistent | backend/src/usecases/shiftUsecase.ts:133-174 | `create` keeps the invariant, whatever its outcome |
| ShiftUsecaseProperties.CreateChecksIntervalFirst | backend/src/usecases/shiftUsecase.ts:136-140 | an invalid interval is the error, and nothing is written |
| ShiftUsecaseProperties.CreateInPublishedWeekFails | backend/src/usecases/shiftUsecase.ts:142-146 | a valid shift in a published week fails with "Cannot create shift in a published week", whatever the clashes, and nothing is written |
| ShiftUsecaseProperties.CreateRefusalKeepsWeekRow | backend/src/usecases/shiftUsecase.ts:142-154 | once the interval is valid, a refused create still leaves the week row it looked up or created, and no shift is written |
| ShiftUsecaseProperties.CreateClashRule | backend/src/usecases/shiftUsecase.ts:148-154 | a clash without `ignoreClash` is a 409 carrying the clashing shift; no clash, or `ignoreClash`, succeeds |
| ShiftUsecaseProperties.CreateStoresShift | backend/src/usecases/shiftUsecase.ts:156-173 | a successful create appends one row with a fresh id, the name and date, sanitised times and the id of the date's week, unpublished, and returns its response |
| ShiftUsecaseProperties.CreateKeepsWeekRows | backend/src/usecases/shiftUsecase.ts:142-164 | `create` never changes or removes a week row |
| ShiftUsecaseProperties.ReplaceShiftKeepsConsistent | backend/src/usecases/shiftUsecase.ts:214-220 | replacing a row by one with the same id that belongs to its date's week keeps the invariant |
| ShiftUsecaseProperties.ShiftOfUnpublishedWeek | backend/src/usecases/shiftUsecase.ts:183-185 | under the invariant every stored shift has a week, and it is published exactly when its week is |
| ShiftUsecaseProperties.UpdateKeepsConsistent | backend/src/usecases/shiftUsecase.ts:176-227 | `updateById` keeps the invariant, whatever its outcome |
| ShiftUsecaseProperties.UpdateGuardsBeforeWrites | backend/src/usecases/shiftUsecase.ts:177-198 | unknown id gives 404, then a shift of a published week is refused, then an invalid merged interval is the error; none of them writes |
| ShiftUsecaseProperties.UpdateIntoPublishedWeekFails | backend/src/usecases/shiftUsecase.ts:200-204 | moving an unpublished shift into a published week fails with "Cannot move shift into a published week", and nothing is written |
| ShiftUsecaseProperties.UpdateClashRule | backend/src/usecases/shiftUsecase.ts:206-212 | once the earlier guards pass, a clash with another shift (the shift itself excluded) without `ignoreClash` is a 409 carrying the clashing shift; no clash, or `ignoreClash`, succeeds |
| ShiftUsecaseProperties.UpdateStoresMerged | backend/src/usecases/shiftUsecase.ts:214-226 | a successful update replaces the row in place with the merged, sanitised fields and the target week's id, keeps its id, and returns its response |
| ShiftUsecaseProperties.UpdateKeepsWeekRows | backend/src/usecases/shiftUsecase.ts:200-220 | `updateById` never changes or removes a week row |
| ShiftUsecaseProperties.DeleteRefusals | backend/src/usecases/shiftUsecase.ts:229-238 | an array of ids is refused before any lookup, then an unknown id gives 404; nothing is written |
| ShiftUsecaseProperties.DeletePublishedFails | backend/src/usecases/shiftUsecase.ts:240-242 | under the invariant a stored shift is refused deletion exactly when it is published, and then nothing is written |
| ShiftUsecaseProperties.DeleteSucceedsIff | backend/src/usecases/shiftUsecase.ts:229-244 | deleting one id succeeds exactly when a shift with that id exists and its week is not published |
| ShiftUsecaseProperties.RemoveAtLeavesOthers | backend/src/usecases/shiftUsecase.ts:244 | removing the row with an id leaves exactly the rows with other ids, still with distinct ids |
| ShiftUsecaseProperties.DeleteUnfold | backend/src/usecases/shiftUsecase.ts:244 | a successful delete removes the row at the id's position and nothing else |
| ShiftUsecaseProperties.RemoveAtKeepsDistinct | backend/src/usecases/shiftUsecase.ts:244 | removing one row keeps the shift ids distinct |
| ShiftUsecaseProperties.DeleteRemovesOnlyThatRow | backend/src/usecases/shiftUsecase.ts:229-245 | a successful delete leaves the weeks as they were and exactly the other shifts, in their order |
| ShiftUsecaseProperties.DeleteKeepsConsistent | backend/src/usecases/shiftUsecase.ts:229-245 | `deleteById` keeps the invariant, whatever its outcome |
| ShiftUsecaseProperties.SanitizeIdempotent | backend/src/usecases/shiftUsecase.ts:18-19 | sanitising twice is sanitising once |
| ShiftUsecaseProperties.FieldOfPrefix | backend/src/usecases/shiftUsecase.ts:18-19 | the first two characters of the hour field do not depend on what follows them |
| ShiftUsecaseProperties.SanitizeKeepsMeaning | backend/src/usecases/shiftUsecase.ts:18-19 | for a time with a two-character hour, sanitising does not change its normal form, so the stored time means what the request meant |
| ShiftUsecaseProperties.OverlapFacts | backend/src/usecases/shiftUsecase.ts:89-92 | overlap is symmetric, and intervals that only touch do not overlap |
| ShiftUsecaseProperties.OvernightClashExample | backend/src/usecases/shiftUsecase.ts:89-92 | a shift from 23:00 to 02:00 clashes with a shift from 01:00 to 03:00 on the next day |
| ShiftUsecaseProperties.FirstClashIsFirst | backend/src/usecases/shiftUsecase.ts:79-93 | the clash returned is the first in pool order: every shift before it is clear |
| ShiftUsecaseProperties.FirstClashIndex | backend/src/usecases/shiftUsecase.ts:79-93 | gives the position of the clash returned, with every shift before that position clear |
| ShiftUsecaseProperties.WindowSuffices | backend/src/usecases/shiftUsecase.ts:66-70 | with start times inside the day, intervals more than a day apart never overlap |
| ShiftUsecaseProperties.NoClashAnywhere | backend/src/usecases/shiftUsecase.ts:56-95 | when the search finds nothing, no other valid stored shift starting inside its day clashes, in or out of the window |
| ShiftUsecaseProperties.OutOfRangeHourEscapesWindow | backend/src/usecases/shiftUsecase.ts:66-77 | a stored shift two days back at 48:00-49:00 overlaps a candidate at 00:00-01:00 but lies outside the search window |
| ShiftUsecaseProperties.TimeLeTotal | backend/src/usecases/shiftUsecase.ts:102 | string order is total |
| ShiftUsecaseProperties.InsertKeepsSorted | backend/src/usecases/shiftUsecase.ts:100-103 | inserting into a sorted list keeps it sorted by (date, startTime) |
| ShiftUsecaseProperties.SortShiftsSorted | backend/src/usecases/shiftUsecase.ts:100-103 | the listing is sorted by date, then start time |
| ShiftUsecaseProperties.SortKeepsMembers | backend/src/usecases/shiftUsecase.ts:100-103 | sorting neither loses nor invents a row |
| ShiftUsecaseProperties.FindRowsUnfold | backend/src/usecases/shiftUsecase.ts:108-115 | with a week date, the rows are the sorted rows dated from its Monday to its Sunday |
| ShiftUsecaseProperties.FindRowsOfWeek | backend/src/usecases/shiftUsecase.ts:108-115 | with a week date, the listing is sorted and a permutation of the rows dated in that week |
| ShiftUsecaseProperties.FindRowsOfWeekMembers | backend/src/usecases/shiftUsecase.ts:108-115 | a shift is listed for a week exactly when it is dated from its Monday to its Sunday |
| ShiftUsecaseProperties.FindRowsOfAll | backend/src/usecases/shiftUsecase.ts:116-117 | without a week date, every shift is listed once, sorted |
| WeekUsecase.MapWeekResponse | backend/src/usecases/weekUsecase.ts:7-19 | copies the dates and publication state; a missing id is null |
| WeekUsecase.GetWeekByStartDate | backend/src/usecases/weekUsecase.ts:21-37 | fails exactly on a bad date; otherwise starts on the date's Monday; shows the stored row when there is one, and otherwise an unpublished Monday-to-Sunday view with no id |
| WeekUsecaseStore.PublishWeek | backend/src/usecases/weekUsecase.ts:39-86 | performs PublishStep on the store, with `now` as the publication time, and keeps the store invariant |
| WeekUsecaseProperties.ReadByAnyDayOfWeek | backend/src/usecases/weekUsecase.ts:21-23 | reading by any day of a week gives the same view as reading by its Monday |
| WeekUsecaseProperties.ReadShowsStoredRow | backend/src/usecases/weekUsecase.ts:25-36 | under the invariant, the view has an id exactly when the week has a row, and then shows the row |
| WeekUsecaseProperties.PublishInvalidDate | backend/src/usecases/weekUsecase.ts:40-41 | a bad date is refused before anything is read or written |
| WeekUsecaseProperties.PublishAlreadyPublished | backend/src/usecases/weekUsecase.ts:54-56 | publishing a published week fails with "Week is already published", and nothing is written |
| WeekUsecaseProperties.PublishEmptyWeek | backend/src/usecases/weekUsecase.ts:43-66 | a week with no shift dated in it fails with "Cannot publish an empty week", but the row found or created stays |
| WeekUsecaseProperties.PublishSucceedsIff | backend/src/usecases/weekUsecase.ts:43-66 | under the invariant, publishing succeeds exactly when the week's row is not already published and some shift is dated in the week |
| WeekUsecaseProperties.NoneDatedIn | backend/src/usecases/weekUsecase.ts:58-66 | with no shift dated in the range, the query is empty |
| WeekUsecaseProperties.PublishUnfold | backend/src/usecases/weekUsecase.ts:68-81 | a successful publish is the row marked, then its shifts cascaded, over the tables after the lookup |
| WeekUsecaseProperties.PointsAtWeekIffDatedIn | backend/src/usecases/weekUsecase.ts:58-76 | under the invariant, a shift points at a week's row exactly when it is dated in that week, so the emptiness check and the cascade pick the same shifts |
| WeekUsecaseProperties.PublishCascade | backend/src/usecases/weekUsecase.ts:68-85 | on success the week row becomes published at `now`, the response is that week, and every other week row is unchanged |
| WeekUsecaseProperties.PublishCoversExactlyTheWeek | backend/src/usecases/weekUsecase.ts:58-81 | on success every shift dated in the week gets the flag and `now`, and every other shift is unchanged, in place |
| WeekUsecaseProperties.MarkKeepsWeeksConsistent | backend/src/usecases/weekUsecase.ts:70-73 | marking a row published keeps the week table consistent |
| WeekUsecaseProperties.MarkAndCascadeKeepsConsistent | backend/src/usecases/weekUsecase.ts:70-81 | marking a row and cascading to its shifts keeps the invariant |
| WeekUsecaseProperties.PublishKeepsConsistent | backend/src/usecases/weekUsecase.ts:39-86 | `publishWeek` keeps the invariant, whatever its outcome |
| WeekUsecaseProperties.PublishThenRead | backend/src/usecases/weekUsecase.ts:83-85 | after a successful publish, reading the week shows what the publish returned |
| WeekUsecaseProperties.PublishNeverUnpublishes | backend/src/usecases/weekUsecase.ts:70-81 | a published week row is never changed by a publish, so nothing is ever unpublished |
| ScheduleSlice.ComputeWeekRange | frontend/src/store/slices/scheduleSlice.ts:38-45 | fails exactly on an unparseable date; otherwise the start is a Monday at most six days before the date and the end is six days after it |
| ScheduleSlice.Without | frontend/src/store/slices/scheduleSlice.ts:96 | keeps exactly the shifts whose id differs, and no more of them than there were |
| ScheduleSlice.ScheduleReducer | frontend/src/store/slices/scheduleSlice.ts:74-101 | fails only on an unparseable selected week; a selected week changes only the two week fields, to a Monday and the Sunday after it around the date; REMOVE_SHIFT changes only the shifts; an unknown action returns the state |
| ScheduleSlice.InitialState | frontend/src/store/slices/scheduleSlice.ts:47-59 | today's Monday-to-Sunday week is selected; no shifts, no week info, not loading or publishing, no error |
| ScheduleSliceProperties.SelectWeekIdempotent | frontend/src/store/slices/scheduleSlice.ts:79-82 | selecting the week again by the start it resulted in changes nothing |
| ScheduleSliceProperties.SelectWeekByAnyDay | frontend/src/store/slices/scheduleSlice.ts:79-82 | selecting any day of a week gives the same state |
| ScheduleSliceProperties.WeekRangeOfItsStart | frontend/src/store/slices/scheduleSlice.ts:38-45 | the range of a range's own start is that range |
| ScheduleSliceProperties.SettersReplaceOnlyTheirField | frontend/src/store/slices/scheduleSlice.ts:83-92 | each of SET_SHIFTS, SET_WEEK_INFO, SET_LOADING, SET_ERROR and SET_PUBLISHING sets its field to the payload and leaves every other field as it was |
| ScheduleSliceProperties.SameSetterLastWins | frontend/src/store/slices/scheduleSlice.ts:83-92 | of two setters of the same field, the last one wins |
| ScheduleSliceProperties.SettersOfDifferentFieldsCommute | frontend/src/store/slices/scheduleSlice.ts:83-92 | setters of different fields commute |
| ScheduleSliceProperties.WithoutKeepsOrder | frontend/src/store/slices/scheduleSlice.ts:93-97 | the filter distributes over concatenation, so the kept shifts stay in their order |
| ScheduleSliceProperties.WithoutSingle | frontend/src/store/slices/scheduleSlice.ts:93-97 | a single shift is kept exactly when its id differs |
| ScheduleSliceProperties.WithoutNoMatch | frontend/src/store/slices/scheduleSlice.ts:93-97 | shifts none of which has the id are kept as they are |
| ScheduleSliceProperties.RemoveShiftRemovesExactly | frontend/src/store/slices/scheduleSlice.ts:93-97 | REMOVE_SHIFT removes every shift with the id, keeps every other one, and changes no other field |
| ScheduleSliceProperties.RemoveShiftIdempotent | frontend/src/store/slices/scheduleSlice.ts:93-97 | removing the same id twice is removing it once |
| ScheduleSliceProperties.RemoveAbsentShift | frontend/src/store/slices/scheduleSlice.ts:93-97 | removing an id no listed shift has changes nothing |
| ScheduleSliceProperties.UnknownActionIsNeutral | frontend/src/store/slices/scheduleSlice.ts:98-99 | an unknown action changes nothing for what follows |
| ScheduleSliceProperties.InitialStateSelectsToday | frontend/src/store/slices/scheduleSlice.ts:47-59 | selecting today's date in the initial state changes nothing |

## Left out

- ShiftUsecase.ClashPool: time zones and JavaScript `Date` values are left out, and the model treats every date as a civil day and every instant as integer minutes from day 0. The search window at backend/src/usecases/shiftUsecase.ts:66-70 formats UTC-midnight instants in the server's local zone. On a server west of UTC the window is therefore the two days before the date and the date itself, not the day before to the day after. A shift from 23:00 to 02:00 then misses a clash with a 01:00 shift on the next day. ClashPool, ShiftUsecaseProperties.WindowSuffices and ShiftUsecaseProperties.NoClashAnywhere describe a server running in UTC. date-fns otherwise works in local time, while `calculateShiftInterval` anchors intervals at UTC midnight.
- ShiftTime.ParseNumber models JavaScript `Number()` on the empty string (0) and on decimal digits with an optional sign, after trimming the white space `Number()` trims, so " 9:00" is 540 minutes (WhitespaceBeforeHourIgnored). The time pattern of backend/src/shared/dtos/shift.ts:3 is not anchored, so fields such as "1.5", "1e1", "0x1" or "Infinity" also reach it. `Number()` gives those a value, and a fractional one gives fractional minutes. The model reads them as NaN, so they fail with "Invalid time value". ParseNumber also reads digits exactly, while `Number()` is a double: a field above 2^53 is rounded, so "9007199254740993:00" to "9007199254740992:00" reads as two equal times and is refused as 24 hours long in the source, where the model gives a 1380-minute shift.
- ShiftTime.CalculateShiftInterval gives instants as unbounded integer minutes. In the source `addMinutes` (backend/src/shared/functions/shiftTime.ts:63-64) leaves the JavaScript `Date` range from about 2.4e9 hours on and yields an Invalid Date; the comparisons at backend/src/usecases/shiftUsecase.ts:90-91 are then false, so such a shift never clashes in the source, while the model's instants can still overlap.
- Dates arrive already parsed (`DateInput`). Which strings `parseISO` accepts is not modelled, nor formatting back to `yyyy-MM-dd`.
- Ids are counters, where the database generates uuids.
- `async`/`await`, the lack of a transaction around `publishWeek`, and races between requests are left out. Each use case is one atomic step. The repository-backed code has no transaction, and that is the code modelled here.
- The 500 errors "Unable to load created shift" and "Unable to load updated shift" are left out. A row written in one atomic step is always found again, so both paths are unreachable.
- Repository failures are left out.
- The `Shift` entity's column defaults are left out: new rows are stored unpublished with no publication time.
- The listing compares start times as strings, character by character. A SQL `time` column would order them chronologically. For zero-padded `HH:MM` both orders agree.
- ShiftUsecase.FirstClash and ShiftUsecaseProperties.FirstClashIsFirst take the pool in storage order. The query at backend/src/usecases/shiftUsecase.ts:72-77 has no `order`, so the database may return the rows in any order. That order decides which clashing shift the 409 carries, and whether a stored shift's own 400 interval error comes before a clash. The model fixes one order and does not promise the same result under another.
- ShiftUsecase.SortShifts: the order among rows with equal date and start time is the storage order. The database leaves it unspecified.
- ShiftUsecase.FindRows: an empty `weekStartDate` string is falsy in the code and lists every shift. The model has one absent case, `None`, for both.
- ShiftUsecase.GetOrCreateWeekStep takes a day that is already parsed. The code calls it only after `calculateShiftInterval` has validated the date, so its "Invalid date value" path is unreachable.
- ShiftUsecase.FindClashingShift: that the shift being edited never counts as its own clash is stated only here, as "the result is never the excluded id". No separate lemma states it of `updateById`.
- ShiftUsecaseProperties.NoClashAnywhere only covers stored shifts whose start lies inside their day. The unanchored request pattern admits hours of 24 or more. Such a shift can overlap a candidate from outside the ±1-day window and go unseen (OutOfRangeHourEscapesWindow shows one).
- ScheduleSlice.ScheduleReducer: the reducer's default `state = initialState` argument is left out. Actions are typed by their creators, so an action with a known type and a payload of the wrong type is not modelled. The action creators are the `Action` constructors. A selected-week string `parseISO` rejects makes `format` throw; that is the `InvalidTimeValue` error.
- ScheduleSlice.Action: `Other(kind)` stands only for action types the reducer does not handle. A known `schedule/…` type is always its own constructor, so UnknownActionIsNeutral is about foreign actions.
- ScheduleSlice.ShiftItem: a missing `week` and a `null` one are both `None`.
- The model follows the code as written in three places where a cleaner design is conceivable:
  - `deleteById` refuses an array of ids before any lookup.
  - Publishing runs without a transaction.
  - A shift's `isPublished` in a response is read through its week.
