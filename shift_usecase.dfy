/**
 * The shift use cases (backend/src/usecases/shiftUsecase.ts): the response
 * mapper, the lazy creation of week rows, the clash search, the sorted listing,
 * and create, update and delete with their guards in the order the code checks
 * them.
 *
 * Each use case that writes is a function from the tables before the request to
 * the tables after it and the response (`...Step`). The methods that perform
 * them call by call on a `Store` are in module ShiftUsecaseStore.
 */
module ShiftUsecase {
  import opened Wrappers
  import opened Calendar
  import opened Schema
  import opened ShiftTime
  import opened Repository

  /** The request body of `create` (ICreateShift). */
  datatype CreateShiftPayload = CreateShiftPayload(
    name: string,
    date: DateInput,
    startTime: string,
    endTime: string,
    ignoreClash: bool)

  /** The request body of `updateById` (IUpdateShift): every field may be absent. */
  datatype UpdateShiftPayload = UpdateShiftPayload(
    name: Option<string>,
    date: Option<DateInput>,
    startTime: Option<string>,
    endTime: Option<string>,
    ignoreClash: bool)

  /** The argument of `deleteById`: one id, or an array of them. */
  datatype DeleteTarget = OneId(id: ShiftId) | ManyIds(ids: seq<ShiftId>)

  // ---------------------------------------------------------------------------
  // sanitizeTime and mapShiftResponse

  /** `sanitizeTime`: a time longer than five characters keeps its first five. */
  function SanitizeTime(time: string): (r: string)
    ensures |r| <= 5 && r <= time
    ensures |time| <= 5 ==> r == time
    ensures |time| > 5 ==> |r| == 5
  {
    if |time| > 5 then time[..5] else time
  }

  /** The nested `week` object of a shift response. */
  function WeekSummary(w: Week): (v: WeekView)
    ensures v.id == Some(w.id) && v.startDate == w.startDate && v.endDate == w.endDate
    ensures v.isPublished == w.isPublished && v.publishedAt == w.publishedAt
  {
    WeekView(Some(w.id), w.startDate, w.endDate, w.isPublished, w.publishedAt)
  }

  /**
   * `mapShiftResponse` of a shift whose `week` relation loaded `week`: the times
   * sanitised, the publication state read through the week (false and null when
   * there is none), and the week summary or null.
   */
  function MapShiftResponse(s: Shift, week: Option<Week>): (v: ShiftView)
    ensures v.id == s.id && v.name == s.name && v.date == s.date
    ensures v.startTime == SanitizeTime(s.startTime) && v.endTime == SanitizeTime(s.endTime)
    ensures v.isPublished <==> week.Some? && week.value.isPublished
    ensures week.None? ==> v.publishedAt == None && v.week == None
    ensures week.Some? ==> v.publishedAt == week.value.publishedAt && v.week == Some(WeekSummary(week.value))
  {
    ShiftView(
      s.id, s.name, s.date, SanitizeTime(s.startTime), SanitizeTime(s.endTime),
      if week.Some? then week.value.isPublished else false,
      if week.Some? then week.value.publishedAt else None,
      if week.Some? then Some(WeekSummary(week.value)) else None)
  }

  /** The response for a stored shift, with its `week` relation loaded from the tables. */
  function ShiftResponse(t: Tables, s: Shift): ShiftView {
    MapShiftResponse(s, WeekOfShift(t, s))
  }

  // ---------------------------------------------------------------------------
  // getOrCreateWeek

  /**
   * `getOrCreateWeek` for a date the caller has already validated: the row whose
   * `startDate` is the date's Monday, created (unpublished, ending on Sunday) only
   * when there is none.
   */
  function GetOrCreateWeekStep(t: Tables, date: Day): (r: Step<Week>)
    ensures r.result.startDate == StartOfWeek(date)
    ensures r.tables.shifts == t.shifts && r.tables.nextShiftId == t.nextShiftId
  {
    var bounds := GetWeekBounds(Parsed(date)).value;
    var existing := FindWeekByStart(t, bounds.weekStartDate);
    if existing.Some? then Step(t, existing.value)
    else InsertWeek(t, bounds.weekStartDate, bounds.weekEndDate)
  }

  // ---------------------------------------------------------------------------
  // findClashingShift

  /** Two intervals clash when each starts strictly before the other ends. */
  predicate Overlaps(a: ShiftInterval, b: ShiftInterval) {
    a.startAt < b.endAt && b.startAt < a.endAt
  }

  /** The interval of a stored shift, computed again from its date and times. */
  function StoredInterval(s: Shift): Result<ShiftInterval, Failure> {
    CalculateShiftInterval(Parsed(s.date), s.startTime, s.endTime)
  }

  /** A stored shift clashes with `interval`: its own interval is valid and overlaps it. */
  predicate ClashesWith(interval: ShiftInterval, s: Shift) {
    StoredInterval(s).Ok? && Overlaps(interval, StoredInterval(s).value)
  }

  /** A stored shift is cleared against `interval`: its own interval is valid and does not overlap it. */
  predicate ClearOf(interval: ShiftInterval, s: Shift) {
    StoredInterval(s).Ok? && !Overlaps(interval, StoredInterval(s).value)
  }

  /**
   * The pool the search runs over: the shifts dated from the day before to the day
   * after, in storage order, without the excluded id.
   */
  function ClashPool(shifts: seq<Shift>, day: Day, exclude: Option<ShiftId>): (pool: seq<Shift>)
    ensures forall s | s in pool :: s in shifts && day - 1 <= s.date <= day + 1 && exclude != Some(s.id)
    ensures forall s | s in shifts && day - 1 <= s.date <= day + 1 && exclude != Some(s.id) :: s in pool
  {
    if shifts == [] then []
    else
      var rest := ClashPool(shifts[1..], day, exclude);
      if day - 1 <= shifts[0].date <= day + 1 && exclude != Some(shifts[0].id) then [shifts[0]] + rest
      else rest
  }

  /**
   * `.find` over the pool: the first shift whose interval overlaps `interval`.
   * Each stored shift's interval is computed as the search reaches it, so an
   * invalid stored shift met before any clash makes the search throw.
   */
  function FirstClash(pool: seq<Shift>, interval: ShiftInterval): (r: Result<Option<Shift>, Failure>)
    ensures r.Ok? && r.value.Some? ==> r.value.value in pool && ClashesWith(interval, r.value.value)
    ensures r.Ok? && r.value.None? ==> forall s | s in pool :: ClearOf(interval, s)
    ensures r.Err? ==> exists s | s in pool :: StoredInterval(s) == Err(r.error)
    ensures r.Err? ==> IntervalError(r.error)
  {
    if pool == [] then Ok(None)
    else
      var other := StoredInterval(pool[0]);
      if other.Err? then Err(other.error)
      else if Overlaps(interval, other.value) then Ok(Some(pool[0]))
      else FirstClash(pool[1..], interval)
  }

  /**
   * `findClashingShift`: the first shift (other than `exclude`) within a day of
   * the candidate's date whose interval strictly overlaps the candidate's.
   */
  function FindClashingShift(
    shifts: seq<Shift>, date: DateInput, startTime: string, endTime: string, exclude: Option<ShiftId>)
    : (r: Result<Option<Shift>, Failure>)
    ensures r.Ok? ==> CalculateShiftInterval(date, startTime, endTime).Ok?
    ensures r.Ok? && r.value.Some? ==>
      var s := r.value.value;
      && s in shifts && exclude != Some(s.id) && date.day - 1 <= s.date <= date.day + 1
      && ClashesWith(CalculateShiftInterval(date, startTime, endTime).value, s)
    ensures r.Ok? && r.value.None? ==>
      forall s | s in shifts && date.day - 1 <= s.date <= date.day + 1 && exclude != Some(s.id) ::
        ClearOf(CalculateShiftInterval(date, startTime, endTime).value, s)
    ensures r.Err? ==> IntervalError(r.error)
  {
    var interval :- CalculateShiftInterval(date, startTime, endTime);
    FirstClash(ClashPool(shifts, date.day, exclude), interval)
  }

  // ---------------------------------------------------------------------------
  // find and findById

  /** String order, character by character: the order `startTime: "ASC"` sorts by. */
  predicate TimeLe(a: string, b: string) {
    a == [] || (b != [] && (a[0] < b[0] || (a[0] == b[0] && TimeLe(a[1..], b[1..]))))
  }

  /** `order: { date: "ASC", startTime: "ASC" }`. */
  predicate ShiftLe(a: Shift, b: Shift) {
    a.date < b.date || (a.date == b.date && TimeLe(a.startTime, b.startTime))
  }

  predicate SortedShifts(s: seq<Shift>) {
    forall i | 0 < i < |s| :: ShiftLe(s[i - 1], s[i])
  }

  /** Puts `x` before the first element it is not after. */
  function InsertShiftSorted(x: Shift, sorted: seq<Shift>): (r: seq<Shift>)
    ensures multiset(r) == multiset(sorted) + multiset{x}
  {
    if sorted == [] || ShiftLe(x, sorted[0]) then [x] + sorted
    else
      assert sorted == [sorted[0]] + sorted[1..];
      [sorted[0]] + InsertShiftSorted(x, sorted[1..])
  }

  /** The rows in (date, startTime) order; rows that tie keep their storage order. */
  function SortShifts(shifts: seq<Shift>): (r: seq<Shift>)
    ensures multiset(r) == multiset(shifts)
  {
    if shifts == [] then []
    else
      assert shifts == [shifts[0]] + shifts[1..];
      InsertShiftSorted(shifts[0], SortShifts(shifts[1..]))
  }

  /** The rows `find` reads: the shifts of the given date's week, or all of them, sorted. */
  function FindRows(t: Tables, weekStartDate: Option<DateInput>): (r: Result<seq<Shift>, Failure>)
    ensures weekStartDate.None? ==> r.Ok? && multiset(r.value) == multiset(t.shifts)
    ensures weekStartDate.Some? ==> (r.Err? <==> weekStartDate.value.Unparseable?)
    ensures r.Err? ==> r.error == InvalidDateValue
  {
    if weekStartDate.None? then Ok(SortShifts(t.shifts))
    else
      var bounds :- GetWeekBounds(weekStartDate.value);
      Ok(SortShifts(ShiftsDatedIn(t.shifts, bounds.weekStartDate, bounds.weekEndDate)))
  }

  /**
   * `find`: the rows of `FindRows`, each mapped to its response. An absent (or
   * empty) `weekStartDate` lists every shift.
   */
  function Find(t: Tables, weekStartDate: Option<DateInput>): (r: Result<seq<ShiftView>, Failure>)
    ensures r.Ok? <==> FindRows(t, weekStartDate).Ok?
    ensures r.Ok? ==>
      && |r.value| == |FindRows(t, weekStartDate).value|
      && forall i | 0 <= i < |r.value| :: r.value[i] == ShiftResponse(t, FindRows(t, weekStartDate).value[i])
  {
    var rows :- FindRows(t, weekStartDate);
    Ok(seq(|rows|, i requires 0 <= i < |rows| => ShiftResponse(t, rows[i])))
  }

  /** `findById`: the response for the shift with that id, or not found. */
  function FindById(t: Tables, id: ShiftId): (r: Result<ShiftView, Failure>)
    ensures r.Err? <==> forall s | s in t.shifts :: s.id != id
    ensures r.Err? ==> r.error == ShiftNotFound
    ensures r.Ok? ==> exists s | s in t.shifts :: s.id == id && r.value == ShiftResponse(t, s)
  {
    var shift := FindShiftById(t, id);
    if shift.None? then Err(ShiftNotFound) else Ok(ShiftResponse(t, shift.value))
  }

  // ---------------------------------------------------------------------------
  // create

  /** The row `create` builds (its id is the repository's to give). */
  function NewShift(p: CreateShiftPayload, day: Day, week: Week): Shift {
    Shift(0, p.name, day, SanitizeTime(p.startTime), SanitizeTime(p.endTime), Some(week.id), false, None)
  }

  /**
   * `create`: the interval is validated, then the week row is found or created,
   * then a published week is refused, then a clash is refused unless `ignoreClash`;
   * otherwise the shift is stored with sanitised times in its week.
   */
  function CreateStep(t: Tables, p: CreateShiftPayload): (r: Step<Result<ShiftView, Failure>>)
  {
    var interval := CalculateShiftInterval(p.date, p.startTime, p.endTime);
    if interval.Err? then Step(t, Err(interval.error))
    else
      var got := GetOrCreateWeekStep(t, p.date.day);
      if got.result.isPublished then Step(got.tables, Err(CreateInPublishedWeek))
      else
        var clash := FindClashingShift(got.tables.shifts, p.date, p.startTime, p.endTime, None);
        if clash.Err? then Step(got.tables, Err(clash.error))
        else if clash.value.Some? && !p.ignoreClash then
          Step(got.tables, Err(ShiftClash(ShiftResponse(got.tables, clash.value.value))))
        else
          var created := InsertShift(got.tables, NewShift(p, p.date.day, got.result));
          Step(created.tables, Ok(ShiftResponse(created.tables, created.result)))
  }

  // ---------------------------------------------------------------------------
  // updateById

  /** The fields `updateById` works with: each from the payload, or else the stored one. */
  datatype MergedFields = MergedFields(name: string, date: DateInput, startTime: string, endTime: string)

  function Merge(p: UpdateShiftPayload, s: Shift): (m: MergedFields)
    ensures m.name == (if p.name.Some? then p.name.value else s.name)
    ensures m.date == (if p.date.Some? then p.date.value else Parsed(s.date))
    ensures m.startTime == (if p.startTime.Some? then p.startTime.value else s.startTime)
    ensures m.endTime == (if p.endTime.Some? then p.endTime.value else s.endTime)
  {
    MergedFields(p.name.GetOr(s.name), p.date.GetOr(Parsed(s.date)), p.startTime.GetOr(s.startTime),
                 p.endTime.GetOr(s.endTime))
  }

  /**
   * `updateById`: not found, then a published current week, then the merged
   * interval, then the target week (found or created) when it is published and is
   * not the shift's own, then a clash with any other shift unless `ignoreClash`;
   * otherwise the row gets the merged, sanitised fields and the target week's id.
   */
  function UpdateStep(t: Tables, id: ShiftId, p: UpdateShiftPayload): (r: Step<Result<ShiftView, Failure>>)
  {
    var existing := FindShiftById(t, id);
    if existing.None? then Step(t, Err(ShiftNotFound))
    else
      var s := existing.value;
      var week := WeekOfShift(t, s);
      if week.Some? && week.value.isPublished then Step(t, Err(EditPublishedShift))
      else
        var m := Merge(p, s);
        var interval := CalculateShiftInterval(m.date, m.startTime, m.endTime);
        if interval.Err? then Step(t, Err(interval.error))
        else
          var got := GetOrCreateWeekStep(t, m.date.day);
          if got.result.isPublished && s.weekId != Some(got.result.id) then
            Step(got.tables, Err(MoveIntoPublishedWeek))
          else
            var clash := FindClashingShift(got.tables.shifts, m.date, m.startTime, m.endTime, Some(id));
            if clash.Err? then Step(got.tables, Err(clash.error))
            else if clash.value.Some? && !p.ignoreClash then
              Step(got.tables, Err(ShiftClash(ShiftResponse(got.tables, clash.value.value))))
            else
              var updated := s.(name := m.name, date := m.date.day, startTime := SanitizeTime(m.startTime),
                                endTime := SanitizeTime(m.endTime), weekId := Some(got.result.id));
              var t2 := ReplaceShift(got.tables, id, updated);
              Step(t2, Ok(ShiftResponse(t2, updated)))
  }

  // ---------------------------------------------------------------------------
  // deleteById

  /**
   * `deleteById`: an array of ids is refused before anything is read, then an
   * unknown id, then a shift of a published week; otherwise that row is removed.
   */
  function DeleteStep(t: Tables, target: DeleteTarget): (r: Step<Result<(), Failure>>)
  {
    if target.ManyIds? then Step(t, Err(BulkDeleteUnsupported))
    else
      var existing := FindShiftById(t, target.id);
      if existing.None? then Step(t, Err(ShiftNotFound))
      else
        var week := WeekOfShift(t, existing.value);
        if week.Some? && week.value.isPublished then Step(t, Err(DeletePublishedShift))
        else Step(RemoveShift(t, target.id), Ok(()))
  }
}
