/**
 * The week use cases (backend/src/usecases/weekUsecase.ts): reading a week by
 * any of its dates, and publishing it, which marks the week row and every shift
 * row that points at it.
 */
module WeekUsecase {
  import opened Wrappers
  import opened Calendar
  import opened Schema
  import opened ShiftTime
  import opened Repository
  import opened ShiftUsecase

  /** `mapWeekResponse`: the week's fields, with a missing id as null. */
  function MapWeekResponse(
    id: Option<WeekId>, startDate: Day, endDate: Day, isPublished: bool, publishedAt: Option<Timestamp>)
    : (v: WeekView)
    ensures v.id == id && v.startDate == startDate && v.endDate == endDate
    ensures v.isPublished == isPublished && v.publishedAt == publishedAt
  {
    WeekView(id, startDate, endDate, isPublished, publishedAt)
  }

  /** The response for a stored week row. */
  function WeekResponse(w: Week): WeekView {
    MapWeekResponse(Some(w.id), w.startDate, w.endDate, w.isPublished, w.publishedAt)
  }

  /**
   * `getWeekByStartDate`: the week of any date, read through its Monday; a week
   * without a row is shown unpublished, with no id, and nothing is created.
   */
  function GetWeekByStartDate(t: Tables, date: DateInput): (r: Result<WeekView, Failure>)
    ensures r.Err? <==> date.Unparseable?
    ensures r.Err? ==> r.error == InvalidDateValue
    ensures r.Ok? ==> r.value.startDate == StartOfWeek(date.day)
    ensures r.Ok? ==> (r.value.id.None? <==> FindWeekByStart(t, StartOfWeek(date.day)).None?)
    ensures r.Ok? && r.value.id.None? ==>
      r.value.endDate == StartOfWeek(date.day) + 6 && !r.value.isPublished && r.value.publishedAt.None?
    ensures r.Ok? && r.value.id.Some? ==> r.value == WeekResponse(FindWeekByStart(t, StartOfWeek(date.day)).value)
  {
    var bounds :- GetWeekBounds(date);
    var week := FindWeekByStart(t, bounds.weekStartDate);
    if week.None? then Ok(MapWeekResponse(None, bounds.weekStartDate, bounds.weekEndDate, false, None))
    else Ok(WeekResponse(week.value))
  }

  /**
   * `publishWeek` at time `now`: the date is resolved to its week, whose row is
   * found or created (as `getOrCreateWeek` does); a published week is refused,
   * then a week with no shift dated in it; otherwise the row and every shift row
   * with its id get `isPublished` and the one publication time.
   */
  function PublishStep(t: Tables, date: DateInput, now: Timestamp): (r: Step<Result<WeekView, Failure>>)
  {
    var bounds := GetWeekBounds(date);
    if bounds.Err? then Step(t, Err(bounds.error))
    else
      var got := GetOrCreateWeekStep(t, date.day);
      var week := got.result;
      if week.isPublished then Step(got.tables, Err(WeekAlreadyPublished))
      else if |ShiftsDatedIn(got.tables.shifts, bounds.value.weekStartDate, bounds.value.weekEndDate)| == 0 then
        Step(got.tables, Err(EmptyWeek))
      else
        var marked := MarkWeekPublished(got.tables, week.id, now);
        var cascaded := PublishShiftsOfWeek(marked, week.id, now);
        var updated := FindWeekById(cascaded, week.id);
        var shown := if updated.Some? then updated.value else week.(isPublished := true, publishedAt := Some(now));
        Step(cascaded, Ok(WeekResponse(shown)))
  }
}
