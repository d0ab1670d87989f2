/**
 * `publishWeek` as the code runs it: its repository calls one by one on a
 * `Store`, performing PublishStep (module WeekUsecase) and keeping the store
 * invariant `Store.Valid()`.
 */
module WeekUsecaseStore {
  import opened Wrappers
  import opened Calendar
  import opened Schema
  import opened ShiftTime
  import opened Repository
  import opened ShiftUsecase
  import opened WeekUsecase
  import opened ShiftUsecaseStore
  import opened WeekUsecaseProperties

  method PublishWeek(store: Store, date: DateInput, now: Timestamp) returns (r: Result<WeekView, Failure>)
    requires store.Valid()
    modifies store
    ensures Step(store.State(), r) == PublishStep(old(store.State()), date, now)
    ensures store.Valid()
  {
    PublishKeepsConsistent(store.State(), date, now);
    var bounds := GetWeekBounds(date);
    if bounds.Err? {
      return Err(bounds.error);
    }
    var week := GetOrCreateWeek(store, date.day);
    if week.isPublished {
      return Err(WeekAlreadyPublished);
    }
    var shifts := ShiftsDatedIn(store.shifts, bounds.value.weekStartDate, bounds.value.weekEndDate);
    if |shifts| == 0 {
      return Err(EmptyWeek);
    }
    store.UpdateWeekPublished(week.id, now);
    store.PublishShiftsWhereWeek(week.id, now);
    var updated := FindWeekById(store.State(), week.id);
    var shown := if updated.Some? then updated.value else week.(isPublished := true, publishedAt := Some(now));
    r := Ok(WeekResponse(shown));
  }
}
