/**
 * The shift use cases as the code runs them: each writing use case makes its
 * repository calls one by one on a `Store`, performs its `...Step` function
 * (module ShiftUsecase), and keeps the store invariant `Store.Valid()`.
 */
module ShiftUsecaseStore {
  import opened Wrappers
  import opened Calendar
  import opened Schema
  import opened ShiftTime
  import opened Repository
  import opened ShiftUsecase
  import opened ShiftUsecaseProperties

  method GetOrCreateWeek(store: Store, date: Day) returns (week: Week)
    requires store.Valid()
    modifies store
    ensures Step(store.State(), week) == GetOrCreateWeekStep(old(store.State()), date)
    ensures store.Valid()
  {
    GetOrCreateWeekFacts(store.State(), date);
    var bounds := GetWeekBounds(Parsed(date)).value;
    var existing := FindWeekByStart(store.State(), bounds.weekStartDate);
    if existing.Some? {
      week := existing.value;
    } else {
      week := store.CreateWeek(bounds.weekStartDate, bounds.weekEndDate);
    }
  }

  method Create(store: Store, p: CreateShiftPayload) returns (r: Result<ShiftView, Failure>)
    requires store.Valid()
    modifies store
    ensures Step(store.State(), r) == CreateStep(old(store.State()), p)
    ensures store.Valid()
  {
    CreateKeepsConsistent(store.State(), p);
    var interval := CalculateShiftInterval(p.date, p.startTime, p.endTime);
    if interval.Err? {
      return Err(interval.error);
    }
    var week := GetOrCreateWeek(store, p.date.day);
    if week.isPublished {
      return Err(CreateInPublishedWeek);
    }
    var clash := FindClashingShift(store.shifts, p.date, p.startTime, p.endTime, None);
    if clash.Err? {
      return Err(clash.error);
    }
    if clash.value.Some? && !p.ignoreClash {
      return Err(ShiftClash(ShiftResponse(store.State(), clash.value.value)));
    }
    var created := store.CreateShift(NewShift(p, p.date.day, week));
    r := Ok(ShiftResponse(store.State(), created));
  }

  method UpdateById(store: Store, id: ShiftId, p: UpdateShiftPayload) returns (r: Result<ShiftView, Failure>)
    requires store.Valid()
    modifies store
    ensures Step(store.State(), r) == UpdateStep(old(store.State()), id, p)
    ensures store.Valid()
  {
    UpdateKeepsConsistent(store.State(), id, p);
    var existing := FindShiftById(store.State(), id);
    if existing.None? {
      return Err(ShiftNotFound);
    }
    var s := existing.value;
    var week := WeekOfShift(store.State(), s);
    if week.Some? && week.value.isPublished {
      return Err(EditPublishedShift);
    }
    var m := Merge(p, s);
    var interval := CalculateShiftInterval(m.date, m.startTime, m.endTime);
    if interval.Err? {
      return Err(interval.error);
    }
    var target := GetOrCreateWeek(store, m.date.day);
    if target.isPublished && s.weekId != Some(target.id) {
      return Err(MoveIntoPublishedWeek);
    }
    var clash := FindClashingShift(store.shifts, m.date, m.startTime, m.endTime, Some(id));
    if clash.Err? {
      return Err(clash.error);
    }
    if clash.value.Some? && !p.ignoreClash {
      return Err(ShiftClash(ShiftResponse(store.State(), clash.value.value)));
    }
    var updated := s.(name := m.name, date := m.date.day, startTime := SanitizeTime(m.startTime),
                      endTime := SanitizeTime(m.endTime), weekId := Some(target.id));
    store.UpdateShiftById(id, updated);
    r := Ok(ShiftResponse(store.State(), updated));
  }

  method DeleteById(store: Store, target: DeleteTarget) returns (r: Result<(), Failure>)
    requires store.Valid()
    modifies store
    ensures Step(store.State(), r) == DeleteStep(old(store.State()), target)
    ensures store.Valid()
  {
    DeleteKeepsConsistent(store.State(), target);
    if target.ManyIds? {
      return Err(BulkDeleteUnsupported);
    }
    var existing := FindShiftById(store.State(), target.id);
    if existing.None? {
      return Err(ShiftNotFound);
    }
    var week := WeekOfShift(store.State(), existing.value);
    if week.Some? && week.value.isPublished {
      return Err(DeletePublishedShift);
    }
    store.DeleteShiftById(target.id);
    r := Ok(());
  }
}
