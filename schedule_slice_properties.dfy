/**
 * What the schedule reducer promises: the selected week is always a normalised
 * Monday-to-Sunday pair, each setter replaces its own field and nothing else,
 * removing a shift is an order-keeping filter that is idempotent, and an
 * unknown action changes nothing.
 */
module ScheduleSliceProperties {
  import opened Wrappers
  import opened Calendar
  import opened ScheduleSlice

  // ---------------------------------------------------------------------------
  // SET_SELECTED_WEEK

  /** Selecting the week by the start it resulted in changes nothing. */
  lemma SelectWeekIdempotent(state: ScheduleState, day: Day)
    ensures ScheduleReducer(state, SetSelectedWeek(Parsed(day))).Ok?
    ensures var s := ScheduleReducer(state, SetSelectedWeek(Parsed(day))).value;
      ScheduleReducer(s, SetSelectedWeek(Parsed(s.selectedWeekStart))) == Ok(s)
  {
    var monday := StartOfWeek(day);
    StartOfWeekIdempotent(day);
    assert ComputeWeekRange(Parsed(day)) == Ok((monday, monday + 6));
    assert ComputeWeekRange(Parsed(monday)) == Ok((monday, monday + 6));
  }

  /** Selecting any day of a week gives the same state as selecting its Monday. */
  lemma SelectWeekByAnyDay(state: ScheduleState, day: Day, other: Day)
    requires StartOfWeek(day) <= other <= StartOfWeek(day) + 6
    ensures ScheduleReducer(state, SetSelectedWeek(Parsed(other)))
         == ScheduleReducer(state, SetSelectedWeek(Parsed(day)))
  {
    SameWeek(day, other);
  }

  /** The week range is a fixed point: the range of its own start is itself. */
  lemma WeekRangeOfItsStart(date: DateInput)
    requires date.Parsed?
    ensures ComputeWeekRange(Parsed(ComputeWeekRange(date).value.0)) == ComputeWeekRange(date)
  {
    StartOfWeekIdempotent(date.day);
  }

  // ---------------------------------------------------------------------------
  // The field setters

  /** SET_SHIFTS, SET_WEEK_INFO, SET_LOADING, SET_ERROR and SET_PUBLISHING each replace exactly their field. */
  lemma SettersReplaceOnlyTheirField(state: ScheduleState, action: Action)
    ensures action.SetShifts? ==>
      (&& ScheduleReducer(state, action).Ok?
       && ScheduleReducer(state, action).value.shifts == action.shifts
       && ScheduleReducer(state, action).value.(shifts := state.shifts) == state)
    ensures action.SetWeekInfo? ==>
      (&& ScheduleReducer(state, action).Ok?
       && ScheduleReducer(state, action).value.weekInfo == action.week
       && ScheduleReducer(state, action).value.(weekInfo := state.weekInfo) == state)
    ensures action.SetLoading? ==>
      (&& ScheduleReducer(state, action).Ok?
       && ScheduleReducer(state, action).value.loading == action.loading
       && ScheduleReducer(state, action).value.(loading := state.loading) == state)
    ensures action.SetError? ==>
      (&& ScheduleReducer(state, action).Ok?
       && ScheduleReducer(state, action).value.error == action.message
       && ScheduleReducer(state, action).value.(error := state.error) == state)
    ensures action.SetPublishing? ==>
      (&& ScheduleReducer(state, action).Ok?
       && ScheduleReducer(state, action).value.publishing == action.publishing
       && ScheduleReducer(state, action).value.(publishing := state.publishing) == state)
  {
  }

  /** An action that never fails and writes a single field, with the payload as its value. */
  predicate IsSetter(a: Action) {
    a.SetShifts? || a.SetWeekInfo? || a.SetLoading? || a.SetError? || a.SetPublishing?
  }

  /** The last of two setters of the same field wins. */
  lemma SameSetterLastWins(state: ScheduleState, a: Action, b: Action)
    requires IsSetter(a) && IsSetter(b)
    requires (a.SetShifts? && b.SetShifts?) || (a.SetWeekInfo? && b.SetWeekInfo?) || (a.SetLoading? && b.SetLoading?)
          || (a.SetError? && b.SetError?) || (a.SetPublishing? && b.SetPublishing?)
    ensures ScheduleReducer(state, a).Ok?
    ensures ScheduleReducer(ScheduleReducer(state, a).value, b) == ScheduleReducer(state, b)
  {
  }

  /** Setters of different fields commute. */
  lemma SettersOfDifferentFieldsCommute(state: ScheduleState, a: Action, b: Action)
    requires IsSetter(a) && IsSetter(b)
    requires a.SetShifts? ==> !b.SetShifts?
    requires a.SetWeekInfo? ==> !b.SetWeekInfo?
    requires a.SetLoading? ==> !b.SetLoading?
    requires a.SetError? ==> !b.SetError?
    requires a.SetPublishing? ==> !b.SetPublishing?
    ensures ScheduleReducer(state, a).Ok? && ScheduleReducer(state, b).Ok?
    ensures ScheduleReducer(ScheduleReducer(state, a).value, b) == ScheduleReducer(ScheduleReducer(state, b).value, a)
  {
  }

  // ---------------------------------------------------------------------------
  // REMOVE_SHIFT

  /** Filtering distributes over concatenation, so the kept shifts stay in their order. */
  lemma {:induction false} WithoutKeepsOrder(a: seq<ShiftItem>, b: seq<ShiftItem>, id: string)
    ensures Without(a + b, id) == Without(a, id) + Without(b, id)
  {
    if a == [] {
      assert a + b == b;
    } else {
      assert (a + b)[0] == a[0];
      assert (a + b)[1..] == a[1..] + b;
      WithoutKeepsOrder(a[1..], b, id);
    }
  }

  /** A single shift is kept exactly when its id differs. */
  lemma WithoutSingle(x: ShiftItem, id: string)
    ensures Without([x], id) == if x.id == id then [] else [x]
  {
    assert [x][1..] == [];
  }

  /** Shifts none of which has the id are kept as they are. */
  lemma {:induction false} WithoutNoMatch(shifts: seq<ShiftItem>, id: string)
    requires forall x | x in shifts :: x.id != id
    ensures Without(shifts, id) == shifts
  {
    if shifts != [] {
      assert shifts[0] in shifts;
      WithoutNoMatch(shifts[1..], id);
      assert [shifts[0]] + shifts[1..] == shifts;
    }
  }

  /** Removing a shift removes every shift with that id and keeps every other one. */
  lemma RemoveShiftRemovesExactly(state: ScheduleState, id: string)
    ensures var r := ScheduleReducer(state, RemoveShift(id));
      && r.Ok?
      && (forall x | x in r.value.shifts :: x.id != id)
      && (forall x | x in state.shifts :: x in r.value.shifts <==> x.id != id)
      && r.value.(shifts := state.shifts) == state
  {
  }

  /** Removing the same shift twice is the same as removing it once. */
  lemma RemoveShiftIdempotent(state: ScheduleState, id: string)
    ensures ScheduleReducer(state, RemoveShift(id)).Ok?
    ensures var s := ScheduleReducer(state, RemoveShift(id)).value;
      ScheduleReducer(s, RemoveShift(id)) == Ok(s)
  {
    WithoutNoMatch(Without(state.shifts, id), id);
  }

  /** Removing an id no listed shift has changes nothing. */
  lemma RemoveAbsentShift(state: ScheduleState, id: string)
    requires forall x | x in state.shifts :: x.id != id
    ensures ScheduleReducer(state, RemoveShift(id)) == Ok(state)
  {
    WithoutNoMatch(state.shifts, id);
  }

  // ---------------------------------------------------------------------------
  // Unknown actions and the initial state

  /** An unknown action in between changes nothing that follows. */
  lemma UnknownActionIsNeutral(state: ScheduleState, kind: string, next: Action)
    ensures ScheduleReducer(ScheduleReducer(state, Other(kind)).value, next) == ScheduleReducer(state, next)
  {
  }

  /** The initial state has today's week selected: selecting today again changes nothing. */
  lemma InitialStateSelectsToday(today: Day)
    ensures ScheduleReducer(InitialState(today), SetSelectedWeek(Parsed(today))) == Ok(InitialState(today))
  {
    var monday := StartOfWeek(today);
    StartOfWeekIdempotent(today);
    assert ComputeWeekRange(Parsed(monday)) == Ok((monday, monday + 6));
    assert ComputeWeekRange(Parsed(today)) == Ok((monday, monday + 6));
  }
}
