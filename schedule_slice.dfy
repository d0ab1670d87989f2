/**
 * The frontend's schedule reducer (frontend/src/store/slices/scheduleSlice.ts):
 * the selected Monday-to-Sunday week, the shifts listed for it, the week's
 * publication info and three UI flags. The reducer is a pure function from the
 * state and an action to the next state.
 */
module ScheduleSlice {
  import opened Wrappers
  import opened Calendar

  /** A listed shift as the API returns it (ShiftItem); a missing and a null `week` are both None. */
  datatype ShiftItem = ShiftItem(
    id: string,
    name: string,
    date: string,
    startTime: string,
    endTime: string,
    isPublished: bool,
    publishedAt: Option<string>,
    week: Option<WeekInfo>)

  /** A week as the API returns it (WeekInfo); `id` is None for a week without a row. */
  datatype WeekInfo = WeekInfo(
    id: Option<string>,
    startDate: string,
    endDate: string,
    isPublished: bool,
    publishedAt: Option<string>)

  /** ScheduleState; the selected week is kept as its Monday and its Sunday. */
  datatype ScheduleState = ScheduleState(
    selectedWeekStart: Day,
    selectedWeekEnd: Day,
    shifts: seq<ShiftItem>,
    weekInfo: Option<WeekInfo>,
    loading: bool,
    publishing: bool,
    error: Option<string>)

  /**
   * The actions, one constructor per action type with the payload its creator
   * takes (each constructor is the creator of that name: `SetShifts(shifts)` is
   * `setShifts(shifts)`); `Other` is an action of a type the reducer does not
   * handle (another slice's, or Redux's own), so its `kind` is none of the seven
   * `schedule/…` types above. An action with one of those types reaches the
   * reducer only as the constructor for it.
   */
  datatype Action =
    | SetSelectedWeek(weekStart: DateInput)
    | SetShifts(shifts: seq<ShiftItem>)
    | SetWeekInfo(week: Option<WeekInfo>)
    | SetLoading(loading: bool)
    | SetError(message: Option<string>)
    | SetPublishing(publishing: bool)
    | RemoveShift(id: string)
    | Other(kind: string)

  /** `format` throws a RangeError ("Invalid time value") on the invalid date `parseISO` gives for a bad string. */
  datatype ReducerError = InvalidTimeValue

  /** `computeWeekRange`: the Monday on or before the date, and the Sunday six days after it. */
  function ComputeWeekRange(date: DateInput): (r: Result<(Day, Day), ReducerError>)
    ensures r.Err? <==> date.Unparseable?
    ensures r.Ok? ==> IsMonday(r.value.0) && r.value.0 <= date.day <= r.value.0 + 6
    ensures r.Ok? ==> r.value.1 == r.value.0 + 6
  {
    if date.Unparseable? then Err(InvalidTimeValue)
    else
      var start := StartOfWeek(date.day);
      Ok((start, start + 6))
  }

  /** The shifts whose id is not `id`, in their order: `filter((shift) => shift.id !== id)`. */
  function Without(shifts: seq<ShiftItem>, id: string): (r: seq<ShiftItem>)
    ensures |r| <= |shifts|
    ensures forall x | x in r :: x in shifts && x.id != id
    ensures forall x | x in shifts && x.id != id :: x in r
  {
    if shifts == [] then []
    else if shifts[0].id != id then [shifts[0]] + Without(shifts[1..], id)
    else Without(shifts[1..], id)
  }

  /**
   * `scheduleReducer`: each action replaces its own part of the state; an
   * unknown action type leaves the state as it is.
   */
  function ScheduleReducer(state: ScheduleState, action: Action): (r: Result<ScheduleState, ReducerError>)
    ensures r.Err? <==> action.SetSelectedWeek? && action.weekStart.Unparseable?
    ensures action.SetSelectedWeek? && r.Ok? ==>
      && r.value.(selectedWeekStart := state.selectedWeekStart, selectedWeekEnd := state.selectedWeekEnd) == state
      && IsMonday(r.value.selectedWeekStart)
      && r.value.selectedWeekStart <= action.weekStart.day <= r.value.selectedWeekEnd
      && r.value.selectedWeekEnd == r.value.selectedWeekStart + 6
    ensures action.RemoveShift? ==> r.Ok? && r.value == state.(shifts := Without(state.shifts, action.id))
    ensures action.Other? ==> r == Ok(state)
  {
    match action
    case SetSelectedWeek(weekStart) =>
      var range :- ComputeWeekRange(weekStart);
      Ok(state.(selectedWeekStart := range.0, selectedWeekEnd := range.1))
    case SetShifts(shifts) => Ok(state.(shifts := shifts))
    case SetWeekInfo(week) => Ok(state.(weekInfo := week))
    case SetLoading(loading) => Ok(state.(loading := loading))
    case SetError(message) => Ok(state.(error := message))
    case SetPublishing(publishing) => Ok(state.(publishing := publishing))
    case RemoveShift(id) => Ok(state.(shifts := Without(state.shifts, id)))
    case Other(_) => Ok(state)
  }

  /**
   * `initialState`, with `today` standing for `new Date()`: the week of today
   * selected, nothing listed, nothing loading or publishing, no error.
   */
  function InitialState(today: Day): (s: ScheduleState)
    ensures IsMonday(s.selectedWeekStart) && s.selectedWeekStart <= today <= s.selectedWeekEnd
    ensures s.selectedWeekEnd == s.selectedWeekStart + 6
    ensures s.shifts == [] && s.weekInfo.None? && !s.loading && !s.publishing && s.error.None?
  {
    var initialWeek := ComputeWeekRange(Parsed(StartOfWeek(today))).value;
    ScheduleState(initialWeek.0, initialWeek.1, [], None, false, false, None)
  }
}
