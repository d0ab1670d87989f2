/**
 * The in-memory stand-in for the two repositories the use cases call: the Week
 * table (rows by id, and the unique index on `startDate`) and the Shift table
 * (rows in storage order, the order an unordered query returns them in).
 *
 * `Tables` is the value of the store; `Store` is the object the use cases update
 * in place. Every repository call the use cases make is a pure operation on
 * `Tables` here and a method of `Store` proved to perform it.
 */
module Repository {
  import opened Wrappers
  import opened Calendar
  import opened Schema

  datatype Tables = Tables(
    weeks: map<WeekId, Week>,
    weekByStart: map<Day, WeekId>,
    shifts: seq<Shift>,
    nextWeekId: WeekId,
    nextShiftId: ShiftId)

  /** The store before any request. */
  const EmptyTables := Tables(map[], map[], [], 0, 0)

  // ---------------------------------------------------------------------------
  // The store invariant: what the schema and the use cases keep true

  /** A stored week row: a Monday-to-Sunday week, published exactly when it has a publication time. */
  predicate WellFormedWeek(w: Week) {
    && IsMonday(w.startDate)
    && w.endDate == w.startDate + 6
    && (w.isPublished <==> w.publishedAt.Some?)
  }

  /**
   * The Week table: rows are keyed by their own id, ids were handed out below the
   * counter, and the index on `startDate` (unique in the schema) maps each start
   * date to the one row that has it.
   */
  predicate WeeksConsistent(t: Tables) {
    && (forall id | id in t.weeks ::
          && t.weeks[id].id == id
          && id < t.nextWeekId
          && WellFormedWeek(t.weeks[id])
          && t.weeks[id].startDate in t.weekByStart
          && t.weekByStart[t.weeks[id].startDate] == id)
    && (forall d | d in t.weekByStart ::
          t.weekByStart[d] in t.weeks && t.weeks[t.weekByStart[d]].startDate == d)
  }

  /**
   * A stored shift belongs to the week row of its date, and carries that week's
   * publication state (the create and update guards and the publish cascade keep it so).
   */
  predicate ShiftInItsWeek(t: Tables, s: Shift)
    requires WeeksConsistent(t)
  {
    && StartOfWeek(s.date) in t.weekByStart
    && s.weekId == Some(t.weekByStart[StartOfWeek(s.date)])
    && s.isPublished == t.weeks[t.weekByStart[StartOfWeek(s.date)]].isPublished
    && s.publishedAt == t.weeks[t.weekByStart[StartOfWeek(s.date)]].publishedAt
  }

  /** Shift ids are distinct. */
  predicate DistinctShiftIds(shifts: seq<Shift>) {
    forall i, j | 0 <= i < j < |shifts| :: shifts[i].id != shifts[j].id
  }

  predicate ShiftsConsistent(t: Tables)
    requires WeeksConsistent(t)
  {
    && DistinctShiftIds(t.shifts)
    && (forall s | s in t.shifts :: s.id < t.nextShiftId && ShiftInItsWeek(t, s))
  }

  predicate Consistent(t: Tables) {
    WeeksConsistent(t) && ShiftsConsistent(t)
  }

  // ---------------------------------------------------------------------------
  // Reads

  /**
   * `weekRepository.findOne({ startDate })`, through the unique index: the row the
   * index names for that date, when it is there and has that date.
   */
  function FindWeekByStart(t: Tables, start: Day): (r: Option<Week>)
    ensures r.Some? ==> r.value.startDate == start && r.value in t.weeks.Values
    ensures WeeksConsistent(t) ==> (r.Some? <==> start in t.weekByStart)
    ensures WeeksConsistent(t) && r.Some? ==> r.value.id in t.weeks && t.weeks[r.value.id] == r.value
  {
    if start in t.weekByStart && t.weekByStart[start] in t.weeks && t.weeks[t.weekByStart[start]].startDate == start
    then Some(t.weeks[t.weekByStart[start]])
    else None
  }

  /** `weekRepository.findById(id)`, and the `week` relation of a shift. */
  function FindWeekById(t: Tables, id: WeekId): Option<Week> {
    if id in t.weeks then Some(t.weeks[id]) else None
  }

  /** The week a shift's `weekId` points at, as `relations: ["week"]` loads it. */
  function WeekOfShift(t: Tables, s: Shift): Option<Week> {
    if s.weekId.Some? then FindWeekById(t, s.weekId.value) else None
  }

  /** The position of the shift with id `id`, or `|shifts|` when there is none. */
  function ShiftIndex(shifts: seq<Shift>, id: ShiftId): (i: nat)
    ensures i <= |shifts|
    ensures i < |shifts| ==> shifts[i].id == id
    ensures forall j | 0 <= j < i :: shifts[j].id != id
  {
    if shifts == [] then 0
    else if shifts[0].id == id then 0
    else 1 + ShiftIndex(shifts[1..], id)
  }

  /** `shiftRepository.findById(id)`. */
  function FindShiftById(t: Tables, id: ShiftId): (r: Option<Shift>)
    ensures r.Some? <==> exists s | s in t.shifts :: s.id == id
    ensures r.Some? ==> r.value in t.shifts && r.value.id == id
  {
    var i := ShiftIndex(t.shifts, id);
    if i < |t.shifts| then Some(t.shifts[i]) else None
  }

  /** The shifts dated in `[from, to]`, in storage order: `find({ where: { date: Between(from, to) } })`. */
  function ShiftsDatedIn(shifts: seq<Shift>, from: Day, to: Day): (r: seq<Shift>)
    ensures forall s | s in r :: s in shifts && from <= s.date <= to
    ensures forall s | s in shifts && from <= s.date <= to :: s in r
  {
    if shifts == [] then []
    else
      var rest := ShiftsDatedIn(shifts[1..], from, to);
      if from <= shifts[0].date <= to then [shifts[0]] + rest else rest
  }

  // ---------------------------------------------------------------------------
  // Writes

  /** The result of an operation on the store: the new tables and what it returns. */
  datatype Step<T> = Step(tables: Tables, result: T)

  /** `weekRepository.create(...)` with an unpublished week: the row gets a fresh id. */
  function InsertWeek(t: Tables, startDate: Day, endDate: Day): (r: Step<Week>)
    ensures r.result == Week(t.nextWeekId, startDate, endDate, false, None)
    ensures r.tables.weeks == t.weeks[t.nextWeekId := r.result]
    ensures r.tables.weekByStart == t.weekByStart[startDate := t.nextWeekId]
    ensures r.tables.shifts == t.shifts && r.tables.nextShiftId == t.nextShiftId
    ensures r.tables.nextWeekId == t.nextWeekId + 1
  {
    var w := Week(t.nextWeekId, startDate, endDate, false, None);
    Step(t.(weeks := t.weeks[w.id := w], weekByStart := t.weekByStart[startDate := w.id],
            nextWeekId := t.nextWeekId + 1), w)
  }

  /** `weekRepository.updateById(id, { isPublished: true, publishedAt })`. */
  function MarkWeekPublished(t: Tables, id: WeekId, publishedAt: Timestamp): (r: Tables)
    ensures id in t.weeks ==> r.weeks == t.weeks[id := t.weeks[id].(isPublished := true, publishedAt := Some(publishedAt))]
    ensures id !in t.weeks ==> r == t
    ensures r.weekByStart == t.weekByStart && r.shifts == t.shifts
    ensures r.nextWeekId == t.nextWeekId && r.nextShiftId == t.nextShiftId
  {
    if id in t.weeks then
      t.(weeks := t.weeks[id := t.weeks[id].(isPublished := true, publishedAt := Some(publishedAt))])
    else t
  }

  /** `shiftRepository.create(shift)`: the row gets a fresh id and goes to the end of the table. */
  function InsertShift(t: Tables, s: Shift): (r: Step<Shift>)
    ensures r.result == s.(id := t.nextShiftId)
    ensures r.tables == t.(shifts := t.shifts + [r.result], nextShiftId := t.nextShiftId + 1)
  {
    var row := s.(id := t.nextShiftId);
    Step(t.(shifts := t.shifts + [row], nextShiftId := t.nextShiftId + 1), row)
  }

  /** `shiftRepository.updateById(id, ...)`: the row with that id is replaced in place. */
  function ReplaceShift(t: Tables, id: ShiftId, s: Shift): (r: Tables)
    ensures |r.shifts| == |t.shifts|
    ensures forall i | 0 <= i < |t.shifts| ::
      r.shifts[i] == if i == ShiftIndex(t.shifts, id) then s else t.shifts[i]
    ensures r.weeks == t.weeks && r.weekByStart == t.weekByStart
    ensures r.nextWeekId == t.nextWeekId && r.nextShiftId == t.nextShiftId
  {
    var i := ShiftIndex(t.shifts, id);
    if i < |t.shifts| then t.(shifts := t.shifts[i := s]) else t
  }

  /** `shiftRepository.deleteById(id)`: the row with that id leaves, the others keep their order. */
  function RemoveShift(t: Tables, id: ShiftId): (r: Tables)
    ensures ShiftIndex(t.shifts, id) < |t.shifts| ==>
      r.shifts == t.shifts[..ShiftIndex(t.shifts, id)] + t.shifts[ShiftIndex(t.shifts, id) + 1..]
    ensures ShiftIndex(t.shifts, id) == |t.shifts| ==> r == t
    ensures r.weeks == t.weeks && r.weekByStart == t.weekByStart
    ensures r.nextWeekId == t.nextWeekId && r.nextShiftId == t.nextShiftId
  {
    var i := ShiftIndex(t.shifts, id);
    if i < |t.shifts| then t.(shifts := t.shifts[..i] + t.shifts[i + 1..]) else t
  }

  /** One row as `updateWhere({ weekId }, { isPublished: true, publishedAt })` leaves it. */
  function PublishShiftRow(s: Shift, weekId: WeekId, publishedAt: Timestamp): Shift {
    if s.weekId == Some(weekId) then s.(isPublished := true, publishedAt := Some(publishedAt)) else s
  }

  /** `shiftRepository.updateWhere({ weekId }, { isPublished: true, publishedAt })`. */
  function PublishShiftsOfWeek(t: Tables, weekId: WeekId, publishedAt: Timestamp): (r: Tables)
    ensures |r.shifts| == |t.shifts|
    ensures forall i | 0 <= i < |t.shifts| :: r.shifts[i] == PublishShiftRow(t.shifts[i], weekId, publishedAt)
    ensures r.weeks == t.weeks && r.weekByStart == t.weekByStart
    ensures r.nextWeekId == t.nextWeekId && r.nextShiftId == t.nextShiftId
  {
    t.(shifts := seq(|t.shifts|, i requires 0 <= i < |t.shifts| => PublishShiftRow(t.shifts[i], weekId, publishedAt)))
  }

  // ---------------------------------------------------------------------------
  // The store object

  /** The database the use cases read and write, updated in place. */
  class Store {
    var weeks: map<WeekId, Week>
    var weekByStart: map<Day, WeekId>
    var shifts: seq<Shift>
    var nextWeekId: WeekId
    var nextShiftId: ShiftId

    function State(): Tables
      reads this
    {
      Tables(weeks, weekByStart, shifts, nextWeekId, nextShiftId)
    }

    predicate Valid()
      reads this
    {
      Consistent(State())
    }

    constructor ()
      ensures State() == EmptyTables && Valid()
    {
      weeks, weekByStart, shifts := map[], map[], [];
      nextWeekId, nextShiftId := 0, 0;
    }

    /** `weekRepository.create({ startDate, endDate, isPublished: false, publishedAt: null })`. */
    method CreateWeek(startDate: Day, endDate: Day) returns (w: Week)
      modifies this
      ensures Step(State(), w) == InsertWeek(old(State()), startDate, endDate)
    {
      w := Week(nextWeekId, startDate, endDate, false, None);
      weeks := weeks[w.id := w];
      weekByStart := weekByStart[startDate := w.id];
      nextWeekId := nextWeekId + 1;
    }

    /** `weekRepository.updateById(id, { isPublished: true, publishedAt })`. */
    method UpdateWeekPublished(id: WeekId, publishedAt: Timestamp)
      modifies this
      ensures State() == MarkWeekPublished(old(State()), id, publishedAt)
    {
      if id in weeks {
        weeks := weeks[id := weeks[id].(isPublished := true, publishedAt := Some(publishedAt))];
      }
    }

    /** `shiftRepository.create(shift)`. */
    method CreateShift(s: Shift) returns (created: Shift)
      modifies this
      ensures Step(State(), created) == InsertShift(old(State()), s)
    {
      created := s.(id := nextShiftId);
      shifts := shifts + [created];
      nextShiftId := nextShiftId + 1;
    }

    /** `shiftRepository.updateById(id, fields)`. */
    method UpdateShiftById(id: ShiftId, s: Shift)
      modifies this
      ensures State() == ReplaceShift(old(State()), id, s)
    {
      var i := ShiftIndex(shifts, id);
      if i < |shifts| {
        shifts := shifts[i := s];
      }
    }

    /** `shiftRepository.deleteById(id)`. */
    method DeleteShiftById(id: ShiftId)
      modifies this
      ensures State() == RemoveShift(old(State()), id)
    {
      var i := ShiftIndex(shifts, id);
      if i < |shifts| {
        shifts := shifts[..i] + shifts[i + 1..];
      }
    }

    /** `shiftRepository.updateWhere({ weekId }, { isPublished: true, publishedAt })`, one bulk update. */
    method PublishShiftsWhereWeek(weekId: WeekId, publishedAt: Timestamp)
      modifies this
      ensures State() == PublishShiftsOfWeek(old(State()), weekId, publishedAt)
    {
      shifts := seq(|shifts|, i requires 0 <= i < |shifts| reads this => PublishShiftRow(shifts[i], weekId, publishedAt));
    }
  }
}
