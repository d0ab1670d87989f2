/**
 * The two stored entities, Week and Shift, the views the use cases return,
 * and the errors they raise.
 */
module Schema {
  import opened Wrappers
  import opened Calendar

  /** Row identifiers (generated uuids in the database). */
  type ShiftId = nat
  type WeekId = nat

  /** An instant, as the clock gives it when a week is published. */
  type Timestamp = int

  /** A Week row: `startDate` is unique across rows and is a Monday, `endDate` is its Sunday. */
  datatype Week = Week(
    id: WeekId,
    startDate: Day,
    endDate: Day,
    isPublished: bool,
    publishedAt: Option<Timestamp>)

  /**
   * A Shift row. `weekId` is the foreign key to its Week (nullable in the schema);
   * `isPublished` and `publishedAt` are the columns the publish cascade writes.
   */
  datatype Shift = Shift(
    id: ShiftId,
    name: string,
    date: Day,
    startTime: string,
    endTime: string,
    weekId: Option<WeekId>,
    isPublished: bool,
    publishedAt: Option<Timestamp>)

  /** The public view of a week; `id` is None for a week that has no row. */
  datatype WeekView = WeekView(
    id: Option<WeekId>,
    startDate: Day,
    endDate: Day,
    isPublished: bool,
    publishedAt: Option<Timestamp>)

  /** The public view of a shift, with its publication state read through its week. */
  datatype ShiftView = ShiftView(
    id: ShiftId,
    name: string,
    date: Day,
    startTime: string,
    endTime: string,
    isPublished: bool,
    publishedAt: Option<Timestamp>,
    week: Option<WeekView>)

  /** One constructor per `HttpError` the core throws. */
  datatype Failure =
    | InvalidTimeFormat
    | InvalidTimeValue
    | DurationNotPositive
    | DurationTooLong
    | InvalidDateValue
    | ShiftNotFound
    | CreateInPublishedWeek
    | EditPublishedShift
    | MoveIntoPublishedWeek
    | ShiftClash(clashingShift: ShiftView)
    | DeletePublishedShift
    | BulkDeleteUnsupported
    | WeekAlreadyPublished
    | EmptyWeek
  {
    /** The HTTP status each error is thrown with. */
    function Status(): (code: int)
      ensures code == 409 <==> ShiftClash?
      ensures code == 404 <==> ShiftNotFound?
      ensures code in {400, 404, 409}
    {
      match this
      case ShiftClash(_) => 409
      case ShiftNotFound => 404
      case _ => 400
    }
  }
}
