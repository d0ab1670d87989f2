/**
 * What the week use cases promise, proved of `PublishStep` and
 * `GetWeekByStartDate`: the guards in the code's order, the publish cascade
 * reaching exactly the shifts dated in the week, the store invariant kept, and
 * a published week never changing again.
 */
module WeekUsecaseProperties {
  import opened Wrappers
  import opened Calendar
  import opened Schema
  import opened ShiftTime
  import opened Repository
  import opened ShiftUsecase
  import opened WeekUsecase
  import opened ShiftUsecaseProperties

  // ---------------------------------------------------------------------------
  // getWeekByStartDate

  /** Reading a week by any of its dates gives the same view as reading it by its Monday. */
  lemma ReadByAnyDayOfWeek(t: Tables, day: Day, other: Day)
    requires StartOfWeek(day) <= other <= StartOfWeek(day) + 6
    ensures GetWeekByStartDate(t, Parsed(other)) == GetWeekByStartDate(t, Parsed(day))
  {
    SameWeek(day, other);
  }

  /** Under the invariant, a week is shown with an id exactly when its row exists, and then as stored. */
  lemma ReadShowsStoredRow(t: Tables, day: Day)
    requires Consistent(t)
    ensures GetWeekByStartDate(t, Parsed(day)).Ok?
    ensures GetWeekByStartDate(t, Parsed(day)).value.id.Some? <==> StartOfWeek(day) in t.weekByStart
    ensures StartOfWeek(day) in t.weekByStart ==>
      GetWeekByStartDate(t, Parsed(day)).value == WeekResponse(t.weeks[t.weekByStart[StartOfWeek(day)]])
  {
  }

  // ---------------------------------------------------------------------------
  // publishWeek: the guards

  /** An unreadable date is refused before anything is read or written. */
  lemma PublishInvalidDate(t: Tables, now: Timestamp)
    ensures PublishStep(t, Unparseable, now) == Step(t, Err(InvalidDateValue))
  {
  }

  /** Publishing a published week is refused, and nothing is written. */
  lemma PublishAlreadyPublished(t: Tables, day: Day, now: Timestamp)
    requires Consistent(t)
    requires FindWeekByStart(t, StartOfWeek(day)).Some? && FindWeekByStart(t, StartOfWeek(day)).value.isPublished
    ensures PublishStep(t, Parsed(day), now) == Step(t, Err(WeekAlreadyPublished))
  {
    GetOrCreateWeekFacts(t, day);
  }

  /**
   * A week with no shift dated in it is refused; the week row it looked up stays,
   * so publishing an empty week that had no row leaves an unpublished row behind.
   */
  lemma PublishEmptyWeek(t: Tables, day: Day, now: Timestamp)
    requires Consistent(t)
    requires !(FindWeekByStart(t, StartOfWeek(day)).Some? && FindWeekByStart(t, StartOfWeek(day)).value.isPublished)
    requires forall s | s in t.shifts :: !(StartOfWeek(day) <= s.date <= StartOfWeek(day) + 6)
    ensures PublishStep(t, Parsed(day), now) == Step(GetOrCreateWeekStep(t, day).tables, Err(EmptyWeek))
    ensures StartOfWeek(day) in PublishStep(t, Parsed(day), now).tables.weekByStart
  {
    GetOrCreateWeekFacts(t, day);
    NoneDatedIn(t.shifts, StartOfWeek(day), StartOfWeek(day) + 6);
  }

  /**
   * Publishing a valid date succeeds exactly when its week has no published row
   * and at least one stored shift is dated from its Monday to its Sunday.
   */
  lemma PublishSucceedsIff(t: Tables, day: Day, now: Timestamp)
    requires Consistent(t)
    ensures PublishStep(t, Parsed(day), now).result.Ok? <==>
      && !(FindWeekByStart(t, StartOfWeek(day)).Some? && FindWeekByStart(t, StartOfWeek(day)).value.isPublished)
      && exists s | s in t.shifts :: StartOfWeek(day) <= s.date <= StartOfWeek(day) + 6
  {
    GetOrCreateWeekFacts(t, day);
    var got := GetOrCreateWeekStep(t, day);
    var bounds := GetWeekBounds(Parsed(day)).value;
    var dated := ShiftsDatedIn(got.tables.shifts, bounds.weekStartDate, bounds.weekEndDate);
    if exists s | s in t.shifts :: StartOfWeek(day) <= s.date <= StartOfWeek(day) + 6 {
      var s :| s in t.shifts && StartOfWeek(day) <= s.date <= StartOfWeek(day) + 6;
      assert s in dated;
    } else {
      NoneDatedIn(t.shifts, bounds.weekStartDate, bounds.weekEndDate);
    }
  }

  /** With no shift dated in `[from, to]`, the query for them is empty. */
  lemma {:induction false} NoneDatedIn(shifts: seq<Shift>, from: Day, to: Day)
    requires forall s | s in shifts :: !(from <= s.date <= to)
    ensures ShiftsDatedIn(shifts, from, to) == []
  {
    if shifts != [] {
      assert shifts[0] in shifts;
      NoneDatedIn(shifts[1..], from, to);
    }
  }

  // ---------------------------------------------------------------------------
  // publishWeek: the cascade

  /** The tables a successful publish leaves: the week row marked, then the shifts that point at it. */
  lemma PublishUnfold(t: Tables, day: Day, now: Timestamp)
    requires PublishStep(t, Parsed(day), now).result.Ok?
    ensures var got := GetOrCreateWeekStep(t, day);
      && !got.result.isPublished
      && PublishStep(t, Parsed(day), now).tables
         == PublishShiftsOfWeek(MarkWeekPublished(got.tables, got.result.id, now), got.result.id, now)
  {
    var got := GetOrCreateWeekStep(t, day);
    assert GetWeekBounds(Parsed(day)) == Ok(WeekBounds(StartOfWeek(day), StartOfWeek(day) + 6));
  }

  /** Under the invariant, a shift points at the row of a Monday exactly when it is dated in that week. */
  lemma PointsAtWeekIffDatedIn(t: Tables, s: Shift, monday: Day)
    requires Consistent(t) && s in t.shifts && IsMonday(monday) && monday in t.weekByStart
    ensures s.weekId == Some(t.weekByStart[monday]) <==> monday <= s.date <= monday + 6
  {
    assert ShiftInItsWeek(t, s);
    if monday <= s.date <= monday + 6 {
      StartOfWeekUnique(s.date, monday);
    }
  }

  /**
   * A successful publish marks the week of the date published at `now`, and
   * exactly the shifts dated in that week with it; every other row, week or
   * shift, is unchanged, and the shifts keep their order. The response is the
   * published week.
   */
  lemma PublishCascade(t: Tables, day: Day, now: Timestamp)
    requires Consistent(t)
    requires PublishStep(t, Parsed(day), now).result.Ok?
    ensures var r := PublishStep(t, Parsed(day), now);
      var monday := StartOfWeek(day);
      && monday in r.tables.weekByStart
      && var id := r.tables.weekByStart[monday];
      && id in r.tables.weeks
      && r.tables.weeks[id] == Week(id, monday, monday + 6, true, Some(now))
      && r.result == Ok(WeekView(Some(id), monday, monday + 6, true, Some(now)))
      && (forall other | other in t.weeks && other != id :: other in r.tables.weeks && r.tables.weeks[other] == t.weeks[other])
  {
    GetOrCreateWeekFacts(t, day);
    PublishUnfold(t, day, now);
  }

  /**
   * The cascade follows `weekId`, and the emptiness check follows the date: under
   * the invariant they pick the same shifts, so every shift dated in the week is
   * published with it and no other shift changes.
   */
  lemma PublishCoversExactlyTheWeek(t: Tables, day: Day, now: Timestamp)
    requires Consistent(t)
    requires PublishStep(t, Parsed(day), now).result.Ok?
    ensures var r := PublishStep(t, Parsed(day), now).tables;
      var monday := StartOfWeek(day);
      && |r.shifts| == |t.shifts|
      && forall i | 0 <= i < |t.shifts| ::
           r.shifts[i] == if monday <= t.shifts[i].date <= monday + 6
                          then t.shifts[i].(isPublished := true, publishedAt := Some(now))
                          else t.shifts[i]
  {
    GetOrCreateWeekFacts(t, day);
    PublishUnfold(t, day, now);
    var got := GetOrCreateWeekStep(t, day);
    var monday := StartOfWeek(day);
    forall i | 0 <= i < |t.shifts|
      ensures (t.shifts[i].weekId == Some(got.result.id)) <==> monday <= t.shifts[i].date <= monday + 6
    {
      PointsAtWeekIffDatedIn(got.tables, t.shifts[i], monday);
    }
  }

  /** Marking a week row published keeps the week table consistent. */
  lemma MarkKeepsWeeksConsistent(t: Tables, id: WeekId, now: Timestamp)
    requires WeeksConsistent(t) && id in t.weeks
    ensures WeeksConsistent(MarkWeekPublished(t, id, now))
  {
  }

  /** Marking an unpublished week row published, then cascading to its shifts, keeps the invariant. */
  lemma MarkAndCascadeKeepsConsistent(t: Tables, id: WeekId, now: Timestamp)
    requires Consistent(t) && id in t.weeks
    ensures Consistent(PublishShiftsOfWeek(MarkWeekPublished(t, id, now), id, now))
  {
    var marked := MarkWeekPublished(t, id, now);
    var r := PublishShiftsOfWeek(marked, id, now);
    MarkKeepsWeeksConsistent(t, id, now);
    assert r.weeks == marked.weeks && r.weekByStart == marked.weekByStart;
    forall s | s in r.shifts
      ensures s.id < r.nextShiftId && ShiftInItsWeek(r, s)
    {
      var i :| 0 <= i < |r.shifts| && r.shifts[i] == s;
      assert ShiftInItsWeek(t, t.shifts[i]);
    }
    assert DistinctShiftIds(r.shifts) by {
      forall i, j | 0 <= i < j < |r.shifts|
        ensures r.shifts[i].id != r.shifts[j].id
      {
        assert r.shifts[i].id == t.shifts[i].id && r.shifts[j].id == t.shifts[j].id;
      }
    }
  }

  /** Publishing keeps the store invariant, whatever its outcome. */
  lemma PublishKeepsConsistent(t: Tables, date: DateInput, now: Timestamp)
    requires Consistent(t)
    ensures Consistent(PublishStep(t, date, now).tables)
  {
    if date.Parsed? {
      GetOrCreateWeekFacts(t, date.day);
      var got := GetOrCreateWeekStep(t, date.day);
      if PublishStep(t, date, now).result.Ok? {
        PublishUnfold(t, date.day, now);
        MarkAndCascadeKeepsConsistent(got.tables, got.result.id, now);
      } else {
        assert PublishStep(t, date, now).tables == got.tables;
      }
    }
  }

  /** After a successful publish, reading the week shows it published at `now`. */
  lemma PublishThenRead(t: Tables, day: Day, now: Timestamp)
    requires Consistent(t)
    requires PublishStep(t, Parsed(day), now).result.Ok?
    ensures GetWeekByStartDate(PublishStep(t, Parsed(day), now).tables, Parsed(day))
      == PublishStep(t, Parsed(day), now).result
  {
    PublishCascade(t, day, now);
    PublishKeepsConsistent(t, Parsed(day), now);
  }

  /** Publishing never unpublishes: a published week row stays exactly as it was. */
  lemma PublishNeverUnpublishes(t: Tables, date: DateInput, now: Timestamp)
    requires Consistent(t)
    ensures forall id | id in t.weeks && t.weeks[id].isPublished ::
      id in PublishStep(t, date, now).tables.weeks && PublishStep(t, date, now).tables.weeks[id] == t.weeks[id]
  {
    if date.Parsed? {
      GetOrCreateWeekFacts(t, date.day);
      if PublishStep(t, date, now).result.Ok? {
        PublishCascade(t, date.day, now);
        PublishUnfold(t, date.day, now);
      }
    }
  }
}
