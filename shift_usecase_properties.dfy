/**
 * What the shift use cases promise, proved of the step functions: the store
 * invariant is kept by every step, the guards fire in the code's order, the
 * clash search is sound and complete within its window, and the listing is the
 * sorted shifts of the week.
 */
module ShiftUsecaseProperties {
  import opened Wrappers
  import opened Calendar
  import opened Schema
  import opened ShiftTime
  import opened Repository
  import opened ShiftUsecase
  import opened ShiftTimeProperties

  // ---------------------------------------------------------------------------
  // getOrCreateWeek

  /**
   * The week returned is the row of the date's Monday; a row is created only when
   * there was none, unpublished and ending on Sunday, and then it is the only row
   * with that start date. The store invariant is kept.
   */
  lemma GetOrCreateWeekFacts(t: Tables, date: Day)
    requires Consistent(t)
    ensures var r := GetOrCreateWeekStep(t, date);
      && Consistent(r.tables)
      && r.result.startDate == StartOfWeek(date)
      && StartOfWeek(date) in r.tables.weekByStart
      && r.tables.weekByStart[StartOfWeek(date)] == r.result.id
      && r.result.id in r.tables.weeks && r.tables.weeks[r.result.id] == r.result
      && (forall id | id in t.weeks :: id in r.tables.weeks && r.tables.weeks[id] == t.weeks[id])
      && (StartOfWeek(date) in t.weekByStart ==> r.tables == t)
      && (StartOfWeek(date) !in t.weekByStart ==>
            && r.result == Week(t.nextWeekId, StartOfWeek(date), StartOfWeek(date) + 6, false, None)
            && r.tables.weeks.Keys == t.weeks.Keys + {t.nextWeekId})
  {
    var start := StartOfWeek(date);
    var r := GetOrCreateWeekStep(t, date);
    if start !in t.weekByStart {
      assert t.nextWeekId !in t.weeks;
      InsertWeekKeepsConsistent(t, start);
    }
  }

  /** Adding the row of a Monday that has none keeps the store invariant. */
  lemma InsertWeekKeepsConsistent(t: Tables, start: Day)
    requires Consistent(t) && IsMonday(start) && start !in t.weekByStart
    ensures Consistent(InsertWeek(t, start, start + 6).tables)
  {
    var t2 := InsertWeek(t, start, start + 6).tables;
    assert t.nextWeekId !in t.weeks;
    assert WeeksConsistent(t2) by {
      forall id | id in t2.weeks
        ensures t2.weeks[id].id == id && id < t2.nextWeekId && WellFormedWeek(t2.weeks[id])
        ensures t2.weeks[id].startDate in t2.weekByStart && t2.weekByStart[t2.weeks[id].startDate] == id
      {
        if id != t.nextWeekId {
          assert t.weeks[id].startDate != start;
        }
      }
    }
    forall s | s in t2.shifts
      ensures s.id < t2.nextShiftId && ShiftInItsWeek(t2, s)
    {
      assert ShiftInItsWeek(t, s);
      assert StartOfWeek(s.date) != start;
    }
  }

  // ---------------------------------------------------------------------------
  // create
  //
  // The proofs below split on the guards of `create` in the code's order before
  // they look at its outcome; each branch is then a short unfolding.

  /**
   * Appending a row that belongs to its date's week, with that week's publication
   * state, keeps the store invariant.
   */
  lemma InsertShiftKeepsConsistent(t: Tables, s: Shift)
    requires Consistent(t) && ShiftInItsWeek(t, s)
    ensures Consistent(InsertShift(t, s).tables)
  {
    var t2 := InsertShift(t, s).tables;
    var row := InsertShift(t, s).result;
    forall x | x in t2.shifts
      ensures x.id < t2.nextShiftId && ShiftInItsWeek(t2, x)
    {
      if x != row {
        assert x in t.shifts && ShiftInItsWeek(t, x);
      }
    }
    assert DistinctShiftIds(t2.shifts) by {
      forall i, j | 0 <= i < j < |t2.shifts|
        ensures t2.shifts[i].id != t2.shifts[j].id
      {
        if j == |t.shifts| {
          assert t2.shifts[i] in t.shifts;
        }
      }
    }
  }

  /** `create` keeps the store invariant, whatever its outcome. */
  lemma CreateKeepsConsistent(t: Tables, p: CreateShiftPayload)
    requires Consistent(t)
    ensures Consistent(CreateStep(t, p).tables)
  {
    var interval := CalculateShiftInterval(p.date, p.startTime, p.endTime);
    if interval.Ok? {
      GetOrCreateWeekFacts(t, p.date.day);
      var got := GetOrCreateWeekStep(t, p.date.day);
      if !got.result.isPublished {
        var clash := FindClashingShift(got.tables.shifts, p.date, p.startTime, p.endTime, None);
        if clash.Err? {
        } else if clash.value.Some? && !p.ignoreClash {
        } else {
          var row := NewShift(p, p.date.day, got.result);
          assert ShiftInItsWeek(got.tables, row);
          InsertShiftKeepsConsistent(got.tables, row);
        }
      }
    }
  }

  /** An invalid interval is refused first, and nothing is written. */
  lemma CreateChecksIntervalFirst(t: Tables, p: CreateShiftPayload)
    requires CalculateShiftInterval(p.date, p.startTime, p.endTime).Err?
    ensures CreateStep(t, p) == Step(t, Err(CalculateShiftInterval(p.date, p.startTime, p.endTime).error))
  {
  }

  /**
   * A valid shift in a week whose row is published is refused, whatever it
   * clashes with, and nothing is written.
   */
  lemma CreateInPublishedWeekFails(t: Tables, p: CreateShiftPayload)
    requires Consistent(t)
    requires CalculateShiftInterval(p.date, p.startTime, p.endTime).Ok?
    requires FindWeekByStart(t, StartOfWeek(p.date.day)).Some?
    requires FindWeekByStart(t, StartOfWeek(p.date.day)).value.isPublished
    ensures CreateStep(t, p) == Step(t, Err(CreateInPublishedWeek))
  {
    GetOrCreateWeekFacts(t, p.date.day);
  }

  /**
   * Every refusal after the interval check leaves the store as the week lookup
   * left it: the week row of the date exists afterwards, even when it was created
   * for this request.
   */
  lemma CreateRefusalKeepsWeekRow(t: Tables, p: CreateShiftPayload)
    requires Consistent(t)
    requires CalculateShiftInterval(p.date, p.startTime, p.endTime).Ok?
    requires CreateStep(t, p).result.Err?
    ensures CreateStep(t, p).tables == GetOrCreateWeekStep(t, p.date.day).tables
    ensures CreateStep(t, p).tables.shifts == t.shifts
    ensures StartOfWeek(p.date.day) in CreateStep(t, p).tables.weekByStart
    ensures StartOfWeek(p.date.day) !in t.weekByStart ==> t.nextWeekId in CreateStep(t, p).tables.weeks
  {
    GetOrCreateWeekFacts(t, p.date.day);
    var got := GetOrCreateWeekStep(t, p.date.day);
    if !got.result.isPublished {
      var clash := FindClashingShift(got.tables.shifts, p.date, p.startTime, p.endTime, None);
      if clash.Err? {
      } else if clash.value.Some? && !p.ignoreClash {
      } else {
      }
    }
  }

  /**
   * In an unpublished week, a clash refuses the create (naming the clashing
   * shift) unless `ignoreClash` is set; without a clash, or with the flag, it
   * succeeds.
   */
  lemma CreateClashRule(t: Tables, p: CreateShiftPayload)
    requires Consistent(t)
    requires CalculateShiftInterval(p.date, p.startTime, p.endTime).Ok?
    requires !GetOrCreateWeekStep(t, p.date.day).result.isPublished
    requires FindClashingShift(t.shifts, p.date, p.startTime, p.endTime, None).Ok?
    ensures var clash := FindClashingShift(t.shifts, p.date, p.startTime, p.endTime, None).value;
      && (clash.Some? && !p.ignoreClash ==>
            CreateStep(t, p).result == Err(ShiftClash(ShiftResponse(CreateStep(t, p).tables, clash.value))))
      && ((clash.None? || p.ignoreClash) ==> CreateStep(t, p).result.Ok?)
  {
    var got := GetOrCreateWeekStep(t, p.date.day);
    var clash := FindClashingShift(got.tables.shifts, p.date, p.startTime, p.endTime, None);
    if clash.value.Some? && !p.ignoreClash {
    } else {
    }
  }

  /**
   * A successful create appends one row, with a fresh id, the payload's name and
   * date, the sanitised times, unpublished and in the week of its date, and
   * returns that row's response.
   */
  lemma CreateStoresShift(t: Tables, p: CreateShiftPayload)
    requires Consistent(t)
    requires CreateStep(t, p).result.Ok?
    ensures p.date.Parsed?
    ensures var r := CreateStep(t, p);
      var start := StartOfWeek(p.date.day);
      && start in r.tables.weekByStart
      && var row := Shift(t.nextShiftId, p.name, p.date.day, SanitizeTime(p.startTime), SanitizeTime(p.endTime),
                          Some(r.tables.weekByStart[start]), false, None);
      && r.tables.shifts == t.shifts + [row]
      && r.result == Ok(ShiftResponse(r.tables, row))
  {
    var interval := CalculateShiftInterval(p.date, p.startTime, p.endTime);
    if interval.Ok? {
      GetOrCreateWeekFacts(t, p.date.day);
      var got := GetOrCreateWeekStep(t, p.date.day);
      if !got.result.isPublished {
        var clash := FindClashingShift(got.tables.shifts, p.date, p.startTime, p.endTime, None);
        if clash.Err? {
        } else if clash.value.Some? && !p.ignoreClash {
        } else {
        }
      }
    }
  }

  // ---------------------------------------------------------------------------
  // updateById

  /** Replacing a stored row by one with the same id that belongs to its date's week keeps the invariant. */
  lemma ReplaceShiftKeepsConsistent(t: Tables, id: ShiftId, s: Shift)
    requires Consistent(t) && s.id == id && ShiftInItsWeek(t, s)
    ensures Consistent(ReplaceShift(t, id, s))
  {
    var t2 := ReplaceShift(t, id, s);
    var k := ShiftIndex(t.shifts, id);
    forall x | x in t2.shifts
      ensures x.id < t2.nextShiftId && ShiftInItsWeek(t2, x)
    {
      var i :| 0 <= i < |t2.shifts| && t2.shifts[i] == x;
      if i != k {
        assert x == t.shifts[i];
      } else {
        assert t.shifts[k] in t.shifts;
      }
    }
    assert DistinctShiftIds(t2.shifts) by {
      forall i, j | 0 <= i < j < |t2.shifts|
        ensures t2.shifts[i].id != t2.shifts[j].id
      {
        if i == k || j == k {
          assert t.shifts[k].id == id;
        }
      }
    }
  }

  /** Under the invariant a stored shift of an unpublished week is itself unpublished. */
  lemma ShiftOfUnpublishedWeek(t: Tables, s: Shift)
    requires Consistent(t) && s in t.shifts
    ensures WeekOfShift(t, s).Some?
    ensures !WeekOfShift(t, s).value.isPublished ==> !s.isPublished && s.publishedAt.None?
    ensures WeekOfShift(t, s).value.isPublished <==> s.isPublished
  {
    assert ShiftInItsWeek(t, s);
  }

  /** The row a successful update writes. */
  function UpdatedRow(s: Shift, m: MergedFields, weekId: WeekId): Shift
    requires m.date.Parsed?
  {
    s.(name := m.name, date := m.date.day, startTime := SanitizeTime(m.startTime),
       endTime := SanitizeTime(m.endTime), weekId := Some(weekId))
  }

  /** `updateById` keeps the store invariant, whatever its outcome. */
  lemma UpdateKeepsConsistent(t: Tables, id: ShiftId, p: UpdateShiftPayload)
    requires Consistent(t)
    ensures Consistent(UpdateStep(t, id, p).tables)
  {
    var existing := FindShiftById(t, id);
    if existing.Some? {
      var s := existing.value;
      ShiftOfUnpublishedWeek(t, s);
      if !WeekOfShift(t, s).value.isPublished {
        var m := Merge(p, s);
        var interval := CalculateShiftInterval(m.date, m.startTime, m.endTime);
        if interval.Ok? {
          GetOrCreateWeekFacts(t, m.date.day);
          var got := GetOrCreateWeekStep(t, m.date.day);
          if !(got.result.isPublished && s.weekId != Some(got.result.id)) {
            var clash := FindClashingShift(got.tables.shifts, m.date, m.startTime, m.endTime, Some(id));
            if clash.Err? {
            } else if clash.value.Some? && !p.ignoreClash {
            } else {
              assert ShiftInItsWeek(t, s);
              var row := UpdatedRow(s, m, got.result.id);
              assert ShiftInItsWeek(got.tables, row);
              assert UpdateStep(t, id, p).tables == ReplaceShift(got.tables, id, row);
              ReplaceShiftKeepsConsistent(got.tables, id, row);
            }
          }
        }
      }
    }
  }

  /**
   * The guards before any write: an unknown id, then a shift of a published week,
   * then an invalid merged interval; each leaves the store as it was.
   */
  lemma UpdateGuardsBeforeWrites(t: Tables, id: ShiftId, p: UpdateShiftPayload)
    ensures FindShiftById(t, id).None? ==> UpdateStep(t, id, p) == Step(t, Err(ShiftNotFound))
    ensures FindShiftById(t, id).Some? ==>
      var s := FindShiftById(t, id).value;
      && (WeekOfShift(t, s).Some? && WeekOfShift(t, s).value.isPublished ==>
            UpdateStep(t, id, p) == Step(t, Err(EditPublishedShift)))
      && (!(WeekOfShift(t, s).Some? && WeekOfShift(t, s).value.isPublished) ==>
            var m := Merge(p, s);
            var interval := CalculateShiftInterval(m.date, m.startTime, m.endTime);
            interval.Err? ==> UpdateStep(t, id, p) == Step(t, Err(interval.error)))
  {
  }

  /**
   * Moving a shift into another week whose row is published is refused, and the
   * refusal writes nothing but the week lookup's row. Under the invariant the
   * shift's own week is never the published one here, since that case is refused
   * earlier.
   */
  lemma UpdateIntoPublishedWeekFails(t: Tables, id: ShiftId, p: UpdateShiftPayload)
    requires Consistent(t)
    requires FindShiftById(t, id).Some?
    requires var s := FindShiftById(t, id).value;
      var m := Merge(p, s);
      && !s.isPublished
      && CalculateShiftInterval(m.date, m.startTime, m.endTime).Ok?
      && FindWeekByStart(t, StartOfWeek(m.date.day)).Some?
      && FindWeekByStart(t, StartOfWeek(m.date.day)).value.isPublished
    ensures UpdateStep(t, id, p) == Step(t, Err(MoveIntoPublishedWeek))
  {
    var s := FindShiftById(t, id).value;
    ShiftOfUnpublishedWeek(t, s);
    var m := Merge(p, s);
    GetOrCreateWeekFacts(t, m.date.day);
    assert ShiftInItsWeek(t, s);
  }

  /**
   * A successful update rewrites the one row with that id in place: the payload's
   * fields where present and the stored ones otherwise, the times sanitised, the
   * id of the week of the new date; the other rows and their order are unchanged.
   */
  lemma UpdateStoresMerged(t: Tables, id: ShiftId, p: UpdateShiftPayload)
    requires Consistent(t)
    requires UpdateStep(t, id, p).result.Ok?
    ensures FindShiftById(t, id).Some?
    ensures var s := FindShiftById(t, id).value;
      var m := Merge(p, s);
      var r := UpdateStep(t, id, p);
      var k := ShiftIndex(t.shifts, id);
      && m.date.Parsed?
      && StartOfWeek(m.date.day) in r.tables.weekByStart
      && var row := Shift(id, p.name.GetOr(s.name), m.date.day,
                          SanitizeTime(p.startTime.GetOr(s.startTime)), SanitizeTime(p.endTime.GetOr(s.endTime)),
                          Some(r.tables.weekByStart[StartOfWeek(m.date.day)]), false, None);
      && k < |t.shifts|
      && r.tables.shifts == t.shifts[k := row]
      && r.result == Ok(ShiftResponse(r.tables, row))
  {
    var s := FindShiftById(t, id).value;
    ShiftOfUnpublishedWeek(t, s);
    var m := Merge(p, s);
    var interval := CalculateShiftInterval(m.date, m.startTime, m.endTime);
    GetOrCreateWeekFacts(t, m.date.day);
    var got := GetOrCreateWeekStep(t, m.date.day);
    var clash := FindClashingShift(got.tables.shifts, m.date, m.startTime, m.endTime, Some(id));
    if clash.Err? {
    } else if clash.value.Some? && !p.ignoreClash {
    } else {
      var k := ShiftIndex(t.shifts, id);
      assert ReplaceShift(got.tables, id, UpdatedRow(s, m, got.result.id)).shifts == t.shifts[k := UpdatedRow(s, m, got.result.id)];
    }
  }

  /**
   * Once the earlier guards pass (the shift exists, its week is not published,
   * the merged interval is valid and the target week is not another published
   * one), a clash with any other shift refuses the update with 409, naming that
   * shift, unless `ignoreClash` is set; without a clash, or with the flag, the
   * update succeeds.
   */
  lemma UpdateClashRule(t: Tables, id: ShiftId, p: UpdateShiftPayload)
    requires FindShiftById(t, id).Some?
    requires var s := FindShiftById(t, id).value;
      var m := Merge(p, s);
      && !(WeekOfShift(t, s).Some? && WeekOfShift(t, s).value.isPublished)
      && CalculateShiftInterval(m.date, m.startTime, m.endTime).Ok?
      && !(GetOrCreateWeekStep(t, m.date.day).result.isPublished
           && s.weekId != Some(GetOrCreateWeekStep(t, m.date.day).result.id))
      && FindClashingShift(t.shifts, m.date, m.startTime, m.endTime, Some(id)).Ok?
    ensures var s := FindShiftById(t, id).value;
      var m := Merge(p, s);
      var clash := FindClashingShift(t.shifts, m.date, m.startTime, m.endTime, Some(id)).value;
      && (clash.Some? && !p.ignoreClash ==>
            UpdateStep(t, id, p).result == Err(ShiftClash(ShiftResponse(UpdateStep(t, id, p).tables, clash.value))))
      && ((clash.None? || p.ignoreClash) ==> UpdateStep(t, id, p).result.Ok?)
  {
  }

  // ---------------------------------------------------------------------------
  // deleteById

  /** An array of ids is refused before anything is read; an unknown id is not found. */
  lemma DeleteRefusals(t: Tables, target: DeleteTarget)
    ensures target.ManyIds? ==> DeleteStep(t, target) == Step(t, Err(BulkDeleteUnsupported))
    ensures target.OneId? && FindShiftById(t, target.id).None? ==> DeleteStep(t, target) == Step(t, Err(ShiftNotFound))
  {
  }

  /** Under the invariant, a shift is refused deletion exactly when it is published. */
  lemma DeletePublishedFails(t: Tables, id: ShiftId)
    requires Consistent(t)
    requires FindShiftById(t, id).Some?
    ensures DeleteStep(t, OneId(id)).result == Err(DeletePublishedShift) <==> FindShiftById(t, id).value.isPublished
    ensures FindShiftById(t, id).value.isPublished ==> DeleteStep(t, OneId(id)).tables == t
  {
    ShiftOfUnpublishedWeek(t, FindShiftById(t, id).value);
  }

  /** Deleting one id succeeds exactly when a shift has that id and its week is not published. */
  lemma DeleteSucceedsIff(t: Tables, id: ShiftId)
    ensures DeleteStep(t, OneId(id)).result.Ok? <==>
      && FindShiftById(t, id).Some?
      && !(WeekOfShift(t, FindShiftById(t, id).value).Some?
           && WeekOfShift(t, FindShiftById(t, id).value).value.isPublished)
  {
  }

  /** Removing the row at `k`, the row with id `id`, leaves exactly the rows with other ids. */
  lemma RemoveAtLeavesOthers(shifts: seq<Shift>, k: nat, id: ShiftId)
    requires DistinctShiftIds(shifts) && k < |shifts| && shifts[k].id == id
    ensures forall x :: x in shifts[..k] + shifts[k + 1..] <==> x in shifts && x.id != id
    ensures DistinctShiftIds(shifts[..k] + shifts[k + 1..])
  {
    var r := shifts[..k] + shifts[k + 1..];
    forall x
      ensures x in r <==> x in shifts && x.id != id
    {
      if x in r {
        var i :| 0 <= i < |r| && r[i] == x;
        if i < k {
          assert x == shifts[i];
        } else {
          assert x == shifts[i + 1];
        }
      }
      if x in shifts && x.id != id {
        var i :| 0 <= i < |shifts| && shifts[i] == x;
        if i < k {
          assert r[i] == x;
        } else {
          assert i != k;
          assert r[i - 1] == x;
        }
      }
    }
    RemoveAtKeepsDistinct(shifts, k);
  }

  lemma RemoveAtKeepsDistinct(shifts: seq<Shift>, k: nat)
    requires DistinctShiftIds(shifts) && k < |shifts|
    ensures DistinctShiftIds(shifts[..k] + shifts[k + 1..])
  {
    var r := shifts[..k] + shifts[k + 1..];
    forall i, j | 0 <= i < j < |r|
      ensures r[i].id != r[j].id
    {
      var i', j' := if i < k then i else i + 1, if j < k then j else j + 1;
      assert r[i] == shifts[i'] && r[j] == shifts[j'];
    }
  }

  /** The tables a successful delete leaves: the row at the id's position is gone. */
  lemma DeleteUnfold(t: Tables, id: ShiftId)
    requires DeleteStep(t, OneId(id)).result.Ok?
    ensures ShiftIndex(t.shifts, id) < |t.shifts|
    ensures DeleteStep(t, OneId(id)).tables
      == t.(shifts := t.shifts[..ShiftIndex(t.shifts, id)] + t.shifts[ShiftIndex(t.shifts, id) + 1..])
  {
  }

  /**
   * A successful delete removes the row with that id and no other: the rows left
   * are the others, in their order, and the week table is untouched.
   */
  lemma DeleteRemovesOnlyThatRow(t: Tables, id: ShiftId)
    requires Consistent(t)
    requires DeleteStep(t, OneId(id)).result.Ok?
    ensures var r := DeleteStep(t, OneId(id)).tables;
      var k := ShiftIndex(t.shifts, id);
      && r.weeks == t.weeks && r.weekByStart == t.weekByStart
      && k < |t.shifts| && r.shifts == t.shifts[..k] + t.shifts[k + 1..]
      && (forall x :: x in r.shifts <==> x in t.shifts && x.id != id)
  {
    DeleteUnfold(t, id);
    RemoveAtLeavesOthers(t.shifts, ShiftIndex(t.shifts, id), id);
  }

  /** `deleteById` keeps the store invariant, whatever its outcome. */
  lemma DeleteKeepsConsistent(t: Tables, target: DeleteTarget)
    requires Consistent(t)
    ensures Consistent(DeleteStep(t, target).tables)
  {
    if DeleteStep(t, target).result.Ok? {
      var id := target.id;
      DeleteUnfold(t, id);
      RemoveAtLeavesOthers(t.shifts, ShiftIndex(t.shifts, id), id);
      var r := DeleteStep(t, target).tables;
      forall x | x in r.shifts
        ensures x.id < r.nextShiftId && ShiftInItsWeek(r, x)
      {
        assert x in t.shifts && ShiftInItsWeek(t, x);
      }
    }
  }

  // ---------------------------------------------------------------------------
  // sanitizeTime

  /** Sanitising a sanitised time changes nothing. */
  lemma SanitizeIdempotent(time: string)
    ensures SanitizeTime(SanitizeTime(time)) == SanitizeTime(time)
  {
  }

  /** The first two characters of the first field of `s` do not depend on what follows them. */
  lemma FieldOfPrefix(s: string)
    requires |s| >= 2
    ensures Take(HourField(s[..2]), 2) == Take(HourField(s), 2)
  {
    ColonIndexPrefix(s, 2);
  }

  /**
   * Cutting a stored time to five characters keeps what it means, as long as its
   * hour field has two characters: `HH:MM:SS` and `HH:MM` normalise alike.
   */
  lemma SanitizeKeepsMeaning(time: string)
    requires HasColon(time) && |HourField(time)| == 2
    ensures NormalizeTimeString(SanitizeTime(time)) == NormalizeTimeString(time)
  {
    if |time| > 5 {
      var h, rest := HourField(time), AfterColon(time);
      ColonSplits(time);
      FieldHasNoColon(time);
      assert time[..5] == h + ":" + rest[..2];
      SplitAtFirstColon(h, rest[..2]);
      FieldOfPrefix(rest);
    }
  }

  // ---------------------------------------------------------------------------
  // findClashingShift

  /** Overlap is symmetric, and shifts that only touch (one ends as the other starts) do not clash. */
  lemma OverlapFacts(a: ShiftInterval, b: ShiftInterval)
    ensures Overlaps(a, b) <==> Overlaps(b, a)
    ensures a.endAt == b.startAt ==> !Overlaps(a, b)
  {
  }

  /**
   * An overnight shift clashes with an early shift of the next day: 23:00 to 02:00
   * on day 0 and 01:00 to 03:00 on day 1 overlap from 01:00 to 02:00.
   */
  lemma OvernightClashExample()
    ensures IntervalFromMinutes(Parsed(0), 23 * 60, 2 * 60).Ok?
    ensures IntervalFromMinutes(Parsed(1), 1 * 60, 3 * 60).Ok?
    ensures Overlaps(IntervalFromMinutes(Parsed(0), 23 * 60, 2 * 60).value,
                     IntervalFromMinutes(Parsed(1), 1 * 60, 3 * 60).value)
  {
  }

  /** The clash the search returns is the first in storage order; every shift before it is clear. */
  lemma FirstClashIsFirst(pool: seq<Shift>, interval: ShiftInterval)
    requires FirstClash(pool, interval).Ok? && FirstClash(pool, interval).value.Some?
    ensures exists k | 0 <= k < |pool| ::
      && pool[k] == FirstClash(pool, interval).value.value
      && forall j | 0 <= j < k :: ClearOf(interval, pool[j])
  {
    var k := FirstClashIndex(pool, interval);
  }

  /** The position of the clash the search returns. */
  lemma {:induction false} FirstClashIndex(pool: seq<Shift>, interval: ShiftInterval) returns (k: nat)
    requires FirstClash(pool, interval).Ok? && FirstClash(pool, interval).value.Some?
    ensures k < |pool| && pool[k] == FirstClash(pool, interval).value.value
    ensures forall j | 0 <= j < k :: ClearOf(interval, pool[j])
  {
    if Overlaps(interval, StoredInterval(pool[0]).value) {
      k := 0;
    } else {
      var rest := pool[1..];
      assert ClearOf(interval, pool[0]);
      assert FirstClash(pool, interval) == FirstClash(rest, interval);
      var found := FirstClashIndex(rest, interval);
      k := found + 1;
      forall j | 0 <= j < k
        ensures ClearOf(interval, pool[j])
      {
        if j > 0 {
          assert pool[j] == rest[j - 1];
        }
      }
    }
  }

  /**
   * Why the search looks only a day either side: when both shifts start at a clock
   * time (0:00 to 23:59) of their date, shifts dated two or more days apart never
   * overlap, since a shift is shorter than a day.
   */
  lemma WindowSuffices(day: Day, startMinutes: int, endMinutes: int, other: Day, otherStart: int, otherEnd: int)
    requires 0 <= startMinutes < MinutesInDay && 0 <= otherStart < MinutesInDay
    requires IntervalFromMinutes(Parsed(day), startMinutes, endMinutes).Ok?
    requires IntervalFromMinutes(Parsed(other), otherStart, otherEnd).Ok?
    requires other < day - 1 || day + 1 < other
    ensures !Overlaps(IntervalFromMinutes(Parsed(day), startMinutes, endMinutes).value,
                      IntervalFromMinutes(Parsed(other), otherStart, otherEnd).value)
  {
    var a := IntervalFromMinutes(Parsed(day), startMinutes, endMinutes).value;
    var b := IntervalFromMinutes(Parsed(other), otherStart, otherEnd).value;
    if other < day - 1 {
      assert b.endAt < (other + 2) * MinutesInDay <= day * MinutesInDay <= a.startAt;
    } else {
      assert a.endAt < (day + 2) * MinutesInDay <= other * MinutesInDay <= b.startAt;
    }
  }

  /**
   * Hence, for shifts whose start is a clock time, "no clash found" means no stored
   * shift anywhere (not only in the window) overlaps the candidate.
   */
  lemma NoClashAnywhere(
    shifts: seq<Shift>, date: DateInput, startTime: string, endTime: string, exclude: Option<ShiftId>)
    requires FindClashingShift(shifts, date, startTime, endTime, exclude) == Ok(None)
    requires 0 <= TimeMinutes(startTime).value < MinutesInDay
    ensures forall s | s in shifts && exclude != Some(s.id) && StoredInterval(s).Ok?
                       && 0 <= TimeMinutes(s.startTime).value < MinutesInDay ::
      !ClashesWith(CalculateShiftInterval(date, startTime, endTime).value, s)
  {
    var interval := CalculateShiftInterval(date, startTime, endTime).value;
    forall s | s in shifts && exclude != Some(s.id) && StoredInterval(s).Ok?
               && 0 <= TimeMinutes(s.startTime).value < MinutesInDay
      ensures !ClashesWith(interval, s)
    {
      if !(date.day - 1 <= s.date <= date.day + 1) {
        var m := TimesToMinutes(startTime, endTime).value;
        var n := TimesToMinutes(s.startTime, s.endTime).value;
        CalculateInTwoSteps(date, startTime, endTime);
        CalculateInTwoSteps(Parsed(s.date), s.startTime, s.endTime);
        WindowSuffices(date.day, m.0, m.1, s.date, n.0, n.1);
      }
    }
  }

  /**
   * The request pattern does not bound the hour, and then the window can miss a
   * clash: a shift stored two days earlier from "48:00" to "49:00" covers the
   * first hour of the candidate's day, yet lies outside the window.
   */
  lemma OutOfRangeHourEscapesWindow()
    ensures var stored := IntervalFromMinutes(Parsed(-2), 48 * 60, 49 * 60);
      var candidate := IntervalFromMinutes(Parsed(0), 0, 60);
      && stored == Ok(ShiftInterval(0, 60, 60, 0))
      && candidate == Ok(ShiftInterval(0, 60, 60, 0))
      && Overlaps(candidate.value, stored.value)
      && ClashPool([Shift(7, "late", -2, "48:00", "49:00", None, false, None)], 0, None) == []
  {
  }

  // ---------------------------------------------------------------------------
  // find

  /** String order is total, so any two shifts are comparable. */
  lemma {:induction false} TimeLeTotal(a: string, b: string)
    ensures TimeLe(a, b) || TimeLe(b, a)
  {
    if a != [] && b != [] && a[0] == b[0] {
      TimeLeTotal(a[1..], b[1..]);
    }
  }

  /** Inserting into a sorted sequence keeps it sorted; the result starts with `x` or the old head. */
  lemma {:induction false} InsertKeepsSorted(x: Shift, sorted: seq<Shift>)
    requires SortedShifts(sorted)
    ensures SortedShifts(InsertShiftSorted(x, sorted))
    ensures |InsertShiftSorted(x, sorted)| == |sorted| + 1
    ensures InsertShiftSorted(x, sorted)[0] == x || (sorted != [] && InsertShiftSorted(x, sorted)[0] == sorted[0])
  {
    if sorted != [] && !ShiftLe(x, sorted[0]) {
      var tail := sorted[1..];
      assert SortedShifts(tail) by {
        forall i | 0 < i < |tail|
          ensures ShiftLe(tail[i - 1], tail[i])
        {
          assert tail[i - 1] == sorted[i] && tail[i] == sorted[i + 1];
        }
      }
      InsertKeepsSorted(x, tail);
      TimeLeTotal(x.startTime, sorted[0].startTime);
      var r := InsertShiftSorted(x, sorted);
      assert r == [sorted[0]] + InsertShiftSorted(x, tail);
      forall i | 0 < i < |r|
        ensures ShiftLe(r[i - 1], r[i])
      {
        if i == 1 {
          assert r[1] == InsertShiftSorted(x, tail)[0];
          if r[1] != x {
            assert r[1] == sorted[1];
          }
        } else {
          assert r[i - 1] == InsertShiftSorted(x, tail)[i - 2] && r[i] == InsertShiftSorted(x, tail)[i - 1];
        }
      }
    }
  }

  /** The listing order: by date, then by start time. */
  lemma {:induction false} SortShiftsSorted(shifts: seq<Shift>)
    ensures SortedShifts(SortShifts(shifts))
  {
    if shifts != [] {
      SortShiftsSorted(shifts[1..]);
      InsertKeepsSorted(shifts[0], SortShifts(shifts[1..]));
    }
  }

  /** Sorting neither loses nor invents a row. */
  lemma SortKeepsMembers(shifts: seq<Shift>)
    ensures forall x :: x in SortShifts(shifts) <==> x in shifts
  {
    forall x
      ensures x in SortShifts(shifts) <==> x in shifts
    {
      assert x in SortShifts(shifts) <==> x in multiset(SortShifts(shifts));
    }
  }

  /** The rows `find` reads for a week date. */
  lemma FindRowsUnfold(t: Tables, day: Day)
    ensures FindRows(t, Some(Parsed(day)))
      == Ok(SortShifts(ShiftsDatedIn(t.shifts, StartOfWeek(day), StartOfWeek(day) + 6)))
  {
    var b := GetWeekBounds(Parsed(day));
    assert b == Ok(WeekBounds(StartOfWeek(day), StartOfWeek(day) + 6));
  }

  /**
   * `find` with a week date lists the shifts dated from that week's Monday to its
   * Sunday, each as often as it is stored, in (date, start time) order.
   */
  lemma FindRowsOfWeek(t: Tables, day: Day)
    ensures FindRows(t, Some(Parsed(day))).Ok?
    ensures SortedShifts(FindRows(t, Some(Parsed(day))).value)
    ensures multiset(FindRows(t, Some(Parsed(day))).value)
      == multiset(ShiftsDatedIn(t.shifts, StartOfWeek(day), StartOfWeek(day) + 6))
  {
    FindRowsUnfold(t, day);
    SortShiftsSorted(ShiftsDatedIn(t.shifts, StartOfWeek(day), StartOfWeek(day) + 6));
  }

  /** A shift is listed for a week exactly when it is dated in that week. */
  lemma FindRowsOfWeekMembers(t: Tables, day: Day)
    ensures FindRows(t, Some(Parsed(day))).Ok?
    ensures forall x :: x in FindRows(t, Some(Parsed(day))).value <==>
      x in t.shifts && StartOfWeek(day) <= x.date <= StartOfWeek(day) + 6
  {
    FindRowsUnfold(t, day);
    SortKeepsMembers(ShiftsDatedIn(t.shifts, StartOfWeek(day), StartOfWeek(day) + 6));
  }

  /** Without a week date, `find` lists every shift, each once, in (date, start time) order. */
  lemma FindRowsOfAll(t: Tables)
    ensures FindRows(t, None).Ok?
    ensures SortedShifts(FindRows(t, None).value)
    ensures multiset(FindRows(t, None).value) == multiset(t.shifts)
  {
    SortShiftsSorted(t.shifts);
  }

  // ---------------------------------------------------------------------------
  // Week rows under the shift use cases

  /** Every week row of `t` is still in `t2`, unchanged (in particular, never unpublished). */
  predicate WeekRowsKept(t: Tables, t2: Tables) {
    forall id | id in t.weeks :: id in t2.weeks && t2.weeks[id] == t.weeks[id]
  }

  /** `create` only ever adds a week row; it never changes one. */
  lemma CreateKeepsWeekRows(t: Tables, p: CreateShiftPayload)
    requires Consistent(t)
    ensures WeekRowsKept(t, CreateStep(t, p).tables)
  {
    if CalculateShiftInterval(p.date, p.startTime, p.endTime).Ok? {
      GetOrCreateWeekFacts(t, p.date.day);
      var got := GetOrCreateWeekStep(t, p.date.day);
      if !got.result.isPublished {
        var clash := FindClashingShift(got.tables.shifts, p.date, p.startTime, p.endTime, None);
        if clash.Err? {
        } else if clash.value.Some? && !p.ignoreClash {
        } else {
          assert CreateStep(t, p).tables.weeks == got.tables.weeks;
        }
      }
    }
  }

  /** `updateById` only ever adds a week row; it never changes one. */
  lemma UpdateKeepsWeekRows(t: Tables, id: ShiftId, p: UpdateShiftPayload)
    requires Consistent(t)
    ensures WeekRowsKept(t, UpdateStep(t, id, p).tables)
  {
    var existing := FindShiftById(t, id);
    if existing.Some? {
      var s := existing.value;
      if !(WeekOfShift(t, s).Some? && WeekOfShift(t, s).value.isPublished) {
        var m := Merge(p, s);
        if CalculateShiftInterval(m.date, m.startTime, m.endTime).Ok? {
          GetOrCreateWeekFacts(t, m.date.day);
          var got := GetOrCreateWeekStep(t, m.date.day);
          if !(got.result.isPublished && s.weekId != Some(got.result.id)) {
            var clash := FindClashingShift(got.tables.shifts, m.date, m.startTime, m.endTime, Some(id));
            if clash.Err? {
            } else if clash.value.Some? && !p.ignoreClash {
            } else {
              assert UpdateStep(t, id, p).tables.weeks == got.tables.weeks;
            }
          }
        }
      }
    }
  }
}
