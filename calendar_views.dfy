/** The calendar views over a store of the two tables. `EventStore` holds the event and
    reminder tables together with the next primary key the database will hand out; each
    method changes the tables step by step as the view does, and its contract ties the new
    tables to the functions of `EventService` and `ReminderService`. A transaction that
    raises is rolled back by restoring the tables read at its start. */
module CalendarViews {
  import opened Wrappers
  import opened Dates
  import opened CalendarModels
  import opened Forms
  import opened EventService
  import opened ReminderService

  /** Why `add_event` does not redirect to the new event: the user does not own the pet, a
      missing date, a missing title, a duplicate (the yearly branch names the start date), or
      an exception caught around the transaction. The "series not created" answer is absent:
      it cannot happen (see `CreateYearlyEventV2`). */
  datatype AddError = NotOwner | DateRequired | TitleRequired | Duplicate(on: Option<Date>) | AddFailed

  /** Why an edit is refused: no such event (404), the user does not own the pet, an
      unreadable date, Feb 29 for a yearly event, or an exception that ends the request (the
      transaction is rolled back). */
  datatype EditError = NotFound | NotOwner | InvalidDate | YearlyLeapDay | EditFailed

  /** `mark_done` answers 404 for an unknown event and refuses a user who does not own the pet. */
  datatype MarkError = NotFound | NotOwner

  /** `delete_event` answers 404 for an unknown event, refuses a user who does not own the
      pet, and refuses to delete only the head of a series. */
  datatype DeleteError = NotFound | NotOwner | HeadOnly

  /** A user of the site. */
  type UserId = int

  /** `check_pet_owner`: the user is one of the pet's owners. */
  predicate CheckPetOwner(user: UserId, owners: set<UserId>) {
    user in owners
  }

  /** The keys `from`, `from + 1`, ... handed out to `n` rows inserted one after another. */
  function IdRange(from: EventId, n: nat): (s: seq<EventId>)
    ensures |s| == n && forall i | 0 <= i < n :: s[i] == from + i
  {
    seq(n, i => from + i)
  }

  /** The rows `create_yearly_series` inserts into `events` when keys start at `base`. */
  ghost function SeriesRows(events: Table<Event>, base: EventId, pet: PetId, form: EventFormData, years: seq<int>): seq<Event>
    requires form.date.Some?
  {
    SeriesEvents(base, pet, form, PlanSeries(events, pet, form.title, form.date.value.month, form.date.value.day, years, None).dates)
  }

  /** The table after `create_yearly_series` has inserted all its rows. */
  ghost function SeriesTable(events: Table<Event>, base: EventId, pet: PetId, form: EventFormData, years: seq<int>): Table<Event>
    requires form.date.Some?
  {
    events + Numbered(base, SeriesRows(events, base, pet, form, years))
  }

  /** The table when `create_yearly_series` raises: only the head, if any, was saved. */
  ghost function SeriesHeadTable(events: Table<Event>, base: EventId, pet: PetId, form: EventFormData, years: seq<int>): Table<Event>
    requires form.date.Some?
  {
    var rows := SeriesRows(events, base, pet, form, years);
    events + Numbered(base, rows[..if rows == [] then 0 else 1])
  }

  /** `Prefixed(acc, r)` is `r` with `acc` put in front of a successful result. */
  function Prefixed(acc: seq<(EventId, Date)>, r: Result<seq<(EventId, Date)>, Raised>): (p: Result<seq<(EventId, Date)>, Raised>)
    ensures acc == [] ==> p == r
    ensures r.Err? <==> p.Err?
  {
    match r
    case Err(e) => Err(e)
    case Ok(rest) =>
      assert acc == [] ==> acc + rest == rest;
      Ok(acc + rest)
  }

  lemma PrefixedStep(acc: seq<(EventId, Date)>, x: (EventId, Date), r: Result<seq<(EventId, Date)>, Raised>)
    ensures Prefixed(acc, Prefixed([x], r)) == Prefixed(acc + [x], r)
  {
    if r.Ok? {
      assert acc + ([x] + r.value) == (acc + [x]) + r.value;
    }
  }

  /** One step of `AcceptedEdits` at position `i` of the list. */
  lemma AcceptedStep(events: Table<Event>, ids: seq<EventId>, i: nat, form: EventFormData, updateDate: bool, used: set<Date>)
    requires AllIn(ids, events) && i < |ids| && (updateDate ==> form.date.Some?)
    ensures AllIn(ids[i..], events) && AllIn(ids[i + 1..], events) && ids[i] in events
    ensures var ev := events[ids[i]];
      var a := AcceptedEdits(events, ids[i..], form, updateDate, used);
      match EditDate(ev, form, updateDate)
      case None => a.Err?
      case Some(nd) =>
        if nd in used || CheckDuplicate(events, ev.pet, form.title, nd, Some(ids[i])) then
          a == AcceptedEdits(events, ids[i + 1..], form, updateDate, used)
        else
          a == Prefixed([(ids[i], nd)], AcceptedEdits(events, ids[i + 1..], form, updateDate, used + {nd}))
  {
    assert ids[i..][0] == ids[i] && ids[i..][1..] == ids[i + 1..];
  }

  /** The years `_create_yearly_event_v2` asks for: the start year and the two after it. */
  function SeriesYears(d: Date, currentYear: int): seq<int> {
    var s := CalculateYearlyStartYear(d, currentYear).year;
    [s, s + 1, s + 2]
  }

  /** The date a new yearly event starts on: its month and day in the start year. */
  function StartDate(d: Date, currentYear: int): Result<Date, Raised> {
    GetSafeDate(CalculateYearlyStartYear(d, currentYear).year, d.month, d.day)
  }

  class EventStore {
    var events: Table<Event>
    var reminders: Table<Reminder>
    var nextId: EventId

    ghost predicate Valid()
      reads this
    {
      WellFormed(events, reminders, nextId)
    }

    constructor ()
      ensures Valid() && events == map[] && reminders == map[] && nextId == 1
    {
      events := map[];
      reminders := map[];
      nextId := 1;
    }

    /** `save()` of a new event: it is stored under the next free key. */
    method Insert(e: Event) returns (id: EventId)
      requires Valid() && IsValid(e.date)
      requires e.headRef.Some? ==> e.headRef.value in events && events[e.headRef.value].headRef.None?
      modifies this
      ensures Valid()
      ensures id == old(nextId) && id !in old(events) && nextId == id + 1
      ensures events == old(events)[id := e] && reminders == old(reminders)
    {
      InsertKeepsWellFormed(events, reminders, nextId, e);
      id := nextId;
      events := events[id := e];
      nextId := nextId + 1;
    }

    /** `bulk_create`: the rows are stored one after another under fresh keys. */
    method InsertAll(rows: seq<Event>)
      requires Valid()
      requires forall i | 0 <= i < |rows| :: IsValid(rows[i].date)
      requires forall i | 0 <= i < |rows| :: rows[i].headRef.Some? ==>
                 rows[i].headRef.value in events && events[rows[i].headRef.value].headRef.None?
      modifies this
      ensures Valid() && reminders == old(reminders)
      ensures events == old(events) + Numbered(old(nextId), rows) && nextId == old(nextId) + |rows|
    {
      var i := 0;
      while i < |rows|
        invariant 0 <= i <= |rows|
        invariant Valid() && reminders == old(reminders)
        invariant nextId == old(nextId) + i
        invariant forall k | k in old(events) :: k < old(nextId)
        invariant events == old(events) + Numbered(old(nextId), rows[..i])
      {
        InsertNext(old(events), old(nextId), rows, i);
        i := i + 1;
      }
      assert rows[..i] == rows;
    }

    /** `create_yearly_series`: for each year, in order, the form's month and day in that year
        (Feb 29 falling back to Feb 28) unless it is taken; the first free date is saved at
        once as the head, the later ones wait and are inserted after the loop as its
        continuations. Err is the ValueError of a year outside the calendar, raised mid-way:
        by then the head, if any, is saved. */
    method CreateYearlySeries(pet: PetId, form: EventFormData, years: seq<int>)
      returns (r: Result<(Option<EventId>, seq<EventId>), Raised>)
      requires Valid() && form.date.Some?
      modifies this
      ensures Valid() && reminders == old(reminders) && nextId >= old(nextId)
      ensures r.Err? <==> PlanSeries(old(events), pet, form.title, form.date.value.month, form.date.value.day, years, None).raised
      ensures r.Ok? ==> events == SeriesTable(old(events), old(nextId), pet, form, years)
      ensures r.Ok? ==> var n := |SeriesRows(old(events), old(nextId), pet, form, years)|;
        (n == 0 ==> r.value == (None, []))
        && (n > 0 ==> r.value == (Some(old(nextId)), IdRange(old(nextId) + 1, n - 1)))
      ensures r.Err? ==> events == SeriesHeadTable(old(events), old(nextId), pet, form, years)
    {
      ghost var E := events;
      var base := nextId;
      var raised, head, pending, dates := SeriesLoop(pet, form, years);
      ghost var rows := SeriesRows(E, base, pet, form, years);
      assert rows == SeriesEvents(base, pet, form, dates);
      if raised {
        assert events == SeriesHeadTable(E, base, pet, form, years) by {
          if dates != [] {
            SeriesHeadRow(E, base, pet, form, dates);
          } else {
            assert events == E + Numbered(base, []);
          }
        }
        return Err(ValueError);
      }
      if head.Some? {
        SaveContinuations(E, base, pet, form, dates, pending);
      } else {
        assert events == E + Numbered(base, rows);
      }
      r := Ok((head, IdRange(base + 1, |pending|)));
    }

    /** The loop of `create_yearly_series` up to the `bulk_create`: the dates it settles on
        are those of the plan, the head is saved, the continuations wait in `pending`. */
    method SeriesLoop(pet: PetId, form: EventFormData, years: seq<int>)
      returns (raised: bool, head: Option<EventId>, pending: seq<Event>, ghost dates: seq<Date>)
      requires Valid() && form.date.Some?
      modifies this
      ensures Valid() && reminders == old(reminders)
      ensures var plan := PlanSeries(old(events), pet, form.title, form.date.value.month, form.date.value.day, years, None);
        plan.dates == dates && plan.raised == raised
      ensures forall j | 0 <= j < |dates| :: IsValid(dates[j])
      ensures head == (if dates == [] then None else Some(old(nextId)))
      ensures dates == [] ==> events == old(events) && nextId == old(nextId) && pending == []
      ensures dates != [] ==> events == old(events)[old(nextId) := SeriesEvent(pet, form, dates[0], None)]
                              && nextId == old(nextId) + 1 && |pending| == |dates| - 1
      ensures forall j | 0 <= j < |pending| :: pending[j] == SeriesEvent(pet, form, dates[j + 1], Some(old(nextId)))
    {
      var m, d := form.date.value.month, form.date.value.day;
      ghost var E := events;
      var base := nextId;
      head := None;
      var headDate: Option<Date> := None;
      pending := [];
      dates := [];
      var i := 0;
      while i < |years|
        invariant 0 <= i <= |years|
        invariant Valid() && reminders == old(reminders)
        invariant E == old(events) && base == old(nextId)
        invariant forall k | k in E :: k < base
        invariant PlanProgress(E, pet, form, years, i, dates, headDate)
        invariant head == (if dates == [] then None else Some(base))
        invariant dates == [] ==> events == E && nextId == base && pending == []
        invariant dates != [] ==> events == E[base := SeriesEvent(pet, form, dates[0], None)] && nextId == base + 1
        invariant dates != [] ==> |pending| == |dates| - 1
        invariant forall j | 0 <= j < |pending| :: pending[j] == SeriesEvent(pet, form, dates[j + 1], Some(base))
      {
        var sd := GetSafeDate(years[i], m, d);
        if sd.Err? {
          PlanStopped(E, pet, form, years, i, dates, headDate);
          return true, head, pending, dates;
        }
        var dt := sd.value;
        var taken := CheckDuplicate(events, pet, form.title, dt, None);
        assert taken == Taken(E, pet, form.title, dt, headDate) by {
          if dates != [] {
            HeadDuplicate(E, base, SeriesEvent(pet, form, dates[0], None), pet, form.title, dt);
          }
        }
        PlanAdvance(E, pet, form, years, i, dates, headDate);
        if !taken {
          var ev := SeriesEvent(pet, form, dt, head);
          if head.None? {
            var id := Insert(ev);
            head := Some(id);
            headDate := Some(dt);
          } else {
            pending := pending + [ev];
          }
          dates := dates + [dt];
        }
        i := i + 1;
      }
      PlanFinished(E, pet, form, years, dates, headDate);
      raised := false;
    }

    /** The `bulk_create` that ends `create_yearly_series`: the waiting continuations are
        inserted after the head saved in the loop, which makes the table hold all the series
        rows. */
    method SaveContinuations(ghost before: Table<Event>, base: EventId, pet: PetId, form: EventFormData,
                             ghost dates: seq<Date>, pending: seq<Event>)
      requires Valid() && dates != [] && |pending| == |dates| - 1
      requires events == before[base := SeriesEvent(pet, form, dates[0], None)] && nextId == base + 1
      requires forall j | 0 <= j < |dates| :: IsValid(dates[j])
      requires forall j | 0 <= j < |pending| :: pending[j] == SeriesEvent(pet, form, dates[j + 1], Some(base))
      modifies this
      ensures Valid() && reminders == old(reminders) && nextId == base + |dates|
      ensures events == before + Numbered(base, SeriesEvents(base, pet, form, dates))
    {
      SeriesAssembled(before, base, pet, form, dates, pending);
      if pending != [] {
        PendingInsertable(before, base, pet, form, dates, pending);
        InsertAll(pending);
      } else {
        assert SeriesEvents(base, pet, form, dates)[..1] == SeriesEvents(base, pet, form, dates);
      }
    }

    /** `create_single_event`: the form's event is saved under the next free key. */
    method CreateSingleEvent(pet: PetId, form: EventFormData) returns (id: EventId)
      requires Valid() && form.date.Some? && IsValid(form.date.value)
      modifies this
      ensures Valid() && reminders == old(reminders)
      ensures id == old(nextId) && id !in old(events) && nextId == id + 1
      ensures events == old(events)[id := SingleEvent(pet, form)]
    {
      id := Insert(SingleEvent(pet, form));
    }

    /** The first loop of `update_events`: each listed event's new date is computed and the
        event is kept unless that date was claimed earlier in the batch or is taken by another
        event. Nothing is written. */
    method CollectEdits(ids: seq<EventId>, form: EventFormData, updateDate: bool) returns (r: Result<seq<(EventId, Date)>, Raised>)
      requires AllIn(ids, events) && (updateDate ==> form.date.Some?)
      ensures r == AcceptedEdits(events, ids, form, updateDate, {})
    {
      var used: set<Date> := {};
      var edits: seq<(EventId, Date)> := [];
      var i := 0;
      while i < |ids|
        invariant 0 <= i <= |ids|
        invariant AcceptedEdits(events, ids, form, updateDate, {})
                  == Prefixed(edits, AcceptedEdits(events, ids[i..], form, updateDate, used))
      {
        AcceptedStep(events, ids, i, form, updateDate, used);
        var ev := events[ids[i]];
        var nd := EditDate(ev, form, updateDate);
        if nd.None? {
          return Err(ValueError);
        }
        if !(nd.value in used || CheckDuplicate(events, ev.pet, form.title, nd.value, Some(ids[i]))) {
          PrefixedStep(edits, (ids[i], nd.value), AcceptedEdits(events, ids[i + 1..], form, updateDate, used + {nd.value}));
          used := used + {nd.value};
          edits := edits + [(ids[i], nd.value)];
        }
        i := i + 1;
      }
      assert ids[i..] == [];
      assert edits + [] == edits;
      r := Ok(edits);
    }

    /** `bulk_update` of the accepted edits: each edited event gets the form's fields over the
        version read before the batch. */
    method WriteEdits(edits: seq<(EventId, Date)>, form: EventFormData)
      requires Valid()
      requires forall k | 0 <= k < |edits| :: edits[k].0 in events && IsValid(edits[k].1)
      modifies this
      ensures Valid() && reminders == old(reminders) && nextId == old(nextId)
      ensures events == ApplyEdits(old(events), edits, form)
    {
      var before := events;
      var j := 0;
      while j < |edits|
        invariant 0 <= j <= |edits|
        invariant Valid() && reminders == old(reminders) && nextId == old(nextId)
        invariant events == ApplyEdits(before, edits[..j], form)
      {
        var (id, nd) := edits[j];
        var e := Edited(before[id], form, nd);
        ReplaceKeepsWellFormed(events, reminders, nextId, id, e);
        events := events[id := e];
        assert edits[..j + 1][..j] == edits[..j];
        j := j + 1;
      }
      assert edits[..j] == edits;
    }

    /** `update_events`: the accepted edits are collected against the unchanged table, then
        written back together. Err is the ValueError of an event whose year lacks the form's
        day; nothing is written then. Returns the edited events in order. */
    method UpdateEvents(ids: seq<EventId>, form: EventFormData, updateDate: bool) returns (r: Result<seq<EventId>, Raised>)
      requires Valid() && AllIn(ids, events) && (updateDate ==> form.date.Some?)
      modifies this
      ensures Valid() && reminders == old(reminders) && nextId == old(nextId)
      ensures var spec := AcceptedEdits(old(events), ids, form, updateDate, {});
        (r.Err? <==> spec.Err?)
        && (r.Err? ==> events == old(events))
        && (r.Ok? ==> r.value == Firsts(spec.value) && events == UpdatedTable(old(events), ids, form, updateDate))
    {
      var edits := CollectEdits(ids, form, updateDate);
      if edits.Err? {
        return Err(ValueError);
      }
      EditsSound(events, ids, form, updateDate, {});
      forall k | 0 <= k < |edits.value|
        ensures IsValid(edits.value[k].1)
      {
        ValidAt(events, edits.value[k].0);
      }
      WriteEdits(edits.value, form);
      r := Ok(Firsts(edits.value));
    }

    /** `save_reminder`: nothing without a reminder time; otherwise the event's reminder is
        fetched or created (for the event's pet) and given every setting from the form. Err is
        the ValueError of a date moved into the event's year where that day does not exist;
        the created row is then left in place for the caller's transaction to roll back. */
    method SaveReminder(id: EventId, data: ReminderFormData, adjust: bool) returns (r: Result<Option<Reminder>, Raised>)
      requires Valid() && id in events
      modifies this
      ensures Valid() && events == old(events) && nextId == old(nextId)
      ensures data.remindAt.None? ==> r == Ok(None) && reminders == old(reminders)
      ensures data.remindAt.Some? ==>
        var s := SavedReminder(Lookup(old(reminders), id), events[id], data, adjust);
        (r.Err? <==> s.Err?)
        && (r.Err? ==> reminders.Keys == old(reminders).Keys + {id})
        && (r.Ok? ==> r == Ok(Some(s.value)) && reminders == old(reminders)[id := s.value])
    {
      if data.remindAt.None? {
        return Ok(None);
      }
      var ev := events[id];
      var rem: Reminder;
      if id in reminders {
        rem := reminders[id];
      } else {
        // The columns other than the pet take the model's defaults.
        rem := Reminder(ev.pet, None, None, false, [], 1);
        reminders := reminders[id := rem];
      }
      rem := rem.(remindAt := data.remindAt, repeat := data.repeat, repeatDays := data.repeatDays,
                  repeatEvery := data.repeatEvery);
      if data.remindDate.Some? && !data.repeat {
        if adjust {
          var nd := MakeDate(ev.date.year, data.remindDate.value.month, data.remindDate.value.day);
          if nd.None? {
            return Err(ValueError);
          }
          rem := rem.(remindDate := nd);
        } else {
          rem := rem.(remindDate := data.remindDate);
        }
      } else {
        rem := rem.(remindDate := None);
      }
      reminders := reminders[id := rem];
      r := Ok(Some(rem));
    }

    /** `save_reminders_for_events`: the reminder of each listed event is saved in turn with
        its date moved into that event's year; returns the saved reminders. On Err the saves
        made so far stay for the caller's transaction to roll back. */
    method SaveRemindersForEvents(ids: seq<EventId>, data: ReminderFormData) returns (r: Result<seq<Reminder>, Raised>)
      requires Valid() && AllIn(ids, events)
      modifies this
      ensures Valid() && events == old(events) && nextId == old(nextId)
      ensures var s := SaveAll(old(reminders), events, ids, data);
        (r.Err? <==> s.Err?)
        && (r.Ok? ==> reminders == s.value && |r.value| == SavedCount(ids, data))
      ensures r.Ok? && data.remindAt.Some? ==>
        forall k | 0 <= k < |ids| :: ids[k] in reminders && r.value[k] == reminders[ids[k]]
    {
      ghost var spec := SaveAll(reminders, events, ids, data);
      var saved: seq<Reminder> := [];
      var i := 0;
      while i < |ids|
        invariant 0 <= i <= |ids|
        invariant Valid() && events == old(events) && nextId == old(nextId)
        invariant AllIn(ids[i..], events)
        invariant spec == SaveAll(reminders, events, ids[i..], data)
        invariant |saved| == SavedCount(ids[..i], data)
        // Each reminder saved so far is the one now stored for its event, and saving it once
        // more stores it unchanged, so a repeated id leaves the earlier entries right.
        invariant data.remindAt.Some? ==>
          forall k | 0 <= k < i :: ids[k] in reminders && saved[k] == reminders[ids[k]]
            && SavedReminder(Some(saved[k]), events[ids[k]], data, true) == Ok(saved[k])
      {
        assert ids[i..][0] == ids[i] && ids[i..][1..] == ids[i + 1..];
        ghost var before := Lookup(reminders, ids[i]);
        var one := SaveReminder(ids[i], data, true);
        if one.Err? {
          return Err(ValueError);
        }
        if one.value.Some? {
          SaveReminderIdempotent(before, events[ids[i]], data, true);
          saved := saved + [one.value.value];
        }
        i := i + 1;
      }
      return Ok(saved);
    }

    /** `_create_yearly_event_v2`: the series starts on the form's month and day in the start
        year; it is refused when that date is taken, else the start year and the two after it
        are created and every created event gets the reminder. Err(AddFailed) is an exception
        (a start year or a later year outside the calendar, or a reminder date missing from
        some year); what was written then is for the caller's transaction to roll back. The
        "series not created" answer of the view is unreachable: the start date is free, so the
        first year always becomes the head. */
    method CreateYearlyEventV2(pet: PetId, form: EventFormData, rd: ReminderFormData, currentYear: int)
      returns (r: Result<seq<EventId>, AddError>)
      requires Valid() && form.date.Some? && IsValid(form.date.value)
      modifies this
      ensures Valid() && nextId >= old(nextId)
      ensures StartDate(form.date.value, currentYear).Err? ==>
                r == Err(AddFailed) && events == old(events) && reminders == old(reminders)
      ensures var sd := StartDate(form.date.value, currentYear);
        sd.Ok? && CheckDuplicate(old(events), pet, form.title, sd.value, None) ==>
          r == Err(Duplicate(Some(sd.value))) && events == old(events) && reminders == old(reminders)
      ensures var sd := StartDate(form.date.value, currentYear);
        var years := SeriesYears(form.date.value, currentYear);
        sd.Ok? && !CheckDuplicate(old(events), pet, form.title, sd.value, None) ==>
          (r.Err? <==> YearlyRaises(old(events), old(reminders), old(nextId), pet, form, rd, years))
          && (r.Err? ==> r == Err(AddFailed))
          && (r.Ok? ==> r.value == SeriesIds(old(events), old(nextId), pet, form, years)
                        && events == SeriesTable(old(events), old(nextId), pet, form, years)
                        && reminders == YearlyReminders(old(events), old(reminders), old(nextId), pet, form, rd, years))
    {
      var sd := StartDate(form.date.value, currentYear);
      if sd.Err? {
        return Err(AddFailed);
      }
      if CheckDuplicate(events, pet, form.title, sd.value, None) {
        return Err(Duplicate(Some(sd.value)));
      }
      var years := SeriesYears(form.date.value, currentYear);
      ghost var E, base := events, nextId;
      YearlyHeadOnStart(E, base, pet, form, currentYear);
      var made := CreateYearlySeries(pet, form, years);
      if made.Err? {
        return Err(AddFailed);
      }
      var (head, conts) := made.value;
      if head.None? {
        // The start date is free, so the first requested year became the head.
        assert false;
      }
      var ids := [head.value] + conts;
      assert ids == SeriesIds(E, base, pet, form, years) && AllIn(ids, events) by {
        SeriesIdsHeld(E, base, pet, form, years, head.value, conts);
      }
      var saved := SaveRemindersForEvents(ids, rd);
      if saved.Err? {
        return Err(AddFailed);
      }
      r := Ok(ids);
    }

    /** `_create_single_event_v2`: refused when the form's date is taken; otherwise the event
        is saved and given the reminder exactly as submitted. Neither step can raise. */
    method CreateSingleEventV2(pet: PetId, form: EventFormData, rd: ReminderFormData)
      returns (r: Result<EventId, AddError>)
      requires Valid() && form.date.Some? && IsValid(form.date.value)
      modifies this
      ensures Valid() && nextId >= old(nextId)
      ensures r.Err? <==> CheckDuplicate(old(events), pet, form.title, form.date.value, None)
      ensures r.Err? ==> r == Err(Duplicate(None)) && events == old(events) && reminders == old(reminders)
      ensures r.Ok? ==> r.value == old(nextId) && SingleAdded(old(events), old(reminders), old(nextId), pet, form, rd, events, reminders)
    {
      if CheckDuplicate(events, pet, form.title, form.date.value, None) {
        return Err(Duplicate(None));
      }
      var id := CreateSingleEvent(pet, form);
      assert Lookup(old(reminders), id) == None;
      var saved := SaveReminder(id, rd, false);
      r := Ok(id);
    }

    /** The submission part of `add_event`: the owner check, the two required fields, then
        the yearly or the single creation inside a transaction. On success the date the
        calendar is opened at is returned: the head's date or the event's. */
    method AddEvent(pet: PetId, user: UserId, owners: set<UserId>, post: Post, currentYear: int)
      returns (r: Result<Date, AddError>)
      requires Valid()
      modifies this
      ensures Valid() && nextId >= old(nextId)
      ensures r.Err? ==> events == old(events) && reminders == old(reminders)
      ensures r == Err(AddError.NotOwner) <==> !CheckPetOwner(user, owners)
      ensures var form := EventFormFromPost(post);
        CheckPetOwner(user, owners) ==>
          (r == Err(DateRequired) <==> form.date.None?)
          && (form.date.Some? ==> (r == Err(TitleRequired) <==> form.title == []))
      ensures var form := EventFormFromPost(post);
        CheckPetOwner(user, owners) && form.date.Some? && form.title != [] && form.isYearly ==>
          YearlyAddOutcome(old(events), old(reminders), old(nextId), pet, form, ReminderFormFromPost(post), currentYear,
                           r, events, reminders)
      ensures var form := EventFormFromPost(post);
        CheckPetOwner(user, owners) && form.date.Some? && form.title != [] && !form.isYearly ==>
          SingleAddOutcome(old(events), old(reminders), old(nextId), pet, form, ReminderFormFromPost(post), r, events, reminders)
    {
      if !CheckPetOwner(user, owners) {
        return Err(AddError.NotOwner);
      }
      var form := EventFormFromPost(post);
      var rd := ReminderFormFromPost(post);
      if form.date.None? {
        return Err(DateRequired);
      }
      if form.title == [] {
        return Err(TitleRequired);
      }
      if form.isYearly {
        r := AddYearly(pet, form, rd, currentYear);
      } else {
        r := AddSingle(pet, form, rd);
      }
    }

    /** The yearly branch of `add_event` in its transaction: an exception rolls the tables
        back (the keys handed out meanwhile stay used) and is reported. */
    method AddYearly(pet: PetId, form: EventFormData, rd: ReminderFormData, currentYear: int)
      returns (r: Result<Date, AddError>)
      requires Valid() && form.date.Some? && IsValid(form.date.value)
      modifies this
      ensures Valid() && nextId >= old(nextId)
      ensures r.Err? ==> events == old(events) && reminders == old(reminders)
      ensures YearlyAddOutcome(old(events), old(reminders), old(nextId), pet, form, rd, currentYear, r, events, reminders)
    {
      var E, R, N := events, reminders, nextId;
      var made := CreateYearlyEventV2(pet, form, rd, currentYear);
      if made.Err? {
        if made.error == AddFailed {
          WellFormedLater(E, R, N, nextId);
          events, reminders := E, R;
        }
        YearlyRefused(E, R, N, pet, form, rd, currentYear, made.error);
        return Err(made.error);
      }
      ghost var rows := SeriesRows(E, N, pet, form, SeriesYears(form.date.value, currentYear));
      YearlyHeadOnStart(E, N, pet, form, currentYear);
      assert made.value[0] == N && events[N] == Numbered(N, rows)[N] == rows[0];
      r := Ok(events[made.value[0]].date);
    }

    /** The single-event branch of `add_event` in its transaction. */
    method AddSingle(pet: PetId, form: EventFormData, rd: ReminderFormData)
      returns (r: Result<Date, AddError>)
      requires Valid() && form.date.Some? && IsValid(form.date.value)
      modifies this
      ensures Valid() && nextId >= old(nextId)
      ensures r.Err? ==> events == old(events) && reminders == old(reminders)
      ensures SingleAddOutcome(old(events), old(reminders), old(nextId), pet, form, rd, r, events, reminders)
    {
      var made := CreateSingleEventV2(pet, form, rd);
      if made.Err? {
        return Err(made.error);
      }
      r := Ok(form.date.value);
    }

    /** The POST part of `edit_event`: the owner check, then the birthday edit for a birthday
        event and the regular edit otherwise. `listing` is the event's series as
        `get_series_events` returns it, `birthdays` the pet's yearly birthday events as the
        birthday query returns them. */
    method EditEvent(id: EventId, user: UserId, owners: set<UserId>, post: Post,
                     listing: seq<EventId>, birthdays: seq<EventId>)
      returns (r: Result<(), EditError>)
      requires Valid() && AllIn(listing, events) && AllIn(birthdays, events)
      requires id in events ==> IsSeriesListing(events, id, listing)
                                && ListsExactly(birthdays, BirthdaySeries(events, events[id].pet))
      modifies this
      ensures Valid() && nextId == old(nextId)
      ensures r.Err? ==> events == old(events) && reminders == old(reminders)
      ensures r == Err(EditError.NotFound) <==> id !in old(events)
      ensures r == Err(EditError.NotOwner) <==> id in old(events) && !CheckPetOwner(user, owners)
      ensures id in old(events) && CheckPetOwner(user, owners) && old(events)[id].eventType == "birthday" ==>
        BirthdayEditOutcome(old(events), old(reminders), BirthdayTargets(id, Ticked(post, "apply_to_all"), birthdays),
                            post, ReminderFormFromPost(post), r, events, reminders)
      ensures id in old(events) && CheckPetOwner(user, owners) && old(events)[id].eventType != "birthday" ==>
        RegularEditOutcome(old(events), old(reminders), post, ReminderFormFromPost(post),
                           EditTargets(old(events), id, Ticked(post, "apply_to_all"), listing), r, events, reminders)
    {
      if id !in events {
        return Err(EditError.NotFound);
      }
      if !CheckPetOwner(user, owners) {
        return Err(EditError.NotOwner);
      }
      var rd := ReminderFormFromPost(post);
      var applyToAll := Ticked(post, "apply_to_all");
      if events[id].eventType == "birthday" {
        r := HandleBirthdayEdit(id, post, rd, applyToAll, birthdays);
      } else {
        r := HandleRegularEventEdit(id, post, rd, applyToAll, listing);
      }
    }

    /** `_handle_birthday_edit`: the time, duration and note from the form are written to the
        event, or to all the pet's yearly birthday events, and each gets the reminder; the
        transaction is rolled back when a reminder raises. */
    method HandleBirthdayEdit(id: EventId, post: Post, rd: ReminderFormData, applyToAll: bool, birthdays: seq<EventId>)
      returns (r: Result<(), EditError>)
      requires Valid() && id in events && AllIn(birthdays, events)
      modifies this
      ensures Valid() && nextId == old(nextId)
      ensures r.Err? ==> events == old(events) && reminders == old(reminders)
      ensures BirthdayEditOutcome(old(events), old(reminders), BirthdayTargets(id, applyToAll, birthdays), post, rd, r, events, reminders)
    {
      var time := ParseTime(Get(post, "time"));
      var duration := ParseInt(Get(post, "duration"));
      var note := GetOr(post, "note", "");
      var targets := BirthdayTargets(id, applyToAll, birthdays);
      var E, R := events, reminders;
      RetimeAll(targets, time, duration, note);
      var saved := SaveRemindersForEvents(targets, rd);
      if saved.Err? {
        events, reminders := E, R;
        return Err(EditFailed);
      }
      r := Ok(());
    }

    /** The loop of `_handle_birthday_edit`: each target gets the new time, duration and note
        and is saved. */
    method RetimeAll(targets: seq<EventId>, time: Option<Time>, duration: Option<int>, note: string)
      requires Valid() && AllIn(targets, events)
      modifies this
      ensures Valid() && reminders == old(reminders) && nextId == old(nextId)
      ensures events == Retimes(old(events), targets, time, duration, note)
    {
      var E := events;
      var i := 0;
      while i < |targets|
        invariant 0 <= i <= |targets|
        invariant Valid() && reminders == old(reminders) && nextId == old(nextId)
        invariant events == Retimes(E, targets[..i], time, duration, note)
      {
        var k := targets[i];
        ReplaceKeepsWellFormed(events, reminders, nextId, k, Retimed(E[k], time, duration, note));
        events := events[k := Retimed(E[k], time, duration, note)];
        RetimesStep(E, targets, i, time, duration, note);
        i := i + 1;
      }
      assert targets[..i] == targets;
    }

    /** `_handle_regular_event_edit`: an unreadable date and a yearly Feb 29 are refused;
        otherwise the event, or its whole series when asked and the event is yearly, is
        updated and each updated event gets the reminder. An exception rolls the transaction
        back and ends the request. */
    method HandleRegularEventEdit(id: EventId, post: Post, rd: ReminderFormData, applyToAll: bool, listing: seq<EventId>)
      returns (r: Result<(), EditError>)
      requires Valid() && id in events && AllIn(listing, events)
      modifies this
      ensures Valid() && nextId == old(nextId)
      ensures r.Err? ==> events == old(events) && reminders == old(reminders)
      ensures RegularEditOutcome(old(events), old(reminders), post, rd,
                                 EditTargets(old(events), id, applyToAll, listing), r, events, reminders)
    {
      var form := EventFormFromPost(post);
      if form.date.None? {
        return Err(InvalidDate);
      }
      if form.isYearly && form.date.value.month == 2 && form.date.value.day == 29 {
        return Err(YearlyLeapDay);
      }
      var targets := EditTargets(events, id, applyToAll, listing);
      var E, R := events, reminders;
      r := UpdateWithReminders(targets, form, rd);
      RegularOutcomeOfUpdate(E, R, post, rd, targets, r, events, reminders);
    }

    /** The transaction of `_handle_regular_event_edit`: `update_events`, then
        `save_reminders_for_events` for the events it returns; an exception rolls both back. */
    method UpdateWithReminders(targets: seq<EventId>, form: EventFormData, rd: ReminderFormData)
      returns (r: Result<(), EditError>)
      requires Valid() && AllIn(targets, events) && form.date.Some?
      modifies this
      ensures Valid() && nextId == old(nextId)
      ensures r.Err? ==> events == old(events) && reminders == old(reminders)
      ensures var spec := AcceptedEdits(old(events), targets, form, true, {});
        (spec.Err? ==> r == Err(EditFailed))
        && (spec.Ok? ==> EditsWritten(old(events), old(reminders), form, rd, targets, r, events, reminders))
    {
      var E, R := events, reminders;
      var updated := UpdateEvents(targets, form, true);
      if updated.Err? {
        return Err(EditFailed);
      }
      EditedIdsInTable(E, targets, form);
      var saved := SaveRemindersForEvents(updated.value, rd);
      if saved.Err? {
        events, reminders := E, R;
        return Err(EditFailed);
      }
      r := Ok(());
    }

    /** `mark_done`: the event is saved as done in the current year. */
    method MarkDone(id: EventId, user: UserId, owners: set<UserId>, currentYear: int)
      returns (r: Result<(), MarkError>)
      requires Valid()
      modifies this
      ensures Valid() && nextId == old(nextId) && reminders == old(reminders)
      ensures r == Err(MarkError.NotFound) <==> id !in old(events)
      ensures r == Err(MarkError.NotOwner) <==> id in old(events) && !CheckPetOwner(user, owners)
      ensures r.Err? ==> events == old(events)
      ensures r.Ok? ==> id in old(events) && events == old(events)[id := MarkedDone(old(events)[id], currentYear)]
    {
      if id !in events {
        return Err(MarkError.NotFound);
      }
      if !CheckPetOwner(user, owners) {
        return Err(MarkError.NotOwner);
      }
      ReplaceKeepsWellFormed(events, reminders, nextId, id, MarkedDone(events[id], currentYear));
      events := events[id := MarkedDone(events[id], currentYear)];
      r := Ok(());
    }

    /** The POST part of `delete_event`: the head of a series is deleted only together with
        the whole series; delete-all on a yearly event deletes the pet's yearly events with
        its title; otherwise the event alone is deleted. The database also deletes the
        continuations of a deleted head and the reminders of deleted events. */
    method DeleteEvent(id: EventId, user: UserId, owners: set<UserId>, post: Post)
      returns (r: Result<(), DeleteError>)
      requires Valid()
      modifies this
      ensures Valid() && nextId == old(nextId)
      ensures r == Err(DeleteError.NotFound) <==> id !in old(events)
      ensures r == Err(DeleteError.NotOwner) <==> id in old(events) && !CheckPetOwner(user, owners)
      ensures r == Err(HeadOnly) <==>
        id in old(events) && CheckPetOwner(user, owners) && IsSeriesOriginal(old(events), id) && !Ticked(post, "delete_all")
      ensures r.Err? ==> events == old(events) && reminders == old(reminders)
      ensures r.Ok? ==> (id in old(events)
        && events == Survivors(old(events), DeleteTargets(old(events), id, Ticked(post, "delete_all")))
        && reminders == RemainingReminders(old(reminders), events))
    {
      if id !in events {
        return Err(DeleteError.NotFound);
      }
      if !CheckPetOwner(user, owners) {
        return Err(DeleteError.NotOwner);
      }
      var deleteAll := Ticked(post, "delete_all");
      if IsSeriesOriginal(events, id) && !deleteAll {
        return Err(HeadOnly);
      }
      var doomed := DeleteTargets(events, id, deleteAll);
      DeleteKeepsWellFormed(events, reminders, nextId, doomed);
      events := Survivors(events, doomed);
      reminders := RemainingReminders(reminders, events);
      r := Ok(());
    }

    /** `create_next_year_events`: every yearly event of last year (`listing`, in the order of
        the query) gets a continuation two years ahead, unless its pet already has an event
        with that title on that date. It returns how many were created; outside the years a
        date can have, the first source raises. */
    method CreateNextYearEvents(currentYear: int, listing: seq<EventId>) returns (r: Result<nat, Raised>)
      requires Valid() && ListsExactly(listing, RolloverSources(events, currentYear))
      modifies this
      ensures Valid() && reminders == old(reminders) && nextId >= old(nextId)
      ensures r.Err? <==> listing != [] && !(MinYear <= currentYear + 2 <= MaxYear)
      ensures r.Err? ==> events == old(events)
      ensures r.Ok? && listing == [] ==> events == old(events) && r.value == 0
      ensures r.Ok? && listing != [] ==>
        MinYear <= currentYear + 2 <= MaxYear && AllIn(listing, old(events)) && DatesValid(old(events))
        && events == AfterRollover(old(events), old(nextId), listing, currentYear + 2)
        && r.value == |RolloverCreated(old(events), listing, currentYear + 2, [])|
    {
      var target := currentYear + 2;
      var inRange := MinYear <= target <= MaxYear;
      ghost var E, N := events, nextId;
      ghost var made: seq<Event> := [];
      assert AllIn(listing, E) by { SourcesInTable(E, currentYear, listing); }
      NumberedNone(E, N);
      if inRange {
        assert listing[0..] == listing;
      }
      var count := 0;
      var created := false;
      var i := 0;
      while i < |listing|
        invariant 0 <= i <= |listing|
        invariant Valid() && reminders == old(reminders)
        invariant events == E + Numbered(N, made) && nextId == N + |made| && count == |made|
        invariant !inRange ==> i == 0 && made == []
        invariant inRange ==> RolloverCreated(E, listing, target, []) == made + RolloverCreated(E, listing[i..], target, made)
      {
        var k := listing[i];
        NumberedAbove(E, N, made, k);
        var src := events[k];
        assert k in listing;
        ValidAt(E, k);
        var nd := GetSafeDate(target, src.date.month, src.date.day);
        if nd.Err? {
          if inRange {
            SafeDateOfMonthDay(src.date, target);
          }
          return Err(ValueError);
        }
        assert inRange by {
          if !inRange { SafeDateOutOfRange(target, src.date.month, src.date.day); }
        }
        created, made := RolloverSource(E, old(reminders), N, made, listing, i, target, nd.value);
        if created {
          count := count + 1;
        }
        i := i + 1;
      }
      if inRange {
        assert listing[i..] == [];
        assert made + [] == made;
      }
      r := Ok(count);
    }

    /** `Insert` of one more row after the rows `rows` already inserted from key `base` on. */
    method InsertNumbered(ghost before: Table<Event>, ghost base: EventId, ghost rows: seq<Event>, e: Event)
      requires Valid() && IsValid(e.date) && (forall k | k in before :: k < base)
      requires events == before + Numbered(base, rows) && nextId == base + |rows|
      requires e.headRef.Some? ==> e.headRef.value in events && events[e.headRef.value].headRef.None?
      modifies this
      ensures Valid() && reminders == old(reminders)
      ensures events == before + Numbered(base, rows + [e]) && nextId == base + |rows| + 1
    {
      NumberedPush(before, base, rows, e);
      var id := Insert(e);
    }

    /** The `i`-th of the rows inserted from key `base` on. */
    method InsertNext(ghost before: Table<Event>, ghost base: EventId, rows: seq<Event>, i: nat)
      requires Valid() && i < |rows| && IsValid(rows[i].date) && (forall k | k in before :: k < base)
      requires events == before + Numbered(base, rows[..i]) && nextId == base + i
      requires rows[i].headRef.Some? ==> rows[i].headRef.value in before && before[rows[i].headRef.value].headRef.None?
      requires rows[i].headRef.Some? ==> rows[i].headRef.value < base
      modifies this
      ensures Valid() && reminders == old(reminders)
      ensures events == before + Numbered(base, rows[..i + 1]) && nextId == base + i + 1
    {
      if rows[i].headRef.Some? {
        NumberedAbove(before, base, rows[..i], rows[i].headRef.value);
      }
      InsertNumbered(before, base, rows[..i], rows[i]);
      NumberedTake(before, base, rows, i);
    }

    /** One source of the rollover, whose target date `nd` exists: the continuation is saved
        unless the date is already taken for the pet and title, in the table or by a row
        created earlier in the run (`made`). */
    method RolloverSource(ghost E: Table<Event>, ghost R: Table<Reminder>, ghost N: EventId, ghost made: seq<Event>,
                          listing: seq<EventId>, i: nat, target: int, nd: Date)
      returns (created: bool, ghost made': seq<Event>)
      requires Valid() && WellFormed(E, R, N) && AllIn(listing, E) && MinYear <= target <= MaxYear && i < |listing|
      requires events == E + Numbered(N, made) && nextId == N + |made|
      requires listing[i] in E && IsValid(E[listing[i]].date) && nd == RolloverDate(E[listing[i]], target)
      modifies this
      ensures Valid() && reminders == old(reminders)
      ensures events == E + Numbered(N, made') && nextId == N + |made'|
      ensures |made'| == |made| + (if created then 1 else 0)
      ensures made + RolloverCreated(E, listing[i..], target, made)
              == made' + RolloverCreated(E, listing[i + 1..], target, made')
    {
      var k := listing[i];
      NumberedAbove(E, N, made, k);
      var src := events[k];
      if CheckDuplicate(events, src.pet, src.title, nd, None) {
        RolloverSkip(E, N, made, listing, i, target, nd);
        return false, made;
      }
      RolloverMake(E, N, made, listing, i, target, nd);
      var e := RolloverEvent(src, k, nd);
      assert HeadLinked(E, k);
      if src.headRef.Some? {
        NumberedAbove(E, N, made, src.headRef.value);
      }
      InsertNumbered(E, N, made, e);
      created, made' := true, made + [e];
      ConcatAssoc(made, [e], RolloverCreated(E, listing[i + 1..], target, made'));
    }
  }

  // Editing

  /** The pet's yearly birthday events: what a birthday edit applied to all changes. */
  function BirthdaySeries(events: Table<Event>, pet: PetId): set<EventId> {
    set k | k in events && events[k].pet == pet && events[k].eventType == "birthday" && events[k].isYearly
  }

  /** The events a birthday edit changes: all the pet's birthday events, or the event alone. */
  function BirthdayTargets(id: EventId, applyToAll: bool, birthdays: seq<EventId>): seq<EventId> {
    if applyToAll then birthdays else [id]
  }

  /** The events a regular edit changes: the series when asked and the event is yearly, else
      the event alone. */
  function EditTargets(events: Table<Event>, id: EventId, applyToAll: bool, listing: seq<EventId>): seq<EventId>
    requires id in events
  {
    if applyToAll && events[id].isYearly then listing else [id]
  }

  /** A birthday event with the time, duration and note of the form. */
  function Retimed(ev: Event, time: Option<Time>, duration: Option<int>, note: string): (e: Event)
    ensures e.time == time && e.duration == duration && e.note == note
    ensures e.(time := ev.time, duration := ev.duration, note := ev.note) == ev
  {
    ev.(time := time, duration := duration, note := note)
  }

  /** The table after the birthday edit has written the listed events. */
  function Retimes(events: Table<Event>, ids: seq<EventId>, time: Option<Time>, duration: Option<int>, note: string): (r: Table<Event>)
    ensures r.Keys == events.Keys
  {
    map k | k in events :: if k in ids then Retimed(events[k], time, duration, note) else events[k]
  }

  lemma RetimesStep(events: Table<Event>, ids: seq<EventId>, i: nat, time: Option<Time>, duration: Option<int>, note: string)
    requires i < |ids| && ids[i] in events
    ensures Retimes(events, ids[..i], time, duration, note)[ids[i] := Retimed(events[ids[i]], time, duration, note)]
            == Retimes(events, ids[..i + 1], time, duration, note)
  {
    assert forall k :: k in ids[..i + 1] <==> k in ids[..i] || k == ids[i] by {
      assert ids[..i + 1] == ids[..i] + [ids[i]];
    }
  }

  /** Writing the same time, duration and note again changes nothing more. */
  lemma RetimesIdempotent(events: Table<Event>, ids: seq<EventId>, time: Option<Time>, duration: Option<int>, note: string)
    ensures Retimes(Retimes(events, ids, time, duration, note), ids, time, duration, note) == Retimes(events, ids, time, duration, note)
  {
    var once := Retimes(events, ids, time, duration, note);
    var twice := Retimes(once, ids, time, duration, note);
    forall k | k in twice
      ensures twice[k] == once[k]
    {
      if k in ids {
        assert once[k] == Retimed(events[k], time, duration, note);
      }
    }
  }

  /** A birthday edit changes neither pet, title nor date, so it creates no duplicate and
      removes none. */
  lemma RetimesKeepDuplicates(events: Table<Event>, ids: seq<EventId>, time: Option<Time>, duration: Option<int>, note: string,
                              pet: PetId, title: string, date: Date, exclude: Option<EventId>)
    ensures CheckDuplicate(Retimes(events, ids, time, duration, note), pet, title, date, exclude)
            == CheckDuplicate(events, pet, title, date, exclude)
  {
    var after := Retimes(events, ids, time, duration, note);
    if CheckDuplicate(events, pet, title, date, exclude) {
      var k :| k in events && events[k].pet == pet && events[k].title == title && events[k].date == date && !Excludes(exclude, k);
      assert after[k].pet == pet && after[k].title == title && after[k].date == date;
    }
    if CheckDuplicate(after, pet, title, date, exclude) {
      var k :| k in after && after[k].pet == pet && after[k].title == title && after[k].date == date && !Excludes(exclude, k);
      assert events[k].pet == pet && events[k].title == title && events[k].date == date;
    }
  }

  /** What a birthday edit does: the listed events get the form's time, duration and note,
      then their reminders; a reminder that raises rolls everything back. */
  ghost predicate BirthdayEditOutcome(before: Table<Event>, beforeRem: Table<Reminder>, targets: seq<EventId>, post: Post,
                                      rd: ReminderFormData, r: Result<(), EditError>, after: Table<Event>, afterRem: Table<Reminder>)
    requires AllIn(targets, before)
  {
    var table := Retimes(before, targets, ParseTime(Get(post, "time")), ParseInt(Get(post, "duration")), GetOr(post, "note", ""));
    var saved := SaveAll(beforeRem, table, targets, rd);
    (saved.Err? ==> r == Err(EditFailed))
    && (saved.Ok? ==> r.Ok? && after == table && afterRem == saved.value)
  }

  /** The events `update_events` returns are in the table it leaves. */
  lemma EditedIdsInTable(events: Table<Event>, ids: seq<EventId>, form: EventFormData)
    requires AllIn(ids, events) && form.date.Some? && AcceptedEdits(events, ids, form, true, {}).Ok?
    ensures AllIn(Firsts(AcceptedEdits(events, ids, form, true, {}).value), UpdatedTable(events, ids, form, true))
  {
    EditsSound(events, ids, form, true, {});
  }

  /** What a regular edit does: the two refusals; an exception when some target's year lacks
      the form's day or the reminder date; otherwise the accepted edits written and the
      reminder saved for each edited event. An exception rolls everything back. */
  ghost predicate RegularEditOutcome(before: Table<Event>, beforeRem: Table<Reminder>, post: Post, rd: ReminderFormData,
                                     targets: seq<EventId>, r: Result<(), EditError>, after: Table<Event>, afterRem: Table<Reminder>)
    requires AllIn(targets, before)
  {
    var form := EventFormFromPost(post);
    (form.date.None? ==> r == Err(InvalidDate))
    && (form.date.Some? && form.isYearly && form.date.value.month == 2 && form.date.value.day == 29 ==> r == Err(YearlyLeapDay))
    && (form.date.Some? && !(form.isYearly && form.date.value.month == 2 && form.date.value.day == 29) ==>
          var spec := AcceptedEdits(before, targets, form, true, {});
          (spec.Err? ==> r == Err(EditFailed))
          && (spec.Ok? ==> EditsWritten(before, beforeRem, form, rd, targets, r, after, afterRem)))
  }

  /** A regular edit with a readable date other than a yearly Feb 29 ends as the update and
      its reminders end. */
  lemma RegularOutcomeOfUpdate(before: Table<Event>, beforeRem: Table<Reminder>, post: Post, rd: ReminderFormData,
                               targets: seq<EventId>, r: Result<(), EditError>, after: Table<Event>, afterRem: Table<Reminder>)
    requires AllIn(targets, before)
    requires var form := EventFormFromPost(post);
      form.date.Some? && !(form.isYearly && form.date.value.month == 2 && form.date.value.day == 29)
      && var spec := AcceptedEdits(before, targets, form, true, {});
      (spec.Err? ==> r == Err(EditFailed))
      && (spec.Ok? ==> EditsWritten(before, beforeRem, form, rd, targets, r, after, afterRem))
    ensures RegularEditOutcome(before, beforeRem, post, rd, targets, r, after, afterRem)
  {
  }

  /** A regular edit whose dates all exist: the accepted edits are written and the reminder is
      saved for each edited event, or everything is rolled back when a reminder raises. */
  ghost predicate EditsWritten(before: Table<Event>, beforeRem: Table<Reminder>, form: EventFormData, rd: ReminderFormData,
                               targets: seq<EventId>, r: Result<(), EditError>, after: Table<Event>, afterRem: Table<Reminder>)
    requires AllIn(targets, before) && form.date.Some? && AcceptedEdits(before, targets, form, true, {}).Ok?
  {
    EditedIdsInTable(before, targets, form);
    var table := UpdatedTable(before, targets, form, true);
    var saved := SaveAll(beforeRem, table, Firsts(AcceptedEdits(before, targets, form, true, {}).value), rd);
    (saved.Err? ==> r == Err(EditFailed))
    && (saved.Ok? ==> r.Ok? && after == table && afterRem == saved.value)
  }

  /** The keys of the rows of a new yearly series. */
  ghost function SeriesIds(events: Table<Event>, base: EventId, pet: PetId, form: EventFormData, years: seq<int>): seq<EventId>
    requires form.date.Some?
  {
    IdRange(base, |SeriesRows(events, base, pet, form, years)|)
  }

  /** `_create_yearly_event_v2` raises once the start date is free: a requested year lies
      outside the calendar, or the reminder date does not exist in the year of one of the
      created events. */
  ghost predicate YearlyRaises(before: Table<Event>, beforeRem: Table<Reminder>, base: EventId, pet: PetId,
                               form: EventFormData, rd: ReminderFormData, years: seq<int>)
    requires form.date.Some?
  {
    PlanSeries(before, pet, form.title, form.date.value.month, form.date.value.day, years, None).raised
    || (SeriesIdsInTable(before, base, pet, form, years);
        SaveAll(beforeRem, SeriesTable(before, base, pet, form, years), SeriesIds(before, base, pet, form, years), rd).Err?)
  }

  /** The reminder table after `_create_yearly_event_v2` succeeded: the reminder saved for each
      created event in turn. */
  ghost function YearlyReminders(before: Table<Event>, beforeRem: Table<Reminder>, base: EventId, pet: PetId,
                                 form: EventFormData, rd: ReminderFormData, years: seq<int>): Table<Reminder>
    requires form.date.Some? && !YearlyRaises(before, beforeRem, base, pet, form, rd, years)
  {
    SeriesIdsInTable(before, base, pet, form, years);
    SaveAll(beforeRem, SeriesTable(before, base, pet, form, years), SeriesIds(before, base, pet, form, years), rd).value
  }

  /** The new series' keys are in the table after it is inserted. */
  lemma SeriesIdsInTable(events: Table<Event>, base: EventId, pet: PetId, form: EventFormData, years: seq<int>)
    requires form.date.Some?
    ensures AllIn(SeriesIds(events, base, pet, form, years), SeriesTable(events, base, pet, form, years))
  {
  }

  /** When the start date is free the series' head is on the start date. */
  lemma YearlyHeadOnStart(events: Table<Event>, base: EventId, pet: PetId, form: EventFormData, currentYear: int)
    requires form.date.Some? && StartDate(form.date.value, currentYear).Ok?
    requires !CheckDuplicate(events, pet, form.title, StartDate(form.date.value, currentYear).value, None)
    ensures var rows := SeriesRows(events, base, pet, form, SeriesYears(form.date.value, currentYear));
      rows != [] && rows[0].date == StartDate(form.date.value, currentYear).value && rows[0].headRef.None?
  {
    PlanFirst(events, pet, form.title, form.date.value.month, form.date.value.day, SeriesYears(form.date.value, currentYear));
  }

  /** With a reminder time, every event of a successfully added series has its reminder, with
      the form's settings and the date moved into the event's year. */
  lemma YearlyRemindersCover(before: Table<Event>, beforeRem: Table<Reminder>, base: EventId, pet: PetId,
                             form: EventFormData, rd: ReminderFormData, years: seq<int>)
    requires form.date.Some? && !YearlyRaises(before, beforeRem, base, pet, form, rd, years) && rd.remindAt.Some?
    ensures var after := SeriesTable(before, base, pet, form, years);
      var rem := YearlyReminders(before, beforeRem, base, pet, form, rd, years);
      forall k | k in SeriesIds(before, base, pet, form, years) ::
        k in rem && k in after && SavedFor(rem[k], Lookup(beforeRem, k), after[k], rd)
  {
    SeriesIdsInTable(before, base, pet, form, years);
    SaveAllEffect(beforeRem, SeriesTable(before, base, pet, form, years), SeriesIds(before, base, pet, form, years), rd);
  }

  /** What submitting a yearly event does: an exception when the start year lies outside the
      calendar; a refusal naming the start date when it is taken; otherwise an exception
      exactly when the series or its reminders raise, and else the series rows stored with
      their reminders, the calendar opened at the start date. */
  ghost predicate YearlyAddOutcome(before: Table<Event>, beforeRem: Table<Reminder>, base: EventId, pet: PetId,
                                   form: EventFormData, rd: ReminderFormData, currentYear: int,
                                   r: Result<Date, AddError>, after: Table<Event>, afterRem: Table<Reminder>)
    requires form.date.Some?
  {
    var sd := StartDate(form.date.value, currentYear);
    var years := SeriesYears(form.date.value, currentYear);
    (sd.Err? ==> r == Err(AddFailed))
    && (sd.Ok? && CheckDuplicate(before, pet, form.title, sd.value, None) ==> r == Err(Duplicate(Some(sd.value))))
    && (sd.Ok? && !CheckDuplicate(before, pet, form.title, sd.value, None) ==>
          (r.Err? <==> YearlyRaises(before, beforeRem, base, pet, form, rd, years))
          && (r.Err? ==> r == Err(AddFailed))
          && (r.Ok? ==> r.value == sd.value
                        && after == SeriesTable(before, base, pet, form, years)
                        && afterRem == YearlyReminders(before, beforeRem, base, pet, form, rd, years)))
  }

  /** A refused or failed yearly submission leaves the tables as they were. */
  lemma YearlyRefused(before: Table<Event>, beforeRem: Table<Reminder>, base: EventId, pet: PetId,
                      form: EventFormData, rd: ReminderFormData, currentYear: int, e: AddError)
    requires form.date.Some?
    requires var sd := StartDate(form.date.value, currentYear);
      (sd.Err? ==> e == AddFailed)
      && (sd.Ok? && CheckDuplicate(before, pet, form.title, sd.value, None) ==> e == Duplicate(Some(sd.value)))
      && (sd.Ok? && !CheckDuplicate(before, pet, form.title, sd.value, None) ==>
            e == AddFailed && YearlyRaises(before, beforeRem, base, pet, form, rd, SeriesYears(form.date.value, currentYear)))
    ensures YearlyAddOutcome(before, beforeRem, base, pet, form, rd, currentYear, Err(e), before, beforeRem)
  {
  }

  /** What submitting a single event does: a refusal when the date is taken, else the event
      and its reminder stored, the calendar opened at the event's date. */
  ghost predicate SingleAddOutcome(before: Table<Event>, beforeRem: Table<Reminder>, base: EventId, pet: PetId,
                                   form: EventFormData, rd: ReminderFormData,
                                   r: Result<Date, AddError>, after: Table<Event>, afterRem: Table<Reminder>)
    requires form.date.Some?
  {
    (r.Ok? <==> !CheckDuplicate(before, pet, form.title, form.date.value, None))
    && (r.Err? ==> r == Err(Duplicate(None)))
    && (r.Ok? ==> r.value == form.date.value && SingleAdded(before, beforeRem, base, pet, form, rd, after, afterRem))
  }

  /** What `_create_single_event_v2` does when the date is free: the event is stored under the
      next key and, when the form has a reminder time, gets a new reminder with the submitted
      date left as it is. */
  ghost predicate SingleAdded(before: Table<Event>, beforeRem: Table<Reminder>, base: EventId, pet: PetId,
                              form: EventFormData, rd: ReminderFormData, after: Table<Event>, afterRem: Table<Reminder>)
    requires form.date.Some?
  {
    var ev := SingleEvent(pet, form);
    after == before[base := ev]
    && afterRem == (if rd.remindAt.Some? then beforeRem[base := SavedReminder(None, ev, rd, false).value] else beforeRem)
  }

  /** The head and the continuations `create_yearly_series` returns are the keys of the series
      rows, and the table holds them. */
  lemma SeriesIdsHeld(events: Table<Event>, base: EventId, pet: PetId, form: EventFormData, years: seq<int>,
                      head: EventId, conts: seq<EventId>)
    requires form.date.Some? && SeriesRows(events, base, pet, form, years) != []
    requires head == base && conts == IdRange(base + 1, |SeriesRows(events, base, pet, form, years)| - 1)
    ensures [head] + conts == SeriesIds(events, base, pet, form, years)
    ensures AllIn([head] + conts, SeriesTable(events, base, pet, form, years))
  {
    var ids := [head] + conts;
    var n := |SeriesRows(events, base, pet, form, years)|;
    assert forall i | 0 <= i < n :: ids[i] == base + i;
  }

  /** How far `create_yearly_series` has got with `years`: the dates planned for the first
      `i` years are `dates`, the first of them is the head's, and the plan for the remaining
      years completes the plan. */
  ghost predicate PlanProgress(events: Table<Event>, pet: PetId, form: EventFormData, years: seq<int>, i: int,
                               dates: seq<Date>, headDate: Option<Date>)
    requires form.date.Some?
  {
    var m, d := form.date.value.month, form.date.value.day;
    0 <= i <= |years|
    && var plan := PlanSeries(events, pet, form.title, m, d, years, None);
    var rest := PlanSeries(events, pet, form.title, m, d, years[i..], headDate);
    plan.dates == dates + rest.dates && plan.raised == rest.raised
    && headDate == (if dates == [] then None else Some(dates[0]))
    && (forall j | 0 <= j < |dates| :: IsValid(dates[j]))
  }

  /** A year whose safe date is free extends the planned dates; a taken one is skipped. */
  lemma PlanAdvance(events: Table<Event>, pet: PetId, form: EventFormData, years: seq<int>, i: int,
                    dates: seq<Date>, headDate: Option<Date>)
    requires form.date.Some? && PlanProgress(events, pet, form, years, i, dates, headDate) && i < |years|
    requires GetSafeDate(years[i], form.date.value.month, form.date.value.day).Ok?
    ensures var dt := GetSafeDate(years[i], form.date.value.month, form.date.value.day).value;
      if Taken(events, pet, form.title, dt, headDate) then PlanProgress(events, pet, form, years, i + 1, dates, headDate)
      else PlanProgress(events, pet, form, years, i + 1, dates + [dt], if headDate.None? then Some(dt) else headDate)
  {
    PlanUnfold(events, pet, form.title, form.date.value.month, form.date.value.day, years[i..], headDate);
    assert years[i..][0] == years[i] && years[i..][1..] == years[i + 1..];
    var dt := GetSafeDate(years[i], form.date.value.month, form.date.value.day).value;
    if !Taken(events, pet, form.title, dt, headDate) {
      var ds := dates + [dt];
      assert forall j | 0 <= j < |ds| :: IsValid(ds[j]) by {
        forall j | 0 <= j < |ds| ensures IsValid(ds[j]) {
          if j < |dates| { assert ds[j] == dates[j]; }
        }
      }
    }
  }

  /** A year outside the calendar ends the plan with the dates so far. */
  lemma PlanStopped(events: Table<Event>, pet: PetId, form: EventFormData, years: seq<int>, i: int,
                    dates: seq<Date>, headDate: Option<Date>)
    requires form.date.Some? && PlanProgress(events, pet, form, years, i, dates, headDate) && i < |years|
    requires GetSafeDate(years[i], form.date.value.month, form.date.value.day).Err?
    ensures var plan := PlanSeries(events, pet, form.title, form.date.value.month, form.date.value.day, years, None);
      plan.dates == dates && plan.raised
  {
    PlanUnfold(events, pet, form.title, form.date.value.month, form.date.value.day, years[i..], headDate);
    assert years[i..][0] == years[i];
    assert dates + [] == dates;
  }

  /** After the last year the planned dates are complete. */
  lemma PlanFinished(events: Table<Event>, pet: PetId, form: EventFormData, years: seq<int>,
                     dates: seq<Date>, headDate: Option<Date>)
    requires form.date.Some? && PlanProgress(events, pet, form, years, |years|, dates, headDate)
    ensures var plan := PlanSeries(events, pet, form.title, form.date.value.month, form.date.value.day, years, None);
      plan.dates == dates && !plan.raised
  {
    assert years[|years|..] == [];
    assert dates + [] == dates;
  }

  /** One step of `PlanSeries`. */
  lemma PlanUnfold(events: Table<Event>, pet: PetId, title: string, month: int, day: int, years: seq<int>, head: Option<Date>)
    requires years != []
    ensures var p := PlanSeries(events, pet, title, month, day, years, head);
      match GetSafeDate(years[0], month, day)
      case Err(_) => p == SeriesPlan([], true)
      case Ok(dt) =>
        if Taken(events, pet, title, dt, head) then p == PlanSeries(events, pet, title, month, day, years[1..], head)
        else
          var rest := PlanSeries(events, pet, title, month, day, years[1..], if head.None? then Some(dt) else head);
          p.dates == [dt] + rest.dates && p.raised == rest.raised
  {
  }

  /** Once the head is saved, a date is a duplicate when the table had it or it is the head's. */
  lemma HeadDuplicate(events: Table<Event>, base: EventId, e: Event, pet: PetId, title: string, date: Date)
    requires base !in events
    ensures CheckDuplicate(events[base := e], pet, title, date, None)
            <==> CheckDuplicate(events, pet, title, date, None) || (e.pet == pet && e.title == title && e.date == date)
  {
    if CheckDuplicate(events, pet, title, date, None) {
      var k :| k in events && events[k].pet == pet && events[k].title == title && events[k].date == date;
      assert k in events[base := e];
    }
    if e.pet == pet && e.title == title && e.date == date {
      assert base in events[base := e];
    }
  }

  /** The saved head alone is the first series row. */
  lemma SeriesHeadRow(events: Table<Event>, base: EventId, pet: PetId, form: EventFormData, dates: seq<Date>)
    requires dates != []
    ensures events[base := SeriesEvent(pet, form, dates[0], None)] == events + Numbered(base, SeriesEvents(base, pet, form, dates)[..1])
  {
    var rows := SeriesEvents(base, pet, form, dates);
    var one := Numbered(base, rows[..1]);
    assert forall k :: k in one <==> k == base;
    assert one[base] == rows[0];
  }

  /** The waiting continuations are the series rows after the head. */
  lemma SeriesContinuations(base: EventId, pet: PetId, form: EventFormData, dates: seq<Date>, pending: seq<Event>)
    requires dates != [] && |pending| == |dates| - 1
    requires forall j | 0 <= j < |pending| :: pending[j] == SeriesEvent(pet, form, dates[j + 1], Some(base))
    ensures pending == SeriesEvents(base, pet, form, dates)[1..]
  {
  }

  /** The waiting continuations have real dates and reference the saved head. */
  lemma PendingInsertable(events: Table<Event>, base: EventId, pet: PetId, form: EventFormData, dates: seq<Date>, pending: seq<Event>)
    requires dates != [] && |pending| == |dates| - 1
    requires forall j | 0 <= j < |dates| :: IsValid(dates[j])
    requires forall j | 0 <= j < |pending| :: pending[j] == SeriesEvent(pet, form, dates[j + 1], Some(base))
    ensures var headed := events[base := SeriesEvent(pet, form, dates[0], None)];
      (forall i | 0 <= i < |pending| :: IsValid(pending[i].date))
      && (forall i | 0 <= i < |pending| :: pending[i].headRef.Some? ==>
            pending[i].headRef.value in headed && headed[pending[i].headRef.value].headRef.None?)
  {
    forall i | 0 <= i < |pending|
      ensures IsValid(pending[i].date)
    {
      assert pending[i].date == dates[i + 1];
    }
  }

  /** The head saved first and the continuations inserted after it are the series rows. */
  lemma SeriesAssembled(events: Table<Event>, base: EventId, pet: PetId, form: EventFormData, dates: seq<Date>, pending: seq<Event>)
    requires dates != [] && |pending| == |dates| - 1
    requires forall j | 0 <= j < |pending| :: pending[j] == SeriesEvent(pet, form, dates[j + 1], Some(base))
    ensures events[base := SeriesEvent(pet, form, dates[0], None)] == events + Numbered(base, SeriesEvents(base, pet, form, dates)[..1])
    ensures events[base := SeriesEvent(pet, form, dates[0], None)] + Numbered(base + 1, pending)
            == events + Numbered(base, SeriesEvents(base, pet, form, dates))
  {
    var rows := SeriesEvents(base, pet, form, dates);
    SeriesContinuations(base, pet, form, dates, pending);
    NumberedAppend(base, rows[..1], rows[1..]);
    assert rows[..1] + rows[1..] == rows;
    UnionAssoc(events, Numbered(base, rows[..1]), Numbered(base + 1, rows[1..]));
    SeriesHeadRow(events, base, pet, form, dates);
  }

  // The yearly rollover

  /** The sources the rollover query lists are events of the table. */
  lemma SourcesInTable(events: Table<Event>, currentYear: int, listing: seq<EventId>)
    requires ListsExactly(listing, RolloverSources(events, currentYear))
    ensures AllIn(listing, events)
  {
    forall k | k in listing
      ensures k in events
    {
      var i :| 0 <= i < |listing| && listing[i] == k;
      assert k in RolloverSources(events, currentYear);
    }
  }

  /** A source whose target date is taken in the table as it stands (the table before the
      run plus the rows `made` so far) creates nothing. */
  lemma RolloverSkip(events: Table<Event>, base: EventId, made: seq<Event>, listing: seq<EventId>, i: nat,
                     target: int, nd: Date)
    requires AllIn(listing, events) && DatesValid(events) && MinYear <= target <= MaxYear && i < |listing|
    requires forall k | k in events :: k < base
    requires listing[i] in events && IsValid(events[listing[i]].date) && nd == RolloverDate(events[listing[i]], target)
    requires CheckDuplicate(events + Numbered(base, made), events[listing[i]].pet, events[listing[i]].title, nd, None)
    ensures AllIn(listing[i..], events) && AllIn(listing[i + 1..], events)
    ensures RolloverCreated(events, listing[i..], target, made) == RolloverCreated(events, listing[i + 1..], target, made)
  {
    DuplicateAfterInsert(events, base, made, events[listing[i]].pet, events[listing[i]].title, nd);
    RolloverStep(events, listing, i, target, made);
  }

  /** A source whose target date is free creates its continuation. */
  lemma RolloverMake(events: Table<Event>, base: EventId, made: seq<Event>, listing: seq<EventId>, i: nat,
                     target: int, nd: Date)
    requires AllIn(listing, events) && DatesValid(events) && MinYear <= target <= MaxYear && i < |listing|
    requires forall k | k in events :: k < base
    requires listing[i] in events && IsValid(events[listing[i]].date) && nd == RolloverDate(events[listing[i]], target)
    requires !CheckDuplicate(events + Numbered(base, made), events[listing[i]].pet, events[listing[i]].title, nd, None)
    ensures AllIn(listing[i..], events) && AllIn(listing[i + 1..], events)
    ensures var e := RolloverEvent(events[listing[i]], listing[i], nd);
      RolloverCreated(events, listing[i..], target, made) == [e] + RolloverCreated(events, listing[i + 1..], target, made + [e])
  {
    DuplicateAfterInsert(events, base, made, events[listing[i]].pet, events[listing[i]].title, nd);
    RolloverStep(events, listing, i, target, made);
  }

  lemma ConcatAssoc<T>(a: seq<T>, b: seq<T>, c: seq<T>)
    ensures a + (b + c) == (a + b) + c
  {
  }

  /** One step of `RolloverCreated` at position `i` of the listing. */
  lemma RolloverStep(events: Table<Event>, listing: seq<EventId>, i: nat, target: int, made: seq<Event>)
    requires AllIn(listing, events) && DatesValid(events) && MinYear <= target <= MaxYear && i < |listing|
    ensures listing[i] in events && IsValid(events[listing[i]].date)
    ensures AllIn(listing[i..], events) && AllIn(listing[i + 1..], events)
    ensures var src := events[listing[i]];
      var nd := RolloverDate(src, target);
      var rest := RolloverCreated(events, listing[i..], target, made);
      if CheckDuplicate(events, src.pet, src.title, nd, None) || Matches(made, src.pet, src.title, nd) then
        rest == RolloverCreated(events, listing[i + 1..], target, made)
      else
        var e := RolloverEvent(src, listing[i], nd);
        rest == [e] + RolloverCreated(events, listing[i + 1..], target, made + [e])
  {
    assert listing[i] in listing;
    ValidAt(events, listing[i]);
    assert listing[i..][0] == listing[i] && listing[i..][1..] == listing[i + 1..];
  }
}
