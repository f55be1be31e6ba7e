/** `ReminderService`: what saving the reminder settings of an event stores. An event has at
    most one reminder, kept in a table keyed by the event; the store methods in
    `CalendarViews` are proved against these functions. */
module ReminderService {
  import opened Wrappers
  import opened Dates
  import opened CalendarModels
  import opened Forms
  import opened EventService

  /** The reminder of an event, if it has one. */
  function Lookup(reminders: Table<Reminder>, id: EventId): Option<Reminder> {
    if id in reminders then Some(reminders[id]) else None
  }

  /** The absolute reminder date `save_reminder` stores: none for a repeating reminder or
      when no date was given, else the given date, moved into the event's year when asked.
      None inside Ok means "no date"; Err is the ValueError `date()` raises. */
  function StoredRemindDate(ev: Event, data: ReminderFormData, adjust: bool): (r: Result<Option<Date>, Raised>)
    ensures data.repeat || data.remindDate.None? ==> r == Ok(None)
    ensures !data.repeat && data.remindDate.Some? && !adjust ==> r == Ok(data.remindDate)
    ensures !data.repeat && data.remindDate.Some? && adjust ==>
      var d := data.remindDate.value;
      if ValidYmd(ev.date.year, d.month, d.day) then r == Ok(Some(Date(ev.date.year, d.month, d.day)))
      else r.Err?
  {
    if data.remindDate.Some? && !data.repeat then
      if adjust then
        match MakeDate(ev.date.year, data.remindDate.value.month, data.remindDate.value.day)
        case Some(d) => Ok(Some(d))
        case None => Err(ValueError)
      else Ok(data.remindDate)
    else Ok(None)
  }

  /** `save_reminder` with a reminder time: the reminder found for the event (or created for
      the event's pet) gets every setting from the form. Repetition and an absolute date never
      go together in what is stored. */
  function SavedReminder(existing: Option<Reminder>, ev: Event, data: ReminderFormData, adjust: bool): (r: Result<Reminder, Raised>)
    requires data.remindAt.Some?
    ensures r.Ok? ==> r.value.remindAt == data.remindAt && r.value.repeat == data.repeat
                      && r.value.repeatDays == data.repeatDays && r.value.repeatEvery == data.repeatEvery
    ensures r.Ok? ==> r.value.pet == (if existing.Some? then existing.value.pet else ev.pet)
    ensures r.Ok? && r.value.repeat ==> r.value.remindDate.None?
    ensures r.Ok? <==> StoredRemindDate(ev, data, adjust).Ok?
    ensures r.Ok? ==> r.value.remindDate == StoredRemindDate(ev, data, adjust).value
  {
    var pet := if existing.Some? then existing.value.pet else ev.pet;
    match StoredRemindDate(ev, data, adjust)
    case Err(e) => Err(e)
    case Ok(d) => Ok(Reminder(pet, data.remindAt, d, data.repeat, data.repeatDays, data.repeatEvery))
  }

  /** Saving the same settings twice stores the same reminder as saving them once. */
  lemma SaveReminderIdempotent(existing: Option<Reminder>, ev: Event, data: ReminderFormData, adjust: bool)
    requires data.remindAt.Some? && SavedReminder(existing, ev, data, adjust).Ok?
    ensures SavedReminder(Some(SavedReminder(existing, ev, data, adjust).value), ev, data, adjust)
            == SavedReminder(existing, ev, data, adjust)
  {
  }

  /** The form prefilled from a stored reminder shows what was submitted: `from_reminder`
      undoes `save_reminder` for every form `from_post` can produce. */
  lemma ReminderFormRoundTrip(existing: Option<Reminder>, ev: Event, data: ReminderFormData)
    requires data.remindAt.Some? && data.repeatEvery >= 1 && (data.repeat ==> data.remindDate.None?)
    ensures SavedReminder(existing, ev, data, false).Ok?
    ensures ReminderFormFromReminder(Some(SavedReminder(existing, ev, data, false).value)) == data
  {
  }

  /** A submitted reminder form always satisfies the conditions of the round trip. */
  lemma PostedReminderRoundTrip(existing: Option<Reminder>, ev: Event, post: Post)
    requires ReminderFormFromPost(post).remindAt.Some?
    ensures var data := ReminderFormFromPost(post);
      ReminderFormFromReminder(Some(SavedReminder(existing, ev, data, false).value)) == data
  {
    ReminderFormRoundTrip(existing, ev, ReminderFormFromPost(post));
  }

  /** The reminder table after `save_reminders_for_events` saved the settings for each
      listed event in turn, with the date moved into each event's year. Without a reminder
      time every save does nothing. Err is the ValueError of a date that does not exist in
      some event's year. */
  function SaveAll(reminders: Table<Reminder>, events: Table<Event>, ids: seq<EventId>, data: ReminderFormData): Result<Table<Reminder>, Raised>
    requires AllIn(ids, events)
    decreases |ids|
  {
    if ids == [] then Ok(reminders)
    else if data.remindAt.None? then SaveAll(reminders, events, ids[1..], data)
    else
      match SavedReminder(Lookup(reminders, ids[0]), events[ids[0]], data, true)
      case Err(e) => Err(e)
      case Ok(r) => SaveAll(reminders[ids[0] := r], events, ids[1..], data)
  }

  /** Without a reminder time no reminder is touched. */
  lemma {:induction false} SaveAllWithoutTime(reminders: Table<Reminder>, events: Table<Event>, ids: seq<EventId>, data: ReminderFormData)
    requires AllIn(ids, events) && data.remindAt.None?
    ensures SaveAll(reminders, events, ids, data) == Ok(reminders)
    decreases |ids|
  {
    if ids != [] {
      SaveAllWithoutTime(reminders, events, ids[1..], data);
    }
  }

  /** The save raises exactly when the reminder has a time and a non-repeating date whose day
      does not exist in the year of one of the listed events. */
  lemma {:induction false} SaveAllRaises(reminders: Table<Reminder>, events: Table<Event>, ids: seq<EventId>, data: ReminderFormData)
    requires AllIn(ids, events)
    ensures SaveAll(reminders, events, ids, data).Err? <==>
      data.remindAt.Some? && !data.repeat && data.remindDate.Some?
      && exists k | 0 <= k < |ids| ::
           !ValidYmd(events[ids[k]].date.year, data.remindDate.value.month, data.remindDate.value.day)
    decreases |ids|
  {
    if data.remindAt.None? {
      SaveAllWithoutTime(reminders, events, ids, data);
    } else if ids != [] {
      var r := SavedReminder(Lookup(reminders, ids[0]), events[ids[0]], data, true);
      if r.Ok? {
        SaveAllRaises(reminders[ids[0] := r.value], events, ids[1..], data);
      }
      if data.remindDate.Some? {
        var d := data.remindDate.value;
        if exists k | 0 <= k < |ids| :: !ValidYmd(events[ids[k]].date.year, d.month, d.day) {
          var k :| 0 <= k < |ids| && !ValidYmd(events[ids[k]].date.year, d.month, d.day);
          if k > 0 { assert ids[k] == ids[1..][k - 1]; }
        }
        if exists k | 0 <= k < |ids[1..]| :: !ValidYmd(events[ids[1..][k]].date.year, d.month, d.day) {
          var k :| 0 <= k < |ids[1..]| && !ValidYmd(events[ids[1..][k]].date.year, d.month, d.day);
          assert ids[1..][k] == ids[k + 1];
        }
      }
    }
  }

  /** The reminder stored for an event by `save_reminders_for_events`: the form's settings,
      the pet kept from an existing reminder, the date moved into the event's year. */
  predicate SavedFor(r: Reminder, before: Option<Reminder>, ev: Event, data: ReminderFormData)
    requires data.remindAt.Some?
  {
    SavedReminder(before, ev, data, true) == Ok(r)
  }

  /** After a successful save every listed event has exactly one reminder, carrying the
      form's settings, and every other reminder is unchanged. */
  lemma {:induction false} SaveAllEffect(reminders: Table<Reminder>, events: Table<Event>, ids: seq<EventId>, data: ReminderFormData)
    requires AllIn(ids, events) && data.remindAt.Some?
    requires SaveAll(reminders, events, ids, data).Ok?
    ensures var after := SaveAll(reminders, events, ids, data).value;
      (forall k :: k in after <==> k in reminders || k in ids)
      && (forall k | k in reminders && k !in ids :: after[k] == reminders[k])
      && (forall k | k in ids :: SavedFor(after[k], Lookup(reminders, k), events[k], data))
    decreases |ids|
  {
    if ids != [] {
      var r := SavedReminder(Lookup(reminders, ids[0]), events[ids[0]], data, true).value;
      var mid := reminders[ids[0] := r];
      SaveAllEffect(mid, events, ids[1..], data);
      var after := SaveAll(reminders, events, ids, data).value;
      assert after == SaveAll(mid, events, ids[1..], data).value;
      forall k | k in ids
        ensures SavedFor(after[k], Lookup(reminders, k), events[k], data)
      {
        if k in ids[1..] {
          assert SavedFor(after[k], Lookup(mid, k), events[k], data);
          if k == ids[0] {
            // Saving again keeps the pet, so the second save equals the first.
            SaveReminderIdempotent(Lookup(reminders, k), events[k], data, true);
          }
        } else {
          assert k == ids[0];
        }
      }
      forall k
        ensures k in after <==> k in reminders || k in ids
      {
        if k in ids && k !in ids[1..] { assert k == ids[0]; }
        if k in ids[1..] { assert k in ids; }
      }
    }
  }

  /** `save_reminders_for_events` returns one reminder per listed event when the form has a
      reminder time, and none otherwise. */
  function SavedCount(ids: seq<EventId>, data: ReminderFormData): nat {
    if data.remindAt.Some? then |ids| else 0
  }
}
