/** `EventService`: the date and duplicate rules of the calendar, and the specification of
    what creating, editing, deleting and rolling over yearly series does to the event table.
    The store methods in `CalendarViews` are proved against these functions. */
module EventService {
  import opened Wrappers
  import opened Text
  import opened Dates
  import opened CalendarModels
  import opened Forms

  // The leap-day-safe date

  /** `get_safe_date`: `date(y, m, d)`, except that February 29 of a non-leap year becomes
      February 28; every other impossible date raises. */
  function GetSafeDate(y: int, m: int, d: int): (r: Result<Date, Raised>)
    ensures ValidYmd(y, m, d) ==> r == Ok(Date(y, m, d))
    ensures !ValidYmd(y, m, d) && m == 2 && d == 29 && MinYear <= y <= MaxYear ==> r == Ok(Date(y, 2, 28))
    ensures r.Ok? ==> IsValid(r.value) && r.value.year == y && r.value.month == m
    ensures r.Err? <==> !ValidYmd(y, m, d) && !(m == 2 && d == 29 && MinYear <= y <= MaxYear)
  {
    match MakeDate(y, m, d)
    case Some(dt) => Ok(dt)
    case None =>
      if m == 2 && d == 29 then
        match MakeDate(y, 2, 28)
        case Some(dt) => Ok(dt)
        case None => Err(ValueError)
      else Err(ValueError)
  }

  /** Moving the month and day of a real date into any year the calendar has always succeeds:
      the day is kept, except February 29, which becomes February 28 outside leap years. */
  lemma SafeDateOfMonthDay(dt: Date, y: int)
    requires IsValid(dt) && MinYear <= y <= MaxYear
    ensures GetSafeDate(y, dt.month, dt.day).Ok?
    ensures var s := GetSafeDate(y, dt.month, dt.day).value;
      s.year == y && s.month == dt.month
      && (s.day == dt.day || (dt.month == 2 && dt.day == 29 && !IsLeap(y) && s.day == 28))
  {
    if !ValidYmd(y, dt.month, dt.day) {
      assert dt.month == 2 && dt.day == 29;
    }
  }

  /** Outside the years the calendar has, every date raises. */
  lemma SafeDateOutOfRange(y: int, m: int, d: int)
    requires y < MinYear || y > MaxYear
    ensures GetSafeDate(y, m, d).Err?
  {
  }

  /** A real date is its own safe date. */
  lemma SafeDateOfValid(dt: Date)
    requires IsValid(dt)
    ensures GetSafeDate(dt.year, dt.month, dt.day) == Ok(dt)
  {
  }

  /** February 29 in 2025 and in 2024. */
  lemma SafeDateLeapExamples()
    ensures GetSafeDate(2025, 2, 29) == Ok(Date(2025, 2, 28))
    ensures GetSafeDate(2024, 2, 29) == Ok(Date(2024, 2, 29))
  {
  }

  // The start year of a yearly series

  /** The year a yearly series starts in, with the warning shown when it was moved. */
  datatype StartYear = StartYear(year: int, warning: Option<string>)

  /** The warning text naming the year a series was moved to. */
  function RebaseWarning(year: int): string {
    "Событие создано как ежегодная серия, начинающаяся с " + IntToString(year)
    + " года, так как оригинальная дата слишком далеко в прошлом."
  }

  /** `calculate_yearly_start_year`: a series never starts more than one year before the
      current one; a date further back is moved to last year, with a warning. */
  function CalculateYearlyStartYear(d: Date, currentYear: int): (r: StartYear)
    ensures r.year >= currentYear - 1 && r.year >= d.year
    ensures r.year == d.year || r.year == currentYear - 1
    ensures r.warning.Some? <==> r.year != d.year
    ensures r.warning.Some? ==> r.warning.value == RebaseWarning(r.year)
  {
    if d.year >= currentYear - 1 then StartYear(d.year, None)
    else StartYear(currentYear - 1, Some(RebaseWarning(currentYear - 1)))
  }

  // Duplicates

  /** `exclude_id` takes effect only when it is truthy: present and not 0. */
  predicate Excludes(exclude: Option<EventId>, id: EventId) {
    exclude.Some? && exclude.value != 0 && id == exclude.value
  }

  /** `check_duplicate`: the table holds an event of this pet with this title on this date,
      other than the excluded one. */
  predicate CheckDuplicate(events: Table<Event>, pet: PetId, title: string, date: Date, exclude: Option<EventId>) {
    exists k | k in events :: events[k].pet == pet && events[k].title == title && events[k].date == date
                              && !Excludes(exclude, k)
  }

  /** A falsy `exclude_id` excludes nothing. */
  lemma FalsyExclusionIgnored(events: Table<Event>, pet: PetId, title: string, date: Date)
    ensures CheckDuplicate(events, pet, title, date, Some(0)) == CheckDuplicate(events, pet, title, date, None)
  {
  }

  /** The excluded event alone is never a duplicate of itself. */
  lemma ExclusionOfSelf(events: Table<Event>, id: EventId)
    requires id in events && id != 0
    ensures CheckDuplicate(map[id := events[id]], events[id].pet, events[id].title, events[id].date, Some(id)) == false
    ensures CheckDuplicate(events, events[id].pet, events[id].title, events[id].date, None)
  {
    assert events[id].pet == events[id].pet;
  }

  /** After new rows are added, an event is a duplicate when it was one before or when one
      of the new rows matches. */
  lemma DuplicateAfterInsert(events: Table<Event>, base: EventId, rows: seq<Event>,
                             pet: PetId, title: string, date: Date)
    requires forall k | k in events :: k < base
    ensures CheckDuplicate(events + Numbered(base, rows), pet, title, date, None)
            <==> CheckDuplicate(events, pet, title, date, None) || Matches(rows, pet, title, date)
  {
    var all := events + Numbered(base, rows);
    if Matches(rows, pet, title, date) {
      var i :| 0 <= i < |rows| && rows[i].pet == pet && rows[i].title == title && rows[i].date == date;
      assert base + i in all && all[base + i] == rows[i];
    }
    if CheckDuplicate(all, pet, title, date, None) {
      var k :| k in all && all[k].pet == pet && all[k].title == title && all[k].date == date;
      if k !in events {
        assert rows[k - base] == all[k];
      }
    }
  }

  /** One of `rows` is an event of this pet with this title on this date. */
  predicate Matches(rows: seq<Event>, pet: PetId, title: string, date: Date) {
    exists i | 0 <= i < |rows| :: rows[i].pet == pet && rows[i].title == title && rows[i].date == date
  }

  // Well-formed tables

  /** A continuation's `original_event` names an existing series head (an event that has no
      `original_event` of its own). */
  predicate HeadLinked(events: Table<Event>, k: EventId)
    requires k in events
  {
    events[k].headRef.Some? ==>
      events[k].headRef.value in events && events[events[k].headRef.value].headRef.None?
  }

  /** Every event of the table has a real date. */
  predicate DatesValid(events: Table<Event>) {
    forall k {:trigger events[k]} | k in events :: IsValid(events[k].date)
  }

  lemma ValidAt(events: Table<Event>, k: EventId)
    requires DatesValid(events) && k in events
    ensures IsValid(events[k].date)
  {
  }

  /** The invariant of the two tables: keys are positive and below the next free key, dates
      are real dates, continuations point at heads, and reminders belong to events. */
  predicate WellFormed(events: Table<Event>, reminders: Table<Reminder>, nextId: EventId) {
    1 <= nextId
    && (forall k | k in events :: 1 <= k < nextId && HeadLinked(events, k))
    && DatesValid(events)
    && (forall k | k in reminders :: k in events)
  }

  /** A snapshot of the tables stays well formed when keys have been handed out since. */
  lemma WellFormedLater(events: Table<Event>, reminders: Table<Reminder>, nextId: EventId, later: EventId)
    requires WellFormed(events, reminders, nextId) && nextId <= later
    ensures WellFormed(events, reminders, later)
  {
  }

  /** Saving an existing event with new fields but the same series link keeps the tables well
      formed. */
  lemma ReplaceKeepsWellFormed(events: Table<Event>, reminders: Table<Reminder>, nextId: EventId, id: EventId, e: Event)
    requires WellFormed(events, reminders, nextId) && id in events
    requires e.headRef == events[id].headRef && IsValid(e.date)
    ensures WellFormed(events[id := e], reminders, nextId)
  {
    var after := events[id := e];
    forall k | k in after
      ensures HeadLinked(after, k)
    {
      assert HeadLinked(events, k);
      if after[k].headRef.Some? {
        var h := after[k].headRef.value;
        assert after[h].headRef == events[h].headRef;
      }
    }
  }

  /** Inserting a new event under the next free key, linked to an existing head if at all,
      keeps the tables well formed. */
  lemma InsertKeepsWellFormed(events: Table<Event>, reminders: Table<Reminder>, nextId: EventId, e: Event)
    requires WellFormed(events, reminders, nextId) && IsValid(e.date)
    requires e.headRef.Some? ==> e.headRef.value in events && events[e.headRef.value].headRef.None?
    ensures nextId !in events
    ensures WellFormed(events[nextId := e], reminders, nextId + 1)
  {
    var after := events[nextId := e];
    forall k | k in after
      ensures HeadLinked(after, k)
    {
      if k != nextId {
        assert HeadLinked(events, k);
      }
    }
  }

  // Creating a yearly series

  /** The event `create_yearly_series` builds for one date. */
  function SeriesEvent(pet: PetId, form: EventFormData, date: Date, headRef: Option<EventId>): (e: Event)
    ensures e.pet == pet && e.title == form.title && e.date == date && e.headRef == headRef
    ensures e.isYearly && !e.isDone
  {
    Event(pet, form.title, form.eventType, date, form.time, form.duration, form.note, true, false, None, headRef)
  }

  /** The event `create_single_event` builds: the form's fields on the form's date, not
      yearly, not done, heading nothing. */
  function SingleEvent(pet: PetId, form: EventFormData): (e: Event)
    requires form.date.Some?
    ensures e.pet == pet && e.title == form.title && e.date == form.date.value && e.headRef.None?
    ensures !e.isYearly && !e.isDone
  {
    Event(pet, form.title, form.eventType, form.date.value, form.time, form.duration, form.note, false, false, None, None)
  }

  /** The dates a yearly series gets and whether the loop raised. */
  datatype SeriesPlan = SeriesPlan(dates: seq<Date>, raised: bool)

  /** A date is skipped when the table already holds it for this pet and title, or when it is
      the date of the head saved earlier in the same loop. */
  predicate Taken(events: Table<Event>, pet: PetId, title: string, date: Date, head: Option<Date>) {
    CheckDuplicate(events, pet, title, date, None) || head == Some(date)
  }

  /** The dates `create_yearly_series` creates for `years`, in order: the first one becomes
      the head. Continuations are inserted only after the loop, so among the new rows only
      the head takes part in later duplicate checks. */
  function PlanSeries(events: Table<Event>, pet: PetId, title: string, month: int, day: int,
                      years: seq<int>, head: Option<Date>): SeriesPlan
    decreases |years|
  {
    if years == [] then SeriesPlan([], false)
    else
      match GetSafeDate(years[0], month, day)
      case Err(_) => SeriesPlan([], true)
      case Ok(dt) =>
        if Taken(events, pet, title, dt, head) then
          PlanSeries(events, pet, title, month, day, years[1..], head)
        else
          var rest := PlanSeries(events, pet, title, month, day, years[1..], if head.None? then Some(dt) else head);
          SeriesPlan([dt] + rest.dates, rest.raised)
  }

  /** Every planned date is the safe date of a requested year and is not taken. */
  lemma {:induction false} PlanDatesFresh(events: Table<Event>, pet: PetId, title: string, month: int, day: int,
                                         years: seq<int>, head: Option<Date>)
    ensures forall d | d in PlanSeries(events, pet, title, month, day, years, head).dates ::
      d.year in years && GetSafeDate(d.year, month, day) == Ok(d)
      && !CheckDuplicate(events, pet, title, d, None) && head != Some(d)
    decreases |years|
  {
    if years != [] {
      match GetSafeDate(years[0], month, day)
      case Err(_) =>
      case Ok(dt) =>
        var h := if Taken(events, pet, title, dt, head) || head.Some? then head else Some(dt);
        PlanDatesFresh(events, pet, title, month, day, years[1..], h);
        var rest := PlanSeries(events, pet, title, month, day, years[1..], h);
        forall d | d in rest.dates
          ensures d.year in years && head != Some(d)
        {
          var j :| 0 <= j < |years[1..]| && years[1..][j] == d.year;
          assert years[j + 1] == d.year;
        }
    }
  }

  /** Each date lies in a later year than the one before it. */
  predicate InLaterYears(ds: seq<Date>) {
    forall i, j | 0 <= i < j < |ds| :: ds[i].year < ds[j].year
  }

  /** With strictly increasing years the planned dates lie in strictly increasing years, so
      every continuation is in a later requested year than the head. */
  lemma {:induction false} PlanIncreasing(events: Table<Event>, pet: PetId, title: string, month: int, day: int,
                                          years: seq<int>, head: Option<Date>)
    requires forall i, j | 0 <= i < j < |years| :: years[i] < years[j]
    ensures InLaterYears(PlanSeries(events, pet, title, month, day, years, head).dates)
    decreases |years|
  {
    if years != [] {
      match GetSafeDate(years[0], month, day)
      case Err(_) =>
      case Ok(dt) =>
        var h := if Taken(events, pet, title, dt, head) || head.Some? then head else Some(dt);
        PlanIncreasing(events, pet, title, month, day, years[1..], h);
        PlanDatesFresh(events, pet, title, month, day, years[1..], h);
        var rest := PlanSeries(events, pet, title, month, day, years[1..], h);
        if !Taken(events, pet, title, dt, head) {
          LaterYearsCons(dt, rest.dates, years);
        }
    }
  }

  /** A date in the first requested year, followed by dates in strictly later years
      drawn from the remaining requested years, keeps the years increasing. */
  lemma LaterYearsCons(dt: Date, rest: seq<Date>, years: seq<int>)
    requires years != [] && dt.year == years[0]
    requires forall i, j | 0 <= i < j < |years| :: years[i] < years[j]
    requires InLaterYears(rest) && forall d | d in rest :: d.year in years[1..]
    ensures InLaterYears([dt] + rest)
  {
    var ds := [dt] + rest;
    forall j | 0 < j < |ds|
      ensures dt.year < ds[j].year
    {
      assert ds[j] == rest[j - 1] && rest[j - 1] in rest;
      var y :| 0 <= y < |years[1..]| && years[1..][y] == ds[j].year;
      assert years[y + 1] == ds[j].year;
    }
    forall i, j | 0 <= i < j < |ds|
      ensures ds[i].year < ds[j].year
    {
      if i > 0 {
        assert ds[i] == rest[i - 1] && ds[j] == rest[j - 1];
      }
    }
  }

  /** No date is planned, without raising, exactly when every requested year has a safe date
      and that date is taken: that is when `create_yearly_series` returns no head. */
  lemma {:induction false} PlanEmpty(events: Table<Event>, pet: PetId, title: string, month: int, day: int,
                                     years: seq<int>, head: Option<Date>)
    ensures var p := PlanSeries(events, pet, title, month, day, years, head);
      (p.dates == [] && !p.raised) <==>
      forall j | 0 <= j < |years| ::
        GetSafeDate(years[j], month, day).Ok? && Taken(events, pet, title, GetSafeDate(years[j], month, day).value, head)
    decreases |years|
  {
    if years != [] {
      PlanEmpty(events, pet, title, month, day, years[1..], head);
      var p := PlanSeries(events, pet, title, month, day, years, head);
      var q := PlanSeries(events, pet, title, month, day, years[1..], head);
      var all := forall j | 0 <= j < |years| ::
        GetSafeDate(years[j], month, day).Ok? && Taken(events, pet, title, GetSafeDate(years[j], month, day).value, head);
      var tail := forall j | 0 <= j < |years[1..]| ::
        GetSafeDate(years[1..][j], month, day).Ok? && Taken(events, pet, title, GetSafeDate(years[1..][j], month, day).value, head);
      match GetSafeDate(years[0], month, day)
      case Err(_) =>
      case Ok(dt) =>
        if Taken(events, pet, title, dt, head) {
          assert p == q;
          if tail {
            forall j | 0 <= j < |years|
              ensures GetSafeDate(years[j], month, day).Ok? && Taken(events, pet, title, GetSafeDate(years[j], month, day).value, head)
            {
              if j > 0 { assert years[j] == years[1..][j - 1]; }
            }
          }
          if all {
            forall j | 0 <= j < |years[1..]|
              ensures GetSafeDate(years[1..][j], month, day).Ok? && Taken(events, pet, title, GetSafeDate(years[1..][j], month, day).value, head)
            {
              assert years[1..][j] == years[j + 1];
            }
          }
        }
    }
  }

  /** When the first requested year has a free safe date, it becomes the head. */
  lemma PlanFirst(events: Table<Event>, pet: PetId, title: string, month: int, day: int, years: seq<int>)
    requires years != [] && GetSafeDate(years[0], month, day).Ok?
    requires !CheckDuplicate(events, pet, title, GetSafeDate(years[0], month, day).value, None)
    ensures var p := PlanSeries(events, pet, title, month, day, years, None);
      p.dates != [] && p.dates[0] == GetSafeDate(years[0], month, day).value
  {
  }

  /** The rows `create_yearly_series` inserts for the planned dates, numbered from `base`:
      the head first, with no `original_event`, then the continuations referencing it. */
  function SeriesEvents(base: EventId, pet: PetId, form: EventFormData, dates: seq<Date>): (rows: seq<Event>)
    ensures |rows| == |dates|
    ensures forall i | 0 <= i < |rows| :: rows[i] == SeriesEvent(pet, form, dates[i], if i == 0 then None else Some(base))
  {
    seq(|dates|, i requires 0 <= i < |dates| => SeriesEvent(pet, form, dates[i], if i == 0 then None else Some(base)))
  }

  // Editing events

  /** The date `update_events` gives an event: the form's month and day in the event's own
      year, or the event's date when dates are not updated. None where `date()` raises. */
  function EditDate(ev: Event, form: EventFormData, updateDate: bool): (r: Option<Date>)
    requires updateDate ==> form.date.Some?
    ensures r.Some? && updateDate ==> r.value == Date(ev.date.year, form.date.value.month, form.date.value.day)
    ensures !updateDate ==> r == Some(ev.date)
    ensures updateDate ==> (r.None? <==> !ValidYmd(ev.date.year, form.date.value.month, form.date.value.day))
    ensures r.Some? && (updateDate || IsValid(ev.date)) ==> IsValid(r.value)
  {
    if updateDate then MakeDate(ev.date.year, form.date.value.month, form.date.value.day) else Some(ev.date)
  }

  /** An event with the form's fields written over its own. */
  function Edited(ev: Event, form: EventFormData, date: Date): (e: Event)
    ensures e.title == form.title && e.eventType == form.eventType && e.date == date
    ensures e.time == form.time && e.duration == form.duration && e.note == form.note
    ensures e.isYearly == form.isYearly
    ensures e.pet == ev.pet && e.isDone == ev.isDone && e.doneYear == ev.doneYear && e.headRef == ev.headRef
  {
    ev.(title := form.title, eventType := form.eventType, date := date, time := form.time,
        duration := form.duration, note := form.note, isYearly := form.isYearly)
  }

  predicate AllIn<T>(ids: seq<EventId>, t: Table<T>) {
    forall k | 0 <= k < |ids| :: ids[k] in t
  }

  /** The edits `update_events` makes, as (event, new date) pairs in order: an event is
      skipped when its new date was already claimed in this batch (`used`) or is taken by
      another event of its pet with the new title. Duplicates are checked against the table
      as it was before the batch, since the rows are written only after the loop. */
  function AcceptedEdits(events: Table<Event>, ids: seq<EventId>, form: EventFormData, updateDate: bool,
                         used: set<Date>): Result<seq<(EventId, Date)>, Raised>
    requires AllIn(ids, events)
    requires updateDate ==> form.date.Some?
    decreases |ids|
  {
    if ids == [] then Ok([])
    else
      var ev := events[ids[0]];
      match EditDate(ev, form, updateDate)
      case None => Err(ValueError)
      case Some(nd) =>
        if nd in used || CheckDuplicate(events, ev.pet, form.title, nd, Some(ids[0])) then
          AcceptedEdits(events, ids[1..], form, updateDate, used)
        else
          match AcceptedEdits(events, ids[1..], form, updateDate, used + {nd})
          case Err(e) => Err(e)
          case Ok(rest) => Ok([(ids[0], nd)] + rest)
  }

  /** `update_events` raises exactly when some listed event cannot take the form's month and
      day in its own year. */
  lemma {:induction false} EditsRaise(events: Table<Event>, ids: seq<EventId>, form: EventFormData,
                                      updateDate: bool, used: set<Date>)
    requires AllIn(ids, events)
    requires updateDate ==> form.date.Some?
    ensures AcceptedEdits(events, ids, form, updateDate, used).Err?
            <==> exists k | 0 <= k < |ids| :: EditDate(events[ids[k]], form, updateDate).None?
    decreases |ids|
  {
    if ids != [] {
      EditsRaise(events, ids[1..], form, updateDate, used);
      EditsRaise(events, ids[1..], form, updateDate, used + (if EditDate(events[ids[0]], form, updateDate).Some? then {EditDate(events[ids[0]], form, updateDate).value} else {}));
      if exists k | 0 <= k < |ids| :: EditDate(events[ids[k]], form, updateDate).None? {
        var k :| 0 <= k < |ids| && EditDate(events[ids[k]], form, updateDate).None?;
        if k > 0 { assert ids[k] == ids[1..][k - 1]; }
      }
      if exists k | 0 <= k < |ids[1..]| :: EditDate(events[ids[1..][k]], form, updateDate).None? {
        var k :| 0 <= k < |ids[1..]| && EditDate(events[ids[1..][k]], form, updateDate).None?;
        assert ids[1..][k] == ids[k + 1];
      }
    }
  }

  /** What `update_events` promises about the events it returns: they come from the list in
      its order, each carries the date the form gives it, none is a duplicate of another
      event, and no two share a date (so no two share the pair of title and date). */
  lemma {:induction false} EditsSound(events: Table<Event>, ids: seq<EventId>, form: EventFormData,
                                      updateDate: bool, used: set<Date>)
    requires AllIn(ids, events)
    requires updateDate ==> form.date.Some?
    requires AcceptedEdits(events, ids, form, updateDate, used).Ok?
    ensures var r := AcceptedEdits(events, ids, form, updateDate, used).value;
      IsSubsequence(Firsts(r), ids)
      && (forall k | 0 <= k < |r| ::
            r[k].0 in events && EditDate(events[r[k].0], form, updateDate) == Some(r[k].1)
            && r[k].1 !in used
            && !CheckDuplicate(events, events[r[k].0].pet, form.title, r[k].1, Some(r[k].0)))
      && (forall i, j | 0 <= i < j < |r| :: r[i].1 != r[j].1)
    decreases |ids|
  {
    if ids != [] {
      var ev := events[ids[0]];
      var nd := EditDate(ev, form, updateDate).value;
      var r := AcceptedEdits(events, ids, form, updateDate, used).value;
      if nd in used || CheckDuplicate(events, ev.pet, form.title, nd, Some(ids[0])) {
        EditsSound(events, ids[1..], form, updateDate, used);
        SubsequenceCons(Firsts(r), ids[0], ids[1..]);
        assert [ids[0]] + ids[1..] == ids;
      } else {
        EditsSound(events, ids[1..], form, updateDate, used + {nd});
        var rest := AcceptedEdits(events, ids[1..], form, updateDate, used + {nd}).value;
        assert r == [(ids[0], nd)] + rest;
        assert Firsts(r) == [ids[0]] + Firsts(rest);
        assert [ids[0]] + ids[1..] == ids;
        forall i, j | 0 <= i < j < |r|
          ensures r[i].1 != r[j].1
        {
          assert r[j] == rest[j - 1];
          if i > 0 { assert r[i] == rest[i - 1]; }
        }
      }
    }
  }

  /** The first components of a list of pairs. */
  function Firsts<A, B>(r: seq<(A, B)>): (s: seq<A>)
    ensures |s| == |r| && forall k | 0 <= k < |r| :: s[k] == r[k].0
  {
    seq(|r|, k requires 0 <= k < |r| => r[k].0)
  }

  /** `a` is `b` with some elements left out. */
  predicate IsSubsequence<T(==)>(a: seq<T>, b: seq<T>)
    decreases |b|
  {
    if a == [] then true
    else if b == [] then false
    else if a[0] == b[0] then IsSubsequence(a[1..], b[1..])
    else IsSubsequence(a, b[1..])
  }

  lemma SubsequenceCons<T>(a: seq<T>, x: T, b: seq<T>)
    requires IsSubsequence(a, b)
    ensures IsSubsequence(a, [x] + b)
    decreases |b|, 1
  {
    if a != [] {
      assert ([x] + b)[1..] == b;
      if a[0] == x {
        SubsequenceTail(a, b);
      }
    }
  }

  lemma {:induction false} SubsequenceTail<T>(a: seq<T>, b: seq<T>)
    requires a != [] && IsSubsequence(a, b)
    ensures IsSubsequence(a[1..], b)
    decreases |b|, 0
  {
    if a[0] != b[0] {
      SubsequenceTail(a, b[1..]);
      SubsequenceCons(a[1..], b[0], b[1..]);
      assert [b[0]] + b[1..] == b;
    } else if a[1..] != [] {
      SubsequenceCons(a[1..], b[0], b[1..]);
      assert [b[0]] + b[1..] == b;
    }
  }

  /** The table after the accepted edits are written back (`bulk_update`): each edited event
      gets the form's fields over the version read before the batch. */
  function ApplyEdits(events: Table<Event>, edits: seq<(EventId, Date)>, form: EventFormData): (r: Table<Event>)
    requires forall k | 0 <= k < |edits| :: edits[k].0 in events
    ensures r.Keys == events.Keys
    ensures forall k | k in r :: r[k].headRef == events[k].headRef
    decreases |edits|
  {
    if edits == [] then events
    else
      var (id, nd) := edits[|edits| - 1];
      ApplyEdits(events, edits[..|edits| - 1], form)[id := Edited(events[id], form, nd)]
  }

  /** The table `update_events` leaves when it does not raise. */
  function UpdatedTable(events: Table<Event>, ids: seq<EventId>, form: EventFormData, updateDate: bool): (r: Table<Event>)
    requires AllIn(ids, events)
    requires updateDate ==> form.date.Some?
    requires AcceptedEdits(events, ids, form, updateDate, {}).Ok?
    ensures r.Keys == events.Keys
  {
    EditsSound(events, ids, form, updateDate, {});
    ApplyEdits(events, AcceptedEdits(events, ids, form, updateDate, {}).value, form)
  }

  /** With distinct dates in the batch, every edited event carries exactly its edit and every
      other event is left as it was. */
  lemma {:induction false} ApplyEditsEffect(events: Table<Event>, edits: seq<(EventId, Date)>, form: EventFormData)
    requires forall k | 0 <= k < |edits| :: edits[k].0 in events
    requires forall i, j | 0 <= i < j < |edits| :: edits[i].0 != edits[j].0
    ensures forall k | 0 <= k < |edits| :: ApplyEdits(events, edits, form)[edits[k].0] == Edited(events[edits[k].0], form, edits[k].1)
    ensures forall id | id in events && id !in Firsts(edits) :: ApplyEdits(events, edits, form)[id] == events[id]
    decreases |edits|
  {
    if edits != [] {
      var init := edits[..|edits| - 1];
      var last := edits[|edits| - 1];
      ApplyEditsEffect(events, init, form);
      var before := ApplyEdits(events, init, form);
      var after := ApplyEdits(events, edits, form);
      assert after == before[last.0 := Edited(events[last.0], form, last.1)];
      forall k | 0 <= k < |edits|
        ensures after[edits[k].0] == Edited(events[edits[k].0], form, edits[k].1)
      {
        if k < |edits| - 1 {
          assert edits[k] == init[k];
        }
      }
      forall id | id in events && id !in Firsts(edits)
        ensures after[id] == events[id]
      {
        assert Firsts(edits)[|edits| - 1] == edits[|edits| - 1].0;
        assert id !in Firsts(init) by {
          forall k | 0 <= k < |init|
            ensures Firsts(init)[k] != id
          {
            assert Firsts(init)[k] == Firsts(edits)[k];
          }
        }
      }
    }
  }

  /** The accepted edits name each event at most once. */
  lemma AcceptedDistinctIds(events: Table<Event>, ids: seq<EventId>, form: EventFormData, updateDate: bool, used: set<Date>)
    requires AllIn(ids, events)
    requires updateDate ==> form.date.Some?
    requires AcceptedEdits(events, ids, form, updateDate, used).Ok?
    ensures var r := AcceptedEdits(events, ids, form, updateDate, used).value;
      forall i, j | 0 <= i < j < |r| :: r[i].0 != r[j].0
  {
    EditsSound(events, ids, form, updateDate, used);
  }

  /** Running the same edit twice accepts nothing new the second time that the first run
      already wrote: every event the first run edited already has its new date, so a second
      run gives it the same date again. */
  lemma EditDateStable(ev: Event, form: EventFormData, updateDate: bool)
    requires updateDate ==> form.date.Some?
    requires EditDate(ev, form, updateDate).Some?
    ensures EditDate(Edited(ev, form, EditDate(ev, form, updateDate).value), form, updateDate)
            == EditDate(ev, form, updateDate)
  {
  }

  /** One step of `AcceptedEdits` on an event that is skipped. */
  lemma AcceptedSkip(t: Table<Event>, ids: seq<EventId>, form: EventFormData, updateDate: bool,
                     used: set<Date>, nd: Date)
    requires AllIn(ids, t) && ids != []
    requires updateDate ==> form.date.Some?
    requires EditDate(t[ids[0]], form, updateDate) == Some(nd)
    requires nd in used || CheckDuplicate(t, t[ids[0]].pet, form.title, nd, Some(ids[0]))
    ensures AcceptedEdits(t, ids, form, updateDate, used) == AcceptedEdits(t, ids[1..], form, updateDate, used)
  {
  }

  /** One step of `AcceptedEdits` on an event that is edited. */
  lemma AcceptedTake(t: Table<Event>, ids: seq<EventId>, form: EventFormData, updateDate: bool,
                     used: set<Date>, nd: Date)
    requires AllIn(ids, t) && ids != []
    requires updateDate ==> form.date.Some?
    requires EditDate(t[ids[0]], form, updateDate) == Some(nd)
    requires nd !in used && !CheckDuplicate(t, t[ids[0]].pet, form.title, nd, Some(ids[0]))
    ensures var rest := AcceptedEdits(t, ids[1..], form, updateDate, used + {nd});
      AcceptedEdits(t, ids, form, updateDate, used) == if rest.Err? then rest else Ok([(ids[0], nd)] + rest.value)
  {
  }

  /** Every listed event is in both tables, with the same pet and the same new date, and every
      duplicate it has in the first table is one it has in the second. */
  ghost predicate SameEditInputs(t: Table<Event>, t2: Table<Event>, ids: seq<EventId>, form: EventFormData, updateDate: bool)
    requires updateDate ==> form.date.Some?
  {
    forall id | id in ids ::
      id in t && id in t2
      && EditDate(t2[id], form, updateDate) == EditDate(t[id], form, updateDate) && t2[id].pet == t[id].pet
      && (EditDate(t[id], form, updateDate).Some?
          && CheckDuplicate(t, t[id].pet, form.title, EditDate(t[id], form, updateDate).value, Some(id))
          ==> CheckDuplicate(t2, t[id].pet, form.title, EditDate(t[id], form, updateDate).value, Some(id)))
  }

  /** No edit in `r` meets a duplicate in `t2`. */
  ghost predicate NoDuplicateIn(t: Table<Event>, t2: Table<Event>, r: seq<(EventId, Date)>, form: EventFormData) {
    forall m | 0 <= m < |r| :: r[m].0 in t && !CheckDuplicate(t2, t[r[m].0].pet, form.title, r[m].1, Some(r[m].0))
  }

  lemma SameEditInputsTail(t: Table<Event>, t2: Table<Event>, ids: seq<EventId>, form: EventFormData, updateDate: bool)
    requires updateDate ==> form.date.Some?
    requires ids != [] && SameEditInputs(t, t2, ids, form, updateDate)
    ensures SameEditInputs(t, t2, ids[1..], form, updateDate)
  {
    assert forall id | id in ids[1..] :: id in ids;
  }

  lemma NoDuplicateInTail(t: Table<Event>, t2: Table<Event>, x: (EventId, Date), rest: seq<(EventId, Date)>, form: EventFormData)
    requires NoDuplicateIn(t, t2, [x] + rest, form)
    ensures NoDuplicateIn(t, t2, rest, form)
    ensures x.0 in t && !CheckDuplicate(t2, t[x.0].pet, form.title, x.1, Some(x.0))
  {
    assert ([x] + rest)[0] == x;
    assert forall m | 0 <= m < |rest| :: rest[m] == ([x] + rest)[m + 1];
  }

  /** Two tables that agree on each listed event's new date and pet, where every duplicate of
      the first is one of the second and no accepted edit has a duplicate in the second, give
      the same edits. */
  lemma {:induction false} SameAccepted(t: Table<Event>, t2: Table<Event>, ids: seq<EventId>,
                                        form: EventFormData, updateDate: bool, used: set<Date>)
    requires AllIn(ids, t) && AllIn(ids, t2)
    requires updateDate ==> form.date.Some?
    requires AcceptedEdits(t, ids, form, updateDate, used).Ok?
    requires SameEditInputs(t, t2, ids, form, updateDate)
    requires NoDuplicateIn(t, t2, AcceptedEdits(t, ids, form, updateDate, used).value, form)
    ensures AcceptedEdits(t2, ids, form, updateDate, used) == AcceptedEdits(t, ids, form, updateDate, used)
    decreases |ids|
  {
    if ids != [] {
      var id := ids[0];
      assert id in ids;
      var nd := EditDate(t[id], form, updateDate).value;
      SameEditInputsTail(t, t2, ids, form, updateDate);
      if nd in used || CheckDuplicate(t, t[id].pet, form.title, nd, Some(id)) {
        AcceptedSkip(t, ids, form, updateDate, used, nd);
        AcceptedSkip(t2, ids, form, updateDate, used, nd);
        SameAccepted(t, t2, ids[1..], form, updateDate, used);
      } else {
        AcceptedTake(t, ids, form, updateDate, used, nd);
        var rest := AcceptedEdits(t, ids[1..], form, updateDate, used + {nd}).value;
        NoDuplicateInTail(t, t2, (id, nd), rest, form);
        SameAccepted(t, t2, ids[1..], form, updateDate, used + {nd});
        AcceptedTake(t2, ids, form, updateDate, used, nd);
      }
    }
  }

  /** The table one run of `update_events` leaves: every accepted event carries its edit, every
      other event is as it was, and each accepted date is the one the form gives the event. */
  lemma UpdatedTableEffect(events: Table<Event>, ids: seq<EventId>, form: EventFormData, updateDate: bool)
    requires AllIn(ids, events)
    requires updateDate ==> form.date.Some?
    requires AcceptedEdits(events, ids, form, updateDate, {}).Ok?
    ensures var r := AcceptedEdits(events, ids, form, updateDate, {}).value;
      var t2 := UpdatedTable(events, ids, form, updateDate);
      t2.Keys == events.Keys
      && (forall i | 0 <= i < |r| ::
            r[i].0 in events && t2[r[i].0] == Edited(events[r[i].0], form, r[i].1)
            && EditDate(events[r[i].0], form, updateDate) == Some(r[i].1))
      && (forall id | id in events && id !in Firsts(r) :: t2[id] == events[id])
  {
    var r := AcceptedEdits(events, ids, form, updateDate, {}).value;
    EditsSound(events, ids, form, updateDate, {});
    AcceptedDistinctIds(events, ids, form, updateDate, {});
    ApplyEditsEffect(events, r, form);
  }

  /** After one run every listed event keeps its pet and would take the same new date again. */
  lemma UpdatedKeepsEditDates(events: Table<Event>, ids: seq<EventId>, form: EventFormData, updateDate: bool)
    requires AllIn(ids, events)
    requires updateDate ==> form.date.Some?
    requires AcceptedEdits(events, ids, form, updateDate, {}).Ok?
    ensures var t2 := UpdatedTable(events, ids, form, updateDate);
      forall id | id in ids ::
        EditDate(t2[id], form, updateDate) == EditDate(events[id], form, updateDate) && t2[id].pet == events[id].pet
  {
    var r := AcceptedEdits(events, ids, form, updateDate, {}).value;
    var t2 := UpdatedTable(events, ids, form, updateDate);
    UpdatedTableEffect(events, ids, form, updateDate);
    forall id | id in ids
      ensures EditDate(t2[id], form, updateDate) == EditDate(events[id], form, updateDate)
      ensures t2[id].pet == events[id].pet
    {
      var j :| 0 <= j < |ids| && ids[j] == id;
      var ev := events[id];
      if id in Firsts(r) {
        var m :| 0 <= m < |r| && Firsts(r)[m] == id;
        assert r[m].0 == id;
        assert t2[id] == Edited(ev, form, r[m].1) && EditDate(ev, form, updateDate) == Some(r[m].1);
        EditDateStable(ev, form, updateDate);
      } else {
        assert forall k | k in events && k !in Firsts(r) :: t2[k] == events[k];
        assert t2[id] == ev;
      }
    }
  }

  /** A duplicate an event met in the first run is still there in the second: an edited
      witness that shared the event's new date got that same date back. */
  lemma UpdatedKeepsDuplicates(events: Table<Event>, ids: seq<EventId>, form: EventFormData, updateDate: bool)
    requires AllIn(ids, events)
    requires updateDate ==> form.date.Some?
    requires AcceptedEdits(events, ids, form, updateDate, {}).Ok?
    ensures var t2 := UpdatedTable(events, ids, form, updateDate);
      forall id | id in ids ::
        EditDate(events[id], form, updateDate).Some?
        && CheckDuplicate(events, events[id].pet, form.title, EditDate(events[id], form, updateDate).value, Some(id))
        ==> CheckDuplicate(t2, events[id].pet, form.title, EditDate(events[id], form, updateDate).value, Some(id))
  {
    var r := AcceptedEdits(events, ids, form, updateDate, {}).value;
    var t2 := UpdatedTable(events, ids, form, updateDate);
    UpdatedTableEffect(events, ids, form, updateDate);
    forall id | id in ids && EditDate(events[id], form, updateDate).Some?
               && CheckDuplicate(events, events[id].pet, form.title, EditDate(events[id], form, updateDate).value, Some(id))
      ensures CheckDuplicate(t2, events[id].pet, form.title, EditDate(events[id], form, updateDate).value, Some(id))
    {
      var j :| 0 <= j < |ids| && ids[j] == id;
      var nd := EditDate(events[id], form, updateDate).value;
      var k :| k in events && events[k].pet == events[id].pet && events[k].title == form.title
               && events[k].date == nd && !Excludes(Some(id), k);
      if k in Firsts(r) {
        var m :| 0 <= m < |r| && Firsts(r)[m] == k;
        if updateDate {
          assert r[m].1 == Date(nd.year, nd.month, nd.day);
        }
      }
      assert t2[k].pet == events[id].pet && t2[k].title == form.title && t2[k].date == nd;
    }
  }

  /** An edit whose date met no duplicate before the batch meets none after it, when the other
      edits of the batch claimed other dates and the unedited events stayed as they were. */
  lemma NoDuplicateLeft(events: Table<Event>, t2: Table<Event>, r: seq<(EventId, Date)>, form: EventFormData, m: int)
    requires 0 !in events && 0 <= m < |r| && t2.Keys == events.Keys
    requires forall i | 0 <= i < |r| :: r[i].0 in events && t2[r[i].0].date == r[i].1
    requires forall id | id in events && id !in Firsts(r) :: t2[id] == events[id]
    requires forall i, j | 0 <= i < j < |r| :: r[i].1 != r[j].1
    requires !CheckDuplicate(events, events[r[m].0].pet, form.title, r[m].1, Some(r[m].0))
    ensures !CheckDuplicate(t2, events[r[m].0].pet, form.title, r[m].1, Some(r[m].0))
  {
  }

  /** No edit of the first run meets a duplicate in the table it left: an edited event with
      the same date would share the batch's date, and an unedited one was already there. */
  lemma UpdatedLeavesNoDuplicate(events: Table<Event>, ids: seq<EventId>, form: EventFormData, updateDate: bool)
    requires AllIn(ids, events) && 0 !in events
    requires updateDate ==> form.date.Some?
    requires AcceptedEdits(events, ids, form, updateDate, {}).Ok?
    ensures var r := AcceptedEdits(events, ids, form, updateDate, {}).value;
      var t2 := UpdatedTable(events, ids, form, updateDate);
      forall m | 0 <= m < |r| :: r[m].0 in events && !CheckDuplicate(t2, events[r[m].0].pet, form.title, r[m].1, Some(r[m].0))
  {
    var r := AcceptedEdits(events, ids, form, updateDate, {}).value;
    var t2 := UpdatedTable(events, ids, form, updateDate);
    EditsSound(events, ids, form, updateDate, {});
    UpdatedTableEffect(events, ids, form, updateDate);
    forall m | 0 <= m < |r|
      ensures !CheckDuplicate(t2, events[r[m].0].pet, form.title, r[m].1, Some(r[m].0))
    {
      NoDuplicateLeft(events, t2, r, form, m);
    }
  }

  /** Running `update_events` a second time with the same form on the same list finds the
      same edits and leaves the table as the first run left it. Keys are positive, as in a
      well-formed table: a key 0 would not be excluded from its own duplicate check. */
  lemma SeriesEditIdempotent(events: Table<Event>, ids: seq<EventId>, form: EventFormData, updateDate: bool)
    requires AllIn(ids, events) && 0 !in events
    requires updateDate ==> form.date.Some?
    requires AcceptedEdits(events, ids, form, updateDate, {}).Ok?
    ensures var t2 := UpdatedTable(events, ids, form, updateDate);
      AllIn(ids, t2)
      && AcceptedEdits(t2, ids, form, updateDate, {}) == AcceptedEdits(events, ids, form, updateDate, {})
      && UpdatedTable(t2, ids, form, updateDate) == t2
  {
    var t2 := UpdatedTable(events, ids, form, updateDate);
    UpdatedKeepsEditDates(events, ids, form, updateDate);
    UpdatedKeepsDuplicates(events, ids, form, updateDate);
    UpdatedLeavesNoDuplicate(events, ids, form, updateDate);
    UpdatedTableEffect(events, ids, form, updateDate);
    assert SameEditInputs(events, t2, ids, form, updateDate);
    SameAccepted(events, t2, ids, form, updateDate, {});
    RewriteUnchanged(events, ids, form, updateDate);
  }

  /** Writing edits that are already in place changes nothing. */
  lemma {:induction false} ApplyEditsInPlace(t: Table<Event>, edits: seq<(EventId, Date)>, form: EventFormData)
    requires forall k | 0 <= k < |edits| :: edits[k].0 in t && t[edits[k].0] == Edited(t[edits[k].0], form, edits[k].1)
    ensures ApplyEdits(t, edits, form) == t
    decreases |edits|
  {
    if edits != [] {
      ApplyEditsInPlace(t, edits[..|edits| - 1], form);
    }
  }

  /** Writing the first run's edits over the table it left changes nothing: the form's fields
      are already there. */
  lemma RewriteUnchanged(events: Table<Event>, ids: seq<EventId>, form: EventFormData, updateDate: bool)
    requires AllIn(ids, events)
    requires updateDate ==> form.date.Some?
    requires AcceptedEdits(events, ids, form, updateDate, {}).Ok?
    ensures var r := AcceptedEdits(events, ids, form, updateDate, {}).value;
      var t2 := UpdatedTable(events, ids, form, updateDate);
      (forall k | 0 <= k < |r| :: r[k].0 in t2) && ApplyEdits(t2, r, form) == t2
  {
    var r := AcceptedEdits(events, ids, form, updateDate, {}).value;
    var t2 := UpdatedTable(events, ids, form, updateDate);
    UpdatedTableEffect(events, ids, form, updateDate);
    ApplyEditsInPlace(t2, r, form);
  }

  // Series lookup

  /** `get_series_events`' head: the event's `original_event`, or the event itself. */
  function SeriesHead(events: Table<Event>, id: EventId): EventId
    requires id in events
  {
    if events[id].headRef.Some? then events[id].headRef.value else id
  }

  /** `listing` is what `get_series_events` returns for `id`: the head, then each of the head's
      continuations once, in the order the database returns them. */
  predicate IsSeriesListing(events: Table<Event>, id: EventId, listing: seq<EventId>)
    requires id in events
  {
    var h := SeriesHead(events, id);
    listing != [] && listing[0] == h && AllIn(listing, events)
    && NoRepeats(listing[1..])
    && (forall c | c in events :: c in listing[1..] <==> events[c].headRef == Some(h))
  }

  predicate NoRepeats<T(==)>(s: seq<T>) {
    forall i, j | 0 <= i < j < |s| :: s[i] != s[j]
  }

  /** The event being edited is in its own series listing. */
  lemma SeriesListingHoldsEvent(events: Table<Event>, id: EventId, listing: seq<EventId>)
    requires id in events && IsSeriesListing(events, id, listing)
    ensures id in listing
  {
    if events[id].headRef.Some? {
      assert id in listing[1..];
    } else {
      assert listing[0] == id;
    }
  }

  // Deleting events

  predicate HasContinuations(events: Table<Event>, id: EventId) {
    exists c | c in events :: events[c].headRef == Some(id)
  }

  /** `is_series_original` of `delete_event`: a yearly event with continuations and no
      `original_event` of its own. */
  predicate IsSeriesOriginal(events: Table<Event>, id: EventId)
    requires id in events
  {
    events[id].isYearly && HasContinuations(events, id) && events[id].headRef.None?
  }

  /** The pet's yearly events with this title: what delete-all removes. */
  function SeriesByTitle(events: Table<Event>, pet: PetId, title: string): set<EventId> {
    set k | k in events && events[k].pet == pet && events[k].title == title && events[k].isYearly
  }

  /** The events `delete_event` asks the database to delete. */
  function DeleteTargets(events: Table<Event>, id: EventId, deleteAll: bool): (doomed: set<EventId>)
    requires id in events
    ensures id in doomed
    ensures deleteAll && events[id].isYearly ==> doomed == SeriesByTitle(events, events[id].pet, events[id].title)
    ensures !(deleteAll && events[id].isYearly) ==> doomed == {id}
  {
    if deleteAll && events[id].isYearly then SeriesByTitle(events, events[id].pet, events[id].title) else {id}
  }

  /** The events left after deleting `doomed`: deleting a head also deletes the events whose
      `original_event` it is. */
  function Survivors(events: Table<Event>, doomed: set<EventId>): (r: Table<Event>)
    ensures forall k | k in r :: k in events && r[k] == events[k] && k !in doomed
  {
    map k | k in events && k !in doomed && !(events[k].headRef.Some? && events[k].headRef.value in doomed) :: events[k]
  }

  /** The reminders left once their events are gone. */
  function RemainingReminders(reminders: Table<Reminder>, events: Table<Event>): (r: Table<Reminder>)
    ensures r.Keys == reminders.Keys * events.Keys
  {
    map k | k in reminders && k in events :: reminders[k]
  }

  /** Deleting keeps the tables well formed: no continuation is left without its head and no
      reminder without its event. */
  lemma DeleteKeepsWellFormed(events: Table<Event>, reminders: Table<Reminder>, nextId: EventId, doomed: set<EventId>)
    requires WellFormed(events, reminders, nextId)
    ensures var left := Survivors(events, doomed);
      WellFormed(left, RemainingReminders(reminders, left), nextId)
  {
    var left := Survivors(events, doomed);
    forall k | k in left
      ensures HeadLinked(left, k)
    {
      if events[k].headRef.Some? {
        assert HeadLinked(events, k);
        var h := events[k].headRef.value;
        assert h in left;
      }
    }
  }

  /** Deleting an event that heads nothing removes that event and nothing else. */
  lemma DeleteLoneEvent(events: Table<Event>, id: EventId)
    requires id in events && !HasContinuations(events, id)
    ensures Survivors(events, {id}) == events - {id}
  {
    forall k | k in events && k != id
      ensures k in Survivors(events, {id})
    {
      assert events[k].headRef != Some(id);
    }
  }

  /** Deleting a continuation, or an event that heads nothing, removes that event alone. A
      head with continuations takes them along. */
  lemma DeleteSingle(events: Table<Event>, reminders: Table<Reminder>, nextId: EventId, id: EventId)
    requires WellFormed(events, reminders, nextId) && id in events
    ensures events[id].headRef.Some? || !HasContinuations(events, id) ==> Survivors(events, {id}) == events - {id}
    ensures HasContinuations(events, id) ==>
      forall c | c in events && events[c].headRef == Some(id) :: c !in Survivors(events, {id})
  {
    if events[id].headRef.Some? || !HasContinuations(events, id) {
      DeleteLoneEvent(events, id);
    }
  }

  /** Delete-all leaves none of the pet's yearly events with that title, and keeps every event
      that neither has that title nor belongs to a deleted head. */
  lemma DeleteAllEffect(events: Table<Event>, id: EventId)
    requires id in events && events[id].isYearly
    ensures var ev := events[id];
      var left := Survivors(events, DeleteTargets(events, id, true));
      (forall k | k in left :: !(left[k].pet == ev.pet && left[k].title == ev.title && left[k].isYearly))
      && (forall k | k in events && !(events[k].pet == ev.pet && events[k].title == ev.title && events[k].isYearly)
                     && !(events[k].headRef.Some? && events[k].headRef.value in SeriesByTitle(events, ev.pet, ev.title))
            :: k in left)
  {
  }

  // Marking an event done

  /** The event `mark_done` saves. */
  function MarkedDone(ev: Event, currentYear: int): (e: Event)
    ensures e.isDone && e.doneYear == Some(currentYear)
    ensures e == ev.(isDone := true, doneYear := Some(currentYear))
  {
    ev.(isDone := true, doneYear := Some(currentYear))
  }

  // The yearly rollover

  /** The continuation `create_next_year_events` creates from a source event: the source's
      fields on the new date, linked to the source's head (or to the source, when it is one). */
  function RolloverEvent(src: Event, srcId: EventId, date: Date): (e: Event)
    ensures e.pet == src.pet && e.title == src.title && e.date == date && e.isYearly && !e.isDone
    ensures e.headRef == Some(if src.headRef.Some? then src.headRef.value else srcId)
  {
    Event(src.pet, src.title, src.eventType, date, src.time, src.duration, src.note, true, false, None,
          Some(if src.headRef.Some? then src.headRef.value else srcId))
  }

  /** The rollover's sources: yearly events dated in the year before the current one. */
  function RolloverSources(events: Table<Event>, currentYear: int): set<EventId> {
    set k | k in events && events[k].isYearly && events[k].date.year == currentYear - 1
  }

  /** `listing` holds each of `s` exactly once, in the order the database returns them. */
  predicate ListsExactly(listing: seq<EventId>, s: set<EventId>) {
    NoRepeats(listing) && (forall k | 0 <= k < |listing| :: listing[k] in s)
    && (forall k | k in s :: k in listing)
  }

  /** The date a source moves to in year `target`. */
  function RolloverDate(src: Event, target: int): (d: Date)
    requires IsValid(src.date) && MinYear <= target <= MaxYear
    ensures IsValid(d) && d.year == target && d.month == src.date.month
    ensures GetSafeDate(target, src.date.month, src.date.day) == Ok(d)
  {
    SafeDateOfMonthDay(src.date, target);
    GetSafeDate(target, src.date.month, src.date.day).value
  }

  /** The rows the rollover creates, in order, for the sources from `listing`: a source is
      skipped when its target date is already taken for its pet and title, either in the
      table or by a row created earlier in the same run (`made`). */
  function RolloverCreated(events: Table<Event>, listing: seq<EventId>, target: int, made: seq<Event>): seq<Event>
    requires AllIn(listing, events) && DatesValid(events)
    requires MinYear <= target <= MaxYear
    decreases |listing|
  {
    if listing == [] then []
    else
      assert listing[0] in events;
      ValidAt(events, listing[0]);
      var src := events[listing[0]];
      var nd := RolloverDate(src, target);
      if CheckDuplicate(events, src.pet, src.title, nd, None) || Matches(made, src.pet, src.title, nd) then
        RolloverCreated(events, listing[1..], target, made)
      else
        var e := RolloverEvent(src, listing[0], nd);
        [e] + RolloverCreated(events, listing[1..], target, made + [e])
  }

  /** `e` is the continuation the rollover makes from one of the listed sources. */
  predicate IsRolloverOf(events: Table<Event>, listing: seq<EventId>, target: int, e: Event)
    requires DatesValid(events) && MinYear <= target <= MaxYear
  {
    exists k | k in events && k in listing :: e == RolloverEvent(events[k], k, RolloverDate(events[k], target))
  }

  /** The created rows `c` all come from listed sources and none duplicates a row of the table
      or a row made before it (`prior`, then the earlier rows of `c`). */
  predicate CreatedSound(events: Table<Event>, listing: seq<EventId>, target: int, prior: seq<Event>, c: seq<Event>)
    requires DatesValid(events) && MinYear <= target <= MaxYear
  {
    forall i | 0 <= i < |c| ::
      IsRolloverOf(events, listing, target, c[i])
      && !CheckDuplicate(events, c[i].pet, c[i].title, c[i].date, None)
      && !Matches(prior + c[..i], c[i].pet, c[i].title, c[i].date)
  }

  /** Every row the rollover creates continues one of the listed sources on that source's
      target date, and duplicates neither a row of the table nor a row created before it. */
  lemma {:induction false} RolloverSound(events: Table<Event>, listing: seq<EventId>, target: int, made: seq<Event>)
    requires AllIn(listing, events) && DatesValid(events)
    requires MinYear <= target <= MaxYear
    ensures CreatedSound(events, listing, target, made, RolloverCreated(events, listing, target, made))
    decreases |listing|
  {
    if listing != [] {
      assert listing[0] in events;
      ValidAt(events, listing[0]);
      var src := events[listing[0]];
      var nd := RolloverDate(src, target);
      var c := RolloverCreated(events, listing, target, made);
      if CheckDuplicate(events, src.pet, src.title, nd, None) || Matches(made, src.pet, src.title, nd) {
        RolloverSound(events, listing[1..], target, made);
        assert c == RolloverCreated(events, listing[1..], target, made);
        forall i | 0 <= i < |c|
          ensures IsRolloverOf(events, listing, target, c[i])
        {
          assert IsRolloverOf(events, listing[1..], target, c[i]);
          var k :| k in events && k in listing[1..] && c[i] == RolloverEvent(events[k], k, RolloverDate(events[k], target));
          assert k in listing;
        }
      } else {
        var e := RolloverEvent(src, listing[0], nd);
        RolloverSound(events, listing[1..], target, made + [e]);
        var rest := RolloverCreated(events, listing[1..], target, made + [e]);
        assert c == [e] + rest;
        forall i | 0 <= i < |c|
          ensures IsRolloverOf(events, listing, target, c[i])
          ensures !CheckDuplicate(events, c[i].pet, c[i].title, c[i].date, None)
          ensures !Matches(made + c[..i], c[i].pet, c[i].title, c[i].date)
        {
          if i == 0 {
            assert listing[0] in listing;
            assert made + c[..0] == made;
          } else {
            assert c[i] == rest[i - 1];
            assert IsRolloverOf(events, listing[1..], target, rest[i - 1]);
            var k :| k in events && k in listing[1..] && rest[i - 1] == RolloverEvent(events[k], k, RolloverDate(events[k], target));
            assert k in listing;
            assert made + c[..i] == made + [e] + rest[..i - 1];
          }
        }
      }
    }
  }

  /** After the rollover, every listed source's target date is taken for its pet and title,
      by a row of the table or by a row created in the run. */
  lemma {:induction false} RolloverOccupies(events: Table<Event>, listing: seq<EventId>, target: int, made: seq<Event>)
    requires AllIn(listing, events) && DatesValid(events)
    requires MinYear <= target <= MaxYear
    ensures var all := made + RolloverCreated(events, listing, target, made);
      forall k | k in listing ::
        CheckDuplicate(events, events[k].pet, events[k].title, RolloverDate(events[k], target), None)
        || Matches(all, events[k].pet, events[k].title, RolloverDate(events[k], target))
    decreases |listing|
  {
    if listing != [] {
      assert listing[0] in events;
      ValidAt(events, listing[0]);
      var src := events[listing[0]];
      var nd := RolloverDate(src, target);
      var c := RolloverCreated(events, listing, target, made);
      var all := made + c;
      if CheckDuplicate(events, src.pet, src.title, nd, None) || Matches(made, src.pet, src.title, nd) {
        RolloverOccupies(events, listing[1..], target, made);
        if Matches(made, src.pet, src.title, nd) {
          var i :| 0 <= i < |made| && made[i].pet == src.pet && made[i].title == src.title && made[i].date == nd;
          assert all[i] == made[i];
        }
      } else {
        var e := RolloverEvent(src, listing[0], nd);
        RolloverOccupies(events, listing[1..], target, made + [e]);
        var rest := RolloverCreated(events, listing[1..], target, made + [e]);
        assert all == made + [e] + rest;
        assert all[|made|] == e;
      }
      forall k | k in listing
        ensures CheckDuplicate(events, events[k].pet, events[k].title, RolloverDate(events[k], target), None)
                || Matches(all, events[k].pet, events[k].title, RolloverDate(events[k], target))
      {
        if k != listing[0] {
          assert k in listing[1..];
        }
      }
    }
  }

  /** When every source's target date is already taken, the rollover creates nothing. */
  lemma {:induction false} RolloverIdle(events: Table<Event>, listing: seq<EventId>, target: int, made: seq<Event>)
    requires AllIn(listing, events) && DatesValid(events)
    requires MinYear <= target <= MaxYear
    requires forall k | k in listing ::
      CheckDuplicate(events, events[k].pet, events[k].title, RolloverDate(events[k], target), None)
    ensures RolloverCreated(events, listing, target, made) == []
    decreases |listing|
  {
    if listing != [] {
      assert listing[0] in listing;
      RolloverIdle(events, listing[1..], target, made);
    }
  }

  /** The table after the rollover: the rows it creates, numbered from the next free key. */
  function AfterRollover(events: Table<Event>, base: EventId, listing: seq<EventId>, target: int): Table<Event>
    requires AllIn(listing, events) && DatesValid(events) && MinYear <= target <= MaxYear
  {
    events + Numbered(base, RolloverCreated(events, listing, target, []))
  }

  /** After the rollover every listed source has an event of its pet with its title on its
      target date. */
  lemma RolloverFillsTargets(events: Table<Event>, base: EventId, listing: seq<EventId>, target: int)
    requires AllIn(listing, events) && DatesValid(events) && MinYear <= target <= MaxYear
    requires forall k | k in events :: k < base
    ensures forall k | k in listing ::
      CheckDuplicate(AfterRollover(events, base, listing, target), events[k].pet, events[k].title,
                     RolloverDate(events[k], target), None)
  {
    var c := RolloverCreated(events, listing, target, []);
    RolloverOccupies(events, listing, target, []);
    assert [] + c == c;
    forall k | k in listing
      ensures CheckDuplicate(AfterRollover(events, base, listing, target), events[k].pet, events[k].title,
                             RolloverDate(events[k], target), None)
    {
      DuplicateAfterInsert(events, base, c, events[k].pet, events[k].title, RolloverDate(events[k], target));
    }
  }

  /** The rows the rollover creates are dated in the target year. */
  lemma RolloverRowsDated(events: Table<Event>, listing: seq<EventId>, target: int)
    requires AllIn(listing, events) && DatesValid(events) && MinYear <= target <= MaxYear
    ensures forall i | 0 <= i < |RolloverCreated(events, listing, target, [])| ::
      var e := RolloverCreated(events, listing, target, [])[i];
      IsValid(e.date) && e.date.year == target && e.isYearly
  {
    var c := RolloverCreated(events, listing, target, []);
    RolloverSound(events, listing, target, []);
    forall i | 0 <= i < |c|
      ensures IsValid(c[i].date) && c[i].date.year == target && c[i].isYearly
    {
      assert IsRolloverOf(events, listing, target, c[i]);
      var k :| k in events && k in listing && c[i] == RolloverEvent(events[k], k, RolloverDate(events[k], target));
      ValidAt(events, k);
    }
  }

  /** Running the rollover a second time in the same year creates nothing: the new rows are
      not last year's events, so the second run has the same sources, and their target dates
      are all taken. */
  lemma RolloverTwice(events: Table<Event>, base: EventId, listing: seq<EventId>, currentYear: int, listing2: seq<EventId>)
    requires AllIn(listing, events) && DatesValid(events) && MinYear <= currentYear + 2 <= MaxYear
    requires forall k | k in events :: k < base
    requires ListsExactly(listing, RolloverSources(events, currentYear))
    ensures var after := AfterRollover(events, base, listing, currentYear + 2);
      DatesValid(after) && RolloverSources(after, currentYear) == RolloverSources(events, currentYear)
      && (ListsExactly(listing2, RolloverSources(after, currentYear)) ==>
            AllIn(listing2, after) && RolloverCreated(after, listing2, currentYear + 2, []) == [])
  {
    var target := currentYear + 2;
    var c := RolloverCreated(events, listing, target, []);
    var after := AfterRollover(events, base, listing, target);
    RolloverRowsDated(events, listing, target);
    forall k | k in after
      ensures IsValid(after[k].date) && (k !in events ==> after[k].date.year == target)
    {
      if k in events {
        ValidAt(events, k);
      } else {
        assert after[k] == c[k - base];
      }
    }
    assert DatesValid(after);
    assert RolloverSources(after, currentYear) == RolloverSources(events, currentYear);
    if ListsExactly(listing2, RolloverSources(after, currentYear)) {
      forall k | k in listing2
        ensures k in after && k in listing
      {
        var i :| 0 <= i < |listing2| && listing2[i] == k;
        assert k in RolloverSources(after, currentYear);
      }
      assert AllIn(listing2, after);
      RolloverFillsTargets(events, base, listing, target);
      forall k | k in listing2
        ensures CheckDuplicate(after, after[k].pet, after[k].title, RolloverDate(after[k], target), None)
      {
        assert after[k] == events[k];
      }
      RolloverIdle(after, listing2, target, []);
    }
  }
}
