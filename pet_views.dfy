/** The pet views' decisions: who counts as a pet's creator and which owners may be removed,
    the pet type stored from a submitted form, the regeneration of a pet's birthday events,
    and the "birthday today / soon" note of the pet page. */
module PetViews {
  import opened Wrappers
  import opened Text
  import opened Dates
  import opened CalendarModels
  import opened Forms
  import opened EventService
  import opened ReminderService
  import opened PetModels
  import CalendarViews

  // Creator and owners

  /** `is_pet_creator`: the user is the first owner the owner query returns. */
  predicate IsPetCreator(user: UserId, owners: seq<UserId>)
    ensures IsPetCreator(user, owners) ==> user in owners
    ensures owners == [] ==> !IsPetCreator(user, owners)
  {
    owners != [] && owners[0] == user
  }

  /** The creator owns the pet, so `can_edit` holds for the creator. */
  lemma CreatorCanEdit(p: Pet, user: UserId)
    requires IsPetCreator(user, p.owners)
    ensures CanEdit(p, user)
  {
  }

  /** The owners without `target`, in the same order. */
  function Without(owners: seq<UserId>, target: UserId): (r: seq<UserId>)
    ensures forall u :: u in r <==> u in owners && u != target
    ensures target !in owners ==> r == owners
    ensures owners != [] && owners[0] != target ==> r != [] && r[0] == owners[0]
  {
    if owners == [] then []
    else if owners[0] == target then Without(owners[1..], target)
    else [owners[0]] + Without(owners[1..], target)
  }

  /** Removing a user keeps the other owners distinct and shortens a list without repeats by
      one when the user was an owner. */
  lemma {:induction false} WithoutLength(owners: seq<UserId>, target: UserId)
    requires NoRepeats(owners)
    ensures NoRepeats(Without(owners, target))
    ensures |Without(owners, target)| == if target in owners then |owners| - 1 else |owners|
  {
    if owners != [] {
      NoRepeatsTail(owners);
      WithoutLength(owners[1..], target);
      if owners[0] == target {
        assert target !in owners[1..];
      } else {
        var rest := Without(owners[1..], target);
        assert owners[0] !in rest by {
          assert owners[0] !in owners[1..];
        }
        forall i, j | 0 <= i < j < |[owners[0]] + rest|
          ensures ([owners[0]] + rest)[i] != ([owners[0]] + rest)[j]
        {
          if i > 0 {
            assert ([owners[0]] + rest)[i] == rest[i - 1];
          }
        }
        assert target in owners <==> target in owners[1..];
      }
    }
  }

  lemma NoRepeatsTail<T>(s: seq<T>)
    requires s != [] && NoRepeats(s)
    ensures NoRepeats(s[1..]) && s[0] !in s[1..]
  {
    forall i, j | 0 <= i < j < |s[1..]|
      ensures s[1..][i] != s[1..][j]
    {
      assert s[1..][i] == s[i + 1] && s[1..][j] == s[j + 1];
    }
  }

  /** Why `remove_owner` removes nobody: the requester is not the creator, the pet has a
      single owner, the user to remove does not exist (404), or that user is the creator. */
  datatype RemoveError = NotCreator | LastOwner | UnknownUser | CreatorTarget

  /** The guards of `remove_owner`, then the removal itself. `users` are the users that exist. */
  function RemoveOwner(owners: seq<UserId>, users: set<UserId>, requester: UserId, target: UserId)
    : (r: Result<seq<UserId>, RemoveError>)
    ensures r == Err(NotCreator) <==> !IsPetCreator(requester, owners)
    ensures r == Err(LastOwner) <==> IsPetCreator(requester, owners) && |owners| <= 1
    ensures r == Err(UnknownUser) <==> IsPetCreator(requester, owners) && |owners| > 1 && target !in users
    ensures r == Err(CreatorTarget) <==>
      IsPetCreator(requester, owners) && |owners| > 1 && target in users && IsPetCreator(target, owners)
    ensures r.Ok? ==> forall u :: u in r.value <==> u in owners && u != target
  {
    if !IsPetCreator(requester, owners) then Err(NotCreator)
    else if |owners| <= 1 then Err(LastOwner)
    else if target !in users then Err(UnknownUser)
    else if IsPetCreator(target, owners) then Err(CreatorTarget)
    else Ok(Without(owners, target))
  }

  /** A removal that goes through leaves the creator in first place, so the pet keeps an
      owner and its creator, and the remaining owners are still distinct: exactly the removed
      user is gone. */
  lemma RemoveOwnerKeepsCreator(owners: seq<UserId>, users: set<UserId>, requester: UserId, target: UserId)
    requires NoRepeats(owners)
    requires RemoveOwner(owners, users, requester, target).Ok?
    ensures var left := RemoveOwner(owners, users, requester, target).value;
      IsPetCreator(requester, left) && NoRepeats(left)
      && |left| == (if target in owners then |owners| - 1 else |owners|)
  {
    WithoutLength(owners, target);
  }

  // The pet type stored from a form

  /** The type fields `pet_add` and `pet_edit` store. */
  datatype TypeChoice = TypeChoice(petType: string, customPetType: string)

  /** The custom type is kept, stripped, only for "other" with a non-blank value; every
      other submission stores an empty custom type. */
  function ChooseType(post: Post): (c: TypeChoice)
    ensures c.petType == GetOr(post, "pet_type", "dog")
    ensures c.customPetType != [] <==> c.petType == "other" && Strip(GetOr(post, "custom_pet_type", "")) != []
    ensures c.customPetType != [] ==> c.customPetType == Strip(GetOr(post, "custom_pet_type", ""))
  {
    var petType := GetOr(post, "pet_type", "dog");
    var custom := Strip(GetOr(post, "custom_pet_type", ""));
    if petType == "other" && custom != [] then TypeChoice("other", custom) else TypeChoice(petType, "")
  }

  /** The pet saved with the chosen type shows the custom type when one was kept, and shows
      "Другое (указать)" for "other" without one. Submitting the shown custom type again
      keeps it unchanged. */
  lemma ChosenTypeShown(post: Post, p: Pet, again: Post)
    requires p.petType == ChooseType(post).petType && p.customPetType == Some(ChooseType(post).customPetType)
    requires Get(again, "pet_type") == Some("other") && Get(again, "custom_pet_type") == Some(DisplayPetType(p))
    ensures var c := ChooseType(post);
      (c.customPetType != [] ==> DisplayPetType(p) == c.customPetType && ChooseType(again) == c)
      && (c.petType == "other" && c.customPetType == [] ==> DisplayPetType(p) == "Другое (указать)")
  {
    var c := ChooseType(post);
    if c.petType == "other" {
      DisplayOther(p);
    }
    if c.customPetType != [] {
      StripIdempotent(GetOr(post, "custom_pet_type", ""));
    }
  }

  // Regenerating the birthday events

  /** `pet.birthday` as the view hands it over: unset, a date read from the database, or the
      text of a submitted form. */
  datatype BirthdayInput = NoBirthday | OnDate(date: Date) | AsText(text: string)

  /** The birthday date `create_or_update_birthday_event` works with: none when the field is
      falsy or the text does not parse as `'%Y-%m-%d'`. */
  function BirthdayOf(b: BirthdayInput): (r: Option<Date>)
    requires b.OnDate? ==> IsValid(b.date)
    ensures r.Some? ==> IsValid(r.value)
    ensures b.AsText? && b.text != [] ==> r == StrptimeDate(b.text)
    ensures b.NoBirthday? || b == AsText("") ==> r.None?
  {
    match b
    case NoBirthday => None
    case OnDate(d) => Some(d)
    case AsText(s) => if s == [] then None else StrptimeDate(s)
  }

  /** The birthday in `year`: `replace(year=year)`, and February 28 for February 29 outside
      leap years. This is the safe date of the calendar. */
  function BirthdayDate(b: Date, year: int): (r: Result<Date, Raised>)
    requires IsValid(b)
    ensures r == GetSafeDate(year, b.month, b.day)
  {
    match ReplaceYear(b, year)
    case Some(d) => Ok(d)
    case None =>
      if b.month == 2 && b.day == 29 then
        match MakeDate(year, 2, 28)
        case Some(d) => Ok(d)
        case None => Err(ValueError)
      else Err(ValueError)
  }

  /** The birthday event created for one year. */
  function BirthdayEvent(pet: PetId, name: string, d: Date): (e: Event)
    ensures e.pet == pet && e.eventType == "birthday" && e.isYearly && e.date == d && e.headRef.None?
  {
    Event(pet, "День рождения", "birthday", d, None, None, "День рождения " + name, true, false, None, None)
  }

  /** The reminder of the current year's birthday event. */
  function BirthdayReminder(pet: PetId): (r: Reminder)
    ensures r.repeat && r.repeatEvery == 365 && r.remindAt == Some(Time(9, 0))
  {
    Reminder(pet, Some(Time(9, 0)), None, true, [], 365)
  }

  /** The years birthday events are made for. */
  function BirthdayYears(currentYear: int): seq<int> {
    [currentYear, currentYear + 1, currentYear + 2]
  }

  /** The events created for `years` in turn; the first year whose date raises ends the
      loop, and the exception is swallowed. */
  function BirthdayRows(pet: PetId, name: string, b: Date, years: seq<int>): seq<Event>
    requires IsValid(b)
    decreases |years|
  {
    if years == [] then []
    else
      match BirthdayDate(b, years[0])
      case Err(_) => []
      case Ok(d) => [BirthdayEvent(pet, name, d)] + BirthdayRows(pet, name, b, years[1..])
  }

  /** One step of `BirthdayRows` at position `i`. */
  lemma BirthdayRowsStep(pet: PetId, name: string, b: Date, years: seq<int>, i: nat)
    requires IsValid(b) && i < |years|
    ensures BirthdayDate(b, years[i]).Err? ==> BirthdayRows(pet, name, b, years[i..]) == []
    ensures BirthdayDate(b, years[i]).Ok? ==>
      BirthdayRows(pet, name, b, years[i..])
      == [BirthdayEvent(pet, name, BirthdayDate(b, years[i]).value)] + BirthdayRows(pet, name, b, years[i + 1..])
  {
    assert years[i..][0] == years[i] && years[i..][1..] == years[i + 1..];
  }

  /** The events left once the pet's yearly birthday events are deleted. */
  function ClearedBirthdays(events: Table<Event>, pet: PetId): Table<Event> {
    Survivors(events, CalendarViews.BirthdaySeries(events, pet))
  }

  /** The event table after the regeneration: the old birthday events deleted, the new ones
      inserted from key `base` on. */
  function RegeneratedEvents(events: Table<Event>, base: EventId, pet: PetId, rows: seq<Event>): Table<Event> {
    ClearedBirthdays(events, pet) + Numbered(base, rows)
  }

  /** The reminder table after the regeneration: the reminders of deleted events gone, and
      the first new event's reminder added. */
  function RegeneratedReminders(events: Table<Event>, reminders: Table<Reminder>, base: EventId, pet: PetId,
                                rows: seq<Event>): Table<Reminder> {
    var left := RemainingReminders(reminders, ClearedBirthdays(events, pet));
    if rows == [] then left else left[base := BirthdayReminder(pet)]
  }

  /** `create_or_update_birthday_event`: with a readable birthday, the pet's yearly birthday
      events are deleted and one is created for this year and each of the next two, the first
      with a reminder. Creation is not in a transaction: a year whose date raises ends it and
      keeps what was made. */
  method CreateOrUpdateBirthdayEvent(store: CalendarViews.EventStore, pet: PetId, name: string,
                                     birthday: BirthdayInput, currentYear: int)
    requires store.Valid() && (birthday.OnDate? ==> IsValid(birthday.date))
    modifies store
    ensures store.Valid() && store.nextId >= old(store.nextId)
    ensures BirthdayOf(birthday).None? ==> store.events == old(store.events) && store.reminders == old(store.reminders)
    ensures BirthdayOf(birthday).Some? ==>
      var rows := BirthdayRows(pet, name, BirthdayOf(birthday).value, BirthdayYears(currentYear));
      store.events == RegeneratedEvents(old(store.events), old(store.nextId), pet, rows)
      && store.reminders == RegeneratedReminders(old(store.events), old(store.reminders), old(store.nextId), pet, rows)
  {
    var b := BirthdayOf(birthday);
    if b.None? {
      return;
    }
    var bd := b.value;
    var doomed := CalendarViews.BirthdaySeries(store.events, pet);
    DeleteKeepsWellFormed(store.events, store.reminders, store.nextId, doomed);
    store.events := Survivors(store.events, doomed);
    store.reminders := RemainingReminders(store.reminders, store.events);
    var years := BirthdayYears(currentYear);
    ghost var C, CR, N := store.events, store.reminders, store.nextId;
    ghost var made: seq<Event> := [];
    NumberedNone(C, N);
    assert years[0..] == years;
    var i := 0;
    while i < 3
      invariant 0 <= i <= 3 && |made| == i && store.Valid()
      invariant store.events == C + Numbered(N, made) && store.nextId == N + |made|
      invariant BirthdayRows(pet, name, bd, years) == made + BirthdayRows(pet, name, bd, years[i..])
      invariant store.reminders == if made == [] then CR else CR[N := BirthdayReminder(pet)]
    {
      BirthdayRowsStep(pet, name, bd, years, i);
      var nd := BirthdayDate(bd, years[i]);
      if nd.Err? {
        assert made + [] == made;
        return;
      }
      var e := BirthdayEvent(pet, name, nd.value);
      var id := store.nextId;
      store.InsertNumbered(C, N, made, e);
      if i == 0 {
        store.reminders := store.reminders[id := BirthdayReminder(pet)];
      }
      CalendarViews.ConcatAssoc(made, [e], BirthdayRows(pet, name, bd, years[i + 1..]));
      made := made + [e];
      i := i + 1;
    }
    assert years[3..] == [];
    assert made + [] == made;
  }

  /** With every date in range, the three years give three rows, one per year. */
  lemma ThreeBirthdayRows(pet: PetId, name: string, b: Date, currentYear: int)
    requires IsValid(b) && MinYear <= currentYear && currentYear + 2 <= MaxYear
    ensures GetSafeDate(currentYear, b.month, b.day).Ok? && GetSafeDate(currentYear + 1, b.month, b.day).Ok?
      && GetSafeDate(currentYear + 2, b.month, b.day).Ok?
    ensures BirthdayRows(pet, name, b, BirthdayYears(currentYear))
      == [BirthdayEvent(pet, name, GetSafeDate(currentYear, b.month, b.day).value),
          BirthdayEvent(pet, name, GetSafeDate(currentYear + 1, b.month, b.day).value),
          BirthdayEvent(pet, name, GetSafeDate(currentYear + 2, b.month, b.day).value)]
  {
    var years := BirthdayYears(currentYear);
    SafeDateOfMonthDay(b, currentYear);
    SafeDateOfMonthDay(b, currentYear + 1);
    SafeDateOfMonthDay(b, currentYear + 2);
    BirthdayRowsStep(pet, name, b, years, 0);
    BirthdayRowsStep(pet, name, b, years, 1);
    BirthdayRowsStep(pet, name, b, years, 2);
    assert years[3..] == [] && years[0..] == years;
  }

  /** The three rows are yearly birthday events of the pet, one per year from the current
      one on, on the birthday's month and day or on February 28 for February 29. */
  lemma BirthdayRowDates(pet: PetId, name: string, b: Date, currentYear: int)
    requires IsValid(b) && MinYear <= currentYear && currentYear + 2 <= MaxYear
    ensures var rows := BirthdayRows(pet, name, b, BirthdayYears(currentYear));
      |rows| == 3
      && forall i | 0 <= i < 3 ::
           rows[i].pet == pet && rows[i].eventType == "birthday" && rows[i].isYearly
           && rows[i].date.year == currentYear + i && rows[i].date.month == b.month
           && (rows[i].date.day == b.day
               || (b.month == 2 && b.day == 29 && !IsLeap(rows[i].date.year) && rows[i].date.day == 28))
  {
    ThreeBirthdayRows(pet, name, b, currentYear);
    SafeDateOfMonthDay(b, currentYear);
    SafeDateOfMonthDay(b, currentYear + 1);
    SafeDateOfMonthDay(b, currentYear + 2);
  }

  /** After the regeneration the pet's yearly birthday events are exactly the new rows, when
      these are birthday rows of the pet. */
  lemma RegeneratedSeries(events: Table<Event>, reminders: Table<Reminder>, base: EventId, pet: PetId,
                          rows: seq<Event>)
    requires WellFormed(events, reminders, base)
    requires forall i | 0 <= i < |rows| :: rows[i].pet == pet && rows[i].eventType == "birthday" && rows[i].isYearly
    ensures forall k :: k in CalendarViews.BirthdaySeries(RegeneratedEvents(events, base, pet, rows), pet)
                        <==> base <= k < base + |rows|
  {
    var after := RegeneratedEvents(events, base, pet, rows);
    var cleared := ClearedBirthdays(events, pet);
    forall k
      ensures k in CalendarViews.BirthdaySeries(after, pet) <==> base <= k < base + |rows|
    {
      if k in cleared {
        assert k !in CalendarViews.BirthdaySeries(events, pet);
        assert k < base;
      } else if base <= k < base + |rows| {
        assert after[k] == rows[k - base];
      }
    }
  }

  /** Only the first new row has a reminder. */
  lemma RegeneratedReminder(events: Table<Event>, reminders: Table<Reminder>, base: EventId, pet: PetId,
                            rows: seq<Event>)
    requires WellFormed(events, reminders, base) && rows != []
    ensures var afterRem := RegeneratedReminders(events, reminders, base, pet, rows);
      base in afterRem && afterRem[base] == BirthdayReminder(pet) && forall k | k in afterRem :: k <= base
  {
  }

  /** With a readable birthday and the three years in range, the pet ends up with exactly
      three yearly birthday events, under the next three keys, one per year from the current
      one on with the birthday's month and day (February 29 becoming February 28 outside leap
      years); only the first has a reminder. */
  lemma BirthdaysRegenerated(events: Table<Event>, reminders: Table<Reminder>, base: EventId, pet: PetId,
                             name: string, b: Date, currentYear: int)
    requires WellFormed(events, reminders, base) && IsValid(b)
    requires MinYear <= currentYear && currentYear + 2 <= MaxYear
    ensures var rows := BirthdayRows(pet, name, b, BirthdayYears(currentYear));
      var after := RegeneratedEvents(events, base, pet, rows);
      (forall k :: k in CalendarViews.BirthdaySeries(after, pet) <==> base <= k < base + 3)
      && forall k | base <= k < base + 3 ::
           k in after && after[k].date.year == currentYear + (k - base) && after[k].date.month == b.month
           && (after[k].date.day == b.day
               || (b.month == 2 && b.day == 29 && !IsLeap(after[k].date.year) && after[k].date.day == 28))
    ensures var rows := BirthdayRows(pet, name, b, BirthdayYears(currentYear));
      var afterRem := RegeneratedReminders(events, reminders, base, pet, rows);
      base in afterRem && afterRem[base] == BirthdayReminder(pet) && base + 1 !in afterRem && base + 2 !in afterRem
  {
    var rows := BirthdayRows(pet, name, b, BirthdayYears(currentYear));
    BirthdayRowDates(pet, name, b, currentYear);
    RegeneratedSeries(events, reminders, base, pet, rows);
    var after := RegeneratedEvents(events, base, pet, rows);
    assert forall k | base <= k < base + 3 :: after[k] == rows[k - base];
    RegeneratedReminder(events, reminders, base, pet, rows);
  }

  /** The regeneration leaves every event of other pets alone, unless its series head was one
      of this pet's birthday events. */
  lemma OtherPetsUntouched(events: Table<Event>, base: EventId, pet: PetId, rows: seq<Event>, k: EventId)
    requires (forall j | j in events :: j < base) && k in events && events[k].pet != pet
    requires events[k].headRef.Some? ==> events[k].headRef.value !in CalendarViews.BirthdaySeries(events, pet)
    ensures k in RegeneratedEvents(events, base, pet, rows) && RegeneratedEvents(events, base, pet, rows)[k] == events[k]
  {
  }

  // The birthday note of the pet page

  /** Whether the birthday is today, and if not, in how many days when that is at most a
      week. */
  datatype Proximity = Proximity(isToday: bool, soon: Option<int>)

  /** The note for a birthday `delta` days ahead. */
  function Note(delta: int): (p: Proximity)
    ensures p.isToday <==> delta == 0
    ensures p.soon.Some? <==> delta != 0 && delta <= 7
    ensures p.soon.Some? ==> p.soon.value == delta
  {
    if delta == 0 then Proximity(true, None)
    else if delta <= 7 then Proximity(false, Some(delta))
    else Proximity(false, None)
  }

  /** The computation of `pet_detail` as written: this year's birthday via `replace`, which
      raises for February 29 outside leap years, and three years ahead when it has passed. */
  function ProximityAsWritten(birthday: Option<Date>, today: Date): (r: Result<Proximity, Raised>)
    requires IsValid(today) && (birthday.Some? ==> IsValid(birthday.value))
    ensures birthday.None? ==> r == Ok(Proximity(false, None))
  {
    if birthday.None? then Ok(Proximity(false, None))
    else
      match ReplaceYear(birthday.value, today.year)
      case None => Err(ValueError)
      case Some(nb) =>
        if Before(nb, today) then
          match ReplaceYear(nb, today.year + 3)
          case None => Err(ValueError)
          case Some(later) => Ok(Note(DaysBetween(today, later)))
        else Ok(Note(DaysBetween(today, nb)))
  }

  /** As written, whenever the page renders, the next birthday is not before today: the
      note says "today" exactly when this year's birthday is today, and "soon" is 1 to 7. */
  lemma AsWrittenNoteInRange(b: Date, today: Date)
    requires IsValid(b) && IsValid(today) && ProximityAsWritten(Some(b), today).Ok?
    ensures var p := ProximityAsWritten(Some(b), today).value;
      (p.isToday <==> ReplaceYear(b, today.year) == Some(today))
      && (p.soon.Some? ==> 1 <= p.soon.value <= 7)
  {
    var nb := ReplaceYear(b, today.year).value;
    if Before(nb, today) {
      var later := ReplaceYear(nb, today.year + 3).value;
      YearsApart(today, later);
    } else {
      DayNumberOrder(today, nb);
    }
  }

  /** As written, the pet page of a pet born on February 29 raises on every day of a
      non-leap year. */
  lemma LeapBirthdayCrashes(b: Date, today: Date)
    requires IsValid(b) && b.month == 2 && b.day == 29 && IsValid(today) && !IsLeap(today.year)
    ensures ProximityAsWritten(Some(b), today) == Err(ValueError)
  {
  }

  /** As written, the pet page of a pet born on February 29 also raises on every day after
      February 29 of a leap year: the birthday has passed and three years on is not a leap
      year. */
  lemma LeapBirthdayPassedCrashes(b: Date, today: Date)
    requires IsValid(b) && b.month == 2 && b.day == 29 && IsValid(today) && IsLeap(today.year)
    requires today.month > 2
    ensures ProximityAsWritten(Some(b), today) == Err(ValueError)
  {
    assert !IsLeap(today.year + 3);
  }

  /** As written, a birthday that has already passed this year is never "soon": the next one
      is put three years ahead. */
  lemma PassedBirthdayNeverSoon(b: Date, today: Date)
    requires IsValid(b) && IsValid(today)
    requires ReplaceYear(b, today.year).Some? && Before(ReplaceYear(b, today.year).value, today)
    ensures ProximityAsWritten(Some(b), today).Ok? ==> ProximityAsWritten(Some(b), today).value == Proximity(false, None)
  {
    var nb := ReplaceYear(b, today.year).value;
    var y := today.year;
    if ReplaceYear(nb, y + 3).Some? {
      YearsApart(today, ReplaceYear(nb, y + 3).value);
    }
  }

  /** The next birthday from today on: this year's, or next year's when it has passed, with
      February 29 becoming February 28 outside leap years. */
  function NextBirthday(b: Date, today: Date): (nb: Date)
    requires IsValid(b) && IsValid(today) && today.year < MaxYear
    ensures IsValid(nb) && !Before(nb, today) && nb.month == b.month
    ensures nb.year == today.year || nb.year == today.year + 1
  {
    SafeDateOfMonthDay(b, today.year);
    var nb := GetSafeDate(today.year, b.month, b.day).value;
    if Before(nb, today) then
      SafeDateOfMonthDay(b, today.year + 1);
      GetSafeDate(today.year + 1, b.month, b.day).value
    else nb
  }

  /** The birthday note with the next birthday at most a year ahead and the leap day handled
      as elsewhere in the calendar. */
  function BirthdayProximity(birthday: Option<Date>, today: Date): (p: Proximity)
    requires IsValid(today) && today.year < MaxYear && (birthday.Some? ==> IsValid(birthday.value))
    ensures birthday.None? ==> p == Proximity(false, None)
    ensures birthday.Some? ==>
      (p.isToday <==> GetSafeDate(today.year, birthday.value.month, birthday.value.day) == Ok(today))
    ensures birthday.Some? && p.soon.Some? ==>
      1 <= p.soon.value <= 7 && p.soon.value == DaysBetween(today, NextBirthday(birthday.value, today))
    ensures birthday.Some? && 1 <= DaysBetween(today, NextBirthday(birthday.value, today)) <= 7 ==>
      p.soon == Some(DaysBetween(today, NextBirthday(birthday.value, today)))
  {
    if birthday.None? then Proximity(false, None)
    else
      var nb := NextBirthday(birthday.value, today);
      DayNumberOrder(today, nb);
      SafeDateOfMonthDay(birthday.value, today.year);
      Note(DaysBetween(today, nb))
  }

  /** From December 28 to January 2 is five days. */
  lemma YearEndGap(y: int)
    requires MinYear <= y < MaxYear
    ensures DaysBetween(Date(y, 12, 28), Date(y + 1, 1, 2)) == 5
  {
    DecemberStart(y);
    assert DaysBeforeYear(y + 1) == DaysBeforeYear(y) + YearLength(y);
  }

  /** A birthday on January 2 seen on December 28 is five days ahead. */
  lemma SoonAcrossNewYear(b: Date, y: int)
    requires b == Date(2020, 1, 2) && MinYear <= y < MaxYear
    ensures BirthdayProximity(Some(b), Date(y, 12, 28)) == Proximity(false, Some(5))
  {
    var today := Date(y, 12, 28);
    assert GetSafeDate(y, 1, 2) == Ok(Date(y, 1, 2));
    assert GetSafeDate(y + 1, 1, 2) == Ok(Date(y + 1, 1, 2));
    assert NextBirthday(b, today) == Date(y + 1, 1, 2);
    YearEndGap(y);
  }

  /** The same birthday as written: no note at all. */
  lemma NoNoteAcrossNewYear(b: Date, y: int)
    requires b == Date(2020, 1, 2) && MinYear <= y && y + 3 <= MaxYear
    ensures ProximityAsWritten(Some(b), Date(y, 12, 28)) == Ok(Proximity(false, None))
  {
    PassedBirthdayNeverSoon(b, Date(y, 12, 28));
  }
}
