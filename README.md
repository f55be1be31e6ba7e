# PetHub calendar and pet core in Dafny

PetHub is a Django site where the owners of a pet keep its profile and a calendar of its events
(vet visits, vaccinations, birthdays), each with an optional reminder. This project models its
core and proves properties of the model:

- the date arithmetic behind it: the leap-day-safe date, the rebased start year of a yearly series,
  the `strptime`/`strftime` formats the forms use;
- the form readers (`parse_time`, `parse_date`, `parse_int`, `EventFormData.from_post`,
  `ReminderFormData.from_post` and `from_reminder`);
- `EventService` and `ReminderService`: the duplicate check, creation of a yearly series (a head
  event plus continuations that point at it through `original_event`), the series-wide edit, and
  the one reminder each event has;
- the decisions of the calendar views: `add_event` and its two creation helpers, the birthday and
  the regular edit, `mark_done`, `delete_event` and the yearly rollover job
  `create_next_year_events`;
- the pet views and model: who the creator of a pet is, which owners may be removed, which pet
  type a form stores, the regeneration of a pet's three birthday events, the "birthday today /
  in N days" note, `Pet.age`, `display_pet_type`, `is_owner` and `can_edit`.

The database is a class `CalendarViews.EventStore` holding two tables, events and reminders,
as maps keyed by primary key, together with the next key the database hands out. Its methods
change the tables step by step, as the views do. Each method's contract ties the new tables to
the specification functions of `EventService`, `ReminderService` and `PetViews`. Lemmas then
prove the promised properties about those functions. A transaction that raises is modelled by
restoring the tables it read at its start. "Today" and the current year are parameters. The
order in which a query returns rows is also a parameter: a listing that holds the queried set
exactly once.

Files: `wrappers.dfy` (Option, Result), `text.dfy` (strip, decimal digits, replace),
`dates.dfy`, `forms.dfy`, `calendar_models.dfy` (the Event and Reminder rows, numbered inserts),
`event_service.dfy`, `reminder_service.dfy`, `calendar_views.dfy`, `pet_models.dfy`,
`pet_views.dfy`.

## Model

| member | source | states |
|---|---|---|
| Dates.MakeDate | calendarapp/views.py:165-171 | `date(y, m, d)` gives a value exactly when the triple is a calendar date in years 1..9999, and raises otherwise |
| Dates.ReplaceYear | pets/views.py:252-260 | `replace(year=y)` fails exactly when `y` is out of range, or the date is February 29 and `y` is not a leap year; otherwise it keeps month and day |
| Dates.DaysInMonth | calendarapp/views.py:165-171 | month lengths are 28..31, and 29 occurs exactly for February of a leap year |
| Dates.DayNumberOrder | pets/views.py:145 | the day number behind `(b - a).days` is injective and follows date order |
| Dates.YearsApart | pets/views.py:142-145 | a date two or more years ahead is more than 365 days away |
| Dates.StrptimeDate | calendarapp/views.py:118-124 | `strptime(v, '%Y-%m-%d')` yields only valid dates |
| Dates.StrptimeTime | calendarapp/views.py:109-115 | `strptime(v, '%H:%M')` yields only valid times |
| Dates.FormatDate | calendarapp/views.py:50 | `strftime('%Y-%m-%d')` of a valid date has ten characters |
| Dates.FormatTime | calendarapp/views.py:51 | `strftime('%H:%M')` of a valid time has five characters |
| Dates.DateRoundTrip | calendarapp/views.py:46-56 | parsing a date printed with `'%Y-%m-%d'` gives the date back |
| Dates.TimeRoundTrip | calendarapp/views.py:46-56 | parsing a time printed with `'%H:%M'` gives the time back |
| Text.Strip | calendarapp/views.py:37 | `str.strip()`: the result has no whitespace at either end, is empty exactly when the input is all whitespace, and is the input itself when that already had none at its ends |
| Text.StripIdempotent | pets/views.py:25 | stripping twice is stripping once |
| Text.ParseIntText | calendarapp/views.py:127-133 | `int(value)` gives a number exactly when the text, with surrounding whitespace ignored, is decimal digits with an optional leading sign; the number is the digits' value, negated after a minus sign |
| Text.IntRoundTrip | calendarapp/views.py:127-133 | `int(str(i)) == i` for every integer |
| Forms.Get | calendarapp/views.py:35-44 | `QueryDict.get` returns the last value submitted for a key, and nothing when there is none |
| Forms.ParseTime | calendarapp/views.py:109-115 | None for a missing value or one shorter than 5 characters; any result is a valid time |
| Forms.ParseDate | calendarapp/views.py:118-124 | None for a missing value or one shorter than 10 characters; any result is a valid date |
| Forms.ParseInt | calendarapp/views.py:127-133 | None for a missing or empty value |
| Forms.ParsedDateLength | calendarapp/views.py:118-124 | a value that parses as a date has exactly 10 characters |
| Forms.ParsedTimeLength | calendarapp/views.py:109-115 | a value that parses as a time has exactly 5 characters |
| Forms.ParseDateRoundTrip | calendarapp/views.py:118-124 | `parse_date` reads back any date the form prints |
| Forms.ParseTimeRoundTrip | calendarapp/views.py:109-115 | `parse_time` reads back any time the form prints |
| Forms.ParseIntRoundTrip | calendarapp/views.py:127-133 | `parse_int` reads back any printed integer |
| Forms.EventFormFromPost | calendarapp/views.py:34-44 | the title is stripped, and it is empty exactly when the submitted title is blank; `is_yearly` holds exactly when the box is ticked; a date is given only for a 10-character valid date |
| Forms.RepeatEvery | calendarapp/views.py:73-75 | the repeat interval is at least 1: a positive parsed value is kept, and a missing, unreadable, zero or negative one becomes 1 |
| Forms.ReminderFormFromPost | calendarapp/views.py:70-83 | `repeat_every >= 1`; `repeat` holds exactly when ticked; a repeating reminder has no absolute date and keeps the ticked days; a non-repeating one has no days and the parsed date |
| Forms.ReminderFormFromReminder | calendarapp/views.py:85-96 | no reminder gives the empty form; otherwise the fields are copied, with no absolute date for a repeating reminder and a zero interval read as 1 |
| EventService.GetSafeDate | calendarapp/views.py:165-171 | a valid triple gives that date; February 29 of a non-leap year in range gives February 28; every other triple raises, and the function never returns None |
| EventService.SafeDateOfMonthDay | calendarapp/views.py:165-171 | the month and day of a valid date exist in every year in range, falling back to February 28 only for February 29 |
| EventService.SafeDateOutOfRange | calendarapp/views.py:165-171 | outside years 1..9999 the safe date raises |
| EventService.SafeDateLeapExamples | calendarapp/views.py:165-171 | February 29 becomes February 28 in 2025 and stays February 29 in 2024 |
| EventService.CalculateYearlyStartYear | calendarapp/views.py:147-162 | the start year is the input year when it is at least last year, else last year; the start is never before last year; the warning is present exactly when the year was moved, and it names the new year |
| EventService.FalsyExclusionIgnored | calendarapp/views.py:140-144 | an `exclude_id` of 0 excludes nothing, exactly like no `exclude_id` |
| EventService.ExclusionOfSelf | calendarapp/views.py:140-144 | an event never counts as its own duplicate when it is excluded, and always matches itself otherwise |
| EventService.DuplicateAfterInsert | calendarapp/views.py:140-144 | after rows are inserted under fresh keys, a (pet, title, date) is taken exactly when it was taken before or one of the rows has it |
| EventService.InsertKeepsWellFormed | calendarapp/views.py:196-212 | a new row under the next key keeps the tables consistent: keys below the next key, every continuation pointing at an existing head, valid dates, reminders only of existing events |
| EventService.ReplaceKeepsWellFormed | calendarapp/views.py:278-282 | overwriting a row without changing its `original_event` keeps the tables consistent |
| EventService.DeleteKeepsWellFormed | calendarapp/views.py:618-625 | deleting a set of events, their continuations and their reminders keeps the tables consistent |
| EventService.SeriesEvent | calendarapp/views.py:196-207 | a series row carries the form's pet, title and date, is yearly and not done, and points at the given head |
| EventService.SingleEvent | calendarapp/views.py:221-234 | a single event carries the form's pet, title and date, is not yearly, not done and heads nothing |
| EventService.PlanDatesFresh | calendarapp/views.py:174-218 | each date `create_yearly_series` creates is the safe date of a requested year, is not a (pet, title, date) duplicate, and differs from the head's date |
| EventService.PlanIncreasing | calendarapp/views.py:174-218 | with increasing years the created dates lie in increasing years, so every continuation is in a later requested year than the head |
| EventService.PlanEmpty | calendarapp/views.py:174-218 | no head is created and nothing raises exactly when every year's safe date exists and is already taken |
| EventService.PlanFirst | calendarapp/views.py:174-218 | when the first year's safe date is free, the head is created on it |
| EventService.SeriesEvents | calendarapp/views.py:196-218 | the rows of a series: the first is the head with no `original_event`, all later ones point at the head's key |
| EventService.EditDate | calendarapp/views.py:255-258 | the new date of an edited event is its own year with the form's month and day, or its old date when dates are not updated; `date()` raises exactly when that day is missing in the event's year |
| EventService.Edited | calendarapp/views.py:269-275 | the edit writes the form's title, type, date, time, duration, note and yearly flag, and keeps pet, done state and `original_event` |
| EventService.EditsRaise | calendarapp/views.py:246-284 | `update_events` raises exactly when some event's new date does not exist |
| EventService.EditsSound | calendarapp/views.py:246-284 | the updated events are a subsequence of the input; each gets its computed date, which was neither claimed earlier in the batch nor taken by another event of its pet with the new title; no two updated events share a date |
| EventService.AcceptedDistinctIds | calendarapp/views.py:246-284 | an input listing each event once yields each updated event once |
| EventService.ApplyEditsEffect | calendarapp/views.py:278-284 | the bulk update rewrites exactly the updated events with the form's fields and their new dates, and leaves every other row as it was |
| EventService.EditDateStable | calendarapp/views.py:255-258 | editing an event again with the same form gives it the same date |
| EventService.AcceptedSkip | calendarapp/views.py:260-266 | an event whose new date was claimed earlier in the batch or is taken by a duplicate is left out, and the loop goes on with the same claimed dates |
| EventService.AcceptedTake | calendarapp/views.py:268-276 | any other event is updated and its date claimed for the rest of the batch |
| EventService.SameAccepted | calendarapp/views.py:254-276 | two tables that agree on each listed event's pet and new date, with every duplicate of the first also one of the second and no updated event a duplicate in the second, give the same updates |
| EventService.UpdatedTableEffect | calendarapp/views.py:268-282 | after one run each updated event carries the form's fields with the date the form gives it, and every other row is unchanged |
| EventService.UpdatedKeepsEditDates | calendarapp/views.py:255-258 | after one run every listed event keeps its pet and would get the same new date again |
| EventService.UpdatedKeepsDuplicates | calendarapp/views.py:264-265 | a duplicate that made the first run skip an event still makes a second run skip it |
| EventService.NoDuplicateLeft | calendarapp/views.py:264-265 | an update that met no duplicate before the batch meets none after it, since the other updates took other dates and the other rows stayed as they were |
| EventService.UpdatedLeavesNoDuplicate | calendarapp/views.py:264-276 | no event updated by the first run has a duplicate in the table that run left |
| EventService.ApplyEditsInPlace | calendarapp/views.py:278-282 | a bulk update that writes values already in place changes nothing |
| EventService.RewriteUnchanged | calendarapp/views.py:268-282 | writing the first run's updates over the table it left changes nothing |
| EventService.SeriesEditIdempotent | calendarapp/views.py:246-284 | running `update_events` a second time with the same form on the same events makes the same updates and leaves the table as the first run left it (keys are positive, as in the database) |
| EventService.SeriesListingHoldsEvent | calendarapp/views.py:237-243 | the series `get_series_events` returns for an event contains that event |
| EventService.DeleteTargets | calendarapp/views.py:620-625 | `delete_all` on a yearly event deletes every yearly event of the pet with that title, found by title and not by `original_event`; otherwise only the event is deleted |
| EventService.Survivors | calendarapp/views.py:618-625 | every row left after a delete is an old row, unchanged and not among the deleted ones |
| EventService.RemainingReminders | calendarapp/views.py:618-625 | the reminders left are exactly those whose event is left |
| EventService.DeleteSingle | calendarapp/views.py:603-625 | deleting a continuation, or an event nobody points at, removes exactly that event; deleting a head removes its continuations with it |
| EventService.DeleteAllEffect | calendarapp/views.py:621 | after `delete_all`, no yearly event of the pet with that title is left, and every other event whose head was not deleted is kept |
| EventService.MarkedDone | calendarapp/views.py:581-583 | marking done sets the done flag and the done year and changes nothing else |
| EventService.RolloverEvent | calendarapp/views.py:653-664 | the continuation created by the rollover copies pet and title, is yearly and not done, and points at the source's head, or at the source when that is a head |
| EventService.RolloverDate | calendarapp/views.py:648-650 | the date a source moves to is a valid date in the target year with the source's month |
| EventService.RolloverSound | calendarapp/views.py:635-668 | every created event is the continuation of a listed source on its target date, and no created event duplicates one in the table or one created earlier in the run |
| EventService.RolloverOccupies | calendarapp/views.py:652 | after the run, each source's target date is taken, in the table or by a created event |
| EventService.RolloverIdle | calendarapp/views.py:652 | when every target date is already taken, the run creates nothing |
| EventService.RolloverFillsTargets | calendarapp/views.py:635-668 | in the table the run leaves, every source's (pet, title, target date) is taken |
| EventService.RolloverRowsDated | calendarapp/views.py:648-664 | every created event is yearly and has a valid date in the target year |
| EventService.RolloverTwice | calendarapp/views.py:635-668 | the run leaves the set of sources as it was, and an immediate second run creates nothing |
| ReminderService.StoredRemindDate | calendarapp/views.py:309-320 | a repeating reminder or one without a date stores no absolute date; otherwise it stores the given date, or that date moved into the event's year when asked, raising when that day is missing |
| ReminderService.SavedReminder | calendarapp/views.py:290-321 | the saved reminder carries the form's time, repeat flag, days and interval, keeps the pet of an existing reminder, has no absolute date when repeating, and raises exactly when the stored date does |
| ReminderService.SaveReminderIdempotent | calendarapp/views.py:290-321 | saving the same form again over the saved reminder changes nothing |
| ReminderService.ReminderFormRoundTrip | calendarapp/views.py:85-96 | reading back a saved reminder gives the form that was saved |
| ReminderService.PostedReminderRoundTrip | calendarapp/views.py:70-96 | a posted reminder form with a time survives saving and reading back unchanged |
| ReminderService.SaveAllWithoutTime | calendarapp/views.py:295-296 | without a reminder time nothing is saved and nothing changes |
| ReminderService.SaveAllRaises | calendarapp/views.py:324-337 | saving the reminders of a list raises exactly when a non-repeating dated reminder's day is missing in some event's year |
| ReminderService.SaveAllEffect | calendarapp/views.py:324-337 | afterwards every listed event has exactly one reminder, saved from the form; no other reminder changes and no other is added |
| CalendarViews.EventStore.Insert | calendarapp/views.py:233 | `save()` of a new row stores it under the next key and changes nothing else |
| CalendarViews.EventStore.InsertAll | calendarapp/views.py:215-216 | `bulk_create` stores the rows in order under consecutive keys |
| CalendarViews.EventStore.CreateYearlySeries | calendarapp/views.py:174-218 | the tables become the old ones plus the planned rows under consecutive keys; it raises exactly when the plan meets a missing date; the result is the head's key and its continuations' keys, or no head when every year was skipped |
| CalendarViews.EventStore.SeriesLoop | calendarapp/views.py:184-213 | the loop visits the years in order: the head is saved at once, later rows wait, and the dates match the plan |
| CalendarViews.EventStore.SaveContinuations | calendarapp/views.py:215-216 | after the head, the waiting continuations are stored under the next keys, so the table holds the whole series in order |
| CalendarViews.EventStore.CreateSingleEvent | calendarapp/views.py:221-234 | the event is stored under the next key with the form's fields |
| CalendarViews.EventStore.CollectEdits | calendarapp/views.py:252-268 | the loop's accepted (event, date) pairs equal the specification, with `used_pairs` checked as it grows |
| CalendarViews.EventStore.WriteEdits | calendarapp/views.py:270-284 | the accepted edits are written to the table and nothing else changes |
| CalendarViews.EventStore.UpdateEvents | calendarapp/views.py:246-284 | raises exactly when the specification does and then changes nothing; otherwise returns the accepted events in order and leaves the edited table |
| CalendarViews.EventStore.SaveReminder | calendarapp/views.py:290-321 | without a time, returns None and changes nothing; otherwise writes the one reminder of the event as the specification computes it |
| CalendarViews.EventStore.SaveRemindersForEvents | calendarapp/views.py:324-337 | the reminder table becomes the specification's, and the returned list holds a reminder for each event when a time was given, none otherwise; the reminder returned for each listed event is the one stored for it at the end, also when an event is listed twice |
| CalendarViews.EventStore.CreateYearlyEventV2 | calendarapp/views.py:350-375 | a start date that raises, or one taken for the pet and title, creates nothing and is reported; otherwise the series is created, and every created event gets its reminder |
| CalendarViews.EventStore.CreateSingleEventV2 | calendarapp/views.py:378-390 | refused exactly when the (pet, title, date) is taken; otherwise the event is created with its reminder |
| CalendarViews.EventStore.AddYearly | calendarapp/views.py:428-435 | the yearly branch in its transaction: when the form's start date is taken, a refusal naming that date and no change; a raise rolls both tables back; otherwise the series and its reminders are stored and the calendar opens at the head's date |
| CalendarViews.YearlyRefused | calendarapp/views.py:350-375 | each refusal of `_create_yearly_event_v2` is a legal outcome of the yearly branch, with the tables as they were |
| CalendarViews.EventStore.AddSingle | calendarapp/views.py:436-442 | the single-event branch in its transaction: refused, changing nothing, exactly when the date is taken; otherwise the event and its reminder are stored and the calendar opens at its date |
| CalendarViews.EventStore.AddEvent | calendarapp/views.py:393-449 | refused for a non-owner, then for a missing date, then for an empty title; otherwise the yearly or single path runs, and any refusal or exception leaves both tables unchanged |
| CalendarViews.YearlyHeadOnStart | calendarapp/views.py:358-369 | when the start date is free, the head of the new series is on the start date |
| CalendarViews.YearlyRemindersCover | calendarapp/views.py:372-373 | every event of a newly created series has the form's reminder |
| CalendarViews.SeriesIdsHeld | calendarapp/views.py:372-375 | the events returned by `_create_yearly_event_v2` are the head and its continuations, all in the table |
| CalendarViews.EventStore.EditEvent | calendarapp/views.py:452-500 | not found, then not an owner, are refused exactly in those cases; otherwise the birthday or regular edit runs on the requested targets |
| CalendarViews.EventStore.HandleBirthdayEdit | calendarapp/views.py:503-531 | the targeted birthday events get the form's time, duration and note, then their reminders; an exception rolls both tables back |
| CalendarViews.EventStore.RetimeAll | calendarapp/views.py:523-527 | each targeted event is saved with the new time, duration and note; nothing else changes |
| CalendarViews.Retimed | calendarapp/views.py:523-527 | a birthday edit changes time, duration and note and nothing else |
| CalendarViews.RetimesIdempotent | calendarapp/views.py:523-527 | repeating a birthday edit changes nothing more |
| CalendarViews.RetimesKeepDuplicates | calendarapp/views.py:523-527 | a birthday edit neither creates nor removes a (pet, title, date) duplicate |
| CalendarViews.EventStore.HandleRegularEventEdit | calendarapp/views.py:534-571 | refused without a valid date and for a yearly February 29; otherwise the series or the event is updated and the updated events get their reminders; an exception rolls back |
| CalendarViews.RegularOutcomeOfUpdate | calendarapp/views.py:543-571 | with a readable date other than a yearly February 29, the edit ends as the update and its reminders end |
| CalendarViews.EventStore.UpdateWithReminders | calendarapp/views.py:561-569 | the update and the reminders in one transaction: a raise restores both tables, and success leaves the specification's edits and reminders |
| CalendarViews.EditedIdsInTable | calendarapp/views.py:567-568 | the events `update_events` returns are still in the table |
| CalendarViews.EventStore.MarkDone | calendarapp/views.py:574-587 | refused exactly when the event is missing or the user is not an owner; otherwise only that event is marked done in the current year |
| CalendarViews.EventStore.DeleteEvent | calendarapp/views.py:590-632 | refused exactly when the event is missing, the user is not an owner, or it is a series head with continuations and `delete_all` is not ticked; otherwise the targets, their continuations and their reminders are deleted |
| CalendarViews.EventStore.CreateNextYearEvents | calendarapp/views.py:635-668 | raises, creating nothing, exactly when there is a source and the year after next is out of range; otherwise the events become the old ones plus the rollover's rows, and the count is their number |
| CalendarViews.EventStore.RolloverSource | calendarapp/views.py:647-665 | one source: the continuation is saved exactly when its target date is free, counting rows saved earlier in the run |
| PetModels.DisplayOther | pets/models.py:57-61 | an "other" pet shows its custom type when it has one, and "Другое (указать)" otherwise |
| PetModels.DisplayKnownType | pets/models.py:57-61 | every other known type shows its label unchanged, whatever its custom type |
| PetModels.TypeLabelAt | pets/models.py:57-61 | `get_pet_type_display()` gives the label listed with the key |
| PetModels.Age | pets/models.py:67-76 | the months part is 0..11, and years * 12 + months is the number of whole months since the birthday |
| PetModels.AgeNotNegative | pets/models.py:67-76 | a pet born on or before today has a non-negative age |
| PetModels.AgeText | pets/models.py:78-83 | the printed age holds "г." exactly when the years are not 0, and "мес." exactly when the years are 0 or the months are not |
| PetModels.YearsTextUnits | pets/models.py:81-83 | the years part holds "г." after the number and never "мес." |
| PetModels.MonthsTextUnits | pets/models.py:79-83 | the months part holds "мес." after the number and never "г." |
| PetModels.BothUnits | pets/models.py:83 | years and months printed together hold both units |
| PetModels.AgeOf | pets/models.py:63-83 | `age` is None exactly when there is no birthday |
| PetModels.YearOldAgeMentionsYears | pets/models.py:78-83 | a pet at least a year old has "г." in its age |
| PetModels.BornIn2020 | pets/models.py:63-83 | a pet born on 2020-01-01 has "г." in its age from 2021 on |
| PetViews.CreatorCanEdit | pets/models.py:85-91 | the creator is an owner, so `is_owner` and `can_edit` hold for the creator |
| PetViews.Without | pets/views.py:191 | removing a user keeps the other owners in order and drops exactly that user; a non-owner removes nobody |
| PetViews.WithoutLength | pets/views.py:191 | with distinct owners, removal keeps them distinct and shortens the list by one exactly when the user was an owner |
| PetViews.RemoveOwner | pets/views.py:166-196 | refused, owners unchanged, exactly when the requester is not the creator, then when at most one owner is left, then when the user does not exist, then when the user is the creator; otherwise the owners lose exactly that user |
| PetViews.RemoveOwnerKeepsCreator | pets/views.py:166-196 | a removal that goes through keeps the creator first, the owners distinct, and removes exactly one owner when the user was one |
| PetViews.ChooseType | pets/views.py:24-49 | the stored type is the submitted one, or "dog" when none was submitted; the custom type is kept, stripped, exactly when the type is "other" and the stripped value is non-empty |
| PetViews.ChosenTypeShown | pets/views.py:84-96 | the saved pet shows the kept custom type, or "Другое (указать)" for "other" without one; submitting the shown custom type again keeps it |
| PetViews.BirthdayOf | pets/views.py:234-244 | no birthday, an empty one or text that is not `'%Y-%m-%d'` gives nothing; a date is used as is, and text is parsed |
| PetViews.BirthdayDate | pets/views.py:252-260 | the birthday in a given year is the calendar's safe date: `replace`, with February 28 for February 29 outside leap years |
| PetViews.BirthdayEvent | pets/views.py:262-272 | a birthday row belongs to the pet, has type "birthday", is yearly, has the given date and heads nothing |
| PetViews.BirthdayReminder | pets/views.py:274-284 | the reminder repeats every 365 days at 09:00 |
| PetViews.BirthdayRowsStep | pets/views.py:250-286 | one year of the loop: a year whose date raises ends it, and any other year adds its row |
| PetViews.CreateOrUpdateBirthdayEvent | pets/views.py:232-286 | without a readable birthday nothing changes; otherwise the pet's yearly birthday events go, the new rows are stored under fresh keys up to the first year that raises, and the first row gets the reminder |
| PetViews.ThreeBirthdayRows | pets/views.py:250-272 | with the years in range, exactly three rows are made: one on the safe date of each year |
| PetViews.BirthdayRowDates | pets/views.py:250-272 | the three rows are yearly birthday events of the pet in this year and the next two, on the birthday's month and day, with February 28 for February 29 in non-leap years |
| PetViews.RegeneratedSeries | pets/views.py:247-272 | afterwards the pet's yearly birthday events are exactly the new rows; the previous ones are gone |
| PetViews.RegeneratedReminder | pets/views.py:274-284 | the first new event has the birthday reminder, and no later key has a reminder |
| PetViews.BirthdaysRegenerated | pets/views.py:232-286 | the pet ends with exactly three yearly birthday events, under the next three keys and in this year and the next two, and only the first has a reminder |
| PetViews.OtherPetsUntouched | pets/views.py:247 | events of other pets are kept unless their head was one of the deleted birthday events |
| PetViews.IsPetCreator | pets/views.py:222-230 | the creator is the first owner the owner query returns, so the creator is an owner; a pet without owners has no creator |
| PetViews.Note | pets/views.py:145-149 | "today" exactly when the distance is 0; "soon", carrying the distance, exactly when the distance is not 0 and at most 7, so a negative distance also counts as soon |
| PetViews.ProximityAsWritten | pets/views.py:139-149 | the note as the page computes it; no birthday gives no note |
| PetViews.AsWrittenNoteInRange | pets/views.py:139-149 | whenever the page renders, the distance is not negative: "today" exactly when this year's birthday is today, and "soon" is 1 to 7 |
| PetViews.LeapBirthdayCrashes | pets/views.py:141 | the page of a pet born on February 29 raises on every day of a non-leap year |
| PetViews.LeapBirthdayPassedCrashes | pets/views.py:141-143 | the page of a pet born on February 29 also raises on every day after February 29 of a leap year, since the next birthday is moved to a non-leap year |
| PetViews.PassedBirthdayNeverSoon | pets/views.py:142-143 | a birthday that has passed this year is never "soon", because the next one is put three years ahead |
| PetViews.NoNoteAcrossNewYear | pets/views.py:139-149 | a birthday on January 2 seen on December 28 gets no note |
| PetViews.NextBirthday | pets/views.py:139-143 | the corrected next birthday is not before today, keeps the birthday's month, and is this year's or next year's |
| PetViews.BirthdayProximity | pets/views.py:139-149 | corrected: "today" exactly when this year's safe birthday is today; "soon" is 1 to 7 and is the distance to the next birthday, and a next birthday 1 to 7 days away is always reported as soon with its distance |
| PetViews.SoonAcrossNewYear | pets/views.py:139-149 | corrected: a birthday on January 2 seen on December 28 is "in 5 days" |

## Left out

- HTTP plumbing: `render`, `redirect`, `redirect_to_calendar` URL building, `messages`, the
  session error text, `login_required` and the non-POST paths that only render a page. Each
  refusal becomes an error value of the operation.
- `to_context` of both form classes only formats values for a template; the round-trip lemmas
  of `Dates` and `Forms` cover its date and time formats.
- `transaction.atomic` and `select_for_update`: each view is one sequential change of the
  tables. A raise inside a transaction restores the tables read at its start.
- The clock (`timezone.now()`, `date.today()`): the current year or date is a parameter.
- Query order: `get_series_events`, the birthday listing, the rollover's `last_year_events` and
  the owner list come in database order, which is a parameter. A listing is required to hold
  the queried set exactly once. `is_pet_creator` compares with `pet.owners.first()`, which is the
  first owner in that order; by primary key unless the unseen user model orders otherwise.
  Its docstring calls the creator the first owner added, which an order by key need not give;
  the model keeps whatever order the query has and does not decide which of the two is meant.
- calendarapp/models.py is not part of this model. The `original_event` foreign key is assumed
  to cascade, so deleting a head deletes its continuations. A reminder is deleted with its
  event. `ReminderSettings` fields missing from the update defaults are assumed to default to no
  date and no days.
- The "Не удалось создать ежегодную серию событий." branch of `_create_yearly_event_v2` is not a
  separate outcome. Once the start date is free, the series always gets its head; this is
  proved as `CalendarViews.YearlyHeadOnStart`.
- The exception handler of `delete_event`: deletion in the model never raises.
- `pet_delete`, `pets_list`, the calendar tab of `pet_detail`, and the photo, weight, breed,
  gender and features fields: plain ORM calls and presentation.
- The validation of `pet_add` and `pet_edit` (required name and birthday) and the `save()` of
  the pet: only the chosen pet type and the call to the birthday regeneration are modelled.
- Logging.
- Dates.StrptimeDate: the fields follow the patterns of Python's `strptime` for `%Y`, `%m`
  and `%d`, but only ASCII digits are accepted, while Python's `\d` also matches other Unicode
  decimal digits. The same holds for Dates.StrptimeTime.
- Text.ParseIntText: `int()` also accepts single underscores between digits and non-ASCII
  decimal digits; the model accepts neither.
- Text.IsSpace: the whitespace of `str.strip()` is the fixed set of code points Python treats
  as whitespace. There is no Unicode database beyond that.
- PetViews.CreateOrUpdateBirthdayEvent: `pet.birthday` arrives as the value the caller holds.
  That is a date read from the database, or the raw POST text that `pet_add` and `pet_edit`
  assign before calling. The model does not follow Django's conversion of that text on save.

## Findings

| source | as written | input that shows it | evidently intended | confidence | as-written member | corrected member |
|---|---|---|---|---|---|---|
| pets/views.py:141-143 | `pet.birthday.replace(year=today.year)` raises ValueError for a February 29 birthday in a non-leap year, so the pet page fails; in a leap year after February 29 the `replace(year=today.year + 3)` raises in the same way | birthday 2020-02-29, any day of 2025, or 2024-03-01 | use the leap-day fallback to February 28 that `create_or_update_birthday_event` applies in the same file | not executed | PetViews.LeapBirthdayCrashes, PetViews.LeapBirthdayPassedCrashes | PetViews.BirthdayProximity |
| pets/views.py:142-143 | a birthday that has passed this year is moved to `today.year + 3`, so it is at least 366 days ahead and never "soon" | birthday 2020-01-02 viewed on 2025-12-28: no note, although it is 5 days away | move it to `today.year + 1` | not executed | PetViews.NoNoteAcrossNewYear | PetViews.SoonAcrossNewYear |
