/** The form layer of the calendar views: reading submitted fields, the three lenient
    parsers (`parse_time`, `parse_date`, `parse_int`) and the two form records built from a
    submission or from a stored reminder. */
module Forms {
  import opened Wrappers
  import opened Text
  import opened Dates
  import opened CalendarModels

  /** A submitted form: every field name with the values sent for it, in order. */
  type Post = map<string, seq<string>>

  /** `post.get(key)`: the last value sent for `key`. */
  function Get(post: Post, key: string): (r: Option<string>)
    ensures r.Some? <==> key in post && post[key] != []
    ensures r.Some? ==> r.value == post[key][|post[key]| - 1]
  {
    if key in post && post[key] != [] then Some(post[key][|post[key]| - 1]) else None
  }

  /** `post.get(key, default)`. */
  function GetOr(post: Post, key: string, default: string): string {
    match Get(post, key)
    case Some(v) => v
    case None => default
  }

  /** `post.getlist(key)`. */
  function GetList(post: Post, key: string): seq<string> {
    if key in post then post[key] else []
  }

  /** A checkbox is ticked when its value is `'on'`. */
  predicate Ticked(post: Post, key: string) {
    Get(post, key) == Some("on")
  }

  /** `parse_time`: None for a missing value, one shorter than five characters, or one that
      does not match `'%H:%M'`. */
  function ParseTime(v: Option<string>): (r: Option<Time>)
    ensures r.Some? ==> ValidTime(r.value)
    ensures v.None? || |v.value| < 5 ==> r.None?
  {
    if v.None? || |v.value| < 5 then None else StrptimeTime(v.value)
  }

  /** `parse_date`: None for a missing value, one shorter than ten characters, or one that
      does not match `'%Y-%m-%d'` or names an impossible date. */
  function ParseDate(v: Option<string>): (r: Option<Date>)
    ensures r.Some? ==> IsValid(r.value)
    ensures v.None? || |v.value| < 10 ==> r.None?
  {
    if v.None? || |v.value| < 10 then None else StrptimeDate(v.value)
  }

  /** `parse_int`: None for a missing or empty value or one `int()` rejects. */
  function ParseInt(v: Option<string>): (r: Option<int>)
    ensures v.None? || v.value == "" ==> r.None?
  {
    if v.None? || v.value == "" then None else ParseIntText(v.value)
  }

  /** A date is accepted only in its full ten-character form: the format cannot match more
      text, and the length guard refuses less. */
  lemma ParsedDateLength(v: Option<string>)
    requires ParseDate(v).Some?
    ensures |v.value| == 10
  {
    var s := v.value;
    var k := FieldEnd(s, 5, '-');
    assert k <= 7;
    assert DayField(s[k + 1..]).Some?;
  }

  /** Likewise a time is accepted only with exactly five characters. */
  lemma ParsedTimeLength(v: Option<string>)
    requires ParseTime(v).Some?
    ensures |v.value| == 5
  {
    var s := v.value;
    var k := FieldEnd(s, 0, ':');
    assert k <= 2;
    assert MinuteField(s[k + 1..]).Some?;
  }

  /** What the form shows for a date is read back as that date. */
  lemma ParseDateRoundTrip(d: Date)
    requires IsValid(d)
    ensures ParseDate(Some(FormatDate(d))) == Some(d)
  {
    DateRoundTrip(d);
  }

  /** What the form shows for a time is read back as that time. */
  lemma ParseTimeRoundTrip(t: Time)
    requires ValidTime(t)
    ensures ParseTime(Some(FormatTime(t))) == Some(t)
  {
    TimeRoundTrip(t);
  }

  /** What the form shows for a number is read back as that number. */
  lemma ParseIntRoundTrip(i: int)
    ensures ParseInt(Some(IntToString(i))) == Some(i)
  {
    IntRoundTrip(i);
  }

  /** `EventFormData`: the event fields of a submission. */
  datatype EventFormData = EventFormData(
    title: string,
    eventType: string,
    date: Option<Date>,
    time: Option<Time>,
    duration: Option<int>,
    note: string,
    isYearly: bool)

  /** `EventFormData.from_post`. */
  function EventFormFromPost(post: Post): (f: EventFormData)
    ensures f.title == [] || (!IsSpace(f.title[0]) && !IsSpace(f.title[|f.title| - 1]))
    ensures f.title == [] <==> AllSpace(GetOr(post, "title", ""))
    ensures f.isYearly <==> Ticked(post, "is_yearly")
    ensures f.date.Some? ==> IsValid(f.date.value) && Get(post, "date").Some? && |Get(post, "date").value| == 10
  {
    var f := EventFormData(
      Strip(GetOr(post, "title", "")),
      GetOr(post, "event_type", ""),
      ParseDate(Get(post, "date")),
      ParseTime(Get(post, "time")),
      ParseInt(Get(post, "duration")),
      GetOr(post, "note", ""),
      Ticked(post, "is_yearly"));
    if f.date.Some? then ParsedDateLength(Get(post, "date")); f else f
  }

  /** `ReminderFormData`: the reminder fields of a submission. */
  datatype ReminderFormData = ReminderFormData(
    remindAt: Option<Time>,
    remindDate: Option<Date>,
    repeat: bool,
    repeatDays: seq<string>,
    repeatEvery: int)

  /** The record `ReminderFormData()` builds when given nothing. */
  const EmptyReminderForm := ReminderFormData(None, None, false, [], 1)

  /** The repetition interval `from_post` settles on: the submitted number when it is
      positive, else 1. */
  function RepeatEvery(post: Post): (n: int)
    ensures n >= 1
    ensures ParseInt(Get(post, "repeat_every")).Some? && ParseInt(Get(post, "repeat_every")).value > 0
            ==> n == ParseInt(Get(post, "repeat_every")).value
    ensures ParseInt(Get(post, "repeat_every")).None? || ParseInt(Get(post, "repeat_every")).value <= 0 ==> n == 1
  {
    var p := ParseInt(Get(post, "repeat_every"));
    // `parse_int(...) or 1` turns None and 0 into 1; the explicit test catches negatives.
    var n := if p.None? || p.value == 0 then 1 else p.value;
    if n <= 0 then 1 else n
  }

  /** `ReminderFormData.from_post`: repetition and an absolute date exclude each other,
      weekdays are only kept for a repeating reminder, and the interval is at least 1. */
  function ReminderFormFromPost(post: Post): (f: ReminderFormData)
    ensures f.repeatEvery >= 1
    ensures f.repeat <==> Ticked(post, "repeat")
    ensures f.repeat ==> f.remindDate.None? && f.repeatDays == GetList(post, "repeat_days")
    ensures !f.repeat ==> f.repeatDays == [] && f.remindDate == ParseDate(Get(post, "remind_date"))
    ensures f.remindAt == ParseTime(Get(post, "remind_at"))
  {
    var repeat := Ticked(post, "repeat");
    ReminderFormData(
      ParseTime(Get(post, "remind_at")),
      if !repeat then ParseDate(Get(post, "remind_date")) else None,
      repeat,
      if repeat then GetList(post, "repeat_days") else [],
      RepeatEvery(post))
  }

  /** `ReminderFormData.from_reminder`: the form prefilled from a stored reminder, or the
      empty form when the event has none. */
  function ReminderFormFromReminder(r: Option<Reminder>): (f: ReminderFormData)
    ensures r.None? ==> f == EmptyReminderForm
    ensures r.Some? ==> f.remindAt == r.value.remindAt && f.repeat == r.value.repeat
                        && f.repeatDays == r.value.repeatDays
    ensures r.Some? && r.value.repeat ==> f.remindDate.None?
    ensures r.Some? && !r.value.repeat ==> f.remindDate == r.value.remindDate
    ensures r.Some? && r.value.repeatEvery != 0 ==> f.repeatEvery == r.value.repeatEvery
    ensures r.Some? && r.value.repeatEvery == 0 ==> f.repeatEvery == 1
  {
    match r
    case None => EmptyReminderForm
    case Some(rem) =>
      ReminderFormData(
        rem.remindAt,
        if !rem.repeat then rem.remindDate else None,
        rem.repeat,
        rem.repeatDays,
        if rem.repeatEvery == 0 then 1 else rem.repeatEvery)
  }
}
