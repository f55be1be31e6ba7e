/** The two tables the calendar works on, as the views use them: events (calendar entries,
    grouped into yearly series by a reference to the series head) and reminder settings
    (at most one per event). */
module CalendarModels {
  import opened Wrappers
  import opened Dates

  /** Primary key of an event; the database hands out positive integers. */
  type EventId = int

  /** The pet an event or reminder belongs to. The pet's primary key is a UUID; the model
      only compares it. */
  type PetId = int

  /** One calendar entry. `headRef` is `original_event`: None for a series head or a single
      event, the head's id for a continuation of a yearly series. */
  datatype Event = Event(
    pet: PetId,
    title: string,
    eventType: string,
    date: Date,
    time: Option<Time>,
    duration: Option<int>,
    note: string,
    isYearly: bool,
    isDone: bool,
    doneYear: Option<int>,
    headRef: Option<EventId>)

  /** The exception the date constructor raises for an impossible date. */
  datatype Raised = ValueError

  /** The reminder settings of one event (the event is the key under which it is stored). */
  datatype Reminder = Reminder(
    pet: PetId,
    remindAt: Option<Time>,
    remindDate: Option<Date>,
    repeat: bool,
    repeatDays: seq<string>,
    repeatEvery: int)

  /** A table of rows keyed by primary key. */
  type Table<T> = map<EventId, T>

  /** Rows inserted one after another from primary key `base` on, as `bulk_create` and a
      sequence of `create` calls number them. */
  function Numbered(base: EventId, rows: seq<Event>): (m: Table<Event>)
    ensures forall k :: k in m <==> base <= k < base + |rows|
    ensures forall k | k in m :: m[k] == rows[k - base]
    decreases |rows|
  {
    if rows == [] then map[]
    else Numbered(base, rows[..|rows| - 1])[base + |rows| - 1 := rows[|rows| - 1]]
  }

  /** Numbering one more row extends the map by that row. */
  lemma NumberedSnoc(base: EventId, rows: seq<Event>, e: Event)
    ensures Numbered(base, rows + [e]) == Numbered(base, rows)[base + |rows| := e]
  {
    assert (rows + [e])[..|rows|] == rows;
  }

  /** Rows numbered in two batches, the second right after the first, are the rows of both
      numbered in one go. */
  lemma NumberedAppend(base: EventId, a: seq<Event>, b: seq<Event>)
    ensures Numbered(base, a) + Numbered(base + |a|, b) == Numbered(base, a + b)
  {
    var l := Numbered(base, a) + Numbered(base + |a|, b);
    var r := Numbered(base, a + b);
    forall k
      ensures k in l <==> k in r
    {
    }
    forall k | k in l
      ensures l[k] == r[k]
    {
      if k < base + |a| {
        assert (a + b)[k - base] == a[k - base];
      } else {
        assert (a + b)[k - base] == b[k - base - |a|];
      }
    }
    assert l == r;
  }

  /** A row added under a key the left table lacks extends a union of tables on its right. */
  lemma UnionUpdate<T>(a: Table<T>, b: Table<T>, k: EventId, v: T)
    requires k !in a
    ensures (a + b)[k := v] == a + b[k := v]
  {
  }

  /** Union of tables is associative. */
  lemma UnionAssoc<T>(a: Table<T>, b: Table<T>, c: Table<T>)
    ensures (a + b) + c == a + (b + c)
  {
  }

  /** No rows numbered leave a table as it is. */
  lemma NumberedNone(events: Table<Event>, base: EventId)
    ensures events + Numbered(base, []) == events
  {
    assert Numbered(base, []) == map[];
  }

  /** The rows before position `i` and the row at `i` are the rows before `i + 1`. */
  lemma NumberedTake(events: Table<Event>, base: EventId, rows: seq<Event>, i: nat)
    requires i < |rows|
    ensures events + Numbered(base, rows[..i] + [rows[i]]) == events + Numbered(base, rows[..i + 1])
  {
    assert rows[..i] + [rows[i]] == rows[..i + 1];
  }

  /** Inserting one more row under the next key after the numbered rows numbers it too. */
  lemma NumberedPush(events: Table<Event>, base: EventId, rows: seq<Event>, e: Event)
    requires forall k | k in events :: k < base
    ensures base + |rows| !in events
    ensures (events + Numbered(base, rows))[base + |rows| := e] == events + Numbered(base, rows + [e])
  {
    UnionUpdate(events, Numbered(base, rows), base + |rows|, e);
    NumberedSnoc(base, rows, e);
  }

  /** Numbered rows leave the rows of a table with lower keys alone. */
  lemma NumberedAbove(events: Table<Event>, base: EventId, rows: seq<Event>, h: EventId)
    requires h in events && h < base
    ensures h in events + Numbered(base, rows) && (events + Numbered(base, rows))[h] == events[h]
  {
  }
}
