/**
 * The records the board keeps: notices, events and user accounts, and the
 * partial records that `updateNotice` / `updateEvent` spread over a stored
 * one. Dates are "YYYY-MM-DD" strings and times "HH:MM" strings, as the
 * forms produce them.
 */
module Records {
  import opened Collections

  /** A notice. The board page and the data store share this shape. */
  datatype Notice = Notice(
    id: int,
    title: string,
    description: string,
    department: string,
    category: string,
    date: string,
    urgent: bool)

  /** An event on the calendar. */
  datatype Event = Event(
    id: int,
    title: string,
    description: string,
    category: string,
    department: string,
    date: string,
    time: string,
    venue: string)

  /** A user account. */
  datatype User = User(
    id: int,
    name: string,
    username: string,
    password: string,
    role: string,
    dept: string)

  /** `events.filter(e => e.date === key)`: the events on the day with that key, in order. */
  function EventsOn(events: seq<Event>, key: string): (r: seq<Event>)
    ensures forall e :: e in r <==> e in events && e.date == key
  {
    var r := Filter(events, (e: Event) => e.date == key);
    FilterMultiset(events, (e: Event) => e.date == key);
    assert forall e :: e in events && e.date == key ==> e in r by {
      forall e | e in events && e.date == key ensures e in r {
        assert multiset(events)[e] > 0;
      }
    }
    r
  }

  /** Some event falls on the day with that key. */
  predicate HasEventOn(events: seq<Event>, key: string)
  {
    EventsOn(events, key) != []
  }

  lemma HasEventOnSpec(events: seq<Event>, key: string)
    ensures HasEventOn(events, key) <==> exists i :: 0 <= i < |events| && events[i].date == key
  {
    var r := EventsOn(events, key);
    if r != [] {
      assert r[0] in events;
    }
  }

  function IsUrgent(n: Notice): bool { n.urgent }

  function NotUrgent(n: Notice): bool { !n.urgent }

  /** The filter a deletion applies: keep the notices whose id is not the deleted one. */
  function HasOtherId(id: int): Notice -> bool
  {
    (n: Notice) => n.id != id
  }

  function EventHasOtherId(id: int): Event -> bool
  {
    (e: Event) => e.id != id
  }

  /** The fields an update object carries; a field it leaves out is None. */
  datatype NoticePatch = NoticePatch(
    id: int,
    title: Option<string>,
    description: Option<string>,
    department: Option<string>,
    category: Option<string>,
    date: Option<string>,
    urgent: Option<bool>)

  datatype EventPatch = EventPatch(
    id: int,
    title: Option<string>,
    description: Option<string>,
    category: Option<string>,
    department: Option<string>,
    date: Option<string>,
    time: Option<string>,
    venue: Option<string>)

  function Or<T>(o: Option<T>, d: T): T
  {
    if o.Some? then o.value else d
  }

  /**
   * `{ ...stored, ...update }`: every field the update carries wins, every
   * other field keeps the stored value. The update carries the id it was
   * looked up by.
   */
  function MergeNotice(n: Notice, p: NoticePatch): (r: Notice)
    ensures r.id == p.id
    ensures (p.title.Some? ==> r.title == p.title.value) && (p.title.None? ==> r.title == n.title)
    ensures (p.description.Some? ==> r.description == p.description.value) && (p.description.None? ==> r.description == n.description)
    ensures (p.department.Some? ==> r.department == p.department.value) && (p.department.None? ==> r.department == n.department)
    ensures (p.category.Some? ==> r.category == p.category.value) && (p.category.None? ==> r.category == n.category)
    ensures (p.date.Some? ==> r.date == p.date.value) && (p.date.None? ==> r.date == n.date)
    ensures (p.urgent.Some? ==> r.urgent == p.urgent.value) && (p.urgent.None? ==> r.urgent == n.urgent)
  {
    Notice(p.id, Or(p.title, n.title), Or(p.description, n.description), Or(p.department, n.department),
           Or(p.category, n.category), Or(p.date, n.date), Or(p.urgent, n.urgent))
  }

  function MergeEvent(e: Event, p: EventPatch): (r: Event)
    ensures r.id == p.id
    ensures (p.title.Some? ==> r.title == p.title.value) && (p.title.None? ==> r.title == e.title)
    ensures (p.description.Some? ==> r.description == p.description.value) && (p.description.None? ==> r.description == e.description)
    ensures (p.category.Some? ==> r.category == p.category.value) && (p.category.None? ==> r.category == e.category)
    ensures (p.department.Some? ==> r.department == p.department.value) && (p.department.None? ==> r.department == e.department)
    ensures (p.date.Some? ==> r.date == p.date.value) && (p.date.None? ==> r.date == e.date)
    ensures (p.time.Some? ==> r.time == p.time.value) && (p.time.None? ==> r.time == e.time)
    ensures (p.venue.Some? ==> r.venue == p.venue.value) && (p.venue.None? ==> r.venue == e.venue)
  {
    Event(p.id, Or(p.title, e.title), Or(p.description, e.description), Or(p.category, e.category),
          Or(p.department, e.department), Or(p.date, e.date), Or(p.time, e.time), Or(p.venue, e.venue))
  }

  /** An update that carries only the id changes nothing. */
  lemma MergeNoticeEmpty(n: Notice)
    ensures MergeNotice(n, NoticePatch(n.id, None, None, None, None, None, None)) == n
  {
  }

  /** Applying the same update twice is applying it once. */
  lemma MergeNoticeIdempotent(n: Notice, p: NoticePatch)
    ensures MergeNotice(MergeNotice(n, p), p) == MergeNotice(n, p)
  {
  }

  /** A complete update replaces the stored record by the update's own fields. */
  lemma MergeNoticeFull(n: Notice, m: Notice)
    ensures MergeNotice(n, NoticePatch(m.id, Some(m.title), Some(m.description), Some(m.department),
                                       Some(m.category), Some(m.date), Some(m.urgent))) == m
  {
  }

  lemma MergeEventEmpty(e: Event)
    ensures MergeEvent(e, EventPatch(e.id, None, None, None, None, None, None, None)) == e
  {
  }

  lemma MergeEventIdempotent(e: Event, p: EventPatch)
    ensures MergeEvent(MergeEvent(e, p), p) == MergeEvent(e, p)
  {
  }

  lemma MergeEventFull(e: Event, m: Event)
    ensures MergeEvent(e, EventPatch(m.id, Some(m.title), Some(m.description), Some(m.category),
                                     Some(m.department), Some(m.date), Some(m.time), Some(m.venue))) == m
  {
  }
}
