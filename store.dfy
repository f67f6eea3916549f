/**
 * The data store of the board (`DataManager`): the notice, event and user
 * collections, their copies in browser storage, the sign-in record, the
 * analytics summary and the 12-hour time text. Browser storage is modelled as
 * one optional value per key; `Date.now()` is a parameter.
 */
module Store {
  import opened Collections
  import opened Text
  import opened Records

  // ---------------------------------------------------------------------------
  // Seed data

  /** The sample notices `init` stores when there are none. */
  const SeedNotices: seq<Notice> := [
    Notice(101, "Library Renovation", "The main library will be closed for renovation from Feb 15 to Feb 20.",
           "all", "public", "2026-02-10", false),
    Notice(102, "Mid-Sem Exam Schedule", "The tentative schedule for mid-semester exams is now available on the portal.",
           "all", "academic", "2026-02-12", true),
    Notice(103, "TechSymposium Registration", "Last date to register for the annual TechSymposium is Feb 25th.",
           "cs", "student", "2026-02-14", false)
  ]

  /** The sample events `init` stores when there are none. */
  const SeedEvents: seq<Event> := [
    Event(201, "Guest Lecture: AI Ethics", "Dr. Sarah Connor regarding the future of AI.",
          "academic", "cs", "2026-02-18", "14:00", "Auditorium A"),
    Event(202, "Cultural Fest Auditions", "Open for all years. Bring your ID card.",
          "student", "all", "2026-02-20", "10:00", "Student Centerbox"),
    Event(203, "Faculty Meeting", "Mandatory meeting for all HODs.",
          "faculty", "admin", "2026-02-22", "09:00", "Conference Room")
  ]

  /** The default accounts `init` stores when there are none. */
  const SeedUsers: seq<User> := [
    User(1, "System Admin", "admin", "password", "admin", "admin"),
    User(2, "Dr. Smith", "faculty", "password", "faculty", "cs"),
    User(3, "John Doe", "student", "password", "student", "cs")
  ]

  // ---------------------------------------------------------------------------
  // Updates

  function IdIs(id: int): Notice -> bool
  {
    (n: Notice) => n.id == id
  }

  function EventIdIs(id: int): Event -> bool
  {
    (e: Event) => e.id == id
  }

  /** `updateNotice`: the first notice with the update's id gets the update spread over it; None when there is none. */
  function UpdateNotices(s: seq<Notice>, p: NoticePatch): (r: Option<seq<Notice>>)
    ensures r.None? <==> forall j :: 0 <= j < |s| ==> s[j].id != p.id
  {
    ReplaceFirst(s, IdIs(p.id), n => MergeNotice(n, p))
  }

  function UpdateEvents(s: seq<Event>, p: EventPatch): (r: Option<seq<Event>>)
    ensures r.None? <==> forall j :: 0 <= j < |s| ==> s[j].id != p.id
  {
    ReplaceFirst(s, EventIdIs(p.id), e => MergeEvent(e, p))
  }

  /**
   * An update changes exactly one notice, the first with its id, to the merge
   * of that notice and the update; every id stays where it was.
   */
  lemma UpdateNoticesSpec(s: seq<Notice>, p: NoticePatch)
    ensures var r := UpdateNotices(s, p);
            r.Some? ==> && |r.value| == |s|
                        && (forall j :: 0 <= j < |s| ==> r.value[j].id == s[j].id)
                        && exists i :: && 0 <= i < |s| && s[i].id == p.id && (forall j :: 0 <= j < i ==> s[j].id != p.id)
                                       && r.value[i] == MergeNotice(s[i], p)
                                       && (forall j :: 0 <= j < |s| && j != i ==> r.value[j] == s[j])
  {
    var r := UpdateNotices(s, p);
    if r.Some? {
      var i :| && 0 <= i < |s| && IdIs(p.id)(s[i]) && (forall j :: 0 <= j < i ==> !IdIs(p.id)(s[j]))
                && r.value[i] == MergeNotice(s[i], p)
                && (forall j :: 0 <= j < |s| && j != i ==> r.value[j] == s[j]);
      assert forall j :: 0 <= j < |s| ==> r.value[j].id == s[j].id;
    }
  }

  lemma UpdateEventsSpec(s: seq<Event>, p: EventPatch)
    ensures var r := UpdateEvents(s, p);
            r.Some? ==> && |r.value| == |s|
                        && (forall j :: 0 <= j < |s| ==> r.value[j].id == s[j].id)
                        && exists i :: && 0 <= i < |s| && s[i].id == p.id && (forall j :: 0 <= j < i ==> s[j].id != p.id)
                                       && r.value[i] == MergeEvent(s[i], p)
                                       && (forall j :: 0 <= j < |s| && j != i ==> r.value[j] == s[j])
  {
    var r := UpdateEvents(s, p);
    if r.Some? {
      var i :| && 0 <= i < |s| && EventIdIs(p.id)(s[i]) && (forall j :: 0 <= j < i ==> !EventIdIs(p.id)(s[j]))
                && r.value[i] == MergeEvent(s[i], p)
                && (forall j :: 0 <= j < |s| && j != i ==> r.value[j] == s[j]);
      assert forall j :: 0 <= j < |s| ==> r.value[j].id == s[j].id;
    }
  }

  /** Saving the same update twice leaves the notices as one save did. */
  lemma UpdateNoticesIdempotent(s: seq<Notice>, p: NoticePatch)
    ensures var r := UpdateNotices(s, p);
            r.Some? ==> UpdateNotices(r.value, p) == r
  {
    forall x | IdIs(p.id)(x) ensures IdIs(p.id)(MergeNotice(x, p)) && MergeNotice(MergeNotice(x, p), p) == MergeNotice(x, p) {
      MergeNoticeIdempotent(x, p);
    }
    ReplaceFirstIdempotent(s, IdIs(p.id), n => MergeNotice(n, p));
  }

  lemma UpdateEventsIdempotent(s: seq<Event>, p: EventPatch)
    ensures var r := UpdateEvents(s, p);
            r.Some? ==> UpdateEvents(r.value, p) == r
  {
    forall x | EventIdIs(p.id)(x) ensures EventIdIs(p.id)(MergeEvent(x, p)) && MergeEvent(MergeEvent(x, p), p) == MergeEvent(x, p) {
      MergeEventIdempotent(x, p);
    }
    ReplaceFirstIdempotent(s, EventIdIs(p.id), e => MergeEvent(e, p));
  }

  // ---------------------------------------------------------------------------
  // Deletion

  /**
   * `deleteNotice(id)` keeps exactly the notices with another id, and deleting
   * the same id again changes nothing.
   */
  lemma DeleteNoticesSpec(s: seq<Notice>, id: int)
    ensures var r := Filter(s, HasOtherId(id));
            && (forall n :: n in r <==> n in s && n.id != id)
            && Filter(r, HasOtherId(id)) == r
  {
    FilterMultiset(s, HasOtherId(id));
    FilterIdempotent(s, HasOtherId(id));
    forall n | n in s && n.id != id ensures n in Filter(s, HasOtherId(id)) {
      assert multiset(s)[n] > 0;
    }
  }

  lemma DeleteEventsSpec(s: seq<Event>, id: int)
    ensures var r := Filter(s, EventHasOtherId(id));
            && (forall e :: e in r <==> e in s && e.id != id)
            && Filter(r, EventHasOtherId(id)) == r
  {
    FilterMultiset(s, EventHasOtherId(id));
    FilterIdempotent(s, EventHasOtherId(id));
    forall e | e in s && e.id != id ensures e in Filter(s, EventHasOtherId(id)) {
      assert multiset(s)[e] > 0;
    }
  }

  /** Deleting a just-added notice by the id it was given restores the list, when that id was new. */
  lemma AddThenDeleteNotice(s: seq<Notice>, n: Notice, now: int)
    requires forall j :: 0 <= j < |s| ==> s[j].id != now
    ensures Filter([n.(id := now)] + s, HasOtherId(now)) == s
  {
    FilterConcat([n.(id := now)], s, HasOtherId(now));
    FilterKeepsAll(s, HasOtherId(now));
  }

  lemma AddThenDeleteEvent(s: seq<Event>, e: Event, now: int)
    requires forall j :: 0 <= j < |s| ==> s[j].id != now
    ensures Filter([e.(id := now)] + s, EventHasOtherId(now)) == s
  {
    FilterConcat([e.(id := now)], s, EventHasOtherId(now));
    FilterKeepsAll(s, EventHasOtherId(now));
  }

  // ---------------------------------------------------------------------------
  // Accounts

  /** What `register` answers. */
  datatype Outcome = Outcome(success: bool, message: string)

  /** What `login` answers: the account, or the failure message. */
  datatype LoginResult = LoggedIn(user: User) | LoginFailed(message: string)

  function UsernameIs(name: string): User -> bool
  {
    (u: User) => u.username == name
  }

  /** Some account already has that username. */
  function UsernameTaken(users: seq<User>, name: string): (b: bool)
    ensures b <==> exists i :: 0 <= i < |users| && users[i].username == name
  {
    Any(users, UsernameIs(name))
  }

  /** No two accounts share a username. */
  predicate UniqueUsernames(users: seq<User>)
  {
    forall i, j :: 0 <= i < j < |users| ==> users[i].username != users[j].username
  }

  function Matches(username: string, password: string, role: string): User -> bool
  {
    (u: User) => u.username == username && u.password == password && u.role == role
  }

  /** `users.find(...)`: the first account whose username, password and role all match. */
  function FindUser(users: seq<User>, username: string, password: string, role: string): (r: Option<User>)
    ensures r.None? <==> forall i :: 0 <= i < |users| ==>
                           !(users[i].username == username && users[i].password == password && users[i].role == role)
    ensures r.Some? ==> r.value in users && r.value.username == username && r.value.password == password && r.value.role == role
  {
    Find(users, Matches(username, password, role))
  }

  /** The default accounts have distinct usernames. */
  lemma SeedUsersUnique()
    ensures UniqueUsernames(SeedUsers)
  {
  }

  /** A successful registration keeps usernames unique. */
  lemma RegisterKeepsUnique(users: seq<User>, u: User, now: int)
    requires UniqueUsernames(users) && !UsernameTaken(users, u.username)
    ensures UniqueUsernames(users + [u.(id := now)])
  {
  }

  /** Right after registering, the new account signs in with its own username, password and role. */
  lemma {:induction false} LoginAfterRegister(users: seq<User>, u: User, now: int)
    requires !UsernameTaken(users, u.username)
    ensures FindUser(users + [u.(id := now)], u.username, u.password, u.role) == Some(u.(id := now))
  {
    var all := users + [u.(id := now)];
    var p := Matches(u.username, u.password, u.role);
    assert p(all[|users|]);
    var k := FindIndex(all, p);
    assert k != -1;
  }

  // ---------------------------------------------------------------------------
  // Analytics

  /** One entry of `deptCounts`. */
  datatype DeptCount = DeptCount(dept: string, count: nat)

  /** `item.department || 'general'`: an empty department is counted as "general". */
  function DeptKey(d: string): (k: string)
    ensures k != "" && (d != "" ==> k == d)
  {
    if d == "" then "general" else d
  }

  /** `deptCounts[d] = (deptCounts[d] || 0) + 1`: the entry for d goes up by one, or is added at the end with 1. */
  function Bump(t: seq<DeptCount>, d: string): seq<DeptCount>
  {
    if t == [] then [DeptCount(d, 1)]
    else if t[0].dept == d then [t[0].(count := t[0].count + 1)] + t[1..]
    else [t[0]] + Bump(t[1..], d)
  }

  /** The count an object lookup finds for k (0 when k has no entry). */
  function Lookup(t: seq<DeptCount>, k: string): nat
  {
    if t == [] then 0 else if t[0].dept == k then t[0].count else Lookup(t[1..], k)
  }

  function Total(t: seq<DeptCount>): nat
  {
    if t == [] then 0 else t[0].count + Total(t[1..])
  }

  function Depts(t: seq<DeptCount>): set<string>
  {
    set e | e in t :: e.dept
  }

  predicate DistinctDepts(t: seq<DeptCount>)
  {
    forall i, j :: 0 <= i < j < |t| ==> t[i].dept != t[j].dept
  }

  /** The tally the `forEach` builds over a list of department keys, in first-seen order. */
  function Tally(s: seq<string>): (t: seq<DeptCount>)
    ensures t == [] <==> s == []
  {
    if s == [] then [] else Bump(Tally(s[..|s| - 1]), s[|s| - 1])
  }

  lemma {:induction false} BumpLookup(t: seq<DeptCount>, d: string, k: string)
    ensures Lookup(Bump(t, d), k) == Lookup(t, k) + (if k == d then 1 else 0)
  {
    if t != [] && t[0].dept != d {
      BumpLookup(t[1..], d, k);
    }
  }

  lemma {:induction false} BumpTotal(t: seq<DeptCount>, d: string)
    ensures Total(Bump(t, d)) == Total(t) + 1
  {
    if t != [] && t[0].dept != d {
      BumpTotal(t[1..], d);
    }
  }

  lemma {:induction false} BumpDepts(t: seq<DeptCount>, d: string)
    ensures Depts(Bump(t, d)) == Depts(t) + {d}
  {
    if t != [] {
      assert t == [t[0]] + t[1..];
      assert Depts(t) == {t[0].dept} + Depts(t[1..]);
      if t[0].dept == d {
        assert Depts(Bump(t, d)) == {d} + Depts(t[1..]);
      } else {
        BumpDepts(t[1..], d);
        assert Depts(Bump(t, d)) == {t[0].dept} + Depts(Bump(t[1..], d));
      }
    }
  }

  lemma {:induction false} BumpDistinct(t: seq<DeptCount>, d: string)
    requires DistinctDepts(t)
    ensures DistinctDepts(Bump(t, d))
  {
    if t != [] && t[0].dept != d {
      BumpDistinct(t[1..], d);
      BumpDepts(t[1..], d);
      var b := Bump(t, d);
      forall i, j | 0 <= i < j < |b| ensures b[i].dept != b[j].dept {
        if i == 0 {
          assert b[j] in Bump(t[1..], d);
          assert b[j].dept in Depts(t[1..]) + {d};
          if b[j].dept in Depts(t[1..]) {
            var e :| e in t[1..] && e.dept == b[j].dept;
            var m :| 0 <= m < |t[1..]| && t[1..][m] == e;
            assert t[m + 1] == e;
          }
        }
      }
    }
  }

  /** Each department's count is the number of items in it. */
  lemma {:induction false} TallyLookup(s: seq<string>, k: string)
    ensures Lookup(Tally(s), k) == multiset(s)[k]
  {
    if s != [] {
      var init := s[..|s| - 1];
      TallyLookup(init, k);
      BumpLookup(Tally(init), s[|s| - 1], k);
      assert s == init + [s[|s| - 1]];
    }
  }

  /** The counts add up to the number of items. */
  lemma {:induction false} TallyTotal(s: seq<string>)
    ensures Total(Tally(s)) == |s|
  {
    if s != [] {
      TallyTotal(s[..|s| - 1]);
      BumpTotal(Tally(s[..|s| - 1]), s[|s| - 1]);
    }
  }

  /** There is one entry per department that occurs, and no other. */
  lemma {:induction false} TallyDepts(s: seq<string>)
    ensures Depts(Tally(s)) == set x | x in s
    ensures DistinctDepts(Tally(s))
  {
    if s != [] {
      var init := s[..|s| - 1];
      TallyDepts(init);
      BumpDepts(Tally(init), s[|s| - 1]);
      BumpDistinct(Tally(init), s[|s| - 1]);
      assert s == init + [s[|s| - 1]];
      assert (set x | x in s) == (set x | x in init) + {s[|s| - 1]};
    }
  }

  /** The summary `getAnalytics` returns. */
  datatype Analytics = Analytics(
    totalItems: nat,
    noticesCount: nat,
    eventsCount: nat,
    urgentCount: nat,
    deptCounts: seq<DeptCount>)

  /** The departments of all notices followed by those of all events, as the spread array lists them. */
  function Departments(notices: seq<Notice>, events: seq<Event>): seq<string>
  {
    Map(notices, (n: Notice) => n.department) + Map(events, (e: Event) => e.department)
  }

  /**
   * The summary is consistent: the department counts add up to the total,
   * each department's count is the number of its items, departments are
   * listed once each, and there are no more urgent notices than notices.
   */
  lemma AnalyticsConsistent(notices: seq<Notice>, events: seq<Event>, a: Analytics)
    requires a.totalItems == |notices| + |events| && a.noticesCount == |notices|
    requires a.urgentCount == Count(notices, IsUrgent)
    requires a.deptCounts == Tally(Map(Departments(notices, events), DeptKey))
    ensures Total(a.deptCounts) == a.totalItems
    ensures a.urgentCount <= a.noticesCount
    ensures DistinctDepts(a.deptCounts)
    ensures forall k :: Lookup(a.deptCounts, k) == multiset(Map(Departments(notices, events), DeptKey))[k]
  {
    var keys := Map(Departments(notices, events), DeptKey);
    TallyTotal(keys);
    TallyDepts(keys);
    forall k ensures Lookup(a.deptCounts, k) == multiset(keys)[k] {
      TallyLookup(keys, k);
    }
  }

  // ---------------------------------------------------------------------------
  // Time text

  /** The hour on a 12-hour clock: 0 and 12 read 12. */
  function Clock12(h: nat): (r: nat)
    ensures 1 <= r <= 12
    ensures r % 12 == h % 12
  {
    if h % 12 == 0 then 12 else h % 12
  }

  function Meridiem(h: nat): string
  {
    if h >= 12 then "PM" else "AM"
  }

  /**
   * `formatTime(t)`: empty text stays empty; otherwise the hour before the
   * first ':' is read with `parseInt`, shown on a 12-hour clock with AM or PM,
   * and the text between the first and second ':' follows as the minutes. An
   * hour that does not start with a digit is NaN, which shows as 12 and AM;
   * text without ':' has minutes "undefined".
   */
  function FormatTime(t: string): (r: string)
    ensures r == "" <==> t == ""
    ensures t != "" ==> |r| >= 3 && (r[|r| - 3..] == " AM" || r[|r| - 3..] == " PM")
  {
    if t == "" then ""
    else
      var parts := Split(t, ':');
      var minutes := if |parts| >= 2 then parts[1] else "undefined";
      match ParseLeadingInt(parts[0])
      case None => Dec(12) + ":" + minutes + " AM"
      case Some(h) => Dec(Clock12(h)) + ":" + minutes + " " + Meridiem(h)
  }

  /** An "HH:MM" time shows as the hour on a 12-hour clock, the same minutes, and AM before noon, PM after. */
  lemma FormatTimeOfClock(hh: string, mm: string)
    requires hh != [] && AllDigits(hh) && ':' !in mm
    ensures FormatTime(hh + ":" + mm) == ShownTime(DigitsValue(hh), mm)
  {
    assert ':' !in hh by {
      forall i | 0 <= i < |hh| ensures hh[i] != ':' {
        assert IsDigit(hh[i]);
      }
    }
    SplitFront(hh, mm, ':');
    SplitNoSeparator(mm, ':');
    assert hh + ":" + mm == hh + [':'] + mm;
    LeadingDigitsOfDigits(hh, []);
    assert hh + [] == hh;
  }

  /** Text that does not start with a digit reads as NaN: the hour shows as 12 and the time as AM. */
  lemma FormatTimeNaN(t: string)
    requires t != [] && !IsDigit(t[0])
    ensures FormatTime(t)[..3] == "12:"
    ensures FormatTime(t)[|FormatTime(t)| - 3..] == " AM"
  {
    var parts := Split(t, ':');
    if t[0] != ':' {
      assert parts[0][0] == t[0];
    }
    assert Dec(12) == "12";
  }

  lemma ColonAfter(x: string, r: string)
    ensures (x + ":" + r)[|x|] == ':'
    ensures forall i :: 0 <= i < |x| ==> (x + ":" + r)[i] == x[i]
  {
  }

  lemma DigitsColonPrefix(x: string, y: string, r: string, q: string)
    requires AllDigits(x) && AllDigits(y)
    requires x + ":" + r == y + ":" + q
    ensures x == y && r == q
  {
    var a, b := x + ":" + r, y + ":" + q;
    ColonAfter(x, r);
    ColonAfter(y, q);
    if |x| < |y| {
      assert false;
    } else if |y| < |x| {
      assert false;
    }
    assert x == a[..|x|] && y == b[..|y|];
    assert r == a[|x| + 1..] && q == b[|y| + 1..];
  }

  lemma Clock12Determines(h1: nat, h2: nat)
    requires h1 < 24 && h2 < 24
    requires Clock12(h1) == Clock12(h2) && Meridiem(h1) == Meridiem(h2)
    ensures h1 == h2
  {
  }

  /** The text `formatTime` shows for hour h and minutes mm. */
  function ShownTime(h: nat, mm: string): string
  {
    Dec(Clock12(h)) + ":" + mm + " " + Meridiem(h)
  }

  lemma ShownTimeInjective(h1: nat, mm1: string, h2: nat, mm2: string)
    requires h1 < 24 && h2 < 24
    requires ShownTime(h1, mm1) == ShownTime(h2, mm2)
    ensures h1 == h2 && mm1 == mm2
  {
    var r1, r2 := mm1 + " " + Meridiem(h1), mm2 + " " + Meridiem(h2);
    assert ShownTime(h1, mm1) == Dec(Clock12(h1)) + ":" + r1;
    assert ShownTime(h2, mm2) == Dec(Clock12(h2)) + ":" + r2;
    DigitsColonPrefix(Dec(Clock12(h1)), Dec(Clock12(h2)), r1, r2);
    DecInjective(Clock12(h1), Clock12(h2));
    SuffixSplit(mm1, Meridiem(h1), mm2, Meridiem(h2));
    Clock12Determines(h1, h2);
  }

  /** Minutes followed by a space and a two-letter suffix: both parts can be read back. */
  lemma SuffixSplit(mm1: string, s1: string, mm2: string, s2: string)
    requires |s1| == 2 && |s2| == 2
    requires mm1 + " " + s1 == mm2 + " " + s2
    ensures mm1 == mm2 && s1 == s2
  {
    var r1, r2 := mm1 + " " + s1, mm2 + " " + s2;
    assert mm1 == r1[..|mm1|] && mm2 == r2[..|mm2|];
    assert s1 == r1[|mm1| + 1..] && s2 == r2[|mm2| + 1..];
  }

  /** Two different 24-hour times never show the same 12-hour text. */
  lemma FormatTimeInjective(hh1: string, mm1: string, hh2: string, mm2: string)
    requires hh1 != [] && AllDigits(hh1) && ':' !in mm1 && DigitsValue(hh1) < 24
    requires hh2 != [] && AllDigits(hh2) && ':' !in mm2 && DigitsValue(hh2) < 24
    requires FormatTime(hh1 + ":" + mm1) == FormatTime(hh2 + ":" + mm2)
    ensures DigitsValue(hh1) == DigitsValue(hh2) && mm1 == mm2
  {
    FormatTimeOfClock(hh1, mm1);
    FormatTimeOfClock(hh2, mm2);
    ShownTimeInjective(DigitsValue(hh1), mm1, DigitsValue(hh2), mm2);
  }

  // ---------------------------------------------------------------------------
  // The store

  /** `DataManager`: the collections in memory and their copies in browser storage. */
  class DataManager {
    var notices: seq<Notice>
    var events: seq<Event>
    var users: seq<User>
    /** The stored copies (`ag_notices`, `ag_events`, `ag_users`); None when the key is absent. */
    var storedNotices: Option<seq<Notice>>
    var storedEvents: Option<seq<Event>>
    var storedUsers: Option<seq<User>>
    /** `ag_current_user`: the account that last signed in. */
    var storedCurrentUser: Option<User>

    /** `init`: each collection is read from storage, or seeded and saved when its key is absent. */
    constructor Init(n0: Option<seq<Notice>>, e0: Option<seq<Event>>, u0: Option<seq<User>>, current: Option<User>)
      ensures notices == Or(n0, SeedNotices) && storedNotices == Some(notices)
      ensures events == Or(e0, SeedEvents) && storedEvents == Some(events)
      ensures users == Or(u0, SeedUsers) && storedUsers == Some(users)
      ensures storedCurrentUser == current
    {
      storedCurrentUser := current;
      if n0.Some? {
        notices := n0.value;
        storedNotices := n0;
      } else {
        notices := SeedNotices;
        storedNotices := Some(notices);
      }
      if e0.Some? {
        events := e0.value;
        storedEvents := e0;
      } else {
        events := SeedEvents;
        storedEvents := Some(events);
      }
      if u0.Some? {
        users := u0.value;
        storedUsers := u0;
      } else {
        users := SeedUsers;
        storedUsers := Some(users);
      }
    }

    /** `addNotice`: the notice, given the clock reading as its id, goes first and is saved. */
    method AddNotice(n: Notice, now: int) returns (ok: bool)
      modifies this
      ensures ok
      ensures notices == [n.(id := now)] + old(notices) && storedNotices == Some(notices)
      ensures events == old(events) && users == old(users) && storedEvents == old(storedEvents)
      ensures storedUsers == old(storedUsers) && storedCurrentUser == old(storedCurrentUser)
    {
      var added := n.(id := now);
      notices := [added] + notices;
      storedNotices := Some(notices);
      return true;
    }

    /** `updateNotice`: true and saved when a notice has the update's id, false with nothing changed otherwise. */
    method UpdateNotice(p: NoticePatch) returns (ok: bool)
      modifies this
      ensures ok <==> exists j :: 0 <= j < |old(notices)| && old(notices)[j].id == p.id
      ensures ok ==> notices == UpdateNotices(old(notices), p).value && storedNotices == Some(notices)
      ensures !ok ==> notices == old(notices) && storedNotices == old(storedNotices)
      ensures events == old(events) && users == old(users) && storedEvents == old(storedEvents)
      ensures storedUsers == old(storedUsers) && storedCurrentUser == old(storedCurrentUser)
    {
      var index := FindIndex(notices, IdIs(p.id));
      if index != -1 {
        notices := notices[index := MergeNotice(notices[index], p)];
        storedNotices := Some(notices);
        return true;
      }
      return false;
    }

    /** `deleteNotice`: the notices with that id go, and the rest are saved. */
    method DeleteNotice(id: int) returns (ok: bool)
      modifies this
      ensures ok
      ensures notices == Filter(old(notices), HasOtherId(id)) && storedNotices == Some(notices)
      ensures events == old(events) && users == old(users) && storedEvents == old(storedEvents)
      ensures storedUsers == old(storedUsers) && storedCurrentUser == old(storedCurrentUser)
    {
      notices := Filter(notices, HasOtherId(id));
      storedNotices := Some(notices);
      return true;
    }

    /** `addEvent`. */
    method AddEvent(e: Event, now: int) returns (ok: bool)
      modifies this
      ensures ok
      ensures events == [e.(id := now)] + old(events) && storedEvents == Some(events)
      ensures notices == old(notices) && users == old(users) && storedNotices == old(storedNotices)
      ensures storedUsers == old(storedUsers) && storedCurrentUser == old(storedCurrentUser)
    {
      var added := e.(id := now);
      events := [added] + events;
      storedEvents := Some(events);
      return true;
    }

    /** `updateEvent`. */
    method UpdateEvent(p: EventPatch) returns (ok: bool)
      modifies this
      ensures ok <==> exists j :: 0 <= j < |old(events)| && old(events)[j].id == p.id
      ensures ok ==> events == UpdateEvents(old(events), p).value && storedEvents == Some(events)
      ensures !ok ==> events == old(events) && storedEvents == old(storedEvents)
      ensures notices == old(notices) && users == old(users) && storedNotices == old(storedNotices)
      ensures storedUsers == old(storedUsers) && storedCurrentUser == old(storedCurrentUser)
    {
      var index := FindIndex(events, EventIdIs(p.id));
      if index != -1 {
        events := events[index := MergeEvent(events[index], p)];
        storedEvents := Some(events);
        return true;
      }
      return false;
    }

    /** `deleteEvent`. */
    method DeleteEvent(id: int) returns (ok: bool)
      modifies this
      ensures ok
      ensures events == Filter(old(events), EventHasOtherId(id)) && storedEvents == Some(events)
      ensures notices == old(notices) && users == old(users) && storedNotices == old(storedNotices)
      ensures storedUsers == old(storedUsers) && storedCurrentUser == old(storedCurrentUser)
    {
      events := Filter(events, EventHasOtherId(id));
      storedEvents := Some(events);
      return true;
    }

    /**
     * `register`: refused when the username is taken; otherwise the account,
     * given the clock reading as its id, is appended and saved.
     */
    method Register(u: User, now: int) returns (r: Outcome)
      modifies this
      ensures r.success <==> !UsernameTaken(old(users), u.username)
      ensures r.success ==> users == old(users) + [u.(id := now)] && storedUsers == Some(users)
                            && r.message == "Registration successful!"
      ensures !r.success ==> users == old(users) && storedUsers == old(storedUsers)
                             && r.message == "Username already taken."
      ensures notices == old(notices) && events == old(events) && storedNotices == old(storedNotices)
      ensures storedEvents == old(storedEvents) && storedCurrentUser == old(storedCurrentUser)
    {
      if Any(users, UsernameIs(u.username)) {
        return Outcome(false, "Username already taken.");
      }
      var added := u.(id := now);
      users := users + [added];
      storedUsers := Some(users);
      return Outcome(true, "Registration successful!");
    }

    /**
     * `login`: the first account matching all three fields signs in and is
     * stored as the current user; with no match nothing changes.
     */
    method Login(username: string, password: string, role: string) returns (r: LoginResult)
      modifies this
      ensures r.LoggedIn? <==> exists i :: 0 <= i < |users| && users[i].username == username
                                             && users[i].password == password && users[i].role == role
      ensures r.LoggedIn? ==> r.user in users && r.user.username == username && r.user.password == password
                              && r.user.role == role && storedCurrentUser == Some(r.user)
      ensures r.LoggedIn? ==> Some(r.user) == FindUser(users, username, password, role)
      ensures r.LoginFailed? ==> r.message == "Invalid credentials." && storedCurrentUser == old(storedCurrentUser)
      ensures notices == old(notices) && events == old(events) && users == old(users)
      ensures storedNotices == old(storedNotices) && storedEvents == old(storedEvents) && storedUsers == old(storedUsers)
    {
      var user := FindUser(users, username, password, role);
      if user.Some? {
        storedCurrentUser := user;
        return LoggedIn(user.value);
      }
      return LoginFailed("Invalid credentials.");
    }

    /** `getAnalytics`: the counts, and the items per department in first-seen order. */
    method GetAnalytics() returns (a: Analytics)
      ensures a.totalItems == |notices| + |events| && a.noticesCount == |notices| && a.eventsCount == |events|
      ensures a.urgentCount == Count(notices, IsUrgent)
      ensures a.deptCounts == Tally(Map(Departments(notices, events), DeptKey))
    {
      var deptCounts := CountDepartments(Departments(notices, events));
      a := Analytics(|notices| + |events|, |notices|, |events|, |Filter(notices, IsUrgent)|, deptCounts);
    }
  }

  /** The department loop of `getAnalytics`: bump the entry of each item's department, in order. */
  method CountDepartments(items: seq<string>) returns (deptCounts: seq<DeptCount>)
    ensures deptCounts == Tally(Map(items, DeptKey))
  {
    deptCounts := [];
    var i := 0;
    while i < |items|
      invariant 0 <= i <= |items|
      invariant deptCounts == Tally(Map(items[..i], DeptKey))
    {
      var d := if items[i] == "" then "general" else items[i];
      MapSnoc(items, i, DeptKey);
      assert Map(items[..i + 1], DeptKey)[..i] == Map(items[..i], DeptKey);
      deptCounts := Bump(deptCounts, d);
      i := i + 1;
    }
    assert items[..i] == items;
  }
}
