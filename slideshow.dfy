/**
 * The board's kiosk slideshow as a state machine. The page keeps an overlay
 * that is either presenting or not, a notice modal that is shown or not, the
 * slide queue with the index of the slide on screen, one repeating slide
 * timer and one idle timeout. Timers are handles: setting one issues a fresh
 * handle and makes it live, clearing one makes it dead, and a live handle can
 * fire at any later step. Real durations are not modelled (15 s per slide,
 * 60 s of inactivity before the slideshow starts on its own).
 *
 * Each event a browser can deliver is a function from state to state, in the
 * order the page's listeners run: a listener on the element first, then the
 * one on `document`, then the one on `window`.
 */
module Slideshow {
  import opened Collections
  import opened Records

  /** An entry of the slide queue: a notice (with the urgent flag it was queued with) or an event. */
  datatype Slide = NoticeSlide(notice: Notice, urgent: bool) | EventSlide(event: Event)

  /** How many events, and how many non-urgent notices, the queue takes at most. */
  const QueueLimit := 5

  function UrgentSlide(n: Notice): Slide { NoticeSlide(n, true) }

  function RecentSlide(n: Notice): Slide { NoticeSlide(n, false) }

  function EventSlideOf(e: Event): Slide { EventSlide(e) }

  /** Every urgent notice, in collection order, flagged urgent. */
  function UrgentSlides(notices: seq<Notice>): seq<Slide>
  {
    Map(Filter(notices, IsUrgent), UrgentSlide)
  }

  /** The first five events, in collection order. */
  function EventSlides(events: seq<Event>): seq<Slide>
  {
    Map(Take(events, QueueLimit), EventSlideOf)
  }

  /** The first five non-urgent notices, in collection order, flagged non-urgent. */
  function RecentSlides(notices: seq<Notice>): seq<Slide>
  {
    Map(Take(Filter(notices, NotUrgent), QueueLimit), RecentSlide)
  }

  /** The urgent slides are all the urgent notices, in order, each a notice of the collection. */
  lemma UrgentSlidesSpec(notices: seq<Notice>)
    ensures var r := UrgentSlides(notices);
            && |r| == Count(notices, IsUrgent)
            && (forall i :: 0 <= i < |r| ==> r[i] == NoticeSlide(Filter(notices, IsUrgent)[i], true))
            && (forall i :: 0 <= i < |r| ==> r[i].urgent && r[i].notice.urgent && r[i].notice in notices)
  {
    FilterElements(notices, IsUrgent);
  }

  /** The event slides are the first five events, in order. */
  lemma EventSlidesSpec(events: seq<Event>)
    ensures var r := EventSlides(events);
            && |r| == Min(QueueLimit, |events|)
            && (forall i :: 0 <= i < |r| ==> r[i] == EventSlide(events[i]))
  {
  }

  /** The closing slides are the first five non-urgent notices, in order, each a notice of the collection. */
  lemma RecentSlidesSpec(notices: seq<Notice>)
    ensures var r := RecentSlides(notices);
            && |r| == Min(QueueLimit, Count(notices, NotUrgent))
            && (forall i :: 0 <= i < |r| ==> r[i] == NoticeSlide(Filter(notices, NotUrgent)[i], false))
            && (forall i :: 0 <= i < |r| ==> !r[i].urgent && !r[i].notice.urgent && r[i].notice in notices)
  {
    FilterElements(notices, NotUrgent);
  }

  /**
   * `buildSlideQueue`: every urgent notice, then the first five events, then
   * the first five non-urgent notices.
   */
  function SlideQueue(notices: seq<Notice>, events: seq<Event>): (q: seq<Slide>)
    ensures forall sl :: sl in q ==>
              if sl.NoticeSlide? then sl.notice in notices && sl.urgent == sl.notice.urgent else sl.event in events
  {
    UrgentSlidesSpec(notices);
    EventSlidesSpec(events);
    RecentSlidesSpec(notices);
    UrgentSlides(notices) + EventSlides(events) + RecentSlides(notices)
  }

  /** The queue's length is the number of urgent notices, plus at most five events, plus at most five other notices. */
  lemma SlideQueueLength(notices: seq<Notice>, events: seq<Event>)
    ensures |SlideQueue(notices, events)| == Count(notices, IsUrgent) + Min(QueueLimit, |events|) + Min(QueueLimit, Count(notices, NotUrgent))
  {
    UrgentSlidesSpec(notices);
    EventSlidesSpec(events);
    RecentSlidesSpec(notices);
  }

  /** Every notice is urgent or not, so the two filters split the notices between them. */
  lemma {:induction false} UrgencySplit(notices: seq<Notice>)
    ensures Count(notices, IsUrgent) + Count(notices, NotUrgent) == |notices|
  {
    if notices != [] {
      UrgencySplit(notices[1..]);
      assert notices == [notices[0]] + notices[1..];
    }
  }

  /** The queue is empty exactly when there are no notices and no events. */
  lemma SlideQueueEmpty(notices: seq<Notice>, events: seq<Event>)
    ensures SlideQueue(notices, events) == [] <==> notices == [] && events == []
  {
    UrgencySplit(notices);
    SlideQueueLength(notices, events);
  }

  /**
   * Where each kind of slide sits: the urgent notices (flagged urgent) fill the
   * front, the first events follow in their own order, and the first non-urgent
   * notices (flagged non-urgent) close the queue.
   */
  lemma SlideQueueLayout(notices: seq<Notice>, events: seq<Event>)
    ensures var q := SlideQueue(notices, events);
            var u := Count(notices, IsUrgent);
            var e := Min(QueueLimit, |events|);
            && (forall i :: 0 <= i < u ==> q[i] == UrgentSlides(notices)[i] && q[i].urgent && q[i].notice.urgent)
            && (forall i :: 0 <= i < e ==> q[u + i] == EventSlide(events[i]))
            && (forall i :: u + e <= i < |q| ==> q[i] == RecentSlides(notices)[i - u - e] && !q[i].urgent && !q[i].notice.urgent)
  {
    UrgentPart(notices, events);
    EventPart(notices, events);
    RecentPart(notices, events);
  }

  lemma UrgentPart(notices: seq<Notice>, events: seq<Event>)
    ensures var q := SlideQueue(notices, events);
            forall i :: 0 <= i < Count(notices, IsUrgent) ==>
              q[i] == UrgentSlides(notices)[i] && q[i].urgent && q[i].notice.urgent
  {
    var a, b, c := UrgentSlides(notices), EventSlides(events), RecentSlides(notices);
    UrgentSlidesSpec(notices);
    ThreeParts(a, b, c);
  }

  lemma EventPart(notices: seq<Notice>, events: seq<Event>)
    ensures var q := SlideQueue(notices, events);
            var u := Count(notices, IsUrgent);
            forall i :: 0 <= i < Min(QueueLimit, |events|) ==> q[u + i] == EventSlide(events[i])
  {
    var a, b, c := UrgentSlides(notices), EventSlides(events), RecentSlides(notices);
    UrgentSlidesSpec(notices);
    EventSlidesSpec(events);
    ThreeParts(a, b, c);
    forall i | 0 <= i < |b|
      ensures (a + b + c)[|a| + i] == EventSlide(events[i])
    {
    }
  }

  lemma RecentPart(notices: seq<Notice>, events: seq<Event>)
    ensures var q := SlideQueue(notices, events);
            var u, e := Count(notices, IsUrgent), Min(QueueLimit, |events|);
            forall i :: u + e <= i < |q| ==>
              q[i] == RecentSlides(notices)[i - u - e] && !q[i].urgent && !q[i].notice.urgent
  {
    var a, b, c := UrgentSlides(notices), EventSlides(events), RecentSlides(notices);
    UrgentSlidesSpec(notices);
    EventSlidesSpec(events);
    RecentSlidesSpec(notices);
    ThreeParts(a, b, c);
  }

  /** The page's slideshow state (the module globals of the board page). */
  datatype State = State(
    notices: seq<Notice>,
    events: seq<Event>,
    slideQueue: seq<Slide>,
    currentSlideIndex: nat,
    presenting: bool,        // the overlay has class `active`
    modalShown: bool,        // the notice modal has class `show`
    intervals: set<nat>,     // live slide timers
    slideshowInterval: nat,  // the handle last stored in `slideshowInterval`
    idleTimers: set<nat>,    // pending idle timeouts
    idleTimer: nat,          // the handle last stored in `idleTimer`
    nextHandle: nat)         // the next handle the browser will issue

  /** The page before any listener has run; handle 0 is never issued, so clearing it does nothing. */
  function Initial(notices: seq<Notice>, events: seq<Event>): State
  {
    State(notices, events, [], 0, false, false, {}, 0, {}, 0, 1)
  }

  /**
   * `resetIdleTimer`: clear the pending idle timeout, then set a new one
   * unless the overlay is presenting or the modal is shown.
   */
  function ResetIdle(s: State): (r: State)
    ensures r.(idleTimers := s.idleTimers, idleTimer := s.idleTimer, nextHandle := s.nextHandle) == s
    ensures r.idleTimer in r.idleTimers <==> !s.presenting && !s.modalShown
    ensures r.idleTimers - {r.idleTimer} <= s.idleTimers - {s.idleTimer}
  {
    var cleared := s.(idleTimers := s.idleTimers - {s.idleTimer});
    if s.presenting || s.modalShown then cleared
    else cleared.(idleTimers := cleared.idleTimers + {s.nextHandle}, idleTimer := s.nextHandle, nextHandle := s.nextHandle + 1)
  }

  /** The page once loaded: the idle timeout is armed. */
  function Loaded(notices: seq<Notice>, events: seq<Event>): State
  {
    ResetIdle(Initial(notices, events))
  }

  /**
   * `startSlideshow(isAuto)`: rebuild the queue; when it is empty, stop there.
   * Otherwise present from slide 0 and set a new slide timer. The timer stored
   * before is not cleared.
   */
  function Start(s: State, isAuto: bool): (r: State)
    ensures r.slideQueue == SlideQueue(s.notices, s.events)
    ensures r.presenting <==> s.presenting || r.slideQueue != []
    ensures r.slideQueue == [] ==> r == s.(slideQueue := [])
    ensures r.slideQueue != [] ==> r.currentSlideIndex == 0 && r.slideshowInterval in r.intervals
    ensures s.intervals <= r.intervals && r.intervals - s.intervals <= {r.slideshowInterval}
    ensures r.notices == s.notices && r.events == s.events && r.modalShown == s.modalShown
    ensures r.idleTimers == s.idleTimers && r.idleTimer == s.idleTimer
  {
    var q := SlideQueue(s.notices, s.events);
    if |q| == 0 then s.(slideQueue := q)
    else s.(slideQueue := q, presenting := true, currentSlideIndex := 0,
            intervals := s.intervals + {s.nextHandle}, slideshowInterval := s.nextHandle,
            nextHandle := s.nextHandle + 1)
  }

  /** With nothing to show, `startSlideshow` only stores the (empty) queue. */
  lemma StartEmptyQueue(s: State, isAuto: bool, q: seq<Slide>)
    requires q == SlideQueue(s.notices, s.events) && |q| == 0
    ensures Start(s, isAuto) == s.(slideQueue := q)
    ensures StartToast(s, isAuto) == !isAuto
  {
  }

  /** With something to show, `startSlideshow` shows the first slide and sets a new slide timer. */
  lemma StartQueue(s: State, isAuto: bool, q: seq<Slide>)
    requires q == SlideQueue(s.notices, s.events) && |q| != 0
    ensures Start(s, isAuto) == s.(slideQueue := q, presenting := true, currentSlideIndex := 0,
                                   intervals := s.intervals + {s.nextHandle}, slideshowInterval := s.nextHandle,
                                   nextHandle := s.nextHandle + 1)
    ensures !StartToast(s, isAuto)
  {
  }

  /** Whether `startSlideshow(isAuto)` shows the "No content to display!" toast. */
  function StartToast(s: State, isAuto: bool): bool
  {
    |SlideQueue(s.notices, s.events)| == 0 && !isAuto
  }

  /** `stopSlideshow`: hide the overlay, clear the stored slide timer, re-arm the idle timeout. */
  function Stop(s: State): (r: State)
    ensures !r.presenting
    ensures s.slideshowInterval !in r.intervals && r.intervals <= s.intervals
    ensures s.intervals - r.intervals <= {s.slideshowInterval}
    ensures r.idleTimer in r.idleTimers <==> !s.modalShown
    ensures r.notices == s.notices && r.events == s.events && r.slideQueue == s.slideQueue
    ensures r.currentSlideIndex == s.currentSlideIndex && r.modalShown == s.modalShown
  {
    ResetIdle(s.(presenting := false, intervals := s.intervals - {s.slideshowInterval}))
  }

  /** `nextSlide`: advance to the following slide, wrapping around at the end. */
  function NextSlide(s: State): State
    requires s.slideQueue != []
  {
    s.(currentSlideIndex := (s.currentSlideIndex + 1) % |s.slideQueue|)
  }

  /** A live slide timer fires. */
  function Tick(s: State, h: nat): (r: State)
    requires h in s.intervals && s.slideQueue != []
    ensures r.currentSlideIndex < |r.slideQueue|
    ensures s.currentSlideIndex + 1 < |s.slideQueue| ==> r.currentSlideIndex == s.currentSlideIndex + 1
    ensures s.currentSlideIndex + 1 == |s.slideQueue| ==> r.currentSlideIndex == 0
    ensures r.(currentSlideIndex := s.currentSlideIndex) == s
  {
    NextSlide(s)
  }

  /** A pending idle timeout fires: it is spent, and the slideshow starts on its own. */
  function IdleFire(s: State, h: nat): (r: State)
    requires h in s.idleTimers
    ensures r.idleTimers == s.idleTimers - {h}
    ensures r.presenting <==> s.presenting || SlideQueue(s.notices, s.events) != []
    ensures r.modalShown == s.modalShown && r.notices == s.notices && r.events == s.events
  {
    Start(s.(idleTimers := s.idleTimers - {h}), true)
  }

  /** Mouse movement, a touch, or a click whose own listener changes no slideshow state. */
  function Activity(s: State): (r: State)
    ensures r.presenting == s.presenting && r.modalShown == s.modalShown && r.intervals == s.intervals
    ensures r.notices == s.notices && r.slideQueue == s.slideQueue && r.currentSlideIndex == s.currentSlideIndex
    ensures r.idleTimer in r.idleTimers <==> !s.presenting && !s.modalShown
  {
    ResetIdle(s)
  }

  /** A key press: Escape stops a presenting slideshow; every key then resets the idle timeout. */
  function KeyDown(s: State, isEscape: bool): (r: State)
    ensures isEscape ==> !r.presenting
    ensures isEscape && s.presenting ==> s.slideshowInterval !in r.intervals && r.intervals <= s.intervals
    ensures !(isEscape && s.presenting) ==> r.presenting == s.presenting && r.intervals == s.intervals
    ensures r.idleTimer in r.idleTimers <==> !r.presenting && !s.modalShown
    ensures r.notices == s.notices && r.modalShown == s.modalShown
  {
    ResetIdle(if isEscape && s.presenting then Stop(s) else s)
  }

  /**
   * A click on the start button. The listener receives the click event as its
   * `isAuto` argument, and an event object is truthy, so the start runs as an
   * automatic one.
   */
  function ClickStart(s: State): (r: State)
    ensures r.slideQueue == SlideQueue(s.notices, s.events)
    ensures r.presenting <==> s.presenting || r.slideQueue != []
    ensures s.intervals <= r.intervals
    ensures r.idleTimer in r.idleTimers <==> !r.presenting && !s.modalShown
  {
    ResetIdle(Start(s, true))
  }

  function ClickStartToast(s: State): bool
  {
    StartToast(s, true)
  }

  /** A click on the overlay's close button. */
  function ClickClose(s: State): (r: State)
    ensures !r.presenting && s.slideshowInterval !in r.intervals && r.intervals <= s.intervals
    ensures r.idleTimer in r.idleTimers <==> !s.modalShown
  {
    ResetIdle(Stop(s))
  }

  /**
   * A click on a notice card opens the modal. Its `show` class is added on a
   * later tick, so the idle reset run by the same click still sees it hidden.
   */
  function OpenNotice(s: State): (r: State)
    ensures r.modalShown && r.presenting == s.presenting && r.intervals == s.intervals
    ensures r.idleTimer in r.idleTimers <==> !s.presenting && !s.modalShown
  {
    ResetIdle(s).(modalShown := true)
  }

  /**
   * Closing the modal. The close button's own listener hides it before the
   * idle reset runs; a click on the backdrop is handled on `window`, after it.
   */
  function CloseNotice(s: State, viaBackdrop: bool): (r: State)
    ensures !r.modalShown && r.presenting == s.presenting && r.intervals == s.intervals
    ensures r.idleTimer in r.idleTimers <==> !s.presenting && (viaBackdrop ==> !s.modalShown)
  {
    if viaBackdrop then ResetIdle(s).(modalShown := false)
    else ResetIdle(s.(modalShown := false))
  }

  /**
   * The admin form publishes a notice: it goes to the front of the list. The
   * handler then clicks the notices tab, and that click bubbles to the
   * document's idle reset.
   */
  function Submit(s: State, n: Notice): (r: State)
    ensures |r.notices| == |s.notices| + 1 && r.notices[0] == n && r.notices[1..] == s.notices
    ensures r.events == s.events && r.presenting == s.presenting && r.slideQueue == s.slideQueue
    ensures r.idleTimer in r.idleTimers <==> !s.presenting && !s.modalShown
  {
    ResetIdle(s.(notices := [n] + s.notices))
  }

  /** `deleteNotice(id)` after `confirm`: declined, nothing changes; confirmed, the id's notices go. */
  function Delete(s: State, id: int, confirmed: bool): (r: State)
    ensures r.(notices := s.notices) == s
    ensures !confirmed ==> r == s
    ensures confirmed ==> forall x :: x in r.notices <==> x in s.notices && x.id != id
  {
    if confirmed then
      var kept := Filter(s.notices, HasOtherId(id));
      assert forall x :: x in kept <==> x in s.notices && x.id != id by {
        FilterMultiset(s.notices, HasOtherId(id));
        forall x ensures x in kept <==> x in s.notices && x.id != id {
          assert x in kept <==> multiset(kept)[x] > 0;
          assert x in s.notices <==> multiset(s.notices)[x] > 0;
        }
      }
      s.(notices := kept)
    else s
  }

  /**
   * What every reachable state satisfies: a slide timer is live exactly while
   * the overlay presents, and it is the stored one; the slide on screen is in
   * the queue; at most one idle timeout is pending, it is the stored one, and
   * none is pending while presenting; every handle was issued.
   */
  predicate Inv(s: State)
  {
    TimersOk(s) && (s.idleTimers != {} ==> !s.presenting)
  }

  /** Inv without its last clause, which the idle reset that follows a start restores. */
  predicate TimersOk(s: State)
  {
    && s.intervals == (if s.presenting then {s.slideshowInterval} else {})
    && (s.presenting ==> s.currentSlideIndex < |s.slideQueue|)
    && s.idleTimers <= {s.idleTimer}
    && s.slideshowInterval < s.nextHandle
    && s.idleTimer < s.nextHandle
  }

  lemma LoadedInv(notices: seq<Notice>, events: seq<Event>)
    ensures Inv(Loaded(notices, events))
    ensures Loaded(notices, events).idleTimers == {Loaded(notices, events).idleTimer}
  {
  }

  /**
   * The idle reset always clears the pending timeout, and arms a new one
   * exactly when neither the overlay nor the modal is up; so at most one is
   * ever pending.
   */
  lemma ResetIdleSpec(s: State)
    requires TimersOk(s)
    ensures var r := ResetIdle(s);
            && Inv(r)
            && s.idleTimer !in r.idleTimers
            && (r.idleTimers != {} <==> !s.presenting && !s.modalShown)
            && |r.idleTimers| <= 1
            && r.presenting == s.presenting && r.intervals == s.intervals
  {
    var r := ResetIdle(s);
    assert r.idleTimers <= {r.idleTimer};
    if r.idleTimers != {} {
      assert r.idleTimers == {r.idleTimer};
    }
  }

  /**
   * With nothing to show, the start leaves the overlay down and sets no slide
   * timer; the toast is shown only for a start that was not automatic.
   */
  lemma StartEmpty(s: State, isAuto: bool)
    requires SlideQueue(s.notices, s.events) == []
    ensures var r := Start(s, isAuto);
            && r.presenting == s.presenting && r.intervals == s.intervals
            && r.idleTimers == s.idleTimers && r.slideQueue == []
    ensures StartToast(s, isAuto) <==> !isAuto
  {
  }

  /** A start with something to show presents slide 0 of the freshly built queue. */
  lemma StartShows(s: State, isAuto: bool)
    requires Inv(s)
    requires s.notices != [] || s.events != []
    ensures var r := Start(s, isAuto);
            && r.presenting && r.currentSlideIndex == 0 && r.currentSlideIndex < |r.slideQueue|
            && r.slideQueue == SlideQueue(s.notices, s.events)
            && r.slideshowInterval in r.intervals && r.slideshowInterval !in s.intervals
            && !StartToast(s, isAuto)
  {
    SlideQueueEmpty(s.notices, s.events);
  }

  /**
   * An automatic start that finds nothing to show returns before anything
   * re-arms the idle timeout: no timeout is pending afterwards, so the page
   * waits for the next user activity.
   */
  lemma IdleFireOnEmptyDisarms(s: State, h: nat)
    requires Inv(s) && h in s.idleTimers
    requires s.notices == [] && s.events == []
    ensures IdleFire(s, h).idleTimers == {}
    ensures !IdleFire(s, h).presenting
  {
    SlideQueueEmpty(s.notices, s.events);
  }

  /** The slide timer advances the index modulo the queue length, so it stays inside the queue. */
  lemma NextSlideInQueue(s: State)
    requires s.slideQueue != []
    ensures NextSlide(s).currentSlideIndex < |s.slideQueue|
    ensures NextSlide(s).slideQueue == s.slideQueue
  {
  }

  /** n firings of the slide timer. */
  function Ticks(s: State, n: nat): (r: State)
    requires s.slideQueue != []
    ensures r.slideQueue == s.slideQueue
    decreases n
  {
    if n == 0 then s else NextSlide(Ticks(s, n - 1))
  }

  lemma {:induction false} MulAtLeast(d: nat, q: nat)
    requires d >= 1
    ensures d * q >= q
  {
    if d > 1 {
      MulAtLeast(d - 1, q);
      assert d * q == (d - 1) * q + q;
    }
  }

  /** The remainder is the only r in [0, q) with x = k * q + r. */
  lemma ModUnique(x: int, q: int, k: int, r: int)
    requires q > 0 && x == k * q + r && 0 <= r < q
    ensures x % q == r
  {
    var k', r' := x / q, x % q;
    assert x == k' * q + r';
    assert (k' - k) * q == r - r';
    if k' > k {
      MulAtLeast(k' - k, q);
    } else if k' < k {
      assert (k - k') * q == r' - r;
      MulAtLeast(k - k', q);
    }
  }

  lemma ModStep(a: int, q: int)
    requires q > 0
    ensures (a % q + 1) % q == (a + 1) % q
  {
    var k, r := a / q, a % q;
    assert a == k * q + r;
    if r + 1 < q {
      ModUnique(a + 1, q, k, r + 1);
      ModUnique(r + 1, q, 0, r + 1);
    } else {
      assert a + 1 == (k + 1) * q;
      ModUnique(a + 1, q, k + 1, 0);
      ModUnique(r + 1, q, 1, 0);
    }
  }

  /** After n slide timer firings from slide a, slide (a + n) mod |queue| is on screen. */
  lemma {:induction false} TicksIndex(s: State, n: nat)
    requires s.slideQueue != [] && s.currentSlideIndex < |s.slideQueue|
    ensures Ticks(s, n).currentSlideIndex == (s.currentSlideIndex + n) % |s.slideQueue|
  {
    if n > 0 {
      TicksIndex(s, n - 1);
      ModStep(s.currentSlideIndex + n - 1, |s.slideQueue|);
    }
  }

  /** After a start and n firings, slide n mod |queue| is on screen. */
  lemma StartThenTicks(s: State, isAuto: bool, n: nat)
    requires Inv(s)
    requires s.notices != [] || s.events != []
    ensures Start(s, isAuto).slideQueue != []
    ensures Ticks(Start(s, isAuto), n).currentSlideIndex == n % |SlideQueue(s.notices, s.events)|
  {
    StartShows(s, isAuto);
    TicksIndex(Start(s, isAuto), n);
  }

  /** Stopping hides the overlay, kills the slide timer and leaves exactly one idle timeout pending (the modal closed). */
  lemma StopSpec(s: State)
    requires Inv(s) && !s.modalShown
    ensures var r := Stop(s);
            && Inv(r) && !r.presenting && r.intervals == {} && |r.idleTimers| == 1
  {
    var m := s.(presenting := false, intervals := s.intervals - {s.slideshowInterval});
    assert Inv(m);
    ResetIdleSpec(m);
    assert ResetIdle(m).idleTimers == {ResetIdle(m).idleTimer};
  }

  // The invariant holds from page load on, whichever event the browser delivers.

  lemma ActivityInv(s: State)
    requires Inv(s)
    ensures Inv(Activity(s))
  {
    ResetIdleSpec(s);
  }

  lemma KeyDownInv(s: State, isEscape: bool)
    requires Inv(s)
    ensures Inv(KeyDown(s, isEscape))
    ensures isEscape ==> !KeyDown(s, isEscape).presenting
  {
    var m := if isEscape && s.presenting then Stop(s) else s;
    if isEscape && s.presenting {
      var c := s.(presenting := false, intervals := s.intervals - {s.slideshowInterval});
      assert Inv(c);
      ResetIdleSpec(c);
    }
    ResetIdleSpec(m);
  }

  lemma ClickStartInv(s: State)
    requires Inv(s) && !s.presenting
    ensures Inv(ClickStart(s))
  {
    var m := Start(s, true);
    SlideQueueEmpty(s.notices, s.events);
    assert TimersOk(m);
    ResetIdleSpec(m);
  }

  lemma ClickCloseInv(s: State)
    requires Inv(s)
    ensures Inv(ClickClose(s)) && !ClickClose(s).presenting && ClickClose(s).intervals == {}
  {
    var c := s.(presenting := false, intervals := s.intervals - {s.slideshowInterval});
    assert Inv(c);
    ResetIdleSpec(c);
    ResetIdleSpec(Stop(s));
  }

  lemma TickInv(s: State, h: nat)
    requires Inv(s) && h in s.intervals && s.slideQueue != []
    ensures Inv(Tick(s, h))
  {
  }

  lemma IdleFireInv(s: State, h: nat)
    requires Inv(s) && h in s.idleTimers
    ensures Inv(IdleFire(s, h))
    ensures IdleFire(s, h).idleTimers == {}
  {
  }

  lemma OpenNoticeInv(s: State)
    requires Inv(s)
    ensures Inv(OpenNotice(s)) && OpenNotice(s).modalShown
  {
    ResetIdleSpec(s);
  }

  lemma CloseNoticeInv(s: State, viaBackdrop: bool)
    requires Inv(s)
    ensures Inv(CloseNotice(s, viaBackdrop)) && !CloseNotice(s, viaBackdrop).modalShown
  {
    ResetIdleSpec(s);
    ResetIdleSpec(s.(modalShown := false));
  }

  /**
   * Publishing puts the notice first and keeps the others behind it; the
   * slideshow is untouched, and the idle timeout is re-armed unless the
   * overlay or the modal is up.
   */
  lemma SubmitSpec(s: State, n: Notice)
    requires Inv(s)
    ensures var r := Submit(s, n);
            && Inv(r) && r.notices[0] == n && r.notices[1..] == s.notices && |r.notices| == |s.notices| + 1
            && r.presenting == s.presenting && r.intervals == s.intervals && r.slideQueue == s.slideQueue
            && s.idleTimer !in r.idleTimers
            && (r.idleTimers != {} <==> !s.presenting && !s.modalShown)
  {
    ResetIdleSpec(s.(notices := [n] + s.notices));
  }

  /**
   * A declined confirmation changes nothing. A confirmed delete leaves no
   * notice with the id, keeps every other notice in order, and deleting again
   * changes nothing more.
   */
  lemma DeleteSpec(s: State, id: int, confirmed: bool)
    requires Inv(s)
    ensures Inv(Delete(s, id, confirmed))
    ensures !confirmed ==> Delete(s, id, confirmed) == s
    ensures confirmed ==>
              var r := Delete(s, id, true);
              && (forall n :: n in r.notices <==> n in s.notices && n.id != id)
              && r.notices == Filter(s.notices, HasOtherId(id))
              && Delete(r, id, true) == r
  {
    if confirmed {
      FilterIdempotent(s.notices, HasOtherId(id));
      FilterMultiset(s.notices, HasOtherId(id));
      forall n | n in s.notices && n.id != id ensures n in Delete(s, id, true).notices {
        assert multiset(s.notices)[n] > 0;
      }
    }
  }

  // Finding: the idle guard is checked when the timeout is set, not when it fires.

  /**
   * Opening a notice arms the idle timeout (the modal is not yet `show` when
   * the click's idle reset runs). If the reader then stays still, the timeout
   * fires and the slideshow starts on top of the open modal.
   */
  lemma IdleStartsOverModal(notices: seq<Notice>, events: seq<Event>)
    requires notices != [] || events != []
    ensures var s := OpenNotice(Loaded(notices, events));
            && s.modalShown && s.idleTimers == {s.idleTimer}
            && IdleFire(s, s.idleTimer).presenting && IdleFire(s, s.idleTimer).modalShown
  {
    var s := OpenNotice(Loaded(notices, events));
    SlideQueueEmpty(s.notices, s.events);
  }

  /** The intended idle timeout: it checks the overlay and the modal again when it fires. */
  function IdleFireGuarded(s: State, h: nat): State
    requires h in s.idleTimers
  {
    var spent := s.(idleTimers := s.idleTimers - {h});
    if spent.presenting || spent.modalShown then spent else Start(spent, true)
  }

  /** With the guard checked on firing, an idle timeout never starts the slideshow over the modal. */
  lemma IdleFireGuardedSpec(s: State, h: nat)
    requires Inv(s) && h in s.idleTimers
    ensures var r := IdleFireGuarded(s, h);
            && Inv(r)
            && (r.presenting ==> !r.modalShown)
            && r.idleTimers == {}
  {
  }

  // Finding: a start while presenting leaves the earlier slide timer running.

  /**
   * Starting again while the overlay presents (the start button keeps the
   * keyboard focus, so Enter or Space clicks it again) sets a second slide
   * timer; after the overlay is closed the first one is still live and keeps
   * advancing the hidden slideshow.
   */
  lemma StartWhilePresentingLeaks(s: State)
    requires Inv(s) && s.presenting && s.slideQueue != []
    requires s.notices != [] || s.events != []
    ensures var r := ClickStart(s);
            && |r.intervals| == 2
            && !ClickClose(r).presenting && ClickClose(r).intervals == {s.slideshowInterval}
  {
    SlideQueueEmpty(s.notices, s.events);
    var m := Start(s, true);
    assert m.presenting && m.slideshowInterval == s.nextHandle;
    assert m.intervals == {s.slideshowInterval, s.nextHandle};
    var r := ResetIdle(m);
    assert r.intervals == m.intervals && r.slideshowInterval == s.nextHandle;
    assert |r.intervals| == 2;
    var stopped := r.(presenting := false, intervals := r.intervals - {r.slideshowInterval});
    assert stopped.intervals == {s.slideshowInterval};
    assert ResetIdle(stopped).intervals == stopped.intervals;
    assert ResetIdle(ResetIdle(stopped)).intervals == stopped.intervals;
  }

  /** The intended start: the stored slide timer is cleared before a new one is set. */
  function StartClearing(s: State, isAuto: bool): State
  {
    var q := SlideQueue(s.notices, s.events);
    if |q| == 0 then s.(slideQueue := q)
    else s.(slideQueue := q, presenting := true, currentSlideIndex := 0,
            intervals := (s.intervals - {s.slideshowInterval}) + {s.nextHandle},
            slideshowInterval := s.nextHandle, nextHandle := s.nextHandle + 1)
  }

  /** Clearing first keeps a single slide timer from any state, even one that already presents. */
  lemma StartClearingInv(s: State, isAuto: bool)
    requires Inv(s)
    requires s.presenting ==> s.notices != [] || s.events != []
    ensures TimersOk(StartClearing(s, isAuto))
    ensures |StartClearing(s, isAuto).intervals| <= 1
    ensures Inv(ResetIdle(StartClearing(s, isAuto)))
  {
    SlideQueueEmpty(s.notices, s.events);
    var r := StartClearing(s, isAuto);
    if SlideQueue(s.notices, s.events) == [] {
      assert r == s.(slideQueue := []);
      assert !s.presenting;
    } else {
      assert r.presenting && r.intervals == {r.slideshowInterval};
    }
    assert TimersOk(r);
    ResetIdleSpec(r);
  }

  // Finding: the start button's click never shows the empty-queue toast.

  /** The click event arrives as a truthy `isAuto`, so a click with nothing to show is silent. */
  lemma ClickStartNeverToasts(s: State)
    ensures !ClickStartToast(s)
  {
  }

  /** The intended button handler starts with `isAuto` false. */
  function ClickStartIntendedToast(s: State): bool
  {
    StartToast(s, false)
  }

  /** Then the toast appears exactly when there is nothing to show. */
  lemma ClickStartIntendedToastSpec(s: State)
    ensures ClickStartIntendedToast(s) <==> s.notices == [] && s.events == []
  {
    SlideQueueEmpty(s.notices, s.events);
  }
}
