/**
 * The board page itself: the module-level variables of the page script and
 * the handlers that update them. Each handler is proved to move the page from
 * one slideshow state to the one the Slideshow module's matching transition
 * gives, so the invariant and the lemmas proved there hold of the page.
 * The month calendar is built cell by cell as the page builds it.
 */
module NoticeBoard {
  import opened Collections
  import opened Text
  import opened Dates
  import opened Records
  import opened Slideshow

  /** A cell of the month grid: a weekday letter, an empty cell, or a numbered day. */
  datatype Cell = DayName(letter: char) | Blank | Day(day: nat, hasEvent: bool, isToday: bool)

  class Page {
    var notices: seq<Notice>
    var events: seq<Event>
    var slideQueue: seq<Slide>
    var currentSlideIndex: nat
    var presenting: bool
    var modalShown: bool
    var intervals: set<nat>
    var slideshowInterval: nat
    var idleTimers: set<nat>
    var idleTimer: nat
    var nextHandle: nat
    /** The month the calendar shows (`currentDate`), with the day of the month it was created on. */
    var currentDate: ValidDate

    /** The page's slideshow state. */
    function Snapshot(): State
      reads this
    {
      State(notices, events, slideQueue, currentSlideIndex, presenting, modalShown,
            intervals, slideshowInterval, idleTimers, idleTimer, nextHandle)
    }

    /** The page as the script starts: stored or sample notices and events, today's month. */
    constructor(notices0: seq<Notice>, events0: seq<Event>, today: ValidDate)
      ensures Snapshot() == Initial(notices0, events0)
      ensures currentDate == today
    {
      notices, events := notices0, events0;
      slideQueue, currentSlideIndex := [], 0;
      presenting, modalShown := false, false;
      intervals, slideshowInterval := {}, 0;
      idleTimers, idleTimer := {}, 0;
      nextHandle := 1;
      currentDate := today;
    }

    /** `resetIdleTimer`. */
    method ResetIdleTimer()
      modifies this
      ensures Snapshot() == ResetIdle(old(Snapshot()))
      ensures currentDate == old(currentDate)
    {
      idleTimers := idleTimers - {idleTimer};
      if presenting || modalShown {
        return;
      }
      idleTimer := nextHandle;
      idleTimers := idleTimers + {idleTimer};
      nextHandle := nextHandle + 1;
    }

    /**
     * `buildSlideQueue`: start from an empty queue and push the three parts in
     * turn. The pushes go to a local queue that replaces the field at the end;
     * nothing can observe the field in between.
     */
    method BuildSlideQueue()
      modifies this
      ensures Snapshot() == old(Snapshot()).(slideQueue := SlideQueue(notices, events))
      ensures currentDate == old(currentDate)
    {
      var queue := BuildQueue(notices, events);
      slideQueue := queue;
    }

    /**
     * `startSlideshow(isAuto)`; `toast` says whether "No content to display!"
     * is shown. The stored slide timer is overwritten without being cleared.
     */
    method StartSlideshow(isAuto: bool) returns (toast: bool)
      modifies this
      ensures Snapshot() == Start(old(Snapshot()), isAuto)
      ensures toast == StartToast(old(Snapshot()), isAuto)
      ensures currentDate == old(currentDate)
    {
      ghost var s0 := Snapshot();
      var queue := BuildQueue(notices, events);
      if |queue| == 0 {
        StartEmptyQueue(s0, isAuto, queue);
        slideQueue := queue;
        toast := !isAuto;
        return;
      }
      StartQueue(s0, isAuto, queue);
      Present(queue);
      toast := false;
    }

    /** The non-empty branch of `startSlideshow`: store the queue, show slide 0 and arm the slide timer. */
    method Present(queue: seq<Slide>)
      modifies this
      ensures Snapshot() == old(Snapshot()).(slideQueue := queue, presenting := true, currentSlideIndex := 0,
                                             intervals := old(intervals) + {old(nextHandle)},
                                             slideshowInterval := old(nextHandle), nextHandle := old(nextHandle) + 1)
      ensures currentDate == old(currentDate)
    {
      var handle := nextHandle;
      slideQueue, presenting, currentSlideIndex, slideshowInterval, intervals, nextHandle
        := queue, true, 0, handle, intervals + {handle}, handle + 1;
    }

    /** `stopSlideshow`. */
    method StopSlideshow()
      modifies this
      ensures Snapshot() == Stop(old(Snapshot()))
      ensures currentDate == old(currentDate)
    {
      presenting := false;
      intervals := intervals - {slideshowInterval};
      ResetIdleTimer();
    }

    /** `nextSlide`, run when the slide timer h fires. */
    method NextSlide(h: nat)
      requires h in intervals && slideQueue != []
      modifies this
      ensures Snapshot() == Tick(old(Snapshot()), h)
      ensures currentDate == old(currentDate)
    {
      currentSlideIndex := (currentSlideIndex + 1) % |slideQueue|;
    }

    /** The idle timeout h fires and starts the slideshow automatically. */
    method IdleTimeout(h: nat)
      requires h in idleTimers
      modifies this
      ensures Snapshot() == IdleFire(old(Snapshot()), h)
      ensures currentDate == old(currentDate)
    {
      idleTimers := idleTimers - {h};
      var _ := StartSlideshow(true);
    }

    /** Mouse movement, a touch, or a click elsewhere on the page. */
    method OnActivity()
      modifies this
      ensures Snapshot() == Activity(old(Snapshot()))
      ensures currentDate == old(currentDate)
    {
      ResetIdleTimer();
    }

    /** A key press: the Escape listener runs first, then the idle reset. */
    method OnKeyDown(isEscape: bool)
      modifies this
      ensures Snapshot() == KeyDown(old(Snapshot()), isEscape)
      ensures currentDate == old(currentDate)
    {
      if isEscape && presenting {
        StopSlideshow();
      }
      ResetIdleTimer();
    }

    /** A click on the start button: the handler receives the (truthy) click event as `isAuto`. */
    method OnStartClick() returns (toast: bool)
      modifies this
      ensures Snapshot() == ClickStart(old(Snapshot()))
      ensures toast == ClickStartToast(old(Snapshot()))
      ensures currentDate == old(currentDate)
    {
      toast := StartSlideshow(true);
      ResetIdleTimer();
    }

    /** A click on the overlay's close button. */
    method OnCloseClick()
      modifies this
      ensures Snapshot() == ClickClose(old(Snapshot()))
      ensures currentDate == old(currentDate)
    {
      StopSlideshow();
      ResetIdleTimer();
    }

    /** A click on a notice card: the idle reset runs before the modal gets `show`. */
    method OpenNoticeModal()
      modifies this
      ensures Snapshot() == OpenNotice(old(Snapshot()))
      ensures currentDate == old(currentDate)
    {
      ResetIdleTimer();
      modalShown := true;
    }

    /** `closeModalFn`, from the close button or from a click on the backdrop. */
    method CloseNoticeModal(viaBackdrop: bool)
      modifies this
      ensures Snapshot() == CloseNotice(old(Snapshot()), viaBackdrop)
      ensures currentDate == old(currentDate)
    {
      if viaBackdrop {
        ResetIdleTimer();
        modalShown := false;
      } else {
        modalShown := false;
        ResetIdleTimer();
      }
    }

    /**
     * The admin form's submit: the new notice (its id taken from the clock)
     * goes first; the closing click on the notices tab resets the idle timer.
     */
    method SubmitNotice(n: Notice)
      modifies this
      ensures Snapshot() == Submit(old(Snapshot()), n)
      ensures notices == [n] + old(notices)
      ensures currentDate == old(currentDate)
    {
      notices := [n] + notices;
      ResetIdleTimer();
    }

    /** `deleteNotice(id)`, where `confirmed` is the answer to the confirmation dialog. */
    method DeleteNotice(id: int, confirmed: bool)
      modifies this
      ensures Snapshot() == Delete(old(Snapshot()), id, confirmed)
      ensures currentDate == old(currentDate)
    {
      if !confirmed {
        return;
      }
      notices := Filter(notices, HasOtherId(id));
    }

    /**
     * A click on the previous-month button: the click bubbles to the document's
     * idle reset, and the button's delayed callback runs
     * `setMonth(getMonth() - 1)`. The two touch disjoint state.
     */
    method PrevMonth()
      modifies this
      ensures currentDate == ChangeMonth(old(currentDate), -1)
      ensures Snapshot() == Activity(old(Snapshot()))
    {
      ResetIdleTimer();
      currentDate := ChangeMonth(currentDate, -1);
    }

    /**
     * A click on the next-month button: the click bubbles to the document's
     * idle reset, and the button's delayed callback runs
     * `setMonth(getMonth() + 1)`. The two touch disjoint state.
     */
    method NextMonth()
      modifies this
      ensures currentDate == ChangeMonth(old(currentDate), 1)
      ensures Snapshot() == Activity(old(Snapshot()))
    {
      ResetIdleTimer();
      currentDate := ChangeMonth(currentDate, 1);
    }

    /** `renderCalendar`, for the month `currentDate` falls in. */
    method RenderCalendar(today: ValidDate) returns (cells: seq<Cell>)
      ensures cells == MonthGrid(currentDate.year, currentDate.month, events, today)
    {
      cells := BuildMonthGrid(currentDate.year, currentDate.month, events, today);
    }
  }

  /** The cell of day d: flagged when an event falls on it and when it is today. */
  function DayCell(year: int, month: nat, events: seq<Event>, today: ValidDate, d: nat): Cell
  {
    Day(d, HasEventOn(events, DateKey(year, month, d)), d == today.day && month == today.month && year == today.year)
  }

  /** The cells of days 1 to n. */
  function DayCells(year: int, month: nat, events: seq<Event>, today: ValidDate, n: nat): (r: seq<Cell>)
    ensures |r| == n
  {
    if n == 0 then [] else DayCells(year, month, events, today, n - 1) + [DayCell(year, month, events, today, n)]
  }

  /**
   * c is the cell `renderCalendar` draws for day d of the month: it shows d,
   * is marked as having an event exactly when some event's date is that
   * day's key, and is marked as today exactly when day, month and year match.
   */
  predicate IsDayCell(c: Cell, year: int, month: nat, events: seq<Event>, today: ValidDate, d: nat)
  {
    && c.Day? && c.day == d
    && (c.hasEvent <==> exists i :: 0 <= i < |events| && events[i].date == DateKey(year, month, d))
    && (c.isToday <==> d == today.day && month == today.month && year == today.year)
  }

  /** Each day's cell is drawn as described. */
  lemma DayCellSpec(year: int, month: nat, events: seq<Event>, today: ValidDate, d: nat)
    ensures IsDayCell(DayCell(year, month, events, today, d), year, month, events, today, d)
  {
    HasEventOnSpec(events, DateKey(year, month, d));
  }

  /** The header cell of a weekday letter. */
  function LetterCell(c: char): Cell
  {
    DayName(c)
  }

  /** The header row: one cell per weekday letter, Sunday first. */
  function LetterCells(): (r: seq<Cell>)
    ensures |r| == 7 && forall i :: 0 <= i < 7 ==> r[i] == DayName(DayLetters[i])
  {
    Map(DayLetters, LetterCell)
  }

  /**
   * The cells `renderCalendar` draws for a month of n days whose first day
   * falls in column `first`: seven weekday letters, a blank for each column
   * before it, then one cell per day.
   */
  function MonthCells(year: int, month: nat, events: seq<Event>, today: ValidDate, first: nat, n: nat): (cells: seq<Cell>)
    ensures && |cells| == 7 + first + n
            && (forall i :: 0 <= i < 7 ==> cells[i] == DayName(DayLetters[i]))
            && (forall i :: 7 <= i < 7 + first ==> cells[i] == Blank)
  {
    Layout(LetterCells(), Blank, first, DayCells(year, month, events, today, n))
  }

  /** After the letters and the blanks, cell i is drawn for day i - 6 - first. */
  lemma MonthCellsDays(year: int, month: nat, events: seq<Event>, today: ValidDate, first: nat, n: nat)
    ensures var cells := MonthCells(year, month, events, today, first, n);
            forall i :: 7 + first <= i < |cells| ==> IsDayCell(cells[i], year, month, events, today, i - 6 - first)
  {
    forall i | 7 + first <= i < 7 + first + n {
      MonthCellAt(year, month, events, today, first, n, i);
    }
  }

  lemma MonthCellAt(year: int, month: nat, events: seq<Event>, today: ValidDate, first: nat, n: nat, i: int)
    requires 7 + first <= i < 7 + first + n
    ensures IsDayCell(MonthCells(year, month, events, today, first, n)[i], year, month, events, today, i - 6 - first)
  {
    var d := i - 6 - first;
    var cells := MonthCells(year, month, events, today, first, n);
    var c := DayCell(year, month, events, today, d);
    DayCellsAt(year, month, events, today, n, d - 1);
    assert cells[i] == DayCells(year, month, events, today, n)[d - 1] == c;
    DayCellSpec(year, month, events, today, d);
    SameDayCell(c, cells[i], year, month, events, today, d, i - 6 - first);
  }

  /**
   * Carries IsDayCell across equal cells and day numbers. Kept as its own
   * step so the solver need not unfold IsDayCell inside the caller's proof.
   */
  lemma SameDayCell(c: Cell, c': Cell, year: int, month: nat, events: seq<Event>, today: ValidDate, d: nat, d': nat)
    requires c == c' && d == d' && IsDayCell(c, year, month, events, today, d)
    ensures IsDayCell(c', year, month, events, today, d')
  {
  }

  /** The grid of a month: its first day's weekday gives the blanks, its length the day cells. */
  function MonthGrid(year: int, month: int, events: seq<Event>, today: ValidDate): seq<Cell>
    requires 0 <= month < 12
  {
    MonthCells(year, month, events, today, FirstWeekday(year, month), DaysInMonth(year, month))
  }

  /** `renderCalendar` for the month (year, month): the first day's column and the month's length, then the loops. */
  method BuildMonthGrid(year: int, month: int, events: seq<Event>, today: ValidDate) returns (cells: seq<Cell>)
    requires 0 <= month < 12
    ensures cells == MonthGrid(year, month, events, today)
  {
    var firstDayIndex := FirstWeekday(year, month);
    var lastDay := LastDate(year, month);
    cells := CalendarLoops(year, month, events, today, firstDayIndex, lastDay);
  }

  /** The three loops of `renderCalendar`: the letters, the leading blanks, the days. */
  method CalendarLoops(year: int, month: nat, events: seq<Event>, today: ValidDate, firstDayIndex: nat, lastDay: nat)
    returns (cells: seq<Cell>)
    ensures cells == MonthCells(year, month, events, today, firstDayIndex, lastDay)
  {
    var letters := PushAll([], DayLetters, LetterCell);
    assert letters == LetterCells();
    var front := PushCopies(letters, Blank, firstDayIndex);
    cells := AppendDays(front, year, month, events, today, lastDay);
  }

  /** One pass of the day loop: the key of day d and the flags of its cell. */
  method DrawDay(year: int, month: nat, events: seq<Event>, today: ValidDate, d: nat) returns (cell: Cell)
    ensures cell == DayCell(year, month, events, today, d)
  {
    var eventDateStr := DateKey(year, month, d);
    var hasEvent := HasEventOn(events, eventDateStr);
    var isToday := d == today.day && month == today.month && year == today.year;
    cell := Day(d, hasEvent, isToday);
  }

  /** The last loop of `renderCalendar`: one cell per day, 1 to lastDay. */
  method AppendDays(front: seq<Cell>, year: int, month: nat, events: seq<Event>, today: ValidDate, lastDay: nat)
    returns (cells: seq<Cell>)
    ensures cells == front + DayCells(year, month, events, today, lastDay)
  {
    cells := front;
    var d := 1;
    while d <= lastDay
      invariant 1 <= d <= lastDay + 1
      invariant cells == front + DayCells(year, month, events, today, d - 1)
    {
      var cell := DrawDay(year, month, events, today, d);
      AppendDayStep(front, cells, year, month, events, today, d);
      cells := cells + [cell];
      d := d + 1;
    }
  }

  /** Cell k of the first n is the cell of day k + 1. */
  lemma {:induction false} DayCellsAt(year: int, month: nat, events: seq<Event>, today: ValidDate, n: nat, k: nat)
    requires k < n
    ensures DayCells(year, month, events, today, n)[k] == DayCell(year, month, events, today, k + 1)
  {
    var s, t := DayCells(year, month, events, today, n), DayCells(year, month, events, today, n - 1);
    assert s == t + [DayCell(year, month, events, today, n)];
    if k < n - 1 {
      assert s[k] == t[k];
      DayCellsAt(year, month, events, today, n - 1, k);
    }
  }

  /**
   * One more day cell appended to the grid built so far extends DayCells by
   * that day. Kept as its own step so the loop's invariant check stays small.
   */
  lemma AppendDayStep(front: seq<Cell>, cells: seq<Cell>, year: int, month: nat, events: seq<Event>,
                       today: ValidDate, d: nat)
    requires d >= 1 && cells == front + DayCells(year, month, events, today, d - 1)
    ensures cells + [DayCell(year, month, events, today, d)] == front + DayCells(year, month, events, today, d)
  {
  }

  /** The pushes of `buildSlideQueue`, one part after the other. */
  method BuildQueue(notices: seq<Notice>, events: seq<Event>) returns (queue: seq<Slide>)
    ensures queue == SlideQueue(notices, events)
  {
    queue := [];
    var urgentNotices := Filter(notices, IsUrgent);
    queue := PushAll(queue, urgentNotices, UrgentSlide);
    assert [] + Map(urgentNotices, UrgentSlide) == UrgentSlides(notices);
    var upcomingEvents := Take(events, QueueLimit);
    queue := PushAll(queue, upcomingEvents, EventSlideOf);
    assert queue == UrgentSlides(notices) + EventSlides(events);
    var recentNotices := Take(Filter(notices, NotUrgent), QueueLimit);
    queue := PushAll(queue, recentNotices, RecentSlide);
    assert Map(recentNotices, RecentSlide) == RecentSlides(notices);
  }

  lemma Mod7Shift(x: int)
    ensures (x + 7) % 7 == x % 7
  {
  }

  /** The grid has between 35 and 44 cells (the seven letters included), and day d sits in the column of its weekday. */
  lemma CalendarShape(y: int, m: int, d: int)
    requires 0 <= m < 12 && 1 <= d <= DaysInMonth(y, m)
    ensures 35 <= 7 + FirstWeekday(y, m) + DaysInMonth(y, m) <= 44
    ensures (6 + FirstWeekday(y, m) + d) % 7 == WeekDay(MakeDay(y, m, d))
  {
    CellColumn(y, m, d);
    var w := FirstWeekday(y, m);
    Mod7Shift(w + d - 1);
    assert 6 + w + d == (w + d - 1) + 7;
  }
}
