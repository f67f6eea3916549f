/**
 * The shared calendar component (`CalendarWidget`): a month grid whose day
 * cells carry their "YYYY-MM-DD" key and the today, has-event and selected
 * flags, the list of the selected day's events, and the month and selection
 * the component keeps. The widget reads its events from the data store.
 */
module CalendarWidget {
  import opened Collections
  import opened Text
  import opened Dates
  import opened Records
  import opened Store

  /** A cell of the widget's grid: a weekday letter, an empty slot, or a date. */
  datatype WidgetCell =
    | DayName(letter: char)
    | Empty
    | DateCell(day: nat, key: string, isToday: bool, hasEvent: bool, isSelected: bool)

  /** One line of the events list: the title, the 12-hour time and the venue. */
  datatype EventLine = EventLine(title: string, time: string, venue: string)

  /** What `renderEventsList` shows. */
  datatype EventsList = Prompt | NoEvents | Listing(lines: seq<EventLine>)

  /** The selection is set and not the empty string (`if (!this.selectedDate)` fails). */
  predicate HasSelection(selected: Option<string>)
  {
    selected.Some? && selected.value != ""
  }

  function LineOf(e: Event): EventLine
  {
    EventLine(e.title, FormatTime(e.time), e.venue)
  }

  /**
   * `renderEventsList`: the prompt without a selection; otherwise the events
   * whose date is the selected key, in collection order, or the "No events
   * scheduled." note when there are none.
   */
  function RenderEventsList(events: seq<Event>, selected: Option<string>): (r: EventsList)
    ensures r.Prompt? <==> !HasSelection(selected)
    ensures r.NoEvents? <==> HasSelection(selected) && forall i :: 0 <= i < |events| ==> events[i].date != selected.value
    ensures r.Listing? ==> r.lines != [] && r.lines == Map(EventsOn(events, selected.value), LineOf)
  {
    if !HasSelection(selected) then Prompt
    else
      var dayEvents := EventsOn(events, selected.value);
      HasEventOnSpec(events, selected.value);
      if |dayEvents| == 0 then NoEvents
      else Listing(Map(dayEvents, LineOf))
  }

  /** Every line of a day comes from an event on that day. */
  lemma LinesFromDayEvents(events: seq<Event>, key: string)
    ensures var lines := Map(EventsOn(events, key), LineOf);
            forall i :: 0 <= i < |lines| ==> exists e :: e in events && e.date == key && lines[i] == LineOf(e)
  {
    var d := EventsOn(events, key);
    var lines := Map(d, LineOf);
    forall i | 0 <= i < |lines| ensures exists e :: e in events && e.date == key && lines[i] == LineOf(e) {
      assert d[i] in d && lines[i] == LineOf(d[i]);
    }
  }

  /** Every event on a day has its line among the day's lines. */
  lemma DayEventsListed(events: seq<Event>, key: string)
    ensures forall e :: e in events && e.date == key ==> LineOf(e) in Map(EventsOn(events, key), LineOf)
  {
    var d := EventsOn(events, key);
    var lines := Map(d, LineOf);
    forall e | e in events && e.date == key ensures LineOf(e) in lines {
      assert e in d;
      var k :| 0 <= k < |d| && d[k] == e;
      assert lines[k] == LineOf(e);
    }
  }

  /** The listed lines are those of exactly the events on the selected day, each once per occurrence, in order. */
  lemma RenderEventsListSpec(events: seq<Event>, key: string)
    requires key != ""
    ensures var r := RenderEventsList(events, Some(key));
            r.Listing? ==> && |r.lines| == |EventsOn(events, key)|
                           && (forall i :: 0 <= i < |r.lines| ==>
                                 exists e :: e in events && e.date == key && r.lines[i] == LineOf(e))
                           && (forall e :: e in events && e.date == key ==> LineOf(e) in r.lines)
  {
    LinesFromDayEvents(events, key);
    DayEventsListed(events, key);
  }

  /** The cell of day d of the shown month. */
  function WidgetDay(year: int, month: nat, events: seq<Event>, today: ValidDate, selected: Option<string>, d: nat): WidgetCell
  {
    var key := DateKey(year, month, d);
    DateCell(d, key, d == today.day && month == today.month && year == today.year,
             HasEventOn(events, key), selected == Some(key))
  }

  function WidgetDays(year: int, month: nat, events: seq<Event>, today: ValidDate, selected: Option<string>, n: nat): (r: seq<WidgetCell>)
    ensures |r| == n
  {
    if n == 0 then [] else WidgetDays(year, month, events, today, selected, n - 1) + [WidgetDay(year, month, events, today, selected, n)]
  }

  /**
   * c is the cell `render` draws for day d: it carries the day and its
   * key, has an event exactly when some event falls on that key, is selected
   * exactly when the key is the selection, and is today exactly when day,
   * month and year all match.
   */
  predicate IsDateCell(c: WidgetCell, year: int, month: nat, events: seq<Event>, today: ValidDate,
                       selected: Option<string>, d: nat)
  {
    && c.DateCell? && c.day == d && c.key == DateKey(year, month, d)
    && (c.hasEvent <==> exists i :: 0 <= i < |events| && events[i].date == c.key)
    && (c.isSelected <==> selected == Some(c.key))
    && (c.isToday <==> d == today.day && month == today.month && year == today.year)
  }

  /** Each day's cell is drawn as described. */
  lemma WidgetDaySpec(year: int, month: nat, events: seq<Event>, today: ValidDate, selected: Option<string>, d: nat)
    ensures IsDateCell(WidgetDay(year, month, events, today, selected, d), year, month, events, today, selected, d)
  {
    HasEventOnSpec(events, DateKey(year, month, d));
  }

  /** The header cell of a weekday letter. */
  function NameCell(c: char): WidgetCell
  {
    DayName(c)
  }

  /** The header row: one cell per weekday letter, Sunday first. */
  function DayNameCells(): (r: seq<WidgetCell>)
    ensures |r| == 7 && forall i :: 0 <= i < 7 ==> r[i] == DayName(DayLetters[i])
  {
    Map(DayLetters, NameCell)
  }

  /**
   * The cells `render` draws for a month of n days whose first day falls in
   * column `first`: the seven weekday letters, `first` empty slots, then one
   * date cell per day.
   */
  function WidgetCells(year: int, month: nat, events: seq<Event>, today: ValidDate, selected: Option<string>,
                       first: nat, n: nat): (cells: seq<WidgetCell>)
    ensures && |cells| == 7 + first + n
            && (forall i :: 0 <= i < 7 ==> cells[i] == DayName(DayLetters[i]))
            && (forall i :: 7 <= i < 7 + first ==> cells[i] == Empty)
  {
    Layout(DayNameCells(), Empty, first, WidgetDays(year, month, events, today, selected, n))
  }

  /** After the letters and the empty slots, cell i is drawn for day i - 6 - first. */
  lemma WidgetCellsDays(year: int, month: nat, events: seq<Event>, today: ValidDate, selected: Option<string>,
                        first: nat, n: nat)
    ensures var cells := WidgetCells(year, month, events, today, selected, first, n);
            forall i :: 7 + first <= i < |cells| ==> IsDateCell(cells[i], year, month, events, today, selected, i - 6 - first)
  {
    forall i | 7 + first <= i < 7 + first + n {
      WidgetCellAt(year, month, events, today, selected, first, n, i);
    }
  }

  lemma WidgetCellAt(year: int, month: nat, events: seq<Event>, today: ValidDate, selected: Option<string>,
                     first: nat, n: nat, i: int)
    requires 7 + first <= i < 7 + first + n
    ensures IsDateCell(WidgetCells(year, month, events, today, selected, first, n)[i],
                       year, month, events, today, selected, i - 6 - first)
  {
    var d := i - 6 - first;
    var cells := WidgetCells(year, month, events, today, selected, first, n);
    var c := WidgetDay(year, month, events, today, selected, d);
    WidgetDaysAt(year, month, events, today, selected, n, d - 1);
    assert cells[i] == WidgetDays(year, month, events, today, selected, n)[d - 1] == c;
    WidgetDaySpec(year, month, events, today, selected, d);
    SameDateCell(c, cells[i], year, month, events, today, selected, d, i - 6 - first);
  }

  /**
   * Carries IsDateCell across equal cells and day numbers. Kept as its own
   * step so the solver need not unfold IsDateCell inside the caller's proof.
   */
  lemma SameDateCell(c: WidgetCell, c': WidgetCell, year: int, month: nat, events: seq<Event>, today: ValidDate,
                     selected: Option<string>, d: nat, d': nat)
    requires c == c' && d == d' && IsDateCell(c, year, month, events, today, selected, d)
    ensures IsDateCell(c', year, month, events, today, selected, d')
  {
  }

  /** The grid of a month: its first day's weekday gives the empty slots, its length the date cells. */
  function WidgetGrid(year: int, month: int, events: seq<Event>, today: ValidDate, selected: Option<string>): seq<WidgetCell>
    requires 0 <= month < 12
  {
    WidgetCells(year, month, events, today, selected, FirstWeekday(year, month), DaysInMonth(year, month))
  }

  /** Two days below 100 of the same month have different keys: the keys end in the padded day. */
  lemma SameMonthKeysDistinct(year: int, month: nat, d1: nat, d2: nat)
    requires d1 < 100 && d2 < 100
    requires DateKey(year, month, d1) == DateKey(year, month, d2)
    ensures d1 == d2
  {
    var k1, k2 := DateKey(year, month, d1), DateKey(year, month, d2);
    assert k1[|k1| - 2..] == Pad2(d1);
    assert k2[|k2| - 2..] == Pad2(d2);
    Pad2Injective(d1, d2);
  }

  /** A selection names at most one day of a month. */
  lemma SelectionNamesOneDay(year: int, month: nat, selected: Option<string>, d1: int, d2: int)
    requires 1 <= d1 <= 31 && selected == Some(DateKey(year, month, d1))
    requires 1 <= d2 <= 31 && selected == Some(DateKey(year, month, d2))
    ensures d1 == d2
  {
    SameMonthKeysDistinct(year, month, d1, d2);
  }

  /** A selected cell sits in the column of the day its key names. */
  lemma SelectedCellAt(year: int, month: nat, events: seq<Event>, today: ValidDate, selected: Option<string>,
                       first: nat, n: nat, i: int)
    requires n <= 31
    requires var cells := WidgetCells(year, month, events, today, selected, first, n);
             0 <= i < |cells| && cells[i].DateCell? && cells[i].isSelected
    ensures selected.Some? && i - 6 - first == KeyDay(selected.value)
  {
    WidgetCellAt(year, month, events, today, selected, first, n, i);
    KeyDayOfDateKey(year, month, i - 6 - first);
  }

  /** The day a "Y-MM-DD" key ends in. */
  function KeyDay(key: string): nat
  {
    if |key| < 2 || !AllDigits(key[|key| - 2..]) then 0 else DigitsValue(key[|key| - 2..])
  }

  lemma KeyDayOfDateKey(year: int, month: nat, d: nat)
    requires d < 100
    ensures KeyDay(DateKey(year, month, d)) == d
  {
    var k := DateKey(year, month, d);
    assert k[|k| - 2..] == Pad2(d);
  }

  /** At most one cell of a month's grid is selected. */
  lemma SingleSelection(year: int, month: nat, events: seq<Event>, today: ValidDate, selected: Option<string>,
                        first: nat, n: nat)
    requires n <= 31
    ensures var cells := WidgetCells(year, month, events, today, selected, first, n);
            forall i, j ::
              (&& 0 <= i < |cells| && 0 <= j < |cells| && cells[i].DateCell? && cells[j].DateCell?
               && cells[i].isSelected && cells[j].isSelected) ==> i == j
  {
    var cells := WidgetCells(year, month, events, today, selected, first, n);
    forall i, j | 0 <= i < |cells| && 0 <= j < |cells| && cells[i].DateCell? && cells[j].DateCell?
                  && cells[i].isSelected && cells[j].isSelected
      ensures i == j
    {
      SelectedCellsMeet(year, month, events, today, selected, first, n, i, j);
    }
  }

  lemma SelectedCellsMeet(year: int, month: nat, events: seq<Event>, today: ValidDate, selected: Option<string>,
                          first: nat, n: nat, i: int, j: int)
    requires n <= 31
    requires var cells := WidgetCells(year, month, events, today, selected, first, n);
             && 0 <= i < |cells| && cells[i].DateCell? && cells[i].isSelected
             && 0 <= j < |cells| && cells[j].DateCell? && cells[j].isSelected
    ensures i == j
  {
    SelectedCellAt(year, month, events, today, selected, first, n, i);
    SelectedCellAt(year, month, events, today, selected, first, n, j);
  }

  /** At most one cell of the grid `render` draws is selected. */
  lemma WidgetGridSingleSelection(year: int, month: int, events: seq<Event>, today: ValidDate, selected: Option<string>)
    requires 0 <= month < 12
    ensures var cells := WidgetGrid(year, month, events, today, selected);
            forall i, j ::
              (&& 0 <= i < |cells| && 0 <= j < |cells| && cells[i].DateCell? && cells[j].DateCell?
               && cells[i].isSelected && cells[j].isSelected) ==> i == j
  {
    SingleSelection(year, month, events, today, selected, FirstWeekday(year, month), DaysInMonth(year, month));
  }

  /** `render` for the month (year, month): the first day's column and the month's length, then the loops. */
  method BuildWidgetGrid(year: int, month: int, events: seq<Event>, today: ValidDate, selected: Option<string>)
    returns (cells: seq<WidgetCell>)
    requires 0 <= month < 12
    ensures cells == WidgetGrid(year, month, events, today, selected)
  {
    var firstDay := FirstWeekday(year, month);
    var daysInMonth := LastDate(year, month);
    cells := WidgetLoops(year, month, events, today, selected, firstDay, daysInMonth);
  }

  /** The three loops of `render`: the letters, the empty slots, the dates. */
  method WidgetLoops(year: int, month: nat, events: seq<Event>, today: ValidDate, selected: Option<string>,
                     firstDay: nat, daysInMonth: nat)
    returns (cells: seq<WidgetCell>)
    ensures cells == WidgetCells(year, month, events, today, selected, firstDay, daysInMonth)
  {
    var letters := PushAll([], DayLetters, NameCell);
    assert letters == DayNameCells();
    var front := PushCopies(letters, Empty, firstDay);
    cells := AppendDates(front, year, month, events, today, selected, daysInMonth);
  }

  /** Cell k of the first n is the cell of day k + 1. */
  lemma {:induction false} WidgetDaysAt(year: int, month: nat, events: seq<Event>, today: ValidDate, selected: Option<string>, n: nat, k: nat)
    requires k < n
    ensures WidgetDays(year, month, events, today, selected, n)[k] == WidgetDay(year, month, events, today, selected, k + 1)
  {
    var s, t := WidgetDays(year, month, events, today, selected, n), WidgetDays(year, month, events, today, selected, n - 1);
    assert s == t + [WidgetDay(year, month, events, today, selected, n)];
    if k < n - 1 {
      assert s[k] == t[k];
      WidgetDaysAt(year, month, events, today, selected, n - 1, k);
    }
  }

  /**
   * One more date cell appended to the grid built so far extends WidgetDays by
   * that date. Kept as its own step so the loop's invariant check stays small.
   */
  lemma AppendDateStep(front: seq<WidgetCell>, cells: seq<WidgetCell>, year: int, month: nat, events: seq<Event>,
                        today: ValidDate, selected: Option<string>, i: nat)
    requires i >= 1 && cells == front + WidgetDays(year, month, events, today, selected, i - 1)
    ensures cells + [WidgetDay(year, month, events, today, selected, i)]
         == front + WidgetDays(year, month, events, today, selected, i)
  {
  }

  /** The date loop of `render`: one cell per day, 1 to daysInMonth. */
  method AppendDates(front: seq<WidgetCell>, year: int, month: nat, events: seq<Event>, today: ValidDate,
                     selected: Option<string>, daysInMonth: nat)
    returns (cells: seq<WidgetCell>)
    ensures cells == front + WidgetDays(year, month, events, today, selected, daysInMonth)
  {
    cells := front;
    var i := 1;
    while i <= daysInMonth
      invariant 1 <= i <= daysInMonth + 1
      invariant cells == front + WidgetDays(year, month, events, today, selected, i - 1)
    {
      var cell := DrawDate(year, month, events, today, selected, i);
      AppendDateStep(front, cells, year, month, events, today, selected, i);
      cells := cells + [cell];
      i := i + 1;
    }
  }

  /** One pass of the date loop: the key of day i and the flags of its cell. */
  method DrawDate(year: int, month: nat, events: seq<Event>, today: ValidDate, selected: Option<string>, i: nat)
    returns (cell: WidgetCell)
    ensures cell == WidgetDay(year, month, events, today, selected, i)
  {
    var dateStr := DateKey(year, month, i);
    var hasEvent := HasEventOn(events, dateStr);
    var isToday := i == today.day && month == today.month && year == today.year;
    var isSelected := selected == Some(dateStr);
    cell := DateCell(i, dateStr, isToday, hasEvent, isSelected);
  }

  /** The component: the month it shows, the selected date key, and the store it reads events from. */
  class Widget {
    var date: ValidDate
    var selectedDate: Option<string>
    const dataManager: DataManager

    /** A new widget shows today's month with nothing selected. */
    constructor(dm: DataManager, today: ValidDate)
      ensures date == today && selectedDate == None && dataManager == dm
    {
      date := today;
      selectedDate := None;
      dataManager := dm;
    }

    /** `render`: the grid of the shown month and the selected day's events. */
    method Render(today: ValidDate) returns (cells: seq<WidgetCell>, list: EventsList)
      ensures cells == WidgetGrid(date.year, date.month, dataManager.events, today, selectedDate)
      ensures list == RenderEventsList(dataManager.events, selectedDate)
    {
      var events := dataManager.events;
      cells := BuildWidgetGrid(date.year, date.month, events, today, selectedDate);
      list := RenderEventsList(events, selectedDate);
    }

    /** `changeMonth(delta)`: `setMonth` on the kept date, the selection untouched, then a render. */
    method ChangeMonth(delta: int, today: ValidDate) returns (cells: seq<WidgetCell>, list: EventsList)
      modifies this
      ensures date == Dates.ChangeMonth(old(date), delta)
      ensures selectedDate == old(selectedDate)
      ensures cells == WidgetGrid(date.year, date.month, dataManager.events, today, selectedDate)
      ensures list == RenderEventsList(dataManager.events, selectedDate)
    {
      date := Dates.ChangeMonth(date, delta);
      cells, list := Render(today);
    }

    /** `selectDate(key)`: the key replaces the selection, the month stays, then a render. */
    method SelectDate(key: string, today: ValidDate) returns (cells: seq<WidgetCell>, list: EventsList)
      modifies this
      ensures selectedDate == Some(key) && date == old(date)
      ensures cells == WidgetGrid(date.year, date.month, dataManager.events, today, selectedDate)
      ensures list == RenderEventsList(dataManager.events, selectedDate)
    {
      selectedDate := Some(key);
      cells, list := Render(today);
    }
  }
}
