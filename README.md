# Campus notice board: a verified model

This project models the client-side logic of a campus notice board: the board page script (`script.js`), the data store (`assets/js/data.js`) and the shared calendar component (`assets/js/calendar.js`).

On the page:
- the notice list is filtered and sorted;
- the urgent ticker lists urgent titles;
- a kiosk slideshow runs from a slide queue, with a slide timer and an idle timeout that starts it on its own;
- an admin can publish and delete notices;
- a month calendar marks days that have events, and today.

The store keeps notices, events and user accounts, with copies in browser storage. It signs users in, summarises the collections, and formats event times. The calendar component draws a month grid keyed by "YYYY-MM-DD" and keeps one selected date, whose events it lists.

Modules, one per file:

- `Collections`: the Array operations used (filter, slice, map, findIndex, find, some), each specified by what it returns.
- `Text`: decimal text, `padStart(2, '0')`, `parseInt`, ASCII `toLowerCase`, `includes`, `split` and `join`.
- `Dates`: the JavaScript `Date` arithmetic used. It follows ECMA-262 section 21.4.1 (DayFromYear, MakeDay, WeekDay) in whole days. Out-of-range months and days are normalised as `new Date(y, m, d)` and `setMonth` do; the constructor's reading of years 0 to 99 as 1900 + y is not modelled (see "## Left out"). It also builds and reads the "YYYY-MM-DD" keys.
- `Records`: notices, events, users and the partial update records.
- `NoticeFilter`: the filter, the stable sort and the ticker of `renderNotices` / `renderTicker`.
- `Slideshow`: the slide queue and the page's slideshow state machine.
  - Timers are handles: setting one issues a fresh handle and makes it live; clearing one makes it dead.
  - The invariant every reachable state keeps is proved here, and so are the findings below.
- `NoticeBoard`: the page's module-level variables as a class (`Page`).
  - Each handler is proved to update the page as the matching `Slideshow` transition does.
  - The month calendar is built by the page's loops and proved against its specification.
- `Store`: `DataManager` as a class.
  - Its methods update the collections and their stored copies.
  - Beside it are the update and delete specifications, the account lemmas, the analytics tally and `formatTime`.
- `CalendarWidget`: the calendar component as a class. The grid and the events list are proved against their specifications.

Notices have one shape throughout, with a `description` field. The page script reads `description`; the data store's records call the same field `desc`.

## Model

| member | source | states |
|---|---|---|
| Collections.Filter | script.js:265-271 | the kept elements all come from the input and pass the predicate; there are no more of them than inputs |
| Collections.FilterMultiset | script.js:265-271 | each element passing the predicate is kept as often as it occurs; no other element is kept |
| Collections.FilterConcat | script.js:529 | filtering preserves the relative order: filtering a concatenation is concatenating the filters |
| Collections.FilterIdempotent | assets/js/data.js:85-89 | filtering a second time by the same predicate changes nothing |
| Collections.Take | script.js:586 | `slice(0, n)` gives min(n, length) elements, the first ones, in order |
| Collections.Map | script.js:251-253 | `map` gives one image per element, at the same index |
| Collections.PushAll | script.js:583 | a `forEach` that pushes the image of each item leaves the earlier contents followed by the images in order |
| Collections.PushCopies | script.js:433-437 | a counting loop that pushes a filler k times leaves the earlier contents followed by k fillers |
| Collections.Layout | assets/js/calendar.js:37-55 | a calendar layout has the header first, then `gap` fillers, then the day entries, each index reading from its part |
| Collections.FindIndex | assets/js/data.js:76 | `findIndex` gives -1 exactly when no element matches; otherwise the first matching index |
| Collections.ReplaceFirst | assets/js/data.js:76-78 | None exactly when no element matches; otherwise only the first match is replaced by its image and the length is kept |
| Collections.ReplaceFirstIdempotent | assets/js/data.js:75-83 | when the image keeps matching and is idempotent, replacing again in the result changes nothing |
| Collections.Find | assets/js/data.js:131 | `find` gives nothing exactly when no element matches; otherwise the first matching element |
| Collections.Any | assets/js/data.js:121 | `some` holds exactly when some element matches |
| Text.Dec | script.js:448 | `String(n)` is non-empty digits, one digit exactly when n is below 10 |
| Text.DecRoundTrip | script.js:448 | reading the decimal text of n gives back n |
| Text.DecNoLeadingZero | script.js:448 | the decimal text starts with '0' only for 0 |
| Text.DecInjective | script.js:448 | distinct numbers have distinct decimal texts |
| Text.Pad2 | script.js:448 | `padStart(2, '0')` of a number below 100 is two digits that read back as the number |
| Text.Pad2Injective | assets/js/calendar.js:47 | two-digit padding tells numbers below 100 apart |
| Text.LeadingDigits | assets/js/data.js:164 | the longest digit prefix: digits only, and the next character (if any) is not a digit |
| Text.ParseLeadingInt | assets/js/data.js:164 | `parseInt(s, 10)` is NaN exactly when s does not start with a digit |
| Text.ParseDecPrefix | assets/js/data.js:164 | `parseInt` of a number's decimal text followed by a non-digit gives the number |
| Text.LowerChar | script.js:260 | `toLowerCase` on a character maps A-Z to a-z and keeps every other character |
| Text.ToLower | script.js:260 | lowering keeps the length and lowers each character in place |
| Text.ToLowerIdempotent | script.js:260-267 | lowering the lowered search term changes nothing |
| Text.Contains | script.js:266-267 | `includes` holds exactly when the needle occurs at some position of the text |
| Text.ContainsEmpty | script.js:266-267 | the empty search term occurs in every text |
| Text.Split | assets/js/data.js:163 | `split(':')` gives at least one piece, none holding the separator |
| Text.SplitJoin | assets/js/data.js:163 | joining the pieces of a split with the separator gives the text back |
| Text.JoinSplit | assets/js/data.js:163 | splitting a join of separator-free pieces gives the pieces back |
| Text.SplitFront | assets/js/data.js:163 | a separator-free hour followed by ':' splits off as the first piece |
| Dates.LeapYearRule | script.js:430 | a year is a leap year exactly when divisible by 4 and not by 100, unless by 400 |
| Dates.DaysInMonth | script.js:430 | a month has 28 to 31 days, and 29 exactly for February of a leap year |
| Dates.DayFromYearIsEcma | script.js:429 | the year-by-year day count equals ECMA-262's closed-form DayFromYear |
| Dates.Normalise | script.js:464 | `setMonth` / `new Date(y, m, d)` always land on a valid date |
| Dates.NormaliseIsMakeDay | script.js:464 | the normalised date has the day number ECMA-262 MakeDay gives |
| Dates.NormaliseUnique | script.js:464 | the normalised date is the only valid date with MakeDay's day number |
| Dates.DayNumberInjective | script.js:464 | distinct valid dates have distinct day numbers |
| Dates.NormaliseValid | script.js:464 | normalising a valid date changes nothing |
| Dates.LastDayIsDaysInMonth | script.js:430 | day 0 of the next month is the last day of this month, so `getDate()` is the month's length |
| Dates.LastDate | assets/js/calendar.js:20 | `new Date(y, m + 1, 0).getDate()` is the number of days of month m |
| Dates.FirstWeekday | script.js:429 | `new Date(y, m, 1).getDay()` is a weekday from 0 to 6 |
| Dates.FirstWeekdayOfNextMonth | script.js:429 | each month starts its length in weekdays after the previous month |
| Dates.CellColumn | script.js:429-445 | after FirstWeekday blanks, day d falls in the column of its own weekday |
| Dates.FirstWeekdayExamples | assets/js/calendar.js:19 | February 2026 starts on a Sunday and October 2026 on a Thursday |
| Dates.ChangeMonth | script.js:475 | `setMonth(getMonth() + delta)` always lands on a valid date; where it lands is stated by ChangeMonthKeepsDay and ChangeMonthSpills |
| Dates.ChangeMonthKeepsDay | assets/js/calendar.js:99-102 | when the day fits the target month, `setMonth` keeps it, carries the year across December and January, and moves exactly delta months |
| Dates.ChangeMonthSpills | assets/js/calendar.js:100 | a day past the target month's end spills into the following month, reduced by the target month's length |
| Dates.ChangeMonthSpillsIndex | script.js:475 | the spilled date lies delta + 1 months away |
| Dates.ChangeMonthSkipsFebruary | script.js:475 | as written, moving on from 31 January lands on 2 or 3 March, two months later |
| Dates.ChangeMonthFirstSteps | script.js:464-475 | as intended, moving to the first of the month moves exactly delta months, whatever the day |
| Dates.ChangeMonthRoundTrip | script.js:464-475 | from a day no later than the 28th, moving delta months and back returns to the same date |
| Dates.ParseDateKey | script.js:277 | reading a "Y-MM-DD" key gives a year of 0 or more, a month 0-11 and a day 1-31, or nothing |
| Dates.DateKey | script.js:448 | the "YYYY-MM-DD" key of a cell is non-empty and starts with a minus sign exactly for a year before 0; its fields are pinned by DateKeyRoundTrip and DateKeyInjective |
| Dates.YearTextInjective | assets/js/calendar.js:47 | distinct years, before year 0 included, have distinct decimal texts |
| Dates.DateKeyRoundTrip | script.js:448 | the key of a cell reads back as the cell's date |
| Dates.DateKeyInjective | assets/js/calendar.js:47-51 | distinct dates (month 0-11, day 1-31) of any year, before year 0 included, have distinct keys |
| Dates.DateMillis | script.js:277 | a "YYYY-MM-DD" string is a whole number of days in milliseconds (midnight UTC); a string of another shape reads as 0 |
| Dates.DateMillisOrder | script.js:277 | a later date has a larger time value, so the sort's date comparison is chronological |
| Records.EventsOn | assets/js/calendar.js:48 | the events on a key are exactly the events whose date is that key |
| Records.HasEventOnSpec | script.js:449 | a day has an event exactly when some event's date is its key |
| Records.MergeNotice | assets/js/data.js:78 | `{ ...stored, ...update }`: the id is the update's, each field the update carries wins, and each field it leaves out keeps the stored value |
| Records.MergeNoticeEmpty | assets/js/data.js:78 | spreading an update that carries only the id changes nothing |
| Records.MergeNoticeIdempotent | assets/js/data.js:78 | spreading the same update twice is spreading it once |
| Records.MergeNoticeFull | assets/js/data.js:78 | an update carrying every field replaces the stored notice by those fields |
| Records.MergeEvent | assets/js/data.js:106 | `{ ...stored, ...update }`: the id is the update's, each field the update carries wins, and each field it leaves out keeps the stored value |
| Records.MergeEventEmpty | assets/js/data.js:106 | spreading an update that carries only the id changes nothing |
| Records.MergeEventIdempotent | assets/js/data.js:106 | spreading the same update twice is spreading it once |
| Records.MergeEventFull | assets/js/data.js:106 | an update carrying every field replaces the stored event by those fields |
| NoticeFilter.MatchesSearch | script.js:266-267 | an empty search term matches every notice, and a matching term is no longer than the title or the description |
| NoticeFilter.FilterNotices | script.js:260-271 | a notice is kept exactly when its lowered title or description contains the lowered term, its department matches or the filter is "all", and likewise its category; each kept notice keeps its count |
| NoticeFilter.FilterNoticesShowsAll | script.js:260-271 | an empty search box with both filters on "all" shows every notice, in order |
| NoticeFilter.FilterNoticesConcat | script.js:265-271 | filtering keeps the stored order: the filter of two lists is the concatenation of their filters |
| NoticeFilter.Compare | script.js:274-278 | the comparator is negative (a goes first) exactly when a is urgent and b is not, or both have the same urgency and a has the later date |
| NoticeFilter.CompareAntisymmetric | script.js:274-278 | swapping the arguments negates the comparator |
| NoticeFilter.CompareTransitive | script.js:274-278 | "goes no later than" is transitive, so the comparator is consistent |
| NoticeFilter.CompareZeroIsTie | script.js:274-278 | the comparator gives 0 exactly for notices of the same urgency and date |
| NoticeFilter.Insert | script.js:274-278 | inserting adds exactly the one notice |
| NoticeFilter.Sort | script.js:274-278 | the sorted list is a permutation of the input |
| NoticeFilter.SortSorted | script.js:274-278 | the sorted list is ordered by the comparator |
| NoticeFilter.SortStable | script.js:274-278 | among notices that tie, the sorted list keeps the input order |
| NoticeFilter.SortKeepsTieOrder | script.js:274-278 | notices tying with a given notice appear in the sorted list in their filtered order |
| NoticeFilter.DisplayedOrder | script.js:265-278 | the shown list is a permutation of the matching notices, every urgent one before every non-urgent one, with non-increasing dates within each group |
| NoticeFilter.RenderTicker | script.js:244-254 | the placeholder exactly when no notice is urgent; otherwise the titles of the urgent notices, in collection order, with every urgent notice's title shown |
| NoticeFilter.TickerAfterUrgentPublish | script.js:397-403 | publishing an urgent notice puts its title first in the ticker |
| NoticeFilter.TickerIgnoresNonUrgent | script.js:397-403 | publishing a non-urgent notice leaves the ticker as it was |
| Slideshow.SlideQueue | script.js:578-592 | every slide is a stored notice, carrying that notice's own urgency, or a stored event |
| Slideshow.UrgentSlidesSpec | script.js:582-583 | the urgent part is every urgent notice in collection order, flagged urgent |
| Slideshow.EventSlidesSpec | script.js:586-587 | the event part is the first min(5, events) events, in order |
| Slideshow.RecentSlidesSpec | script.js:590-591 | the closing part is the first min(5, non-urgent) non-urgent notices, in order, flagged non-urgent |
| Slideshow.SlideQueueLength | script.js:578-592 | the queue length is urgent count + min(5, events) + min(5, non-urgent count) |
| Slideshow.UrgencySplit | script.js:582-590 | the urgent and non-urgent filters split the notices between them |
| Slideshow.SlideQueueEmpty | script.js:558 | the queue is empty exactly when there are no notices and no events |
| Slideshow.SlideQueueLayout | script.js:578-592 | urgent notices fill the front, the first events follow in order, and non-urgent notices close the queue |
| Slideshow.ResetIdle | script.js:538-550 | only the idle timer fields change; a stored timeout is pending afterwards exactly when neither the overlay nor the modal is up; no other pending timeout is added |
| Slideshow.Start | script.js:553-576 | the queue is rebuilt; the overlay presents iff it did or the queue is non-empty; a non-empty queue shows slide 0 with a live stored slide timer; old slide timers stay live; notices, events, modal and idle timers are untouched |
| Slideshow.Stop | script.js:594-604 | the overlay goes down; the stored slide timer dies and no other; an idle timeout is pending iff the modal is hidden; the queue and slide index are kept |
| Slideshow.Tick | script.js:606-609 | the next slide, wrapping to 0 after the last; only the slide index changes |
| Slideshow.IdleFire | script.js:546-549 | the firing timeout is spent; the overlay presents iff it did or there is something to show; the modal is not consulted |
| Slideshow.Activity | script.js:181-183 | only the idle timers change; a timeout is pending iff neither the overlay nor the modal is up |
| Slideshow.KeyDown | script.js:173-183 | after Escape the overlay is down and the stored slide timer dead; any other key leaves the slideshow as it was; a timeout is pending iff the overlay and the modal are down afterwards |
| Slideshow.ClickStart | script.js:165-167 | the queue is rebuilt; the overlay presents iff it did or the queue is non-empty; old slide timers stay live; a timeout is pending iff the overlay and the modal are down |
| Slideshow.ClickClose | script.js:168-170 | the overlay goes down, the stored slide timer dies, and a timeout is pending iff the modal is hidden |
| Slideshow.OpenNotice | script.js:332 | the modal is shown and the slideshow untouched, while the click arms an idle timeout iff neither the overlay nor the modal was up before |
| Slideshow.CloseNotice | script.js:362-375 | the modal is hidden and the slideshow untouched; a timeout is pending iff the overlay is down and, for the backdrop, the modal was hidden when the document listener ran |
| Slideshow.Submit | script.js:386-406 | the notice goes first with the others behind it; events, overlay and queue are kept; a timeout is pending iff neither the overlay nor the modal is up |
| Slideshow.Delete | script.js:526-530 | only the notices change; a decline changes nothing; a confirmed delete keeps exactly the notices with another id |
| Slideshow.StartEmptyQueue | script.js:558-561 | with an empty queue the start only stores the queue, and toasts exactly when not automatic |
| Slideshow.StartQueue | script.js:563-575 | with a non-empty queue the start presents slide 0 and sets a fresh slide timer, without a toast |
| Slideshow.LoadedInv | script.js:180 | the loaded page keeps the invariant, with one idle timeout pending |
| Slideshow.ResetIdleSpec | script.js:538-550 | the reset always clears the pending idle timeout, arms a new one exactly when neither the overlay nor the modal is up, and keeps the invariant |
| Slideshow.StartEmpty | script.js:558-561 | an empty start leaves the overlay, the slide timers and the idle timeouts as they were; the toast appears exactly when the start is not automatic |
| Slideshow.StartShows | script.js:572-575 | a start with something to show presents slide 0 of the fresh queue, with a new live slide timer |
| Slideshow.IdleFireOnEmptyDisarms | script.js:546-560 | an automatic start that finds nothing leaves no idle timeout pending and the overlay down |
| Slideshow.NextSlideInQueue | script.js:606-609 | the next index stays inside the queue |
| Slideshow.Ticks | script.js:606-609 | repeated slide timer firings keep the queue |
| Slideshow.TicksIndex | script.js:606-609 | after n firings from slide a, slide (a + n) mod queue length is on screen |
| Slideshow.StartThenTicks | script.js:572-575 | after a start and n firings, slide n mod queue length is on screen |
| Slideshow.StopSpec | script.js:594-604 | stopping hides the overlay, kills the slide timer and leaves exactly one idle timeout pending |
| Slideshow.ActivityInv | script.js:181-183 | user activity keeps the invariant |
| Slideshow.KeyDownInv | script.js:173-183 | a key press keeps the invariant, and after Escape the overlay is down |
| Slideshow.ClickStartInv | script.js:165-167 | clicking start while not presenting keeps the invariant |
| Slideshow.ClickCloseInv | script.js:168-170 | clicking close keeps the invariant, leaves the overlay down and no slide timer live |
| Slideshow.TickInv | script.js:575 | a slide timer firing keeps the invariant |
| Slideshow.IdleFireInv | script.js:546-549 | an idle timeout firing keeps the invariant and spends the only pending timeout |
| Slideshow.OpenNoticeInv | script.js:332 | opening a notice keeps the invariant and shows the modal |
| Slideshow.CloseNoticeInv | script.js:362-375 | closing the modal, by its button or its backdrop, keeps the invariant and hides it |
| Slideshow.SubmitSpec | script.js:386-406 | publishing puts the notice at index 0 and the others behind it, one longer; the slideshow and queue are untouched, and the closing tab click clears the pending idle timeout and re-arms one iff neither the overlay nor the modal is up |
| Slideshow.DeleteSpec | script.js:526-530 | a declined confirmation changes nothing; a confirmed delete keeps exactly the notices with another id, in order, and deleting again changes nothing |
| Slideshow.IdleStartsOverModal | script.js:542-549 | as written, an idle timeout armed by the click that opens a notice starts the slideshow over the open modal |
| Slideshow.IdleFireGuardedSpec | script.js:542-549 | with the guard checked on firing, the slideshow never presents over the modal |
| Slideshow.StartWhilePresentingLeaks | script.js:575 | as written, a start while presenting leaves two live slide timers, and one survives the close |
| Slideshow.StartClearingInv | script.js:575 | clearing the stored slide timer before setting a new one keeps at most one live, from any state |
| Slideshow.ClickStartNeverToasts | script.js:166 | as written, a click on the start button never shows the empty-queue toast |
| Slideshow.ClickStartIntendedToastSpec | script.js:559 | as intended, the button's toast appears exactly when there is nothing to show |
| NoticeBoard.Page.constructor | script.js:67-106 | the page starts with the given notices and events, nothing presenting, no timers, and today's month |
| NoticeBoard.Page.ResetIdleTimer | script.js:538-550 | the page moves as `ResetIdle` says; the calendar month is untouched |
| NoticeBoard.Page.BuildSlideQueue | script.js:578-592 | only the queue changes, to the specified three-part queue |
| NoticeBoard.Page.StartSlideshow | script.js:553-576 | the page moves as `Start` says, and the toast is reported as `StartToast` says |
| NoticeBoard.Page.Present | script.js:563-575 | the queue is stored, slide 0 shown and a fresh handle becomes the live slide timer |
| NoticeBoard.Page.StopSlideshow | script.js:594-604 | the page moves as `Stop` says |
| NoticeBoard.Page.NextSlide | script.js:606-609 | the page moves as `Tick` says |
| NoticeBoard.Page.IdleTimeout | script.js:546-549 | the page moves as `IdleFire` says |
| NoticeBoard.Page.OnActivity | script.js:181-183 | the page moves as `Activity` says |
| NoticeBoard.Page.OnKeyDown | script.js:173-177 | the page moves as `KeyDown` says: Escape stops a presenting slideshow, then the idle reset runs |
| NoticeBoard.Page.OnStartClick | script.js:165-167 | the page moves as `ClickStart` says, with its toast |
| NoticeBoard.Page.OnCloseClick | script.js:168-170 | the page moves as `ClickClose` says |
| NoticeBoard.Page.OpenNoticeModal | script.js:332 | the page moves as `OpenNotice` says |
| NoticeBoard.Page.CloseNoticeModal | script.js:362-375 | the page moves as `CloseNotice` says |
| NoticeBoard.Page.SubmitNotice | script.js:386-406 | the new notice is prepended, then the idle timer is reset as the bubbling tab click does; the page moves as Submit does |
| NoticeBoard.Page.DeleteNotice | script.js:526-530 | the page moves as `Delete` says |
| NoticeBoard.Page.PrevMonth | script.js:461-470 | the click bubbles to the idle reset (the page moves as Activity), and the month becomes `setMonth(getMonth() - 1)` of the old one |
| NoticeBoard.Page.NextMonth | script.js:472-481 | the click bubbles to the idle reset (the page moves as Activity), and the month becomes `setMonth(getMonth() + 1)` of the old one |
| NoticeBoard.Page.RenderCalendar | script.js:410-458 | the cells drawn are the month grid of the month shown |
| NoticeBoard.DayCellSpec | script.js:442-455 | a day cell shows its day, has an event exactly when some event's date is its key, and is today exactly when day, month and year match |
| NoticeBoard.LetterCells | script.js:420-426 | the header is the seven weekday letters, Sunday first |
| NoticeBoard.MonthCells | script.js:420-437 | the grid has 7 letters, then `first` blanks, then one cell per day |
| NoticeBoard.MonthCellsDays | script.js:442-458 | after the letters and blanks, cell i is the cell of day i - 6 - first |
| NoticeBoard.BuildMonthGrid | script.js:429-458 | the loops draw the specified grid of the month |
| NoticeBoard.CalendarLoops | script.js:420-458 | the three loops draw the letters, the blanks and the days |
| NoticeBoard.DrawDay | script.js:443-455 | one pass of the day loop draws the day's cell |
| NoticeBoard.AppendDays | script.js:442-458 | the day loop appends the cells of days 1 to lastDay |
| NoticeBoard.BuildQueue | script.js:578-592 | the three push loops build the specified slide queue |
| NoticeBoard.CalendarShape | script.js:429-458 | the grid has 35 to 44 cells, and day d sits in the column of its weekday |
| Store.UpdateNotices | assets/js/data.js:76-78 | None exactly when no notice has the update's id |
| Store.UpdateEvents | assets/js/data.js:104-106 | None exactly when no event has the update's id |
| Store.UpdateNoticesSpec | assets/js/data.js:75-83 | only the first notice with the id changes, to its merge with the update; the length and every id are kept |
| Store.UpdateEventsSpec | assets/js/data.js:103-111 | only the first event with the id changes, to its merge with the update; the length and every id are kept |
| Store.UpdateNoticesIdempotent | assets/js/data.js:75-83 | saving the same notice update twice is saving it once |
| Store.UpdateEventsIdempotent | assets/js/data.js:103-111 | saving the same event update twice is saving it once |
| Store.DeleteNoticesSpec | assets/js/data.js:85-89 | the notices left are exactly those with another id, and deleting again changes nothing |
| Store.DeleteEventsSpec | assets/js/data.js:113-117 | the events left are exactly those with another id, and deleting again changes nothing |
| Store.AddThenDeleteNotice | assets/js/data.js:68-89 | deleting a just-added notice by its new id restores the list |
| Store.AddThenDeleteEvent | assets/js/data.js:96-117 | deleting a just-added event by its new id restores the list |
| Store.UsernameTaken | assets/js/data.js:121 | holds exactly when some account has the username |
| Store.FindUser | assets/js/data.js:131 | nothing exactly when no account matches all three fields; otherwise a matching account of the list |
| Store.SeedUsersUnique | assets/js/data.js:42-46 | the default accounts have distinct usernames |
| Store.RegisterKeepsUnique | assets/js/data.js:120-128 | a successful registration keeps usernames distinct |
| Store.LoginAfterRegister | assets/js/data.js:120-137 | a newly registered account signs in with its own username, password and role |
| Store.DeptKey | assets/js/data.js:143 | the department, or "general" when it is empty, is never empty, and a non-empty department is its own key |
| Store.Tally | assets/js/data.js:141-145 | the tally is empty exactly when there are no items; its counts are pinned by TallyLookup, TallyTotal and TallyDepts |
| Store.BumpLookup | assets/js/data.js:144 | counting an item raises its department's entry by one and no other |
| Store.TallyLookup | assets/js/data.js:141-145 | each department's count is the number of items in it |
| Store.TallyTotal | assets/js/data.js:141-145 | the department counts add up to the number of items |
| Store.TallyDepts | assets/js/data.js:141-145 | there is one entry per department that occurs, and no other |
| Store.AnalyticsConsistent | assets/js/data.js:140-154 | the counts add up to the total, each department counts its own items (an empty department under "general"), each department appears once, and urgent notices are at most all notices |
| Store.Clock12 | assets/js/data.js:166 | the 12-hour clock hour is 1 to 12 and agrees with the hour modulo 12 |
| Store.FormatTime | assets/js/data.js:161-168 | the empty text, and only it, formats as ""; every other text ends in " AM" or " PM" |
| Store.FormatTimeOfClock | assets/js/data.js:161-168 | "HH:MM" shows as the 12-hour hour, the same minutes, then AM before noon and PM from noon |
| Store.FormatTimeNaN | assets/js/data.js:164-167 | an hour that does not start with a digit shows as "12:" and "AM" |
| Store.ShownTimeInjective | assets/js/data.js:167 | the shown text of a 24-hour time gives back its hour and minutes |
| Store.FormatTimeInjective | assets/js/data.js:161-168 | two different 24-hour times never show the same text |
| Store.DataManager.Init | assets/js/data.js:10-48 | each collection is read from storage when its key is present, otherwise seeded with the fixed records and saved |
| Store.DataManager.AddNotice | assets/js/data.js:68-73 | the notice gets the clock reading as id, goes first and is saved; the result is true; nothing else changes |
| Store.DataManager.UpdateNotice | assets/js/data.js:75-83 | true exactly when a notice has the id, and then the update is applied and saved; otherwise nothing changes |
| Store.DataManager.DeleteNotice | assets/js/data.js:85-89 | the notices with the id go, the rest are saved in order, and the result is true |
| Store.DataManager.AddEvent | assets/js/data.js:96-101 | the event gets the clock reading as id, goes first and is saved; the result is true; nothing else changes |
| Store.DataManager.UpdateEvent | assets/js/data.js:103-111 | true exactly when an event has the id, and then the update is applied and saved; otherwise nothing changes |
| Store.DataManager.DeleteEvent | assets/js/data.js:113-117 | the events with the id go, the rest are saved in order, and the result is true |
| Store.DataManager.Register | assets/js/data.js:120-128 | refused with "Username already taken." exactly when the username is taken; otherwise the account is appended with the clock id and saved |
| Store.DataManager.Login | assets/js/data.js:130-137 | succeeds exactly when an account matches all three fields; returns the first one and stores it as current user; otherwise "Invalid credentials." and nothing changes |
| Store.DataManager.GetAnalytics | assets/js/data.js:140-154 | the totals, the urgent count and the department tally of the collections |
| Store.CountDepartments | assets/js/data.js:141-145 | the loop builds the department tally of the items |
| CalendarWidget.RenderEventsList | assets/js/calendar.js:78-96 | the prompt exactly when nothing is selected; "No events scheduled." exactly when no event is on the selected key; otherwise the lines of that day's events, in order |
| CalendarWidget.LinesFromDayEvents | assets/js/calendar.js:83-96 | every listed line comes from an event on the selected day |
| CalendarWidget.DayEventsListed | assets/js/calendar.js:83-96 | every event on the selected day has its line in the list |
| CalendarWidget.RenderEventsListSpec | assets/js/calendar.js:78-96 | the list has one line per event on the selected day, and those lines only |
| CalendarWidget.WidgetDaySpec | assets/js/calendar.js:46-54 | a date cell carries its day and key, has an event exactly when some event is on the key, is selected exactly when the key is the selection, and is today exactly when day, month and year match |
| CalendarWidget.DayNameCells | assets/js/calendar.js:37 | the header is the seven weekday letters, Sunday first |
| CalendarWidget.WidgetCells | assets/js/calendar.js:37-43 | the grid has 7 letters, then `first` empty slots, then one cell per day |
| CalendarWidget.WidgetCellsDays | assets/js/calendar.js:46-55 | after the letters and empty slots, cell i is the cell of day i - 6 - first |
| CalendarWidget.SameMonthKeysDistinct | assets/js/calendar.js:47 | two days of the same month have different keys |
| CalendarWidget.SelectionNamesOneDay | assets/js/calendar.js:51 | a selection names at most one day of a month |
| CalendarWidget.SelectedCellAt | assets/js/calendar.js:47-51 | a selected cell sits at the position of the day its key names |
| CalendarWidget.KeyDayOfDateKey | assets/js/calendar.js:47 | a cell's key ends in its padded day |
| CalendarWidget.SingleSelection | assets/js/calendar.js:51 | at most one cell of a month grid is selected |
| CalendarWidget.WidgetGridSingleSelection | assets/js/calendar.js:14-55 | at most one cell of the grid `render` draws is selected |
| CalendarWidget.BuildWidgetGrid | assets/js/calendar.js:17-55 | the loops draw the specified grid of the month |
| CalendarWidget.WidgetLoops | assets/js/calendar.js:37-55 | the three loops draw the letters, the empty slots and the dates |
| CalendarWidget.AppendDates | assets/js/calendar.js:46-55 | the date loop appends the cells of days 1 to daysInMonth |
| CalendarWidget.DrawDate | assets/js/calendar.js:47-51 | one pass of the date loop draws the day's cell |
| CalendarWidget.Widget.constructor | assets/js/calendar.js:7-12 | a new widget shows today's month, has no selection and reads the given store |
| CalendarWidget.Widget.Render | assets/js/calendar.js:14-76 | the grid of the shown month and the selected day's events list |
| CalendarWidget.Widget.ChangeMonth | assets/js/calendar.js:99-102 | the date is `setMonth(getMonth() + delta)` of the old one, the selection is kept, and the new month is drawn |
| CalendarWidget.Widget.SelectDate | assets/js/calendar.js:104-107 | the key replaces the selection, the month is kept, and the grid is drawn again |

## Left out

- Rendering: HTML strings, CSS classes, inline styles, animations and the slide markup. Only the flags they show are kept: overlay active, modal shown, and cell today, has-event and selected.
- Browser storage and JSON: saving is modelled as "stored copy := collection". The `data-updated` events are left out, and so are `save`'s dispatch, `getNotices`/`getEvents` (plain reads), `exportJSON` and `formatDate` (locale formatting).
- The calendar headers: the month name text, and the "Events for …" heading of the widget.
- Real time:
  - timer durations (15 s per slide, 60 s idle) are left out, and timers fire as events;
  - `Date.now()` ids are a `now` parameter, and a published notice arrives with its id;
  - "today" is a parameter;
  - `updateClock` is left out.
- Environment calls:
  - fullscreen requests are left out;
  - `confirm` is a boolean input;
  - of the toasts, only whether the start shows "No content to display!" is kept.
- Page wiring is left out: the role and login modal UI, navigation and `populateDeptOptions`.
- The component's `if (!this.container) return` guard is left out, and so is the global `initCalendar` helper.
- Dates.FirstWeekday / Dates.LastDate: do not apply the two-digit-year rule of `new Date(y, m, d)`, which reads a year from 0 to 99 as 1900 + y (the Date constructor, ECMA-262 section 21.4.2.1). `setMonth` does not apply it, so after enough month steps back the shown year could reach 0-99 while the scripts draw the grid of 1900 + y; the model draws the grid of year y itself.
- Dates.DateMillis: reads a date string of another shape, or a negative year, as 0. JavaScript gives NaN there, and a NaN comparison makes the sort order implementation-defined.
- Dates.ParseDateKey: accepts a year of any number of digits. JavaScript's date-only format needs four digits, so other lengths fall to implementation-specific parsing.
- Time of day: dates have none. Time zones and daylight saving are left out; `Date` arithmetic works on whole days and unbounded years, not the ±8.64e15 ms range.
- Text.LowerChar: folds only ASCII A-Z; `toLowerCase` also folds other scripts.
- Text.ParseLeadingInt: does not skip leading white space or read a sign, as `parseInt` does.
- NoticeBoard.Page.PrevMonth / NoticeBoard.Page.NextMonth: run the button's 200 ms callback in the same step as the click's idle reset. Another event delivered within those 200 ms is not interleaved; the two parts touch disjoint state, so only such an interleaving is lost.
- Store.FormatTime: inherits the same limits on the hour text.
- Store.DeptKey: treats an empty department as missing. A record without a `department` property cannot be expressed, because every record has one.
- Store.Tally: lists departments in first-seen order. A JavaScript object lists keys that look like array indices first, in ascending order.
- Slideshow.Tick: requires a non-empty queue. A slide timer leaked by a second start (see Findings) could fire after a later start found nothing to show. The source then computes index NaN and `showSlide` throws; the model does not cover that.
- NoticeBoard.Page.NextSlide: requires a non-empty queue, for the same reason.
- Slideshow.ClickStartInv: requires that the overlay is not presenting. From a presenting state the invariant fails, which is the double-timer finding.
- The notice shape: one shape with `description`; the store's `desc` is the same field under another name.

## Findings

The page handlers and `Dates.ChangeMonth` model the code as written. The corrected definitions are stated beside them, with the intended property proved.

| source | as written | input that shows it | evidently intended | confidence | as-written member | corrected member |
|---|---|---|---|---|---|---|
| script.js:475 | `setMonth(getMonth() + 1)` keeps the day of the month | on 31 January, "next month" shows March (2 or 3 March), skipping February; the same holds in assets/js/calendar.js:100 | move exactly one month, e.g. to the first of the month | not executed | Dates.ChangeMonthSkipsFebruary | Dates.ChangeMonthFirstSteps |
| script.js:542-549 | the overlay and modal guard is checked when the idle timeout is set, not when it fires | open a notice and stay still for 60 s: the slideshow starts over the open modal | never start over an open modal | not executed | Slideshow.IdleStartsOverModal | Slideshow.IdleFireGuardedSpec |
| script.js:575 | a start overwrites `slideshowInterval` without clearing the timer stored there | while presenting, press Enter on the focused start button, then close: one slide timer stays live | at most one live slide timer | not executed | Slideshow.StartWhilePresentingLeaks | Slideshow.StartClearingInv |
| script.js:166 | the click event is passed as `isAuto`, and an event object is truthy | with no notices and no events, click start: no "No content to display!" toast | the toast on a manual start with nothing to show | not executed | Slideshow.ClickStartNeverToasts | Slideshow.ClickStartIntendedToastSpec |
