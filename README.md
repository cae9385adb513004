# LVGL calendar widget — a Dafny model

This project models the core of LVGL's calendar widget, `lv_calendar.c`. The widget is a
button matrix of 49 buttons: a header row of 7 day names, then 6 weeks of 7 day cells.
The model covers:

* the Gregorian date arithmetic it relies on: the leap-year test, the month length with its
  previous/next-year wrap, and the closed-form day-of-week formula with the Monday-first
  compile-time switch (a `mondayFirst: bool` here);
* the widget state as a class: today's date, the showed date, the caller's highlighted
  dates and their count, the 42 number buffers, the button-matrix map, the per-button
  control flags and the active button;
* the grid rebuild done when the showed date is set: the labels, and DISABLED on the header
  and on the cells of the previous and next months;
* the TODAY/HIGHLIGHT decoration pass, the constructor's map layout, the setters, the
  getters and the pressed-date query;
* the styling decision the draw hook makes per button.

Modules:

* `DateMath` (`date_math.dfy`): the date functions. It also defines an independent reference,
  the Rata Die day count (day 1 = January 1 of year 1), and proves the weekday formula equal
  to it modulo 7.
* `Labels` (`labels.dfy`): the `"%d"` labels and the one-or-two-digit parse of a pressed
  button's label.
* `Grid` (`grid.dfy`): the grid as pure functions of the showed month, and lemmas about what
  it means. The 42 cells are 42 consecutive calendar days, each in the column of its weekday.
  The enabled cells are exactly the days of the showed month. Every label parses back to its
  day.
* `Calendar` (`calendar.dfy`): the widget class. Its methods are proved against the `Grid`
  functions. The `Synced()` predicate ties the flags and labels to the stored dates, and
  every setter preserves it.
* `Draw` (`draw.dfy`): the draw hook's decision on background, border and text for one
  button.

The TODAY button index `day + day_of_week(year, month, day - 1) + 7` and the HIGHLIGHT
button index `day + 7` are modelled as the code computes them. The model does not claim they
are the cells labelled with that day. `Grid.MonthDayCell` says which cell does show a given
day.

## Model

| member | source | states |
|---|---|---|
| DateMath.IsLeapYear | src/extra/widgets/calendar/lv_calendar.c:322-325 | result is 0 or 1, and 1 exactly when the year is divisible by 4 and not by 100 unless by 400 |
| DateMath.NormaliseMonth | src/extra/widgets/calendar/lv_calendar.c:303-311 | a month in -11..24 becomes a year and a zero-based month 0..11 denoting the same month (12 * year + month unchanged) |
| DateMath.LeapTermStep | src/extra/widgets/calendar/lv_calendar.c:340-342 | raising b by one raises `b/4 - b/100 + b/400` by exactly the leap-year indicator of b |
| DateMath.LeapYearsClosedForm | src/extra/widgets/calendar/lv_calendar.c:340-342 | `b/4 - b/100 + b/400` equals the number of leap years among 1..b, counted one by one |
| DateMath.MonthLength | src/extra/widgets/calendar/lv_calendar.c:301-315 | result is 28..31; for months 1..12 it is the familiar table (31, 28 or 29, 31, 30, ...) |
| DateMath.MonthLengthPreviousYear | src/extra/widgets/calendar/lv_calendar.c:297-307 | months -11..0 are the months of the previous year |
| DateMath.MonthLengthNextYear | src/extra/widgets/calendar/lv_calendar.c:297-311 | months 13..24 are the months of the next year |
| DateMath.DayOfWeek | src/extra/widgets/calendar/lv_calendar.c:334-346 | the weekday is in 0..6 |
| DateMath.WeekdaySumIsRataDie | src/extra/widgets/calendar/lv_calendar.c:336-342 | the formula's sum differs from the date's Rata Die day number by a multiple of 7 |
| DateMath.DayOfWeekIsWeekday | src/extra/widgets/calendar/lv_calendar.c:334-346 | the formula equals the Rata Die number modulo 7 (minus one for a Monday-first week), for every date in its range |
| DateMath.DayOfWeekMondayShift | src/extra/widgets/calendar/lv_calendar.c:339-343 | the Monday-first weekday is the Sunday-first one moved back by one, modulo 7 |
| DateMath.DayOfWeekNextDay | src/extra/widgets/calendar/lv_calendar.c:340-342 | raising the day by one advances the weekday by one modulo 7 |
| DateMath.DayOfWeekReferenceDate | src/extra/widgets/calendar/lv_calendar.c:332-346 | January 1, 2024 comes out as Monday in both numberings (1 Sunday-first, 0 Monday-first) |
| DateMath.DayOfWeekNextDate | src/extra/widgets/calendar/lv_calendar.c:334-346 | from a valid date to the next calendar day, across month and year ends, the weekday advances by one modulo 7 |
| Labels.DecimalString | src/extra/widgets/calendar/lv_calendar.c:122 | `"%d"` text: at least one digit, all digits, one digit exactly below 10, at most two below 100, no leading zero |
| Labels.ParseDay | src/extra/widgets/calendar/lv_calendar.c:196-197 | a label of digits parses to 0..99, and a one-digit label to 0..9 |
| Labels.ParseDecimalString | src/extra/widgets/calendar/lv_calendar.c:196-197 | parsing the `"%d"` label of any number 0..99 gives that number back |
| Grid.FirstCell | src/extra/widgets/calendar/lv_calendar.c:119 | the column of the 1st of the month is 0..6 |
| Grid.PrevMonthLength | src/extra/widgets/calendar/lv_calendar.c:125 | the previous month's length, asked for with month - 1, is 28..31 |
| Grid.RunDay | src/extra/widgets/calendar/lv_calendar.c:118-134 | the number written in cell i: 1..31; the last days of the previous month before the first column, 1, 2, ... for the month's own cells, small numbers after them |
| Grid.RunLabels | src/extra/widgets/calendar/lv_calendar.c:121-134 | 42 labels, each the one- or two-digit decimal text of a number without leading zero |
| Grid.GridLabels | src/extra/widgets/calendar/lv_calendar.c:118-134 | the labels of the showed month's grid: 42 labels of one or two digits without leading zero |
| Grid.RebuildFlags | src/extra/widgets/calendar/lv_calendar.c:112-134 | a button's flags after the rebuild: DISABLED exactly on header buttons and other months' cells, all other flags unchanged |
| Grid.PrevMonthLast | src/extra/widgets/calendar/lv_calendar.c:125-127 | the length asked for with month - 1 is that of the real previous month, also across January; its last day is the day before the 1st of the showed month |
| Grid.NextMonthFirst | src/extra/widgets/calendar/lv_calendar.c:131-132 | the 1st of the next month, also across December, is the day after the showed month's last day |
| Grid.GridIsConsecutiveDays | src/extra/widgets/calendar/lv_calendar.c:118-134 | cell i shows the day of a valid date that is i - first-column days after the 1st of the showed month; that date is in the showed month exactly for the month's own cells |
| Grid.CellColumnIsWeekday | src/extra/widgets/calendar/lv_calendar.c:119-134 | every cell's column (i mod 7) is the weekday of the date it stands for |
| Grid.MonthDayCell | src/extra/widgets/calendar/lv_calendar.c:119-123 | each day of the showed month appears in exactly one of the month's cells, first-column + day - 1, whose column is the day's weekday |
| Grid.GridLabelsParse | src/extra/widgets/calendar/lv_calendar.c:121-134 | every label written is one or two characters, its number is 1..31, and it parses back to the cell's day |
| Grid.EnabledIffInMonth | src/extra/widgets/calendar/lv_calendar.c:112-134 | after a rebuild a button is enabled exactly when it is a day cell standing for a date of the showed month |
| Grid.HighlightButtons | src/extra/widgets/calendar/lv_calendar.c:356-361 | no buttons with a null array; with well-formed entries only day buttons 8..38 |
| Grid.HighlightButtonsMember | src/extra/widgets/calendar/lv_calendar.c:356-361 | b is a highlight button exactly when some entry below the count has today's year, the showed month and day + 7 == b |
| Grid.Decorated | src/extra/widgets/calendar/lv_calendar.c:354-367 | a button's flags after the decoration: HIGHLIGHT exactly on highlight buttons, TODAY exactly on the TODAY button, every other flag unchanged |
| Grid.HighlightButtonsStep | src/extra/widgets/calendar/lv_calendar.c:357-361 | one more highlighted entry adds exactly its `day + 7` button when its year is today's and its month the showed one, and nothing otherwise |
| Grid.TodayButton | src/extra/widgets/calendar/lv_calendar.c:364-367 | a TODAY button exists exactly when the showed year and month are today's, and it is a day button (8..48) |
| Grid.TodayMarkedOnce | src/extra/widgets/calendar/lv_calendar.c:354-367 | after decoration the buttons carrying TODAY are exactly the TODAY button: one when today's month is shown, none otherwise |
| Grid.HighlightsMarked | src/extra/widgets/calendar/lv_calendar.c:354-362 | after decoration the buttons carrying HIGHLIGHT are exactly the highlight buttons, and none with a null array |
| Calendar.ButtonSlot | src/extra/widgets/calendar/lv_calendar.c:232-244 | button b's map slot skips the "\n" entries; a header button's slot is b, a day button's slot points at number buffer b - 7 |
| Calendar.LayoutEntry | src/extra/widgets/calendar/lv_calendar.c:232-243 | map slot i holds "\n" when (i + 1) is a multiple of 8, the i-th day name in the first row, and otherwise the next number buffer in order |
| Calendar.Calendar.ClearBtnCtrlAll | src/extra/widgets/calendar/lv_calendar.c:113 | every button loses exactly the flags of the mask |
| Calendar.Calendar.SetBtnCtrlAll | src/extra/widgets/calendar/lv_calendar.c:247 | every button gains exactly the flags of the mask |
| Calendar.Calendar.SetBtnCtrl | src/extra/widgets/calendar/lv_calendar.c:115 | the one button gains the mask; no other button changes |
| Calendar.Calendar.HasBtnCtrl | src/extra/widgets/calendar/lv_calendar.c:267 | true exactly when the button carries some flag of the mask |
| Calendar.Calendar.GetActiveBtn | src/extra/widgets/calendar/lv_calendar.c:186 | returns the matrix's active button, or none |
| Calendar.Calendar.BtnText | src/extra/widgets/calendar/lv_calendar.c:194 | a day button shows number buffer b - 7, a header button shows its day name |
| Calendar.Calendar.constructor | src/extra/widgets/calendar/lv_calendar.c:210-255 | dates 2020-01-01, null highlights, the default day names in the header, every button CLICK_TRIG and NO_REPEAT plus the rebuild's DISABLED pattern and the TODAY mark of January 2020; the widget starts synced |
| Calendar.Calendar.Initialise | src/extra/widgets/calendar/lv_calendar.c:229-251 | lays out the map, sets CLICK_TRIG and NO_REPEAT everywhere, then sets the showed and today dates; the header holds the given names, the flags are the rebuild's DISABLED pattern and the TODAY mark, and the widget is synced |
| Calendar.Calendar.LayoutMap | src/extra/widgets/calendar/lv_calendar.c:229-244 | the map gets the day names, a "\n" closing each row, day slots pointing at buffers 0..41 in order, and the terminator ""; every buffer holds "x" |
| Calendar.Calendar.SetDayNames | src/extra/widgets/calendar/lv_calendar.c:65-72 | the seven header slots hold the new names; the rest of the map is unchanged |
| Calendar.Calendar.SetTodayDate | src/extra/widgets/calendar/lv_calendar.c:74-83 | today is stored and the flags are re-decorated for it; a synced widget stays synced |
| Calendar.Calendar.SetHighlightedDates | src/extra/widgets/calendar/lv_calendar.c:85-94 | the array and count are stored and the flags are re-decorated for them; a synced widget stays synced |
| Calendar.Calendar.SyncedAfterDecoration | src/extra/widgets/calendar/lv_calendar.c:348-368 | decorating a grid whose labels and DISABLED flags match the showed month gives a synced widget |
| Calendar.Calendar.SetShowedDate | src/extra/widgets/calendar/lv_calendar.c:96-138 | the showed date is stored; the labels are the showed month's grid; each button's flags are its old flags with DISABLED rebuilt and then decorated; the widget is synced afterwards, whatever the state before |
| Calendar.Calendar.RebuildGrid | src/extra/widgets/calendar/lv_calendar.c:112-134 | the labels become the showed month's grid and each button's DISABLED flag is rebuilt, other flags kept |
| Calendar.Calendar.DisableDayNames | src/extra/widgets/calendar/lv_calendar.c:113-116 | DISABLED is added on the seven header buttons and nowhere else |
| Calendar.Calendar.FillMonthCells | src/extra/widgets/calendar/lv_calendar.c:118-123 | cells first-column .. first-column + length - 1 get the labels 1..length; the other cells are unchanged |
| Calendar.Calendar.FillPrevMonthCells | src/extra/widgets/calendar/lv_calendar.c:125-129 | the cells before the 1st get the last days of the previous month and are disabled; nothing else changes |
| Calendar.Calendar.FillNextMonthCells | src/extra/widgets/calendar/lv_calendar.c:131-134 | the cells after the month get 1, 2, ... and are disabled; nothing else changes |
| Calendar.Calendar.HighlightUpdate | src/extra/widgets/calendar/lv_calendar.c:348-368 | every button's TODAY and HIGHLIGHT flags are recomputed: HIGHLIGHT on the highlight buttons, TODAY on the TODAY button; other flags are unchanged |
| Calendar.Calendar.MarkHighlights | src/extra/widgets/calendar/lv_calendar.c:356-362 | HIGHLIGHT is added on exactly the highlight buttons; no other flag or button changes |
| Calendar.Calendar.GetTodayDate | src/extra/widgets/calendar/lv_calendar.c:149-153 | returns today's date |
| Calendar.Calendar.GetShowedDate | src/extra/widgets/calendar/lv_calendar.c:160-164 | returns the showed date |
| Calendar.Calendar.GetHighlightedDates | src/extra/widgets/calendar/lv_calendar.c:171-175 | returns the stored array (or null) |
| Calendar.Calendar.GetHighlightedDatesNum | src/extra/widgets/calendar/lv_calendar.c:177-181 | returns the stored count |
| Calendar.Calendar.GetPressedDate | src/extra/widgets/calendar/lv_calendar.c:183-203 | false and (0, 0, 0) without an active button; otherwise true with the showed year and month and the parsed label; on a synced widget the day is the cell's number, and an enabled cell gives exactly the date it stands for |
| Calendar.Calendar.PressedCell | src/extra/widgets/calendar/lv_calendar.c:194-200 | on a synced widget a day button's label parses to its cell's number, and an enabled one denotes its own date |
| Draw.DrawItem | src/extra/widgets/calendar/lv_calendar.c:257-289 | other events leave the style alone; header and disabled buttons get a transparent background unless HIGHLIGHT sets it and a transparent border unless TODAY sets it, while every other button keeps the theme's opacities; TODAY adds a covering primary border one wider; HIGHLIGHT gives a primary background at 40%, or 70% while pressed; the text turns grey on disabled day buttons and keeps its colour everywhere else; an enabled day button with none of the flags keeps its whole style |
| Draw.TodayAndHighlightIndependent | src/extra/widgets/calendar/lv_calendar.c:273-285 | the TODAY border is the same with or without HIGHLIGHT and the press; the HIGHLIGHT background and text do not depend on TODAY |
| Draw.GreyExactlyOtherMonths | src/extra/widgets/calendar/lv_calendar.c:267-271 | on a rebuilt grid a day button is drawn grey exactly when its date lies outside the showed month |

## Left out

- Object creation and the class descriptor (`lv_calendar_create`, `lv_obj_create_from_class`), `lv_obj_set_size`, `lv_obj_invalidate` and the registration of the draw callback: object system and display refresh, outside the widget's logic.
- The button matrix itself (`lv_btnmatrix.c` is not part of this model). Its per-button flags, map, active button and text lookup are modelled only as far as the calendar uses them. The active button is a field that is never set here: it follows hit-testing of input events.
- Calendar.Calendar.SetBtnCtrl: requires the button index to be in range, because the matrix's own range handling is not part of this model. The calendar's indices stay in range whenever today's day and every highlighted day are 1..31, which the setters require.
- Calendar.Calendar.SetHighlightedDates: keeps a value snapshot of the caller's array. The source keeps the pointer, so later writes by the caller to that array are not modelled. Entries past the count are never read.
- Calendar.Calendar.SetDayNames: stores the day names as string values. The source stores the caller's `const char *` pointers in the map (line 70), so a later change by the caller to those strings shows in the source's header and not in the model. The constructor's default names (line 237) are likewise copied.
- Labels.ParseDay: reads the label as a sequence of Unicode characters. The source reads bytes (lines 196-197), so a day name of multi-byte characters on an active header button parses differently: "日" is the three bytes E6 97 A5 there and one character here. Day buttons' labels are ASCII digits, and on those the two agree.
- Calendar.Calendar.GetPressedDate: requires the active button's label to be non-empty, because the source reads its second character. All labels the calendar writes are non-empty.
- Calendar.Calendar.constructor: takes the default day names as a parameter. They are a build-time macro in `lv_calendar.h`, which is not part of this model.
- Fixed-width integers: dates, days and indices are unbounded integers. `uint8_t`, `int8_t`, `uint16_t` and `uint32_t` truncation and wrap-around are not modelled. The weekday formula is restricted to the range where `year - (month < 3)` does not wrap, and month lengths to years that stay non-negative.
- Draw.DrawItem: colours and opacities are symbolic (primary, grey, 40%, 70%, cover, transparent). Theme lookup and rendering are left out.
- Concurrency and memory management (`lv_memset_00`, string buffer sizes) are not modelled. Labels are at most two digits, so they always fit.
