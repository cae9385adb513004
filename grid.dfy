/** The month grid of the calendar as pure values: which number each of the
    42 day cells shows after a rebuild, which buttons are disabled, and where
    the TODAY and HIGHLIGHT marks go.  The widget's methods are proved
    against these functions; the lemmas say what the grid means. */
module Grid {
  import opened DateMath
  import opened Labels

  /** A date as the widget exchanges it. */
  datatype Date = Date(year: int, month: int, day: int)

  datatype Option<T> = None | Some(value: T)

  /** Control flags of one button of the button matrix.  TODAY and HIGHLIGHT
      are the matrix's two custom flags; `Other` stands for the flags the
      calendar never touches. */
  datatype Ctrl = Disabled | ClickTrig | NoRepeat | Custom1 | Custom2 | Other(bit: nat)

  const TodayCtrl: Ctrl := Custom1
  const HighlightCtrl: Ctrl := Custom2

  /** 7 header buttons (day names) and 6 weeks of 7 day buttons. */
  const HeaderCount: nat := 7
  const CellCount: nat := 42
  const ButtonCount: nat := 49

  /** A month the grid can be built for: the weekday formula and the previous
      month's length must both be in range. */
  predicate ShowableMonth(year: int, month: int)
  {
    DayOfWeekDomain(year, month, 1)
  }

  /** The column of the 1st of the month. */
  function FirstCell(year: int, month: int, mondayFirst: bool): (df: nat)
    requires ShowableMonth(year, month)
    ensures df < 7
  {
    DayOfWeek(year, month, 1, mondayFirst)
  }

  function PrevMonthLength(year: int, month: int): (r: nat)
    requires ShowableMonth(year, month)
    ensures 28 <= r <= 31
  {
    MonthLength(year, month - 1)
  }

  /** Cell `i` shows a day of the showed month itself. */
  predicate InMonthCell(year: int, month: int, mondayFirst: bool, i: int)
    requires ShowableMonth(year, month)
  {
    var df := FirstCell(year, month, mondayFirst);
    df <= i < df + MonthLength(year, month)
  }

  /** Shape of a grid: the month starts in column `df` (0..6) and has `len`
      days, the month before has `prevLen` days. */
  predicate GridShape(df: int, len: int, prevLen: int)
  {
    0 <= df < 7 && 28 <= len <= 31 && 28 <= prevLen <= 31
  }

  /** The number in day cell `i` of a grid of that shape: the last `df` days
      of the previous month, then 1..len, then 1, 2, ... of the next. */
  function RunDay(df: int, len: int, prevLen: int, i: int): (r: int)
    ensures GridShape(df, len, prevLen) && 0 <= i < CellCount ==> 1 <= r <= 31
    ensures GridShape(df, len, prevLen) && 0 <= i < df ==> prevLen - df < r <= prevLen
    ensures df <= i < df + len ==> r == i - df + 1
    ensures GridShape(df, len, prevLen) && df + len <= i < CellCount ==> r <= CellCount - 28 - df
  {
    if i < df then prevLen - df + 1 + i
    else if i < df + len then i - df + 1
    else i - df - len + 1
  }

  /** The 42 labels of a grid of that shape. */
  function RunLabels(df: int, len: int, prevLen: int): (s: seq<string>)
    requires GridShape(df, len, prevLen)
    ensures |s| == CellCount
    ensures forall i :: 0 <= i < CellCount ==> 1 <= |s[i]| <= 2 && AllDigits(s[i]) && s[i][0] != '0'
  {
    seq(CellCount, i requires 0 <= i < CellCount => DecimalString(RunDay(df, len, prevLen, i)))
  }

  /** The three groups a rebuild disables: the header 0..6, the cells of the
      previous month and the cells of the next month. */
  predicate RunDisabled(df: int, len: int, b: int)
  {
    0 <= b < HeaderCount
    || HeaderCount <= b < HeaderCount + df
    || HeaderCount + df + len <= b < ButtonCount
  }

  /** The number shown in day cell `i` (0..41) of the showed month's grid. */
  function CellDay(year: int, month: int, mondayFirst: bool, i: int): nat
    requires ShowableMonth(year, month) && 0 <= i < CellCount
  {
    RunDay(FirstCell(year, month, mondayFirst), MonthLength(year, month), PrevMonthLength(year, month), i)
  }

  /** The 42 labels a rebuild writes. */
  function GridLabels(year: int, month: int, mondayFirst: bool): (s: seq<string>)
    requires ShowableMonth(year, month)
    ensures |s| == CellCount
    ensures forall i :: 0 <= i < CellCount ==> 1 <= |s[i]| <= 2 && AllDigits(s[i]) && s[i][0] != '0'
  {
    RunLabels(FirstCell(year, month, mondayFirst), MonthLength(year, month), PrevMonthLength(year, month))
  }

  /** A rebuild disables the header and the other months' cells. */
  predicate DisabledButton(year: int, month: int, mondayFirst: bool, b: int)
    requires ShowableMonth(year, month)
  {
    RunDisabled(FirstCell(year, month, mondayFirst), MonthLength(year, month), b)
  }

  /** Flags of button `b` after the rebuild's DISABLED pass. */
  function RebuildFlags(f: set<Ctrl>, year: int, month: int, mondayFirst: bool, b: int): (r: set<Ctrl>)
    requires ShowableMonth(year, month)
    ensures r - {Disabled} == f - {Disabled}
    ensures Disabled in r <==> DisabledButton(year, month, mondayFirst, b)
  {
    (f - {Disabled}) + (if DisabledButton(year, month, mondayFirst, b) then {Disabled} else {})
  }

  /** Buttons marked HIGHLIGHT: `day + 7` for each of the first `num` entries
      whose year is today's year and whose month is the showed month.  A null
      array marks nothing. */
  function HighlightButtons(dates: Option<seq<Date>>, num: nat, todayYear: int, showedMonth: int): (r: set<int>)
    requires dates.Some? ==> num <= |dates.value|
    ensures dates.None? ==> r == {}
    ensures HighlightsOk(dates, num) ==> forall b :: b in r ==> HeaderCount < b <= HeaderCount + 31
  {
    match dates
    case None => {}
    case Some(ds) =>
      set k | 0 <= k < num && ds[k].year == todayYear && ds[k].month == showedMonth :: ds[k].day + 7
  }

  /** Button `b` is a highlight button exactly when one of the first `num`
      entries has today's year, the showed month and day `b - 7`. */
  lemma HighlightButtonsMember(ds: seq<Date>, num: nat, todayYear: int, showedMonth: int, b: int)
    requires num <= |ds|
    ensures b in HighlightButtons(Some(ds), num, todayYear, showedMonth)
            <==> exists k :: 0 <= k < num && ds[k].year == todayYear && ds[k].month == showedMonth && ds[k].day + 7 == b
  {
  }

  /** What the highlight pass reads of the caller's array: the first `num`
      entries exist and their days are 1..31, so `day + 7` is a day button. */
  predicate HighlightsOk(dates: Option<seq<Date>>, num: nat)
  {
    dates.Some? ==> num <= |dates.value| && forall k :: 0 <= k < num ==> 1 <= dates.value[k].day <= 31
  }

  /** Taking one more entry adds at most that entry's button. */
  lemma HighlightButtonsStep(ds: seq<Date>, i: nat, todayYear: int, showedMonth: int)
    requires i < |ds|
    ensures HighlightButtons(Some(ds), i + 1, todayYear, showedMonth)
            == HighlightButtons(Some(ds), i, todayYear, showedMonth)
               + (if ds[i].year == todayYear && ds[i].month == showedMonth then {ds[i].day + 7} else {})
  {
    var a := HighlightButtons(Some(ds), i + 1, todayYear, showedMonth);
    var c := HighlightButtons(Some(ds), i, todayYear, showedMonth);
    var e := if ds[i].year == todayYear && ds[i].month == showedMonth then {ds[i].day + 7} else {};
    assert a == set k | 0 <= k < i + 1 && ds[k].year == todayYear && ds[k].month == showedMonth :: ds[k].day + 7;
    assert c == set k | 0 <= k < i && ds[k].year == todayYear && ds[k].month == showedMonth :: ds[k].day + 7;
    forall b | b in a ensures b in c + e {
      var k :| 0 <= k < i + 1 && ds[k].year == todayYear && ds[k].month == showedMonth && ds[k].day + 7 == b;
      if k < i {
        assert b in c;
      }
    }
  }

  /** A date the setters accept: a month 1..12, a day 1..31 and a year the
      weekday formula can take. */
  predicate WidgetDate(d: Date)
  {
    ShowableMonth(d.year, d.month) && 1 <= d.day <= 31
  }

  /** Button marked TODAY: only when the showed year and month are today's,
      at `day + day_of_week(year, month, day - 1) + 7`. */
  function TodayButton(today: Date, showed: Date, mondayFirst: bool): (r: Option<int>)
    requires WidgetDate(today)
    ensures r.Some? ==> HeaderCount < r.value < ButtonCount
    ensures r.Some? <==> showed.year == today.year && showed.month == today.month
  {
    if showed.year == today.year && showed.month == today.month then
      Some(today.day + DayOfWeek(today.year, today.month, today.day - 1, mondayFirst) + 7)
    else None
  }

  /** Flags of button `b` after the decoration pass: TODAY and HIGHLIGHT are
      cleared, then set on exactly the chosen buttons; nothing else moves. */
  function Decorated(f: set<Ctrl>, b: int, highlights: set<int>, today: Option<int>): (r: set<Ctrl>)
    ensures r - {TodayCtrl, HighlightCtrl} == f - {TodayCtrl, HighlightCtrl}
    ensures HighlightCtrl in r <==> b in highlights
    ensures TodayCtrl in r <==> today == Some(b)
  {
    (f - {TodayCtrl, HighlightCtrl})
    + (if b in highlights then {HighlightCtrl} else {})
    + (if today == Some(b) then {TodayCtrl} else {})
  }

  /** Indices of the buttons of `flags` carrying flag `c`. */
  function ButtonsWith(flags: seq<set<Ctrl>>, c: Ctrl): set<int>
  {
    set b | 0 <= b < |flags| && c in flags[b]
  }

  // ---------------------------------------------------------------------
  // What the grid means.

  /** Year and month before and after the showed one. */
  function PrevMonth(year: int, month: int): (int, int)
  {
    if month == 1 then (year - 1, 12) else (year, month - 1)
  }

  function NextMonth(year: int, month: int): (int, int)
  {
    if month == 12 then (year + 1, 1) else (year, month + 1)
  }

  /** The calendar date that day cell `i` stands for. */
  function CellDate(year: int, month: int, mondayFirst: bool, i: int): Date
    requires ShowableMonth(year, month) && 0 <= i < CellCount
  {
    var df := FirstCell(year, month, mondayFirst);
    var len := MonthLength(year, month);
    var day := CellDay(year, month, mondayFirst, i);
    if i < df then Date(PrevMonth(year, month).0, PrevMonth(year, month).1, day)
    else if i < df + len then Date(year, month, day)
    else Date(NextMonth(year, month).0, NextMonth(year, month).1, day)
  }

  /** The previous month's length, as the rebuild asks for it with month - 1,
      is the length of the real previous month, and its last day is followed
      by the 1st of the showed month. */
  lemma {:induction false} PrevMonthLast(year: int, month: int)
    requires ShowableMonth(year, month)
    ensures PrevMonth(year, month).0 >= 0
    ensures PrevMonthLength(year, month) == MonthLength(PrevMonth(year, month).0, PrevMonth(year, month).1)
    ensures var (py, pm) := PrevMonth(year, month);
            ValidDate(py, pm, PrevMonthLength(year, month))
            && RataDie(year, month, 1) == RataDie(py, pm, PrevMonthLength(year, month)) + 1
  {
    var (py, pm) := PrevMonth(year, month);
    if month == 1 {
      MonthLengthPreviousYear(year, 0);
    }
    RataDieNextDate(py, pm, MonthLength(py, pm));
  }

  /** The 1st of the next month follows the last day of the showed month. */
  lemma {:induction false} NextMonthFirst(year: int, month: int)
    requires ShowableMonth(year, month)
    ensures var (ny, nm) := NextMonth(year, month);
            ny >= 0 && 1 <= nm <= 12 && MonthLength(ny, nm) >= 28
            && RataDie(ny, nm, 1) == RataDie(year, month, MonthLength(year, month)) + 1
  {
    RataDieNextDate(year, month, MonthLength(year, month));
  }

  /** The 42 cells are 42 consecutive calendar days: cell `i` shows the day
      of the real date `CellDate(i)`, which is `i - df` days after the 1st of
      the showed month, and cell `i` is in the showed month exactly when it
      is one of the enabled cells. */
  lemma {:induction false} GridIsConsecutiveDays(year: int, month: int, mondayFirst: bool, i: int)
    requires ShowableMonth(year, month) && 0 <= i < CellCount
    ensures var d := CellDate(year, month, mondayFirst, i);
            ValidDate(d.year, d.month, d.day)
            && d.day == CellDay(year, month, mondayFirst, i)
            && RataDie(d.year, d.month, d.day) == RataDie(year, month, 1) - FirstCell(year, month, mondayFirst) + i
            && ((d.year == year && d.month == month) <==> InMonthCell(year, month, mondayFirst, i))
  {
    var df := FirstCell(year, month, mondayFirst);
    var len := MonthLength(year, month);
    if i < df {
      PrevMonthLast(year, month);
    } else if i >= df + len {
      NextMonthFirst(year, month);
    }
  }

  /** Every cell sits in the column of its date's weekday: column `i % 7` of
      the grid is weekday `i % 7` of the date the cell stands for. */
  lemma {:induction false} CellColumnIsWeekday(year: int, month: int, mondayFirst: bool, i: int)
    requires ShowableMonth(year, month) && 0 <= i < CellCount
    ensures var d := CellDate(year, month, mondayFirst, i);
            d.year >= 0 && 1 <= d.month <= 12
            && Weekday(d.year, d.month, d.day, mondayFirst) == i % 7
  {
    var d := CellDate(year, month, mondayFirst, i);
    GridIsConsecutiveDays(year, month, mondayFirst, i);
    DayOfWeekIsWeekday(year, month, 1, mondayFirst);
    var shift := if mondayFirst then 1 else 0;
    ColumnShift(RataDie(year, month, 1) - shift, FirstCell(year, month, mondayFirst), i,
                RataDie(d.year, d.month, d.day) - shift);
  }

  /** A day `i - df` days after a day of weekday `df` has weekday `i % 7`. */
  lemma ColumnShift(x: int, df: int, i: int, r: int)
    requires df == x % 7 && r == x - df + i
    ensures r % 7 == i % 7
  {
    ModSevenShift(i, x / 7);
  }

  /** Each day 1..length of the showed month is shown by exactly one enabled
      cell, `df + day - 1`, and that cell's column is the day's weekday. */
  lemma {:induction false} MonthDayCell(year: int, month: int, mondayFirst: bool, day: int)
    requires ShowableMonth(year, month) && 1 <= day <= MonthLength(year, month)
    ensures var i := FirstCell(year, month, mondayFirst) + day - 1;
            0 <= i < CellCount && InMonthCell(year, month, mondayFirst, i)
            && CellDay(year, month, mondayFirst, i) == day
            && i % 7 == DayOfWeek(year, month, day, mondayFirst)
    ensures forall j :: 0 <= j < CellCount && InMonthCell(year, month, mondayFirst, j)
                          && CellDay(year, month, mondayFirst, j) == day
                        ==> j == FirstCell(year, month, mondayFirst) + day - 1
  {
    var i := FirstCell(year, month, mondayFirst) + day - 1;
    CellColumnIsWeekday(year, month, mondayFirst, i);
    DayOfWeekIsWeekday(year, month, day, mondayFirst);
  }

  /** Every label a rebuild writes is one or two digits and parses back to
      the number of its cell; all numbers are 1..31. */
  lemma {:induction false} GridLabelsParse(year: int, month: int, mondayFirst: bool, i: int)
    requires ShowableMonth(year, month) && 0 <= i < CellCount
    ensures 1 <= CellDay(year, month, mondayFirst, i) <= 31
    ensures var s := GridLabels(year, month, mondayFirst)[i];
            1 <= |s| <= 2 && ParseDay(s) == CellDay(year, month, mondayFirst, i)
  {
    GridIsConsecutiveDays(year, month, mondayFirst, i);
    ParseDecimalString(CellDay(year, month, mondayFirst, i));
  }

  /** A button is left enabled by a rebuild exactly when it is a day cell
      showing a date of the showed month. */
  lemma {:induction false} EnabledIffInMonth(year: int, month: int, mondayFirst: bool, b: int)
    requires ShowableMonth(year, month) && 0 <= b < ButtonCount
    ensures !DisabledButton(year, month, mondayFirst, b)
            <==> b >= HeaderCount
                 && CellDate(year, month, mondayFirst, b - HeaderCount).year == year
                 && CellDate(year, month, mondayFirst, b - HeaderCount).month == month
  {
    if b >= HeaderCount {
      GridIsConsecutiveDays(year, month, mondayFirst, b - HeaderCount);
    }
  }

  /** After decoration exactly one button carries TODAY when the showed month
      is today's month, and none otherwise. */
  lemma {:induction false} TodayMarkedOnce(flags: seq<set<Ctrl>>, highlights: set<int>, today: Date, showed: Date, mondayFirst: bool)
    requires WidgetDate(today) && |flags| == ButtonCount
    requires forall b :: 0 <= b < ButtonCount ==>
               flags[b] == Decorated(flags[b], b, highlights, TodayButton(today, showed, mondayFirst))
    ensures var t := TodayButton(today, showed, mondayFirst);
            ButtonsWith(flags, TodayCtrl) == (if t.Some? then {t.value} else {})
    ensures |ButtonsWith(flags, TodayCtrl)| == (if showed.year == today.year && showed.month == today.month then 1 else 0)
  {
    var t := TodayButton(today, showed, mondayFirst);
    var w := ButtonsWith(flags, TodayCtrl);
    forall b | b in w ensures t == Some(b) {
      assert TodayCtrl in Decorated(flags[b], b, highlights, t);
    }
    if t.Some? {
      assert TodayCtrl in flags[t.value] by {
        assert flags[t.value] == Decorated(flags[t.value], t.value, highlights, t);
      }
      assert w == {t.value};
    } else {
      assert w == {};
    }
  }

  /** After decoration HIGHLIGHT sits on exactly the highlight buttons, and a
      matching entry for day `d` always lights button `d + 7`. */
  lemma {:induction false} HighlightsMarked(flags: seq<set<Ctrl>>, dates: Option<seq<Date>>, num: nat, today: Date, showed: Date, mondayFirst: bool)
    requires WidgetDate(today) && |flags| == ButtonCount
    requires HighlightsOk(dates, num)
    requires forall b :: 0 <= b < ButtonCount ==>
               flags[b] == Decorated(flags[b], b, HighlightButtons(dates, num, today.year, showed.month), TodayButton(today, showed, mondayFirst))
    ensures ButtonsWith(flags, HighlightCtrl) == HighlightButtons(dates, num, today.year, showed.month)
    ensures dates.None? ==> ButtonsWith(flags, HighlightCtrl) == {}
  {
    var h := HighlightButtons(dates, num, today.year, showed.month);
    var t := TodayButton(today, showed, mondayFirst);
    forall b | b in h ensures b in ButtonsWith(flags, HighlightCtrl) {
      assert 0 <= b < ButtonCount;
      assert HighlightCtrl in Decorated(flags[b], b, h, t);
    }
    forall b | b in ButtonsWith(flags, HighlightCtrl) ensures b in h {
      assert HighlightCtrl in Decorated(flags[b], b, h, t);
    }
  }
}
