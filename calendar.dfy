/** The calendar widget's state and the operations that change it in place:
    the button-matrix calls it uses (a per-button flag array and the active
    button), the constructor's map layout, the setters, the grid rebuild of
    the showed-date setter, the TODAY/HIGHLIGHT pass, the getters and the
    pressed-date query. */
module Calendar {
  import opened DateMath
  import opened Labels
  import opened Grid

  /** One entry of the button-matrix map: a string the map holds itself, or a
      pointer to the calendar's number buffer `j`. */
  datatype MapEntry = Text(s: string) | NumCell(j: nat)

  /** 7 day names, 6 rows of 7 numbers, a "\n" after each row but the last,
      and the terminating "". */
  const MapLength: nat := 56

  /** The number buffer that map slot `i` (a day slot) points at. */
  function NumIndex(i: int): int
  {
    (i - 8) - (i - 8) / 8
  }

  /** The map slot of button `b`: buttons skip the "\n" entries. */
  function MapSlot(b: int): int
  {
    b + b / 7
  }

  /** The map entry the constructor's loop writes at slot `i` (before the
      terminator overwrites the last slot). */
  function LayoutEntry(i: int, names: seq<string>): (e: MapEntry)
    requires 0 <= i && |names| == 7
    ensures i % 8 == 7 ==> e == Text("\n")
    ensures i < 7 ==> e == Text(names[i])
    ensures i >= 8 && i % 8 != 7 ==> e == NumCell(7 * (i / 8 - 1) + i % 8)
  {
    if i != 0 && (i + 1) % 8 == 0 then Text("\n")
    else if 0 <= i < 8 then Text(names[i])
    else NumCell(NumIndex(i))
  }

  /** Shape of the map: names in slots 0..6, "\n" closing every row, "" at
      the end, and the day slots pointing at buffers 0..41 in order. */
  predicate MapShape(m: seq<MapEntry>)
  {
    |m| == MapLength
    && forall i :: 0 <= i < MapLength ==>
         if i == MapLength - 1 then m[i] == Text("")
         else if i % 8 == 7 then m[i] == Text("\n")
         else if i < 7 then m[i].Text?
         else m[i] == NumCell(NumIndex(i))
  }

  /** Button `b`'s map slot is a name slot for the header and the pointer to
      buffer `b - 7` for a day button. */
  lemma {:induction false} ButtonSlot(b: int)
    requires 0 <= b < ButtonCount
    ensures 0 <= MapSlot(b) < MapLength - 1 && MapSlot(b) % 8 != 7
    ensures b < HeaderCount ==> MapSlot(b) == b
    ensures b >= HeaderCount ==> MapSlot(b) >= 8 && NumIndex(MapSlot(b)) == b - HeaderCount
  {
    var r, c := b / 7, b % 7;
    assert b == 7 * r + c && 0 <= r < 7;
    assert MapSlot(b) == 8 * r + c;
    if b >= HeaderCount {
      assert (MapSlot(b) - 8) / 8 == r - 1;
    }
  }

  /** Decorating twice with the same marks is decorating once: the flags the
      constructor leaves are those of a rebuild of January 2020 over
      CLICK_TRIG and NO_REPEAT, decorated. */
  lemma InitialFlags(f0: seq<set<Ctrl>>, f1: seq<set<Ctrl>>, f2: seq<set<Ctrl>>,
                     year: int, month: int, mondayFirst: bool, t: Option<int>)
    requires ShowableMonth(year, month) && |f0| == |f1| == |f2| == ButtonCount
    requires forall b :: 0 <= b < ButtonCount ==> f0[b] == {ClickTrig, NoRepeat}
    requires forall b :: 0 <= b < ButtonCount ==> f1[b] == Decorated(RebuildFlags(f0[b], year, month, mondayFirst, b), b, {}, t)
    requires forall b :: 0 <= b < ButtonCount ==> f2[b] == Decorated(f1[b], b, {}, t)
    ensures forall b :: 0 <= b < ButtonCount ==>
              f2[b] == Decorated(RebuildFlags({ClickTrig, NoRepeat}, year, month, mondayFirst, b), b, {}, t)
  {
  }

  class Calendar {
    /** The compile-time week-start switch. */
    const mondayFirst: bool

    var today: Date
    var showedDate: Date
    /** The caller's highlighted-dates array (None = null) and its count. */
    var highlightedDates: Option<seq<Date>>
    var highlightedDatesNum: nat

    /** The 42 number buffers the day buttons display. */
    const nums: array<string>
    /** The button-matrix map. */
    const btnMap: array<MapEntry>
    /** The button matrix's control flags, one set per button. */
    const ctrl: array<set<Ctrl>>
    /** The button matrix's active button; None is "no button". */
    var btnActive: Option<nat>

    ghost predicate Valid()
      reads this, btnMap
    {
      nums.Length == CellCount && btnMap.Length == MapLength && ctrl.Length == ButtonCount
      && MapShape(btnMap[..])
      && WidgetDate(today) && ShowableMonth(showedDate.year, showedDate.month)
      && HighlightsOk(highlightedDates, highlightedDatesNum)
      && (btnActive.Some? ==> btnActive.value < ButtonCount)
    }

    /** The flags and labels agree with the stored dates: the grid of the
        showed month, DISABLED on its three groups, TODAY and HIGHLIGHT where
        the decoration pass puts them. */
    ghost predicate Synced()
      reads this, nums, ctrl
    {
      nums.Length == CellCount && ctrl.Length == ButtonCount
      && WidgetDate(today) && ShowableMonth(showedDate.year, showedDate.month)
      && HighlightsOk(highlightedDates, highlightedDatesNum)
      && nums[..] == GridLabels(showedDate.year, showedDate.month, mondayFirst)
      && forall b :: 0 <= b < ButtonCount ==>
           (Disabled in ctrl[b] <==> DisabledButton(showedDate.year, showedDate.month, mondayFirst, b))
           && (TodayCtrl in ctrl[b] <==> TodayButton(today, showedDate, mondayFirst) == Some(b))
           && (HighlightCtrl in ctrl[b] <==>
                 b in HighlightButtons(highlightedDates, highlightedDatesNum, today.year, showedDate.month))
    }

    /** The highlight set and TODAY button for the current fields. */
    ghost function Highlights(): set<int>
      reads this
      requires HighlightsOk(highlightedDates, highlightedDatesNum)
    {
      HighlightButtons(highlightedDates, highlightedDatesNum, today.year, showedDate.month)
    }

    // -----------------------------------------------------------------
    // Button-matrix calls.

    /** Clear the flags of `mask` on every button. */
    method ClearBtnCtrlAll(mask: set<Ctrl>)
      modifies ctrl
      ensures forall b :: 0 <= b < ctrl.Length ==> ctrl[b] == old(ctrl[b]) - mask
    {
      var i := 0;
      while i < ctrl.Length
        invariant 0 <= i <= ctrl.Length
        invariant forall b :: 0 <= b < i ==> ctrl[b] == old(ctrl[b]) - mask
        invariant forall b :: i <= b < ctrl.Length ==> ctrl[b] == old(ctrl[b])
      {
        ctrl[i] := ctrl[i] - mask;
        i := i + 1;
      }
    }

    /** Set the flags of `mask` on every button. */
    method SetBtnCtrlAll(mask: set<Ctrl>)
      modifies ctrl
      ensures forall b :: 0 <= b < ctrl.Length ==> ctrl[b] == old(ctrl[b]) + mask
    {
      var i := 0;
      while i < ctrl.Length
        invariant 0 <= i <= ctrl.Length
        invariant forall b :: 0 <= b < i ==> ctrl[b] == old(ctrl[b]) + mask
        invariant forall b :: i <= b < ctrl.Length ==> ctrl[b] == old(ctrl[b])
      {
        ctrl[i] := ctrl[i] + mask;
        i := i + 1;
      }
    }

    /** Set the flags of `mask` on button `b`; no other button changes. */
    method SetBtnCtrl(b: nat, mask: set<Ctrl>)
      requires b < ctrl.Length
      modifies ctrl
      ensures ctrl[b] == old(ctrl[b]) + mask
      ensures forall k :: 0 <= k < ctrl.Length && k != b ==> ctrl[k] == old(ctrl[k])
    {
      ctrl[b] := ctrl[b] + mask;
    }

    /** Whether button `b` has any flag of `mask`. */
    method HasBtnCtrl(b: nat, mask: set<Ctrl>) returns (r: bool)
      requires b < ctrl.Length
      ensures r <==> exists c :: c in mask && c in ctrl[b]
    {
      r := ctrl[b] * mask != {};
      if r {
        var c :| c in ctrl[b] * mask;
        assert c in mask && c in ctrl[b];
      } else {
        forall c | c in mask ensures c !in ctrl[b] {
          assert c !in ctrl[b] * mask;
        }
      }
    }

    /** The button the matrix reports as active. */
    method GetActiveBtn() returns (b: Option<nat>)
      ensures b == btnActive
    {
      b := btnActive;
    }

    /** The text button `b` displays: its day name, or for a day button the
        number buffer `b - 7` the map points at. */
    function BtnText(b: nat): (s: string)
      reads this, btnMap, nums
      requires Valid() && b < ButtonCount
      ensures b >= HeaderCount ==> s == nums[b - HeaderCount]
      ensures b < HeaderCount ==> btnMap[b] == Text(s)
    {
      ButtonSlot(b);
      match btnMap[MapSlot(b)]
      case Text(s) => s
      case NumCell(j) => nums[j]
    }

    // -----------------------------------------------------------------
    // The calendar.

    /** Default dates 2020-01-01, no highlighted dates, the map laid out over
        the default day names and the number buffers, every button
        CLICK_TRIG and NO_REPEAT, and the grid built for January 2020. */
    constructor (mondayFirst: bool, defaultDayNames: seq<string>)
      requires |defaultDayNames| == 7
      ensures Valid() && Synced()
      ensures this.mondayFirst == mondayFirst
      ensures today == Date(2020, 1, 1) && showedDate == Date(2020, 1, 1)
      ensures highlightedDates == None && highlightedDatesNum == 0 && btnActive == None
      ensures forall i :: 0 <= i < HeaderCount ==> btnMap[i] == Text(defaultDayNames[i])
      ensures forall b :: 0 <= b < ButtonCount ==>
                ctrl[b] == Decorated(RebuildFlags({ClickTrig, NoRepeat}, showedDate.year, showedDate.month, mondayFirst, b),
                                     b, {}, TodayButton(today, showedDate, mondayFirst))
    {
      this.mondayFirst := mondayFirst;
      today := Date(2020, 1, 1);
      showedDate := Date(2020, 1, 1);
      highlightedDates := None;
      highlightedDatesNum := 0;
      nums := new string[CellCount](_ => "");
      btnMap := new MapEntry[MapLength](_ => Text(""));
      ctrl := new set<Ctrl>[ButtonCount](_ => {});
      btnActive := None;
      new;
      Initialise(defaultDayNames);
    }

    /** The constructor's work after the fields are set: the map over the day
        names and the number buffers, CLICK_TRIG and NO_REPEAT on every
        button, then the showed date and today's date set again, which builds
        and decorates the grid. */
    method Initialise(names: seq<string>)
      requires |names| == 7 && nums.Length == CellCount && btnMap.Length == MapLength && ctrl.Length == ButtonCount
      requires WidgetDate(today) && ShowableMonth(showedDate.year, showedDate.month)
      requires highlightedDates == None && highlightedDatesNum == 0 && btnActive == None
      requires forall b :: 0 <= b < ButtonCount ==> ctrl[b] == {}
      modifies this`today, this`showedDate, btnMap, nums, ctrl
      ensures Valid() && Synced()
      ensures today == old(today) && showedDate == old(showedDate)
      ensures forall i :: 0 <= i < HeaderCount ==> btnMap[i] == Text(names[i])
      ensures forall b :: 0 <= b < ButtonCount ==>
                ctrl[b] == Decorated(RebuildFlags({ClickTrig, NoRepeat}, showedDate.year, showedDate.month, mondayFirst, b),
                                     b, {}, TodayButton(today, showedDate, mondayFirst))
    {
      LayoutMap(names);
      SetBtnCtrlAll({ClickTrig, NoRepeat});
      ghost var f0 := ctrl[..];
      SetShowedDate(showedDate);
      ghost var f1 := ctrl[..];
      SetTodayDate(today);
      assert Highlights() == {};
      InitialFlags(f0, f1, ctrl[..], showedDate.year, showedDate.month, mondayFirst,
                   TodayButton(today, showedDate, mondayFirst));
    }

    /** The layout loop of the constructor: every 8th map entry is "\n", the first seven are the
        day names, the others point at the number buffers in order (each
        buffer set to "x"), and the last entry is the terminator "". */
    method LayoutMap(names: seq<string>)
      requires |names| == 7 && nums.Length == CellCount && btnMap.Length == MapLength
      modifies btnMap, nums
      ensures MapShape(btnMap[..])
      ensures forall i :: 0 <= i < HeaderCount ==> btnMap[i] == Text(names[i])
      ensures forall j :: 0 <= j < CellCount ==> nums[j] == "x"
    {
      var i := 0;
      var j := 0;
      while i < MapLength
        invariant 0 <= i <= MapLength
        invariant j == if i < 8 then 0 else NumIndex(i)
        invariant forall k :: 0 <= k < i ==> btnMap[k] == LayoutEntry(k, names)
        invariant forall k :: 0 <= k < j ==> nums[k] == "x"
      {
        if i != 0 && (i + 1) % 8 == 0 {
          btnMap[i] := Text("\n");
        } else if i < 8 {
          btnMap[i] := Text(names[i]);
        } else {
          nums[j] := "x";
          btnMap[i] := NumCell(j);
          j := j + 1;
        }
        i := i + 1;
      }
      btnMap[MapLength - 1] := Text("");
      assert MapShape(btnMap[..]) by {
        forall k | 0 <= k < MapLength - 1 ensures btnMap[k] == LayoutEntry(k, names) {
        }
      }
    }

    /** Copy seven day names into the header slots of the map. */
    method SetDayNames(names: seq<string>)
      requires Valid() && |names| == 7
      modifies btnMap
      ensures Valid()
      ensures forall i :: 0 <= i < HeaderCount ==> btnMap[i] == Text(names[i])
      ensures btnMap[HeaderCount..] == old(btnMap[HeaderCount..])
    {
      var i := 0;
      while i < 7
        modifies btnMap
        invariant 0 <= i <= 7
        invariant forall k :: 0 <= k < i ==> btnMap[k] == Text(names[k])
        invariant btnMap[i..] == old(btnMap[i..])
      {
        btnMap[i] := Text(names[i]);
        i := i + 1;
      }
      assert MapShape(btnMap[..]) by {
        forall k | 0 <= k < MapLength ensures k >= 7 ==> btnMap[k] == old(btnMap[k]) {
          if k >= 7 {
            assert btnMap[7..][k - 7] == old(btnMap[7..])[k - 7];
          }
        }
      }
    }

    /** Store today's date and redo the TODAY/HIGHLIGHT pass. */
    method SetTodayDate(d: Date)
      requires Valid() && WidgetDate(d)
      modifies this`today, ctrl
      ensures Valid() && today == d
      ensures forall b :: 0 <= b < ButtonCount ==>
                ctrl[b] == Decorated(old(ctrl[b]), b, Highlights(), TodayButton(today, showedDate, mondayFirst))
      ensures old(Synced()) ==> Synced()
    {
      ghost var wasSynced := Synced();
      ghost var before := ctrl[..];
      today := Date(d.year, d.month, d.day);
      HighlightUpdate();
      if wasSynced {
        SyncedAfterDecoration(before);
      }
    }

    /** Store the caller's highlighted-dates array and count and redo the
        TODAY/HIGHLIGHT pass. */
    method SetHighlightedDates(dates: seq<Date>, num: nat)
      requires Valid() && HighlightsOk(Some(dates), num)
      modifies this`highlightedDates, this`highlightedDatesNum, ctrl
      ensures Valid() && highlightedDates == Some(dates) && highlightedDatesNum == num
      ensures forall b :: 0 <= b < ButtonCount ==>
                ctrl[b] == Decorated(old(ctrl[b]), b, Highlights(), TodayButton(today, showedDate, mondayFirst))
      ensures old(Synced()) ==> Synced()
    {
      ghost var wasSynced := Synced();
      ghost var before := ctrl[..];
      highlightedDates := Some(dates);
      highlightedDatesNum := num;
      HighlightUpdate();
      if wasSynced {
        SyncedAfterDecoration(before);
      }
    }

    /** A decoration pass on a synced grid leaves it synced for the current
        dates and highlights. */
    lemma SyncedAfterDecoration(before: seq<set<Ctrl>>)
      requires Valid() && |before| == ButtonCount
      requires forall b :: 0 <= b < ButtonCount ==>
                 ctrl[b] == Decorated(before[b], b, Highlights(), TodayButton(today, showedDate, mondayFirst))
      requires nums[..] == GridLabels(showedDate.year, showedDate.month, mondayFirst)
      requires forall b :: 0 <= b < ButtonCount ==>
                 (Disabled in before[b] <==> DisabledButton(showedDate.year, showedDate.month, mondayFirst, b))
      ensures Synced()
    {
    }

    /** Store the showed date and rebuild the grid: the 42 labels, DISABLED on
        the header and on the other months' cells, then the TODAY/HIGHLIGHT
        pass. */
    method SetShowedDate(d: Date)
      requires Valid() && ShowableMonth(d.year, d.month)
      modifies this`showedDate, nums, ctrl
      ensures Valid() && showedDate == d
      ensures nums[..] == GridLabels(d.year, d.month, mondayFirst)
      ensures forall b :: 0 <= b < ButtonCount ==>
                ctrl[b] == Decorated(RebuildFlags(old(ctrl[b]), d.year, d.month, mondayFirst, b), b,
                                     Highlights(), TodayButton(today, showedDate, mondayFirst))
      ensures Synced()
    {
      showedDate := Date(d.year, d.month, d.day);
      RebuildGrid();
      ghost var f1 := ctrl[..];
      HighlightUpdate();
      SyncedAfterDecoration(f1);
    }

    /** The rebuild for the showed month: DISABLED cleared everywhere and set
        on the header, the month's own days in their cells, the previous
        month's last days before them and the next month's first days after
        them, those two groups disabled. */
    method RebuildGrid()
      requires Valid()
      modifies nums, ctrl
      ensures nums[..] == GridLabels(showedDate.year, showedDate.month, mondayFirst)
      ensures forall b :: 0 <= b < ButtonCount ==>
                ctrl[b] == RebuildFlags(old(ctrl[b]), showedDate.year, showedDate.month, mondayFirst, b)
    {
      var year, month := showedDate.year, showedDate.month;

      ClearBtnCtrlAll({Disabled});
      DisableDayNames();

      var actMoLen := MonthLength(year, month);
      var dayFirst := DayOfWeek(year, month, 1, mondayFirst);
      FillMonthCells(dayFirst, actMoLen);
      var prevMoLen := MonthLength(year, month - 1);
      FillPrevMonthCells(dayFirst, actMoLen, prevMoLen);
      FillNextMonthCells(dayFirst, actMoLen, prevMoLen);

      ghost var labels := RunLabels(dayFirst, actMoLen, prevMoLen);
      assert forall k :: 0 <= k < CellCount ==> nums[k] == labels[k];
      assert nums[..] == labels;
      assert labels == GridLabels(year, month, mondayFirst);
    }

    /** DISABLED on the seven day-name buttons. */
    method DisableDayNames()
      requires ctrl.Length == ButtonCount
      modifies ctrl
      ensures forall b :: 0 <= b < ButtonCount ==>
                ctrl[b] == old(ctrl[b]) + (if b < HeaderCount then {Disabled} else {})
    {
      var i := 0;
      while i < 7
        invariant 0 <= i <= 7
        invariant forall b :: 0 <= b < ButtonCount ==>
                    ctrl[b] == old(ctrl[b]) + (if b < i then {Disabled} else {})
      {
        SetBtnCtrl(i, {Disabled});
        i := i + 1;
      }
    }

    /** The days 1..len of the showed month into cells
        dayFirst .. dayFirst+len-1. */
    method FillMonthCells(dayFirst: nat, actMoLen: nat)
      requires nums.Length == CellCount && dayFirst < 7 && 28 <= actMoLen <= 31
      modifies nums
      ensures forall k :: 0 <= k < CellCount ==>
                nums[k] == if dayFirst <= k < dayFirst + actMoLen then DecimalString(k - dayFirst + 1) else old(nums[k])
    {
      var i := dayFirst;
      var c := 1;
      while i < actMoLen + dayFirst
        invariant dayFirst <= i <= actMoLen + dayFirst && c == i - dayFirst + 1
        invariant forall k :: 0 <= k < CellCount ==>
                    nums[k] == if dayFirst <= k < i then DecimalString(k - dayFirst + 1) else old(nums[k])
      {
        nums[i] := DecimalString(c);
        i, c := i + 1, c + 1;
      }
    }

    /** The last dayFirst days of the previous month into
        cells 0 .. dayFirst-1, their buttons disabled.  With dayFirst == 0
        the loop does not run. */
    method FillPrevMonthCells(dayFirst: nat, actMoLen: nat, prevMoLen: nat)
      requires nums.Length == CellCount && ctrl.Length == ButtonCount && GridShape(dayFirst, actMoLen, prevMoLen)
      modifies nums, ctrl
      ensures forall k :: 0 <= k < CellCount ==>
                nums[k] == if k < dayFirst then DecimalString(RunDay(dayFirst, actMoLen, prevMoLen, k)) else old(nums[k])
      ensures forall b :: 0 <= b < ButtonCount ==>
                ctrl[b] == old(ctrl[b]) + (if HeaderCount <= b < HeaderCount + dayFirst then {Disabled} else {})
    {
      var i := 0;
      var c := prevMoLen - dayFirst + 1;
      while i < dayFirst
        invariant 0 <= i <= dayFirst && c == prevMoLen - dayFirst + 1 + i
        invariant forall k :: 0 <= k < CellCount ==>
                    nums[k] == if k < i then DecimalString(RunDay(dayFirst, actMoLen, prevMoLen, k)) else old(nums[k])
        invariant forall b :: 0 <= b < ButtonCount ==>
                    ctrl[b] == old(ctrl[b]) + (if HeaderCount <= b < HeaderCount + i then {Disabled} else {})
      {
        nums[i] := DecimalString(c);
        SetBtnCtrl(i + 7, {Disabled});
        i, c := i + 1, c + 1;
      }
    }

    /** 1, 2, ... of the next month into the cells after the
        showed month, their buttons disabled. */
    method FillNextMonthCells(dayFirst: nat, actMoLen: nat, prevMoLen: nat)
      requires nums.Length == CellCount && ctrl.Length == ButtonCount && GridShape(dayFirst, actMoLen, prevMoLen)
      modifies nums, ctrl
      ensures forall k :: 0 <= k < CellCount ==>
                nums[k] == if dayFirst + actMoLen <= k then DecimalString(RunDay(dayFirst, actMoLen, prevMoLen, k)) else old(nums[k])
      ensures forall b :: 0 <= b < ButtonCount ==>
                ctrl[b] == old(ctrl[b]) + (if HeaderCount + dayFirst + actMoLen <= b then {Disabled} else {})
    {
      var i := dayFirst + actMoLen;
      var c := 1;
      while i < 6 * 7
        invariant dayFirst + actMoLen <= i <= CellCount && c == i - dayFirst - actMoLen + 1
        invariant forall k :: 0 <= k < CellCount ==>
                    nums[k] == if dayFirst + actMoLen <= k < i then DecimalString(RunDay(dayFirst, actMoLen, prevMoLen, k)) else old(nums[k])
        invariant forall b :: 0 <= b < ButtonCount ==>
                    ctrl[b] == old(ctrl[b]) + (if HeaderCount + dayFirst + actMoLen <= b < HeaderCount + i then {Disabled} else {})
      {
        nums[i] := DecimalString(c);
        SetBtnCtrl(i + 7, {Disabled});
        i, c := i + 1, c + 1;
      }
    }

    /** Clear TODAY and HIGHLIGHT on every button, set HIGHLIGHT on `day + 7`
        for each matching highlighted date, and TODAY on the today button when
        the showed month is today's. */
    method HighlightUpdate()
      requires Valid()
      modifies ctrl
      ensures forall b :: 0 <= b < ButtonCount ==>
                ctrl[b] == Decorated(old(ctrl[b]), b, Highlights(), TodayButton(today, showedDate, mondayFirst))
    {
      ClearBtnCtrlAll({TodayCtrl, HighlightCtrl});
      MarkHighlights();
      if showedDate.year == today.year && showedDate.month == today.month {
        var dayFirst := DayOfWeek(today.year, today.month, today.day - 1, mondayFirst);
        SetBtnCtrl(today.day + dayFirst + 7, {TodayCtrl});
      }
    }

    /** HIGHLIGHT on `day + 7` for each of the first `num` highlighted dates
        whose year is today's and whose month is the showed one; nothing when
        the array is null. */
    method MarkHighlights()
      requires Valid()
      modifies ctrl
      ensures forall b :: 0 <= b < ButtonCount ==>
                ctrl[b] == old(ctrl[b]) + (if b in Highlights() then {HighlightCtrl} else {})
    {
      if highlightedDates.Some? {
        var dates := highlightedDates.value;
        var i := 0;
        while i < highlightedDatesNum
          modifies ctrl
          invariant 0 <= i <= highlightedDatesNum
          invariant forall b :: 0 <= b < ButtonCount ==>
                      ctrl[b] == old(ctrl[b])
                                 + (if b in HighlightButtons(highlightedDates, i, today.year, showedDate.month)
                                    then {HighlightCtrl} else {})
        {
          HighlightButtonsStep(dates, i, today.year, showedDate.month);
          if dates[i].year == today.year && dates[i].month == showedDate.month {
            SetBtnCtrl(dates[i].day + 7, {HighlightCtrl});
          }
          i := i + 1;
        }
      }
    }

    // -----------------------------------------------------------------
    // Getters.

    method GetTodayDate() returns (d: Date)
      ensures d == today
    {
      d := today;
    }

    method GetShowedDate() returns (d: Date)
      ensures d == showedDate
    {
      d := showedDate;
    }

    method GetHighlightedDates() returns (dates: Option<seq<Date>>)
      ensures dates == highlightedDates
    {
      dates := highlightedDates;
    }

    method GetHighlightedDatesNum() returns (num: nat)
      ensures num == highlightedDatesNum
    {
      num := highlightedDatesNum;
    }

    /** The date of the active button: no button gives (0, 0, 0) and false;
        otherwise the day parsed from the button's label with the showed year
        and month.  On a synced grid the day is the number the cell shows, and
        an enabled cell gives exactly the date it stands for. */
    method GetPressedDate() returns (found: bool, date: Date)
      requires Valid()
      requires btnActive.Some? ==> |BtnText(btnActive.value)| >= 1
      ensures found <==> btnActive.Some?
      ensures !found ==> date == Date(0, 0, 0)
      ensures found ==> date == Date(showedDate.year, showedDate.month, ParseDay(BtnText(btnActive.value)))
      ensures found && Synced() && btnActive.value >= HeaderCount ==>
                date.day == CellDay(showedDate.year, showedDate.month, mondayFirst, btnActive.value - HeaderCount)
      ensures found && Synced() && btnActive.value >= HeaderCount && Disabled !in ctrl[btnActive.value] ==>
                date == CellDate(showedDate.year, showedDate.month, mondayFirst, btnActive.value - HeaderCount)
    {
      var d := GetActiveBtn();
      if d.None? {
        return false, Date(0, 0, 0);
      }
      var txt := BtnText(d.value);
      var day := ParseDay(txt);
      found, date := true, Date(showedDate.year, showedDate.month, day);
      if Synced() && d.value >= HeaderCount {
        PressedCell(d.value);
      }
    }

    /** On a synced grid a day button's label parses to its cell's number, and
        an enabled one stands for a date of the showed month. */
    lemma PressedCell(b: nat)
      requires Valid() && Synced() && HeaderCount <= b < ButtonCount
      ensures ParseDay(BtnText(b)) == CellDay(showedDate.year, showedDate.month, mondayFirst, b - HeaderCount)
      ensures Disabled !in ctrl[b] ==>
                CellDate(showedDate.year, showedDate.month, mondayFirst, b - HeaderCount)
                == Date(showedDate.year, showedDate.month, ParseDay(BtnText(b)))
    {
      var i := b - HeaderCount;
      assert BtnText(b) == nums[..][i] == GridLabels(showedDate.year, showedDate.month, mondayFirst)[i];
      GridLabelsParse(showedDate.year, showedDate.month, mondayFirst, i);
      EnabledIffInMonth(showedDate.year, showedDate.month, mondayFirst, b);
      GridIsConsecutiveDays(showedDate.year, showedDate.month, mondayFirst, b - HeaderCount);
    }
  }
}
