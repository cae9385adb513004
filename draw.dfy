/** The draw-time styling decision of the calendar: for each button about to
    be drawn, how its background, border and text change with its flags.
    Colours and opacities are symbolic; the theme's own values are carried
    through untouched. */
module Draw {
  import opened DateMath
  import opened Grid

  /** Opacity levels the hook uses, or the level the theme had set. */
  datatype Opa = Transp | Opa40 | Opa70 | Cover | ThemeOpa(level: nat)

  /** The primary colour of the theme, grey, or the colour the theme had set. */
  datatype Color = Primary | Grey | ThemeColor(value: nat)

  /** The parts of the item's draw descriptors the hook may change. */
  datatype ItemStyle = ItemStyle(bgOpa: Opa, bgColor: Color, borderOpa: Opa, borderColor: Color,
                                 borderWidth: int, textColor: Color)

  /** Styling of button `id` with flags `flags` when the pressed button is
      `pressed`; `itemsPartBegin` is "a draw-part-begin event for the items
      part", the only event the hook acts on.  Header buttons and disabled
      buttons lose background and border (disabled ones also turn grey),
      HIGHLIGHT gives a translucent primary background (stronger while
      pressed), TODAY adds a primary border one pixel wider. */
  function DrawItem(itemsPartBegin: bool, id: nat, flags: set<Ctrl>, pressed: Option<nat>, s: ItemStyle): (r: ItemStyle)
    ensures !itemsPartBegin ==> r == s
    ensures itemsPartBegin ==> r.borderWidth == s.borderWidth + (if TodayCtrl in flags then 1 else 0)
    ensures itemsPartBegin && TodayCtrl in flags ==> r.borderOpa == Cover && r.borderColor == Primary
    ensures itemsPartBegin && HighlightCtrl in flags ==>
              r.bgColor == Primary && r.bgOpa == (if pressed == Some(id) then Opa70 else Opa40)
    ensures itemsPartBegin ==> (r.textColor == Grey <==> (id >= HeaderCount && Disabled in flags) || s.textColor == Grey)
    ensures itemsPartBegin ==> r.textColor == (if id >= HeaderCount && Disabled in flags then Grey else s.textColor)
    ensures itemsPartBegin && HighlightCtrl !in flags ==>
              r.bgOpa == (if id < HeaderCount || Disabled in flags then Transp else s.bgOpa)
    ensures itemsPartBegin && TodayCtrl !in flags ==>
              r.borderOpa == (if id < HeaderCount || Disabled in flags then Transp else s.borderOpa)
    ensures itemsPartBegin && HighlightCtrl !in flags ==> r.bgColor == s.bgColor
    ensures itemsPartBegin && TodayCtrl !in flags ==> r.borderColor == s.borderColor
    ensures itemsPartBegin && id >= HeaderCount && Disabled !in flags && TodayCtrl !in flags && HighlightCtrl !in flags
            ==> r == s
  {
    if !itemsPartBegin then s
    else
      var s1 :=
        if id < HeaderCount then s.(bgOpa := Transp, borderOpa := Transp)
        else if Disabled in flags then s.(bgOpa := Transp, borderOpa := Transp, textColor := Grey)
        else s;
      var s2 :=
        if HighlightCtrl in flags then s1.(bgOpa := if pressed == Some(id) then Opa70 else Opa40, bgColor := Primary)
        else s1;
      if TodayCtrl in flags then s2.(borderOpa := Cover, borderColor := Primary, borderWidth := s2.borderWidth + 1)
      else s2
  }

  /** The TODAY border does not depend on HIGHLIGHT or on the press, and the
      HIGHLIGHT background does not depend on TODAY. */
  lemma TodayAndHighlightIndependent(id: nat, flags: set<Ctrl>, pressed: Option<nat>, pressed': Option<nat>, s: ItemStyle)
    requires TodayCtrl in flags
    ensures var a := DrawItem(true, id, flags, pressed, s);
            var b := DrawItem(true, id, flags - {HighlightCtrl}, pressed', s);
            a.borderOpa == b.borderOpa && a.borderColor == b.borderColor && a.borderWidth == b.borderWidth
    ensures var a := DrawItem(true, id, flags, pressed, s);
            var c := DrawItem(true, id, flags - {TodayCtrl}, pressed, s);
            a.bgOpa == c.bgOpa && a.bgColor == c.bgColor && a.textColor == c.textColor
  {
  }

  /** On a rebuilt grid, a day button is drawn grey exactly when the date it
      stands for lies outside the showed month (for a theme whose text is not
      already grey). */
  lemma {:induction false} GreyExactlyOtherMonths(year: int, month: int, mondayFirst: bool, flags: seq<set<Ctrl>>,
                                                  b: nat, pressed: Option<nat>, s: ItemStyle)
    requires ShowableMonth(year, month) && |flags| == ButtonCount && HeaderCount <= b < ButtonCount
    requires forall k :: 0 <= k < ButtonCount ==> (Disabled in flags[k] <==> DisabledButton(year, month, mondayFirst, k))
    requires s.textColor != Grey
    ensures var d := CellDate(year, month, mondayFirst, b - HeaderCount);
            DrawItem(true, b, flags[b], pressed, s).textColor == Grey <==> !(d.year == year && d.month == month)
  {
    EnabledIffInMonth(year, month, mondayFirst, b);
  }
}
