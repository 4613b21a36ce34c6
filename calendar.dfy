/**
 * The stage calendar: month arithmetic, the month grid, the stages of one day or of the
 * shown month, the 24-month selector, and the component's state (shown month, view,
 * selected day) with the handlers that change it.
 */
module Calendar {
  import opened Types
  import opened Sequences
  import opened Sorting
  import opened Dates

  datatype View = CalendarView | ListView

  /** A cell of the month grid: a blank before the first day, or a numbered day. */
  datatype Cell = Blank(index: nat) | DayCell(day: int, hasEtapas: bool, isSelected: bool)

  /**
   * `getDaysInMonth`: `getDate()` of day 0 of the next month, which is the last day
   * of the shown month.
   */
  function GetDaysInMonth(d: Date): (n: int)
    ensures 28 <= n <= 31
    ensures d.month == 1 ==> (n == 29 <==> IsLeapYear(d.year))
    ensures IsValidDate(Date(d.year, d.month, n)) && !IsValidDate(Date(d.year, d.month, n + 1))
    ensures DayNumber(Date(d.year, d.month, n)) + 1 == DayNumber(FirstOfMonth(d.year, d.month + 1))
  {
    LastDayPrecedesNextMonth(d.year, d.month);
    DaysInMonth(d.year, d.month)
  }

  /** `getFirstDayOfMonth`: the weekday (0 = Sunday) of the first of the shown month. */
  function GetFirstDayOfMonth(d: Date): (w: int)
    ensures 0 <= w < 7 && w == Weekday(Date(d.year, d.month, 1))
  {
    FirstDayOfMonth(d.year, d.month)
  }

  /** The grid of the next month starts where this month's grid ends, modulo a week. */
  lemma NextGridStart(d: Date)
    ensures GetFirstDayOfMonth(FirstOfMonth(d.year, d.month + 1))
         == (GetFirstDayOfMonth(d) + GetDaysInMonth(d)) % 7
  {
    NextMonthWeekday(d.year, d.month);
  }

  function OnDate(d: Date): Etapa -> bool
  {
    (e: Etapa) => e.dataPublicado == d
  }

  /**
   * `getEtapasForDate`: the stages whose day, month and year all equal those of `d`,
   * in input order.
   */
  function EtapasForDate(es: seq<Etapa>, d: Date): (r: seq<Etapa>)
    ensures IsSubsequence(r, es)
    ensures forall i :: 0 <= i < |r| ==> r[i].dataPublicado == d
    ensures forall i :: 0 <= i < |es| && es[i].dataPublicado == d ==> es[i] in r
    ensures forall e :: multiset(r)[e] == if e.dataPublicado == d then multiset(es)[e] else 0
  {
    FilterMembers(es, OnDate(d));
    FilterIsSubsequence(es, OnDate(d));
    FilterCount(es, OnDate(d));
    Filter(es, OnDate(d))
  }

  function InMonth(year: int, month: Month): Etapa -> bool
  {
    (e: Etapa) => e.dataPublicado.month == month && e.dataPublicado.year == year
  }

  /** The stages published in the given month and year, in input order. */
  function EtapasInMonth(es: seq<Etapa>, year: int, month: Month): (r: seq<Etapa>)
    ensures IsSubsequence(r, es)
    ensures forall i :: 0 <= i < |r| ==> r[i].dataPublicado.year == year && r[i].dataPublicado.month == month
    ensures forall i :: 0 <= i < |es| && es[i].dataPublicado.year == year && es[i].dataPublicado.month == month ==> es[i] in r
    ensures forall e :: multiset(r)[e] == if InMonth(year, month)(e) then multiset(es)[e] else 0
  {
    FilterMembers(es, InMonth(year, month));
    FilterIsSubsequence(es, InMonth(year, month));
    FilterCount(es, InMonth(year, month));
    Filter(es, InMonth(year, month))
  }

  /** The list view's comparator: the difference of the publication times. */
  function ByDate(): (Etapa, Etapa) -> int
  {
    (a: Etapa, b: Etapa) => DayNumber(a.dataPublicado) - DayNumber(b.dataPublicado)
  }

  lemma ByDateIsConsistent()
    ensures IsComparator(ByDate())
  {
  }

  /** The list view: the month's stages, sorted by publication date, stable for equal dates. */
  function ListStages(es: seq<Etapa>, current: Date): (r: seq<Etapa>)
    ensures multiset(r) == multiset(EtapasInMonth(es, current.year, current.month))
  {
    Sort(EtapasInMonth(es, current.year, current.month), ByDate())
  }

  /**
   * The list shows exactly the stages of the shown month, earliest first, and stages of
   * the same day in their input order.
   */
  lemma ListStagesOrdered(es: seq<Etapa>, current: Date, k: Etapa)
    ensures forall i :: 0 <= i < |ListStages(es, current)| ==>
      ListStages(es, current)[i].dataPublicado.year == current.year &&
      ListStages(es, current)[i].dataPublicado.month == current.month
    ensures forall i :: 0 <= i < |es| && InMonth(current.year, current.month)(es[i]) ==> es[i] in ListStages(es, current)
    ensures forall i, j :: 0 <= i < j < |ListStages(es, current)| ==>
      DayNumber(ListStages(es, current)[i].dataPublicado) <= DayNumber(ListStages(es, current)[j].dataPublicado)
    ensures Filter(ListStages(es, current), TiedWith(ByDate(), k))
         == Filter(EtapasInMonth(es, current.year, current.month), TiedWith(ByDate(), k))
  {
    var r := ListStages(es, current);
    var m := EtapasInMonth(es, current.year, current.month);
    ByDateIsConsistent();
    SortSorted(m, ByDate());
    SortStable(m, ByDate(), k);
    forall i | 0 <= i < |r| ensures r[i].dataPublicado.year == current.year && r[i].dataPublicado.month == current.month {
      assert r[i] in multiset(m);
      var j :| 0 <= j < |m| && m[j] == r[i];
    }
    forall i | 0 <= i < |es| && InMonth(current.year, current.month)(es[i]) ensures es[i] in r
    {
      assert es[i] in multiset(m);
    }
  }

  /**
   * `changeMonth(increment)` and the month selector: `new Date(year, month, 1)`, with a
   * month outside 0..11 carried into the year.
   */
  function ShiftMonth(d: Date, increment: int): (r: Date)
    ensures r.day == 1 && MonthCount(r) == MonthCount(d) + increment
  {
    FirstOfMonth(d.year, d.month + increment)
  }

  /** Stepping forward from December gives January of the next year, otherwise the next month. */
  lemma ShiftMonthForward(d: Date)
    ensures d.month == 11 ==> ShiftMonth(d, 1) == Date(d.year + 1, 0, 1)
    ensures d.month < 11 ==> ShiftMonth(d, 1) == Date(d.year, d.month + 1, 1)
  {
  }

  /** Stepping back from January gives December of the previous year, otherwise the previous month. */
  lemma ShiftMonthBackward(d: Date)
    ensures d.month == 0 ==> ShiftMonth(d, -1) == Date(d.year - 1, 11, 1)
    ensures d.month > 0 ==> ShiftMonth(d, -1) == Date(d.year, d.month - 1, 1)
  {
  }

  /** Stepping forward and back returns to the first of the month. */
  lemma ShiftMonthInverse(d: Date, k: int)
    ensures ShiftMonth(ShiftMonth(d, k), -k) == Date(d.year, d.month, 1)
  {
    MonthCountInjective(ShiftMonth(ShiftMonth(d, k), -k), Date(d.year, d.month, 1));
  }

  /**
   * The selector's 24 options, from six months before the month of `today` to seventeen
   * after; the option text and value are the month and year of each entry.
   */
  function MonthOptions(today: Date): (r: seq<Date>)
    ensures |r| == 24
    ensures forall i :: 0 <= i < 24 ==> r[i].day == 1 && MonthCount(r[i]) == MonthCount(today) - 6 + i
  {
    var r := seq(24, i => FirstOfMonth(today.year, today.month - 6 + i));
    assert forall i :: 0 <= i < 24 ==> r[i] == FirstOfMonth(today.year, today.month - 6 + i);
    r
  }

  /** A month is determined by its count. */
  lemma MonthCountInjective(a: Date, b: Date)
    requires a.day == b.day && MonthCount(a) == MonthCount(b)
    ensures a == b
  {
  }

  /**
   * The options are distinct and consecutive, the seventh is the current month, and the
   * first and last lie six months before and seventeen after it.
   */
  lemma MonthOptionsWindow(today: Date)
    ensures MonthOptions(today)[6] == Date(today.year, today.month, 1)
    ensures forall i :: 0 <= i < 23 ==> MonthOptions(today)[i + 1] == ShiftMonth(MonthOptions(today)[i], 1)
    ensures MonthOptions(today)[0] == ShiftMonth(today, -6) && MonthOptions(today)[23] == ShiftMonth(today, 17)
    ensures NoDuplicates(MonthOptions(today))
  {
    var r := MonthOptions(today);
    MonthCountInjective(r[6], Date(today.year, today.month, 1));
    forall i | 0 <= i < 23 ensures r[i + 1] == ShiftMonth(r[i], 1) {
      MonthCountInjective(r[i + 1], ShiftMonth(r[i], 1));
    }
    MonthCountInjective(r[0], ShiftMonth(today, -6));
    MonthCountInjective(r[23], ShiftMonth(today, 17));
  }

  /** The calendar component's state over the stages it was given. */
  class CalendarState {
    const etapas: seq<Etapa>
    var currentDate: Date
    var view: View
    var selectedDay: Option<Date>

    /**
     * The shown month is a real date; a selected day lies in the shown month, has stages,
     * and exists only in the calendar view.
     */
    ghost predicate Valid()
      reads this
    {
      && IsValidDate(currentDate)
      && (selectedDay.Some? ==>
            && view == CalendarView
            && IsValidDate(selectedDay.value)
            && selectedDay.value.year == currentDate.year
            && selectedDay.value.month == currentDate.month
            && EtapasForDate(etapas, selectedDay.value) != [])
    }

    /** The component opens on today's month, in the calendar view, with no day selected. */
    constructor (etapas: seq<Etapa>, today: Date)
      requires IsValidDate(today)
      ensures Valid()
      ensures this.etapas == etapas && currentDate == today && view == CalendarView && selectedDay == None
    {
      this.etapas := etapas;
      currentDate := today;
      view := CalendarView;
      selectedDay := None;
    }

    /** `changeMonth(increment)`: the first of the month `increment` months away; the selection is cleared. */
    method ChangeMonth(increment: int)
      requires Valid()
      modifies this
      ensures Valid()
      ensures currentDate == ShiftMonth(old(currentDate), increment)
      ensures selectedDay == None && view == old(view)
    {
      currentDate := FirstOfMonth(currentDate.year, currentDate.month + increment);
      selectedDay := None;
    }

    /** The selector's `onChange`: the first of the chosen month; the selection is cleared. */
    method SelectMonth(month: int, year: int)
      requires Valid()
      modifies this
      ensures Valid()
      ensures currentDate == FirstOfMonth(year, month) && selectedDay == None && view == old(view)
    {
      currentDate := FirstOfMonth(year, month);
      selectedDay := None;
    }

    /** The "Calendário" button. */
    method ShowCalendar()
      requires Valid()
      modifies this
      ensures Valid()
      ensures view == CalendarView && selectedDay == None && currentDate == old(currentDate)
    {
      view := CalendarView;
      selectedDay := None;
    }

    /** The "Lista" button. */
    method ShowList()
      requires Valid()
      modifies this
      ensures Valid()
      ensures view == ListView && selectedDay == None && currentDate == old(currentDate)
    {
      view := ListView;
      selectedDay := None;
    }

    /** A click on the cell of `day`: it selects the day only when the day has stages. */
    method ClickDay(day: int)
      requires Valid() && view == CalendarView && 1 <= day <= GetDaysInMonth(currentDate)
      modifies this
      ensures Valid()
      ensures var date := Date(currentDate.year, currentDate.month, day);
              selectedDay == if EtapasForDate(etapas, date) != [] then Some(date) else old(selectedDay)
      ensures currentDate == old(currentDate) && view == old(view)
    {
      var date := Date(currentDate.year, currentDate.month, day);
      if EtapasForDate(etapas, date) != [] {
        selectedDay := Some(date);
      }
    }

    /** The cell of `day` in the shown month. */
    function DayCellOf(day: int): Cell
      reads this
    {
      var date := Date(currentDate.year, currentDate.month, day);
      DayCell(day, EtapasForDate(etapas, date) != [], selectedDay == Some(date))
    }

    /**
     * `renderCalendarDays`: one blank cell per weekday before the first of the month,
     * then one cell per day of the month, numbered upwards from 1, each marked when the
     * day has stages and when it is the selected day.
     */
    method RenderCalendarDays() returns (cells: seq<Cell>)
      ensures |cells| == GetFirstDayOfMonth(currentDate) + GetDaysInMonth(currentDate) <= 37
      ensures forall i :: 0 <= i < GetFirstDayOfMonth(currentDate) ==> cells[i] == Blank(i)
      ensures forall d :: 1 <= d <= GetDaysInMonth(currentDate) ==>
        cells[GetFirstDayOfMonth(currentDate) + d - 1] == DayCellOf(d)
    {
      var daysInMonth := GetDaysInMonth(currentDate);
      var firstDay := GetFirstDayOfMonth(currentDate);
      cells := [];
      var i := 0;
      while i < firstDay
        invariant 0 <= i <= firstDay
        invariant |cells| == i
        invariant forall j :: 0 <= j < i ==> cells[j] == Blank(j)
      {
        cells := cells + [Blank(i)];
        i := i + 1;
      }
      cells := RenderDays(cells);
    }

    /** The day loop of `renderCalendarDays`: appends one cell per day of the shown month. */
    method RenderDays(blanks: seq<Cell>) returns (cells: seq<Cell>)
      ensures |cells| == |blanks| + GetDaysInMonth(currentDate)
      ensures cells[..|blanks|] == blanks
      ensures forall d :: 1 <= d <= GetDaysInMonth(currentDate) ==> cells[|blanks| + d - 1] == DayCellOf(d)
    {
      var daysInMonth := GetDaysInMonth(currentDate);
      cells := blanks;
      var day := 1;
      while day <= daysInMonth
        invariant 1 <= day <= daysInMonth + 1
        invariant |cells| == |blanks| + day - 1
        invariant cells[..|blanks|] == blanks
        invariant forall d :: 1 <= d < day ==> cells[|blanks| + d - 1] == DayCellOf(d)
      {
        var cell := RenderDay(day);
        cells := cells + [cell];
        day := day + 1;
      }
    }

    /** The body of the day loop of `renderCalendarDays`: the cell of one day of the shown month. */
    method RenderDay(day: int) returns (cell: Cell)
      ensures cell == DayCellOf(day)
    {
      var date := Date(currentDate.year, currentDate.month, day);
      var dayEtapas := EtapasForDate(etapas, date);
      var hasEtapas := |dayEtapas| > 0;
      var isSelected := selectedDay.Some? && selectedDay.value == date;
      cell := DayCell(day, hasEtapas, isSelected);
    }

    /**
     * `filteredEtapas`: in the list view the shown month's stages by date; in the
     * calendar view the selected day's stages, or nothing when no day is selected.
     */
    function ShownEtapas(): (r: seq<Etapa>)
      reads this
      ensures view == CalendarView && selectedDay.None? ==> r == []
      ensures view == CalendarView && selectedDay.Some? ==>
        forall i :: 0 <= i < |r| ==> r[i].dataPublicado == selectedDay.value
      ensures view == ListView ==> multiset(r) == multiset(EtapasInMonth(etapas, currentDate.year, currentDate.month))
    {
      if view == ListView then ListStages(etapas, currentDate)
      else if selectedDay.Some? then EtapasForDate(etapas, selectedDay.value)
      else []
    }

    /** While a day is selected the calendar shows a non-empty list of that day's stages. */
    lemma SelectedDayShowsStages()
      requires Valid() && selectedDay.Some?
      ensures ShownEtapas() != [] && ShownEtapas() == EtapasForDate(etapas, selectedDay.value)
    {
    }
  }
}
