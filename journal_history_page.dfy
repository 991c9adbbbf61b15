/** The History page: a calendar of one month whose days link to that day's journal, with
    links to the previous and the next month. The page receives the month and the year (already
    validated by the controller) and the month's entries; the weekday of the first day of the
    month comes from the browser's date library and is a parameter here. */
module JournalHistoryPage {

  import opened Wrappers
  import opened Strings
  import opened Schema
  import Seqs
  import JournalController

  // ---------------------------------------------------------------------------------------
  // Date strings

  /** `String(n)` for an integral number: its decimal digits, after a minus sign when it is
      negative. */
  function JsNumberString(n: int): (s: string)
    ensures s != [] && (s[0] == '-' <==> n < 0)
  {
    if n >= 0 then NatToString(n) else "-" + NatToString(-n)
  }

  /** `formatDate`: the year as JavaScript writes the number, then the month and the day
      padded to two digits, separated by dashes. The year is not padded. */
  function FormatDate(year: int, month: nat, day: nat): (s: string)
    ensures 1000 <= year <= 9999 && month < 100 && day < 100 ==> |s| == 10
    ensures 0 <= year < 1000 && month < 100 && day < 100 ==> |s| <= 9
  {
    JsNumberString(year) + "-" + PadStart(NatToString(month), 2, '0') + "-" + PadStart(NatToString(day), 2, '0')
  }

  /** For a four-digit year the date string is the extended calendar-date form of ISO 8601
      (`YYYY-MM-DD`): its three fields read back as the year, the month and the day. */
  lemma FormatDateFields(year: int, month: nat, day: nat)
    requires 1000 <= year <= 9999 && 1 <= month <= 12 && 1 <= day <= 31
    ensures |FormatDate(year, month, day)| == 10
    ensures FormatDate(year, month, day)[4] == '-' && FormatDate(year, month, day)[7] == '-'
    ensures AllDigits(FormatDate(year, month, day)[..4]) && ParseDigits(FormatDate(year, month, day)[..4]) == year
    ensures AllDigits(FormatDate(year, month, day)[5..7]) && ParseDigits(FormatDate(year, month, day)[5..7]) == month
    ensures AllDigits(FormatDate(year, month, day)[8..]) && ParseDigits(FormatDate(year, month, day)[8..]) == day
  {
    var y, m, d := NatToString(year), PadStart(NatToString(month), 2, '0'), PadStart(NatToString(day), 2, '0');
    assert FormatDate(year, month, day) == y + "-" + m + "-" + d;
    PadStartValue(month, 2);
    PadStartValue(day, 2);
    DashedFields(y, m, d);
  }

  /** The fields of `y-m-d` with a four-character `y` and two-character `m` and `d`. */
  lemma DashedFields(y: string, m: string, d: string)
    requires |y| == 4 && |m| == 2 && |d| == 2
    ensures |y + "-" + m + "-" + d| == 10
    ensures (y + "-" + m + "-" + d)[4] == '-' && (y + "-" + m + "-" + d)[7] == '-'
    ensures (y + "-" + m + "-" + d)[..4] == y && (y + "-" + m + "-" + d)[5..7] == m && (y + "-" + m + "-" + d)[8..] == d
  {
    var s := y + "-" + m + "-" + d;
    assert s[..4] == y;
    assert s[5..7] == m;
    assert s[8..] == d;
  }

  /** `formatDate` with the year padded to four digits: the form in which the server writes
      an entry's date. */
  function FormatDateIso(year: nat, month: nat, day: nat): (s: string)
    ensures month < 100 && day < 100 ==> |s| >= 10
  {
    PadStart(NatToString(year), 4, '0') + "-" + PadStart(NatToString(month), 2, '0') + "-" + PadStart(NatToString(day), 2, '0')
  }

  /** The padded form is exactly the date string the server sends for the entry of that date. */
  lemma FormatDateIsoStored(year: nat, month: nat, day: nat)
    ensures FormatDateIso(year, month, day) == JournalController.DateString(Date(year, month, day))
  {
    var y, m, d := PadStart(NatToString(year), 4, '0'), PadStart(NatToString(month), 2, '0'), PadStart(NatToString(day), 2, '0');
    var suffix := "-" + m + "-" + d;
    assert JournalController.YearString(year) == y;
    assert JournalController.MonthDaySuffix(month, day) == suffix;
    assert JournalController.DateString(Date(year, month, day)) == y + suffix;
    Regroup(y, "-", m, "-", d);
  }

  lemma Regroup(a: string, b: string, c: string, d: string, e: string)
    ensures a + b + c + d + e == a + (b + c + d + e)
  {
  }

  /** A decimal numeral of a number from 1000 on has at least four digits. */
  lemma {:induction false} NatToStringWide(n: nat)
    requires n >= 1000
    ensures |NatToString(n)| >= 4
  {
    if n >= 10000 {
      NatToStringWide(n / 10);
    }
  }

  /** Padding a string that is already wide enough changes nothing. */
  lemma PadStartWide(s: string, width: nat, fill: char)
    requires |s| >= width
    ensures PadStart(s, width, fill) == s
  {
    var r := PadStart(s, width, fill);
    assert r == r[|r| - |s|..];
  }

  /** From year 1000 on, `formatDate` and the padded form agree. */
  lemma FormatDateAgrees(year: int, month: nat, day: nat)
    requires year >= 1000
    ensures FormatDate(year, month, day) == FormatDateIso(year, month, day)
  {
    NatToStringWide(year);
    PadStartWide(NatToString(year), 4, '0');
  }

  /** Before year 1000, `formatDate` is shorter than every date string the server sends, so
      no entry is ever found for a day of such a year. */
  lemma FormatDateMissesEarlyYears(year: int, month: nat, day: nat, d: Date)
    requires 0 <= year < 1000 && month < 100 && day < 100
    ensures FormatDate(year, month, day) != JournalController.DateString(d)
  {
  }

  // ---------------------------------------------------------------------------------------
  // Months

  /** The year the browser's `new Date(year, …)` uses: a year from 0 to 99 means 1900 to
      1999. */
  function JsFullYear(year: int): (y: int)
    ensures 0 <= year <= 99 ==> y == year + 1900
    ensures !(0 <= year <= 99) ==> y == year
  {
    if 0 <= year <= 99 then 1900 + year else year
  }

  /** Months counted from January of year 0, so consecutive months differ by one. */
  function MonthNumber(year: int, month: int): int {
    year * 12 + month - 1
  }

  /** Months 1..12 are numbered one to one. */
  lemma MonthNumberInjective(y1: int, m1: int, y2: int, m2: int)
    requires 1 <= m1 <= 12 && 1 <= m2 <= 12
    requires MonthNumber(y1, m1) == MonthNumber(y2, m2)
    ensures y1 == y2 && m1 == m2
  {
  }

  /** `{ year: date.getFullYear(), month: date.getMonth() + 1 }` of `new Date(year,
      monthIndex, 1)`: the month index may run past either end of the year and is carried
      into the year. */
  function JsMonthStart(year: int, monthIndex: int): (r: (int, int))
    ensures 1 <= r.1 <= 12
    ensures MonthNumber(r.0, r.1) == MonthNumber(JsFullYear(year), 1) + monthIndex
  {
    (JsFullYear(year) + monthIndex / 12, monthIndex % 12 + 1)
  }

  /** `prevParams`: the first of the month before, built as `new Date(year, month - 2, 1)`. */
  function PrevMonthParams(year: int, month: int): (int, int) {
    JsMonthStart(year, month - 2)
  }

  /** `nextParams`: the first of the month after, built as `new Date(year, month, 1)`. */
  function NextMonthParams(year: int, month: int): (int, int) {
    JsMonthStart(year, month)
  }

  /** The month before: December of the year before for January, else the previous month. */
  function CalendarPrev(year: int, month: int): (r: (int, int))
    requires 1 <= month <= 12
    ensures 1 <= r.1 <= 12 && MonthNumber(r.0, r.1) == MonthNumber(year, month) - 1
  {
    if month == 1 then (year - 1, 12) else (year, month - 1)
  }

  /** The month after: January of the year after for December, else the next month. */
  function CalendarNext(year: int, month: int): (r: (int, int))
    requires 1 <= month <= 12
    ensures 1 <= r.1 <= 12 && MonthNumber(r.0, r.1) == MonthNumber(year, month) + 1
  {
    if month == 12 then (year + 1, 1) else (year, month + 1)
  }

  /** Going back a month and forward again, or forward and back, returns to the same month. */
  lemma CalendarPrevNext(year: int, month: int)
    requires 1 <= month <= 12
    ensures CalendarNext(CalendarPrev(year, month).0, CalendarPrev(year, month).1) == (year, month)
    ensures CalendarPrev(CalendarNext(year, month).0, CalendarNext(year, month).1) == (year, month)
  {
    var p := CalendarPrev(year, month);
    var n := CalendarNext(year, month);
    var pn := CalendarNext(p.0, p.1);
    var np := CalendarPrev(n.0, n.1);
    MonthNumberInjective(pn.0, pn.1, year, month);
    MonthNumberInjective(np.0, np.1, year, month);
  }

  /** Outside the years 0..99 the page's links go to the calendar's previous and next month:
      January rolls back to December of the year before, December on to January of the year
      after. */
  lemma MonthParamsAgree(year: int, month: int)
    requires 1 <= month <= 12 && !(0 <= year <= 99)
    ensures PrevMonthParams(year, month) == CalendarPrev(year, month)
    ensures NextMonthParams(year, month) == CalendarNext(year, month)
  {
    var p, n := PrevMonthParams(year, month), NextMonthParams(year, month);
    var cp, cn := CalendarPrev(year, month), CalendarNext(year, month);
    MonthNumberInjective(p.0, p.1, cp.0, cp.1);
    MonthNumberInjective(n.0, n.1, cn.0, cn.1);
  }

  /** In the years 1..99 the links jump to the matching month of 1901..1999; the month before
      March of year 50 is given as February of 1950. */
  lemma MonthParamsEarlyYears(year: int, month: int)
    requires 1 <= month <= 12 && 0 <= year <= 99
    ensures PrevMonthParams(year, month) == CalendarPrev(year + 1900, month)
    ensures NextMonthParams(year, month) == CalendarNext(year + 1900, month)
    ensures PrevMonthParams(50, 3) == (1950, 2) != CalendarPrev(50, 3)
  {
    MonthParamsAgree(year + 1900, month);
    MonthParamsAgree(1950, 3);
  }

  /** `new Date(year, month, 0).getDate()`: the last day of `month`, in the year the browser
      takes `year` for. */
  function PageDaysInMonth(year: int, month: int): (days: nat)
    requires 1 <= month <= 12
    ensures 28 <= days <= 31
  {
    DaysInMonth(JsFullYear(year), month)
  }

  /** For every year the page can be asked for, the day count is the Gregorian month length:
      years 1..99 and 1901..1999 have the same leap years. */
  lemma PageDaysInMonthGregorian(year: int, month: int)
    requires 1 <= month <= 12 && year >= 1
    ensures PageDaysInMonth(year, month) == DaysInMonth(year, month)
  {
    if year <= 99 {
      assert (year + 1900) % 4 == year % 4;
      assert (year + 1900) % 100 == year % 100 != 0;
    }
  }

  // ---------------------------------------------------------------------------------------
  // The grid

  /** `cells`: `startWeekday` blanks, the days `1..days`, then blanks up to a whole week. */
  function Cells(startWeekday: nat, days: nat): (cells: seq<Option<nat>>)
    ensures |cells| % 7 == 0
    ensures startWeekday + days <= |cells| < startWeekday + days + 7
    ensures forall i :: 0 <= i < |cells| ==>
      cells[i] == if startWeekday <= i < startWeekday + days then Some(i - startWeekday + 1) else None
  {
    var trailing := (7 - (startWeekday + days) % 7) % 7;
    var leading: seq<Option<nat>> := seq(startWeekday, _ => None);
    var numbers: seq<Option<nat>> := seq(days, i => Some(i + 1));
    var after: seq<Option<nat>> := seq(trailing, _ => None);
    leading + numbers + after
  }

  // ---------------------------------------------------------------------------------------
  // Looking up entries

  /** `findEntryByDate`: the first entry with the date, or none. */
  function FindEntryByDate(entries: seq<HistoryEntry>, date: string): (r: Option<HistoryEntry>)
    ensures r.None? <==> forall i :: 0 <= i < |entries| ==> entries[i].date != date
    ensures r.Some? ==> r.value in entries && r.value.date == date
  {
    if entries == [] then None
    else if entries[0].date == date then Some(entries[0])
    else FindEntryByDate(entries[1..], date)
  }

  /** The entry `findEntryByDate` returns is the first one with the date. */
  lemma {:induction false} FindEntryFirst(entries: seq<HistoryEntry>, date: string, i: nat)
    requires i < |entries| && entries[i].date == date
    requires forall j :: 0 <= j < i ==> entries[j].date != date
    ensures FindEntryByDate(entries, date) == Some(entries[i])
  {
    if i > 0 {
      FindEntryFirst(entries[1..], date, i - 1);
    }
  }

  /** The map `entryMap` holds once every entry has been set under its date. */
  function EntryMapOf(entries: seq<HistoryEntry>): (m: map<string, HistoryEntry>)
    ensures forall d :: d in m ==> m[d].date == d && m[d] in entries
  {
    if entries == [] then map[]
    else
      var last := entries[|entries| - 1];
      EntryMapOf(entries[..|entries| - 1])[last.date := last]
  }

  /** `entryMap`: a map filled by setting each entry under its date, in order, so that a
      later entry with the same date replaces an earlier one. */
  method BuildEntryMap(entries: seq<HistoryEntry>) returns (m: map<string, HistoryEntry>)
    ensures m == EntryMapOf(entries)
  {
    m := map[];
    var i := 0;
    while i < |entries|
      invariant i <= |entries|
      invariant m == EntryMapOf(entries[..i])
    {
      assert entries[..i + 1][..i] == entries[..i];
      m := m[entries[i].date := entries[i]];
      i := i + 1;
    }
    assert entries[..i] == entries;
  }

  /** A date is a key of the map exactly when some entry has that date. */
  lemma {:induction false} EntryMapKeys(entries: seq<HistoryEntry>, date: string)
    ensures date in EntryMapOf(entries) <==> exists i :: 0 <= i < |entries| && entries[i].date == date
  {
    if entries != [] {
      var init := entries[..|entries| - 1];
      EntryMapKeys(init, date);
      if exists i :: 0 <= i < |init| && init[i].date == date {
        var i :| 0 <= i < |init| && init[i].date == date;
        assert entries[i].date == date;
      }
      if exists i :: 0 <= i < |entries| && entries[i].date == date {
        var i :| 0 <= i < |entries| && entries[i].date == date;
        if i < |init| {
          assert init[i].date == date;
        }
      }
    }
  }

  /** Under each date the map holds the last entry with that date. */
  lemma {:induction false} EntryMapLast(entries: seq<HistoryEntry>, i: nat)
    requires i < |entries|
    requires forall j :: i < j < |entries| ==> entries[j].date != entries[i].date
    ensures entries[i].date in EntryMapOf(entries) && EntryMapOf(entries)[entries[i].date] == entries[i]
  {
    if i < |entries| - 1 {
      var init := entries[..|entries| - 1];
      assert init[i] == entries[i];
      EntryMapLast(init, i);
    }
  }

  /** `entryMap.get(dateStr) ?? findEntryByDate(entries, dateStr)`. */
  function CellEntry(entryMap: map<string, HistoryEntry>, entries: seq<HistoryEntry>, date: string): Option<HistoryEntry> {
    if date in entryMap then Some(entryMap[date]) else FindEntryByDate(entries, date)
  }

  /** With the map built from the entries, a day finds an entry exactly when some entry has
      its date, and then the last such entry; the fallback search never finds anything the
      map lacks. */
  lemma CellEntrySpec(entries: seq<HistoryEntry>, date: string)
    ensures CellEntry(EntryMapOf(entries), entries, date).None? <==>
      forall i :: 0 <= i < |entries| ==> entries[i].date != date
    ensures date in EntryMapOf(entries) ==> CellEntry(EntryMapOf(entries), entries, date) == Some(EntryMapOf(entries)[date])
    ensures date !in EntryMapOf(entries) ==> CellEntry(EntryMapOf(entries), entries, date) == None
  {
    EntryMapKeys(entries, date);
  }

  /** What a cell of the grid shows. */
  datatype DayCell =
    | Blank
    | EntryDay(day: nat, entryId: nat)  // a link to the journal of that day
    | EmptyDay(day: nat)                // a day without a journal

  /** The cell for `cell` once the day's date string is looked up. */
  function DayCellOf(year: nat, month: nat, entries: seq<HistoryEntry>, cell: Option<nat>): DayCell {
    match cell
    case None => Blank
    case Some(day) =>
      var entry := CellEntry(EntryMapOf(entries), entries, FormatDateIso(year, month, day));
      if entry.Some? then EntryDay(day, entry.value.id) else EmptyDay(day)
  }

  /** The grid of the month: the cells, each looked up among the entries. */
  function CalendarCells(year: nat, month: nat, startWeekday: nat, entries: seq<HistoryEntry>): seq<DayCell>
    requires 1 <= month <= 12
  {
    Seqs.Map(Cells(startWeekday, PageDaysInMonth(year, month)), cell => DayCellOf(year, month, entries, cell))
  }

  /** Day `day` of the month sits at `startWeekday + day - 1`, in whole weeks of cells; it
      links to an entry exactly when some entry has its date, and to the last such entry. */
  lemma CalendarCellsSpec(year: nat, month: nat, startWeekday: nat, entries: seq<HistoryEntry>, day: nat)
    requires 1 <= month <= 12 && year >= 1 && 1 <= day <= DaysInMonth(year, month)
    ensures |CalendarCells(year, month, startWeekday, entries)| % 7 == 0
    ensures startWeekday + day - 1 < |CalendarCells(year, month, startWeekday, entries)|
    ensures CalendarCells(year, month, startWeekday, entries)[startWeekday + day - 1] ==
      var date := FormatDateIso(year, month, day);
      if date in EntryMapOf(entries) then EntryDay(day, EntryMapOf(entries)[date].id) else EmptyDay(day)
    ensures CalendarCells(year, month, startWeekday, entries)[startWeekday + day - 1].EntryDay? <==>
      exists i :: 0 <= i < |entries| && entries[i].date == FormatDateIso(year, month, day)
  {
    DayCellAt(year, month, startWeekday, entries, day);
    var date := FormatDateIso(year, month, day);
    CellEntrySpec(entries, date);
    EntryMapKeys(entries, date);
  }

  /** The cell of day `day` is that day looked up. */
  lemma DayCellAt(year: nat, month: nat, startWeekday: nat, entries: seq<HistoryEntry>, day: nat)
    requires 1 <= month <= 12 && year >= 1 && 1 <= day <= DaysInMonth(year, month)
    ensures |CalendarCells(year, month, startWeekday, entries)| % 7 == 0
    ensures startWeekday + day - 1 < |CalendarCells(year, month, startWeekday, entries)|
    ensures CalendarCells(year, month, startWeekday, entries)[startWeekday + day - 1] ==
      DayCellOf(year, month, entries, Some(day))
  {
    PageDaysInMonthGregorian(year, month);
    var cells := Cells(startWeekday, PageDaysInMonth(year, month));
    assert cells[startWeekday + day - 1] == Some(day);
  }
}
