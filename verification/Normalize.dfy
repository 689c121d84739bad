/** Timetable pages to slots, and everything crawled to one batch whose references all resolve. */
module Normalize {
  import opened Wrappers
  import opened Hosts

  // ----- one row of a timetable page -----

  const SLOT_MINUTES := 30
  const DAY_START := 480

  datatype Clock = Clock(h: int, m: int)

  /**
   * A cell: its colspan as a number when it reads as one, its texts, and the first "HH:MM - HH:MM"
   * in it if there is one (one or two digits an hour, two digits a minute).
   */
  datatype Cell = Cell(colspan: Option<int>, subject: string, room: string, teacher: string, times: Option<(Clock, Clock)>)

  datatype Row = Row(header: string, cells: seq<Cell>)

  datatype Slot = Slot(day: int, startsAt: string, endsAt: string, subject: string, room: Option<string>, teacher: Option<string>)

  function DayOf(header: string): Option<int> {
    var day := Lower(header);
    if day == "monday" then Some(1) else if day == "tuesday" then Some(2) else if day == "wednesday" then Some(3)
    else if day == "thursday" then Some(4) else if day == "friday" then Some(5) else if day == "saturday" then Some(6)
    else if day == "sunday" then Some(7) else None
  }

  /** A missing, unreadable or zero colspan counts as one. */
  function Width(c: Cell): int {
    if c.colspan.None? || c.colspan.value == 0 then 1 else c.colspan.value
  }

  function Digit(d: int): char
    requires 0 <= d <= 9
  {
    '0' + d as char
  }

  /** `HH:MM`, when both numbers have at most two digits; anything else the slot's schema refuses. */
  function ClockText(c: Clock): Option<string> {
    if 0 <= c.h < 100 && 0 <= c.m < 100
    then Some([Digit(c.h / 10), Digit(c.h % 10), ':', Digit(c.m / 10), Digit(c.m % 10)])
    else None
  }

  /** Minutes as hours and minutes, rounding towards zero as the source's operators do. */
  function ClockOf(minutes: int): Clock {
    if minutes >= 0 then Clock(minutes / 60, minutes % 60) else Clock(-(-minutes / 60), -(-minutes % 60))
  }

  function TextOrNone(s: string): Option<string> {
    if s == "" then None else Some(s)
  }

  /** The slot of a cell that starts at `start`: the cell's own times, or the grid's; none for a free cell or bad times. */
  function SlotOf(day: int, c: Cell, start: int): Option<Slot> {
    var (from, to) := if c.times.Some? then c.times.value else (ClockOf(start), ClockOf(start + SLOT_MINUTES * Width(c)));
    var (startsAt, endsAt) := (ClockText(from), ClockText(to));
    if c.subject == "" || startsAt.None? || endsAt.None? then None
    else Some(Slot(day, startsAt.value, endsAt.value, c.subject, TextOrNone(c.room), TextOrNone(c.teacher)))
  }

  /** Where a row's cells start: 08:00, and each cell its colspan's half hours later than the one before. */
  function StartOf(cells: seq<Cell>, k: nat): int
    requires k <= |cells|
  {
    if k == 0 then DAY_START else StartOf(cells, k - 1) + SLOT_MINUTES * Width(cells[k - 1])
  }

  function SlotsUpTo(day: int, cells: seq<Cell>, k: nat): seq<Slot>
    requires k <= |cells|
  {
    if k == 0 then []
    else
      var slot := SlotOf(day, cells[k - 1], StartOf(cells, k - 1));
      SlotsUpTo(day, cells, k - 1) + (if slot.Some? then [slot.value] else [])
  }

  function SlotsOf(rows: seq<Row>): seq<Slot> {
    if rows == [] then []
    else
      var row := rows[|rows| - 1];
      SlotsOf(rows[..|rows| - 1]) +
      (match DayOf(row.header) case Some(day) => SlotsUpTo(day, row.cells, |row.cells|) case None => [])
  }

  method ParseTimetable(rows: seq<Row>) returns (slots: seq<Slot>)
    ensures slots == SlotsOf(rows)
  {
    hide DayOf, SlotOf;
    slots := [];
    for i := 0 to |rows|
      invariant slots == SlotsOf(rows[..i])
    {
      var row := rows[i];
      assert rows[..i + 1][..i] == rows[..i];
      var day := DayOf(row.header);
      if day.Some? {
        ghost var before := slots;
        var cursor := DAY_START;
        for k := 0 to |row.cells|
          invariant cursor == StartOf(row.cells, k)
          invariant slots == before + SlotsUpTo(day.value, row.cells, k)
        {
          var slot := SlotOf(day.value, row.cells[k], cursor);
          cursor := cursor + SLOT_MINUTES * Width(row.cells[k]);
          if slot.Some? {
            slots := slots + [slot.value];
          }
        }
      }
    }
    assert rows[..|rows|] == rows;
  }

  /** Reading a clock text back. */
  function MinutesOf(text: string): int {
    if |text| == 5 then
      ((text[0] as int - '0' as int) * 10 + (text[1] as int - '0' as int)) * 60
      + (text[3] as int - '0' as int) * 10 + (text[4] as int - '0' as int)
    else 0
  }

  lemma ClockReadsBack(minutes: int)
    ensures ClockText(ClockOf(minutes)).Some? <==> 0 <= minutes < 6000
    ensures 0 <= minutes < 6000 ==> MinutesOf(ClockText(ClockOf(minutes)).value) == minutes
  {
    var c := ClockOf(minutes);
    if 0 <= minutes < 6000 {
      assert c.h == minutes / 60 && c.m == minutes % 60 && minutes == c.h * 60 + c.m;
      DigitReadsBack(c.h / 10);
      DigitReadsBack(c.h % 10);
      DigitReadsBack(c.m / 10);
      DigitReadsBack(c.m % 10);
    }
  }

  lemma DigitReadsBack(d: int)
    requires 0 <= d <= 9
    ensures Digit(d) as int - '0' as int == d
  {
  }

  /** A slot timed by the grid says exactly where its cell stands. */
  lemma GridSlotSaysWhere(day: int, c: Cell, start: int)
    requires c.times.None? && SlotOf(day, c, start).Some?
    ensures var slot := SlotOf(day, c, start).value;
      MinutesOf(slot.startsAt) == start && MinutesOf(slot.endsAt) == start + SLOT_MINUTES * Width(c)
  {
    ClockReadsBack(start);
    ClockReadsBack(start + SLOT_MINUTES * Width(c));
  }

  /** With positive colspans the cells of a row follow one another from 08:00: each ends before any later one starts. */
  lemma {:induction false} CellsInOrder(cells: seq<Cell>, j: nat, k: nat)
    requires j < k <= |cells| && forall i :: 0 <= i < |cells| ==> Width(cells[i]) >= 1
    ensures DAY_START <= StartOf(cells, j) < StartOf(cells, j + 1) <= StartOf(cells, k)
  {
    hide Width;
    if j > 0 { CellsInOrder(cells, j - 1, j); }
    if j + 1 < k { CellsInOrder(cells, j, k - 1); }
  }

  /** So grid-timed slots of a row are in order, apart, and none before 08:00. */
  lemma GridSlotsApart(day: int, cells: seq<Cell>, j: nat, k: nat)
    requires j < k < |cells| && forall i :: 0 <= i < |cells| ==> Width(cells[i]) >= 1
    requires cells[j].times.None? && SlotOf(day, cells[j], StartOf(cells, j)).Some?
    requires cells[k].times.None? && SlotOf(day, cells[k], StartOf(cells, k)).Some?
    ensures var a := SlotOf(day, cells[j], StartOf(cells, j)).value;
      var b := SlotOf(day, cells[k], StartOf(cells, k)).value;
      DAY_START <= MinutesOf(a.startsAt) < MinutesOf(a.endsAt) <= MinutesOf(b.startsAt) < MinutesOf(b.endsAt)
  {
    hide SlotOf, MinutesOf;
    GridSlotSaysWhere(day, cells[j], StartOf(cells, j));
    GridSlotSaysWhere(day, cells[k], StartOf(cells, k));
    CellsInOrder(cells, j, k);
  }

  /** A cell with times of its own says those, wherever the grid puts it. */
  lemma OwnTimesWin(day: int, c: Cell, start: int)
    requires c.times.Some? && SlotOf(day, c, start).Some?
    ensures var (from, to) := c.times.value;
      var slot := SlotOf(day, c, start).value;
      MinutesOf(slot.startsAt) == from.h * 60 + from.m && MinutesOf(slot.endsAt) == to.h * 60 + to.m
  {
    var (from, to) := c.times.value;
    TextReadsBack(from);
    TextReadsBack(to);
  }

  lemma TextReadsBack(c: Clock)
    requires ClockText(c).Some?
    ensures MinutesOf(ClockText(c).value) == c.h * 60 + c.m
  {
    DigitReadsBack(c.h / 10);
    DigitReadsBack(c.h % 10);
    DigitReadsBack(c.m / 10);
    DigitReadsBack(c.m % 10);
  }
}
