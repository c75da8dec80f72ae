/**
 * `construct_calendar_dictionary`: one pass over the scraped table rows that
 * opens a day whenever a one-cell weekday header appears and appends each
 * time-like three- or four-cell row to the day opened most recently.
 *
 * The Python dict built there is modelled by `Calendar`: its keys in insertion
 * order (`days`) and the map itself (`events`).  Assigning to a key that is
 * already present keeps its position, as in a Python dict.
 */
module Assembly {
  import opened Wrappers
  import opened PyText

  /** One scraped table row: its non-empty, stripped cell texts. */
  type Row = seq<string>

  const Weekdays: seq<string> := ["Monday", "Tuesday", "Wednesday", "Thursday", "Friday"]

  /**
   * `str(list(range(0, 10)))`.  The time test asks whether the first character
   * of a cell occurs in this text, so brackets, commas and spaces pass too.
   */
  const DigitListText: string := "[0, 1, 2, 3, 4, 5, 6, 7, 8, 9]"

  /** A one-cell row whose text before the first comma is a weekday name. */
  predicate IsDayHeader(row: Row)
  {
    |row| == 1 && Split(row[0], ',')[0] in Weekdays
  }

  predicate HasEventLength(row: Row)
  {
    |row| == 3 || |row| == 4
  }

  /** The test applied to the first cell of a three- or four-cell row. */
  predicate LooksLikeTime(cell: string)
  {
    |cell| > 0 && cell[0] in DigitListText && '\n' !in cell
  }

  /** A row that the pass attaches to the current day. */
  predicate IsEventRow(row: Row)
  {
    HasEventLength(row) && LooksLikeTime(row[0])
  }

  datatype Calendar = Calendar(days: seq<string>, events: map<string, seq<Row>>)
  {
    /** A dict: every key once, in `days`, and `days` holds exactly the keys. */
    ghost predicate Valid()
    {
      (forall i, j :: 0 <= i < j < |days| ==> days[i] != days[j]) &&
      (forall d :: d in events <==> d in days)
    }
  }

  /**
   * The two ways the pass raises: `row[0][0]` on an empty first cell
   * (IndexError), and an accepted event row before any day header, where
   * `curr_date_index` is still unbound (UnboundLocalError).  Each carries the
   * index of the offending row.
   */
  datatype AssemblyError = EmptyTimeCell(index: nat) | NoCurrentDay(index: nat)

  /** The loop's state: the dict so far and the label of the current day, if any. */
  datatype Progress = Progress(cal: Calendar, current: Option<string>)
  {
    ghost predicate Consistent()
    {
      cal.Valid() && (current.Some? ==> current.value in cal.events)
    }
  }

  /** The effect of one row, the `i`-th, on the state. */
  function Step(p: Progress, row: Row, i: nat): (r: Result<Progress, AssemblyError>)
    requires p.Consistent()
    ensures r.Ok? ==> r.value.Consistent()
  {
    if IsDayHeader(row) then
      var name := row[0];
      var days := if name in p.cal.events then p.cal.days else p.cal.days + [name];
      Ok(Progress(Calendar(days, p.cal.events[name := []]), Some(name)))
    else if HasEventLength(row) && |row[0]| == 0 then
      Err(EmptyTimeCell(i))
    else if IsEventRow(row) then
      match p.current
      case None => Err(NoCurrentDay(i))
      case Some(name) =>
        Ok(Progress(Calendar(p.cal.days, p.cal.events[name := p.cal.events[name] + [row]]), p.current))
    else
      Ok(p)
  }

  /** The state after the whole of `rows`, or the first error. */
  function Assemble(rows: seq<Row>): (r: Result<Progress, AssemblyError>)
    ensures r.Ok? ==> r.value.Consistent()
    decreases |rows|
  {
    if rows == [] then Ok(Progress(Calendar([], map[]), None))
    else
      match Assemble(rows[..|rows| - 1])
      case Err(e) => Err(e)
      case Ok(p) => Step(p, rows[|rows| - 1], |rows| - 1)
  }

  /** What `construct_calendar_dictionary(rows)` returns or raises. */
  function CalendarOf(rows: seq<Row>): (r: Result<Calendar, AssemblyError>)
    ensures r.Ok? ==> r.value.Valid()
  {
    match Assemble(rows)
    case Ok(p) => Ok(p.cal)
    case Err(e) => Err(e)
  }

  method ConstructCalendarDictionary(items: seq<Row>) returns (r: Result<Calendar, AssemblyError>)
    ensures r == CalendarOf(items)
    ensures r.Ok? ==> r.value.Valid()
  {
    var days: seq<string> := [];
    var events: map<string, seq<Row>> := map[];
    var current: Option<string> := None;
    for i := 0 to |items|
      invariant Assemble(items[..i]) == Ok(Progress(Calendar(days, events), current))
    {
      var row := items[i];
      assert items[..i + 1][..i] == items[..i];
      if |row| == 1 && Split(row[0], ',')[0] in Weekdays {
        if row[0] !in events {
          days := days + [row[0]];
        }
        events := events[row[0] := []];
        current := Some(row[0]);
      }
      if |row| == 3 || |row| == 4 {
        if |row[0]| == 0 {
          ErrorPersists(items, i + 1);
          return Err(EmptyTimeCell(i));
        }
        if row[0][0] in DigitListText && '\n' !in row[0] {
          if current.None? {
            ErrorPersists(items, i + 1);
            return Err(NoCurrentDay(i));
          }
          events := events[current.value := events[current.value] + [row]];
        }
      }
    }
    assert items[..|items|] == items;
    return Ok(Calendar(days, events));
  }

  /** Once a prefix raises, the whole input raises the same error. */
  lemma {:induction false} ErrorPersists(rows: seq<Row>, k: nat)
    requires k <= |rows| && Assemble(rows[..k]).Err?
    ensures Assemble(rows) == Assemble(rows[..k])
    decreases |rows| - k
  {
    if k < |rows| {
      assert rows[..k + 1][..k] == rows[..k];
      ErrorPersists(rows, k + 1);
    } else {
      assert rows[..k] == rows;
    }
  }

  // ---------------------------------------------------------------------------
  // An independent description of the result, in terms of positions in `rows`.

  /** The labels of the day-header rows, in document order. */
  function Labels(rows: seq<Row>): (labels: seq<string>)
    decreases |rows|
  {
    if rows == [] then []
    else
      var last := rows[|rows| - 1];
      Labels(rows[..|rows| - 1]) + (if IsDayHeader(last) then [last[0]] else [])
  }

  /** The first occurrence of every element, in order. */
  function FirstOccurrences(s: seq<string>): (r: seq<string>)
    ensures forall x :: x in r <==> x in s
    ensures forall i, j :: 0 <= i < j < |r| ==> r[i] != r[j]
    decreases |s|
  {
    if s == [] then []
    else
      var front := FirstOccurrences(s[..|s| - 1]);
      assert s == s[..|s| - 1] + [s[|s| - 1]];
      if s[|s| - 1] in front then front else front + [s[|s| - 1]]
  }

  predicate HasDayHeader(rows: seq<Row>)
  {
    exists k :: 0 <= k < |rows| && IsDayHeader(rows[k])
  }

  /** The index of the last header row labelled `d`, or -1 when there is none. */
  function LastHeaderAt(rows: seq<Row>, d: string): (j: int)
    ensures -1 <= j < |rows|
    ensures j >= 0 ==> IsDayHeader(rows[j]) && rows[j] == [d]
    ensures forall k :: j < k < |rows| ==> !(IsDayHeader(rows[k]) && rows[k][0] == d)
    decreases |rows|
  {
    if rows == [] then -1
    else
      var last := rows[|rows| - 1];
      if IsDayHeader(last) && last[0] == d then |rows| - 1
      else LastHeaderAt(rows[..|rows| - 1], d)
  }

  /** The index of the first header row at or after `from`, or `|rows|` when there is none. */
  function NextHeader(rows: seq<Row>, from: nat): (m: nat)
    requires from <= |rows|
    ensures from <= m <= |rows|
    ensures m < |rows| ==> IsDayHeader(rows[m])
    ensures forall k :: from <= k < m ==> !IsDayHeader(rows[k])
    decreases |rows| - from
  {
    if from == |rows| then from
    else if IsDayHeader(rows[from]) then from
    else NextHeader(rows, from + 1)
  }

  /** The rows of `rows` that pass the event test, in order. */
  function Accepted(rows: seq<Row>): (r: seq<Row>)
    decreases |rows|
  {
    if rows == [] then []
    else
      var last := rows[|rows| - 1];
      Accepted(rows[..|rows| - 1]) + (if IsEventRow(last) then [last] else [])
  }

  /** Row `row`, preceded by `before`, does not make the pass raise. */
  predicate RowAdmissible(before: seq<Row>, row: Row)
  {
    (HasEventLength(row) ==> |row[0]| > 0) &&
    (IsEventRow(row) ==> HasDayHeader(before))
  }

  /**
   * Day `d`'s list holds the accepted rows after the last header labelled `d`
   * up to the next header, and `d` is current exactly when no header follows.
   */
  ghost predicate DayDescribed(rows: seq<Row>, current: Option<string>, events: map<string, seq<Row>>, d: string)
    requires d in events
  {
    LastHeaderAt(rows, d) >= 0 &&
    (current == Some(d) <==> DayOpen(rows, d)) &&
    events[d] == DayList(rows, d)
  }

  /** The accepted rows after the last header labelled `d`, up to the next header. */
  ghost function DayList(rows: seq<Row>, d: string): (events: seq<Row>)
    requires LastHeaderAt(rows, d) >= 0
  {
    var j := LastHeaderAt(rows, d);
    Accepted(rows[j + 1..NextHeader(rows, j + 1)])
  }

  /** No header follows the last header labelled `d`. */
  ghost predicate DayOpen(rows: seq<Row>, d: string)
    requires LastHeaderAt(rows, d) >= 0
  {
    NextHeader(rows, LastHeaderAt(rows, d) + 1) == |rows|
  }

  /** The state `p` is what the pass holds after `rows`. */
  ghost predicate Describes(rows: seq<Row>, p: Progress)
  {
    p.Consistent() &&
    p.cal.days == FirstOccurrences(Labels(rows)) &&
    (p.current.None? <==> !HasDayHeader(rows)) &&
    forall d :: d in p.cal.events ==> DayDescribed(rows, p.current, p.cal.events, d)
  }

  lemma NextHeaderIs(rows: seq<Row>, from: nat, m: nat)
    requires from <= m <= |rows|
    requires m < |rows| ==> IsDayHeader(rows[m])
    requires forall k :: from <= k < m ==> !IsDayHeader(rows[k])
    ensures NextHeader(rows, from) == m
  {
  }

  /** `NextHeader` after one more row: unchanged if a header was already found. */
  lemma NextHeaderSnoc(rows: seq<Row>, row: Row, from: nat)
    requires from <= |rows|
    ensures var m := NextHeader(rows, from);
      NextHeader(rows + [row], from) ==
        if m < |rows| then m else if IsDayHeader(row) then |rows| else |rows| + 1
  {
    var rows' := rows + [row];
    var m := NextHeader(rows, from);
    assert forall k :: 0 <= k < |rows| ==> rows'[k] == rows[k];
    if m < |rows| {
      NextHeaderIs(rows', from, m);
    } else if IsDayHeader(row) {
      NextHeaderIs(rows', from, |rows|);
    } else {
      NextHeaderIs(rows', from, |rows| + 1);
    }
  }

  lemma LastHeaderSnoc(rows: seq<Row>, row: Row, d: string)
    ensures LastHeaderAt(rows + [row], d) ==
      if IsDayHeader(row) && row[0] == d then |rows| else LastHeaderAt(rows, d)
  {
    assert (rows + [row])[..|rows|] == rows;
  }

  lemma AcceptedSnoc(rows: seq<Row>, row: Row)
    ensures Accepted(rows + [row]) == Accepted(rows) + if IsEventRow(row) then [row] else []
  {
    assert (rows + [row])[..|rows|] == rows;
  }

  lemma HasDayHeaderSnoc(rows: seq<Row>, row: Row)
    ensures HasDayHeader(rows + [row]) <==> HasDayHeader(rows) || IsDayHeader(row)
  {
    var rows' := rows + [row];
    if HasDayHeader(rows) {
      var k :| 0 <= k < |rows| && IsDayHeader(rows[k]);
      assert IsDayHeader(rows'[k]);
    }
    if IsDayHeader(row) {
      assert IsDayHeader(rows'[|rows|]);
    }
    if HasDayHeader(rows') {
      var k :| 0 <= k < |rows'| && IsDayHeader(rows'[k]);
      if k < |rows| {
        assert IsDayHeader(rows[k]);
      }
    }
  }

  /** A header row makes its own day current with an empty list. */
  lemma HeaderOwnDay(rows: seq<Row>, row: Row, events: map<string, seq<Row>>)
    requires IsDayHeader(row)
    ensures DayDescribed(rows + [row], Some(row[0]), events[row[0] := []], row[0])
  {
    var rows' := rows + [row];
    var n := |rows|;
    assert row == [row[0]];
    assert LastHeaderAt(rows', row[0]) == n;
    assert rows'[n + 1..n + 1] == [];
  }

  /** A further row that is not a header: an open day takes it if it is an event. */
  lemma DayOpenSnoc(rows: seq<Row>, row: Row, d: string)
    requires LastHeaderAt(rows, d) >= 0 && DayOpen(rows, d) && !IsDayHeader(row)
    ensures LastHeaderAt(rows + [row], d) == LastHeaderAt(rows, d) && DayOpen(rows + [row], d)
    ensures DayList(rows + [row], d) == DayList(rows, d) + if IsEventRow(row) then [row] else []
  {
    var rows' := rows + [row];
    var n := |rows|;
    var j := LastHeaderAt(rows, d);
    LastHeaderSnoc(rows, row, d);
    NextHeaderSnoc(rows, row, j + 1);
    assert LastHeaderAt(rows', d) == j && NextHeader(rows', j + 1) == n + 1;
    assert rows'[j + 1..n + 1] == rows[j + 1..n] + [row];
    AcceptedSnoc(rows[j + 1..n], row);
  }

  /** A header with another label closes an open day and leaves its list. */
  lemma DayClosesSnoc(rows: seq<Row>, row: Row, d: string)
    requires LastHeaderAt(rows, d) >= 0 && DayOpen(rows, d) && IsDayHeader(row) && row[0] != d
    ensures LastHeaderAt(rows + [row], d) == LastHeaderAt(rows, d) && !DayOpen(rows + [row], d)
    ensures DayList(rows + [row], d) == DayList(rows, d)
  {
    var rows' := rows + [row];
    var n := |rows|;
    var j := LastHeaderAt(rows, d);
    LastHeaderSnoc(rows, row, d);
    NextHeaderSnoc(rows, row, j + 1);
    assert rows'[j + 1..n] == rows[j + 1..n];
  }

  /** A day already closed stays closed with its list, unless its own header comes again. */
  lemma DayClosedSnoc(rows: seq<Row>, row: Row, d: string)
    requires LastHeaderAt(rows, d) >= 0 && !DayOpen(rows, d)
    requires !(IsDayHeader(row) && row[0] == d)
    ensures LastHeaderAt(rows + [row], d) == LastHeaderAt(rows, d) && !DayOpen(rows + [row], d)
    ensures DayList(rows + [row], d) == DayList(rows, d)
  {
    var rows' := rows + [row];
    var j := LastHeaderAt(rows, d);
    LastHeaderSnoc(rows, row, d);
    NextHeaderSnoc(rows, row, j + 1);
    var m := NextHeader(rows, j + 1);
    assert rows'[j + 1..m] == rows[j + 1..m];
  }

  /** A header row leaves every other day's list as it was. */
  lemma HeaderOtherDay(rows: seq<Row>, row: Row, current: Option<string>, events: map<string, seq<Row>>, d: string)
    requires IsDayHeader(row) && d != row[0] && d in events
    requires DayDescribed(rows, current, events, d)
    ensures DayDescribed(rows + [row], Some(row[0]), events[row[0] := []], d)
  {
    if DayOpen(rows, d) {
      DayClosesSnoc(rows, row, d);
    } else {
      DayClosedSnoc(rows, row, d);
    }
  }

  /** An accepted event row extends the current day's list and no other. */
  lemma EventDay(rows: seq<Row>, row: Row, c: string, events: map<string, seq<Row>>, d: string)
    requires IsEventRow(row) && c in events && d in events
    requires DayDescribed(rows, Some(c), events, d)
    ensures DayDescribed(rows + [row], Some(c), events[c := events[c] + [row]], d)
  {
    if d == c {
      DayOpenSnoc(rows, row, d);
    } else {
      DayClosedSnoc(rows, row, d);
    }
  }

  /** Any other row leaves every day's list as it was. */
  lemma OtherDay(rows: seq<Row>, row: Row, current: Option<string>, events: map<string, seq<Row>>, d: string)
    requires !IsDayHeader(row) && !IsEventRow(row) && d in events
    requires DayDescribed(rows, current, events, d)
    ensures DayDescribed(rows + [row], current, events, d)
  {
    if DayOpen(rows, d) {
      DayOpenSnoc(rows, row, d);
    } else {
      DayClosedSnoc(rows, row, d);
    }
  }

  lemma DescribesHeaderStep(rows: seq<Row>, p: Progress, row: Row)
    requires Describes(rows, p) && IsDayHeader(row)
    ensures Step(p, row, |rows|).Ok? && Describes(rows + [row], Step(p, row, |rows|).value)
  {
    var rows' := rows + [row];
    var h := row[0];
    var days := if h in p.cal.events then p.cal.days else p.cal.days + [h];
    var q := Progress(Calendar(days, p.cal.events[h := []]), Some(h));
    assert Step(p, row, |rows|) == Ok(q);
    assert rows'[..|rows|] == rows;
    HasDayHeaderSnoc(rows, row);
    var labels := Labels(rows);
    assert Labels(rows') == labels + [h];
    assert (labels + [h])[..|labels|] == labels;
    assert q.cal.days == FirstOccurrences(Labels(rows'));
    assert q.Consistent();
    forall d | d in q.cal.events
      ensures DayDescribed(rows', q.current, q.cal.events, d)
    {
      if d == row[0] {
        HeaderOwnDay(rows, row, p.cal.events);
      } else {
        HeaderOtherDay(rows, row, p.current, p.cal.events, d);
      }
    }
  }

  lemma DescribesEventStep(rows: seq<Row>, p: Progress, row: Row)
    requires Describes(rows, p) && IsEventRow(row) && p.current.Some?
    ensures Step(p, row, |rows|).Ok? && Describes(rows + [row], Step(p, row, |rows|).value)
  {
    var rows' := rows + [row];
    var q := Step(p, row, |rows|).value;
    assert rows'[..|rows|] == rows;
    HasDayHeaderSnoc(rows, row);
    assert Labels(rows') == Labels(rows);
    forall d | d in q.cal.events
      ensures DayDescribed(rows', q.current, q.cal.events, d)
    {
      EventDay(rows, row, p.current.value, p.cal.events, d);
    }
  }

  lemma DescribesOtherStep(rows: seq<Row>, p: Progress, row: Row)
    requires Describes(rows, p) && !IsDayHeader(row) && !IsEventRow(row)
    ensures Describes(rows + [row], p)
  {
    var rows' := rows + [row];
    assert rows'[..|rows|] == rows;
    HasDayHeaderSnoc(rows, row);
    assert Labels(rows') == Labels(rows);
    forall d | d in p.cal.events
      ensures DayDescribed(rows', p.current, p.cal.events, d)
    {
      OtherDay(rows, row, p.current, p.cal.events, d);
    }
  }

  /** Given the state after `rows`, the next row fails exactly when it is not admissible. */
  lemma StepSucceedsIff(rows: seq<Row>, p: Progress, row: Row)
    requires p.Consistent() && (p.current.None? <==> !HasDayHeader(rows))
    ensures Step(p, row, |rows|).Ok? <==> RowAdmissible(rows, row)
  {
  }

  /** Every state the pass reaches is the one `Describes` characterises. */
  lemma {:induction false} AssembleDescribes(rows: seq<Row>)
    requires Assemble(rows).Ok?
    ensures Describes(rows, Assemble(rows).value)
    decreases |rows|
  {
    if rows != [] {
      var front := rows[..|rows| - 1];
      assert rows == front + [rows[|rows| - 1]];
      AssembleDescribes(front);
      var p := Assemble(front).value;
      var row := rows[|rows| - 1];
      if IsDayHeader(row) {
        DescribesHeaderStep(front, p, row);
      } else if IsEventRow(row) {
        DescribesEventStep(front, p, row);
      } else {
        assert Step(p, row, |front|) == Ok(p);
        DescribesOtherStep(front, p, row);
      }
    }
  }

  // ---------------------------------------------------------------------------
  // What the pass promises.

  /**
   * The pass raises exactly when some three- or four-cell row has an empty
   * first cell, or some accepted event row has no day header before it.
   */
  lemma {:induction false} AssembleSucceedsIff(rows: seq<Row>)
    ensures CalendarOf(rows).Ok? <==> AllAdmissible(rows)
    decreases |rows|
  {
    if rows != [] {
      var n := |rows| - 1;
      var front := rows[..n];
      AssembleSucceedsIff(front);
      AllAdmissibleSnoc(rows);
      assert rows == front + [rows[n]];
      if Assemble(front).Ok? {
        AssembledCurrent(front);
        StepSucceedsIff(front, Assemble(front).value, rows[n]);
      }
    }
  }

  /** No row of `rows` makes the pass raise, given the rows before it. */
  predicate AllAdmissible(rows: seq<Row>)
  {
    forall k :: 0 <= k < |rows| ==> RowAdmissible(rows[..k], rows[k])
  }

  lemma AllAdmissibleSnoc(rows: seq<Row>)
    requires rows != []
    ensures AllAdmissible(rows) <==>
      AllAdmissible(rows[..|rows| - 1]) && RowAdmissible(rows[..|rows| - 1], rows[|rows| - 1])
  {
    var n := |rows| - 1;
    var front := rows[..n];
    assert forall k :: 0 <= k < n ==> rows[..k] == front[..k] && rows[k] == front[k];
  }

  /** After the rows, a day is current exactly when some day header has been seen. */
  lemma AssembledCurrent(rows: seq<Row>)
    requires Assemble(rows).Ok?
    ensures Assemble(rows).value.Consistent()
    ensures Assemble(rows).value.current.None? <==> !HasDayHeader(rows)
  {
    AssembleDescribes(rows);
  }

  /** After the rows, a key's list is the one `DayDescribed` gives. */
  lemma AssembledDay(rows: seq<Row>, d: string)
    requires Assemble(rows).Ok? && d in Assemble(rows).value.cal.events
    ensures DayDescribed(rows, Assemble(rows).value.current, Assemble(rows).value.cal.events, d)
  {
    AssembleDescribes(rows);
  }

  /** An accepted event row before every day header makes the pass raise. */
  lemma EventBeforeHeaderRaises(rows: seq<Row>, k: nat)
    requires k < |rows| && IsEventRow(rows[k]) && !HasDayHeader(rows[..k])
    ensures CalendarOf(rows).Err?
  {
    AssembleSucceedsIff(rows);
    assert !RowAdmissible(rows[..k], rows[k]);
  }

  /** The keys are the header labels, once each, in the order they first appear. */
  lemma AssembledDays(rows: seq<Row>)
    requires CalendarOf(rows).Ok?
    ensures CalendarOf(rows).value.days == FirstOccurrences(Labels(rows))
    ensures forall d :: d in CalendarOf(rows).value.events <==> d in Labels(rows)
  {
    AssembleDescribes(rows);
  }

  /**
   * A day's list holds the accepted rows strictly after the last header row
   * with that label and before the next header row of any label, in order.
   */
  lemma AssembledDayEvents(rows: seq<Row>, d: string)
    requires CalendarOf(rows).Ok? && d in CalendarOf(rows).value.events
    ensures var j := LastHeaderAt(rows, d);
      0 <= j && rows[j] == [d] && IsDayHeader(rows[j]) &&
      CalendarOf(rows).value.events[d] == Accepted(rows[j + 1..NextHeader(rows, j + 1)])
  {
    var p := Assemble(rows).value;
    assert CalendarOf(rows).value == p.cal;
    AssembledDay(rows, d);
  }

  /** Every row in the calendar passed the event test. */
  lemma {:induction false} AcceptedAreEvents(rows: seq<Row>)
    ensures forall e :: e in Accepted(rows) ==> IsEventRow(e) && e in rows
    decreases |rows|
  {
    if rows != [] {
      AcceptedAreEvents(rows[..|rows| - 1]);
    }
  }

  lemma AssembledEventsAreEventRows(rows: seq<Row>)
    requires CalendarOf(rows).Ok?
    ensures forall d, e :: d in CalendarOf(rows).value.events && e in CalendarOf(rows).value.events[d] ==>
      IsEventRow(e) && e in rows
  {
    var cal := CalendarOf(rows).value;
    forall d, e | d in cal.events && e in cal.events[d]
      ensures IsEventRow(e) && e in rows
    {
      AssembledDayEvents(rows, d);
      var j := LastHeaderAt(rows, d);
      var seg := rows[j + 1..NextHeader(rows, j + 1)];
      AcceptedAreEvents(seg);
      assert e in seg;
    }
  }

  // ---------------------------------------------------------------------------
  // One row at a time.

  /**
   * A weekday header maps its whole text to an empty list, discarding events
   * stored under the same label but keeping the key's place, and becomes the
   * current day.
   */
  lemma HeaderResetsDay(rows: seq<Row>, name: string)
    requires IsDayHeader([name]) && CalendarOf(rows).Ok?
    ensures var cal := CalendarOf(rows).value;
      var days := if name in cal.events then cal.days else cal.days + [name];
      Assemble(rows + [[name]]) == Ok(Progress(Calendar(days, cal.events[name := []]), Some(name)))
  {
    assert (rows + [[name]])[..|rows|] == rows;
  }

  /** An accepted event row is appended, unchanged, to the current day's list. */
  lemma EventAppendsToCurrentDay(rows: seq<Row>, row: Row)
    requires IsEventRow(row) && Assemble(rows).Ok? && Assemble(rows).value.current.Some?
    ensures var p := Assemble(rows).value;
      var c := p.current.value;
      Assemble(rows + [row]) == Ok(Progress(Calendar(p.cal.days, p.cal.events[c := p.cal.events[c] + [row]]), p.current))
  {
    assert (rows + [row])[..|rows|] == rows;
  }

  /**
   * A row that is neither a weekday header nor a three- or four-cell row with
   * an empty first cell nor an accepted event leaves everything as it was.
   */
  lemma OtherRowsIgnored(rows: seq<Row>, row: Row)
    requires !IsDayHeader(row) && !IsEventRow(row) && (HasEventLength(row) ==> |row[0]| > 0)
    ensures Assemble(rows + [row]) == Assemble(rows)
  {
    assert (rows + [row])[..|rows|] == rows;
  }

  /** The time test accepts exactly the digits, brackets, commas and spaces. */
  lemma DigitListTextChars(ch: char)
    ensures ch in DigitListText <==> IsDigit(ch) || ch == '[' || ch == ']' || ch == ',' || ch == ' '
  {
    if IsDigit(ch) {
      assert ch == DigitListText[1 + 3 * ((ch as int) - '0' as int)];
    }
  }
}
