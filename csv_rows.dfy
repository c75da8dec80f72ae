/**
 * The loop of `construct_and_write_calendar_files`: for each day of the dict,
 * in insertion order, the date is made from the day label, then one CSV row
 * is written per event of that day, in list order.  An exception stops the
 * loop; the rows written before it stay in the file.
 */
module CsvRows {
  import opened Wrappers
  import opened Assembly
  import opened Records

  /** The rows handed to `cal_writer.writerow`, and the exception that ended the loop, if any. */
  datatype Written = Written(rows: seq<CsvRecord>, failure: Option<RecordError>)

  /** One event together with the label of the day it is listed under. */
  datatype Entry = Entry(day: string, event: Row)

  /** Every day of `days` is a key of the calendar. */
  predicate Listed(cal: Calendar, days: seq<string>)
  {
    forall k :: 0 <= k < |days| ==> days[k] in cal.events
  }

  /** Every start time of a day's events reaches `int(hour)` only with decimal text. */
  predicate HoursParseIn(events: seq<Row>)
  {
    forall k :: 0 <= k < |events| ==> EventHourParses(events[k])
  }

  /** The same for every day of the calendar. */
  predicate HoursParse(cal: Calendar)
  {
    forall d :: d in cal.events ==> HoursParseIn(cal.events[d])
  }

  /** What the loop body computes for each event of a day: its row, or the exception. */
  function Outcomes(date: string, events: seq<Row>): (os: seq<Result<CsvRecord, RecordError>>)
    requires HoursParseIn(events)
    ensures |os| == |events|
  {
    seq(|events|, k requires 0 <= k < |events| => EventRecord(date, events[k]))
  }

  /** Writing the outcomes in order: each row is written, and the first exception stops the loop. */
  function WriteOutcomes(os: seq<Result<CsvRecord, RecordError>>): (out: Written)
    decreases |os|
  {
    if os == [] then Written([], None)
    else
      var before := WriteOutcomes(os[..|os| - 1]);
      if before.failure.Some? then before
      else
        match os[|os| - 1]
        case Ok(rec) => Written(before.rows + [rec], None)
        case Err(e) => Written(before.rows, Some(e))
  }

  /** The rows written for one day's events, in order, until the first failing event. */
  function WriteEvents(date: string, events: seq<Row>): (out: Written)
    requires HoursParseIn(events)
  {
    WriteOutcomes(Outcomes(date, events))
  }

  /** What one pass of the outer loop writes for `day`: nothing when its label raises. */
  function DaySection(cal: Calendar, day: string): (out: Written)
    requires day in cal.events && HoursParse(cal)
  {
    match DateOf(day)
    case Err(e) => Written([], Some(e))
    case Ok(date) => WriteEvents(date, cal.events[day])
  }

  /** The rows written for the days `days`, in order, until the first exception. */
  function WriteDays(cal: Calendar, days: seq<string>): (out: Written)
    requires Listed(cal, days)
    requires HoursParse(cal)
    decreases |days|
  {
    if days == [] then Written([], None)
    else
      var before := WriteDays(cal, days[..|days| - 1]);
      if before.failure.Some? then before
      else
        var section := DaySection(cal, days[|days| - 1]);
        Written(before.rows + section.rows, section.failure)
  }

  /** All events of the days `days`, day by day, each day's in list order. */
  function Entries(cal: Calendar, days: seq<string>): (es: seq<Entry>)
    requires Listed(cal, days)
    ensures forall k :: 0 <= k < |es| ==> es[k].day in cal.events && es[k].event in cal.events[es[k].day]
    decreases |days|
  {
    if days == [] then []
    else
      var day := days[|days| - 1];
      var events := cal.events[day];
      Entries(cal, days[..|days| - 1]) + seq(|events|, k requires 0 <= k < |events| => Entry(day, events[k]))
  }

  /**
   * The loop itself.  `bold` only chooses the file name, which is not modelled:
   * the rows written are the same for both values.
   */
  method ConstructAndWriteCalendarFiles(cal: Calendar, bold: bool)
    returns (rows: seq<CsvRecord>, failure: Option<RecordError>)
    requires cal.Valid() && HoursParse(cal)
    ensures Written(rows, failure) == WriteDays(cal, cal.days)
  {
    rows := [];
    failure := None;
    ValidListed(cal);
    for i := 0 to |cal.days|
      invariant WriteDays(cal, cal.days[..i]) == Written(rows, None)
    {
      var day := cal.days[i];
      DayStep(cal, i, rows);
      var date := DateOf(day);
      var dayRows: seq<CsvRecord> := [];
      var dayFailure: Option<RecordError>;
      if date.Err? {
        dayFailure := Some(date.error);
      } else {
        dayRows, dayFailure := WriteDayEvents(date.value, cal.events[day]);
      }
      assert Written(dayRows, dayFailure) == DaySection(cal, day);
      rows := rows + dayRows;
      if dayFailure.Some? {
        failure := dayFailure;
        DaysFailurePersists(cal, cal.days, i + 1);
        return;
      }
    }
    assert cal.days[..|cal.days|] == cal.days;
  }

  /** The inner loop: one row per event of the day, until an event raises. */
  method WriteDayEvents(date: string, events: seq<Row>)
    returns (dayRows: seq<CsvRecord>, failure: Option<RecordError>)
    requires HoursParseIn(events)
    ensures Written(dayRows, failure) == WriteEvents(date, events)
  {
    dayRows := [];
    failure := None;
    assert events[..0] == [];
    for j := 0 to |events|
      invariant WriteEvents(date, events[..j]) == Written(dayRows, None)
    {
      EventStep(date, events, j, dayRows);
      var rec := EventRecord(date, events[j]);
      if rec.Err? {
        failure := Some(rec.error);
        EventsFailurePersists(date, events, j + 1);
        return;
      }
      dayRows := dayRows + [rec.value];
    }
    assert events[..|events|] == events;
  }

  /** How writing one more day extends the rows of the days before it. */
  lemma DayStep(cal: Calendar, i: nat, rows: seq<CsvRecord>)
    requires Listed(cal, cal.days) && HoursParse(cal) && i < |cal.days|
    requires WriteDays(cal, cal.days[..i]) == Written(rows, None)
    ensures cal.days[i] in cal.events
    ensures WriteDays(cal, cal.days[..i + 1]) ==
      Written(rows + DaySection(cal, cal.days[i]).rows, DaySection(cal, cal.days[i]).failure)
  {
    var prefix := cal.days[..i + 1];
    assert prefix[..i] == cal.days[..i];
    assert prefix[i] == cal.days[i];
  }

  /** The keys in insertion order are keys. */
  lemma ValidListed(cal: Calendar)
    requires cal.Valid()
    ensures Listed(cal, cal.days)
  {
    assert forall k :: 0 <= k < |cal.days| ==> cal.days[k] in cal.days;
  }

  /** How writing one more event extends the rows of the events before it. */
  lemma EventStep(date: string, events: seq<Row>, j: nat, rows: seq<CsvRecord>)
    requires j < |events| && HoursParseIn(events)
    requires WriteEvents(date, events[..j]) == Written(rows, None)
    ensures EventHourParses(events[j])
    ensures WriteEvents(date, events[..j + 1]) ==
      match EventRecord(date, events[j])
      case Ok(rec) => Written(rows + [rec], None)
      case Err(e) => Written(rows, Some(e))
  {
    var os := Outcomes(date, events[..j + 1]);
    assert os[..j] == Outcomes(date, events[..j]);
  }

  /** Once an event has failed, the later events of the day write nothing. */
  lemma EventsFailurePersists(date: string, events: seq<Row>, n: nat)
    requires n <= |events| && HoursParseIn(events)
    requires WriteEvents(date, events[..n]).failure.Some?
    ensures WriteEvents(date, events) == WriteEvents(date, events[..n])
  {
    assert Outcomes(date, events)[..n] == Outcomes(date, events[..n]);
    OutcomesFailurePersists(Outcomes(date, events), n);
  }

  lemma {:induction false} OutcomesFailurePersists(os: seq<Result<CsvRecord, RecordError>>, n: nat)
    requires n <= |os| && WriteOutcomes(os[..n]).failure.Some?
    ensures WriteOutcomes(os) == WriteOutcomes(os[..n])
    decreases |os| - n
  {
    if n == |os| {
      assert os[..n] == os;
    } else {
      assert os[..n + 1][..n] == os[..n];
      OutcomesFailurePersists(os, n + 1);
    }
  }

  /** Once a day has failed, the later days write nothing. */
  lemma {:induction false} DaysFailurePersists(cal: Calendar, days: seq<string>, n: nat)
    requires n <= |days| && Listed(cal, days) && HoursParse(cal)
    requires WriteDays(cal, days[..n]).failure.Some?
    ensures WriteDays(cal, days) == WriteDays(cal, days[..n])
    decreases |days| - n
  {
    if n == |days| {
      assert days[..n] == days;
    } else {
      assert days[..n + 1][..n] == days[..n];
      DaysFailurePersists(cal, days, n + 1);
    }
  }

  /**
   * The rows written are the first outcomes' records, in order; they stop
   * exactly at the first exception, and all are written when there is none.
   */
  lemma {:induction false} WriteOutcomesRows(os: seq<Result<CsvRecord, RecordError>>)
    ensures var out := WriteOutcomes(os);
      |out.rows| <= |os| &&
      (forall k :: 0 <= k < |out.rows| ==> os[k] == Ok(out.rows[k])) &&
      (out.failure.None? ==> |out.rows| == |os|) &&
      (out.failure.Some? ==> |out.rows| < |os| && os[|out.rows|] == Err(out.failure.value))
    decreases |os|
  {
    if os != [] {
      var front := os[..|os| - 1];
      WriteOutcomesRows(front);
      assert forall k :: 0 <= k < |front| ==> os[k] == front[k];
    }
  }

  /**
   * The rows written for a day are the records of its first events, in order;
   * they stop exactly at the first event whose record raises, and all events
   * are written when none does.
   */
  lemma WriteEventsRows(date: string, events: seq<Row>)
    requires HoursParseIn(events)
    ensures var out := WriteEvents(date, events);
      |out.rows| <= |events| &&
      (forall k :: 0 <= k < |out.rows| ==> EventRecord(date, events[k]) == Ok(out.rows[k])) &&
      (out.failure.None? ==> |out.rows| == |events|) &&
      (out.failure.Some? ==> |out.rows| < |events| && EventRecord(date, events[|out.rows|]) == Err(out.failure.value))
  {
    WriteOutcomesRows(Outcomes(date, events));
  }

  /** No exception is raised for a day exactly when every one of its events has a record. */
  lemma WriteEventsSucceedsIff(date: string, events: seq<Row>)
    requires HoursParseIn(events)
    ensures WriteEvents(date, events).failure.None? <==>
      forall k :: 0 <= k < |events| ==> EventRecord(date, events[k]).Ok?
  {
    var os := Outcomes(date, events);
    WriteOutcomesRows(os);
    var out := WriteOutcomes(os);
    if out.failure.Some? {
      var k := |out.rows|;
      assert os[k] == EventRecord(date, events[k]);
    } else {
      forall k | 0 <= k < |events|
        ensures EventRecord(date, events[k]).Ok?
      {
        assert os[k] == EventRecord(date, events[k]);
      }
    }
  }

  /**
   * The rows written for the days are the records of the calendar's first
   * entries, day by day and in list order, each dated by its own day's label;
   * when no exception is raised every entry has its row.
   */
  lemma {:induction false} WriteDaysRows(cal: Calendar, days: seq<string>)
    requires Listed(cal, days) && HoursParse(cal)
    ensures var out := WriteDays(cal, days);
      var es := Entries(cal, days);
      |out.rows| <= |es| &&
      (forall k :: 0 <= k < |out.rows| ==>
        DateOf(es[k].day).Ok? && EventRecord(DateOf(es[k].day).value, es[k].event) == Ok(out.rows[k])) &&
      (out.failure.None? ==> |out.rows| == |es|)
    decreases |days|
  {
    if days != [] {
      var front := days[..|days| - 1];
      var day := days[|days| - 1];
      WriteDaysRows(cal, front);
      var before := WriteDays(cal, front);
      var esFront := Entries(cal, front);
      var events := cal.events[day];
      var es := Entries(cal, days);
      assert es == esFront + seq(|events|, k requires 0 <= k < |events| => Entry(day, events[k]));
      assert forall k :: 0 <= k < |esFront| ==> es[k] == esFront[k];
      if before.failure.Some? {
        assert WriteDays(cal, days) == before;
      } else if DateOf(day).Err? {
        assert WriteDays(cal, days).rows == before.rows;
      } else {
        var date := DateOf(day).value;
        assert HoursParseIn(events);
        WriteEventsRows(date, events);
        var out := WriteDays(cal, days);
        var dayOut := WriteEvents(date, events);
        assert out.rows == before.rows + dayOut.rows;
        forall k | 0 <= k < |out.rows|
          ensures DateOf(es[k].day).Ok? && EventRecord(DateOf(es[k].day).value, es[k].event) == Ok(out.rows[k])
        {
          if k >= |before.rows| {
            assert es[k] == Entry(day, events[k - |before.rows|]);
          }
        }
      }
    }
  }

  /**
   * The loop finishes without an exception exactly when every day label gives
   * a date and every event of every day gives a record.
   */
  lemma {:induction false} WriteDaysSucceedsIff(cal: Calendar, days: seq<string>)
    requires Listed(cal, days) && HoursParse(cal)
    ensures WriteDays(cal, days).failure.None? <==> AllDaysSucceed(cal, days)
    decreases |days|
  {
    if days != [] {
      var front := days[..|days| - 1];
      var day := days[|days| - 1];
      WriteDaysSucceedsIff(cal, front);
      if DateOf(day).Ok? {
        assert HoursParseIn(cal.events[day]);
        WriteEventsSucceedsIff(DateOf(day).value, cal.events[day]);
      }
      assert WriteDays(cal, days).failure.None? <==>
        WriteDays(cal, front).failure.None? && DaySucceeds(cal, day);
      AllDaysSucceedSnoc(cal, days);
    }
  }

  predicate AllDaysSucceed(cal: Calendar, days: seq<string>)
    requires Listed(cal, days) && HoursParse(cal)
  {
    forall k :: 0 <= k < |days| ==> DaySucceeds(cal, days[k])
  }

  lemma AllDaysSucceedSnoc(cal: Calendar, days: seq<string>)
    requires Listed(cal, days) && HoursParse(cal) && days != []
    ensures Listed(cal, days[..|days| - 1])
    ensures AllDaysSucceed(cal, days) <==>
      AllDaysSucceed(cal, days[..|days| - 1]) && DaySucceeds(cal, days[|days| - 1])
  {
    var front := days[..|days| - 1];
    assert forall k :: 0 <= k < |front| ==> front[k] == days[k];
  }

  /** The day label gives a date and every event of the day gives a record. */
  predicate DaySucceeds(cal: Calendar, day: string)
    requires day in cal.events && HoursParse(cal)
  {
    DateOf(day).Ok? &&
    forall k :: 0 <= k < |cal.events[day]| ==>
      EventRecord(DateOf(day).value, cal.events[day][k]).Ok?
  }

  /** Every event of the calendar has a row, so the number of rows is the number of events. */
  lemma WrittenCount(cal: Calendar)
    requires cal.Valid() && HoursParse(cal)
    requires WriteDays(cal, cal.days).failure.None?
    ensures |WriteDays(cal, cal.days).rows| == |Entries(cal, cal.days)| == EventCount(cal, cal.days)
  {
    WriteDaysRows(cal, cal.days);
    EntriesCount(cal, cal.days);
  }

  /** The total length of the days' event lists. */
  function EventCount(cal: Calendar, days: seq<string>): (n: nat)
    requires Listed(cal, days)
    decreases |days|
  {
    if days == [] then 0
    else
      EventCount(cal, days[..|days| - 1]) + |cal.events[days[|days| - 1]]|
  }

  lemma {:induction false} EntriesCount(cal: Calendar, days: seq<string>)
    requires Listed(cal, days)
    ensures |Entries(cal, days)| == EventCount(cal, days)
    decreases |days|
  {
    if days != [] {
      EntriesCount(cal, days[..|days| - 1]);
    }
  }
}
