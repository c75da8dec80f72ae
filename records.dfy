/**
 * The values `construct_and_write_calendar_files` computes for each CSV row:
 * the `year/month/day` date made from a day label through `month_dict`, the
 * inferred end time, the description and the location of an event row.
 */
module Records {
  import opened Wrappers
  import opened PyText
  import opened Assembly

  /** `month_dict`: month name to two-digit month number. */
  const MonthDict: map<string, string> := map[
    "January" := "01", "February" := "02", "March" := "03", "April" := "04",
    "May" := "05", "June" := "06", "July" := "07", "August" := "08",
    "September" := "09", "October" := "10", "November" := "11", "December" := "12"]

  const MonthNames: seq<string> := [
    "January", "February", "March", "April", "May", "June",
    "July", "August", "September", "October", "November", "December"]

  /** The lookup table knows exactly the twelve months and numbers them 01 to 12 in order. */
  lemma MonthDictNumbersMonths()
    ensures forall m :: m in MonthDict <==> m in MonthNames
    ensures forall k :: 0 <= k < |MonthNames| ==>
      IsDecimal(MonthDict[MonthNames[k]]) && |MonthDict[MonthNames[k]]| == 2 &&
      DecimalValue(MonthDict[MonthNames[k]]) == k + 1
  {
    assert |MonthNames| == 12;
    forall k | 0 <= k < |MonthNames|
      ensures IsDecimal(MonthDict[MonthNames[k]]) && |MonthDict[MonthNames[k]]| == 2 &&
        DecimalValue(MonthDict[MonthNames[k]]) == k + 1
    {
      var code := MonthDict[MonthNames[k]];
      assert code == [code[0], code[1]];
      assert code[..1] == [code[0]];
    }
  }

  /** The exceptions the row computation can raise, each named by what is missing. */
  datatype RecordError =
    | MissingYear               // `parts[2]`: the label has fewer than two commas
    | MissingMonth              // `month_day[1]`: nothing after the first comma's space
    | UnknownMonth(name: string) // `month_dict[...]`: KeyError
    | MissingDay                // `month_day[2]`
    | MissingSubject            // `event[1]`: a row of fewer than two cells
    | ShortStartTime            // `event[0][-2]`: a start text of fewer than two characters
    | MissingMinutes            // `split_time[1]`: a start text without ':'

  /** The date `year/month/day` for the day label `"Weekday, Month Day, Year"`. */
  function DateOf(dayLabel: string): (date: Result<string, RecordError>)
  {
    var parts := Split(dayLabel, ',');
    if |parts| < 3 then Err(MissingYear)
    else
      var year := DropFirst(parts[2]);
      var monthDay := Split(parts[1], ' ');
      if |monthDay| < 2 then Err(MissingMonth)
      else if monthDay[1] !in MonthDict then Err(UnknownMonth(monthDay[1]))
      else if |monthDay| < 3 then Err(MissingDay)
      else Ok(year + "/" + MonthDict[monthDay[1]] + "/" + monthDay[2])
  }

  /** The label of a day in its usual shape. */
  function DayLabel(weekday: string, month: string, day: string, year: string): (text: string)
  {
    weekday + ", " + month + " " + day + ", " + year
  }

  /**
   * A label `"W, M D, Y"` gives `"Y/" + month_dict[M] + "/D"`, with `D` as
   * written (not zero-padded); an unknown month name raises KeyError.
   */
  lemma DateOfDayLabel(weekday: string, month: string, day: string, year: string)
    requires ',' !in weekday && ',' !in month && ',' !in day && ',' !in year
    requires ' ' !in month && ' ' !in day
    ensures DateOf(DayLabel(weekday, month, day, year)) ==
      if month in MonthDict then Ok(year + "/" + MonthDict[month] + "/" + day)
      else Err(UnknownMonth(month))
  {
    var middle := " " + month + " " + day;
    var tail := " " + year;
    var parts := [weekday, middle, tail];
    assert Join(parts[2..], ',') == tail;
    assert Join(parts[1..], ',') == middle + [','] + tail;
    assert DayLabel(weekday, month, day, year) == Join(parts, ',');
    JoinSplit(parts, ',');
    var pieces := ["", month, day];
    assert Join(pieces[2..], ' ') == day;
    assert Join(pieces[1..], ' ') == month + [' '] + day;
    assert middle == Join(pieces, ' ');
    JoinSplit(pieces, ' ');
    assert DropFirst(tail) == year;
  }

  lemma DateOfExample()
    ensures DateOf("Monday, March 4, 2024") == Ok("2024/03/4")
  {
    assert DayLabel("Monday", "March", "4", "2024") == "Monday, March 4, 2024";
    DateOfDayLabel("Monday", "March", "4", "2024");
    assert MonthDict["March"] == "03";
    assert "2024" + "/" + "03" + "/" + "4" == "2024/03/4";
  }

  /** The test `event[0][-2] == 'A' and event[0][:2] == '11'`. */
  predicate IsElevenAm(start: string)
    requires |start| >= 2
  {
    start[|start| - 2] == 'A' && start[..2] == "11"
  }

  /**
   * Whenever `int(hour)` is reached, `hour` is decimal text.  Python's `int`
   * also takes signs, surrounding blanks and underscores; those are not modelled.
   */
  predicate HourParses(start: string)
  {
    |start| < 2 || IsElevenAm(start) || |Split(start, ':')| < 2 || IsDecimal(Split(start, ':')[0])
  }

  /** The end time written for an event that starts at `start`. */
  function EndTime(start: string): (end: Result<string, RecordError>)
    requires HourParses(start)
    ensures |start| < 2 ==> end == Err(ShortStartTime)
    ensures |start| >= 2 && IsElevenAm(start) ==> end == Ok("12:00 PM")
    ensures end == Err(MissingMinutes) <==> |start| >= 2 && !IsElevenAm(start) && ':' !in start
    ensures end.Ok? <==> |start| >= 2 && (IsElevenAm(start) || ':' in start)
  {
    SplitFindsSeparator(start, ':');
    if |start| < 2 then Err(ShortStartTime)
    else if IsElevenAm(start) then Ok("12:00 PM")
    else
      var parts := Split(start, ':');
      if |parts| < 2 then Err(MissingMinutes)
      else Ok(DecimalString(DecimalValue(parts[0]) + 1) + Take(parts[1], 2))
  }

  /** A start at eleven in the morning ends at noon. */
  lemma EndTimeElevenAm(rest: string)
    requires |rest| >= 2 && rest[|rest| - 2] == 'A'
    ensures HourParses("11" + rest) && EndTime("11" + rest) == Ok("12:00 PM")
  {
    var s := "11" + rest;
    assert s[..2] == "11" && s[|s| - 2] == rest[|rest| - 2];
  }

  /**
   * Any other `hour:rest` ends at the decimal text of `int(hour) + 1`
   * followed directly by the first two characters of the piece after the
   * first colon: no colon and no AM/PM.  Reading the leading digits back
   * gives the next hour.
   */
  lemma EndTimeNextHour(hour: string, rest: string)
    requires IsDecimal(hour)
    requires !IsElevenAm(hour + ":" + rest)
    ensures var start := hour + ":" + rest;
      HourParses(start) &&
      EndTime(start) == Ok(DecimalString(DecimalValue(hour) + 1) + Take(Split(rest, ':')[0], 2))
    ensures var minute := Take(Split(rest, ':')[0], 2);
      var end := DecimalString(DecimalValue(hour) + 1) + minute;
      var digits := end[..|end| - |minute|];
      end[|digits|..] == minute &&
      IsDecimal(digits) && DecimalValue(digits) == DecimalValue(hour) + 1
  {
    var start := hour + ":" + rest;
    assert forall k :: 0 <= k < |hour| ==> IsDigit(hour[k]) && hour[k] != ':';
    assert start == hour + (":" + rest);
    SplitAfterPlainPrefix(hour, ":" + rest, ':');
    assert (":" + rest)[1..] == rest;
    assert Split(":" + rest, ':') == [""] + Split(rest, ':');
    assert hour + "" == hour;
    assert Split(start, ':') == [hour] + Split(rest, ':');
    var minute := Take(Split(rest, ':')[0], 2);
    var end := DecimalString(DecimalValue(hour) + 1) + minute;
    assert end[..|end| - |minute|] == DecimalString(DecimalValue(hour) + 1);
    DecimalRoundTrip(DecimalValue(hour) + 1);
  }

  /** With only the one colon, the minutes are the first two characters after it. */
  lemma EndTimeOneColon(hour: string, rest: string)
    requires IsDecimal(hour) && ':' !in rest
    requires !IsElevenAm(hour + ":" + rest)
    ensures var start := hour + ":" + rest;
      HourParses(start) &&
      EndTime(start) == Ok(DecimalString(DecimalValue(hour) + 1) + Take(rest, 2))
  {
    TextBeforeFirst(rest, ':');
    var h := Split(rest, ':')[0];
    assert |h| == |rest|;
    assert h == rest;
    EndTimeNextHour(hour, rest);
  }

  /** Seconds after a second colon are dropped: `"9:00:15 AM"` ends at `"1000"`. */
  lemma EndTimeExampleSeconds()
    ensures EndTime("9:00:15 AM") == Ok("1000")
  {
    EndTimeSecondsPieces();
    assert "9" + ":" + "00:15 AM" == "9:00:15 AM";
    assert "10" + "00" == "1000";
  }

  lemma EndTimeSecondsPieces()
    ensures EndTime("9" + ":" + "00:15 AM") == Ok("10" + "00")
  {
    MinutesBeforeSeconds();
    NineToTen();
    OneDigitHourExample("9", "00:15 AM", 9, "10", "00");
  }

  lemma NineToTen()
    ensures IsDecimal("9") && DecimalValue("9") == 9 && DecimalString(10) == "10"
  {
    assert "9"[..0] == "";
  }

  lemma OneDigitHourExample(hour: string, rest: string, value: nat, next: string, minute: string)
    requires IsDecimal(hour) && |hour| == 1
    requires DecimalValue(hour) == value && DecimalString(value + 1) == next
    requires Take(Split(rest, ':')[0], 2) == minute
    ensures EndTime(hour + ":" + rest) == Ok(next + minute)
  {
    assert (hour + ":" + rest)[1] == ':';
    EndTimeNextHour(hour, rest);
  }

  lemma MinutesBeforeSeconds()
    ensures Take(Split("00:15 AM", ':')[0], 2) == "00"
  {
    assert "00:15 AM" == "00" + ":15 AM";
    SplitAfterPlainPrefix("00", ":15 AM", ':');
    assert ":15 AM"[0] == ':';
    assert "00" + "" == "00";
  }

  lemma EndTimeExampleMorning()
    ensures EndTime("9:00 AM") == Ok("1000")
  {
    NextHourExample("9", "00 AM", 9, "10");
    assert "00 AM"[..2] == "00";
    assert "9" + ":" + "00 AM" == "9:00 AM";
    assert "10" + "00" == "1000";
  }

  lemma EndTimeExampleElevenAm()
    ensures EndTime("11:45 AM") == Ok("12:00 PM")
  {
    assert "11:45 AM" == "11" + ":45 AM";
    EndTimeElevenAm(":45 AM");
  }

  lemma EndTimeExampleNoon()
    ensures EndTime("12:15 PM") == Ok("1315")
  {
    assert DecimalValue("12") == 12 by { assert "12"[..1] == "1"; }
    NextHourExample("12", "15 PM", 12, "13");
    assert "15 PM"[..2] == "15";
    assert "12" + ":" + "15 PM" == "12:15 PM";
    assert "13" + "15" == "1315";
  }

  /** Eleven at night is not special: it ends at `1230`. */
  lemma EndTimeExampleElevenPm()
    ensures EndTime("11:30 PM") == Ok("1230")
  {
    assert DecimalValue("11") == 11 by { assert "11"[..1] == "1"; }
    NextHourExample("11", "30 PM", 11, "12");
    assert "30 PM"[..2] == "30";
    assert "11" + ":" + "30 PM" == "11:30 PM";
    assert "12" + "30" == "1230";
  }

  /** A leading zero is dropped by `int`. */
  lemma EndTimeExampleLeadingZero()
    ensures EndTime("09:30 AM") == Ok("1030")
  {
    assert DecimalValue("09") == 9 by { assert "09"[..1] == "0"; }
    NextHourExample("09", "30 AM", 9, "10");
    assert "30 AM"[..2] == "30";
    assert "09" + ":" + "30 AM" == "09:30 AM";
    assert "10" + "30" == "1030";
  }

  /** Instantiates `EndTimeNextHour` for two-character minutes and a known hour value. */
  lemma NextHourExample(hour: string, rest: string, value: nat, next: string)
    requires IsDecimal(hour) && ':' !in rest && |rest| >= 2
    requires DecimalValue(hour) == value && DecimalString(value + 1) == next
    requires |hour| <= 2 && (hour != "11" || rest[|rest| - 2] != 'A')
    ensures HourParses(hour + ":" + rest) && EndTime(hour + ":" + rest) == Ok(next + rest[..2])
  {
    var start := hour + ":" + rest;
    assert !IsElevenAm(start) by {
      if |hour| == 1 {
        assert start[1] == ':';
      } else if hour == "11" {
        assert start[|start| - 2] == rest[|rest| - 2];
      } else {
        assert start[..2] == hour;
      }
    }
    EndTimeOneColon(hour, rest);
  }

  /** The description cell: cell 2 without line breaks for a four-cell row, else empty. */
  function Description(event: Row): (d: string)
    ensures '\n' !in d
    ensures |event| != 4 ==> d == ""
    ensures |event| == 4 ==> forall c :: c != '\n' ==> multiset(d)[c] == multiset(event[2])[c]
  {
    if |event| == 4 then RemoveAll(event[2], '\n') else ""
  }

  /** A description keeps cell 2's pieces in order: splitting the cell splits the description. */
  lemma DescriptionKeepsOrder(event: Row, a: string, b: string)
    requires |event| == 4 && event[2] == a + b
    ensures Description(event) == RemoveAll(a, '\n') + RemoveAll(b, '\n')
  {
    RemoveAllConcat(a, b, '\n');
  }

  /** A cell `"Room\n2"` gives the description `"Room2"`. */
  lemma DescriptionExample()
    ensures Description(["10:00 AM", "Seminar", "Room\n2", "Hall"]) == "Room2"
  {
    var event := ["10:00 AM", "Seminar", "Room\n2", "Hall"];
    assert event[2] == "Room" + "\n2";
    DescriptionKeepsOrder(event, "Room", "\n2");
    assert "\n2" == "\n" + "2";
    RemoveAllConcat("\n", "2", '\n');
    RemoveAllChar('\n', '\n');
    RemoveAllChar('2', '\n');
  }

  /** One CSV row, in the order of the columns written. */
  datatype CsvRecord = CsvRecord(
    subject: string,
    startDate: string, startTime: string,
    endDate: string, endTime: string,
    description: string, location: string)
  {
    function Cells(): (cells: seq<string>)
    {
      [subject, startDate, startTime, endDate, endTime, description, location]
    }
  }

  predicate EventHourParses(event: Row)
  {
    |event| < 2 || HourParses(event[0])
  }

  /** The row written for `event` on the day whose date is `date`. */
  function EventRecord(date: string, event: Row): (rec: Result<CsvRecord, RecordError>)
    requires EventHourParses(event)
  {
    if |event| < 2 then Err(MissingSubject)
    else
      match EndTime(event[0])
      case Err(e) => Err(e)
      case Ok(end) =>
        Ok(CsvRecord(event[1], date, event[0], date, end, Description(event), event[|event| - 1]))
  }

  /**
   * The row is `[event[1], date, event[0], date, end, description, event[-1]]`:
   * it starts and ends on the same date, and it exists exactly when the row has
   * a subject and the end time can be computed.
   */
  lemma EventRecordCells(date: string, event: Row)
    requires EventHourParses(event)
    ensures EventRecord(date, event).Ok? <==> |event| >= 2 && EndTime(event[0]).Ok?
    ensures EventRecord(date, event).Ok? ==>
      var cells := EventRecord(date, event).value.Cells();
      |cells| == 7 && cells[1] == cells[3] == date &&
      cells == [event[1], date, event[0], date, EndTime(event[0]).value, Description(event), event[|event| - 1]]
  {
  }

  /** An event row whose start is decimal hours, a colon and anything else always yields its row. */
  lemma EventRowHasRecord(date: string, event: Row, hour: string, rest: string)
    requires IsEventRow(event) && event[0] == hour + ":" + rest
    requires IsDecimal(hour)
    ensures EventHourParses(event) && EventRecord(date, event).Ok?
  {
    if IsElevenAm(event[0]) {
    } else {
      EndTimeNextHour(hour, rest);
    }
  }

  lemma EventRecordExample()
    ensures EventRecord("2024/03/4", ["9:00 AM", "Grand Rounds", "Room 2"]) ==
      Ok(CsvRecord("Grand Rounds", "2024/03/4", "9:00 AM", "2024/03/4", "1000", "", "Room 2"))
  {
    EndTimeExampleMorning();
  }
}
