# A verified model of the hemerology calendar scraper

`calendar_scraping.py` reads the rows of a departmental events table. It
groups the rows into a per-day calendar and keeps a second calendar of only the
events shown in bold. It then turns every event into one CSV row of seven
values: subject, start date, start time, end date, end time, description and
location. This project models that pipeline in Dafny and proves properties of
the model:

- `Assembly` models `construct_calendar_dictionary`. It is one pass over the rows,
  as a method with a loop. The Python dict is a sequence of keys in insertion
  order plus a map.
- `BoldFilter` models `filter_out_non_bolds`. It walks each day's list and keeps
  the rows that occur, by whole-list equality, among the bold rows. It is a
  method with nested loops.
- `Records` models `month_dict` and the straight-line computations of one CSV row
  as pure functions: the date made from a day label, the inferred end time,
  the description and the location.
- `CsvRows` models the nested loop of `construct_and_write_calendar_files`, which
  produces the sequence of rows handed to the CSV writer.
- `PyText` holds the Python string operations these rely on: `split`,
  `replace`, slicing, `int` and `str`. `Wrappers` holds `Option` and `Result`.

Python exceptions become `Err` values that name what went wrong. When the CSV
loop raises, the rows written before the exception are kept, because they are
already in the file.

The model follows the code as written, including these behaviours that are
easy to get wrong:

- An event row that comes before any day header is not dropped silently.
  `curr_date_index` is unbound at that point, so the pass raises
  (`NoCurrentDay`).
- A malformed day label or an unknown month name aborts the whole loop, after
  the rows of the earlier days.
- The day of the month is copied as written, with no zero padding:
  `"Monday, March 4, 2024"` gives `"2024/03/4"`.
- The end time has only the eleven-in-the-morning special case (`"12:00 PM"`).
  Every other start gives `str(int(hour) + 1)` followed directly by the two
  minute characters, with no colon and no AM/PM. So `"12:15 PM"` ends at
  `"1315"` and `"11:30 PM"` ends at `"1230"`. There is no rule that turns
  12 into 1 PM.

## Model

| member | source | states |
|---|---|---|
| PyText.Split | calendar_scraping.py:50 | `str.split` on one character always gives at least one piece, and no piece contains the separator |
| PyText.SplitJoin | calendar_scraping.py:86-88 | joining the pieces of a split with the separator gives back the original text |
| PyText.JoinSplit | calendar_scraping.py:86-88 | splitting a join of separator-free pieces gives back exactly those pieces |
| PyText.TextBeforeFirst | calendar_scraping.py:50 | `s.split(sep)[0]` is the prefix of `s` before the first separator, or all of `s` |
| PyText.RemoveAll | calendar_scraping.py:114 | `replace('\n', '')` leaves no line break and keeps every other character as often as before; text without a line break is unchanged (the order is stated by `RemoveAllConcat`) |
| PyText.RemoveAllConcat | calendar_scraping.py:114 | removing line breaks from a concatenation gives the concatenation of the removals, so the kept characters stay in order |
| PyText.RemoveAllChar | calendar_scraping.py:114 | on one character, `replace` drops it when it is the removed character and keeps it otherwise |
| PyText.RemoveAllExample | calendar_scraping.py:114 | `"a\nb".replace('\n', '')` is `"ab"`, in that order |
| PyText.DropFirst | calendar_scraping.py:87 | `s[1:]`: the text after the first character, empty for empty text |
| PyText.Take | calendar_scraping.py:109 | `s[:n]`: a prefix of `s` of length `n`, or all of `s` when it is shorter |
| PyText.SplitFindsSeparator | calendar_scraping.py:107-109 | `split` gives a second piece exactly when the separator occurs, so `split_time[1]` raises exactly for a start without a colon |
| PyText.DecimalValue | calendar_scraping.py:110 | `int(hour)` on decimal text; its meaning is given by DecimalRoundTrip and LeadingZeroIgnored |
| PyText.DecimalString | calendar_scraping.py:110 | `str(n)` is non-empty decimal text without a leading zero, except for `"0"` |
| PyText.DecimalRoundTrip | calendar_scraping.py:110 | `int(str(n)) == n` |
| PyText.LeadingZeroIgnored | calendar_scraping.py:110 | `int` ignores leading zeros |
| Assembly.IsDayHeader | calendar_scraping.py:49-50 | the header test, a one-cell row whose text before the first comma is a weekday; used by HeaderResetsDay and AssembledDays |
| Assembly.LooksLikeTime | calendar_scraping.py:54 | the event test on the first cell; its characters are given by DigitListTextChars |
| Assembly.IsEventRow | calendar_scraping.py:53-54 | a three- or four-cell row passing the event test; used by EventAppendsToCurrentDay and AssembledEventsAreEventRows |
| Assembly.CalendarOf | calendar_scraping.py:44-56 | what the pass returns or raises; a returned dict is well formed, and its meaning is given by AssembledDays, AssembledDayEvents and AssembleSucceedsIff |
| Assembly.Step | calendar_scraping.py:48-55 | handling one row keeps the dict well formed and the current day one of its keys |
| Assembly.Assemble | calendar_scraping.py:44-56 | the state after any prefix of the rows is consistent when no error was raised |
| Assembly.ConstructCalendarDictionary | calendar_scraping.py:44-56 | the loop returns or raises exactly what the row-by-row definition gives, and a returned dict has each key once, in insertion order |
| Assembly.ErrorPersists | calendar_scraping.py:48-55 | once a row raises, the rows after it do not change the outcome |
| Assembly.AssembleSucceedsIff | calendar_scraping.py:48-55 | the pass succeeds exactly when every 3- or 4-cell row has a non-empty first cell and every accepted event row has a day header before it |
| Assembly.EventBeforeHeaderRaises | calendar_scraping.py:53-55 | an accepted event row before any day header makes the pass raise instead of dropping the row |
| Assembly.AssembledDays | calendar_scraping.py:49-52 | the keys are the header labels, each once, in the order of their first appearance |
| Assembly.AssembledDayEvents | calendar_scraping.py:48-55 | a day's list is the accepted rows after that label's last header and before the next header, in document order |
| Assembly.AcceptedAreEvents | calendar_scraping.py:53-55 | every row chosen from a stretch of rows passed the event test and comes from that stretch |
| Assembly.AssembledEventsAreEventRows | calendar_scraping.py:53-55 | every stored event is an input row that passed the event test |
| Assembly.HeaderResetsDay | calendar_scraping.py:49-52 | a weekday header maps its text to an empty list, discarding earlier events under the same label, keeps the key's place and becomes the current day |
| Assembly.EventAppendsToCurrentDay | calendar_scraping.py:53-55 | an accepted event row is appended unchanged to the current day's list, and nothing else changes |
| Assembly.OtherRowsIgnored | calendar_scraping.py:48-55 | any other row, including other one-cell rows and rows of other lengths, changes nothing |
| Assembly.DigitListTextChars | calendar_scraping.py:54 | the "digit" test accepts exactly the ten digits, `[`, `]`, `,` and space |
| BoldFilter.FilterOutNonBolds | calendar_scraping.py:59-66 | the nested loop returns exactly the calendar whose every day's list is filtered against the bold rows |
| BoldFilter.KeepBoldEvents | calendar_scraping.py:62-65 | the inner loop leaves under a day exactly the rows the filter definition keeps |
| BoldFilter.FilterCalendar | calendar_scraping.py:59-66 | the filtered calendar has the input's keys in the input's order; each day's list is given by KeepBold |
| BoldFilter.KeepBold | calendar_scraping.py:63-65 | the filtered list is never longer than the day's list |
| BoldFilter.FilterKeepsDays | calendar_scraping.py:60-62 | the result has exactly the input's keys, in the same order, including days left empty |
| BoldFilter.KeepBoldIsSubsequence | calendar_scraping.py:63-65 | the kept rows are an order-preserving subsequence of the day's rows |
| BoldFilter.KeepBoldCount | calendar_scraping.py:63-65 | each bold row is kept as often as it occurs in the day's list, and every other row is dropped |
| BoldFilter.KeepBoldMembers | calendar_scraping.py:63-65 | a row is kept exactly when it is in the day's list and among the bold rows |
| BoldFilter.KeepBoldUnique | calendar_scraping.py:63-65 | the filtered list is the only order-preserving selection that keeps every occurrence of every bold row and nothing else |
| BoldFilter.KeepBoldIdempotent | calendar_scraping.py:63-65 | filtering a list twice with the same bold rows gives the same result as filtering once |
| BoldFilter.FilterCalendarIdempotent | calendar_scraping.py:59-66 | filtering the whole calendar twice gives the same result as filtering once |
| BoldFilter.KeepBoldAllBold | calendar_scraping.py:63-65 | a day whose rows are all bold is kept whole |
| Records.MonthDict | calendar_scraping.py:7-18 | `month_dict`; its keys and values are given by MonthDictNumbersMonths |
| Records.DateOf | calendar_scraping.py:86-91 | the date made from a day label; its value and its KeyError and IndexError cases are given by DateOfDayLabel and DateOfExample |
| Records.MonthDictNumbersMonths | calendar_scraping.py:7-18 | `month_dict` has exactly the twelve month names as keys and maps the k-th to a two-digit number with value k |
| Records.DateOfDayLabel | calendar_scraping.py:86-91 | the label `"W, M D, Y"` gives `Y/month_dict[M]/D`, and an unknown month raises KeyError |
| Records.DateOfExample | calendar_scraping.py:86-91 | `"Monday, March 4, 2024"` gives `"2024/03/4"`, with the day not padded |
| Records.IsElevenAm | calendar_scraping.py:104 | the test `event[0][-2] == 'A' and event[0][:2] == '11'` |
| Records.EndTime | calendar_scraping.py:104-110 | the end time: a text of fewer than two characters raises, an eleven-in-the-morning start ends at `"12:00 PM"`, and otherwise it raises exactly when there is no colon; its value is given by EndTimeElevenAm and EndTimeNextHour |
| Records.EndTimeElevenAm | calendar_scraping.py:104-105 | a start of the form `11...A.` ends at `"12:00 PM"` |
| Records.EndTimeNextHour | calendar_scraping.py:106-110 | any other start `hour:rest` with decimal `hour` ends at `str(int(hour) + 1)` followed by the first two characters of the piece between the first and any second colon, and reading the digits back gives the next hour |
| Records.EndTimeOneColon | calendar_scraping.py:106-110 | with no second colon, those are the first two characters of `rest` |
| Records.EndTimeExampleSeconds | calendar_scraping.py:106-110 | `"9:00:15 AM"` ends at `"1000"`: the seconds after a second colon are dropped |
| Records.EndTimeExampleMorning | calendar_scraping.py:104-110 | `"9:00 AM"` ends at `"1000"` |
| Records.EndTimeExampleElevenAm | calendar_scraping.py:104-105 | `"11:45 AM"` ends at `"12:00 PM"` |
| Records.EndTimeExampleNoon | calendar_scraping.py:106-110 | `"12:15 PM"` ends at `"1315"`: there is no 12-to-1 rule |
| Records.EndTimeExampleElevenPm | calendar_scraping.py:104-110 | `"11:30 PM"` is not special-cased and ends at `"1230"` |
| Records.EndTimeExampleLeadingZero | calendar_scraping.py:106-110 | `"09:30 AM"` ends at `"1030"` |
| Records.Description | calendar_scraping.py:112-116 | a four-cell row's description has no line break and keeps each other character of cell 2 as often as it occurs there; any other row's description is empty (the order is stated by `DescriptionKeepsOrder`) |
| Records.DescriptionKeepsOrder | calendar_scraping.py:112-114 | splitting cell 2 of a four-cell row into two pieces splits its description the same way, so the description is cell 2 with line breaks deleted in place |
| Records.DescriptionExample | calendar_scraping.py:112-114 | the cell `"Room\n2"` gives the description `"Room2"` |
| Records.EventRecord | calendar_scraping.py:94-124 | the seven values written for one event; given by EventRecordCells and EventRowHasRecord |
| Records.EventRecordCells | calendar_scraping.py:94-124 | the row is `[event[1], date, event[0], date, end, description, event[-1]]`, starts and ends on the same date, and exists exactly when the event has a subject and an end time |
| Records.EventRowHasRecord | calendar_scraping.py:96-110 | an event of three or four cells whose start is decimal hours, a colon and anything after it always yields its row |
| Records.EventRecordExample | calendar_scraping.py:94-124 | a three-cell event gives its seven values, with an empty description |
| CsvRows.WriteEvents | calendar_scraping.py:94-124 | what the inner loop writes for one day; given by WriteEventsRows and WriteEventsSucceedsIff |
| CsvRows.DaySection | calendar_scraping.py:84-124 | what one day contributes: its date label's exception, or its events' rows |
| CsvRows.WriteDays | calendar_scraping.py:84-124 | what the outer loop writes; given by WriteDaysRows, WriteDaysSucceedsIff and WrittenCount |
| CsvRows.ConstructAndWriteCalendarFiles | calendar_scraping.py:84-124 | the nested loop writes exactly the rows and raises exactly the exception the day-by-day definition gives |
| CsvRows.WriteDayEvents | calendar_scraping.py:94-124 | the inner loop writes exactly the rows and raises exactly the exception the event-by-event definition gives |
| CsvRows.EventsFailurePersists | calendar_scraping.py:94-124 | after an event raises, the day's later events write nothing |
| CsvRows.DaysFailurePersists | calendar_scraping.py:84-124 | after a day raises, the later days write nothing |
| CsvRows.WriteEventsRows | calendar_scraping.py:94-124 | a day's rows are the records of its first events, in order, and stop exactly at the first event that raises |
| CsvRows.WriteEventsSucceedsIff | calendar_scraping.py:94-124 | a day raises nothing exactly when every one of its events has a record |
| CsvRows.WriteDaysRows | calendar_scraping.py:84-124 | the rows are the records of the calendar's first (day, event) entries, in dict and list order, each dated by its own day's label; without an exception every entry has its row |
| CsvRows.WriteDaysSucceedsIff | calendar_scraping.py:84-124 | the loop raises nothing exactly when every day label gives a date, even a day without events, and every event gives a record |
| CsvRows.WrittenCount | calendar_scraping.py:84-124 | without an exception, the number of rows written is the number of events in the calendar |

## Left out

- `get_all_calendar_items` and `get_bold_calendar_items` (lines 21-41) walk a BeautifulSoup document tree, which is foreign code. Their output, lists of stripped cell texts, is taken as the input rows and the bold rows.
- The HTTP request and the HTML parsing (lines 127-131) are I/O and foreign calls. They are not modelled.
- Opening the CSV file, choosing its name from `bold`, and writing the header row (lines 69-82) are I/O and not modelled. The header literal lacks a comma between `'End Time'` and `'Description'`, so it has six cells while every data row has seven. This is not modelled.
- The top-level wiring (lines 133-143) is not modelled. It writes `cal_dict`, not `bold_cal_dict`, to both files, so the bold filter's result is never written. `BoldFilter` is verified on its own.
- Records.EndTime: requires `HourParses`. Whenever `int(hour)` is reached, the hour text must be decimal digits. Python's `int` also accepts a sign, surrounding blanks and underscores, or raises ValueError. Those cases are excluded rather than modelled. The same precondition carries over to Records.EventRecord, CsvRows.WriteEvents, CsvRows.WriteDays and CsvRows.ConstructAndWriteCalendarFiles. There it is asked of every event of the calendar (`CsvRows.HoursParse`), including events Python never reaches: those after the first event that raises, and every event under a day whose label raises, such as a KeyError.
- Time zones, daylight saving time, zero padding of days and any 12-to-1 PM rule do not occur in this code and are not modelled.
- Assembly.ConstructCalendarDictionary: Python appends the row object itself, so the dict and the input share lists. Rows are values here, so aliasing is not modelled.
- The same holds for BoldFilter.FilterOutNonBolds: Python appends the row object itself, and rows are values here, so the shared lists are not modelled.
