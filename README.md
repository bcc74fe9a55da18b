# Empty lecture room finder: the scheduling core

`empty_lecture_room.py` reads the department's timetable workbooks. In the first sheet of each workbook it undoes
merged cells, then reads column L (index 11) of every row for a cell such as `월09:00-10:30 (Y1234)`. That
cell is a weekday, a start and an end time, and a room. From the collected records it builds, for
a chosen weekday, a table of thirteen hourly slots (09:00 to 21:00) by room, with each cell marked
`Possible` (free) or `Impossible` (taken).

This project models that core in Dafny and proves what it promises:

- `ScheduleParser`: the cell parser (`extract_schedule_info`). It strips whitespace the way
  Python's `str.strip()` does, then checks the anchored pattern position by position (every part
  has a fixed width, so a matching text has exactly 20 characters). Times are turned into minutes
  as `60*HH + MM`. A missing or non-text cell gives no record.
- `Digits`: the two-digit fields (`\d{2}`, `int(...)`, `f"{h:02d}"`).
- `MergedCells`: `unmerge_cells`, a forward fill down each column followed by one along each row,
  over a grid of optional cells. It is written as loops over the grid, proved equal to a
  cell-by-cell definition, and that definition is characterised by lemmas.
- `Extractor`: the column-11 row scan and the loop over the workbook files. A file that failed to
  load contributes nothing.
- `RoomDirectory`: `get_all_rooms`, which collects the rooms into a set and then sorts them in
  Python's string order.
- `Availability`: `calculate_empty_times`. It keeps the selected day's records, builds one interval
  list per room (standing in for the IntervalTree) and answers each slot with a linear overlap
  test. The error `IntervalTree` raises on an interval with `start >= end` is modelled as
  `Failure(NullInterval)`.

Four behaviours of the code are easy to miss, and the model keeps them:

- Nothing bounds the parsed times to a day. `일25:00-26:30 (Y0001)` is accepted as 1500..1590 minutes
  (`ScheduleParser.HourNotChecked`). Only the digit count bounds them, to 99*60+99
  (`ScheduleParser.ParsedBounds`).
- Minutes are not range-checked either: anything up to 99 is accepted. So `월09:60-10:30 (Y1234)` and
  `월10:00-10:30 (Y1234)` give the same record, Monday 600..630 in Y1234
  (`ScheduleParser.MinuteNotChecked`).
- Nothing checks `start < end` when parsing. Such a record for a listed room on the selected day
  makes `calculate_empty_times` raise rather than return a table (`Availability.EmptyTimesMeaning`).
- The table always has thirteen rows (`Availability.EmptyTimesMeaning`). So the empty-table warning
  in `main` cannot be reached once any record was loaded.

## Model

| member | source | states |
|---|---|---|
| `Digits.TwoDigits` | empty_lecture_room.py:125 | `f"{n:02d}"` gives two ASCII digits whose decimal value is n |
| `Digits.TwoDigitsRoundTrip` | empty_lecture_room.py:125-130 | reading back a two-digit rendering of n gives n |
| `Digits.TwoDigitsOfValue` | empty_lecture_room.py:52-53 | a two-digit field is the rendering of its own value, so the field-to-number reading is one-to-one |
| `ScheduleParser.TrimStartDropsSpace` | empty_lecture_room.py:43 | what the leading trim removes is whitespace in Python's `isspace` sense |
| `ScheduleParser.TrimEndDropsSpace` | empty_lecture_room.py:43 | what the trailing trim removes is whitespace |
| `ScheduleParser.Strip` | empty_lecture_room.py:43 | the stripped text neither starts nor ends with whitespace |
| `ScheduleParser.StripDropsPadding` | empty_lecture_room.py:43 | the input is the stripped text with whitespace on both sides |
| `ScheduleParser.TrimStartPadded` | empty_lecture_room.py:43 | leading whitespace added to a text does not change its leading trim |
| `ScheduleParser.TrimEndPadded` | empty_lecture_room.py:43 | trailing whitespace added to a text does not change its trailing trim |
| `ScheduleParser.StripPadded` | empty_lecture_room.py:43 | stripping a trimmed text padded with whitespace gives back exactly that text |
| `ScheduleParser.Match` | empty_lecture_room.py:41-64 | a match needs exactly 20 characters, a day from 월..일 and a room `Y` plus four digits |
| `ScheduleParser.Parse` | empty_lecture_room.py:36-39 | a missing (NaN) or non-string cell gives no record |
| `ScheduleParser.MatchRender` | empty_lecture_room.py:42-62 | every well-formed cell text is accepted, with start = 60*HH+MM, end = 60*HH'+MM', day and room copied |
| `ScheduleParser.MatchOnlyRendered` | empty_lecture_room.py:42-64 | every accepted text is the rendering of the fields read from it, and parses to their record |
| `ScheduleParser.MatchIffRendered` | empty_lecture_room.py:42-64 | the pattern accepts a stripped text if and only if it has the exact cell shape |
| `ScheduleParser.RenderInjective` | empty_lecture_room.py:42-62 | different well-formed fields give different cell texts (different texts can still give the same record) |
| `ScheduleParser.ParseTrimmed` | empty_lecture_room.py:43 | a text without surrounding whitespace goes to the pattern unchanged |
| `ScheduleParser.ParsePadded` | empty_lecture_room.py:43-62 | whitespace around a well-formed cell does not change its record |
| `ScheduleParser.ParsedBounds` | empty_lecture_room.py:52-56 | parsed times are at most 99*60+99; no tighter bound is enforced |
| `ScheduleParser.CellParses` | empty_lecture_room.py:41-63 | a stripped text with the day, both clocks, the separators and the room in their places parses to the record of those parts |
| `ScheduleParser.MondayCell` | empty_lecture_room.py:36-63 | `월09:00-10:30 (Y1234)` parses to Monday, 540, 630, `Y1234` |
| `ScheduleParser.CellWithoutRoom` | empty_lecture_room.py:42-64 | `월09:00-10:30` without the room gives no record |
| `ScheduleParser.HourNotChecked` | empty_lecture_room.py:51-56 | `일25:00-26:30 (Y0001)` is accepted as 1500..1590: hours are not range-checked |
| `ScheduleParser.MinuteSixtyCell` | empty_lecture_room.py:51-56 | `월09:60-10:30 (Y1234)` parses to Monday, 600, 630, `Y1234`: a minute of 60 is read as it stands |
| `ScheduleParser.TenOClockCell` | empty_lecture_room.py:51-56 | `월10:00-10:30 (Y1234)` parses to Monday, 600, 630, `Y1234` |
| `ScheduleParser.MinuteNotChecked` | empty_lecture_room.py:51-56 | `월09:60-10:30 (Y1234)` and `월10:00-10:30 (Y1234)` are different cells that parse to the same result: minutes are not range-checked |
| `MergedCells.FillColumns` | empty_lecture_room.py:30 | the column pass gives every cell its own value, else the nearest one above it |
| `MergedCells.FillRows` | empty_lecture_room.py:31 | the row pass gives every cell its own value, else the nearest one to its left |
| `MergedCells.Unmerge` | empty_lecture_room.py:27-34 | `unmerge_cells` is the column fill followed by the row fill |
| `MergedCells.AboveMissing` | empty_lecture_room.py:30 | after the column fill a cell is missing iff it and everything above it is missing |
| `MergedCells.AboveNearest` | empty_lecture_room.py:30 | a missing cell takes the value of the nearest non-missing cell above it |
| `MergedCells.LeftMissing` | empty_lecture_room.py:31 | after the row fill a cell is missing iff it and everything to its left is missing |
| `MergedCells.LeftNearest` | empty_lecture_room.py:31 | a missing cell takes the value of the nearest non-missing cell to its left |
| `MergedCells.UnmergedKeepsValues` | empty_lecture_room.py:30-31 | every non-missing cell is unchanged by the fill |
| `MergedCells.UnmergedMissingCell` | empty_lecture_room.py:30-31 | a missing cell with a value above it gets the nearest such value |
| `MergedCells.UnmergedNothingAbove` | empty_lecture_room.py:30-31 | a missing cell with nothing above it gets what its left neighbour ends up with |
| `MergedCells.UnmergedStaysMissing` | empty_lecture_room.py:30-31 | a cell stays missing iff every cell above-left of it, inclusive, is missing |
| `MergedCells.FillDownFixed` | empty_lecture_room.py:30 | the column fill changes nothing on a grid whose gaps are only at the top of each column |
| `MergedCells.FillRowFixed` | empty_lecture_room.py:31 | the row fill changes nothing on a row whose gaps are only at its start |
| `MergedCells.UnmergedGaps` | empty_lecture_room.py:30-31 | after the fill, gaps remain only at the top of columns and the start of rows |
| `MergedCells.UnmergeIdempotent` | empty_lecture_room.py:27-34 | unmerging twice equals unmerging once |
| `Extractor.RowRecords` | empty_lecture_room.py:91-94 | a row yields at most one record, and only when it has more than 11 columns and column 11 is present and parses |
| `Extractor.ScanRows` | empty_lecture_room.py:90-94 | the row loop appends exactly the records of the rows in order |
| `Extractor.ScanLength` | empty_lecture_room.py:90-94 | a sheet yields at most one record per row |
| `Extractor.ScanAppend` | empty_lecture_room.py:90-94 | records follow row order: a sheet split in two scans as its halves, concatenated |
| `Extractor.ScanMember` | empty_lecture_room.py:90-94 | a record is found iff some row has more than 11 columns with a present column-11 cell parsing to it |
| `Extractor.LoadAll` | empty_lecture_room.py:81-99 | the file loop returns, file by file, the records of each unmerged sheet; a failed file adds none |
| `Extractor.LoadAppend` | empty_lecture_room.py:81-99 | records follow file order: the files split in two load as their halves, concatenated |
| `Extractor.FailedFileSkipped` | empty_lecture_room.py:82-97 | a file that raised while loading changes nothing about the others' records |
| `Extractor.MondayRow` | empty_lecture_room.py:90-94 | a row holding `월09:00-10:30 (Y1234)` in column 11 yields that one record |
| `Extractor.RowWithoutRoom` | empty_lecture_room.py:90-94 | a row whose column-11 text lacks the room yields nothing |
| `RoomDirectory.LessIrreflexive` | empty_lecture_room.py:106 | no string sorts before itself |
| `RoomDirectory.LessTransitive` | empty_lecture_room.py:106 | Python's string order is transitive |
| `RoomDirectory.LessTotal` | empty_lecture_room.py:106 | any two different strings are ordered one way or the other |
| `RoomDirectory.LessAsymmetric` | empty_lecture_room.py:106 | two strings are never each before the other |
| `RoomDirectory.Insert` | empty_lecture_room.py:106 | inserting into a strictly ascending sequence keeps it strictly ascending and adds just that element |
| `RoomDirectory.SortRooms` | empty_lecture_room.py:106 | `sorted(list(s))` is strictly ascending with exactly the elements of s |
| `RoomDirectory.AllRooms` | empty_lecture_room.py:101-106 | the room list is strictly ascending (no duplicates) and holds exactly the rooms of all records, whatever their day |
| `RoomDirectory.AscendingUnique` | empty_lecture_room.py:106 | only one strictly ascending sequence has a given set of elements |
| `RoomDirectory.DirectoryIgnoresOrder` | empty_lecture_room.py:101-106 | reordering the records does not change the room list |
| `Availability.Label` | empty_lecture_room.py:125 | a slot label is five characters: two ASCII digits whose value is the hour, then `:00` |
| `Availability.LabelRoundTrip` | empty_lecture_room.py:125-130 | the hour read back from a slot label is the hour it was made from |
| `Availability.OnDay` | empty_lecture_room.py:111 | the day filter keeps exactly the records of the selected day |
| `Availability.AnyOverlap` | empty_lecture_room.py:138-139 | the overlap query is non-empty iff some stored interval meets the query interval |
| `Availability.TreeAnswersOccupied` | empty_lecture_room.py:113-138 | querying a room's intervals for a slot answers whether a same-day record of that room overlaps it |
| `Availability.NullIntervalOfDay` | empty_lecture_room.py:117-119 | a same-day record of a listed room with start >= end makes the call fail |
| `Availability.BuildTrees` | empty_lecture_room.py:114-120 | tree building fails iff such a record exists, and otherwise gives every room exactly its same-day intervals |
| `Availability.BuildRows` | empty_lecture_room.py:123-143 | the slot loops build exactly the thirteen-row table |
| `Availability.CalculateEmptyTimes` | empty_lecture_room.py:108-145 | returns exactly `EmptyTimes(schedules, selectedDay, allRooms)` |
| `Availability.TableRow` | empty_lecture_room.py:128-143 | row s of the table is labelled with hour 9+s and has one entry per room |
| `Availability.TableAt` | empty_lecture_room.py:134-142 | the entry for room c in row s is that room, with its status for hour 9+s |
| `Availability.EmptyTimesMeaning` | empty_lecture_room.py:108-145 | fails iff a same-day record of a listed room has start >= end; else 13 rows labelled from 09:00 with one entry per room in order, Impossible iff a same-day record of the room overlaps [h*60, (h+1)*60) |
| `Availability.OnlyTheDayCounts` | empty_lecture_room.py:111 | two record lists with the same records for the day give the same result |
| `Availability.OccupiedOnDay` | empty_lecture_room.py:111-138 | a slot is taken iff some record kept by the day filter overlaps it |
| `Availability.OnDayAppend` | empty_lecture_room.py:111 | filtering distributes over concatenation |
| `Availability.OnDayNone` | empty_lecture_room.py:111 | a list with no record of the day filters to nothing |
| `Availability.OtherDaysIgnored` | empty_lecture_room.py:111 | records of other days, added before or after, never change the result |
| `Availability.NoClassesThatDay` | empty_lecture_room.py:111-143 | with no record on the day, the call succeeds and every cell of every room is Possible |
| `Availability.TouchingRecordDoesNotBlock` | empty_lecture_room.py:131-139 | a record ending at the slot's start, or starting at its end, does not change the slot |
| `Availability.SlotLabels` | empty_lecture_room.py:124-125 | the first row is labelled `09:00` and the last `21:00` |
| `Availability.MondayTable` | empty_lecture_room.py:108-145 | with Monday 09:00-10:30 in Y1234, Y1234 is taken at 09:00 and 10:00 and free at 11:00; Y5678 is free all day |

## Left out

- The Streamlit page (`main`, lines 160-206) is not modelled: page set-up, the weekday picker, the default day from the clock, the warnings and the table display are user interface and clock input.
- `convert_xls_to_xlsx`, `glob`, `pd.read_excel` and `os.remove` are file-system work. Each workbook is a parameter: its first sheet (what `pd.read_excel` reads by default), or `None` when reading it raised.
- The `st.error` report of a failed file is output only. The model keeps its effect, which is that the file contributes no records.
- `apply_table_styling` is presentation (cell colours) and is not modelled.
- `infer_objects` only changes pandas dtypes, so the fill's result is taken as its cells.
- The cell values of a sheet are reduced to text and "anything else" (`Value.Other`: numbers, dates, times, booleans). The parser rejects every non-string the same way.
- `IntervalTree` is replaced by a sequence of intervals with a linear overlap test. Its balancing and lookup structure are not modelled; its `overlap` answer and its refusal of null intervals are.
- ScheduleParser.Match: `\d` is taken as the ASCII digits 0-9, whereas Python's `re` also accepts other Unicode decimal digits, which `int()` would then read.
- ScheduleParser.IsSpace: `str.strip()` is modelled with a fixed list of the code points for which `str.isspace()` holds; there is no other Unicode handling.
- Availability.CalculateEmptyTimes: the result is a list of rows with one entry per position of `all_rooms`. The source builds a dict per row, so a room listed twice would collapse into one column. `get_all_rooms` never lists a room twice (`RoomDirectory.AllRooms`).
- Availability.CalculateEmptyTimes: the DataFrame wrapping of the rows (column order, the `시간` header) is not modelled beyond the row label and the per-room entries.
