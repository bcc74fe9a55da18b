/**
 * The record extraction of empty_lecture_room.py (`load_and_process_excel_files`): every sheet is
 * unmerged, then column 11 (column L) of each row is parsed and the records are collected in order.
 */
module Extractor {
  import opened Wrappers
  import opened ScheduleParser
  import opened MergedCells

  /** Column L, the only column read: `row.iloc[11]`. */
  const ScheduleColumn: nat := 11

  /** The records one row contributes: none unless the row is wide enough and the cell is present. */
  function RowRecords(row: seq<Option<Value>>): (r: seq<Record>)
    ensures |r| <= 1
    ensures r != [] ==> |row| > ScheduleColumn && row[ScheduleColumn].Some?
                        && Parse(row[ScheduleColumn]) == Some(r[0])
  {
    if |row| > ScheduleColumn && row[ScheduleColumn].Some? then
      match Parse(row[ScheduleColumn])
      case Some(rec) => [rec]
      case None => []
    else []
  }

  /** The records of each item, one item after another. */
  function Collect<A>(f: A -> seq<Record>, s: seq<A>): seq<Record> {
    if s == [] then [] else f(s[0]) + Collect(f, s[1..])
  }

  /** One more item collected: what is found so far, followed by the rest, is still the whole. */
  lemma CollectStep<A>(f: A -> seq<Record>, s: seq<A>, i: nat, found: seq<Record>)
    requires i < |s| && found + Collect(f, s[i..]) == Collect(f, s)
    ensures (found + f(s[i])) + Collect(f, s[i + 1..]) == Collect(f, s)
  {
    assert s[i..][0] == s[i] && s[i..][1..] == s[i + 1..];
  }

  /** The records of a list split in two are those of the first part followed by those of the second. */
  lemma {:induction false} CollectAppend<A>(f: A -> seq<Record>, a: seq<A>, b: seq<A>)
    ensures Collect(f, a + b) == Collect(f, a) + Collect(f, b)
  {
    if a == [] {
      assert a + b == b;
    } else {
      assert (a + b)[0] == a[0] && (a + b)[1..] == a[1..] + b;
      CollectAppend(f, a[1..], b);
    }
  }

  /** A record is collected exactly when some item yields it. */
  lemma {:induction false} CollectMember<A>(f: A -> seq<Record>, s: seq<A>, r: Record)
    ensures r in Collect(f, s) <==> exists i :: 0 <= i < |s| && r in f(s[i])
  {
    if s != [] {
      CollectMember(f, s[1..], r);
      if r in Collect(f, s[1..]) {
        var i :| 0 <= i < |s[1..]| && r in f(s[1..][i]);
        assert s[1..][i] == s[i + 1];
      }
      if i :| 0 <= i < |s| && r in f(s[i]) {
        if i > 0 {
          assert s[1..][i - 1] == s[i];
        }
      }
    }
  }

  /** Items yielding at most one record each give at most one record per item. */
  lemma {:induction false} CollectLength<A>(f: A -> seq<Record>, s: seq<A>)
    requires forall x :: |f(x)| <= 1
    ensures |Collect(f, s)| <= |s|
  {
    if s != [] {
      CollectLength(f, s[1..]);
    }
  }

  /** The records of a sheet, row by row. */
  function Scan(g: Grid<Value>): seq<Record> {
    Collect(RowRecords, g)
  }

  /** The loop over `df.iterrows()` that appends each parsed cell to the list. */
  method ScanRows(g: Grid<Value>) returns (records: seq<Record>)
    ensures records == Scan(g)
  {
    records := [];
    for i := 0 to |g|
      invariant records + Collect(RowRecords, g[i..]) == Scan(g)
    {
      var row := g[i];
      ghost var before := records;
      if |row| > ScheduleColumn && row[ScheduleColumn].Some? {
        var info := Parse(row[ScheduleColumn]);
        if info.Some? {
          records := records + [info.value];
        }
      }
      assert records == before + RowRecords(row);
      CollectStep(RowRecords, g, i, before);
    }
    assert g[|g|..] == [];
  }

  /** A pandas frame: every row has the same number of columns. */
  type Sheet = g: Grid<Value> | IsRect(g)

  /** A sheet as read from one file, or `None` when reading the file raised. */
  type SheetFile = Option<Sheet>

  /** The records one file contributes: a file that failed to load contributes none. */
  function FileRecords(f: SheetFile): seq<Record> {
    match f
    case Some(g) => Scan(Unmerged(g))
    case None => []
  }

  /** The records of all files, file by file. */
  function Load(files: seq<SheetFile>): seq<Record> {
    Collect(FileRecords, files)
  }

  /** The loop over the workbook files: unmerge each sheet, scan it, skip files that failed. */
  method LoadAll(files: seq<SheetFile>) returns (all: seq<Record>)
    ensures all == Load(files)
  {
    all := [];
    for k := 0 to |files|
      invariant all + Collect(FileRecords, files[k..]) == Load(files)
    {
      ghost var before := all;
      match files[k] {
        case Some(g) =>
          var sheet := Unmerge(g);
          var found := ScanRows(sheet);
          all := all + found;
        case None =>
      }
      assert all == before + FileRecords(files[k]);
      CollectStep(FileRecords, files, k, before);
    }
    assert files[|files|..] == [];
  }

  // ---------------------------------------------------------------------------------------------
  // Properties of the scan.

  /** At most one record per row. */
  lemma ScanLength(g: Grid<Value>)
    ensures |Scan(g)| <= |g|
  {
    CollectLength(RowRecords, g);
  }

  /** Records keep the order of their rows: a sheet split in two scans as its halves, in order. */
  lemma ScanAppend(a: Grid<Value>, b: Grid<Value>)
    ensures Scan(a + b) == Scan(a) + Scan(b)
  {
    CollectAppend(RowRecords, a, b);
  }

  /** Column 11 of `row` is present and parses to `r`. */
  predicate RowYields(row: seq<Option<Value>>, r: Record) {
    |row| > ScheduleColumn && row[ScheduleColumn].Some? && Parse(row[ScheduleColumn]) == Some(r)
  }

  /** A record is found exactly when some wide enough row holds, in column 11, a cell that parses to it. */
  lemma ScanMember(g: Grid<Value>, r: Record)
    ensures r in Scan(g) <==> exists i :: 0 <= i < |g| && RowYields(g[i], r)
  {
    CollectMember(RowRecords, g, r);
    forall i | 0 <= i < |g| ensures r in RowRecords(g[i]) <==> RowYields(g[i], r) {
    }
  }

  /** The records of a list of files are those of its first part followed by those of the rest. */
  lemma LoadAppend(a: seq<SheetFile>, b: seq<SheetFile>)
    ensures Load(a + b) == Load(a) + Load(b)
  {
    CollectAppend(FileRecords, a, b);
  }

  /** A file that could not be read changes nothing: the others contribute as if it were absent. */
  lemma FailedFileSkipped(a: seq<SheetFile>, b: seq<SheetFile>)
    ensures Load(a + [None] + b) == Load(a + b)
  {
    var failed: seq<SheetFile> := [None];
    assert failed[1..] == [];
    assert Load(failed) == [];
    LoadAppend(a, failed);
    assert Load(a + failed) == Load(a);
    LoadAppend(a + failed, b);
    LoadAppend(a, b);
    assert Load(a + failed + b) == Load(a) + Load(b);
  }

  /** A row holding "월09:00-10:30 (Y1234)" in column 11 gives one Monday record for room Y1234. */
  lemma MondayRow(row: seq<Option<Value>>)
    requires |row| > ScheduleColumn && row[ScheduleColumn] == Some(Text("월09:00-10:30 (Y1234)"))
    ensures Scan([row]) == [Record('월', 540, 630, "Y1234")]
  {
    MondayCell();
    assert [row][1..] == [];
    assert Scan([row]) == RowRecords(row) + Collect(RowRecords, []);
  }

  /** A row whose column 11 lacks the room gives nothing. */
  lemma RowWithoutRoom(row: seq<Option<Value>>)
    requires |row| > ScheduleColumn && row[ScheduleColumn] == Some(Text("월09:00-10:30"))
    ensures Scan([row]) == []
  {
    CellWithoutRoom();
    assert [row][1..] == [];
    assert Scan([row]) == RowRecords(row) + Collect(RowRecords, []);
  }
}
