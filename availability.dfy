/**
 * The availability table of empty_lecture_room.py (`calculate_empty_times`): for the selected day,
 * each of the thirteen hourly slots 09:00 .. 21:00 and each room, whether some record of that room
 * on that day overlaps the slot.
 */
module Availability {
  import opened Wrappers
  import opened Digits
  import opened ScheduleParser

  datatype Status = Possible | Impossible

  /** One room's cell in a row. */
  datatype Entry = Entry(room: string, status: Status)

  /** One row of the result frame: the time label (column `시간`) and one entry per room. */
  datatype Row = Row(slot: string, entries: seq<Entry>)

  /** IntervalTree refuses an interval whose start is not before its end (a ValueError). */
  datatype Error = NullInterval

  /** A half-open interval [begin, end) as stored in a room's IntervalTree. */
  datatype Interval = Interval(begin: int, end: int)

  /** The slots are `range(9, 22)`: 09:00 up to and including 21:00. */
  const FirstHour: nat := 9
  const SlotCount: nat := 13

  /** `f"{hour:02d}:00"`. */
  function Label(hour: nat): (s: string)
    requires hour < 100
    ensures |s| == 5 && IsDigit(s[0]) && IsDigit(s[1]) && s[2] == ':' && s[3..] == "00"
    ensures TwoDigitValue(s[..2]) == hour
  {
    TwoDigits(hour) + ":00"
  }

  /** `int(text.split(':')[0])` for a label whose first field is two digits. */
  function LabelHour(text: string): nat
    requires |text| >= 3 && IsDigit(text[0]) && IsDigit(text[1]) && text[2] == ':'
  {
    TwoDigitValue(text[..2])
  }

  /** The hour read back from a label is the hour it was written from. */
  lemma LabelRoundTrip(hour: nat)
    requires hour < 100
    ensures LabelHour(Label(hour)) == hour
  {
    assert Label(hour)[..2] == TwoDigits(hour);
  }

  /** The day's records, in order: `[s for s in schedules if s['day'] == selected_day]`. */
  function OnDay(schedules: seq<Record>, day: char): (r: seq<Record>)
    ensures forall x :: x in r <==> x in schedules && x.day == day
  {
    if schedules == [] then []
    else if schedules[0].day == day then [schedules[0]] + OnDay(schedules[1..], day)
    else OnDay(schedules[1..], day)
  }

  /** IntervalTree's `overlap(lo, hi)` test for one stored interval; an empty query finds nothing. */
  predicate Overlaps(iv: Interval, lo: int, hi: int) {
    lo < hi && iv.begin < hi && lo < iv.end
  }

  /** `tree.overlap(lo, hi)` is non-empty, by a linear scan of the room's intervals. */
  method AnyOverlap(tree: seq<Interval>, lo: int, hi: int) returns (found: bool)
    ensures found <==> exists k :: 0 <= k < |tree| && Overlaps(tree[k], lo, hi)
  {
    found := false;
    for k := 0 to |tree|
      invariant found <==> exists k' :: 0 <= k' < k && Overlaps(tree[k'], lo, hi)
    {
      if Overlaps(tree[k], lo, hi) {
        found := true;
      }
    }
  }

  // ---------------------------------------------------------------------------------------------
  // What the table says, stated over the records.

  /** Some record of `room` on `day` overlaps the slot [hour*60, (hour+1)*60). */
  predicate Occupied(schedules: seq<Record>, day: char, room: string, hour: nat) {
    exists k :: 0 <= k < |schedules| && schedules[k].day == day && schedules[k].room == room
                && schedules[k].start < (hour + 1) * 60 && hour * 60 < schedules[k].end
  }

  function StatusAt(schedules: seq<Record>, day: char, room: string, hour: nat): Status {
    if Occupied(schedules, day, room, hour) then Impossible else Possible
  }

  /** A record of the day, for a listed room, that IntervalTree would refuse. */
  predicate HasNullInterval(schedules: seq<Record>, day: char, rooms: seq<string>) {
    exists k :: 0 <= k < |schedules| && schedules[k].day == day && schedules[k].room in rooms
                && schedules[k].start >= schedules[k].end
  }

  function SlotRow(schedules: seq<Record>, day: char, rooms: seq<string>, hour: nat): Row
    requires hour < 100
  {
    Row(Label(hour), seq(|rooms|, c requires 0 <= c < |rooms| => Entry(rooms[c], StatusAt(schedules, day, rooms[c], hour))))
  }

  /** The table for a day: thirteen rows, 09:00 first. */
  function Table(schedules: seq<Record>, day: char, rooms: seq<string>): seq<Row> {
    seq(SlotCount, s requires 0 <= s < SlotCount => SlotRow(schedules, day, rooms, FirstHour + s))
  }

  /** What `calculate_empty_times` returns, or the error it raises. */
  function EmptyTimes(schedules: seq<Record>, day: char, rooms: seq<string>): Result<seq<Row>, Error> {
    if HasNullInterval(schedules, day, rooms) then Failure(NullInterval)
    else Success(Table(schedules, day, rooms))
  }

  // ---------------------------------------------------------------------------------------------
  // The computation as the source runs it: one IntervalTree per room, then one row per slot.

  /** Among the first `n` records, one of `room` spans exactly `iv`. */
  ghost predicate IntervalAmong(records: seq<Record>, n: nat, room: string, iv: Interval)
    requires n <= |records|
  {
    exists k :: 0 <= k < n && records[k].room == room && iv == Interval(records[k].start, records[k].end)
  }

  /** A room's tree holds exactly the intervals of that room's records. */
  ghost predicate IsTreeOf(tree: seq<Interval>, records: seq<Record>, room: string) {
    forall iv :: iv in tree <==> IntervalAmong(records, |records|, room, iv)
  }

  /** Querying a room's tree for a slot answers whether a record of the day occupies the slot. */
  lemma TreeAnswersOccupied(tree: seq<Interval>, schedules: seq<Record>, day: char, room: string, hour: nat)
    requires IsTreeOf(tree, OnDay(schedules, day), room)
    ensures (exists k :: 0 <= k < |tree| && Overlaps(tree[k], hour * 60, (hour + 1) * 60))
            <==> Occupied(schedules, day, room, hour)
  {
    var daySchedules := OnDay(schedules, day);
    var lo, hi := hour * 60, (hour + 1) * 60;
    if k :| 0 <= k < |tree| && Overlaps(tree[k], lo, hi) {
      assert tree[k] in tree;
      var j :| 0 <= j < |daySchedules| && daySchedules[j].room == room
               && tree[k] == Interval(daySchedules[j].start, daySchedules[j].end);
      assert daySchedules[j] in schedules;
      var i :| 0 <= i < |schedules| && schedules[i] == daySchedules[j];
      assert schedules[i].day == day;
    }
    if Occupied(schedules, day, room, hour) {
      var i :| 0 <= i < |schedules| && schedules[i].day == day && schedules[i].room == room
               && schedules[i].start < hi && lo < schedules[i].end;
      assert schedules[i] in daySchedules;
      var j :| 0 <= j < |daySchedules| && daySchedules[j] == schedules[i];
      var iv := Interval(schedules[i].start, schedules[i].end);
      assert IntervalAmong(daySchedules, |daySchedules|, room, iv);
      var k :| 0 <= k < |tree| && tree[k] == iv;
      assert Overlaps(tree[k], lo, hi);
    }
  }

  /** A record of the day that IntervalTree refuses makes the whole call fail. */
  lemma NullIntervalOfDay(schedules: seq<Record>, day: char, rooms: seq<string>, x: Record)
    requires x in OnDay(schedules, day) && x.room in rooms && x.start >= x.end
    ensures HasNullInterval(schedules, day, rooms)
  {
    var i :| 0 <= i < |schedules| && schedules[i] == x;
  }

  /** Every listed room has a tree in `roomTrees`, holding exactly the intervals of its records of the day. */
  ghost predicate TreesFor(roomTrees: map<string, seq<Interval>>, daySchedules: seq<Record>, rooms: seq<string>) {
    (forall c :: 0 <= c < |rooms| ==> rooms[c] in roomTrees)
    && forall r :: r in roomTrees ==> IsTreeOf(roomTrees[r], daySchedules, r)
  }

  /**
   * The first loop of `calculate_empty_times`: one IntervalTree per room, filled with that room's
   * records of the day; inserting a null interval raises.
   */
  method BuildTrees(daySchedules: seq<Record>, allRooms: seq<string>)
    returns (result: Result<map<string, seq<Interval>>, Error>)
    ensures result.Failure? <==> exists k :: 0 <= k < |daySchedules| && daySchedules[k].room in allRooms
                                  && daySchedules[k].start >= daySchedules[k].end
    ensures result.Success? ==> TreesFor(result.value, daySchedules, allRooms)
  {
    var roomTrees: map<string, seq<Interval>> := map[];
    for c := 0 to |allRooms|
      invariant forall c' :: 0 <= c' < c ==> allRooms[c'] in roomTrees
      invariant forall r :: r in roomTrees ==> IsTreeOf(roomTrees[r], daySchedules, r)
      invariant forall k :: 0 <= k < |daySchedules| && daySchedules[k].room in allRooms[..c] ==>
                  daySchedules[k].start < daySchedules[k].end
    {
      var room := allRooms[c];
      var tree: seq<Interval> := [];
      for k := 0 to |daySchedules|
        invariant forall iv :: iv in tree <==> IntervalAmong(daySchedules, k, room, iv)
        invariant forall k' :: 0 <= k' < k && daySchedules[k'].room == room ==>
                    daySchedules[k'].start < daySchedules[k'].end
      {
        var schedule := daySchedules[k];
        if schedule.room == room {
          if schedule.start >= schedule.end {
            return Failure(NullInterval);
          }
          tree := tree + [Interval(schedule.start, schedule.end)];
        }
      }
      roomTrees := roomTrees[room := tree];
      assert allRooms[..c + 1] == allRooms[..c] + [room];
    }
    assert allRooms[..|allRooms|] == allRooms;
    return Success(roomTrees);
  }

  /** The second and third loops: the slot labels, then one row per slot with one entry per room. */
  method BuildRows(schedules: seq<Record>, selectedDay: char, allRooms: seq<string>,
                   roomTrees: map<string, seq<Interval>>)
    returns (resultData: seq<Row>)
    requires TreesFor(roomTrees, OnDay(schedules, selectedDay), allRooms)
    ensures resultData == Table(schedules, selectedDay, allRooms)
  {
    var timeSlots: seq<string> := [];
    for hour := FirstHour to FirstHour + SlotCount
      invariant |timeSlots| == hour - FirstHour
      invariant forall s :: 0 <= s < |timeSlots| ==> timeSlots[s] == Label(FirstHour + s)
    {
      timeSlots := timeSlots + [Label(hour)];
    }

    resultData := [];
    for s := 0 to |timeSlots|
      invariant |resultData| == s
      invariant forall s' :: 0 <= s' < s ==> resultData[s'] == SlotRow(schedules, selectedDay, allRooms, FirstHour + s')
    {
      var timeSlot := timeSlots[s];
      LabelRoundTrip(FirstHour + s);
      var hour := LabelHour(timeSlot);
      var minuteStart, minuteEnd := hour * 60, (hour + 1) * 60;
      var entries: seq<Entry> := [];
      for c := 0 to |allRooms|
        invariant |entries| == c
        invariant forall c' :: 0 <= c' < c ==> entries[c'] == Entry(allRooms[c'], StatusAt(schedules, selectedDay, allRooms[c'], hour))
      {
        var room := allRooms[c];
        var tree := roomTrees[room];
        var overlapping := AnyOverlap(tree, minuteStart, minuteEnd);
        TreeAnswersOccupied(tree, schedules, selectedDay, room, hour);
        entries := entries + [Entry(room, if overlapping then Impossible else Possible)];
      }
      resultData := resultData + [Row(timeSlot, entries)];
    }
  }

  /** `calculate_empty_times(schedules, selected_day, all_rooms)`. */
  method CalculateEmptyTimes(schedules: seq<Record>, selectedDay: char, allRooms: seq<string>)
    returns (result: Result<seq<Row>, Error>)
    ensures result == EmptyTimes(schedules, selectedDay, allRooms)
  {
    var daySchedules := OnDay(schedules, selectedDay);
    var trees := BuildTrees(daySchedules, allRooms);
    match trees {
      case Failure(e) =>
        var k :| 0 <= k < |daySchedules| && daySchedules[k].room in allRooms
                 && daySchedules[k].start >= daySchedules[k].end;
        NullIntervalOfDay(schedules, selectedDay, allRooms, daySchedules[k]);
        return Failure(NullInterval);
      case Success(roomTrees) =>
        assert !HasNullInterval(schedules, selectedDay, allRooms) by {
          forall k | 0 <= k < |schedules| && schedules[k].day == selectedDay && schedules[k].room in allRooms
            ensures schedules[k].start < schedules[k].end
          {
            assert schedules[k] in daySchedules;
          }
        }
        var resultData := BuildRows(schedules, selectedDay, allRooms, roomTrees);
        return Success(resultData);
    }
  }

  // ---------------------------------------------------------------------------------------------
  // Properties of the table.

  /** The rows of the table, one by one. */
  lemma TableRow(schedules: seq<Record>, day: char, rooms: seq<string>, s: nat)
    requires s < SlotCount
    ensures |Table(schedules, day, rooms)| == SlotCount
    ensures Table(schedules, day, rooms)[s] == SlotRow(schedules, day, rooms, FirstHour + s)
    ensures Table(schedules, day, rooms)[s].slot == Label(FirstHour + s)
    ensures |Table(schedules, day, rooms)[s].entries| == |rooms|
  {
  }

  /** The cells of the table, one by one. */
  lemma TableAt(schedules: seq<Record>, day: char, rooms: seq<string>, s: nat, c: nat)
    requires s < SlotCount && c < |rooms|
    ensures |Table(schedules, day, rooms)| == SlotCount && |Table(schedules, day, rooms)[s].entries| == |rooms|
    ensures Table(schedules, day, rooms)[s].entries[c] == Entry(rooms[c], StatusAt(schedules, day, rooms[c], FirstHour + s))
  {
    TableRow(schedules, day, rooms, s);
  }

  /**
   * What `calculate_empty_times` promises: it fails exactly when a record of the day for a listed room
   * has start >= end; otherwise thirteen rows labelled from 09:00, each with one entry per room in
   * the given order, and an entry is Impossible exactly when a record of that room on that day
   * overlaps the half-open hour.
   */
  lemma EmptyTimesMeaning(schedules: seq<Record>, day: char, rooms: seq<string>)
    ensures EmptyTimes(schedules, day, rooms).Failure? <==>
              exists k :: 0 <= k < |schedules| && schedules[k].day == day
                          && schedules[k].room in rooms && schedules[k].start >= schedules[k].end
    ensures EmptyTimes(schedules, day, rooms).Success? ==>
              var t := EmptyTimes(schedules, day, rooms).value;
              |t| == SlotCount
              && forall s :: 0 <= s < SlotCount ==>
                   t[s].slot == Label(FirstHour + s) && |t[s].entries| == |rooms|
                   && forall c :: 0 <= c < |rooms| ==>
                        t[s].entries[c].room == rooms[c]
                        && (t[s].entries[c].status == Impossible
                            <==> (exists k :: 0 <= k < |schedules| && schedules[k].day == day
                                   && schedules[k].room == rooms[c]
                                   && schedules[k].start < (FirstHour + s + 1) * 60
                                   && (FirstHour + s) * 60 < schedules[k].end))
  {
    var t := Table(schedules, day, rooms);
    forall s | 0 <= s < SlotCount ensures t[s].slot == Label(FirstHour + s) && |t[s].entries| == |rooms| {
      TableRow(schedules, day, rooms, s);
    }
    forall s, c | 0 <= s < SlotCount && 0 <= c < |rooms|
      ensures t[s].entries[c] == Entry(rooms[c], StatusAt(schedules, day, rooms[c], FirstHour + s))
    {
      TableAt(schedules, day, rooms, s, c);
    }
  }

  /** Only the selected day's records count: lists with the same records for that day give the same answer. */
  lemma OnlyTheDayCounts(s: seq<Record>, t: seq<Record>, day: char, rooms: seq<string>)
    requires OnDay(s, day) == OnDay(t, day)
    ensures EmptyTimes(s, day, rooms) == EmptyTimes(t, day, rooms)
  {
    if HasNullInterval(s, day, rooms) {
      NullIntervalOnDay(s, t, day, rooms);
    }
    if HasNullInterval(t, day, rooms) {
      NullIntervalOnDay(t, s, day, rooms);
    }
    var a, b := Table(s, day, rooms), Table(t, day, rooms);
    forall i | 0 <= i < SlotCount ensures a[i] == b[i] {
      TableRow(s, day, rooms, i);
      TableRow(t, day, rooms, i);
      forall c | 0 <= c < |rooms| ensures a[i].entries[c] == b[i].entries[c] {
        TableAt(s, day, rooms, i, c);
        TableAt(t, day, rooms, i, c);
        OccupiedOnDay(s, day, rooms[c], FirstHour + i);
        OccupiedOnDay(t, day, rooms[c], FirstHour + i);
      }
      assert a[i].entries == b[i].entries;
    }
    TableRow(s, day, rooms, 0);
    TableRow(t, day, rooms, 0);
    assert a == b;
  }

  lemma NullIntervalOnDay(s: seq<Record>, t: seq<Record>, day: char, rooms: seq<string>)
    requires OnDay(s, day) == OnDay(t, day)
    requires HasNullInterval(s, day, rooms)
    ensures HasNullInterval(t, day, rooms)
  {
    var k :| 0 <= k < |s| && s[k].day == day && s[k].room in rooms && s[k].start >= s[k].end;
    assert s[k] in OnDay(t, day);
    NullIntervalOfDay(t, day, rooms, s[k]);
  }

  /** A slot is occupied exactly when some record kept by the day filter overlaps it. */
  lemma OccupiedOnDay(s: seq<Record>, day: char, room: string, hour: nat)
    ensures Occupied(s, day, room, hour) <==>
            exists x :: x in OnDay(s, day) && x.room == room && x.start < (hour + 1) * 60 && hour * 60 < x.end
  {
    if Occupied(s, day, room, hour) {
      var k :| 0 <= k < |s| && s[k].day == day && s[k].room == room
               && s[k].start < (hour + 1) * 60 && hour * 60 < s[k].end;
      assert s[k] in OnDay(s, day);
    }
    if x :| x in OnDay(s, day) && x.room == room && x.start < (hour + 1) * 60 && hour * 60 < x.end {
      var k :| 0 <= k < |s| && s[k] == x;
    }
  }

  /** Records of other days change nothing, wherever they stand in the list. */
  lemma OtherDaysIgnored(s: seq<Record>, other: seq<Record>, day: char, rooms: seq<string>)
    requires forall k :: 0 <= k < |other| ==> other[k].day != day
    ensures EmptyTimes(s + other, day, rooms) == EmptyTimes(s, day, rooms)
    ensures EmptyTimes(other + s, day, rooms) == EmptyTimes(s, day, rooms)
  {
    OnDayAppend(s, other, day);
    OnDayAppend(other, s, day);
    OnDayNone(other, day);
    assert OnDay(s, day) + [] == OnDay(s, day) && [] + OnDay(s, day) == OnDay(s, day);
    OnlyTheDayCounts(s + other, s, day, rooms);
    OnlyTheDayCounts(other + s, s, day, rooms);
  }

  lemma {:induction false} OnDayAppend(a: seq<Record>, b: seq<Record>, day: char)
    ensures OnDay(a + b, day) == OnDay(a, day) + OnDay(b, day)
  {
    if a == [] {
      assert a + b == b;
    } else {
      assert (a + b)[0] == a[0] && (a + b)[1..] == a[1..] + b;
      OnDayAppend(a[1..], b, day);
    }
  }

  lemma {:induction false} OnDayNone(a: seq<Record>, day: char)
    requires forall k :: 0 <= k < |a| ==> a[k].day != day
    ensures OnDay(a, day) == []
  {
    if a != [] {
      OnDayNone(a[1..], day);
    }
  }

  /** With no record on the selected day the table is full and every cell is Possible. */
  lemma NoClassesThatDay(s: seq<Record>, day: char, rooms: seq<string>)
    requires forall k :: 0 <= k < |s| ==> s[k].day != day
    ensures EmptyTimes(s, day, rooms).Success?
    ensures |EmptyTimes(s, day, rooms).value| == SlotCount
    ensures forall i, c :: 0 <= i < SlotCount && 0 <= c < |rooms| ==>
              |EmptyTimes(s, day, rooms).value[i].entries| == |rooms|
              && EmptyTimes(s, day, rooms).value[i].entries[c] == Entry(rooms[c], Possible)
  {
    forall i | 0 <= i < SlotCount ensures |Table(s, day, rooms)[i].entries| == |rooms| {
      TableRow(s, day, rooms, i);
    }
    forall i, c | 0 <= i < SlotCount && 0 <= c < |rooms|
      ensures Table(s, day, rooms)[i].entries[c] == Entry(rooms[c], Possible)
    {
      TableAt(s, day, rooms, i, c);
    }
  }

  /**
   * A record that ends when a slot begins, or begins when it ends, leaves that slot as it was:
   * the intervals are half-open.
   */
  lemma TouchingRecordDoesNotBlock(s: seq<Record>, x: Record, day: char, room: string, hour: nat)
    requires x.end <= hour * 60 || (hour + 1) * 60 <= x.start
    ensures Occupied(s + [x], day, room, hour) == Occupied(s, day, room, hour)
  {
    if Occupied(s + [x], day, room, hour) {
      var k :| 0 <= k < |s + [x]| && (s + [x])[k].day == day && (s + [x])[k].room == room
               && (s + [x])[k].start < (hour + 1) * 60 && hour * 60 < (s + [x])[k].end;
      assert k < |s| && (s + [x])[k] == s[k];
    }
    if Occupied(s, day, room, hour) {
      var k :| 0 <= k < |s| && s[k].day == day && s[k].room == room
               && s[k].start < (hour + 1) * 60 && hour * 60 < s[k].end;
      assert (s + [x])[k] == s[k];
    }
  }

  /** The rows are labelled "09:00" first and "21:00" last. */
  lemma SlotLabels(s: seq<Record>, day: char, rooms: seq<string>)
    ensures Table(s, day, rooms)[0].slot == "09:00"
    ensures Table(s, day, rooms)[SlotCount - 1].slot == "21:00"
  {
    TableRow(s, day, rooms, 0);
    TableRow(s, day, rooms, SlotCount - 1);
    assert TwoDigits(9) == "09" && TwoDigits(21) == "21";
  }

  /**
   * Monday 09:00-10:30 in Y1234, rooms Y1234 and Y5678: Y1234 is taken at 09:00 and 10:00 and free
   * at 11:00; Y5678 is free all day.
   */
  lemma MondayTable(s: seq<Record>)
    requires s == [Record('월', 540, 630, "Y1234")]
    ensures EmptyTimes(s, '월', ["Y1234", "Y5678"]).Success?
    ensures var t := EmptyTimes(s, '월', ["Y1234", "Y5678"]).value;
            |t| == SlotCount && (forall i :: 0 <= i < SlotCount ==> |t[i].entries| == 2)
            && t[0].entries[0].status == Impossible && t[1].entries[0].status == Impossible
            && t[2].entries[0].status == Possible
            && forall i :: 0 <= i < SlotCount ==> t[i].entries[1] == Entry("Y5678", Possible)
  {
    var rooms := ["Y1234", "Y5678"];
    assert !HasNullInterval(s, '월', rooms);
    assert s[0].day == '월' && s[0].room == "Y1234" && s[0].start == 540 && s[0].end == 630;
    assert Occupied(s, '월', "Y1234", 9) && Occupied(s, '월', "Y1234", 10);
    assert "Y1234" != "Y5678";
    assert !Occupied(s, '월', "Y1234", 11);
    var t := Table(s, '월', rooms);
    forall i | 0 <= i < SlotCount ensures |t[i].entries| == 2 {
      TableRow(s, '월', rooms, i);
    }
    forall i | 0 <= i < SlotCount ensures t[i].entries[1] == Entry("Y5678", Possible) {
      TableAt(s, '월', rooms, i, 1);
    }
    TableAt(s, '월', rooms, 0, 0);
    TableAt(s, '월', rooms, 1, 0);
    TableAt(s, '월', rooms, 2, 0);
  }
}
