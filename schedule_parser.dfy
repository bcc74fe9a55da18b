/**
 * The cell parser of empty_lecture_room.py (`extract_schedule_info`): one timetable cell such as
 * "월09:00-10:30 (Y1234)" becomes a record of weekday, start and end (minutes since midnight) and
 * room code; anything else is "no record".
 */
module ScheduleParser {
  import opened Wrappers
  import opened Digits

  /**
   * A spreadsheet cell as pandas hands it over: a string, or any other value (a number, a date, a
   * time, a boolean), which the parser never reads. A missing (NaN) cell is `None` one level up.
   */
  datatype Value = Text(text: string) | Other

  /** One parsed timetable entry; `start` and `end` are minutes since midnight. */
  datatype Record = Record(day: char, start: nat, end: nat, room: string)

  /** The weekday characters the pattern accepts, Monday to Sunday. */
  const Days: set<char> := {'월', '화', '수', '목', '금', '토', '일'}

  /** The characters Python's `str.strip()` removes (those for which `str.isspace()` holds). */
  predicate IsSpace(c: char) {
    || '\t' <= c <= '\r'
    || '\U{1C}' <= c <= ' '
    || c == '\U{85}' || c == '\U{A0}' || c == '\U{1680}'
    || '\U{2000}' <= c <= '\U{200A}'
    || c == '\U{2028}' || c == '\U{2029}' || c == '\U{202F}' || c == '\U{205F}' || c == '\U{3000}'
  }

  predicate AllSpace(s: string) {
    forall k :: 0 <= k < |s| ==> IsSpace(s[k])
  }

  /** No whitespace at either end. */
  predicate Trimmed(s: string) {
    s == [] || (!IsSpace(s[0]) && !IsSpace(s[|s| - 1]))
  }

  /** Drops leading whitespace. */
  function TrimStart(s: string): (r: string)
    ensures |r| <= |s| && r == s[|s| - |r|..]
    ensures r == [] || !IsSpace(r[0])
  {
    if s != [] && IsSpace(s[0]) then TrimStart(s[1..]) else s
  }

  /** Drops trailing whitespace. */
  function TrimEnd(s: string): (r: string)
    ensures |r| <= |s| && r == s[..|r|]
    ensures r == [] || !IsSpace(r[|r| - 1])
  {
    if s != [] && IsSpace(s[|s| - 1]) then TrimEnd(s[..|s| - 1]) else s
  }

  /** What TrimStart drops is whitespace. */
  lemma {:induction false} TrimStartDropsSpace(s: string)
    ensures AllSpace(s[..|s| - |TrimStart(s)|])
  {
    if s != [] && IsSpace(s[0]) {
      var r := TrimStart(s[1..]);
      TrimStartDropsSpace(s[1..]);
      assert s[..|s| - |r|] == [s[0]] + s[1..][..|s| - 1 - |r|];
    }
  }

  /** What TrimEnd drops is whitespace. */
  lemma {:induction false} TrimEndDropsSpace(s: string)
    ensures AllSpace(s[|TrimEnd(s)|..])
  {
    if s != [] && IsSpace(s[|s| - 1]) {
      var p := s[..|s| - 1];
      TrimEndDropsSpace(p);
      assert s[|TrimEnd(p)|..] == p[|TrimEnd(p)|..] + [s[|s| - 1]];
    }
  }

  /** Python's `str.strip()`. */
  function Strip(s: string): (r: string)
    ensures Trimmed(r)
  {
    TrimEnd(TrimStart(s))
  }

  /** `s` is the result of Strip padded with whitespace on both sides. */
  lemma StripDropsPadding(s: string)
    ensures exists i, j :: 0 <= i <= j <= |s| && Strip(s) == s[i..j] && AllSpace(s[..i]) && AllSpace(s[j..])
  {
    var t := TrimStart(s);
    var r := TrimEnd(t);
    var i := |s| - |t|;
    TrimStartDropsSpace(s);
    TrimEndDropsSpace(t);
    assert t == s[i..];
    assert r == s[i..i + |r|] by {
      assert r == t[..|r|];
    }
    assert s[i + |r|..] == t[|r|..];
  }

  /** `HH:MM` in ASCII digits at position `k` of `t`. */
  predicate IsClockAt(t: string, k: nat) {
    k + 5 <= |t| && IsDigit(t[k]) && IsDigit(t[k + 1]) && t[k + 2] == ':' && IsDigit(t[k + 3]) && IsDigit(t[k + 4])
  }

  /** `int(hh) * 60 + int(mm)` of the clock at position `k`; nothing checks hh < 24 or mm < 60. */
  function ClockMinutesAt(t: string, k: nat): nat
    requires IsClockAt(t, k)
  {
    (10 * DigitValue(t[k]) + DigitValue(t[k + 1])) * 60 + 10 * DigitValue(t[k + 3]) + DigitValue(t[k + 4])
  }

  /** `Y` followed by four ASCII digits. */
  predicate IsRoomCode(s: string) {
    |s| == 5 && s[0] == 'Y' && IsDigit(s[1]) && IsDigit(s[2]) && IsDigit(s[3]) && IsDigit(s[4])
  }

  /** Length of the one shape the pattern matches: day, HH:MM, '-', HH:MM, " (", Y dddd, ')'. */
  const CellLength := 20

  /**
   * The anchored pattern `^(day)(HH:MM)-(HH:MM) \((Ydddd)\)$` on an already stripped text. Every
   * part has a fixed width, so a match is a check of each position.
   */
  function Match(t: string): (r: Option<Record>)
    ensures r.Some? ==> |t| == CellLength && r.value.day in Days && IsRoomCode(r.value.room)
  {
    if |t| == CellLength && t[0] in Days && IsClockAt(t, 1) && t[6] == '-' && IsClockAt(t, 7)
       && t[12] == ' ' && t[13] == '(' && IsRoomCode(t[14..19]) && t[19] == ')'
    then Some(Record(t[0], ClockMinutesAt(t, 1), ClockMinutesAt(t, 7), t[14..19]))
    else None
  }

  /** `extract_schedule_info`: missing and non-text values give no record; text is stripped first. */
  function Parse(v: Option<Value>): (r: Option<Record>)
    ensures (v.None? || v.value.Other?) ==> r.None?
  {
    match v
    case Some(Text(s)) => Match(Strip(s))
    case _ => None
  }

  // ---------------------------------------------------------------------------------------------
  // The cells the parser accepts, as the fields written into them.

  /** What a timetable cell spells out: weekday, two clock times and the room number. */
  datatype CellFields = CellFields(day: char, startHour: nat, startMinute: nat,
                                   endHour: nat, endMinute: nat, roomDigits: string)

  /** Fields that fit the pattern: two digits per clock part, four digits for the room. */
  predicate WellFormed(f: CellFields) {
    f.day in Days && f.startHour < 100 && f.startMinute < 100 && f.endHour < 100 && f.endMinute < 100
    && IsRoomCode(RoomCode(f.roomDigits))
  }

  /** The room code: "Y" and the room's digits, kept as text. */
  function RoomCode(digits: string): string {
    ['Y'] + digits
  }

  /** The cell text for the fields, e.g. "월09:00-10:30 (Y1234)". */
  function Render(f: CellFields): (t: string)
    requires WellFormed(f)
    ensures |t| == CellLength
  {
    var sh, sm, eh, em := TwoDigits(f.startHour), TwoDigits(f.startMinute), TwoDigits(f.endHour), TwoDigits(f.endMinute);
    [f.day, sh[0], sh[1], ':', sm[0], sm[1], '-', eh[0], eh[1], ':', em[0], em[1], ' ', '(']
    + RoomCode(f.roomDigits) + [')']
  }

  /** The record the source builds from those fields. */
  function RecordOf(f: CellFields): Record
    requires WellFormed(f)
  {
    Record(f.day, f.startHour * 60 + f.startMinute, f.endHour * 60 + f.endMinute, RoomCode(f.roomDigits))
  }

  /** Reads the fields back out of a text the pattern accepts. */
  function FieldsOf(t: string): (f: CellFields)
    requires Match(t).Some?
    ensures WellFormed(f)
  {
    CellFields(t[0], TwoDigitValue(t[1..3]), TwoDigitValue(t[4..6]), TwoDigitValue(t[7..9]),
               TwoDigitValue(t[10..12]), t[15..19])
  }

  // ---------------------------------------------------------------------------------------------
  // Properties of the parser.

  /** Every well-formed cell text is accepted, with start = 60*HH + MM and end = 60*HH' + MM'. */
  lemma MatchRender(f: CellFields)
    requires WellFormed(f)
    ensures Match(Render(f)) == Some(RecordOf(f))
  {
    var t := Render(f);
    assert t[14..19] == RoomCode(f.roomDigits);
  }

  /** Every text the pattern accepts is the rendering of its own fields, and parses to their record. */
  lemma MatchOnlyRendered(t: string)
    requires Match(t).Some?
    ensures Render(FieldsOf(t)) == t && Match(t) == Some(RecordOf(FieldsOf(t)))
  {
    var f := FieldsOf(t);
    TwoDigitsOfValue(t[1..3]);
    TwoDigitsOfValue(t[4..6]);
    TwoDigitsOfValue(t[7..9]);
    TwoDigitsOfValue(t[10..12]);
    assert RoomCode(t[15..19]) == t[14..19];
    var r := Render(f);
    assert forall k :: 0 <= k < CellLength ==> r[k] == t[k];
  }

  /** The pattern accepts a stripped text exactly when it is a rendering of well-formed fields. */
  lemma MatchIffRendered(t: string)
    ensures Match(t).Some? <==> exists f :: WellFormed(f) && Render(f) == t
  {
    if Match(t).Some? {
      MatchOnlyRendered(t);
    }
    if exists f :: WellFormed(f) && Render(f) == t {
      var f :| WellFormed(f) && Render(f) == t;
      MatchRender(f);
    }
  }

  /**
   * Different fields render to different cell texts. (Different texts may still give the same
   * record, since minutes are not range-checked: see MinuteNotChecked.)
   */
  lemma RenderInjective(f: CellFields, g: CellFields)
    requires WellFormed(f) && WellFormed(g) && Render(f) == Render(g)
    ensures f == g
  {
    var t := Render(f);
    MatchRender(f);
    TwoDigitsRoundTrip(f.startHour);
    TwoDigitsRoundTrip(g.startHour);
    TwoDigitsRoundTrip(f.startMinute);
    TwoDigitsRoundTrip(g.startMinute);
    TwoDigitsRoundTrip(f.endHour);
    TwoDigitsRoundTrip(g.endHour);
    TwoDigitsRoundTrip(f.endMinute);
    TwoDigitsRoundTrip(g.endMinute);
    assert RoomCode(f.roomDigits) == t[14..19] == RoomCode(g.roomDigits);
    assert f.roomDigits == RoomCode(f.roomDigits)[1..] == RoomCode(g.roomDigits)[1..] == g.roomDigits;
  }

  lemma {:induction false} TrimStartPadded(w: string, x: string)
    requires AllSpace(w)
    ensures TrimStart(w + x) == TrimStart(x)
  {
    if w != [] {
      assert (w + x)[0] == w[0] && (w + x)[1..] == w[1..] + x;
      TrimStartPadded(w[1..], x);
    } else {
      assert w + x == x;
    }
  }

  lemma {:induction false} TrimEndPadded(x: string, w: string)
    requires AllSpace(w)
    ensures TrimEnd(x + w) == TrimEnd(x)
  {
    if w != [] {
      assert (x + w)[|x + w| - 1] == w[|w| - 1] && (x + w)[..|x + w| - 1] == x + w[..|w| - 1];
      TrimEndPadded(x, w[..|w| - 1]);
    } else {
      assert x + w == x;
    }
  }

  /** Stripping removes exactly the surrounding whitespace. */
  lemma StripPadded(w1: string, t: string, w2: string)
    requires AllSpace(w1) && AllSpace(w2) && Trimmed(t)
    ensures Strip(w1 + t + w2) == t
  {
    if t == [] {
      assert w1 + t + w2 + [] == w1 + w2 + [];
      TrimStartPadded(w1 + w2, []);
    } else {
      var x := t + w2;
      assert w1 + t + w2 == w1 + x;
      TrimStartPadded(w1, x);
      assert x[0] == t[0];
      assert TrimStart(x) == x;
      TrimEndPadded(t, w2);
      assert TrimEnd(t) == t;
    }
  }

  /** A text without surrounding whitespace goes to the pattern as it is. */
  lemma ParseTrimmed(s: string)
    requires Trimmed(s)
    ensures Parse(Some(Text(s))) == Match(s)
  {
    assert TrimStart(s) == s;
  }

  /** Whitespace around a well-formed cell does not change the record. */
  lemma ParsePadded(w1: string, f: CellFields, w2: string)
    requires AllSpace(w1) && AllSpace(w2) && WellFormed(f)
    ensures Parse(Some(Text(w1 + Render(f) + w2))) == Some(RecordOf(f))
  {
    assert Render(f)[0] == f.day && Render(f)[CellLength - 1] == ')';
    StripPadded(w1, Render(f), w2);
    MatchRender(f);
  }

  /** A record's times stay below 100 hours (not below 24 hours: the hour is not checked). */
  lemma ParsedBounds(v: Option<Value>)
    requires Parse(v).Some?
    ensures Parse(v).value.start <= 99 * 60 + 99 && Parse(v).value.end <= 99 * 60 + 99
  {
  }

  /** A stripped text with every part of the pattern in place parses to the record those parts spell. */
  lemma CellParses(s: string, start: nat, end: nat, room: string)
    requires |s| == CellLength && s[0] in Days && IsClockAt(s, 1) && s[6] == '-' && IsClockAt(s, 7)
    requires s[12] == ' ' && s[13] == '(' && s[14..19] == room && IsRoomCode(room) && s[19] == ')'
    requires ClockMinutesAt(s, 1) == start && ClockMinutesAt(s, 7) == end
    ensures Parse(Some(Text(s))) == Some(Record(s[0], start, end, room))
  {
    ParseTrimmed(s);
  }

  /** The cell "월09:00-10:30 (Y1234)" gives Monday 540..630 in room Y1234. */
  lemma MondayCell()
    ensures Parse(Some(Text("월09:00-10:30 (Y1234)"))) == Some(Record('월', 540, 630, "Y1234"))
  {
    var s := "월09:00-10:30 (Y1234)";
    assert IsClockAt(s, 1) && IsClockAt(s, 7) && s[14..19] == "Y1234";
    CellParses(s, 540, 630, "Y1234");
  }

  /** The same cell without its room gives no record. */
  lemma CellWithoutRoom()
    ensures Parse(Some(Text("월09:00-10:30"))) == None
  {
  }

  /** An hour of 25 is read as it stands: nothing keeps the minutes below 24 * 60. */
  lemma HourNotChecked()
    ensures Parse(Some(Text("일25:00-26:30 (Y0001)"))) == Some(Record('일', 1500, 1590, "Y0001"))
  {
    var s := "일25:00-26:30 (Y0001)";
    assert IsClockAt(s, 1) && IsClockAt(s, 7) && s[14..19] == "Y0001";
    CellParses(s, 1500, 1590, "Y0001");
  }

  /** "09:60" is read as 9 * 60 + 60 minutes. */
  lemma MinuteSixtyCell()
    ensures Parse(Some(Text("월09:60-10:30 (Y1234)"))) == Some(Record('월', 600, 630, "Y1234"))
  {
    var s := "월09:60-10:30 (Y1234)";
    assert IsClockAt(s, 1) && IsClockAt(s, 7) && s[14..19] == "Y1234";
    CellParses(s, 600, 630, "Y1234");
  }

  /** "10:00" is read as 10 * 60 minutes. */
  lemma TenOClockCell()
    ensures Parse(Some(Text("월10:00-10:30 (Y1234)"))) == Some(Record('월', 600, 630, "Y1234"))
  {
    var s := "월10:00-10:30 (Y1234)";
    assert IsClockAt(s, 1) && IsClockAt(s, 7) && s[14..19] == "Y1234";
    CellParses(s, 600, 630, "Y1234");
  }

  /**
   * Minutes up to 99 are read as they stand, so "09:60" is 10:00 and two different cells give the
   * same record.
   */
  lemma MinuteNotChecked()
    ensures "월09:60-10:30 (Y1234)" != "월10:00-10:30 (Y1234)"
    ensures Parse(Some(Text("월09:60-10:30 (Y1234)"))) == Parse(Some(Text("월10:00-10:30 (Y1234)")))
  {
    assert "월09:60-10:30 (Y1234)"[1] != "월10:00-10:30 (Y1234)"[1];
    MinuteSixtyCell();
    TenOClockCell();
  }
}
