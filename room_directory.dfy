/**
 * The room directory of empty_lecture_room.py (`get_all_rooms`): the distinct room codes of all
 * records, whatever their day, in Python's string order.
 */
module RoomDirectory {
  import opened ScheduleParser

  /** Python's `a < b` on `str`: code-point order, character by character; a proper prefix is smaller. */
  predicate Less(a: string, b: string) {
    |b| > 0 && (|a| == 0 || a[0] < b[0] || (a[0] == b[0] && Less(a[1..], b[1..])))
  }

  lemma {:induction false} LessIrreflexive(a: string)
    ensures !Less(a, a)
  {
    if |a| > 0 {
      LessIrreflexive(a[1..]);
    }
  }

  lemma {:induction false} LessTransitive(a: string, b: string, c: string)
    requires Less(a, b) && Less(b, c)
    ensures Less(a, c)
  {
    if |a| > 0 && a[0] == b[0] && b[0] == c[0] {
      LessTransitive(a[1..], b[1..], c[1..]);
    }
  }

  /** Any two different strings are ordered one way or the other. */
  lemma {:induction false} LessTotal(a: string, b: string)
    requires a != b
    ensures Less(a, b) || Less(b, a)
  {
    if |a| > 0 && |b| > 0 && a[0] == b[0] {
      assert a == [a[0]] + a[1..] && b == [b[0]] + b[1..];
      LessTotal(a[1..], b[1..]);
    }
  }

  lemma LessAsymmetric(a: string, b: string)
    requires Less(a, b)
    ensures !Less(b, a)
  {
    if Less(b, a) {
      LessTransitive(a, b, a);
      LessIrreflexive(a);
    }
  }

  /** Sorted with no repeats: every element is smaller than every later one. */
  predicate StrictlyAscending(s: seq<string>) {
    forall i, j :: 0 <= i < j < |s| ==> Less(s[i], s[j])
  }

  /** The room codes named by the records, whatever their day. */
  function RoomsOf(records: seq<Record>): set<string> {
    set r | r in records :: r.room
  }

  /** Puts `x` into its place in an ascending sequence that does not hold it yet. */
  function Insert(s: seq<string>, x: string): (r: seq<string>)
    requires StrictlyAscending(s) && x !in s
    ensures StrictlyAscending(r)
    ensures forall y :: y in r <==> y in s || y == x
  {
    if s == [] then [x]
    else if Less(x, s[0]) then
      assert forall j :: 0 <= j < |s| ==> Less(x, s[j]) by {
        forall j | 0 < j < |s| ensures Less(x, s[j]) {
          LessTransitive(x, s[0], s[j]);
        }
      }
      [x] + s
    else
      var rest := Insert(s[1..], x);
      assert Less(s[0], x) by {
        LessTotal(s[0], x);
      }
      assert forall j :: 0 <= j < |rest| ==> Less(s[0], rest[j]) by {
        forall j | 0 <= j < |rest| ensures Less(s[0], rest[j]) {
          assert rest[j] in s[1..] || rest[j] == x;
        }
      }
      [s[0]] + rest
  }

  /** `sorted(list(all_rooms))`: the elements of a set in ascending order. */
  method SortRooms(rooms: set<string>) returns (sorted: seq<string>)
    ensures StrictlyAscending(sorted)
    ensures forall x :: x in sorted <==> x in rooms
  {
    sorted := [];
    var rest := rooms;
    while rest != {}
      invariant rest <= rooms
      invariant StrictlyAscending(sorted)
      invariant forall x :: x in sorted <==> x in rooms && x !in rest
      decreases |rest|
    {
      var x :| x in rest;
      sorted := Insert(sorted, x);
      rest := rest - {x};
    }
  }

  /** `get_all_rooms`: collect the room of every record into a set, then sort it. */
  method AllRooms(schedules: seq<Record>) returns (rooms: seq<string>)
    ensures StrictlyAscending(rooms)
    ensures forall x :: x in rooms <==> x in RoomsOf(schedules)
  {
    var seen: set<string> := {};
    for k := 0 to |schedules|
      invariant seen == RoomsOf(schedules[..k])
    {
      seen := seen + {schedules[k].room};
      assert schedules[..k + 1] == schedules[..k] + [schedules[k]];
    }
    assert schedules[..|schedules|] == schedules;
    rooms := SortRooms(seen);
  }

  /**
   * Only one ascending sequence has a given set of elements, so the room order does not depend on
   * the order of the records.
   */
  lemma {:induction false} AscendingUnique(a: seq<string>, b: seq<string>)
    requires StrictlyAscending(a) && StrictlyAscending(b)
    requires forall x :: x in a <==> x in b
    ensures a == b
  {
    assert a != [] ==> a[0] in b;
    assert b != [] ==> b[0] in a;
    if a != [] && b != [] {
      var i :| 0 <= i < |b| && b[i] == a[0];
      var j :| 0 <= j < |a| && a[j] == b[0];
      if i > 0 && j > 0 {
        LessAsymmetric(b[0], a[0]);
      }
      assert a[0] == b[0];
      forall x
        ensures x in a[1..] <==> x in b[1..]
      {
        if x in a[1..] {
          var k :| 1 <= k < |a| && a[k] == x;
          LessIrreflexive(a[0]);
          assert x in b;
        }
        if x in b[1..] {
          var k :| 1 <= k < |b| && b[k] == x;
          LessIrreflexive(b[0]);
          assert x in a;
        }
      }
      AscendingUnique(a[1..], b[1..]);
      assert a == [a[0]] + a[1..] && b == [b[0]] + b[1..];
    }
  }

  /** The directory is the same whatever the order of the records it is built from. */
  lemma DirectoryIgnoresOrder(s: seq<Record>, t: seq<Record>, a: seq<string>, b: seq<string>)
    requires multiset(s) == multiset(t)
    requires StrictlyAscending(a) && (forall x :: x in a <==> x in RoomsOf(s))
    requires StrictlyAscending(b) && (forall x :: x in b <==> x in RoomsOf(t))
    ensures a == b
  {
    forall r ensures r in s <==> r in t {
      assert r in s <==> r in multiset(s);
      assert r in t <==> r in multiset(t);
    }
    assert RoomsOf(s) == RoomsOf(t);
    AscendingUnique(a, b);
  }
}
