/**
 * `activeTime` (src/funcs.js:17-69) as the program runs it: push the point
 * records, sort them, then walk them updating `activeEventIds`,
 * `withinTime`, `lastTime` and `activeTime`. The result is the millisecond
 * total; its conversion to a decimal string of hours is floating-point and
 * only the final trimming of that string is modelled (TrimHours).
 */
module ActiveTime {
  import opened Wrappers
  import opened Events
  import opened TimePoints
  import opened Sweep
  import opened Coverage

  method ActiveTime(events: seq<Event>, starts: int, ends: int) returns (activeTime: int)
    ensures activeTime == ActiveTimeTotal(events, starts, ends)
    ensures activeTime >= 0
    ensures starts <= ends ==> activeTime <= ends - starts
    ensures starts <= ends && WellFormed(events) && UniqueIds(events) ==>
              activeTime == CoveredLength(events, starts, ends)
  {
    var timeEvents := [TimeStart(starts), TimeEnd(ends)];
    for i := 0 to |events|
      invariant timeEvents == Points(events[..i], starts, ends)
    {
      var event := events[i];
      assert events[..i + 1][..i] == events[..i];
      timeEvents := timeEvents + [WorkStart(event.begins, event.id)];
      timeEvents := timeEvents + [WorkEnds(event.ends, event.id)];
    }
    assert events[..|events|] == events;
    timeEvents := SortByTime(timeEvents);

    var activeEventIds: set<int> := {};
    activeTime := 0;
    var withinTime := false;
    var lastTime := 0;
    for i := 0 to |timeEvents|
      invariant SweepState(activeEventIds, withinTime, lastTime, activeTime) == Run(timeEvents[..i])
    {
      var event := timeEvents[i];
      assert timeEvents[..i + 1][..i] == timeEvents[..i];
      if withinTime && activeEventIds != {} {
        activeTime := activeTime + (event.time - lastTime);
      }
      lastTime := event.time;

      match event {
        case WorkStart(_, id) =>
          activeEventIds := activeEventIds + {id};
        case WorkEnds(_, id) =>
          if id in activeEventIds {
            activeEventIds := activeEventIds - {id};
          }
        case _ =>
      }

      if event.TimeEnd? {
        withinTime := false;
      } else if event.TimeStart? {
        withinTime := true;
      }
    }
    assert timeEvents[..|timeEvents|] == timeEvents;

    ActiveTimeNonNegative(events, starts, ends);
    if starts <= ends {
      ActiveTimeWithinWindow(events, starts, ends);
      if WellFormed(events) && UniqueIds(events) {
        ActiveTimeIsCoveredLength(events, starts, ends);
      }
    }
  }

  /**
   * Two events sharing an id are one active occupant: the first `workends`
   * of the id empties the set although the second event is still running,
   * so only 10 of the 20 covered milliseconds are counted.
   */
  lemma SharedIdUndercounts()
    ensures ActiveTimeTotal([Event(7, 0, 10, false, None), Event(7, 5, 20, false, None)], 0, 20) == 10
    ensures CoveredLength([Event(7, 0, 10, false, None), Event(7, 5, 20, false, None)], 0, 20) == 20
  {
    var events := [Event(7, 0, 10, false, None), Event(7, 5, 20, false, None)];
    assert events[..1][..0] == [];
    assert WorkPoints(events[..1]) == [WorkStart(0, 7), WorkEnds(10, 7)];
    assert Points(events, 0, 20) == SharedIdPoints();
    SharedIdSorted();
    SharedIdRun();
    forall u | 0 <= u < 20 ensures Covered(events, u) {
      if u < 10 {
        assert events[0].begins <= u < events[0].ends;
      } else {
        assert events[1].begins <= u < events[1].ends;
      }
    }
    CoveredLengthConstant(events, 0, 20, true);
  }

  function SharedIdPoints(): seq<TimePoint>
  {
    [TimeStart(0), TimeEnd(20), WorkStart(0, 7), WorkEnds(10, 7), WorkStart(5, 7), WorkEnds(20, 7)]
  }

  function SharedIdSortedPoints(): seq<TimePoint>
  {
    [TimeStart(0), WorkStart(0, 7), WorkStart(5, 7), WorkEnds(10, 7), TimeEnd(20), WorkEnds(20, 7)]
  }

  lemma SharedIdSorted()
    ensures SortByTime(SharedIdPoints()) == SharedIdSortedPoints()
  {
    SortSix(TimeStart(0), TimeEnd(20), WorkStart(0, 7), WorkEnds(10, 7), WorkStart(5, 7), WorkEnds(20, 7));
  }

  lemma SortSix(a: TimePoint, b: TimePoint, c: TimePoint, d: TimePoint, e: TimePoint, f: TimePoint)
    requires a.time <= c.time <= e.time < d.time < b.time <= f.time
    ensures SortByTime([a, b, c, d, e, f]) == [a, c, e, d, b, f]
  {
    assert [a, b, c][..2] == [a, b];
    assert [a, b, c, d][..3] == [a, b, c];
    assert [a, b, c, d, e][..4] == [a, b, c, d];
    assert [a, b, c, d, e, f][..5] == [a, b, c, d, e];
    SortByTimePair(a, b);
    SharedIdInsert3(a, b, c);
    assert SortByTime([a, b, c]) == [a, c, b];
    SharedIdInsert4(a, c, b, d);
    assert SortByTime([a, b, c, d]) == [a, c, d, b];
    SharedIdInsert5(a, c, d, b, e);
    assert SortByTime([a, b, c, d, e]) == [a, c, e, d, b];
    InsertAfterEarlier([a, c, e, d, b], f);
  }

  lemma SharedIdInsert3(a: TimePoint, b: TimePoint, x: TimePoint)
    requires a.time <= x.time < b.time
    ensures Insert([a, b], x) == [a, x, b]
  {
    assert [a, b][1..] == [b];
  }

  lemma SharedIdInsert4(a: TimePoint, b: TimePoint, c: TimePoint, x: TimePoint)
    requires a.time <= x.time && b.time <= x.time < c.time
    ensures Insert([a, b, c], x) == [a, b, x, c]
  {
    assert [a, b, c][1..] == [b, c];
    SharedIdInsert3(b, c, x);
  }

  lemma SharedIdInsert5(a: TimePoint, b: TimePoint, c: TimePoint, d: TimePoint, x: TimePoint)
    requires a.time <= x.time && b.time <= x.time < c.time <= d.time
    ensures Insert([a, b, c, d], x) == [a, b, x, c, d]
  {
    assert [a, b, c, d][1..] == [b, c, d];
    assert [b, c, d][1..] == [c, d];
    assert Insert([c, d], x) == [x, c, d];
    assert Insert([b, c, d], x) == [b] + Insert([c, d], x);
  }

  lemma SharedIdRun()
    ensures Run(SharedIdSortedPoints()).total == 10
  {
    var p := SharedIdSortedPoints();
    assert p[..1][..0] == [];
    assert p[..2][..1] == p[..1];
    assert p[..3][..2] == p[..2];
    assert p[..4][..3] == p[..3];
    assert p[..5][..4] == p[..4];
    assert p[..5] == p[..|p| - 1];
    assert Run(p[..1]) == SweepState({}, true, 0, 0);
    assert Run(p[..2]) == SweepState({7}, true, 0, 0);
    assert Run(p[..3]) == SweepState({7}, true, 5, 5);
    assert Run(p[..4]) == SweepState({}, true, 10, 10);
    assert Run(p[..5]) == SweepState({}, false, 20, 10);
  }

  /** Removes every trailing `c`, as `replace(/c+$/, '')` does. */
  function StripTrailing(s: string, c: char): (r: string)
    ensures r <= s
    ensures r == [] || r[|r| - 1] != c
    ensures forall i :: |r| <= i < |s| ==> s[i] == c
  {
    if s != [] && s[|s| - 1] == c then StripTrailing(s[..|s| - 1], c) else s
  }

  /** `.replace(/0+$/, '').replace(/\.+$/, '')` applied to the `toFixed(2)` text (src/funcs.js:67). */
  function TrimHours(fixed: string): (r: string)
    ensures r <= fixed
    ensures r == [] || r[|r| - 1] != '.'
  {
    StripTrailing(StripTrailing(fixed, '0'), '.')
  }

  /** Whole hours lose their zeros and the decimal point: "2.00" and "10.00" become "2" and "10". */
  lemma TrimHoursWholeHours(d: string)
    requires d == [] || d[|d| - 1] != '.'
    ensures TrimHours(d + ".00") == d
  {
    assert (d + ".00")[..|d| + 2] == d + ".0";
    assert (d + ".0")[..|d| + 1] == d + ".";
    assert StripTrailing(d + ".", '0') == d + ".";
    assert (d + ".")[..|d|] == d;
  }

  /** A zero in the second decimal goes: "2.50" becomes "2.5". */
  lemma TrimHoursTenths(d: string, f: char)
    requires f != '0' && f != '.'
    ensures TrimHours(d + "." + [f] + "0") == d + "." + [f]
  {
    var kept := d + "." + [f];
    assert (d + "." + [f] + "0")[..|d| + 2] == kept;
    assert kept[|kept| - 1] == f;
    assert StripTrailing(kept, '0') == kept;
  }

  /** Two significant decimals are kept: "1.25" is unchanged. */
  lemma TrimHoursHundredths(d: string, f: char, g: char)
    requires g != '0' && g != '.'
    ensures TrimHours(d + "." + [f, g]) == d + "." + [f, g]
  {
  }
}
