/**
 * The sweep of `activeTime` (src/funcs.js:17-66) as functions: the point
 * stream it builds, its sort, and the loop that walks the sorted points
 * keeping the set of active ids, the "within the window" flag, the previous
 * time and the running total (integer milliseconds).
 */
module Sweep {
  import opened Events
  import opened TimePoints

  /** The loop's four variables: `activeEventIds`, `withinTime`, `lastTime`, `activeTime`. */
  datatype SweepState = SweepState(active: set<int>, within: bool, last: int, total: int)

  const Initial: SweepState := SweepState({}, false, 0, 0)

  /** One iteration of the loop body (src/funcs.js:46-65). */
  function Step(st: SweepState, x: TimePoint): SweepState
  {
    var total := if st.within && st.active != {} then st.total + (x.time - st.last) else st.total;
    var active :=
      match x
      case WorkStart(_, id) => st.active + {id}
      case WorkEnds(_, id) => st.active - {id}
      case _ => st.active;
    var within :=
      match x
      case TimeEnd(_) => false
      case TimeStart(_) => true
      case _ => st.within;
    SweepState(active, within, x.time, total)
  }

  /** The state after walking the points `ps` in order from the initial state. */
  function Run(ps: seq<TimePoint>): SweepState
  {
    if ps == [] then Initial else Step(Run(ps[..|ps| - 1]), ps[|ps| - 1])
  }

  /** The `workstart` and `workends` points of each event, in input order (src/funcs.js:27-38). */
  function WorkPoints(events: seq<Event>): seq<TimePoint>
  {
    if events == [] then []
    else
      var e := events[|events| - 1];
      WorkPoints(events[..|events| - 1]) + [WorkStart(e.begins, e.id), WorkEnds(e.ends, e.id)]
  }

  /** The whole unsorted point stream, in push order (src/funcs.js:18-38). */
  function Points(events: seq<Event>, starts: int, ends: int): seq<TimePoint>
  {
    [TimeStart(starts), TimeEnd(ends)] + WorkPoints(events)
  }

  /** The millisecond total that `activeTime` converts to hours. */
  function ActiveTimeTotal(events: seq<Event>, starts: int, ends: int): int
  {
    Run(SortByTime(Points(events, starts, ends))).total
  }

  // ---- basic facts about the loop ----

  lemma RunLast(q: seq<TimePoint>)
    requires q != []
    ensures Run(q).last == q[|q| - 1].time
  {
  }

  /** A `workends` for an id that is not active leaves the active set as it was. */
  lemma WorkEndsOfInactiveIdIsNoOp(st: SweepState, t: int, id: int)
    requires id !in st.active
    ensures Step(st, WorkEnds(t, id)).active == st.active
    ensures Step(st, WorkEnds(t, id)).within == st.within
  {
  }

  /** A `workstart` for an id that is already active leaves the active set as it was. */
  lemma WorkStartOfActiveIdIsNoOp(st: SweepState, t: int, id: int)
    requires id in st.active
    ensures Step(st, WorkStart(t, id)).active == st.active
  {
  }

  /** On ascending points the total never decreases below zero. */
  lemma {:induction false} RunNonNegative(q: seq<TimePoint>)
    requires SortedByTime(q)
    ensures Run(q).total >= 0
    ensures Run(q).within ==> q != []
  {
    if q != [] {
      var init, x := q[..|q| - 1], q[|q| - 1];
      RunNonNegative(init);
      if Run(init).within {
        RunLast(init);
      }
    }
  }

  /**
   * While the window markers seen so far are a prefix of `timestart`,
   * `timeend`, the total is zero before `timestart`, at most the time elapsed
   * since `starts` between the two, and at most `ends - starts` after `timeend`.
   */
  lemma {:induction false} RunWindowBound(q: seq<TimePoint>, starts: int, ends: int)
    requires SortedByTime(q)
    requires Filter(q, IsMarker) <= [TimeStart(starts), TimeEnd(ends)]
    ensures Filter(q, IsMarker) == [] ==> !Run(q).within && Run(q).total == 0
    ensures Filter(q, IsMarker) == [TimeStart(starts)] ==>
              Run(q).within && q != [] && starts <= Run(q).last && Run(q).total <= Run(q).last - starts
    ensures Filter(q, IsMarker) == [TimeStart(starts), TimeEnd(ends)] ==>
              !Run(q).within && Run(q).total <= ends - starts
  {
    if q != [] {
      var init, x := q[..|q| - 1], q[|q| - 1];
      var m := Filter(init, IsMarker);
      assert Filter(q, IsMarker) == m + (if IsMarker(x) then [x] else []);
      assert m <= Filter(q, IsMarker);
      RunWindowBound(init, starts, ends);
      RunLast(q);
      if init != [] {
        RunLast(init);
      }
      if m == [TimeStart(starts)] && IsMarker(x) {
        assert Filter(q, IsMarker)[1] == x;
      } else if m == [] && IsMarker(x) {
        assert Filter(q, IsMarker)[0] == x;
      }
    }
  }

  // ---- the window markers after the sort ----

  lemma {:induction false} WorkPointsHaveNoMarkers(events: seq<Event>)
    ensures Filter(WorkPoints(events), IsMarker) == []
  {
    if events != [] {
      var init, e := events[..|events| - 1], events[|events| - 1];
      WorkPointsHaveNoMarkers(init);
      FilterAppend(WorkPoints(init), [WorkStart(e.begins, e.id), WorkEnds(e.ends, e.id)], IsMarker);
      FilterPair(WorkStart(e.begins, e.id), WorkEnds(e.ends, e.id), IsMarker);
    }
  }

  /**
   * After the stable sort, `timestart` comes before `timeend` unless the
   * window ends strictly before it starts; for `starts == ends` this is the
   * push order that the stable sort keeps.
   */
  lemma SortedWindowMarkers(events: seq<Event>, starts: int, ends: int)
    ensures Filter(SortByTime(Points(events, starts, ends)), IsMarker)
         == if ends < starts then [TimeEnd(ends), TimeStart(starts)] else [TimeStart(starts), TimeEnd(ends)]
  {
    var head := [TimeStart(starts), TimeEnd(ends)];
    FilterSortByTime(Points(events, starts, ends), IsMarker);
    FilterAppend(head, WorkPoints(events), IsMarker);
    WorkPointsHaveNoMarkers(events);
    FilterPair(TimeStart(starts), TimeEnd(ends), IsMarker);
    SortByTimePair(TimeStart(starts), TimeEnd(ends));
  }

  // ---- properties of activeTime ----

  /** The total is never negative, whatever the events and the window. */
  lemma ActiveTimeNonNegative(events: seq<Event>, starts: int, ends: int)
    ensures ActiveTimeTotal(events, starts, ends) >= 0
  {
    SortByTimeSorted(Points(events, starts, ends));
    RunNonNegative(SortByTime(Points(events, starts, ends)));
  }

  /**
   * The total never exceeds the window's length, whatever the events (even
   * ill-formed ones or ones sharing ids): it only grows between the
   * `timestart` and the `timeend` points.
   */
  lemma ActiveTimeWithinWindow(events: seq<Event>, starts: int, ends: int)
    requires starts <= ends
    ensures ActiveTimeTotal(events, starts, ends) <= ends - starts
  {
    var p := SortByTime(Points(events, starts, ends));
    SortByTimeSorted(Points(events, starts, ends));
    SortedWindowMarkers(events, starts, ends);
    RunWindowBound(p, starts, ends);
  }

  /** No events, no active time. */
  lemma ActiveTimeOfNoEvents(starts: int, ends: int)
    ensures ActiveTimeTotal([], starts, ends) == 0
  {
    var a, b := TimeStart(starts), TimeEnd(ends);
    assert Points([], starts, ends) == [a, b];
    SortByTimePair(a, b);
    var p := SortByTime([a, b]);
    assert |p| == 2;
    assert p[..1][..0] == [];
    assert Run(p[..1]) == Step(Initial, p[0]);
    assert Run(p) == Step(Run(p[..1]), p[1]);
  }

  /**
   * Each event contributes its `workstart` and then its `workends`, in input
   * order: event `k`'s points sit at positions `2k` and `2k + 1`.
   */
  lemma {:induction false} WorkPointsOrder(events: seq<Event>)
    ensures |WorkPoints(events)| == 2 * |events|
    ensures forall k :: 0 <= k < |events| ==>
              WorkPoints(events)[2 * k] == WorkStart(events[k].begins, events[k].id)
              && WorkPoints(events)[2 * k + 1] == WorkEnds(events[k].ends, events[k].id)
  {
    if events != [] {
      var init := events[..|events| - 1];
      WorkPointsOrder(init);
      assert forall k :: 0 <= k < |init| ==> init[k] == events[k];
    }
  }

  /**
   * A reversed window is not empty: `timeend` comes first and closes nothing,
   * then `timestart` opens the window and nothing closes it again, so an
   * event running across `starts` counts from `starts` to its end.
   */
  lemma ReversedWindowCountsFromStart(e: Event, starts: int, ends: int)
    requires e.begins < ends < starts <= e.ends
    ensures ActiveTimeTotal([e], starts, ends) == e.ends - starts
  {
    var a, b := TimeStart(starts), TimeEnd(ends);
    var c, d := WorkStart(e.begins, e.id), WorkEnds(e.ends, e.id);
    assert [e][..0] == [];
    assert WorkPoints([e]) == [c, d];
    var ps := Points([e], starts, ends);
    assert ps == [a, b, c, d];
    assert ps[..3] == [a, b, c];
    assert [a, b, c][..2] == [a, b];
    SortByTimePair(a, b);
    InsertBeforeLater([b, a], c);
    assert SortByTime([a, b, c]) == [c, b, a];
    InsertAfterEarlier([c, b, a], d);
    var p := [c, b, a, d];
    assert SortByTime(ps) == p;
    assert p[..1][..0] == [];
    assert p[..2][..1] == p[..1];
    assert p[..3][..2] == p[..2];
    assert p[..3] == p[..|p| - 1];
    assert Run(p[..1]) == SweepState({e.id}, false, e.begins, 0);
    assert Run(p[..2]) == SweepState({e.id}, false, ends, 0);
    assert Run(p[..3]) == SweepState({e.id}, true, starts, 0);
  }
}
