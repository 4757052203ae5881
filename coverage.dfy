/**
 * An independent reading of what `activeTime` computes: the number of
 * milliseconds `u` in `[starts, ends)` at which some event is running
 * (`begins <= u < ends`), i.e. the length of the union of the events'
 * intervals clipped to the window. For well-formed events with distinct
 * ids and a window that is not reversed (`starts <= ends`), the sweep of
 * src/funcs.js:17-66 computes exactly this.
 */
module Coverage {
  import opened Wrappers
  import opened Events
  import opened TimePoints
  import opened Sweep

  /** Some event is running at millisecond `u`. */
  predicate Covered(events: seq<Event>, u: int)
  {
    exists k :: 0 <= k < |events| && events[k].begins <= u < events[k].ends
  }

  /** How many milliseconds of `[a, b)` are covered by some event. */
  function CoveredLength(events: seq<Event>, a: int, b: int): nat
    decreases b - a
  {
    if b <= a then 0 else CoveredLength(events, a, b - 1) + (if Covered(events, b - 1) then 1 else 0)
  }

  /** Some event has id `id`. */
  predicate IsEventId(events: seq<Event>, id: int)
  {
    exists k :: 0 <= k < |events| && events[k].id == id
  }

  // ---- CoveredLength ----

  lemma {:induction false} CoveredLengthSplit(events: seq<Event>, a: int, b: int, c: int)
    requires a <= b <= c
    ensures CoveredLength(events, a, c) == CoveredLength(events, a, b) + CoveredLength(events, b, c)
    decreases c - b
  {
    if b < c {
      CoveredLengthSplit(events, a, b, c - 1);
    }
  }

  lemma {:induction false} CoveredLengthConstant(events: seq<Event>, a: int, b: int, c: bool)
    requires a <= b
    requires forall u :: a <= u < b ==> Covered(events, u) == c
    ensures CoveredLength(events, a, b) == if c then b - a else 0
    decreases b - a
  {
    if a < b {
      CoveredLengthConstant(events, a, b - 1, c);
    }
  }

  /** The covered length lies between zero and the length of the window. */
  lemma {:induction false} CoveredLengthBounds(events: seq<Event>, a: int, b: int)
    requires a <= b
    ensures CoveredLength(events, a, b) <= b - a
    decreases b - a
  {
    if a < b {
      CoveredLengthBounds(events, a, b - 1);
    }
  }

  /** Two collections that cover the same milliseconds have the same covered length. */
  lemma {:induction false} CoveredLengthCongruent(e1: seq<Event>, e2: seq<Event>, a: int, b: int)
    requires forall u :: a <= u < b ==> Covered(e1, u) == Covered(e2, u)
    ensures CoveredLength(e1, a, b) == CoveredLength(e2, a, b)
    decreases b - a
  {
    if a < b {
      CoveredLengthCongruent(e1, e2, a, b - 1);
    }
  }

  // ---- the sorted point stream ----

  /** What the correctness proof needs to know about the sorted point stream. */
  ghost predicate SweepReady(events: seq<Event>, starts: int, ends: int, p: seq<TimePoint>)
  {
    && SortedByTime(p)
    && starts <= ends
    && WellFormed(events)
    && Filter(p, IsMarker) == [TimeStart(starts), TimeEnd(ends)]
    && (forall k :: 0 <= k < |events| ==>
          Filter(p, HasId(events[k].id))
          == [WorkStart(events[k].begins, events[k].id), WorkEnds(events[k].ends, events[k].id)])
    && (forall id :: !IsEventId(events, id) ==> Filter(p, HasId(id)) == [])
  }

  lemma {:induction false} WorkPointsOfOtherId(events: seq<Event>, id: int)
    requires !IsEventId(events, id)
    ensures Filter(WorkPoints(events), HasId(id)) == []
  {
    if events != [] {
      var init, e := events[..|events| - 1], events[|events| - 1];
      assert !IsEventId(init, id);
      WorkPointsOfOtherId(init, id);
      assert e.id != id by {
        assert events[|events| - 1] == e;
      }
      FilterAppend(WorkPoints(init), [WorkStart(e.begins, e.id), WorkEnds(e.ends, e.id)], HasId(id));
      FilterPair(WorkStart(e.begins, e.id), WorkEnds(e.ends, e.id), HasId(id));
    }
  }

  lemma {:induction false} WorkPointsOfEvent(events: seq<Event>, k: int)
    requires UniqueIds(events) && 0 <= k < |events|
    ensures Filter(WorkPoints(events), HasId(events[k].id))
         == [WorkStart(events[k].begins, events[k].id), WorkEnds(events[k].ends, events[k].id)]
  {
    var init, e := events[..|events| - 1], events[|events| - 1];
    var id := events[k].id;
    var pair := [WorkStart(e.begins, e.id), WorkEnds(e.ends, e.id)];
    FilterAppend(WorkPoints(init), pair, HasId(id));
    FilterPair(pair[0], pair[1], HasId(id));
    if k == |events| - 1 {
      assert !IsEventId(init, id);
      WorkPointsOfOtherId(init, id);
    } else {
      assert e.id != id;
      assert UniqueIds(init) by {
        forall i, j | 0 <= i < |init| && 0 <= j < |init| && i != j ensures init[i].id != init[j].id {
          assert init[i] == events[i] && init[j] == events[j];
        }
      }
      assert init[k] == events[k];
      WorkPointsOfEvent(init, k);
    }
  }

  /** The sorted stream of well-formed events with distinct ids is ready for the sweep proof. */
  lemma SortedPointsReady(events: seq<Event>, starts: int, ends: int)
    requires starts <= ends && WellFormed(events) && UniqueIds(events)
    ensures SweepReady(events, starts, ends, SortByTime(Points(events, starts, ends)))
  {
    SortByTimeSorted(Points(events, starts, ends));
    SortedWindowMarkers(events, starts, ends);
    forall k | 0 <= k < |events|
      ensures Filter(SortByTime(Points(events, starts, ends)), HasId(events[k].id))
           == [WorkStart(events[k].begins, events[k].id), WorkEnds(events[k].ends, events[k].id)]
    {
      SortedPointsOfEvent(events, starts, ends, k);
    }
    forall id | !IsEventId(events, id) ensures Filter(SortByTime(Points(events, starts, ends)), HasId(id)) == [] {
      SortedPointsOfOtherId(events, starts, ends, id);
    }
  }

  /** In the sorted stream, an event's own points are its start and then its end. */
  lemma SortedPointsOfEvent(events: seq<Event>, starts: int, ends: int, k: int)
    requires WellFormed(events) && UniqueIds(events) && 0 <= k < |events|
    ensures Filter(SortByTime(Points(events, starts, ends)), HasId(events[k].id))
         == [WorkStart(events[k].begins, events[k].id), WorkEnds(events[k].ends, events[k].id)]
  {
    var id := events[k].id;
    var pair := [WorkStart(events[k].begins, id), WorkEnds(events[k].ends, id)];
    PointsOfId(events, starts, ends, id);
    WorkPointsOfEvent(events, k);
    assert Filter(Points(events, starts, ends), HasId(id)) == pair;
    SortByTimePair(pair[0], pair[1]);
  }

  /** In the sorted stream, no point carries an id that no event has. */
  lemma SortedPointsOfOtherId(events: seq<Event>, starts: int, ends: int, id: int)
    requires !IsEventId(events, id)
    ensures Filter(SortByTime(Points(events, starts, ends)), HasId(id)) == []
  {
    PointsOfId(events, starts, ends, id);
    WorkPointsOfOtherId(events, id);
    assert Filter(Points(events, starts, ends), HasId(id)) == [];
  }

  /** Selecting an id from the sorted stream is sorting that id's work points. */
  lemma PointsOfId(events: seq<Event>, starts: int, ends: int, id: int)
    ensures Filter(SortByTime(Points(events, starts, ends)), HasId(id)) == SortByTime(Filter(Points(events, starts, ends), HasId(id)))
    ensures Filter(Points(events, starts, ends), HasId(id)) == Filter(WorkPoints(events), HasId(id))
  {
    FilterSortByTime(Points(events, starts, ends), HasId(id));
    WorkPointsOfId(events, starts, ends, id);
  }

  /** The window points carry no id. */
  lemma WorkPointsOfId(events: seq<Event>, starts: int, ends: int, id: int)
    ensures Filter(Points(events, starts, ends), HasId(id)) == Filter(WorkPoints(events), HasId(id))
  {
    var head := [TimeStart(starts), TimeEnd(ends)];
    assert Points(events, starts, ends) == head + WorkPoints(events);
    FilterAppend(head, WorkPoints(events), HasId(id));
    FilterPair(head[0], head[1], HasId(id));
  }

  // ---- the active set ----

  /** The last of `f`, if any, is a `workstart`. */
  predicate EndsWithStart(f: seq<TimePoint>)
  {
    f != [] && f[|f| - 1].WorkStart?
  }

  /** An id is active exactly when its latest point so far is a `workstart`. */
  lemma {:induction false} ActiveIff(q: seq<TimePoint>, id: int)
    ensures id in Run(q).active <==> EndsWithStart(Filter(q, HasId(id)))
  {
    if q != [] {
      ActiveIff(q[..|q| - 1], id);
    }
  }

  /** Splitting a sorted stream after position `j` splits every filter of it by time. */
  lemma SplitByTime(p: seq<TimePoint>, j: int, h: TimePoint -> bool)
    requires SortedByTime(p) && 0 < j < |p|
    ensures Filter(p, h) == Filter(p[..j], h) + Filter(p[j..], h)
    ensures forall y :: y in Filter(p[..j], h) ==> y.time <= p[j - 1].time
    ensures forall y :: y in Filter(p[j..], h) ==> y.time >= p[j].time
  {
    assert p == p[..j] + p[j..];
    FilterAppend(p[..j], p[j..], h);
    EarlyPart(p, j, h);
    LatePart(p, j, h);
  }

  lemma EarlyPart(p: seq<TimePoint>, j: int, h: TimePoint -> bool)
    requires SortedByTime(p) && 0 < j < |p|
    ensures forall y :: y in Filter(p[..j], h) ==> y.time <= p[j - 1].time
  {
    FilterElements(p[..j], h);
    forall y | y in p[..j] ensures y.time <= p[j - 1].time {
      var m :| 0 <= m < j && p[..j][m] == y;
      assert p[m] == y;
    }
  }

  lemma LatePart(p: seq<TimePoint>, j: int, h: TimePoint -> bool)
    requires SortedByTime(p) && 0 < j < |p|
    ensures forall y :: y in Filter(p[j..], h) ==> y.time >= p[j].time
  {
    FilterElements(p[j..], h);
    forall y | y in p[j..] ensures y.time >= p[j].time {
      var m :| 0 <= m < |p| - j && p[j..][m] == y;
      assert p[j + m] == y;
    }
  }

  /** `a + b` has exactly two elements; then `a` is one of its three prefixes. */
  lemma SplitPair(a: seq<TimePoint>, b: seq<TimePoint>, x: TimePoint, y: TimePoint)
    requires a + b == [x, y]
    ensures (a == [] && b == [x, y]) || (a == [x] && b == [y]) || (a == [x, y] && b == [])
  {
    assert |a| <= 2;
    if |a| == 1 {
      assert a[0] == (a + b)[0];
      assert b[0] == (a + b)[1];
    } else if |a| == 2 {
      assert a[0] == (a + b)[0] && a[1] == (a + b)[1];
    }
  }

  /**
   * Between two points with distinct times, the active set is non-empty
   * exactly when some event runs at the earlier of the two times.
   */
  lemma ActiveAtGap(events: seq<Event>, starts: int, ends: int, p: seq<TimePoint>, j: int)
    requires SweepReady(events, starts, ends, p)
    requires 0 < j < |p| && p[j - 1].time < p[j].time
    ensures (Run(p[..j]).active != {}) <==> Covered(events, p[j - 1].time)
  {
    var act := Run(p[..j]).active;
    if act != {} {
      if forall y :: y !in act {
        assert false;
      }
      var id :| id in act;
      ActiveIdIsRunning(events, starts, ends, p, j, id);
    }
    if Covered(events, p[j - 1].time) {
      var k :| 0 <= k < |events| && events[k].begins <= p[j - 1].time < events[k].ends;
      RunningEventIsActive(events, starts, ends, p, j, k);
    }
  }

  /** An id active between two distinct times belongs to an event running at the earlier one. */
  lemma ActiveIdIsRunning(events: seq<Event>, starts: int, ends: int, p: seq<TimePoint>, j: int, id: int)
    requires SweepReady(events, starts, ends, p)
    requires 0 < j < |p| && p[j - 1].time < p[j].time
    requires id in Run(p[..j]).active
    ensures Covered(events, p[j - 1].time)
  {
    var q, t := p[..j], p[j - 1].time;
    ActiveIff(q, id);
    SplitByTime(p, j, HasId(id));
    var k :| 0 <= k < |events| && events[k].id == id;
    var ws, we := WorkStart(events[k].begins, id), WorkEnds(events[k].ends, id);
    SplitPair(Filter(q, HasId(id)), Filter(p[j..], HasId(id)), ws, we);
    assert Filter(q, HasId(id)) == [ws];
    assert ws in Filter(q, HasId(id)) && we in Filter(p[j..], HasId(id));
    assert events[k].begins <= t < events[k].ends;
  }

  /** The id of an event running between two distinct times is active there. */
  lemma RunningEventIsActive(events: seq<Event>, starts: int, ends: int, p: seq<TimePoint>, j: int, k: int)
    requires SweepReady(events, starts, ends, p)
    requires 0 < j < |p| && p[j - 1].time < p[j].time
    requires 0 <= k < |events| && events[k].begins <= p[j - 1].time < events[k].ends
    ensures events[k].id in Run(p[..j]).active
  {
    var q := p[..j];
    var id := events[k].id;
    var ws, we := WorkStart(events[k].begins, id), WorkEnds(events[k].ends, id);
    SplitByTime(p, j, HasId(id));
    SplitPair(Filter(q, HasId(id)), Filter(p[j..], HasId(id)), ws, we);
    assert Filter(q, HasId(id)) == [ws];
    ActiveIff(q, id);
  }

  /** Between two consecutive points with distinct times, the same events are running. */
  lemma CoveredConstantOnGap(events: seq<Event>, starts: int, ends: int, p: seq<TimePoint>, j: int, u: int)
    requires SweepReady(events, starts, ends, p)
    requires 0 < j < |p| && p[j - 1].time <= u < p[j].time
    ensures Covered(events, u) == Covered(events, p[j - 1].time)
  {
    var t := p[j - 1].time;
    forall k | 0 <= k < |events|
      ensures (events[k].begins <= u < events[k].ends) <==> (events[k].begins <= t < events[k].ends)
    {
      var id := events[k].id;
      var ws, we := WorkStart(events[k].begins, id), WorkEnds(events[k].ends, id);
      FilterElements(p, HasId(id));
      assert ws in Filter(p, HasId(id)) && we in Filter(p, HasId(id));
      var a :| 0 <= a < |p| && p[a] == ws;
      var b :| 0 <= b < |p| && p[b] == we;
      assert a < j ==> ws.time <= t;
      assert a >= j ==> ws.time >= p[j].time;
      assert b < j ==> we.time <= t;
      assert b >= j ==> we.time >= p[j].time;
    }
  }

  // ---- the sweep invariant ----

  /**
   * The state after the points `q`: before `timestart` nothing has been
   * counted; between `timestart` and `timeend` the total is the covered length
   * from `starts` to the latest point; after `timeend` it is the covered length
   * of the whole window.
   */
  ghost predicate SweepStateOk(events: seq<Event>, starts: int, ends: int, q: seq<TimePoint>)
  {
    var f, st := Filter(q, IsMarker), Run(q);
    && f <= [TimeStart(starts), TimeEnd(ends)]
    && (f == [] ==> !st.within && st.total == 0)
    && (f == [TimeStart(starts)] ==>
          st.within && q != [] && starts <= st.last && st.total == CoveredLength(events, starts, st.last))
    && (f == [TimeStart(starts), TimeEnd(ends)] ==>
          !st.within && st.total == CoveredLength(events, starts, ends))
  }

  /** The invariant holds after every prefix of the sorted points. */
  lemma {:induction false} SweepInvariant(events: seq<Event>, starts: int, ends: int, p: seq<TimePoint>, i: int)
    requires SweepReady(events, starts, ends, p)
    requires 0 <= i <= |p|
    ensures SweepStateOk(events, starts, ends, p[..i])
  {
    MarkersOfPrefix(events, starts, ends, p, i);
    if i > 0 {
      SweepInvariant(events, starts, ends, p, i - 1);
      SweepStep(events, starts, ends, p, i);
    }
  }

  /** The window points seen so far are a prefix of start, end. */
  lemma MarkersOfPrefix(events: seq<Event>, starts: int, ends: int, p: seq<TimePoint>, i: int)
    requires SweepReady(events, starts, ends, p)
    requires 0 <= i <= |p|
    ensures Filter(p[..i], IsMarker) <= [TimeStart(starts), TimeEnd(ends)]
  {
    assert p == p[..i] + p[i..];
    FilterAppend(p[..i], p[i..], IsMarker);
  }

  /** One point keeps the invariant. */
  lemma SweepStep(events: seq<Event>, starts: int, ends: int, p: seq<TimePoint>, i: int)
    requires SweepReady(events, starts, ends, p)
    requires 0 < i <= |p|
    requires SweepStateOk(events, starts, ends, p[..i - 1])
    ensures SweepStateOk(events, starts, ends, p[..i])
  {
    var init, x := p[..i - 1], p[i - 1];
    assert p[..i][..i - 1] == init;
    MarkersOfPrefix(events, starts, ends, p, i);
    var m := Filter(init, IsMarker);
    assert Filter(p[..i], IsMarker) == m + (if IsMarker(x) then [x] else []);
    if m == [] {
      StepBeforeWindow(events, starts, ends, p, i);
    } else if m == [TimeStart(starts)] {
      StepInsideWindow(events, starts, ends, p, i);
    } else {
      assert m == [TimeStart(starts), TimeEnd(ends)];
      assert !IsMarker(x);
    }
  }

  lemma StepBeforeWindow(events: seq<Event>, starts: int, ends: int, p: seq<TimePoint>, i: int)
    requires 0 < i <= |p|
    requires Filter(p[..i - 1], IsMarker) == [] && !Run(p[..i - 1]).within && Run(p[..i - 1]).total == 0
    requires Filter(p[..i], IsMarker) <= [TimeStart(starts), TimeEnd(ends)]
    requires Filter(p[..i], IsMarker) == if IsMarker(p[i - 1]) then [p[i - 1]] else []
    requires p[..i][..i - 1] == p[..i - 1]
    ensures SweepStateOk(events, starts, ends, p[..i])
  {
    var x := p[i - 1];
    assert Run(p[..i]) == Step(Run(p[..i - 1]), x);
    if IsMarker(x) {
      assert Filter(p[..i], IsMarker)[0] == x;
      assert CoveredLength(events, starts, starts) == 0;
    }
  }

  lemma StepInsideWindow(events: seq<Event>, starts: int, ends: int, p: seq<TimePoint>, i: int)
    requires SweepReady(events, starts, ends, p)
    requires 0 < i <= |p|
    requires Filter(p[..i - 1], IsMarker) == [TimeStart(starts)]
    requires SweepStateOk(events, starts, ends, p[..i - 1])
    requires Filter(p[..i], IsMarker) <= [TimeStart(starts), TimeEnd(ends)]
    requires Filter(p[..i], IsMarker) == [TimeStart(starts)] + if IsMarker(p[i - 1]) then [p[i - 1]] else []
    requires p[..i][..i - 1] == p[..i - 1]
    ensures SweepStateOk(events, starts, ends, p[..i])
  {
    var init, x := p[..i - 1], p[i - 1];
    assert Run(p[..i]) == Step(Run(init), x);
    RunLast(init);
    assert p[i - 2].time <= x.time;
    SweepStepWithin(events, starts, ends, p, i);
    if IsMarker(x) {
      assert Filter(p[..i], IsMarker)[1] == x;
    }
  }

  /** The step of SweepInvariant while inside the window. */
  lemma SweepStepWithin(events: seq<Event>, starts: int, ends: int, p: seq<TimePoint>, i: int)
    requires SweepReady(events, starts, ends, p)
    requires 1 < i <= |p|
    requires Run(p[..i - 1]).within && starts <= Run(p[..i - 1]).last
    requires Run(p[..i - 1]).total == CoveredLength(events, starts, Run(p[..i - 1]).last)
    ensures Run(p[..i]).total == CoveredLength(events, starts, p[i - 1].time)
  {
    var init, x := p[..i - 1], p[i - 1];
    assert p[..i][..i - 1] == init;
    var st := Run(init);
    RunLast(init);
    var t0, t := p[i - 2].time, x.time;
    assert st.last == t0;
    CoveredLengthSplit(events, starts, t0, t);
    if t0 < t {
      ActiveAtGap(events, starts, ends, p, i - 1);
      forall u | t0 <= u < t ensures Covered(events, u) == Covered(events, t0) {
        CoveredConstantOnGap(events, starts, ends, p, i - 1, u);
      }
      CoveredLengthConstant(events, t0, t, Covered(events, t0));
    }
  }

  // ---- what activeTime computes ----

  /**
   * For well-formed events with distinct ids and `starts <= ends`, the total
   * is the covered length of the window: overlapping events are not counted
   * twice and gaps between events are not counted at all.
   */
  lemma ActiveTimeIsCoveredLength(events: seq<Event>, starts: int, ends: int)
    requires starts <= ends && WellFormed(events) && UniqueIds(events)
    ensures ActiveTimeTotal(events, starts, ends) == CoveredLength(events, starts, ends)
  {
    var p := SortByTime(Points(events, starts, ends));
    SortedPointsReady(events, starts, ends);
    SweepInvariant(events, starts, ends, p, |p|);
    assert p[..|p|] == p;
  }

  // ---- consequences ----

  lemma CoveredAppend(events: seq<Event>, x: Event, u: int)
    ensures Covered(events + [x], u) <==> Covered(events, u) || x.begins <= u < x.ends
  {
    var all := events + [x];
    assert all[|events|] == x;
    if Covered(all, u) {
      var k :| 0 <= k < |all| && all[k].begins <= u < all[k].ends;
      if k < |events| {
        assert events[k] == all[k];
      }
    }
    if Covered(events, u) {
      var k :| 0 <= k < |events| && events[k].begins <= u < events[k].ends;
      assert all[k] == events[k];
    }
  }

  lemma PrefixKeepsAssumptions(events: seq<Event>, x: Event)
    requires WellFormed(events + [x]) && UniqueIds(events + [x])
    ensures WellFormed(events) && UniqueIds(events)
  {
    var all := events + [x];
    assert forall k :: 0 <= k < |events| ==> all[k] == events[k];
  }

  /**
   * An event whose interval lies inside another event's interval adds
   * nothing to the total: the active ids are a set, so the time is counted
   * once.
   */
  lemma ActiveTimeNestedEvent(events: seq<Event>, inner: Event, k: int, starts: int, ends: int)
    requires starts <= ends
    requires WellFormed(events + [inner]) && UniqueIds(events + [inner])
    requires 0 <= k < |events| && events[k].begins <= inner.begins && inner.ends <= events[k].ends
    ensures ActiveTimeTotal(events + [inner], starts, ends) == ActiveTimeTotal(events, starts, ends)
  {
    PrefixKeepsAssumptions(events, inner);
    forall u | starts <= u < ends ensures Covered(events + [inner], u) == Covered(events, u) {
      CoveredAppend(events, inner, u);
    }
    CoveredLengthCongruent(events + [inner], events, starts, ends);
    ActiveTimeIsCoveredLength(events + [inner], starts, ends);
    ActiveTimeIsCoveredLength(events, starts, ends);
  }

  /** The part of `[a, b)` that one event covers. */
  function Clipped(x: Event, a: int, b: int): nat
  {
    var d := Min(b, x.ends) - Max(a, x.begins);
    if d < 0 then 0 else d
  }

  function SumClipped(events: seq<Event>, a: int, b: int): nat
  {
    if events == [] then 0
    else SumClipped(events[..|events| - 1], a, b) + Clipped(events[|events| - 1], a, b)
  }

  /** No two events share a millisecond. */
  predicate PairwiseDisjoint(events: seq<Event>)
  {
    forall j, k :: 0 <= j < k < |events| ==> events[j].ends <= events[k].begins || events[k].ends <= events[j].begins
  }

  lemma {:induction false} CoveredLengthOfOne(x: Event, a: int, b: int)
    requires a <= b
    ensures CoveredLength([x], a, b) == Clipped(x, a, b)
    decreases b - a
  {
    if a < b {
      CoveredLengthOfOne(x, a, b - 1);
      CoveredAppend([], x, b - 1);
      assert [] + [x] == [x];
    }
  }

  lemma {:induction false} CoveredLengthDisjointUnion(events: seq<Event>, x: Event, a: int, b: int)
    requires forall u :: a <= u < b ==> !(Covered(events, u) && x.begins <= u < x.ends)
    ensures CoveredLength(events + [x], a, b) == CoveredLength(events, a, b) + CoveredLength([x], a, b)
    decreases b - a
  {
    if a < b {
      CoveredLengthDisjointUnion(events, x, a, b - 1);
      CoveredAppend(events, x, b - 1);
      CoveredAppend([], x, b - 1);
      assert [] + [x] == [x];
    }
  }

  /** For pairwise disjoint events, the covered length is the sum of the clipped lengths. */
  lemma {:induction false} CoveredLengthOfDisjoint(events: seq<Event>, a: int, b: int)
    requires a <= b && PairwiseDisjoint(events)
    ensures CoveredLength(events, a, b) == SumClipped(events, a, b)
  {
    if events != [] {
      var init, x := events[..|events| - 1], events[|events| - 1];
      assert events == init + [x];
      DisjointSplit(init, x);
      CoveredLengthOfDisjoint(init, a, b);
      CoveredLengthDisjointUnion(init, x, a, b);
      CoveredLengthOfOne(x, a, b);
    } else {
      CoveredLengthConstant(events, a, b, false);
    }
  }

  /** Of pairwise disjoint events, the earlier ones are disjoint and none shares a millisecond with the last. */
  lemma DisjointSplit(init: seq<Event>, x: Event)
    requires PairwiseDisjoint(init + [x])
    ensures PairwiseDisjoint(init)
    ensures forall u :: !(Covered(init, u) && x.begins <= u < x.ends)
  {
    var events := init + [x];
    assert forall k :: 0 <= k < |init| ==> init[k] == events[k];
    assert events[|init|] == x;
    forall u ensures !(Covered(init, u) && x.begins <= u < x.ends) {
      if Covered(init, u) {
        var k :| 0 <= k < |init| && init[k].begins <= u < init[k].ends;
        assert events[k] == init[k];
      }
    }
  }

  /** Disjoint events contribute the sum of their durations clipped to the window. */
  lemma ActiveTimeOfDisjointEvents(events: seq<Event>, starts: int, ends: int)
    requires starts <= ends && WellFormed(events) && UniqueIds(events) && PairwiseDisjoint(events)
    ensures ActiveTimeTotal(events, starts, ends) == SumClipped(events, starts, ends)
  {
    ActiveTimeIsCoveredLength(events, starts, ends);
    CoveredLengthOfDisjoint(events, starts, ends);
  }

  /**
   * Two events that overlap or touch are merged: over the window from the
   * first start to the last end, the total is that window's length, not the
   * sum of the two durations (events [0, 100] and [50, 150] give 150).
   */
  lemma ActiveTimeOfOverlappingPair(x: Event, y: Event)
    requires x.id != y.id
    requires x.begins <= y.begins <= x.ends <= y.ends
    ensures ActiveTimeTotal([x, y], x.begins, y.ends) == y.ends - x.begins
  {
    var events := [x, y];
    ActiveTimeIsCoveredLength(events, x.begins, y.ends);
    forall u | x.begins <= u < y.ends ensures Covered(events, u) {
      if u < x.ends {
        assert events[0].begins <= u < events[0].ends;
      } else {
        assert events[1].begins <= u < events[1].ends;
      }
    }
    CoveredLengthConstant(events, x.begins, y.ends, true);
  }
}
