/**
 * `eventsInRange` (src/funcs.js:71-79): keep, in their original order, the
 * events that touch the closed window `[starts, ends]`.
 */
module RangeFilter {
  import opened Events

  /** The test at src/funcs.js:74; both window boundaries are inclusive. */
  predicate InRange(e: Event, starts: int, ends: int)
  {
    starts <= e.ends && ends >= e.begins
  }

  /** The events of `events` that are in range, in order. */
  function FilterInRange(events: seq<Event>, starts: int, ends: int): seq<Event>
  {
    if events == [] then []
    else
      var last := events[|events| - 1];
      FilterInRange(events[..|events| - 1], starts, ends) + (if InRange(last, starts, ends) then [last] else [])
  }

  /** `r` can be obtained from `s` by deleting elements. */
  ghost predicate IsSubsequence(r: seq<Event>, s: seq<Event>)
    decreases |s|
  {
    if r == [] then true
    else if s == [] then false
    else
      IsSubsequence(r, s[..|s| - 1])
      || (r[|r| - 1] == s[|s| - 1] && IsSubsequence(r[..|r| - 1], s[..|s| - 1]))
  }

  /** The loop of src/funcs.js:73-77, pushing each event that passes the test. */
  method EventsInRange(events: seq<Event>, starts: int, ends: int) returns (newEvents: seq<Event>)
    ensures newEvents == FilterInRange(events, starts, ends)
    ensures forall e :: e in newEvents <==> e in events && InRange(e, starts, ends)
    ensures IsSubsequence(newEvents, events)
  {
    newEvents := [];
    for eventIndex := 0 to |events|
      invariant newEvents == FilterInRange(events[..eventIndex], starts, ends)
    {
      var event := events[eventIndex];
      assert events[..eventIndex + 1][..eventIndex] == events[..eventIndex];
      if starts <= event.ends && ends >= event.begins {
        newEvents := newEvents + [event];
      }
    }
    assert events[..|events|] == events;
    FilterInRangeMembers(events, starts, ends);
    FilterInRangeIsSubsequence(events, starts, ends);
  }

  /** Every element is kept exactly as often as it occurs, when it is in range, and never otherwise. */
  lemma {:induction false} FilterInRangeCounts(events: seq<Event>, starts: int, ends: int)
    ensures forall e :: multiset(FilterInRange(events, starts, ends))[e]
                     == if InRange(e, starts, ends) then multiset(events)[e] else 0
  {
    if events != [] {
      var init, last := events[..|events| - 1], events[|events| - 1];
      assert events == init + [last];
      FilterInRangeCounts(init, starts, ends);
    }
  }

  /** An event is in the output exactly when it is in the input and in range. */
  lemma FilterInRangeMembers(events: seq<Event>, starts: int, ends: int)
    ensures forall e :: e in FilterInRange(events, starts, ends) <==> e in events && InRange(e, starts, ends)
  {
    FilterInRangeCounts(events, starts, ends);
    forall e ensures e in FilterInRange(events, starts, ends) <==> e in events && InRange(e, starts, ends) {
      assert e in FilterInRange(events, starts, ends) <==> multiset(FilterInRange(events, starts, ends))[e] > 0;
      assert e in events <==> multiset(events)[e] > 0;
    }
  }

  /** The output keeps the input's relative order. */
  lemma {:induction false} FilterInRangeIsSubsequence(events: seq<Event>, starts: int, ends: int)
    ensures IsSubsequence(FilterInRange(events, starts, ends), events)
  {
    if events != [] {
      var init, last := events[..|events| - 1], events[|events| - 1];
      var r := FilterInRange(init, starts, ends);
      assert events[..|events| - 1] == init;
      FilterInRangeIsSubsequence(init, starts, ends);
      if InRange(last, starts, ends) {
        assert (r + [last])[..|r|] == r;
      } else {
        assert FilterInRange(events, starts, ends) == r;
      }
    }
  }

  /** The output is never longer than the input. */
  lemma {:induction false} FilterInRangeLength(events: seq<Event>, starts: int, ends: int)
    ensures |FilterInRange(events, starts, ends)| <= |events|
  {
    if events != [] {
      FilterInRangeLength(events[..|events| - 1], starts, ends);
    }
  }

  /** An event that only touches the window at one of its boundaries is still returned. */
  lemma BoundaryTouchingIncluded(events: seq<Event>, starts: int, ends: int, e: Event)
    requires e in events && e.begins <= e.ends && starts <= ends
    requires e.ends == starts || e.begins == ends
    ensures e in FilterInRange(events, starts, ends)
  {
    FilterInRangeMembers(events, starts, ends);
  }
}
