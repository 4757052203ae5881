/**
 * `stackEvents` (src/funcs.js:81-108): greedy first-fit lane assignment.
 * The events are copied into an array that is overwritten position by
 * position; while position `i` is processed, the positions before it hold
 * the new copies (which carry a `stackIndex`) and the positions from `i` on
 * still hold the input events.
 */
module Stacking {
  import opened Wrappers
  import opened Events

  /** `if (!margin) margin = 0`. */
  function MarginOrZero(margin: Option<int>): int
  {
    margin.GetOr(0)
  }

  /** `other` holds a lane that `current` may not take (src/funcs.js:93-95). */
  predicate Takes(other: Event, current: Event, margin: int)
  {
    !other.invisible && other.stackIndex.Some? && EventsOverlap(other, current, margin)
  }

  /** `takenStacks` after scanning `s`: the lanes of the entries that take a lane from `current`. */
  function Taken(s: seq<Event>, current: Event, margin: int): (r: set<int>)
    ensures forall k :: k in r <==>
              exists j :: 0 <= j < |s| && Takes(s[j], current, margin) && s[j].stackIndex.value == k
  {
    if s == [] then {}
    else
      var init, last := s[..|s| - 1], s[|s| - 1];
      assert forall j :: 0 <= j < |init| ==> init[j] == s[j];
      Taken(init, current, margin) + (if Takes(last, current, margin) then {last.stackIndex.value} else {})
  }

  // ---- the least free lane ----

  /** If the lanes `0 .. k-1` are all taken, at least `k` lanes are taken. */
  lemma {:induction false} FreeBelowCard(taken: set<int>, k: nat)
    requires forall j :: 0 <= j < k ==> j in taken
    ensures k <= |taken|
    decreases k
  {
    if k > 0 {
      FreeBelowCard(taken - {k - 1}, k - 1);
    }
  }

  function LeastFreeFrom(taken: set<int>, k: nat): (r: nat)
    requires forall j :: 0 <= j < k ==> j in taken
    ensures k <= r && r !in taken
    ensures forall j :: 0 <= j < r ==> j in taken
    decreases |taken| - k
  {
    FreeBelowCard(taken, k);
    if k in taken then
      FreeBelowCard(taken, k + 1);
      LeastFreeFrom(taken, k + 1)
    else k
  }

  /** The least non-negative lane that is not taken. */
  function LeastFree(taken: set<int>): (r: nat)
    ensures r !in taken
    ensures forall j :: 0 <= j < r ==> j in taken
  {
    LeastFreeFrom(taken, 0)
  }

  /** The two properties of LeastFree single out its value. */
  lemma LeastFreeUnique(taken: set<int>, k: nat)
    requires k !in taken
    requires forall j :: 0 <= j < k ==> j in taken
    ensures k == LeastFree(taken)
  {
    var r := LeastFree(taken);
    assert r < k ==> r in taken;
    assert k < r ==> k in taken;
  }

  // ---- the pass over the array, as functions ----

  /** The new copy written at position `i` when the array holds `s` (src/funcs.js:87-104). */
  function Assign(s: seq<Event>, i: nat, margin: int): Event
    requires i < |s|
  {
    var ev := s[i];
    if ev.stackIndex.Some? then ev
    else ev.(stackIndex := Some(if ev.invisible then 0 else LeastFree(Taken(s, ev, margin))))
  }

  /** The array after the first `n` positions are processed. */
  function StackedPrefix(events: seq<Event>, margin: int, n: nat): (r: seq<Event>)
    requires n <= |events|
    ensures |r| == |events|
  {
    if n == 0 then events
    else
      var prev := StackedPrefix(events, margin, n - 1);
      prev[n - 1 := Assign(prev, n - 1, margin)]
  }

  /** What `stackEvents(events, margin)` returns. */
  function StackEventsSpec(events: seq<Event>, margin: Option<int>): seq<Event>
  {
    StackedPrefix(events, MarginOrZero(margin), |events|)
  }

  // ---- the method ----

  method StackEvents(events: seq<Event>, margin: Option<int>) returns (stacked: seq<Event>)
    ensures stacked == StackEventsSpec(events, margin)
    ensures |stacked| == |events|
    ensures forall k :: 0 <= k < |events| ==> stacked[k].stackIndex.Some?
    ensures forall k :: 0 <= k < |events| && events[k].stackIndex.Some? ==> stacked[k] == events[k]
    ensures forall j, k :: 0 <= j < |events| && 0 <= k < |events| && j != k
              && !events[j].invisible && !events[k].invisible && events[k].stackIndex.None?
              && EventsOverlap(events[j], events[k], MarginOrZero(margin))
              ==> stacked[j].stackIndex != stacked[k].stackIndex
  {
    var m := MarginOrZero(margin);
    var stackedEvents := new Event[|events|](i requires 0 <= i < |events| => events[i]);
    assert stackedEvents[..] == events;
    for eventIndex := 0 to stackedEvents.Length
      invariant stackedEvents[..] == StackedPrefix(events, m, eventIndex)
    {
      var newEvent := NewEvent(stackedEvents, eventIndex, m);
      stackedEvents[eventIndex] := newEvent;
    }
    stacked := stackedEvents[..];
    StackEventsKeepsEvents(events, margin);
    StackEventsNoSharedLane(events, margin);
  }

  /** The copy of `a[eventIndex]` that the pass writes back (src/funcs.js:87-104). */
  method NewEvent(a: array<Event>, eventIndex: nat, margin: int) returns (newEvent: Event)
    requires eventIndex < a.Length
    ensures newEvent == Assign(a[..], eventIndex, margin)
  {
    var event := a[eventIndex];
    newEvent := event;
    if event.stackIndex.None? {
      var takenStacks: set<int> := {};
      for j := 0 to a.Length
        invariant takenStacks == Taken(a[..j], event, margin)
      {
        var stackedEvent := a[j];
        assert a[..j + 1][..j] == a[..j];
        if !(stackedEvent.invisible || stackedEvent.stackIndex.None?) && EventsOverlap(stackedEvent, event, margin) {
          takenStacks := takenStacks + {stackedEvent.stackIndex.value};
        }
      }
      assert a[..a.Length] == a[..];
      var stackIndex := 0;
      if !event.invisible {
        while stackIndex in takenStacks
          invariant 0 <= stackIndex
          invariant forall j :: 0 <= j < stackIndex ==> j in takenStacks
          decreases |takenStacks| - stackIndex
        {
          FreeBelowCard(takenStacks, stackIndex + 1);
          stackIndex := stackIndex + 1;
        }
        LeastFreeUnique(takenStacks, stackIndex);
      }
      newEvent := event.(stackIndex := Some(stackIndex));
    }
  }

  // ---- how the array evolves ----

  /** Positions not yet processed still hold the input events. */
  lemma {:induction false} StackedPrefixUntouched(events: seq<Event>, margin: int, n: nat)
    requires n <= |events|
    ensures forall k :: n <= k < |events| ==> StackedPrefix(events, margin, n)[k] == events[k]
  {
    if n > 0 {
      StackedPrefixUntouched(events, margin, n - 1);
    }
  }

  /** A processed position is never written again. */
  lemma {:induction false} StackedPrefixStable(events: seq<Event>, margin: int, n: nat, n2: nat)
    requires n <= n2 <= |events|
    ensures forall k :: 0 <= k < n ==> StackedPrefix(events, margin, n2)[k] == StackedPrefix(events, margin, n)[k]
    decreases n2
  {
    if n < n2 {
      StackedPrefixStable(events, margin, n, n2 - 1);
    }
  }

  /**
   * While position `n` is processed, the array holds the final copies before
   * `n` and the input events from `n` on.
   */
  lemma StackedPrefixState(events: seq<Event>, margin: int, n: nat)
    requires n <= |events|
    ensures StackedPrefix(events, margin, n)
         == StackedPrefix(events, margin, |events|)[..n] + events[n..]
  {
    StackedPrefixUntouched(events, margin, n);
    StackedPrefixStable(events, margin, n, |events|);
  }

  /** The final copy at `k` is the one assigned against the array as it was at step `k`. */
  lemma StackedAt(events: seq<Event>, margin: int, k: nat)
    requires k < |events|
    ensures StackedPrefix(events, margin, |events|)[k] == Assign(StackedPrefix(events, margin, k), k, margin)
  {
    StackedPrefixStable(events, margin, k + 1, |events|);
  }

  // ---- properties of stackEvents ----

  /**
   * Same length and order; each output event is its input event with a
   * `stackIndex`, and an input event that already had one comes back unchanged.
   */
  lemma StackEventsKeepsEvents(events: seq<Event>, margin: Option<int>)
    ensures |StackEventsSpec(events, margin)| == |events|
    ensures forall k :: 0 <= k < |events| ==>
              var r := StackEventsSpec(events, margin)[k];
              r.stackIndex.Some? && r == events[k].(stackIndex := r.stackIndex)
    ensures forall k :: 0 <= k < |events| && events[k].stackIndex.Some? ==>
              StackEventsSpec(events, margin)[k] == events[k]
  {
    var m := MarginOrZero(margin);
    forall k | 0 <= k < |events|
      ensures var r := StackEventsSpec(events, margin)[k];
              r.stackIndex.Some? && r == events[k].(stackIndex := r.stackIndex)
      ensures events[k].stackIndex.Some? ==> StackEventsSpec(events, margin)[k] == events[k]
    {
      StackedAt(events, m, k);
      StackedPrefixUntouched(events, m, k);
    }
  }

  /**
   * The assignment rule: an event without a lane gets lane 0 when invisible
   * and otherwise the least lane not taken in the array as it stands when
   * the event is processed (final copies before it, input events after it).
   */
  lemma StackEventsAssignment(events: seq<Event>, margin: Option<int>, k: nat)
    requires k < |events| && events[k].stackIndex.None?
    ensures var r := StackEventsSpec(events, margin);
            r[k].stackIndex == Some(if events[k].invisible then 0
                                    else LeastFree(Taken(r[..k] + events[k..], events[k], MarginOrZero(margin))))
  {
    var m := MarginOrZero(margin);
    StackedAt(events, m, k);
    StackedPrefixState(events, m, k);
    StackedPrefixUntouched(events, m, k);
  }

  /** A newly assigned visible event's lane is not the lane of anything that takes lanes from it. */
  lemma NewLaneAvoidsTaken(events: seq<Event>, margin: Option<int>, k: nat, j: nat)
    requires k < |events| && j < |events| && events[k].stackIndex.None? && !events[k].invisible
    requires Takes((StackEventsSpec(events, margin)[..k] + events[k..])[j], events[k], MarginOrZero(margin))
    ensures StackEventsSpec(events, margin)[k].stackIndex
         != (StackEventsSpec(events, margin)[..k] + events[k..])[j].stackIndex
  {
    StackEventsAssignment(events, margin, k);
  }

  /**
   * Two visible events that overlap never share a lane when at least one of
   * them (here `events[k]`) had none on input.
   */
  lemma StackEventsNoSharedLane(events: seq<Event>, margin: Option<int>)
    ensures forall j, k :: 0 <= j < |events| && 0 <= k < |events| && j != k
              && !events[j].invisible && !events[k].invisible && events[k].stackIndex.None?
              && EventsOverlap(events[j], events[k], MarginOrZero(margin))
              ==> StackEventsSpec(events, margin)[j].stackIndex != StackEventsSpec(events, margin)[k].stackIndex
  {
    forall j, k | 0 <= j < |events| && 0 <= k < |events| && j != k
              && !events[j].invisible && !events[k].invisible && events[k].stackIndex.None?
              && EventsOverlap(events[j], events[k], MarginOrZero(margin))
      ensures StackEventsSpec(events, margin)[j].stackIndex != StackEventsSpec(events, margin)[k].stackIndex
    {
      NoSharedLanePair(events, margin, j, k);
    }
  }

  lemma NoSharedLanePair(events: seq<Event>, margin: Option<int>, j: nat, k: nat)
    requires j < |events| && k < |events| && j != k
    requires !events[j].invisible && !events[k].invisible && events[k].stackIndex.None?
    requires EventsOverlap(events[j], events[k], MarginOrZero(margin))
    ensures StackEventsSpec(events, margin)[j].stackIndex != StackEventsSpec(events, margin)[k].stackIndex
  {
    var m := MarginOrZero(margin);
    var r := StackEventsSpec(events, margin);
    StackEventsKeepsEvents(events, margin);
    if j < k || events[j].stackIndex.Some? {
      var sk := r[..k] + events[k..];
      assert sk[j] == if j < k then r[j] else events[j];
      NewLaneAvoidsTaken(events, margin, k, j);
    } else {
      var sj := r[..j] + events[j..];
      assert sj[k] == r[k];
      EventsOverlapSymmetric(events[j], events[k], m);
      NewLaneAvoidsTaken(events, margin, j, k);
    }
  }

  /** An input whose events all have lanes is returned unchanged. */
  lemma {:induction false} FullyAssignedUnchanged(events: seq<Event>, margin: int, n: nat)
    requires n <= |events|
    requires forall k :: 0 <= k < |events| ==> events[k].stackIndex.Some?
    ensures StackedPrefix(events, margin, n) == events
  {
    if n > 0 {
      FullyAssignedUnchanged(events, margin, n - 1);
    }
  }

  /** Stacking twice is stacking once. */
  lemma StackEventsIdempotent(events: seq<Event>, margin: Option<int>)
    ensures StackEventsSpec(StackEventsSpec(events, margin), margin) == StackEventsSpec(events, margin)
  {
    var r := StackEventsSpec(events, margin);
    StackEventsKeepsEvents(events, margin);
    FullyAssignedUnchanged(r, MarginOrZero(margin), |r|);
  }

  /** Two overlapping events get lanes 0 and 1. */
  lemma StackEventsExample()
    ensures StackEventsSpec([Event(1, 0, 100, false, None), Event(2, 50, 150, false, None)], None)
         == [Event(1, 0, 100, false, Some(0)), Event(2, 50, 150, false, Some(1))]
  {
    var events := [Event(1, 0, 100, false, None), Event(2, 50, 150, false, None)];
    var r := StackEventsSpec(events, None);
    StackEventsKeepsEvents(events, None);
    StackEventsAssignment(events, None, 0);
    StackEventsAssignment(events, None, 1);
    var t0 := Taken(r[..0] + events[0..], events[0], 0);
    assert t0 == {};
    LeastFreeUnique({}, 0);
    var s1 := r[..1] + events[1..];
    assert s1 == [r[0], events[1]];
    var t1 := Taken(s1, events[1], 0);
    assert t1 == {0};
    LeastFreeUnique({0}, 1);
  }

  /** Reversing the input swaps the lanes: assignment follows input order. */
  lemma StackEventsOrderDependent()
    ensures StackEventsSpec([Event(2, 50, 150, false, None), Event(1, 0, 100, false, None)], None)
         == [Event(2, 50, 150, false, Some(0)), Event(1, 0, 100, false, Some(1))]
  {
    var events := [Event(2, 50, 150, false, None), Event(1, 0, 100, false, None)];
    var r := StackEventsSpec(events, None);
    StackEventsKeepsEvents(events, None);
    StackEventsAssignment(events, None, 0);
    StackEventsAssignment(events, None, 1);
    assert Taken(r[..0] + events[0..], events[0], 0) == {};
    LeastFreeUnique({}, 0);
    var s1 := r[..1] + events[1..];
    assert s1 == [r[0], events[1]];
    assert Taken(s1, events[1], 0) == {0};
    LeastFreeUnique({0}, 1);
  }

  /**
   * An invisible event is pinned to lane 0 and holds no lane against others:
   * the visible event that overlaps it also gets lane 0.
   */
  lemma StackEventsInvisibleExample()
    ensures StackEventsSpec([Event(1, 0, 100, true, None), Event(2, 50, 150, false, None)], None)
         == [Event(1, 0, 100, true, Some(0)), Event(2, 50, 150, false, Some(0))]
  {
    var events := [Event(1, 0, 100, true, None), Event(2, 50, 150, false, None)];
    var r := StackEventsSpec(events, None);
    StackEventsKeepsEvents(events, None);
    StackEventsAssignment(events, None, 0);
    StackEventsAssignment(events, None, 1);
    var s1 := r[..1] + events[1..];
    assert s1 == [r[0], events[1]];
    assert Taken(s1, events[1], 0) == {};
    LeastFreeUnique({}, 0);
  }
}
