/**
 * Calendar events and the two pairwise helpers on them: the chronological
 * comparer (src/funcs.js:3-5) and the overlap test (src/funcs.js:7-11).
 */
module Events {
  import opened Wrappers

  /**
   * An event record `{id, begins, ends, invisible?, stackIndex?}`.
   * Times are integer milliseconds; an absent `invisible` is `false`;
   * an absent `stackIndex` is `None`.
   */
  datatype Event = Event(id: int, begins: int, ends: int, invisible: bool, stackIndex: Option<int>)

  /** The caller's promise that no event ends before it begins. */
  predicate WellFormed(events: seq<Event>)
  {
    forall k :: 0 <= k < |events| ==> events[k].begins <= events[k].ends
  }

  /** No two events of the collection share an id. */
  predicate UniqueIds(events: seq<Event>)
  {
    forall j, k :: 0 <= j < |events| && 0 <= k < |events| && j != k ==> events[j].id != events[k].id
  }

  /** `chronoEventsComparer`: negative, zero or positive as `a` begins before, with or after `b`. */
  function ChronoEventsComparer(a: Event, b: Event): (r: int)
    ensures r < 0 <==> a.begins < b.begins
    ensures r == 0 <==> a.begins == b.begins
    ensures r > 0 <==> a.begins > b.begins
  {
    a.begins - b.begins
  }

  lemma ChronoEventsComparerAntisymmetric(a: Event, b: Event)
    ensures ChronoEventsComparer(a, b) == -ChronoEventsComparer(b, a)
  {
  }

  lemma ChronoEventsComparerTransitive(a: Event, b: Event, c: Event)
    requires ChronoEventsComparer(a, b) <= 0 && ChronoEventsComparer(b, c) <= 0
    ensures ChronoEventsComparer(a, c) <= 0
  {
  }

  /**
   * `eventsOverlap`: each event begins, moved earlier by `margin`, strictly
   * before the other one ends.
   */
  predicate EventsOverlap(one: Event, two: Event, margin: int)
  {
    one.begins - margin < two.ends && two.begins - margin < one.ends
  }

  function Max(a: int, b: int): int { if a < b then b else a }
  function Min(a: int, b: int): int { if a < b then a else b }

  /**
   * Reference reading, for events that are not empty once widened: the later
   * start, moved by `margin`, comes before the earlier end.
   */
  lemma EventsOverlapIsIntersection(one: Event, two: Event, margin: int)
    requires one.begins - margin < one.ends && two.begins - margin < two.ends
    ensures EventsOverlap(one, two, margin)
        <==> Max(one.begins, two.begins) - margin < Min(one.ends, two.ends)
  {
  }

  lemma EventsOverlapSymmetric(one: Event, two: Event, margin: int)
    ensures EventsOverlap(one, two, margin) <==> EventsOverlap(two, one, margin)
  {
  }

  /** With no margin, an event that ends exactly where the next begins does not overlap it. */
  lemma TouchingEventsDoNotOverlap(one: Event, two: Event)
    requires one.ends == two.begins
    ensures !EventsOverlap(one, two, 0) && !EventsOverlap(two, one, 0)
  {
  }

  /** Widening the margin never turns an overlap into a non-overlap. */
  lemma EventsOverlapMonotoneInMargin(one: Event, two: Event, m1: int, m2: int)
    requires m1 <= m2
    requires EventsOverlap(one, two, m1)
    ensures EventsOverlap(one, two, m2)
  {
  }

  /** Two well-formed events separated by a gap smaller than a positive margin overlap. */
  lemma NearbyEventsOverlapWithMargin(one: Event, two: Event, margin: int)
    requires one.begins <= one.ends <= two.begins <= two.ends
    requires 0 < margin && two.begins - one.ends < margin
    ensures EventsOverlap(one, two, margin)
  {
  }
}
