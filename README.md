# event-time-utils in Dafny

This project models `src/funcs.js` of event-time-utils, a small toolkit for
calendar events `{id, begins, ends, invisible?, stackIndex?}`:

- `chronoEventsComparer` and `activeComparer`: sort comparers that order by time.
- `eventsOverlap`: a strict overlap test widened by a margin.
- `activeTime`: a sweep line that totals how long at least one event is
  running inside a window.
- `eventsInRange`: an order-keeping filter with inclusive bounds.
- `stackEvents`: greedy first-fit lane ("stack index") assignment. It works on
  a copied array that it overwrites position by position.
- `nearestTime`: rounds to the nearest multiple of a step.

Times, ids and lane numbers are mathematical integers. A missing
`stackIndex` is `None`, and a missing or zero `margin` means 0.

Modules:

- `Wrappers`: `Option`.
- `Events`: the event record, the two event predicates and the comparer.
- `Rounding`: `nearestTime`.
- `RangeFilter`: `eventsInRange`, as a method whose loop is proved equal to a
  filter function.
- `TimePoints`: the four kinds of sweep point and `activeComparer`.
  - The sweep sorts with JavaScript's stable `Array.prototype.sort`. That
    sort is modelled as a stable insertion sort, `SortByTime`.
  - `SortByTime` is proved sorted, a permutation, and stable.
- `Sweep`: one sweep step as a function on the loop's four variables, and the
  sweep as a fold over the sorted points. It holds the bounds on the total.
- `Coverage`: an independent reference meaning, `CoveredLength`: the number
  of milliseconds of the window during which some event is running. It proves
  that for well-formed events with distinct ids and a window that is not
  reversed (`starts <= ends`) the sweep computes exactly this value. Nested events, disjoint events and overlapping events follow.
- `ActiveTime`: the `activeTime` method, with its push loop and its sweep
  loop. It also holds the trimming of the hours string, and an example
  showing that two events sharing an id are undercounted.
- `Stacking`: the `stackEvents` method on an `array`, with its nested scan
  and its `while` loop.
  - It is proved equal to a function that rebuilds the array step by step.
  - That function yields these lemmas: the assignment rule, no shared lane,
    idempotence, and order dependence.

Behaviour of the code that the model keeps, and that is easy to get wrong:

- `nearestTime(53, 15)` is 60, the nearest multiple of 15.
  `nearestTime(-5, 10)` is 0, because `Math.round` rounds exact halves toward
  +∞, not away from zero.
- Points with equal times stay in the order they were pushed: the window
  start, the window end, then each event's start and end in input order.
  No other tie-break applies.
  - So with `starts == ends` the window opens and closes at once, and the
    total is 0.
- A reversed window (`ends < starts`) is not empty.
  - The `timeend` point comes first and closes nothing.
  - The `timestart` point then opens the window, and nothing closes it again.
  - So active time from `starts` to the last point is counted.
  - This is proved for a single event running across the window: an event
    from 0 to 100 with `starts` 50 and `ends` 10 gives 50
    (`Sweep.ReversedWindowCountsFromStart`).
- Invisible events are skipped when lanes are collected (src/funcs.js:93).
  So an invisible event never holds a lane against another event.
- Lanes that were already present on the input are never checked against
  each other. The no-shared-lane property therefore holds only when at least
  one of the two overlapping events had no lane on input.
- An invisible event that already has a lane keeps that lane, which may be
  non-zero.

## Model

| member | source | states |
|---|---|---|
| `Events.ChronoEventsComparer` | src/funcs.js:3-5 | the result is negative, zero or positive exactly when `a` begins before, together with or after `b` |
| `Events.ChronoEventsComparerAntisymmetric` | src/funcs.js:3-5 | swapping the arguments negates the result |
| `Events.ChronoEventsComparerTransitive` | src/funcs.js:3-5 | the order it induces is transitive |
| `Events.EventsOverlap` | src/funcs.js:7-11 | definition of the overlap test, with no contract of its own; specified by `EventsOverlapIsIntersection`, `EventsOverlapSymmetric`, `TouchingEventsDoNotOverlap`, `EventsOverlapMonotoneInMargin` and `NearbyEventsOverlapWithMargin` |
| `Events.EventsOverlapIsIntersection` | src/funcs.js:7-11 | for events that are not empty once widened, they overlap exactly when the later start, less the margin, precedes the earlier end |
| `Events.EventsOverlapSymmetric` | src/funcs.js:7-11 | overlap does not depend on argument order |
| `Events.TouchingEventsDoNotOverlap` | src/funcs.js:7-11 | an event ending exactly where another begins does not overlap it at margin 0, in either order |
| `Events.EventsOverlapMonotoneInMargin` | src/funcs.js:7-11 | a larger margin keeps every overlap |
| `Events.NearbyEventsOverlapWithMargin` | src/funcs.js:7-11 | two well-formed events, the first ending no later than the second begins, separated by a gap smaller than a positive margin, overlap |
| `TimePoints.ActiveComparer` | src/funcs.js:14-16 | the sign of the result is the order of the two points' times |
| `TimePoints.Insert` | src/funcs.js:39 | definition of one insertion step of the stable sort, with no contract of its own; a point goes before the first element that is strictly later, and after every element with the same time |
| `TimePoints.SortByTime` | src/funcs.js:39 | definition of the stable sort by `activeComparer`, with no contract of its own; specified by `SortByTimeSorted`, `SortByTimeCount`, `FilterSortByTime` and `SortByTimeStable` |
| `TimePoints.SortByTimeSorted` | src/funcs.js:39 | the sorted points are in ascending time |
| `TimePoints.SortByTimeCount` | src/funcs.js:39 | sorting is a permutation: every point keeps its number of occurrences |
| `TimePoints.FilterSortByTime` | src/funcs.js:39 | sorting commutes with selecting any subset of the points, so the relative order of any selection is kept up to time order |
| `TimePoints.SortByTimeStable` | src/funcs.js:39 | points with the same time keep the order in which they were pushed |
| `Sweep.WorkPoints` | src/funcs.js:27-38 | definition of the points pushed for the events, with no contract of its own; `WorkPointsOrder` states their order |
| `Sweep.WorkPointsOrder` | src/funcs.js:27-38 | event `k` gives its `workstart` at position `2k` and its `workends` at `2k + 1`: input order, start before end |
| `Sweep.Points` | src/funcs.js:18-38 | definition of the unsorted point stream in push order (window start, window end, then the events' points), with no contract of its own |
| `Sweep.Step` | src/funcs.js:46-65 | definition of one loop iteration on the four loop variables, with no contract of its own; specified by `WorkEndsOfInactiveIdIsNoOp`, `WorkStartOfActiveIdIsNoOp`, `RunNonNegative` and `RunWindowBound` |
| `Sweep.Run` | src/funcs.js:41-66 | definition of the loop as a fold from the initial values of src/funcs.js:41-44, with no contract of its own; specified by `RunNonNegative`, `RunWindowBound`, `Coverage.ActiveIff` and `Coverage.SweepInvariant` |
| `Sweep.ActiveTimeTotal` | src/funcs.js:17-66 | definition of the millisecond total, with no contract of its own; specified by `ActiveTimeNonNegative`, `ActiveTimeWithinWindow`, `ReversedWindowCountsFromStart` and `Coverage.ActiveTimeIsCoveredLength` |
| `Sweep.WorkEndsOfInactiveIdIsNoOp` | src/funcs.js:54-58 | a `workends` for an id that is not active leaves the active set and the window flag unchanged |
| `Sweep.WorkStartOfActiveIdIsNoOp` | src/funcs.js:51-53 | a `workstart` for an id already active leaves the active set unchanged |
| `Sweep.RunNonNegative` | src/funcs.js:45-66 | on points in ascending time the accumulated total is never negative |
| `Sweep.RunWindowBound` | src/funcs.js:45-66 | on points in ascending time whose window points so far are a prefix of start then end: before the window start nothing is counted; inside the window the total is at most the time elapsed since the start; after the end it is at most the window length |
| `Sweep.SortedWindowMarkers` | src/funcs.js:18-39 | after sorting, the window points come in the order start, end, unless the end is earlier than the start |
| `Sweep.ActiveTimeNonNegative` | src/funcs.js:17-66 | the millisecond total is never negative |
| `Sweep.ActiveTimeWithinWindow` | src/funcs.js:17-66 | if the window is not reversed, the total is at most its length, for any events |
| `Sweep.ActiveTimeOfNoEvents` | src/funcs.js:17-66 | with no events the total is 0 |
| `Sweep.ReversedWindowCountsFromStart` | src/funcs.js:60-65 | with `ends < starts` and a single event running from before `ends` to after `starts`, the total counts from `starts` to the event's end |
| `Coverage.WorkPointsOfEvent` | src/funcs.js:27-38 | with distinct ids, the points pushed for an id are exactly that event's start and end |
| `Coverage.SortedPointsReady` | src/funcs.js:18-39 | for well-formed events with distinct ids and `starts <= ends`, the sorted points satisfy what the sweep needs: ascending, window start before window end, and each event's start before its end |
| `Coverage.ActiveIff` | src/funcs.js:41-58 | an id is in the active set exactly when its latest point so far is a `workstart` |
| `Coverage.ActiveAtGap` | src/funcs.js:46-58 | on a sorted stream of well-formed events with distinct ids and `starts <= ends` (`SweepReady`), between two distinct times of the sweep, the active set is non-empty exactly when some event is running |
| `Coverage.SweepInvariant` | src/funcs.js:45-66 | on a sorted stream of well-formed events with distinct ids and `starts <= ends` (`SweepReady`), at every step of the sweep, the total equals the covered time from the window start to the last point seen, and stops growing after the window end |
| `Coverage.ActiveTimeIsCoveredLength` | src/funcs.js:17-66 | for well-formed events with distinct ids and a window that is not reversed, the total is exactly the number of milliseconds of the window covered by some event |
| `Coverage.CoveredLengthBounds` | src/funcs.js:17-66 | when `a <= b`, the covered time never exceeds the window length `b - a` |
| `Coverage.ActiveTimeNestedEvent` | src/funcs.js:41-58 | for well-formed events with distinct ids (the added one included) and `starts <= ends`, adding an event that lies inside another event does not change the total |
| `Coverage.CoveredLengthOfDisjoint` | src/funcs.js:17-66 | when `a <= b`, for pairwise disjoint events, the covered time is the sum of each event's length clipped to the window |
| `Coverage.ActiveTimeOfDisjointEvents` | src/funcs.js:17-66 | for well-formed, pairwise disjoint events with distinct ids and `starts <= ends`, the total is the sum of their durations clipped to the window |
| `Coverage.ActiveTimeOfOverlappingPair` | src/funcs.js:17-66 | two events with distinct ids where the second starts within the first and ends after it are merged: over the window from the first start to the second end the total is the window length (events [0,100) and [50,150) give 150) |
| `ActiveTime.ActiveTime` | src/funcs.js:17-66 | the two loops compute the sweep total, which is non-negative for every input; when `starts <= ends` it is at most the window length, and for well-formed events with distinct ids it is also exactly the covered time |
| `ActiveTime.SharedIdUndercounts` | src/funcs.js:41-58 | two events sharing an id are one active occupant: [0,10) and [5,20) with the same id give 10, although 20 milliseconds are covered |
| `ActiveTime.StripTrailing` | src/funcs.js:67 | the result is a prefix of the input, does not end in the character, and everything removed was that character |
| `ActiveTime.TrimHours` | src/funcs.js:67 | the trimmed text is a prefix of the fixed-point text and does not end in a decimal point |
| `ActiveTime.TrimHoursWholeHours` | src/funcs.js:67 | a whole number of hours `d.00`, where `d` does not end in a point, becomes `d` ("2.00" becomes "2", "10.00" becomes "10") |
| `ActiveTime.TrimHoursTenths` | src/funcs.js:67 | `d.f0` with `f` neither `0` nor a point becomes `d.f` ("2.50" becomes "2.5") |
| `ActiveTime.TrimHoursHundredths` | src/funcs.js:67 | `d.fg` with `g` neither `0` nor a point is unchanged ("1.25") |
| `RangeFilter.InRange` | src/funcs.js:74 | definition of the range test, with no contract of its own; `BoundaryTouchingIncluded` and `FilterInRangeMembers` use it |
| `RangeFilter.FilterInRange` | src/funcs.js:71-79 | definition of the filter the loop computes, with no contract of its own; specified by `FilterInRangeCounts`, `FilterInRangeMembers`, `FilterInRangeIsSubsequence` and `FilterInRangeLength` |
| `RangeFilter.EventsInRange` | src/funcs.js:71-79 | the loop returns exactly the events with `starts <= ends of event` and `ends >= begins of event`, as a subsequence of the input in its original order |
| `RangeFilter.FilterInRangeCounts` | src/funcs.js:71-79 | every event in range occurs as often in the output as in the input, and every other event does not occur |
| `RangeFilter.FilterInRangeMembers` | src/funcs.js:71-79 | an event is in the output exactly when it is in the input and in range |
| `RangeFilter.FilterInRangeIsSubsequence` | src/funcs.js:71-79 | the output is a subsequence of the input |
| `RangeFilter.FilterInRangeLength` | src/funcs.js:71-79 | the output is no longer than the input |
| `RangeFilter.BoundaryTouchingIncluded` | src/funcs.js:74 | for a well-formed event of the input and `starts <= ends`, an event ending exactly at the window start, or beginning exactly at the window end, is included |
| `Stacking.MarginOrZero` | src/funcs.js:82-84 | definition: an absent margin is 0 (`Wrappers.Option.GetOr` states the two cases), with no contract of its own |
| `Stacking.Takes` | src/funcs.js:93-95 | definition of "this entry holds a lane against the current event": visible, laned and overlapping; no contract of its own, used by `Taken` |
| `Stacking.Taken` | src/funcs.js:91-97 | a lane is taken exactly when some scanned entry is visible, has a lane and overlaps the current event, and its lane is that one |
| `Stacking.LeastFree` | src/funcs.js:98-103 | the result is the least non-negative lane that is not taken |
| `Stacking.NewEvent` | src/funcs.js:87-104 | reading the array, the callback returns the event unchanged if it has a lane, else lane 0 if invisible, else the least lane not taken by the visible, laned, overlapping entries of the array |
| `Stacking.Assign` | src/funcs.js:87-104 | definition of the copy written at one position, with no contract of its own; `NewEvent` is proved to compute it and `StackEventsAssignment` states it for the output |
| `Stacking.StackedPrefix` | src/funcs.js:85-106 | definition of the array after `n` positions; its contract keeps the length, and `StackedPrefixState` and `StackedAt` describe its contents |
| `Stacking.StackEventsSpec` | src/funcs.js:81-108 | definition of the returned array, with no contract of its own; specified by `StackEventsKeepsEvents`, `StackEventsAssignment`, `StackEventsNoSharedLane` and `StackEventsIdempotent` |
| `Stacking.StackEvents` | src/funcs.js:81-108 | the in-place pass returns the step-by-step specification; every output event has a lane; an event that had one is unchanged; overlapping visible events never share a lane when one of them was unassigned |
| `Stacking.StackedPrefixState` | src/funcs.js:85-106 | while position `n` is processed, the array holds the final copies before `n` and the input events from `n` on |
| `Stacking.StackedAt` | src/funcs.js:86-105 | the final copy at position `k` is the one computed against the array as it stood when position `k` was processed |
| `Stacking.StackEventsKeepsEvents` | src/funcs.js:85-107 | same length and order; each output event is its input event with a lane; an event that already had a lane is returned unchanged |
| `Stacking.StackEventsAssignment` | src/funcs.js:90-103 | an event without a lane gets lane 0 if invisible. Otherwise it gets the least lane not held by a visible, overlapping, already-laned entry of the array as it stands when that event is processed |
| `Stacking.StackEventsNoSharedLane` | src/funcs.js:91-103 | two distinct visible events that overlap under the margin have different lanes when at least one had no lane on input |
| `Stacking.StackEventsIdempotent` | src/funcs.js:85-107 | stacking the output again returns it unchanged |
| `Stacking.FullyAssignedUnchanged` | src/funcs.js:90 | an input whose events all have lanes is returned unchanged |
| `Stacking.StackEventsExample` | src/funcs.js:81-108 | [0,100) and [50,150) get lanes 0 and 1 |
| `Stacking.StackEventsOrderDependent` | src/funcs.js:81-108 | the same two events in reverse order get their lanes swapped |
| `Stacking.StackEventsInvisibleExample` | src/funcs.js:93 | an invisible event gets lane 0 and does not keep an overlapping visible event off lane 0 |
| `Rounding.NearestTime` | src/funcs.js:110-112 | for a positive step, the result is a multiple of the step, at most half a step above the time and less than half a step below it, so exact halves round up |
| `Rounding.NearestTimeUnique` | src/funcs.js:110-112 | only one multiple of the step satisfies those bounds |
| `Rounding.NearestTimeIsNearest` | src/funcs.js:110-112 | no multiple of the step is closer to the time than the result |
| `Rounding.NearestTimeOfMultiple` | src/funcs.js:110-112 | a time that is already a multiple of the step is returned unchanged |
| `Rounding.NearestTimeExamples` | src/funcs.js:110-112 | (47, 15) gives 45, (53, 15) gives 60, (5, 10) gives 10, (-5, 10) gives 0, (-15, 10) gives -10 |

## Left out

- The conversion of the millisecond total to hours, `/ (1000 * 60 * 60)` and
  `toFixed(2)` (src/funcs.js:67), is floating point and is not modelled.
  - `ActiveTime.ActiveTime` returns the integer millisecond total instead.
  - Only the trimming of the fixed-point text is modelled, as `TrimHours`.
- `ActiveTime.ActiveTime`: the sort is a library call. It is modelled as the
  pure stable sort `SortByTime` applied to the sequence, not as an in-place
  sort of an array.
- JavaScript coercions are left out:
  - `+starts` and `+event.begins`;
  - ids and lanes becoming string keys of `activeEventIds` and `takenStacks`;
  - `'stackIndex' in` as a presence test.

  Times, ids and lanes are integers, and a present-or-absent lane is an `Option`.
- Number precision. Integers are unbounded here, while JavaScript numbers are
  exact only up to 2^53.
- `Rounding.NearestTime`: it requires a positive step. A zero or negative step
  (NaN or reflected rounding in JavaScript) and inexact floating-point
  division are not modelled.
- `!margin` is modelled as an absent margin or a margin of 0. A NaN margin is
  not modelled.
- `Stacking.StackEvents`: the input objects are copied into fresh records, so
  aliasing between input and output is not modelled. The object spread
  `{...event}` is a value copy of the record.
- The unused `moment` import (src/funcs.js:1) is not part of this model.
- src/index.js only re-exports the functions, and webpack.config.js is build
  configuration; neither is part of this model.
