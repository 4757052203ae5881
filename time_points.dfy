/**
 * The transient point records that `activeTime` builds (src/funcs.js:18-38),
 * the comparer it sorts them with (src/funcs.js:14-16) and the sort itself.
 *
 * `Array.prototype.sort` is stable, so the sort is modelled as a stable
 * insertion sort on sequences: each later element is placed after every
 * earlier element whose time is not greater than its own.
 */
module TimePoints {

  /** `{type, time, id?}`: the window's two boundaries carry no id. */
  datatype TimePoint =
    | TimeStart(time: int)
    | TimeEnd(time: int)
    | WorkStart(time: int, id: int)
    | WorkEnds(time: int, id: int)

  /** `activeComparer`: orders points by time alone. */
  function ActiveComparer(a: TimePoint, b: TimePoint): (r: int)
    ensures r < 0 <==> a.time < b.time
    ensures r == 0 <==> a.time == b.time
    ensures r > 0 <==> a.time > b.time
  {
    a.time - b.time
  }

  predicate SortedByTime(s: seq<TimePoint>)
  {
    forall i, j :: 0 <= i < j < |s| ==> s[i].time <= s[j].time
  }

  /** Inserts `x` just before the first element that the comparer puts strictly after it. */
  function Insert(s: seq<TimePoint>, x: TimePoint): seq<TimePoint>
  {
    if s == [] then [x]
    else if ActiveComparer(x, s[0]) < 0 then [x] + s
    else [s[0]] + Insert(s[1..], x)
  }

  /** `timeEvents.sort(activeComparer)`, stable. */
  function SortByTime(s: seq<TimePoint>): seq<TimePoint>
  {
    if s == [] then [] else Insert(SortByTime(s[..|s| - 1]), s[|s| - 1])
  }

  /** The elements of `s` that satisfy `p`, in order. */
  function Filter(s: seq<TimePoint>, p: TimePoint -> bool): seq<TimePoint>
  {
    if s == [] then []
    else Filter(s[..|s| - 1], p) + (if p(s[|s| - 1]) then [s[|s| - 1]] else [])
  }

  /** The window boundaries. */
  predicate IsMarker(x: TimePoint)
  {
    x.TimeStart? || x.TimeEnd?
  }

  /** The points that belong to the event with id `id`. */
  function HasId(id: int): TimePoint -> bool
  {
    (x: TimePoint) => (x.WorkStart? || x.WorkEnds?) && x.id == id
  }

  /** The points at time `t`. */
  function AtTime(t: int): TimePoint -> bool
  {
    (x: TimePoint) => x.time == t
  }

  // ---- Filter ----

  lemma {:induction false} FilterAppend(a: seq<TimePoint>, b: seq<TimePoint>, p: TimePoint -> bool)
    ensures Filter(a + b, p) == Filter(a, p) + Filter(b, p)
    decreases |b|
  {
    if b == [] {
      assert a + b == a;
    } else {
      var init, last := b[..|b| - 1], b[|b| - 1];
      assert (a + b)[..|a + b| - 1] == a + init;
      assert (a + b)[|a + b| - 1] == last;
      FilterAppend(a, init, p);
    }
  }

  lemma FilterCons(x: TimePoint, s: seq<TimePoint>, p: TimePoint -> bool)
    ensures Filter([x] + s, p) == (if p(x) then [x] else []) + Filter(s, p)
  {
    FilterAppend([x], s, p);
    assert [x][..0] == [];
  }

  /** Every element kept by a filter satisfies its predicate and comes from the sequence. */
  lemma {:induction false} FilterElements(s: seq<TimePoint>, p: TimePoint -> bool)
    ensures forall y :: y in Filter(s, p) ==> y in s && p(y)
  {
    if s != [] {
      var init := s[..|s| - 1];
      FilterElements(init, p);
      assert forall y :: y in init ==> y in s;
    }
  }

  lemma FilterPair(a: TimePoint, b: TimePoint, p: TimePoint -> bool)
    ensures Filter([a, b], p) == (if p(a) then [a] else []) + (if p(b) then [b] else [])
  {
    assert [a, b][..1] == [a];
    assert [a][..0] == [];
    assert Filter([a], p) == (if p(a) then [a] else []);
    assert Filter([a, b], p) == Filter([a], p) + (if p(b) then [b] else []);
  }

  // ---- Insert ----

  lemma {:induction false} InsertCount(s: seq<TimePoint>, x: TimePoint)
    ensures multiset(Insert(s, x)) == multiset(s) + multiset{x}
  {
    if s != [] && ActiveComparer(x, s[0]) >= 0 {
      InsertCount(s[1..], x);
      assert s == [s[0]] + s[1..];
    }
  }

  lemma {:induction false} InsertSorted(s: seq<TimePoint>, x: TimePoint)
    requires SortedByTime(s)
    ensures SortedByTime(Insert(s, x))
  {
    if s != [] && ActiveComparer(x, s[0]) >= 0 {
      var tail := s[1..];
      assert forall j :: 0 <= j < |tail| ==> tail[j] == s[j + 1];
      InsertSorted(tail, x);
      InsertBound(tail, x, s[0].time);
      SortedCons(s[0], Insert(tail, x));
    }
  }

  /** Inserting keeps a lower bound on the times that both the sequence and the new point meet. */
  lemma {:induction false} InsertBound(s: seq<TimePoint>, x: TimePoint, lo: int)
    requires forall j :: 0 <= j < |s| ==> lo <= s[j].time
    requires lo <= x.time
    ensures forall j :: 0 <= j < |Insert(s, x)| ==> lo <= Insert(s, x)[j].time
  {
    if s != [] && ActiveComparer(x, s[0]) >= 0 {
      var tail := s[1..];
      assert forall j :: 0 <= j < |tail| ==> tail[j] == s[j + 1];
      InsertBound(tail, x, lo);
    }
  }

  /** A sorted sequence stays sorted behind an element no later than any of its own. */
  lemma SortedCons(a: TimePoint, r: seq<TimePoint>)
    requires SortedByTime(r)
    requires forall j :: 0 <= j < |r| ==> a.time <= r[j].time
    ensures SortedByTime([a] + r)
  {
    var t := [a] + r;
    forall i, j | 0 <= i < j < |t| ensures t[i].time <= t[j].time {
      assert t[j] == r[j - 1];
      if i > 0 {
        assert t[i] == r[i - 1];
      }
    }
  }

  /** Inserting after a run of elements that are all at most as late appends. */
  lemma {:induction false} InsertAfterEarlier(s: seq<TimePoint>, x: TimePoint)
    requires forall j :: 0 <= j < |s| ==> s[j].time <= x.time
    ensures Insert(s, x) == s + [x]
  {
    if s != [] {
      InsertAfterEarlier(s[1..], x);
      assert s == [s[0]] + s[1..];
    }
  }

  /** Inserting before a run of strictly later elements prepends. */
  lemma InsertBeforeLater(s: seq<TimePoint>, x: TimePoint)
    requires forall j :: 0 <= j < |s| ==> x.time < s[j].time
    ensures Insert(s, x) == [x] + s
  {
  }

  /** Filtering after inserting is inserting into the filtered sequence. */
  lemma {:induction false} FilterInsert(s: seq<TimePoint>, x: TimePoint, p: TimePoint -> bool)
    requires SortedByTime(s)
    ensures Filter(Insert(s, x), p) == if p(x) then Insert(Filter(s, p), x) else Filter(s, p)
    decreases |s|, 1
  {
    if s == [] {
      assert Filter([x], p) == Filter([] + [x], p);
    } else if ActiveComparer(x, s[0]) < 0 {
      FilterInsertBefore(s, x, p);
    } else {
      FilterInsertAfter(s, x, p);
    }
  }

  lemma FilterInsertBefore(s: seq<TimePoint>, x: TimePoint, p: TimePoint -> bool)
    requires SortedByTime(s) && s != [] && x.time < s[0].time
    ensures Filter(Insert(s, x), p) == if p(x) then Insert(Filter(s, p), x) else Filter(s, p)
  {
    assert Insert(s, x) == [x] + s;
    FilterCons(x, s, p);
    FilterElements(s, p);
    var f := Filter(s, p);
    forall j | 0 <= j < |f| ensures x.time < f[j].time {
      assert f[j] in s;
    }
    InsertBeforeLater(f, x);
  }

  lemma {:induction false} FilterInsertAfter(s: seq<TimePoint>, x: TimePoint, p: TimePoint -> bool)
    requires SortedByTime(s) && s != [] && s[0].time <= x.time
    ensures Filter(Insert(s, x), p) == if p(x) then Insert(Filter(s, p), x) else Filter(s, p)
    decreases |s|, 0
  {
    var head, tail := s[0], s[1..];
    assert s == [head] + tail;
    var i := Insert(tail, x);
    assert Insert(s, x) == [head] + i;
    FilterCons(head, i, p);
    FilterInsert(tail, x, p);
    FilterCons(head, tail, p);
    var f := Filter(tail, p);
    if p(head) {
      assert Filter(s, p) == [head] + f;
      assert ([head] + f)[1..] == f;
      assert Insert([head] + f, x) == [head] + Insert(f, x);
    } else {
      assert Filter(s, p) == f;
    }
  }

  // ---- SortByTime ----

  lemma {:induction false} SortByTimeCount(s: seq<TimePoint>)
    ensures multiset(SortByTime(s)) == multiset(s)
  {
    if s != [] {
      SortByTimeCount(s[..|s| - 1]);
      InsertCount(SortByTime(s[..|s| - 1]), s[|s| - 1]);
      assert s == s[..|s| - 1] + [s[|s| - 1]];
    }
  }

  lemma {:induction false} SortByTimeSorted(s: seq<TimePoint>)
    ensures SortedByTime(SortByTime(s))
  {
    if s != [] {
      SortByTimeSorted(s[..|s| - 1]);
      InsertSorted(SortByTime(s[..|s| - 1]), s[|s| - 1]);
    }
  }

  /** The sort commutes with every filter: it never reorders elements beyond what their times demand. */
  lemma {:induction false} FilterSortByTime(s: seq<TimePoint>, p: TimePoint -> bool)
    ensures Filter(SortByTime(s), p) == SortByTime(Filter(s, p))
  {
    if s != [] {
      var init, last := s[..|s| - 1], s[|s| - 1];
      FilterSortByTime(init, p);
      SortByTimeSorted(init);
      FilterInsert(SortByTime(init), last, p);
      if p(last) {
        var f := Filter(init, p) + [last];
        assert f[..|f| - 1] == Filter(init, p);
      } else {
        assert Filter(s, p) == Filter(init, p);
      }
    }
  }

  /** A sequence whose elements all share one time is already sorted as it stands. */
  lemma {:induction false} SortByTimeOfEqualTimes(s: seq<TimePoint>, t: int)
    requires forall j :: 0 <= j < |s| ==> s[j].time == t
    ensures SortByTime(s) == s
  {
    if s != [] {
      var init := s[..|s| - 1];
      SortByTimeOfEqualTimes(init, t);
      InsertAfterEarlier(init, s[|s| - 1]);
    }
  }

  /** Stability: the points that share a time keep their relative order. */
  lemma SortByTimeStable(s: seq<TimePoint>, t: int)
    ensures Filter(SortByTime(s), AtTime(t)) == Filter(s, AtTime(t))
  {
    FilterSortByTime(s, AtTime(t));
    var f := Filter(s, AtTime(t));
    FilterElements(s, AtTime(t));
    assert forall j :: 0 <= j < |f| ==> f[j] in f;
    SortByTimeOfEqualTimes(f, t);
  }

  /** Sorting two points: they swap only when the second is strictly earlier. */
  lemma SortByTimePair(a: TimePoint, b: TimePoint)
    ensures SortByTime([a, b]) == if b.time < a.time then [b, a] else [a, b]
  {
    assert [a, b][..1] == [a];
    assert [a][..0] == [];
    assert SortByTime([a]) == [a];
    assert SortByTime([a, b]) == Insert([a], b);
    assert [a][1..] == [];
    if b.time >= a.time {
      assert Insert([a], b) == [a] + Insert([], b);
    }
  }
}
