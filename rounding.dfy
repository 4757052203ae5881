/**
 * `nearestTime` (src/funcs.js:110-112): `Math.round(time / roundTo) * roundTo`,
 * over integers. `Math.round` takes the nearest integer and rounds an exact
 * half toward positive infinity, so the quotient is `floor((2 * time + roundTo) / (2 * roundTo))`.
 */
module Rounding {

  function Abs(x: int): nat { if x < 0 then -x else x }

  /** A non-zero multiple of a positive `s` is at least `s` away from zero. */
  lemma ProductBound(c: int, s: int)
    requires s > 0
    ensures c >= 1 ==> c * s >= s
    ensures c <= -1 ==> c * s <= -s
  {
    if c >= 1 {
      assert c * s == (c - 1) * s + s;
    } else if c <= -1 {
      assert c * s == (c + 1) * s - s;
    }
  }

  /** `q * s` is a multiple of `s`. */
  lemma MultipleMod(q: int, s: int)
    requires s > 0
    ensures (q * s) % s == 0
  {
    var r := (q * s) % s;
    var d := (q * s) / s;
    assert q * s == d * s + r;
    assert (q - d) * s == r;
    ProductBound(q - d, s);
  }

  /** Two multiples of `s` closer than `s` to each other are equal. */
  lemma CloseMultiplesEqual(a: int, b: int, s: int)
    requires s > 0 && a % s == 0 && b % s == 0
    requires a - b < s && b - a < s
    ensures a == b
  {
    var qa, qb := a / s, b / s;
    assert a == qa * s && b == qb * s;
    assert a - b == (qa - qb) * s;
    ProductBound(qa - qb, s);
  }

  /**
   * The multiple of `roundTo` nearest to `time`; of two equally near ones,
   * the larger.
   */
  function NearestTime(time: int, roundTo: int): (r: int)
    requires roundTo > 0
    ensures r % roundTo == 0
    ensures 2 * (r - time) <= roundTo && 2 * (time - r) < roundTo
  {
    var q := (2 * time + roundTo) / (2 * roundTo);
    var rem := (2 * time + roundTo) % (2 * roundTo);
    assert 2 * time + roundTo == q * (2 * roundTo) + rem;
    assert q * (2 * roundTo) == 2 * (q * roundTo);
    MultipleMod(q, roundTo);
    q * roundTo
  }

  /** The two bounds of NearestTime single out its result among the multiples of `roundTo`. */
  lemma NearestTimeUnique(time: int, roundTo: int, m: int)
    requires roundTo > 0
    requires m % roundTo == 0
    requires 2 * (m - time) <= roundTo && 2 * (time - m) < roundTo
    ensures m == NearestTime(time, roundTo)
  {
    CloseMultiplesEqual(m, NearestTime(time, roundTo), roundTo);
  }

  /** No multiple of `roundTo` is nearer to `time` than NearestTime's result. */
  lemma NearestTimeIsNearest(time: int, roundTo: int, k: int)
    requires roundTo > 0
    ensures Abs(time - NearestTime(time, roundTo)) <= Abs(time - k * roundTo)
  {
    var r := NearestTime(time, roundTo);
    var m := k * roundTo;
    MultipleMod(k, roundTo);
    if m != r {
      if m - r < roundTo && r - m < roundTo {
        CloseMultiplesEqual(m, r, roundTo);
      }
    }
  }

  /** A time that is already a multiple of the step comes back unchanged. */
  lemma NearestTimeOfMultiple(time: int, roundTo: int)
    requires roundTo > 0 && time % roundTo == 0
    ensures NearestTime(time, roundTo) == time
  {
    NearestTimeUnique(time, roundTo, time);
  }

  /** Exact halves round up, also below zero (`Math.round(-0.5)` is zero). */
  lemma NearestTimeExamples()
    ensures NearestTime(47, 15) == 45
    ensures NearestTime(53, 15) == 60
    ensures NearestTime(5, 10) == 10
    ensures NearestTime(-5, 10) == 0
    ensures NearestTime(-15, 10) == -10
  {
    NearestTimeUnique(47, 15, 45);
    NearestTimeUnique(53, 15, 60);
    NearestTimeUnique(5, 10, 10);
    NearestTimeUnique(-5, 10, 0);
    NearestTimeUnique(-15, 10, -10);
  }
}
