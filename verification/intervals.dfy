/** Windows within one day and their geometry (`Interval` in the daemon).
    An interval stands for the half-open set of minutes it covers,
    `[start, end)`: under that reading touching intervals merge without gaining
    a minute, and the pieces `subtract` leaves behind are exactly the minutes of
    one window that the other does not cover. */
module Intervals {
  import opened Results
  import opened Times

  datatype Interval = Interval(start: TimeOfDay, end: TimeOfDay)

  /** The default window when a bound is omitted: the whole day. */
  const FullDay := Interval(DayBegins, DayEnds)

  /** Valid bounds, in order. Parsing checks the bounds but not their order. */
  predicate WellFormed(i: Interval) {
    Valid(i.start) && Valid(i.end) && Le(i.start, i.end)
  }

  predicate AllWellFormed(s: seq<Interval>) {
    forall i :: 0 <= i < |s| ==> WellFormed(s[i])
  }

  predicate Between(lo: int, k: int, hi: int) {
    lo <= k < hi
  }

  /** The integers from `lo` up to, not including, `hi`. */
  function Range(lo: int, hi: int): (r: set<int>)
    ensures forall k :: k in r <==> lo <= k < hi
  {
    set k: int | lo <= k < hi && Between(lo, k, hi)
  }

  /** The minutes an interval covers. */
  function Minutes(i: Interval): set<int> {
    Range(AsMinutes(i.start), AsMinutes(i.end))
  }

  /** Every minute of the day. */
  function DayMinutes(): set<int> {
    Range(0, MinutesPerDay)
  }

  /** The minutes a list of intervals covers. */
  function Coverage(s: seq<Interval>): set<int> {
    if |s| == 0 then {} else Minutes(s[0]) + Coverage(s[1..])
  }

  lemma RangeCongruence(a: int, b: int, c: int, d: int)
    requires a == c && b == d
    ensures Range(a, b) == Range(c, d)
  {
  }

  /** The whole-day window covers every minute of the day. */
  lemma FullDayMinutes()
    ensures Minutes(FullDay) == DayMinutes()
    ensures Coverage([FullDay]) == DayMinutes()
  {
    var lo, hi := AsMinutes(FullDay.start), AsMinutes(FullDay.end);
    assert lo == 0 && hi == MinutesPerDay;
    RangeCongruence(lo, hi, 0, MinutesPerDay);
    CoverageSingleton(FullDay);
  }

  lemma CoverageSingleton(x: Interval)
    ensures Coverage([x]) == Minutes(x)
  {
    assert [x][1..] == [];
  }

  lemma {:induction false} CoverageAppend(a: seq<Interval>, b: seq<Interval>)
    ensures Coverage(a + b) == Coverage(a) + Coverage(b)
  {
    if |a| > 0 {
      assert (a + b)[1..] == a[1..] + b;
      CoverageAppend(a[1..], b);
    } else {
      assert a + b == b;
    }
  }

  lemma {:induction false} CoverageOfWellFormedIsInDay(s: seq<Interval>)
    requires AllWellFormed(s)
    ensures Coverage(s) <= DayMinutes()
  {
    if |s| > 0 {
      CoverageOfWellFormedIsInDay(s[1..]);
    }
  }

  /** A covered minute lies in some interval of the list. */
  lemma {:induction false} CoverageWitness(s: seq<Interval>, k: int)
    requires k in Coverage(s)
    ensures exists i :: 0 <= i < |s| && k in Minutes(s[i])
  {
    if k !in Minutes(s[0]) {
      CoverageWitness(s[1..], k);
      var i :| 0 <= i < |s[1..]| && k in Minutes(s[1..][i]);
      assert k in Minutes(s[i + 1]);
    }
  }

  /** The minutes of every interval of the list are covered. */
  lemma {:induction false} CoverageMember(s: seq<Interval>, i: int)
    requires 0 <= i < |s|
    ensures Minutes(s[i]) <= Coverage(s)
  {
    if i > 0 {
      CoverageMember(s[1..], i - 1);
    }
  }

  lemma {:induction false} RangeSize(lo: int, hi: int)
    requires lo <= hi
    ensures |Range(lo, hi)| == hi - lo
    decreases hi - lo
  {
    if lo == hi {
      assert Range(lo, hi) == {};
    } else {
      RangeSize(lo + 1, hi);
      assert Range(lo, hi) == {lo} + Range(lo + 1, hi);
    }
  }

  // ---------------------------------------------------------------------------
  // Single-interval operations

  /** Time left in the window at `time`, in seconds: `None` outside the window,
      which is closed at both ends here. The daemon only builds valid times, and
      for them the subtraction of durations cannot underflow. */
  function Remaining(i: Interval, time: TimeOfDay): (r: Option<nat>)
    requires Valid(i.end) && Valid(time)
    ensures r.Some? <==> Le(i.start, time) && Le(time, i.end)
    ensures r.Some? ==> r.value == 60 * |Range(AsMinutes(time), AsMinutes(i.end))|
  {
    if Lt(time, i.start) || Lt(i.end, time) then None
    else
      RangeSize(AsMinutes(time), AsMinutes(i.end));
      Some(Seconds(i.end) - Seconds(time))
  }

  /** The worked example: five minutes remain at 09:25 in 09:00-09:30, and
      nothing at 09:31. */
  lemma RemainingExamples()
    ensures Remaining(Interval(TimeOfDay(9, 0), TimeOfDay(9, 30)), TimeOfDay(9, 25)) == Some(300)
    ensures Remaining(Interval(TimeOfDay(9, 0), TimeOfDay(9, 30)), TimeOfDay(9, 31)) == None
    ensures Remaining(Interval(TimeOfDay(9, 0), TimeOfDay(9, 30)), TimeOfDay(9, 30)) == Some(0)
  {
  }

  /** The length in minutes: the number of minutes covered. */
  function Len(i: Interval): (r: u16)
    requires WellFormed(i)
    ensures r == |Minutes(i)|
  {
    RangeSize(AsMinutes(i.start), AsMinutes(i.end));
    AsMinutes(i.end) - AsMinutes(i.start)
  }

  /** `intersects`: one of the other's bounds lies in this closed window.
      Touching windows intersect. */
  function Intersects(a: Interval, b: Interval): (r: bool)
    ensures Valid(a.start) && Valid(a.end) && Valid(b.start) && Valid(b.end) ==>
              (r <==> || AsMinutes(a.start) <= AsMinutes(b.start) <= AsMinutes(a.end)
                      || AsMinutes(a.start) <= AsMinutes(b.end) <= AsMinutes(a.end))
  {
    (Le(a.start, b.start) && Le(b.start, a.end)) || (Le(a.start, b.end) && Le(b.end, a.end))
  }

  /** For a first argument that starts no later, intersecting means the second
      starts no later than the first ends. */
  lemma IntersectsInOrder(a: Interval, b: Interval)
    requires Le(a.start, b.start) && Le(b.start, b.end)
    ensures Intersects(a, b) <==> Le(b.start, a.end)
  {
  }

  /** `intersects` is not symmetric: a window strictly inside another does not
      intersect it, although the other intersects the window. */
  lemma IntersectsNotSymmetric()
    ensures !Intersects(Interval(TimeOfDay(10, 0), TimeOfDay(11, 0)), Interval(TimeOfDay(9, 0), TimeOfDay(12, 0)))
    ensures Intersects(Interval(TimeOfDay(9, 0), TimeOfDay(12, 0)), Interval(TimeOfDay(10, 0), TimeOfDay(11, 0)))
  {
  }

  /** `merge`: the hull of two intersecting windows. For well-formed windows it
      covers exactly the minutes of the two. */
  function Merge(a: Interval, b: Interval): (r: Option<Interval>)
    ensures r.Some? <==> Intersects(a, b)
    ensures r.Some? && Le(a.start, b.start) ==> r.value.start == a.start
    ensures r.Some? && WellFormed(a) && WellFormed(b) ==>
              WellFormed(r.value) && Minutes(r.value) == Minutes(a) + Minutes(b)
  {
    if !Intersects(a, b) then None
    else
      var m := Interval(Min(a.start, b.start), Max(a.end, b.end));
      assert WellFormed(a) && WellFormed(b) ==> Minutes(m) == Minutes(a) + Minutes(b) by {
        if WellFormed(a) && WellFormed(b) {
          forall k | k in Minutes(m) ensures k in Minutes(a) + Minutes(b) {
          }
        }
      }
      Some(m)
  }

  /** `is_empty` as written: it asserts the bounds are in order, then answers
      whether the window covers any minute at all. */
  function IsEmpty(i: Interval): (r: bool)
    requires Le(i.start, i.end)
    ensures Valid(i.start) && Valid(i.end) ==> (r <==> Minutes(i) != {})
  {
    assert Valid(i.start) && Valid(i.end) && Lt(i.start, i.end) ==> AsMinutes(i.start) in Minutes(i);
    Lt(i.start, i.end)
  }

  /** The input that shows it: half an hour counts as empty. */
  lemma IsEmptyInvertedExample()
    ensures IsEmpty(Interval(TimeOfDay(9, 0), TimeOfDay(9, 30)))
    ensures Len(Interval(TimeOfDay(9, 0), TimeOfDay(9, 30))) == 30
  {
  }

  /** `is_empty` as its name promises. */
  function IsEmptyIntended(i: Interval): (r: bool)
    requires Le(i.start, i.end)
    ensures Valid(i.start) && Valid(i.end) ==> (r <==> Minutes(i) == {})
  {
    assert Valid(i.start) && Valid(i.end) && Lt(i.start, i.end) ==> AsMinutes(i.start) in Minutes(i);
    i.start == i.end
  }

  // ---------------------------------------------------------------------------
  // Subtraction of one window from another

  /** The outcome of `a - b` (`IntervalSubtraction`). */
  datatype Subtraction =
    | MissLeft(kept: Interval)
    | HitLeft(rest: Interval)
    | HitCenter(left: Interval, right: Interval)
    | HitRight(rest: Interval)
    | MissRight(kept: Interval)
    | Empty

  /** The pieces of the first window that an outcome keeps. */
  function Remnants(r: Subtraction): seq<Interval> {
    match r
    case MissLeft(x) => [x]
    case HitLeft(x) => [x]
    case HitCenter(l, x) => [l, x]
    case HitRight(x) => [x]
    case MissRight(x) => [x]
    case Empty => []
  }

  /** Which reading of the case the documentation of `HitRight` describes,
      `a.start <= b.start < a.end < b.end`: the code answers `HitLeft` there;
      the documentation and the caller's `HitRight` arm expect `HitRight`. */
  datatype Reading = AsWritten | AsDocumented

  /** `subtract`: the six-way case split, tried in the order of the source. */
  function Cut(a: Interval, b: Interval, reading: Reading): (r: Subtraction)
    ensures r.HitRight? <==> reading == AsDocumented && Lt(a.start, b.start) && Lt(b.start, a.end) && Lt(a.end, b.end)
    ensures r.MissLeft? ==> r.kept == a && Le(b.end, a.start)
    ensures r.MissRight? ==> r.kept == a && Le(a.end, b.start)
    ensures r.Empty? ==> Le(b.start, a.start) && Le(a.end, b.end)
    ensures r.HitCenter? ==> r.left == Interval(a.start, b.start) && r.right == Interval(b.end, a.end)
    ensures r.HitRight? ==> r.rest == Interval(a.start, b.start)
    ensures r.HitLeft? ==> r.rest == Interval(b.end, a.end) || (reading == AsWritten && r.rest == Interval(a.start, b.start))
  {
    if Le(b.start, a.start) && Le(a.end, b.end) then Empty
    else if Le(b.end, a.start) then MissLeft(a)
    else if Le(a.end, b.start) then MissRight(a)
    else if Le(b.start, a.start) && Lt(b.end, a.end) then HitLeft(Interval(b.end, a.end))
    else if Le(a.start, b.start) && Lt(a.end, b.end) then
      assert Lt(a.start, b.start) && Lt(b.start, a.end);
      assert reading != AsWritten ==> reading == AsDocumented;
      (if reading == AsWritten then HitLeft(Interval(a.start, b.start)) else HitRight(Interval(a.start, b.start)))
    else HitCenter(Interval(a.start, b.start), Interval(b.end, a.end))
  }

  /** `Interval::subtract` as written. */
  function Subtract(a: Interval, b: Interval): (r: Subtraction)
    ensures !r.HitRight?
  {
    Cut(a, b, AsWritten)
  }

  /** `Interval::subtract` with the documented `HitRight` case. */
  function SubtractIntended(a: Interval, b: Interval): (r: Subtraction)
    ensures r.HitRight? ==> Lt(r.rest.end, a.end) && r.rest.start == a.start
  {
    Cut(a, b, AsDocumented)
  }

  predicate Within(x: Interval, a: Interval) {
    Le(a.start, x.start) && Le(x.end, a.end)
  }

  /** Under either reading, for well-formed windows: every remnant is a
      well-formed part of `a`, and together the remnants cover exactly the
      minutes of `a` that `b` does not. */
  lemma CutCoverage(a: Interval, b: Interval, reading: Reading)
    requires WellFormed(a) && WellFormed(b)
    ensures AllWellFormed(Remnants(Cut(a, b, reading)))
    ensures forall i :: 0 <= i < |Remnants(Cut(a, b, reading))| ==> Within(Remnants(Cut(a, b, reading))[i], a)
    ensures Coverage(Remnants(Cut(a, b, reading))) == Minutes(a) - Minutes(b)
  {
    CutPieces(a, b, reading);
    CutMinutes(a, b, reading);
  }

  lemma CutPieces(a: Interval, b: Interval, reading: Reading)
    requires WellFormed(a) && WellFormed(b)
    ensures AllWellFormed(Remnants(Cut(a, b, reading)))
    ensures forall i :: 0 <= i < |Remnants(Cut(a, b, reading))| ==> Within(Remnants(Cut(a, b, reading))[i], a)
  {
  }

  lemma CutMinutes(a: Interval, b: Interval, reading: Reading)
    requires WellFormed(a) && WellFormed(b)
    ensures Coverage(Remnants(Cut(a, b, reading))) == Minutes(a) - Minutes(b)
  {
    var a0, a1, b0, b1 := AsMinutes(a.start), AsMinutes(a.end), AsMinutes(b.start), AsMinutes(b.end);
    match Cut(a, b, reading)
    case Empty =>
      RangeCovered(a0, a1, b0, b1);
    case MissLeft(_) =>
      RangeApart(a0, a1, b0, b1);
    case MissRight(_) =>
      RangeApart(a0, a1, b0, b1);
    case HitLeft(x) =>
      CoverageSingleton(x);
      if x.start == b.end {
        RangeCutLeft(a0, a1, b0, b1);
      } else {
        RangeCutRight(a0, a1, b0, b1);
      }
    case HitRight(x) =>
      CoverageSingleton(x);
      RangeCutRight(a0, a1, b0, b1);
    case HitCenter(l, x) =>
      assert [l, x][1..] == [x];
      CoverageSingleton(x);
      RangeCutMiddle(a0, a1, b0, b1);
  }

  lemma RangeCovered(a0: int, a1: int, b0: int, b1: int)
    requires b0 <= a0 && a1 <= b1
    ensures Range(a0, a1) - Range(b0, b1) == {}
  {
  }

  lemma RangeApart(a0: int, a1: int, b0: int, b1: int)
    requires b1 <= a0 || a1 <= b0
    ensures Range(a0, a1) - Range(b0, b1) == Range(a0, a1)
  {
  }

  lemma RangeCutLeft(a0: int, a1: int, b0: int, b1: int)
    requires b0 <= a0 <= b1 <= a1
    ensures Range(a0, a1) - Range(b0, b1) == Range(b1, a1)
  {
  }

  lemma RangeCutRight(a0: int, a1: int, b0: int, b1: int)
    requires a0 <= b0 <= a1 <= b1
    ensures Range(a0, a1) - Range(b0, b1) == Range(a0, b0)
  {
  }

  lemma RangeCutMiddle(a0: int, a1: int, b0: int, b1: int)
    requires a0 <= b0 <= b1 <= a1
    ensures Range(a0, a1) - Range(b0, b1) == Range(a0, b0) + Range(b1, a1)
  {
  }

  /** `subtract` as written never answers `HitRight`: in the case documented for
      it, the code answers `HitLeft` with the left remnant, or `Empty` when both
      windows start together. */
  lemma DocumentedHitRightCaseAnswersHitLeft(a: Interval, b: Interval)
    requires Le(a.start, b.start) && Lt(b.start, a.end) && Lt(a.end, b.end)
    ensures a.start == b.start ==> Subtract(a, b) == Empty
    ensures a.start != b.start ==> Subtract(a, b) == HitLeft(Interval(a.start, b.start))
  {
  }

  /** A window minus itself is empty; minus a window it does not touch, it is
      unchanged. */
  lemma SubtractSelfAndDisjoint(a: Interval, b: Interval)
    requires WellFormed(a) && WellFormed(b)
    ensures Subtract(a, a) == Empty
    ensures Minutes(a) * Minutes(b) == {} && Lt(a.start, a.end) && Lt(b.start, b.end) ==>
              Subtract(a, b) == MissLeft(a) || Subtract(a, b) == MissRight(a)
  {
    OverlapWitness(a, b);
  }

  /** Two windows that overlap in their interiors share a minute. */
  lemma OverlapWitness(a: Interval, b: Interval)
    requires WellFormed(a) && WellFormed(b)
    ensures Lt(a.start, b.end) && Lt(b.start, a.end) && Lt(a.start, a.end) && Lt(b.start, b.end) ==>
              Minutes(a) * Minutes(b) != {}
  {
    var k := if Le(a.start, b.start) then AsMinutes(b.start) else AsMinutes(a.start);
    if Lt(a.start, b.end) && Lt(b.start, a.end) && Lt(a.start, a.end) && Lt(b.start, b.end) {
      assert k in Minutes(a) * Minutes(b);
    }
  }

  /** The documented remnant is strictly shorter than the window it comes from,
      which is what the caller's `HitRight` arm asserts. */
  lemma HitRightShrinks(a: Interval, b: Interval)
    requires WellFormed(a) && WellFormed(b)
    requires SubtractIntended(a, b).HitRight?
    ensures WellFormed(SubtractIntended(a, b).rest)
    ensures Len(SubtractIntended(a, b).rest) < Len(a)
  {
  }
}
