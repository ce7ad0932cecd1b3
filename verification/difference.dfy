/** `AcceptedInterval::subtract`: the minutes of one list of windows that a
    second list does not cover. Both lists are normalised first, then two
    cursors walk them together, one `subtract` per step; a window that can no
    longer meet any rejected window is committed, and what is left of the
    accepted list once the rejected one is exhausted is copied through.

    The walk is written once, over either reading of `subtract` (see
    `Intervals.Reading`). With the documented reading it computes the set
    difference exactly; as written, the `HitLeft` answer in the documented
    `HitRight` case drops the rejected window while it may still cover later
    accepted windows, so some rejected minutes survive. */
module Difference {
  import opened Results
  import opened Times
  import opened Intervals
  import opened Normalization

  /** Every window starts no earlier than `t`. */
  predicate StartsFrom(s: seq<Interval>, t: TimeOfDay) {
    forall i :: 0 <= i < |s| ==> Le(t, s[i].start)
  }

  /** Windows in order that do not overlap; unlike `Separated`, neighbours may
      touch, which is what the walk produces around a zero-length rejected
      window. */
  predicate Ordered(s: seq<Interval>) {
    forall i, j :: 0 <= i < j < |s| ==> Le(s[i].end, s[j].start)
  }

  lemma SeparatedIsOrdered(s: seq<Interval>)
    requires Separated(s)
    ensures Ordered(s)
  {
  }

  // ---------------------------------------------------------------------------
  // The walk

  /** The loop of `AcceptedInterval::subtract`: `acc` holds the accepted
      windows not yet committed (its head is the one the cursor is on, possibly
      already cut down), `rej` the rejected windows not yet consumed. Each step
      consumes a window of one list, or, in the `HitRight` arm, moves the end of
      the current accepted window strictly earlier. */
  function Walk(acc: seq<Interval>, rej: seq<Interval>, reading: Reading): (r: seq<Interval>)
    ensures |r| <= |acc| + |rej|
    decreases |acc| + |rej|, if |acc| > 0 then acc[0].end.hours else 0,
              if |acc| > 0 then acc[0].end.minutes else 0
  {
    if |acc| == 0 then []
    else if |rej| == 0 then acc
    else
      match Cut(acc[0], rej[0], reading)
      case Empty => Walk(acc[1..], rej, reading)
      case MissLeft(_) => Walk(acc, rej[1..], reading)
      case HitLeft(d) => Walk([d] + acc[1..], rej[1..], reading)
      case HitCenter(l, r) => [l] + Walk([r] + acc[1..], rej[1..], reading)
      case HitRight(d) => Walk([d] + acc[1..], rej, reading)
      case MissRight(u) => [u] + Walk(acc[1..], rej, reading)
  }

  /** The whole operation, under either reading: an empty rejected list returns
      the accepted list untouched (not even normalised). Otherwise the result
      is well formed and ordered, keeps every accepted minute that no rejected
      window covers and invents none; with the documented `HitRight` case it
      keeps exactly those minutes. */
  function SubtractAll(acc: seq<Interval>, rej: seq<Interval>, reading: Reading): (r: seq<Interval>)
    ensures |rej| == 0 ==> r == acc
    ensures AllWellFormed(acc) && AllWellFormed(rej) ==>
              && AllWellFormed(r)
              && Coverage(acc) - Coverage(rej) <= Coverage(r) <= Coverage(acc)
              && (|rej| > 0 ==> Ordered(r))
    ensures AllWellFormed(acc) && AllWellFormed(rej) && reading == AsDocumented ==>
              Coverage(r) == Coverage(acc) - Coverage(rej)
  {
    if |rej| == 0 then
      assert Coverage(rej) == {};
      acc
    else
      WalkSimplified(acc, rej, reading);
      Walk(Simplify(acc), Simplify(rej), reading)
  }

  /** The walk over the normalised lists, in terms of the lists as given. */
  lemma WalkSimplified(acc: seq<Interval>, rej: seq<Interval>, reading: Reading)
    ensures AllWellFormed(acc) && AllWellFormed(rej) ==>
              var w := Walk(Simplify(acc), Simplify(rej), reading);
              && AllWellFormed(w) && Ordered(w)
              && Coverage(acc) - Coverage(rej) <= Coverage(w) <= Coverage(acc)
              && (reading == AsDocumented ==> Coverage(w) == Coverage(acc) - Coverage(rej))
  {
    if AllWellFormed(acc) && AllWellFormed(rej) {
      SimplifyNormalises(acc);
      SimplifyNormalises(rej);
      SimplifyCoverage(acc);
      SimplifyCoverage(rej);
      WalkCoverage(Simplify(acc), Simplify(rej), reading);
      WalkOrdered(Simplify(acc), Simplify(rej), reading);
    }
  }

  /** `AcceptedInterval::subtract` as written: never a minute that was not
      accepted, never the loss of one that no rejected window covers, but
      possibly a rejected minute kept (`AcceptedSubtractKeepsRejectedMinutes`). */
  function AcceptedSubtract(acc: seq<Interval>, rej: seq<Interval>): (r: seq<Interval>)
    ensures |rej| == 0 ==> r == acc
    ensures AllWellFormed(acc) && AllWellFormed(rej) ==>
              && AllWellFormed(r)
              && Coverage(acc) - Coverage(rej) <= Coverage(r) <= Coverage(acc)
              && (|rej| > 0 ==> Ordered(r))
  {
    SubtractAll(acc, rej, AsWritten)
  }

  /** `AcceptedInterval::subtract` with the documented `HitRight` case: exactly
      the accepted minutes that no rejected window covers, in ordered windows
      unless there was nothing to reject. */
  function AcceptedSubtractIntended(acc: seq<Interval>, rej: seq<Interval>): (r: seq<Interval>)
    ensures |rej| == 0 ==> r == acc
    ensures AllWellFormed(acc) && AllWellFormed(rej) ==>
              && AllWellFormed(r)
              && Coverage(r) == Coverage(acc) - Coverage(rej)
              && (|rej| > 0 ==> Ordered(r))
  {
    SubtractAll(acc, rej, AsDocumented)
  }

  // ---------------------------------------------------------------------------
  // Facts about normalised lists

  /** In a normalised list, every minute lies at or after the first start, and
      every minute of the tail lies after the first end. */
  lemma {:induction false} CoverageBounds(s: seq<Interval>)
    requires |s| > 0 && AllWellFormed(s) && Separated(s)
    ensures forall k :: k in Coverage(s) ==> AsMinutes(s[0].start) <= k
    ensures forall k :: k in Coverage(s[1..]) ==> AsMinutes(s[0].end) < k
  {
    forall k | k in Coverage(s[1..]) ensures AsMinutes(s[0].end) < k {
      CoverageWitness(s[1..], k);
      var i :| 0 <= i < |s[1..]| && k in Minutes(s[1..][i]);
      assert s[1..][i] == s[i + 1];
      assert Lt(s[0].end, s[i + 1].start);
    }
  }

  lemma TailSeparated(s: seq<Interval>)
    requires |s| > 0 && AllWellFormed(s) && Separated(s)
    ensures AllWellFormed(s[1..]) && Separated(s[1..])
  {
    forall i, j | 0 <= i < j < |s[1..]| ensures Lt(s[1..][i].end, s[1..][j].start) {
      assert s[1..][i] == s[i + 1] && s[1..][j] == s[j + 1];
    }
  }

  /** Replacing the head of a normalised list by a well-formed part of it keeps
      the list normalised. */
  lemma ReplaceHead(s: seq<Interval>, d: Interval)
    requires |s| > 0 && AllWellFormed(s) && Separated(s)
    requires WellFormed(d) && Within(d, s[0])
    ensures AllWellFormed([d] + s[1..]) && Separated([d] + s[1..])
    ensures Coverage([d] + s[1..]) == Minutes(d) + Coverage(s[1..])
  {
    var s' := [d] + s[1..];
    assert s'[1..] == s[1..];
    forall i, j | 0 <= i < j < |s'| ensures Lt(s'[i].end, s'[j].start) {
      assert s'[j] == s[j];
      if i > 0 {
        assert s'[i] == s[i];
      }
    }
  }

  // ---------------------------------------------------------------------------
  // Coverage of the walk

  /** Under either reading, the walk keeps only accepted minutes and every
      accepted minute that no rejected window covers; under the documented
      reading it keeps exactly those. */
  lemma {:induction false} WalkCoverage(acc: seq<Interval>, rej: seq<Interval>, reading: Reading)
    requires AllWellFormed(acc) && Separated(acc)
    requires AllWellFormed(rej) && Separated(rej)
    ensures Coverage(acc) - Coverage(rej) <= Coverage(Walk(acc, rej, reading)) <= Coverage(acc)
    ensures reading == AsDocumented ==> Coverage(Walk(acc, rej, reading)) == Coverage(acc) - Coverage(rej)
    decreases |acc| + |rej|, if |acc| > 0 then acc[0].end.hours else 0,
              if |acc| > 0 then acc[0].end.minutes else 0
  {
    if |acc| > 0 && |rej| > 0 {
      var a, b := acc[0], rej[0];
      CoverageBounds(acc);
      CoverageBounds(rej);
      TailSeparated(acc);
      TailSeparated(rej);
      CutCoverage(a, b, reading);
      var A, R := Coverage(acc[1..]), Coverage(rej[1..]);
      assert Coverage(acc) == Minutes(a) + A;
      assert Coverage(rej) == Minutes(b) + R;
      match Cut(a, b, reading)
      case Empty =>
        WalkCoverage(acc[1..], rej, reading);
        EmptyStepSets(Minutes(a), A, Minutes(b), R, Coverage(Walk(acc[1..], rej, reading)));
      case MissLeft(_) =>
        WalkCoverage(acc, rej[1..], reading);
        assert Minutes(b) * Coverage(acc) == {};
        MissLeftStepSets(Minutes(a), A, Minutes(b), R, Coverage(Walk(acc, rej[1..], reading)));
      case HitLeft(d) =>
        CoverageSingleton(d);
        ReplaceHead(acc, d);
        WalkCoverage([d] + acc[1..], rej[1..], reading);
        if reading == AsDocumented {
          assert Minutes(b) * A == {};
        }
        HitLeftStepSets(Minutes(a), A, Minutes(b), R, Minutes(d), Coverage(Walk([d] + acc[1..], rej[1..], reading)), reading == AsDocumented);
      case HitCenter(l, r) =>
        assert [l, r][1..] == [r];
        CoverageSingleton(r);
        ReplaceHead(acc, r);
        WalkCoverage([r] + acc[1..], rej[1..], reading);
        assert Minutes(b) * A == {};
        assert Minutes(l) * R == {};
        var rest := Walk([r] + acc[1..], rej[1..], reading);
        assert ([l] + rest)[1..] == rest;
        HitCenterStepSets(Minutes(a), A, Minutes(b), R, Minutes(l), Minutes(r), Coverage(rest));
      case HitRight(d) =>
        CoverageSingleton(d);
        ReplaceHead(acc, d);
        WalkCoverage([d] + acc[1..], rej, reading);
        HitRightStepSets(Minutes(a), A, Minutes(b), R, Minutes(d), Coverage(Walk([d] + acc[1..], rej, reading)));
      case MissRight(_) =>
        WalkCoverage(acc[1..], rej, reading);
        assert Minutes(a) * Coverage(rej) == {};
        var rest := Walk(acc[1..], rej, reading);
        assert ([a] + rest)[1..] == rest;
        MissRightStepSets(Minutes(a), A, Minutes(b), R, Coverage(rest));
    }
  }

  // The set algebra of each step of the walk. `Ma` and `A` are the minutes of
  // the current accepted window and of the later ones, `Mb` and `R` the same
  // for the rejected list, and `W` the minutes the rest of the walk keeps.

  lemma EmptyStepSets(Ma: set<int>, A: set<int>, Mb: set<int>, R: set<int>, W: set<int>)
    requires Ma - Mb == {}
    requires A - (Mb + R) <= W <= A
    ensures (Ma + A) - (Mb + R) <= W <= Ma + A
    ensures W == A - (Mb + R) ==> W == (Ma + A) - (Mb + R)
  {
    forall k | k in (Ma + A) - (Mb + R) ensures k in W {
      assert k !in Ma - Mb;
    }
    if W == A - (Mb + R) {
      forall k ensures k in W <==> k in (Ma + A) - (Mb + R) {
        assert k !in Ma - Mb;
      }
    }
  }

  lemma MissLeftStepSets(Ma: set<int>, A: set<int>, Mb: set<int>, R: set<int>, W: set<int>)
    requires Mb * (Ma + A) == {}
    requires (Ma + A) - R <= W <= Ma + A
    ensures (Ma + A) - (Mb + R) <= W <= Ma + A
    ensures W == (Ma + A) - R ==> W == (Ma + A) - (Mb + R)
  {
    forall k | k in (Ma + A) - (Mb + R) ensures k in W {
    }
    if W == (Ma + A) - R {
      forall k ensures k in W <==> k in (Ma + A) - (Mb + R) {
        assert k !in Mb * (Ma + A);
      }
    }
  }

  lemma HitLeftStepSets(Ma: set<int>, A: set<int>, Mb: set<int>, R: set<int>, Md: set<int>, W: set<int>, exact: bool)
    requires Md == Ma - Mb
    requires exact ==> Mb * A == {}
    requires (Md + A) - R <= W <= Md + A
    ensures (Ma + A) - (Mb + R) <= W <= Ma + A
    ensures exact && W == (Md + A) - R ==> W == (Ma + A) - (Mb + R)
  {
    forall k | k in (Ma + A) - (Mb + R) ensures k in W {
    }
    if exact && W == (Md + A) - R {
      forall k ensures k in W <==> k in (Ma + A) - (Mb + R) {
        assert k !in Mb * A;
      }
    }
  }

  lemma HitCenterStepSets(Ma: set<int>, A: set<int>, Mb: set<int>, R: set<int>, Ml: set<int>, Mr: set<int>, W: set<int>)
    requires Ml + Mr == Ma - Mb
    requires Mb * A == {} && Ml * R == {}
    requires (Mr + A) - R <= W <= Mr + A
    ensures (Ma + A) - (Mb + R) <= Ml + W <= Ma + A
    ensures W == (Mr + A) - R ==> Ml + W == (Ma + A) - (Mb + R)
  {
    forall k | k in (Ma + A) - (Mb + R) ensures k in Ml + W {
      assert k in Ma ==> k in Ml + Mr;
    }
    if W == (Mr + A) - R {
      forall k ensures k in Ml + W <==> k in (Ma + A) - (Mb + R) {
        assert k !in Mb * A && k !in Ml * R;
        assert k in Ml + Mr <==> k in Ma - Mb;
      }
    }
  }

  lemma HitRightStepSets(Ma: set<int>, A: set<int>, Mb: set<int>, R: set<int>, Md: set<int>, W: set<int>)
    requires Md == Ma - Mb
    requires (Md + A) - (Mb + R) <= W <= Md + A
    ensures (Ma + A) - (Mb + R) <= W <= Ma + A
    ensures W == (Md + A) - (Mb + R) ==> W == (Ma + A) - (Mb + R)
  {
    forall k | k in (Ma + A) - (Mb + R) ensures k in W {
    }
    if W == (Md + A) - (Mb + R) {
      forall k ensures k in W <==> k in (Ma + A) - (Mb + R) {
      }
    }
  }

  lemma MissRightStepSets(Ma: set<int>, A: set<int>, Mb: set<int>, R: set<int>, W: set<int>)
    requires Ma * (Mb + R) == {}
    requires A - (Mb + R) <= W <= A
    ensures (Ma + A) - (Mb + R) <= Ma + W <= Ma + A
    ensures W == A - (Mb + R) ==> Ma + W == (Ma + A) - (Mb + R)
  {
    forall k | k in (Ma + A) - (Mb + R) ensures k in Ma + W {
      assert k !in Ma * (Mb + R);
    }
    if W == A - (Mb + R) {
      forall k ensures k in Ma + W <==> k in (Ma + A) - (Mb + R) {
        assert k !in Ma * (Mb + R);
      }
    }
  }

  /** The walk yields well-formed windows, in order and not overlapping, none
      starting before the first accepted window does. */
  lemma {:induction false} WalkOrdered(acc: seq<Interval>, rej: seq<Interval>, reading: Reading)
    requires AllWellFormed(acc) && Separated(acc)
    requires AllWellFormed(rej) && Separated(rej)
    ensures AllWellFormed(Walk(acc, rej, reading)) && Ordered(Walk(acc, rej, reading))
    ensures |acc| > 0 ==> StartsFrom(Walk(acc, rej, reading), acc[0].start)
    decreases |acc| + |rej|, if |acc| > 0 then acc[0].end.hours else 0,
              if |acc| > 0 then acc[0].end.minutes else 0
  {
    if |acc| > 0 && |rej| == 0 {
      SeparatedIsSorted(acc);
    } else if |acc| > 0 {
      var a, b := acc[0], rej[0];
      TailSeparated(acc);
      TailSeparated(rej);
      CutPieces(a, b, reading);
      if |acc| > 1 {
        assert Lt(a.end, acc[1].start);
      }
      match Cut(a, b, reading)
      case Empty =>
        WalkOrdered(acc[1..], rej, reading);
        if |acc| > 1 {
          StartsFromEarlier(Walk(acc[1..], rej, reading), a.start, acc[1].start);
        }
      case MissLeft(_) =>
        WalkOrdered(acc, rej[1..], reading);
      case HitLeft(d) =>
        assert Remnants(HitLeft(d))[0] == d;
        ReplaceHead(acc, d);
        WalkOrdered([d] + acc[1..], rej[1..], reading);
        StartsFromEarlier(Walk([d] + acc[1..], rej[1..], reading), a.start, d.start);
      case HitCenter(l, r) =>
        assert Remnants(HitCenter(l, r))[0] == l;
        assert Remnants(HitCenter(l, r))[1] == r;
        ReplaceHead(acc, r);
        WalkOrdered([r] + acc[1..], rej[1..], reading);
        ConsStarts(l, Walk([r] + acc[1..], rej[1..], reading), r.start);
      case HitRight(d) =>
        assert Remnants(HitRight(d))[0] == d;
        ReplaceHead(acc, d);
        WalkOrdered([d] + acc[1..], rej, reading);
        StartsFromEarlier(Walk([d] + acc[1..], rej, reading), a.start, d.start);
      case MissRight(u) =>
        assert Remnants(MissRight(u))[0] == u;
        WalkOrdered(acc[1..], rej, reading);
        if |acc| > 1 {
          ConsStarts(u, Walk(acc[1..], rej, reading), acc[1].start);
        } else {
          ConsStarts(u, [], u.end);
        }
    }
  }

  /** A window before a list of windows that starts no earlier than the window
      ends keeps the list in order, and the list now starts where the window
      does. */
  lemma ConsStarts(x: Interval, s: seq<Interval>, t: TimeOfDay)
    requires WellFormed(x) && Valid(t) && Le(x.end, t)
    requires AllWellFormed(s) && Ordered(s) && StartsFrom(s, t)
    ensures AllWellFormed([x] + s) && Ordered([x] + s) && StartsFrom([x] + s, x.start)
  {
    ConsOrdered(x, s, t);
    var s' := [x] + s;
    forall i | 0 <= i < |s'| ensures Le(x.start, s'[i].start) {
      if i > 0 {
        assert s'[i] == s[i - 1];
        assert WellFormed(s[i - 1]);
      }
    }
  }

  lemma StartsFromEarlier(s: seq<Interval>, early: TimeOfDay, late: TimeOfDay)
    requires Valid(early) && Valid(late) && Le(early, late) && AllWellFormed(s) && StartsFrom(s, late)
    ensures StartsFrom(s, early)
  {
    forall i | 0 <= i < |s| ensures Le(early, s[i].start) {
      assert WellFormed(s[i]);
    }
  }

  lemma ConsOrdered(x: Interval, s: seq<Interval>, t: TimeOfDay)
    requires WellFormed(x) && Valid(t) && Le(x.end, t)
    requires AllWellFormed(s) && Ordered(s) && StartsFrom(s, t)
    ensures AllWellFormed([x] + s) && Ordered([x] + s)
  {
    var s' := [x] + s;
    forall i, j | 0 <= i < j < |s'| ensures Le(s'[i].end, s'[j].start) {
      assert s'[j] == s[j - 1];
      if i > 0 {
        assert s'[i] == s[i - 1];
      }
    }
  }

  // ---------------------------------------------------------------------------
  // The operation

  /** The input that shows the discrepancy: accepting 01:00-01:10 and
      01:15-01:30 and rejecting 01:05-01:20. The first step falls in the
      documented `HitRight` case; as written it answers `HitLeft` and the
      rejected window is dropped before it reaches 01:15-01:30, so 01:15 stays
      accepted although it is rejected. */
  lemma AcceptedSubtractKeepsRejectedMinutes()
    ensures AcceptedSubtract(ExampleAccepted(), ExampleRejected()) ==
            [Interval(TimeOfDay(1, 0), TimeOfDay(1, 5)), Interval(TimeOfDay(1, 15), TimeOfDay(1, 30))]
    ensures 75 in Coverage(AcceptedSubtract(ExampleAccepted(), ExampleRejected()))
    ensures 75 in Coverage(ExampleRejected())
  {
    var acc, rej := ExampleAccepted(), ExampleRejected();
    var kept := [Interval(TimeOfDay(1, 0), TimeOfDay(1, 5)), Interval(TimeOfDay(1, 15), TimeOfDay(1, 30))];
    ExampleNormalised();
    ExampleWalkAsWritten();
    assert AcceptedSubtract(acc, rej) == kept;
    assert 75 in Minutes(kept[1]);
    CoverageMember(kept, 1);
    assert 75 in Minutes(rej[0]);
    CoverageMember(rej, 0);
  }

  /** On the same input, the documented reading rejects 01:05-01:20 from both
      windows. */
  lemma AcceptedSubtractIntendedExample()
    ensures AcceptedSubtractIntended(ExampleAccepted(), ExampleRejected()) ==
            [Interval(TimeOfDay(1, 0), TimeOfDay(1, 5)), Interval(TimeOfDay(1, 20), TimeOfDay(1, 30))]
  {
    ExampleNormalised();
    ExampleWalkDocumented();
  }

  function ExampleAccepted(): seq<Interval> {
    [Interval(TimeOfDay(1, 0), TimeOfDay(1, 10)), Interval(TimeOfDay(1, 15), TimeOfDay(1, 30))]
  }

  function ExampleRejected(): seq<Interval> {
    [Interval(TimeOfDay(1, 5), TimeOfDay(1, 20))]
  }

  lemma ExampleNormalised()
    ensures Simplify(ExampleAccepted()) == ExampleAccepted()
    ensures Simplify(ExampleRejected()) == ExampleRejected()
  {
    SimplifyPair(Interval(TimeOfDay(1, 0), TimeOfDay(1, 10)), Interval(TimeOfDay(1, 15), TimeOfDay(1, 30)));
    SimplifySingle(Interval(TimeOfDay(1, 5), TimeOfDay(1, 20)));
  }

  lemma ExampleWalkAsWritten()
    ensures Walk(ExampleAccepted(), ExampleRejected(), AsWritten) ==
            [Interval(TimeOfDay(1, 0), TimeOfDay(1, 5)), Interval(TimeOfDay(1, 15), TimeOfDay(1, 30))]
  {
    var acc, rej := ExampleAccepted(), ExampleRejected();
    var d := Interval(TimeOfDay(1, 0), TimeOfDay(1, 5));
    assert Cut(acc[0], rej[0], AsWritten) == HitLeft(d);
    assert rej[1..] == [];
    assert Walk(acc, rej, AsWritten) == Walk([d] + acc[1..], [], AsWritten);
  }

  lemma ExampleWalkDocumented()
    ensures Walk(ExampleAccepted(), ExampleRejected(), AsDocumented) ==
            [Interval(TimeOfDay(1, 0), TimeOfDay(1, 5)), Interval(TimeOfDay(1, 20), TimeOfDay(1, 30))]
  {
    var acc, rej := ExampleAccepted(), ExampleRejected();
    var d := Interval(TimeOfDay(1, 0), TimeOfDay(1, 5));
    var second := Interval(TimeOfDay(1, 15), TimeOfDay(1, 30));
    var last := Interval(TimeOfDay(1, 20), TimeOfDay(1, 30));
    assert Cut(acc[0], rej[0], AsDocumented) == HitRight(d);
    assert Walk(acc, rej, AsDocumented) == Walk([d, second], rej, AsDocumented);
    assert Cut(d, rej[0], AsDocumented) == MissRight(d);
    assert [d, second][1..] == [second];
    assert Walk([d, second], rej, AsDocumented) == [d] + Walk([second], rej, AsDocumented);
    assert Cut(second, rej[0], AsDocumented) == HitLeft(last);
    assert rej[1..] == [];
    assert Walk([second], rej, AsDocumented) == Walk([last], [], AsDocumented);
  }

  /** Taking out a window strictly inside another leaves the parts on either
      side of it, under either reading. */
  lemma SubtractInside(a: Interval, b: Interval, reading: Reading)
    requires WellFormed(a) && WellFormed(b) && Lt(a.start, b.start) && Lt(b.end, a.end)
    ensures SubtractAll([a], [b], reading) == [Interval(a.start, b.start), Interval(b.end, a.end)]
  {
    var l, r := Interval(a.start, b.start), Interval(b.end, a.end);
    SimplifySingle(a);
    SimplifySingle(b);
    assert Cut(a, b, reading) == HitCenter(l, r);
    assert [b][1..] == [] && [r] + [a][1..] == [r];
    assert Walk([a], [b], reading) == [l] + Walk([r], [], reading);
  }

  /** The documented example: the whole day minus 12:00-12:05 is the day up to
      12:00 and from 12:05, under either reading. */
  lemma AcceptedSubtractDocExample()
    ensures AcceptedSubtract([FullDay], [Interval(TimeOfDay(12, 0), TimeOfDay(12, 5))]) ==
            [Interval(DayBegins, TimeOfDay(12, 0)), Interval(TimeOfDay(12, 5), DayEnds)]
    ensures AcceptedSubtractIntended([FullDay], [Interval(TimeOfDay(12, 0), TimeOfDay(12, 5))]) ==
            [Interval(DayBegins, TimeOfDay(12, 0)), Interval(TimeOfDay(12, 5), DayEnds)]
  {
    SubtractInside(FullDay, Interval(TimeOfDay(12, 0), TimeOfDay(12, 5)), AsWritten);
    SubtractInside(FullDay, Interval(TimeOfDay(12, 0), TimeOfDay(12, 5)), AsDocumented);
  }
}
