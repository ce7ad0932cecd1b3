/** `IntervalsDiff`: one configuration source's say about one target, as the
    windows it accepts and the windows it rejects. A list of such diffs is
    folded in order: each diff first adds its accepted windows, then removes
    its rejected ones, so a later source overrides an earlier one. The fold
    takes the reading of `subtract` as a parameter: as written, it may keep
    a minute that a diff rejects (`ComputeAcceptedKeepsRejectedMinute`); with
    the documented reading, it computes the reference meaning exactly. */
module Diffs {
  import opened Results
  import opened Times
  import opened Intervals
  import opened Normalization
  import opened Difference
  import opened DayComplement

  datatype Diff = Diff(accepted: seq<Interval>, rejected: seq<Interval>)

  predicate DiffWellFormed(d: Diff) {
    AllWellFormed(d.accepted) && AllWellFormed(d.rejected)
  }

  predicate AllDiffsWellFormed(ds: seq<Diff>) {
    forall i :: 0 <= i < |ds| ==> DiffWellFormed(ds[i])
  }

  /** The reference meaning of the fold, on sets of minutes: add what a diff
      accepts, then take away what it rejects. */
  function FoldCoverage(ds: seq<Diff>): set<int>
    decreases |ds|
  {
    if |ds| == 0 then {}
    else
      var d := ds[|ds| - 1];
      (FoldCoverage(ds[..|ds| - 1]) + Coverage(d.accepted)) - Coverage(d.rejected)
  }

  /** Every minute some diff accepts. */
  function AcceptedUnion(ds: seq<Diff>): set<int>
    decreases |ds|
  {
    if |ds| == 0 then {} else AcceptedUnion(ds[..|ds| - 1]) + Coverage(ds[|ds| - 1].accepted)
  }

  /** `compute_accepted_intervals`: the left fold over the diffs. Its windows
      are well formed, hold every minute of the reference meaning and only
      minutes some diff accepts; with the documented reading of `subtract`
      they hold exactly the reference meaning. */
  function ComputeAccepted(ds: seq<Diff>, reading: Reading): (r: seq<Interval>)
    ensures AllDiffsWellFormed(ds) ==>
              AllWellFormed(r) && FoldCoverage(ds) <= Coverage(r) <= AcceptedUnion(ds)
    ensures AllDiffsWellFormed(ds) && reading == AsDocumented ==> Coverage(r) == FoldCoverage(ds)
    decreases |ds|
  {
    if |ds| == 0 then []
    else
      var d := ds[|ds| - 1];
      var prev := ComputeAccepted(ds[..|ds| - 1], reading);
      FoldStep(ds, prev, reading);
      SubtractAll(prev + d.accepted, d.rejected, reading)
  }

  /** One step of the fold keeps the bounds, and the exact meaning under the
      documented reading. */
  lemma FoldStep(ds: seq<Diff>, prev: seq<Interval>, reading: Reading)
    requires |ds| > 0
    requires AllDiffsWellFormed(ds[..|ds| - 1]) ==>
               AllWellFormed(prev) && FoldCoverage(ds[..|ds| - 1]) <= Coverage(prev) <= AcceptedUnion(ds[..|ds| - 1])
    requires AllDiffsWellFormed(ds[..|ds| - 1]) && reading == AsDocumented ==> Coverage(prev) == FoldCoverage(ds[..|ds| - 1])
    ensures AllDiffsWellFormed(ds) ==>
              var r := SubtractAll(prev + ds[|ds| - 1].accepted, ds[|ds| - 1].rejected, reading);
              && AllWellFormed(r) && FoldCoverage(ds) <= Coverage(r) <= AcceptedUnion(ds)
              && (reading == AsDocumented ==> Coverage(r) == FoldCoverage(ds))
  {
    if AllDiffsWellFormed(ds) {
      var p, d := ds[..|ds| - 1], ds[|ds| - 1];
      assert AllDiffsWellFormed(p) by {
        forall i | 0 <= i < |p| ensures DiffWellFormed(p[i]) {
          assert p[i] == ds[i];
        }
      }
      var merged := prev + d.accepted;
      CoverageAppend(prev, d.accepted);
      assert AllWellFormed(merged) by {
        forall i | 0 <= i < |merged| ensures WellFormed(merged[i]) {
          if i >= |prev| {
            assert merged[i] == d.accepted[i - |prev|];
          }
        }
      }
    }
  }

  /** `compute_rejected_intervals`: the complement of the accepted windows.
      They are non-empty and ordered, never cover a minute some diff accepts
      unless a later one rejects it, and cover at least every minute no diff
      accepts; with the documented reading of `subtract` they cover exactly
      the minutes the reference meaning leaves out. */
  function ComputeRejected(ds: seq<Diff>, reading: Reading): (r: seq<Interval>)
    ensures AllDiffsWellFormed(ds) ==>
              && AllWellFormed(r) && Ordered(r) && NoneEmpty(r)
              && DayMinutes() - AcceptedUnion(ds) <= Coverage(r) <= DayMinutes() - FoldCoverage(ds)
    ensures AllDiffsWellFormed(ds) && reading == AsDocumented ==>
              Coverage(r) == DayMinutes() - FoldCoverage(ds)
  {
    var accepted := ComputeAccepted(ds, reading);
    if AllWellFormed(accepted) then
      ComplementCoverage(accepted);
      ComplementShape(accepted);
      Complement(accepted)
    else
      Complement(accepted)
  }

  /** Diff `i` has the last word on minute `k`: it accepts `k`, does not reject
      it, and no later diff rejects it. */
  predicate LastWordAccepts(ds: seq<Diff>, i: int, k: int)
    requires 0 <= i < |ds|
  {
    && k in Coverage(ds[i].accepted)
    && k !in Coverage(ds[i].rejected)
    && forall j :: i < j < |ds| ==> k !in Coverage(ds[j].rejected)
  }

  /** A minute ends up accepted exactly when some diff accepts it and neither
      that diff nor any later one rejects it. */
  lemma {:induction false} FoldCoverageLastWord(ds: seq<Diff>, k: int)
    ensures k in FoldCoverage(ds) <==> exists i :: 0 <= i < |ds| && LastWordAccepts(ds, i, k)
    decreases |ds|
  {
    if |ds| > 0 {
      var n := |ds|;
      var p, d := ds[..n - 1], ds[n - 1];
      FoldCoverageLastWord(p, k);
      if k in FoldCoverage(ds) {
        if k in Coverage(d.accepted) {
          assert LastWordAccepts(ds, n - 1, k);
        } else {
          var i :| 0 <= i < |p| && LastWordAccepts(p, i, k);
          assert p[i] == ds[i];
          forall j | i < j < n ensures k !in Coverage(ds[j].rejected) {
            if j < n - 1 {
              assert p[j] == ds[j];
            }
          }
          assert LastWordAccepts(ds, i, k);
        }
      } else if exists i :: 0 <= i < n && LastWordAccepts(ds, i, k) {
        var i :| 0 <= i < n && LastWordAccepts(ds, i, k);
        if i < n - 1 {
          assert p[i] == ds[i];
          forall j | i < j < |p| ensures k !in Coverage(p[j].rejected) {
            assert p[j] == ds[j];
          }
          assert LastWordAccepts(p, i, k);
          assert false;
        }
      }
    }
  }

  /** The fold as written keeps a minute the reference meaning rejects: one
      diff accepting 01:00-01:10 and 01:15-01:30 and rejecting 01:05-01:20
      leaves 01:15 accepted. */
  lemma ComputeAcceptedKeepsRejectedMinute()
    ensures 75 in Coverage(ComputeAccepted([Diff(ExampleAccepted(), ExampleRejected())], AsWritten))
    ensures 75 !in FoldCoverage([Diff(ExampleAccepted(), ExampleRejected())])
  {
    var ds := [Diff(ExampleAccepted(), ExampleRejected())];
    assert ds[..0] == [];
    assert [] + ExampleAccepted() == ExampleAccepted();
    assert ComputeAccepted(ds, AsWritten) == AcceptedSubtract(ExampleAccepted(), ExampleRejected());
    AcceptedSubtractKeepsRejectedMinutes();
  }

  /** The order of the diffs matters, under either reading: accepting
      08:00-18:00 and then rejecting 12:00-12:05 leaves 12:00 rejected; the
      other way round leaves it accepted. */
  lemma OrderMatters(reading: Reading)
    ensures 720 !in Coverage(ComputeAccepted([Diff([Daytime()], []), Diff([], [Noon()])], reading))
    ensures 720 in Coverage(ComputeAccepted([Diff([], [Noon()]), Diff([Daytime()], [])], reading))
  {
    RejectLast(reading);
    AcceptLast(reading);
  }

  lemma RejectLast(reading: Reading)
    ensures 720 !in Coverage(ComputeAccepted([Diff([Daytime()], []), Diff([], [Noon()])], reading))
  {
    var ds := [Diff([Daytime()], []), Diff([], [Noon()])];
    var l, r := Interval(TimeOfDay(8, 0), TimeOfDay(12, 0)), Interval(TimeOfDay(12, 5), TimeOfDay(18, 0));
    assert ds[..1][..0] == [] && ds[..1][0] == ds[0];
    assert ComputeAccepted(ds[..1], reading) == [Daytime()];
    assert [Daytime()] + [] == [Daytime()];
    SubtractInside(Daytime(), Noon(), reading);
    assert ComputeAccepted(ds, reading) == [l, r];
    CoverageAppend([l], [r]);
    CoverageSingleton(l);
    CoverageSingleton(r);
  }

  lemma AcceptLast(reading: Reading)
    ensures 720 in Coverage(ComputeAccepted([Diff([], [Noon()]), Diff([Daytime()], [])], reading))
  {
    var ds := [Diff([], [Noon()]), Diff([Daytime()], [])];
    assert AllDiffsWellFormed(ds);
    MinuteInWindow(Daytime(), 720);
    assert Coverage(ds[1].rejected) == {};
    assert 720 in FoldCoverage(ds);
  }

  lemma MinuteInWindow(x: Interval, k: int)
    requires AsMinutes(x.start) <= k < AsMinutes(x.end)
    ensures k in Coverage([x])
  {
    CoverageSingleton(x);
  }

  function Daytime(): Interval {
    Interval(TimeOfDay(8, 0), TimeOfDay(18, 0))
  }

  function Noon(): Interval {
    Interval(TimeOfDay(12, 0), TimeOfDay(12, 5))
  }
}
