/** `RejectedInterval::complement`: the windows of the day that a list of
    accepted windows leaves uncovered. The accepted list is normalised, then
    walked once while remembering where the last accepted window ended; every
    strictly positive gap becomes a rejected window, and so does the tail of
    the day after the last accepted window. */
module DayComplement {
  import opened Results
  import opened Times
  import opened Intervals
  import opened Normalization
  import opened Difference

  /** Every window covers at least one minute. */
  predicate NoneEmpty(s: seq<Interval>) {
    forall i :: 0 <= i < |s| ==> Lt(s[i].start, s[i].end)
  }

  /** The gaps of a normalised list, starting the search at `latest`: at
      most one before each window, and one after the last. */
  function Gaps(s: seq<Interval>, latest: TimeOfDay): (r: seq<Interval>)
    ensures |r| <= |s| + 1
  {
    if |s| == 0 then
      (if Lt(latest, DayEnds) then [Interval(latest, DayEnds)] else [])
    else
      (if Lt(latest, s[0].start) then [Interval(latest, s[0].start)] else []) + Gaps(s[1..], s[0].end)
  }

  /** No accepted window at all rejects the whole day; otherwise the gaps
      from midnight. There is at most one rejected window more than there
      are accepted ones. */
  function Complement(accepted: seq<Interval>): (r: seq<Interval>)
    ensures |r| <= |accepted| + 1
  {
    var normal := Simplify(accepted);
    if |normal| == 0 then [FullDay] else Gaps(normal, DayBegins)
  }

  /** The gaps cover exactly the minutes from `latest` to the end of the day
      that the list does not. */
  lemma {:induction false} GapsCoverage(s: seq<Interval>, latest: TimeOfDay)
    requires AllWellFormed(s) && Separated(s) && Valid(latest)
    requires |s| > 0 ==> Le(latest, s[0].start)
    ensures Coverage(Gaps(s, latest)) == Range(AsMinutes(latest), MinutesPerDay) - Coverage(s)
  {
    if |s| == 0 {
      if Lt(latest, DayEnds) {
        assert Coverage([Interval(latest, DayEnds)]) == Minutes(Interval(latest, DayEnds));
      }
    } else {
      var x := s[0];
      CoverageBounds(s);
      TailSeparated(s);
      if |s| > 1 {
        assert Lt(x.end, s[1].start);
      }
      GapsCoverage(s[1..], x.end);
      var head := if Lt(latest, x.start) then [Interval(latest, x.start)] else [];
      var tail := Gaps(s[1..], x.end);
      assert Coverage(head) == Range(AsMinutes(latest), AsMinutes(x.start)) by {
        if Lt(latest, x.start) {
          assert Coverage(head) == Minutes(head[0]);
        }
      }
      CoverageAppend(head, tail);
      var rest := Coverage(s[1..]);
      assert Coverage(s) == Minutes(x) + rest;
      var lhs := Range(AsMinutes(latest), AsMinutes(x.start)) + (Range(AsMinutes(x.end), MinutesPerDay) - rest);
      var rhs := Range(AsMinutes(latest), MinutesPerDay) - (Minutes(x) + rest);
      forall k ensures k in lhs <==> k in rhs {
      }
      assert lhs == rhs;
    }
  }

  /** The gaps are non-empty well-formed windows, in order, none starting
      before `latest`. */
  lemma {:induction false} GapsShape(s: seq<Interval>, latest: TimeOfDay)
    requires AllWellFormed(s) && Separated(s) && Valid(latest)
    requires |s| > 0 ==> Le(latest, s[0].start)
    ensures AllWellFormed(Gaps(s, latest)) && Ordered(Gaps(s, latest))
    ensures StartsFrom(Gaps(s, latest), latest)
    ensures NoneEmpty(Gaps(s, latest))
  {
    if |s| == 0 {
      if Lt(latest, DayEnds) {
        ConsGap(Interval(latest, DayEnds), [], DayEnds);
        assert Gaps(s, latest) == [Interval(latest, DayEnds)] + [];
      }
    } else {
      var x := s[0];
      TailSeparated(s);
      if |s| > 1 {
        assert Lt(x.end, s[1].start);
      }
      GapsShape(s[1..], x.end);
      var tail := Gaps(s[1..], x.end);
      if Lt(latest, x.start) {
        ConsGap(Interval(latest, x.start), tail, x.end);
        assert Gaps(s, latest) == [Interval(latest, x.start)] + tail;
      } else {
        StartsFromEarlier(tail, latest, x.end);
        assert Gaps(s, latest) == tail;
      }
    }
  }

  /** A non-empty gap before a list of gaps that starts no earlier than the
      gap ends. */
  lemma ConsGap(g: Interval, tail: seq<Interval>, t: TimeOfDay)
    requires WellFormed(g) && Lt(g.start, g.end) && Valid(t) && Le(g.end, t)
    requires AllWellFormed(tail) && Ordered(tail) && StartsFrom(tail, t) && NoneEmpty(tail)
    ensures AllWellFormed([g] + tail) && Ordered([g] + tail)
    ensures StartsFrom([g] + tail, g.start) && NoneEmpty([g] + tail)
  {
    ConsOrdered(g, tail, t);
    var s := [g] + tail;
    forall i | 0 <= i < |s| ensures Le(g.start, s[i].start) && Lt(s[i].start, s[i].end) {
      if i > 0 {
        assert s[i] == tail[i - 1];
        assert WellFormed(tail[i - 1]);
      }
    }
  }

  /** The complement covers exactly the minutes of the day that the accepted
      windows leave uncovered. */
  lemma ComplementCoverage(accepted: seq<Interval>)
    requires AllWellFormed(accepted)
    ensures Coverage(Complement(accepted)) == DayMinutes() - Coverage(accepted)
  {
    var normal := Simplify(accepted);
    if |normal| == 0 {
      NothingAccepted(accepted);
    } else {
      SomethingAccepted(accepted);
    }
  }

  lemma NothingAccepted(accepted: seq<Interval>)
    requires AllWellFormed(accepted) && |Simplify(accepted)| == 0
    ensures Coverage(Complement(accepted)) == DayMinutes() - Coverage(accepted)
  {
    assert Coverage(accepted) == {} by {
      SimplifyCoverage(accepted);
    }
    assert Complement(accepted) == [FullDay];
    FullDayMinutes();
    MinusNothing(DayMinutes(), Coverage(accepted));
  }

  lemma SomethingAccepted(accepted: seq<Interval>)
    requires AllWellFormed(accepted) && |Simplify(accepted)| > 0
    ensures Coverage(Complement(accepted)) == DayMinutes() - Coverage(accepted)
  {
    var normal := Simplify(accepted);
    SimplifyNormalises(accepted);
    SimplifyCoverage(accepted);
    assert Complement(accepted) == Gaps(normal, DayBegins);
    assert Le(DayBegins, normal[0].start);
    GapsCoverage(normal, DayBegins);
    RangeCongruence(AsMinutes(DayBegins), MinutesPerDay, 0, MinutesPerDay);
  }

  lemma MinusNothing(a: set<int>, b: set<int>)
    requires b == {}
    ensures a - b == a
  {
  }

  /** The rejected windows are non-empty, well formed and in order. */
  lemma ComplementShape(accepted: seq<Interval>)
    requires AllWellFormed(accepted)
    ensures AllWellFormed(Complement(accepted)) && Ordered(Complement(accepted))
    ensures NoneEmpty(Complement(accepted))
  {
    var normal := Simplify(accepted);
    var r := Complement(accepted);
    SimplifyNormalises(accepted);
    if |normal| == 0 {
      assert r == [FullDay];
    } else {
      assert r == Gaps(normal, DayBegins);
      GapsFromMidnight(normal);
    }
  }

  lemma GapsFromMidnight(s: seq<Interval>)
    requires AllWellFormed(s) && Separated(s) && |s| > 0
    ensures AllWellFormed(Gaps(s, DayBegins)) && Ordered(Gaps(s, DayBegins))
    ensures NoneEmpty(Gaps(s, DayBegins))
  {
    assert Le(DayBegins, s[0].start);
    GapsShape(s, DayBegins);
  }

  /** Complementing twice gives back the accepted minutes. */
  lemma ComplementTwice(accepted: seq<Interval>)
    requires AllWellFormed(accepted)
    ensures Coverage(Complement(Complement(accepted))) == Coverage(accepted)
  {
    var once := Complement(accepted);
    ComplementCoverage(accepted);
    ComplementShape(accepted);
    ComplementCoverage(once);
    CoverageOfWellFormedIsInDay(accepted);
    DifferenceTwice(DayMinutes(), Coverage(accepted), Coverage(once), Coverage(Complement(once)));
  }

  lemma DifferenceTwice(day: set<int>, a: set<int>, once: set<int>, twice: set<int>)
    requires a <= day && once == day - a && twice == day - once
    ensures twice == a
  {
  }

  /** One accepted window strictly inside the day rejects the day up to its
      start and from its end. */
  lemma ComplementOfOne(x: Interval)
    requires WellFormed(x) && Lt(DayBegins, x.start) && Lt(x.end, DayEnds)
    ensures Complement([x]) == [Interval(DayBegins, x.start), Interval(x.end, DayEnds)]
  {
    SimplifySingle(x);
    assert [x][1..] == [];
    assert Gaps([x], DayBegins) == [Interval(DayBegins, x.start)] + Gaps([], x.end);
  }

  /** The documented example: accepting 12:15-13:37 rejects the day up to
      12:15 and from 13:37. */
  lemma ComplementDocExample()
    ensures Complement([Interval(TimeOfDay(12, 15), TimeOfDay(13, 37))]) ==
            [Interval(DayBegins, TimeOfDay(12, 15)), Interval(TimeOfDay(13, 37), DayEnds)]
  {
    ComplementOfOne(Interval(TimeOfDay(12, 15), TimeOfDay(13, 37)));
  }

  /** Nothing accepted rejects the whole day. */
  lemma ComplementOfNothing()
    ensures Complement([]) == [FullDay]
  {
    SimplifyOfSeparated([]);
  }

  /** The whole day accepted rejects nothing. */
  lemma ComplementOfFullDay()
    ensures Complement([FullDay]) == []
  {
    SimplifySingle(FullDay);
    GapsOfFullDay();
  }

  lemma GapsOfFullDay()
    ensures Gaps([FullDay], DayBegins) == []
  {
    assert [FullDay][1..] == [];
    assert Gaps([], DayEnds) == [];
  }
}
