/** Normalising a list of windows (`AcceptedInterval::simplify` and
    `RejectedInterval::simplify`, which share one body): a stable sort by start,
    then a left fold that merges each window into the last kept one whenever
    the two intersect. The result is ordered with a gap between neighbours and
    covers the same minutes. */
module Normalization {
  import opened Results
  import opened Times
  import opened Intervals

  predicate SortedByStart(s: seq<Interval>) {
    forall i, j :: 0 <= i < j < |s| ==> Le(s[i].start, s[j].start)
  }

  /** Every window ends strictly before any later one starts. */
  predicate Separated(s: seq<Interval>) {
    forall i, j :: 0 <= i < j < |s| ==> Lt(s[i].end, s[j].start)
  }

  lemma SeparatedIsSorted(s: seq<Interval>)
    requires AllWellFormed(s) && Separated(s)
    ensures SortedByStart(s)
  {
    forall i, j | 0 <= i < j < |s| ensures Le(s[i].start, s[j].start) {
      assert WellFormed(s[i]) && WellFormed(s[j]);
    }
  }

  /** A list is separated as soon as every window ends before the next one
      starts. */
  lemma {:induction false} SeparatedByNeighbours(s: seq<Interval>)
    requires AllWellFormed(s)
    requires forall i :: 0 <= i < |s| - 1 ==> Lt(s[i].end, s[i + 1].start)
    ensures Separated(s)
    decreases |s|
  {
    if |s| > 1 {
      var t := s[1..];
      forall i | 0 <= i < |t| - 1 ensures Lt(t[i].end, t[i + 1].start) {
        assert t[i] == s[i + 1] && t[i + 1] == s[i + 2];
      }
      assert AllWellFormed(t) by {
        forall i | 0 <= i < |t| ensures WellFormed(t[i]) {
          assert t[i] == s[i + 1];
        }
      }
      SeparatedByNeighbours(t);
      forall i, j | 0 <= i < j < |s| ensures Lt(s[i].end, s[j].start) {
        if i > 0 {
          assert s[i] == t[i - 1] && s[j] == t[j - 1];
        } else if j > 1 {
          assert s[j] == t[j - 1] && s[1] == t[0];
          assert WellFormed(s[0]) && WellFormed(s[1]) && WellFormed(s[j]);
        }
      }
    }
  }

  lemma {:induction false} LastOf(s: seq<Interval>)
    requires |s| > 0
    ensures s == s[..|s| - 1] + [s[|s| - 1]]
    ensures Coverage(s) == Coverage(s[..|s| - 1]) + Minutes(s[|s| - 1])
  {
    assert s == s[..|s| - 1] + [s[|s| - 1]];
    CoverageAppend(s[..|s| - 1], [s[|s| - 1]]);
    assert Coverage([s[|s| - 1]]) == Minutes(s[|s| - 1]);
  }

  // ---------------------------------------------------------------------------
  // The stable sort

  /** Inserts `x` into a list sorted by start, after every window that starts
      no later than `x` does. */
  function Insert(x: Interval, s: seq<Interval>): (r: seq<Interval>)
    ensures multiset(r) == multiset(s) + multiset{x}
    ensures |r| == |s| + 1
  {
    if |s| == 0 then [x]
    else if Le(s[|s| - 1].start, x.start) then s + [x]
    else
      assert s == s[..|s| - 1] + [s[|s| - 1]];
      Insert(x, s[..|s| - 1]) + [s[|s| - 1]]
  }

  lemma {:induction false} InsertSorted(x: Interval, s: seq<Interval>)
    requires SortedByStart(s)
    ensures SortedByStart(Insert(x, s))
  {
    if |s| > 0 && !Le(s[|s| - 1].start, x.start) {
      var p := s[..|s| - 1];
      var last := s[|s| - 1];
      InsertSorted(x, p);
      var q := Insert(x, p);
      forall i | 0 <= i < |q| ensures Le(q[i].start, last.start) {
        assert q[i] in multiset(q);
        if q[i] != x {
          assert q[i] in multiset(p);
          assert q[i] in p;
        }
      }
    }
  }

  lemma {:induction false} InsertCoverage(x: Interval, s: seq<Interval>)
    ensures Coverage(Insert(x, s)) == Coverage(s) + Minutes(x)
  {
    if |s| == 0 {
      assert Coverage([x]) == Minutes(x);
    } else if Le(s[|s| - 1].start, x.start) {
      LastOf(s + [x]);
      assert (s + [x])[..|s|] == s;
    } else {
      var p, last := s[..|s| - 1], s[|s| - 1];
      InsertCoverage(x, p);
      assert Insert(x, s) == Insert(x, p) + [last];
      CoverageAppend(Insert(x, p), [last]);
      CoverageSingleton(last);
      LastOf(s);
      UnionSwap(Coverage(p), Minutes(x), Minutes(last));
    }
  }

  lemma UnionSwap(a: set<int>, b: set<int>, c: set<int>)
    ensures (a + b) + c == (a + c) + b
  {
  }

  /** Insertion sort by start, stable like `sort_by_key`. */
  function Sort(s: seq<Interval>): (r: seq<Interval>)
    ensures multiset(r) == multiset(s)
    ensures |r| == |s|
    ensures SortedByStart(r)
  {
    if |s| == 0 then []
    else
      assert s == s[..|s| - 1] + [s[|s| - 1]];
      InsertSorted(s[|s| - 1], Sort(s[..|s| - 1]));
      Insert(s[|s| - 1], Sort(s[..|s| - 1]))
  }

  lemma {:induction false} SortCoverage(s: seq<Interval>)
    ensures Coverage(Sort(s)) == Coverage(s)
  {
    if |s| > 0 {
      SortCoverage(s[..|s| - 1]);
      InsertCoverage(s[|s| - 1], Sort(s[..|s| - 1]));
      LastOf(s);
    }
  }

  lemma SortKeepsWellFormed(s: seq<Interval>)
    requires AllWellFormed(s)
    ensures AllWellFormed(Sort(s))
  {
    var r := Sort(s);
    forall i | 0 <= i < |r| ensures WellFormed(r[i]) {
      assert r[i] in multiset(s);
    }
  }

  /** A start-ordered rearrangement of a list whose starts strictly increase
      is that list: when no two windows start together, sorting has only one
      possible answer. */
  lemma {:induction false} SortedPermutationUnique(t: seq<Interval>, u: seq<Interval>)
    requires SortedByStart(t)
    requires forall i, j :: 0 <= i < j < |u| ==> Lt(u[i].start, u[j].start)
    requires multiset(t) == multiset(u)
    ensures t == u
    decreases |u|
  {
    assert |t| == |multiset(t)| == |multiset(u)| == |u|;
    if |u| > 0 {
      SameLeast(t, u);
      SameRest(t, u);
      var t', u' := t[1..], u[1..];
      assert SortedByStart(t') by {
        forall i, j | 0 <= i < j < |t'| ensures Le(t'[i].start, t'[j].start) {
          assert t'[i] == t[i + 1] && t'[j] == t[j + 1];
        }
      }
      forall i, j | 0 <= i < j < |u'| ensures Lt(u'[i].start, u'[j].start) {
        assert u'[i] == u[i + 1] && u'[j] == u[j + 1];
      }
      SortedPermutationUnique(t', u');
      assert t == [t[0]] + t' && u == [u[0]] + u';
    }
  }

  /** Both lists open with the window that starts first. */
  lemma SameLeast(t: seq<Interval>, u: seq<Interval>)
    requires SortedByStart(t)
    requires forall i, j :: 0 <= i < j < |u| ==> Lt(u[i].start, u[j].start)
    requires multiset(t) == multiset(u) && |u| > 0
    ensures |t| > 0 && t[0] == u[0]
  {
    assert |t| == |multiset(t)| == |multiset(u)| == |u|;
    assert t[0] in multiset(u) by { assert t[0] in multiset(t); }
    var k :| 0 <= k < |u| && u[k] == t[0];
    assert u[0] in multiset(t) by { assert u[0] in multiset(u); }
    var m :| 0 <= m < |t| && t[m] == u[0];
    if k > 0 {
      assert false;
    }
  }

  lemma SameRest(t: seq<Interval>, u: seq<Interval>)
    requires multiset(t) == multiset(u) && |t| > 0 && |u| > 0 && t[0] == u[0]
    ensures multiset(t[1..]) == multiset(u[1..])
  {
    assert t == [t[0]] + t[1..] && u == [u[0]] + u[1..];
    assert multiset(t) == multiset{t[0]} + multiset(t[1..]);
    assert multiset(u) == multiset{t[0]} + multiset(u[1..]);
    forall x ensures multiset(t[1..])[x] == multiset(u[1..])[x] {
      assert multiset(t)[x] == multiset{t[0]}[x] + multiset(t[1..])[x];
      assert multiset(u)[x] == multiset{t[0]}[x] + multiset(u[1..])[x];
    }
  }

  /** Sorting a list that is already sorted leaves it as it is. */
  lemma {:induction false} SortOfSorted(s: seq<Interval>)
    requires SortedByStart(s)
    ensures Sort(s) == s
  {
    if |s| > 0 {
      var p := s[..|s| - 1];
      assert SortedByStart(p);
      SortOfSorted(p);
      LastOf(s);
      if |p| > 0 {
        assert Le(p[|p| - 1].start, s[|s| - 1].start);
      }
    }
  }

  // ---------------------------------------------------------------------------
  // The merging fold

  /** One pass of the fold: `norm` holds the windows kept so far, `rest` those
      still to be visited. */
  function MergeRun(norm: seq<Interval>, rest: seq<Interval>): (r: seq<Interval>)
    ensures |r| <= |norm| + |rest|
    decreases |rest|
  {
    if |rest| == 0 then norm
    else if |norm| > 0 && Merge(norm[|norm| - 1], rest[0]).Some? then
      MergeRun(norm[..|norm| - 1] + [Merge(norm[|norm| - 1], rest[0]).value], rest[1..])
    else
      MergeRun(norm + [rest[0]], rest[1..])
  }

  /** Replacing the last kept window by its merge with the next one keeps the
      list separated. */
  lemma MergeStepSeparated(norm: seq<Interval>, x: Interval)
    requires |norm| > 0 && AllWellFormed(norm) && WellFormed(x) && Separated(norm)
    requires Le(norm[|norm| - 1].start, x.start)
    requires Merge(norm[|norm| - 1], x).Some?
    ensures Separated(norm[..|norm| - 1] + [Merge(norm[|norm| - 1], x).value])
    ensures AllWellFormed(norm[..|norm| - 1] + [Merge(norm[|norm| - 1], x).value])
  {
    var m := Merge(norm[|norm| - 1], x).value;
    var norm' := norm[..|norm| - 1] + [m];
    forall i, j | 0 <= i < j < |norm'| ensures Lt(norm'[i].end, norm'[j].start) {
      assert norm'[i] == norm[i];
      if j < |norm'| - 1 {
        assert norm'[j] == norm[j];
      }
    }
  }

  /** Appending a window that does not intersect the last kept one keeps the
      list separated. */
  lemma AppendStepSeparated(norm: seq<Interval>, x: Interval)
    requires AllWellFormed(norm) && WellFormed(x) && Separated(norm)
    requires |norm| > 0 ==> Le(norm[|norm| - 1].start, x.start) && !Intersects(norm[|norm| - 1], x)
    ensures Separated(norm + [x])
    ensures AllWellFormed(norm + [x])
  {
    var norm' := norm + [x];
    if |norm| > 0 {
      var last := norm[|norm| - 1];
      IntersectsInOrder(last, x);
      assert Lt(last.end, x.start);
      forall i, j | 0 <= i < j < |norm'| ensures Lt(norm'[i].end, norm'[j].start) {
        if j < |norm| {
          assert norm'[i] == norm[i] && norm'[j] == norm[j];
        } else if i < |norm| - 1 {
          assert Lt(norm[i].end, last.start);
          assert WellFormed(norm[i]) && WellFormed(last);
        }
      }
    }
  }

  /** What the fold needs at every step: the kept windows are normalised,
      the windows still to visit are sorted and start no earlier than the last
      kept one. */
  predicate FoldReady(norm: seq<Interval>, rest: seq<Interval>) {
    && AllWellFormed(norm) && AllWellFormed(rest)
    && Separated(norm) && SortedByStart(rest)
    && (|norm| > 0 ==> forall j :: 0 <= j < |rest| ==> Le(norm[|norm| - 1].start, rest[j].start))
  }

  /** The windows after the first of a sorted list are sorted and start no
      earlier than the first. */
  lemma TailSorted(rest: seq<Interval>)
    requires |rest| > 0 && AllWellFormed(rest) && SortedByStart(rest)
    ensures AllWellFormed(rest[1..]) && SortedByStart(rest[1..])
    ensures forall j :: 0 <= j < |rest[1..]| ==> Le(rest[0].start, rest[1..][j].start)
  {
    var t := rest[1..];
    forall j | 0 <= j < |t| ensures WellFormed(t[j]) && Le(rest[0].start, t[j].start) {
      assert t[j] == rest[j + 1];
    }
    forall i, j | 0 <= i < j < |t| ensures Le(t[i].start, t[j].start) {
      assert t[i] == rest[i + 1] && t[j] == rest[j + 1];
    }
  }

  /** A merging step keeps the fold ready and loses no minute. */
  lemma MergeBranch(norm: seq<Interval>, rest: seq<Interval>)
    requires FoldReady(norm, rest) && |rest| > 0 && |norm| > 0
    requires Merge(norm[|norm| - 1], rest[0]).Some?
    ensures FoldReady(norm[..|norm| - 1] + [Merge(norm[|norm| - 1], rest[0]).value], rest[1..])
    ensures Coverage(norm[..|norm| - 1] + [Merge(norm[|norm| - 1], rest[0]).value]) + Coverage(rest[1..]) ==
            Coverage(norm) + Coverage(rest)
  {
    var x := rest[0];
    var last := norm[|norm| - 1];
    var m := Merge(last, x).value;
    var norm' := norm[..|norm| - 1] + [m];
    var t := rest[1..];
    MergeStepSeparated(norm, x);
    TailSorted(rest);
    assert Le(last.start, x.start);
    assert norm'[|norm'| - 1] == m && m.start == last.start;
    forall j | 0 <= j < |t| ensures Le(m.start, t[j].start) {
      assert t[j] == rest[j + 1];
    }
    MergeCoverage(norm, x);
    assert Coverage(rest) == Minutes(x) + Coverage(t);
    UnionRegroup(Coverage(norm'), Coverage(norm), Minutes(x), Coverage(rest), Coverage(t));
  }

  lemma MergeCoverage(norm: seq<Interval>, x: Interval)
    requires |norm| > 0 && WellFormed(norm[|norm| - 1]) && WellFormed(x)
    requires Merge(norm[|norm| - 1], x).Some?
    ensures Coverage(norm[..|norm| - 1] + [Merge(norm[|norm| - 1], x).value]) == Coverage(norm) + Minutes(x)
  {
    var norm' := norm[..|norm| - 1] + [Merge(norm[|norm| - 1], x).value];
    LastOf(norm);
    LastOf(norm');
    assert norm'[..|norm'| - 1] == norm[..|norm| - 1];
  }

  lemma UnionRegroup(a: set<int>, b: set<int>, c: set<int>, d: set<int>, e: set<int>)
    requires a == b + c && d == c + e
    ensures a + e == b + d
  {
  }

  /** An appending step keeps the fold ready and loses no minute. */
  lemma AppendBranch(norm: seq<Interval>, rest: seq<Interval>)
    requires FoldReady(norm, rest) && |rest| > 0
    requires |norm| > 0 ==> Merge(norm[|norm| - 1], rest[0]).None?
    ensures FoldReady(norm + [rest[0]], rest[1..])
    ensures Coverage(norm + [rest[0]]) + Coverage(rest[1..]) == Coverage(norm) + Coverage(rest)
  {
    var x := rest[0];
    var norm' := norm + [x];
    AppendStepSeparated(norm, x);
    TailSorted(rest);
    assert norm'[|norm'| - 1] == x;
    LastOf(norm');
    assert norm'[..|norm'| - 1] == norm;
    assert Coverage(rest) == Minutes(x) + Coverage(rest[1..]);
    UnionRegroup(Coverage(norm'), Coverage(norm), Minutes(x), Coverage(rest), Coverage(rest[1..]));
  }

  /** What the fold keeps: the list stays well formed and separated, and the
      minutes covered are those of both inputs. */
  lemma {:induction false} MergeRunInvariant(norm: seq<Interval>, rest: seq<Interval>)
    requires FoldReady(norm, rest)
    ensures AllWellFormed(MergeRun(norm, rest))
    ensures Separated(MergeRun(norm, rest))
    ensures Coverage(MergeRun(norm, rest)) == Coverage(norm) + Coverage(rest)
    decreases |rest|
  {
    if |rest| > 0 {
      if |norm| > 0 && Merge(norm[|norm| - 1], rest[0]).Some? {
        MergeBranch(norm, rest);
        MergeRunInvariant(norm[..|norm| - 1] + [Merge(norm[|norm| - 1], rest[0]).value], rest[1..]);
      } else {
        AppendBranch(norm, rest);
        MergeRunInvariant(norm + [rest[0]], rest[1..]);
      }
    }
  }

  /** On a list that is already separated, the fold merges nothing. */
  lemma {:induction false} MergeRunOfSeparated(norm: seq<Interval>, rest: seq<Interval>)
    requires AllWellFormed(norm + rest) && Separated(norm + rest)
    ensures MergeRun(norm, rest) == norm + rest
    decreases |rest|
  {
    var s := norm + rest;
    if |rest| > 0 {
      if |norm| > 0 {
        var last := norm[|norm| - 1];
        assert last == s[|norm| - 1] && rest[0] == s[|norm|];
        assert WellFormed(last) && WellFormed(rest[0]);
        assert !Intersects(last, rest[0]);
      }
      assert (norm + [rest[0]]) + rest[1..] == s;
      MergeRunOfSeparated(norm + [rest[0]], rest[1..]);
    } else {
      assert s == norm;
    }
  }

  // ---------------------------------------------------------------------------
  // simplify

  /** `simplify`: sort by start, then merge neighbours that intersect. */
  function Simplify(s: seq<Interval>): (r: seq<Interval>)
    ensures |r| <= |s|
  {
    var sorted := Sort(s);
    MergeRun([], sorted)
  }

  /** The result is normalised: well formed, in order, with a gap between
      neighbours. */
  lemma SimplifyNormalises(s: seq<Interval>)
    requires AllWellFormed(s)
    ensures AllWellFormed(Simplify(s)) && Separated(Simplify(s))
  {
    SortKeepsWellFormed(s);
    MergeRunInvariant([], Sort(s));
  }

  /** The result covers the same minutes. */
  lemma SimplifyCoverage(s: seq<Interval>)
    requires AllWellFormed(s)
    ensures Coverage(Simplify(s)) == Coverage(s)
  {
    SortKeepsWellFormed(s);
    SortCoverage(s);
    MergeRunInvariant([], Sort(s));
  }

  /** A separated list is its own normal form. */
  lemma SimplifyOfSeparated(s: seq<Interval>)
    requires AllWellFormed(s) && Separated(s)
    ensures Simplify(s) == s
  {
    SeparatedIsSorted(s);
    SortOfSorted(s);
    MergeRunFromScratch(s);
  }

  /** Any rearrangement of a separated list has that list as its normal
      form. */
  lemma SimplifyOfRearranged(s: seq<Interval>, t: seq<Interval>)
    requires AllWellFormed(t) && Separated(t)
    requires multiset(s) == multiset(t)
    ensures Simplify(s) == t
  {
    forall i, j | 0 <= i < j < |t| ensures Lt(t[i].start, t[j].start) {
      assert WellFormed(t[i]);
    }
    SortedPermutationUnique(Sort(s), t);
    MergeRunFromScratch(t);
  }

  lemma MergeRunFromScratch(s: seq<Interval>)
    requires AllWellFormed(s) && Separated(s)
    ensures MergeRun([], s) == s
  {
    assert [] + s == s;
    MergeRunOfSeparated([], s);
  }

  /** One well-formed window is its own normal form. */
  lemma SimplifySingle(x: Interval)
    requires WellFormed(x)
    ensures Simplify([x]) == [x]
  {
    assert Sort([x]) == [x];
    assert MergeRun([], [x]) == [x];
  }

  /** Two well-formed windows with a gap between them, in order, are their
      own normal form. */
  lemma SimplifyPair(x: Interval, y: Interval)
    requires WellFormed(x) && WellFormed(y) && Lt(x.end, y.start)
    ensures Simplify([x, y]) == [x, y]
  {
    SimplifyOfSeparated([x, y]);
  }

  /** Simplifying twice is simplifying once. */
  lemma SimplifyIdempotent(s: seq<Interval>)
    requires AllWellFormed(s)
    ensures Simplify(Simplify(s)) == Simplify(s)
  {
    SimplifyNormalises(s);
    SimplifyOfSeparated(Simplify(s));
  }
}
