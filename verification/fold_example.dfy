/** The daemon's unit test of the fold (`test_interval_sub`), replayed. A first
    diff accepts ten minutes at the top of every hour from 01:00 to 09:00 and
    rejects 00:00-01:09, 01:15-01:20 and 03:00-03:01; a second accepts
    23:00-24:00 and rejects four windows given out of order. The walk is
    followed one step at a time. Both readings of `subtract` give the expected
    list: the one `HitRight` configuration the test reaches (07:00-07:10
    against 07:01-07:11) ends in the same list either way. */
module FoldExample {
  import opened Times
  import opened Intervals
  import opened Normalization
  import opened Difference
  import opened Diffs

  function W(h0: u8, m0: u8, h1: u8, m1: u8): Interval {
    Interval(TimeOfDay(h0, m0), TimeOfDay(h1, m1))
  }

  function FirstAccepted(): seq<Interval> {
    [W(1, 0, 1, 10), W(2, 0, 2, 10), W(3, 0, 3, 10), W(4, 0, 4, 10), W(5, 0, 5, 10),
     W(6, 0, 6, 10), W(7, 0, 7, 10), W(8, 0, 8, 10), W(9, 0, 9, 10)]
  }

  function FirstRejected(): seq<Interval> {
    [W(0, 0, 1, 9), W(1, 15, 1, 20), W(3, 0, 3, 1)]
  }

  function SecondRejected(): seq<Interval> {
    [W(8, 59, 9, 9), W(7, 1, 7, 11), W(4, 50, 6, 11), W(4, 5, 4, 7)]
  }

  function TestDiffs(): seq<Diff> {
    [Diff(FirstAccepted(), FirstRejected()), Diff([W(23, 0, 24, 0)], SecondRejected())]
  }

  /** What the first diff leaves. */
  function AfterFirst(): seq<Interval> {
    [W(1, 9, 1, 10), W(2, 0, 2, 10), W(3, 1, 3, 10), W(4, 0, 4, 10), W(5, 0, 5, 10),
     W(6, 0, 6, 10), W(7, 0, 7, 10), W(8, 0, 8, 10), W(9, 0, 9, 10)]
  }

  function SortedSecondRejected(): seq<Interval> {
    [W(4, 5, 4, 7), W(4, 50, 6, 11), W(7, 1, 7, 11), W(8, 59, 9, 9)]
  }

  /** The list the test expects. */
  function Expected(): seq<Interval> {
    [W(1, 9, 1, 10), W(2, 0, 2, 10), W(3, 1, 3, 10), W(4, 0, 4, 5), W(4, 7, 4, 10),
     W(7, 0, 7, 1), W(8, 0, 8, 10), W(9, 9, 9, 10), W(23, 0, 24, 0)]
  }

  /** The fold gives exactly the list the test expects, under either reading. */
  lemma FoldReproducesTest(reading: Reading)
    ensures ComputeAccepted(TestDiffs(), reading) == Expected()
  {
    assert SubtractAll(FirstAccepted(), FirstRejected(), reading) == AfterFirst() by {
      FirstDiff(reading);
    }
    assert SubtractAll(AfterFirst() + [W(23, 0, 24, 0)], SecondRejected(), reading) == Expected() by {
      SecondDiff(reading);
    }
    FoldOfTwo(TestDiffs()[0], TestDiffs()[1], AfterFirst(), Expected(), reading);
    assert TestDiffs() == [TestDiffs()[0], TestDiffs()[1]];
  }

  /** The fold over two diffs: the first diff's outcome, extended by the
      second's accepted windows, minus the second's rejected ones. */
  lemma FoldOfTwo(d0: Diff, d1: Diff, middle: seq<Interval>, out: seq<Interval>, reading: Reading)
    requires SubtractAll(d0.accepted, d0.rejected, reading) == middle
    requires SubtractAll(middle + d1.accepted, d1.rejected, reading) == out
    ensures ComputeAccepted([d0, d1], reading) == out
  {
    var ds := [d0, d1];
    assert ds[..1][..0] == [] && ds[..1][0] == d0 && ds[..1] == [d0];
    assert [] + d0.accepted == d0.accepted;
    assert ComputeAccepted([d0], reading) == middle;
  }

  /** A subtraction whose normalised operands walk to the same list under
      both readings gives that list under both. */
  lemma SubtractThrough(acc: seq<Interval>, rej: seq<Interval>, na: seq<Interval>, nr: seq<Interval>, out: seq<Interval>)
    requires |rej| > 0 && Simplify(acc) == na && Simplify(rej) == nr
    requires Walk(na, nr, AsWritten) == out && Walk(na, nr, AsDocumented) == out
    ensures AcceptedSubtract(acc, rej) == out && AcceptedSubtractIntended(acc, rej) == out
  {
  }

  lemma FirstDiff(reading: Reading)
    ensures SubtractAll(FirstAccepted(), FirstRejected(), reading) == AfterFirst()
  {
    FirstDiffBothReadings();
  }

  lemma SecondDiff(reading: Reading)
    ensures SubtractAll(AfterFirst() + [W(23, 0, 24, 0)], SecondRejected(), reading) == Expected()
  {
    SecondDiffBothReadings();
  }

  /** The first diff, under either reading. */
  lemma FirstDiffBothReadings()
    ensures AcceptedSubtractIntended(FirstAccepted(), FirstRejected()) == AfterFirst()
    ensures AcceptedSubtract(FirstAccepted(), FirstRejected()) == AfterFirst()
  {
    assert Simplify(FirstAccepted()) == FirstAccepted() by { FirstAcceptedNormal(); }
    assert Simplify(FirstRejected()) == FirstRejected() by { FirstRejectedNormal(); }
    assert Walk(FirstAccepted(), FirstRejected(), AsWritten) == AfterFirst() by { FirstWalk(AsWritten); }
    assert Walk(FirstAccepted(), FirstRejected(), AsDocumented) == AfterFirst() by { FirstWalk(AsDocumented); }
    SubtractThrough(FirstAccepted(), FirstRejected(), FirstAccepted(), FirstRejected(), AfterFirst());
  }

  /** The second diff, under either reading. */
  lemma SecondDiffBothReadings()
    ensures AcceptedSubtractIntended(AfterFirst() + [W(23, 0, 24, 0)], SecondRejected()) == Expected()
    ensures AcceptedSubtract(AfterFirst() + [W(23, 0, 24, 0)], SecondRejected()) == Expected()
  {
    var a := AfterFirst() + [W(23, 0, 24, 0)];
    assert Simplify(a) == a by { SecondAcceptedNormal(); }
    assert Simplify(SecondRejected()) == SortedSecondRejected() by { SecondRejectedNormal(); }
    assert Walk(a, SortedSecondRejected(), AsWritten) == Expected() by { SecondWalk(AsWritten); }
    assert Walk(a, SortedSecondRejected(), AsDocumented) == Expected() by { SecondWalk(AsDocumented); }
    SubtractThrough(a, SecondRejected(), a, SortedSecondRejected(), Expected());
  }

  lemma FirstAcceptedNormal()
    ensures Simplify(FirstAccepted()) == FirstAccepted()
  {
    GappedIsNormal(FirstAccepted());
  }

  lemma FirstRejectedNormal()
    ensures Simplify(FirstRejected()) == FirstRejected()
  {
    GappedIsNormal(FirstRejected());
  }

  lemma SecondAcceptedNormal()
    ensures Simplify(AfterFirst() + [W(23, 0, 24, 0)]) == AfterFirst() + [W(23, 0, 24, 0)]
  {
    GappedIsNormal(AfterFirst() + [W(23, 0, 24, 0)]);
  }

  /** The second diff's rejected windows, given latest first, normalise to
      the same windows earliest first. */
  lemma SecondRejectedNormal()
    ensures Simplify(SecondRejected()) == SortedSecondRejected()
  {
    ReversedIsNormal(SecondRejected(), SortedSecondRejected());
  }

  /** Windows given latest first normalise to the same windows earliest
      first, when each ends before the next starts. */
  lemma ReversedIsNormal(s: seq<Interval>, t: seq<Interval>)
    requires Reversed(s) == t && AllWellFormed(t)
    requires forall i :: 0 <= i < |t| - 1 ==> Lt(t[i].end, t[i + 1].start)
    ensures Simplify(s) == t
  {
    ReversedPermutes(s);
    GappedRearranged(s, t);
  }

  function Reversed<T>(s: seq<T>): (r: seq<T>)
    ensures |r| == |s|
  {
    if |s| == 0 then [] else Reversed(s[1..]) + [s[0]]
  }

  lemma {:induction false} ReversedPermutes<T>(s: seq<T>)
    ensures multiset(Reversed(s)) == multiset(s)
  {
    if |s| > 0 {
      ReversedPermutes(s[1..]);
      assert s == [s[0]] + s[1..];
    }
  }

  /** Well-formed windows, each ending before the next starts, are their own
      normal form. */
  lemma GappedIsNormal(t: seq<Interval>)
    requires AllWellFormed(t)
    requires forall i :: 0 <= i < |t| - 1 ==> Lt(t[i].end, t[i + 1].start)
    ensures Simplify(t) == t
  {
    SeparatedByNeighbours(t);
    SimplifyOfSeparated(t);
  }

  /** Any rearrangement of well-formed windows, each ending before the next
      starts, normalises to them. */
  lemma GappedRearranged(s: seq<Interval>, t: seq<Interval>)
    requires AllWellFormed(t)
    requires forall i :: 0 <= i < |t| - 1 ==> Lt(t[i].end, t[i + 1].start)
    requires multiset(s) == multiset(t)
    ensures Simplify(s) == t
  {
    SeparatedByNeighbours(t);
    SimplifyOfRearranged(s, t);
  }

  /** The walk of the first diff. */
  lemma FirstWalk(reading: Reading)
    ensures Walk(FirstAccepted(), FirstRejected(), reading) == AfterFirst()
  {
    var a, r := FirstAccepted(), FirstRejected();
    // 01:00-01:10 loses its first nine minutes to 00:00-01:09.
    assert Cut(a[0], r[0], reading) == HitLeft(W(1, 9, 1, 10));
    assert Walk(a, r, reading) == Walk([W(1, 9, 1, 10)] + a[1..], r[1..], reading);
    // What is left of it lies before 01:15-01:20.
    assert Cut(W(1, 9, 1, 10), r[1], reading) == MissRight(W(1, 9, 1, 10));
    assert ([W(1, 9, 1, 10)] + a[1..])[1..] == a[1..];
    assert Walk([W(1, 9, 1, 10)] + a[1..], r[1..], reading) == [W(1, 9, 1, 10)] + Walk(a[1..], r[1..], reading);
    FirstWalkFromTwo(reading);
    assert AfterFirst() == [W(1, 9, 1, 10)] + AfterFirst()[1..];
  }

  /** From 02:00-02:10 and 01:15-01:20 on. */
  lemma FirstWalkFromTwo(reading: Reading)
    ensures Walk(FirstAccepted()[1..], FirstRejected()[1..], reading) == AfterFirst()[1..]
  {
    var a, r := FirstAccepted()[1..], FirstRejected()[1..];
    // 01:15-01:20 lies before 02:00-02:10.
    assert Cut(a[0], r[0], reading) == MissLeft(a[0]);
    assert Walk(a, r, reading) == Walk(a, r[1..], reading);
    // 02:00-02:10 lies before 03:00-03:01.
    assert Cut(a[0], r[1], reading) == MissRight(a[0]);
    assert r[1..][1..] == [];
    assert Walk(a, r[1..], reading) == [a[0]] + Walk(a[1..], r[1..], reading);
    // 03:00-03:10 loses its first minute; nothing is left to reject.
    assert Cut(a[1], r[1], reading) == HitLeft(W(3, 1, 3, 10));
    assert a[1..][1..] == a[2..];
    assert Walk(a[1..], r[1..], reading) == Walk([W(3, 1, 3, 10)] + a[2..], [], reading);
    assert AfterFirst()[1..] == [a[0]] + ([W(3, 1, 3, 10)] + a[2..]);
  }

  /** The walk of the second diff. */
  lemma SecondWalk(reading: Reading)
    ensures Walk(AfterFirst() + [W(23, 0, 24, 0)], SortedSecondRejected(), reading) == Expected()
  {
    var a, r := AfterFirst() + [W(23, 0, 24, 0)], SortedSecondRejected();
    // The first three windows lie before 04:05-04:07.
    assert Cut(a[0], r[0], reading) == MissRight(a[0]);
    assert Walk(a, r, reading) == [a[0]] + Walk(a[1..], r, reading);
    SecondWindowOn(reading);
    assert Expected() == [a[0]] + Expected()[1..];
  }

  /** From 02:00-02:10 on. */
  lemma SecondWindowOn(reading: Reading)
    ensures Walk((AfterFirst() + [W(23, 0, 24, 0)])[1..], SortedSecondRejected(), reading) == Expected()[1..]
  {
    var a, r := (AfterFirst() + [W(23, 0, 24, 0)])[1..], SortedSecondRejected();
    assert Cut(a[0], r[0], reading) == MissRight(a[0]);
    assert Walk(a, r, reading) == [a[0]] + Walk(a[1..], r, reading);
    assert Cut(a[1], r[0], reading) == MissRight(a[1]);
    assert a[1..][1..] == a[2..];
    assert Walk(a[1..], r, reading) == [a[1]] + Walk(a[2..], r, reading);
    assert a[2..] == (AfterFirst() + [W(23, 0, 24, 0)])[3..];
    ThirdWindowOn(reading);
    assert Expected()[1..] == [a[0]] + ([a[1]] + Expected()[3..]);
  }

  /** From 04:00-04:10 on. */
  lemma ThirdWindowOn(reading: Reading)
    ensures Walk((AfterFirst() + [W(23, 0, 24, 0)])[3..], SortedSecondRejected(), reading) == Expected()[3..]
  {
    var a, r := (AfterFirst() + [W(23, 0, 24, 0)])[3..], SortedSecondRejected();
    // 04:05-04:07 cuts 04:00-04:10 in two.
    assert Cut(a[0], r[0], reading) == HitCenter(W(4, 0, 4, 5), W(4, 7, 4, 10));
    var b := [W(4, 7, 4, 10)] + a[1..];
    assert Walk(a, r, reading) == [W(4, 0, 4, 5)] + Walk(b, r[1..], reading);
    // The right part lies before 04:50-06:11.
    assert Cut(b[0], r[1], reading) == MissRight(b[0]);
    assert b[1..] == a[1..];
    assert Walk(b, r[1..], reading) == [W(4, 7, 4, 10)] + Walk(a[1..], r[1..], reading);
    assert a[1..] == (AfterFirst() + [W(23, 0, 24, 0)])[4..];
    FifthWindowOn(reading);
    assert Expected()[3..] == [W(4, 0, 4, 5), W(4, 7, 4, 10)] + Expected()[5..];
  }

  /** From 05:00-05:10 and 04:50-06:11 on. */
  lemma FifthWindowOn(reading: Reading)
    ensures Walk((AfterFirst() + [W(23, 0, 24, 0)])[4..], SortedSecondRejected()[1..], reading) == Expected()[5..]
  {
    var a, r := (AfterFirst() + [W(23, 0, 24, 0)])[4..], SortedSecondRejected()[1..];
    // 04:50-06:11 swallows 05:00-05:10 and 06:00-06:10.
    assert Cut(a[0], r[0], reading) == Empty;
    assert a[1..] == (AfterFirst() + [W(23, 0, 24, 0)])[5..];
    assert Walk(a, r, reading) == Walk(a[1..], r, reading);
    assert Cut(a[1], r[0], reading) == Empty;
    assert a[1..][1..] == a[2..];
    assert Walk(a[1..], r, reading) == Walk(a[2..], r, reading);
    // 04:50-06:11 lies before 07:00-07:10.
    assert Cut(a[2], r[0], reading) == MissLeft(a[2]);
    assert Walk(a[2..], r, reading) == Walk(a[2..], r[1..], reading);
    assert a[2..] == (AfterFirst() + [W(23, 0, 24, 0)])[6..];
    assert r[1..] == SortedSecondRejected()[2..];
    SeventhWindowOn(reading);
  }

  /** From 07:00-07:10 on: the documented `HitRight` case, where the two
      readings take different steps to the same list. */
  lemma SeventhWindowOn(reading: Reading)
    ensures Walk((AfterFirst() + [W(23, 0, 24, 0)])[6..], SortedSecondRejected()[2..], reading) == Expected()[5..]
  {
    var a, r := (AfterFirst() + [W(23, 0, 24, 0)])[6..], SortedSecondRejected()[2..];
    var c := [W(7, 0, 7, 1)] + a[1..];
    assert c[1..] == a[1..];
    if reading == AsWritten {
      // As written, 07:01-07:11 is dropped along with the cut.
      assert Cut(a[0], r[0], reading) == HitLeft(W(7, 0, 7, 1));
      assert Walk(a, r, reading) == Walk(c, r[1..], reading);
      assert Cut(c[0], r[1], reading) == MissRight(c[0]);
      assert Walk(c, r[1..], reading) == [W(7, 0, 7, 1)] + Walk(a[1..], r[1..], reading);
    } else {
      // As documented, 07:01-07:11 is kept, then found to lie before 08:00.
      assert Cut(a[0], r[0], reading) == HitRight(W(7, 0, 7, 1));
      assert Walk(a, r, reading) == Walk(c, r, reading);
      assert Cut(c[0], r[0], reading) == MissRight(c[0]);
      assert Walk(c, r, reading) == [W(7, 0, 7, 1)] + Walk(a[1..], r, reading);
      assert Cut(a[1], r[0], reading) == MissLeft(a[1]);
      assert Walk(a[1..], r, reading) == Walk(a[1..], r[1..], reading);
    }
    // 08:00-08:10 lies before 08:59-09:09, which takes nine minutes of
    // 09:00-09:10; nothing is left to reject.
    assert Cut(a[1], r[1], reading) == MissRight(a[1]);
    assert a[1..][1..] == a[2..];
    assert Walk(a[1..], r[1..], reading) == [a[1]] + Walk(a[2..], r[1..], reading);
    assert Cut(a[2], r[1], reading) == HitLeft(W(9, 9, 9, 10));
    assert r[1..][1..] == [];
    assert Walk(a[2..], r[1..], reading) == Walk([W(9, 9, 9, 10)] + a[3..], [], reading);
    assert Expected()[5..] == [W(7, 0, 7, 1), a[1]] + ([W(9, 9, 9, 10)] + a[3..]);
  }
}
