/** The weekly schedule of one user. Each day of the week either carries its
    own instructions or copies another day (`like: monday`). `Week`'s
    deserializer resolves the copies by a bounded fixed point: seven passes
    over Monday..Sunday, each resolving every day whose instructions are
    known; whatever is still pending afterwards is reported as a cycle. */
module Schedule {
  import opened Results
  import opened Times
  import opened Intervals
  import opened Days

  /** A process, IP or web rule as the compiler reads it: its target (a
      binary path or a domain) and the windows it permits and forbids. */
  datatype Rule = Rule(target: string, permitted: seq<Interval>, forbidden: seq<Interval>)

  datatype DayConfig = DayConfig(processes: seq<Rule>, ip: seq<Rule>, web: seq<Rule>)

  /** A day as written in the file: a copy of another day, or instructions. */
  datatype DayConfigParser =
    | Copy(like: Day)
    | Instructions(processes: seq<Rule>, ip: seq<Rule>, web: seq<Rule>)

  datatype WeekError = CycleWithinDayDefinitions

  function ConfigOf(p: DayConfigParser): DayConfig
    requires p.Instructions?
  {
    DayConfig(p.processes, p.ip, p.web)
  }

  /** The resolver's two maps: the days still to resolve and the days built. */
  datatype Resolution = Resolution(pending: map<Day, DayConfigParser>, built: map<Day, DayConfig>)

  /** One day of one pass: a pending day is resolved when it has instructions
      or when the day it copies is already built; otherwise it stays pending.
      No other day is touched. */
  function Visit(r: Resolution, day: Day): (v: Resolution)
    ensures forall d :: d != day ==> (d in v.pending <==> d in r.pending) && (d in r.pending ==> v.pending[d] == r.pending[d])
    ensures forall d :: d != day ==> (d in v.built <==> d in r.built) && (d in r.built ==> v.built[d] == r.built[d])
    ensures day in r.pending && Ready(r, day) ==>
              && day !in v.pending && day in v.built
              && (r.pending[day].Instructions? ==> v.built[day] == ConfigOf(r.pending[day]))
              && (r.pending[day].Copy? ==> v.built[day] == r.built[r.pending[day].like])
    ensures !(day in r.pending && Ready(r, day)) ==> v == r
  {
    if day !in r.pending then r
    else match r.pending[day]
      case Copy(other) =>
        if other in r.built then Resolution(r.pending - {day}, r.built[day := r.built[other]])
        else r
      case Instructions(p, i, w) =>
        Resolution(r.pending - {day}, r.built[day := DayConfig(p, i, w)])
  }

  /** One pass, visiting the days `from`..Sunday in order. (Naming `r` in
      the decreases clause stops the verifier from unrolling a whole pass
      whenever `from` is a literal.) */
  function Sweep(r: Resolution, from: nat): (s: Resolution)
    ensures s.pending.Keys <= r.pending.Keys
    ensures r.built.Keys <= s.built.Keys
    decreases 7 - from, r
  {
    if from >= 7 then r else Sweep(Visit(r, from), from + 1)
  }

  /** `n` passes over the week. (As for `Sweep`, `r` in the decreases
      clause stops the unrolling of all seven passes.) */
  function Passes(r: Resolution, n: nat): Resolution
    decreases n, r
  {
    if n == 0 then r else Sweep(Passes(r, n - 1), 0)
  }

  /** The deserializer's resolution step: seven passes, then an error if any
      day is still pending. On success every day of the input is in the
      result and nothing else; a day with instructions gets them verbatim, and
      a copied day gets the configuration of the day it names. */
  function ResolveWeek(parse: map<Day, DayConfigParser>): (res: Result<map<Day, DayConfig>, WeekError>)
    ensures res.Ok? ==> res.value.Keys == parse.Keys
    ensures res.Ok? ==> forall d :: d in parse && parse[d].Instructions? ==> res.value[d] == ConfigOf(parse[d])
    ensures res.Ok? ==> forall d :: d in parse && parse[d].Copy? ==>
              parse[d].like in res.value && res.value[d] == res.value[parse[d].like]
  {
    var r0 := Resolution(parse, map[]);
    Start(parse);
    PassesKeeps(parse, r0, 7);
    var r := Passes(r0, 7);
    if |r.pending| != 0 then Err(CycleWithinDayDefinitions) else Ok(r.built)
  }

  /** What the resolver keeps true about the input `orig`: every day is either
      pending, unchanged from the input, or built, as its instructions say or
      as a copy of the (built) day it names. */
  predicate Inv(orig: map<Day, DayConfigParser>, r: Resolution) {
    Partition(orig, r) && BuiltAsWritten(orig, r)
  }

  /** Every day of the input is either pending, unchanged, or built. */
  predicate Partition(orig: map<Day, DayConfigParser>, r: Resolution) {
    && (forall d :: d in r.pending ==> d in orig && r.pending[d] == orig[d])
    && (forall d :: d in r.built ==> d in orig && d !in r.pending)
    && (forall d :: d in orig ==> d in r.pending || d in r.built)
  }

  /** Every built day is built as its instructions say, or as a copy of the
      built day it names. */
  predicate BuiltAsWritten(orig: map<Day, DayConfigParser>, r: Resolution) {
    && (forall d :: d in r.built && d in orig && orig[d].Instructions? ==> r.built[d] == ConfigOf(orig[d]))
    && (forall d :: d in r.built && d in orig && orig[d].Copy? ==>
          orig[d].like in r.built && r.built[d] == r.built[orig[d].like])
  }

  /** From `r` to `s` no built day is rewritten and no day becomes pending. */
  predicate Grows(r: Resolution, s: Resolution) {
    && (forall d :: d in r.built ==> d in s.built && s.built[d] == r.built[d])
    && (forall d :: d in s.pending ==> d in r.pending)
  }

  /** A pending day that the next visit resolves. */
  predicate Ready(r: Resolution, d: Day)
    requires d in r.pending
  {
    r.pending[d].Instructions? || r.pending[d].like in r.built
  }

  lemma GrowsTransitive(r: Resolution, s: Resolution, t: Resolution)
    requires Grows(r, s) && Grows(s, t)
    ensures Grows(r, t)
  {
  }

  /** A visit keeps the invariant, rewrites no built day, and resolves the day
      it visits when that day is ready. */
  lemma VisitKeeps(orig: map<Day, DayConfigParser>, r: Resolution, day: Day)
    requires Inv(orig, r)
    ensures Inv(orig, Visit(r, day)) && Grows(r, Visit(r, day))
    ensures day in r.pending && Ready(r, day) ==> day !in Visit(r, day).pending && day in Visit(r, day).built
    ensures day in r.pending && !Ready(r, day) ==> Visit(r, day) == r
  {
    if day in r.pending && Ready(r, day) {
      var c := if r.pending[day].Instructions? then ConfigOf(r.pending[day]) else r.built[r.pending[day].like];
      BuildKeeps(orig, r, day, c);
      assert Visit(r, day) == Resolution(r.pending - {day}, r.built[day := c]);
    }
  }

  /** Building a pending day as the input says keeps the invariant. */
  lemma BuildKeeps(orig: map<Day, DayConfigParser>, r: Resolution, day: Day, c: DayConfig)
    requires Inv(orig, r) && day in r.pending
    requires orig[day].Instructions? ==> c == ConfigOf(orig[day])
    requires orig[day].Copy? ==> orig[day].like in r.built && c == r.built[orig[day].like]
    ensures Inv(orig, Resolution(r.pending - {day}, r.built[day := c]))
    ensures Grows(r, Resolution(r.pending - {day}, r.built[day := c]))
  {
    BuildKeepsPartition(orig, r, day, c);
    BuildKeepsContents(orig, r, day, c);
  }

  lemma BuildKeepsPartition(orig: map<Day, DayConfigParser>, r: Resolution, day: Day, c: DayConfig)
    requires Partition(orig, r) && day in r.pending
    ensures Partition(orig, Resolution(r.pending - {day}, r.built[day := c]))
    ensures Grows(r, Resolution(r.pending - {day}, r.built[day := c]))
  {
  }

  lemma BuildKeepsContents(orig: map<Day, DayConfigParser>, r: Resolution, day: Day, c: DayConfig)
    requires Partition(orig, r) && BuiltAsWritten(orig, r) && day in r.pending
    requires orig[day].Instructions? ==> c == ConfigOf(orig[day])
    requires orig[day].Copy? ==> orig[day].like in r.built && c == r.built[orig[day].like]
    ensures BuiltAsWritten(orig, Resolution(r.pending - {day}, r.built[day := c]))
  {
    var s := Resolution(r.pending - {day}, r.built[day := c]);
    forall d | d in s.built && d in orig && orig[d].Copy?
      ensures orig[d].like in s.built && s.built[d] == s.built[orig[d].like]
    {
      if d != day {
        assert orig[d].like != day;
      }
    }
  }

  /** A pass keeps the invariant, rewrites no built day, and resolves every
      day from `from` on that is ready when the pass starts. */
  lemma SweepKeeps(orig: map<Day, DayConfigParser>, r: Resolution, from: nat)
    requires Inv(orig, r)
    ensures Inv(orig, Sweep(r, from)) && Grows(r, Sweep(r, from))
    ensures forall d: Day :: from <= d && d in r.pending && Ready(r, d) ==> d !in Sweep(r, from).pending
  {
    SweepKeepsInv(orig, r, from);
    SweepResolves(orig, r, from);
  }

  lemma {:induction false} SweepKeepsInv(orig: map<Day, DayConfigParser>, r: Resolution, from: nat)
    requires Inv(orig, r)
    ensures Inv(orig, Sweep(r, from)) && Grows(r, Sweep(r, from))
    decreases 7 - from
  {
    if from < 7 {
      var v := Visit(r, from);
      VisitKeeps(orig, r, from);
      SweepKeepsInv(orig, v, from + 1);
      GrowsTransitive(r, v, Sweep(v, from + 1));
    }
  }

  lemma {:induction false} SweepResolves(orig: map<Day, DayConfigParser>, r: Resolution, from: nat)
    requires Inv(orig, r)
    ensures forall d: Day :: from <= d && d in r.pending && Ready(r, d) ==> d !in Sweep(r, from).pending
    decreases 7 - from
  {
    if from < 7 {
      var v := Visit(r, from);
      VisitKeeps(orig, r, from);
      SweepResolves(orig, v, from + 1);
      SweepKeepsInv(orig, v, from + 1);
      assert Sweep(r, from) == Sweep(v, from + 1);
      forall d: Day | from <= d && d in r.pending && Ready(r, d)
        ensures d !in Sweep(r, from).pending
      {
        if d != from && d in v.pending {
          assert v.pending[d] == r.pending[d];
        }
      }
    }
  }

  /** Any number of passes keeps the invariant and rewrites no built day. */
  lemma {:induction false} PassesKeeps(orig: map<Day, DayConfigParser>, r: Resolution, n: nat)
    requires Inv(orig, r)
    ensures Inv(orig, Passes(r, n)) && Grows(r, Passes(r, n))
  {
    if n > 0 {
      PassesKeeps(orig, r, n - 1);
      SweepKeeps(orig, Passes(r, n - 1), 0);
      GrowsTransitive(r, Passes(r, n - 1), Passes(r, n));
    }
  }

  lemma Start(parse: map<Day, DayConfigParser>)
    ensures Inv(parse, Resolution(parse, map[]))
  {
  }

  /** A day taken off the pending map is built, and no later pass writes it
      again: its configuration stays what it was when it was built. */
  lemma ResolvedDaysAreFinal(parse: map<Day, DayConfigParser>, m: nat, n: nat, d: Day)
    requires m <= n
    requires d in Passes(Resolution(parse, map[]), m).built
    ensures d !in Passes(Resolution(parse, map[]), n).pending
    ensures d in Passes(Resolution(parse, map[]), n).built
    ensures Passes(Resolution(parse, map[]), n).built[d] == Passes(Resolution(parse, map[]), m).built[d]
  {
    var r0 := Resolution(parse, map[]);
    Start(parse);
    PassesKeeps(parse, r0, m);
    PassesGrow(parse, r0, m, n);
    PassesKeeps(parse, r0, n);
  }

  lemma {:induction false} PassesGrow(orig: map<Day, DayConfigParser>, r: Resolution, m: nat, n: nat)
    requires Inv(orig, r) && m <= n
    ensures Grows(Passes(r, m), Passes(r, n))
    decreases n - m
  {
    if m < n {
      PassesGrow(orig, r, m, n - 1);
      PassesKeeps(orig, r, n - 1);
      SweepKeeps(orig, Passes(r, n - 1), 0);
      GrowsTransitive(Passes(r, m), Passes(r, n - 1), Passes(r, n));
    }
  }

  /** A set of days none of which can ever be resolved: each copies a day of
      the set or a day the week does not define. */
  predicate Stuck(orig: map<Day, DayConfigParser>, c: set<Day>) {
    forall d :: d in c ==> d in orig && orig[d].Copy? && (orig[d].like in c || orig[d].like !in orig)
  }

  lemma VisitKeepsStuck(orig: map<Day, DayConfigParser>, r: Resolution, day: Day, c: set<Day>)
    requires Inv(orig, r) && Stuck(orig, c) && c <= r.pending.Keys
    ensures c <= Visit(r, day).pending.Keys
  {
    if day in c {
      assert !Ready(r, day);
    }
  }

  lemma {:induction false} SweepKeepsStuck(orig: map<Day, DayConfigParser>, r: Resolution, from: nat, c: set<Day>)
    requires Inv(orig, r) && Stuck(orig, c) && c <= r.pending.Keys
    ensures c <= Sweep(r, from).pending.Keys
    decreases 7 - from
  {
    if from < 7 {
      VisitKeepsStuck(orig, r, from, c);
      VisitKeeps(orig, r, from);
      SweepKeepsStuck(orig, Visit(r, from), from + 1, c);
    }
  }

  lemma {:induction false} PassesKeepStuck(orig: map<Day, DayConfigParser>, r: Resolution, n: nat, c: set<Day>)
    requires Inv(orig, r) && Stuck(orig, c) && c <= r.pending.Keys
    ensures c <= Passes(r, n).pending.Keys
  {
    if n > 0 {
      PassesKeepStuck(orig, r, n - 1, c);
      PassesKeeps(orig, r, n - 1);
      SweepKeepsStuck(orig, Passes(r, n - 1), 0, c);
    }
  }

  /** A non-empty stuck set (a cycle of copies, or copies leading to a missing
      day) makes the resolution fail. */
  lemma StuckFails(parse: map<Day, DayConfigParser>, c: set<Day>)
    requires Stuck(parse, c) && c != {}
    ensures ResolveWeek(parse) == Err(CycleWithinDayDefinitions)
  {
    Start(parse);
    PassesKeepStuck(parse, Resolution(parse, map[]), 7, c);
    var d :| d in c;
    assert d in Passes(Resolution(parse, map[]), 7).pending;
  }

  /** A pass that resolves nothing leaves a stuck set behind. */
  lemma StalledPassIsStuck(orig: map<Day, DayConfigParser>, r: Resolution)
    requires Inv(orig, r)
    requires Sweep(r, 0).pending.Keys == r.pending.Keys
    ensures Stuck(orig, r.pending.Keys)
  {
    SweepKeeps(orig, r, 0);
    forall d | d in r.pending.Keys
      ensures d in orig && orig[d].Copy? && (orig[d].like in r.pending.Keys || orig[d].like !in orig)
    {
      assert d in Sweep(r, 0).pending;
      assert !Ready(r, d);
    }
  }

  /** No non-empty set of days is stuck. */
  ghost predicate NothingStuck(orig: map<Day, DayConfigParser>) {
    forall c: set<Day> {:trigger Stuck(orig, c)} :: c <= orig.Keys && c != {} ==> !Stuck(orig, c)
  }

  lemma {:induction false} SubsetNoLarger<T>(s: set<T>, t: set<T>)
    requires s <= t
    ensures |s| <= |t|
    decreases |s|
  {
    if s != {} {
      var x :| x in s;
      SubsetNoLarger(s - {x}, t - {x});
    }
  }

  lemma StrictSubsetSmaller<T>(s: set<T>, t: set<T>)
    requires s <= t && s != t
    ensures |s| < |t|
  {
    var x :| x in t && x !in s;
    SubsetNoLarger(s, t - {x});
  }

  lemma AtMostSevenDays(s: set<Day>)
    ensures |s| <= 7
  {
    var all: set<Day> := {0, 1, 2, 3, 4, 5, 6};
    assert s <= all;
    SubsetNoLarger(s, all);
  }

  /** When nothing is stuck, a pass over a week with pending days resolves
      at least one of them. */
  lemma SweepShrinks(orig: map<Day, DayConfigParser>, q: Resolution)
    requires Inv(orig, q) && NothingStuck(orig) && |q.pending.Keys| > 0
    ensures |Sweep(q, 0).pending.Keys| < |q.pending.Keys|
  {
    SweepKeeps(orig, q, 0);
    var s := Sweep(q, 0);
    assert s.pending.Keys <= q.pending.Keys;
    if s.pending.Keys == q.pending.Keys {
      StalledPassIsStuck(orig, q);
      assert false;
    }
    StrictSubsetSmaller(s.pending.Keys, q.pending.Keys);
  }

  /** When nothing is stuck, a pass resolves at least one pending day, if
      there is one. */
  lemma PassStep(orig: map<Day, DayConfigParser>, r: Resolution, n: nat)
    requires n > 0 && Inv(orig, r) && NothingStuck(orig)
    ensures |Passes(r, n - 1).pending.Keys| == 0 ==> |Passes(r, n).pending.Keys| == 0
    ensures |Passes(r, n - 1).pending.Keys| > 0 ==> |Passes(r, n).pending.Keys| < |Passes(r, n - 1).pending.Keys|
  {
    PassesKeeps(orig, r, n - 1);
    var q := Passes(r, n - 1);
    assert Passes(r, n) == Sweep(q, 0);
    if |q.pending.Keys| == 0 {
      SweepKeeps(orig, q, 0);
      assert Sweep(q, 0).pending.Keys <= q.pending.Keys;
      SubsetNoLarger(Sweep(q, 0).pending.Keys, q.pending.Keys);
    } else {
      SweepShrinks(orig, q);
    }
  }

  /** When nothing is stuck, every pass resolves at least one pending day. */
  lemma {:induction false} PassesShrink(orig: map<Day, DayConfigParser>, r: Resolution, n: nat)
    requires Inv(orig, r) && NothingStuck(orig)
    ensures |Passes(r, n).pending.Keys| == 0 || |Passes(r, n).pending.Keys| + n <= |r.pending.Keys|
  {
    if n > 0 {
      PassesShrink(orig, r, n - 1);
      PassStep(orig, r, n);
    }
  }

  /** The seven passes are enough: the resolution succeeds exactly when no
      non-empty set of days is stuck. */
  lemma ResolveWeekSucceedsIffNothingStuck(parse: map<Day, DayConfigParser>)
    ensures ResolveWeek(parse).Ok? <==> NothingStuck(parse)
  {
    var r := Passes(Resolution(parse, map[]), 7);
    if NothingStuck(parse) {
      Start(parse);
      PassesShrink(parse, Resolution(parse, map[]), 7);
      AtMostSevenDays(parse.Keys);
      assert |r.pending.Keys| == 0;
    } else {
      var c: set<Day> :| c <= parse.Keys && c != {} && Stuck(parse, c);
      StuckFails(parse, c);
    }
  }

  /** Following the copies from `d` reaches a day with instructions within
      `k` steps, through days the week defines. */
  predicate Grounded(orig: map<Day, DayConfigParser>, d: Day, k: nat)
    decreases k
  {
    d in orig && (orig[d].Instructions? || (k > 0 && Grounded(orig, orig[d].like, k - 1)))
  }

  /** Every day's chain of copies ends at a day with instructions: the copies
      form no cycle and name no missing day. */
  ghost predicate Acyclic(orig: map<Day, DayConfigParser>) {
    forall d :: d in orig ==> exists k: nat :: Grounded(orig, d, k)
  }

  lemma {:induction false} StuckNotGrounded(orig: map<Day, DayConfigParser>, c: set<Day>, d: Day, k: nat)
    requires Stuck(orig, c) && d in c
    ensures !Grounded(orig, d, k)
    decreases k
  {
    if k > 0 && orig[d].like in c {
      StuckNotGrounded(orig, c, orig[d].like, k - 1);
    }
  }

  /** The resolution succeeds exactly when every chain of copies ends at a
      day with instructions. */
  lemma ResolveWeekSucceedsIffAcyclic(parse: map<Day, DayConfigParser>)
    ensures ResolveWeek(parse).Ok? <==> Acyclic(parse)
  {
    ResolveWeekSucceedsIffNothingStuck(parse);
    if Acyclic(parse) {
      AcyclicNothingStuck(parse);
    } else {
      CyclicSomethingStuck(parse);
    }
  }

  lemma AcyclicNothingStuck(parse: map<Day, DayConfigParser>)
    requires Acyclic(parse)
    ensures NothingStuck(parse)
  {
    forall c: set<Day> | c <= parse.Keys && c != {} ensures !Stuck(parse, c) {
      if Stuck(parse, c) {
        var d :| d in c;
        var k: nat :| Grounded(parse, d, k);
        StuckNotGrounded(parse, c, d, k);
      }
    }
  }

  /** The days from which no chain of copies reaches instructions are stuck. */
  lemma CyclicSomethingStuck(parse: map<Day, DayConfigParser>)
    requires !Acyclic(parse)
    ensures !NothingStuck(parse)
  {
    var c := set d | d in parse && !(exists k: nat :: Grounded(parse, d, k));
    forall d | d in c
      ensures parse[d].Copy? && (parse[d].like in c || parse[d].like !in parse)
    {
      assert !Grounded(parse, d, 0);
      var x := parse[d].like;
      if x in parse {
        forall k: nat ensures !Grounded(parse, x, k) {
          assert !Grounded(parse, d, k + 1);
        }
      }
    }
    assert Stuck(parse, c);
    var d :| d in parse && !(exists k: nat :: Grounded(parse, d, k));
    assert d in c;
  }

  /** A day that copies itself is a cycle. */
  lemma SelfCopyFails(rules: DayConfigParser)
    ensures ResolveWeek(map[0 := Copy(0), 1 := rules]).Err?
  {
    StuckFails(map[0 := Copy(0), 1 := rules], {0});
  }

  /** Monday copying Tuesday copying Monday is a cycle. */
  lemma MutualCopyFails()
    ensures ResolveWeek(map[0 := Copy(1), 1 := Copy(0)]).Err?
  {
    StuckFails(map[0 := Copy(1), 1 := Copy(0)], {0, 1});
  }

  /** Tuesday copying an undefined Monday is never resolved. */
  lemma MissingTargetFails(rules: DayConfigParser)
    ensures ResolveWeek(map[1 := Copy(0), 2 := rules]).Err?
  {
    StuckFails(map[1 := Copy(0), 2 := rules], {1});
  }

  /** The week of the unit test, whatever Monday's instructions: Monday with
      instructions, Tuesday and Wednesday copying Monday. All three days get
      Monday's instructions. */
  lemma CopiesOfMondayResolve(monday: DayConfigParser)
    requires monday.Instructions?
    ensures ResolveWeek(map[0 := monday, 1 := Copy(0), 2 := Copy(0)]).Ok?
    ensures ResolveWeek(map[0 := monday, 1 := Copy(0), 2 := Copy(0)]).value ==
            map[0 := ConfigOf(monday), 1 := ConfigOf(monday), 2 := ConfigOf(monday)]
  {
    var parse := map[0 := monday, 1 := Copy(0), 2 := Copy(0)];
    assert Grounded(parse, 0, 0);
    assert Grounded(parse, 1, 1);
    assert Grounded(parse, 2, 1);
    assert Acyclic(parse);
    ResolveWeekSucceedsIffAcyclic(parse);
    var week := ResolveWeek(parse).value;
    assert week.Keys == {0, 1, 2};
    assert week[1] == week[0] && week[2] == week[0];
  }
}
