/** `ConfigManager::compile`: turn the cached files into today's
    instructions per user id. The files are visited by increasing creation
    date; every rule of a file pushes one diff onto the list of its (user,
    kind, target); each list is then folded, the IP lists into rejected
    windows and the process and web lists into accepted ones. */
module Compile {
  import opened Results
  import opened Intervals
  import opened Diffs
  import opened Schedule
  import opened Cache

  type Uid = int

  datatype Kind = Processes | Ips | Web

  function RulesOf(c: DayConfig, kind: Kind): seq<Rule> {
    match kind
    case Processes => c.processes
    case Ips => c.ip
    case Web => c.web
  }

  function DiffOf(rule: Rule): Diff {
    Diff(rule.permitted, rule.forbidden)
  }

  /** The diffs a target has in a grouping map; no entry means none. */
  function Listed(m: map<string, seq<Diff>>, target: string): seq<Diff> {
    if target in m then m[target] else []
  }

  /** The source's grouping step: push each rule's diff onto its target's list.
      A list already there only grows at its end, and a list is created only
      to receive a diff. */
  function PushRules(m: map<string, seq<Diff>>, rules: seq<Rule>): (r: map<string, seq<Diff>>)
    ensures forall t :: t in m ==> t in r && m[t] <= r[t]
    ensures (forall t :: t in m ==> |m[t]| > 0) ==> forall t :: t in r ==> |r[t]| > 0
    decreases |rules|
  {
    if |rules| == 0 then m
    else
      var t := rules[0].target;
      PushRules(m[t := Listed(m, t) + [DiffOf(rules[0])]], rules[1..])
  }

  /** Reference definition: the diffs of the rules aimed at `target`, in order. */
  function Aimed(rules: seq<Rule>, target: string): seq<Diff>
    decreases |rules|
  {
    if |rules| == 0 then []
    else (if rules[0].target == target then [DiffOf(rules[0])] else []) + Aimed(rules[1..], target)
  }

  /** Pushing rules appends, to each target's list, exactly the diffs of the
      rules aimed at it, in order; a target gets a list exactly when it has
      diffs. */
  lemma {:induction false} PushRulesAppends(m: map<string, seq<Diff>>, rules: seq<Rule>, target: string)
    ensures Listed(PushRules(m, rules), target) == Listed(m, target) + Aimed(rules, target)
    ensures target in PushRules(m, rules) <==> target in m || |Aimed(rules, target)| > 0
    decreases |rules|
  {
    if |rules| > 0 {
      var t := rules[0].target;
      var m' := m[t := Listed(m, t) + [DiffOf(rules[0])]];
      PushRulesAppends(m', rules[1..], target);
      if t == target {
        assert Listed(m', target) + Aimed(rules[1..], target) == Listed(m, target) + Aimed(rules, target);
      } else {
        assert Aimed(rules, target) == Aimed(rules[1..], target);
      }
    }
  }

  /** The rules of one user and kind in one cached file. */
  function FileRules(cache: FileCache, p: Path, user: Username, kind: Kind): seq<Rule> {
    if p in cache && user in cache[p].config then RulesOf(cache[p].config[user], kind) else []
  }

  /** The source's grouping loop for one user and kind, over the files in
      visiting order: no target is listed without a diff. */
  function Group(cache: FileCache, order: seq<Path>, user: Username, kind: Kind): (r: map<string, seq<Diff>>)
    ensures forall t :: t in r ==> |r[t]| > 0
    decreases |order|
  {
    if |order| == 0 then map[]
    else PushRules(Group(cache, order[..|order| - 1], user, kind), FileRules(cache, order[|order| - 1], user, kind))
  }

  /** Reference definition: file after file in visiting order, the diffs of
      the user's rules of that kind aimed at `target`, in listing order. */
  function DiffsFor(cache: FileCache, order: seq<Path>, user: Username, kind: Kind, target: string): seq<Diff>
    decreases |order|
  {
    if |order| == 0 then []
    else DiffsFor(cache, order[..|order| - 1], user, kind, target) + Aimed(FileRules(cache, order[|order| - 1], user, kind), target)
  }

  /** The grouping loop builds, for every target, exactly the reference list
      of diffs, and lists exactly the targets that have diffs. */
  lemma {:induction false} GroupIsDiffsFor(cache: FileCache, order: seq<Path>, user: Username, kind: Kind, target: string)
    ensures Listed(Group(cache, order, user, kind), target) == DiffsFor(cache, order, user, kind, target)
    ensures target in Group(cache, order, user, kind) <==> |DiffsFor(cache, order, user, kind, target)| > 0
    decreases |order|
  {
    if |order| > 0 {
      var n := |order|;
      GroupIsDiffsFor(cache, order[..n - 1], user, kind, target);
      PushRulesAppends(Group(cache, order[..n - 1], user, kind), FileRules(cache, order[n - 1], user, kind), target);
    }
  }

  /** What the compiled configuration holds for one user: per target, the
      accepted windows for processes and the web, the rejected ones for IPs. */
  datatype UserInstructions = UserInstructions(
    userName: Username,
    processes: map<string, seq<Interval>>,
    ips: map<string, seq<Interval>>,
    web: map<string, seq<Interval>>)

  /** The instructions of one user: a target gets an entry of a kind exactly
      when some rule of that kind is aimed at it. */
  function ForUser(cache: FileCache, order: seq<Path>, user: Username, reading: Reading): (r: UserInstructions)
    ensures r.userName == user
    ensures forall t {:trigger t in r.processes} :: t in r.processes <==> |DiffsFor(cache, order, user, Processes, t)| > 0
    ensures forall t {:trigger t in r.ips} :: t in r.ips <==> |DiffsFor(cache, order, user, Ips, t)| > 0
    ensures forall t {:trigger t in r.web} :: t in r.web <==> |DiffsFor(cache, order, user, Web, t)| > 0
  {
    var processes := Group(cache, order, user, Processes);
    var ips := Group(cache, order, user, Ips);
    var web := Group(cache, order, user, Web);
    GroupDomain(cache, order, user, Processes);
    GroupDomain(cache, order, user, Ips);
    GroupDomain(cache, order, user, Web);
    UserInstructions(
      user,
      map t | t in processes :: ComputeAccepted(processes[t], reading),
      map t | t in ips :: ComputeRejected(ips[t], reading),
      map t | t in web :: ComputeAccepted(web[t], reading))
  }

  lemma GroupDomain(cache: FileCache, order: seq<Path>, user: Username, kind: Kind)
    ensures forall t {:trigger t in Group(cache, order, user, kind)} :: t in Group(cache, order, user, kind) <==> |DiffsFor(cache, order, user, kind, t)| > 0
  {
    forall t ensures t in Group(cache, order, user, kind) <==> |DiffsFor(cache, order, user, kind, t)| > 0 {
      GroupIsDiffsFor(cache, order, user, kind, t);
    }
  }

  /** `compile`, given the visiting order of the files and the order in which
      the users are resolved: each user whose name resolves gets an entry under
      its uid (a later user with the same uid replaces an earlier one); the
      others are skipped. Every entry holds the instructions of a user whose
      name resolves to that entry's uid. */
  function CompileUsers(cache: FileCache, order: seq<Path>, users: seq<Username>, resolve: map<Username, Uid>, reading: Reading): (r: map<Uid, UserInstructions>)
    ensures forall uid :: uid in r ==> r[uid].userName in resolve && resolve[r[uid].userName] == uid
    decreases |users|
  {
    if |users| == 0 then map[]
    else
      AddUser(CompileUsers(cache, order, users[..|users| - 1], resolve, reading), cache, order, users[|users| - 1], resolve, reading)
  }

  /** One user of `compile`'s loop: an entry under its uid if its name
      resolves. */
  function AddUser(rest: map<Uid, UserInstructions>, cache: FileCache, order: seq<Path>, u: Username, resolve: map<Username, Uid>, reading: Reading): map<Uid, UserInstructions> {
    if u in resolve then rest[resolve[u] := ForUser(cache, order, u, reading)] else rest
  }

  lemma CompileUsersLast(cache: FileCache, order: seq<Path>, users: seq<Username>, resolve: map<Username, Uid>, reading: Reading)
    requires |users| > 0
    ensures CompileUsers(cache, order, users, resolve, reading) ==
            AddUser(CompileUsers(cache, order, users[..|users| - 1], resolve, reading), cache, order, users[|users| - 1], resolve, reading)
  {
  }

  /** Every user named in some cached file. */
  function UsersOf(cache: FileCache): set<Username> {
    set p, u | p in cache && u in cache[p].config :: u
  }

  /** The files are visited once each, by increasing creation date. */
  predicate VisitOrder(cache: FileCache, order: seq<Path>) {
    && (forall i :: 0 <= i < |order| ==> order[i] in cache)
    && (forall p :: p in cache ==> p in order)
    && (forall i, j :: 0 <= i < j < |order| ==> order[i] != order[j])
    && (forall i, j :: 0 <= i < j < |order| ==> cache[order[i]].creationDate <= cache[order[j]].creationDate)
  }

  /** The users are resolved once each. */
  predicate Enumerates(users: seq<Username>, all: set<Username>) {
    && (forall i :: 0 <= i < |users| ==> users[i] in all)
    && (forall u :: u in all ==> u in users)
    && (forall i, j :: 0 <= i < j < |users| ==> users[i] != users[j])
  }

  /** The compiled uids are exactly those of the users that resolve. */
  lemma {:induction false} CompileUsersDomain(cache: FileCache, order: seq<Path>, users: seq<Username>, resolve: map<Username, Uid>, reading: Reading, uid: Uid)
    ensures uid in CompileUsers(cache, order, users, resolve, reading) <==>
            exists i :: 0 <= i < |users| && users[i] in resolve && resolve[users[i]] == uid
    decreases |users|
  {
    if |users| > 0 {
      var n := |users|;
      var prefix := users[..n - 1];
      CompileUsersDomain(cache, order, prefix, resolve, reading, uid);
      if exists i :: 0 <= i < n && users[i] in resolve && resolve[users[i]] == uid {
        var i :| 0 <= i < n && users[i] in resolve && resolve[users[i]] == uid;
        if i < n - 1 {
          assert prefix[i] == users[i];
        }
      }
      if exists i :: 0 <= i < n - 1 && prefix[i] in resolve && resolve[prefix[i]] == uid {
        var i :| 0 <= i < n - 1 && prefix[i] in resolve && resolve[prefix[i]] == uid;
        assert prefix[i] == users[i];
      }
    }
  }

  /** Each compiled uid holds the instructions of the last user in
      resolution order with that uid. */
  lemma {:induction false} CompileUsersLastWins(cache: FileCache, order: seq<Path>, users: seq<Username>, resolve: map<Username, Uid>, reading: Reading, i: nat)
    requires i < |users| && users[i] in resolve
    requires forall j :: i < j < |users| && users[j] in resolve ==> resolve[users[j]] != resolve[users[i]]
    ensures resolve[users[i]] in CompileUsers(cache, order, users, resolve, reading)
    ensures CompileUsers(cache, order, users, resolve, reading)[resolve[users[i]]] == ForUser(cache, order, users[i], reading)
    decreases |users|
  {
    var n := |users|;
    CompileUsersLast(cache, order, users, resolve, reading);
    if i < n - 1 {
      var prefix, u := users[..n - 1], users[n - 1];
      assert prefix[i] == users[i];
      forall j | i < j < |prefix| && prefix[j] in resolve ensures resolve[prefix[j]] != resolve[prefix[i]] {
        assert prefix[j] == users[j];
      }
      CompileUsersLastWins(cache, order, prefix, resolve, reading, i);
      assert u in resolve ==> resolve[u] != resolve[users[i]];
    }
  }

  /** A user whose name does not resolve is skipped without affecting anyone
      else: compiling without that user gives the same result. */
  lemma {:induction false} UnresolvedUserSkipped(cache: FileCache, order: seq<Path>, users: seq<Username>, resolve: map<Username, Uid>, reading: Reading, k: nat)
    requires k < |users| && users[k] !in resolve
    ensures CompileUsers(cache, order, users, resolve, reading) == CompileUsers(cache, order, users[..k] + users[k + 1..], resolve, reading)
    decreases |users|
  {
    var n := |users|;
    var without := users[..k] + users[k + 1..];
    var prefix := users[..n - 1];
    CompileUsersLast(cache, order, users, resolve, reading);
    if k == n - 1 {
      assert without == prefix;
    } else {
      UnresolvedUserSkipped(cache, order, prefix, resolve, reading, k);
      assert without[..|without| - 1] == prefix[..k] + prefix[k + 1..];
      assert without[|without| - 1] == users[n - 1];
      CompileUsersLast(cache, order, without, resolve, reading);
    }
  }

  /** The windows compiled for one user and target. A process or web target
      gets windows holding every minute its diffs leave accepted, in order
      (the later file decides), and only minutes some diff accepts; an IP
      target gets rejected windows holding at least the minutes no diff
      accepts and none that the diffs leave accepted. With the documented
      reading of `subtract`, both are exact. */
  lemma CompiledWindows(cache: FileCache, order: seq<Path>, user: Username, target: string, reading: Reading)
    requires CacheWellFormed(cache)
    ensures var ins := ForUser(cache, order, user, reading);
            var processes := DiffsFor(cache, order, user, Processes, target);
            var ips := DiffsFor(cache, order, user, Ips, target);
            var web := DiffsFor(cache, order, user, Web, target);
            && (target in ins.processes ==>
                  FoldCoverage(processes) <= Coverage(ins.processes[target]) <= AcceptedUnion(processes))
            && (target in ins.web ==>
                  FoldCoverage(web) <= Coverage(ins.web[target]) <= AcceptedUnion(web))
            && (target in ins.ips ==>
                  DayMinutes() - AcceptedUnion(ips) <= Coverage(ins.ips[target]) <= DayMinutes() - FoldCoverage(ips))
            && (reading == AsDocumented ==>
                  && (target in ins.processes ==> Coverage(ins.processes[target]) == FoldCoverage(processes))
                  && (target in ins.web ==> Coverage(ins.web[target]) == FoldCoverage(web))
                  && (target in ins.ips ==> Coverage(ins.ips[target]) == DayMinutes() - FoldCoverage(ips)))
  {
    GroupIsDiffsFor(cache, order, user, Processes, target);
    GroupIsDiffsFor(cache, order, user, Web, target);
    GroupIsDiffsFor(cache, order, user, Ips, target);
    DiffsForWellFormed(cache, order, user, Processes, target);
    DiffsForWellFormed(cache, order, user, Web, target);
    DiffsForWellFormed(cache, order, user, Ips, target);
  }

  predicate RuleWellFormed(rule: Rule) {
    AllWellFormed(rule.permitted) && AllWellFormed(rule.forbidden)
  }

  predicate ConfigWellFormed(c: DayConfig) {
    forall kind: Kind, i :: 0 <= i < |RulesOf(c, kind)| ==> RuleWellFormed(RulesOf(c, kind)[i])
  }

  /** Every window of every cached rule is a well-formed interval. */
  predicate CacheWellFormed(cache: FileCache) {
    forall p, u :: p in cache && u in cache[p].config ==> ConfigWellFormed(cache[p].config[u])
  }

  lemma {:induction false} AimedWellFormed(rules: seq<Rule>, target: string)
    requires forall i :: 0 <= i < |rules| ==> RuleWellFormed(rules[i])
    ensures AllDiffsWellFormed(Aimed(rules, target))
    decreases |rules|
  {
    if |rules| > 0 {
      AimedWellFormed(rules[1..], target);
      var head := if rules[0].target == target then [DiffOf(rules[0])] else [];
      assert Aimed(rules, target) == head + Aimed(rules[1..], target);
    }
  }

  lemma {:induction false} DiffsForWellFormed(cache: FileCache, order: seq<Path>, user: Username, kind: Kind, target: string)
    requires CacheWellFormed(cache)
    ensures AllDiffsWellFormed(DiffsFor(cache, order, user, kind, target))
    decreases |order|
  {
    if |order| > 0 {
      var n := |order|;
      DiffsForWellFormed(cache, order[..n - 1], user, kind, target);
      var rules := FileRules(cache, order[n - 1], user, kind);
      AimedWellFormed(rules, target);
    }
  }
}
