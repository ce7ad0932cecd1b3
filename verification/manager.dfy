/** `ConfigManager::load_config`: one refresh of the compiled configuration.
    The main file (a whole week per user, of which today's day is kept) is
    fetched first and any error there aborts the refresh; then every file of
    the extensions directory (one day each) is fetched, skipping errors; the
    cache is purged of files not modified today; and the configuration is
    recompiled when something changed or the day of the month moved on. */
module Manager {
  import opened Results
  import opened Times
  import opened Intervals
  import opened Days
  import opened Schedule
  import opened Cache
  import opened Compile

  /** The main file's contents: a week per user, before resolution. */
  type Weeks = map<Username, map<Day, DayConfigParser>>

  /** The main file's reader: every user's week must resolve, and each user
      with rules for `today` contributes them. */
  function MainReader(parsed: Option<Weeks>, today: Day): (r: Option<map<Username, DayConfig>>)
    ensures r.Some? <==> parsed.Some? && forall u :: u in parsed.value ==> Acyclic(parsed.value[u])
    ensures r.Some? ==> forall u :: u in r.value <==> u in parsed.value && today in parsed.value[u]
  {
    if parsed.None? then None
    else
      var users := parsed.value;
      ResolveEveryWeek(users);
      if exists u :: u in users && ResolveWeek(users[u]).Err? then None
      else Some(map u | u in users && ResolveWeek(users[u]).Ok? && today in ResolveWeek(users[u]).value
                  :: ResolveWeek(users[u]).value[today])
  }

  lemma ResolveEveryWeek(users: Weeks)
    ensures forall u :: u in users ==> (ResolveWeek(users[u]).Ok? <==> Acyclic(users[u]))
    ensures forall u :: u in users && ResolveWeek(users[u]).Ok? ==> ResolveWeek(users[u]).value.Keys == users[u].Keys
  {
    forall u | u in users
      ensures ResolveWeek(users[u]).Ok? <==> Acyclic(users[u])
      ensures ResolveWeek(users[u]).Ok? ==> ResolveWeek(users[u]).value.Keys == users[u].Keys
    {
      ResolveWeekSucceedsIffAcyclic(users[u]);
    }
  }

  /** A user whose week gives instructions for today gets them verbatim; a
      user whose today copies another day gets what reading on that day
      gives. */
  lemma MainReaderTakesToday(parsed: Option<Weeks>, today: Day, u: Username)
    requires MainReader(parsed, today).Some? && u in parsed.value && today in parsed.value[u]
    ensures u in MainReader(parsed, today).value
    ensures parsed.value[u][today].Instructions? ==>
              MainReader(parsed, today).value[u] == ConfigOf(parsed.value[u][today])
    ensures parsed.value[u][today].Copy? ==>
              && parsed.value[u][today].like in parsed.value[u]
              && MainReader(parsed, parsed.value[u][today].like).value[u] == MainReader(parsed, today).value[u]
  {
    ResolveEveryWeek(parsed.value);
  }

  /** The main file as `load_config` fetches it: never `todayOnly`, read
      through `MainReader`. Only the main file's entry may change and it is
      never dropped; a reported change stores the rules the file gives for
      `today`, and an unchanged file leaves the cache as it was, whatever day
      its entry was read on. */
  function FetchMain(cache: FileCache, path: Path, file: FileState<Weeks>, today: Day, isToday: Timestamp -> bool): (r: Fetched)
    ensures forall p :: p != path ==> (p in r.cache <==> p in cache) && (p in cache ==> r.cache[p] == cache[p])
    ensures r.outcome.Ok? ==> path in r.cache && !r.deletesFile
    ensures r.outcome == Ok(true) ==>
              MainReader(file.contents, today).Some? && r.cache[path].config == MainReader(file.contents, today).value
    ensures r.outcome == Ok(false) && path in cache ==> r.cache == cache
  {
    var f := FetchAndCache(cache, path, FileState(file.metadata, file.opens, MainReader(file.contents, today)), false, isToday);
    assert f.outcome == Ok(false) && path in cache ==> f.cache == cache[path := cache[path]];
    f
  }

  /** The main file fetched so that its entry holds today's rules: when the
      file is unchanged but the rules it gives for today differ from the
      cached ones (the day has changed since it was read), they replace them
      and the fetch reports a change. It fails exactly when `FetchMain` does,
      agrees with it whenever that reports a change, touches no other entry,
      and whenever the file can be read its entry holds the rules the file
      gives for `today`. */
  function FetchMainIntended(cache: FileCache, path: Path, file: FileState<Weeks>, today: Day, isToday: Timestamp -> bool): (r: Fetched)
    ensures r.outcome.Err? <==> FetchMain(cache, path, file, today, isToday).outcome.Err?
    ensures FetchMain(cache, path, file, today, isToday).outcome == Ok(true) ==> r == FetchMain(cache, path, file, today, isToday)
    ensures forall p :: p != path ==> (p in r.cache <==> p in cache) && (p in cache ==> r.cache[p] == cache[p])
    ensures file.metadata.Some? && file.metadata.value.modified.Some? && file.metadata.value.created.Some? &&
            file.opens && MainReader(file.contents, today).Some? ==>
              r.outcome.Ok? && path in r.cache && r.cache[path].config == MainReader(file.contents, today).value
  {
    var extracted := MainReader(file.contents, today);
    var f := FetchMain(cache, path, file, today, isToday);
    if f.outcome == Ok(false) && file.opens && extracted.Some? && f.cache[path].config != extracted.value
    then Fetched(f.cache[path := f.cache[path].(config := extracted.value)], Ok(true), false)
    else f
  }

  /** The main-file fetch of `load_config` under each reading. */
  function FetchMainUnder(reading: Reading, cache: FileCache, path: Path, file: FileState<Weeks>, today: Day, isToday: Timestamp -> bool): Fetched {
    if reading == AsWritten then FetchMain(cache, path, file, today, isToday)
    else FetchMainIntended(cache, path, file, today, isToday)
  }

  /** A week whose Monday and Tuesday rules differ. */
  function TwoDayWeek(): Weeks {
    var monday := Instructions([Rule("/bin/test", [Interval(TimeOfDay(9, 11), TimeOfDay(9, 23))], [])], [], []);
    var tuesday := Instructions([], [], []);
    map["mickey" := map[0 := monday, 1 := tuesday]]
  }

  /** The main file's entry keeps the rules of the day it was read on: read
      on a Monday, unchanged since, fetched again on a Tuesday, the entry still
      holds Monday's rules, which differ from Tuesday's. */
  lemma MainRulesStayWithFirstDay(isToday: Timestamp -> bool)
    ensures MainReader(Some(TwoDayWeek()), 0).Some? && MainReader(Some(TwoDayWeek()), 1).Some?
    ensures var main := "/etc/keep-it-focused.yaml";
            var file := FileState(Some(Metadata(Some(100), Some(50))), true, Some(TwoDayWeek()));
            var cache := map[main := CacheEntry(100, 50, MainReader(Some(TwoDayWeek()), 0).value)];
            && FetchMain(cache, main, file, 1, isToday) == Fetched(cache, Ok(false), false)
            && cache[main].config != MainReader(Some(TwoDayWeek()), 1).value
  {
    var week := TwoDayWeek()["mickey"];
    assert Grounded(week, 0, 0) && Grounded(week, 1, 0);
    assert Acyclic(week);
    MainReaderTakesToday(Some(TwoDayWeek()), 0, "mickey");
    MainReaderTakesToday(Some(TwoDayWeek()), 1, "mickey");
    var main := "/etc/keep-it-focused.yaml";
    var file := FileState(Some(Metadata(Some(100), Some(50))), true, Some(TwoDayWeek()));
    var cache := map[main := CacheEntry(100, 50, MainReader(Some(TwoDayWeek()), 0).value)];
    FetchKeepsUnmodified(cache, main, FileState(file.metadata, file.opens, MainReader(file.contents, 1)), false, isToday, 100);
    assert MainReader(Some(TwoDayWeek()), 0).value["mickey"].processes != MainReader(Some(TwoDayWeek()), 1).value["mickey"].processes;
  }

  /** One entry of the extensions directory: the full path and the file. */
  datatype DirEntry = DirEntry(path: Path, file: FileState<map<Username, DayConfig>>)

  datatype Scan = Scan(cache: FileCache, changed: bool)

  /** The extension loop: fetch every readable entry, `todayOnly`, skipping
      errors and accumulating whether anything changed. A listing entry is
      `None` when the entry itself cannot be read. The loop touches only the
      entries of the paths it lists; when it reports a change is
      `FetchExtensionsChanged`. */
  function FetchExtensions(cache: FileCache, entries: seq<Option<DirEntry>>, isToday: Timestamp -> bool): (r: Scan)
    ensures forall p :: !Lists(entries, p) ==> (p in r.cache <==> p in cache) && (p in cache ==> r.cache[p] == cache[p])
    decreases |entries|
  {
    if |entries| == 0 then Scan(cache, false)
    else
      var step :=
        if entries[0].None? then Scan(cache, false)
        else
          var f := FetchAndCache(cache, entries[0].value.path, entries[0].value.file, true, isToday);
          Scan(f.cache, f.outcome == Ok(true));
      var rest := FetchExtensions(step.cache, entries[1..], isToday);
      Scan(rest.cache, step.changed || rest.changed)
  }

  predicate Lists(entries: seq<Option<DirEntry>>, p: Path) {
    exists i :: 0 <= i < |entries| && entries[i].Some? && entries[i].value.path == p
  }

  /** A readable entry whose fetch, on its own against `cache`, reports a
      change. */
  predicate ChangesAlone(cache: FileCache, entry: Option<DirEntry>, isToday: Timestamp -> bool) {
    entry.Some? && FetchAndCache(cache, entry.value.path, entry.value.file, true, isToday).outcome == Ok(true)
  }

  predicate SomeEntryChanges(cache: FileCache, entries: seq<Option<DirEntry>>, isToday: Timestamp -> bool) {
    exists i :: 0 <= i < |entries| && ChangesAlone(cache, entries[i], isToday)
  }

  /** The extension loop reports a change iff some listed entry, fetched on
      its own against the cache the loop starts from, would report one. The
      order of the entries, and what earlier fetches did to the cache, never
      decide the verdict: a fetch that reports no change keeps every last
      update as it was. */
  lemma {:induction false} FetchExtensionsChanged(cache: FileCache, entries: seq<Option<DirEntry>>, isToday: Timestamp -> bool)
    ensures FetchExtensions(cache, entries, isToday).changed <==> SomeEntryChanges(cache, entries, isToday)
    decreases |entries|
  {
    if |entries| > 0 {
      var step :=
        if entries[0].None? then Scan(cache, false)
        else
          var f := FetchAndCache(cache, entries[0].value.path, entries[0].value.file, true, isToday);
          Scan(f.cache, f.outcome == Ok(true));
      var rest := entries[1..];
      FetchExtensionsChanged(step.cache, rest, isToday);
      if step.changed {
        assert ChangesAlone(cache, entries[0], isToday);
      } else {
        assert !ChangesAlone(cache, entries[0], isToday);
        if entries[0].Some? {
          UnchangedFetchKeepsLastSeen(cache, entries[0].value.path, entries[0].value.file, true, isToday);
        }
        forall i | 0 <= i < |rest|
          ensures ChangesAlone(step.cache, rest[i], isToday) <==> ChangesAlone(cache, entries[i + 1], isToday)
        {
          assert rest[i] == entries[i + 1];
          if rest[i].Some? {
            FetchVerdictDependsOnLastSeen(step.cache, cache, rest[i].value.path, rest[i].value.file, true, isToday);
          }
        }
        if SomeEntryChanges(cache, entries, isToday) {
          var i :| 0 <= i < |entries| && ChangesAlone(cache, entries[i], isToday);
          assert ChangesAlone(step.cache, rest[i - 1], isToday);
        }
      }
    }
  }

  /** A readable entry whose file was last modified before today. */
  predicate Obsolete(entry: Option<DirEntry>, isToday: Timestamp -> bool) {
    && entry.Some?
    && entry.value.file.metadata.Some?
    && entry.value.file.metadata.value.modified.Some?
    && !isToday(entry.value.file.metadata.value.modified.value)
  }

  /** An obsolete extension file always counts as a change, whether or not
      it was cached. */
  lemma {:induction false} ObsoleteExtensionIsAChange(cache: FileCache, entries: seq<Option<DirEntry>>, isToday: Timestamp -> bool, i: nat)
    requires i < |entries| && Obsolete(entries[i], isToday)
    ensures FetchExtensions(cache, entries, isToday).changed
    decreases |entries|
  {
    if i == 0 {
      FetchDropsObsolete(cache, entries[0].value.path, entries[0].value.file, isToday, entries[0].value.file.metadata.value.modified.value);
    } else {
      var step :=
        if entries[0].None? then Scan(cache, false)
        else
          var f := FetchAndCache(cache, entries[0].value.path, entries[0].value.file, true, isToday);
          Scan(f.cache, f.outcome == Ok(true));
      assert entries[1..][i - 1] == entries[i];
      ObsoleteExtensionIsAChange(step.cache, entries[1..], isToday, i - 1);
    }
  }

  datatype Options = Options(mainConfig: Path, extensionsDir: Path)

  /** A local date-time, reduced to what the manager looks at: the instant
      and its day of the month. */
  datatype Moment = Moment(instant: Timestamp, dayOfMonth: int)

  datatype ConfigManager = ConfigManager(
    config: map<Uid, UserInstructions>,
    cache: FileCache,
    lastComputed: Moment,
    options: Options)

  /** A manager that has read nothing yet, last computed at the epoch (whose
      local day of the month depends on the time zone, hence a parameter). */
  function New(options: Options, epoch: Moment): (r: ConfigManager)
    ensures r.options == options && r.lastComputed == epoch
    ensures |r.cache| == 0 && |r.config| == 0
  {
    ConfigManager(map[], map[], epoch, options)
  }

  /** Some file with the earliest creation date. */
  lemma {:induction false} EarliestExists(cache: FileCache, s: set<Path>)
    requires s != {} && s <= cache.Keys
    ensures exists p :: p in s && forall q :: q in s ==> cache[p].creationDate <= cache[q].creationDate
    decreases |s|
  {
    var x :| x in s;
    if s != {x} {
      EarliestExists(cache, s - {x});
      var p :| p in s - {x} && forall q :: q in s - {x} ==> cache[p].creationDate <= cache[q].creationDate;
      if cache[x].creationDate < cache[p].creationDate {
        assert forall q :: q in s ==> cache[x].creationDate <= cache[q].creationDate;
      } else {
        assert forall q :: q in s ==> cache[p].creationDate <= cache[q].creationDate;
      }
    } else {
      assert forall q :: q in s ==> q == x;
    }
  }

  /** Part way through ordering the files: `order` holds the files visited
      so far, once each and earliest first, and every file still
      `remaining` was created no earlier than any visited one. */
  predicate Visiting(cache: FileCache, remaining: set<Path>, order: seq<Path>) {
    && remaining <= cache.Keys
    && (forall i :: 0 <= i < |order| ==> order[i] in cache && order[i] !in remaining)
    && (forall p :: p in cache ==> p in remaining || p in order)
    && (forall i, j :: 0 <= i < j < |order| ==> order[i] != order[j])
    && (forall i, j :: 0 <= i < j < |order| ==> cache[order[i]].creationDate <= cache[order[j]].creationDate)
    && (forall i, q :: 0 <= i < |order| && q in remaining ==> cache[order[i]].creationDate <= cache[q].creationDate)
  }

  /** Visiting a remaining file with the earliest creation date keeps the
      order. */
  lemma VisitEarliest(cache: FileCache, remaining: set<Path>, order: seq<Path>, p: Path)
    requires Visiting(cache, remaining, order) && p in remaining
    requires forall q :: q in remaining ==> cache[p].creationDate <= cache[q].creationDate
    ensures Visiting(cache, remaining - {p}, order + [p])
  {
    var o := order + [p];
    forall i | 0 <= i < |o| ensures o[i] in cache && o[i] !in remaining - {p} {
      if i < |order| {
        assert o[i] == order[i];
      }
    }
    forall i, j | 0 <= i < j < |o| ensures o[i] != o[j] && cache[o[i]].creationDate <= cache[o[j]].creationDate {
      assert o[i] == order[i];
    }
    forall i, q | 0 <= i < |o| && q in remaining - {p} ensures cache[o[i]].creationDate <= cache[q].creationDate {
      if i < |order| {
        assert o[i] == order[i];
      }
    }
  }

  /** The cached files by increasing creation date; files created at the
      same time come in an unspecified order (the hash map's). */
  method ByCreationDate(cache: FileCache) returns (order: seq<Path>)
    ensures VisitOrder(cache, order)
  {
    var remaining := cache.Keys;
    order := [];
    while remaining != {}
      invariant Visiting(cache, remaining, order)
      decreases |remaining|
    {
      EarliestExists(cache, remaining);
      var p :| p in remaining && forall q :: q in remaining ==> cache[p].creationDate <= cache[q].creationDate;
      VisitEarliest(cache, remaining, order, p);
      order := order + [p];
      remaining := remaining - {p};
    }
  }

  /** The users in an unspecified order (the hash map's). */
  method InSomeOrder(all: set<Username>) returns (users: seq<Username>)
    ensures Enumerates(users, all)
  {
    var remaining := all;
    users := [];
    while remaining != {}
      invariant remaining <= all
      invariant forall i :: 0 <= i < |users| ==> users[i] in all && users[i] !in remaining
      invariant forall u :: u in all ==> u in remaining || u in users
      invariant forall i, j :: 0 <= i < j < |users| ==> users[i] != users[j]
      decreases |remaining|
    {
      var u :| u in remaining;
      users := users + [u];
      remaining := remaining - {u};
    }
  }

  /** The cache and verdict after the extension loop of `load_config`; a
      directory that cannot be read is skipped. */
  function ScanUnder(cache: FileCache, listing: Option<seq<Option<DirEntry>>>, isToday: Timestamp -> bool): Scan {
    if listing.None? then Scan(cache, false) else FetchExtensions(cache, listing.value, isToday)
  }

  /** The first refresh of a new manager reads a readable main file, modified
      after the epoch, and reports a change under either reading, so it
      compiles the configuration. */
  lemma FirstRefreshReadsMain(options: Options, epoch: Moment, file: FileState<Weeks>, today: Day, isToday: Timestamp -> bool, reading: Reading)
    requires file.metadata.Some? && file.metadata.value.modified.Some? && file.metadata.value.created.Some?
    requires file.metadata.value.modified.value > UnixEpoch
    requires file.opens && MainReader(file.contents, today).Some?
    ensures FetchMainUnder(reading, New(options, epoch).cache, options.mainConfig, file, today, isToday).outcome == Ok(true)
  {
  }

  /** `load_config`. `today` is the current day of the week, `listing` the
      extensions directory (`None` when it cannot be read), `now` the current
      local time and `resolve` the user-name to uid lookup (a missing name does
      not resolve). `reading` chooses between the daemon as written (the main
      file fetched by `FetchMain`, the fold with `subtract` as written) and the
      corrected reading (`FetchMainIntended`, the documented `subtract`). */
  method LoadConfig(m: ConfigManager, today: Day, main: FileState<Weeks>, listing: Option<seq<Option<DirEntry>>>,
                    isToday: Timestamp -> bool, now: Moment, resolve: map<Username, Uid>, reading: Reading)
    returns (next: ConfigManager, outcome: Result<bool, FetchError>)
    ensures next.options == m.options
    ensures outcome.Err? <==> FetchMainUnder(reading, m.cache, m.options.mainConfig, main, today, isToday).outcome.Err?
    ensures outcome.Err? ==>
              next.config == m.config && next.lastComputed == m.lastComputed &&
              next.cache == FetchMainUnder(reading, m.cache, m.options.mainConfig, main, today, isToday).cache
    ensures outcome.Ok? ==> forall p :: p in next.cache ==> p == m.options.mainConfig || isToday(next.cache[p].latestUpdate)
    ensures outcome.Ok? ==>
              var fetched := FetchMainUnder(reading, m.cache, m.options.mainConfig, main, today, isToday);
              var scanned := ScanUnder(fetched.cache, listing, isToday).cache;
              && next.cache == Purge(scanned, m.options.mainConfig, isToday)
              && (outcome.value <==>
                    || fetched.outcome == Ok(true)
                    || (listing.Some? && SomeEntryChanges(fetched.cache, listing.value, isToday))
                    || exists p :: p in scanned && p != m.options.mainConfig && !isToday(scanned[p].latestUpdate))
    ensures outcome.Ok? && FetchMainUnder(reading, m.cache, m.options.mainConfig, main, today, isToday).outcome == Ok(true) ==> outcome.value
    ensures outcome.Ok? && listing.Some? && (exists i :: 0 <= i < |listing.value| && Obsolete(listing.value[i], isToday)) ==> outcome.value
    ensures outcome.Ok? && !outcome.value && m.lastComputed.dayOfMonth == now.dayOfMonth ==>
              next.config == m.config && next.lastComputed == m.lastComputed
    ensures outcome.Ok? && (outcome.value || m.lastComputed.dayOfMonth != now.dayOfMonth) ==>
              && next.lastComputed == now
              && exists order: seq<Path>, users: seq<Username> ::
                   VisitOrder(next.cache, order) && Enumerates(users, UsersOf(next.cache)) &&
                   next.config == CompileUsers(next.cache, order, users, resolve, reading)
  {
    var mainFetch := FetchMainUnder(reading, m.cache, m.options.mainConfig, main, today, isToday);
    if mainFetch.outcome.Err? {
      next := m.(cache := mainFetch.cache);
      outcome := Err(mainFetch.outcome.error);
      return;
    }
    var scan := ScanUnder(mainFetch.cache, listing, isToday);
    if listing.Some? {
      FetchExtensionsChanged(mainFetch.cache, listing.value, isToday);
    }
    if listing.Some? && exists i :: 0 <= i < |listing.value| && Obsolete(listing.value[i], isToday) {
      var i :| 0 <= i < |listing.value| && Obsolete(listing.value[i], isToday);
      ObsoleteExtensionIsAChange(mainFetch.cache, listing.value, isToday, i);
    }
    var purged := Purge(scan.cache, m.options.mainConfig, isToday);
    PurgeShrinks(scan.cache, m.options.mainConfig, isToday);
    var hasChanges := mainFetch.outcome.value || scan.changed || |purged.Keys| != |scan.cache.Keys|;
    if hasChanges || m.lastComputed.dayOfMonth != now.dayOfMonth {
      var order := ByCreationDate(purged);
      var users := InSomeOrder(UsersOf(purged));
      next := ConfigManager(CompileUsers(purged, order, users, resolve, reading), purged, now, m.options);
    } else {
      next := m.(cache := purged);
    }
    outcome := Ok(hasChanges);
  }
}
