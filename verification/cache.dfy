/** The configuration manager's cache: one entry per configuration file,
    holding what was last read from it. The file system, the clock's
    verdict "modified today" and the outcome of reading a file are inputs. */
module Cache {
  import opened Results
  import opened Days
  import opened Schedule

  type Path = string
  type Username = string

  /** A point in time, as seconds relative to the Unix epoch. */
  type Timestamp = int

  const UnixEpoch: Timestamp := 0

  datatype CacheEntry = CacheEntry(latestUpdate: Timestamp, creationDate: Timestamp, config: map<Username, DayConfig>)

  type FileCache = map<Path, CacheEntry>

  /** What the file system reports about a path: nothing at all when the
      metadata cannot be read, and each time stamp only when the platform
      provides it. */
  datatype Metadata = Metadata(modified: Option<Timestamp>, created: Option<Timestamp>)

  datatype FetchError = CannotAccess | NoModificationTime | NoCreationTime | CannotOpen | CannotParse

  /** One configuration file as the file system presents it: its metadata,
      whether it opens, and what reading it yields (`None` for a parse
      error). */
  datatype FileState<T> = FileState(metadata: Option<Metadata>, opens: bool, contents: Option<T>)

  /** The cache after a fetch, the fetch's verdict (did anything change?) and
      whether deletion of the file from disk is requested. */
  datatype Fetched = Fetched(cache: FileCache, outcome: Result<bool, FetchError>, deletesFile: bool)

  function Existing(cache: FileCache, path: Path, created: Timestamp): CacheEntry {
    if path in cache then cache[path] else CacheEntry(UnixEpoch, created, map[])
  }

  /** `fetch_and_cache`: refresh the cache entry of one file. A `todayOnly`
      file not modified today is dropped from the cache (and its deletion
      from disk is requested); a
      file not modified since it was last read is left alone; otherwise it is
      read again. An entry is created, with the epoch as its last update,
      before the file is read, so it survives a failed read. Nothing but
      `path`'s entry ever changes. */
  function FetchAndCache(cache: FileCache, path: Path, file: FileState<map<Username, DayConfig>>, todayOnly: bool, isToday: Timestamp -> bool): (r: Fetched)
    ensures forall p :: p != path ==> (p in r.cache <==> p in cache)
    ensures forall p :: p != path && p in cache ==> r.cache[p] == cache[p]
    ensures r.deletesFile <==> path !in r.cache && r.outcome.Ok?
  {
    if file.metadata.None? then Fetched(cache, Err(CannotAccess), false)
    else if file.metadata.value.modified.None? then Fetched(cache, Err(NoModificationTime), false)
    else
      var latest := file.metadata.value.modified.value;
      if todayOnly && !isToday(latest) then Fetched(cache - {path}, Ok(true), true)
      else if file.metadata.value.created.None? then Fetched(cache, Err(NoCreationTime), false)
      else
        var entry := Existing(cache, path, file.metadata.value.created.value);
        var placed := cache[path := entry];
        if latest <= entry.latestUpdate then Fetched(placed, Ok(false), false)
        else if !file.opens then Fetched(placed, Err(CannotOpen), false)
        else if file.contents.None? then Fetched(placed, Err(CannotParse), false)
        else Fetched(cache[path := entry.(config := file.contents.value, latestUpdate := latest)], Ok(true), false)
  }

  /** The last update a fetch compares the file's modification time with:
      the cached one, or the epoch for a file not cached yet. */
  function LastSeen(cache: FileCache, path: Path): Timestamp {
    if path in cache then cache[path].latestUpdate else UnixEpoch
  }

  /** The verdict of a fetch depends on the cache only through the last
      update it holds for the fetched path. */
  lemma FetchVerdictDependsOnLastSeen(c1: FileCache, c2: FileCache, path: Path, file: FileState<map<Username, DayConfig>>, todayOnly: bool, isToday: Timestamp -> bool)
    requires LastSeen(c1, path) == LastSeen(c2, path)
    ensures FetchAndCache(c1, path, file, todayOnly, isToday).outcome == FetchAndCache(c2, path, file, todayOnly, isToday).outcome
  {
  }

  /** A fetch that reports no change leaves the last update of every path as
      it was: a placeholder it inserts is stamped with the epoch. */
  lemma UnchangedFetchKeepsLastSeen(cache: FileCache, path: Path, file: FileState<map<Username, DayConfig>>, todayOnly: bool, isToday: Timestamp -> bool)
    requires FetchAndCache(cache, path, file, todayOnly, isToday).outcome != Ok(true)
    ensures forall p :: LastSeen(FetchAndCache(cache, path, file, todayOnly, isToday).cache, p) == LastSeen(cache, p)
  {
  }

  /** A `todayOnly` file not modified today leaves the cache, whether or not
      it was in it, and the fetch reports a change. */
  lemma FetchDropsObsolete(cache: FileCache, path: Path, file: FileState<map<Username, DayConfig>>, isToday: Timestamp -> bool, latest: Timestamp)
    requires file.metadata.Some? && file.metadata.value.modified == Some(latest) && !isToday(latest)
    ensures FetchAndCache(cache, path, file, true, isToday).outcome == Ok(true)
    ensures path !in FetchAndCache(cache, path, file, true, isToday).cache
    ensures FetchAndCache(cache, path, file, true, isToday).deletesFile
  {
  }

  /** A cached file whose modification time is not later than the cached
      one is not read again: no change, and the cache stays as it was. */
  lemma FetchKeepsUnmodified(cache: FileCache, path: Path, file: FileState<map<Username, DayConfig>>, todayOnly: bool, isToday: Timestamp -> bool, latest: Timestamp)
    requires path in cache
    requires file.metadata.Some? && file.metadata.value.modified == Some(latest) && file.metadata.value.created.Some?
    requires !todayOnly || isToday(latest)
    requires latest <= cache[path].latestUpdate
    ensures FetchAndCache(cache, path, file, todayOnly, isToday) == Fetched(cache, Ok(false), false)
  {
    assert cache[path := cache[path]] == cache;
  }

  /** A fetch that reports a change either dropped an obsolete file or
      stored freshly read contents of a file modified since its last read; in
      the second case the entry holds the contents and the modification time,
      and keeps its creation date if it had one. */
  lemma FetchChangeMeansNewContents(cache: FileCache, path: Path, file: FileState<map<Username, DayConfig>>, todayOnly: bool, isToday: Timestamp -> bool)
    requires FetchAndCache(cache, path, file, todayOnly, isToday).outcome == Ok(true)
    ensures var r := FetchAndCache(cache, path, file, todayOnly, isToday);
            var latest := file.metadata.value.modified.value;
            if todayOnly && !isToday(latest) then path !in r.cache
            else
              && path in r.cache
              && file.contents == Some(r.cache[path].config)
              && r.cache[path].latestUpdate == latest
              && (path in cache ==> latest > cache[path].latestUpdate)
              && r.cache[path].creationDate ==
                   (if path in cache then cache[path].creationDate else file.metadata.value.created.value)
  {
  }

  /** A fetch never moves an entry's last update back and never changes its
      creation date. */
  lemma FetchIsMonotone(cache: FileCache, path: Path, file: FileState<map<Username, DayConfig>>, todayOnly: bool, isToday: Timestamp -> bool)
    requires path in cache && path in FetchAndCache(cache, path, file, todayOnly, isToday).cache
    ensures FetchAndCache(cache, path, file, todayOnly, isToday).cache[path].latestUpdate >= cache[path].latestUpdate
    ensures FetchAndCache(cache, path, file, todayOnly, isToday).cache[path].creationDate == cache[path].creationDate
  {
  }

  /** A new file that passes the date checks but cannot be read leaves behind
      an empty entry stamped with the epoch. */
  lemma FetchFailureLeavesPlaceholder(cache: FileCache, path: Path, file: FileState<map<Username, DayConfig>>, todayOnly: bool, isToday: Timestamp -> bool, latest: Timestamp, created: Timestamp)
    requires path !in cache
    requires file.metadata == Some(Metadata(Some(latest), Some(created)))
    requires !todayOnly || isToday(latest)
    requires latest > UnixEpoch
    requires !file.opens || file.contents.None?
    ensures FetchAndCache(cache, path, file, todayOnly, isToday).outcome.Err?
    ensures FetchAndCache(cache, path, file, todayOnly, isToday).cache == cache[path := CacheEntry(UnixEpoch, created, map[])]
  {
  }

  /** The purge of `load_config`: keep exactly the entries modified today,
      and the main file's whatever its date, each unchanged. */
  function Purge(cache: FileCache, main: Path, isToday: Timestamp -> bool): (r: FileCache)
    ensures forall p :: p in r <==> p in cache && (isToday(cache[p].latestUpdate) || p == main)
    ensures forall p :: p in r ==> r[p] == cache[p]
  {
    map p | p in cache && (isToday(cache[p].latestUpdate) || p == main) :: cache[p]
  }

  /** The purge shrinks the cache exactly when some entry other than the
      main file's was not modified today. */
  lemma PurgeShrinks(cache: FileCache, main: Path, isToday: Timestamp -> bool)
    ensures |Purge(cache, main, isToday).Keys| != |cache.Keys| <==>
            exists p :: p in cache && !isToday(cache[p].latestUpdate) && p != main
  {
    var kept := Purge(cache, main, isToday);
    if exists p :: p in cache && !isToday(cache[p].latestUpdate) && p != main {
      var p :| p in cache && !isToday(cache[p].latestUpdate) && p != main;
      assert p !in kept.Keys;
      StrictSubsetSmaller(kept.Keys, cache.Keys);
    } else {
      assert kept.Keys == cache.Keys;
    }
  }

  /** A placeholder left by a failed read of an extension is purged as long
      as the epoch is not today. */
  lemma PlaceholderIsPurged(cache: FileCache, path: Path, created: Timestamp, main: Path, isToday: Timestamp -> bool)
    requires path != main && !isToday(UnixEpoch)
    ensures path !in Purge(cache[path := CacheEntry(UnixEpoch, created, map[])], main, isToday)
  {
  }
}
