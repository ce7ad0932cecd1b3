# keep-it-focused: the policy compilation engine, in Dafny

keep-it-focused is a daemon that limits, per user, when programs may run and
when web sites or IP addresses may be reached. Rules come from configuration
files. A main file gives each user a week of rules. Extension files in a
directory each give rules for the current day only. This project models the
part of the daemon that turns those files into today's instructions. It
proves properties of that model.

The model has three layers, one module per concept.

- **Values** (`Times`, `Days`).
  - A time of day is an hour and a minute, plus the `24:00` end-of-day
    sentinel. The model covers its lexicographic order, its conversions to
    and from minutes since midnight, and its readers and printer.
  - A day of the week has two textual readers and a printed name.
- **The interval algebra** (`Intervals`, `Normalization`, `Difference`,
  `DayComplement`, `Diffs`).
  - A window is read as the half-open set of minutes
    `as_minutes(start) <= k < as_minutes(end)`.
  - Covered here:
    - the single-window operations;
    - the six-way case split of `subtract`;
    - `simplify`, which sorts and merges a list of windows;
    - the two-cursor subtraction of window lists;
    - the complement within a day;
    - the order-sensitive fold of "diffs". Each diff adds the windows a
      source accepts, then removes the ones it rejects.
- **The configuration manager** (`Schedule`, `Cache`, `Compile`, `Manager`).
  - The week resolver turns `like: <day>` copies into rules, using seven
    passes and then a cycle error.
  - The file cache and its refresh decisions are modelled.
  - The purge drops files not modified today.
  - The compiler groups each user's rules per target, in file-creation
    order, and folds them into windows.
  - `load_config` ties these together and decides when to recompile.

Values from outside the engine are parameters of the model. These are file
metadata and contents, the clock's "modified today" verdict, the current day
and the user-name to uid lookup. The unit tests of the interval algebra and
of the configuration syntax are replayed as lemmas: `FoldExample` and
`Schedule.CopiesOfMondayResolve`.

Both readings of `subtract` are modelled side by side (`Intervals.Reading`):
- `AsWritten` is the code's reading.
- `AsDocumented` is the reading that the documentation of
  `IntervalSubtraction::HitRight` and the caller's `HitRight` arm expect.

The fold, the compiler and `load_config` take the reading as a parameter.
- Under `AsWritten` they model the daemon as it is: `subtract` as written, and
  the main file fetched by `Manager.FetchMain`, which caches the rules of the
  day the file was read on.
- Under `AsDocumented` they model the corrected program: the documented
  `subtract`, and `Manager.FetchMainIntended`, which keeps today's rules.

The fold's contract bounds its result under both readings and pins it down
exactly under the documented one (see Findings).

## Model

| member | source | states |
|---|---|---|
| Times.AsMinutes | src/types.rs:31-33 | The 16-bit sum never overflows. A valid time lands within 0..1440, and strictly below 1440 unless it is `24:00`. |
| Times.Le | src/types.rs:63-75 | On valid times, the hour-then-minute order is the order of minutes since midnight. |
| Times.Lt | src/types.rs:63-75 | Strict order is the negation of the reversed `Le`, and on valid times it is `<` on minutes since midnight. |
| Times.Min | src/types.rs:63-75 | `Ord::min` returns one of its arguments, and that argument is below both. |
| Times.Max | src/types.rs:63-75 | `Ord::max` returns one of its arguments, and that argument is above both. |
| Times.Seconds | src/types.rs:50-54 | The conversion to a duration is 60 seconds per minute since midnight, on valid times. |
| Times.FromMinutes | src/types.rs:34-41 | As written, no result ever has hour 23, though every result is a valid time. |
| Times.FromMinutesRoundTrip | src/types.rs:31-41 | `from_minutes(as_minutes(t)) == t` holds exactly for valid times with hour at most 22. |
| Times.FromMinutesDropsHour23 | src/types.rs:34-41 | 23:30 is 1410 minutes, and 1410 minutes convert back to 00:30. |
| Times.FromMinutesIntended | src/types.rs:34-41 | Reduced modulo 24, the result is a time of the day (not `24:00`) whose minutes equal the input modulo 1440. |
| Times.FromMinutesIntendedRoundTrip | src/types.rs:31-41 | With the modulo-24 reduction, every valid time except `24:00` round-trips, and `24:00` wraps to `00:00`. |
| Times.Validate | src/types.rs:162-180 | The pair is accepted iff it is `24:00`, or hours ≤ 23 and minutes ≤ 59. The fields are kept, and the error names the hours first when both are out of range. |
| Times.ParseFieldsAgreesWithValidate | src/types.rs:86-111 | The explicit match of `parse` accepts and rejects exactly as the deserializer's guard chain does, with the same errors. |
| Times.ParseFields | src/types.rs:100-110 | Once the pattern has captured two numbers, `parse` accepts exactly `24:00` and the pairs with hours at most 23 and minutes at most 59, keeping both fields. It names the minutes in the error when the hours are in range, and the hours otherwise. |
| Times.Pad2 | src/types.rs:183-190 | `{:02}` gives two decimal digits whose value is the number, for numbers below 100. |
| Times.Serialize | src/types.rs:183-190 | A valid time prints as exactly four digits. |
| Times.Deserialize | src/types.rs:114-181 | An integer `n` is accepted iff (`n/100` ≤ 23 and `n%100` ≤ 59) or `n == 2400`. A string that is not four characters long is an `InvalidLength` error. Every accepted time is valid. |
| Times.DeserializeSerialize | src/types.rs:114-190 | Printing a valid time and reading it back gives the same time. |
| Times.DeserializeNumber | src/types.rs:122-126 | The integer spelling `100*h + m` of a valid time reads back as that time. |
| Times.DeserializeExamples | src/types.rs:114-181 | `"0911"`, `911` and `"2400"` are accepted. `"2401"` is rejected on hours, `960` on minutes, and `"911"` on length. |
| Days.LowerChar | src/types.rs:266-282 | The result is never an upper-case letter. An upper-case letter becomes the lower-case letter at the same position in the alphabet, and any other character is returned unchanged. |
| Days.Name | src/types.rs:284-298 | Every printed day name is lower case and at least six characters long. |
| Days.Parse | src/types.rs:266-282 | A successful parse returns the day whose name starts with the lower-cased first three characters. Any other input is `NotADay` carrying the source. |
| Days.ParseName | src/types.rs:266-298 | Parsing the printed name of a day gives back that day. |
| Days.ParseReadsOnlyPrefix | src/types.rs:266-282 | Two inputs that agree on their lower-cased first three characters parse alike. |
| Days.DigitAlternativesUnreachable | src/types.rs:268-279 | An input starting with a digit never parses, so the `"0"`..`"6"` alternatives are dead. |
| Days.DeserializeDay | src/types.rs:192-237 | A numeric key is accepted iff it is at most 6, as that day. |
| Days.DeserializeDayAgreesWithParse | src/types.rs:201-217 | The configuration reader agrees with `parse` on every string, except that it also takes `"wen"` for Wednesday. |
| Days.DeserializeDayExamples | src/types.rs:201-229 | `WEDanythinggoes` is Wednesday, `monday` is Monday, 6 is Sunday, and 7 is rejected. |
| Intervals.Remaining | src/types.rs:317-324 | The result is `Some` iff the window, closed at both ends, contains the time. The value is 60 seconds per minute left until the end. |
| Intervals.RemainingExamples | src/types.rs:317-324 | In 09:00-09:30, 300 s remain at 09:25, none at 09:31, and 0 s at 09:30. |
| Intervals.Len | src/types.rs:325-328 | The length is the number of minutes the window covers. |
| Intervals.IntersectsInOrder | src/types.rs:329-337 | When the first window starts no later, the two intersect iff the second starts no later than the first ends. |
| Intervals.Intersects | src/types.rs:329-337 | On valid times, a window intersects another iff the other's start or end, in minutes since midnight, lies within the first window closed at both ends. Touching windows intersect; `IntersectsInOrder` and `IntersectsNotSymmetric` give its one-sided reading. |
| Intervals.IntersectsNotSymmetric | src/types.rs:329-337 | A window strictly inside another does not intersect it, though the other intersects the window. |
| Intervals.Merge | src/types.rs:338-346 | The merge exists iff the windows intersect. It then covers exactly the minutes of both, and starts where the earlier one starts. |
| Intervals.IsEmpty | src/types.rs:347-350 | As written, the result is true iff the window covers some minute. |
| Intervals.IsEmptyInvertedExample | src/types.rs:347-350 | 09:00-09:30 is 30 minutes long, yet is reported empty. |
| Intervals.IsEmptyIntended | src/types.rs:347-350 | The result is true iff the window covers no minute. |
| Intervals.Cut | src/types.rs:357-391 | `HitRight` occurs iff the documented reading applies and `a.start < b.start < a.end < b.end`. `MissLeft`/`MissRight` keep `a` whole, with `b` entirely on one side. `Empty` means `b` contains `a`. Each remnant has the bounds its case promises. |
| Intervals.Subtract | src/types.rs:357-391 | As written, the case split never yields `HitRight`. |
| Intervals.SubtractIntended | src/types.rs:393-410 | In the documented reading, a `HitRight` remnant starts with `a` and ends strictly before it. |
| Intervals.CutCoverage | src/types.rs:357-410 | Under either reading, every remnant is a well-formed part of `a`, and together the remnants cover exactly `a`'s minutes minus `b`'s. |
| Intervals.DocumentedHitRightCaseAnswersHitLeft | src/types.rs:371-376 | In the case documented for `HitRight`, the code answers `HitLeft(a.start, b.start)`, or `Empty` when both windows start together. |
| Intervals.SubtractSelfAndDisjoint | src/types.rs:357-391 | A window minus itself is `Empty`. Minus a window sharing no minute, it is kept whole as `MissLeft` or `MissRight`. |
| Intervals.HitRightShrinks | src/types.rs:487-491 | The documented remnant is well formed and strictly shorter than its window, which is what the caller's `HitRight` arm asserts. |
| Normalization.Insert | src/types.rs:417 | Inserting adds exactly one copy of the window (a multiset equation). |
| Normalization.Sort | src/types.rs:417 | The sort by start yields a permutation of its input, ordered by start. |
| Normalization.SortCoverage | src/types.rs:417 | Sorting keeps the minutes covered. |
| Normalization.SortOfSorted | src/types.rs:417 | A list already ordered by start is left as it is: the sort is stable. |
| Normalization.SortedPermutationUnique | src/types.rs:417 | When starts strictly increase, a start-ordered rearrangement of the list is the list itself. |
| Normalization.MergeRunInvariant | src/types.rs:418-429 | The merging fold yields well-formed windows with a gap between neighbours. They cover the minutes of both the kept and the remaining windows. |
| Normalization.MergeRun | src/types.rs:418-429 | The merging fold never yields more windows than it was given; what it covers is stated by `MergeRunInvariant`. |
| Normalization.MergeRunOfSeparated | src/types.rs:418-429 | On a list with gaps between neighbours, the fold merges nothing. |
| Normalization.SimplifyNormalises | src/types.rs:416-430 | `simplify` yields well-formed windows, each ending strictly before the next starts. |
| Normalization.SimplifyCoverage | src/types.rs:416-430 | `simplify` keeps exactly the minutes covered. |
| Normalization.Simplify | src/types.rs:416-430 | `simplify` never yields more windows than its input; its normal form and coverage are stated by `SimplifyNormalises` and `SimplifyCoverage`. |
| Normalization.SimplifyOfSeparated | src/types.rs:551-565 | A list already separated is its own normal form. |
| Normalization.SimplifyOfRearranged | src/types.rs:551-565 | Any rearrangement of a separated list simplifies to that list. |
| Normalization.SimplifyIdempotent | src/types.rs:416-430 | Simplifying twice is simplifying once. |
| Difference.AcceptedSubtract | src/types.rs:443-502 | As written, an empty rejected list returns the accepted list verbatim. On well-formed lists, the result is well formed, covers every accepted minute that no rejected window covers, and invents no minute; with some rejected window it is ordered. It may keep rejected minutes. |
| Difference.AcceptedSubtractIntended | src/types.rs:443-502 | With the documented case, an empty rejected list returns the accepted list verbatim. On well-formed lists, the result covers exactly the accepted minutes minus the rejected ones, as well-formed windows, ordered when something was rejected. |
| Difference.SubtractAll | src/types.rs:443-502 | Under either reading: the subtraction of lists with no rejected window is the identity; on well-formed lists it lies between the exact difference and the accepted minutes; under the documented reading it is the exact difference. |
| Difference.Walk | src/types.rs:452-502 | The two-cursor walk yields at most one window per accepted or rejected window; its coverage and order are stated by `WalkCoverage` and `WalkOrdered`. |
| Difference.WalkCoverage | src/types.rs:452-502 | On normalised lists the walk keeps only accepted minutes, and every accepted minute no rejected window covers. Under the documented reading it keeps exactly those. |
| Difference.WalkOrdered | src/types.rs:452-502 | The walk yields well-formed, ordered, non-overlapping windows, none starting before the first accepted one. |
| Difference.AcceptedSubtractKeepsRejectedMinutes | src/types.rs:472-477 | Accepting 01:00-01:10 and 01:15-01:30 and rejecting 01:05-01:20 gives back 01:00-01:05 and 01:15-01:30. So minute 01:15 is kept although it is rejected. |
| Difference.AcceptedSubtractIntendedExample | src/types.rs:443-502 | On that input, the documented reading gives 01:00-01:05 and 01:20-01:30. |
| Difference.SubtractInside | src/types.rs:432-442 | Under either reading, taking out a window strictly inside another leaves the parts on either side. |
| Difference.AcceptedSubtractDocExample | src/types.rs:432-442 | The whole day minus 12:00-12:05 is 00:00-12:00 and 12:05-24:00, under either reading. |
| DayComplement.Gaps | src/types.rs:585-603 | The gaps loop yields at most one window more than the list it walks; its coverage and shape are stated by `GapsCoverage` and `GapsShape`. |
| DayComplement.Complement | src/types.rs:568-606 | The complement has at most one window more than the accepted list; its coverage and shape are stated by `ComplementCoverage` and `ComplementShape`. |
| DayComplement.GapsCoverage | src/types.rs:585-603 | The gaps loop covers exactly the minutes from its starting point to the end of the day that the list does not. |
| DayComplement.GapsShape | src/types.rs:585-603 | The gaps are non-empty, well-formed and ordered, and none starts before the starting point. |
| DayComplement.ComplementCoverage | src/types.rs:526-606 | The complement covers exactly the minutes of the day that the accepted windows do not. |
| DayComplement.ComplementShape | src/types.rs:568-606 | The rejected windows are non-empty, well-formed and ordered. |
| DayComplement.ComplementTwice | src/types.rs:568-606 | Complementing twice gives back the accepted minutes. |
| DayComplement.ComplementOfOne | src/types.rs:585-603 | One window strictly inside the day rejects the day before it and after it. |
| DayComplement.ComplementDocExample | src/types.rs:526-548 | Accepting 12:15-13:37 rejects 00:00-12:15 and 13:37-24:00. |
| DayComplement.ComplementOfNothing | src/types.rs:573-584 | Nothing accepted rejects the whole day as one window. |
| DayComplement.ComplementOfFullDay | src/types.rs:585-603 | The whole day accepted rejects nothing. |
| Diffs.ComputeAccepted | src/types.rs:512-520 | On well-formed diffs, under either reading, the fold yields well-formed windows that cover every minute the reference meaning accepts and no minute no diff accepts. The reference adds each diff's accepted minutes, then removes its rejected ones, diff after diff. Under the documented reading the fold covers the reference meaning exactly. |
| Diffs.FoldCoverageLastWord | src/types.rs:512-520 | A minute is accepted iff some diff accepts it and neither that diff nor any later one rejects it. |
| Diffs.ComputeRejected | src/types.rs:521-523 | The rejected windows are non-empty, well-formed and ordered. They cover every minute of the day that no diff accepts, and no minute the reference meaning accepts. Under the documented reading they cover exactly the minutes of the day the reference does not accept. |
| Diffs.ComputeAcceptedKeepsRejectedMinute | src/types.rs:472-477 | As written, the fold of the single diff accepting 01:00-01:10 and 01:15-01:30 and rejecting 01:05-01:20 accepts minute 01:15, which the reference meaning rejects. |
| Diffs.OrderMatters | src/types.rs:512-520 | Under either reading, accepting 08:00-18:00 then rejecting 12:00-12:05 leaves 12:00 rejected. In the other order, 12:00 stays accepted. |
| FoldExample.FoldReproducesTest | src/types.rs:614-815 | Under either reading, the fold of the unit test's two diffs gives exactly the test's expected list of nine windows. |
| FoldExample.FirstDiffBothReadings | src/types.rs:614-815 | The test's first subtraction gives the same list under the code's reading and the documented one. |
| FoldExample.SecondDiffBothReadings | src/types.rs:614-815 | The test's second subtraction, through its one `HitRight` configuration, gives the same list under both readings. |
| Schedule.VisitKeeps | src/config.rs:160-190 | Visiting a day never rewrites a built day and keeps every day either pending or built as the input says. It resolves the day when the day is ready, and otherwise changes nothing. |
| Schedule.Visit | src/config.rs:160-190 | Visiting a day touches no other day. A ready pending day is resolved: an `Instructions` day to its rules, a copy to the built rules of the day it names. A day that is not ready, or not pending, leaves the resolution as it was. |
| Schedule.SweepResolves | src/config.rs:152-192 | A pass resolves every day that is ready when the pass reaches it. |
| Schedule.Sweep | src/config.rs:152-192 | A pass never adds a pending day and never loses a built one. |
| Schedule.ResolvedDaysAreFinal | src/config.rs:163-164 | A day, once built, is never pending again, and its configuration never changes in later passes. |
| Schedule.ResolveWeek | src/config.rs:148-199 | On success, the result has exactly the input's days. An `Instructions` day gets its rules verbatim, and a copy gets the resolved rules of the day it names. |
| Schedule.StuckFails | src/config.rs:193-198 | A non-empty set of days that copy only one another, or missing days, makes resolution fail with the cycle error. |
| Schedule.PassesShrink | src/config.rs:152-192 | When nothing is stuck, every pass resolves at least one pending day. |
| Schedule.ResolveWeekSucceedsIffNothingStuck | src/config.rs:148-199 | Seven passes suffice: resolution succeeds iff no non-empty set of days is stuck. |
| Schedule.ResolveWeekSucceedsIffAcyclic | src/config.rs:148-199 | Resolution succeeds iff every chain of copies ends at a day with instructions. |
| Schedule.SelfCopyFails | src/config.rs:165-178 | A day copying itself is reported as a cycle. |
| Schedule.MutualCopyFails | src/config.rs:165-178 | Monday copying Tuesday copying Monday is reported as a cycle. |
| Schedule.MissingTargetFails | src/config.rs:167-169 | A copy of an undefined day is never resolved and is reported as a cycle. |
| Schedule.CopiesOfMondayResolve | src/config.rs:224-271 | As in the configuration test, Tuesday and Wednesday copying Monday resolve to Monday's rules, on three days. |
| Cache.FetchAndCache | src/config/manager.rs:89-138 | Only the fetched path's entry ever changes. Deletion of the file from disk is requested iff its entry is gone and the fetch succeeded. |
| Cache.FetchDropsObsolete | src/config/manager.rs:103-114 | A today-only file not modified today leaves the cache, cached or not. Its deletion from disk is requested, and the fetch counts as a change. |
| Cache.FetchKeepsUnmodified | src/config/manager.rs:127-130 | A cached file not modified since its last read is not read again: no change, and the cache is as it was. |
| Cache.FetchChangeMeansNewContents | src/config/manager.rs:116-137 | A reported change is either a drop, or the freshly read contents stamped with the new modification time. The creation date is set only on first insertion. |
| Cache.FetchIsMonotone | src/config/manager.rs:116-137 | A fetch never moves an entry's last update back and never changes its creation date. |
| Cache.FetchVerdictDependsOnLastSeen | src/config/manager.rs:98-137 | Whether a fetch fails, changes something or changes nothing depends on the cache only through the last update it holds for the path, the epoch when the path is not cached. |
| Cache.UnchangedFetchKeepsLastSeen | src/config/manager.rs:116-130 | A fetch that reports no change leaves the last update of every path as it was, since any placeholder it inserts is stamped with the epoch. |
| Cache.FetchFailureLeavesPlaceholder | src/config/manager.rs:116-137 | A new file that cannot be opened or parsed leaves an empty entry stamped with the epoch, and the fetch fails. |
| Cache.Purge | src/config/manager.rs:213-226 | The purge keeps exactly the entries modified today plus the main file's, each unchanged. |
| Cache.PurgeShrinks | src/config/manager.rs:215-220 | The cache shrinks iff some entry other than the main file's is stale. |
| Cache.PlaceholderIsPurged | src/config/manager.rs:213-226 | An extension's epoch-stamped placeholder is purged unless the epoch is today. |
| Compile.PushRulesAppends | src/config/manager.rs:258-315 | Pushing a file's rules appends to each target's list exactly the diffs of the rules aimed at it, in listing order. |
| Compile.PushRules | src/config/manager.rs:258-315 | Pushing a file's rules keeps every target already listed, and its diffs as a prefix. When every listed target has a diff, so does every target afterwards. |
| Compile.GroupIsDiffsFor | src/config/manager.rs:253-316 | The grouping loop builds, per target, the diffs of the user's rules file after file in visiting order, and lists exactly the targets that have some. |
| Compile.Group | src/config/manager.rs:253-316 | Every target the grouping lists has at least one diff. |
| Compile.ForUser | src/config/manager.rs:328-339 | The instructions carry the user's name, and list a process, IP or web target iff some cached file has a rule for that user aimed at it. The fold of each target's diffs uses the reading passed in. |
| Compile.CompileUsers | src/config/manager.rs:322-342 | Every compiled uid holds the instructions of a user whose name resolves to that uid. The folds use the reading passed in. |
| Compile.CompileUsersDomain | src/config/manager.rs:322-342 | The compiled uids are exactly those of the users whose names resolve. |
| Compile.CompileUsersLastWins | src/config/manager.rs:322-342 | A uid holds the instructions of the last resolving user, in resolution order, that has that uid. |
| Compile.UnresolvedUserSkipped | src/config/manager.rs:323-326 | A user whose name does not resolve is skipped without affecting anyone else. |
| Compile.CompiledWindows | src/config/manager.rs:328-339 | Under either reading, a process or web target gets at least the minutes its diffs' reference meaning accepts and only minutes some diff accepts. An IP target gets at least the minutes of the day no diff accepts and none the reference accepts. Under the documented reading, these are exact. |
| Manager.MainReader | src/config/manager.rs:147-162 | The main file is read iff it parses and every user's week resolves. The users kept are those with rules for today. |
| Manager.MainReaderTakesToday | src/config/manager.rs:147-162 | A user gets today's instructions verbatim. When today copies another day, the user gets what reading on that day would give. |
| Manager.MainRulesStayWithFirstDay | src/config/manager.rs:127-162 | A main file read on Monday and unchanged on Tuesday is not re-read, so its entry keeps Monday's rules, which differ from Tuesday's. |
| Manager.FetchMain | src/config/manager.rs:89-162 | The fetch as written touches only the main file's entry. On success the entry is there and no deletion of the file is requested. A reported change means the entry holds what the main file gives for the day of the read. An unchanged, cached file leaves the cache as it was. |
| Manager.FetchMainIntended | src/config/manager.rs:89-162 | The corrected fetch fails exactly when the fetch as written does, coincides with it on a reported change, and touches only the main file's entry. Whenever the main file can be read, its entry holds the rules it gives for today and the fetch succeeds. |
| Manager.FetchExtensions | src/config/manager.rs:171-207 | The extension loop touches only the entries of the paths the directory lists. |
| Manager.FetchExtensionsChanged | src/config/manager.rs:171-207 | The extension loop reports a change iff some listed entry, fetched on its own against the cache the loop starts from, reports one. Neither the order of the entries nor what earlier fetches did to the cache decides the verdict. |
| Manager.ObsoleteExtensionIsAChange | src/config/manager.rs:171-207 | An extension file last modified before today always counts as a change. |
| Manager.ByCreationDate | src/config/manager.rs:253 | The cached files are listed once each, by non-decreasing creation date. |
| Manager.InSomeOrder | src/config/manager.rs:322 | The users are listed once each. |
| Manager.New | src/config/manager.rs:75-83 | A new manager has read no file and compiled nothing. Its options are the given ones, and its last computation is dated the epoch. |
| Manager.FirstRefreshReadsMain | src/config/manager.rs:75-162 | The first refresh of a new manager reads a readable main file modified after the epoch and reports a change under either reading. By `LoadConfig`'s contract, it therefore compiles the configuration. |
| Manager.LoadConfig | src/config/manager.rs:140-238 | Under `AsWritten` the main file is fetched as written, under `AsDocumented` by the corrected fetch. A main-file error aborts the refresh and keeps the compiled configuration. Otherwise the new cache is the purge of the cache after the main fetch and the extension loop: the main file's entry and every entry modified today, unchanged. The refresh reports a change iff the main fetch changed something, some listed extension changes something, or the purge drops an entry. The configuration is recompiled with the given reading, and `last_computed` moves, iff a change is reported or the day of the month moved on. |

## Left out

- File system and clocks: `metadata`, `File::open`, `read_dir`, `Local::now`, `DayOfWeek::now` and `is_today` are parameters. These are the file state, the `isToday` verdict, the current day and the current moment. The path join of the extensions directory is not modelled; the directory listing gives full paths.
- `remove_file`: the model records that deletion of an obsolete extension file is requested (`deletesFile`). Whether the deletion succeeds is not modelled: the daemon only logs a failure and still reports a change (src/config/manager.rs:110-113).
- serde, YAML and JSON: only the checks that follow parsing are modelled. A parse failure is the `None` contents of a file. The untagged `DayConfigParser` is a two-variant datatype.
- The regular expression in `TimeOfDay::parse`: `parse` is modelled from the captured fields on (`Times.ParseFields`). The deserializer's string form is modelled for exactly four characters, where the pattern matches the whole string. Unanchored matches inside longer strings are not modelled.
- `Binary` glob matching: a binary is an opaque path, used as a key.
- The uid resolver (passwd lookup): a partial map from user name to uid.
- Hash-map iteration orders (files created at the same time, users, targets): the model states its results for every order. `ByCreationDate` and `InSomeOrder` pick one, and `LoadConfig` promises the compiled configuration for some such order. Per-user process targets are a map, where the daemon pushes them onto a vector in hash order.
- The local day of the month of the Unix epoch depends on the time zone, so it is a parameter of `Manager.New`.
- `Precompiled::serialize_web`, `as_iptables_arg`, `TimeOfDay::now` and the `From<DateTime>` conversion are output formatting or clock reads.
- src/lib.rs, src/iptables.rs, src/serve.rs, src/server/mod.rs, src/notify.rs, src/main.rs and src/uid_resolver.rs are not part of this model. They hold process scanning, firewall plumbing, the HTTP server, notifications and setup.
- Normalization.Sort: stability is stated only for already-sorted input (`SortOfSorted`), not for windows sharing a start.
- Days.Parse: requires at least three characters, because slicing the first three characters panics on shorter input.
- Days.DeserializeDay: requires at least three characters for a string key, for the same reason.
- Intervals.IsEmpty: requires `start <= end`, which the source asserts.
- Intervals.Remaining: requires a valid end and time, because for ill-formed times the source's duration subtraction can underflow and panic.
- Strings are taken to be ASCII: one character is one byte, and lower-casing is ASCII lower-casing.
- Days.DeserializeDay: the numeric key path is `visit_u8` only (src/types.rs:219-229). The visitor defines no `visit_u64` or `visit_i64`, so whether the YAML reader's integers reach it is not modelled; a number is accepted here as if it were delivered as a `u8`.
- Normalization.Simplify: its own contract is a length bound. What it computes is stated by `SimplifyNormalises` and `SimplifyCoverage`, because those need induction over `MergeRun`.
- Normalization.MergeRun: its own contract is a length bound; its meaning is `MergeRunInvariant`.
- Difference.Walk: its own contract is a length bound; its meaning is `WalkCoverage` and `WalkOrdered`.
- DayComplement.Gaps: its own contract is a length bound; its meaning is `GapsCoverage` and `GapsShape`.
- DayComplement.Complement: its own contract is a length bound; its meaning is `ComplementCoverage` and `ComplementShape`.
- Diffs.ComputeAccepted: under `AsWritten` the coverage is bounded, not given exactly, because `subtract` as written can keep rejected minutes (see Findings).
- Diffs.ComputeRejected: under `AsWritten` the coverage is bounded, for the same reason.
- Compile.CompiledWindows: under `AsWritten` the coverage is bounded, for the same reason.
- Difference.AcceptedSubtract: the coverage is bounded, not given exactly, for the same reason.
- Manager.FetchExtensions: its own contract states only the frame; when it reports a change is `FetchExtensionsChanged`, and the effect on each listed path is `Cache.FetchAndCache`'s contract.
- Compile.CompileUsers: states only that each uid holds a resolving user's instructions; which user wins is `CompileUsersLastWins`.

The model follows the code in places where it behaves differently from what a reader might expect.
- A window whose start is after its end is not rejected when read. `Interval` has a derived deserializer (src/types.rs:308-315), so every property about windows assumes `WellFormed`.
- A cache entry is not removed when its file disappears from the extensions directory (src/config/manager.rs:171-207). Only the purge of files not modified today removes entries (src/config/manager.rs:213-220).
- Rules carry a `forbidden` list, as the compiler reads them (src/config/manager.rs:265-270), although the rule structs of src/config.rs:87-97 do not declare one.
- Recompilation compares the day of the month of the last computation with today's, not the full date (src/config/manager.rs:231).
- `compile` never fails: it skips unresolved users and always returns `Ok` (src/config/manager.rs:323-326, 344), so `load_config` does not model an error from it.

## Findings

| source | as written | input that shows it | evidently intended | confidence | as-written member | corrected member |
|---|---|---|---|---|---|---|
| src/types.rs:34-41 | `from_minutes` reduces the hour modulo 23 | 23:30 is 1410 minutes, which convert back to 00:30 | reduce modulo 24, so every time of the day round-trips | high; not executed | Times.FromMinutes, Times.FromMinutesDropsHour23 | Times.FromMinutesIntended, Times.FromMinutesIntendedRoundTrip |
| src/types.rs:371-376 | in the case `a.start <= b.start < a.end < b.end`, documented as `HitRight` (src/types.rs:401-402), `subtract` answers `HitLeft`; `AcceptedInterval::subtract` then drops the rejected window while it still overlaps later accepted windows | accepted 01:00-01:10 and 01:15-01:30, rejected 01:05-01:20: the result keeps 01:15-01:20 | answer `HitRight(a.start, b.start)`, so the subtraction yields exactly the accepted minutes minus the rejected ones | high; not executed | Difference.AcceptedSubtract, Difference.AcceptedSubtractKeepsRejectedMinutes, Diffs.ComputeAcceptedKeepsRejectedMinute | Difference.AcceptedSubtractIntended |
| src/types.rs:347-350 | `is_empty` returns `start < end` | 09:00-09:30, 30 minutes long, is reported empty | true exactly when the window covers no minute | high; not executed | Intervals.IsEmpty, Intervals.IsEmptyInvertedExample | Intervals.IsEmptyIntended |
| src/config/manager.rs:127-130 | the main file is cached under the rules of the day it was read on, and an unchanged file is not read again on the following days | a week whose Monday and Tuesday differ, read on Monday and unchanged on Tuesday: the cache keeps Monday's rules on Tuesday | the main file's entry holds today's rules | medium; not executed | Manager.FetchMain, Manager.MainRulesStayWithFirstDay | Manager.FetchMainIntended |
