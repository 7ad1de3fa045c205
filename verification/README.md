# Geoatlas: a Dafny model of its six algorithmic cores

Geoatlas draws firewall traffic on a map. This project models the parts of it whose
correctness rests on loops, state or interleavings, and proves what they promise:

| component | modules |
|---|---|
| geo job scheduler and heavy-task semaphore | `HeavyTask`, `GeoJobProtocol`, `GeoJobCourse`, `GeoJob` |
| map query language: tokenizer, parser, builder, meaning | `Text`, `SearchLexer`, `SearchParser`, `SearchGrammar`, `SearchBuilder`, `SearchRoundTrip`, `SearchMeaning`, `SearchEvaluate`, `SearchTokens`, `SearchNames` |
| reputation index | `Bits`, `Cidr`, `NetworkText`, `Lists`, `ReputationNormalize`, `ReputationLaws`, `ReputationMerge`, `ReputationIndex`, `ReputationRuns` |
| GeoIP index, builders, CSV import, snapshot file | `GeoModel`, `GeoRanges`, `GeoBuilder`, `GeoIndex`, `GeoStamp`, `SnapshotCodec`, `SnapshotHeader` |
| map aggregator | `MapModel`, `MapBuild`, `MapLaws`, `MapPairs`, `MapPlaces`, `MapLines` |
| log key/value walkers | `CefWalker`, `FtdWalker` |
| account store and session registry | `Keyed`, `Users`, `UserLaws`, `Sessions`, `AuthRuns` |

`Common` holds optional values, results and machine words. `dafny verify dfyconfig.toml`
checks everything.

## How the source is carried over

- Code that moves indices, fills maps or updates fields is a method with loops or a class
  whose fields are those of the source; each is tied by its `ensures` to a function of its
  inputs or of the old state, and the promises are lemmas about these functions.
- Addresses and ids are 32-bit words and byte sums, generations and versions 64-bit words;
  wrap-around is written out (`Wrap32`, `Wrap64`). Event counters of the map are unbounded.
- `sort.Slice` is `Lists.SortSlice`, of which callers know only that the result is some
  sorted permutation. Iterating over a map takes its keys in an arbitrary order.
- The scheduler is a state machine over the program points of its goroutines; the
  `Scheduler` object makes exactly the steps of that machine.
- Writing a file either succeeds or leaves the old file; `written` parameters say which.
  Clock readings, hashing results, the CRC-32 function, text normalisation, the tables of
  country and continent centres and the IPv4 address behind IPv6 text are parameters.
- A key whose centre is (0, 0), the mark of "no position", would be drawn there on every map
  only with tables that have no other country centre (`MapPlaces.PinnedExactly`). The shipped
  tables have no such entry but that of the unknown continent, which is never drawn.

## Where the code does not do what one would expect

Each of these is a lemma with the exact condition and one with an input; the code was kept
as it is.

- Reputation ranges that end at 255.255.255.255: the successor of the end wraps to zero, so
  a later range of the same key is left beside the one that contains it. Covered addresses
  never change; gaps between the results are lost exactly under `WrapHazard`
  (`ReputationLaws.NormalizeSeparates`, `HazardHappens`).
- List names with NUL: two (list, category) pairs can share one lookup key, and a lookup
  then shows one hit for both (`ReputationRuns.LookupAgreesWithPlainSet`, `NulIsAmbiguous`).
- A query builder row on the field `all` is printed without its operator, and unquoted
  values may hold operators or keywords: for all rows, the printed text is read back as
  the rows' own tree exactly under `Acceptable` (`SearchRoundTrip.RoundTrip`); it is
  accepted, perhaps as a condition on another field, exactly under `Readable`
  (`SearchRoundTrip.ReadBack`, `SearchMeaning.AllFieldIsAmbiguous`, `AcceptedMeaning`).
- The browser's tokenizer does not come back exactly from the texts with a `!` outside
  quotes that no `=` follows; the server's always does (`SearchLexer.StuckExactly`,
  `LoneBangHangs`, `ServerNeverStuck`).
- `CheckNonOverlapping` starts at the second range, so one improper range below all others
  passes (`GeoRanges.CheckIsExact`, `OneImproperRangePasses`).
- With equal intervals in the input the streaming builder and the snapshot builder may keep
  different ranges: they agree, for every way of sorting, exactly when each range with the
  interval of a kept one is equal to it (`GeoIndex.BuildersAgreeExactly`,
  `EqualIntervalsMayDisagree`).
- Dictionary ids are cut to 32 bits: rows give back their names exactly when no column has
  more than 2^32 names (`GeoBuilder.MaterializeIsExact`, `IdsRunOut`). Ranges that do not
  overlap are never so many (`GeoBuilder.ApartComesBack`).
- A job that was cancelled can still begin its body, if its gate lets it: after a
  superseding schedule (among the first 2^64) a job already in front of its gate, after a
  shutdown also one at its generation test with the newest number, and no other
  (`GeoJobProtocol.SupersededExactly`, `ShutdownExactly`, `StartsAfterSchedule`,
  `StartsAfterShutdown`).
- Keys that contain the arrow `→` can merge edges of different pairs. Traffic is then
  conserved in total, but pair by pair not always: allowed and blocked counts exactly when
  rows that carry some have the keys of the first counted row with the same joined key
  (`MapPairs.PairsAreConserved`), bytes exactly when the rows of each pair drawn on another
  pair's line add up to nothing modulo 2^64 (`MapPairs.PairBytesAreConserved`,
  `ArrowMergesPairs`, `HalvesCancel`).
- `walkCEFExt` is documented as the former pattern `(?:^|\s)([A-Za-z0-9_.-]+)=`, but takes
  only spaces and tabs for `\s`: the two agree exactly when no key follows a line break
  (`CefWalker.AgreesWithPattern`, `LineBreakHidesPair`).
- A version bump or a session revocation whose file write fails is undone by the next start
  (`UserLaws.UnwrittenBumpIsUndone`, `AuthRuns.UnwrittenRevokeIsUndone`). A stamp stays
  unfit exactly while memory and file are both too many bumps away from it, a session id
  gone exactly when both lack it (`UserLaws.StaleExactly`, `AuthRuns.GoneExactly`).

## Model

| member | source | states |
|---|---|---|
| HeavyTask.Limiter.constructor | backend/internal/adapter/heavytask/limiter.go:17-22 | a new semaphore is empty and has at least one slot, also for n <= 0 |
| HeavyTask.Limiter.TryAcquire | backend/internal/adapter/heavytask/limiter.go:25-36 | takes a slot exactly when one is free; the fill level stays within the capacity |
| HeavyTask.Limiter.Acquire | backend/internal/adapter/heavytask/limiter.go:39-50 | wakes with a slot that was free, or without one when the context is done |
| HeavyTask.Limiter.Release | backend/internal/adapter/heavytask/limiter.go:53-64 | gives one slot back; nothing happens on an empty channel |
| GeoJob.Scheduler.Schedule | backend/internal/adapter/geojob/scheduler.go:86-115 | is the protocol's schedule event: guards, cancelling the previous context, next generation, one more worker |
| GeoJob.Scheduler.ShutdownCancel | backend/internal/adapter/geojob/scheduler.go:236-244 | is the protocol's shutdown event, after which every worker's context is cancelled |
| GeoJob.Scheduler.WaitDone | backend/internal/adapter/geojob/scheduler.go:246-256 | the wait is over exactly when every worker ended; then no job holds the work lock or a slot |
| GeoJob.Scheduler.RunAcquire | backend/internal/adapter/geojob/scheduler.go:129-131 | the acquire step of a worker is the protocol's step, with the slot or with a cancelled context |
| GeoJob.Scheduler.RunLine | backend/internal/adapter/geojob/scheduler.go:122-233 | each lock-free line of run and of the job bodies is the protocol's step |
| GeoJob.Scheduler.RunLock | backend/internal/adapter/geojob/scheduler.go:134-135 | taking the work lock is the protocol's step |
| GeoJob.Scheduler.RunUnlock | backend/internal/adapter/geojob/scheduler.go:134-135 | the deferred unlock is the protocol's step |
| GeoJob.Scheduler.RunRelease | backend/internal/adapter/geojob/scheduler.go:132-132 | the deferred release gives the slot back as the protocol's step |
| GeoJob.Scheduler.RunDone | backend/internal/adapter/geojob/scheduler.go:111-114 | the end of the goroutine lowers the wait group as the protocol's step |
| GeoJob.Scheduler.OtherTryAcquire | backend/internal/adapter/heavytask/limiter.go:25-36 | another heavy task gets a slot of the shared limiter exactly when the protocol enables it |
| GeoJobProtocol.Safety | backend/internal/adapter/geojob/scheduler.go:86-167 | in every run: at most one worker in a job body, it holds a slot, slots held never exceed the capacity, every taken slot is released once, every superseded worker has a cancelled context |
| GeoJobProtocol.NextKeepsInv | backend/internal/adapter/geojob/scheduler.go:86-167 | every event of the protocol keeps its invariant |
| GeoJobProtocol.RunKeepsInv | backend/internal/adapter/geojob/scheduler.go:86-167 | so does every run |
| GeoJobProtocol.OnlyNewestPassesGen | backend/internal/adapter/geojob/scheduler.go:140-145 | the generation check passes exactly for workers a multiple of 2^64 schedules old; below 2^64 schedules only for the newest |
| GeoJobProtocol.JobsStartInScheduleOrder | backend/internal/adapter/geojob/scheduler.go:122-167 | job bodies begin in the order of their schedule calls, each at most once |
| GeoJobCourse.JobsRunTheirCourse | backend/internal/adapter/geojob/scheduler.go:151-166 | over every run the body points a worker comes to are a beginning of its kind's course: enrich alone; reload, enrich; or edges, geo edges, enrich. It is listed as started exactly when it has come to the first, and in its body it is at the last |
| GeoJobCourse.NextPartExactly | backend/internal/adapter/geojob/scheduler.go:151-214 | after any run a worker's next step brings it to the first part of its course exactly at an open second gate, to the next part exactly when the store calls succeeded, the context is alive or, before the last maintenance part, the index has ranges, and to no part otherwise |
| GeoJobCourse.ClosedGateKeepsOut | backend/internal/adapter/geojob/scheduler.go:143-149 | a maintenance job that finds its second gate closed never begins its body |
| GeoJobCourse.ClosedGateTakesNoSlot | backend/internal/adapter/geojob/scheduler.go:123-128 | at the first gate exactly the maintenance jobs whose gate is closed end without asking for a slot |
| GeoJobCourse.NothingAbsentIsUsed | backend/internal/adapter/geojob/scheduler.go:86-96 | in every run workers have a store, and whoever enriches, or was scheduled for anything but maintenance, has a geo index |
| GeoJobCourse.ScheduleAccepts | backend/internal/adapter/geojob/scheduler.go:86-115 | a schedule call adds one worker of its kind exactly when the store is there and, except for maintenance, the geo index; otherwise nothing changes |
| GeoJobProtocol.NoDeadlock | backend/internal/adapter/geojob/scheduler.go:122-167 | while a worker is unfinished some worker step, or another task's release, is enabled |
| GeoJobProtocol.NextMeasure | backend/internal/adapter/geojob/scheduler.go:122-167 | each event lowers the measure by one or more, but for the bounded cost of outside events |
| GeoJobProtocol.RunsAreBounded | backend/internal/adapter/geojob/scheduler.go:122-167 | the length of any run is bounded by its first measure and the cost of schedule, shutdown and outside acquire events |
| GeoJobProtocol.QuietMeansFinished | backend/internal/adapter/geojob/scheduler.go:236-256 | when nothing is left to step, all workers ended and no lock or slot is held |
| GeoJobProtocol.WaitGroupZero | backend/internal/adapter/geojob/scheduler.go:246-256 | the wait group is zero exactly when all workers ended, and then jobs hold neither lock nor slot |
| GeoJobProtocol.CancelledStart | backend/internal/adapter/geojob/scheduler.go:122-167 | of the workers cancelled at the start of a run at most one begins its job body along it, and only one past the context check that is able to start; for runs without schedules, or with at most 2^64 workers |
| GeoJobProtocol.ShutdownLetsOneStart | backend/internal/adapter/geojob/scheduler.go:236-256 | after shutdown's cancel every context is cancelled and, nothing more being scheduled, at most one job body begins: that of a worker at the generation test with the newest number, or at its gate |
| GeoJobProtocol.ShutdownExactly | backend/internal/adapter/geojob/scheduler.go:138-149 | after shutdown's cancel a job body can still begin exactly when some worker stands at the generation test with the newest number, or at its gate |
| GeoJobProtocol.StartsAfterShutdown | backend/internal/adapter/geojob/scheduler.go:138-149 | a run from the start in which a job at its generation test begins after shutdown's cancel |
| GeoJobProtocol.SupersededStarts | backend/internal/adapter/geojob/scheduler.go:86-115 | after a superseding schedule, whatever follows in runs of at most 2^64 workers, at most one older job begins, and only one that stood at its gate |
| GeoJobProtocol.SupersededExactly | backend/internal/adapter/geojob/scheduler.go:138-149 | after a superseding schedule an older job can still begin exactly when some worker stands at its gate |
| GeoJobProtocol.StartsAfterSchedule | backend/internal/adapter/geojob/scheduler.go:138-149 | a run from the start in which a job at its gate begins after the schedule that supersedes it |
| SearchLexer.Tokenize | frontend/src/lib/search.ts:106-182 | the index-moving loop returns the token sequence of the text in either dialect, or an open quote as error, or, when a word comes out empty and the browser's index stays, that it hangs; StuckExactly says when |
| SearchLexer.ScanQuoted | frontend/src/lib/search.ts:142-164 | a quoted value with its escapes, and where it ends, or that it never does |
| SearchLexer.StuckExactly | frontend/src/lib/search.ts:106-182 | the browser's tokenizer hangs exactly on the texts that have an exclamation mark outside quotes, escapes inside quotes counted, which no equals sign follows |
| SearchLexer.LoneBangHangs | frontend/src/lib/search.ts:106-182 | the text of one exclamation mark hangs it |
| SearchLexer.DialectsAgree | backend/internal/mapsearch/parse.go:182-264 | browser and server read the same tokens from texts without the two characters their white space differs in and without a bare exclamation mark |
| SearchLexer.ServerNeverStuck | backend/internal/mapsearch/parse.go:182-264 | the server's tokenizer comes back from every text |
| SearchTokens.KeywordsInAnyCase | frontend/src/lib/search.ts:166-179 | AND, OR and NOT are recognised in any letter case, and every other word stays as written |
| SearchTokens.QuotedExactly | frontend/src/lib/search.ts:142-164 | a quoted string reads as v exactly when its text spells v, each character as itself or, whatever it is, after a backslash |
| SearchTokens.ServerBang | backend/internal/mapsearch/parse.go:205-213 | the server reads an exclamation mark that no equals sign follows as a word |
| SearchParser.ParseQuery | backend/internal/mapsearch/parse.go:276-293 | the parser object accepts and rejects as the grammar functions do; leftover tokens are an error |
| SearchParser.Parser.PrimaryAt | backend/internal/mapsearch/parse.go:367-402 | the method and its moving index follow the grammar function, same tree, same error, same rest |
| SearchParser.Parser.UnaryAt | backend/internal/mapsearch/parse.go:404-414 | likewise for NOT |
| SearchParser.Parser.AndAt | backend/internal/mapsearch/parse.go:416-443 | likewise for the loop over AND and juxtaposition |
| SearchParser.Parser.OrAt | backend/internal/mapsearch/parse.go:445-459 | likewise for the loop over OR |
| SearchParser.JuxtapositionMeansAnd | backend/internal/mapsearch/parse.go:416-443 | deleting the AND tokens of an accepted token list yields the same tree |
| SearchGrammar.AcceptsExactlyTheGrammar | backend/internal/mapsearch/parse.go:276-293 | a token list is accepted with a tree exactly when a declarative grammar, which spells out the operators itself, derives the whole list from that tree |
| SearchGrammar.OrSound | backend/internal/mapsearch/parse.go:445-459 | what parseOr consumes is derived from its tree by the grammar |
| SearchGrammar.OrAccepted | backend/internal/mapsearch/parse.go:445-459 | whatever the grammar derives is parsed to that tree, before the end, an OR or a closing parenthesis |
| SearchGrammar.UnknownFieldIsReal | backend/internal/mapsearch/parse.go:380-402 | a query refused for an unknown field has that word, and it names no field; such a word alone is refused so |
| SearchNames.BrowserKnowsFields | frontend/src/lib/search.ts:88-104 | every field is found by its own name, and "contains" is no field, for any normalisation that fixes the names |
| SearchNames.AliasExactly | frontend/src/lib/search.ts:1-54 | a word stands for a field exactly when the field's definition lists it |
| SearchNames.ServerKnowsFields | backend/internal/mapsearch/parse.go:66-87 | the same on the server, where "contains" is compared by case folding |
| SearchNames.ContainsExactly | backend/internal/mapsearch/parse.go:66-87 | the server takes for contains exactly its letters in either case, the long s included |
| SearchNames.ServerJuxtaposition | backend/internal/mapsearch/parse.go:315-317 | on the server AND between conditions may always be left out |
| SearchRoundTrip.RoundTrip | frontend/src/lib/searchBuilder.ts:106-124 | for all rows, the printed text is read back as the rows' own tree exactly when no row is live, or the first one is and every condition is safe |
| SearchRoundTrip.ReadBack | frontend/src/lib/searchBuilder.ts:95-124 | for all rows, the printed text is accepted exactly when no row is live, or the first one is and every condition is safe or reads like a condition on another field; what tree it then gives |
| SearchRoundTrip.ReadQuotedEscaped | frontend/src/lib/searchBuilder.ts:61-66 | the tokenizer undoes the builder's escaping of backslashes and quotes |
| SearchTokens.BareExactly | frontend/src/lib/searchBuilder.ts:61-66 | a value is printed as it is exactly when it has no white space, parenthesis or quotation mark |
| SearchRoundTrip.ReadChunk | frontend/src/lib/search.ts:106-182 | a value printed without quotes is read, or hangs the tokenizer, by itself, whatever unit, parenthesis or end follows |
| SearchRoundTrip.RowGoodOrBad | frontend/src/lib/searchBuilder.ts:95-121 | every live row reads as one unit of known tree whatever follows when its conditions are readable, and spoils the query whatever follows otherwise |
| SearchMeaning.BuilderRoundTrip | frontend/src/lib/search.ts:184-323 | for all rows, the printed text is read back as the rows' own tree exactly for acceptable rows, and then evaluates to the builder's meaning on every record |
| SearchMeaning.AcceptedMeaning | frontend/src/lib/search.ts:184-323 | every printed query that is accepted at all means, on every record, the rows with each misread condition replaced by what it is taken for |
| SearchMeaning.RowsMean | frontend/src/lib/search.ts:297-323 | the tree of the rows evaluates to: some run of AND-joined rows is true throughout, NOT tightest, empty rows ignored |
| SearchBuilder.OperatorsRelate | frontend/src/lib/search.ts:302-314 | for a value that is not blank, ne is the opposite of eq and eq implies contains; a blank value matches every record |
| SearchEvaluate.ConditionsExactly | frontend/src/lib/search.ts:302-314 | in terms of the texts alone: a condition on a value that is not blank is true exactly when some normalised value has the needle at some position (contains), is the needle (eq), or none is (ne); on a blank value always |
| SearchEvaluate.PartsMatch | frontend/src/lib/search.ts:313-313 | a value with the needle inside matches contains, values shorter than the needle never do |
| SearchEvaluate.EvaluateSearchAst | frontend/src/lib/search.ts:297-323 | the evaluation with its loops over values and positions; no query keeps every record |
| SearchEvaluate.EvaluateTerm | frontend/src/lib/search.ts:302-314 | the loop over one field's values decides one condition |
| SearchMeaning.ParseSearchQuery | frontend/src/lib/search.ts:184-295 | parsing after the leading trim equals parsing the untrimmed text |
| SearchMeaning.ReadTrim | frontend/src/lib/search.ts:106-108 | trimming the text changes no token |
| SearchMeaning.ServerReadsTheSame | backend/internal/mapsearch/parse.go:276-293 | the server builds the browser's tree from every printed query that is acceptable in both, without the two characters their white space differs in |
| SearchMeaning.AllFieldIsAmbiguous | frontend/src/lib/searchBuilder.ts:95-104 | a value on the field all that reads like a condition on another field becomes that condition |
| Cidr.Itoa | backend/internal/reputation/format_network.go:42-54 | the two-byte buffer filled from its end holds the decimal number |
| Cidr.PrefixLenIsExact | backend/internal/reputation/format_network.go:22-40 | exactPrefixLen answers p exactly when the range is the CIDR block of prefix length p, 1 to 32 |
| Cidr.NetworkRoundTrip | backend/internal/reputation/format_network.go:10-20 | a printed network parses back to its range; a reversed range comes back in order |
| NetworkText.PrintedExactly | backend/internal/reputation/format_network.go:10-20 | a range is printed with prefix length p exactly when it is the CIDR block of length p, 1 to 32, by its two ends exactly when it is no such block, and one address by itself |
| Cidr.QuadRoundTrip | backend/internal/geoip/index.go:380-382 | a printed IPv4 address parses back to itself |
| NetworkText.QuadExactly | backend/internal/geoip/index.go:380-382 | a text is an IPv4 address exactly when it is how that address is printed |
| NetworkText.AddressExactly | backend/internal/geoip/index.go:380-382 | an address is a printed IPv4 address, or text with a colon before every dot that IPv6 reading maps to one |
| Cidr.CidrReadsBack | backend/internal/geoip/csv.go:16-56 | a block printed with its prefix length is read back with the right first and last address |
| NetworkText.BlockExactly | backend/internal/geoip/csv.go:22-36 | an address and a length read as start..end exactly when that is the CIDR block of this length around the address, host bits or not |
| NetworkText.FieldExactly | backend/internal/geoip/csv.go:16-56 | which texts read as which range: blocks, two ends in either order with spaces around them, single addresses, and nothing else |
| Lists.SearchFirst | backend/internal/reputation/index.go:107-109 | binary search stops where the condition turns true, at the first such index when it never turns false again |
| Lists.TextLessExactly | backend/internal/reputation/index.go:137-147 | text order: at the first difference the smaller character, or the end |
| ReputationNormalize.NormalizeRanges | backend/internal/reputation/normalize.go:12-69 | output sorted, and for each trimmed (list, category) the merge of some sorted copy of its usable ranges, whatever the map order |
| ReputationNormalize.MergeSorted | backend/internal/reputation/normalize.go:35-54 | the merging loop over cur computes the merge function |
| ReputationNormalize.GroupAll | backend/internal/reputation/normalize.go:17-26 | the group map holds per key the cleaned usable ranges in input order |
| ReputationLaws.NormalizeCovers | backend/internal/reputation/normalize.go:12-69 | per key exactly the covered addresses are kept, also where the successor of the end wraps |
| ReputationLaws.NormalizeSeparates | backend/internal/reputation/normalize.go:28-55 | the ranges of a key come out with gaps between them exactly when the input has no wrap hazard for that key |
| ReputationLaws.HazardHappens | backend/internal/reputation/normalize.go:28-55 | two ranges of one key, one up to the last address and one inside it, come out without a gap |
| ReputationLaws.NormalizeIsDeterministic | backend/internal/reputation/normalize.go:12-69 | names and intervals that come out, in order, do not depend on input order, map order or the order of equal elements |
| ReputationLaws.NormalizedIsTidy | backend/internal/reputation/normalize.go:12-69 | the result is clean and settled per key |
| ReputationLaws.NormalizeTwice | backend/internal/reputation/normalize.go:12-69 | a second pass gives the same ranges; the same list when those that agree in interval and names are equal, which holds when no group has a wrap hazard |
| ReputationMerge.MergedRangesStandForParts | backend/internal/reputation/normalize.go:28-55 | each merged range stands for consecutive ranges of its sorted group that reach one another, with their last end, latest update and first source, and the next one begins past the successor of its end |
| ReputationMerge.OutputInOrder | backend/internal/reputation/normalize.go:56-69 | results ascend by start, then end, then list name, then category |
| ReputationIndex.Index.ReplaceAll | backend/internal/reputation/index.go:37-40 | the stored list becomes a normalization of the given ranges |
| ReputationIndex.Index.ReplaceList | backend/internal/reputation/index.go:42-57 | the stored list becomes a normalization of the other lists' ranges and the relabelled new ones |
| ReputationIndex.Index.DeleteList | backend/internal/reputation/index.go:59-69 | exactly the ranges of other lists stay, in order |
| ReputationIndex.Index.Lookup | backend/internal/reputation/index.go:88-148 | no hits for invalid or non-public addresses; otherwise one hit for each joined key with a covering range, in order of category and list, each with the names of a covering range than which no other of these names is narrower, and that range printed as a CIDR block if it is one |
| ReputationIndex.Index.Consider | backend/internal/reputation/index.go:111-136 | one candidate keeps the map at the narrowest covering range per joined key |
| ReputationIndex.Index.Candidates | backend/internal/reputation/index.go:107-109 | the candidates are exactly the ranges that start at or before the address |
| ReputationIndex.NonPublicBlocks | backend/internal/netutil/nonpublic.go:8-22 | the filtered addresses are exactly those of eight CIDR blocks |
| ReputationIndex.SortedValues | backend/internal/reputation/index.go:137-147 | the map's values come out sorted by category, then list, each once |
| ReputationRuns.RunAgrees | backend/internal/reputation/index.go:37-69 | after any run of the three operations the index covers exactly what a plain set of triples covers, trimmed and relabelled as the source does |
| ReputationRuns.LookupAgreesWithPlainSet | backend/internal/reputation/index.go:88-148 | a lookup has one hit per covering (list, category) pair of the plain set and no other, exactly when no two such pairs join to one text; every hit shows a range around the address that its pair covers throughout, as a CIDR block if it is one, and the text reads back as that range |
| ReputationRuns.NulFreeIsUnambiguous | backend/internal/reputation/index.go:116-116 | list names without NUL never join to one text with another pair |
| ReputationRuns.NulIsAmbiguous | backend/internal/reputation/index.go:116-116 | after two usable ranges of one address whose pairs have a NUL and one joined text are stored, any lookup of the address has one hit for both |
| ReputationRuns.OtherListsUndisturbed | backend/internal/reputation/index.go:42-69 | replacing or deleting one list leaves the covered addresses and ranges of every other list |
| GeoRanges.NormalizeRanges | backend/internal/geoip/ranges.go:13-38 | keeps the greedy choice over a sorted copy; kept plus skipped is the input length |
| GeoRanges.NormalizedRanges | backend/internal/geoip/ranges.go:13-38 | kept ranges are some of the given ones, in order and pairwise disjoint; every proper given range overlaps a kept one that begins before it, or with it and ends no later |
| GeoRanges.NothingSkipped | backend/internal/geoip/ranges.go:13-38 | nothing is dropped exactly when all ranges are proper and pairwise disjoint |
| GeoRanges.CheckNonOverlapping | backend/internal/geoip/ranges.go:41-63 | succeeds exactly when no two proper ranges overlap and an improper range is below all others; for proper ranges exactly when they are pairwise disjoint |
| GeoRanges.CheckIsExact | backend/internal/geoip/ranges.go:52-61 | comparing neighbours of a sorted copy is as good as comparing all pairs of the given list |
| GeoRanges.OneImproperRangePasses | backend/internal/geoip/ranges.go:52-61 | any single improper range passes the check and is then dropped |
| GeoRanges.SortedCopiesAgree | backend/internal/geoip/ranges.go:18-23 | the intervals of a sorted copy do not depend on how equal keys are ordered |
| GeoRanges.KeptExactly | backend/internal/geoip/ranges.go:18-36 | all sorted copies of a sorted list keep the same ranges exactly when each range with the interval of a kept one is equal to it |
| GeoBuilder.DictionaryBuilder.ID | backend/internal/geoip/index.go:52-61 | a known name keeps its id, a new one gets the next position as a 32-bit word |
| GeoBuilder.IdsAreBijective | backend/internal/geoip/index.go:52-61 | every name comes back from its id exactly when there are at most 2^32 names |
| GeoBuilder.RowsAndNames | backend/internal/geoip/index.go:79-89 | each row holds the interval and the ids of its range; ids given out earlier stay |
| GeoBuilder.Ranges | backend/internal/geoip/builder.go:33-42 | the loop materializes every row |
| GeoBuilder.UnknownIdIsEmpty | backend/internal/geoip/builder.go:33-42 | ids past the dictionaries, as a file may hold, read as empty names |
| GeoBuilder.MaterializeIsExact | backend/internal/geoip/builder.go:33-42 | materializing a snapshot gives back the ranges it was built from exactly when each column's names fit 32-bit ids |
| GeoBuilder.IdsRunOut | backend/internal/geoip/index.go:52-61 | more than 2^32 ranges with a country each, published as they are, do not come back |
| GeoBuilder.ApartComesBack | backend/internal/geoip/builder.go:33-42 | disjoint ranges in order are at most 2^32, so their names fit and materializing their snapshot gives them back |
| GeoIndex.CompactBuilder.AddRange | backend/internal/geoip/builder.go:64-88 | accepts a range exactly when it is proper and starts after the last kept one; the builder stays at the rows of the greedy choice |
| GeoIndex.CompactBuilder.Build | backend/internal/geoip/builder.go:90-105 | the snapshot of the greedy choice over everything offered, with the number dropped |
| GeoIndex.BuildSnapshot | backend/internal/geoip/index.go:63-100 | the snapshot of the normalized list, or of the list as given, with the number skipped |
| GeoIndex.BuildersAgree | backend/internal/geoip/builder.go:64-105 | on a sorted list both builders keep the same intervals and drop equally many |
| GeoIndex.BuildersAgreeExactly | backend/internal/geoip/builder.go:64-105 | on a sorted list the two builders build the same snapshot, whatever the sorting does, exactly when each range with the interval of a kept one is equal to it |
| GeoIndex.EqualIntervalsMayDisagree | backend/internal/geoip/builder.go:64-88 | with two equal intervals of different countries the snapshots can differ |
| GeoIndex.ReadCSVSnapshot | backend/internal/geoip/csv.go:209-235 | succeeds exactly for a non-empty list of proper, pairwise disjoint ranges; then it returns them sorted, their snapshot and no skips; otherwise the error names the first range of the sorted copy that is improper or overlaps its predecessor |
| GeoIndex.ImportMaterializes | backend/internal/geoip/csv.go:230-235 | an imported snapshot skips nothing and materializes back to the returned ranges |
| GeoIndex.FindContainingRow | backend/internal/geoip/index.go:132-146 | a row found covers the address; on disjoint rows the answer is that of a linear scan |
| GeoIndex.ScanIsUnique | backend/internal/geoip/index.go:132-146 | in disjoint rows a covering row is the only one |
| GeoIndex.Index.ReplaceRanges | backend/internal/geoip/index.go:188-191 | publishes the snapshot of the greedy choice over a sorted copy |
| GeoIndex.Index.ReplaceNormalizedRanges | backend/internal/geoip/index.go:194-197 | publishes the snapshot of the ranges as given |
| GeoIndex.Index.ReplaceBuiltSnapshot | backend/internal/geoip/index.go:200-206 | publishes the given snapshot, or the empty one for none |
| GeoIndex.Index.LookupRange | backend/internal/geoip/index.go:245-260 | nothing for invalid addresses or before the first publication; what is found is the range of a row that covers the address, also when rows overlap; on disjoint rows it is that of the only covering row |
| GeoIndex.LookupAfterReplace | backend/internal/geoip/index.go:245-260 | after ReplaceRanges of any list an address is found exactly when a kept range covers it, and what is found is that very range of the list |
| GeoIndex.LookupMisses | backend/internal/geoip/index.go:245-260 | nothing is found exactly when no kept range covers the address |
| GeoStamp.StampBuilder.Add | backend/internal/geoip/snapshot_codec.go:31-47 | all six fields after one more row, with 64-bit wrap-around |
| GeoStamp.StampFromRanges | backend/internal/geoip/snapshot_codec.go:50-56 | the stamp of all start and end addresses |
| GeoStamp.StampAggregates | backend/internal/geoip/snapshot_codec.go:18-56 | all six fields: count, least start, greatest end, sums modulo 2^64, and the exclusive or as bitwise parities of the rows' spans, as a database would aggregate them |
| GeoStamp.StampIgnoresOrder | backend/internal/geoip/snapshot_codec.go:18-56 | the stamp does not depend on the order of the rows |
| GeoStamp.ChangedRowIsNoticed | backend/internal/geoip/snapshot_codec.go:43-46 | replacing one row keeps the stamp exactly when the new row equals the old one |
| SnapshotCodec.EncodeSnapshot | backend/internal/geoip/snapshot_codec.go:59-72 | writes magic, version, checksum and payload of the format |
| SnapshotHeader.FileFrame | backend/internal/geoip/snapshot_codec.go:59-72 | a written file is NMGS, version 1 in four bytes lowest first, the payload, and its checksum |
| SnapshotCodec.EncodePayload | backend/internal/geoip/snapshot_codec.go:99-121 | writes stamp, dictionaries and rows in order, little-endian, lengths cut to 32 bits |
| SnapshotCodec.DecodeSnapshot | backend/internal/geoip/snapshot_codec.go:75-97 | accepts and rejects as the format's reading function, with the same error |
| SnapshotHeader.FirstFaultIsNamed | backend/internal/geoip/snapshot_codec.go:75-97 | the error names the first fault: letters, version, checksum, and only then the payload's own |
| SnapshotHeader.PayloadFaults | backend/internal/geoip/snapshot_codec.go:123-199 | bytes left over after a whole payload are refused as such |
| SnapshotCodec.DecodePayload | backend/internal/geoip/snapshot_codec.go:123-199 | the same for the payload, trailing bytes refused |
| SnapshotCodec.ByteReader.U32At | backend/internal/geoip/snapshot_codec.go:234-241 | reads four bytes or reports the end; the offset never passes the end |
| SnapshotCodec.ByteReader.U64At | backend/internal/geoip/snapshot_codec.go:243-250 | reads eight bytes or reports the end |
| SnapshotCodec.ByteReader.DictAt | backend/internal/geoip/snapshot_codec.go:252-270 | reads a dictionary, string by string, or reports the end |
| SnapshotCodec.CodecFile | backend/internal/geoip/snapshot_codec.go:59-199 | a byte string is accepted with a content exactly when it is the encoding of that content and all lengths fit 32 bits |
| SnapshotCodec.DecodeAfterEncode | backend/internal/geoip/snapshot_codec.go:59-97 | decoding an encoding returns snapshot and stamp exactly when all lengths fit |
| SnapshotCodec.EncodeAfterDecode | backend/internal/geoip/snapshot_codec.go:75-97 | whatever is accepted is byte for byte the encoding of what was read |
| MapBuild.EdgeAgg.Add | backend/internal/mapagg/aggregator.go:347-410 | keys from the last row added while the count was zero, sums, weights and 64-bit byte sums after one more row |
| MapBuild.NodeAgg.Add | backend/internal/mapagg/aggregator.go:294-318 | key, counts and weighted position sums after one more end |
| MapBuild.BuildMapFromGeoEdges | backend/internal/mapagg/aggregator.go:484-551 | the lines of all weighted edges in some order; points exactly for the line ends, each the mean of its ends; skipped counts rows without two valid ends and weightless edges |
| MapBuild.CollectEdges | backend/internal/mapagg/aggregator.go:485-508 | one accumulator object per joined key, each with the rows of its key |
| MapBuild.EmitLines | backend/internal/mapagg/aggregator.go:510-522 | every weighted edge yields its lines once; the active keys are the line ends |
| MapBuild.CollectNodes | backend/internal/mapagg/aggregator.go:524-544 | one accumulator object per active key that occurs, each with all its ends |
| MapBuild.EndsAreRowKeys | backend/internal/mapagg/aggregator.go:510-544 | every line end is a key of some row, so every line end gets a point |
| MapLaws.TrafficIsConserved | backend/internal/mapagg/aggregator.go:484-551 | over all lines, allowed and blocked counts, and bytes modulo 2^64, are those of the rows with two valid ends whose edge has weight |
| MapLaws.SharesAddUp | backend/internal/mapagg/aggregator.go:465-481 | the two shares of a mixed edge's bytes add up to its bytes, however the division rounds and the product wraps |
| MapLines.MixedEdgeIsDivided | backend/internal/mapagg/aggregator.go:465-481 | an edge with both decisions yields an allowed line with the allowed events and bytes x, where x times the count is at most the product of bytes and allowed events modulo 2^64 and (x + 1) times the count is more, and a blocked line with the rest; plain proportion and difference while the products fit |
| MapLines.MixedEdgesAreDivided | backend/internal/mapagg/aggregator.go:465-522 | so every mixed edge of every map |
| MapLines.OtherEdgeIsWhole | backend/internal/mapagg/aggregator.go:412-463 | any other edge yields one line with all its counters; its status is that of its only decision, or of its last action |
| MapLines.ActionExactly | backend/internal/mapagg/aggregator.go:347-410 | an edge's action is the first that is not empty among its rows from the first one that counts on |
| MapLaws.EmittedSums | backend/internal/mapagg/aggregator.go:465-481 | the lines of one edge carry exactly its counters; the event count of a split edge is that of its decisions |
| MapLaws.NodeAddsUp | backend/internal/mapagg/aggregator.go:294-318 | a point counts all events at its key and weighs those with a valid position |
| MapLines.PointsCountEnds | backend/internal/mapagg/aggregator.go:320-332 | a point of the map bears its key and counts all events at the ends with that key |
| MapLaws.WeightlessMeansUncounted | backend/internal/mapagg/aggregator.go:402-409 | an edge has no weight exactly when none of its rows counts an event |
| MapPairs.PairsConservedExactly | backend/internal/mapagg/aggregator.go:484-522 | the same for any counter that is conserved edge by edge |
| MapPairs.FirstRow | backend/internal/mapagg/aggregator.go:347-410 | an edge that counts anything has the keys of its first located row that counts |
| MapPairs.PairsAreConserved | backend/internal/mapagg/aggregator.go:484-522 | allowed and blocked counts are conserved pair by pair exactly when every located row that carries some has the key pair of the first located row with the same joined key and a positive count |
| MapPairs.PairBytesAreConserved | backend/internal/mapagg/aggregator.go:484-522 | bytes sent and received are conserved pair by pair, modulo 2^64, exactly when for every pair whose first counted row with the same joined key has other keys the pair's located rows add up to a multiple of 2^64; so where the rows' keys agree |
| MapPairs.ArrowFreeIsConserved | backend/internal/mapagg/aggregator.go:484-522 | source keys without an arrow: counts and bytes are conserved pair by pair |
| MapPairs.ArrowMergesPairs | backend/internal/mapagg/aggregator.go:493-498 | two rows of pairs with an arrow in a key that fall on one edge: neither allowed counts nor bytes sent are conserved pair by pair |
| MapPairs.HalvesCancel | backend/internal/mapagg/aggregator.go:493-498 | three such rows, two of 2^63 bytes, whose keys do not agree and whose bytes are conserved all the same |
| MapPlaces.PointsHaveWeight | backend/internal/mapagg/aggregator.go:524-549 | each point bears its key and has a positive coordinate weight |
| MapLines.PointsAreMeans | backend/internal/mapagg/aggregator.go:320-332 | a point is the mean of the valid positions of its ends, each weighted with its events |
| MapLines.LineEndsAreMeans | backend/internal/mapagg/aggregator.go:431-439 | so are the ends of lines, over the rows of their edge |
| MapPlaces.PointsLieInHull | backend/internal/mapagg/aggregator.go:320-332 | any half-plane that contains all valid positions of a key's rows that count contains its point |
| MapPlaces.LineEndsInside | backend/internal/mapagg/aggregator.go:431-439 | any half-plane that contains the source (target) positions of an edge's rows that count contains the line's source (target) end |
| MapLines.UnknownIsNeverDrawn | backend/internal/mapagg/aggregator.go:553-558 | keys of unknown places never become points or line ends |
| MapPlaces.PinnedPoint | backend/internal/mapagg/aggregator.go:524-586 | the point of a key pinned to a centre other than (0, 0) is exactly that centre |
| MapPlaces.PinnedExactly | backend/internal/mapagg/aggregator.go:553-586 | every map that draws a pinned key draws it at its centre exactly when the centre is not (0, 0) or no country of the tables has another centre |
| MapPlaces.UnpinnedPoint | backend/internal/mapagg/aggregator.go:524-586 | the point of an unpinned key lies in the hull of its rows' own positions and, for nameless cities and rows without position, of their countries' centres |
| MapPlaces.UnpinnedAtOnePlace | backend/internal/mapagg/aggregator.go:524-586 | an unpinned key, no nameless city, whose rows all give one position is drawn exactly there |
| MapPlaces.PinnedEndsMeetPoints | backend/internal/mapagg/aggregator.go:431-586 | a pinned line end, its point and its centre coincide exactly where the rows that count on the line's edge share that end, the centre not being (0, 0) |
| MapPlaces.AgreeingEndsMeetPoints | backend/internal/mapagg/aggregator.go:431-586 | so do all pinned ends of all lines where every row that counts has the keys of its edge's first |
| MapPlaces.LinesAreSplit | backend/internal/mapagg/aggregator.go:412-481 | no line is of mixed status; allowed counts are on allowed lines, blocked ones on blocked lines |
| CefWalker.WalkCefExt | backend/internal/parser/cef.go:98-142 | ends on every text, and its calls are the matches of the documented pattern with space and tab as white space, values trimmed |
| CefWalker.PairsAreClean | backend/internal/parser/cef.go:98-142 | every pair found has a key of key characters and a trimmed value |
| CefWalker.FindValueEnd | backend/internal/parser/cef.go:121-138 | the look-ahead stops at the first blank that blanks and a key with equals sign follow |
| CefWalker.LookAheadIsNext | backend/internal/parser/cef.go:95-97 | that place is where the pattern's next match begins, but for blanks |
| CefWalker.AgreesWithPattern | backend/internal/parser/cef.go:95-97 | the calls are those of the former pattern exactly when no key follows a line break |
| CefWalker.LineBreakHidesPair | backend/internal/parser/cef.go:91-97 | the smallest text on which they differ |
| CefWalker.ScanUndoesJoin | backend/internal/parser/cef.go:95-142 | scanning pairs joined by single spaces gives them back exactly when keys are key characters and values are trimmed without a blank-preceded key= |
| FtdWalker.WalkFtdKv | backend/internal/parser/cisco_ftd.go:176-188 | the same calls in the same order as splitting at ", " and then at the first colon |
| FtdWalker.EmitPart | backend/internal/parser/cisco_ftd.go:190-200 | one call for a part with a colon and a key before it, none otherwise |
| FtdWalker.CallExactly | backend/internal/parser/cisco_ftd.go:190-200 | a part's call has the trimmed texts before and after its first colon; there is none for a blank key |
| FtdWalker.SplitIsExact | backend/internal/parser/cisco_ftd.go:173-175 | the parts joined by ", " are the text, and none has a separator inside |
| FtdWalker.SplitUndoesJoin | backend/internal/parser/cisco_ftd.go:173-175 | parts come back from their join exactly when none has a separator inside |
| FtdWalker.WalkUndoesWriting | backend/internal/parser/cisco_ftd.go:176-200 | written "key: value" records give their pairs back exactly for trimmed pairs without separators, keys non-empty and without colon |
| Users.OpenUsersFile | backend/internal/auth/users.go:204-222 | loads a file account by account, or stops at the first invalid or repeated one; an empty file is refused |
| Users.ValidUsersLoad | backend/internal/auth/users.go:148-177 | valid accounts with distinct names load as they are, in any order |
| UserLaws.FilesThatLoad | backend/internal/auth/users.go:148-222 | a file loads exactly when it holds accounts, all valid, no two under one key |
| UserLaws.KeysExactly | backend/internal/auth/users.go:158-177 | two names mean one account exactly when they differ at most in surrounding white space and case |
| Users.UserStore.Persist | backend/internal/auth/users.go:667-684 | writes the accounts sorted by name so that loading gives them back, or leaves the file as it was |
| Users.UserStore.AdminCount | backend/internal/auth/users.go:657-665 | the number of administrators |
| Users.UserStore.Create | backend/internal/auth/users.go:433-470 | the new state of memory and file and the answer, in the order of the checks; taken back when the write fails |
| Users.UserStore.SetRole | backend/internal/auth/users.go:472-493 | the new state and the answer; a failed write leaves the change in memory |
| Users.UserStore.SetFullName | backend/internal/auth/users.go:495-514 | the new state and the answer |
| Users.UserStore.ResetPassword | backend/internal/auth/users.go:574-598 | the new state and the answer, with the next session version |
| Users.UserStore.ChangePassword | backend/internal/auth/users.go:601-628 | the new state and the answer, with the next session version |
| Users.UserStore.BumpSessionVersion | backend/internal/auth/users.go:398-410 | the new state and the answer, with the next session version |
| Users.UserStore.Delete | backend/internal/auth/users.go:630-655 | the new state and the answer; the account comes back when the write fails |
| Users.ProposedIsWellFormed | backend/internal/auth/users.go:158-177 | after every request each key is the lower-cased name of its valid account |
| UserLaws.AcceptedExactly | backend/internal/auth/users.go:433-655 | which requests are accepted: names of 2 to 64 letters, digits, dots, underscores or hyphens, known roles, the password and old-password tests, new or existing accounts, never the last administrator or oneself |
| UserLaws.RefusedForTheFirst | backend/internal/auth/users.go:433-655 | a refused request is refused for the first demand it fails, in the source's order |
| UserLaws.FieldsExactly | backend/internal/auth/users.go:433-655 | field by field, what an accepted request leaves of every account that was there: new role, full name, hash, reset flag or version just where asked for |
| UserLaws.CreatedExactly | backend/internal/auth/users.go:433-470 | a creation adds one account with what was asked for and version 0 |
| UserLaws.WritesExactly | backend/internal/auth/users.go:433-655 | memory and file after a failed write: a creation or deletion is taken back, other changes stay in memory |
| UserLaws.LastAdminRemains | backend/internal/auth/users.go:433-493 | over every run with failing writes and new starts, memory, and the file of a store that has one, keep an administrator and stay well-formed |
| UserLaws.SetRoleRefusal | backend/internal/auth/users.go:485-487 | a role change is refused for the last administrator exactly when it would leave none |
| UserLaws.DeleteRefusal | backend/internal/auth/users.go:645-647 | so is a deletion |
| UserLaws.GovernedFileLoads | backend/internal/auth/users.go:204-222 | a file with an administrator always loads again |
| UserLaws.StaleStampNeverFits | backend/internal/auth/users.go:384-410 | a stamp more bumps away than a run has acts, in memory and, counting the new start, in the file, does not fit after that run unless the account is made anew |
| UserLaws.StaleExactly | backend/internal/auth/users.go:384-410 | no run of at most n acts without making the account anew makes the stamp fit exactly when memory is more than n bumps away from it and, with new starts, the file more than n - 1 |
| UserLaws.BumpGetsAhead | backend/internal/auth/users.go:398-410 | after a bump, reset or password change memory is 2^64 - 1 bumps away from the old stamp, and so is the file when it was written |
| UserLaws.StampFitsExactly | backend/internal/auth/users.go:384-410 | while the account stays, a stamp fits later exactly when the bumps in between are a multiple of 2^64 |
| UserLaws.UnwrittenBumpIsUndone | backend/internal/auth/users.go:408-409 | a bump that could not be written is undone by the next start: memory is what the file held |
| Sessions.SessionRegistry.constructor | backend/internal/auth/session_registry.go:41-82 | empty without a path; otherwise the last unexpired record of each id of the file, which for a file the registry wrote is its unexpired sessions |
| Sessions.SessionRegistry.Persist | backend/internal/auth/session_registry.go:84-103 | the file holds every registered session once, or stays as it was |
| Sessions.SessionRegistry.Register | backend/internal/auth/session_registry.go:106-122 | prunes, then adds or replaces the record with its times filled in; blank ids are ignored |
| Sessions.RegisterExactly | backend/internal/auth/session_registry.go:106-122 | after registering, the id has the given record with missing times filled in, and the other ids are exactly the unexpired ones, as they were |
| Sessions.SessionRegistry.Has | backend/internal/auth/session_registry.go:125-138 | whether the trimmed id is registered and not expired, after pruning |
| Sessions.SessionRegistry.Touch | backend/internal/auth/session_registry.go:141-163 | moves last-seen of a registered session at most once per interval |
| Sessions.TouchExactly | backend/internal/auth/session_registry.go:141-163 | touching notes the time unless it did so less than a minute before, changes nothing else, and a second touch within the minute changes nothing |
| Sessions.SessionRegistry.Revoke | backend/internal/auth/session_registry.go:166-182 | removes the id and its touch time; tells whether it existed |
| Sessions.SessionRegistry.RevokeUser | backend/internal/auth/session_registry.go:185-208 | removes exactly the user's sessions and counts them |
| Sessions.SessionRegistry.PruneExpired | backend/internal/auth/session_registry.go:228-235 | removes exactly the expired sessions and their touch times |
| Sessions.PruneExactly | backend/internal/auth/session_registry.go:228-235 | pruning keeps exactly the sessions without expiry or not past it |
| Sessions.RemovedLeaveNoTouch | backend/internal/auth/session_registry.go:166-235 | removed sessions leave no touch time behind |
| Sessions.WrittenFileLoads | backend/internal/auth/session_registry.go:59-103 | a written file loads to the sessions it was written from, less the expired ones |
| Sessions.LoadedFromFile | backend/internal/auth/session_registry.go:59-82 | reading records in order, in whatever file, gives for each id the last one that is not expired |
| Sessions.LiveSession | backend/internal/auth/session.go:138-156 | a session comes back exactly when its account is there with the session's version and, for one that never expires, the dashboard role; then with its account's role and as it was otherwise; without user store as it is |
| Sessions.LiveSessionChecked | backend/internal/auth/session.go:160-173 | passes exactly when the session fits its account and its id is registered and unexpired, either test left out when its store is missing; the answer has the account's role; the effect on the registry |
| AuthRuns.GoneNeverPasses | backend/internal/auth/session.go:160-173 | a session id that is gone never passes the check again in any run of both stores that does not register it anew |
| AuthRuns.RevokeMakesGone | backend/internal/auth/session_registry.go:166-182 | Revoke makes the id gone, from the file as well when it was written |
| AuthRuns.RevokeUserMakesGone | backend/internal/auth/session_registry.go:185-208 | RevokeUser makes all sessions of the user gone, and no others |
| AuthRuns.GoneExactly | backend/internal/auth/session_registry.go:59-82 | with new starts, an id stays out of every run that does not register it exactly when neither memory nor file holds it |
| AuthRuns.UnwrittenRevokeIsUndone | backend/internal/auth/session_registry.go:166-182 | a session revoked without the file being written is registered again after the next start, as it was |
| AuthRuns.StaleSessionNeverPasses | backend/internal/auth/session.go:138-173 | a session whose stamp is out of reach of its account never passes in any run of both stores with so many acts in which the account is not made anew |
| AuthRuns.NewRoleHolds | backend/internal/auth/session.go:138-173 | after an accepted change of role every check that passes answers the new role, in any run that does not delete the account or change its role again, new starts included when the change was written |

## Left out

- HTTP handlers, storage adapters, configuration, wiring, user interface: no algorithm of the six cores.
- The simple mode of `compileSearchQuery` and `Compile` (plain text that is no query), and the server's translation of trees to SQL.
- Text is a sequence of code points: UTF-16 surrogates in the browser and invalid UTF-8 on the server are not modelled.
- A browser field name that hits an inherited object property (such as `constructor`) is not modelled; names are looked up in the alias table only.
- Job durations and timeouts of the scheduler: a timeout may fire at any time. Go's fairness is not needed for the bounds proved.
- The limiter's `busy` flag, which is a store apart from the semaphore, and nil limiters outside the scheduler.
- `approxBytes`, which depends on slice capacities, and capacity hints.
- Reading CSV columns and floating-point texts in `ReadCSVSnapshot`; its model starts at the parsed rows. `CollectRanges`, `Lookup` (the same search with another result record), `ListMeta` and the feed readers are left out.
- GeoStamp.StampIgnoresOrder: for fewer than 2^64 rows, the most a machine can hold; past that the wrapped counter would reset the extremes.
- Floating-point rounding: coordinates are real numbers in the map and 64-bit patterns in the snapshot file.
- Labels, cities, ports, zones, rules, protocols and devices of map edges and nodes (first non-empty value wins), and grouping of single addresses before aggregation.
- CEF and FTD field mapping, header splitting and the table-driven vendor parsers.
- Password rules, hashing, full-name normalisation and cookie signing: requests carry their outcome. Interface preferences and the wizard flag change an account like `SetFullName` does.
- Names are compared by ASCII case; the Unicode folding of non-ASCII texts in lookups is not modelled.
- Sessions.LiveSessionChecked: one step; in the source its three locked sections may interleave with other calls.
- `List` of both stores, session issuing and parsing, and seeding the first accounts from the environment.
