# Meme launchpad: indexer, candles, sign-in and signing payloads

A Dafny model of the parts of the launchpad back end whose correctness is hard to see from one
function at a time:

- the chain indexer of `app-rebuild`, which cuts the chain into block ranges, decodes the logs of the
  core contract and commits raw ledger, event tables, trades, token rows, candles and checkpoint in
  one transaction (`ChainEvents`, `ChainIndexer`, `Replay`, `TokenRows`, `TokenRepair`, `Exactness`,
  `Rereading`, `Candles`, `RollUp`, `ReadModels`), with every table stated column by column in terms of
  the logs of the chain (`LogFields`, `LogRows`, `LogCandles`, `TokenHistory`);
- the time and price arithmetic under the candles (`GoTime`, `Intervals`, `Price`) and the cursor
  paging that reads them back (`KlinePages`, `KlineWalks`, `PagingLimits`, `ServedCandles`);
- the sign-in challenge: its text, its store and the login protocol (`SignInText`, `SignInReading`,
  `ChallengeStore`, `SignIn`);
- the adaptive batch loop of the older indexer (`BatchScheduler`);
- the byte layouts that are hashed and signed when a token is created (`Bytes`, `AbiLayout`,
  `Preimages`).

`dafny verify dfyconfig.toml` checks everything.

## How it is modelled

Tables are maps keyed as in the migrations, and every `ON CONFLICT` clause is an explicit map update.
The code that changes things step by step is imperative here too: `Tx` performs the statements of one
transaction on its fields, `ChainEventRepository` commits it, `Indexer` runs the loops, and the stores,
the batch loop and the paging request are methods with loops and fields. Each such method is proved
against a function on values, and the theorems are about those functions. Which statement, RPC call or
commit acknowledgement fails is left open, so a theorem covers every choice. `Common.Faults` counts these
failures, and each method reports an error exactly when one occurred, or when a log cannot be decoded.

What the tables hold is stated twice: as the single pass over the decoded events, which makes the run
theorems short, and from the topics, unpacked values and block headers of the logs, without naming the
decoder or the functions that build rows (`TablesFromLogs`, `CandlesFromLogs`, `TokenRowsFromLogs`).

Runs of the indexer are lists of steps (`Exactness.Step`): a process starts from the checkpoint, saves
its next range at some head and batch size with or without getting the acknowledgement, stops for any
reason; the checkpoint row may be deleted. `SyncIsARunOfSaves` connects one call of `SyncAvailable` to
these steps.

Where the code does not do what one might expect, the exact condition is proved:

- Range ends are computed on `uint64`. A range is a proper one exactly when `next + batch - 1` does not
  wrap around (`RangeEndExact`, `AllRangesProper`); when it wraps, or the range ends
  with the last 64-bit number, saving it takes the next start back before the range, and only then
  (`CheckpointAdvancesExactly`). The run
  theorems assume heads for which it does not wrap.
- `app-rebuild/README.md` calls re-reading safe. For the raw ledger, event tables, trades and candles it
  is, in every reachable state. If the events of each token start with its creation, a token row is at
  all times that creation overlaid with the last write of each kind (identity, totals, graduation, time)
  among the events in the order they were read (`RowsOfRun`). So the token table is exact precisely when
  these are the last ones in chain order (`TokensExactPrecisely`), and a re-reading that has come part of
  the way leaves it exact precisely when the last write of each kind it read is the last one of all
  (`RereadKeepsTokensExactly`, `ShortRereadExactly`). `RereadingLagsBehind` is a run in which
  it does not. A reading from the clean mark to the end always restores it. If events of a token precede
  its creation, a full re-reading restores its row exactly under the condition of `RereadRestoresRow`.
- A login deletes by address, so it can consume a newer challenge than the one it verified
  (`RequestInBetween`); it consumes what it verified exactly when no newer one was saved
  (`ConsumesWhatItVerified`).
- The batch size stays below the configured one exactly when at least ten is configured
  (`ConfiguredIsTheCeiling`), and a restart makes the stored checkpoint lead the cursor exactly in the
  cases of `RestartLeadsExactly`, of which `CheckpointCanLead` is one that is reached.
- A candle time survives the text cursor exactly when its year has at most four digits and is not
  negative (`CursorRoundTrip`). So paging through a fixed table of whole-second candles is bounded exactly
  when none lies before year 0 and, unless there are none at all, those beyond the year 9999 are fewer
  than the limit and not all (`PagingEndsExactly`); otherwise it starts over (`UnreadableRepeats`).
- Paging looks addresses up regardless of case, and the older indexer stores them as they come, so two
  spellings may have candles that open together. A page may end between them, and exactly these candles
  are missed (`WalkCollects`, `TieIsMissed`). On the table: for a given limit nothing is missed exactly
  when groups of that size, from the newest candle on, part no such candles (`ShowsAllPerLimit`), and for
  every limit exactly when there are none (`ShowsAllExactly`). Tables of the rebuilt indexer have none, so
  what it keeps is what clients see (`ServedCandlesAreExact`).
- The store that never evicts answers like one that evicts at once exactly when the times of the calls
  ascend from the second call on (`LazyIsEagerExactly`).
- The salt preimage packs name and symbol without a border and determines exactly the rest
  (`SaltDetermines`).

## Model

| member | source | states |
|---|---|---|
| Intervals.AlignmentsAgree | apps/indexer/internal/database/events.go:688-726 | at every UTC time and interval the calendar-field alignment, with Monday weeks that underflow months and years, equals the truncating one |
| Intervals.AlignIsFloor | app-rebuild/internal/repository/chain_event.go:306-333 | alignment rounds down to a multiple of the interval, for days and Monday weeks too |
| Intervals.GreatestBucketStart | app-rebuild/internal/repository/chain_event.go:306-333 | the aligned time is exactly the greatest bucket start not after the time |
| Intervals.AlignIdempotent | app-rebuild/internal/repository/chain_event.go:306-333 | aligning twice changes nothing |
| Intervals.AlignMonotone | app-rebuild/internal/repository/chain_event.go:306-333 | a later time is never aligned to an earlier bucket |
| Intervals.IntervalsFormAChain | app-rebuild/internal/repository/chain_event.go:286 | every interval of the list divides every later one |
| Intervals.AlignThroughFiner | app-rebuild/internal/repository/chain_event.go:286-288 | aligning to a finer interval first keeps the coarser bucket |
| GoTime.FieldsRoundTrip | apps/indexer/internal/database/events.go:688-726 | a UTC time is re-assembled from its calendar and clock fields |
| GoTime.FieldsUnique | apps/indexer/internal/database/events.go:688-726 | a valid calendar date has only one day, month and year |
| Price.RatioIsNearest | app-rebuild/internal/repository/chain_event.go:342-347 | the stored price is the one multiple of 10^-18 nearest to the ratio, ties away from zero |
| Price.PriceMonotone | app-rebuild/internal/repository/chain_event.go:342-347 | a larger exact ratio never gets a smaller stored price |
| ChainEvents.Tx.InsertChainEvents | app-rebuild/internal/repository/chain_event.go:116-138 | the log loop inserts exactly the rows whose keys are new |
| ChainEvents.Tx.ApplyTokenCreated | app-rebuild/internal/repository/chain_event.go:168-210 | event row unless present, then token upsert: an existing row keeps mode, target, totals, status and creation time; a new one has the initial values of the event, with mode 1, target 24 * 10^18 and status 1 for unset ones |
| ChainEvents.Tx.ApplyTokenTrade | app-rebuild/internal/repository/chain_event.go:212-260 | event row by trade type, trade row, token totals, and candles only if the trade row is new |
| ChainEvents.Tx.ApplyTokenGraduated | app-rebuild/internal/repository/chain_event.go:262-281 | event row and graduated status |
| ChainEvents.Tx.UpsertTradeKlines | app-rebuild/internal/repository/chain_event.go:283-304 | the loop performs the eight candle upserts |
| ChainEvents.ChainEventRepository.SaveBlockRange | app-rebuild/internal/repository/chain_event.go:110-151 | a range takes effect as a whole or not at all; it fails exactly when a statement, the commit or its acknowledgement fails, and only a lost acknowledgement hides a commit |
| ChainEvents.ChainEventRepository.LastSyncedBlock | app-rebuild/internal/repository/chain_event.go:93-108 | reports the checkpoint row of the chain and lower-case contract, if there is one |
| ChainIndexer.Indexer.DecodeProjections | app-rebuild/internal/chainindexer/indexer.go:119-144 | decoding with the header cache equals the in-order filter-and-map without it, and fails exactly when a header was refused or a log cannot be decoded |
| ChainIndexer.EventsAreDecodedLogs | app-rebuild/internal/chainindexer/indexer.go:119-144 | the decoded events are exactly what the logs decode to, skipping removed, topicless and unknown ones |
| LogFields.DecodableExactly | app-rebuild/internal/chainindexer/indexer.go:146-243 | logs decode exactly when each creation, purchase, sale and graduation among them has its topics and values that unpack; others never fail |
| LogFields.BlockTimeReads | app-rebuild/internal/chainindexer/indexer.go:132 | header seconds below 2^63 are counted from 1 January 1970, larger ones are negative |
| LogFields.PriceIsThe | app-rebuild/internal/repository/chain_event.go:342-347 | the price column is 0 without amounts or for no tokens, and else the one multiple of 10^-18 nearest to the ratio |
| ChainIndexer.Indexer.NextBlock | app-rebuild/internal/chainindexer/indexer.go:82-91 | resume after the checkpoint, or at the start block |
| ChainIndexer.Indexer.SyncAvailable | app-rebuild/internal/chainindexer/indexer.go:93-117 | saved ranges tile the blocks from the cursor to the reported head in pieces of the batch size, the last one cut at the head; it fails exactly when a call failed or a log up to the head cannot be decoded, and then leaves cursor and tables at the end of a saved piece, at most one lost acknowledgement apart; a lower head changes nothing |
| ChainIndexer.CommitsCompose | app-rebuild/internal/chainindexer/indexer.go:98-115 | how a stretch of blocks is cut into transactions does not matter |
| Common.RangeEndExact | app-rebuild/internal/chainindexer/indexer.go:99-102 | the range is proper exactly when next + batch - 1 fits in 64 bits |
| Common.AllRangesProper | app-rebuild/internal/chainindexer/indexer.go:99-102 | all ranges up to a head are proper exactly when head + batch fits |
| Common.WrappedRangeGoesBack | app-rebuild/internal/chainindexer/indexer.go:99-102 | a concrete wrap-around that ends a range before it begins |
| ChainIndexer.CheckpointAdvancesExactly | app-rebuild/internal/chainindexer/indexer.go:82-115 | after a saved range a process resumes right behind it exactly when range end and cursor fit in 64 bits, and before its first block otherwise |
| Common.LoopCanCycle | app-rebuild/internal/chainindexer/indexer.go:98-115 | a head and batch size near the 64-bit bound with which the loop goes round for ever |
| Replay.SaveRangesCompose | app-rebuild/internal/repository/chain_event.go:110-151 | saving two consecutive ranges equals saving them together, although each saves all logs before all projections |
| Replay.ReplayKeepsCore | app-rebuild/internal/repository/chain_event.go:168-281 | events whose rows are present leave event tables, trades and candles unchanged |
| Exactness.SyncIsARunOfSaves | app-rebuild/internal/chainindexer/indexer.go:93-117 | what one sync call may save is what a sequence of save steps saves |
| Exactness.WholeRunExactness | app-rebuild/internal/chainindexer/indexer.go:60-117 | one process at a time: through any batches, heads, errors, lost acknowledgements, crashes and restarts the tables equal one in-order pass over the blocks up to the checkpoint |
| Exactness.RunsApplyAPrefix | app-rebuild/internal/repository/chain_event.go:110-281 | several interleaved processes and deleted checkpoints: the applied blocks form a prefix, and ledger, event tables, trades and candles equal the single pass over it |
| Exactness.TokensStayRepairable | app-rebuild/internal/repository/chain_event.go:168-281 | in every such run, reading again from any block up to the clean mark to the end makes every token row exact |
| Exactness.RereadToTopIsExact | app-rebuild/internal/repository/chain_event.go:110-281 | a range from at or before the clean mark to the end makes all tables equal the single pass |
| Exactness.ResyncRestoresEverything | app-rebuild/internal/chainindexer/indexer.go:82-117 | after any run, deleting the checkpoint and reading everything again gives exactly the single-pass tables |
| Exactness.RowsOfRun | app-rebuild/internal/repository/chain_event.go:193-281 | in every reachable state each token row is its first creation overlaid with the last write of each kind among the committed ranges, in commit order |
| Exactness.TokensExactPrecisely | app-rebuild/internal/repository/chain_event.go:193-281 | the token table of a reachable state equals the single pass exactly when, for each created token, those last writes are the last ones in chain order |
| Exactness.RereadKeepsTokensExactly | app-rebuild/internal/repository/chain_event.go:242-281 | reading any applied range again keeps an exact token table exactly when the last write of each kind in the range is the last one of all applied blocks |
| Exactness.ShortRereadExactly | app-rebuild/internal/chainindexer/indexer.go:82-117 | the same for a run whose checkpoint is deleted and whose restarted process has read up to some block |
| Rereading.RereadingLagsBehind | app-rebuild/internal/repository/chain_event.go:242-252 | a reachable state of a three-block chain whose token table differs from the single pass |
| TokenRepair.RangeKeepsRepairable | app-rebuild/internal/repository/chain_event.go:168-281 | one committed range moves the clean mark as stated and keeps every row repairable from it |
| TokenRows.TokensAreRowFolds | app-rebuild/internal/repository/chain_event.go:193-207 | the token table is, token by token, the fold of that token's events |
| TokenRows.ExistingRow | app-rebuild/internal/repository/chain_event.go:201-206 | on an existing row any list of events acts through the last write to each group of fields |
| TokenRows.CreatedTokenRow | app-rebuild/internal/repository/chain_event.go:182-207 | a created token carries its first creation overlaid with the last writes of all its events |
| TokenRows.RereadRestoresRow | app-rebuild/internal/repository/chain_event.go:242-281 | reading all events of a token twice restores its row exactly when events before the creation wrote nothing that is not written again |
| TokenRows.RereadKeepsRowExactly | app-rebuild/internal/repository/chain_event.go:242-281 | reading any stretch of a token's events again keeps its row exactly when the last write of each kind in it is the last one of all |
| TokenRows.StatusOnlyAdvances | app-rebuild/internal/repository/chain_event.go:262-281 | under any list of events a status goes from 1 to 3 and stays, and becomes 3 only by a graduation |
| ReadModels.StatusOfRun | app-rebuild/internal/repository/chain_event.go:193-207 | over any run a token row stays and its status never goes back |
| ReadModels.TablesOfRun | app-rebuild/internal/repository/chain_event.go:110-281 | in every reachable state each event of the applied blocks has its row in its own event table, no event table and no raw ledger has any other row, and trades agree with trade events |
| LogRows.TablesFromLogs | app-rebuild/internal/chainindexer/indexer.go:146-243 | in every reachable state each log of the applied blocks has its rows, with every column read off its topics, unpacked values, block and header (a sale names tokens before coins), and no row of event tables, trades or ledger is without its log |
| LogRows.CheckpointOfRun | app-rebuild/internal/repository/chain_event.go:142-147 | there is at most the checkpoint row of the chain and lower-case contract; with one process at a time it is the last applied block |
| LogCandles.CandlesFromLogs | app-rebuild/internal/repository/chain_event.go:283-304 | in every reachable state a candle exists exactly for each token and bucket with a trade log, with the first, highest, lowest and last price of these logs in chain order and the tokens they traded |
| TokenHistory.TokenRowsFromLogs | app-rebuild/internal/repository/chain_event.go:168-281 | if the logs of each token start with its creation: in every reachable state each created token has mode 1, target 24 * 10^18, the time of its first creation, the identity of the last creation read, the totals of the last trade read or 0, status 3 exactly after a graduation, and the time of the last log read |
| TokenHistory.ReadInOrder | app-rebuild/internal/chainindexer/indexer.go:82-117 | one process at a time reads the logs of the applied blocks once and in chain order |
| TokenHistory.CreatedFirstInLogs | app-rebuild/internal/repository/chain_event.go:168-281 | if a token's logs start with its creation, so do its decoded events |
| ReadModels.TradesStayInAgreement | app-rebuild/internal/repository/chain_event.go:212-241 | trades are exactly bought events tagged 10 plus sold events tagged 20, row by row |
| ReadModels.CandlesOfRun | app-rebuild/internal/repository/chain_event.go:212-304 | in every reachable state candles summarise the trades of the applied blocks and roll up |
| ReadModels.FiguresOfRun | app-rebuild/internal/repository/chain_event.go:212-304 | in every reachable state candles are ordered, their high and low are true extremes if no amount is zero, and each interval of a token sums to the traded total |
| Candles.CandlesAreSummaries | app-rebuild/internal/repository/chain_event.go:283-304 | a candle exists exactly for each non-empty bucket and is first, max, min, last price and total amount of its trades in insertion order |
| Candles.CandleIsOrdered | app-rebuild/internal/repository/chain_event.go:283-304 | open and close lie between low and high |
| Candles.ExtremesAreTrue | app-rebuild/internal/repository/chain_event.go:342-347 | without zero amounts there are truly dearest and cheapest trades, and high and low are their rounded prices |
| RollUp.CandlesRollUp | app-rebuild/internal/repository/chain_event.go:283-333 | high, low and volume of every coarser candle are those of the finer candles inside it |
| RollUp.CandleEndsRollUp | app-rebuild/internal/repository/chain_event.go:283-333 | with block times that do not go back, every coarser candle has a first and a last finer candle, and open and close are theirs |
| RollUp.EveryIntervalSumsToTotal | app-rebuild/internal/repository/chain_event.go:283-304 | the candles of each interval of a token sum to its total traded amount |
| KlinePages.KlineModel.FindByTokenAndInterval | apps/api/internal/model/kline.go:37-86 | clamped limit, strictly-before filter regardless of the case of addresses, descending order, nothing newer left out; fails exactly when the database does |
| KlinePages.GetKlineHistoryWithCursor | apps/api/internal/logic/kline/logic.go:28-118 | 400 exactly for missing or unknown arguments and 500 exactly for a database failure; otherwise the page oldest first, column by column, with the cursor of its earliest candle |
| KlinePages.CursorRoundTrip | apps/api/internal/logic/kline/logic.go:55-101 | a candle time survives the text cursor exactly for years 0 to 9999 |
| KlinePages.NamesGiveLengths | apps/api/internal/logic/kline/logic.go:28-45 | exactly eight interval names are known, and the number and unit of each are the length of its buckets |
| KlineWalks.WalkEnds | apps/api/internal/logic/kline/logic.go:46-102 | following readable cursors takes at most the requests the number of candles and the limit imply, finished or not, exactly as many when no two candles open together, although candles at or after the cursor change meanwhile |
| KlineWalks.WalkCollects | apps/api/internal/logic/kline/logic.go:46-102 | a finished walk collects each candle before its first cursor once, newest first, except exactly those that a page cut off from one opening at the same time |
| KlineWalks.ReadableTableIsPaged | apps/api/internal/logic/kline/logic.go:46-102 | over candles of whole seconds in the years 0 to 9999 walks are bounded and collect exactly what no page cut off |
| KlineWalks.WalkIsCompleteExactly | apps/api/internal/model/kline.go:45-61 | a finished walk collects all candles exactly when groups of the limit's size, from the newest candle on, part none that open together |
| KlineWalks.WalkCollectsEverything | apps/api/internal/model/kline.go:45-61 | for a table that changes at or after the cursor: without candles that open together every finished walk collects exactly all of them |
| KlineWalks.PagesShowCollected | apps/api/internal/logic/kline/logic.go:80-93 | the pages put together oldest first show the collected candles with the figures of the first table |
| PagingLimits.ShowsAllPerLimit | apps/api/internal/logic/kline/logic.go:46-102 | for one limit, every finished walk over a fixed table shows all candles exactly when the groups of that size part no ties |
| PagingLimits.ShowsAllExactly | apps/api/internal/logic/kline/logic.go:46-102 | for every limit they show all candles exactly when no two open together |
| PagingLimits.TieIsMissed | apps/api/internal/model/kline.go:45-61 | a concrete walk that misses a candle stored under another spelling |
| PagingLimits.PagingEndsExactly | apps/api/internal/logic/kline/logic.go:46-102 | over a fixed table the number of requests is bounded exactly when no candle lies before year 0 and those beyond the year 9999 are fewer than the limit and not all |
| PagingLimits.UnreadableRepeats | apps/api/internal/logic/kline/logic.go:55-66 | a candle of the year 10000 makes the first page come back any number of times |
| ServedCandles.CandleTablesCanBePaged | app-rebuild/internal/repository/chain_event.go:283-304 | tables kept by the rebuilt indexer have lower-case keys, whole-second times and no candles of a token that open together |
| ServedCandles.ServedCandlesAreExact | apps/api/internal/logic/kline/logic.go:46-102 | in every reachable state of the indexer, following the cursors to the end shows exactly the candles of the applied trades, each once and in order, with their figures |
| SignInText.MessageIsUnambiguous | app-rebuild/internal/auth/service.go:79-83 | two challenges that pass validation have the same text exactly when they agree on every field, times to the second |
| SignInText.FormatTimeInjective | app-rebuild/internal/auth/service.go:80-82 | equal RFC 3339 texts are exactly equal times to the second |
| SignInReading.MessageReadsBack | app-rebuild/internal/auth/service.go:79-83 | the text of a challenge that passes validation splits into its eleven lines and reads back as all its fields, times to the second |
| SignInReading.TimeReads | app-rebuild/internal/auth/service.go:80-82 | the RFC 3339 text of a time reads back as its whole second, whatever the year |
| SignInReading.LeapDayText | app-rebuild/internal/auth/service.go:80-82 | the text of one time in full |
| SignInText.NormalizeExactly | app-rebuild/internal/auth/service.go:183-188 | exactly 40 hexadecimal digits, bare or after 0x or 0X, are an address, written with 0x and its own casing |
| SignInText.SameAddressExactly | app-rebuild/internal/auth/service.go:183-188 | two spellings are one address exactly when their digits agree up to case |
| SignInText.NormalizedIsOneLine | app-rebuild/internal/auth/service.go:183-188 | normalised addresses contain no line break |
| ChallengeStore.MemoryChallengeStore.Save | app-rebuild/internal/auth/memory_store.go:18-23 | replaces the entry of the address |
| ChallengeStore.MemoryChallengeStore.Get | app-rebuild/internal/auth/memory_store.go:25-33 | returns the entry unless it is missing or expired |
| ChallengeStore.MemoryChallengeStore.Delete | app-rebuild/internal/auth/memory_store.go:35-44 | removes a live entry, and fails without any change otherwise |
| ChallengeStore.LazyIsEagerExactly | app-rebuild/internal/auth/memory_store.go:18-44 | for given times the store that never evicts answers every sequence of calls like one that drops expired entries at once exactly when the times ascend from the second call on |
| ChallengeStore.GoingBackDiffers | app-rebuild/internal/auth/memory_store.go:25-33 | whenever the clock goes back after the second call, some calls tell the two apart |
| SignIn.Service.RequestMessage | app-rebuild/internal/auth/service.go:105-126 | stores a five-minute challenge for the normalised address and returns its text, nonce and expiry; without a valid address or random bytes it stores nothing |
| SignIn.Service.Login | app-rebuild/internal/auth/service.go:128-158 | a login succeeds exactly when the stored challenge of its address passes each check of the validation, the signature covers its text and it is alive when deleted; it then removes that challenge, and a refused login changes nothing |
| SignIn.RequestThenLogin | app-rebuild/internal/auth/service.go:105-158 | requesting and then logging in, in any spelling of the address, succeeds exactly when the configuration is well-formed, the nonce has eight letters or digits, the signature covers the returned text, and it happens within 300 seconds |
| SignIn.LoginTwice | app-rebuild/internal/auth/service.go:128-158 | a second login without a new request is refused |
| SignIn.ChallengesAreConserved | app-rebuild/internal/auth/service.go:105-174 | under any interleaving, consumed logins plus one while a challenge is stored never exceed saved challenges |
| SignIn.NoChallengeConsumedTwice | app-rebuild/internal/auth/service.go:128-174 | no saved challenge is consumed by two logins |
| SignIn.SecondUseNeedsNewSave | app-rebuild/internal/auth/service.go:128-174 | of two logins that verified one challenge the later one deleted a newer challenge |
| SignIn.ConsumptionsAreEarned | app-rebuild/internal/auth/service.go:128-174 | under any interleaving each consumption has one login that read a live challenge, was then accepted, not rejected, and then deleted a live challenge, both of its address |
| SignIn.ConsumesWhatItVerified | app-rebuild/internal/auth/service.go:133-145 | a login consumes the challenge it verified exactly when no newer one was saved |
| SignIn.RequestInBetween | app-rebuild/internal/auth/service.go:105-145 | a concrete interleaving in which a login consumes the newer challenge |
| BatchScheduler.HistorySync.OnTick | apps/indexer/internal/indexer/indexer.go:121-188 | one tick of the loop on batch size, counter, cursor and checkpoint |
| BatchScheduler.ConfiguredIsTheCeiling | apps/indexer/internal/indexer/indexer.go:139-147 | the size never exceeds the configured one exactly when at least ten is configured |
| BatchScheduler.NextKeepsBounds | apps/indexer/internal/indexer/indexer.go:139-173 | the size stays between the smaller and the larger of ten and the configured size |
| BatchScheduler.BackOffIsLogarithmic | apps/indexer/internal/indexer/indexer.go:134-147 | a node that accepts ranges of a given size rejects at most ceil(log2(configured / size)) times between cursor advances |
| BatchScheduler.BackOffIsExact | apps/indexer/internal/indexer/indexer.go:121-162 | while nothing succeeds, n rejections leave the size divided by 2^n but at least ten and the counter 0, and other errors change nothing |
| BatchScheduler.SizeRecovers | apps/indexer/internal/indexer/indexer.go:164-173 | from every reachable state and without rejections the size doubles with every ten successes up to the configured one, which is back after at most 10 * ceil(log2(configured / size)) successes |
| BatchScheduler.GrowthNeedsTenSuccesses | apps/indexer/internal/indexer/indexer.go:164-173 | whenever the size grows, at least ten ranges succeeded since it last changed |
| BatchScheduler.NoBlockSkipped | apps/indexer/internal/indexer/indexer.go:76-190 | over ticks and restarts with failing checkpoint reads and writes, ranges tile the current run and everything up to cursor and checkpoint was scanned |
| BatchScheduler.TickNeverLeads | apps/indexer/internal/indexer/indexer.go:175-188 | a tick never makes the checkpoint lead the cursor |
| BatchScheduler.RestartLeadsExactly | apps/indexer/internal/indexer/indexer.go:76-99 | a restart makes it lead exactly when the checkpoint is not read or reads as 0, and is not before the start block |
| BatchScheduler.CheckpointCanLead | apps/indexer/internal/indexer/indexer.go:76-99 | a reachable history in which the checkpoint leads the cursor |
| BatchScheduler.CheckpointNeverLeads | apps/indexer/internal/indexer/indexer.go:76-190 | with a positive start block and successful reads the checkpoint never leads the cursor |
| AbiLayout.DecodeAfterEncode | app-rebuild/internal/tokencreation/service.go:163-176 | decoding the encoding returns all fifteen fields, any vesting list included |
| AbiLayout.EncodeInjective | app-rebuild/internal/tokencreation/service.go:163-176 | the encoding determines the parameters |
| AbiLayout.OffsetsAreFixed | apps/api/internal/service/crypto/signer.go:302-333 | outer offset 32, name offset exactly 480, symbol offset 512 plus the padded name length |
| AbiLayout.FieldsInPlace | app-rebuild/internal/tokencreation/service.go:163-176 | each of the twelve fixed fields is at its place of the head, in the order of the tuple |
| AbiLayout.DynamicsInPlace | app-rebuild/internal/tokencreation/service.go:163-176 | name, symbol and vesting list follow each other where the three offsets say, each with its length, the strings padded with zeros, the vesting entries field by field, and nothing after them |
| AbiLayout.PaddingIsLeast | app-rebuild/internal/tokencreation/service.go:163-176 | padding goes up to the next multiple of 32 and not further |
| AbiLayout.SignerAcceptsEncodings | apps/api/internal/service/crypto/signer.go:297-319 | the length and offset checks never refuse an encoding |
| AbiLayout.SymbolWarningExactly | apps/api/internal/service/crypto/signer.go:331-333 | the symbol-offset warning appears exactly for an empty name or one over 480 bytes |
| Preimages.PackForSigning | apps/api/internal/service/crypto/signer.go:359-369 | the buffer is the data, then the chain id up to its sign as a 32-byte number, then the 20 bytes of the contract |
| Preimages.FillBytes | app-rebuild/internal/tokencreation/service.go:193-194 | writes the big-endian digits of the value |
| Bytes.BigEndianDigit | app-rebuild/internal/tokencreation/service.go:193-194 | the k-th byte is the k-th base-256 digit from the left |
| Preimages.SignedPreimageDetermines | apps/api/internal/service/crypto/signer.go:359-369 | the signed bytes determine data, contract and the chain id up to its sign |
| Preimages.SignatureCoversParams | app-rebuild/internal/tokencreation/service.go:121-130 | for valid chain ids the signed bytes determine every parameter, chain and contract |
| Preimages.SignedLayout | app-rebuild/internal/tokencreation/service.go:129 | what is signed by position: data, chain id, contract |
| Preimages.RequestIdDetermines | apps/api/internal/service/crypto/signer.go:582-604 | the request-id bytes determine prefix, creator, timestamp and nonce |
| Preimages.BuildRequestIdPreimage | apps/api/internal/service/crypto/signer.go:582-604 | the appended buffer is the prefix, then the creator, then timestamp and nonce as 32-byte numbers |
| Preimages.SaltLayout | app-rebuild/internal/tokencreation/service.go:178-182 | the salt bytes by position: name, symbol, supply, core contract, timestamp, nonce |
| Preimages.SaltDetermines | app-rebuild/internal/tokencreation/service.go:178-182 | the salt bytes determine everything except where the name ends and the symbol begins |
| Preimages.SaltIgnoresTheBorder | app-rebuild/internal/tokencreation/service.go:178-182 | a concrete pair of names and symbols with one salt |
| Preimages.FillVesting | apps/api/internal/service/crypto/signer.go:150-172 | the indexed loop copies every entry field by field and turns nil amounts into 0 |

## Left out

- Chain reorganisations: the code skips removed logs but does not undo projections, so the chain is final here.
- Statements of two transactions interleaving: PostgreSQL transactions are atomic steps.
- Column limits (`NUMERIC(78, 18)`, `VARCHAR`, `BIGINT`): a value that does not fit is one of the ways a statement is refused.
- Serial ids and `NOW()` columns.
- ChainIndexer.Indexer.SyncAvailable: assumes that head plus batch size and head plus one fit in 64 bits; beyond that an iteration takes the cursor back (`CheckpointAdvancesExactly`) and the loop need not end (`LoopCanCycle`).
- A connection that breaks while candle rows are read: the code takes the rows read so far for the whole page.
- ABI unpacking of event data and the cutting of addresses out of topics: functions of the ABI record that may fail.
- `VerifyChain`, tickers, logging, gRPC and REST handlers, configuration loading, JWT and user storage.
- Keccak, ECDSA and Ed25519: only the bytes that go into them; signature recovery is a predicate.
- The unknown-interval branches of the alignment functions, which no caller reaches.
- Times in zones other than UTC, and fractional seconds or offsets in a cursor a client makes up, which are read by an unspecified function.
- Base64 of the cursor: any pair of functions where decoding inverts encoding.
- The Redis challenge store, whose expiry is the server's.
- Persistence of the older indexer, which groups events by type and only logs failures: just its loop and its alignment are here.
- The guess of the signer that launch times above 10^10 are milliseconds.
- A negative `BlockBatchSize` of the older indexer.
- Negative amounts in the ABI tuple: amounts are 256-bit unsigned values.
