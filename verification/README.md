# A verified model of oast-go

oast-go receives out-of-band callbacks (DNS queries and HTTP requests), attributes each one to a zone and a
token, queues it on an event bus, and keeps it in one of two stores for the dashboard. This project models
that path in Dafny and proves what it keeps, what it loses, and when its two backends agree.

- **Stores.** `MemoryStores` is the memory backend as a class: a primary map, a doubly linked order list,
  a linked list per token and two maps from ids to list elements, updated in place (`LinkedLists`,
  `StoreIndexes`). `SqliteStores` is the SQLite backend, where each SQL statement is its meaning on the rows
  in id order. `CapRule`, `Arrivals` and `Queries` say what insertion, retention and listing mean on plain
  sequences; `StoreRuns` treats whole runs and compares the two backends. `Accounts` holds the exact-inverse
  rule of the secondary indexes.
- **Bus.** `EventBus` is the bus as a step system (any number of workers, any interleaving), `BusShutdown`
  proves what shutdown does, `BusLoss` that its loss bound is attained, `BusDelivery` what can and what must
  reach the store, `EndToEnd` what the store holds after any run, and `BusProcess` is the same bus as an object
  that calls the memory store: its invariant says that the steps taken so far are a run of the step system and
  that the store holds what that run stored.
- **Attribution.** `Names`, `DomainManager` (the zone trie as mutable nodes), `Tokens`, `TokenStreams` (how
  many streams of random bytes lead to a token) and `Attribution`. The zone search is the nearest-ancestor
  zone of section 4.3.2 of RFC 1034; case folding follows RFC 4343.
- **Dashboard and login limiter.** `Dashboards` (what a visitor is shown), `Grouping` and `LoginLimiter`.

Where the code and its comments differ, the model follows the code:

- The alphabet has 31 symbols, so bytes from 248 on are rejected (`internal/token/token.go:14-16` says 32).
- The drain loop leaves without a flush at the closed channel (`internal/interaction/bus.go:150-151`), and a
  flush after cancellation passes the cancelled context, which both stores refuse. `Stop` is said to let the
  workers drain (`bus.go:94-95`); `ShutdownIsLossless` gives the exact condition under which nothing is lost
  and `StopLosesAnEvent` a run that loses an event.
- `Total()` counts stored events, not submitted ones (`bus.go:91-92`).
- SQLite's caps are said to mirror the memory backend (`internal/storage/sqlite.go:761-762`), but they skip the
  empty token; `BackendsAgreeExactly` and `BackendsDisagreeOnUntokened` say when that shows in one batch,
  `BackendsAgree` when it does in a run.
- `Get` keys keep a trailing dot that the trie drops; `LookupsAgreeExactly` and `LookupsDisagreeOnDot`.
- Retention stops at the first row that is not old (`internal/storage/memory.go:801-803`); rows that bring their
  own earlier time can stay behind it: `DropOldIsComplete` and `DropOldMissesBackdated`.
- Interactions are said to remain visible once their token is deleted (`internal/api/server.go:638-639`). They
  remain stored, but the scope of the listing hides them from everyone: `DeletedTokenHidesRows`.
- A row of the dashboard is said to be one callback (`internal/web/static/index.html:581-582`), but the joined key
  alone does not say so: a bar inside a part of it can merge two (`KeyIsUnambiguous`). For tokens without bars,
  and so for every generated one (`TokensHoldNoBar`), it holds of what the collectors record: query types without
  bars, and requests whose method has no slash (section 5.6.2 of RFC 9110) while their path starts with one
  (`RecordedKeysTell`). A method with a slash would break it (`SlashInMethodCollides`).
- A limit above 500 silently becomes 50, so stepping by such a limit leaves gaps: `PagesTile`.

Time is an integer number of nanoseconds since the zero instant. Clock readings, random bytes and the choice
of the next goroutine are parameters. An operation over a map ranged in arbitrary order picks its elements
arbitrarily.

## Model

| member | source | states |
|---|---|---|
| CapRule.BatchingIrrelevant | internal/storage/memory.go:549-607 | any split of the arrivals into batches leaves the newest maxPerToken of each token and of those the newest maxInteractions |
| CapRule.AddBatchIsCapRule | internal/storage/memory.go:561-606 | incremental per-item eviction plus one global trim equals the cap rule applied to old rows and arrivals together |
| CapRule.AddBatchKeeps | internal/storage/memory.go:587-605 | after a batch both caps hold, ids still grow, and no row appears that was not there or in the batch |
| CapRule.CappedIsNewestPerToken | internal/storage/memory.go:587-594 | the survivors are, in order, exactly the rows among the newest maxPerToken of their own token |
| CapRule.CappedOfToken | internal/storage/memory.go:587-594 | per token: a capped token keeps its newest rows, an uncapped one all rows |
| CapRule.EvictOldestIsCapped | internal/storage/memory.go:588-593 | evicting the front of one over-full token list is the cap rule |
| CapRule.GlobalCapAbsorbs | internal/storage/memory.go:598-605 | trimming to the global cap early never changes what the global cap keeps later |
| StoreRuns.CallsAreOneCall | internal/storage/memory.go:549-607 | a run of AddInteractions calls equals one call with all arrivals: same rows, ids, times and counter |
| StoreRuns.MemoryRunKeepsSound | internal/storage/memory.go:549-631 | over every run of adds, deletions, retention and foreign ids: increasing ids and both caps |
| LinkedLists.LinkedList.PushBack | internal/storage/memory.go:575-585 | appends one new element behind the list, links intact both ways |
| LinkedLists.LinkedList.Remove | internal/storage/memory.go:617-628 | unlinks just the given element |
| StoreIndexes.IndexedAfterRemoval | internal/storage/memory.go:621-630 | removing a row keeps each token list equal to the order filtered to its token, with no empty list left |
| StoreIndexes.IndexedAfterAppend | internal/storage/memory.go:578-585 | adding a row keeps the token lists and element map exact |
| StoreIndexes.LeftAfterEviction | internal/storage/memory.go:616-616 | the primary map without the id is the primary map of the remaining rows |
| MemoryStores.MemoryStore.AddInteractions | internal/storage/memory.go:549-607 | refuses a cancelled context, else leaves AddBatch of the old rows, all five structures describing that one sequence, and both caps hold if they held before |
| MemoryStores.MemoryStore.EvictOne | internal/storage/memory.go:611-631 | removes exactly the row with the id from every structure, nothing if absent |
| MemoryStores.MemoryStore.DeleteInteraction | internal/storage/memory.go:781-789 | deletes exactly that row, NotFound exactly when no row has the id, caps kept |
| MemoryStores.MemoryStore.DeleteOldInteractions | internal/storage/memory.go:804-826 | terminates (the stale branch is unreachable) and leaves DropOld of the rows with the count removed, caps kept |
| MemoryStores.MemoryStore.CountInteractionsByToken | internal/storage/memory.go:791-799 | the token list length is the number of rows of the token |
| MemoryStores.MemoryStore.GetInteraction | internal/storage/memory.go:633-642 | finds the stored row with the id exactly when there is one |
| MemoryStores.MemoryStore.ListInteractions | internal/storage/memory.go:646-779 | all three paths return the page of the listing over the one row sequence and the count of all matches |
| MemoryStores.MemoryStore.WalkBack | internal/storage/memory.go:733-776 | walking a list from its back yields the page and total of the filter over its rows, newest first |
| MemoryStores.MemoryStore.Gather | internal/storage/memory.go:699-714 | merges the lists of the scope tokens, each row once, however often a token is repeated |
| MemoryStores.MemoryStore.InteractionStatsByTokens | internal/storage/memory.go:969-1007 | the counters and recent rows of the filter by scope |
| MemoryStores.MemoryStore.constructor | internal/storage/memory.go:141-172 | an empty store in which every structure agrees; a positive limit is used as given, any other is replaced by the stated default |
| Arrivals.StampOne | internal/storage/memory.go:563-573 | a stored event is the event but for its id, its body, cut to the limit only if longer, and its time, replaced by the clock only if zero |
| Arrivals.DropOldIsPrefix | internal/storage/memory.go:808-824 | retention drops the longest prefix of old rows |
| Arrivals.DropOldIsComplete | internal/storage/memory.go:801-824 | retention removes every old row exactly when no old row stands behind one that is not old |
| Arrivals.DropOldMissesBackdated | internal/storage/memory.go:819-821 | an event with its own earlier time outlives its cutoff |
| StoreRuns.StampedRunsAreChronological | internal/storage/memory.go:568-572 | with zero arrival times and a clock that does not run back, retention is complete and scoped listings are newest first by arrival, after any run |
| Queries.ScopedListingIsFilter | internal/storage/memory.go:698-732 | the scoped listing holds exactly the matching rows, sorted by time and id, as many as the filter selects |
| Queries.GatherSortFilter | internal/storage/memory.go:699-731 | merge, de-duplicate, sort and filter gives the same list as filtering first |
| Queries.ListingInFields | internal/storage/memory.go:660-748 | field by field: a row is listed exactly when it has the scope, token, type, address, zone and time range asked for; with a scope by descending time and id, without one by descending id |
| Queries.RecentFirst | internal/storage/memory.go:715-720 | the sort by recency puts the latest first, and of rows of one time the one with the greater id |
| Queries.PageInNumbers | internal/storage/memory.go:650-653 | a page holds what is asked for up to 500, else 50, from the offset on, where a negative offset counts as none |
| Queries.OrdersCoincide | internal/storage/memory.go:715-720 | listing by time equals SQLite's listing by id exactly when the matches are in time order |
| StoreIndexes.SingleToken | internal/storage/memory.go:733-748 | the single-token path sees the same matches as the walk over all rows |
| Queries.PagesTile | internal/storage/memory.go:650-653 | pages at offsets 0, limit, 2 limit and so on concatenate to the listing exactly when the limit is at most 500 or 50 rows hold everything |
| Queries.TotalIgnoresPaging | internal/storage/memory.go:719-731 | every page reports the length of the whole listing as total |
| Queries.StatsAgreeWithListing | internal/storage/memory.go:969-1007 | statistics equal the listing totals of the same scope, overall and per type, and recent is the head of the listing when times do not run back |
| Queries.StatsInFields | internal/storage/memory.go:989-1006 | the counters count the rows, those of type dns and those of type http; recent holds the last ten, newest first |
| Queries.StatsAreScoped | internal/storage/memory.go:973-988 | statistics of a scope are those of exactly the rows whose token is in it |
| Sorting.SortedUnique | internal/storage/memory.go:715-720 | a strict order admits one sorted sequence, so the sorting algorithm is irrelevant |
| SqliteStores.SqliteStore.AddInteractions | internal/storage/sqlite.go:714-759 | refuses a cancelled context, else leaves the table that capping the touched tokens and then the table gives |
| SqliteStores.SqliteStore.EnforceCaps | internal/storage/sqlite.go:763-790 | the same table whatever order the touched tokens come in |
| SqliteStores.DeleteBeyondIsCapped | internal/storage/sqlite.go:771-774 | the threshold DELETE leaves the newest rows of that token and all others |
| SqliteStores.SqliteStore.ListInteractions | internal/storage/sqlite.go:804-870 | newest first, exactly the matches with at least offset and fewer than offset plus limit newer matches; the memory store's total, and its page when unscoped or in time order |
| Queries.PageByRank | internal/storage/sqlite.go:854-856 | a page cut out of the selected rows by id holds exactly those whose rank is on it |
| SqliteStores.SqliteStore.InteractionStatsByTokens | internal/storage/sqlite.go:894-933 | the counters and recent rows that the memory store reports |
| SqliteStores.SqliteStore.CreateToken | internal/storage/sqlite.go:549-578 | refuses an empty or used value, else stores the token under a new key, values stay unique |
| SqliteStores.SqliteStore.GetTokenByValue | internal/storage/sqlite.go:588-594 | finds a live token with the value exactly when there is one |
| SqliteStores.SqliteStore.ListTokensByUser | internal/storage/sqlite.go:596-616 | exactly the live tokens of the user, each once, newest first and then by id |
| SqliteStores.SqliteStore.DeleteInteraction | internal/storage/sqlite.go:872-881 | deletes exactly that row, NotFound exactly when no row has the id |
| SqliteStores.SqliteStore.DeleteOldInteractions | internal/storage/sqlite.go:935-945 | no old row is left and no other is lost; the memory store leaves the same rows exactly when no old row stands behind one that is not old |
| StoreRuns.SweptIsSqlStep | internal/storage/sqlite.go:935-945 | rows in id order with those members are the retention step of the run model |
| StoreRuns.BackendsAgree | internal/storage/sqlite.go:761-790 | over every run of adds, deletions and retention: the backends hold the same rows up to ids after every operation exactly when untokened rows are harmless at each add and no old row hides at each retention |
| StoreRuns.AgreeInFields | internal/storage/sqlite.go:761-762 | agreement means the same number of rows, and at each place the same row but for its id |
| StoreRuns.TokenedRunsAgree | internal/storage/sqlite.go:761-790 | that condition holds throughout when every arrival carries a token and is stamped by a clock that does not run back |
| StoreRuns.BackendsAgreeExactly | internal/storage/sqlite.go:750-752 | one batch leaves the same rows exactly when untokened rows stay within the cap or newer rows fill the store; else SQLite exceeds the cap |
| StoreRuns.BackendsAgreeBeyondCap | internal/storage/sqlite.go:750-789 | the same condition around a given surplus untokened row |
| StoreRuns.BackendsDisagreeOnUntokened | internal/storage/sqlite.go:750-752 | two untokened events under a cap of one separate the backends |
| MemoryStores.MemoryStore.CreateUser | internal/storage/memory.go:184-216 | validation and conflicts exactly as the records demand, else the new record under a new id with both indexes exact |
| MemoryStores.MemoryStore.UpdateUser | internal/storage/memory.go:241-274 | renames move both keys, password hash and creation time unchanged, indexes exact |
| MemoryStores.MemoryStore.GetUserByUsername | internal/storage/memory.go:229-239 | finds a live user with the name exactly when there is one |
| MemoryStores.MemoryStore.CreateToken | internal/storage/memory.go:405-425 | refuses an empty or used value, else stores the token under a new id, index exact |
| MemoryStores.MemoryStore.GetTokenByValue | internal/storage/memory.go:438-448 | finds a live token with the value exactly when there is one |
| MemoryStores.MemoryStore.DeleteToken | internal/storage/memory.go:502-512 | removes the token and its key, interactions unchanged |
| MemoryStores.MemoryStore.DeletePurgedTokens | internal/storage/memory.go:529-542 | a token is left exactly when it was there and is not both marked expired and past its expiry by more than the grace; the count, index exact, interactions unchanged |
| MemoryStores.MemoryStore.CreateRefreshToken | internal/storage/memory.go:874-891 | refuses an empty or used hash, else stores the record under a new id, index exact |
| MemoryStores.MemoryStore.GetRefreshTokenByHash | internal/storage/memory.go:893-903 | finds a live record with the hash exactly when there is one |
| MemoryStores.MemoryStore.DeleteExpiredRefreshTokens | internal/storage/memory.go:917-929 | a record is left exactly when it has neither expired nor been revoked for more than 24 hours; the count, index exact |
| Accounts.KeysAreUnique | internal/storage/memory.go:190-197 | no two live records share an indexed key |
| Accounts.ReplaceKeepsIndex | internal/storage/memory.go:258-271 | replacing a record moves its key and keeps the index an exact inverse |
| EventBus.ExactlyOnce | internal/interaction/bus.go:78-164 | in every reachable state each accepted event is in exactly one of channel, live batch, stored, failed flush, abandoned batch; submissions are accepted plus dropped; total counts the stored |
| EventBus.SingleWorkerOrder | internal/interaction/bus.go:111-164 | with one worker: accepted is handed-over, batch and channel in order, shutdown included |
| BusShutdown.ShutdownEnds | internal/interaction/bus.go:96-109 | after Stop a run is no longer than the work left plus two steps per tick |
| BusShutdown.StepProgress | internal/interaction/bus.go:131-163 | after Stop every step but a tick decreases the work left |
| BusShutdown.ShutdownNeverStuck | internal/interaction/bus.go:131-163 | after Stop a worker that has not exited can always move without waiting for the ticker |
| BusShutdown.ShutdownLossBound | internal/interaction/bus.go:94-163 | with a store that never fails and no submission after Stop: empty channel, and unstored at most batch less one event per worker and at most a full channel |
| BusLoss.LossBoundIsTight | internal/interaction/bus.go:94-163 | for every buffer, batch size and number of workers some run loses the lesser of the two |
| BusShutdown.NothingStoredAfterCancel | internal/interaction/bus.go:117-129 | with a store that refuses a cancelled context nothing is stored once the bus is cancelled |
| BusShutdown.ShutdownIsLossless | internal/interaction/bus.go:94-163 | with such a store the loss is what was pending at cancellation, and none exactly when nothing was |
| BusShutdown.StopLosesAnEvent | internal/interaction/bus.go:144-151 | a run of one event and one worker that ends with the event unstored, whatever the store |
| BusDelivery.Deliver | internal/interaction/bus.go:131-143 | a worker in its main loop can bring its batch and everything in the channel to the store, in order, with the next tick: no accepted event is stuck |
| BusDelivery.BatchesAreStored | internal/interaction/bus.go:117-163 | with a store that never fails, every batch held at any moment before Stop is stored once all workers have exited |
| BusDelivery.CancelAloneLosesNothing | internal/interaction/bus.go:144-161 | with such a store and no submission after cancellation, a bus that was cancelled but not closed has stored every accepted event once all workers have exited |
| BusProcess.EventQueue.constructor | internal/interaction/bus.go:37-76 | a valid, empty bus over any valid store: buffer, batch and workers as given when positive, else 4096, 64 and 4 |
| BusProcess.EventQueue.Submit | internal/interaction/bus.go:78-86 | one step of the run: accepts while there is room, else drops and counts |
| BusProcess.EventQueue.Select | internal/interaction/bus.go:131-146 | one choice of the main select is the step of the run that belongs to it: the channel with an event or closed, the ticker, or cancellation |
| BusProcess.EventQueue.Drain | internal/interaction/bus.go:147-161 | one round of the drain loop is one step of the run |
| BusProcess.EventQueue.FlushBatch | internal/interaction/bus.go:117-129 | flushing calls the memory store and is one step of the run, refused exactly when the bus is cancelled; bus and store stay apart, the store still holds what the run stored, and its users, tokens and refresh tokens are out of reach |
| BusProcess.EventQueue.NothingLost | internal/interaction/bus.go:78-164 | of the object, after any calls: exactly once, balanced counters, and store rows equal to the cap rule on what the store held at first and everything stored since |
| BusProcess.EventQueue.InOrder | internal/interaction/bus.go:111-164 | of the object with one worker and no refusal: stored, batch and channel are the accepted events in order |
| EndToEnd.StoreHoldsCapRule | internal/interaction/bus.go:117-146 | from any sound store, for any workers, batch size and ticks, the store holds the cap rule applied to its first rows and everything the bus stored |
| EndToEnd.SingleWorkerEndToEnd | internal/interaction/bus.go:111-146 | with one worker and no refusal that is the accepted events in order, less batch and channel |
| DomainManager.Manager.Add | internal/domain/manager.go:38-56 | the trie and the name map describe the history with the domain added |
| DomainManager.Manager.Resolve | internal/domain/manager.go:71-99 | the trie walk returns the longest configured suffix of the folded and trimmed host |
| DomainManager.Manager.Get | internal/domain/manager.go:102-105 | the newest domain added under the normalized name |
| DomainManager.ZoneIsLongestSuffix | internal/domain/manager.go:58-99 | the zone found is the newest domain of the longest configured suffix, prefix and zone labels make up the host, and none is found exactly when no suffix is configured |
| DomainManager.ResolveIgnoresCase | internal/domain/manager.go:71-73 | hosts that are the same but for ASCII case fall into the same zone with the same labels in front, all folded |
| DomainManager.NewestWins | internal/domain/manager.go:38-47 | adding a domain replaces the entry for its labels and for its name, and no other entry |
| DomainManager.AddedIsFound | internal/domain/manager.go:71-105 | a domain just added is found under its own name in any mix of case, by the trie and by the map |
| DomainManager.LookupsAgreeExactly | internal/domain/manager.go:71-105 | Get and an exact Resolve agree exactly when the newest domain with those labels was added under that spelling |
| DomainManager.LookupsAgreeWithoutDots | internal/domain/manager.go:71-105 | they agree on every name when no name in play ends with a dot |
| DomainManager.LookupsDisagreeOnDot | internal/domain/manager.go:39-46 | a zone configured with a trailing dot is resolved but not found by Get |
| DomainManager.TrieShapeGrows | internal/domain/manager.go:49-56 | a new child keeps the nodes a tree with one node per label sequence |
| Names.SplitJoin | internal/domain/manager.go:118-124 | splitting undoes joining for all labels without dots |
| Names.SameLabels | internal/domain/manager.go:118-124 | names with the same labels differ at most in a trailing dot |
| Names.CaseDoesNotMatter | internal/domain/manager.go:116-116 | names that at each position have the same character, or a capital letter and the one 32 code points above it, normalize alike and have the same labels |
| Names.OnlyCaseDoesNotMatter | internal/domain/manager.go:116-116 | names without blanks around them normalize alike exactly when they are such variants |
| Names.BlanksAroundDoNotMatter | internal/domain/manager.go:116-116 | blanks at either end, and no others, are removed |
| Names.OneDotIsTrimmed | internal/domain/manager.go:118-122 | one dot at the end is removed and no more; the empty name and the lone dot have no labels |
| Tokens.MatchToken | internal/token/token.go:87-111 | the token is the label at the chosen position and the data is the rest in order |
| Tokens.TokenIndexExact | internal/token/token.go:94-103 | a label is chosen exactly when it is registered and none nearer the zone is, or stands at the zone and nothing is registered |
| Attribution.StripPortUndoes | pkg/httpserver/server.go:224-244 | stripping undoes appending a port to a name or a bracketed IPv6 literal, and leaves either alone without one |
| Attribution.Collect | pkg/dns/server.go:131-140 | a host's zone, token and data, through the trie |
| Attribution.CollectRequest | pkg/httpserver/server.go:124-135 | the same for a request, whose host is its Host header or else its peer |
| Attribution.AttributionRoundTrip | pkg/dns/server.go:131-140 | data labels, token and zone joined into a host come back in order, in the DNS form and the HTTP form alike |
| Attribution.CaseOfHostDoesNotMatter | pkg/dns/server.go:131-140 | hosts that are the same but for case are attributed alike |
| Attribution.ZoneHasNoToken | pkg/dns/server.go:131-140 | a host that is a zone itself has no token and no data |
| Attribution.OutsideEveryZone | pkg/dns/server.go:131-133 | a host none of whose suffixes is a zone is attributed to none |
| Attribution.PeerStandsIn | pkg/httpserver/server.go:124-127 | an empty Host header, or one that is only a port, gives way to the peer without its port |
| Tokens.Generate | internal/token/token.go:25-46 | the symbols of the first accepted byte at each position, a valid token whenever there is one |
| Tokens.Validate | internal/token/token.go:50-61 | accepts exactly eight symbols of the alphabet |
| Tokens.TokensInCharacters | internal/token/token.go:14-21 | a token is eight characters, each a digit from 2 to 9 or a small letter other than i, l and o |
| Tokens.TokenWithoutRedraw | internal/token/token.go:35-43 | eight bytes below 248 make a token by themselves: at each position the symbol at the byte modulo 31 |
| Tokens.TokenAfterRedraw | internal/token/token.go:37-42 | the first byte from 248 on is replaced by the next random byte, without which there is no token |
| Tokens.SymbolsAreUniform | internal/token/token.go:26-43 | for every alphabet of 1 to 256 symbols each symbol is hit by equally many accepted bytes |
| Tokens.TokensAreUniform | internal/token/token.go:16-45 | every token comes from exactly 8 to the 8th accepted byte tuples |
| TokenStreams.GenerationIsUniform | internal/token/token.go:25-46 | for every stream length, each token is returned for equally many streams of random bytes of that length, redraws included |
| LoginLimiter.Compact | internal/api/server.go:229-235 | the in-place compaction is the filter by time |
| LoginLimiter.Limiter.Prune | internal/api/server.go:228-241 | keeps exactly the failures after the cutoff and leaves other addresses alone |
| LoginLimiter.Limiter.Allow | internal/api/server.go:211-216 | leaves on record exactly the failures less than 300 seconds old, and lets in exactly when they are fewer than ten |
| LoginLimiter.Limiter.Fail | internal/api/server.go:218-226 | records one failure behind exactly those less than 300 seconds old |
| LoginLimiter.Limiter.HandleLogin | internal/api/server.go:376-407 | one login is a run of the window system with at most one handler, with its status code in every branch; 429 exactly when ten failures of the history are less than 300 seconds old |
| LoginLimiter.RefusedExactly | internal/api/server.go:211-216 | after any run with any number of handlers the next one is refused exactly when at least ten failures ever recorded are less than 300 seconds old |
| LoginLimiter.WindowBound | internal/api/server.go:206-241 | with at most K handlers inside, no five-minute window holds more than 9 + K failures, and none of the current window is dropped |
| LoginLimiter.WindowBoundIsTight | internal/api/server.go:387-392 | 9 + K is reached for every positive K |
| Grouping.GroupInteractions | internal/web/static/index.html:586-617 | one row per key in the order of first items, with its events in order, count, least and greatest event by time and id, and every source once with its own hits, sorted by first hit and address |
| Grouping.RowsPartition | internal/web/static/index.html:581-598 | row counts add up to the number of items and every item is in exactly the row of its key |
| Grouping.SourcesPartition | internal/web/static/index.html:599-606 | source hits add up to the count of their row |
| Grouping.RequestsMergedExactly | internal/web/static/index.html:581-589 | two recorded requests with tokens without bars are in one row exactly when token, method and path are the same |
| Grouping.QueriesMergedExactly | internal/web/static/index.html:581-589 | two recorded queries with tokens without bars are in one row exactly when token, query type and query name are the same |
| Grouping.TypesNeverMerged | internal/web/static/index.html:581-589 | a query and a request are never in one row |
| Grouping.RowInFields | internal/web/static/index.html:595-611 | a row shows its last event; first and last are its ends by whole milliseconds and then id |
| Grouping.SourceInFields | internal/web/static/index.html:599-606 | a source counts the events of its address and keeps one of the earliest and one of the latest of them |
| Grouping.SourcesInOrder | internal/web/static/index.html:612-614 | each address is one source, and sources stand by the time of their first hit and then by address |
| Grouping.KeysTellCallbacks | internal/web/static/index.html:589-589 | where type, token and query type or method hold no bar, equal keys mean the same callback |
| Grouping.RecordedKeysTell | internal/web/static/index.html:581-589 | for tokens without bars, equal keys mean the same callback for everything the collectors record, bars in methods and paths included |
| Grouping.KeyIsUnambiguous | internal/web/static/index.html:589-589 | over all texts a key is shared with no other callback exactly when no part of it holds a bar |
| Grouping.SlashInMethodCollides | internal/web/static/index.html:589-589 | a method with a slash gives two different requests one key |
| MemoryStores.MemoryStore.ListTokensByUser | internal/storage/memory.go:450-461 | exactly the live tokens of the user, each once, newest first |
| Dashboards.ListForVisitor | internal/api/server.go:466-504 | the requested page, most recent first, of exactly the matching rows that carry a live token of the visitor, and how many there are |
| Dashboards.ListForVisitorSqlite | internal/api/server.go:466-504 | over SQLite the page by id of the same rows, and how many there are |
| Dashboards.ShownInFields | internal/api/server.go:477-488 | a row is shown exactly when some live token of the visitor has its token value and it meets the token, address and type asked for; a type other than dns and http is no condition |
| Dashboards.OnlyOwnRowsShown | internal/api/server.go:468-470 | a row on either page is stored and carries a live token of the visitor |
| Dashboards.StrangersSeeNothing | internal/api/server.go:469-471 | a visitor without tokens gets no rows and a total of zero on either backend |
| Dashboards.VisitorsAreIsolated | internal/api/server.go:468-479 | no row belongs to two visitors |
| Dashboards.DeletedTokenHidesRows | internal/api/server.go:638-641 | deleting a token hides its rows from every visitor and changes nothing for other rows |
| Dashboards.OwnsInteraction | internal/api/server.go:271-280 | the check by token value gives the answer of the listing's scope |
| Dashboards.OwnsInteractionSqlite | internal/api/server.go:271-280 | the same over SQLite |
| Dashboards.DeleteForVisitor | internal/api/server.go:520-535 | deletes the row when the visitor owns it, else 404 and no row changes; accounts, ids and list objects are untouched either way |
| Dashboards.StatsForVisitor | internal/api/server.go:439-464 | overall and per type counts, and the ten newest, of exactly the visitor's rows, and the number of the visitor's tokens |
| Dashboards.StatsForVisitorSqlite | internal/api/server.go:439-464 | the same over SQLite |

## Left out

- Sockets, HTTP routing, cookies, TLS, DNS wire encoding, logging, configuration, RBAC, sessions and passwords.
- The SQL engine: transactions, failures of single statements, WAL, vacuum and the file-size cap; statements succeed, and times are not cut to milliseconds. SQLite's users, refresh tokens and token status.
- Names.ToLower: ASCII letters only, and IsSpace knows ASCII spaces only; Unicode folding and white space are not modelled.
- LinkedLists.LinkedList.Remove: does not model the owner check and the sentinel of the library list, because every caller passes an element of the list.
- MemoryStores.MemoryStore.ListInteractions: the library sort is an insertion sort here; by Sorting.SortedUnique its result is the only possible one.
- MemoryStores.MemoryStore.DeletePurgedTokens: deletes from local copies of the two maps and assigns them back; under the store's lock no one sees the difference.
- Grouping.GroupInteractions: groups are values updated in an insertion-ordered dictionary, and the locale's order of addresses is a parameter that must order any two addresses that occur.
- Attribution.Collect: takes the set of registered values in place of the store; it stands for the values GetTokenByValue finds, whatever their status.
- Dashboards.StatsForVisitor: the number of active tokens and of domains, and the parsing of query parameters and ids.
- BusProcess.EventQueue.FlushBatch: the store call and the counter update are one step, and a handler's locks are not modelled.
- EndToEnd.SingleWorkerEndToEnd: deletions and retention between flushes are covered by StoreRuns only.
- The drain timeout of Stop, and Submit after Close, which panics.
- Projects, project members, domains, logs, token status changes and the global Stats: further maps of the same shape or plain counters.
- Waiting and fairness: ticks may come at any time and any number of times.
