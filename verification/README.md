# A verified model of the caching HTTP proxy

The proxy accepts HTTP/1.x GET requests in absolute form, rewrites them, forwards them to the
origin server and keeps responses in a shared cache. This project models the parts of it whose
meaning does not depend on sockets, in the form the code has (classes over lists and arrays,
loops, step machines of threads), and proves what they promise:

- **the two cache strategies** of the C++ server: LRU (`LRUCache.dfy`, with its paging theory in
  `LRUPaging.dfy`) and LFU (`LFUCache.dfy`, with its theory over runs in `LFUTheory.dfy`), both
  measured against one textbook cache with hit counters and a clock (`CacheReference.dfy`),
  which is in turn tied to the history of the operations alone (`CacheHistory.dfy`);
- **the request parser and printer**: C strings and `strtok_r` on a mutable buffer
  (`CStrings.dfy`), the header table with dead slots and doubling (`Headers.dfy`), what is
  accepted and printed (`RequestGrammar.dfy`), the accepted lines as texts (`LineForms.dfy`), on
  which texts the code reads outside its strings (`OutOfBounds.dfy`), exactly which inputs it
  accepts (`Acceptance.dfy`), the code that scans, cuts up and prints buffers in place
  (`ProxyParse.dfy`), and why printing and parsing again changes nothing (`Normalisation.dfy`).
  It follows sections 3.1.1, 3.2 and 5.3.2 of RFC 7230;
- **the forwarded request** (`ProxyUtils.dfy`; sections 5.4 and 6.1 of RFC 7230), and how its
  text reads (`Forwarding.dfy`);
- **the thread pool** as a transition system in which every interleaving is a run
  (`ThreadPool.dfy`), that it comes to rest only when every task has been run
  (`PoolProgress.dfy`), when its destructor returns (`PoolShutdown.dfy`), and the first version's
  **linked client queue**, statement by statement over a heap of nodes (`ClientQueue.dfy`), as
  its callers see it (`QueueCalls.dfy`), with its progress (`QueueProgress.dfy`);
- the first version's **byte-budget cache**, a linked list with a minimum search and an eviction
  loop (`ByteBudgetCache.dfy`), and what it evicts over whole runs (`ByteBudgetRecency.dfy`);
- **many handler threads** that find, fetch on a miss and add, over either strategy
  (`ConcurrentProxy.dfy`), and their runs in terms of what was requested and received alone
  (`ProxyRuns.dfy`).

`Sequences.dfy` holds facts about lists, `Options.dfy` the type of values that may be missing.
Every class is proved against a specification function on values, and the theorems are about
those functions over all runs.

## Where code and documentation part

- **LFU placement.** README.md:100-103 promises least-frequently-used eviction. LFUCache.cpp:87-89
  applies `std::next` to the result of the search for the next bucket, which leaves the list when
  nothing is found and otherwise skips the wanted bucket. Already `[Add(u, d), Find(u)]` leaves the
  list (`LFUTheory.FirstHitIsUndefined`), and a run of the code as written is defined exactly when
  nothing is ever hit (`LFUTheory.LiteralIffNeverHits`); every defined run still refines the
  reference cache (`LFUTheory.LiteralRunRefines`). `LFUCache.LFUCache.LiteralFind` is the code as
  written. For the design the documentation promises, the bucket position is a parameter: index
  and buckets agree for *every* position (`LFUCache.LFUCache.FindAt`,
  `LFUTheory.AgreeListsEachOnce`), and the frequency and victim theorems are about the *intended*
  position, the first bucket of at least the next frequency.
- **Host field.** Keys are compared case-sensitively, so a client's `host:` survives beside the new
  `Host:` (`ProxyUtils.LowerCaseHostSurvives`); `ProxyUtils.SingleFieldIff` says exactly when the
  forwarded message has a single one. The code also drops the port: the forwarded field names the
  authority exactly when the request gave no port (`ProxyUtils.HostIsAuthorityIff`).
- **Forwarded headers.** A reader with the same grammar finds in the forwarded text exactly the
  client's other headers, then `Host` and `Connection: close`, exactly when no key has a blank line
  inside (`Forwarding.ForwardedReadsBackIff`). A key can have one: the last header line lacks a
  colon and a line behind the empty one has it (`Forwarding.BlankKeyAccepted`). A colon in every
  header line rules it out (`Forwarding.ColonsKeepKeysPlain`).
- **Shutdown.** ThreadPool.cpp:30-31 stores and notifies `stop` without the mutex. Safety holds in
  every interleaving. Whether the destructor returns depends on the moment `stop` is stored: some
  run ends before it has returned, with a worker asleep whom nobody is going to notify, exactly
  when a worker has checked its condition and not yet fallen asleep while no caller of enqueue
  waits for the mutex that worker holds (`PoolShutdown.HangsIff`; `PoolShutdown.ShutdownCanStall`
  gives a run). A waiting caller gets the mutex when the worker sleeps, and its notification wakes
  it. In every other case the length of every run is bounded in terms of the calls of enqueue made
  in it, and until the destructor has returned somebody can go on
  (`PoolShutdown.DestructorReturns`). A mutex that is free when `stop` is stored is enough
  (`PoolShutdown.FreeMutexIsSafe`). `PoolShutdown.StallIff` is about the weaker, passing state in
  which the owner joins and a worker sleeps.
- **Header lines without a colon.** ParsedHeader_parse (proxy_parse.c:234) looks for the colon
  beyond the end of the line while the loop advances line by line. The model does the same. An
  accepted input is read as a well-formed request exactly when every header line has a colon
  (`RequestGrammar.WellFormedIffColons`); `Normalisation.ColonlessLine` gives the inputs of two
  lines, the first without a colon, and what is made of them. Printing and parsing again is still
  the identity on what was accepted.
- **Reads outside the buffer.** When nothing follows the address (proxy_parse.c:419), or no CRLF
  follows a header's colon and the character behind it (proxy_parse.c:244-246), the code reads
  behind the end of a string. The grammar's result is then `Undefined` and the in-place parser's
  verdict `Outside`, at the point where the code would do so; both are defined for every input.
  `OutOfBounds.UndefinedIff` states the exact condition on the text, `AddressLastLeaves` and
  `LooseColonLeaves` give families of inputs that meet it, and a space behind the address with a
  colon in every header line is enough to stay inside (`OutOfBounds.ColonsStayInside`). The
  condition is about strings: a NUL inside the input ends it, and what lies behind that NUL counts
  as outside (ThreadPoolServer.cpp passes `strlen`, so it never sends one).
- **Eviction under the first version's lock.** `add_cache_element` holds `lock`, a default mutex
  (v1/proxy_server_with_cache.c:373), when it calls `remove_cache_element`, which takes it again
  (line 500). As written the code therefore blocks itself at the first eviction, which is at the
  first element that is accepted and does not fit: the guard `ByteBudgetCache.Evicts`, proved
  exact by `ByteBudgetCache.EvictsIff`. The model goes on as if the inner acquisition succeeded.
- **Ticks of the first version's clock.** `time(NULL)` does not advance between uses in one second.
  Under any clock that never goes back, what is evicted next has the timestamp of the least
  recently used element and is the first such element in the list; so it is the least recently
  used one exactly when no element in front of that one carries the same timestamp
  (`ByteBudgetRecency.EvictsLeastRecentlyUsedIff`). `ByteBudgetRecency.TieEvictsAnother` gives the
  runs of inserts, the first two within one tick, after which another element goes, and
  `ByteBudgetRecency.FullCacheEvictsAnother` fills the budget with them. With a clock that always
  advances, eviction is least recently used (`ByteBudgetRecency.EvictsLeastRecentlyUsed`).

## Model

| member | source | states |
|---|---|---|
| CacheReference.EvictIs | LRUCache.cpp:75-84 | the reference eviction is determined: at most one resident precedes all others in the policy's order |
| CacheHistory.ResidentsTold | LRUCache.cpp:16-52 | over every run each resident holds the bytes of the add that brought it in, whatever was added since, and its hits are the operations that named it after that add |
| CacheHistory.TouchedInOrder | LRUCache.cpp:70-73 | over every run two residents were touched in the order in which operations named them last |
| CacheHistory.RepliesAreAdded | LRUCache.cpp:16-36 | under either strategy, after every run, a find that hits is answered with the bytes of the add since which the URL has been held, and a find that misses with nothing |
| CacheHistory.AddThenFind | LRUCache.cpp:38-52 | after every run, adding an absent URL and finding it gives the added bytes |
| CacheHistory.LRUEvictsByHistory | LRUCache.cpp:75-84 | an add that must evict throws out exactly the resident whose last naming by any operation is longest ago |
| CacheHistory.LFUEvictsByHistory | README.md:100-103 | an add that must evict throws out exactly the resident named least often since it was added, ties by the last naming |
| LRUCache.LRUCache.constructor | LRUCache.cpp:4 | a new cache is valid and empty |
| LRUCache.LRUCache.Find | LRUCache.cpp:16-26 | a hit returns the bytes and moves exactly that element to the front; a miss changes nothing |
| LRUCache.LRUCache.Add | LRUCache.cpp:28-52 | a resident URL keeps its bytes and moves to the front; a new one goes to the front, after the back was evicted if the cache was full |
| LRUCache.LRUCache.Remove | LRUCache.cpp:54-68 | the URL leaves list and index, all others stay in order |
| LRUCache.LRUCache.MoveElementToFront | LRUCache.cpp:70-73 | splicing reorders the list only; the index entries, node handles, stay right |
| LRUCache.LRUCache.EvictBack | LRUCache.cpp:75-84 | the last element leaves list and index together |
| LRUCache.AgreePush | LRUCache.cpp:50-51 | pushing a new node in front and indexing it keeps list and index in agreement |
| LRUCache.AgreeErase | LRUCache.cpp:61-63 | erasing a node and its entry keeps them in agreement and cuts exactly its URL out of the order |
| LRUCache.StepConsistent | LRUCache.cpp:16-84 | every operation keeps the list free of duplicates, equal to the index, and within capacity |
| LRUCache.StepRepresents | LRUCache.cpp:16-84 | one operation refines one step of the clock-stamped reference cache, reply included |
| LRUCache.RunRefinesReference | LRUCache.cpp:16-84 | over every run: same residents and bytes as the reference, list order exactly by decreasing last touch |
| LRUCache.RepliesMatchReference | LRUCache.cpp:16-26 | after every run each reply is the reference cache's reply |
| LRUPaging.StackInclusion | LRUCache.cpp:16-84 | for capacities k <= m and every common run of find, add and remove: the smaller list is a subsequence of the larger, the larger has at least as much room, every hit of the smaller is a hit of the larger |
| LRUPaging.ResidentsAreMostRecent | LRUCache.cpp:16-52 | without remove: a URL is resident exactly when fewer than capacity distinct URLs were touched since its own last touch; the list is ordered by that set; the size is min(capacity, URLs ever touched) |
| LRUPaging.ServedHistory | ThreadPoolServer.cpp:104-127 | find, then add on a miss, touches each requested URL exactly once per request |
| LRUPaging.HitIffReuseDistance | ThreadPoolServer.cpp:104-127 | after every get-or-fetch run a request hits exactly when fewer than capacity distinct other URLs were requested since its last request |
| LRUPaging.MissesAreEmptyFinds | ThreadPoolServer.cpp:107-127 | the counted misses of a request sequence are the finds that return nothing in its run of find and add, and both end in the same state |
| LRUPaging.SinceIs | LRUCache.cpp:70-73 | the recursively defined set is everything requested after the last request for a URL |
| LRUPaging.ServePotential | LRUCache.cpp:16-52 | one request against a set holding the URL: a hit does not raise the potential, a miss lowers it by k-h+1 |
| LRUPaging.StepPotential | LRUCache.cpp:16-52 | one request on both sides: a miss of the list is paid by the potential, a miss of the other cache adds at most k |
| LRUPaging.CompetitiveFrom | LRUCache.cpp:16-84 | the amortised inequality summed over a run from any consistent list and any starting set |
| LRUPaging.Competitive | LRUCache.cpp:16-84 | for every request sequence and every demand cache of h <= k URLs, however clever: (k-h+1) * misses <= k * its misses + k*(k-h+1); for h = k, misses <= k * its misses + k |
| LFUCache.LFUCache.constructor | LFUCache.cpp:5-8 | one empty bucket of frequency 0 |
| LFUCache.LFUCache.BucketAt | LFUCache.cpp:91-94 | a bucket of the wanted frequency is at the position, inserted unless it is there already |
| LFUCache.LFUCache.Splice | LFUCache.cpp:96-97 | the element leaves its bucket for the front of another and is indexed there |
| LFUCache.LFUCache.PruneNode | LFUCache.cpp:99-104 | an emptied bucket leaves the list unless it is the front one |
| LFUCache.LFUCache.Promote | LFUCache.cpp:83-105 | for every position, index and buckets agree afterwards and the buckets are those of the specification |
| LFUCache.LFUCache.IncrementFrequency | LFUCache.cpp:83-105 | raising a frequency at any defined position keeps index/bucket agreement and the stored bytes |
| LFUCache.LFUCache.SearchPlace | LFUCache.cpp:87-88 | the search, without the `std::next` applied to it, yields the first bucket with at least the next frequency |
| LFUCache.LFUCache.FindAt | LFUCache.cpp:23-36 | find with any bucket position: valid afterwards, the bytes returned, the state of the specification |
| LFUCache.LFUCache.Find | LFUCache.cpp:23-36 | find with the intended position |
| LFUCache.LFUCache.LiteralSearch | LFUCache.cpp:87-89 | the search with `std::next` applied to its result: one behind the first bucket of at least the next frequency, or outside the list |
| LFUCache.LFUCache.LiteralFind | LFUCache.cpp:23-36 | find as written: it leaves the list exactly when the URL is resident and the literal position is undefined; otherwise its reply is the specified one and its new state that of find at the literal position |
| LFUCache.LFUCache.AddAt | LFUCache.cpp:38-62 | add with any bucket position |
| LFUCache.LFUCache.Add | LFUCache.cpp:38-62 | add with the intended position: a resident URL is raised and keeps its bytes, a new one goes to the front bucket |
| LFUCache.LFUCache.Remove | LFUCache.cpp:64-81 | the URL leaves its bucket and the index; the bucket stays even if it is empty |
| LFUCache.LFUCache.FirstFilled | LFUCache.cpp:109-113 | the walk to the first non-empty bucket ends inside the list |
| LFUCache.LFUCache.EvictBack | LFUCache.cpp:107-127 | the back of the first non-empty bucket goes, and an emptied bucket behind the front with it |
| LFUCache.MoveElementAgree | LFUCache.cpp:96-97 | moving an element between buckets keeps index and buckets in agreement |
| LFUCache.EraseElementAgree | LFUCache.cpp:73-76 | erasing an element and its entry keeps index and buckets in agreement |
| LFUTheory.AgreeListsEachOnce | LFUCache.cpp:38-127 | whatever the placement did: each indexed URL is listed exactly once, and the index size is the sum of the bucket lengths |
| LFUTheory.MoveStructured | LFUCache.cpp:96-97 | moving a URL to the bucket of its new hit count keeps frequencies ascending, buckets newest first and every resident listed |
| LFUTheory.StepRepresents | LFUCache.cpp:23-127 | with the intended placement one operation refines one step of the counter-and-clock reference, reply included |
| LFUTheory.RunState | LFUCache.cpp:23-127 | every run with the intended placement represents the reference run: bucket frequency equals hits since insertion, each bucket most recently touched first |
| LFUTheory.RepliesMatchReference | LFUCache.cpp:23-36 | after every run each reply is the reference cache's reply |
| LFUTheory.BackIsVictim | LFUCache.cpp:109-117 | the back of the first non-empty bucket is least in (hits, time of last touch) among all residents |
| LFUTheory.EvictedIsLeastFrequent | README.md:100-103 | over every run an add that must evict throws out exactly the resident with the fewest hits since insertion, ties by oldest touch |
| LFUTheory.WithinCapacity | LFUCache.cpp:47-50 | over every run at most capacity URLs are held |
| LFUTheory.RunStructure | LFUCache.cpp:5-8 | over every run: ascending frequencies from a permanent bucket 0, index size equals the sum of the bucket lengths, and without remove at most capacity+1 buckets |
| LFUTheory.LiteralBreaksOrder | LFUCache.cpp:87-89 | wherever `std::next` of the search result is defined, the buckets are no longer in ascending order afterwards |
| LFUTheory.LiteralIffNeverHits | LFUCache.cpp:87-89 | a run of the code as written is defined exactly when no find hits and no add repeats a resident URL, and then it is the intended run |
| LFUTheory.FirstHitIsUndefined | LFUCache.cpp:87-89 | adding a URL and finding it is undefined in the code as written |
| LFUTheory.LiteralRunRefines | LFUCache.cpp:23-127 | every defined run of the code as written represents the reference run and holds at most capacity URLs |
| ThreadPool.ExclusionKept | ThreadPool.cpp:10-23 | every step keeps mutual exclusion among workers, enqueuers and owner |
| ThreadPool.QueueKept | ThreadPool.cpp:16-22 | every step keeps the queue first-in first-out and what each worker inside its critical section relies on |
| ThreadPool.ConservedKept | ThreadPool.cpp:14-24 | every step keeps each popped task in the hands of one worker or run to completion, once |
| ThreadPool.WakeupKept | ThreadPool.cpp:16-43 | every step keeps the bound on queued tasks while somebody sleeps |
| ThreadPool.ReadinessKept | ThreadPool.cpp:9-13 | every step keeps readyThreads equal to the number of workers that reported |
| ThreadPool.PoppedInOrderRunOnce | ThreadPool.cpp:14-24 | in every interleaving tasks are popped in enqueue order and none is run more often than enqueued |
| ThreadPool.Drained | ThreadPool.cpp:28-34 | once all workers of a non-empty pool have exited, everything pushed before the destructor began was run exactly once; with nothing pushed later the queue is empty and that is everything; each call's task was run, is queued, or has not been pushed |
| ThreadPool.CallsArePushed | ThreadPool.cpp:36-43 | over every run, for each task: the calls of enqueue with it are as many as its pushes plus the calls that have not pushed yet |
| ThreadPool.CallsAccounted | ThreadPool.cpp:14-43 | over every run each call's task has been run, is in the hands of one worker, is queued, or has not been pushed yet, and is so once |
| ThreadPool.PoppedInCallOrder | ThreadPool.cpp:21-41 | over every run the tasks passed to enqueue, in the order of their pushes, are those popped and then those queued |
| ThreadPool.DrainedCalls | ThreadPool.cpp:28-34 | once all workers have exited, every task passed to enqueue before the destructor began was run, as often as it was passed, except for calls that had not pushed it by then; with none underway and none made later, what was run is exactly what was passed |
| ThreadPool.NeverOversleeps | ThreadPool.cpp:16-43 | in every reachable running state with a sleeper, queued tasks are at most awake idle workers plus notifications to come |
| ThreadPool.WaitForThreads | ThreadPool.cpp:45-50 | when waitForThreads has returned every worker has reported, and while it sleeps a report is still to come |
| ThreadPool.CriticalSections | ThreadPool.cpp:16-22 | in every interleaving at most one worker is inside, and pop never meets an empty queue |
| PoolProgress.RestsOnlyWhenDone | ThreadPool.cpp:13-43 | from every reachable state of a running pool with a worker, the length of a run is bounded in terms of new calls and spurious wakeups, and where no other step is left the queue is empty and what has been run is exactly what was passed to the calls of enqueue |
| PoolProgress.QueuedTaskMoves | ThreadPool.cpp:16-43 | while a task is queued in a running pool with a worker, a step other than a new call or a spurious wakeup is enabled |
| PoolShutdown.ShutdownCanStall | ThreadPool.cpp:28-34 | from every initial state with one worker and no enqueuers: a run after which the owner waits in join, the only worker sleeps and nothing but a spurious wakeup can happen |
| PoolShutdown.StallIff | ThreadPool.cpp:28-34 | when the destructor begins, some run passes through a state in which the owner joins and a worker sleeps exactly when some worker is between its check of the condition and its sleep |
| PoolShutdown.HangsIff | ThreadPool.cpp:28-34 | in every reachable state in which the destructor can begin: some run of it comes to rest before it has returned, and some run leaves a sleeping worker whom nobody will notify, exactly when a worker is between its check and its sleep and no caller of enqueue waits for the mutex |
| PoolShutdown.StuckKept | ThreadPool.cpp:16-34 | once the owner joins, a worker sleeps and nobody is inside enqueue, this stays so, whatever step is taken other than a new call or a spurious wakeup |
| PoolShutdown.FreeMutexIsSafe | ThreadPool.cpp:30-31 | if the mutex is free when `stop` is stored, no run leaves a worker asleep under the join or comes to rest before the destructor has returned |
| PoolShutdown.DestructorReturns | ThreadPool.cpp:28-34 | in every case but that of `HangsIff` the number of steps after the destructor began is bounded, apart from calls of enqueue and what they take, and until the destructor has returned a step other than a spurious wakeup or a new call is enabled |
| ClientQueue.LinkingKept | v1/proxy_server_with_threadpool_and_cache.c:255-264 | linking a node in keeps the chain from head, the tail pointer's meaning, node ownership and the order |
| ClientQueue.AdvancingKept | v1/proxy_server_with_threadpool_and_cache.c:276-278 | taking the first node out keeps them too, the node now belonging to the consumer |
| ClientQueue.FreeingKept | v1/proxy_server_with_threadpool_and_cache.c:283 | freeing the taken node leaves the chain intact |
| ClientQueue.InvariantKept | v1/proxy_server_with_threadpool_and_cache.c:249-286 | every statement of every thread keeps the list invariant and the wakeup bound |
| ClientQueue.RefinesFifo | v1/proxy_server_with_threadpool_and_cache.c:249-286 | in every interleaving what was dequeued is a prefix of what was enqueued and the rest is in the list in order; outside critical sections head is null exactly when tail is, and tail ends the acyclic chain |
| ClientQueue.NeverStuckInside | v1/proxy_server_with_threadpool_and_cache.c:255-283 | no thread inside its critical section ever follows a null or freed pointer |
| ClientQueue.NeverOversleeps | v1/proxy_server_with_threadpool_and_cache.c:265-275 | while a consumer sleeps the list is no longer than awake consumers plus signals to come |
| QueueCalls.CallsAreLinked | v1/proxy_server_with_threadpool_and_cache.c:249-264 | over every run, for each socket: the calls of enqueue with it are as many as its places among what was linked in plus the callers that still carry it |
| QueueCalls.ReturnsInOrder | v1/proxy_server_with_threadpool_and_cache.c:249-286 | over every run, the sockets passed to enqueue, in the order of linking, are those returned by dequeue, then the one in a consumer's hands, then those in the list |
| QueueProgress.RestsOnlyWhenDone | v1/proxy_server_with_threadpool_and_cache.c:249-286 | the length of a run is bounded in terms of new calls of enqueue and spurious wakeups, and where a queue with a consumer has no other step left the list is empty and dequeue has returned exactly the sockets passed to enqueue, in the order of linking |
| QueueProgress.WaitingClientMoves | v1/proxy_server_with_threadpool_and_cache.c:249-286 | while a client waits in the list and there is a consumer, a step other than a new call or a spurious wakeup is enabled |
| ByteBudgetCache.Cache.Find | v1/proxy_server_with_cache.c:458-491 | the first element with the URL is returned and stamped; the list is otherwise unchanged |
| ByteBudgetCache.Cache.RemoveElement | v1/proxy_server_with_cache.c:493-530 | exactly the first element with the least timestamp leaves, with the size counter still exact |
| ByteBudgetCache.Cache.Relink | v1/proxy_server_with_cache.c:513-520 | skipping the node leaves a properly linked list of all the others in order |
| ByteBudgetCache.Cache.EvictFor | v1/proxy_server_with_cache.c:552-556 | the eviction loop ends, with room for the new element |
| ByteBudgetCache.Cache.AddElement | v1/proxy_server_with_cache.c:532-576 | accepted exactly when data and URL with 41 bytes take at most 10485760; then in front of the survivors; the size counter is the sum of these over the list and at most 209715200 |
| ByteBudgetCache.AcceptedIff | v1/proxy_server_with_cache.c:538-566 | an element is accepted exactly up to 10 MiB of data, URL and node; then the list, survivors in order behind it, takes at most 200 MiB, and nothing left exactly when there was room |
| ByteBudgetCache.EvictsIff | v1/proxy_server_with_cache.c:536-556 | an accepted element makes the loop evict, and so take the held lock again, exactly when it does not fit as it is; otherwise it only goes in front |
| ByteBudgetCache.SurvivorsInOrder | v1/proxy_server_with_cache.c:552-556 | survivors keep their order |
| ByteBudgetCache.EvictionConserves | v1/proxy_server_with_cache.c:552-556 | evicted and surviving elements together are the list |
| ByteBudgetCache.EvictedAreOldest | v1/proxy_server_with_cache.c:504-512 | elements leave oldest first and none that leaves is younger than one that stays |
| ByteBudgetCache.EvictionIsMinimal | v1/proxy_server_with_cache.c:552-556 | with the last evicted element still in place the new one would not have fitted |
| ByteBudgetRecency.RunsAlike | v1/proxy_server_with_cache.c:458-576 | two runs of the same uses under any two advancing clocks hold the same elements in the same order, their timestamps ordered alike |
| ByteBudgetRecency.RunWithinBudget | v1/proxy_server_with_cache.c:552-566 | over every run data, URLs and nodes of the list take at most 209715200 bytes |
| ByteBudgetRecency.HoldsWhatWasInserted | v1/proxy_server_with_cache.c:558-572 | over every run each element holds bytes that were inserted under its URL |
| ByteBudgetRecency.EvictsLeastRecentlyUsed | v1/proxy_server_with_cache.c:493-530 | over every run under an advancing clock the element that would leave is the one whose last use has the lowest number |
| ByteBudgetRecency.LastUsesAre | v1/proxy_server_with_cache.c:458-576 | over every run the number kept for each element is that of a use of its URL at the time of its timestamp, a different one for each element |
| ByteBudgetRecency.EvictsLeastRecentlyUsedIff | v1/proxy_server_with_cache.c:493-530 | over every run under a clock that never goes back: the element evicted next is the first with the timestamp of the least recently used one, so it is that one exactly when everything in front of it has a later timestamp |
| ByteBudgetRecency.TieEvictsAnother | v1/proxy_server_with_cache.c:504-512 | after inserts that fit together, the first two at one clock reading, the least recently used element is the last of the list and another one is evicted next |
| ByteBudgetRecency.FullCacheEvictsAnother | v1/proxy_server_with_cache.c:552-556 | after twenty inserts of the greatest accepted size, the first two at one clock reading, every further accepted element evicts exactly one element, and not the least recently used one |
| CStrings.StrtokR | proxy_parse.c:392 | strtok_r in place: delimiters skipped, token cut off with a NUL, save index behind it, nothing else in the buffer touched |
| CStrings.StrtokPieces | proxy_parse.c:438 | a token is a non-empty piece without any character of the delimiter set, with the remainder behind it |
| CStrings.StrtokCut | proxy_parse.c:438 | a text of delimiters, token, delimiter and remainder is cut exactly there |
| CStrings.ScanChar | proxy_parse.c:234 | strchr in the buffer: the position of the first such character of the string, or none |
| CStrings.ScanCrlf | proxy_parse.c:245 | strstr for CRLF in the buffer: the first one, or none before the terminator |
| Headers.HeaderTable.constructor | proxy_parse.c:133-139 | eight free slots, no header |
| Headers.HeaderTable.Lookup | proxy_parse.c:74-89 | the value stored under a key, or none, among live slots only |
| Headers.HeaderTable.Remove | proxy_parse.c:92-103 | exactly that key's header is gone from the list; reports whether there was one |
| Headers.HeaderTable.Grow | proxy_parse.c:47-54 | twice the slots, same headers |
| Headers.HeaderTable.Set | proxy_parse.c:41-70 | delete, then append; keys stay distinct and used slots strictly below capacity |
| Headers.HeaderTable.TextLength | proxy_parse.c:142-165 | exactly the length of the printed headers, dead slots not counted |
| Headers.HeaderTable.Print | proxy_parse.c:167-196 | succeeds exactly when the text fits, writes exactly it and nothing else |
| Headers.HeadersTextIs | proxy_parse.c:176-195 | the printed headers by position: for each header key, colon, space, value, carriage return and line feed, each right behind the one before, and a final carriage return and line feed |
| Headers.DeleteKeyMeans | proxy_parse.c:92-103 | deleting a key keeps every other header, in order |
| Headers.SetMeans | proxy_parse.c:41-89 | after a set, get returns the new value under that key and what it returned before under every other |
| Headers.GetIff | proxy_parse.c:74-89 | get finds a value exactly when the list has a header with that key |
| RequestGrammar.ParseUndoesPrint | proxy_parse.c:299-538 | every well-formed request whose printed form is within the limit is read back from it, field for field and header for header |
| RequestGrammar.ParsesAddress | proxy_parse.c:438-491 | the printed address is read back into protocol, host, port and path |
| RequestGrammar.AbsoluteFormIff | proxy_parse.c:438-488 | in absolute form exactly the paths starting with one slash and not two are accepted; a missing path is refused |
| RequestGrammar.ParsesHeaders | proxy_parse.c:517-535 | reading a printed header list behind others appends exactly it |
| RequestGrammar.AcceptedLineWellFormed | proxy_parse.c:391-514 | the request line of every accepted input is well-formed |
| RequestGrammar.ParsedIsWellFormed | proxy_parse.c:351-538 | what is accepted with a colon in every header line is a well-formed request |
| RequestGrammar.WellFormedIffColons | proxy_parse.c:351-538 | an accepted input is read as a well-formed request exactly when every one of its header lines has a colon |
| RequestGrammar.WellFormedIffProduced | proxy_parse.c:351-538 | well-formed requests are exactly what such inputs produce, among those whose printed form fits |
| LineForms.LineFormIff | proxy_parse.c:391-501 | the accepted lines as texts: spaces, GET, spaces, an accepted address, one space, and a version starting with HTTP/ |
| LineForms.AddressFormIff | proxy_parse.c:438-501 | the accepted addresses as texts: colons and slashes, a protocol, a colon or slash, slashes, an authority that is not only colons and not as long as the compared remainder, and nothing or a path with a single slash in front |
| LineForms.AddressValue | proxy_parse.c:438-501 | what every accepted address is read as: its protocol, its host without leading colons, its port if there is one, and its path, with "/" for a missing one |
| LineForms.AddressLastIff | proxy_parse.c:409-428 | the version is read behind the line exactly on the texts of spaces, GET, spaces and an address without a space |
| OutOfBounds.LineUndefinedIff | proxy_parse.c:409-428 | the version is read behind the line exactly when the line is GET and an address with no space behind it |
| OutOfBounds.HeaderUndefinedIff | proxy_parse.c:234-248 | reading one header leaves the text exactly when it has a colon and no CRLF from the second character behind the first one |
| OutOfBounds.HeadersUndefinedIff | proxy_parse.c:517-535 | the header loop leaves the text exactly when some line before the empty one has such a colon next, whatever was read before |
| OutOfBounds.UndefinedIff | proxy_parse.c:351-538 | for every input, as a condition on its text: the parser reads outside its strings exactly when the input is within the limits, has a blank line, and its first line ends with the address, or that line has the accepted form and a header line has no CRLF from the second character behind its colon |
| OutOfBounds.ColonsStayInside | proxy_parse.c:351-538 | a space behind the address and a colon in every header line keep the parser inside |
| OutOfBounds.AddressLastLeaves | proxy_parse.c:419 | for every address within the limit, `GET`, a space and the address before a blank line make the parser leave its buffer |
| OutOfBounds.LooseColonLeaves | proxy_parse.c:244-248 | behind every well-formed request line, a line without a colon, the blank line and `y:z` make the parser leave its buffer |
| Acceptance.HeadersAcceptedIff | proxy_parse.c:517-535 | the header loop accepts exactly the texts in which every line before the empty one has a colon ahead and a CRLF from the second character behind that colon on |
| Acceptance.AcceptedIff | proxy_parse.c:351-538 | for every input, as a condition on its text: accepted exactly when it has 4 to 65535 characters, a blank line, a first line of the accepted form, and header lines with a colon and a CRLF ahead |
| Normalisation.ParsesReplay | proxy_parse.c:517-535 | reading any printed header table stores its headers one after the other, each with the tails of its key |
| Normalisation.SettledRebuilds | proxy_parse.c:227-254 | storing one more header, and the tails of its key, keeps the table one that its own printed form rebuilds |
| Normalisation.NormalisationIsIdempotent | proxy_parse.c:351-603 | for every accepted input, printing what was parsed and parsing it again gives the same request, exactly when the printed form is within the limit |
| Normalisation.ColonlessLine | proxy_parse.c:517-535 | two header lines of which only the second has a colon are stored as one header whose key spans both and then as the second: not a well-formed request |
| ProxyParse.SplitLine | proxy_parse.c:391-435 | for every line: method, address and version cut out of the buffer in place; or no such cut exists; or, exactly when the address is not ended, the code would read behind the line |
| ProxyParse.MeasureRemainder | proxy_parse.c:447-448 | the length the host is compared with, read from the buffer after the first cut |
| ProxyParse.SplitAddress | proxy_parse.c:438-488 | protocol, authority and path cut out in place, without touching method and version |
| ProxyParse.SplitHost | proxy_parse.c:490-501 | host and port cut out of the authority in place |
| ProxyParse.Tokenise | proxy_parse.c:391-514 | for every line the verdict is the grammar's, and if it is accepted every field is a C string in the cut-up buffer |
| ProxyParse.ParsedRequest.ParseRequestLine | proxy_parse.c:382-389 | the line is copied and cut up in a buffer of its own, which is dropped again unless the line is accepted |
| ProxyParse.ReadKeyAndValue | proxy_parse.c:234-248 | key and value found by scanning the buffer and copied out are those of the grammar; no colon is a rejection, no CRLF behind it a read outside |
| ProxyParse.ParsedRequest.ReadHeader | proxy_parse.c:520-534 | one turn of the header loop: the header is stored and the next line found, or the input is rejected, or, exactly when the next colon has no CRLF from its second follower on, the code would leave the text |
| ProxyParse.ParsedRequest.Parse | proxy_parse.c:351-538 | for every input in-place parsing computes exactly the grammar's result, and would leave its buffers exactly when `OutOfBounds.StaysInside` fails; a used object refuses; the request line is kept exactly when it was accepted |
| ProxyParse.ParsedRequest.RequestLineLength | proxy_parse.c:544-559 | exactly the length of the printed request line |
| ProxyParse.ParsedRequest.TotalLength | proxy_parse.c:330-335 | exactly the length of the printed request |
| ProxyParse.ParsedRequest.PrintRequestLine | proxy_parse.c:561-603 | succeeds exactly when it fits, writes exactly the line and reports its length |
| ProxyParse.LineTextParts | proxy_parse.c:573-596 | the printed request line: verb, space, protocol, "://", host, colon and port if there is a port, path, space, version |
| ProxyParse.ParsedRequest.UnparseTo | proxy_parse.c:299-311 | succeeds exactly when the whole request fits, so always in a buffer of the computed total length, and writes exactly its text |
| ProxyParse.ParsedRequest.UnparseHeadersTo | proxy_parse.c:317-326 | the same for the headers alone |
| ProxyUtils.ConvertRequestToString | ProxyUtils.cpp:49-79 | the table is rewritten in place and the whole forwarded text, whose pieces `Forwarding.ForwardedLine` and `Headers.HeadersTextIs` give, fits its computed size without truncation |
| ProxyUtils.ForwardedAre | ProxyUtils.cpp:51-53 | the forwarded headers are all other live headers in order, then exactly one `Host` naming the target and exactly one `Connection: close` |
| ProxyUtils.HostIsAuthorityIff | ProxyUtils.cpp:51-52 | the forwarded `Host` names the host alone, which is the authority exactly when the request gave no port |
| ProxyUtils.SingleFieldIff | ProxyUtils.cpp:51-53 | without regard to case, `Host` and `Connection` are single exactly when no live header spelled them differently |
| ProxyUtils.LowerCaseHostSurvives | ProxyUtils.cpp:51-53 | a `host` header is forwarded beside the new `Host` |
| Forwarding.ForwardedLine | ProxyUtils.cpp:75 | for every well-formed line the forwarded text up to its first CRLF is GET, a space, the path, a space and the version, with the rewritten headers behind |
| Forwarding.ForwardedTokens | ProxyUtils.cpp:75 | splitting that line at spaces gives the method, the path and the version, in this order |
| Forwarding.ForwardedReadsBackIff | ProxyUtils.cpp:49-79 | for every accepted input, reading the forwarded headers gives exactly the other headers, `Host` with the target and `Connection: close`, exactly when no key has a blank line inside |
| Forwarding.ColonsKeepKeysPlain | proxy_parse.c:234 | with a colon in every header line no key has a blank line inside |
| Forwarding.BlankKeyAccepted | proxy_parse.c:517-535 | requests whose last header line lacks a colon while a line behind the empty one has it are accepted with a key that has a blank line inside |
| ConcurrentProxy.EveryStoreStep | LFUCache.cpp:38-62 | under either strategy no operation changes the bytes of a URL that stays, and an add holds its URL afterwards |
| ConcurrentProxy.ResidentBytesFixed | LRUCache.cpp:28-36 | bytes held under a URL never change until it is evicted or removed, whatever operations follow |
| ConcurrentProxy.FirstAddWins | LRUCache.cpp:28-36 | when several handlers missed on one URL, the first add's bytes are what it holds while it stays |
| ConcurrentProxy.SameKeyIff | ThreadPoolServer.cpp:104-105 | the cache key host+path is unambiguous: equal exactly when host and path are; port and protocol play no part |
| ConcurrentProxy.LookupKept | ThreadPoolServer.cpp:107-121 | a find, hit or miss, keeps every cached and replied byte string one the origin had returned for its key |
| ConcurrentProxy.AddResponseKept | ProxyUtils.cpp:161-200 | adding an accumulated response, after the origin closed, keeps that too |
| ConcurrentProxy.CachedRepliesAreOriginResponses | ThreadPoolServer.cpp:104-127 | for any number of handlers in any interleaving, under either strategy, every reply from the cache is a complete response the origin returned earlier in the run for the same host and path |
| ProxyRuns.ReceivedInOrder | ProxyUtils.cpp:161-170 | over every run a handler that fetches holds the chunks received since its lookup, in the order received, for the request it accepted, and every response of the origin is such a text |
| ProxyRuns.RepliesAreReceivedBytes | ThreadPoolServer.cpp:104-127 | over every run the bytes of each reply from the cache are the chunks some handler had received, in order, when the origin closed, for a request of the same host and path, before the lookup |
| ProxyRuns.AddedResponseIsHeld | ProxyUtils.cpp:196 | after a handler has added its response the cache holds its URL, with exactly the bytes it received if the URL was absent and the old bytes if not |
| ProxyRuns.LookupAnswers | ThreadPoolServer.cpp:107-127 | a lookup is answered from the cache, with the bytes held, exactly when its URL is held, and otherwise starts to fetch |

## Left out

- LFUCache.LFUCache.SearchPlace: stops at the search result; `LFUCache.LFUCache.LiteralSearch` goes on with `std::next`.
- LFUCache.LFUCache.Find: uses the intended bucket position; `LFUCache.LFUCache.LiteralFind` is the code as written.
- LFUCache.LFUCache.Add: uses the intended bucket position; with the literal one a repeated add is `LFUCache.LFUCache.AddAt` at that position.
- LFUTheory.StepRepresents: is about the intended bucket position of the step.
- LFUTheory.RunState: is about the intended bucket position, not the literal `std::next` of LFUCache.cpp:87-89; the defined literal runs are covered by `LFUTheory.LiteralRunRefines`.
- LFUTheory.RepliesMatchReference: is about the intended bucket position; defined literal runs reach the same states.
- LFUTheory.EvictedIsLeastFrequent: is about the intended bucket position; in a defined literal run nothing has been hit, so the oldest element goes.
- CacheHistory.LFUEvictsByHistory: is about the intended bucket position.
- LFUTheory.WithinCapacity: is about the intended bucket position; `LFUTheory.LiteralRunRefines` has the bound for the literal one.
- LFUTheory.RunStructure: is about the intended bucket position.
- ProxyParse.Tokenise: takes the port as uninterpreted text; the `strtol`/`errno` check of proxy_parse.c:503-514 is not modelled.
- ProxyParse.ParsedRequest.Parse: takes the port as uninterpreted text; the `strtol`/`errno` check of proxy_parse.c:503-514 is not modelled. What the code does once it has left a buffer is not modelled either; the verdict is `Outside`.
- ProxyParse.ParsedRequest.ReadHeader: the branch of proxy_parse.c:531-532 for a header without a following CRLF cannot be reached, since the value ends at one; it has no counterpart in the loop.
- Headers.HeaderTable.TextLength: the C accumulator is an `int`; lengths are unbounded here, as are all sizes and frequencies.
- Headers.HeaderTable.Print: writes a header line in one piece where the code copies key, separator, value and CRLF one by one.
- ByteBudgetCache.Cache.EvictFor: takes no lock; the code takes the held `lock` again at v1/proxy_server_with_cache.c:500 and blocks itself whenever `ByteBudgetCache.Evicts` holds.
- ByteBudgetCache.Cache.AddElement: one atomic critical section, so it describes the code where `ByteBudgetCache.Evicts` does not hold, and the design where it does; `element_size` is an `int` in the code, and the response is taken to contain no NUL, so that `strcpy` copies all of it.
- ConcurrentProxy.LookupKept: find returns the bytes at its atomic step; the lifetime of the returned pointer after the lock is released is not modelled.
- ConcurrentProxy.EveryStoreStep: for LFU, with the intended bucket position.
- ProxyRuns.RepliesAreReceivedBytes: for LFU, with the intended bucket position; what is written to the client while fetching is not modelled.
- ConcurrentProxy.CachedRepliesAreOriginResponses: for LFU, with the intended bucket position; a request that does not parse never enters the machine, as the code ends the process there (ThreadPoolServer.cpp:92-96).
- ThreadPool.Drained: says nothing about whether the destructor returns; `PoolShutdown.HangsIff` and `PoolShutdown.DestructorReturns` do.
- PoolShutdown.StallIff: is about a passing state; `PoolShutdown.HangsIff` is about sleepers left for good.
- ByteBudgetRecency.EvictsLeastRecentlyUsed: is about a clock that advances between uses; `ByteBudgetRecency.EvictsLeastRecentlyUsedIff` is about every clock that never goes back.
- `lru_time_track` of the C++ caches, which is only printed; the reference cache uses a step counter, the byte-budget cache a caller's clock.
- List iterators kept in the indices are modelled as references to list nodes; the inside of `std::list` and `std::unordered_map` is not modelled.
- Capacity is at least one, as both eviction routines need a non-empty cache.
- Allocation failure, fixed receive buffers, freeing of strings, `keylen`/`valuelen`, null keys, and the destroy functions.
- Sockets, DNS, signals, error pages, printing, `benchmark.py`; the origin is an arbitrary recorded sequence of responses.
- The port "80" that handleClient fills in after parsing (ThreadPoolServer.cpp:100-101); it reaches only the connection to the origin.
- SemaphoreServer.cpp, ServerFactory.cpp, main.cpp, HTTPServer.hpp: permit counting, dispatch and argument handling.
- v1/proxy2.cpp, v1/proxy3.cpp, v1/proxy_server_without_cache.c: copies of code modelled here.
