# Models of a framework and the social network built on it

The repository holds the userver framework and a small event-driven social network. This project
models six of its mechanisms in Dafny and proves what they promise. `dafny verify dfyconfig.toml`
checks everything.

**Component system** (`Graphs`, `DependencyGraph`, `Components`, `Loading`, `StageSwitching`,
`StageOrder`, `Lifecycle`, `SystemOrder`, `LoadedOrder`). The context that discovers dependencies is a
class with its two depth-first searches. Loading and the lifetime phases are transition systems whose
steps are single lock sections and atomic operations, so a run is any interleaving of boot tasks, phase
tasks and cancellers. `Lifecycle` puts them together in the order in which the manager drives them,
failed loads included, and `SystemOrder` tells of whole runs in terms of the discovered dependencies.
`WaitStage` throws only if its wait ended without success and the flag was up, whereas
`WaitAndGetComponent` throws if either holds; order is therefore claimed until the alarm of a phase is
raised, and throughout for phases that cannot be cancelled. `StageOrder` says for which graphs a
cancellable phase can break it, and `LoadedOrder` says the same of whole runs that load, enter the
phase and fail there. Only the handler of a constructed component can throw.

**PostgreSQL message parser** (`PgWire`, `PgParser`, `PgContainment`, `PgMessages`, `PgReplies`,
`PgConnection`). `PgParser` is one turn of the endless loop as a function of state, received bytes and
position; `PgConnection` is the mutable connection whose methods are proved to compute it. The version
is one before 14 and single row mode is off. Results of libpq helpers follow the chapter
"Frontend/Backend Protocol" of the PostgreSQL documentation; `PgMessages` and `PgReplies` encode what a
server sends and give the results that it stands for by value.

**Cache updates** (`CacheConfig`, `CacheUpdates`, `CacheHandshake`). The updater is a class in which
beginning and finishing an update are two calls, so that invalidations, patches and dumps come in
between. The handshake of invalidations with the start of the cache is a transition system over the
individual atomic operations. The force flag is cleared when a full update succeeds, also if it was
set during that update.

**Baggage header** (`Octets`, `UrlCodec`, `Splitting`, `BaggageText`, `Baggage`). The class scans by
position as the source does; `BaggageText` says what a header means in terms of its pieces. The
declaration of the class says that the result header is empty while the header is valid; the code
appends to it and never clears it, which is why AddEntry has an exact condition.

**Reference sorting** (`RefResolver`, `SchemaSorting`). The depth-first sort and the visitor that
feeds it. Which references count, and where chains end, is defined from the schemas alone.

**The application** (`ReadModel`, `ApiKeys`, `ApiCache`, `RateLimit`). The read-model consumer under
redelivery, reordering and interruption; the cache in front of the Mongo API, with its keys as
strings; the fixed-window rate limiter over keys that expire.

Clocks, random draws, outcomes of user code, and the points at which things break off are parameters
or nondeterministic steps.

## Model

| member | source | states |
|---|---|---|
| DependencyGraph.ComponentContext.constructor | userver/core/src/components/component_context_impl.cpp:77-100 | a fresh context has every component, no edge, and a valid (mirrored, acyclic) graph |
| DependencyGraph.ComponentContext.FindDependencyPathDfs | userver/core/src/components/component_context_impl.cpp:465-486 | the search ends; a find yields a real chain of dependencies from target to start; a failure leaves the newly handled components closed under dependents and without the target |
| DependencyGraph.ComponentContext.SearchDependents | userver/core/src/components/component_context_impl.cpp:465-486 | started afresh, the search succeeds if and only if the target reaches the start along dependencies |
| DependencyGraph.ComponentContext.CheckForDependencyCycle | userver/core/src/components/component_context_impl.cpp:502-516 | an edge is refused if and only if it would close a cycle, and the reported chain is a genuine cycle through that edge |
| DependencyGraph.ComponentContext.AddDependency | userver/core/src/components/component_context_impl.cpp:451-463 | links if and only if the graph with the edge is acyclic; keeps the two edge sets exact converses and the graph acyclic; a refusal changes nothing |
| DependencyGraph.ComponentContext.HasDependencyOn | userver/core/src/components/component_context_impl.cpp:242-277 | the upward walk answers exactly the strict transitive closure, for unknown names too |
| DependencyGraph.ComponentContext.FindAllDependenciesImpl | userver/core/src/components/component_context_impl.cpp:488-500 | the downward walk ends, adds only what is reachable and is closed under dependencies |
| DependencyGraph.ComponentContext.GetAllDependencies | userver/core/src/components/component_context_impl.cpp:279-309 | returns exactly the strict transitive dependencies; fails exactly for unknown names |
| DependencyGraph.ComponentContext.QueriesAgree | userver/core/src/components/component_context_impl.cpp:242-309 | the upward and the downward query agree on every graph the context can hold |
| DependencyGraph.UnhandledIsUnreachable | userver/core/src/components/component_context_impl.cpp:465-486 | a failed search proves that the target does not depend on the start |
| Graphs.AddEdgeAcyclic | userver/core/src/components/component_context_impl.cpp:451-463 | adding an edge whose target does not reach its source keeps a graph acyclic |
| Graphs.AddEdgeClosesCycle | userver/core/src/components/component_context_impl.cpp:502-516 | adding an edge whose target reaches its source makes a cycle |
| Graphs.HasSink | userver/core/src/components/component_context_impl.cpp:348-431 | in an acyclic graph every non-empty set of components has a member with no edge into the set |
| Graphs.ConverseDependsOn | userver/core/src/components/component_context_impl.cpp:242-309 | dependency along one edge set is dependency the other way along its converse |
| Components.ComponentInfo.SetComponent | userver/core/src/components/component_context_component_info.cpp:40-58 | publishes the component and stage, and notifies exactly when the cancel flag was up under the lock and nobody had claimed the notification |
| Components.ComponentInfo.OnLoadingCancelled | userver/core/src/components/component_context_component_info.cpp:155-163 | notifies only a constructed component and only the first claimant does |
| Components.ComponentInfo.ClearComponent | userver/core/src/components/component_context_component_info.cpp:75-93 | destroys the object exactly if there is one |
| Components.ClaimsNotifyOnce | userver/core/src/components/component_context_component_info.cpp:155-163 | any number of claims notifies at most once, and once if there is any |
| Components.CancelRepeatedly | userver/core/src/components/component_context_impl.cpp:200-209 | any number of cancellations as one component sees them: every one flags it, and only one that finds the load not yet cancelled notifies it, if it exists |
| Components.LoadUnderCancellation | userver/core/src/components/component_context_component_info.cpp:40-58 | any number of cancellations before and after publication, of which only the first gets past the test-and-set: the component exists and was notified exactly once if there was one, else never |
| Loading.NextInv | userver/core/src/components/component_context_impl.cpp:433-463 | every step of every interleaving of constructors and cancellers keeps the loading invariant: recorded edges for every wait, an acyclic graph, consistent flags |
| Loading.RunInv | userver/core/src/components/component_context_impl.cpp:433-463 | the invariant holds in every reachable state |
| Loading.NeverStuck | userver/core/src/components/component_context_impl.cpp:433-463 | no circular wait: in every reachable state all tasks are done or some task can step |
| Loading.SomeTaskProceeds | userver/core/src/components/component_context_component_info.cpp:100-107 | among unfinished tasks one is not blocked in its wait for a component |
| Loading.SomeConstructorProceeds | userver/core/src/components/component_context_impl.cpp:433-463 | while components are uncreated and nothing is cancelled, the constructor of an uncreated component is not blocked on an uncreated component |
| Loading.SinkNotBlocked | userver/core/src/components/component_context_impl.cpp:433-449 | a task none of whose recorded dependencies is unfinished is not blocked, because a wait edge is recorded before the wait |
| Loading.EdgesRecordedInTime | userver/core/src/components/component_context_component_info.cpp:109-127 | while a constructor runs, its own stage is null and that of any component it looks up is null or created, as the assertions on adding edges demand |
| Loading.NotifiedAtMostOnce | userver/core/src/components/component_context_component_info.cpp:40-58 | at any moment of any run with any number of cancellers, a component was notified of cancellation at most once and only if constructed |
| Loading.NotifiedExactlyOnce | userver/core/src/components/component_context_impl.cpp:200-209 | when all tasks of a cancelled load have finished, exactly the constructed components have been notified, exactly once |
| Loading.UncancelledLoadCreatesAll | userver/core/src/components/manager.cpp:367-427 | a finished load without cancellation has created every component |
| Loading.MayLookUp | userver/core/src/components/component_context_impl.cpp:433-463 | at any moment a running constructor may look up any component that closes no cycle; exactly that edge is recorded |
| Loading.MayPublish | userver/core/src/components/component_context_component_info.cpp:40-58 | at any moment it may be done, which makes its component exist at the created stage |
| Loading.MayFail | userver/core/src/components/manager.cpp:367-427 | at any moment it may fail and set about flagging everybody |
| Loading.CycleIsRefused | userver/core/src/components/component_context_impl.cpp:451-463 | no step records an edge that closes a cycle |
| Loading.WaitsExactly | userver/core/src/components/component_context_component_info.cpp:100-107 | a wait for a component ends exactly when that is there or flagged |
| StageSwitching.NextInv | userver/core/src/components/component_context_impl.cpp:348-392 | every step of every task keeps the invariant of the phase |
| StageSwitching.RunInv | userver/core/src/components/component_context_impl.cpp:394-431 | the invariant holds in every reachable state of a phase |
| StageSwitching.SomeTaskSteps | userver/core/src/components/component_context_impl.cpp:348-392 | over an acyclic graph some unfinished task can always take a step |
| StageSwitching.NeverDeadlocks | userver/core/src/components/component_context_impl.cpp:394-431 | every reachable state of a phase is finished or has a successor, whatever handlers throw |
| StageSwitching.RunsAreBounded | userver/core/src/components/component_context_impl.cpp:394-431 | no run of a phase over n components has more than n(2n + 6) steps, so each phase ends |
| StageSwitching.FinishedAtNextStage | userver/core/src/components/component_context_impl.cpp:348-392 | when all tasks are done every component is at the next stage, also after failures |
| StageSwitching.NormalReturnOrdersHandlers | userver/core/src/components/component_context_impl.cpp:348-431 | if the phase returns normally each handler ran exactly once, after the handlers of everything its component waits for had ended |
| StageSwitching.UncancellableAlwaysOrdered | userver/core/src/components/component_context_impl.cpp:158-192 | in the phases that cannot be cancelled a handler never begins before those it waits for have ended, at any moment |
| StageSwitching.HandlersRunAtMostOnce | userver/core/src/components/component_context_impl.cpp:348-392 | no handler begins or ends twice in any run, nor ends before it began |
| StageOrder.OrderBreaksIff | userver/core/src/components/component_context_component_info.cpp:203-209 | from every start with all components constructed, a cancellable phase over an acyclic graph has a run that breaks the order of handlers if and only if some handler is waited for and some component does not wait for it, directly or not |
| StageOrder.BreakingRun | userver/core/src/components/component_context_impl.cpp:348-431 | for every such graph and start a run in which a handler begins although that of its dependency never did: the component that does not wait fails first and flags everybody |
| StageOrder.RunKeepsOrder | userver/core/src/components/component_context_impl.cpp:348-431 | for every other graph all runs keep the order at every moment, failures included, because whatever is waited for has ended before anybody can fail |
| StageOrder.CancelledWaiterRunsEarly | userver/core/src/components/component_context_component_info.cpp:203-209 | the smallest instance: three constructed components, a raised flag ends a wait without an exception |
| LoadedOrder.LoadedOrderBreaksIff | userver/core/src/components/component_context_impl.cpp:132-147 | over whole runs of the system: one lets a handler begin after loading before that of a dependency has ended if and only if some component depends on another and a third, not that other one, does not depend on it |
| LoadedOrder.BreakingSystemRun | userver/core/src/components/component_context_impl.cpp:348-431 | for every such discovered graph a run from the empty context: it is discovered, all components are constructed, the phase is entered, the order of dependencies breaks |
| LoadedOrder.GoodLoad | userver/core/src/components/component_context_impl.cpp:433-463 | every acyclic graph is what some load without failure discovers, with every component constructed |
| LoadedOrder.LoadedKeepsOrder | userver/core/src/components/component_context_impl.cpp:348-431 | for every other discovered graph handlers run after those of their dependencies at every moment of the phase after loading, in every run, failures included |
| SystemOrder.DependenciesAreLookups | userver/core/src/components/component_context_impl.cpp:433-463 | in every run a component depends on exactly what its constructor has looked up, and that stays so until the end |
| SystemOrder.LoadedInOrder | userver/core/src/components/component_context_impl.cpp:132-147 | in every run, at every moment after loading until the alarm is raised, a handler begins only after those of all dependencies have ended |
| SystemOrder.DownInOrder | userver/core/src/components/component_context_impl.cpp:158-192 | in every run, at every moment of stopping and clearing and whatever handlers throw, a handler begins only after those of all dependents have ended |
| SystemOrder.ServingFollowsGoodPhase | userver/core/src/components/manager.cpp:367-445 | the service runs only after a phase in which every handler ran once, after those of its dependencies, and none failed |
| SystemOrder.StoppedBeforeClearing | userver/core/src/components/component_context_impl.cpp:170-192 | nothing is cleared before every component was told once, dependents first, that all are stopping |
| Lifecycle.NextInv | userver/core/src/components/manager.cpp:367-445 | loading, the loaded phase, serving, stopping and clearing hand over to one another with the invariant intact, on failed loads too |
| Lifecycle.EnterInv | userver/core/src/components/component_context_impl.cpp:394-395 | a phase entered with no component at its target stage starts with no vacuous wait |
| Lifecycle.NeverDestroyedUnderDependents | userver/core/src/components/component_context_impl.cpp:158-192 | in every run, at every moment, no component whose destruction has begun has a dependent that still exists |
| Lifecycle.ClearingWaitsAreReal | userver/core/src/components/component_context_impl.cpp:170-192 | when the clearing phase starts the stopping phase has moved every component off the null stage |
| Lifecycle.ClearedMeansAllGone | userver/core/src/components/component_context_impl.cpp:170-192 | at the end no component object is left and every stage is null |
| Lifecycle.ServingMeansAllRunning | userver/core/src/components/manager.cpp:421-445 | the service runs only with every component constructed and at the running stage |
| Lifecycle.AdvancesUntilCleared | userver/core/src/components/manager.cpp:367-482 | no reachable state before the end is stuck |
| Lifecycle.LoadedAllAlive | userver/core/src/components/manager.cpp:399-427 | a load in which no boot task failed has constructed every component |
| RefResolver.SortDfs | userver/chaotic/chaotic/front/ref_resolver.py:12-34 | ends on every input; raises if and only if a cycle is reachable from the nodes, with a trail that closes on itself; otherwise lists exactly the reachable nodes, once each, every edge target before its source |
| RefResolver.DfsSorter.DoNode | userver/chaotic/chaotic/front/ref_resolver.py:17-29 | one visit: raises only with a real cycle, else leaves its node and everything below it sorted |
| RefResolver.DfsSorter.Run | userver/chaotic/chaotic/front/ref_resolver.py:31-34 | the same over all roots, in any order |
| RefResolver.SortedHasNoCycle | userver/chaotic/chaotic/front/ref_resolver.py:12-34 | a list with targets first that holds a node proves that no cycle is reachable from it |
| RefResolver.ClosedTrailIsCycle | userver/chaotic/chaotic/front/ref_resolver.py:18-19 | the trail of the error message contains a cycle |
| SchemaSorting.FollowChain | userver/chaotic/chaotic/front/ref_resolver.py:59-88 | following a chain ends; its target is the first schema that is no Ref or was met before, it is indirect or external exactly if some link of the chain is, and it fails exactly if some link names nothing known |
| SchemaSorting.OneEnd | userver/chaotic/chaotic/front/ref_resolver.py:63-86 | where a chain ends is determined by the schemas |
| SchemaSorting.WithinIsAll | userver/chaotic/chaotic/front/ref_resolver.py:63-86 | the links met before a repetition are all the links there are |
| SchemaSorting.Visitor.VisitRef | userver/chaotic/chaotic/front/ref_resolver.py:52-114 | one reference goes through if and only if its chain is known and it is no redundant indirect item of its own array; then target, indirect and external are those of its chain and an edge is listed exactly if it counts |
| SchemaSorting.VisitSchemas | userver/chaotic/chaotic/front/ref_resolver.py:116-120 | goes through if and only if every reference at any path of any schema is clean, with exactly those references resolved as their chains say; an error names a real culprit |
| SchemaSorting.EdgesAreCounted | userver/chaotic/chaotic/front/ref_resolver.py:105-114 | the edge lists are the graph of counted references, defined from the schemas alone |
| SchemaSorting.SortSchemas | userver/chaotic/chaotic/front/ref_resolver.py:38-127 | ordered if and only if the references at all paths are clean and the counted graph is acyclic, a cycle error if and only if they are clean and it is not, with a trail in that graph; the order is exactly the schemas with every counted target before its owner; every reference is resolved to the end of its chain, to a non-Ref if there are no indirect, external or array self references; unknown and redundant errors name a real culprit |
| SchemaSorting.SitesAreVisited | userver/chaotic/chaotic/front/ref_resolver.py:116-120 | the visit comes by exactly the references that stand at some path of child positions, each with the right word on whether it is an array item |
| SchemaSorting.ChainUnrolls | userver/chaotic/chaotic/front/ref_resolver.py:62-84 | each link of a chain leads to the local schema of that name, else to the external one, else nowhere |
| SchemaSorting.DirectTarget | userver/chaotic/chaotic/front/ref_resolver.py:62-84 | a reference to a schema that is no reference resolves to it, and is external exactly if the schema is |
| SchemaSorting.DirectRefCounts | userver/chaotic/chaotic/front/ref_resolver.py:104-114 | a reference at any path to a local schema that is no reference orders the owner after it, unless it is marked or an item of the array itself |
| SchemaSorting.CountedOnlyIf | userver/chaotic/chaotic/front/ref_resolver.py:90-114 | only an unmarked reference at some path to a local schema counts, and not one of array items to the array itself |
| SchemaSorting.NotCleanIf | userver/chaotic/chaotic/front/ref_resolver.py:70-97 | an unknown name, or a marked item reference to the array itself, at any path is found |
| SchemaSorting.PlainRefsResolve | userver/chaotic/chaotic/front/ref_resolver.py:59-88 | with plain references only and an acyclic counted graph every reference ends at a non-Ref |
| SchemaSorting.CircleIsCycle | userver/chaotic/chaotic/front/ref_resolver.py:81-86 | a chain of plain references that runs in circles is a cycle of counted references |
| UrlCodec.UrlEncode | userver/universal/src/http/url.cpp:21-59 | the loop yields the percent-encoding, and decoding it gives the input back |
| UrlCodec.UrlDecode | userver/universal/src/http/parser/http_request_parse_args.cpp:21-55 | the loop with its fast path agrees with the definition of decoding, failures included |
| UrlCodec.DecodeEncode | userver/universal/src/http/url.cpp:21-59 | decoding undoes encoding for all byte strings |
| UrlCodec.EncodedBytes | userver/universal/src/http/url.cpp:21-59 | encoded text holds unreserved bytes and percent signs only, and is at most three times as long |
| UrlCodec.DecodePlain | userver/universal/src/http/parser/http_request_parse_args.cpp:24-27 | text without percent and plus signs decodes to itself, which justifies the fast path |
| UrlCodec.DecodePieces | userver/universal/src/http/parser/http_request_parse_args.cpp:21-55 | plain bytes, plus signs and escapes in either case decode to what they stand for, in order |
| UrlCodec.DecodedIsPieces | userver/universal/src/http/parser/http_request_parse_args.cpp:21-55 | all text that decodes is made of such pieces, so every other percent sign is refused |
| UrlCodec.EncodedByte | userver/universal/src/http/url.cpp:21-52 | how each single byte is written: itself if unreserved, else an upper-case escape |
| BaggageText.ParsedPropertyIsGood | userver/core/src/baggage/baggage.cpp:317-352 | an accepted property is well-formed and prints as the text it came from |
| BaggageText.ParsedEntryIsGood | userver/core/src/baggage/baggage.cpp:248-315 | an accepted entry is well-formed and its decoded key allowed |
| BaggageText.ParsedEntriesAreGood | userver/core/src/baggage/baggage.cpp:225-246 | all entries read from any header are well-formed and there are at most 64 |
| BaggageText.ParseEntryText | userver/core/src/baggage/baggage.cpp:48-61 | a printed well-formed entry is read back as itself, cleanly |
| BaggageText.ParseRender | userver/core/src/baggage/baggage.cpp:215-246 | a printed list of well-formed entries is read back as that list with nothing rejected |
| BaggageText.Spaces | userver/core/src/baggage/baggage.cpp:116-119 | exactly the six whitespace bytes of the C locale are erased, any other byte stays |
| BaggageText.StripConcat | userver/core/src/baggage/baggage.cpp:116-119 | erasing goes byte by byte, wherever whitespace stands |
| BaggageText.ParseSpaced | userver/core/src/baggage/baggage.cpp:112-127 | a printed list of at most 64 well-formed entries is read back through any inserted whitespace |
| BaggageText.ParseThrowsIff | userver/core/src/baggage/baggage.cpp:225-260 | parsing throws if and only if a piece has a key with a broken escape and fewer than 64 entries were taken before it |
| BaggageText.PieceDropped | userver/core/src/baggage/baggage.cpp:236-242 | a rejected piece anywhere leaves all other entries as they are, and is noticed unless it is empty |
| BaggageText.EncodedReads | userver/core/src/baggage/baggage.cpp:157-180 | decoded, the entry that AddEntry writes is the key, value and properties it was given |
| BaggageText.ParseAppended | userver/core/src/baggage/baggage.cpp:167-207 | text appended as AddEntry appends it is read after everything that was there, which is read as before |
| BaggageText.ParseEncodedEntry | userver/core/src/baggage/baggage.cpp:157-180 | what the parser makes of the text AddEntry writes, for every combination of empty parts |
| BaggageText.KeptExactly | userver/core/src/baggage/baggage.cpp:157-180 | the new entry arrives exactly as given if and only if none of its parts is empty |
| BaggageText.CleanEntryCount | userver/core/src/baggage/baggage.cpp:248-315 | an entry read cleanly prints with as many equals signs as its text had |
| BaggageText.GluedIsNotClean | userver/core/src/baggage/baggage.cpp:215-223 | a rendering appended to the rendering of a non-empty prefix is never read back cleanly as the list |
| BaggageText.GluedEntry | userver/core/src/baggage/baggage.cpp:248-315 | two entries printed without a comma between them are refused if and only if the first has no property and the key of the second no semicolon, and never make the parser throw |
| BaggageText.GluedToItself | userver/core/src/baggage/baggage.cpp:248-315 | an entry printed twice without a comma is read back as itself if and only if it has one property, with a value, and no semicolon in its key, or no property and a key of semicolons only |
| BaggageText.GluedParse | userver/core/src/baggage/baggage.cpp:225-246 | exactly which entries a rendering appended to the rendering of a non-empty prefix reads as, and when cleanly |
| BaggageText.GluedReadsSame | userver/core/src/baggage/baggage.cpp:225-246 | where the limit of 64 is not met, these are the stored entries in two cases only, told from the entries at the seam |
| Baggage.Baggage.TryMakeBaggageEntry | userver/core/src/baggage/baggage.cpp:248-315 | scanning by position agrees with the definition by pieces: accepted entry, exception, rejection and the effect on the valid flag |
| Baggage.Baggage.ReadProperties | userver/core/src/baggage/baggage.cpp:295-313 | the loop over properties keeps exactly the good ones and clears the flag exactly if a non-empty one was bad |
| Baggage.Baggage.FillEntries | userver/core/src/baggage/baggage.cpp:225-246 | the loop yields the entries and the valid flag of the definition by pieces, and throws exactly when it does |
| Baggage.Baggage.CreateResultHeader | userver/core/src/baggage/baggage.cpp:215-223 | appends the rendering of the entries to whatever the result header held |
| Baggage.ConcatenateWith | userver/core/src/baggage/baggage.cpp:56-61 | appends the printed entry |
| Baggage.TryMakeBaggageEntryProperty | userver/core/src/baggage/baggage.cpp:317-352 | the checks on a property, by position, agree with the definition |
| Baggage.Baggage.AddEntry | userver/core/src/baggage/baggage.cpp:157-209 | which of the four outcomes; entries without empty parts decode to what was given; a refusal changes nothing; the new list is the old one plus the surviving entry, exactly the given one if and only if no part is empty; the 64-entry limit; ToString re-parses cleanly to the stored entries if and only if the parts are harmless or no result header was left over, and otherwise reads as the entries with a leftover glued in front; parsing never throws |
| Baggage.Construct | userver/core/src/baggage/baggage.cpp:112-127 | for every header: throws exactly on a bad percent sequence in a key reached by the scan, else ToString re-parses cleanly to the stored entries; a printed good list with whitespace put in anywhere gives that list, without notice |
| Baggage.Copy | userver/core/src/baggage/baggage.cpp:129-155 | a copy never throws, is valid, and has the same entries and text |
| Baggage.TryMakeBaggage | userver/core/src/baggage/baggage.cpp:354-361 | nothing for headers over 8192 bytes, otherwise the constructor's promise, through whitespace too |
| Baggage.AfterAppend | userver/core/src/baggage/baggage.cpp:181-208 | which of the two printed forms can be read back after AddEntry, for every leftover, and what the other one reads as |
| Baggage.AddAll | userver/core/src/baggage/baggage.cpp:157-209 | any sequence of additions without empty parts: the entries are the old ones and exactly the additions up to the first refusal, the limit holds, and ToString re-parses to them |
| Baggage.EmptyValueTwice | userver/core/src/baggage/baggage.cpp:189-192 | two AddEntry calls with empty values in a row leave one stored entry and a text in which a reader finds none |
| PgWire.ColumnsMore | userver/postgresql/pq-extra/pq_workaround.c:1106-1145 | column descriptions once read in full are read the same when more bytes follow |
| PgParser.HandleMore | userver/postgresql/pq-extra/pq_workaround.c:229-563 | a message that holds all its fields is handled the same whatever follows it, for every message type and state |
| PgParser.TwoReads | userver/postgresql/pq-extra/pq_workaround.c:164-211 | parsing after each of two reads gives the same connection as parsing once, for every stream whose complete messages hold their own fields |
| PgParser.AnySplit | userver/postgresql/pq-extra/pq_workaround.c:164-211 | the same for every split into any number of reads, lost synchronization included |
| PgParser.ParseToBoundary | userver/postgresql/pq-extra/pq_workaround.c:565-584 | for every stream, well-formed or not, parsing moves inStart over whole messages only |
| PgParser.ReadsToBoundary | userver/postgresql/pq-extra/pq_workaround.c:565-584 | after any reads of any stream inStart rests on a message boundary of all bytes received |
| PgParser.WaitingConsumesNotices | userver/postgresql/pq-extra/pq_workaround.c:229-235 | while a result awaits collection only notices and notifications are consumed; transaction status stays, the result stays or becomes an error |
| PgParser.FailureEndsOnlyBy | userver/postgresql/pq-extra/pq_workaround.c:408-436 | a consumed message turns a pending fatal error into another result if and only if it is an intact parameter description or copy start |
| PgParser.FailureSurvivesReads | userver/postgresql/pq-extra/pq_workaround.c:282-299 | over any reads of any stream without those four message types a pending fatal error is never replaced by a result of another kind before it is collected |
| PgParser.DroppedIsEmpty | userver/postgresql/pq-extra/pq_workaround.c:880-891 | after lost synchronization the input is dropped and a fatal error is ready |
| PgParser.CollectLater | userver/postgresql/pq-extra/pq_workaround.c:765-807 | what is parsed while a result waits changes neither that result nor what comes after it is collected |
| PgParser.ResultsOfTwoReads | userver/postgresql/pq-extra/pq_workaround.c:677-731 | the sequence of results collected is the same for two reads as for one |
| PgParser.ResultsOfAnySplit | userver/postgresql/pq-extra/pq_workaround.c:677-731 | the sequence of collected results and the final connection do not depend on how the stream is split into reads |
| PgMessages.ReadColumnsBytes | userver/postgresql/pq-extra/pq_workaround.c:1106-1145 | encoded column descriptions are read back as the columns, whatever stands before and after |
| PgMessages.ReadValuesBytes | userver/postgresql/pq-extra/pq_workaround.c:1329-1354 | encoded row values, nulls included, are read back |
| PgMessages.ReplyIsCollected | userver/postgresql/pq-extra/pq_workaround.c:164-586 | a whole query response is collected as one result with exactly its columns, rows and tag, and leaves the session idle with the announced transaction status |
| PgMessages.ReplyInAnyReads | userver/postgresql/pq-extra/pq_workaround.c:164-586 | the same however the network cuts the response into reads |
| PgReplies.AnswerInAnyReads | userver/postgresql/pq-extra/pq_workaround.c:282-355 | however the network cuts it, an answer of a command tag, an error, an empty query, a prepared or described statement, or rows of a known portal is handed over as one result, given field by field, and the session is idle in the reported transaction state |
| PgReplies.AnswerIsCollected | userver/postgresql/pq-extra/pq_workaround.c:282-355 | the same in one read |
| PgReplies.CopyStarts | userver/postgresql/pq-extra/pq_workaround.c:509-522 | a copy start in any reads leaves the connection in its copy state with a result of its kind and formats, whatever was pending |
| PgReplies.TurnBare | userver/postgresql/pq-extra/pq_workaround.c:327-390 | messages without a body: which of them make a result ready, in which kind of query, and which change nothing |
| PgReplies.TurnParameter | userver/postgresql/pq-extra/pq_workaround.c:391-393 | a reported parameter has its value from then on |
| PgReplies.TurnKeyData | userver/postgresql/pq-extra/pq_workaround.c:394-407 | process id and key are stored |
| PgReplies.TurnNotification | userver/postgresql/pq-extra/pq_workaround.c:229-235 | a notification is queued as sent, in every state |
| PgReplies.TurnNotice | userver/postgresql/pq-extra/pq_workaround.c:229-261 | a notice, or an error while idle, is passed on with its fields and touches no result |
| PgReplies.TurnIdle | userver/postgresql/pq-extra/pq_workaround.c:236-277 | other messages while idle are skipped, with a notice for all but the echo of a bind |
| PgReplies.TurnSkipped | userver/postgresql/pq-extra/pq_workaround.c:408-414 | after an error rows and descriptions are skipped, and copy data always |
| PgReplies.TurnNextDescription | userver/postgresql/pq-extra/pq_workaround.c:424-434 | the description of a next result stays unread until the pending one is collected |
| PgReplies.TurnWrongRow | userver/postgresql/pq-extra/pq_workaround.c:1296-1328 | a row of another width than the result replaces it by an error |
| PgReplies.TurnStrayRow | userver/postgresql/pq-extra/pq_workaround.c:469-508 | a row without any description is an error |
| PgReplies.TurnUnreadRow | userver/postgresql/pq-extra/pq_workaround.c:469-508 | with a description at hand a row after another kind of result is not read and its length is an error |
| PgReplies.TurnUnknown | userver/postgresql/pq-extra/pq_workaround.c:544-562 | an unexpected message is an error, added to one that is there |
| PgReplies.TurnShort | userver/postgresql/pq-extra/pq_workaround.c:1054-1206 | a description, parameter list or row that ends too early is an error and is skipped |
| PgReplies.TurnHalts | userver/postgresql/pq-extra/pq_workaround.c:282-300 | other messages that end too early halt the parser; an error has dropped the pending result by then |
| PgReplies.TurnTrailing | userver/postgresql/pq-extra/pq_workaround.c:564-584 | bytes behind the last field are an error after the message has taken effect |
| PgReplies.TurnLost | userver/postgresql/pq-extra/pq_workaround.c:169-185 | a length that cannot be right loses the connection with a fatal error |
| PgReplies.LongOnes | userver/postgresql/pq-extra/pq_workaround.c:51-53 | which message types may be longer than 30000 bytes |
| PgReplies.ReadFieldsBytes | userver/postgresql/pq-extra/pq_workaround.c:282-303 | the encoded fields of errors and notices are read back |
| PgContainment.HandledAlikeIff | userver/postgresql/pq-extra/pq_workaround.c:229-563 | a message is handled the same whatever bytes follow it if and only if its handler does not look at its body in this state or the body holds every field that is read |
| PgContainment.UncontainedDiffers | userver/postgresql/pq-extra/pq_workaround.c:1106-1122 | for every message type and state whose handler reads a field that is missing, bytes that change the outcome when they follow |
| PgMessages.CutDescription | userver/postgresql/pq-extra/pq_workaround.c:1115-1122 | an instance over a whole stream: a row description cut short leaves the connection busy when read alone and ready, with bytes of the next message swallowed, when that is there too |
| PgConnection.PgConn.CollectReads | userver/postgresql/pq-extra/pq_workaround.c:649-731 | reading, parsing and collecting chunk by chunk on the mutable connection gives the results and the final connection of one read of everything, for every split of a well-formed stream |
| PgConnection.CollectReply | userver/postgresql/pq-extra/pq_workaround.c:677-807 | on the mutable connection a query response in any reads is handed over as the one result it describes and leaves the session idle |
| PgConnection.CollectAnswer | userver/postgresql/pq-extra/pq_workaround.c:677-807 | on the mutable connection every such answer in any reads is handed over as the one result it means |
| PgConnection.CollectCopyStart | userver/postgresql/pq-extra/pq_workaround.c:677-823 | on the mutable connection a copy start in any reads is handed over at once with its formats |
| PgConnection.PgConn.CollectReady | userver/postgresql/pq-extra/pq_workaround.c:682-731 | parsing and collecting until nothing is ready yields the specified sequence of results |
| PgConnection.PgConn.ParseInput | userver/postgresql/pq-extra/pq_workaround.c:156-586 | the loop over the mutable connection computes the specified parse |
| PgConnection.PgConn.NextMessage | userver/postgresql/pq-extra/pq_workaround.c:164-211 | one turn of the loop is one turn of the specification |
| PgConnection.PgConn.ReadHead | userver/postgresql/pq-extra/pq_workaround.c:169-191 | type code and length, with the two checks for lost synchronization |
| PgConnection.PgConn.Consume | userver/postgresql/pq-extra/pq_workaround.c:564-584 | a handler that stops short of or beyond the stated length leaves an error result and the stated length is trusted |
| PgConnection.PgConn.Message | userver/postgresql/pq-extra/pq_workaround.c:229-277 | dispatch by message type and asynchronous state |
| PgConnection.PgConn.BusyMessage | userver/postgresql/pq-extra/pq_workaround.c:281-562 | every message type in the busy state does what the specification of that type says |
| PgConnection.PgConn.CommandCompleted | userver/postgresql/pq-extra/pq_workaround.c:282-299 | a command tag is put on the pending result or on a new one |
| PgConnection.PgConn.DataRowArrived | userver/postgresql/pq-extra/pq_workaround.c:469-508 | a row goes to a row result, is dropped after an error, or reports a missing description |
| PgConnection.PgConn.GetRowDescriptions | userver/postgresql/pq-extra/pq_workaround.c:1054-1206 | the loop reads all columns or replaces the result by an error and skips the message |
| PgConnection.PgConn.GetParamDescriptions | userver/postgresql/pq-extra/pq_workaround.c:1216-1286 | the loop reads all parameter types into a new result, or an error |
| PgConnection.PgConn.GetAnotherTuple | userver/postgresql/pq-extra/pq_workaround.c:1296-1393 | the loop appends one row of exactly the announced width, or replaces the result by an error |
| PgConnection.PgConn.GetCopyStart | userver/postgresql/pq-extra/pq_workaround.c:1403-1445 | the loop reads the formats into a new result or leaves the result alone |
| PgConnection.PgConn.GetResult | userver/postgresql/pq-extra/pq_workaround.c:731-823 | nothing when idle; when ready the result is handed over once and parsing may go on; copy states return a result of their kind |
| CacheConfig.Construct | userver/core/src/cache/cache_config.cpp:133-239 | accepts exactly the settings whose intervals and dump section fit; update types as set, else by which intervals are set; all intervals, jitters and modes of the result; an accepted configuration is valid, and one that only allows full updates starts with a full one |
| CacheConfig.FitsByTypes | userver/core/src/cache/cache_config.cpp:133-239 | which intervals and dump settings are accepted, for each way of setting the update types |
| CacheConfig.ParsePatch | userver/core/src/cache/cache_config.cpp:101-131 | accepts exactly non-negative numbers with some interval set; intervals are filled in and jitters never exceed them |
| CacheConfig.MergeWith | userver/core/src/cache/cache_config.cpp:241-253 | a patch cannot change the allowed update types nor the first update |
| CacheUpdates.Updater.constructor | userver/core/src/cache/cache_update_trait_impl.cpp:108-142 | a new cache has no data, no schedule and an empty history |
| CacheUpdates.Updater.OnConfigUpdate | userver/core/src/cache/cache_update_trait_impl.cpp:279-285 | replaces the configuration and keeps the invariant |
| CacheUpdates.Updater.Invalidate | userver/core/src/cache/cache_update_trait_impl.cpp:41-51 | a full update is owed unless one is running; incremental requests become full where only full updates are allowed |
| CacheUpdates.Updater.NextUpdateType | userver/core/src/cache/cache_update_trait_impl.cpp:289-324 | dump before missing data before invalidation before the schedule; a scheduled full update comes no earlier than interval minus jitter and no later than interval plus jitter after the last, stays due once due, and the jitter is drawn at most once per cycle; if the schedule is not asked, it is left alone |
| CacheUpdates.Replay | userver/core/src/cache/cache_update_trait_impl.cpp:289-426 | through any sequence of patches, invalidations, dumps, periodic and debug updates: only-full caches never begin an incremental update; a periodic incremental one follows a dump or a success; a full update the schedule called for is called for again until one succeeds or the configuration changes; under one configuration every decision is within the jitter |
| CacheUpdates.HistoryOneMore | userver/core/src/cache/cache_update_trait_impl.cpp:300-320 | a decision that honours what is already due keeps the history of decisions consistent |
| CacheUpdates.Updater.BeginPeriodic | userver/core/src/cache/cache_update_trait_impl.cpp:326-352 | which kind is begun and why; skips exactly when disabled and not a required first update; the schedule and its jitter stay as they are on skipped, forced and prescribed updates |
| CacheUpdates.Updater.BeginDebug | userver/core/src/cache/cache_update_trait_impl.cpp:85-104 | a debug update is begun exactly when updates are enabled, and is full where only full updates are allowed |
| CacheUpdates.Updater.Finish | userver/core/src/cache/cache_update_trait_impl.cpp:389-426 | success or failure of an update: the whole new state, with the force flag cleared exactly by a successful full update |
| CacheUpdates.Updater.OnUpdateSkipped | userver/core/src/cache/cache_update_trait_impl.cpp:365-375 | one more failed update, and expiry exactly when the limit is reached |
| CacheUpdates.Updater.LoadDump | userver/core/src/cache/cache_update_trait_impl.cpp:181-186 | a dump sets the data time and prescribes the next update as configured |
| CacheUpdates.Updater.Start | userver/core/src/cache/cache_update_trait_impl.cpp:178-222 | a start that returns has data unless failure is allowed or the first update was left out or skipped; a required first update was done; it throws if and only if the first update is called for, is not skipped, fails, and nothing excuses the failure |
| CacheUpdates.LateInvalidationIsForgotten | userver/core/src/cache/cache_update_trait_impl.cpp:409-414 | a full update asked for during a full update is forgotten when that one succeeds |
| CacheUpdates.RequestDuringUpdate | userver/core/src/cache/cache_update_trait_impl.cpp:409-414 | a full update asked for while an update runs is forgotten if and only if that update is full and succeeds |
| CacheUpdates.OwedUpdateComesNext | userver/core/src/cache/cache_update_trait_impl.cpp:289-304 | asked for when no update is running, it is what is begun next unless a dump prescribes otherwise |
| CacheHandshake.NextInv | userver/core/src/cache/cache_update_trait_impl.cpp:188-233 | every atomic step of the start and of any number of invalidations keeps the handshake invariant |
| CacheHandshake.RunInv | userver/core/src/cache/cache_update_trait_impl.cpp:188-233 | it holds after every sequence of steps |
| CacheHandshake.NoLostInvalidation | userver/core/src/cache/cache_update_trait_impl.cpp:41-61 | once the start has succeeded, every invalidation that returned was followed by the beginning of an update or by a forced step |
| CacheHandshake.UnservedIsPending | userver/core/src/cache/cache_update_trait_impl.cpp:41-61 | before that, an invalidation not yet served has somebody bound to serve it |
| CacheHandshake.PendingIsServed | userver/core/src/cache/cache_update_trait_impl.cpp:188-233 | no step makes a pending invalidation disappear without serving it |
| CacheHandshake.NoExtraUpdate | userver/core/src/cache/cache_update_trait_impl.cpp:195-197 | after a first update the start forces a step only if an invalidation came after the mark was reset |
| CacheHandshake.NeverStuck | userver/core/src/cache/cache_update_trait_impl.cpp:161-251 | start and invalidations can always go on |
| ReadModel.Consumer.Publish | event-service/consumer.py:134-172 | a published body is queued, also when it was published before |
| ReadModel.Consumer.UpdateView | event-service/consumer.py:49-116 | the whole new view for each kind of event; each adds one to exactly its counter; a missing field changes nothing; a user event sets login and email and no counter |
| ReadModel.TargetByKind | event-service/consumer.py:49-116 | which counter each kind of event raises, at which key of its payload |
| ReadModel.Consumer.ProcessEvent | event-service/consumer.py:31-118 | what is recorded, counted and lost for every event and every point of interruption; returns exactly when the event is acknowledged |
| ReadModel.Consumer.RecordAndCount | event-service/consumer.py:41-118 | a new event is recorded and counted once, or recorded and lost if interrupted in between |
| ReadModel.Consumer.Callback | event-service/consumer.py:121-131 | acknowledges exactly complete events and duplicates, puts everything else back; every published body is queued or its id recorded; every counter equals the recorded events for it that were not lost |
| ReadModel.ExactOneMore | event-service/consumer.py:41-116 | counting or losing one more recorded event keeps every counter exact |
| ReadModel.BoundedError | event-service/consumer.py:31-131 | no counter exceeds the distinct recorded events for it, or falls short by more than the interruptions |
| ReadModel.DrainedRecordsAll | event-service/consumer.py:31-131 | with no well-formed message left, exactly the well-formed published events are recorded |
| ReadModel.OrderIndependent | event-service/consumer.py:31-131 | two consumers of the same events with the same losses end with the same records and counters, whatever the order and repetition of deliveries |
| ReadModel.InterruptionLosesCount | event-service/consumer.py:36-39 | one interruption between record and view update loses that count for good, for every countable event |
| ApiKeys.UsersKeyInjective | mongo-api/api.py:155-155 | two user requests share a key only if their parameters print alike |
| ApiKeys.PostsKeyInjective | mongo-api/api.py:235-235 | two post requests whose authors hold no colon share a key only if their parameters print alike |
| ApiKeys.ShownIntInjective | mongo-api/api.py:155-155 | printed numbers and absence are told apart |
| ApiKeys.FamiliesApart | mongo-api/api.py:80-90 | no key belongs to two of the families that are dropped by prefix |
| ApiKeys.BorrowedKey | mongo-api/api.py:235-245 | an author that is no id can produce the key of another request |
| ApiCache.UsersStored | mongo-api/api.py:153-175 | storing a fresh answer keeps the cache coherent if and only if the login is not the literal None or the two answers agree |
| ApiCache.PostsStored | mongo-api/api.py:233-255 | the same for posts and the tag |
| ApiCache.NewUserNotInStats | mongo-api/api.py:178-191 | a user whose id was never issued changes no statistics |
| ApiCache.Api.CacheDeletePrefix | mongo-api/api.py:71-77 | the loop removes exactly the keys with the prefix |
| ApiCache.Api.InvalidateUsersCache | mongo-api/api.py:80-81 | whatever the users are now, the users keys are coherent afterwards and the other families as before |
| ApiCache.Api.InvalidatePostsCache | mongo-api/api.py:84-86 | the same for posts and statistics |
| ApiCache.Api.GetUsers | mongo-api/api.py:153-175 | returns what a fresh query returns; keeps every cached value fresh exactly unless the literal None is stored with another answer |
| ApiCache.Api.GetPosts | mongo-api/api.py:233-255 | the same for posts; an author that is no id changes nothing and gets what is cached under its key or, if nothing is, a refusal |
| ApiCache.Api.PostsByUsers | mongo-api/api.py:411-466 | returns the statistics of the present database |
| ApiCache.Api.CreateUser | mongo-api/api.py:178-191 | adds the user; every cached value stays fresh although only users keys are dropped |
| ApiCache.Api.UpdateUser | mongo-api/api.py:194-216 | replaces the given fields of the first user with this id and nothing else, or fails as the request and the database demand; every cached value stays fresh |
| ApiCache.Api.DeleteUser | mongo-api/api.py:219-230 | removes the first user with this id and nobody else; every cached value stays fresh |
| ApiCache.Api.CreatePost | mongo-api/api.py:258-280 | stores the post of an existing author; every cached value stays fresh |
| ApiCache.Api.ChangePost | mongo-api/api.py:283-334 | likes, unlikes and comments change one post, in one field, and no other post; every cached value stays fresh |
| ApiCache.FindUsersPicks | mongo-api/api.py:162-170 | a users query returns exactly the documents asked for, in stored order |
| ApiCache.FindPostsAnswers | mongo-api/api.py:242-250 | a posts query returns exactly the documents asked for, newest first |
| ApiCache.StatsRows | mongo-api/api.py:411-466 | the rows are the users with posts that have content, with the number of these and of their likes |
| ApiCache.OidIgnoresCase | mongo-api/api.py:31-34 | two texts are the same id if and only if they differ in the case of letters only |
| ApiCache.LikeThenUnlike | mongo-api/api.py:283-312 | a like counts once and unliking takes it back |
| ApiCache.RemoveAll | mongo-api/api.py:299-304 | unliking leaves no like of that user and all others |
| ApiCache.Api.Expire | mongo-api/api.py:64-68 | a key that reaches its time to live vanishes and every other cached value stays fresh |
| ApiCache.NewestFirstSorts | mongo-api/api.py:250-250 | posts are returned newest first and are exactly those found |
| RateLimit.Limiter.CheckRateLimit | mongo-api/api.py:93-121 | accepts exactly if fewer than ten calls of the client fell into this window before, with the true remaining count and the end of the window; the counter of the current window is never expired |
| RateLimit.Limiter.Evict | mongo-api/api.py:101-102 | expired keys may vanish at any time without harm |
| RateLimit.KeyTextInjective | mongo-api/api.py:94-96 | two key texts are equal if and only if prefix, address and window are, for addresses with colons too, as long as prefixes hold none |
| RateLimit.NeverExpiresInWindow | mongo-api/api.py:94-102 | a key never expires within its own window, and a missing key means no call in the window |
| RateLimit.TenPerWindow | mongo-api/api.py:116-121 | in every history exactly the first ten calls per client and window are accepted |
| RateLimit.TwentyPerSpan | mongo-api/api.py:93-121 | in every history at most twenty calls per client are accepted in any sixty seconds |

## Left out

- Cancellation of engine tasks themselves, and exceptions that are not `std::exception`, in boot and phase tasks.
- Resource scopes, AfterConstruction, graceful shutdown delays and the printing task of the component system: they take no part in waiting or destruction order.
- A component callback for cancelled loading that throws.
- Pipeline mode, versions from 14 on, single row mode, protocol version 2 and memory exhaustion of the PostgreSQL parser; the blocking read loop of PQXgetResult and its event procedures.
- Text of error messages, logging, tracing, metrics and alerts everywhere.
- RefResolver.DfsSorter.Run: takes the roots in any order, of which the sorted order of the source is one.
- The search for references outside parsed schemas and the normalization of reference paths.
- Lifetime of the string views that entries of a baggage hold into the header, and the state of a moved-from baggage.
- Baggage.Baggage.AddEntry: what further calls do once the text of a baggage no longer re-parses, which its clause on re-parsing tells.
- BaggageText.GluedReadsSame: lists so long that the glued text meets the limit of 64 entries; BaggageText.GluedParse says what those read as.
- ApiCache.Api.GetUsers: what follows after the literal None has spoiled a key, which its last clause tells; the same for ApiCache.Api.GetPosts.
- The visitor marks a Ref as indirect in place when its chain is; later chains through that Ref meet the same indirect link anyway.
- StopPeriodicUpdates, dump writing, the cleanup task and the timing of the periodic task; a second start after a stop.
- CacheUpdates.Updater.Start: the updates of the first start run without other calls in between; interleavings with invalidations are in CacheHandshake.
- Redis failures and concurrent requests in the Mongo API: errors are swallowed and a reader can store a stale value after an invalidation, so coherence is a claim about one request at a time.
- Date formatting of cached documents, passwords, the order of statistics rows with equal counts, and the messages endpoints, which do not read the cache.
- RateLimit.Limiter.CheckRateLimit: reads the clock and counts in one step, on one clock for all servers.
- ReadModel.Consumer.Callback: one consumer; a body whose JSON is no object counts as unreadable, a payload that is no object as one without fields.
- Which fields a view document has: a missing field reads as zero.
- The service handlers in C++, code generators, samples, benchmarks and functional test services: thin wrappers over SQL, HTTP or files.
