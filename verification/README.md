# A verified model of Neptune's protocols, containers, parsers and arithmetic

This project models the parts of Neptune, a C++ infrastructure library, in which the logic is
hard: a distributed protocol, pointer structures, backtracking parsers, ring buffers and unrolled
arithmetic. Everything is stated and proved in Dafny.

| files | what they model |
|---|---|
| `SequenceNames`, `LeaderElection` | ZooKeeper leader election as a step system: any number of candidates, a directory of ephemeral sequence nodes, one-shot watches and undelivered events. `CheckLeader` is cut at its two remote calls, so anything can happen in between. |
| `ElectionCallbacks` | The callbacks of one `ZkLeaderSelection` object over any sequence of `Proposals` calls and watcher events. A failed `CHECK` is a terminal state. |
| `DependencySort`, `ModuleManager` | Kahn's algorithm on the dependency map, and the module registry that sorts, initializes and destroys modules with it, over every sequence of registrations and initializations. |
| `IntrusiveList`, `LruSpec`, `MemoryCache` | A circular doubly linked list on the heap, and an LRU cache whose ring and map refine a list of slots. |
| `CountingStats`, `MeanStats` | Sliding-window statistics in a ring of 3600 one-second slots, against the log of accepted samples. |
| `UriSpec`, `UriParser`, `UriGrammar`, `UriLanguage`, `Segments`, `DotSegments` | The recursive-descent URI parser with its cursor rollback, the printer, a grammar on positions of the text that is met in both directions, and in-place removal of dot segments. |
| `StateMachine` | A state machine over tasks: route check, registration and runs under arbitrary task results. |
| `RankStatistics`, `Spearman` | The area under the ROC curve and Spearman's coefficient in exact arithmetic. |
| `PathNormalize` | Lexical path normalization against walking a directory tree without symbolic links. |
| `DecimalPrinter` | The unrolled decimal printers with their jumps into a ladder of labels. |
| `PrefixMap` | The longest-prefix index with its digest table and its count of keys per length. |
| `PercentCodec`, `ShellCodec` | Percent encoding and backslash escapes on byte strings. |
| `Wrappers`, `Sequences`, `Digits`, `Bytes` | Small vocabulary the other files share. |

Objects that the library updates in place are classes with the same fields; loops are loops; each
such method is proved against a specification function, and what the library promises is proved
about that function for all inputs, all histories or all runs. Ghost parameters of a few methods
(a position in a ring, for instance) have no counterpart in the library.

Where the code does not do what its comments, a standard or its purpose suggest, the model follows
the code, and a theorem says exactly when:

- `match_relative_ref` never matches a fragment, although its comment has one: a relative reference
  of the grammar parses exactly if it has no fragment (`UriLanguage.RelativeParsesExactlyWhen`,
  `UriLanguage.FragmentWitness`).
- `match_hier_part` puts the cursor back after a path without authority, so a URI with a scheme
  parses completely exactly if it has an authority as in the grammar, or nothing at all between the
  colon and the query (`UriLanguage.SchemeParsesExactlyWhen`, `UriLanguage.RollbackWitness`).
- The optional dot at the end of a host name is never matched (`UriGrammar.FinalDotNeverTaken`), and
  a reference whose host ends in a dot never parses completely (`UriLanguage.FinalDotNeverParses`).
  A prefix of such a host can still be matched as an address, as in "1.2.3.4."; the dot left over
  stops the parse (`UriLanguage.FinalDotAddressWitness`).
- The label rule in the comments ends a label in a letter or digit. The code also takes trailing
  hyphens once a letter or digit has followed the first character, and the grammar here says the
  same (`UriGrammar.StrictLabelExactlyWhen`, `UriLanguage.TrailingHyphenWitness`).
- `remove_dot_segments` keeps the first segment of a relative path where section 5.2.4 of RFC 3986
  removes it; `DotSegments.DiffersFromRfcExactlyWhen` says when, and `DotSegments.DiffersWitness`
  shows one.
- The minimum and maximum that `MeanStats` reports count an empty first second as a sample of value
  0. They are values of samples exactly if recording began in the window, its first second has a
  sample, or a sample has 0 on its right side (`WindowMeans.ReportedBounds`); adding 7 at second 0
  and 5 at second 2 and asking at 3 for two seconds reports the minimum 0
  (`WindowMeans.BoundsWitness`, `WindowMeans.ReportsZero`).
- The third digit of an octal shell escape is used and then read again, and 8 and 9 pass for octal
  digits: such an escape is read as in the shell's $'...' exactly if it has one or two octal digits
  and no digit behind them (`ShellCodec.OctalAsUsualExactlyWhen`, `ShellCodec.OctalWitness`).
- Of the hexadecimal digits in a shell escape only 1 to 9, A to F and `a` are recognized; a zero
  and the other lower-case ones end the escape (`ShellCodec.HexAsUsualExactlyWhen`,
  `ShellCodec.HexWitness`); an escape without a recognized digit appends an unset variable
  (`ShellCodec.JunkShows`, `ShellCodec.JunkWitness`).
- The copying percent decoder uses the byte after its input when '%' is the next-to-last byte
  (`PercentCodec.DecodersDifferExactlyWhen`, `PercentCodec.BeyondWitness`).
- Registering a dependency of a module that has already been constructed breaks the order, unless
  what it depends on was constructed even earlier (`ModuleManagement.LateDependencyBreaksOrder`).
  The order is right exactly in runs without such a registration (`ModuleManagement.EveryRun`), and
  it never recovers (`ModuleManagement.BrokenStays`).
- The area under the curve depends on how the sort treats equal scores exactly if a positive has the
  score of a negative (`RankStatistics.AucDeterminedExactlyWhen`).

## Model

| member | source | states |
|---|---|---|
| `SequenceNames.PaddedOrder` | common/zookeeper/zk_leader_election.cpp:273-287 | Digit strings of equal length compare as strings exactly as the numbers they print, and are equal only for equal numbers. |
| `SequenceNames.NameOrder` | common/zookeeper/zk_leader_election.cpp:235-287 | Child names with one prefix order as their sequence numbers; no two numbers share a name. |
| `SequenceNames.SequenceNamesEligible` | common/zookeeper/zk_leader_election.cpp:256-269 | The filter never drops a genuine sequence node of the same election. |
| `SequenceNames.NumericExactlyWhen` | common/zookeeper/zk_leader_election.cpp:265-266 | The number test accepts exactly blanks, at most one sign, and then one digit or more to the end. |
| `SequenceNames.EligibleExactlyWhen` | common/zookeeper/zk_leader_election.cpp:256-269 | A child takes part exactly if it is the prefix and such a number text, and as long as one's own name. |
| `SequenceNames.StrangerChangesNothing` | common/zookeeper/zk_leader_election.cpp:256-306 | Any other child changes no decision. |
| `SequenceNames.OddCharacterChangesNothing` | common/zookeeper/zk_leader_election.cpp:265-306 | In particular no child with a character in its suffix that is neither digit, blank nor sign. |
| `SequenceNames.CompetitorCounts` | common/zookeeper/zk_leader_election.cpp:273-306 | A smaller child that takes part keeps one from leading, and nothing below it is watched instead. |
| `SequenceNames.NameWitness` | common/zookeeper/zk_leader_election.cpp:235-239 | With the prefix "n_" the number 123 is named "n_0000000123". |
| `SequenceNames.DecisionUnique` | common/zookeeper/zk_leader_election.cpp:273-328 | The outcome of a listing (not found, lead, or the one node to watch) is a function of the set of children, so the order in which they arrive does not matter. |
| `SequenceNames.FilterChildren` | common/zookeeper/zk_leader_election.cpp:256-269 | Keeps exactly the children with the prefix, the length of one's own name and a decimal suffix. |
| `SequenceNames.Decide` | common/zookeeper/zk_leader_election.cpp:256-306 | The scan leads exactly if no competitor is smaller, and otherwise watches the largest competitor below itself. |
| `LeaderElection.CreateKeeps` | common/zookeeper/zk_leader_election.cpp:208-227 | A new sequence node is above every older one and disturbs no claim: the invariant is kept. |
| `LeaderElection.DecisionOnNumbers` | common/zookeeper/zk_leader_election.cpp:273-306 | A decision on names says the same about live sequence numbers: nobody below, or no live number between the watched node and one's own. |
| `LeaderElection.ListKeeps` | common/zookeeper/zk_leader_election.cpp:229-293 | Listing the children keeps the invariant at any moment. |
| `LeaderElection.ProbeKeeps` | common/zookeeper/zk_leader_election.cpp:294-338 | The exists-with-watch call keeps the invariant whether its node is still there or went away since the listing. |
| `LeaderElection.DeleteKeeps` | common/zookeeper/zk_leader_election.cpp:51-77 | Deleting any node, which fires its watches, keeps the invariant. |
| `LeaderElection.LocalStepKeeps` | common/zookeeper/zk_leader_election.cpp:51-77 | Delivered events, failed calls and lost sessions keep the invariant. |
| `LeaderElection.RunKeeps` | common/zookeeper/zk_leader_election.cpp:208-328 | The invariant holds in every state of every run. |
| `LeaderElection.AtMostOneLiveLeader` | common/zookeeper/zk_leader_election.cpp:229-306 | In every state of every run at most one candidate that was told ZOK still has its node alive. |
| `LeaderElection.NoLostWakeUp` | common/zookeeper/zk_leader_election.cpp:308-328 | Every parked candidate either has an armed watch on a live node or an undelivered event for it, never both; a waiting one watches an eligible smaller node. |
| `LeaderElection.NoHerd` | common/zookeeper/zk_leader_election.cpp:273-328 | Two waiting candidates with live nodes never watch the same node. |
| `LeaderElection.DrainedSmallestLeads` | common/zookeeper/zk_leader_election.cpp:51-62 | Once no events are pending, the smallest live candidate is not waiting. |
| `LeaderElection.SmallestAdvances` | common/zookeeper/zk_leader_election.cpp:229-328 | The smallest live candidate always has a step, and every own step that does not fail brings it strictly closer to leading. |
| `LeaderElection.EndsExactlyWhen` | common/zookeeper/zk_leader_election.cpp:208-338 | A candidate ends exactly by a failed call, a lost session, its own node missing from a listing or from its probe, or, leading, the news that its node is gone. |
| `LeaderElection.ElectedExactlyWhen` | common/zookeeper/zk_leader_election.cpp:294-306 | A candidate is told ZOK exactly when, found smallest, it sets a watch on its own live node. |
| `LeaderElection.RunForgetsNothing` | common/zookeeper/zk_leader_election.cpp:340-352 | In every run, ended candidates stay ended and elected ones stay elected. |
| `LeaderElection.EndedNeverLeads` | common/zookeeper/zk_leader_election.cpp:247-253 | In every run, a candidate that ended before it was elected is never told ZOK. |
| `LeaderElection.TroubleAlwaysPossible` | common/zookeeper/zk_leader_election.cpp:229-338 | Calls may fail, sessions be lost, nodes go away and strangers appear in any state. |
| `ElectionCallbacks.ZkLeaderSelection.Reset` | common/zookeeper/zk_leader_election.cpp:107-122 | Forgets both callbacks and closes the handle without running anything. |
| `ElectionCallbacks.ZkLeaderSelection.CallDoneRun` | common/zookeeper/zk_leader_election.cpp:340-352 | The whole new state, including the aborted one when no callback is stored. |
| `ElectionCallbacks.ZkLeaderSelection.CallExpiredSessionRun` | common/zookeeper/zk_leader_election.cpp:354-361 | The whole new state; aborts with a stored done or without an expiry callback. |
| `ElectionCallbacks.ZkLeaderSelection.Proposals` | common/zookeeper/zk_leader_election.cpp:124-206 | Refuses while a handle is open, returns the code of a failed connection, and otherwise issues a new proposal; then it returns ZOK at once, or, for a caller without a callback, what its own proposal is told. |
| `ElectionCallbacks.ZkLeaderSelection.GlobalWatcherExpired` | common/zookeeper/zk_leader_election.cpp:36-44 | An expired session ends a pending proposal with -1 or runs the expiry callback. |
| `ElectionCallbacks.ZkLeaderSelection.NodeWatcher` | common/zookeeper/zk_leader_election.cpp:51-62 | A deletion leads to another check of the leader. |
| `ElectionCallbacks.ZkLeaderSelection.MyselfWatcher` | common/zookeeper/zk_leader_election.cpp:64-77 | Losing the leader's own node runs the expiry callback. |
| `ElectionCallbacks.HandleKeeps` | common/zookeeper/zk_leader_election.cpp:107-361 | Every handler keeps the invariant that ties stored callbacks to the calls made so far. |
| `ElectionCallbacks.CallbacksOrderly` | common/zookeeper/zk_leader_election.cpp:340-361 | Over every sequence of events, a proposal's done runs at most once, and its expiry callback at most once and only after its done ran with ZOK. |
| `ElectionCallbacks.ClosedMeansAllTold` | common/zookeeper/zk_leader_election.cpp:189-206 | Whenever the object is closed, every proposal ever issued has had its done run: none is lost. |
| `ElectionCallbacks.WaiterGetsItsResult` | common/zookeeper/zk_leader_election.cpp:191-206 | Over every sequence of events, a call that waits for its own proposal gets a code exactly if that proposal was told it, no later event changes it, and it has one whenever the object is closed. |
| `ElectionCallbacks.WhatAnEventTells` | common/zookeeper/zk_leader_election.cpp:107-361 | For each event, in plain terms: which callback runs with which code, whether the handle is open afterwards, which callbacks stay stored, and when a CHECK fails. |
| `ElectionCallbacks.ToldExactlyWhy` | common/zookeeper/zk_leader_election.cpp:229-361 | Over every sequence of events, a proposal is told 0 exactly if a check was won while it was pending, and another code exactly if a check failed with that code or, for -1, its session expired. |
| `ElectionCallbacks.OpenExactlyWhen` | common/zookeeper/zk_leader_election.cpp:107-361 | Over every sequence of events, the handle is open exactly while the newest proposal has been told no error and has not lost its leadership. |
| `DependencySort.CountDependents` | common/base/module/dependency_map.cpp:20-28 | The indegree of every name is the number of its dependents, and names without any have no entry. |
| `DependencySort.InitialQueue` | common/base/module/dependency_map.cpp:30-35 | Holds exactly the keys nothing depends on, once each. |
| `DependencySort.Release` | common/base/module/dependency_map.cpp:46-51 | Lowers the indegree of each dependency by one and queues exactly those that reach zero. |
| `DependencySort.TopologicalSort` | common/base/module/dependency_map.cpp:18-55 | The assertion fails exactly if some dependency is no key and not reachable from a cycle; otherwise the result lists, once each and before everything it depends on, exactly the names that are not reachable from a cycle, and true is returned exactly for acyclic graphs. |
| `DependencySort.StuckIsFromCycle` | common/base/module/dependency_map.cpp:39-54 | Names that all keep a dependent among themselves are reachable from a cycle (by walking back until a name repeats). |
| `DependencySort.LayeredNotFromCycle` | common/base/module/dependency_map.cpp:39-54 | A listed name is not reachable from any cycle. |
| `DependencySort.CompleteIffAcyclic` | common/base/module/dependency_map.cpp:54-54 | The result has as many names as the map exactly if the graph is acyclic. |
| `ModuleManagement.ModuleManager.RegisterModuleCtor` | common/base/module/module.cpp:76-96 | Ends the program on a duplicate and otherwise adds the module without touching known dependencies or the order of construction. |
| `ModuleManagement.ModuleManager.RegisterModuleDtor` | common/base/module/module.cpp:98-111 | Ends the program for an unknown module or a second destructor. |
| `ModuleManagement.ModuleManager.RegisterDependency` | common/base/module/module.cpp:113-117 | Adds one dependency; the order stays right unless the module has already been constructed without it. |
| `ModuleManagement.ModuleManager.SortModules` | common/base/module/module.cpp:119-153 | Succeeds exactly for acyclic maps whose names are all registered, and then lists every module after all its dependencies. |
| `ModuleManagement.ModuleManager.InitializeAll` | common/base/module/module.cpp:191-215 | Ends the program exactly on a bad graph, an unknown name or a failing constructor; otherwise every module is initialized, and earlier constructions are never repeated or reordered. |
| `ModuleManagement.ModuleManager.InitializeSorted` | common/base/module/module.cpp:194-214 | Runs the constructors still missing, in order, and keeps the order of construction right. |
| `ModuleManagement.ModuleManager.RunCtor` | common/base/module/module.cpp:199-209 | One more construction, and an exit handler exactly if it succeeds and has a destructor. |
| `ModuleManagement.TransitiveDependenciesFirst` | common/base/module/module.cpp:191-214 | Every module reachable over dependencies was constructed before. |
| `ModuleManagement.DependentsDestroyedFirst` | common/base/module/module.cpp:205-208 | Last-in-first-out exit handlers destroy a module before everything it depends on, directly or not. |
| `ModuleManagement.EveryRun` | common/base/module/module.cpp:76-215 | In every state of every run no constructor has run twice and handlers belong to constructor calls that succeeded, and every constructor ran after those it depends on exactly if each dependency so far was registered before its module was constructed or after what it depends on was. |
| `ModuleManagement.BrokenStays` | common/base/module/module.cpp:113-215 | No operation repairs a broken order of construction. |
| `ModuleManagement.RunRespectsDependencies` | common/base/module/module.cpp:191-214 | In every state of every run with dependencies registered in time so far, a module was constructed after, and is destroyed before, everything it reaches over dependencies. |
| `ModuleManagement.HandlersExactlyWhen` | common/base/module/module.cpp:98-215 | In every state of every run that has not ended, the exit handlers are, once each, exactly the modules whose constructor ran after their destructor had been registered. |
| `ModuleManagement.StepHandlers` | common/base/module/module.cpp:191-215 | One operation adds exactly the handlers of the modules it constructs that have a destructor. |
| `ModuleManagement.LateDependencyBreaksOrder` | common/base/module/module.cpp:113-117 | There is a run that registers, initializes and then adds a dependency, and its last state has the order broken. |
| `LruSpec.HistoryHolds` | common/cache/memory_cache.h:62-133 | After any history the slots are the most recently touched keys in order of their last touch, at most as many as the capacity, each with the value last accepted for it. |
| `LruSpec.GetReturnsLastPut` | common/cache/memory_cache.h:105-118 | A successful get returns the last accepted put of that key. |
| `LruSpec.EvictsLeastRecentlyUsed` | common/cache/memory_cache.h:154-164 | The evicted key is the least recently touched one. |
| `LruSpec.HistoryTimed` | common/cache/memory_cache.h:82-102 | After any history every slot expires one life after the last accepted put of its key. |
| `LruSpec.GetExactlyWhen` | common/cache/memory_cache.h:120-133 | After any history a get reports 1 for a key that is not held; for one last put at t it succeeds exactly if now is at most t + life, taken modulo 2^64, and else reports 2. |
| `LruSpec.PutExactlyWhen` | common/cache/memory_cache.h:82-102 | After any history a put of a held key last put at t is refused with 4 exactly if t + life, taken modulo 2^64, is later than now and not 0; a put of another key reports 3 exactly if the cache is full. |
| `LruSpec.ExpiryWitness` | common/cache/memory_cache.h:120-133 | Put at 1000 with a life of 60000, a key is found at 61000 and expired at 61001. |
| `IntrusiveList.Node.Unlink` | common/base/stdext/intrusive_list.h:31-40 | Taking a node out of a ring leaves a ring without it and the node alone in its own ring. |
| `IntrusiveList.Node.LinkBetween` | common/base/stdext/intrusive_list.h:280-288 | Four pointer writes put a node between two neighbours of a ring. |
| `IntrusiveList.List.Empty` | common/base/stdext/intrusive_list.h:180-183 | True exactly if the list has no element. |
| `IntrusiveList.List.PushFront` | common/base/stdext/intrusive_list.h:234-236 | The ring stays well formed and the elements get one more in front. |
| `IntrusiveList.List.PushBack` | common/base/stdext/intrusive_list.h:237-239 | The ring stays well formed and the elements get one more at the end. |
| `IntrusiveList.List.Erase` | common/base/stdext/intrusive_list.h:250-255 | Removes exactly that element, wherever it is. |
| `IntrusiveList.List.PopFront` | common/base/stdext/intrusive_list.h:241-244 | Removes the first element and leaves the rest in order. |
| `IntrusiveList.List.Clear` | common/base/stdext/intrusive_list.h:257-262 | Empties the list and leaves every former element alone in its own ring. |
| `IntrusiveList.List.Splice` | common/base/stdext/intrusive_list.h:264-277 | Moves all elements of another list to the front, in order, and leaves the other list well formed and empty. Spliced into itself, a list is emptied and its elements stay linked in a ring without head. |
| `IntrusiveList.List.SpliceOther` | common/base/stdext/intrusive_list.h:264-277 | The case of two lists without common nodes. |
| `IntrusiveList.List.SpliceSelf` | common/base/stdext/intrusive_list.h:264-277 | The case of one list. |
| `IntrusiveList.List.MoveToBack` | common/base/stdext/intrusive_list.h:31-40 | Unlinking a node, from this list or from a ring of its own, and pushing it back puts it last and keeps the order of the others. |
| `MemoryCaching.MemoryCache.MarkAsHot` | common/cache/memory_cache.h:147-152 | Moves a node, linked or not, to the end of the ring. |
| `MemoryCaching.MemoryCache.DiscardOneElement` | common/cache/memory_cache.h:154-164 | Drops the first ring element from ring and map together. |
| `MemoryCaching.MemoryCache.PutWithDetail` | common/cache/memory_cache.h:82-102 | Map, ring and nodes do exactly what `LruSpec.Put` does on slots, with its code; ring and map keep holding the same nodes, once each, and the slots are those of the history of calls. |
| `MemoryCaching.MemoryCache.GetWithDetail` | common/cache/memory_cache.h:120-133 | The same for `LruSpec.Get`; a successful call returns the value of the last accepted put of that key in the history of calls, and a failing one none. |
| `MemoryCaching.MemoryCache.Recency` | common/cache/memory_cache.h:62-164 | At any time the cache holds the most recently touched keys in order of their last touch, each with the value last accepted for it. |
| `MemoryCaching.MappedSize` | common/cache/memory_cache.h:49-59 | The map has as many entries as the ring has elements. |
| `WindowCounting.CountingStats.AddInternalCount` | common/base/timed_stats.h:141-183 | Accepts every sample that is not older than the newest, keeps each slot equal to the sum of its second, and lets the log alone decide where the ring begins (at the first sample or the edge of the window) and ends. |
| `WindowCounting.CountingStats.AddAfterGap` | common/base/timed_stats.h:156-166 | After a gap of a whole window or more, the ring holds the new sample only. |
| `WindowCounting.CountingStats.AddLaterSecond` | common/base/timed_stats.h:174-182 | Clears the seconds skipped and moves the start of the window up. |
| `WindowCounting.CountingStats.GetRecentStatsInternal` | common/base/timed_stats.h:185-201 | For every window length and query time the ring sum equals the sum over the accepted samples of the window, as far back as the ring reaches. |
| `WindowCounting.CountingStats.GetRecentCount` | common/base/timed_stats.h:95-102 | Exact for every query whose seconds are still in the window. |
| `WindowMeans.MeanStats.AddInternalValue` | common/base/timed_stats.h:341-383 | Accepts every sample that is not older than the newest, keeps each slot and the total equal to the statistics of their samples, and lets the log alone decide where the ring begins (at the first sample or the edge of the window) and ends. |
| `WindowMeans.MeanStats.Gather` | common/base/timed_stats.h:390-409 | What is gathered is a function of the log: the statistics of the window, with an empty first second counted as a 0 for minimum and maximum only. |
| `WindowMeans.MeanStats.GetRecentStatsInternal` | common/base/timed_stats.h:385-419 | The whole report is a function of the log; count and average are exact for every window of at least one second. |
| `WindowMeans.StatsMeaning` | common/base/timed_stats.h:327-339 | Statistics of a range bound every sample of it, and their minimum, maximum and sum are those of its samples. |
| `WindowMeans.StatsCount` | common/base/timed_stats.h:334-339 | The count is the number of samples in the range. |
| `WindowMeans.ReportedBounds` | common/base/timed_stats.h:385-419 | For every log and every window of at least one second: the reported minimum and maximum bound every sample of the window, and each is the value of such a sample exactly if recording began in the window, its first second has a sample, or a sample has 0 on its right side; a report without samples is all zero. |
| `WindowMeans.ReportedAverage` | common/base/timed_stats.h:385-419 | The reported count is the number of samples in the window, and the average times the count is within the count of their sum, on the side of zero. |
| `WindowMeans.TruncatedTowardsZero` | common/base/timed_stats.h:414-418 | The division cuts towards zero. |
| `WindowMeans.NoSecondsBounds` | common/base/timed_stats.h:385-419 | A window of no seconds reports the minimum and maximum of the second it would begin at, or zeros. |
| `WindowMeans.BoundsWitness` | common/base/timed_stats.h:385-419 | With samples of 7 in second 0 and 5 in second 2, the query at 3 for two seconds reports minimum 0, maximum 5, count 1 and average 5, and 0 is no sample's value. |
| `WindowMeans.ReportsZero` | common/base/timed_stats.h:341-419 | The same calls on the object give that report. |
| `UriParsing.UriParser.MatchPctEncoded` | common/net/uri/uri.cpp:529-546 | Consumes "%XX" or "%uXXXX" and nothing else. |
| `UriParsing.UriParser.MatchLabel` | common/net/uri/uri.cpp:575-609 | Ends where the label rule ends, with the rollback of trailing hyphens as coded. |
| `UriParsing.UriParser.MatchHostName` | common/net/uri/uri.cpp:560-572 | Ends where the host name rule ends, or leaves the cursor. |
| `UriParsing.UriParser.SkipDottedLabels` | common/net/uri/uri.cpp:562-567 | Ends where no label with a dot behind it follows. |
| `UriParsing.UriParser.MatchIpv4Address` | common/net/uri/uri.cpp:360-379 | Ends where the address rule ends, or leaves the cursor. |
| `UriParsing.UriParser.MatchHost` | common/net/uri/uri.cpp:337-344 | Sets the host exactly if one of the two rules matches. |
| `UriParsing.UriParser.MaybeContainsUserInfo` | common/net/uri/uri.cpp:297-307 | True exactly if an '@' comes before the next '/'. |
| `UriParsing.UriParser.MatchUserInfo` | common/net/uri/uri.cpp:311-316 | Sets the user info exactly if it is followed by '@'. |
| `UriParsing.UriParser.MatchAuthority` | common/net/uri/uri.cpp:310-327 | A failing authority leaves a set user info behind. |
| `UriParsing.UriParser.MatchNetPath` | common/net/uri/uri.cpp:222-226 | "//" authority path, or the cursor back at its start with whatever was set. |
| `UriParsing.UriParser.MatchPathAbsolute` | common/net/uri/uri.cpp:428-442 | Sets a path that begins with one slash. |
| `UriParsing.UriParser.MatchPathFrom` | common/net/uri/uri.cpp:445-472 | Sets a path that begins with a non-empty segment of the given characters. |
| `UriParsing.UriParser.MatchHierPart` | common/net/uri/uri.cpp:222-230 | With the cursor put back after a path without authority. |
| `UriParsing.UriParser.MatchRelativePart` | common/net/uri/uri.cpp:270-279 | Without that rollback. |
| `UriParsing.UriParser.MatchQuery` | common/net/uri/uri.cpp:202-207 | Sets the query after a '?'. |
| `UriParsing.UriParser.MatchFragment` | common/net/uri/uri.cpp:208-213 | Sets the fragment after a '#'. |
| `UriParsing.UriParser.MatchSchemeAndColon` | common/net/uri/uri.cpp:283-295 | Sets the scheme exactly if a colon ends it. |
| `UriParsing.ParseBuffer` | common/net/uri/uri.cpp:187-234 | The cursor and every component end exactly as `UriSpec.ParseReference` says. |
| `UriParsing.ParseUri` | common/net/uri/uri.cpp:696-707 | Succeeds exactly if the whole text is consumed, and then printing the result gives the text back. |
| `UriSpec.ParseThenPrint` | common/net/uri/uri.cpp:696-749 | Whatever parses completely is printed back exactly, so nothing set on an abandoned branch survives a complete parse. |
| `UriSpec.HierPartFaithful` | common/net/uri/uri.cpp:139-230 | After the hier-part either exactly the consumed text is printed, or the rest of the text can not be consumed any more. |
| `UriSpec.RelativePartFaithful` | common/net/uri/uri.cpp:270-279 | The same for the relative part. |
| `UriGrammar.GrammarParses` | common/net/uri/uri.cpp:197-344 | Every URI scheme "://" authority path-abempty ["?" query] ["#" fragment] of the grammar, given by cuts into the text, parses completely and into exactly the components between its cuts. |
| `UriLanguage.SchemeParsesExactlyWhen` | common/net/uri/uri.cpp:197-230 | A text with a scheme parses completely exactly if it is such a URI, or has nothing but an optional query and fragment behind the colon; without "//" behind the colon, exactly in the second case. |
| `UriLanguage.RelativeParsesExactlyWhen` | common/net/uri/uri.cpp:255-279 | A text without a scheme parses completely exactly if it is a relative reference of the grammar, with or without authority, that has no fragment. |
| `UriLanguage.NetRefParses` | common/net/uri/uri.cpp:255-279 | A relative reference with an authority parses completely exactly if it has no fragment, and then into the components between its cuts. |
| `UriLanguage.LocalRefParses` | common/net/uri/uri.cpp:255-279 | A relative reference without authority parses completely exactly if it has no fragment; path and query are found in either case. |
| `UriLanguage.RelativeNeverHasFragment` | common/net/uri/uri.cpp:255-267 | Nothing with a '#' and without a scheme parses completely. |
| `UriLanguage.TwoSlashesNeedAuthority` | common/net/uri/uri.cpp:270-279 | Two slashes that no authority follows are never passed. |
| `UriLanguage.BadEscapeNeverParses` | common/net/uri/uri.cpp:527-546 | A text with a "%" that begins no escape never parses completely. |
| `UriLanguage.EscapesParse` | common/net/uri/uri.cpp:527-546 | "/%XX" and "/%uXXXX" parse into that path for all hexadecimal digits of either case. |
| `UriLanguage.UserInfoStays` | common/net/uri/uri.cpp:310-327 | User info whose host fails stays set, and the text does not parse. |
| `UriLanguage.FinalDotNeverParses` | common/net/uri/uri.cpp:559-572 | A reference, with or without scheme, whose host is labels each followed by a dot never parses completely. |
| `UriLanguage.RollbackWitness` | common/net/uri/uri.cpp:222-230 | "a:b" does not parse. |
| `UriLanguage.FragmentWitness` | common/net/uri/uri.cpp:255-267 | "/a#b" is a reference of the grammar and does not parse. |
| `UriLanguage.FinalDotWitness` | common/net/uri/uri.cpp:559-572 | "//a." does not parse. |
| `UriLanguage.FinalDotAddressWitness` | common/net/uri/uri.cpp:360-379 | "//1.2.3.4." does not parse. |
| `UriLanguage.TrailingHyphenWitness` | common/net/uri/uri.cpp:574-609 | "//ab-" parses, though "ab-" is no label by the comments. |
| `UriGrammar.HostFinds` | common/net/uri/uri.cpp:336-379 | Every host name and every address of four numbers, followed by nothing that could continue a host, is recognized up to its end. |
| `UriGrammar.StrictLabelExactlyWhen` | common/net/uri/uri.cpp:574-609 | The labels of the comments are exactly the code's labels without a trailing hyphen. |
| `UriGrammar.EscapeExactlyWhen` | common/net/uri/uri.cpp:527-546 | The code finds an escape exactly where "%" and two hexadecimal digits stand, or "%u" and four. |
| `UriGrammar.CharacterSets` | common/net/uri/uri.cpp:95-116 | Each character set by codes and by the list in the source. |
| `UriGrammar.FinalDotNeverTaken` | common/net/uri/uri.cpp:559-572 | The branch for a final dot is never taken. |
| `UriGrammar.FinalDotRejected` | common/net/uri/uri.cpp:559-572 | The host name rule fails on a name whose labels are all followed by dots. |
| `DotSegments.RemoveDotSegments` | common/net/uri/uri.cpp:836-896 | The in-place buffer loop terminates and computes the rules of section 5.2.4 of RFC 3986 as coded. |
| `DotSegments.Round` | common/net/uri/uri.cpp:843-895 | One round on the buffer is one step of the rules on text, and makes progress. |
| `DotSegments.AbsoluteIsStackReading` | common/net/uri/uri.cpp:836-896 | On paths beginning with "/" the result is the reading of the segments as a stack. |
| `DotSegments.RemoveMeans` | common/net/uri/uri.cpp:836-896 | The meaning of the result on every path, for the code and for section 5.2.4 of RFC 3986. |
| `DotSegments.DiffersFromRfcExactlyWhen` | common/net/uri/uri.cpp:828-833 | Code and RFC differ exactly on relative paths whose ".." segments climb above the first segment. |
| `DotSegments.DiffersWitness` | common/net/uri/uri.cpp:828-833 | "a/../b" becomes "a/b" in the code and "/b" in the RFC. |
| `DotSegments.ResultHasNoDots` | common/net/uri/uri.cpp:836-896 | No "." or ".." segment remains. |
| `DotSegments.RemoveIdempotent` | common/net/uri/uri.cpp:836-902 | Removing dot segments twice is removing them once. |
| `Segments.RenderSplit` | common/system/path.cpp:85-102 | Splitting at slashes and joining again gives the text back. |
| `Segments.SplitRender` | common/system/path.cpp:85-102 | Joining segments without slashes and splitting gives the segments back. |
| `TaskStateMachine.StateMachine.AddState` | common/state_machine/state_machine.cc:57-66 | Aborts after the start or for the end state, and otherwise adds the state. |
| `TaskStateMachine.StateMachine.AddTransition` | common/state_machine/state_machine.cc:68-73 | Aborts on an invalid transition; the first transition for a state and result stays, beats the default on that result, and changes nothing else. |
| `TaskStateMachine.StateMachine.AddDefaultTransition` | common/state_machine/state_machine.cc:75-79 | The same for default transitions, which count for all results without a transition. |
| `TaskStateMachine.StateMachine.SuccessCanReachEnd` | common/state_machine/state_machine.cc:99-120 | Terminates, and is true exactly if the route of successes reaches the end. |
| `TaskStateMachine.StateMachine.Start` | common/state_machine/state_machine.cc:81-92 | Aborts exactly on a second start, an unknown state, or a route that never ends while the check is on; otherwise the start state has been entered and states whose creators give no task have been passed. |
| `TaskStateMachine.StateMachine.RunCurrentState` | common/state_machine/state_machine.cc:122-148 | Enters the current state: the end and an unknown state end the run, a task is left pending, and a creator that gives no task counts as the result kSkiped and the machine goes on. |
| `TaskStateMachine.StateMachine.CurrentStateDone` | common/state_machine/state_machine.cc:150-172 | Records the result and ends the run or enters the next state, again passing states without a task. |
| `TaskStateMachine.SkipsAreResults` | common/state_machine/state_machine.cc:139-145 | A run with states without a task is the run in which their tasks report kSkiped, so what holds of every run holds of these. |
| `TaskStateMachine.LoopNeverEnds` | common/state_machine/state_machine.cc:113-116 | A route that meets a state twice never reaches the end. |
| `TaskStateMachine.EndingRouteIsSimple` | common/state_machine/state_machine.cc:99-120 | A route that reaches the end repeats no state. |
| `TaskStateMachine.EveryRun` | common/state_machine/state_machine.cc:122-172 | Under any task results the history is a path of next states from the start, an unknown state is never met, and the final callback runs at most once and only at the end of the run. |
| `TaskStateMachine.AllSuccessEnds` | common/state_machine/state_machine.cc:99-172 | A run of successes from a start that passes the check ends at the end state without repeating a state. |
| `TaskStateMachine.ResultsRecorded` | common/state_machine/state_machine.cc:150-172 | The history holds the results in the order they arrived, and the run takes every result until it stops. |
| `TaskStateMachine.NamedBeatsDefault` | common/state_machine/state_machine.cc:174-193 | A transition for the result is taken whatever the default says, and the default for all other results. |
| `TaskStateMachine.SmallMachine` | common/state_machine/state_machine.cc:122-193 | A machine with one state, one transition and one default: its history, its route, and kSkiped as 2. |
| `RankStatistics.CountRanks` | learning/evaluate/evaluater.h:90-98 | Counts the positives, the negatives and the rank sum. |
| `RankStatistics.AucCompute` | learning/evaluate/evaluater.h:83-119 | The numerator is the number of pairs of a positive ahead of a negative, never underflows, and is at most the denominator, positives times negatives. |
| `RankStatistics.RankSumCountsPairs` | learning/evaluate/evaluater.h:99-99 | The rank sum is a triangular number plus the pairs ahead. |
| `RankStatistics.PairsAheadCounts` | learning/evaluate/evaluater.h:91-99 | Counting pairs along the list is the size of the set of pairs. |
| `RankStatistics.AucIndependentOfOrder` | learning/evaluate/evaluater.h:86-99 | Without ties between a positive and a negative, every sorted order gives the number of pairs won by score, whatever the order of the input. |
| `RankStatistics.AucDeterminedExactlyWhen` | learning/evaluate/evaluater.h:86-99 | Every order the sort may produce gives the same numerator exactly if no positive has the score of a negative. |
| `RankStatistics.TiesShow` | learning/evaluate/evaluater.h:86-99 | With such a tie, another sorted order gives another numerator. |
| `Spearman.SpearmanRank` | learning/evaluate/evaluater.h:122-141 | The coefficient of at least two objects lies in [-1, 1] and is 1 exactly if both orders agree; the ranks are a permutation. |
| `Spearman.SharedTotal` | learning/evaluate/evaluater.h:136-140 | For every permutation the squared differences to the identity and to the reversal add up to (n^3 - n)/3. |
| `Spearman.DifferentialZero` | learning/evaluate/evaluater.h:136-139 | The sum of squared differences is zero exactly for equal orders. |
| `Spearman.CoefficientRange` | learning/evaluate/evaluater.h:140-140 | The coefficient lies in [-1, 1], is 1 exactly for equal and -1 exactly for opposite orders. |
| `Spearman.CoefficientAffine` | learning/evaluate/evaluater.h:140-140 | The coefficient is 1 for the sum 0 and falls by the same amount with every further unit of the sum. |
| `PathNormalization.Normalize` | common/system/path.cpp:73-107 | The loop computes the normalized path. |
| `PathNormalization.NormalComponents` | common/system/path.cpp:88-99 | The loop keeps the components that the rules keep, for every list of components. |
| `PathNormalization.NormalizeKeepsMeaning` | common/system/path.cpp:73-107 | From every working directory the normalized path leads to the same place. |
| `PathNormalization.NormalizeIdempotent` | common/system/path.cpp:73-107 | Normalizing twice is normalizing once. |
| `PathNormalization.NormalizeCanonical` | common/system/path.cpp:73-107 | Two paths lead to the same place from everywhere exactly if they normalize to the same text. |
| `PathNormalization.KeepAllNormal` | common/system/path.cpp:88-99 | No empty or "." component is kept, and ".." only as a leading run of a relative path. |
| `PathNormalization.NormalForm` | common/system/path.cpp:73-107 | The result is "." alone, a root alone, or the root and normal names with one slash between; never empty. |
| `PathNormalization.InitialSlashesExactly` | common/system/path.cpp:77-82 | Exactly two leading slashes count as two; one, three or more count as one. |
| `DecimalPrinter.OutputUInt32AsString` | common/base/string/string_number.cpp:536-605 | Prints the canonical decimal form of every 32-bit number in at most ten characters. |
| `DecimalPrinter.Enter` | common/base/string/string_number.cpp:539-604 | What is printed before the jump into the ladder, and what is left to print at that label, make up the number. |
| `DecimalPrinter.Ladder` | common/base/string/string_number.cpp:546-573 | From each of its labels the unrolled code prints what is left. |
| `DecimalPrinter.SubtractExact` | common/base/string/string_number.cpp:546-546 | The signed product of digits and weight may wrap around and the difference is still exact. |
| `DecimalPrinter.OutputUInt64AsString` | common/base/string/string_number.cpp:617-652 | Prints the canonical form of every 64-bit number in at most twenty characters. |
| `DecimalPrinter.PrintNineDigits` | common/base/string/string_number.cpp:629-651 | The nine low digits, with leading zeros. |
| `DecimalPrinter.OutputInt32AsString` | common/base/string/string_number.cpp:607-615 | A minus sign exactly for negative numbers, and the canonical form of the absolute value. |
| `DecimalPrinter.OutputInt64AsString` | common/base/string/string_number.cpp:654-662 | The same for 64 bits. |
| `DecimalPrinter.DecimalIsCanonical` | common/base/string/string_number.cpp:536-605 | The canonical form has the number as its value and no leading zero except in "0". |
| `DecimalPrinter.CanonicalIsDecimal` | common/base/string/string_number.cpp:536-605 | It is the only such digit string with that value. |
| `DecimalPrinter.DecimalLength` | common/base/string/string_number.cpp:536-652 | It has at most k digits exactly for numbers below 10^k. |
| `DecimalPrinter.SignedInjective` | common/base/string/string_number.cpp:607-662 | Different integers never print alike. |
| `DecimalPrinter.SignedReadsBack` | common/base/string/string_number.cpp:607-662 | The text reads back as the number, with a minus sign exactly for negative ones. |
| `PrefixMaps.PrefixMap.InternalInsert` | common/collection/prefix_map.h:136-150 | Stores or overwrites the string and tells whether it is new; table and length index stay consistent. |
| `PrefixMaps.PrefixMap.Remove` | common/collection/prefix_map.h:64-78 | Forgets exactly that string, and a length whose last key went leaves the index. |
| `PrefixMaps.PrefixMap.FindMatchLength` | common/collection/prefix_map.h:85-118 | Returns the longest stored prefix and its value, where the whole string only counts if it is inclusive, or -1 if there is none. |
| `PrefixMaps.PrefixMap.FindShorter` | common/collection/prefix_map.h:105-115 | The loop over shorter lengths finds the longest proper prefix below a bound. |
| `PrefixMaps.PrefixMap.Find` | common/collection/prefix_map.h:80-82 | True exactly if some prefix matches, and then with the value of the longest match. |
| `PrefixMaps.PrefixMap.Clear` | common/collection/prefix_map.h:120-123 | Nothing is stored afterwards. |
| `PrefixMaps.PrefixMap.Empty` | common/collection/prefix_map.h:125-128 | Both containers are empty together, exactly if nothing is stored. |
| `PrefixMaps.OneEntry` | common/collection/prefix_map.h:85-118 | A string finds a single entry exactly if it is longer and begins with it, or is the very string and the entry is inclusive. |
| `PrefixMaps.InsertKeepsLengths` | common/collection/prefix_map.h:143-145 | The index keeps counting the keys of each length, with no zero entries, when a key is added. |
| `PrefixMaps.RemoveKeepsLengths` | common/collection/prefix_map.h:70-73 | The same when a key is removed. |
| `PercentCodec.DoEncodeAppend` | common/encoding/percent.cpp:29-42 | Appends the encoding of every byte for any set of unchanged bytes. |
| `PercentCodec.EncodeUriComponent` | common/encoding/percent.cpp:103-121 | The encoding with the component set. |
| `PercentCodec.ReadByte` | common/encoding/percent.cpp:135-153 | One round of a decoder reads one byte and where to go on, or fails on a bad escape. |
| `PercentCodec.DecodeAppend` | common/encoding/percent.cpp:133-157 | The copying decoder appends what it decodes up to the first bad escape. |
| `PercentCodec.Decode` | common/encoding/percent.cpp:164-190 | The in-place decoder, which writes behind its reading position, computes the same; on failure the string keeps its length, begins with what was decoded and is otherwise as it was. |
| `PercentCodec.EncodeThenDecode` | common/encoding/percent.cpp:29-190 | For every set without '%', decoding an encoding gives the string back, with '+' as space if the set has '+'. |
| `PercentCodec.ComponentRoundTrip` | common/encoding/percent.cpp:103-190 | Decoding undoes `EncodeUriComponent` on every byte string. |
| `PercentCodec.UriRoundTripExactlyWhen` | common/encoding/percent.cpp:48-81 | The other two encoders are undone exactly on strings without '+'. |
| `PercentCodec.PlusWitness` | common/encoding/percent.cpp:48-81 | "+" comes back as a space. |
| `PercentCodec.EncodeDecodeInPlace` | common/encoding/percent.cpp:117-190 | Encoding a byte string and decoding it in place leaves it as it was. |
| `PercentCodec.DecodersDifferExactlyWhen` | common/encoding/percent.cpp:138-144 | The decoders disagree exactly if decoding reaches '%' as next-to-last byte, a hexadecimal digit ends the input and another one follows it in memory. |
| `PercentCodec.BeyondWitness` | common/encoding/percent.cpp:138-144 | "%4" decodes to "A" if the byte behind it is '1', and fails if it is 0. |
| `PercentCodec.KeptSets` | common/encoding/percent.cpp:48-121 | The bytes each encoder leaves unchanged, by codes and by the list in the source. |
| `PercentCodec.EncodedAlphabet` | common/encoding/percent.cpp:29-42 | An encoding has nothing but unchanged bytes and "%" with two upper-case digits, and two bytes more for each byte that is not kept. |
| `PercentCodec.PlainBytesDecode` | common/encoding/percent.cpp:148-153 | Bytes other than "%" are read as they are, and "+" as a space. |
| `PercentCodec.EscapesDecode` | common/encoding/percent.cpp:138-147 | "%" and two hexadecimal digits of either case are read as their byte. |
| `PercentCodec.OtherEscapesFail` | common/encoding/percent.cpp:138-147 | Any other "%" but one at the next-to-last byte makes decoding fail there. |
| `ShellCodec.ShellEscape` | common/encoding/shell.cpp:74-127 | Appends the escape of every byte. |
| `ShellCodec.EscapeByteExactly` | common/encoding/shell.cpp:74-127 | Which bytes stay as they are, which become a letter and which get a backslash, by codes and by the list in the source. |
| `ShellCodec.EscapedIsSafe` | common/encoding/shell.cpp:74-127 | In the output nothing but plain bytes stands without a backslash, and there is one backslash for each byte that is not plain. |
| `ShellCodec.LettersRead` | common/encoding/shell.cpp:139-174 | Every letter escape stands for its control character. |
| `ShellCodec.OthersRead` | common/encoding/shell.cpp:139-238 | A backslash before any other byte that begins no number is dropped, and one at the very end reads the terminating zero. |
| `ShellCodec.ShellUnescape` | common/encoding/shell.cpp:139-238 | Appends the unescaped string to what the output already holds, whatever an unset variable contains. |
| `ShellCodec.EscapeThenUnescape` | common/encoding/shell.cpp:74-238 | Unescaping undoes escaping on every byte string, whatever an unset variable contains. |
| `ShellCodec.EscapeUnescape` | common/encoding/shell.cpp:74-238 | Escaping a byte string and unescaping it into an empty string gives it back. |
| `ShellCodec.NoJunkNoDifference` | common/encoding/shell.cpp:174-192 | Without a hexadecimal escape that lacks a digit, the result does not depend on the unset variable. |
| `ShellCodec.JunkShows` | common/encoding/shell.cpp:174-192 | With one, it does. |
| `ShellCodec.JunkWitness` | common/encoding/shell.cpp:174-192 | "\x" unescapes to the unset variable. |
| `ShellCodec.OctalAsUsualExactlyWhen` | common/encoding/shell.cpp:193-211 | Anywhere in a string, an octal escape is read as in the shell's $'...' exactly if it has one or two octal digits and no digit behind them. |
| `ShellCodec.ThreeOctalDigits` | common/encoding/shell.cpp:193-211 | Three digits give the byte of their value modulo 256 and then the third digit again, whatever follows. |
| `ShellCodec.OctalWitness` | common/encoding/shell.cpp:193-211 | "\101" unescapes to "A1". |
| `ShellCodec.HexAsUsualExactlyWhen` | common/encoding/shell.cpp:129-192 | Anywhere in a string, a hexadecimal escape with a digit is read as in the shell's $'...' exactly if its digits are all among 1 to 9, A to F and a, whatever the unset variable holds. |
| `ShellCodec.TwoHexDigits` | common/encoding/shell.cpp:129-192 | What two digits of either case unescape to; it is one byte of their value exactly if both are among these. |
| `ShellCodec.HexWitness` | common/encoding/shell.cpp:129-192 | "\x4b" and "\x40" unescape to the byte 4 and the second digit. |

## Left out

- Connecting, authenticating and the waiting they involve in `Proposals`, and all of the ZooKeeper client: how connecting ends is a parameter. A failed `zookeeper_init` is one of its failures.
- Sequence counters beyond 2147483647, where ZooKeeper's numbers turn negative: the model creates no node after that.
- The retry counter of `CheckLeader`: it is only logged.
- Logging, flag parsing, version information and the text of error messages.
- Mutexes and clocks: every method is one atomic step and the time is a parameter.
- The maximum and the per-second history of the window statistics, and the fixed-period wrappers around the queries: they would add easy members only.
- Overflow of counters and sums in the statistics, the cache clock, the rank sums and the length index: integers are unbounded there.
- `Put` and `Get` of the cache: they are `PutWithDetail` and `GetWithDetail` without the detail of the result code.
- `Contains`, `Size` and the flags of the cache: easy reads.
- IntrusiveList.List.Splice: two list heads in one ring are not modelled, so different lists have no node in common.
- Iterators, `pop_back` and `size` of the intrusive list: easy variants of what is modelled.
- Which element a `std::map` or `std::set` gives first: loops over them take the elements in any order.
- Names of modules are opaque values with equality; their text never matters.
- Merging, normalizing and writing URIs to a buffer, and the class of setters in the URI header: a setter stores its text and raises its flag.
- The sort of the standard library: `RankStatistics.SortDescending` stands for it, on values instead of in place; what is used is that its result is a non-increasing permutation.
- Rounding of floating-point results: the area is a numerator and a denominator, the coefficient a real number.
- An endless row of states whose creators give no task: the code recurses without end there, and the model takes the number of such states as a parameter.
- Deleting task objects and callbacks, and repeatable callbacks.
- The cleaner of the prefix map, which is called on removal only: values are not owned by the model.
- Collisions of digests: the operations of the prefix map ask that no stored string has the digest of a different string they are given.
- The negation of the least signed number and the signed products in the printers, which C++ leaves undefined, are modelled as wrapping around.
- Hexadecimal output, number parsing and floating-point formatting.
- Quoting and splitting of shell command lines.
- `framework/state_machine`, files, processes, networking, compression, cryptography and every foreign library.
