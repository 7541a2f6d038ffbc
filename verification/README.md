# Verified models of the algorithms and protocols in linux_command

The repository is a collection of small C and C++ programs. Several of them hold a real algorithm or a real
synchronisation protocol. This project models those parts in Dafny and proves what they promise.

| part | files | main results |
|---|---|---|
| Shortest paths | `Walks.dfy`, `Dijkstra.dfy` | every distance is the least weight of any walk; which of several shortest paths is returned; every node is expanded at most once; the backtracked path is a shortest walk, also with zero-weight edges; all on exactly the graphs whose distances fit into 32 bits |
| Substring search | `Matching.dfy`, `RabinKarp.dfy` | three matchers refine one specification; the failure table is the table of longest borders; linear bounds on fallbacks; exactly when the rolling hash misses a match, and which patterns it never misses |
| Deadlock detector | `WaitGraph.dfy`, `TaskGraph.dfy`, `DeadlockDetector.dfy`, `LockHooks.dfy`, `LockHookResults.dfy` | exactly which graphs are reported; no cycle is missed; over every run of the hooks, what a report says about real locks, and that a real ring is a deadlock for good |
| Read/write lock | `ReadWriteLock.dfy` | exclusion, true counters, who sleeps and who wakes, no lost wakeup, progress, writer preference over every run with any number of threads |
| Spin mutex | `SpinMutex.dfy` | exclusion under every interleaving of single atomic operations; the ownership test is exact; what each call returns over every run; nobody ever sleeps |
| DNS names | `Wrappers.dfy`, `DnsName.dfy` | encoder, parser and skipper agree for every valid host name; compressed names decode to their expansion; exactly which host names fill the buffer |
| Ring queue | `Wrappers.dfy`, `CircularQueue.dfy` | refinement of a FIFO sequence over every run; at most two elements copied per push |
| Memory pools | `FreeList.dfy` | free list and live slots partition all slots; no live slot is handed out again |
| Job queue | `WorkQueue.dfy` | every added job is in exactly one place; the last added is taken first; waiting jobs are never left with everybody asleep |

Code that changes state in place is modelled by methods and classes that do the same, each proved against a function
or a predicate on values; the results about runs are lemmas about those. Concurrent code is a state machine: one step is
one critical section (read/write lock, job queue), one atomic operation (mutex) or one hook call together with the real
lock operation it surrounds (deadlock detector).

Properties that turned out false of the code, with the exact condition under which they hold:

* The cycle search is not sound on arbitrary graphs. It reports a graph if and only if some vertex that has a
  predecessor reaches some vertex in two different ways (`DeadlockDetector.Detector.CheckDeadLock`); a diamond does
  (`WaitGraph.DiamondReconverges`), and five added edges make one (`TaskGraph.DiamondTableReconverges`). With at most
  one out-edge per vertex this is the same as having a cycle (`WaitGraph.ReconvergesIsCycle`), and every run of the
  hooks keeps it so (`LockHookResults.RunsHaveOneOutEdge`).
* A reported ring of threads need not be a deadlock: the edge of a waiter outlives the release of the lock it waits for
  (`LockHookResults.StaleEdgeFlagged`). It is one if and only if every lock it awaits is held
  (`LockHookResults.FlaggedRingIsRealWhenHeld`), and then none of its threads ever gets on
  (`LockHookResults.RealRingIsDeadlock`).
* With the signed `char` of the usual Linux targets Rabin-Karp can miss a match (`RabinKarp.NonAsciiMatchMissed`),
  because the truncating `%` gives congruent but different hashes. The pattern decides. An ASCII pattern is found in
  every text (`RabinKarp.RkMatch`). A pattern with a negative hash is found in every text if and only if the polynomial
  of all but its last char has residue 0 modulo MOD (`RabinKarp.SafeOnZeroPrefix`); any other is lost behind a zero char
  (`RabinKarp.NegativePatternIsUnsafe`). A pattern whose hash is not negative is found in every text if and only if that
  residue is 0 or the pattern is not spoiled: its hash does not turn negative behind fewer positive chars than it is
  long, alone or after a zero, so that finitely many short texts decide it for all texts
  (`RabinKarp.SafeIffNotSpoiled`); there are spoiled patterns (`RabinKarp.SpoiledPatternIsMissed`). Unless some positive
  chars in front of a part of it hash to residue 0, which patterns of up to four chars do not allow and some of five do
  (`RabinKarp.ShortPatternsDoNotCollide`, `RabinKarp.FiveCharsCanCollide`), the sign of the hash and that residue decide
  alone (`RabinKarp.SafeExactly`), and a text loses a pattern that is not safe if and only if its first match lies
  beyond index 0 (`RabinKarp.MissedExactlyBeyondZero`).
* The encoder fills its buffer of length plus 2 exactly if and only if the host name is not empty, has no dot at either
  end and no two dots in a row (`DnsName.FillsExactlyWhenNoEmptyLabel`); the rest of the buffer stays uninitialised, for
  "a." one byte, for "" and "." all of it (`DnsName.TrailingDotAndNoName`).
* The parser writes the expansion of a compressed name if and only if no label is followed by a pointer to the root name
  (`DnsName.ExpandsExactlyUnlessDangling`, `DnsName.DanglingName`).
* The parser ignores the high bits of a pointer. A pointer is read as RFC 1035 means it, in every message, if and only
  if its offset is below 256 (`DnsName.OffsetSafeExactly`); any other offset is misread in some message
  (`DnsName.HighPointerIsMisread`). A given name of RFC 1035 is read right if and only if it has no pointer, or the
  labels at the low byte of the first pointer are those at its real offset (`DnsName.RfcNameIsReadExactly`).
* The parser need not come to an end: pointers can lead in a circle (`DnsName.LoopNeverEnds`). A name ends if and only
  if it does so within 256 pointers (`DnsName.EndsWithinJumps`).

Shortest distances are proved for every graph with weights that are not negative which fits into 32 bits: reachable
nodes have distances below INT32_MAX, and adding an edge to one does not overflow (`Walks.Fits`, shown to be what the
code needs by `Walks.FitsExactly`).

Where comments and code disagree, the code is modelled. The constructor of the ring queue clamps its parameter to 4
after the capacity was fixed, so small capacities stay small. The mutex comments speak of compare-and-swap, of a
contended value 2 and of waking a waiter; the code exchanges 0 and 1 and never writes the futex word, so `FUTEX_WAIT` on
the expected value 1 returns at once.

## Model

| member | source | states |
|---|---|---|
| ShortestPaths.Pop | mycode/algorithm/Dijkstra.cpp:25-31 | the heap gives up the nearest entry, of equally near ones that of the least node, and keeps all the others |
| ShortestPaths.TopIsNew | mycode/algorithm/Dijkstra.cpp:33-36 | an entry that passes the staleness test belongs to a node that was never expanded, carries its current distance, and is the only such entry |
| ShortestPaths.ExpandKeepsInv | mycode/algorithm/Dijkstra.cpp:29-39 | expanding such an entry keeps the search invariant and strictly uses up one of the graph's nodes |
| ShortestPaths.SkipKeepsInv | mycode/algorithm/Dijkstra.cpp:33-36 | dropping a stale entry keeps the search invariant |
| ShortestPaths.Frontier | mycode/algorithm/Dijkstra.cpp:28-47 | between expansions every walk ends in a node already expanded at no more than its weight, or weighs at least what every heap entry carries |
| ShortestPaths.ImprovedIsNew | mycode/algorithm/Dijkstra.cpp:41-42 | relaxing can only improve a node that was never expanded |
| ShortestPaths.NoOverflow | mycode/algorithm/Dijkstra.cpp:41-42 | in a graph that fits, no relaxation leaves 32 bits |
| ShortestPaths.ImproveKeepsInv | mycode/algorithm/Dijkstra.cpp:39-46 | a relaxation keeps the invariant with one more edge of the expanded node settled |
| ShortestPaths.RelaxEdge | mycode/algorithm/Dijkstra.cpp:39-46 | one turn of the inner loop settles one more edge, changes no settled distance and pushes at most one entry |
| ShortestPaths.RelaxAll | mycode/algorithm/Dijkstra.cpp:38-46 | after the inner loop the popped node is settled with the distance it was popped with, no settled distance has changed, and at most one entry per edge was pushed |
| ShortestPaths.NoShorterWalk | mycode/algorithm/Dijkstra.cpp:28-47 | in the final state no walk from the start reaches a node with less than its recorded distance, and every node a walk reaches has one |
| ShortestPaths.RouteIsWalk | mycode/algorithm/Dijkstra.cpp:41-44 | at any point of the search, following `pre` back from an expanded node spells a walk of real edges whose weight is exactly the recorded distance |
| ShortestPaths.Step | mycode/algorithm/Dijkstra.cpp:43 | the predecessor of a node was expanded strictly before the node, whatever the weights, and a real edge accounts for the difference of their distances |
| ShortestPaths.RouteClimbs | mycode/algorithm/Dijkstra.cpp:57-63 | along the route the expansion step strictly increases, so backtracking terminates even over zero-weight edges |
| ShortestPaths.SolvedIsShortest | mycode/algorithm/Dijkstra.cpp:16-48 | every entry of `dist` is the least weight of a walk from the start, and INT32_MAX exactly for unreachable nodes |
| ShortestPaths.Dijkstra | mycode/algorithm/Dijkstra.cpp:16-48 | on every graph that fits, terminates with correct distances for all nodes; exactly the reachable nodes are expanded, each once, in order of distance, with its final distance; at most 1 + number of edges entries are pushed |
| ShortestPaths.GetShortestPath | mycode/algorithm/Dijkstra.cpp:57-72 | terminates; returns the vertices of a least-weight walk from start to end along the predecessors, without repetition, or the empty path exactly when the end is unreachable |
| ShortestPaths.RouteFollows | mycode/algorithm/Dijkstra.cpp:57-71 | the path returned goes from start to end, each vertex being the predecessor of the next |
| ShortestPaths.FirstPredecessor | mycode/algorithm/Dijkstra.cpp:41-44 | of the nodes from which an edge reaches a node at its distance, the one expanded first is its predecessor |
| ShortestPaths.TieIsBroken | mycode/algorithm/Dijkstra.cpp:25-31 | at equal distance the smaller node is expanded first, unless it was only discovered from the larger one on |
| ShortestPaths.PositiveOrder | mycode/algorithm/Dijkstra.cpp:25-31 | with positive weights nodes are expanded by distance, and equally near ones by number |
| ShortestPaths.KeptPredecessor | mycode/algorithm/Dijkstra.cpp:25-44 | with positive weights the predecessor is the nearest, and of equally near ones the least, of the nodes on a shortest path before; so the graph alone decides which of several shortest paths is returned |
| ShortestPaths.DiamondPath | mycode/algorithm/Dijkstra.cpp:25-44 | of two shortest paths of a concrete graph, the one that is kept |
| Walks.FitsExactly | mycode/algorithm/Dijkstra.cpp:20-42 | a graph fits if and only if there are correct distances that are less than INT32_MAX for reachable nodes and overflow with no edge from there: what the code needs of its input |
| Walks.SmallGraphFits | mycode/algorithm/Dijkstra.cpp:20-42 | a graph fits whenever its number of nodes times its largest weight is below INT32_MAX |
| Occurrences.FirstMatch | mycode/string_match/brute_force.cpp:4-23 | the common specification: the least index at which the pattern occurs, -1 if there is none or the pattern is empty |
| BruteForce.BfMatch | mycode/string_match/brute_force.cpp:4-23 | returns the first match for every text and pattern, over any alphabet |
| Kmp.FallBack | mycode/string_match/kmp.cpp:11-14 | replacing an overlap by its longest border when the next character differs loses no candidate overlap |
| Kmp.Advance | mycode/string_match/kmp.cpp:15-21 | when no fallback applies, one comparison yields the longest overlap that ends at the next character |
| Kmp.BuildNext | mycode/string_match/kmp.cpp:5-23 | `next[i]` is the length of the longest proper border of the first i+1 characters, for every i, with at most as many fallbacks as pattern characters |
| Kmp.KmpMatch | mycode/string_match/kmp.cpp:25-53 | returns the first match for every text and pattern, over any alphabet, with at most as many fallbacks as text characters read |
| RabinKarp.HashPrefix | mycode/string_match/rabin_karp.cpp:13-24 | the hash loops compute the polynomial hash of the prefix, every intermediate within 64 bits |
| RabinKarp.Slide | mycode/string_match/rabin_karp.cpp:39-44 | sliding the window computes the next rolled hash, every intermediate within 64 bits |
| RabinKarp.RolledIsPoly | mycode/string_match/rabin_karp.cpp:31-45 | at every position the rolled hash is congruent to the polynomial of the current window computed from scratch |
| RabinKarp.RolledAscii | mycode/string_match/rabin_karp.cpp:31-45 | on codes 0 to 127 the rolled hash equals the hash of the window from scratch, and is not negative |
| RabinKarp.AsciiWindow | mycode/string_match/rabin_karp.cpp:39-44 | the rolled hash of an ASCII window is not negative, whatever signed chars surround it |
| RabinKarp.RkMatch | mycode/string_match/rabin_karp.cpp:4-48 | returns the first position where both the hashes and the strings agree; for an ASCII pattern that is the first match, whatever signed chars the text has and collisions or not |
| RabinKarp.AgreesExactlyWhenSignsAgree | mycode/string_match/rabin_karp.cpp:34-44 | on signed chars the result is the first match if and only if there is none or both hashes at it are on the same side of zero |
| RabinKarp.NegativePatternIsMissed | mycode/string_match/rabin_karp.cpp:39-44 | beyond index 0 the first match is found if and only if the pattern's hash is not negative, provided the hash slid from was not negative or the dropped char not positive, and the polynomial of all but the pattern's last char does not have residue 0 modulo MOD |
| RabinKarp.AsciiPatternIsSafe | mycode/string_match/rabin_karp.cpp:4-48 | an ASCII pattern is found in every text of signed chars |
| RabinKarp.ZeroPrefixIsFound | mycode/string_match/rabin_karp.cpp:39-44 | a pattern all but whose last char has residue 0 is found in every text |
| RabinKarp.NegativePatternIsUnsafe | mycode/string_match/rabin_karp.cpp:39-44 | any other pattern with a negative hash is missed behind a zero char |
| RabinKarp.WindowIntoMatch | mycode/string_match/rabin_karp.cpp:39-44 | without a collision, a window that runs from positive chars into a match never has a negative hash |
| RabinKarp.MissedExactlyBeyondZero | mycode/string_match/rabin_karp.cpp:31-45 | a pattern without collisions is missed in a text if and only if its first match lies beyond index 0, its hash is negative and all but its last char does not have residue 0 |
| RabinKarp.SafeOnZeroPrefix | mycode/string_match/rabin_karp.cpp:4-48 | a pattern with a negative hash is found in every text if and only if all but its last char has residue 0; that residue suffices for every pattern |
| RabinKarp.Restart | mycode/string_match/rabin_karp.cpp:39-44 | behind a window all but whose last char has residue 0 the rolled hash no longer depends on what came before |
| RabinKarp.NegativeRun | mycode/string_match/rabin_karp.cpp:39-44 | negative hashes before a match begin at the start of the text or behind such a window, fewer positive chars before the match than the pattern is long |
| RabinKarp.SafeIffNotSpoiled | mycode/string_match/rabin_karp.cpp:4-48 | exactly which patterns are found in every text, decided by texts of at most twice the pattern's length |
| RabinKarp.SafeExactly | mycode/string_match/rabin_karp.cpp:4-48 | a pattern without collisions is found in every text if and only if its hash is not negative or all but its last char has residue 0 |
| RabinKarp.ShortPatternsDoNotCollide | mycode/string_match/rabin_karp.cpp:10-11 | patterns of up to four chars have no collision |
| RabinKarp.FiveCharsCanCollide | mycode/string_match/rabin_karp.cpp:10-11 | a concrete pattern of five chars has one |
| RabinKarp.SpoiledPatternIsMissed | mycode/string_match/rabin_karp.cpp:34-44 | a concrete pattern whose hash is not negative is spoiled, and missed at its only match behind one positive char |
| RabinKarp.NonAsciiMatchMissed | mycode/string_match/rabin_karp.cpp:34-44 | a concrete text and pattern whose only match is missed |
| WaitGraph.SearchContinues | mycode/deadlock/deadlock.c:200-207 | one more out-edge searched: marks, report flag and tree structure below the vertex stay as a search must leave them |
| WaitGraph.ForestIsUnique | mycode/deadlock/deadlock.c:185-212 | if a search reports nothing, every vertex is reached from its root in one way only |
| WaitGraph.NextIsFresh | mycode/deadlock/deadlock.c:200-207 | if walks from a vertex are unique, its next out-edge leads to vertices not marked before, so nothing is reported |
| WaitGraph.CycleReconverges | mycode/deadlock/deadlock.c:185-242 | every graph with a cycle is one the search reports |
| WaitGraph.ReconvergesIsCycle | mycode/deadlock/deadlock.c:185-242 | with at most one out-edge per vertex the search reports exactly the graphs with a cycle |
| WaitGraph.DiamondReconverges | mycode/deadlock/deadlock.c:185-242 | an acyclic graph that is reported |
| TaskGraph.DiamondTableReconverges | mycode/deadlock/deadlock.c:100-242 | the table five `add_edge` calls make is one the search accepts, acyclic, and reported |
| TaskGraph.WithEdgeMeaning | mycode/deadlock/deadlock.c:100-113 | adding an edge lists both ends and appends one out-edge, changing no other adjacency list |
| TaskGraph.VerifiesEdgeMeaning | mycode/deadlock/deadlock.c:116-137 | the test is true for the vertex's own identifier and for that of any of its out-edges, wherever it stands |
| TaskGraph.WithoutEdgeMeaning | mycode/deadlock/deadlock.c:140-167 | removing an edge drops the first target with that identifier and changes no other adjacency list |
| TaskGraph.AddThenRemove | mycode/deadlock/deadlock.c:100-167 | removing an edge just added restores every adjacency list |
| TaskGraph.ValidIsClosed | mycode/deadlock/deadlock.c:87-113 | every edge target is a listed vertex, so the search never gets index -1 |
| DeadlockDetector.Detector.SearchVertex | mycode/deadlock/deadlock.c:72-85 | the first index with that identifier and type, or -1 |
| DeadlockDetector.Detector.AddVertex | mycode/deadlock/deadlock.c:87-97 | lists a vertex that was not listed, and nothing else |
| DeadlockDetector.Detector.AddEdge | mycode/deadlock/deadlock.c:100-113 | turns the table into the one with the edge added, which stays valid |
| DeadlockDetector.Detector.VerifyEdge | mycode/deadlock/deadlock.c:116-137 | true if the identifier is the vertex's own or that of a target, for a listed vertex |
| DeadlockDetector.Detector.RemoveEdge | mycode/deadlock/deadlock.c:140-167 | turns the table into the one with the edge removed, which stays valid |
| DeadlockDetector.Detector.DFS | mycode/deadlock/deadlock.c:185-212 | terminates; appends exactly its vertex to the trail, which stays a walk along real edges and never exceeds the number of vertices by more than one; marks only what is reachable; reports only if something is met twice |
| DeadlockDetector.Detector.Descend | mycode/deadlock/deadlock.c:200-207 | one turn of the search loop restores the trail and extends the search by one out-edge |
| DeadlockDetector.Detector.Reset | mycode/deadlock/deadlock.c:226-236 | between two successors only the root stays marked and on the trail |
| DeadlockDetector.Detector.SearchBelow | mycode/deadlock/deadlock.c:226-238 | one turn of the loop over the successors reports if and only if the successor reaches some vertex in two ways |
| DeadlockDetector.Detector.SearchForCycle | mycode/deadlock/deadlock.c:215-242 | reports if and only if some successor of the root reaches some vertex in two ways |
| DeadlockDetector.Detector.CheckDeadLock | mycode/deadlock/deadlock.c:387-401 | reports exactly the graphs that reconverge; hence every cycle, and nothing else if every vertex has at most one out-edge |
| DeadlockDetector.Detector.LockBefore | mycode/deadlock/deadlock.c:286-320 | records the waiter with every slot of the lock, in vertex table and slots, as the hook's specification says, if the vertex table has room for what is added |
| DeadlockDetector.Detector.LockAfter | mycode/deadlock/deadlock.c:322-370 | takes a slot for the new holder, for which the lock table must have room, or takes over the existing one and drops the waiter's edge |
| DeadlockDetector.Detector.UnlockAfter | mycode/deadlock/deadlock.c:373-384 | frees the slot if nobody waits, and leaves everything as it was otherwise |
| LockHooks.BeforeOnce | mycode/deadlock/deadlock.c:295-317 | with one slot per lock, the loop of `lock_before` records its thread exactly once, or not at all |
| LockHooks.BeforeCountsEverywhere | mycode/deadlock/deadlock.c:295-317 | every slot of the awaited lock counts the waiter, and no other slot changes, whatever the table |
| LockHooks.RecordMeaning | mycode/deadlock/deadlock.c:299-315 | recording a waiter adds exactly its edge to the recorded holder, unless that is the waiter itself or an out-edge leads there already |
| LockHooks.OccupyMeaning | mycode/deadlock/deadlock.c:338-345 | taking a free or a new slot keeps slots unique and every other lookup as it was |
| LockHooks.AcquireMeaning | mycode/deadlock/deadlock.c:349-365 | acquiring a lock with a slot drops exactly the edge recorded while waiting |
| LockHooks.HolderHasSlot | mycode/deadlock/deadlock.c:373-382 | the release hook always finds the slot it reads |
| LockHooks.RunKeepsInv | mycode/deadlock/deadlock.c:286-384 | over every run each thread's out-edges are exactly the recorded ones, held locks have a slot naming the holder, and slots count their waiters |
| LockHookResults.EdgesOfWaiters | mycode/deadlock/deadlock.c:286-384 | a thread has an out-edge only while it waits, and then exactly one, to the holder recorded in the lock's slot |
| LockHookResults.DegressCountsWaiters | mycode/deadlock/deadlock.c:310-379 | `degress` is the number of threads waiting for the slot's lock |
| LockHookResults.RunsHaveOneOutEdge | mycode/deadlock/deadlock.c:286-384 | over every run out-degrees are at most one, so the search is sound |
| LockHookResults.EdgeIsRealWhenHeld | mycode/deadlock/deadlock.c:286-384 | a recorded edge leads to the real holder if and only if the awaited lock is held |
| LockHookResults.CycleIffRing | mycode/deadlock/deadlock.c:185-384 | the searched graph has a cycle if and only if the recorded edges close a ring of threads |
| LockHookResults.RealDeadlockIsFlagged | mycode/deadlock/deadlock.c:185-401 | every real circular wait is a cycle the search reports |
| LockHookResults.FlaggedRingIsRealWhenHeld | mycode/deadlock/deadlock.c:185-401 | a recorded ring is a real circular wait if and only if every lock it awaits is held |
| LockHookResults.RealRingStands | mycode/deadlock/deadlock.c:286-384 | no thread of a real circular wait can take a step, and no step of another thread opens the ring |
| LockHookResults.RealRingIsDeadlock | mycode/deadlock/deadlock.c:286-384 | over every continuation of the run a real circular wait stays, and none of its threads ever gets on |
| LockHookResults.Detect | mycode/deadlock/deadlock.c:387-401 | a check in any reachable state reports exactly the recorded rings, every real circular wait among them, and only real ones if no awaited lock is free |
| LockHookResults.StaleEdgeFlagged | mycode/deadlock/deadlock.c:373-382 | a concrete run after which a ring is recorded although one of its threads can go on |
| ReadWriteLock.StepKeepsInv | mycode/rwlock/ReadWriteLock.cpp:5-39 | every step of every thread keeps counters true, writers exclusive and sleepers accounted for |
| ReadWriteLock.MutualExclusion | mycode/rwlock/ReadWriteLock.h:16-18 | over every run a writer excludes readers and other writers, and the three fields are the true numbers of threads |
| ReadWriteLock.SleepersAreNotified | mycode/rwlock/ReadWriteLock.cpp:8-28 | a sleeper whose guard is false implies a thread that is about to notify everybody |
| ReadWriteLock.SleepingReadersMustWait | mycode/rwlock/ReadWriteLock.cpp:8-10 | a reader sleeps only while a writer is active or waiting |
| ReadWriteLock.ReaderEntersOrSleeps | mycode/rwlock/ReadWriteLock.cpp:8-11 | in every reachable state a reader that tests its guard comes in if no writer is active or waiting, and is put to sleep otherwise |
| ReadWriteLock.WriterEntersOrSleeps | mycode/rwlock/ReadWriteLock.cpp:24-31 | in every reachable state a writer that tests its guard comes in if nobody is active, and is put to sleep otherwise |
| ReadWriteLock.LastReaderNotifies | mycode/rwlock/ReadWriteLock.cpp:14-19 | a reader that unlocks is gone, unless it was the last: then it still has to notify |
| ReadWriteLock.EverybodyWakes | mycode/rwlock/ReadWriteLock.cpp:18-39 | after a notification nobody sleeps; the same threads wait, read and write as before, but for a writer that leaves |
| ReadWriteLock.SpuriousOnlyWakes | mycode/rwlock/ReadWriteLock.cpp:8-28 | a spurious wakeup wakes its thread and changes nothing else |
| ReadWriteLock.Progress | mycode/rwlock/ReadWriteLock.cpp:5-39 | with waiters and no holder, at most two enabled steps without newcomers or spurious wakeups bring a present waiter in, a writer if one waits |
| ReadWriteLock.WriterPreference | mycode/rwlock/ReadWriteLock.cpp:8-26 | while a writer waits the set of active readers only shrinks, over every run |
| ReadWriteLock.Lock.ReadLock | mycode/rwlock/ReadWriteLock.cpp:5-12 | the critical section that ends asleep or inside, as the step says; the result tells which |
| ReadWriteLock.Lock.ReadUnlock | mycode/rwlock/ReadWriteLock.cpp:14-18 | the reader leaves; the last one must still notify |
| ReadWriteLock.Lock.ReadNotify | mycode/rwlock/ReadWriteLock.cpp:18-19 | the notification outside the mutex wakes every sleeper |
| ReadWriteLock.Lock.WriteLock | mycode/rwlock/ReadWriteLock.cpp:23-32 | the writer is counted, then sleeps or comes in |
| ReadWriteLock.Lock.WriteResume | mycode/rwlock/ReadWriteLock.cpp:27-31 | a woken writer tests again, and sleeps or comes in |
| ReadWriteLock.Lock.WriteUnlock | mycode/rwlock/ReadWriteLock.cpp:34-39 | the writer leaves and wakes every sleeper |
| SpinMutex.StepKeepsInv | mycode/standard_library/mutex.cpp:91-128 | every atomic operation of every thread keeps `lock` and `owner` in agreement with who is inside |
| SpinMutex.MutualExclusion | mycode/standard_library/mutex.cpp:91-128 | at most one thread is between its successful exchange and its store of 0 to `lock` |
| SpinMutex.OwnerIsInside | mycode/standard_library/mutex.cpp:97-123 | `owner` names nobody but that thread |
| SpinMutex.UnlockTestIsExact | mycode/standard_library/mutex.cpp:117-119 | the test in unlock succeeds if and only if the caller is inside |
| SpinMutex.ForeignUnlockFails | mycode/standard_library/mutex.cpp:114-119 | an unlock by any other thread returns -1 and changes no shared word and no other thread |
| SpinMutex.NobodySleeps | mycode/standard_library/mutex.cpp:104-107 | the futex word stays 0, so FUTEX_WAIT never sleeps and every thread in a call can take a step |
| SpinMutex.FreeLockIsTaken | mycode/standard_library/mutex.cpp:96-109 | when nobody is inside the lock is free, and any contender gets in by at most two steps of its own |
| SpinMutex.InsideWasToldSo | mycode/standard_library/mutex.cpp:97-110 | a thread that is inside and in no call got 0 from its last call |
| SpinMutex.LockReturnsInside | mycode/standard_library/mutex.cpp:91-111 | a call of lock that returns, whatever others do meanwhile, returns 0 with the thread inside |
| SpinMutex.RelockNeverReturns | mycode/standard_library/mutex.cpp:91-111 | a call of lock by the thread that is inside never returns |
| SpinMutex.UnlockReturns | mycode/standard_library/mutex.cpp:114-128 | a call of unlock that returns leaves the thread outside, and returns 0 to the holder and -1 to anybody else |
| SpinMutex.LockSpins | mycode/standard_library/mutex.cpp:96-107 | a thread that has not come in after n operations is spinning for n below 100, and from then on exchanges and calls futex in turn |
| SpinMutex.UnlockInOrder | mycode/standard_library/mutex.cpp:117-127 | the holder gives up the ownership, then the lock, then wakes, in four operations, whatever others do in between |
| SpinMutex.WokenTestsAgain | mycode/standard_library/mutex.cpp:105-107 | a sleeper released by FUTEX_WAKE does nothing before it exchanges again |
| SpinMutex.Mutex.SpinOnce | mycode/standard_library/mutex.cpp:96-102 | one exchange of the spin loop performs the step, and succeeds exactly when the lock was free |
| SpinMutex.Mutex.BlockOnce | mycode/standard_library/mutex.cpp:105 | one exchange of the blocking loop performs the step, and succeeds exactly when the lock was free |
| SpinMutex.Mutex.RecordOwner | mycode/standard_library/mutex.cpp:98-109 | the store of the new owner performs the step, and the call returns 0 |
| SpinMutex.Mutex.CheckOwner | mycode/standard_library/mutex.cpp:117-119 | the owner test performs the step, and returns -1 exactly for other threads |
| SpinMutex.Mutex.ResetOwner | mycode/standard_library/mutex.cpp:122 | the store of 0 to the owner performs the step |
| SpinMutex.Mutex.ResetLock | mycode/standard_library/mutex.cpp:123 | the store of 0 to the lock performs the step |
| DnsName.CreateQuestion | NetwokDesign/coroutine/async_dns_client_noblock.c:79-116 | for any host name the buffer of length plus 2 is written within bounds; it then holds the encoded tokens and a zero byte, or nothing if there is no token, and behind that what the allocator left |
| DnsName.TokensOfJoin | NetwokDesign/coroutine/async_dns_client_noblock.c:94-110 | splitting a host name at dots gives back the labels it was joined from |
| DnsName.TokensOfPieces | NetwokDesign/coroutine/async_dns_client_noblock.c:94-110 | splitting any string at dots gives its pieces in order, without the empty ones |
| DnsName.PiecesOf | NetwokDesign/coroutine/async_dns_client_noblock.c:94-110 | every string is such a join of pieces |
| DnsName.LengthWraps | NetwokDesign/coroutine/async_dns_client_noblock.c:99-101 | the length byte of any label is its length modulo 256 |
| DnsName.HostFills | NetwokDesign/coroutine/async_dns_client_noblock.c:84-116 | for every host name of labels of 1 to 191 bytes the encoding with its zero byte is exactly length plus 2 bytes |
| DnsName.FillsExactlyWhenNoEmptyLabel | NetwokDesign/coroutine/async_dns_client_noblock.c:84-116 | for any name at all the encoding fits, and fills the buffer if and only if the name is not empty, has no dot at either end and no two dots in a row |
| DnsName.SpelledExactlyWhenFilled | NetwokDesign/coroutine/async_dns_client_noblock.c:84-116 | a name with a token is spelled by its tokens joined with dots if and only if its encoding fills the buffer |
| DnsName.TrailingDotAndNoName | NetwokDesign/coroutine/async_dns_client_noblock.c:94-110 | concrete names whose encoding leaves bytes of the buffer unwritten |
| DnsName.BuildRequest | NetwokDesign/coroutine/async_dns_client_noblock.c:118-139 | the request is header, name, type and class, and its length is returned |
| DnsName.TextIsExpansion | NetwokDesign/coroutine/async_dns_client_noblock.c:160-194 | the parser's text is the dotted expansion of the possibly compressed name, with one dot more exactly when a label is followed by a pointer to the root |
| DnsName.ExpandsExactlyUnlessDangling | NetwokDesign/coroutine/async_dns_client_noblock.c:170-190 | the text is the expansion if and only if the name does not dangle in that way |
| DnsName.DanglingName | NetwokDesign/coroutine/async_dns_client_noblock.c:170-190 | a concrete message in which a name is read with one dot too many |
| DnsName.RfcNameIsReadExactly | NetwokDesign/coroutine/async_dns_client_noblock.c:142-177 | a name of RFC 1035 is read as the labels the RFC means if and only if it has no pointer or the low byte of its first pointer leads to the same labels as its offset |
| DnsName.LowPointerIsSame | NetwokDesign/coroutine/async_dns_client_noblock.c:174-177 | it does if the first pointer has an offset below 256, and whenever the name begins at offset 256 or before |
| DnsName.OffsetSafeExactly | NetwokDesign/coroutine/async_dns_client_noblock.c:142-177 | of all 14-bit offsets, exactly those below 256 are read right in every message |
| DnsName.HighPointerIsMisread | NetwokDesign/coroutine/async_dns_client_noblock.c:174-177 | for every offset from 256 on, a message in which the pointer is followed to another name |
| DnsName.EndsWithinJumps | NetwokDesign/coroutine/async_dns_client_noblock.c:160-194 | a name ends if and only if it does within 256 pointers, for it is never led to the same place twice |
| DnsName.LoopNeverEnds | NetwokDesign/coroutine/async_dns_client_noblock.c:172-178 | a concrete name that never ends |
| DnsName.DnsParseName | NetwokDesign/coroutine/async_dns_client_noblock.c:160-194 | terminates on every name that ends inside the message, wherever its pointers lead; reads and writes within bounds, and overwrites the output with exactly the text and nothing else |
| DnsName.WireIsName | NetwokDesign/coroutine/async_dns_client_noblock.c:160-194 | an encoded list of labels of 1 to 191 bytes, anywhere in a message, is parsed as those labels |
| DnsName.SkipName | NetwokDesign/coroutine/async_dns_client_noblock.c:209-216 | the skip loop takes every byte for a length and stops right after the first zero byte it meets in this way |
| DnsName.WireIsSkipped | NetwokDesign/coroutine/async_dns_client_noblock.c:209-216 | the encoding of any list of labels of 1 to 255 bytes, anywhere in a message, is skipped exactly to its end |
| DnsName.ResolveRoundTrip | NetwokDesign/coroutine/async_dns_client_noblock.c:66-217 | for every host name of labels of 1 to 191 bytes the built request announces one question and no records, asks for type A and class IN, is skipped exactly to its end and parsed back to the host name |
| CircularQueues.CircularQueue.constructor | mycode/reactor/CircularQueue.cpp:7-19 | an empty queue of any capacity from 0 on |
| CircularQueues.CircularQueue.Copy | mycode/reactor/CircularQueue.cpp:26-48 | the copy has its own buffer and the same elements in the same order, wrapped or full |
| CircularQueues.CircularQueue.Push | mycode/reactor/CircularQueue.cpp:125-135 | appends the element, whatever the fill, and keeps the copying cost paid for |
| CircularQueues.CircularQueue.Pop | mycode/reactor/CircularQueue.cpp:137-147 | removes the oldest element, or returns false on an empty queue and changes nothing |
| CircularQueues.CircularQueue.GetFront | mycode/reactor/CircularQueue.cpp:149-155 | the oldest element, or nothing on an empty queue |
| CircularQueues.CircularQueue.Expand | mycode/reactor/CircularQueue.cpp:187-219 | doubles the buffer (0 becomes 4), straightens the ring and keeps elements and order |
| CircularQueues.RingPush | mycode/reactor/CircularQueue.cpp:131-133 | writing at the rear position of a ring that is not full appends to its sequence |
| CircularQueues.RingPop | mycode/reactor/CircularQueue.cpp:144-145 | moving the front of a nonempty ring drops the head of its sequence |
| CircularQueues.Run | mycode/reactor/CircularQueue.cpp:125-219 | over every run from any initial capacity the contents are those of a FIFO sequence, and expansions copy at most two elements per push |
| FreeList.ChainPop | mycode/pool/ObjectPool.h:54-60 | taking the head leaves a duplicate-free list of the other free slots, even though the object overwrites the link |
| FreeList.ChainPush | mycode/pool/ObjectPool.h:71-73 | giving back a live slot links it in front of a duplicate-free list |
| FreeList.Conservation | mycode/pool/ObjectPool.h:47-74 | free and live slots together are all the slots |
| ObjectPools.ObjectPool.constructor | mycode/pool/ObjectPool.h:12-34 | all slots are free, linked in one list in the order of their addresses |
| ObjectPools.ObjectPool.Allocate | mycode/pool/ObjectPool.h:47-61 | hands out a slot that was not live, null exactly when all slots are live, and touches no live object |
| ObjectPools.ObjectPool.Deallocate | mycode/pool/ObjectPool.h:63-74 | the slot is free again and next to be handed out; no other live object is touched; null is ignored |
| FixedSizePools.FixedSizeMemoryPool.Allocate | mycode/pool/memory_pool/FixedSizeMemryPool.h:44-54 | hands out a slot that was not live, growing by one block exactly when none is free; fails only if memory runs out |
| FixedSizePools.FixedSizeMemoryPool.Deallocate | mycode/pool/memory_pool/FixedSizeMemryPool.h:56-65 | the slot is free again and next to be handed out; no other live object is touched |
| FixedSizePools.FixedSizeMemoryPool.ExpandPool | mycode/pool/memory_pool/FixedSizeMemryPool.h:68-85 | adds 1024 free slots in front of the free list, the last one first, and keeps every existing slot |
| WorkQueue.PathKeepsInv | NetwokDesign/coroutine/server_mulport_epoll.c:100-187 | over every run no job is in two places and the waiting jobs have awake workers |
| WorkQueue.EveryJobExactlyOnce | NetwokDesign/coroutine/server_mulport_epoll.c:100-187 | the jobs added are exactly those waiting, running or done, each in one of these places only |
| WorkQueue.WaitingJobsAreServed | NetwokDesign/coroutine/server_mulport_epoll.c:104-116 | either no worker sleeps or waiting jobs are no more than the awake workers; with a job waiting some worker is awake |
| WorkQueue.LookRunsOrSleeps | NetwokDesign/coroutine/server_mulport_epoll.c:104-121 | a worker that looks for a job sleeps exactly if none waits, and otherwise runs the one in front; nobody else is affected |
| WorkQueue.LastAddedIsNext | NetwokDesign/coroutine/server_mulport_epoll.c:64-115 | over every run the job taken next is, of those waiting, the one added last |
| WorkQueue.AddWakesOne | NetwokDesign/coroutine/server_mulport_epoll.c:178-187 | an added job waits in front and wakes sleepers only, at least one if there is any |
| WorkQueue.FinishIsDone | NetwokDesign/coroutine/server_mulport_epoll.c:119-121 | a finished job is done and its worker looks again; nobody else is affected |
| WorkQueue.Unlink | NetwokDesign/coroutine/server_mulport_epoll.c:70-75 | unlinks an item from both neighbours and from the head of the list |
| WorkQueue.Queue.AddJob | NetwokDesign/coroutine/server_mulport_epoll.c:178-187 | pushes the job in front of the list, all `prev` pointers staying null, and signals |
| WorkQueue.Queue.TakeJob | NetwokDesign/coroutine/server_mulport_epoll.c:105-115 | takes the job pushed last, unlinked, and runs it, or goes to sleep if none waits |
| WorkQueue.Queue.FinishJob | NetwokDesign/coroutine/server_mulport_epoll.c:119-121 | the finished job is done and its worker looks for the next one |

## Left out

- Sockets, epoll, io_uring, SPDK, `dlsym` hooks, `main` functions and printing: foreign calls and I/O.
- Weak memory, real scheduling and fairness: steps are atomic and interleaved; results are safety and enabledness.
- Integer widths of counters and indices (waiters, readers, capacities, string lengths): taken as unbounded. Distances,
  the rolling hash and label lengths do model their widths.
- Deadlock detector: two threads waiting for one lock (they leave stale edges), the races of the hooks with each other,
  and lock tables that run full. Vertex tables and adjacency lists are sequences, so node allocation and release are not
  modelled; the lock table, the marks and the trail are arrays with their bounds checked.
- The copies of the detector in `mycode/deadlock/deadlock-default.c` and `mycode/deadlock/test.cpp`.
- The `next` vector given to `buildNext` is empty, as its caller passes it; with other contents entry 0 would be kept.
- The priority queue is a multiset with extract-min; the binary heap inside `std::priority_queue` is not part of the
  source.
- DNS: answer records; what the parser does to its output on a name that never ends or leaves the message.
- Ring queue: move operations and copy assignment, which free the moved array or return nothing.
- Pools: construction and destruction of objects, byte layout and alignment; a slot is its first word.
- Job queue: shutdown and the terminate path, which ends holding the mutex; jobs are added once.
- The rest of the repository: demonstrations and unfinished code without a hard property.
