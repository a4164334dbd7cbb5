# LoreDB: a verified model of its core

LoreDB keeps a property graph in pages of one file, reads it through multi-version concurrency control, and
searches it with path algorithms and Cypher patterns. This project models those layers in Dafny and proves what
they do for all inputs, all runs and all interleavings. `dafny verify dfyconfig.toml` checks it.

## How it is built

- **Transactions.** `WaitsFor` (with `Sequences`) has the graph theory of a waits-for graph; `LockManager` is the
  lock manager as a class whose methods are single passes under its mutex; `LockProtocol` is the machine of all
  interleavings of those passes, with sleeping, waking and spurious wake-ups. `Transactions`, `Versions` and
  `MvccManager` are the transaction table, one version chain, and the manager; `Engine` puts them together as one
  step machine in which every write is two steps with a possible sleep between them; `History` measures its runs
  against everything written.
- **Search.** `PathSearch` and `SimplePaths` are the two path searches, over neighbour lists. `GraphView` is what a
  query sees of the store; `VariableLength` and `ChainPattern` are the two ways a Cypher pattern is matched. A
  predicate on the stored properties stands for property and type constraints.
- **Search on a store.** `StoreSearch` defines what a query and a path search see of a store whose invariant holds,
  and states the search results there, with nothing assumed of the lists. `PatternMeaning` says what directions and
  hop bounds would mean. `StoreIndex` keeps the store and the separate index in step.
- **Storage.** `VarInt`, `Crc32`, `Checksums` and `Records` are the byte formats; `PageStore` is the file of pages;
  `GraphStore` stores records on pages and keeps the edge lists; `Adjacency` is the theory of those lists, shared
  with `IndexManager`. Two ghost maps in `GraphStore` say what is stored, and its invariant ties them, through
  indexes, pages, headers and serialization, to the bytes of the file.
- **Log.** `Wal` has the record format, the manager that appends, and recovery from a log cut at any byte.

Classes have the fields of the classes they model. Loops are loops; what they compute is a function of the inputs
or of the old state, and the lemmas are about that function. A mutex region is one atomic step. Hash functions,
clocks and callbacks are parameters; a file is a sequence of bytes.

## Where the code differs from what is said of it

- The repository's README.md (lines 18, 107 and 760) promises snapshot isolation. A running transaction sees the
  commit of a lower id that happens after it began (`Engine.LowerCommitIsSeen`). Its reads repeat over all runs
  exactly when no lower id is active, but for those that sleep behind a lock of its own
  (`Engine.RepeatableReadIff`).
- Nor is there a first committer that wins: two transactions that have read one value can both replace it and both
  commit (`History.LostUpdate`), as no write is ever refused (`Engine.WriterNeverRefused`).
- An aborted writer leaves its id in the version it overwrote. A value deleted after that is readable again
  (`History.AbortedWriterResurrects`), and collection can drop the only committed value
  (`History.CollectAfterAbortLosesValue`, `History.CollectOutOfOrderLosesValue`). `History.ReadsOverRuns` has the
  exact condition over all runs, `Versions.CollectInvisibleIff` that of one collection.
- The node scan of a query looks at ids up to the node count, so it misses nodes after a deletion
  (`StoreSearch.DeletedNodeHidesAnother`); `StoreSearch.ScanOfStoreCompleteIff` is the exact condition.
- A pattern without a direction also tries incoming edges, but follows them to their own end, which is where it
  already is (`StoreSearch.IncomingStaysPut`). So it takes only walks that follow every edge forwards
  (`PatternMeaning.TakenIffForwards`, `StoreSearch.DirectionIgnored`), and does what it should exactly when every
  matching edge is a loop (`PatternMeaning.AllTakenIff`, `PatternMeaning.AllArriveIff`); a store with one edge shows
  it (`PatternMeaning.WayBackMissedOnStore`). A loop gives a chain two rows (`StoreSearch.RowsPerWalk`).
- With more than one edge the hop bounds of a pattern are not looked at (`PatternMeaning.HopBoundsIgnored`). What is
  taken is always within them exactly when they admit one hop (`PatternMeaning.AlwaysWithinIff`,
  `PatternMeaning.BoundsDisregardedOnStore`).
- Nothing in the repository but a test removes an edge from the separate index, so the index goes on listing
  neighbours across deleted edges (`StoreIndex.MissedDeletionShows`, `StoreIndex.MissedDeletionsHarmlessIff`).
- `bfs_paths_with_length` with the largest size_t as bound finds nothing (`SimplePaths.BoundHonouredIff`).
- A pattern with an unnamed node before its last edge is refused only if its beginning has a match
  (`ChainPattern.ChainIsJoin`).
- `VarInt::decode` drops bits above the 64th without an error (`VarInt.ReencodingIff`).
- Checksums are written on every page and never compared on reading; `PageStore.CorruptionDetected` is what a
  comparison would give.
- After a restart on a cut log new records are written behind the remains of the cut one. Everything appended is
  recovered exactly when the cut fell between two records (`Wal.AppendedAreRecoveredIff`); a logged node deletion
  puts the reader four bytes out of step (`Wal.DeleteNodeLeavesBytes`). At a record of unknown type the scan of
  opening stops, and recovery goes on behind it (`Wal.UnknownStopsScanOnly`). A log that is empty or shorter than a
  header when it is opened takes no record at all, and one with a wrong magic number is written over
  (`Wal.WalManager.Open`, `Wal.WalManager.Append`).

## Model

| member | source | states |
|---|---|---|
| Locking.LockManager.DetectDeadlock | src/transaction/lock_manager.cpp:73-83 | Answers true exactly when some cycle of the waits-for graph is reachable from the start, terminates, and leaves the graph with the edges it had although the search inserts empty entries. |
| Locking.LockManager.HasCycle | src/transaction/lock_manager.cpp:85-103 | The recursive search, with its two marker maps: on success a cycle is reachable from the bottom of the recursion stack; on failure every vertex visited and off the stack is on no cycle and leads to finished vertices only. |
| Locking.LockManager.TryLock | src/transaction/lock_manager.cpp:6-42 | One pass of lock under the mutex: granted exactly when no other transaction holds a request on the resource, or all of these and the one asked for are shared; the table gets the granted request and no other change; the new waits-for graph. |
| Locking.LockManager.WaitOrRefuse | src/transaction/lock_manager.cpp:22-36 | Whom to wait for is recorded; the edges are withdrawn and the caller refused exactly when they make a cycle reachable from it. |
| Locking.LockManager.Release | src/transaction/lock_manager.cpp:44-56 | Removes exactly the caller's requests on one resource and notifies exactly when the resource has an entry; other resources and the edges stay. |
| Locking.LockManager.ReleaseAll | src/transaction/lock_manager.cpp:58-71 | Removes exactly the caller's requests, everywhere, and its own edges. |
| Locking.RemoveIf | src/transaction/lock_manager.cpp:50-52 | The erase-remove loop keeps exactly the requests of other transactions, in order. |
| Locking.BlockersExact | src/transaction/lock_manager.cpp:24-29 | A transaction is recorded as waited for exactly when one of its requests clashes in mode. |
| Locking.GrantedIff | src/transaction/lock_manager.cpp:13-42 | In modes and holders: when a request is granted, what the table is then, and that a caller put to sleep has recorded exactly the holders it may not share with. |
| LockProtocol.StepKeepsInv | src/transaction/lock_manager.cpp:6-71 | Every step of every interleaving keeps: locks of different transactions on one resource are all shared, the recorded graph is acyclic, a sleeper waits for somebody, and a sleeper with no wake-up on the way waits for holders that exclude it. |
| LockProtocol.RunKeepsInv | src/transaction/lock_manager.cpp:6-71 | The same in every state of every run. |
| LockProtocol.ExclusiveOverRuns | src/transaction/lock_manager.cpp:13-22 | In every state of every run different transactions hold one resource only in shared mode. |
| LockProtocol.StaysUntilUnlocked | src/transaction/lock_manager.cpp:39-71 | A recorded request is still there after a step if and only if the step is not its owner's unlock of the resource or unlock_all. |
| LockProtocol.HeldUntilUnlocked | src/transaction/lock_manager.cpp:39-71 | Over every run: what has been granted stays in the table until its owner unlocks it, whatever the others do. |
| LockProtocol.BlockedIsReallyBlocked | src/transaction/lock_manager.cpp:22-36 | No lost wake-up: a sleeper with no notification on the way could not be granted its lock. |
| LockProtocol.SleeperLeadsToAwake | src/transaction/lock_manager.cpp:31-36 | No total deadlock: from every sleeping transaction, with or without a wake-up on the way, the recorded edges lead through sleepers to a transaction that is not asleep. |
| LockProtocol.NoTotalDeadlock | src/transaction/lock_manager.cpp:6-71 | The same in every state of every run. |
| LockProtocol.BlockedLeadsToRunnable | src/transaction/lock_manager.cpp:31-36 | From a sleeper with no wake-up on the way the edges lead, holder by holder, through others like it to a transaction that is awake or about to try again. |
| LockProtocol.RefusedIffWaitedFor | src/transaction/lock_manager.cpp:31-34 | A caller is refused exactly when somebody it would wait for already waits, directly or not, for it. |
| Transactions.TransactionManager.BeginTransaction | src/transaction/mvcc.cpp:11-23 | A new active transaction with the next id and a later start timestamp; nothing else changes in the tables. |
| Transactions.TransactionManager.CommitTransaction | src/transaction/mvcc.cpp:25-41 | Succeeds exactly on an active transaction, which goes from the active to the completed ones as committed, with a commit timestamp after its start. |
| Transactions.TransactionManager.AbortTransaction | src/transaction/mvcc.cpp:43-58 | Succeeds exactly on an active transaction, which goes from the active to the completed ones as aborted. |
| Transactions.TransactionManager.IsTransactionCommitted | src/transaction/mvcc.cpp:76-93 | Active is not committed, a recorded outcome decides, an unknown id counts as committed. |
| Mvcc.MvccManager.IsVersionVisible | src/transaction/mvcc_manager.cpp:74-110 | The decision of the code, as the predicate the chain lemmas are about. |
| Mvcc.MvccManager.ReadVersion | src/transaction/mvcc_manager.cpp:11-27 | Succeeds exactly when some version of the key is visible, with the newest visible one; otherwise NOT_FOUND. On a chain as writes leave it, the answer is the last effective write if and only if no older version is exposed again below an effective tombstone. |
| Mvcc.MvccManager.WriteVersion | src/transaction/mvcc_manager.cpp:29-55 | A call that does not sleep: written exactly when no other transaction holds the key; then the version is the newest of its chain, a live one before it is closed in the writer's name, other keys stay and the lock is given back. Otherwise CONFLICT, or asleep, with the chains unchanged. |
| Mvcc.MvccManager.GarbageCollect | src/transaction/mvcc_manager.cpp:57-72 | Exactly the versions ended by an id below the bound go, from every chain, and an emptied chain's entry with them. |
| Mvcc.MvccManager.RemoveExpired | src/transaction/mvcc_manager.cpp:62-64 | The erase-remove loop over one chain. |
| Versions.AppendKeepsChainOk | src/transaction/mvcc_manager.cpp:44-54 | Writing keeps the chain invariant: every version but the newest was ended by its own creator or by the creator of the next. |
| Versions.AppendExact | src/transaction/mvcc_manager.cpp:44-54 | The new version comes last, a live one before it is ended by the writer, an ended one keeps who ended it, and nothing else changes. |
| Versions.VisibleIff | src/transaction/mvcc_manager.cpp:74-110 | Visibility in one formula over the ids of creator, deleter and reader and what is recorded of their outcomes. |
| Versions.VisibleExactly | src/transaction/mvcc_manager.cpp:74-110 | Visibility, which looks at one version, in terms of the chain: effective, not ended by its creator, and with no effective version directly above it. |
| Versions.ReadIsNewestVisible | src/transaction/mvcc_manager.cpp:18-26 | The search finds the newest visible version, and nothing exactly when none is visible. |
| Versions.ReadIsLastWriteIff | src/transaction/mvcc_manager.cpp:11-110 | On every chain a read is the last write by the reader or by a committed transaction with an id no greater than its own, if and only if no older version is exposed again below an effective tombstone. |
| Versions.LastWriteIsNewestEffective | src/transaction/mvcc_manager.cpp:18-26 | The specification picks the newest effective version, and nothing when that is a tombstone. |
| Versions.DeletedStaysDeleted | src/transaction/mvcc_manager.cpp:18-26 | Under a newest effective tombstone, with all older versions effective and creators in order, the key reads as absent. |
| Versions.UnseenWriteChangesNoRead | src/transaction/mvcc_manager.cpp:44-54 | A write that is not effective for a reader changes neither creator nor data of what it reads. |
| Versions.OwnWriteIsRead | src/transaction/mvcc_manager.cpp:80-83 | A writer reads its own live write. |
| Versions.ReadIsEffective | src/transaction/mvcc_manager.cpp:80-93 | Nobody but its writer reads a version that is uncommitted, aborted or from a later transaction. |
| Versions.CollectDropsExpired | src/transaction/mvcc_manager.cpp:62-64 | Collection keeps exactly the versions that are live or ended by an id of at least the bound, each as often as it was there. |
| Versions.CollectChangesReadIff | src/transaction/mvcc_manager.cpp:57-72 | Collection changes what a reader reads if and only if the version it was reading has expired. |
| Versions.ExpiredUnseenIff | src/transaction/mvcc_manager.cpp:61-64 | An expired version is invisible to all readers from m on exactly when its deleter is its creator, or its creator is below m and, if committed, has a committed deleter. |
| Versions.CollectInvisibleIff | src/transaction/mvcc_manager.cpp:57-72 | Collection at m drops nothing visible to any reader from m on, exactly when that holds of every expired version; then no such read changes. |
| Versions.CommittedDeletersAreSafe | src/transaction/mvcc_manager.cpp:61-64 | With creators in order and all deleters below m committed, collecting at m is safe. |
| Versions.CollectDropsPrefix | src/transaction/mvcc_manager.cpp:57-72 | With creators in order the dropped versions are exactly a prefix, and the rest is again an ordered chain. |
| Engine.WriterNeverRefused | src/transaction/mvcc_manager.cpp:29-55 | When locks are taken only through write_version, no caller is ever refused with CONFLICT. |
| Engine.StepKeepsInv | src/transaction/mvcc_manager.cpp:29-72 | Every step of the whole layer (begin, commit, abort, both halves of a write, wake-up, unlock_all between calls, collection) keeps: the lock table holds exactly the keys of the writers past their lock, only sleepers wait, writers are active, creators have been issued. |
| Engine.SafetyOverRuns | src/transaction/mvcc_manager.cpp:29-72 | In every reachable state no writer can be refused, and at most one writer is past the lock of a key. |
| Engine.OtherStepsKeepReads | src/transaction/mvcc_manager.cpp:11-110 | Only the reader's own writes, commits of lower ids and unsafe collections can change what it reads. |
| Engine.RepeatableRead | src/transaction/mvcc_manager.cpp:85-106 | Over every run: while no lower id is free to go on, what a transaction reads never changes, whatever the others do, until it ends a write or a collection it could notice happens. |
| Engine.FreeLowerDisturbs | src/transaction/mvcc_manager.cpp:29-106 | From every state: an active lower id that does not sleep behind the reader's own lock can end its write in flight, write a new key and commit, and the reader sees it. |
| Engine.RepeatableReadIff | src/transaction/mvcc_manager.cpp:85-106 | Exactly when reads repeat: over all such runs every read of a transaction stays as it is, if and only if no lower id is active but for those that sleep on a key the transaction itself has locked. |
| Engine.LowerCommitIsSeen | src/transaction/mvcc_manager.cpp:85-93 | A reachable state in which a commit by a lower id changes what a running transaction reads: reads are not snapshots. |
| History.StepKeepsRemains | src/transaction/mvcc_manager.cpp:29-72 | Every step keeps: the chain is what collection has left of all that was ever written to the key, field for field; a live version is never missing, nor one of two equals while the other is left. |
| History.ReadIsLastWrittenIff | src/transaction/mvcc_manager.cpp:11-110 | The read of what is left is the last effective write of all that was written, if and only if it is not misread: the newest effective write is a tombstone and no older effective version that is left is exposed again below it, or it is a value and is left. |
| History.ReadsOverRuns | src/transaction/mvcc_manager.cpp:11-110 | That theorem after every run from the start, with any interleaving of writes, commits, aborts and any collections whatever, measured against everything written and not against the chain. |
| History.ReadAfterRun | src/transaction/mvcc_manager.cpp:11-27 | The manager itself, with the tables and chains of any state that a run reaches: what read_version answers is the last effective write of all that was ever written to the key, if and only if it is not misread. |
| History.MissingIff | src/transaction/mvcc_manager.cpp:57-72 | A version is missing if and only if some collection came after the version had been ended by an id below its bound. |
| History.AbortedWriterResurrects | src/transaction/mvcc_manager.cpp:48-51 | A reachable state: an aborted writer between a value and a committed deletion makes the deleted value readable. |
| History.CollectAfterAbortLosesValue | src/transaction/mvcc_manager.cpp:61-64 | A reachable state with creators in order in which collection takes the only committed value, because those who overwrote it aborted. |
| History.CollectOutOfOrderLosesValue | src/transaction/mvcc_manager.cpp:61-64 | A reachable state with creators out of order in which collection takes the newest committed value out of the middle. |
| History.LostUpdate | src/transaction/mvcc_manager.cpp:29-55 | A reachable run: two transactions active at once have read one value, both replace it, and both commit. |
| PathSearch.ShortestPath | src/query/executor.cpp:402-446 | Empty exactly when there is no path; otherwise a path from one node to the other that no path is shorter than. |
| PathSearch.Expand | src/query/executor.cpp:423-442 | One round of the search keeps the queue in distance order, the parent map a tree, and finds the target at its distance. |
| PathSearch.Reconstruct | src/query/executor.cpp:430-439 | Following parents from a discovered node always gets back to the start and gives a path of the recorded length. |
| SimplePaths.BelowExact | src/query/executor.cpp:452-477 | What the recursion collects below a path are exactly the simple continuations that end in the target within the limit. |
| SimplePaths.BelowInOrder | src/query/executor.cpp:468-476 | With increasing neighbour lists the paths come in strict lexicographic order. |
| SimplePaths.PathCollector.Dfs | src/query/executor.cpp:452-477 | The backtracking search adds exactly the specified paths and leaves path and visited as they were. |
| SimplePaths.PathsWithLength | src/query/executor.cpp:448-484 | Exactly the simple paths of at least one edge and at most the limit; in strict lexicographic order and none twice when neighbour lists are in order, as those of a store are (StoreSearch.SimplePathsOnStore). |
| SimplePaths.BoundHonouredIff | src/query/executor.cpp:454-456 | The bound max_length is honoured if and only if it is not the largest size_t, where max_length + 1 is 0 and nothing is found, or there is no simple path to find. |
| GraphView.FindEdges | src/query/cypher/executor.cpp:510-555 | Exactly the edges listed at the node (of both lists if direction does not matter) that can be read and match, in list order. |
| GraphView.MatchingEdgesExact | src/query/cypher/executor.cpp:532-554 | The candidates kept are exactly the live matching ones, and no repetition is introduced. |
| GraphView.FindNodes | src/query/cypher/executor.cpp:337-384 | Exactly the ids from 1 to the node count that can be read and match, increasing. |
| GraphView.NodesUpToExact | src/query/cypher/executor.cpp:343-381 | The scan holds exactly the matching ids in that range, increasing. |
| GraphView.ScanCompleteIff | src/query/cypher/executor.cpp:364-380 | The scan finds every matching node if and only if all of them have ids from 1 to the node count; for a store, see StoreSearch.ScanOfStoreCompleteIff. |
| GraphView.MatchingEdgesCount | src/query/cypher/executor.cpp:532-554 | A matching edge is kept exactly as often as it is a candidate. |
| GraphView.EdgesFromExact | src/query/cypher/executor.cpp:510-555 | Which edges a step may take, in terms of the two lists, the stored edges and the constraints. |
| VariableLength.MatchVariableLength | src/query/cypher/executor.cpp:246-313 | One row for every walk over distinct nodes and matching edges from a matching start to a matching end with its length in the bounds (max -1 read as 10, bounds as size_t), by start and then by length; each walk once if no edge that leads on is a candidate twice, as on every store (StoreSearch.EachWalkOnce). |
| VariableLength.AnswersExact | src/query/cypher/executor.cpp:246-313 | What the answers are, spelt out: each row belongs to one walk and binds exactly the two names, the first to the walk's start and the last to its end (the end if they are one name); the walks are those over distinct nodes from scanned starts to matching ends with a number of edges within the bounds, -1 meaning ten and other negative bounds 2^64 more; by start, then by length. |
| VariableLength.VariableRowExact | src/query/cypher/executor.cpp:274-284 | The names a row binds, and to which ends. |
| VariableLength.BoundsExact | src/query/cypher/executor.cpp:256-258 | The hop bounds as size_t: -1 is ten, other negative numbers wrap around. |
| VariableLength.MatchFrom | src/query/cypher/executor.cpp:260-309 | The worklist for one start terminates and yields exactly the requested walks, in nondecreasing length; each once if no edge that leads on is a candidate twice. |
| VariableLength.PushNeighbors | src/query/cypher/executor.cpp:288-306 | The edge loop queues exactly the continuations to nodes not yet on the path. |
| VariableLength.TakePath | src/query/cypher/executor.cpp:264-307 | One path off the queue gives a row exactly when it is long enough and its end matches, and is continued exactly below the upper bound; AnswersExact says what a row is. |
| VariableLength.LastStep | src/query/cypher/executor.cpp:298-303 | A walk is simple exactly when it is simple without its last edge and that edge matches and reaches a new node. |
| VariableLength.WalkIsBounded | src/query/cypher/executor.cpp:298-303 | No simple walk is as long as the graph has reachable nodes, which bounds the worklist. |
| VariableLength.ExploredIsComplete | src/query/cypher/executor.cpp:263-307 | Once the queue is empty, every simple walk within the bound has been on it. |
| ChainPattern.MatchPattern | src/query/cypher/executor.cpp:195-244 | No nodes: no rows. One edge whose bounds are not both 1: the variable-length answers. Anything else: the join of the chain, or the refusal. |
| ChainPattern.MatchOneEdge | src/query/cypher/executor.cpp:195-244 | A pattern of one edge, whatever its bounds. Unless both are 1, every walk over distinct nodes that the bounds ask for has a row with its ends. If both are, an unnamed first node is refused and otherwise every matching edge to a matching end has a row that binds its name too. |
| ChainPattern.WalksHaveRows | src/query/cypher/executor.cpp:246-313 | Every requested walk has a row that binds exactly the two names to its ends. |
| ChainPattern.EdgeHasRow | src/query/cypher/executor.cpp:386-452 | In a chain of one edge every matching edge from a scanned start to a matching end has a row with the start, the edge and the end. |
| ChainPattern.MatchNode | src/query/cypher/executor.cpp:315-335 | One row for each matching node. |
| ChainPattern.ExpandResults | src/query/cypher/executor.cpp:386-452 | The nested loops compute the specified expansion, or refuse an unnamed start. |
| ChainPattern.TakeEdge | src/query/cypher/executor.cpp:412-446 | One edge: skipped, rejected because of a binding, or one longer row. |
| ChainPattern.MatchChain | src/query/cypher/executor.cpp:211-243 | The loop over the edges with its early exit computes the specified expansion. |
| ChainPattern.FollowEdgeExact | src/query/cypher/executor.cpp:423-446 | A row grows by an edge exactly when the longer walk still answers the pattern, and then is the row of that walk, whatever names are repeated. |
| ChainPattern.NoAnswerNoLonger | src/query/cypher/executor.cpp:238-240 | Breaking off on an empty result is right: no longer prefix of the pattern has an answer either. |
| ChainPattern.ExpandFromExact | src/query/cypher/executor.cpp:220-241 | From any edge on: refused exactly if an unnamed node is got to, otherwise the join of the whole chain. |
| ChainPattern.ChainIsJoin | src/query/cypher/executor.cpp:211-243 | Iterative expansion equals the declarative join, with no condition on names: the rows are those of the edge walks that chain, satisfy every pattern and meet each node name that is already bound at the node it is bound to, each walk as often as its edges are candidates; refused if and only if an unnamed node is got to. |
| ChainPattern.NamesApartExact | src/query/cypher/executor.cpp:423-446 | When edge variables are apart from each other and from node variables, the walks that answer are those that give repeated node variables one node, and the row binds exactly the variables met so far, each to what the walk has there. |
| ChainPattern.JoinOnce | src/query/cypher/executor.cpp:211-243 | If edge lists repeat nothing, each walk has one row; for a store, see StoreSearch.RowsPerWalk. |
| ChainPattern.ExtendedAllCount | src/query/cypher/executor.cpp:398-447 | One round of expansion lists a longer walk as often as the shorter one was listed, times as often as the edge is a candidate. |
| StoreSearch.SeeNode | src/storage/graph_store.cpp:490-520 | What a query sees of a node of the store is what get_node gives. |
| StoreSearch.SeeEdge | src/storage/graph_store.cpp:219-249 | The same for edges. |
| StoreSearch.CandidatesOnceIff | src/query/cypher/executor.cpp:516-530 | With the lists of a store, no edge is a candidate twice if and only if the pattern has a direction or there is no loop. |
| StoreSearch.EachWalkOnce | src/query/cypher/executor.cpp:246-313 | On every store whose invariant holds, a variable-length pattern gives each requested walk exactly one row, whatever its direction and whatever loops there are. |
| StoreSearch.IncomingStaysPut | src/query/cypher/executor.cpp:523-530 | On every store, a candidate starts at the node or, if the pattern has no direction, ends there; the end is what the code goes on to. |
| StoreSearch.DirectionIgnored | src/query/cypher/executor.cpp:288-303 | On every store, a variable-length pattern without a direction has exactly the answers of the directed one: an incoming edge is followed to its own end, where the walk already is. |
| StoreSearch.RowsPerWalk | src/query/cypher/executor.cpp:386-452 | On every store, an answering walk of a chain has one row, and twice as many for each loop it takes by an edge pattern without a direction; no walk has two rows if and only if none takes such a loop. |
| StoreSearch.AnswersOfStore | src/query/cypher/executor.cpp:315-384 | On every store, the answers of a chain that are lost are exactly those whose first node has an id above the node count. |
| StoreSearch.NoAnswerLostIff | src/query/cypher/executor.cpp:315-384 | No answer to a chain or to a beginning of it is lost if and only if the scan is complete for its first node. |
| StoreSearch.FoundOnStore | src/query/cypher/executor.cpp:250-260 | A variable-length pattern finds exactly the requested walks from matching nodes with ids up to the node count. |
| PatternMeaning.TakenIffForwards | src/query/cypher/executor.cpp:288-303 | With right lists, of the walks over distinct nodes that may follow each edge either way, the code takes exactly those that follow every edge forwards. |
| PatternMeaning.AllTakenIff | src/query/cypher/executor.cpp:288-303 | Every walk that may go either way is taken if and only if every matching edge is a loop. |
| PatternMeaning.ArrivesIff | src/query/cypher/executor.cpp:412-422 | A step of a chain arrives at the far end of its edge if and only if the edge starts where the step does. |
| PatternMeaning.AllArriveIff | src/query/cypher/executor.cpp:412-422 | Every step of a chain without a direction arrives at the far end if and only if every matching edge is a loop. |
| PatternMeaning.WayBackMissedOnStore | src/query/cypher/executor.cpp:510-530 | On a new store with two nodes and one edge: from the second node a pattern without a direction finds no walk of variable length, and a chain goes from the node to itself. |
| PatternMeaning.HopBoundsIgnored | src/query/cypher/executor.cpp:211-243 | Chains that differ only in the hop bounds of their edges have the same expansion. |
| PatternMeaning.AlwaysWithinIff | src/query/cypher/executor.cpp:204-243 | The one edge a chain takes for an edge pattern is always within its hop bounds if and only if these admit one hop. |
| PatternMeaning.BoundsDisregardedOnStore | src/query/cypher/executor.cpp:204-243 | On a new store with an edge each way between two nodes: a chain that asks for two hops first is answered by one, and no walk of two hops exists. |
| StoreSearch.ScanOfStoreCompleteIff | src/query/cypher/executor.cpp:364-380 | On a store with a right node count the scan is complete for every pattern if and only if the live ids are exactly the numbers from 1 to the count. |
| StoreSearch.DeletedNodeHidesAnother | src/query/cypher/executor.cpp:364-380 | On a new store: two nodes created, the first deleted; the second exists, the count is right, and the scan finds nothing. |
| StoreSearch.Neighbours | src/query/executor.cpp:418-422 | What get_adjacent_nodes gives a path search is the list the search theorems are about. |
| StoreSearch.PathIsJoined | src/query/executor.cpp:418-422 | A path in these lists is a sequence of nodes each joined to the next by a live edge in either direction. |
| StoreSearch.ShortestOnStore | src/query/executor.cpp:402-446 | On every open store: the shortest path search finds nothing exactly if no live edges join the two nodes, and otherwise a path along live edges that none is shorter than. |
| StoreSearch.DistanceSymmetric | src/query/executor.cpp:402-446 | On every open store, searching from either of two nodes to the other gives paths of the same length. |
| StoreSearch.SimplePathsOnStore | src/query/executor.cpp:448-484 | On every open store: exactly the simple paths along live edges within the limit, in strict lexicographic order, none twice. |
| VarInt.Encode | src/util/varint.cpp:5-19 | Writes the LEB128 form and returns its length, leaving the rest of the buffer; returns 0 exactly when the buffer is shorter, having filled it. |
| VarInt.EncodedSize | src/util/varint.cpp:52-59 | The length of the encoding. |
| VarInt.Decode | src/util/varint.cpp:21-42 | The decoding loop; the span is advanced only on success. |
| VarInt.DecodedIff | src/util/varint.cpp:21-42 | Decoding succeeds if and only if the input begins with a frame of at most ten bytes, and gives the number spelt modulo 2^64; exactly when each error is returned. |
| VarInt.EncodedIsFramed | src/util/varint.cpp:8-16 | The encoding is one frame and spells the value. |
| VarInt.RoundTrip | src/util/varint.cpp:5-42 | For every 64-bit value and every suffix, decoding the encoding gives the value and stops at the suffix. |
| VarInt.EncodedAtMostTen | src/util/varint.cpp:52-59 | At most ten bytes. |
| VarInt.EncodedIsMinimal | src/util/varint.cpp:5-19 | No bytes that decode to the value are fewer than its encoding. |
| VarInt.ReencodingIff | src/util/varint.cpp:21-42 | Decoding then encoding gives the same bytes if and only if there is no padding and no bit above the 64th, which decode drops without an error. |
| VarInt.ZigZagBijection | src/util/varint.cpp:44-50 | The codes are 2x and -2x-1, and encode and decode are inverse on all 64-bit values. |
| Crc32.UpdateAll | src/util/crc32.cpp:62-67 | The table-driven loop. |
| Crc32.TableIsDivision | src/util/crc32.cpp:5-49 | Every one of the 256 table entries is the remainder of its index under bitwise reflected division by 0xEDB88320. |
| Crc32.UpdateIsDivision | src/util/crc32.cpp:62-67 | Table-driven update equals bit-by-bit division of the message. |
| Crc32.CalculateIsDivision | src/util/crc32.cpp:54-56 | The checksum is the complement of the remainder from all ones. |
| Crc32.BitEnters | src/util/crc32.cpp:5-49 | One bit of that division in plain bit operations: add the bit, shift right, take 0xEDB88320 away if a one left. |
| Crc32.CheckValue | src/util/crc32.cpp:54-56 | The digits from 1 to 9 have the check value of CRC-32, 0xCBF43926. |
| Crc32.UpdateConcat | src/util/crc32.cpp:62-67 | Updating with a concatenation is updating twice. |
| Crc32.UpdateInjective | src/util/crc32.cpp:62-67 | Different registers stay different whatever follows. |
| Crc32.ShortMessagesDiffer | src/util/crc32.cpp:62-67 | From one register, messages of equal length up to 32 bits have different remainders. |
| Crc32.BurstDetected | src/util/crc32.cpp:54-72 | Equal-length buffers that differ only within four consecutive bytes have different checksums. |
| Records.SerializeProperties | src/storage/record.cpp:6-21 | The writing loop gives count, then key and typed value of each property. |
| Records.WriteVarInt | src/storage/record.cpp:126-130 | Through a ten-byte buffer, which always suffices. |
| Records.WriteValue | src/storage/record.cpp:161-187 | The type byte and the value's bytes. |
| Records.ReadValue | src/storage/record.cpp:189-242 | Reading by type byte, with an error for every short input and unknown type; ValueRead and CountedRead say what each kind gives. |
| Records.ValueLayout | src/storage/record.cpp:161-187 | The bytes of each kind of value: 0 and a counted string, 1 and the ZigZag varint, 2 and the eight bytes of a double, 3 and 1 or 0, 4 and counted bytes. |
| Records.ValueRead | src/storage/record.cpp:206-242 | What reading a double or a boolean gives (any byte but 0 is true), when it is refused, and that every other type is refused. |
| Records.CountedRead | src/storage/record.cpp:189-242 | What reading an integer, a string or bytes gives, in terms of the varint in front: even codes halved, odd ones negative, then exactly as many bytes as counted, or which error. |
| Records.PropertiesLayout | src/storage/record.cpp:6-21 | A list is its length and its properties in order, each a counted key and its value. |
| Records.NodeLayout | src/storage/page_store.h:79-93 | Where the eight fields of a node record lie in its 48 bytes. |
| Records.EdgeLayout | src/storage/page_store.h:94-106 | The same for an edge record. |
| Records.RecordLayout | src/storage/record.cpp:63-124 | A stored record is its 48 bytes and then its properties; fewer bytes are refused. |
| Records.LittleEndianFirst | src/storage/record.cpp:66-70 | Least significant byte first. |
| Records.DeserializeProperties | src/storage/record.cpp:23-61 | The reading loop agrees with the parser the round trips are about. |
| Records.DeserializeNode | src/storage/record.cpp:77-93 | A 48-byte record followed by properties, or an error. |
| Records.DeserializeEdge | src/storage/record.cpp:109-124 | The same for edges. |
| Records.TextRoundTrip | src/storage/record.cpp:140-159 | Reading a written string gives it back and leaves what follows. |
| Records.ValueRoundTrip | src/storage/record.cpp:161-242 | The same for every kind of value, doubles as eight bytes. |
| Records.PropertiesRoundTrip | src/storage/record.cpp:6-61 | The same for every list of properties. |
| Records.NodeRoundTrip | src/storage/record.cpp:63-93 | Every node record and property list, followed by any bytes, deserializes to itself. |
| Records.EdgeRoundTrip | src/storage/record.cpp:95-124 | Every edge record and property list, followed by any bytes, deserializes to itself. |
| Records.PropertiesExtend | src/storage/record.cpp:23-61 | What a successful read left over does not influence what it read. |
| Records.TruncatedIsRefused | src/storage/record.cpp:23-61 | A serialized list cut off at any byte is refused. |
| Records.PropertiesPrefixFree | src/storage/record.cpp:6-21 | Different lists have serializations of which none begins the other. |
| Checksums.ChecksumDetects | src/util/crc32.cpp:54-72 | The checksum of bytes tells strings apart that differ within four consecutive bytes. |
| PageStore.SealedKeeps | src/storage/file_page_store.cpp:148-157 | Rewriting the header on a write changes only magic number, checksum and page id. |
| PageStore.SealedChecks | src/storage/file_page_store.cpp:155-157 | Every page written carries the checksum of itself with that field cleared. |
| PageStore.SealedCrc | src/storage/file_page_store.cpp:155-157 | That checksum is the CRC-32 of the page with four zero bytes at 12. |
| PageStore.SealedStamps | src/storage/file_page_store.cpp:148-152 | A page written has the magic number at its beginning and its own id at byte 24. |
| PageStore.WrittenSlot | src/storage/file_page_store.cpp:158-165 | A page is written at its id times 4096, and the rest of the file stays. |
| PageStore.CorruptionDetected | src/storage/file_page_store.cpp:155-157 | A page whose checksum holds and that is changed within four consecutive bytes outside the field has a wrong checksum. |
| PageStore.HoldsWritten | src/storage/file_page_store.cpp:140-159 | Writing one page of the file leaves every other page as it was. |
| PageStore.FilePageStore.Allocate | src/storage/file_page_store.cpp:38-61 | A freed page if there is one, otherwise the next id with the file extended by zeros to hold it; every page keeps its bytes. |
| PageStore.FilePageStore.Deallocate | src/storage/file_page_store.cpp:63-87 | Frees a page exactly if it was handed out and is not free. |
| PageStore.FilePageStore.Read | src/storage/file_page_store.cpp:89-121 | The 4096 bytes of the file from the id times 4096 on, or the error for a closed store or an invalid id. |
| PageStore.FilePageStore.Write | src/storage/file_page_store.cpp:123-173 | Exactly the 4096 bytes from the id times 4096 on change, to the sealed data; the errors in the code's order. |
| PageStore.FilePageStore.PageCount | src/storage/file_page_store.cpp:198-204 | The page count is always the sum of allocated and free pages. |
| PageStore.FilePageStore.Close | src/storage/file_page_store.cpp:187-196 | After closing, by Read, Write, Allocate and Deallocate, every call is an I/O error; the file stays as it is. |
| GraphStore.SealedImage | src/storage/graph_store.cpp:367-378 | A stored page keeps its type and its payload despite the header rewriting of write_page. |
| GraphStore.HeaderFields | src/storage/graph_store.cpp:364-378 | The fields of the header of a stored page: magic number, version, type, checksum, free offset, record count, page id, next page. |
| GraphStore.ImageFields | src/storage/graph_store.cpp:364-378 | Header, payload from byte 48, zeros behind it. |
| GraphStore.NodePage | src/storage/graph_store.cpp:354-381 | The page written for a node has type 1 and reads back as exactly that record and those properties. |
| GraphStore.EdgePage | src/storage/graph_store.cpp:394-421 | The same for an edge, with type 2. |
| GraphStore.WriteUnused | src/storage/graph_store.cpp:380-389 | Writing a page no index points to disturbs no stored record. |
| GraphStore.PageTaken | src/storage/graph_store.cpp:453-461 | A page just allocated carries no record that is in use. |
| GraphStore.GraphStore.StoreNodeRecord | src/storage/graph_store.cpp:354-392 | The abstract map of nodes gets exactly this entry; all records stay on different allocated pages. |
| GraphStore.GraphStore.StoreEdgeRecord | src/storage/graph_store.cpp:394-432 | The same for edges. |
| GraphStore.GraphStore.GetNode | src/storage/graph_store.cpp:490-520 | Reading the pages gives exactly the last stored value of the node; NOT_FOUND exactly if there is none. |
| GraphStore.GraphStore.GetEdge | src/storage/graph_store.cpp:219-249 | The same for edges. |
| GraphStore.GraphStore.CreateNode | src/storage/graph_store.cpp:472-487 | A new id, and a record with that id, the number of its properties and the properties; the count goes up by one; nothing else changes. |
| GraphStore.GraphStore.UpdateNode | src/storage/graph_store.cpp:583-596 | Replaces the properties and their number in the record and keeps every other field; NOT_FOUND exactly for an unknown node. |
| GraphStore.GraphStore.CreateEdge | src/storage/graph_store.cpp:523-548 | A new id, and a record with that id, the two ends, label, timestamp and number of properties given; appended to the two lists of its ends, exactly as the index does it; no dangling edge if both ends are live. |
| GraphStore.GraphStore.UpdateEdge | src/storage/graph_store.cpp:550-560 | Replaces the properties and their number in the record and keeps every other field; ends and lists are untouched. |
| GraphStore.NewNode | src/storage/graph_store.cpp:475-479 | The record of a new node, field by field. |
| GraphStore.NewEdge | src/storage/graph_store.cpp:528-535 | The record of a new edge, field by field. |
| GraphStore.GraphStore.DeleteEdge | src/storage/graph_store.cpp:562-581 | Removes the edge from the map, the lists and the count. |
| GraphStore.GraphStore.DeleteNode | src/storage/graph_store.cpp:598-625 | Refused exactly if some edge starts or ends at the node, so no edge is left dangling; an unknown node is not refused. |
| GraphStore.CountAfterCreate | src/storage/graph_store.cpp:485 | A right node count stays right when a node is created. |
| GraphStore.CountAfterDelete | src/storage/graph_store.cpp:623 | A right node count stays right if and only if the deleted node existed. |
| GraphStore.GraphStore.GetAdjacentNodes | src/storage/graph_store.cpp:269-303 | The strictly increasing list of the nodes joined to this one by a live edge in either direction; empty when the page store is closed. |
| Adjacency.ListsOverRuns | src/storage/graph_store.cpp:434-451 | After every run of adding new and removing present edges, each edge is once in the list of its start, once in that of its end, and nowhere else. |
| Adjacency.PushByStart | src/storage/graph_store.cpp:438 | Adding a new edge keeps that. |
| Adjacency.RemoveByStart | src/storage/graph_store.cpp:442-443 | Removing an edge keeps that. |
| Adjacency.WithoutOnce | src/storage/graph_store.cpp:442-443 | From a list that holds an edge once exactly that place goes, and the others keep their order. |
| Adjacency.SortedUniqueExact | src/storage/graph_store.cpp:299-300 | Sorting and removing duplicates gives an increasing list of the same nodes. |
| Adjacency.ListsGiveNeighbours | src/storage/graph_store.cpp:269-303 | Right lists give the neighbour list. |
| Adjacency.NeighboursUnique | src/storage/simple_index_manager.cpp:105-131 | There is only one neighbour list of a node. |
| Adjacency.NeighboursSymmetric | src/storage/graph_store.cpp:278-296 | Being a neighbour is mutual. |
| IndexManager.SimpleIndexManager.AddEdge | src/storage/simple_index_manager.cpp:68-73 | The edge comes last in the list of each end, and its endpoints are recorded; right lists stay right for a new edge. |
| IndexManager.SimpleIndexManager.RemoveEdge | src/storage/simple_index_manager.cpp:75-85 | Lists and endpoints after removing; right lists stay right for the edge's own ends. |
| IndexManager.SimpleIndexManager.GetAdjacentNodes | src/storage/simple_index_manager.cpp:105-131 | The neighbour list of the recorded endpoints. |
| StoreIndex.CreateIndexedEdge | src/cli/repl.cpp:233-241 | Creating an edge in the store and then adding it to the index keeps both right and about the same edges. |
| StoreIndex.DeleteIndexedEdge | src/storage/graph_store.cpp:562-581 | So does deleting an edge from the store and then removing it from the index. |
| StoreIndex.UpdateIndexedEdge | src/storage/graph_store.cpp:550-560 | So does changing the properties of an edge, of which the index is not told. |
| StoreIndex.SameNeighbours | src/storage/simple_index_manager.cpp:105-131 | While they agree, store and index give the same list of neighbours of every node. |
| StoreIndex.DeleteUntold | src/query/cypher/executor.cpp:795-801 | An edge is deleted from the store and the index is not told: the index still knows every edge that is left. |
| StoreIndex.MissedDeletionsHarmlessIff | src/storage/simple_index_manager.cpp:75-85 | However many deletions an index has missed, it gives the same list of neighbours of every node as the store, if and only if every edge that is gone has its two ends joined by one that is left. |
| StoreIndex.MissedDeletionShows | src/storage/simple_index_manager.cpp:105-131 | One edge created in both and deleted from the store: the store gives no neighbour, the index the far end. |
| Wal.ReadRecord | src/storage/wal_manager.cpp:389-457 | Reading one record: complete, of unknown type, or cut short. |
| Wal.RecordRoundTrip | src/storage/wal_manager.cpp:324-457 | A written record, followed by any bytes, reads back with the same LSN, transaction, type, timestamp, node and keys, values replaced by the placeholder. |
| Wal.AsReadExact | src/storage/wal_manager.cpp:409-437 | What is lost in reading a record back: the values, each replaced by the string "placeholder", and nothing else. |
| Wal.RecordLayout | src/storage/wal_manager.cpp:331-336 | Where LSN, transaction, type, timestamp and data size lie in the first 29 bytes of a record, and that the payload follows. |
| Wal.PayloadLayout | src/storage/wal_manager.cpp:338-381 | The payload: a node id, a count and the keys; the LSN of a checkpoint; or nothing. |
| Wal.KeysLayout | src/storage/wal_manager.cpp:346-354 | Each key has its length, cut to 32 bits, in front and the index of its value's type behind. |
| Wal.HeaderLayout | src/storage/wal_manager.h:42-47 | The four fields of the file header, and the eight bytes by which a good one is known. |
| Wal.RecordExtends | src/storage/wal_manager.cpp:389-457 | What follows a record is never looked at. |
| Wal.CutRecordIsShort | src/storage/wal_manager.cpp:399-401 | A record cut off at any byte reads as cut short. |
| Wal.ReplayOfCutLog | src/storage/wal_manager.cpp:286-322 | Replay of a log cut at any byte hands over exactly the whole records, in order, up to the first one refused; the scan at opening sees the same records. |
| Wal.CutFile | src/storage/wal_manager.cpp:60-76 | The same for the file with its header, and the next LSN exceeds that of every whole record. |
| Wal.NextLsnIsNewIff | src/storage/wal_manager.cpp:69-75 | max + 1 exceeds all LSNs seen if and only if the largest 64-bit number is not among them. |
| Wal.NextLsnExact | src/storage/wal_manager.cpp:68-75 | The next LSN is one if nothing was read, zero if the largest 64-bit number was among the LSNs read, and otherwise one more than that of some record read and above those of all. |
| Wal.OpenedLsnExact | src/storage/wal_manager.cpp:59-75 | The same for the counter after opening a file, in terms of the records before the first failure; one if the header is not good. |
| Wal.ConsecutiveGoesOn | src/storage/wal_manager.cpp:59-75 | A log of LSNs from one on, cut anywhere after k whole records: opening goes on with k + 1. |
| Wal.UnknownStopsScanOnly | src/storage/wal_manager.cpp:69-73 | At a record of unknown type the scan of opening stops, while recovery hands over the records behind it too. |
| Wal.HandOverExact | src/storage/wal_manager.cpp:306-316 | What is handed over is the beginning of the log up to and with the first record refused, and everything if none is. |
| Wal.HandOverAll | src/storage/wal_manager.cpp:309-315 | A callback that refuses nothing is handed everything. |
| Wal.WalManager.RecoverFromLog | src/storage/wal_manager.cpp:286-322 | The recovery loop; the counter moves exactly when nothing was refused, and is then one, zero or one more than the largest LSN handed over, as NextLsnExact has it; on a log of whole records everything in it is handed over, and the log stays one that can be added to. |
| Wal.WalManager.Open | src/storage/wal_manager.cpp:59-82 | Every file: shorter than a header it leaves the stream failed; with a good header the counter is that of OpenedLsnExact and writing goes on at the end; with a wrong magic number or version the counter is one and writing goes on behind the header. A log of whole records is taken over with all of them. |
| Wal.WalManager.ScanAll | src/storage/wal_manager.cpp:69-75 | The scan up to the first failure gives the next LSN of NextLsnExact. |
| Wal.WalManager.Append | src/storage/wal_manager.cpp:324-387 | On every manager the LSN goes up by one, from the largest to zero; unless the stream has failed the record's bytes are written where the stream is, over what is there, and otherwise nothing is; a log of numbered whole records stays one. |
| Wal.OverwrittenExact | src/storage/wal_manager.cpp:331-336 | What is written over the file at the stream's place: the bytes stand there and every other byte stays. |
| Wal.WalManager.LogTransaction | src/storage/wal_manager.cpp:95-136 | The same for begin, commit and abort records. |
| Wal.WalManager.LogNode | src/storage/wal_manager.cpp:138-170 | The same for node records, with their size estimate cut to 32 bits. |
| Wal.EstimatedSizeExact | src/storage/wal_manager.cpp:11-36 | The size estimate: eight bytes, and for each property its key and 72 bytes more. |
| Wal.WalManager.Checkpoint | src/storage/wal_manager.cpp:235-261 | The same for a checkpoint record, and the header is rewritten in place with its LSN, keeping its magic number and version, and the rest of the file untouched. |
| Wal.DeleteNodeLeavesBytes | src/storage/wal_manager.cpp:343-344 | After every DELETE_NODE record the reader leaves four bytes that it takes for the next record. |
| Wal.CutBetweenRecords | src/storage/wal_manager.cpp:59-82 | A log as it is written, or cut between two records, is one that opening takes over whole. |
| Wal.AppendAtBoundary | src/storage/wal_manager.cpp:78-80 | What is appended to a log cut between two records is recovered behind the records before the cut. |
| Wal.StrayHides | src/storage/wal_manager.cpp:78-80 | Behind any beginning of any cut record there is, for every LSN, a record that recovery does not find. |
| Wal.AppendedAreRecoveredIff | src/storage/wal_manager.cpp:59-82 | Everything that may be appended after a restart, with the LSNs handed out from then on, is recovered if and only if the log was cut between two records. |
| Wal.AppendAfterCutIsLost | src/storage/wal_manager.cpp:78-80 | For instance: one stray byte hides every following transaction record. |

## Left out

- GraphStore.GraphStore.CreateNode: assumes that the record fits its page (the code copies without a check, and what happens beyond the page is undefined) and that 64-bit page, node and edge ids are not used up.
- GraphStore.GraphStore.UpdateNode: assumes the same.
- GraphStore.GraphStore.CreateEdge: assumes the same.
- GraphStore.GraphStore.UpdateEdge: assumes the same.
- GraphStore.GraphStore.StoreNodeRecord: assumes that the record fits its page and that page ids are not used up.
- GraphStore.GraphStore.StoreEdgeRecord: assumes the same.
- StoreIndex.CreateIndexedEdge: assumes what CreateEdge assumes.
- StoreIndex.UpdateIndexedEdge: assumes what UpdateEdge assumes.
- GraphStore.GraphStore.GetAdjacentNodes: std::sort with std::unique is an insertion into a sorted list, not the library's algorithm.
- PageStore.FilePageStore.Read: returns the bytes, not a view of the one buffer that the next read overwrites.
- Wal.RecordRoundTrip: property values are replaced by a placeholder in the code, so only keys are compared.
- Wal.ReplayOfCutLog: `Wal.Loggable` excludes node deletions and edge records, on which writer and reader do not agree.
- VarInt.Decode: or-ing in seven bits is modelled as adding them, since they lie above all bits present.
- Mvcc.MvccManager.WriteVersion: a call that has to sleep inside the lock manager returns to the caller; going on after the wake-up is a step of `Engine`.
- The transactional operations of GraphStore, which store a version and a page record for one key space of node and edge ids.
- JSON lines of log_operation, and log records of edges.
- Real files, flushing, failing streams, thread memory order; the data races of statistics counters.
- The Cypher grammar and parser, WHERE and RETURN clauses, string conversion and floating-point comparison of property values, labels.
- Joins of several patterns in one MATCH, which the code does not implement.
- Query planner and execution plan, which scan a fixed range of ids.
- Property indexes, batch operations, degree statistics, timestamp visibility: they add only easy members.
- CLI, REPL, logging, benchmarks and result formatting.
